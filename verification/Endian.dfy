/** Fixed-width big-endian numbers. */
module Endian {
  import opened Common

  /** The `k` low-order bytes of a number, most significant first. */
  function BigEndian(n: int, k: nat): (r: Bytes)
    ensures |r| == k
    decreases k
  {
    if k == 0 then [] else BigEndian(n / 256, k - 1) + [n % 256]
  }

  function FromBigEndian(b: Bytes): nat {
    if b == [] then 0 else 256 * FromBigEndian(b[..|b| - 1]) + b[|b| - 1]
  }

  function Pow256(k: nat): nat {
    if k == 0 then 1 else 256 * Pow256(k - 1)
  }

  /** Every number below the capacity is read back as itself. */
  lemma {:induction false} BigEndianRoundTrip(n: nat, k: nat)
    requires n < Pow256(k)
    ensures FromBigEndian(BigEndian(n, k)) == n
  {
    if k > 0 {
      BigEndianRoundTrip(n / 256, k - 1);
      var b := BigEndian(n, k);
      assert b[..|b| - 1] == BigEndian(n / 256, k - 1);
    }
  }

  /** Every byte string is the encoding of the number it reads as. */
  lemma {:induction false} FromBigEndianRoundTrip(b: Bytes)
    ensures FromBigEndian(b) < Pow256(|b|) && BigEndian(FromBigEndian(b), |b|) == b
  {
    if b != [] {
      var init, last := b[..|b| - 1], b[|b| - 1];
      FromBigEndianRoundTrip(init);
      assert FromBigEndian(b) / 256 == FromBigEndian(init) && FromBigEndian(b) % 256 == last;
      assert b == init + [last];
    }
  }

  /** The first byte is the most significant. */
  lemma {:induction false} MostSignificantFirst(a: Byte, b: Bytes)
    ensures FromBigEndian([a] + b) == a * Pow256(|b|) + FromBigEndian(b)
  {
    if b == [] {
      assert [a] + b == [a] && [a][..0] == [];
    } else {
      var init, last := b[..|b| - 1], b[|b| - 1];
      var s := [a] + b;
      assert s[..|s| - 1] == [a] + init && s[|s| - 1] == last;
      MostSignificantFirst(a, init);
      assert a * Pow256(|b|) == 256 * (a * Pow256(|init|));
    }
  }

  lemma BigEndianExample()
    ensures FromBigEndian([1, 2, 3, 4]) == 0x01020304
  {
    MostSignificantFirst(1, [2, 3, 4]);
    MostSignificantFirst(2, [3, 4]);
    MostSignificantFirst(3, [4]);
    MostSignificantFirst(4, []);
    assert [1] + [2, 3, 4] == [1, 2, 3, 4] && [2] + [3, 4] == [2, 3, 4] && [3] + [4] == [3, 4] && [4] + [] == [4];
  }
}
