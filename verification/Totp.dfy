/**
 Time-based one-time passwords: code generation as in sections 5.3 and 5.4 of
 RFC 4226, acceptance with one period of skew as in section 5.2 of RFC 6238, and
 the replay guard under concurrent verification.

 HMAC-SHA1, the clock and the random secrets are parameters; the code has
 already been parsed as a number, if it is one.
 */
module Totp {
  import opened Common
  import opened Endian

  const PERIOD := 30
  const SKEW := 1
  const MODULUS := 1_000_000

  /** Go's integer division truncates toward zero. */
  function GoDiv(a: int, b: int): int
    requires b > 0
  {
    if a >= 0 then a / b else -((-a) / b)
  }

  lemma GoDivIsMonotone(a: int, b: int)
    requires a <= b
    ensures GoDiv(a, PERIOD) <= GoDiv(b, PERIOD)
  {
  }

  /** The quotient is exact up to the divisor, and symmetric about zero. */
  lemma GoDivIsTruncation(a: int, b: int)
    requires b > 0
    ensures a >= 0 ==> b * GoDiv(a, b) <= a < b * GoDiv(a, b) + b
    ensures GoDiv(-a, b) == -GoDiv(a, b)
  {
  }

  // ---- Code generation ----

  type Digest = b: Bytes | |b| == 20 witness seq(20, _ => 0)
  type Mac = (Bytes, Bytes) -> Digest

  /** Dynamic truncation: the low four bits of the last byte select four bytes,
      of which the top bit is dropped. Masks and shifts of bytes are written as arithmetic. */
  function Truncate(h: Digest): (code: nat)
    ensures code < MODULUS
  {
    var offset := h[19] % 16;
    Number(h[offset] % 128, h[offset + 1], h[offset + 2], h[offset + 3]) % MODULUS
  }

  function Generate(mac: Mac, secret: Bytes, counter: int): nat {
    Truncate(mac(secret, BigEndian(counter, 8)))
  }

  /** The code of a counter is made from the MAC keyed with the secret over the
      counter's eight bytes, most significant first. */
  lemma GenerateUsesMac(mac: Mac, secret: Bytes, m: Bytes)
    requires |m| == 8
    ensures Generate(mac, secret, FromBigEndian(m)) == Truncate(mac(secret, m))
  {
    FromBigEndianRoundTrip(m);
  }

  function Number(a: int, b: int, c: int, d: int): int {
    a * 0x1000000 + b * 0x10000 + c * 0x100 + d
  }

  lemma NoBytes()
    ensures FromBigEndian([]) == 0
  {
  }

  lemma FourBytes(b: Bytes)
    requires |b| == 4
    ensures FromBigEndian(b) == Number(b[0], b[1], b[2], b[3])
  {
    hide FromBigEndian;
    MostSignificantFirst(b[0], b[1..]);
    MostSignificantFirst(b[1], b[2..]);
    MostSignificantFirst(b[2], b[3..]);
    MostSignificantFirst(b[3], []);
    assert b == [b[0]] + b[1..] && b[1..] == [b[1]] + b[2..] && b[2..] == [b[2]] + b[3..] && b[3..] == [b[3]] + [];
    assert FromBigEndian([]) == 0 by { NoBytes(); }
    assert Pow256(1) == 0x100 && Pow256(2) == 0x10000 && Pow256(3) == 0x1000000;
  }

  /** Dynamic truncation is the 31-bit number found at the offset, in six digits. */
  lemma TruncateIsWindow(h: Digest)
    ensures var o := h[19] % 16; Truncate(h) == FromBigEndian(h[o..o + 4]) % 0x8000_0000 % MODULUS
  {
    var o := h[19] % 16;
    FourBytes(h[o..o + 4]);
    TopBitDropped(h[o], h[o + 1], h[o + 2], h[o + 3]);
  }

  lemma TopBitDropped(a: int, b: int, c: int, d: int)
    requires 0 <= a < 256 && 0 <= b < 256 && 0 <= c < 256 && 0 <= d < 256
    ensures Number(a, b, c, d) % 0x8000_0000 == Number(a % 128, b, c, d)
  {
    if a < 128 {
      assert a % 128 == a;
    } else {
      assert a % 128 == a - 128;
      assert Number(a, b, c, d) == 0x8000_0000 + Number(a - 128, b, c, d);
    }
  }

  /** The worked example of section 5.4 of RFC 4226. */
  lemma TruncateExample()
    ensures Truncate([0x1f, 0x86, 0x98, 0x69, 0x0e, 0x02, 0xca, 0x16, 0x61, 0x85,
                      0x50, 0xef, 0x7f, 0x19, 0xda, 0x8e, 0x94, 0x5b, 0x55, 0x5a]) == 872921
  {
  }

  /** Only the 31 bits selected by the offset matter. */
  lemma TruncateDependsOnWindow(g: Digest, h: Digest)
    requires g[19] % 16 == h[19] % 16
    requires var o := h[19] % 16; g[o] % 128 == h[o] % 128 && g[o + 1..o + 4] == h[o + 1..o + 4]
    ensures Truncate(g) == Truncate(h)
  {
    var o := h[19] % 16;
    assert g[o + 1] == g[o + 1..o + 4][0] && g[o + 2] == g[o + 1..o + 4][1] && g[o + 3] == g[o + 1..o + 4][2];
    assert h[o + 1] == h[o + 1..o + 4][0] && h[o + 2] == h[o + 1..o + 4][1] && h[o + 3] == h[o + 1..o + 4][2];
  }

  // ---- Matching a code ----

  /** The earliest period around `now` whose code is `code`. */
  function FirstMatch(mac: Mac, secret: Bytes, code: int, now: int): Option<int> {
    var c := GoDiv(now, PERIOD);
    if Generate(mac, secret, c - 1) == code then Some(c - 1)
    else if Generate(mac, secret, c) == code then Some(c)
    else if Generate(mac, secret, c + 1) == code then Some(c + 1)
    else None
  }

  lemma FirstMatchIsEarliest(mac: Mac, secret: Bytes, code: int, now: int)
    ensures var r, base := FirstMatch(mac, secret, code, now), GoDiv(now, PERIOD);
            && (r.Some? ==> base - SKEW <= r.value <= base + SKEW && Generate(mac, secret, r.value) == code)
            && (forall c :: base - SKEW <= c <= base + SKEW && Generate(mac, secret, c) == code ==> r.Some? && r.value <= c)
  {
    hide Truncate, Generate, GoDiv;
    var r, base := FirstMatch(mac, secret, code, now), GoDiv(now, PERIOD);
    forall c | base - SKEW <= c <= base + SKEW && Generate(mac, secret, c) == code ensures r.Some? && r.value <= c {
      assert c == base - 1 || c == base || c == base + 1;
    }
  }

  lemma OutOfRangeNeverMatches(mac: Mac, secret: Bytes, code: int, now: int)
    requires code < 0 || code >= MODULUS
    ensures FirstMatch(mac, secret, code, now) == None
  {
    hide Generate;
    FirstMatchIsEarliest(mac, secret, code, now);
    CodesAreInRange(mac, secret, GoDiv(now, PERIOD) - 1);
    CodesAreInRange(mac, secret, GoDiv(now, PERIOD));
    CodesAreInRange(mac, secret, GoDiv(now, PERIOD) + 1);
  }

  lemma CodesAreInRange(mac: Mac, secret: Bytes, counter: int)
    ensures 0 <= Generate(mac, secret, counter) < MODULUS
  {
  }

  function Last(last: map<string, int>, key: string): int {
    if key in last then last[key] else 0
  }

  /** The counter that is accepted: the first match, unless it is not after the last one used. */
  function Accepts(mac: Mac, last: map<string, int>, key: string, secret: Bytes, code: int, now: int): Option<int> {
    var m := FirstMatch(mac, secret, code, now);
    if m.Some? && m.value > Last(last, key) then m else None
  }

  /** Period `c` is within the skew of `now` and has this code. */
  ghost predicate Matches(mac: Mac, secret: Bytes, code: int, now: int, c: int) {
    GoDiv(now, PERIOD) - SKEW <= c <= GoDiv(now, PERIOD) + SKEW && Generate(mac, secret, c) == code
  }

  /** A code that matches an unused period is refused exactly if it matches a used
      one in the window as well. */
  lemma UnusedPeriodRefusedIff(mac: Mac, last: map<string, int>, key: string, secret: Bytes, code: int, now: int, c: int)
    requires Matches(mac, secret, code, now, c) && c > Last(last, key)
    ensures Accepts(mac, last, key, secret, code, now).None?
       <==> exists used :: used <= Last(last, key) && Matches(mac, secret, code, now, used)
  {
    hide Generate, GoDiv;
    FirstMatchIsEarliest(mac, secret, code, now);
    var m := FirstMatch(mac, secret, code, now);
    assert Matches(mac, secret, code, now, m.value);
  }

  /** Acceptance is exactly that some period in the window matches and no used one does. */
  lemma AcceptsIff(mac: Mac, last: map<string, int>, key: string, secret: Bytes, code: int, now: int)
    ensures Accepts(mac, last, key, secret, code, now).Some?
       <==> && (exists c :: Matches(mac, secret, code, now, c))
            && (forall c :: Matches(mac, secret, code, now, c) ==> c > Last(last, key))
  {
    hide Generate, GoDiv;
    FirstMatchIsEarliest(mac, secret, code, now);
    var m := FirstMatch(mac, secret, code, now);
    assert m.Some? ==> Matches(mac, secret, code, now, m.value);
  }

  /** Under a MAC that ignores its input every period has the same code: two
      periods after the last use the code matches an unused period and is refused. */
  lemma UnusedPeriodCanBeRefused(digest: Digest, key: string, secret: Bytes, now: int)
    requires now >= PERIOD
    ensures var mac: Mac := (_, _) => digest;
            var c := GoDiv(now, PERIOD);
            && Matches(mac, secret, Truncate(digest), now + PERIOD, c + 2)
            && Accepts(mac, map[key := c], key, secret, Truncate(digest), now + PERIOD) == None
  {
    var mac: Mac := (_, _) => digest;
    var c := GoDiv(now, PERIOD);
    assert GoDiv(now + PERIOD, PERIOD) == c + 1;
    assert Generate(mac, secret, c) == Generate(mac, secret, c + 2) == Truncate(digest);
    assert Matches(mac, secret, Truncate(digest), now + PERIOD, c);
    AcceptsIff(mac, map[key := c], key, secret, Truncate(digest), now + PERIOD);
  }

  class TotpStore {
    const mac: Mac
    var secrets: map<string, Bytes>
    var lastCounter: map<string, int>

    constructor (mac: Mac)
      ensures this.mac == mac && secrets == map[] && lastCounter == map[]
    {
      this.mac := mac;
      secrets, lastCounter := map[], map[];
    }

    /** A new secret; the counter of a previous enrolment stays. */
    method Enroll(key: string, raw: Bytes)
      modifies this`secrets
      ensures secrets == old(secrets)[key := raw]
    {
      secrets := secrets[key := raw];
    }

    method Verify(key: string, code: Option<int>, now: int) returns (ok: bool)
      modifies this`lastCounter
      ensures ok <==> key in secrets && code.Some? && Accepts(mac, old(lastCounter), key, secrets[key], code.value, now).Some?
      ensures lastCounter ==
        if ok then old(lastCounter)[key := Accepts(mac, old(lastCounter), key, secrets[key], code.value, now).value]
        else old(lastCounter)
    {
      hide Truncate, Generate, FirstMatch, GoDiv;
      if key !in secrets || code.None? {
        return false;
      }
      var secret := secrets[key];
      if code.value < 0 || code.value >= MODULUS {
        OutOfRangeNeverMatches(mac, secret, code.value, now);
        return false;
      }
      FirstMatchIsEarliest(mac, secret, code.value, now);
      var base := GoDiv(now, PERIOD);
      var counter := base - SKEW;
      while counter <= base + SKEW
        invariant base - SKEW <= counter <= base + SKEW + 1 && lastCounter == old(lastCounter)
        invariant forall c :: base - SKEW <= c < counter ==> Generate(mac, secret, c) != code.value
      {
        if Generate(mac, secret, counter) == code.value {
          var m := FirstMatch(mac, secret, code.value, now);
          assert m == Some(counter);
          if counter <= Last(lastCounter, key) {
            return false;
          }
          lastCounter := lastCounter[key := counter];
          return true;
        }
        counter := counter + 1;
      }
      return false;
    }

    method Remove(key: string)
      modifies this
      ensures secrets == old(secrets) - {key} && lastCounter == old(lastCounter) - {key}
    {
      secrets := secrets - {key};
      lastCounter := lastCounter - {key};
    }
  }
}
