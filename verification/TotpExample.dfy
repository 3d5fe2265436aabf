/** The test values of appendix D of RFC 4226. */
module TotpExample {
  import opened Common
  import opened Endian
  import opened Totp

  /** The digits 1 to 0, twice. */
  const SECRET: Bytes := [0x31, 0x32, 0x33, 0x34, 0x35, 0x36, 0x37, 0x38, 0x39, 0x30,
                          0x31, 0x32, 0x33, 0x34, 0x35, 0x36, 0x37, 0x38, 0x39, 0x30]

  /** The HMAC values of that secret for the counters 0, 1 and 2. */
  const DIGEST0: Digest := [0xcc, 0x93, 0xcf, 0x18, 0x50, 0x8d, 0x94, 0x93, 0x4c, 0x64, 0xb6, 0x5d, 0x8b, 0xa7, 0x66, 0x7f, 0xb7, 0xcd, 0xe4, 0xb0]
  const DIGEST1: Digest := [0x75, 0xa4, 0x8a, 0x19, 0xd4, 0xcb, 0xe1, 0x00, 0x64, 0x4e, 0x8a, 0xc1, 0x39, 0x7e, 0xea, 0x74, 0x7a, 0x2d, 0x33, 0xab]
  const DIGEST2: Digest := [0x0b, 0xac, 0xb7, 0xfa, 0x08, 0x2f, 0xef, 0x30, 0x78, 0x22, 0x11, 0x93, 0x8b, 0xc1, 0xc5, 0xe7, 0x04, 0x16, 0xff, 0x44]

  /** A MAC that is HMAC-SHA-1 where the appendix gives it. */
  function TableMac(key: Bytes, message: Bytes): Digest {
    if key != SECRET then seq(20, _ => 0)
    else if message == [0, 0, 0, 0, 0, 0, 0, 0] then DIGEST0
    else if message == [0, 0, 0, 0, 0, 0, 0, 1] then DIGEST1
    else if message == [0, 0, 0, 0, 0, 0, 0, 2] then DIGEST2
    else seq(20, _ => 0)
  }

  /** Code generation reproduces the first codes of the appendix. */
  lemma FirstCodes()
    ensures Generate(TableMac, SECRET, 0) == 755224
    ensures Generate(TableMac, SECRET, 1) == 287082
    ensures Generate(TableMac, SECRET, 2) == 359152
  {
    hide Truncate;
    Counter(0);
    Counter(1);
    Counter(2);
    assert Truncate(DIGEST0) == 755224 by { Truncation0(); }
    assert Truncate(DIGEST1) == 287082 by { Truncation1(); }
    assert Truncate(DIGEST2) == 359152 by { Truncation2(); }
  }

  lemma Counter(c: Byte)
    ensures BigEndian(c, 8) == [0, 0, 0, 0, 0, 0, 0, c]
  {
    assert BigEndian(0, 0) == [] && BigEndian(0, 1) == [0] && BigEndian(0, 2) == [0, 0] && BigEndian(0, 3) == [0, 0, 0];
    assert BigEndian(0, 4) == [0, 0, 0, 0] && BigEndian(0, 5) == [0, 0, 0, 0, 0] && BigEndian(0, 6) == [0, 0, 0, 0, 0, 0];
    assert BigEndian(0, 7) == [0, 0, 0, 0, 0, 0, 0];
  }

  lemma Truncation0()
    ensures Truncate(DIGEST0) == 755224
  {
  }

  lemma Truncation1()
    ensures Truncate(DIGEST1) == 287082
  {
  }

  lemma Truncation2()
    ensures Truncate(DIGEST2) == 359152
  {
  }
}
