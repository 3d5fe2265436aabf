/** Docker's multiplexed stream: 8-byte headers, each followed by its payload. */
module DockerStream {
  import opened Common
  import opened Endian

  const HEADER := 8

  function Size(data: Bytes): nat
    requires |data| >= HEADER
  {
    FromBigEndian(data[4..8])
  }

  /** The payloads of the complete frames at the start of the data. */
  function Decode(data: Bytes): Bytes {
    if |data| < HEADER || |data| - HEADER < Size(data) then []
    else data[HEADER..HEADER + Size(data)] + Decode(data[HEADER + Size(data)..])
  }

  /** Reads header after header until the stream runs out. */
  method DecodeDockerStream(data: Bytes) returns (out: Bytes)
    ensures out == Decode(data)
  {
    hide Decode, FromBigEndian;
    out := [];
    var pos := 0;
    assert data[0..] == data;
    while pos + HEADER <= |data|
      invariant 0 <= pos <= |data|
      invariant out + Decode(data[pos..]) == Decode(data)
      decreases |data| - pos
    {
      var size := FromBigEndian(data[pos + 4..pos + HEADER]);
      NextFrame(data, pos, size);
      pos := pos + HEADER;
      if size == 0 {
        continue;
      }
      if |data| - pos < size {
        break;
      }
      var payload := data[pos..pos + size];
      ConcatAssociative(out, payload, Decode(data[pos + size..]));
      out := out + payload;
      pos := pos + size;
    }
    if pos + HEADER > |data| {
      ShortRest(data, pos);
    }
  }

  lemma ShortRest(data: Bytes, pos: nat)
    requires pos <= |data| < pos + HEADER
    ensures Decode(data[pos..]) == []
  {
  }

  /** What the bytes from a header on decode to. */
  lemma NextFrame(data: Bytes, pos: nat, size: nat)
    requires pos + HEADER <= |data| && size == FromBigEndian(data[pos + 4..pos + HEADER])
    ensures size == 0 ==> Decode(data[pos..]) == Decode(data[pos + HEADER..])
    ensures Decode(data[pos..]) ==
            var start := pos + HEADER;
            if |data| - start < size then [] else data[start..start + size] + Decode(data[start + size..])
  {
    var rest := data[pos..];
    assert rest[4..8] == data[pos + 4..pos + HEADER];
    assert rest[HEADER..] == data[pos + HEADER..];
    if size == 0 { EmptyFrame(rest); }
    if size <= |rest| - HEADER {
      assert rest[HEADER..HEADER + size] == data[pos + HEADER..pos + HEADER + size];
      assert rest[HEADER + size..] == data[pos + HEADER + size..];
    }
  }

  lemma EmptyFrame(rest: Bytes)
    requires |rest| >= HEADER && Size(rest) == 0
    ensures Decode(rest) == Decode(rest[HEADER..])
  {
    var n := Size(rest);
    var tail := Decode(rest[HEADER + n..]);
    assert Decode(rest) == rest[HEADER..HEADER + n] + tail;
    assert rest[HEADER..HEADER + n] == [];
  }

  // ---- Frames ----

  datatype Frame = Frame(stream: Byte, padding: Bytes, payload: Bytes)

  ghost predicate WellFormed(f: Frame) {
    |f.padding| == 3 && |f.payload| < Pow256(4)
  }

  function Encode(f: Frame): Bytes {
    [f.stream] + f.padding + BigEndian(|f.payload|, 4) + f.payload
  }

  function EncodeAll(fs: seq<Frame>): Bytes {
    if fs == [] then [] else Encode(fs[0]) + EncodeAll(fs[1..])
  }

  function Payloads(fs: seq<Frame>): Bytes {
    if fs == [] then [] else fs[0].payload + Payloads(fs[1..])
  }

  lemma HeaderOfFrame(f: Frame, rest: Bytes)
    requires WellFormed(f)
    ensures var data := Encode(f) + rest;
            && |data| >= HEADER + |f.payload| && Size(data) == |f.payload|
            && data[HEADER..HEADER + |f.payload|] == f.payload && data[HEADER + |f.payload|..] == rest
  {
    var data := Encode(f) + rest;
    assert data[4..8] == BigEndian(|f.payload|, 4);
    BigEndianRoundTrip(|f.payload|, 4);
  }

  /** After whole frames, decoding goes on with whatever follows. */
  lemma {:induction false} DecodeDistributes(fs: seq<Frame>, rest: Bytes)
    requires forall f :: f in fs ==> WellFormed(f)
    ensures Decode(EncodeAll(fs) + rest) == Payloads(fs) + Decode(rest)
  {
    hide Encode, Size;
    if fs == [] {
      assert EncodeAll(fs) + rest == rest && Payloads(fs) + Decode(rest) == Decode(rest);
    } else {
      var tail := EncodeAll(fs[1..]) + rest;
      ConcatAssociative(Encode(fs[0]), EncodeAll(fs[1..]), rest);
      HeaderOfFrame(fs[0], tail);
      DecodeDistributes(fs[1..], rest);
      ConcatAssociative(fs[0].payload, Payloads(fs[1..]), Decode(rest));
    }
  }

  /** Not even one complete frame. */
  ghost predicate Incomplete(data: Bytes) {
    |data| < HEADER || |data| - HEADER < Size(data)
  }

  /** A proper prefix of a frame is incomplete. */
  lemma ProperPrefixIsIncomplete(f: Frame, k: nat)
    requires WellFormed(f) && k < |Encode(f)|
    ensures Incomplete(Encode(f)[..k])
  {
    if k >= HEADER {
      HeaderOfFrame(f, []);
      assert Encode(f) + [] == Encode(f);
      assert Encode(f)[..k][4..8] == Encode(f)[4..8];
    }
  }

  function Zeros(n: nat): Bytes {
    seq(n, _ => 0)
  }

  /** And whatever is incomplete is a proper prefix of some frame. */
  lemma IncompleteIsProperPrefix(rest: Bytes) returns (f: Frame, k: nat)
    requires Incomplete(rest)
    ensures WellFormed(f) && k < |Encode(f)| && rest == Encode(f)[..k]
  {
    hide FromBigEndian, BigEndian, Pow256;
    var header := if |rest| < HEADER then rest + Zeros(HEADER - |rest|) else rest[..HEADER];
    var body := if |rest| < HEADER then [] else rest[HEADER..];
    var size := FromBigEndian(header[4..8]);
    FromBigEndianRoundTrip(header[4..8]);
    assert |rest| >= HEADER ==> header[4..8] == rest[4..8];
    f := Frame(header[0], header[1..4], body + Zeros(size - |body|));
    k := |rest|;
    assert |f.payload| == size;
    assert Encode(f) == header + f.payload by {
      assert header == [header[0]] + header[1..4] + header[4..8];
    }
    assert |rest| < HEADER ==> rest == header[..k] == Encode(f)[..k];
    assert |rest| >= HEADER ==> rest == header + body == Encode(f)[..k];
  }

  /** Whole frames followed by part of one more decode to exactly the payloads of the whole ones. */
  lemma DecodeFrames(fs: seq<Frame>, last: Frame, k: nat)
    requires (forall f :: f in fs ==> WellFormed(f)) && WellFormed(last) && k < |Encode(last)|
    ensures Decode(EncodeAll(fs) + Encode(last)[..k]) == Payloads(fs)
  {
    ProperPrefixIsIncomplete(last, k);
    DecodeDistributes(fs, Encode(last)[..k]);
    assert Payloads(fs) + [] == Payloads(fs);
  }

  /** Every byte string whatever is a sequence of frames and an incomplete rest,
      and decodes to the payloads of those frames. */
  lemma {:induction false} EveryStreamIsFrames(data: Bytes) returns (fs: seq<Frame>, rest: Bytes)
    ensures (forall f :: f in fs ==> WellFormed(f)) && Incomplete(rest)
    ensures data == EncodeAll(fs) + rest && Decode(data) == Payloads(fs)
    decreases |data|
  {
    if Incomplete(data) {
      fs, rest := [], data;
      assert EncodeAll([]) + data == data;
    } else {
      var n := Size(data);
      var f := Frame(data[0], data[1..4], data[HEADER..HEADER + n]);
      var more;
      more, rest := EveryStreamIsFrames(data[HEADER + n..]);
      fs := [f] + more;
      FromBigEndianRoundTrip(data[4..8]);
      assert fs[0] == f && fs[1..] == more;
      assert data == Encode(f) + data[HEADER + n..] by {
        assert data == [data[0]] + data[1..4] + data[4..8] + data[HEADER..HEADER + n] + data[HEADER + n..];
      }
      ConcatAssociative(Encode(f), EncodeAll(more), rest);
    }
  }
}
