/** Whole streams: UTF-16, validation, round trips and transcoding. */
module UtfStreams {
  import opened Wrappers
  import opened Utf

  // ----- UTF-8, one character -----

  /** A stream that has ended still yields U+0000, without a byte. */
  lemma DecodeAtEnd()
    ensures Decode8([]) == Read(true, 0, [])
  {
    assert (0 as bv8) & 0x80 == 0;
  }

  /** The bytes consumed are the encoding of the answer. */
  ghost predicate Consumed8(s: seq<bv8>, r: Read) {
    Scalar(r.codepoint) && Encode8(r.codepoint) + r.rest == s
  }

  /** For any stream that has not ended: the decoder succeeds exactly if a
      well-formed character comes next, and the bytes it consumes are the
      encoding of what it answers. */
  lemma Decode8Consumes(s: seq<bv8>)
    requires s != []
    ensures Decode8(s).ok <==> exists n :: 0 <= n <= |s| && WellFormed8(s[..n])
    ensures Decode8(s).ok ==> Consumed8(s, Decode8(s))
  {
    hide *;
    Decode8IsExact(s);
    if Decode8(s).ok {
      var n := Announced(s[0]);
      BeginsWith(s);
      ValueIsScalar8(s[..n]);
      assert s == s[..n] + s[n..];
      IsConsumed8(s, Decode8(s), n);
    }
    if n :| 0 <= n <= |s| && WellFormed8(s[..n]) {
      OneLength8(s, n);
    }
  }

  lemma IsConsumed8(s: seq<bv8>, r: Read, n: nat)
    requires n <= |s| && Scalar(r.codepoint) && r.codepoint <= 0x10FFFF && Encode8(r.codepoint) == s[..n]
      && r.rest == s[n..]
    ensures Consumed8(s, r)
  {
    hide Encode8, Scalar;
    assert s[..n] + s[n..] == s;
  }

  lemma BeginsWith(s: seq<bv8>)
    requires s != [] && BeginsWellFormed8(s)
    ensures Announced(s[0]) <= |s| && WellFormed8(s[..Announced(s[0])])
  {
  }

  lemma DecodeEncoded8(cp: bv32, t: seq<bv8>)
    requires Scalar(cp)
    ensures Encode8(cp) != [] && Decode8(Encode8(cp) + t) == Read(true, cp, t)
  {
    hide *;
    ScalarRange(cp);
    var w := Encode8(cp);
    var s := w + t;
    EncodeIsWellFormed8(cp);
    EncodeLength(cp);
    assert s[..|w|] == w && s[|w|..] == t;
    OneLength8(s, |w|);
    Decode8IsExact(s);
  }

  // ----- Validation -----

  datatype Checked = Checked(ok: bool, out: seq<bv8>, rest: seq<bv8>)

  /** `COPY` and `TRANS` of `Validate`. */
  function Copy(v: Checked, mask: bv8): Checked {
    var c := Next(v.rest, 0);
    Checked(v.ok && GetRange(c) & mask != 0, v.out + [c], Rest(v.rest))
  }

  /** `UTF8::Validate`. */
  function Validate8(s: seq<bv8>): Checked {
    var c := Next(s, 0);
    var first := Checked(true, [c], Rest(s));
    if c & 0x80 == 0 then first
    else
      var kind := GetRange(c);
      if kind == 2 then Copy(first, 0x70)
      else if kind == 3 then Copy(Copy(first, 0x70), 0x70)
      else if kind == 4 then Copy(Copy(first, 0x50), 0x70)
      else if kind == 5 then Copy(Copy(Copy(first, 0x10), 0x70), 0x70)
      else if kind == 6 then Copy(Copy(Copy(first, 0x70), 0x70), 0x70)
      else if kind == 10 then Copy(Copy(first, 0x20), 0x70)
      else if kind == 11 then Copy(Copy(Copy(first, 0x60), 0x70), 0x70)
      else first.(ok := false)
  }

  /** The validator and the decoder agree as they go, and what was copied is
      what was taken, up to the end of the stream. */
  ghost predicate InStep(s: seq<bv8>, v: Checked, r: Read) {
    && v.ok == r.ok && v.rest == r.rest
    && (v.ok ==> v.out + v.rest == s)
  }

  lemma CopyInStep(s: seq<bv8>, v: Checked, r: Read, mask: bv8)
    requires InStep(s, v, r) && mask & 0x70 == mask
    ensures InStep(s, Copy(v, mask), Trans(r, mask))
  {
    if v.rest == [] {
      assert GetRange(0) & mask == 0;
    } else {
      assert v.out + [v.rest[0]] + v.rest[1..] == v.out + v.rest;
    }
  }

  /** `Validate` accepts what `Decode` accepts, and copies exactly the bytes
      it consumed. */
  lemma ValidateAgrees(s: seq<bv8>)
    ensures Validate8(s).ok == Decode8(s).ok && Validate8(s).rest == Decode8(s).rest
    ensures s != [] && Validate8(s).ok ==> Validate8(s).out + Validate8(s).rest == s
  {
    hide Copy, Trans, GetRange;
    if s != [] {
      var c, kind := s[0], GetRange(s[0]);
      var v := Checked(true, [c], s[1..]);
      var r := Read(true, if kind >= 32 then 0 else ((0xFF as bv32) >> kind) & (c as bv32), s[1..]);
      assert [c] + s[1..] == s;
      assert InStep(s, v, r);
      if c & 0x80 != 0 {
        var mask :=
          if kind == 4 then 0x50 else if kind == 5 then 0x10
          else if kind == 10 then 0x20 else if kind == 11 then 0x60 else 0x70;
        CopyInStep(s, v, r, mask);
        CopyInStep(s, Copy(v, mask), Trans(r, mask), 0x70);
        CopyInStep(s, Copy(Copy(v, mask), 0x70), Trans(Trans(r, mask), 0x70), 0x70);
      }
    } else {
      DecodeAtEnd();
      assert (0 as bv8) & 0x80 == 0;
    }
  }

  // ----- UTF-16 -----

  /** `UTF16::Encode`; surrogates are no code points. */
  function Encode16(cp: bv32): seq<bv16>
    requires Scalar(cp)
  {
    if cp <= 0xFFFF then [cp as bv16]
    else
      var v := cp - 0x10000;
      [High(v), Low(v)]
  }

  datatype Read16 = Read16(ok: bool, codepoint: bv32, rest: seq<bv16>)

  function Wide(c: bv16): bv32 {
    c as bv32
  }

  function PairBits(high: bv16, low: bv16): bv32 {
    ((high as bv32 & 0x3FF) << 10) | (low as bv32 & 0x3FF)
  }

  function Pair(high: bv16, low: bv16): bv32 {
    PairBits(high, low) + 0x10000
  }

  function High(v: bv32): bv16
    requires v <= 0xFFFFF
  {
    ((v >> 10) | 0xD800) as bv16
  }

  function Low(v: bv32): bv16 {
    ((v & 0x3FF) | 0xDC00) as bv16
  }

  /** `UTF16::Decode`. */
  function Decode16(s: seq<bv16>): Read16 {
    var c, rest := Next(s, 0), Rest(s);
    if c < 0xD800 || c > 0xDFFF then Read16(true, Wide(c), rest)
    else if c <= 0xDBFF then
      var d := Next(rest, 0);
      Read16(0xDC00 <= d <= 0xDFFF, Pair(c, d), Rest(rest))
    else Read16(false, 0, rest)
  }

  /** A surrogate pair stands for its value in section 2 of RFC 2781. */
  lemma PairValue(high: bv16, low: bv16)
    requires 0xD800 <= high <= 0xDBFF && 0xDC00 <= low <= 0xDFFF
    ensures Pair(high, low) == (high as bv32 - 0xD800) * 0x400 + (low as bv32 - 0xDC00) + 0x10000
  {
  }

  /** The example of section 5 of RFC 2781. */
  lemma KnownEncoding16()
    ensures Encode16(0x12345) == [0xD808, 0xDF45]
  {
  }

  lemma SplitPair(v: bv32)
    requires v <= 0xFFFFF
    ensures 0xD800 <= High(v) <= 0xDBFF && 0xDC00 <= Low(v) <= 0xDFFF && PairBits(High(v), Low(v)) == v
  {
  }

  lemma JoinPair(high: bv16, low: bv16)
    requires 0xD800 <= high <= 0xDBFF && 0xDC00 <= low <= 0xDFFF
    ensures PairBits(high, low) <= 0xFFFFF && High(PairBits(high, low)) == high && Low(PairBits(high, low)) == low
  {
  }

  lemma Supplementary(v: bv32)
    requires v <= 0xFFFFF
    ensures 0xFFFF < v + 0x10000 <= 0x10FFFF && Scalar(v + 0x10000) && v + 0x10000 - 0x10000 == v
  {
  }

  lemma EncodePair(v: bv32)
    requires v <= 0xFFFFF && Scalar(v + 0x10000)
    ensures Encode16(v + 0x10000) == [High(v), Low(v)]
  {
    hide PairBits, High, Low;
    Supplementary(v);
  }

  lemma DecodePair(high: bv16, low: bv16, t: seq<bv16>)
    requires 0xD800 <= high <= 0xDBFF
    ensures Decode16([high, low] + t) == Read16(0xDC00 <= low <= 0xDFFF, Pair(high, low), t)
  {
    hide Pair;
    var s := [high, low] + t;
    assert s[1..] == [low] + t && s[1..][1..] == t;
  }

  lemma UnitIsScalar(c: bv16)
    requires c < 0xD800 || c > 0xDFFF
    ensures Scalar(Wide(c)) && Encode16(Wide(c)) == [c]
  {
  }

  lemma NarrowWide(cp: bv32)
    requires cp <= 0xFFFF
    ensures Wide(cp as bv16) == cp
  {
  }

  lemma WideRange(c: bv16)
    ensures c < 0xD800 || c > 0xDFFF <==> !(0xD800 <= Wide(c) <= 0xDFFF)
  {
  }

  lemma ScalarIsUnit(cp: bv32) returns (c: bv16)
    requires Scalar(cp) && cp <= 0xFFFF
    ensures (c < 0xD800 || c > 0xDFFF) && Wide(c) == cp
  {
    hide Wide;
    c := cp as bv16;
    NarrowWide(cp);
    WideRange(c);
  }

  lemma DecodeUnit(c: bv16, t: seq<bv16>)
    requires c < 0xD800 || c > 0xDFFF
    ensures Decode16([c] + t) == Read16(true, Wide(c), t)
  {
    assert ([c] + t)[1..] == t;
  }

  lemma DecodeEncoded16(cp: bv32, t: seq<bv16>)
    requires Scalar(cp)
    ensures Encode16(cp) != [] && Decode16(Encode16(cp) + t) == Read16(true, cp, t)
  {
    hide *;
    if cp <= 0xFFFF {
      var c := ScalarIsUnit(cp);
      UnitIsScalar(c);
      DecodeUnit(c, t);
    } else {
      var v := OffsetOf(cp);
      SplitPair(v);
      EncodePair(v);
      DecodePair(High(v), Low(v), t);
      PairIs(High(v), Low(v), v);
    }
  }

  lemma OffsetOf(cp: bv32) returns (v: bv32)
    requires Scalar(cp) && cp > 0xFFFF
    ensures v <= 0xFFFFF && v + 0x10000 == cp
  {
    v := cp - 0x10000;
  }

  lemma PairIs(high: bv16, low: bv16, v: bv32)
    requires PairBits(high, low) == v
    ensures Pair(high, low) == v + 0x10000
  {
  }

  ghost predicate Consumed16(s: seq<bv16>, r: Read16) {
    Scalar(r.codepoint) && Encode16(r.codepoint) + r.rest == s
  }

  /** As for UTF-8: exactly the well-formed characters are accepted, and the
      units consumed are the encoding of the answer. */
  lemma Decode16Consumes(s: seq<bv16>)
    requires s != []
    ensures Decode16(s).ok <==> exists n :: 0 <= n <= |s| && WellFormed16(s[..n])
    ensures Decode16(s).ok ==> Consumed16(s, Decode16(s))
  {
    if s[0] < 0xD800 || s[0] > 0xDFFF {
      assert WellFormed16(s[..1]);
      SingleUnit(s);
    } else if |s| >= 2 && s[0] <= 0xDBFF {
      assert s == [s[0], s[1]] + s[2..];
      DecodePair(s[0], s[1], s[2..]);
      if 0xDC00 <= s[1] <= 0xDFFF {
        assert WellFormed16(s[..2]);
        PairConsumed(s);
      }
    }
  }

  lemma SingleUnit(s: seq<bv16>)
    requires s != [] && (s[0] < 0xD800 || s[0] > 0xDFFF)
    ensures Decode16(s).ok && Consumed16(s, Decode16(s))
  {
    hide *;
    var c, t, r := s[0], s[1..], Decode16(s);
    assert [c] + t == s && s[..1] == [c];
    DecodeUnit(c, t);
    var cp := UnitValue(c);
    assert r == Read16(true, cp, t);
    IsConsumed16(s, r, 1);
  }

  lemma UnitValue(c: bv16) returns (cp: bv32)
    requires c < 0xD800 || c > 0xDFFF
    ensures cp == Wide(c) && Scalar(cp) && Encode16(cp) == [c]
  {
    UnitIsScalar(c);
    cp := Wide(c);
  }

  lemma IsConsumed16(s: seq<bv16>, r: Read16, n: nat)
    requires n <= |s| && Scalar(r.codepoint) && Encode16(r.codepoint) == s[..n] && r.rest == s[n..]
    ensures Consumed16(s, r)
  {
    hide Encode16, Scalar;
    assert s[..n] + s[n..] == s;
  }

  lemma PairConsumed(s: seq<bv16>)
    requires |s| >= 2 && 0xD800 <= s[0] <= 0xDBFF && 0xDC00 <= s[1] <= 0xDFFF
    ensures Consumed16(s, Read16(true, Pair(s[0], s[1]), s[2..]))
  {
    hide *;
    var v := PairBits(s[0], s[1]);
    JoinPair(s[0], s[1]);
    Supplementary(v);
    EncodePair(v);
    PairIs(s[0], s[1], v);
    assert s[..2] == [s[0], s[1]];
    IsConsumed16(s, Read16(true, Pair(s[0], s[1]), s[2..]), 2);
  }

  // ----- Whole streams -----

  predicate AllScalar(cps: seq<bv32>) {
    forall i | 0 <= i < |cps| :: Scalar(cps[i])
  }

  function EncodeAll8(cps: seq<bv32>): seq<bv8>
    requires AllScalar(cps)
  {
    if cps == [] then [] else ScalarRange(cps[0]); Encode8(cps[0]) + EncodeAll8(cps[1..])
  }

  function EncodeAll16(cps: seq<bv32>): seq<bv16>
    requires AllScalar(cps)
  {
    if cps == [] then [] else Encode16(cps[0]) + EncodeAll16(cps[1..])
  }

  /** Decoding to the end of the stream. */
  function DecodeAll8(s: seq<bv8>): Option<seq<bv32>>
    decreases |s|
  {
    if s == [] then Some([])
    else
      var r := Decode8(s);
      if !r.ok then None
      else
        Decode8Shrinks(s);
        var more := DecodeAll8(r.rest);
        if more.None? then None else Some([r.codepoint] + more.value)
  }

  function DecodeAll16(s: seq<bv16>): Option<seq<bv32>>
    decreases |s|
  {
    if s == [] then Some([])
    else
      var r := Decode16(s);
      if !r.ok then None
      else
        Decode16Shrinks(s);
        var more := DecodeAll16(r.rest);
        if more.None? then None else Some([r.codepoint] + more.value)
  }

  lemma Decode8Shrinks(s: seq<bv8>)
    requires s != [] && Decode8(s).ok
    ensures |Decode8(s).rest| < |s|
  {
    hide *;
    Decode8Consumes(s);
    ConsumesSome8(s, Decode8(s));
  }

  lemma ConsumesSome8(s: seq<bv8>, r: Read)
    requires Consumed8(s, r)
    ensures |r.rest| < |s|
  {
    ScalarRange(r.codepoint);
    EncodeLength(r.codepoint);
  }

  lemma Decode16Shrinks(s: seq<bv16>)
    requires s != [] && Decode16(s).ok
    ensures |Decode16(s).rest| < |s|
  {
  }

  /** Decoding an encoding gives the sequence back, for any scalar values. */
  lemma {:induction false} RoundTrip8(cps: seq<bv32>)
    requires AllScalar(cps)
    ensures DecodeAll8(EncodeAll8(cps)) == Some(cps)
  {
    hide Decode8, Encode8, Scalar;
    if cps != [] {
      DecodeEncoded8(cps[0], EncodeAll8(cps[1..]));
      RoundTrip8(cps[1..]);
      assert [cps[0]] + cps[1..] == cps;
    }
  }

  lemma {:induction false} RoundTrip16(cps: seq<bv32>)
    requires AllScalar(cps)
    ensures DecodeAll16(EncodeAll16(cps)) == Some(cps)
  {
    hide Decode16, Encode16, Scalar;
    if cps != [] {
      DecodeEncoded16(cps[0], EncodeAll16(cps[1..]));
      RoundTrip16(cps[1..]);
      assert [cps[0]] + cps[1..] == cps;
    }
  }

  /** A stream decodes to a sequence exactly if it is the encoding of that
      sequence; other streams do not decode. */
  lemma {:induction false} DecodeAllIsExact8(s: seq<bv8>, cps: seq<bv32>)
    ensures DecodeAll8(s) == Some(cps) <==> AllScalar(cps) && EncodeAll8(cps) == s
    decreases |s|
  {
    if AllScalar(cps) && EncodeAll8(cps) == s {
      RoundTrip8(cps);
    } else if DecodeAll8(s) == Some(cps) {
      DecodedIsEncoded8(s, cps);
    }
  }

  lemma {:induction false} DecodedIsEncoded8(s: seq<bv8>, cps: seq<bv32>)
    requires DecodeAll8(s) == Some(cps)
    ensures AllScalar(cps) && EncodeAll8(cps) == s
    decreases |s|
  {
    hide Decode8, Encode8, Scalar;
    if s != [] {
      var r := Decode8(s);
      Decode8Consumes(s);
      Decode8Shrinks(s);
      assert cps == [r.codepoint] + cps[1..] && DecodeAll8(r.rest) == Some(cps[1..]);
      DecodedIsEncoded8(r.rest, cps[1..]);
    }
  }

  lemma {:induction false} DecodedIsEncoded16(s: seq<bv16>, cps: seq<bv32>)
    requires DecodeAll16(s) == Some(cps)
    ensures AllScalar(cps) && EncodeAll16(cps) == s
    decreases |s|
  {
    hide Decode16, Encode16, Scalar;
    if s != [] {
      var r := Decode16(s);
      Decode16Consumes(s);
      Decode16Shrinks(s);
      assert cps == [r.codepoint] + cps[1..] && DecodeAll16(r.rest) == Some(cps[1..]);
      DecodedIsEncoded16(r.rest, cps[1..]);
    }
  }

  // ----- Transcoding -----

  /** `Transcoder::Transcode` to the end of the stream. */
  function Transcode8To16(s: seq<bv8>): Option<seq<bv16>>
    decreases |s|
  {
    if s == [] then Some([])
    else
      var r := Decode8(s);
      if !r.ok then None
      else
        Decode8Shrinks(s);
        Decode8Consumes(s);
        var more := Transcode8To16(r.rest);
        if more.None? then None else Some(Encode16(r.codepoint) + more.value)
  }

  function Transcode16To8(s: seq<bv16>): Option<seq<bv8>>
    decreases |s|
  {
    if s == [] then Some([])
    else
      var r := Decode16(s);
      if !r.ok then None
      else
        Decode16Shrinks(s);
        Decode16Consumes(s);
        ScalarRange(r.codepoint);
        var more := Transcode16To8(r.rest);
        if more.None? then None else Some(Encode8(r.codepoint) + more.value)
  }

  lemma {:induction false} TranscodeDecodes8(s: seq<bv8>)
    ensures DecodeAll8(s).None? ==> Transcode8To16(s).None?
    ensures DecodeAll8(s).Some?
      ==> AllScalar(DecodeAll8(s).value) && Transcode8To16(s) == Some(EncodeAll16(DecodeAll8(s).value))
    decreases |s|
  {
    hide Decode8, Encode16, Scalar, Consumed8;
    if s != [] && Decode8(s).ok {
      Decode8Shrinks(s);
      TranscodeDecodes8(Decode8(s).rest);
      if DecodeAll8(s).Some? {
        var cps := DecodeAll8(s).value;
        DecodedIsEncoded8(s, cps);
        assert cps[1..] == DecodeAll8(Decode8(s).rest).value;
      }
    }
  }

  lemma {:induction false} TranscodeDecodes16(s: seq<bv16>)
    ensures DecodeAll16(s).None? ==> Transcode16To8(s).None?
    ensures DecodeAll16(s).Some?
      ==> AllScalar(DecodeAll16(s).value) && Transcode16To8(s) == Some(EncodeAll8(DecodeAll16(s).value))
    decreases |s|
  {
    hide Decode16, Encode8, Scalar, Consumed16;
    if s != [] && Decode16(s).ok {
      Decode16Shrinks(s);
      TranscodeDecodes16(Decode16(s).rest);
      if DecodeAll16(s).Some? {
        var cps := DecodeAll16(s).value;
        DecodedIsEncoded16(s, cps);
        assert cps[1..] == DecodeAll16(Decode16(s).rest).value;
      }
    }
  }

  /** From UTF-8 to UTF-16 and back is the identity on every stream that
      transcodes at all, and those are the encodings of scalar values. */
  lemma TranscodeBack(s: seq<bv8>)
    ensures Transcode8To16(s).Some? <==> exists cps :: AllScalar(cps) && EncodeAll8(cps) == s
    ensures Transcode8To16(s).Some? ==> Transcode16To8(Transcode8To16(s).value) == Some(s)
  {
    hide Transcode8To16, Transcode16To8, DecodeAll8, DecodeAll16, EncodeAll8, EncodeAll16, AllScalar;
    TranscodeDecodes8(s);
    if DecodeAll8(s).Some? {
      var cps := DecodeAll8(s).value;
      DecodeAllIsExact8(s, cps);
      RoundTrip16(cps);
      TranscodeDecodes16(EncodeAll16(cps));
    }
    if cps :| AllScalar(cps) && EncodeAll8(cps) == s {
      RoundTrip8(cps);
    }
  }
}
