/** UTF-8 and UTF-16 as the standards define them, and the table-driven codec. */
module Utf {

  /** A Unicode scalar value. */
  predicate Scalar(cp: bv32) {
    cp <= 0x10FFFF && !(0xD800 <= cp <= 0xDFFF)
  }

  // ----- What the standards say -----

  predicate Tail(b: bv8) {
    0x80 <= b <= 0xBF
  }

  /** One character, as section 4 of RFC 3629 spells it. */
  predicate WellFormed8(s: seq<bv8>) {
    || (|s| == 1 && s[0] <= 0x7F)
    || (|s| == 2 && 0xC2 <= s[0] <= 0xDF && Tail(s[1]))
    || (|s| == 3 && s[0] == 0xE0 && 0xA0 <= s[1] <= 0xBF && Tail(s[2]))
    || (|s| == 3 && 0xE1 <= s[0] <= 0xEC && Tail(s[1]) && Tail(s[2]))
    || (|s| == 3 && s[0] == 0xED && 0x80 <= s[1] <= 0x9F && Tail(s[2]))
    || (|s| == 3 && 0xEE <= s[0] <= 0xEF && Tail(s[1]) && Tail(s[2]))
    || (|s| == 4 && s[0] == 0xF0 && 0x90 <= s[1] <= 0xBF && Tail(s[2]) && Tail(s[3]))
    || (|s| == 4 && 0xF1 <= s[0] <= 0xF3 && Tail(s[1]) && Tail(s[2]) && Tail(s[3]))
    || (|s| == 4 && s[0] == 0xF4 && 0x80 <= s[1] <= 0x8F && Tail(s[2]) && Tail(s[3]))
  }

  /** One character, as section 2 of RFC 2781 has it. */
  predicate WellFormed16(s: seq<bv16>) {
    || (|s| == 1 && !(0xD800 <= s[0] <= 0xDFFF))
    || (|s| == 2 && 0xD800 <= s[0] <= 0xDBFF && 0xDC00 <= s[1] <= 0xDFFF)
  }

  // ----- Streams -----

  /** The next unit; at the end of the stream it is 0, and stays so. */
  function Next<T>(s: seq<T>, zero: T): T {
    if s == [] then zero else s[0]
  }

  function Rest<T>(s: seq<T>): seq<T> {
    if s == [] then [] else s[1..]
  }

  // ----- UTF-8 -----

  /** `UTF8::Encode`. */
  function Encode8(cp: bv32): seq<bv8>
    requires cp <= 0x10FFFF
  {
    if cp <= 0x7F then [(cp & 0xFF) as bv8]
    else if cp <= 0x7FF then
      [(0xC0 | ((cp >> 6) & 0xFF)) as bv8, (0x80 | (cp & 0x3F)) as bv8]
    else if cp <= 0xFFFF then
      [(0xE0 | ((cp >> 12) & 0xFF)) as bv8, (0x80 | ((cp >> 6) & 0x3F)) as bv8, (0x80 | (cp & 0x3F)) as bv8]
    else
      [(0xF0 | ((cp >> 18) & 0xFF)) as bv8, (0x80 | ((cp >> 12) & 0x3F)) as bv8, (0x80 | ((cp >> 6) & 0x3F)) as bv8,
        (0x80 | (cp & 0x3F)) as bv8]
  }

  /** `GetRange`, by the runs of equal entries of its table. */
  function GetRange(c: bv8): bv8 {
    if c <= 0x7F then 0
    else if c <= 0x8F then 0x10
    else if c <= 0x9F then 0x40
    else if c <= 0xBF then 0x20
    else if c <= 0xC1 then 8
    else if c <= 0xDF then 2
    else if c == 0xE0 then 10
    else if c <= 0xEC then 3
    else if c == 0xED then 4
    else if c <= 0xEF then 3
    else if c == 0xF0 then 11
    else if c <= 0xF3 then 6
    else if c == 0xF4 then 5
    else 8
  }

  /** The decoder between two bytes. */
  datatype Read = Read(ok: bool, codepoint: bv32, rest: seq<bv8>)

  /** Six more bits from a byte. */
  function Shifted(codepoint: bv32, c: bv8): bv32 {
    (codepoint << 6) | ((c & 0x3F) as bv32)
  }

  /** `COPY` and `TRANS`: takes a byte, and asks for one of the ranges. */
  function Trans(r: Read, mask: bv8): Read {
    var c := Next(r.rest, 0);
    Read(r.ok && GetRange(c) & mask != 0, Shifted(r.codepoint, c), Rest(r.rest))
  }

  function TailByte(r: Read): Read {
    Trans(r, 0x70)
  }

  /** `UTF8::Decode`. */
  function Decode8(s: seq<bv8>): Read {
    var c, rest := Next(s, 0), Rest(s);
    if c & 0x80 == 0 then Read(true, c as bv32, rest)
    else
      var kind := GetRange(c);
      var first := Read(true, if kind >= 32 then 0 else ((0xFF as bv32) >> kind) & (c as bv32), rest);
      if kind == 2 then TailByte(first)
      else if kind == 3 then TailByte(TailByte(first))
      else if kind == 4 then TailByte(Trans(first, 0x50))
      else if kind == 5 then TailByte(TailByte(Trans(first, 0x10)))
      else if kind == 6 then TailByte(TailByte(TailByte(first)))
      else if kind == 10 then TailByte(Trans(first, 0x20))
      else if kind == 11 then TailByte(TailByte(Trans(first, 0x60)))
      else first.(ok := false)
  }

  // ----- What the UTF-8 codec achieves -----

  /** The scalar value of a well-formed character, section 3 of RFC 3629. */
  function Value8(w: seq<bv8>): bv32
    requires WellFormed8(w)
  {
    if |w| == 1 then w[0] as bv32
    else if |w| == 2 then Join2(w[0], w[1])
    else if |w| == 3 then Join3(w[0], w[1], w[2])
    else Join4(w[0], w[1], w[2], w[3])
  }

  function Join2(a: bv8, b: bv8): bv32 {
    (((a & 0x1F) as bv32) << 6) | ((b & 0x3F) as bv32)
  }

  function Join3(a: bv8, b: bv8, c: bv8): bv32 {
    (((a & 0x0F) as bv32) << 12) | (((b & 0x3F) as bv32) << 6) | ((c & 0x3F) as bv32)
  }

  function Join4(a: bv8, b: bv8, c: bv8, d: bv8): bv32 {
    (((a & 0x07) as bv32) << 18) | (((b & 0x3F) as bv32) << 12) | (((c & 0x3F) as bv32) << 6) | ((d & 0x3F) as bv32)
  }

  /** The examples of section 7 of RFC 3629. */
  lemma KnownEncodings8()
    ensures Encode8(0x41) == [0x41] && Encode8(0x391) == [0xCE, 0x91]
    ensures Encode8(0x2262) == [0xE2, 0x89, 0xA2] && Encode8(0xD55C) == [0xED, 0x95, 0x9C]
    ensures Encode8(0x65E5) == [0xE6, 0x97, 0xA5] && Encode8(0x233B4) == [0xF0, 0xA3, 0x8E, 0xB4]
  {
  }

  lemma Bits2(cp: bv32)
    requires cp <= 0x7FF
    ensures Join2((0xC0 | ((cp >> 6) & 0xFF)) as bv8, (0x80 | (cp & 0x3F)) as bv8) == cp
  {
  }

  lemma Bits3(cp: bv32)
    requires cp <= 0xFFFF
    ensures Join3((0xE0 | ((cp >> 12) & 0xFF)) as bv8, (0x80 | ((cp >> 6) & 0x3F)) as bv8,
      (0x80 | (cp & 0x3F)) as bv8) == cp
  {
  }

  lemma Bits4(cp: bv32)
    requires cp <= 0x10FFFF
    ensures Join4((0xF0 | ((cp >> 18) & 0xFF)) as bv8, (0x80 | ((cp >> 12) & 0x3F)) as bv8,
                  (0x80 | ((cp >> 6) & 0x3F)) as bv8, (0x80 | (cp & 0x3F)) as bv8) == cp
  {
  }

  lemma TailBits(x: bv32)
    ensures Tail((0x80 | (x & 0x3F)) as bv8)
  {
  }

  lemma JoinEncoded(cp: bv32)
    requires cp <= 0x10FFFF
    ensures var w := Encode8(cp);
      && (|w| == 2 ==> Join2(w[0], w[1]) == cp && Tail(w[1]))
      && (|w| == 3 ==> Join3(w[0], w[1], w[2]) == cp && Tail(w[1]) && Tail(w[2]))
      && (|w| == 4 ==> Join4(w[0], w[1], w[2], w[3]) == cp && Tail(w[1]) && Tail(w[2]) && Tail(w[3]))
  {
    hide Join2, Join3, Join4, Tail;
    TailBits(cp);
    TailBits(cp >> 6);
    TailBits(cp >> 12);
    if 0x7F < cp <= 0x7FF {
      Bits2(cp);
    } else if 0x7FF < cp <= 0xFFFF {
      Bits3(cp);
    } else if cp > 0xFFFF {
      Bits4(cp);
    }
  }

  lemma EncodeRanges(cp: bv32)
    requires Scalar(cp)
    ensures var w := Encode8(cp);
      && (|w| == 1 ==> w[0] <= 0x7F && w[0] as bv32 == cp)
      && (|w| == 2 ==> 0xC2 <= w[0] <= 0xDF)
      && (|w| == 3 ==> 0xE0 <= w[0] <= 0xEF && (w[0] == 0xE0 ==> w[1] >= 0xA0) && (w[0] == 0xED ==> w[1] <= 0x9F))
      && (|w| == 4 ==> 0xF0 <= w[0] <= 0xF4 && (w[0] == 0xF0 ==> w[1] >= 0x90) && (w[0] == 0xF4 ==> w[1] <= 0x8F))
  {
  }

  /** A scalar value is encoded as a well-formed character that stands for
      it. */
  lemma EncodeIsWellFormed8(cp: bv32)
    requires Scalar(cp)
    ensures WellFormed8(Encode8(cp)) && Value8(Encode8(cp)) == cp
  {
    hide Join2, Join3, Join4, Scalar;
    JoinEncoded(cp) by { ScalarRange(cp); }
    EncodeRanges(cp);
    EncodeLength(cp) by { ScalarRange(cp); }
    hide Encode8;
  }

  lemma ScalarRange(cp: bv32)
    requires Scalar(cp)
    ensures cp <= 0x10FFFF
  {
  }

  lemma EncodeLength(cp: bv32)
    requires cp <= 0x10FFFF
    ensures 1 <= |Encode8(cp)| <= 4
  {
  }

  /** A well-formed character stands for a scalar value, and is its only
      encoding. */
  lemma ValueIsScalar8(w: seq<bv8>)
    requires WellFormed8(w)
    ensures Scalar(Value8(w)) && Encode8(Value8(w)) == w
  {
    if |w| == 2 {
      Split2(w[0], w[1]);
    } else if |w| == 3 {
      Split3(w[0], w[1], w[2]);
    } else if |w| == 4 {
      Split4(w[0], w[1], w[2], w[3]);
    }
  }

  lemma Split2(a: bv8, b: bv8)
    requires WellFormed8([a, b])
    ensures Scalar(Join2(a, b)) && Encode8(Join2(a, b)) == [a, b]
  {
  }

  lemma Split3(a: bv8, b: bv8, c: bv8)
    requires WellFormed8([a, b, c])
    ensures Scalar(Join3(a, b, c)) && Encode8(Join3(a, b, c)) == [a, b, c]
  {
    hide *;
    Ranges3(a, b, c);
    Split3Range(a, b, c);
    Split3Encoded(a, b, c, Join3(a, b, c));
  }

  lemma Split3Encoded(a: bv8, b: bv8, c: bv8, v: bv32)
    requires 0xE0 <= a <= 0xEF && Tail(b) && Tail(c) && v == Join3(a, b, c) && 0x7FF < v <= 0xFFFF
    ensures Encode8(v) == [a, b, c]
  {
    hide *;
    Split3Bytes(a, b, c);
    Encode3(v, a, b, c);
  }

  lemma Encode3(v: bv32, a: bv8, b: bv8, c: bv8)
    requires 0x7FF < v <= 0xFFFF
    requires (0xE0 | ((v >> 12) & 0xFF)) as bv8 == a && (0x80 | ((v >> 6) & 0x3F)) as bv8 == b
      && (0x80 | (v & 0x3F)) as bv8 == c
    ensures Encode8(v) == [a, b, c]
  {
  }

  lemma Ranges3(a: bv8, b: bv8, c: bv8)
    requires WellFormed8([a, b, c])
    ensures 0xE0 <= a <= 0xEF && Tail(b) && Tail(c) && (a == 0xE0 ==> b >= 0xA0) && (a == 0xED ==> b <= 0x9F)
  {
  }

  lemma Split3Range(a: bv8, b: bv8, c: bv8)
    requires 0xE0 <= a <= 0xEF && Tail(b) && Tail(c) && (a == 0xE0 ==> b >= 0xA0) && (a == 0xED ==> b <= 0x9F)
    ensures 0x7FF < Join3(a, b, c) <= 0xFFFF && Scalar(Join3(a, b, c))
  {
  }

  lemma Split3Bytes(a: bv8, b: bv8, c: bv8)
    requires 0xE0 <= a <= 0xEF && Tail(b) && Tail(c)
    ensures var v := Join3(a, b, c);
      (0xE0 | ((v >> 12) & 0xFF)) as bv8 == a && (0x80 | ((v >> 6) & 0x3F)) as bv8 == b
        && (0x80 | (v & 0x3F)) as bv8 == c
  {
  }

  lemma Split4(a: bv8, b: bv8, c: bv8, d: bv8)
    requires WellFormed8([a, b, c, d])
    ensures Scalar(Join4(a, b, c, d)) && Encode8(Join4(a, b, c, d)) == [a, b, c, d]
  {
  }

  /** The length the first byte announces, 0 if none. */
  function Announced(c: bv8): nat {
    if c <= 0x7F then 1
    else if c <= 0xC1 then 0
    else if c <= 0xDF then 2
    else if c <= 0xEF then 3
    else if c <= 0xF4 then 4
    else 0
  }

  /** The first character of a stream, if it is well-formed. */
  predicate BeginsWellFormed8(s: seq<bv8>) {
    s != [] && 0 < Announced(s[0]) <= |s| && WellFormed8(s[..Announced(s[0])])
  }

  lemma OneLength8(s: seq<bv8>, n: nat)
    requires n <= |s| && WellFormed8(s[..n])
    ensures n == Announced(s[0]) && BeginsWellFormed8(s)
  {
  }

  /** On any stream that has not ended: the decoder accepts exactly the
      well-formed characters, consumes one and gives its value. */
  lemma Decode8IsExact(s: seq<bv8>)
    requires s != []
    ensures Decode8(s).ok <==> BeginsWellFormed8(s)
    ensures Decode8(s).ok
      ==> Decode8(s).codepoint == Value8(s[..Announced(s[0])]) && Decode8(s).rest == s[Announced(s[0])..]
  {
    hide Join2, Join3, Join4;
    var c := s[0];
    if c <= 0x7F {
      Decode1(s);
    } else if c <= 0xC1 || c > 0xF4 {
      DecodeNone(s);
    } else if c <= 0xDF {
      Decode2(s);
    } else if c <= 0xEF {
      Decode3(s);
    } else {
      Decode4(s);
    }
  }

  lemma Decode1(s: seq<bv8>)
    requires s != [] && s[0] <= 0x7F
    ensures Decode8(s) == Read(true, s[0] as bv32, s[1..])
  {
    assert s[0] & 0x80 == 0;
  }

  lemma DecodeNone(s: seq<bv8>)
    requires s != [] && (0x7F < s[0] <= 0xC1 || s[0] > 0xF4)
    ensures !Decode8(s).ok
  {
    assert s[0] & 0x80 != 0;
  }

  lemma Decode2(s: seq<bv8>)
    requires s != [] && 0xC2 <= s[0] <= 0xDF
    ensures Decode8(s).ok <==> |s| >= 2 && Tail(s[1])
    ensures Decode8(s).ok ==> Decode8(s).codepoint == Join2(s[0], s[1]) && Decode8(s).rest == s[2..]
  {
    assert s[0] & 0x80 != 0;
  }

  lemma Decode3(s: seq<bv8>)
    requires s != [] && 0xE0 <= s[0] <= 0xEF
    ensures Decode8(s).ok
      <==> |s| >= 3 && Tail(s[1]) && Tail(s[2]) && (s[0] == 0xE0 ==> s[1] >= 0xA0) && (s[0] == 0xED ==> s[1] <= 0x9F)
    ensures Decode8(s).ok ==> Decode8(s).codepoint == Join3(s[0], s[1], s[2]) && Decode8(s).rest == s[3..]
  {
    assert s[0] & 0x80 != 0;
  }

  lemma Decode4(s: seq<bv8>)
    requires s != [] && 0xF0 <= s[0] <= 0xF4
    ensures Decode8(s).ok <==>
      |s| >= 4 && Tail(s[1]) && Tail(s[2]) && Tail(s[3]) && (s[0] == 0xF0 ==> s[1] >= 0x90)
      && (s[0] == 0xF4 ==> s[1] <= 0x8F)
    ensures Decode8(s).ok ==> Decode8(s).codepoint == Join4(s[0], s[1], s[2], s[3]) && Decode8(s).rest == s[4..]
  {
    hide Join4, Shifted, Trans;
    var mask := if s[0] == 0xF0 then 0x60 else if s[0] == 0xF4 then 0x10 else 0x70;
    var kind := if s[0] == 0xF0 then 11 else if s[0] == 0xF4 then 5 else 6;
    var first := Read(true, ((0xFF as bv32) >> kind) & (s[0] as bv32), s[1..]);
    assert s[0] & 0x80 != 0 && GetRange(s[0]) == kind;
    var r := TailByte(TailByte(Trans(first, mask)));
    assert Decode8(s) == r;
    ThreeMore(s, first, mask);
    if r.ok {
      Joined4(s[0], s[1], s[2], s[3]);
    }
  }

  /** Three more bytes: what is asked of them, and what they add. */
  lemma ThreeMore(s: seq<bv8>, first: Read, mask: bv8)
    requires s != [] && first.ok && first.rest == s[1..]
    ensures var r := TailByte(TailByte(Trans(first, mask)));
      && (r.ok <==> |s| >= 4 && GetRange(s[1]) & mask != 0 && Tail(s[2]) && Tail(s[3]))
      && (|s| >= 4 ==> r.codepoint == Shifted(Shifted(Shifted(first.codepoint, s[1]), s[2]), s[3]) && r.rest == s[4..])
  {
    hide Shifted;
    forall c: bv8
      ensures GetRange(c) & 0x70 != 0 <==> Tail(c)
    {
    }
    assert GetRange(0) & mask == 0 && GetRange(0) & 0x70 == 0;
    assert |s| >= 2 ==> s[1..][0] == s[1] && s[1..][1..] == s[2..];
    assert |s| >= 3 ==> s[2..][0] == s[2] && s[2..][1..] == s[3..];
    assert |s| >= 4 ==> s[3..][0] == s[3] && s[3..][1..] == s[4..];
  }

  lemma Joined4(a: bv8, b: bv8, c: bv8, d: bv8)
    requires 0xF0 <= a <= 0xF4
    ensures var kind: bv8 := if a == 0xF0 then 11 else if a == 0xF4 then 5 else 6;
      Shifted(Shifted(Shifted(((0xFF as bv32) >> kind) & (a as bv32), b), c), d) == Join4(a, b, c, d)
  {
    hide *;
    LeadBits(a);
    ThreeShifts((a & 0x07) as bv32, b, c, d);
    Join4Is(a, b, c, d);
  }

  /** The bits the first byte of four contributes. */
  lemma LeadBits(a: bv8)
    requires 0xF0 <= a <= 0xF4
    ensures var kind: bv8 := if a == 0xF0 then 11 else if a == 0xF4 then 5 else 6;
      ((0xFF as bv32) >> kind) & (a as bv32) == (a & 0x07) as bv32
    ensures (a & 0x07) as bv32 <= 7
  {
    if a == 0xF0 {
    } else if a == 0xF4 {
    } else {
      assert a == 0xF1 || a == 0xF2 || a == 0xF3;
    }
  }

  lemma ThreeShifts(x: bv32, b: bv8, c: bv8, d: bv8)
    requires x <= 7
    ensures Shifted(Shifted(Shifted(x, b), c), d)
         == (x << 18) | (((b & 0x3F) as bv32) << 12) | (((c & 0x3F) as bv32) << 6) | ((d & 0x3F) as bv32)
  {
  }

  lemma Join4Is(a: bv8, b: bv8, c: bv8, d: bv8)
    ensures Join4(a, b, c, d)
         == (((a & 0x07) as bv32) << 18) | (((b & 0x3F) as bv32) << 12)
            | (((c & 0x3F) as bv32) << 6) | ((d & 0x3F) as bv32)
  {
  }
}
