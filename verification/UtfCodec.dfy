/** The codec over streams that are consumed and filled in place. */
module UtfCodec {
  import opened Wrappers
  import opened Utf
  import opened UtfStreams

  /** `MemoryStream`: yields 0 at its end and stays there. */
  class InStream<T(==)> {
    const src: seq<T>
    const zero: T
    var pos: nat

    ghost predicate Valid()
      reads this
    {
      pos <= |src|
    }

    ghost function Left(): seq<T>
      reads this
      requires Valid()
    {
      src[pos..]
    }

    constructor (src: seq<T>, zero: T)
      ensures Valid() && Left() == src && this.src == src && this.zero == zero
    {
      this.src, this.zero, pos := src, zero, 0;
    }

    method Take() returns (c: T)
      requires Valid()
      modifies this
      ensures Valid() && c == Next(old(Left()), zero) && Left() == Rest(old(Left()))
    {
      if pos == |src| {
        return zero;
      }
      c := src[pos];
      pos := pos + 1;
    }
  }

  class OutStream<T> {
    var out: seq<T>

    constructor ()
      ensures out == []
    {
      out := [];
    }

    method Put(c: T)
      modifies this
      ensures out == old(out) + [c]
    {
      out := out + [c];
    }
  }

  method PutEncoded8(os: OutStream<bv8>, cp: bv32)
    requires cp <= 0x10FFFF
    modifies os
    ensures os.out == old(os.out) + Encode8(cp)
  {
    if cp <= 0x7F {
      os.Put((cp & 0xFF) as bv8);
    } else if cp <= 0x7FF {
      os.Put((0xC0 | ((cp >> 6) & 0xFF)) as bv8);
      os.Put((0x80 | (cp & 0x3F)) as bv8);
    } else if cp <= 0xFFFF {
      os.Put((0xE0 | ((cp >> 12) & 0xFF)) as bv8);
      os.Put((0x80 | ((cp >> 6) & 0x3F)) as bv8);
      os.Put((0x80 | (cp & 0x3F)) as bv8);
    } else {
      os.Put((0xF0 | ((cp >> 18) & 0xFF)) as bv8);
      os.Put((0x80 | ((cp >> 12) & 0x3F)) as bv8);
      os.Put((0x80 | ((cp >> 6) & 0x3F)) as bv8);
      os.Put((0x80 | (cp & 0x3F)) as bv8);
    }
  }

  /** One more byte of a character, in one of the ranges of the mask. */
  method TakeTrans(input: InStream<bv8>, result: bool, codepoint: bv32, mask: bv8) returns (ok: bool, cp: bv32)
    requires input.Valid() && input.zero == 0
    modifies input
    ensures input.Valid()
    ensures Read(ok, cp, input.Left()) == Trans(Read(result, codepoint, old(input.Left())), mask)
  {
    hide Shifted;
    var c := input.Take();
    cp := Shifted(codepoint, c);
    ok := result && GetRange(c) & mask != 0;
  }

  method TakeDecoded8(input: InStream<bv8>) returns (ok: bool, cp: bv32)
    requires input.Valid() && input.zero == 0
    modifies input
    ensures input.Valid() && Read(ok, cp, input.Left()) == Decode8(old(input.Left()))
  {
    hide Trans, GetRange;
    var c := input.Take();
    if c & 0x80 == 0 {
      return true, c as bv32;
    }
    var kind := GetRange(c);
    cp := if kind >= 32 then 0 else ((0xFF as bv32) >> kind) & (c as bv32);
    ok := true;
    if kind == 2 {
      ok, cp := TakeTrans(input, ok, cp, 0x70);
    } else if kind == 3 {
      ok, cp := TakeTrans(input, ok, cp, 0x70);
      ok, cp := TakeTrans(input, ok, cp, 0x70);
    } else if kind == 4 {
      ok, cp := TakeTrans(input, ok, cp, 0x50);
      ok, cp := TakeTrans(input, ok, cp, 0x70);
    } else if kind == 5 {
      ok, cp := TakeTrans(input, ok, cp, 0x10);
      ok, cp := TakeTrans(input, ok, cp, 0x70);
      ok, cp := TakeTrans(input, ok, cp, 0x70);
    } else if kind == 6 {
      ok, cp := TakeTrans(input, ok, cp, 0x70);
      ok, cp := TakeTrans(input, ok, cp, 0x70);
      ok, cp := TakeTrans(input, ok, cp, 0x70);
    } else if kind == 10 {
      ok, cp := TakeTrans(input, ok, cp, 0x20);
      ok, cp := TakeTrans(input, ok, cp, 0x70);
    } else if kind == 11 {
      ok, cp := TakeTrans(input, ok, cp, 0x60);
      ok, cp := TakeTrans(input, ok, cp, 0x70);
      ok, cp := TakeTrans(input, ok, cp, 0x70);
    } else {
      ok := false;
    }
  }

  /** The stream holds what it did before, and what validation has copied. */
  method CopyTrans(input: InStream<bv8>, os: OutStream<bv8>, ghost before: seq<bv8>, ghost v: Checked, mask: bv8,
                   result: bool)
    returns (ok: bool, ghost w: Checked)
    requires input.Valid() && input.zero == 0
    requires v == Checked(result, v.out, input.Left()) && os.out == before + v.out
    modifies input, os
    ensures input.Valid()
    ensures w == Copy(v, mask) && w == Checked(ok, w.out, input.Left()) && os.out == before + w.out
  {
    var c := input.Take();
    os.Put(c);
    ok := result && GetRange(c) & mask != 0;
    w := Copy(v, mask);
    assert before + v.out + [c] == before + (v.out + [c]);
  }

  /** `Validate` puts what it takes behind what the stream holds already. */
  method Validate8Stream(input: InStream<bv8>, os: OutStream<bv8>) returns (ok: bool)
    requires input.Valid() && input.zero == 0
    modifies input, os
    ensures var v := Validate8(old(input.Left()));
      input.Valid() && ok == v.ok && os.out == old(os.out) + v.out && input.Left() == v.rest
  {
    hide Copy, GetRange;
    ghost var before := os.out;
    var c := input.Take();
    os.Put(c);
    ghost var v := Checked(true, [c], input.Left());
    ok := true;
    if c & 0x80 == 0 {
      return;
    }
    var kind := GetRange(c);
    if kind == 2 {
      ok, v := CopyTrans(input, os, before, v, 0x70, ok);
    } else if kind == 3 {
      ok, v := CopyTrans(input, os, before, v, 0x70, ok);
      ok, v := CopyTrans(input, os, before, v, 0x70, ok);
    } else if kind == 4 {
      ok, v := CopyTrans(input, os, before, v, 0x50, ok);
      ok, v := CopyTrans(input, os, before, v, 0x70, ok);
    } else if kind == 5 {
      ok, v := CopyTrans(input, os, before, v, 0x10, ok);
      ok, v := CopyTrans(input, os, before, v, 0x70, ok);
      ok, v := CopyTrans(input, os, before, v, 0x70, ok);
    } else if kind == 6 {
      ok, v := CopyTrans(input, os, before, v, 0x70, ok);
      ok, v := CopyTrans(input, os, before, v, 0x70, ok);
      ok, v := CopyTrans(input, os, before, v, 0x70, ok);
    } else if kind == 10 {
      ok, v := CopyTrans(input, os, before, v, 0x20, ok);
      ok, v := CopyTrans(input, os, before, v, 0x70, ok);
    } else if kind == 11 {
      ok, v := CopyTrans(input, os, before, v, 0x60, ok);
      ok, v := CopyTrans(input, os, before, v, 0x70, ok);
      ok, v := CopyTrans(input, os, before, v, 0x70, ok);
    } else {
      ok := false;
    }
  }

  method PutEncoded16(os: OutStream<bv16>, cp: bv32)
    requires Scalar(cp)
    modifies os
    ensures os.out == old(os.out) + Encode16(cp)
  {
    hide High, Low;
    if cp <= 0xFFFF {
      os.Put(cp as bv16);
    } else {
      var v := cp - 0x10000;
      os.Put(High(v));
      os.Put(Low(v));
    }
  }

  method TakeDecoded16(input: InStream<bv16>) returns (ok: bool, cp: bv32)
    requires input.Valid() && input.zero == 0
    modifies input
    ensures input.Valid() && Read16(ok, cp, input.Left()) == Decode16(old(input.Left()))
  {
    hide Pair, Wide;
    var c := input.Take();
    if c < 0xD800 || c > 0xDFFF {
      return true, Wide(c);
    }
    if c <= 0xDBFF {
      var d := input.Take();
      cp := Pair(c, d);
      ok := 0xDC00 <= d <= 0xDFFF;
    } else {
      ok, cp := false, 0;
    }
  }

  /** Transcoding a stream from UTF-8 to UTF-16 until it ends or fails. */
  method Transcode(input: InStream<bv8>, os: OutStream<bv16>) returns (ok: bool)
    requires input.Valid() && input.zero == 0
    modifies input, os
    ensures ok <==> Transcode8To16(old(input.Left())).Some?
    ensures ok ==> os.out == old(os.out) + Transcode8To16(old(input.Left())).value
  {
    hide Decode8, Encode16, Scalar, Consumed8;
    ok := true;
    ghost var s, before := input.Left(), os.out;
    while input.pos < |input.src|
      invariant input.Valid() && ok
      invariant Transcode8To16(input.Left()).Some? <==> Transcode8To16(s).Some?
      invariant Transcode8To16(s).Some?
        ==> os.out + Transcode8To16(input.Left()).value == before + Transcode8To16(s).value
      decreases |input.Left()|
    {
      ghost var left := input.Left();
      var cp: bv32;
      ok, cp := TakeDecoded8(input);
      if !ok {
        return;
      }
      Decode8Shrinks(left);
      Decode8Consumes(left);
      CodepointScalar(left);
      PutEncoded16(os, cp);
    }
    assert input.Left() == [] && Transcode8To16([]) == Some([]);
    assert os.out + [] == os.out;
  }

  lemma CodepointScalar(s: seq<bv8>)
    requires s != [] && Decode8(s).ok
    ensures Scalar(Decode8(s).codepoint)
  {
    hide Decode8;
    Decode8Consumes(s);
  }
}
