/** Escaping a string for JSON in two passes: count, then fill a buffer of
    exactly that size. */
module JsonEscape {
  import opened Wrappers

  function HexDigit(d: int): char
    requires 0 <= d < 16
  {
    if d < 10 then ((('0' as int) + d) as char) else ((('a' as int) + d - 10) as char)
  }

  predicate IsShort(c: char) {
    c in {'"', '\\', '\U{8}', '\U{C}', '\n', '\r', '\t'}
  }

  /** The letter of a two-character escape. */
  function ShortLetter(c: char): char
    requires IsShort(c)
  {
    if c == '\U{8}' then 'b'
    else if c == '\U{C}' then 'f'
    else if c == '\n' then 'n'
    else if c == '\r' then 'r'
    else if c == '\t' then 't'
    else c
  }

  predicate IsControl(c: char) {
    !IsShort(c) && c <= '\U{1F}'
  }

  /** One character, escaped as section 7 of RFC 8259 asks. */
  function EscapeChar(c: char): (r: string)
    ensures 1 <= |r| <= 6
  {
    if IsShort(c) then ['\\', ShortLetter(c)]
    else if IsControl(c) then ['\\', 'u', '0', '0', HexDigit((c as int) / 16), HexDigit((c as int) % 16)]
    else [c]
  }

  /** The escapes, one by one, and the characters that have none. */
  lemma EscapesAre(c: char)
    ensures EscapeChar('"') == "\\\"" && EscapeChar('\\') == "\\\\"
    ensures EscapeChar('\U{8}') == "\\b" && EscapeChar('\U{C}') == "\\f"
    ensures EscapeChar('\n') == "\\n" && EscapeChar('\r') == "\\r" && EscapeChar('\t') == "\\t"
    ensures EscapeChar('\U{0}') == "\\u0000" && EscapeChar('\U{B}') == "\\u000b" && EscapeChar('\U{1F}') == "\\u001f"
    ensures EscapeChar(c) == [c] <==> c > '\U{1F}' && c != '"' && c != '\\'
  {
  }

  function Escaped(s: string): string {
    if s == "" then "" else Escaped(s[..|s| - 1]) + EscapeChar(s[|s| - 1])
  }

  lemma {:induction false} EscapedGrows(s: string, i: nat)
    requires i <= |s|
    ensures |Escaped(s[..i])| <= |Escaped(s)|
    decreases |s|
  {
    if i < |s| {
      assert s[..|s| - 1][..i] == s[..i];
      EscapedGrows(s[..|s| - 1], i);
    } else {
      assert s[..i] == s;
    }
  }

  // ----- Reading back -----

  function HexValue(c: char): Option<int> {
    if '0' <= c <= '9' then Some((c as int) - ('0' as int))
    else if 'a' <= c <= 'f' then Some((c as int) - ('a' as int) + 10)
    else if 'A' <= c <= 'F' then Some((c as int) - ('A' as int) + 10)
    else None
  }

  function LetterValue(c: char): Option<char> {
    if c in {'"', '\\', '/'} then Some(c)
    else if c == 'b' then Some('\U{8}')
    else if c == 'f' then Some('\U{C}')
    else if c == 'n' then Some('\n')
    else if c == 'r' then Some('\r')
    else if c == 't' then Some('\t')
    else None
  }

  /** A JSON string's characters, read as section 7 of RFC 8259 says; escapes
      beyond one byte are not read. */
  function Unescaped(t: string): Option<string>
    decreases |t|
  {
    if t == "" then Some("")
    else if t[0] != '\\' then
      if t[0] == '"' || t[0] <= '\U{1F}' then None
      else
        var more :- Unescaped(t[1..]);
        Some([t[0]] + more)
    else if |t| >= 6 && t[1] == 'u' then
      var a :- HexValue(t[4]);
      var b :- HexValue(t[5]);
      if t[2] != '0' || t[3] != '0' then None
      else
        var more :- Unescaped(t[6..]);
        Some([(16 * a + b) as char] + more)
    else if |t| >= 2 then
      var c :- LetterValue(t[1]);
      var more :- Unescaped(t[2..]);
      Some([c] + more)
    else None
  }

  lemma HexBack(d: int)
    requires 0 <= d < 16
    ensures HexValue(HexDigit(d)) == Some(d)
  {
  }

  lemma ReadControl(c: char, t: string)
    requires IsControl(c) && Unescaped(t).Some?
    ensures Unescaped(EscapeChar(c) + t) == Some([c] + Unescaped(t).value)
  {
    hide HexDigit, HexValue, LetterValue;
    var high, low := (c as int) / 16, (c as int) % 16;
    var e := ['\\', 'u', '0', '0', HexDigit(high), HexDigit(low)];
    assert EscapeChar(c) == e;
    HexBack(high);
    HexBack(low);
    assert (e + t)[6..] == t;
    assert (16 * high + low) as char == c;
  }

  lemma ReadShort(c: char, t: string)
    requires IsShort(c) && Unescaped(t).Some?
    ensures Unescaped(EscapeChar(c) + t) == Some([c] + Unescaped(t).value)
  {
    hide HexDigit, HexValue, LetterValue, ShortLetter;
    var e := ['\\', ShortLetter(c)];
    assert ShortLetter(c) != 'u' && LetterValue(ShortLetter(c)) == Some(c) by { LetterBack(c); }
    assert EscapeChar(c) == e && (e + t)[2..] == t;
  }

  lemma LetterBack(c: char)
    requires IsShort(c)
    ensures ShortLetter(c) != 'u' && LetterValue(ShortLetter(c)) == Some(c)
  {
  }

  lemma ReadPlain(c: char, t: string)
    requires !IsShort(c) && !IsControl(c) && Unescaped(t).Some?
    ensures Unescaped(EscapeChar(c) + t) == Some([c] + Unescaped(t).value)
  {
    assert EscapeChar(c) == [c] && ([c] + t)[1..] == t;
  }

  lemma EscapedLast(s: string)
    requires s != ""
    ensures Escaped(s) == Escaped(s[..|s| - 1]) + EscapeChar(s[|s| - 1])
  {
  }

  lemma {:induction false} EscapedCons(s: string)
    requires s != ""
    ensures Escaped(s) == EscapeChar(s[0]) + Escaped(s[1..])
  {
    hide EscapeChar;
    var front, last := s[..|s| - 1], s[|s| - 1];
    EscapedLast(s);
    if front == "" {
      assert s[1..] == "" && s[0] == last;
    } else {
      hide Escaped;
      EscapedCons(front);
      EscapedLast(s[1..]);
      assert front[0] == s[0] && front[1..] == s[1..][..|s| - 2] && s[1..][|s| - 2] == last;
    }
  }

  /** Reading an escaped string gives the string back. */
  lemma {:induction false} RoundTrip(s: string)
    ensures Unescaped(Escaped(s)) == Some(s)
  {
    hide Escaped, Unescaped, EscapeChar;
    if s == "" {
      NothingEscaped();
    } else {
      var rest := Escaped(s[1..]);
      RoundTrip(s[1..]);
      EscapedCons(s);
      if IsShort(s[0]) {
        ReadShort(s[0], rest);
      } else if IsControl(s[0]) {
        ReadControl(s[0], rest);
      } else {
        ReadPlain(s[0], rest);
      }
      assert [s[0]] + s[1..] == s;
    }
  }

  lemma NothingEscaped()
    ensures Escaped("") == "" && Unescaped("") == Some("")
  {
  }

  // ----- The two passes -----

  function ExtraSpace(s: string): nat {
    if s == "" then 0 else ExtraSpace(s[..|s| - 1]) + |EscapeChar(s[|s| - 1])| - 1
  }

  /** The count is exactly what escaping adds, and 0 only if nothing is
      escaped. */
  lemma {:induction false} SpaceIsExact(s: string)
    ensures |Escaped(s)| == |s| + ExtraSpace(s)
    ensures ExtraSpace(s) == 0 ==> Escaped(s) == s
  {
    if s != "" {
      SpaceIsExact(s[..|s| - 1]);
      assert s == s[..|s| - 1] + [s[|s| - 1]];
    }
  }

  /** `json_extra_space`. */
  method JsonExtraSpace(s: string) returns (result: nat)
    ensures result == ExtraSpace(s)
  {
    result := 0;
    for i := 0 to |s|
      invariant result == ExtraSpace(s[..i])
    {
      assert s[..i + 1][..i] == s[..i];
      if IsShort(s[i]) {
        result := result + 1;
      } else if s[i] <= '\U{1F}' {
        result := result + 5;
      }
    }
    assert s[..|s|] == s;
  }

  /** What the terminator slot holds in the end: the overwritten null of a
      last `\u` escape is a backslash. */
  function Terminator(s: string): char {
    if s != "" && IsControl(s[|s| - 1]) then '\\' else '\0'
  }

  /** Writes the escape of one character over the backslashes at `pos`. */
  method PutEscape(result: array<char>, pos: nat, c: char)
    requires pos + |EscapeChar(c)| < result.Length
    requires result[pos] == '\\' || !(IsShort(c) || IsControl(c))
    requires IsShort(c) ==> result[pos + 1] == '\\'
    modifies result
    ensures result[pos..pos + |EscapeChar(c)|] == EscapeChar(c)
    ensures forall k | 0 <= k < result.Length && !(pos <= k < pos + |EscapeChar(c)|) && !(IsControl(c) && k == pos + 6)
      :: result[k] == old(result[k])
    ensures IsControl(c) ==> result[pos + 6] == '\\'
  {
    if IsShort(c) {
      if c != '\\' {
        result[pos + 1] := ShortLetter(c);
      }
    } else if c <= '\U{1F}' {
      result[pos + 1] := 'u';
      result[pos + 2] := '0';
      result[pos + 3] := '0';
      result[pos + 4] := HexDigit((c as int) / 16);
      result[pos + 5] := HexDigit((c as int) % 16);
      result[pos + 6] := '\0';
      result[pos + 6] := '\\';
    } else {
      result[pos] := c;
    }
  }

  /** The buffer after the first `i` characters: their escapes, then
      backslashes, then the terminator. */
  ghost predicate Filled(b: seq<char>, s: string, i: nat) {
    && i <= |s| && |b| == |Escaped(s)| + 1 && |Escaped(s[..i])| <= |Escaped(s)|
    && b[..|Escaped(s[..i])|] == Escaped(s[..i])
    && (forall k | |Escaped(s[..i])| <= k < |Escaped(s)| :: b[k] == '\\')
    && b[|Escaped(s)|] == if |Escaped(s[..i])| == |Escaped(s)| then Terminator(s[..i]) else '\0'
  }

  lemma FilledNext(b: seq<char>, d: seq<char>, s: string, i: nat)
    requires Filled(b, s, i) && i < |s| && |d| == |b|
    requires var pos, e := |Escaped(s[..i])|, EscapeChar(s[i]);
      && pos + |e| < |d| && d[pos..pos + |e|] == e
      && (forall k | 0 <= k < |d| && !(pos <= k < pos + |e|) && !(IsControl(s[i]) && k == pos + 6) :: d[k] == b[k])
      && (IsControl(s[i]) ==> pos + 6 < |d| && d[pos + 6] == '\\')
    ensures Filled(d, s, i + 1)
  {
    hide EscapeChar;
    var pos, e := |Escaped(s[..i])|, EscapeChar(s[i]);
    assert s[..i + 1][..i] == s[..i] && s[..i + 1][i] == s[i];
    EscapedGrows(s, i + 1);
    assert d[..pos] == b[..pos];
    assert d[..pos + |e|] == d[..pos] + d[pos..pos + |e|];
    if IsControl(s[i]) {
      ControlLength(s[i]);
    }
  }

  lemma ControlLength(c: char)
    requires IsControl(c)
    ensures |EscapeChar(c)| == 6
  {
  }

  /** There is room for the next escape, over backslashes. */
  lemma RoomForNext(b: seq<char>, s: string, i: nat)
    requires Filled(b, s, i) && i < |s|
    ensures var pos := |Escaped(s[..i])|;
      && pos + |EscapeChar(s[i])| < |b| && pos + |EscapeChar(s[i])| == |Escaped(s[..i + 1])|
      && b[pos] == '\\' && (IsShort(s[i]) ==> b[pos + 1] == '\\')
  {
    assert s[..i + 1][..i] == s[..i] && s[..i + 1][i] == s[i];
    EscapedGrows(s, i + 1);
  }

  /** `json_escape_string`; the last slot of the buffer is the string's
      terminator. */
  method JsonEscapeString(s: string) returns (result: array<char>)
    ensures result.Length == |s| + ExtraSpace(s) + 1
    ensures result[..result.Length - 1] == Escaped(s)
    ensures result[result.Length - 1] ==
      if s != "" && s[|s| - 1] <= '\U{1F}' && s[|s| - 1] !in {'\U{8}', '\t', '\n', '\U{C}', '\r'} then '\\' else '\0'
    ensures fresh(result)
  {
    hide Escaped, EscapeChar, Filled, Terminator;
    var space := JsonExtraSpace(s);
    SpaceIsExact(s);
    TerminatorIs(s);
    if space == 0 {
      result := new char[|s| + 1](i => if 0 <= i < |s| then s[i] else '\0');
      assert result[..|s|] == s;
      return;
    }
    var size := |s| + space;
    result := new char[size + 1](i => if i < size then '\\' else '\0');
    var pos := 0;
    FilledFirst(result[..], s);
    for i := 0 to |s|
      invariant pos == |Escaped(s[..i])| && Filled(result[..], s, i) && fresh(result)
    {
      ghost var before := result[..];
      RoomForNext(before, s, i);
      if IsControl(s[i]) {
        ControlLength(s[i]);
      }
      PutEscape(result, pos, s[i]);
      FilledNext(before, result[..], s, i);
      pos := pos + |EscapeChar(s[i])|;
    }
    FilledLast(result[..], s);
  }

  lemma TerminatorIs(s: string)
    ensures ExtraSpace(s) == 0 ==> Terminator(s) == '\0'
    ensures Terminator(s) ==
      if s != "" && s[|s| - 1] <= '\U{1F}' && s[|s| - 1] !in {'\U{8}', '\t', '\n', '\U{C}', '\r'} then '\\' else '\0'
  {
  }

  lemma FilledFirst(b: seq<char>, s: string)
    requires |b| == |Escaped(s)| + 1 && s != "" && (forall k | 0 <= k < |Escaped(s)| :: b[k] == '\\')
      && b[|Escaped(s)|] == '\0'
    ensures Filled(b, s, 0) && |Escaped(s[..0])| == 0
  {
  }

  lemma FilledLast(b: seq<char>, s: string)
    requires Filled(b, s, |s|)
    ensures |b| == |Escaped(s)| + 1 && b[..|Escaped(s)|] == Escaped(s) && b[|Escaped(s)|] == Terminator(s)
  {
    assert s[..|s|] == s;
  }
}
