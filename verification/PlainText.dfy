/** Taking the command off a message. */
module PlainText {
  import opened Wrappers
  import opened CommandTable

  /** Replaces every occurrence of a literal, from the left. */
  function ReplaceAll(s: string, literal: string, plain: string): string
    requires literal != ""
  {
    if s == "" then ""
    else if literal <= s then plain + ReplaceAll(s[|literal|..], literal, plain)
    else [s[0]] + ReplaceAll(s[1..], literal, plain)
  }

  function Unescape(s: string): string {
    ReplaceAll(ReplaceAll(ReplaceAll(ReplaceAll(s, "&#44;", ","), "&#91;", "["), "&#93;", "]"), "&amp;", "&")
  }

  // ----- The four passes are one -----

  predicate IsEscape(e: string) {
    e == "&#44;" || e == "&#91;" || e == "&#93;" || e == "&amp;"
  }

  predicate BeginsEscape(s: string) {
    "&#44;" <= s || "&#91;" <= s || "&#93;" <= s || "&amp;" <= s
  }

  /** What the escape in front stands for. */
  function Meaning(s: string): char
    requires BeginsEscape(s)
  {
    if "&#44;" <= s then ',' else if "&#91;" <= s then '[' else if "&#93;" <= s then ']' else '&'
  }

  /** Every escape stands for its character, in one pass. */
  function Read(s: string): string {
    if s == "" then ""
    else if BeginsEscape(s) then [Meaning(s)] + Read(s[5..])
    else [s[0]] + Read(s[1..])
  }

  lemma Meanings()
    ensures [Meaning("&#44;")] == "," && [Meaning("&#91;")] == "[" && [Meaning("&#93;")] == "]"
      && [Meaning("&amp;")] == "&"
  {
    assert "&#44;"[2] == '4' && "&#91;"[2] == '9' && "&#93;"[2] == '9' && "&#91;"[3] == '1' && "&#93;"[3] == '3'
      && "&amp;"[1] == 'a';
  }

  lemma EscapeShape(s: string)
    ensures BeginsEscape(s) ==>
      |s| >= 5 && s[0] == '&' && s[4] == ';' && s[1] != '&' && s[2] != '&' && s[3] != '&' && s[4] != '&'
  {
  }

  /** A pass brings no other escape about: what the result begins with, the
      text begins with already. */
  lemma {:induction false} BeginningKept(s: string, literal: string, plain: char, w: string)
    requires literal != "" && plain !in w && w <= ReplaceAll(s, literal, [plain])
    ensures w <= s
  {
    if w != "" {
      var r := ReplaceAll(s, literal, [plain]);
      assert w[0] == r[0] && w[0] in w;
      assert r[1..] == ReplaceAll(s[1..], literal, [plain]);
      BeginningKept(s[1..], literal, plain, w[1..]);
    }
  }

  lemma {:induction false} NotReplaced(a: string, s: string, literal: string)
    requires IsEscape(literal) && (a == "" || !(literal <= a + s)) && forall i | 0 < i < |a| :: a[i] != '&'
    ensures ReplaceAll(a + s, literal, [Meaning(literal)]) == a + ReplaceAll(s, literal, [Meaning(literal)])
  {
    hide Meaning;
    if a == "" {
      assert a + s == s;
    } else {
      var t := a[1..] + s;
      assert (a + s)[1..] == t;
      assert |a| > 1 ==> t[0] == a[1];
      NotReplaced(a[1..], s, literal);
    }
  }

  /** An escape is replaced by its own pass and left alone by the others. */
  lemma PassOverEscape(e: string, s: string, literal: string)
    requires IsEscape(e) && IsEscape(literal)
    ensures ReplaceAll(e + s, literal, [Meaning(literal)])
         == (if e == literal then [Meaning(e)] else e) + ReplaceAll(s, literal, [Meaning(literal)])
  {
    var t := e + s;
    assert t[..5] == e && t[5..] == s;
    if e != literal {
      assert forall k | 0 <= k < 5 :: t[k] == e[k];
      NotReplaced(e, s, literal);
    }
  }

  /** A character in front of which no escape begins gets through a pass, and
      there still begins none. */
  lemma PassOverChar(c: char, s: string, literal: string)
    requires IsEscape(literal) && !BeginsEscape([c] + s)
    ensures var r := ReplaceAll(s, literal, [Meaning(literal)]);
      ReplaceAll([c] + s, literal, [Meaning(literal)]) == [c] + r && (literal != "&amp;" ==> !BeginsEscape([c] + r))
  {
    var r := ReplaceAll(s, literal, [Meaning(literal)]);
    NotReplaced([c], s, literal);
    if literal != "&amp;" {
      NoneBroughtAbout(c, s, literal, "&#44;");
      NoneBroughtAbout(c, s, literal, "&#91;");
      NoneBroughtAbout(c, s, literal, "&#93;");
      NoneBroughtAbout(c, s, literal, "&amp;");
    }
  }

  lemma NoneBroughtAbout(c: char, s: string, literal: string, e: string)
    requires IsEscape(literal) && literal != "&amp;" && IsEscape(e)
    ensures e <= [c] + ReplaceAll(s, literal, [Meaning(literal)]) ==> e <= [c] + s
  {
    var r := ReplaceAll(s, literal, [Meaning(literal)]);
    Tails(e, c, r);
    Tails(e, c, s);
    if e[1..] <= r {
      MeaningOutside(literal, e);
      BeginningKept(s, literal, Meaning(literal), e[1..]);
    }
  }

  lemma MeaningOutside(literal: string, e: string)
    requires IsEscape(literal) && literal != "&amp;" && IsEscape(e)
    ensures Meaning(literal) !in e[1..]
  {
    Meanings();
  }

  lemma Tails(e: string, c: char, s: string)
    requires e != ""
    ensures e <= [c] + s <==> e[0] == c && e[1..] <= s
  {
    var t := [c] + s;
    assert t[0] == c && t[1..] == s;
    if e <= t {
      assert e[0] == t[0];
      forall k | 0 <= k < |e[1..]| ensures e[1..][k] == s[k] { assert e[k + 1] == t[k + 1]; }
    }
    if e[0] == c && e[1..] <= s {
      forall k | 0 <= k < |e| ensures e[k] == t[k] { assert k > 0 ==> e[1..][k - 1] == s[k - 1]; }
    }
  }

  lemma UnescapeChar(c: char, s: string)
    requires !BeginsEscape([c] + s)
    ensures Unescape([c] + s) == [c] + Unescape(s)
  {
    hide ReplaceAll, BeginsEscape, Meaning;
    Meanings();
    PassOverChar(c, s, "&#44;");
    var s1 := ReplaceAll(s, "&#44;", ",");
    PassOverChar(c, s1, "&#91;");
    var s2 := ReplaceAll(s1, "&#91;", "[");
    PassOverChar(c, s2, "&#93;");
    PassOverChar(c, ReplaceAll(s2, "&#93;", "]"), "&amp;");
  }

  lemma MeaningLeft(c: char, s: string, literal: string)
    requires IsEscape(literal) && c != '&'
    ensures ReplaceAll([c] + s, literal, [Meaning(literal)]) == [c] + ReplaceAll(s, literal, [Meaning(literal)])
  {
    assert ([c] + s)[0] == c;
    NotReplaced([c], s, literal);
  }

  lemma UnescapeEscape(e: string, s: string)
    requires IsEscape(e)
    ensures Unescape(e + s) == [Meaning(e)] + Unescape(s)
  {
    hide ReplaceAll, Meaning;
    Meanings();
    var s1 := ReplaceAll(s, "&#44;", ",");
    var s2 := ReplaceAll(s1, "&#91;", "[");
    var s3 := ReplaceAll(s2, "&#93;", "]");
    PassOverEscape(e, s, "&#44;");
    if e == "&#44;" { MeaningLeft(',', s1, "&#91;"); } else { PassOverEscape(e, s1, "&#91;"); }
    if e == "&#44;" || e == "&#91;" { MeaningLeft(Meaning(e), s2, "&#93;"); } else { PassOverEscape(e, s2, "&#93;"); }
    if e == "&amp;" { PassOverEscape(e, s3, "&amp;"); } else { MeaningLeft(Meaning(e), s3, "&amp;"); }
  }

  lemma EmptyStays()
    ensures Unescape("") == ""
  {
  }

  /** No pass brings about or cuts apart an escape of another. */
  lemma {:induction false} UnescapeIsRead(s: string)
    ensures Unescape(s) == Read(s)
  {
    hide Unescape;
    if s == "" {
      EmptyStays();
    } else if BeginsEscape(s) {
      UnescapeIsRead(s[5..]);
      assert s == s[..5] + s[5..];
      UnescapeEscape(s[..5], s[5..]);
    } else {
      UnescapeIsRead(s[1..]);
      assert s == [s[0]] + s[1..];
      UnescapeChar(s[0], s[1..]);
    }
  }

  // ----- Escapes at a cut -----

  /** An escape begins at index `i`, and ends before `i + 5`. */
  predicate EscapeAt(s: string, i: int) {
    0 <= i <= |s| && BeginsEscape(s[i..])
  }

  ghost predicate NoEscapeBegins(s: string, n: nat) {
    forall i | 0 <= i < n :: !EscapeAt(s, i)
  }

  ghost predicate NoEscapeEnds(s: string, n: nat) {
    forall i | n < i + 5 :: !EscapeAt(s, i)
  }

  lemma {:induction false} ReadShrinks(s: string)
    ensures |Read(s)| <= |s|
    ensures |s| < 5 ==> Read(s) == s
  {
    if s != "" {
      ReadShrinks(s[if BeginsEscape(s) then 5 else 1..]);
    }
  }

  lemma EscapeAfter(s: string, m: nat, i: int)
    requires m <= |s|
    ensures m <= i ==> (EscapeAt(s, i) <==> EscapeAt(s[m..], i - m))
  {
    hide BeginsEscape;
    if m <= i <= |s| { assert s[m..][i - m..] == s[i..]; }
  }

  /** No escape begins at indices from 1 on below `m`. */
  ghost predicate Gap(s: string, m: nat) {
    forall i | 0 < i < m :: !EscapeAt(s, i)
  }

  lemma GapIn(s: string)
    ensures BeginsEscape(s) ==> Gap(s, 5)
  {
    hide BeginsEscape;
    EscapeShape(s);
    if i :| 0 < i < 5 && EscapeAt(s, i) { EscapeShape(s[i..]); }
  }

  lemma EscapesBehind(s: string, m: nat, n: nat)
    requires 0 < m <= n <= |s| && Gap(s, m)
    ensures NoEscapeBegins(s, n) <==> !EscapeAt(s, 0) && NoEscapeBegins(s[m..], n - m)
    ensures NoEscapeEnds(s, n) <==> (n < 5 ==> !EscapeAt(s, 0)) && NoEscapeEnds(s[m..], n - m)
  {
    hide BeginsEscape;
    var t := s[m..];
    if i :| 0 <= i < n - m && EscapeAt(t, i) { EscapeAfter(s, m, i + m); }
    if i :| 0 <= i < n && EscapeAt(s, i) { EscapeAfter(s, m, i); }
    if i :| n - m < i + 5 && EscapeAt(t, i) { EscapeAfter(s, m, i + m); }
    if i :| n < i + 5 && EscapeAt(s, i) { EscapeAfter(s, m, i); }
  }

  lemma ReadStep(s: string)
    requires s != ""
    ensures Read(s) == if BeginsEscape(s) then [Meaning(s)] + Read(s[5..]) else [s[0]] + Read(s[1..])
  {
  }

  /** Where no escape begins the characters stay; where one does, characters
      are missing. */
  lemma {:induction false} ReadFromFront(s: string, n: nat)
    requires n <= |s|
    ensures NoEscapeBegins(s, n) ==> Read(s) == s[..n] + Read(s[n..])
    ensures !NoEscapeBegins(s, n) ==> |Read(s)| < n + |Read(s[n..])|
    decreases |s|
  {
    hide BeginsEscape, NoEscapeBegins, NoEscapeEnds, Read, Meaning;
    if n == 0 {
      NoneInFront(s);
    } else {
      ReadStep(s);
      var m := if !BeginsEscape(s) then 1 else if n < 5 then n else 5;
      GapIn(s);
      EscapeShape(s);
      assert s[0..] == s;
      EscapesBehind(s, m, n);
      var t := s[m..];
      if n < 5 && BeginsEscape(s) {
        InsideEscape(s, n);
        ReadFromFront(t, 5 - n);
        assert t[5 - n..] == s[5..];
      } else {
        ReadFromFront(t, n - m);
        assert t[n - m..] == s[n..];
        if m == 1 { Joined(s, n); }
      }
    }
  }

  lemma Joined(s: string, n: nat)
    requires 0 < n <= |s| && !BeginsEscape(s)
    ensures Read(s) == [s[0]] + Read(s[1..])
    ensures Read(s[1..]) == s[1..][..n - 1] + Read(s[n..]) ==> Read(s) == s[..n] + Read(s[n..])
  {
    hide *;
    ReadStep(s);
    var t, r := s[1..], Read(s[n..]);
    assert s[..n] == [s[0]] + t[..n - 1];
    assert [s[0]] + (t[..n - 1] + r) == ([s[0]] + t[..n - 1]) + r;
  }

  lemma NoneInFront(s: string)
    ensures NoEscapeBegins(s, 0) && s[..0] + Read(s[0..]) == Read(s)
  {
    assert s[0..] == s;
  }

  lemma InsideEscape(s: string, n: nat)
    requires BeginsEscape(s) && 0 < n < 5
    ensures |s| >= 5 && NoEscapeBegins(s[n..], 5 - n)
  {
    hide BeginsEscape;
    GapIn(s);
    EscapeShape(s);
    forall i | 0 <= i < 5 - n ensures !EscapeAt(s[n..], i) {
      EscapeAfter(s, n, n + i);
    }
  }

  lemma {:induction false} ReadToBack(s: string, n: nat)
    requires n <= |s|
    ensures NoEscapeEnds(s, n) ==> Read(s) == Read(s[..n]) + s[n..]
    ensures !NoEscapeEnds(s, n) ==> |Read(s)| < |Read(s[..n])| + |s| - n
  {
    hide BeginsEscape, NoEscapeEnds, Read, Meaning;
    if n == 0 {
      ReadFromFront(s, |s|);
      AllOfThem(s);
    } else if n < 5 && BeginsEscape(s) {
      EscapeShape(s);
      ReadStep(s);
      ReadShrinks(s[5..]);
      ReadShrinks(s[..n]);
      GapIn(s);
      assert s[0..] == s;
      EscapesBehind(s, n, n);
    } else {
      var m := if BeginsEscape(s) then 5 else 1;
      GapIn(s);
      EscapeShape(s);
      assert s[0..] == s;
      EscapesBehind(s, m, n);
      ReadToBack(s[m..], n - m);
      assert s[m..][n - m..] == s[n..];
      JoinedBack(s, n, m);
    }
  }

  lemma JoinedBack(s: string, n: nat, m: nat)
    requires 0 < m <= n <= |s| && m == if BeginsEscape(s) then 5 else 1
    ensures |Read(s)| == 1 + |Read(s[m..])| && |Read(s[..n])| == 1 + |Read(s[m..][..n - m])|
    ensures Read(s[m..]) == Read(s[m..][..n - m]) + s[n..] ==> Read(s) == Read(s[..n]) + s[n..]
  {
    hide *;
    PrefixBegins(s, n);
    ReadStep(s);
    ReadStep(s[..n]);
    assert s[..n][m..] == s[m..][..n - m];
    var h := Read(s)[..1];
    assert (h + Read(s[m..][..n - m])) + s[n..] == h + (Read(s[m..][..n - m]) + s[n..]);
  }

  lemma PrefixBegins(s: string, n: nat)
    requires 0 < n <= |s| && (BeginsEscape(s) ==> n >= 5)
    ensures BeginsEscape(s[..n]) == BeginsEscape(s)
    ensures BeginsEscape(s) ==> Meaning(s[..n]) == Meaning(s)
  {
  }

  lemma AllOfThem(s: string)
    ensures NoEscapeEnds(s, 0) <==> NoEscapeBegins(s, |s|)
    ensures s[|s|..] == "" == s[..0] && Read("") == "" && s[..|s|] == s == s[0..]
  {
    hide BeginsEscape;
    if i :| 0 < i + 5 && EscapeAt(s, i) {
      EscapeShape(s[i..]);
    }
  }

  /** A message stays as it is exactly if it holds none of the four escapes. */
  lemma UnescapeUnchanged(s: string)
    ensures Unescape(s) == s <==> forall i :: !EscapeAt(s, i)
  {
    hide Unescape, Read, EscapeAt;
    UnescapeIsRead(s);
    ReadFromFront(s, |s|);
    AllOfThem(s);
    if i :| EscapeAt(s, i) { AtIndex(s, i); }
  }

  lemma AtIndex(s: string, i: int)
    requires EscapeAt(s, i)
    ensures i >= 0
  {
  }

  // ----- Taking the command off -----

  /** A `size_t` read back as a `short`. */
  function AsShort(n: nat): int {
    var m := n % 0x1_0000;
    if m < 0x8000 then m else m - 0x1_0000
  }

  /** `ExtraPlainText`; `None` where more characters would be removed than
      there are, which the language leaves undefined. */
  function ExtraPlainText(message: string, commandSize: Option<nat>): Option<string> {
    var view := Unescape(message);
    if commandSize.None? then Some(view)
    else
      var size := AsShort(commandSize.value);
      if size == 0 then Some(view)
      else if size > 0 then (if size <= |view| then Some(view[size..]) else None)
      else if -size <= |view| then Some(view[..|view| + size]) else None
  }

  /** The stored size still means the length of the key when it is read,
      exactly for keys that are not too long. */
  lemma SizeSurvives(n: nat, fromBack: bool)
    requires 0 < n < SIZE_LIMIT
    ensures AsShort(SizeOf(n, fromBack)) == (if fromBack then -(n as int) else n)
      <==> (if fromBack then n <= 0x8000 else n < 0x8000)
  {
  }

  /** For a key that matches a message and a size that survives: what is left
      is the unescaped rest of the message, if and only if no escape begins
      inside the key, or with a key at the end, ends inside it. */
  lemma CommandTakenOff(key: string, message: string, fromBack: bool)
    requires Begins(key, message, fromBack) && (if fromBack then |key| <= 0x8000 else |key| < 0x8000)
    ensures var rest := if fromBack then message[..|message| - |key|] else message[|key|..];
      ExtraPlainText(message, Some(SizeOf(|key|, fromBack))) == Some(Unescape(rest))
      <==> if fromBack then NoEscapeEnds(message, |message| - |key|) else NoEscapeBegins(message, |key|)
  {
    hide Unescape, SizeOf, AsShort, Lower, Read, NoEscapeBegins, NoEscapeEnds;
    SizeSurvives(|key|, fromBack);
    var n := if fromBack then |message| - |key| else |key|;
    UnescapeIsRead(message);
    if fromBack {
      UnescapeIsRead(message[..n]);
      ReadToBack(message, n);
    } else {
      UnescapeIsRead(message[n..]);
      ReadFromFront(message, n);
    }
  }

  lemma CharAt(s: string, i: nat, n: nat)
    requires i < |s| && n <= |s|
    ensures i < n ==> s[i] in s[..n]
    ensures n <= i ==> s[i] in s[n..]
  {
    assert i < n ==> s[..n][i] == s[i];
    assert n <= i ==> s[n..][i - n] == s[i];
  }

  /** So it is for a key without `&` in front, or without `;` at the end. */
  lemma PlainKeyTakenOff(key: string, message: string, fromBack: bool)
    requires Begins(key, message, fromBack) && (if fromBack then |key| <= 0x8000 else |key| < 0x8000)
    requires var n := |message| - |key|;
      if fromBack then ';' !in message[n..] else '&' !in message[..|key|]
    ensures ExtraPlainText(message, Some(SizeOf(|key|, fromBack)))
         == Some(Unescape(if fromBack then message[..|message| - |key|] else message[|key|..]))
  {
    hide Unescape, SizeOf, Lower, ExtraPlainText;
    CommandTakenOff(key, message, fromBack);
    forall i | EscapeAt(message, i)
      ensures if fromBack then i + 5 <= |message| - |key| else |key| <= i
    {
      EscapeShape(message[i..]);
      assert message[i] == '&' && message[i + 4] == ';';
      CharAt(message, i, |key|);
      CharAt(message, i + 4, |message| - |key|);
    }
  }

  /** And of a message without escapes exactly the key is removed. */
  lemma PlainCommandTakenOff(key: string, message: string, fromBack: bool)
    requires Begins(key, message, fromBack) && (if fromBack then |key| <= 0x8000 else |key| < 0x8000)
    requires forall i :: !EscapeAt(message, i)
    ensures ExtraPlainText(message, Some(SizeOf(|key|, fromBack)))
         == Some(if fromBack then message[..|message| - |key|] else message[|key|..])
  {
    hide Unescape, SizeOf, Lower, AsShort, EscapeAt;
    UnescapeUnchanged(message);
    SizeSurvives(|key|, fromBack);
  }

  // ----- From the registrations to the handler -----

  /** A handler that is run, with its copy of the event. */
  datatype Call = Call(service: Service, message: string, commandSize: Option<nat>)

  /** The handler of the longest key a message begins (or ends) with. */
  function CallOf(table: map<string, Command>, message: string, fromBack: bool): seq<Call> {
    var t := Walked(message, fromBack);
    match Longest(table, t, |t|)
    case None => []
    case Some(c) => [Call(c.service, message, Some(c.size))]
  }

  /** The message without the key. */
  function Rest(key: string, message: string, fromBack: bool): string
    requires |key| <= |message|
  {
    if fromBack then message[..|message| - |key|] else message[|key|..]
  }

  /** What a handler reads off its event is the message without its key, and
      unescaped. */
  ghost predicate ReadsRest(call: Call, key: string, fromBack: bool)
    requires |key| <= |call.message|
  {
    ExtraPlainText(call.message, call.commandSize) == Some(Unescape(Rest(key, call.message, fromBack)))
  }

  /** For any registrations and any message: a handler is run exactly if a key
      matches, and it is the one a linear scan prefers, the first of the longest
      keys. If the size of its key survives, it reads the rest of the message,
      exactly if no escape begins inside the key, or, at the end, ends inside
      it. */
  lemma HandlerReadsRest(rs: seq<Registration>, message: string, fromBack: bool)
    ensures var calls := CallOf(RegisterAll(rs, fromBack), message, fromBack);
      && (calls == [] <==> NoneBegins(rs, message, fromBack))
      && (calls != [] ==> |calls| == 1 && exists i ::
            && Preferred(rs, message, fromBack, true, i)
            && calls[0].service == rs[i].service && calls[0].message == message
            && ((if fromBack then |rs[i].key| <= 0x8000 else |rs[i].key| < 0x8000) ==>
                  (ReadsRest(calls[0], rs[i].key, fromBack)
                   <==> if fromBack then NoEscapeEnds(message, |message| - |rs[i].key|)
                        else NoEscapeBegins(message, |rs[i].key|))))
  {
    hide Longest, Walked, RegisterAll, Begins, SizeOf, ExtraPlainText, Unescape, EscapeAt, NoEscapeBegins, NoEscapeEnds;
    hide CallOf, ReadsRest, Rest, NoneBegins;
    LongestIsLinearScan(rs, message, fromBack);
    CallIs(RegisterAll(rs, fromBack), message, fromBack);
    var t := Walked(message, fromBack);
    var r := Longest(RegisterAll(rs, fromBack), t, |t|);
    if r.Some? {
      var i :| Preferred(rs, message, fromBack, true, i)
        && r.value == Command(rs[i].service, SizeOf(|rs[i].key|, fromBack));
      PreferredBegins(rs, message, fromBack, i);
      if if fromBack then |rs[i].key| <= 0x8000 else |rs[i].key| < 0x8000 {
        ReadsIs(CallOf(RegisterAll(rs, fromBack), message, fromBack)[0], rs[i].key, fromBack);
        CommandTakenOff(rs[i].key, message, fromBack);
      }
    }
  }

  lemma CallIs(table: map<string, Command>, message: string, fromBack: bool)
    ensures var t := Walked(message, fromBack);
      CallOf(table, message, fromBack) == match Longest(table, t, |t|)
                                          case None => []
                                          case Some(c) => [Call(c.service, message, Some(c.size))]
  {
  }

  lemma PreferredBegins(rs: seq<Registration>, message: string, fromBack: bool, i: int)
    requires Preferred(rs, message, fromBack, true, i)
    ensures 0 <= i < |rs| && Begins(rs[i].key, message, fromBack) && |rs[i].key| <= |message|
  {
  }

  lemma ReadsIs(call: Call, key: string, fromBack: bool)
    requires |key| <= |call.message|
    ensures var rest := if fromBack then call.message[..|call.message| - |key|] else call.message[|key|..];
      ReadsRest(call, key, fromBack) <==> ExtraPlainText(call.message, call.commandSize) == Some(Unescape(rest))
  {
  }

  /** On a message that unescaping leaves alone exactly the longest matching key
      is removed. */
  lemma PlainHandlerReadsRest(rs: seq<Registration>, message: string, fromBack: bool, i: int)
    requires Preferred(rs, message, fromBack, true, i) && (forall k :: !EscapeAt(message, k))
    requires if fromBack then |rs[i].key| <= 0x8000 else |rs[i].key| < 0x8000
    ensures var calls := CallOf(RegisterAll(rs, fromBack), message, fromBack);
      && |calls| == 1 && |rs[i].key| <= |message|
      && ExtraPlainText(message, calls[0].commandSize) == Some(Rest(rs[i].key, message, fromBack))
  {
    hide Longest, Walked, RegisterAll, Begins, SizeOf, ExtraPlainText, Unescape, EscapeAt, NoEscapeBegins, NoEscapeEnds;
    hide CallOf, ReadsRest, Rest, NoneBegins;
    PreferredBegins(rs, message, fromBack, i);
    LongestIsLinearScan(rs, message, fromBack);
    CallIs(RegisterAll(rs, fromBack), message, fromBack);
    SomeBegins(rs, message, fromBack, i);
    var t := Walked(message, fromBack);
    var r := Longest(RegisterAll(rs, fromBack), t, |t|);
    var j :| Preferred(rs, message, fromBack, true, j)
      && r.value == Command(rs[j].service, SizeOf(|rs[j].key|, fromBack));
    OnePreferred(rs, message, fromBack, i, j);
    PlainCommandTakenOff(rs[i].key, message, fromBack);
    RestIs(rs[i].key, message, fromBack);
  }

  lemma SomeBegins(rs: seq<Registration>, message: string, fromBack: bool, i: int)
    requires 0 <= i < |rs| && Begins(rs[i].key, message, fromBack)
    ensures !NoneBegins(rs, message, fromBack)
  {
  }

  lemma OnePreferred(rs: seq<Registration>, message: string, fromBack: bool, i: int, j: int)
    requires Preferred(rs, message, fromBack, true, i) && Preferred(rs, message, fromBack, true, j)
    ensures i == j
  {
    hide Begins;
  }

  lemma RestIs(key: string, message: string, fromBack: bool)
    requires |key| <= |message|
    ensures Rest(key, message, fromBack) == if fromBack then message[..|message| - |key|] else message[|key|..]
  {
  }

  // ----- Examples -----

  /** A key that is an escape reaches beyond the unescaped message. */
  lemma EscapedKey()
    ensures Begins("&amp;", "&amp;x", false)
    ensures ExtraPlainText("&amp;x", Some(SizeOf(5, false))) == None
  {
    hide Unescape, Meaning;
    var s := "&amp;x";
    assert s[..5] == "&amp;" && s == "&amp;" + "x";
    UnescapeEscape("&amp;", "x");
    UnescapeUnchanged("x");
    Meanings();
    assert |Unescape(s)| == 2;
  }

  /** An ampersand alone does no harm. */
  lemma AmpersandInKey()
    ensures Begins("R&D", "R&D &amp; x", false)
    ensures ExtraPlainText("R&D &amp; x", Some(SizeOf(3, false))) == Some(Unescape(" &amp; x"))
  {
    var s := "R&D &amp; x";
    assert s[..3] == "R&D" && s[3..] == " &amp; x";
    CommandTakenOff("R&D", s, false);
    forall i | 0 <= i < 3 ensures !EscapeAt(s, i) {
      EscapeShape(s[i..]);
    }
  }
}
