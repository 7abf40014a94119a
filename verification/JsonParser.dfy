// The parser of src/json.cpp as it is written: a cursor over the text, an error that the first failure sets, and
// loops that build the value. Each method is proved to do what the functions of JsonReader say.

module JsonParser {
  import opened Wrappers
  import opened JsonSyntax
  import R = JsonReader

  datatype Failure = Failure(what: R.Complaint, offset: nat)

  // ---- Reading on: what the functions say of a text, given what they say further on

  lemma AtGap(s: string)
    requires !R.StartsGap(s)
    ensures R.SkipGap(s).rest == s
  {
    hide R.SkipGap, R.StartsGap;
    R.SkipReadsBack([], s);
  }

  lemma SkippedTwice(s: string)
    ensures R.SkipGap(R.SkipGap(s).rest).rest == R.SkipGap(s).rest
  {
    hide R.SkipGap, R.StartsGap;
    R.SkipIsSound(s);
    AtGap(R.SkipGap(s).rest);
  }

  lemma SpaceSkipped(s: string)
    requires s != "" && IsSpace(s[0])
    ensures R.SkipGap(s).rest == R.SkipGap(s[1..]).rest
  {
  }

  lemma LineSkipped(s: string, end: nat)
    requires R.Slashed(s, '/') && 2 <= end <= |s|
    requires (forall j :: 0 <= j < end ==> s[j] != '\n') && (end < |s| ==> s[end] == '\n')
    ensures R.SkipGap(s).rest == R.SkipGap(s[end..]).rest
  {
    var n := R.NewlineAt(s[2..]);
    NewlineIs(s, end);
    hide R.NewlineAt;
    if end < |s| {
      SpaceSkipped(s[end..]);
      assert s[2..][n + 1..] == s[end..][1..];
    }
  }

  lemma NewlineIs(s: string, end: nat)
    requires 2 <= end <= |s|
    requires (forall j :: 0 <= j < end ==> s[j] != '\n') && (end < |s| ==> s[end] == '\n')
    ensures R.NewlineAt(s[2..]) == end - 2
  {
    assert forall j :: 0 <= j < |s| - 2 ==> s[2..][j] == s[j + 2];
  }

  lemma EndMarkIs(s: string, end: nat)
    requires 2 <= end && |s| >= 2 && forall j: nat :: 2 <= j < end ==> !ClosesAt(s, j)
    requires if ClosesAt(s, end) then true else end + 1 >= |s|
    ensures R.EndMarkAt(s[2..]) == if ClosesAt(s, end) then end - 2 else |s| - 2
  {
    var t := s[2..];
    assert forall j: nat :: ClosesAt(t, j) <==> ClosesAt(s, j + 2);
    if ClosesAt(s, end) {
      assert ClosesAt(t, end - 2);
    }
  }

  lemma BlockSkipped(s: string, end: nat)
    requires R.Slashed(s, '*') && 2 <= end
    requires forall j: nat :: 2 <= j < end ==> !ClosesAt(s, j)
    requires if ClosesAt(s, end) then true else end + 1 >= |s|
    ensures R.SkipGap(s).rest == R.SkipGap(if end + 1 < |s| then s[end + 2..] else "").rest
  {
    hide R.EndMarkAt;
    EndMarkIs(s, end);
    if ClosesAt(s, end) {
      assert s[2..][end - 2 + 2..] == s[end + 2..];
    }
  }

  lemma PlainChr(s: string)
    requires s != "" && s[0] != '\\'
    ensures R.ParseChr(s) == R.Ok(Plain(s[0]), s[1..]) && ChrValue(Plain(s[0])) == [s[0]]
  {
  }

  // The string read so far, and what remains of it.
  ghost predicate StringSoFar(read: string, s0: string, s: string) {
    match R.ParseChars(s0)
    case Ok(cs, rest) => R.ParseChars(s).Ok? && CharsValue(cs) == read + CharsValue(R.ParseChars(s).tree)
                         && rest == R.ParseChars(s).rest
    case Err(what, left) => R.ParseChars(s) == R.Err(what, left)
  }

  lemma NoStringYet(s: string)
    ensures StringSoFar("", s, s)
  {
    if R.ParseChars(s).Ok? {
      assert "" + CharsValue(R.ParseChars(s).tree) == CharsValue(R.ParseChars(s).tree);
    }
  }

  lemma StringGoesOn(read: string, s0: string, s: string, c: Chr, rest: string)
    requires StringSoFar(read, s0, s) && s != "" && s[0] != '\"' && R.ParseChr(s) == R.Ok(c, rest)
    ensures StringSoFar(read + ChrValue(c), s0, rest)
  {
    hide R.ParseChr, ChrValue;
    if R.ParseChars(rest).Ok? {
      var cs := R.ParseChars(rest).tree;
      assert ([c] + cs)[1..] == cs;
      assert read + (ChrValue(c) + CharsValue(cs)) == (read + ChrValue(c)) + CharsValue(cs);
    }
  }

  lemma StringEnds(read: string, s0: string, s: string)
    requires StringSoFar(read, s0, s) && s != "" && s[0] == '\"'
    ensures R.ParseChars(s0).Ok? && CharsValue(R.ParseChars(s0).tree) == read && R.ParseChars(s0).rest == s[1..]
  {
    assert read + "" == read;
  }

  lemma StringStep(read: string, s0: string, s: string)
    requires StringSoFar(read, s0, s)
    ensures if s == "" then R.ParseChars(s0) == R.Err(R.UnterminatedString, 0)
            else if s[0] == '\"' then
              R.ParseChars(s0).Ok? && CharsValue(R.ParseChars(s0).tree) == read && R.ParseChars(s0).rest == s[1..]
            else if R.ParseChr(s).Err? then R.ParseChars(s0) == R.Err(R.ParseChr(s).what, R.ParseChr(s).left)
            else StringSoFar(read + ChrValue(R.ParseChr(s).tree), s0, R.ParseChr(s).rest)
  {
    hide R.ParseChr, ChrValue, CharsValue;
    if s == "" {
    } else if s[0] == '\"' {
      StringEnds(read, s0, s);
    } else if R.ParseChr(s).Ok? {
      StringGoesOn(read, s0, s, R.ParseChr(s).tree, R.ParseChr(s).rest);
    }
  }

  // The members or items read so far, and what remains of the container.
  ghost predicate BodySoFar(isObject: bool, items: seq<Value>, entries: seq<Member>, s0: string, s: string) {
    match R.ParseBody(isObject, s0)
    case Ok(b, rest) =>
      var r := R.ParseBody(isObject, s);
      && r.Ok? && rest == r.rest
      && BodyItems(b) == items + BodyItems(r.tree) && BodyEntries(b) == entries + BodyEntries(r.tree)
    case Err(what, left) => R.ParseBody(isObject, s) == R.Err(what, left)
  }

  lemma NoBodyYet(isObject: bool, s: string)
    ensures BodySoFar(isObject, [], [], s, s)
  {
    hide R.ParseBody, BodyItems, BodyEntries;
    var r := R.ParseBody(isObject, s);
    if r.Ok? {
      assert [] + BodyItems(r.tree) == BodyItems(r.tree);
      assert [] + BodyEntries(r.tree) == BodyEntries(r.tree);
    }
  }

  // One entry: its key, its value and the gap after it.
  ghost function ParseEntry(isObject: bool, s: string): R.Outcome<(Key, Node)> {
    match R.ParseKey(isObject, s)
    case Err(what, left) => R.Err(what, left)
    case Ok(key, s1) =>
      match R.ParseValue(s1)
      case Err(what, left) => R.Err(what, left)
      case Ok(value, s2) => R.Ok((key, value), R.SkipGap(s2).rest)
  }

  ghost predicate EntryRead(isObject: bool, s: string, key: Key, value: Node, t: string) {
    (s == "" || s[0] != CloseMark(isObject)) && ParseEntry(isObject, s) == R.Ok((key, value), t)
  }

  lemma EntryThenTail(isObject: bool, s: string, key: Key, value: Node, t: string)
    requires EntryRead(isObject, s, key, value, t)
    ensures var b := R.ParseBody(isObject, s);
      match R.ParseTail(isObject, t)
      case Ok(tail, rest) => b.Ok? && b.rest == rest
                             && BodyItems(b.tree) == [NodeValue(value)] + TailItems(tail)
                             && BodyEntries(b.tree) == [Member(KeyValue(key), NodeValue(value))] + TailEntries(tail)
      case Err(what, left) => b == R.Err(what, left)
  {
    hide R.ParseKey, R.ParseValue, R.ParseTail, R.SkipGap, NodeValue, KeyValue, TailItems, TailEntries;
  }

  lemma BodyGoesOn(isObject: bool, items: seq<Value>, entries: seq<Member>, s0: string, s: string,
                   key: Key, value: Node, t: string)
    requires BodySoFar(isObject, items, entries, s0, s) && EntryRead(isObject, s, key, value, t)
    requires t != "" && t[0] == ','
    ensures BodySoFar(isObject, items + [NodeValue(value)], entries + [Member(KeyValue(key), NodeValue(value))], s0,
                      R.SkipGap(t[1..]).rest)
  {
    hide R.ParseBody, EntryRead, R.SkipGap, NodeValue, KeyValue, BodyItems, BodyEntries;
    EntryThenTail(isObject, s, key, value, t);
    var r := R.ParseBody(isObject, R.SkipGap(t[1..]).rest);
    if r.Ok? {
      var v, m := NodeValue(value), Member(KeyValue(key), NodeValue(value));
      assert items + ([v] + BodyItems(r.tree)) == (items + [v]) + BodyItems(r.tree);
      assert entries + ([m] + BodyEntries(r.tree)) == (entries + [m]) + BodyEntries(r.tree);
    }
  }

  lemma BodyCloses(isObject: bool, items: seq<Value>, entries: seq<Member>, s0: string, s: string,
                   key: Key, value: Node, t: string)
    requires BodySoFar(isObject, items, entries, s0, s) && EntryRead(isObject, s, key, value, t)
    requires t != "" && t[0] == CloseMark(isObject)
    ensures BodyIs(isObject, s0, items + [NodeValue(value)], entries + [Member(KeyValue(key), NodeValue(value))], t[1..])
  {
    hide R.ParseBody, EntryRead, R.SkipGap, NodeValue, KeyValue, BodyItems, BodyEntries;
    EntryThenTail(isObject, s, key, value, t);
    var v, m := NodeValue(value), Member(KeyValue(key), NodeValue(value));
    assert [v] + [] == [v];
    assert [m] + [] == [m];
  }

  ghost predicate BodyIs(isObject: bool, s0: string, items: seq<Value>, entries: seq<Member>, rest: string) {
    var r := R.ParseBody(isObject, s0);
    r.Ok? && BodyItems(r.tree) == items && BodyEntries(r.tree) == entries && r.rest == rest
  }

  lemma EmptyBody(isObject: bool, s: string)
    requires s != "" && s[0] == CloseMark(isObject)
    ensures BodyIs(isObject, s, [], [], s[1..])
  {
  }

  lemma BodyEnds(isObject: bool, items: seq<Value>, entries: seq<Member>, s0: string, s: string)
    requires BodySoFar(isObject, items, entries, s0, s) && s != "" && s[0] == CloseMark(isObject)
    ensures BodyIs(isObject, s0, items, entries, s[1..])
  {
    assert R.ParseBody(isObject, s) == R.Ok(End, s[1..]);
    assert items + [] == items && entries + [] == entries;
  }

  lemma BodyHasNoSeparator(isObject: bool, items: seq<Value>, entries: seq<Member>, s0: string, s: string,
                           key: Key, value: Node, t: string)
    requires BodySoFar(isObject, items, entries, s0, s) && EntryRead(isObject, s, key, value, t)
    requires t == "" || (t[0] != ',' && t[0] != CloseMark(isObject))
    ensures R.ParseBody(isObject, s0) == R.Err(R.ExpectedSeparator(isObject), |t|)
  {
    hide R.ParseBody, EntryRead, R.SkipGap, NodeValue, KeyValue, BodyItems, BodyEntries;
    EntryThenTail(isObject, s, key, value, t);
  }

  lemma EntryEnds(isObject: bool, items: seq<Value>, entries: seq<Member>, s0: string, s: string,
                  key: Key, value: Node, t: string)
    requires BodySoFar(isObject, items, entries, s0, s) && EntryRead(isObject, s, key, value, t)
    ensures var items', entries' := items + [NodeValue(value)], entries + [Member(KeyValue(key), NodeValue(value))];
      if t == "" || (t[0] != ',' && t[0] != CloseMark(isObject)) then
        R.ParseBody(isObject, s0) == R.Err(R.ExpectedSeparator(isObject), |t|)
      else if t[0] == ',' then BodySoFar(isObject, items', entries', s0, R.SkipGap(t[1..]).rest)
      else BodyIs(isObject, s0, items', entries', t[1..])
  {
    hide BodySoFar, EntryRead, R.SkipGap, NodeValue, KeyValue, R.ParseBody, BodyIs;
    if t == "" || (t[0] != ',' && t[0] != CloseMark(isObject)) {
      BodyHasNoSeparator(isObject, items, entries, s0, s, key, value, t);
    } else if t[0] == ',' {
      BodyGoesOn(isObject, items, entries, s0, s, key, value, t);
    } else {
      BodyCloses(isObject, items, entries, s0, s, key, value, t);
    }
  }

  lemma EntryFails(isObject: bool, items: seq<Value>, entries: seq<Member>, s0: string, s: string)
    requires BodySoFar(isObject, items, entries, s0, s) && (s == "" || s[0] != CloseMark(isObject))
    ensures var e := ParseEntry(isObject, s); e.Err? ==> R.ParseBody(isObject, s0) == R.Err(e.what, e.left)
  {
    hide R.ParseKey, R.ParseValue, R.ParseTail, R.SkipGap, BodyItems, BodyEntries;
  }

  // The value of the first `i` digits.
  function HexPrefix(s: string, i: nat): nat
    requires i <= 4 <= |s|
  {
    if i == 0 then 0 else HexPrefix(s, i - 1) * 16 + HexValue(s[i - 1])
  }

  lemma DigitStep(s: string)
    ensures R.DigitRun(s) == if s != "" && IsDigit(s[0]) then 1 + R.DigitRun(s[1..]) else 0
  {
  }

  // What strtod() makes of a token the parser has delimited: the exact value, not rounded.
  function Strtod(token: string): real {
    var r := R.ParseNumeral(token);
    if r.Ok? then NumeralValue(r.tree) else 0.0
  }

  // Cut out of the text, a number is still the same number.
  lemma TokenReadsBack(s: string, token: string)
    requires R.ParseNumeral(s).Ok? && s == token + R.ParseNumeral(s).rest
    ensures Strtod(token) == NumeralValue(R.ParseNumeral(s).tree)
  {
    hide R.ParseNumeral, NumeralValue, NumeralOk;
    var r := R.ParseNumeral(s);
    R.NumeralSound(s);
    NumeralAppends(r.tree, "", r.rest);
    assert "" + r.rest == r.rest;
    SamePrefix(token, NumeralText(r.tree, ""), r.rest);
    R.NumeralReadsBack(r.tree, "");
  }

  lemma SamePrefix(a: string, b: string, rest: string)
    requires a + rest == b + rest
    ensures a == b
  {
    assert |a + rest| == |a| + |rest| && |b + rest| == |b| + |rest|;
    assert a == (a + rest)[..|a|];
    assert b == (b + rest)[..|b|];
  }

  lemma HexPrefixIsCode(s: string)
    requires |s| >= 4
    ensures HexPrefix(s, 4) == HexCode(s[0], s[1], s[2], s[3])
  {
    assert HexPrefix(s, 1) == HexValue(s[0]);
    assert HexPrefix(s, 2) == HexValue(s[0]) * 16 + HexValue(s[1]);
    assert HexPrefix(s, 3) == (HexValue(s[0]) * 16 + HexValue(s[1])) * 16 + HexValue(s[2]);
  }

  // parse() step by step.
  lemma ParseSteps(s: string)
    ensures var root := R.ParseValue(R.SkipGap(s).rest);
      if root.Err? then root.left <= |s| && R.Parse(s) == R.Refused(root.what, |s| - root.left)
      else
        var after := R.SkipGap(root.rest).rest;
        if after != "" then |after| <= |s| && R.Parse(s) == R.Refused(R.TrailingContent, |s| - |after|)
        else R.Parse(s) == R.Read(NodeValue(root.tree))
  {
    hide R.ParseValue, R.SkipGap, NodeValue;
  }

  // ---- The parser

  class Parser {
    const text: string
    var pos: nat
    var error: Option<Failure>

    constructor (text: string)
      ensures this.text == text && pos == 0 && error == None
    {
      this.text, pos, error := text, 0, None;
    }

    // Before and after every step that has not failed.
    ghost predicate Ready()
      reads this
    {
      pos <= |text| && error == None
    }

    ghost function Left(): string
      requires pos <= |text|
      reads this
    {
      text[pos..]
    }

    // The cursor and the error after a step whose outcome is `r`.
    ghost predicate After<T>(r: R.Outcome<T>, ok: bool)
      reads this
    {
      if r.Ok? then ok && At(r.rest) else !ok && Failed(r.what, r.left)
    }

    ghost predicate At(rest: string)
      reads this
    {
      Ready() && Left() == rest
    }

    ghost predicate Failed(what: R.Complaint, left: nat)
      reads this
    {
      pos <= |text| && left <= |text| && error == Some(Failure(what, |text| - left))
    }

    method Fail(what: R.Complaint)
      modifies this`error
      ensures error == if old(error).None? then Some(Failure(what, pos)) else old(error)
    {
      if error.None? {
        error := Some(Failure(what, pos));
      }
    }

    method Skip()
      requires Ready()
      modifies this`pos
      ensures Ready() && Left() == R.SkipGap(old(Left())).rest
    {
      while pos < |text|
        invariant pos <= |text|
        invariant R.SkipGap(Left()).rest == R.SkipGap(old(Left())).rest
        decreases |text| - pos
      {
        hide R.SkipGap, ClosesAt, R.NextPiece;
        ghost var s := Left();
        var c := text[pos];
        assert s[0] == c && (pos + 1 < |text| ==> s[1] == text[pos + 1]);
        if c == ' ' || c == '\t' || c == '\r' || c == '\n' {
          SpaceSkipped(s);
          pos := pos + 1;
          assert Left() == s[1..];
        } else if c == '/' && pos + 1 < |text| && text[pos + 1] == '/' {
          SkipLine();
        } else if c == '/' && pos + 1 < |text| && text[pos + 1] == '*' {
          SkipBlock();
        } else {
          AtGap(s);
          return;
        }
      }
      assert Left() == "";
    }

    method SkipLine()
      requires pos <= |text| && R.Slashed(Left(), '/')
      modifies this`pos
      ensures old(pos) < pos <= |text| && R.SkipGap(Left()).rest == R.SkipGap(old(Left())).rest
    {
      ghost var start := pos;
      assert text[pos] == Left()[0] && text[pos + 1] == Left()[1];
      while pos < |text| && text[pos] != '\n'
        invariant start <= pos <= |text|
        invariant forall j :: start <= j < pos ==> text[j] != '\n'
      {
        pos := pos + 1;
      }
      LineSkipped(text[start..], pos - start);
      assert text[start..][pos - start..] == Left();
    }

    method SkipBlock()
      requires pos <= |text| && R.Slashed(Left(), '*')
      modifies this`pos
      ensures old(pos) < pos <= |text| && R.SkipGap(Left()).rest == R.SkipGap(old(Left())).rest
    {
      hide R.SkipGap;
      ghost var start := pos;
      pos := pos + 2;
      while pos + 1 < |text| && !(text[pos] == '*' && text[pos + 1] == '/')
        invariant start + 2 <= pos <= |text|
        invariant forall j: nat :: start + 2 <= j < pos ==> !ClosesAt(text, j)
      {
        pos := pos + 1;
      }
      ghost var end := pos;
      assert forall j: nat :: ClosesAt(text[start..], j) <==> ClosesAt(text, start + j);
      BlockSkipped(text[start..], end - start);
      pos := if pos + 1 < |text| then pos + 2 else |text|;
      assert Left() == if end + 1 < |text| then text[start..][end - start + 2..] else "";
    }

    // Four hexadecimal digits: the source shifts `code` left by four bits and puts the digit in.
    method ParseHex() returns (ok: bool, code: nat)
      requires Ready() && pos + 4 <= |text|
      modifies this
      ensures var n := R.HexRun(old(Left()), 0);
        && ok == (n == 4)
        && (ok ==> Ready() && Left() == old(Left())[4..]
                   && code == HexCode(old(Left())[0], old(Left())[1], old(Left())[2], old(Left())[3]))
        && (!ok ==> error == Some(Failure(R.InvalidUnicode, old(pos) + n + 1)))
      ensures pos <= |text|
    {
      ghost var s := Left();
      code := 0;
      var i := 0;
      while i < 4
        invariant 0 <= i <= 4 && pos == old(pos) + i && error == None
        invariant R.HexRun(s, 0) == R.HexRun(s, i)
        invariant code == HexPrefix(s, i)
      {
        var h := text[pos];
        assert s[i] == h;
        pos := pos + 1;
        if !IsHex(h) {
          Fail(R.InvalidUnicode);
          return false, code;
        }
        code := code * 16 + HexValue(h);
        i := i + 1;
      }
      HexPrefixIsCode(s);
      ok := true;
    }

    // What follows a backslash.
    method ParseEscape() returns (ok: bool, out: string)
      requires Ready() && 0 < pos && text[pos - 1] == '\\'
      modifies this
      ensures var r := R.ParseChr(text[old(pos) - 1..]); After(r, ok) && (ok ==> out == ChrValue(r.tree))
    {
      hide R.HexRun, HexCode;
      ghost var s := text[pos - 1..];
      out := "";
      if pos == |text| {
        Fail(R.UnterminatedEscape);
        return false, out;
      }
      var e := text[pos];
      assert s[1] == e;
      pos := pos + 1;
      assert Left() == s[2..];
      if e == 'u' {
        if pos + 4 > |text| {
          Fail(R.TruncatedUnicode);
          return false, out;
        }
        var code;
        ok, code := ParseHex();
        if ok {
          out := Utf8(code);
        }
      } else if IsShort(e) {
        return true, [ShortValue(e)];
      } else {
        Fail(R.InvalidEscape);
        return false, out;
      }
    }

    // The character `c` just passed, or the escape it starts.
    method ParseCharacter(c: char) returns (ok: bool, out: string)
      requires Ready() && 0 < pos && text[pos - 1] == c
      modifies this
      ensures var r := R.ParseChr(text[old(pos) - 1..]); After(r, ok) && (ok ==> out == ChrValue(r.tree))
    {
      hide R.ParseChr, ChrValue;
      if c != '\\' {
        PlainChr(text[pos - 1..]);
        assert Left() == text[pos - 1..][1..];
        return true, [c];
      }
      ok, out := ParseEscape();
    }

    method ParseString() returns (ok: bool, out: string)
      requires Ready() && pos < |text|
      modifies this
      ensures var r := R.ParseChars(old(Left())[1..]); After(r, ok) && (ok ==> out == CharsValue(r.tree))
    {
      hide R.ParseChars, CharsValue, StringSoFar;
      pos := pos + 1;
      out := "";
      ghost var s0 := Left();
      NoStringYet(s0);
      while true
        invariant Ready() && StringSoFar(out, s0, Left())
        decreases |text| - pos
      {
        hide ChrValue, R.ParseChr;
        ghost var s := Left();
        StringStep(out, s0, s);
        if pos == |text| {
          Fail(R.UnterminatedString);
          return false, out;
        }
        var c := text[pos];
        assert s[0] == c && s[1..] == text[pos + 1..];
        pos := pos + 1;
        if c == '\"' {
          return true, out;
        }
        var good, piece := ParseCharacter(c);
        if !good {
          return false, out;
        }
        out := out + piece;
      }
    }

    method SkipDigits() returns (digits: bool)
      requires Ready()
      modifies this`pos
      ensures var n := R.DigitRun(old(Left()));
        Ready() && Left() == old(Left())[n..] && pos == old(pos) + n && digits == (n > 0)
    {
      hide R.DigitRun;
      digits := false;
      while pos < |text| && '0' <= text[pos] <= '9'
        invariant Ready() && old(pos) <= pos && digits == (pos > old(pos))
        invariant R.DigitRun(old(Left())) == pos - old(pos) + R.DigitRun(Left())
      {
        DigitStep(Left());
        assert Left()[0] == text[pos] && Left()[1..] == text[pos + 1..];
        pos := pos + 1;
        digits := true;
      }
      DigitStep(Left());
      assert Left() == old(Left())[pos - old(pos)..];
    }

    method SkipSign()
      requires Ready()
      modifies this`pos
      ensures var n := R.SignRun(old(Left())); Ready() && Left() == old(Left())[n..] && pos == old(pos) + n
    {
      if pos < |text| && (text[pos] == '-' || text[pos] == '+') {
        pos := pos + 1;
      }
    }

    method SkipFraction() returns (digits: bool)
      requires Ready()
      modifies this`pos
      ensures var f := R.ParseFraction(old(Left()));
        Ready() && old(pos) <= pos && Left() == f.1 && digits == (FractionDigits(f.0) != "")
    {
      hide R.DigitRun;
      digits := false;
      if pos < |text| && text[pos] == '.' {
        pos := pos + 1;
        assert Left() == old(Left())[1..];
        digits := SkipDigits();
      }
    }

    method SkipExponent()
      requires Ready()
      modifies this`pos
      ensures Ready() && old(pos) <= pos && Left() == R.ParseExponent(old(Left())).1
    {
      hide R.DigitRun, R.SignRun;
      if pos < |text| && (text[pos] == 'e' || text[pos] == 'E') {
        pos := pos + 1;
        assert Left() == old(Left())[1..];
        SkipSign();
        var _ := SkipDigits();
      }
    }

    method ParseNumber() returns (ok: bool, out: Value)
      requires Ready()
      modifies this
      ensures var r := R.ParseNumeral(old(Left())); After(r, ok) && (ok ==> out == Number(NumeralValue(r.tree)))
    {
      hide R.DigitRun, R.SignRun, NumeralValue, R.ParseFraction, R.ParseExponent, FractionDigits, Strtod;
      ghost var s := Left();
      var start := pos;
      SkipSign();
      var whole := SkipDigits();
      var fraction := SkipFraction();
      if !whole && !fraction {
        Fail(R.ExpectedValue);
        return false, Null;
      }
      SkipExponent();
      var token := text[start..pos];
      assert s == token + Left();
      TokenReadsBack(s, token);
      return true, Number(Strtod(token));
    }

    // Whether the text goes on with this word; if so, the cursor moves past it.
    method Literal(word: string) returns (ok: bool)
      requires Ready()
      modifies this`pos
      ensures Ready() && ok == (word <= old(Left()))
      ensures Left() == if ok then old(Left())[|word|..] else old(Left())
    {
      ok := pos + |word| <= |text| && text[pos..pos + |word|] == word;
      if ok {
        assert word <= Left();
        pos := pos + |word|;
      }
    }

    method ParseWord(truth: Option<bool>) returns (ok: bool, out: Value)
      requires Ready()
      modifies this
      ensures var r := R.ParseWord(truth, old(Left())); After(r, ok) && (ok ==> out == NodeValue(r.tree))
    {
      hide WordText;
      ghost var s := Left();
      ok := Literal(WordText(truth));
      out := WordValue(truth);
      assert ok == (|WordText(truth)| <= |s| && s[..|WordText(truth)|] == WordText(truth));
      if !ok {
        Fail(R.InvalidLiteral);
      }
    }

    method ParseValue() returns (ok: bool, out: Value)
      requires Ready()
      modifies this
      ensures var r := R.ParseValue(old(Left())); After(r, ok) && (ok ==> out == NodeValue(r.tree))
      decreases |text| - pos, 1
    {
      hide R.ParseBody, R.ParseChars, R.ParseNumeral, R.ParseWord, R.SkipGap, CharsValue, NumeralValue, WordValue, BodyItems,
           BodyEntries;
      out := Null;
      if pos == |text| {
        Fail(R.UnexpectedEnd);
        return false, out;
      }
      var c := text[pos];
      assert Left()[0] == c;
      if c == '{' {
        ok, out := ParseObject();
      } else if c == '[' {
        ok, out := ParseArray();
      } else if c == '\"' {
        var s;
        ok, s := ParseString();
        out := String(s);
      } else if c == 't' {
        ok, out := ParseWord(Some(true));
      } else if c == 'f' {
        ok, out := ParseWord(Some(false));
      } else if c == 'n' {
        ok, out := ParseWord(None);
      } else {
        ok, out := ParseNumber();
      }
    }

    // An object's key, its colon, and the gaps around it.
    method ParseKey() returns (ok: bool, key: string)
      requires Ready()
      modifies this
      ensures var r := R.ParseKey(true, old(Left())); After(r, ok) && (ok ==> key == KeyValue(r.tree))
    {
      hide R.ParseChars, R.SkipGap, CharsValue;
      key := "";
      if pos == |text| || text[pos] != '\"' {
        Fail(R.ExpectedKey);
        return false, key;
      }
      ok, key := ParseString();
      if !ok {
        return;
      }
      Skip();
      if pos == |text| || text[pos] != ':' {
        Fail(R.ExpectedColon);
        return false, key;
      }
      assert Left()[1..] == text[pos + 1..];
      pos := pos + 1;
      Skip();
    }

    // A comma, or the closing bracket.
    method ParseSeparator(isObject: bool) returns (ok: bool, more: bool)
      requires Ready()
      modifies this
      ensures var t := old(Left());
        if t != "" && (t[0] == ',' || t[0] == CloseMark(isObject)) then ok && more == (t[0] == ',') && At(t[1..])
        else !ok && Failed(R.ExpectedSeparator(isObject), |t|)
    {
      ghost var t := Left();
      if pos < |text| && text[pos] == ',' {
        pos := pos + 1;
        assert Left() == t[1..];
        return true, true;
      }
      if pos < |text| && text[pos] == CloseMark(isObject) {
        pos := pos + 1;
        assert Left() == t[1..];
        return true, false;
      }
      Fail(R.ExpectedSeparator(isObject));
      return false, false;
    }

    method ParseMember() returns (ok: bool, member: Member)
      requires Ready()
      modifies this
      ensures var r := ParseEntry(true, old(Left()));
        After(r, ok) && (ok ==> member == Member(KeyValue(r.tree.0), NodeValue(r.tree.1)) && old(pos) < pos)
      decreases |text| - pos, 2
    {
      hide R.ParseKey, R.ParseValue, R.SkipGap, KeyValue, NodeValue;
      var key, value;
      value := Null;
      ok, key := ParseKey();
      member := Member(key, value);
      if !ok {
        return;
      }
      ok, value := ParseValue();
      if !ok {
        return;
      }
      Skip();
      member := Member(key, value);
    }

    method ParseElement() returns (ok: bool, value: Value)
      requires Ready()
      modifies this
      ensures var r := ParseEntry(false, old(Left()));
        After(r, ok) && (ok ==> r.tree.0 == NoKey && value == NodeValue(r.tree.1) && old(pos) < pos)
      decreases |text| - pos, 2
    {
      hide R.ParseValue, R.SkipGap, KeyValue, NodeValue;
      ok, value := ParseValue();
      if ok {
        Skip();
      }
    }

    method ParseObject() returns (ok: bool, out: Value)
      requires Ready() && pos < |text| && text[pos] == '{'
      modifies this
      ensures var r := R.ParseBody(true, R.SkipGap(old(Left())[1..]).rest);
        After(r, ok) && (ok ==> out == Object(BodyEntries(r.tree)))
      decreases |text| - pos, 0
    {
      hide R.ParseBody, ParseEntry, R.SkipGap, BodySoFar, BodyItems, BodyEntries, KeyValue, NodeValue;
      out := Null;
      pos := pos + 1;
      Skip();
      SkippedTwice(old(Left())[1..]);
      if pos < |text| && text[pos] == '}' {
        EmptyBody(true, Left());
        assert text[pos + 1..] == Left()[1..];
        pos := pos + 1;
        return true, Object([]);
      }
      ok, out := ParseMembers();
    }

    // The rest of parseObject, from its loop on.
    method ParseMembers() returns (ok: bool, out: Value)
      requires Ready() && R.SkipGap(Left()).rest == Left()
      modifies this
      ensures var r := R.ParseBody(true, old(Left())); After(r, ok) && (ok ==> out == Object(BodyEntries(r.tree)))
      decreases |text| - pos, 3
    {
      hide R.ParseBody, R.SkipGap, BodySoFar, BodyItems, BodyEntries, KeyValue, NodeValue;
      out := Null;
      var entries: seq<Member> := [];
      ghost var items: seq<Value> := [];
      ghost var s0 := Left();
      NoBodyYet(true, s0);
      while true
        invariant Ready() && old(pos) <= pos && BodySoFar(true, items, entries, s0, R.SkipGap(Left()).rest)
        decreases |text| - pos
      {
        Skip();
        ghost var s := Left();
        if pos < |text| && text[pos] == '}' {
          BodyEnds(true, items, entries, s0, s);
          pos := pos + 1;
          assert Left() == s[1..];
          break;
        }
        EntryFails(true, items, entries, s0, s);
        var good, member := ParseMember();
        if !good {
          return false, out;
        }
        ghost var t := Left();
        ghost var e := ParseEntry(true, s).tree;
        hide EntryRead, ParseEntry;
        EntryEnds(true, items, entries, s0, s, e.0, e.1, t);
        var more;
        good, more := ParseSeparator(true);
        if !good {
          return false, out;
        }
        items, entries := items + [member.value], entries + [member];
        if !more {
          break;
        }
      }
      return true, Object(entries);
    }

    method ParseArray() returns (ok: bool, out: Value)
      requires Ready() && pos < |text| && text[pos] == '['
      modifies this
      ensures var r := R.ParseBody(false, R.SkipGap(old(Left())[1..]).rest);
        After(r, ok) && (ok ==> out == Array(BodyItems(r.tree)))
      decreases |text| - pos, 0
    {
      hide R.ParseBody, ParseEntry, R.SkipGap, BodySoFar, BodyItems, BodyEntries, KeyValue, NodeValue;
      out := Null;
      pos := pos + 1;
      Skip();
      SkippedTwice(old(Left())[1..]);
      if pos < |text| && text[pos] == ']' {
        EmptyBody(false, Left());
        assert text[pos + 1..] == Left()[1..];
        pos := pos + 1;
        return true, Array([]);
      }
      ok, out := ParseItems();
    }

    // The rest of parseArray, from its loop on.
    method ParseItems() returns (ok: bool, out: Value)
      requires Ready() && R.SkipGap(Left()).rest == Left()
      modifies this
      ensures var r := R.ParseBody(false, old(Left())); After(r, ok) && (ok ==> out == Array(BodyItems(r.tree)))
      decreases |text| - pos, 3
    {
      hide R.ParseBody, R.SkipGap, BodySoFar, BodyItems, BodyEntries, KeyValue, NodeValue;
      out := Null;
      var items: seq<Value> := [];
      ghost var entries: seq<Member> := [];
      ghost var s0 := Left();
      NoBodyYet(false, s0);
      while true
        invariant Ready() && old(pos) <= pos && BodySoFar(false, items, entries, s0, R.SkipGap(Left()).rest)
        decreases |text| - pos
      {
        Skip();
        ghost var s := Left();
        if pos < |text| && text[pos] == ']' {
          BodyEnds(false, items, entries, s0, s);
          pos := pos + 1;
          assert Left() == s[1..];
          break;
        }
        EntryFails(false, items, entries, s0, s);
        var good, value := ParseElement();
        if !good {
          return false, out;
        }
        ghost var t := Left();
        ghost var e := ParseEntry(false, s).tree;
        hide EntryRead, ParseEntry;
        EntryEnds(false, items, entries, s0, s, e.0, e.1, t);
        var more;
        good, more := ParseSeparator(false);
        if !good {
          return false, out;
        }
        items, entries := items + [value], entries + [Member(KeyValue(NoKey), value)];
        if !more {
          break;
        }
      }
      return true, Array(items);
    }

    method ParseAll() returns (ok: bool, out: Value)
      requires Ready() && pos == 0
      modifies this
      ensures var r := R.Parse(text);
        if r.Read? then ok && out == r.value && error == None
        else !ok && error == Some(Failure(r.what, r.offset))
    {
      hide R.ParseValue, R.SkipGap, NodeValue, R.Parse;
      ParseSteps(text);
      assert Left() == text;
      Skip();
      ok, out := ParseValue();
      if !ok {
        return;
      }
      Skip();
      if pos != |text| {
        Fail(R.TrailingContent);
        ok := false;
      }
    }
  }

  // parse(): a null value and the error when the text is refused.
  method Parse(text: string) returns (value: Value, error: Option<Failure>)
    ensures var r := R.Parse(text);
      if r.Read? then value == r.value && error == None
      else value == Null && error == Some(Failure(r.what, r.offset))
  {
    hide R.Parse;
    var parser := new Parser(text);
    var ok, out := parser.ParseAll();
    if !ok {
      return Null, parser.error;
    }
    return out, None;
  }
}
