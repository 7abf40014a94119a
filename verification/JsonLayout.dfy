// What a dump of src/json.cpp looks like, said about its characters: how its lines are indented, what is kept on one line,
// how numbers and characters are written.

module JsonLayout {
  import opened Wrappers
  import opened JsonSyntax
  import opened JsonReader
  import opened JsonPrinter
  import M = JsonMeaning

  // ---- Indentation

  // Where a reader of the text is: after `blanks` blanks at the start of a line, in the middle of one, inside a string, or
  // after a backslash in a string.
  datatype Spot = AtLine(blanks: nat) | Middle | Quoted | Escaping

  predicate Opens(c: char) {
    c == '{' || c == '['
  }

  predicate Closes(c: char) {
    c == '}' || c == ']'
  }

  // Reading on from `spot` with `depth` brackets open, every line starts with indent * depth blanks, a line that starts with
  // a closing bracket with one indent less.
  ghost predicate Indented(indent: nat, depth: int, spot: Spot, s: string)
    decreases |s|
  {
    s == "" ||
    match spot
    case Quoted =>
      if s[0] == '\\' then Indented(indent, depth, Escaping, s[1..])
      else Indented(indent, depth, if s[0] == '\"' then Middle else Quoted, s[1..])
    case Escaping => Indented(indent, depth, Quoted, s[1..])
    case AtLine(blanks) =>
      if s[0] == ' ' then Indented(indent, depth, AtLine(blanks + 1), s[1..])
      else blanks == indent * (if Closes(s[0]) then depth - 1 else depth) && Beyond(indent, depth, s)
    case Middle => Beyond(indent, depth, s)
  }

  ghost predicate Beyond(indent: nat, depth: int, s: string)
    requires s != ""
    decreases |s|, 0
  {
    if s[0] == '\n' then Indented(indent, depth, AtLine(0), s[1..])
    else if s[0] == '\"' then Indented(indent, depth, Quoted, s[1..])
    else Indented(indent, if Opens(s[0]) then depth + 1 else if Closes(s[0]) then depth - 1 else depth, Middle, s[1..])
  }

  // Characters that mean nothing to indentation.
  predicate Dull(c: char) {
    c != '\n' && c != '\"' && !Opens(c) && !Closes(c)
  }

  predicate AllDull(s: string) {
    forall i :: 0 <= i < |s| ==> Dull(s[i])
  }

  lemma {:induction false} DullText(indent: nat, depth: int, s: string, rest: string)
    requires AllDull(s)
    ensures Indented(indent, depth, Middle, s + rest) == Indented(indent, depth, Middle, rest)
    decreases s
  {
    if s == "" {
      assert s + rest == rest;
    } else {
      assert (s + rest)[0] == s[0] && (s + rest)[1..] == s[1..] + rest;
      DullText(indent, depth, s[1..], rest);
    }
  }

  lemma NumeralIsDull(t: Numeral, rest: string)
    requires NumeralOk(t)
    ensures AllDull(NumeralText(t, "")) && NumeralText(t, rest) == NumeralText(t, "") + rest
  {
    NumeralAppends(t, "", rest);
    assert "" + rest == rest;
    hide NumeralText;
    NumeralCharsDull(t);
  }

  lemma NumeralCharsDull(t: Numeral)
    requires NumeralOk(t)
    ensures AllDull(NumeralText(t, ""))
  {
    DigitsDull(t.whole);
    DigitsDull(FractionDigits(t.fraction));
    ExponentDull(t.exponent);
    FractionDull(t.fraction, ExponentText(t.exponent, ""));
    SignDull(t.sign);
    hide AllDull, AllDigits, ExponentOk, FractionText, ExponentText, IsSign, FractionDigits;
    JoinDull(t.whole, FractionText(t.fraction, ExponentText(t.exponent, "")));
    JoinDull(t.sign, t.whole + FractionText(t.fraction, ExponentText(t.exponent, "")));
  }

  lemma JoinDull(a: string, b: string)
    requires AllDull(a) && AllDull(b)
    ensures AllDull(a + b)
  {
  }

  lemma SignDull(s: string)
    requires IsSign(s)
    ensures AllDull(s)
  {
  }

  lemma FractionDull(f: Option<string>, rest: string)
    requires AllDull(FractionDigits(f)) && AllDull(rest)
    ensures AllDull(FractionText(f, rest))
  {
  }

  lemma ExponentDull(e: Option<Exponent>)
    requires ExponentOk(e)
    ensures AllDull(ExponentText(e, ""))
  {
    if e.Some? {
      var x := e.value;
      DigitsDull(x.digits);
      SignDull(x.sign);
      assert x.digits + "" == x.digits;
      JoinDull(x.sign, x.digits);
      JoinDull([x.mark], x.sign + x.digits);
    }
  }

  lemma DigitsDull(s: string)
    requires AllDigits(s)
    ensures AllDull(s)
  {
  }

  lemma {:induction false} CharsIndented(indent: nat, depth: int, cs: seq<Chr>, rest: string)
    requires CharsOk(cs)
    ensures Indented(indent, depth, Quoted, CharsText(cs, rest)) == Indented(indent, depth, Middle, rest)
    decreases cs
  {
    hide ChrText, ChrOk;
    if cs == [] {
      assert (['\"'] + rest)[1..] == rest;
    } else {
      CharsIndented(indent, depth, cs[1..], rest);
      ChrIndented(indent, depth, cs[0], CharsText(cs[1..], rest));
    }
  }

  lemma ChrIndented(indent: nat, depth: int, c: Chr, rest: string)
    requires ChrOk(c)
    ensures Indented(indent, depth, Quoted, ChrText(c, rest)) == Indented(indent, depth, Quoted, rest)
  {
    match c {
      case Plain(c) => assert ([c] + rest)[1..] == rest;
      case Short(e) => assert (['\\', e] + rest)[1..] == [e] + rest && ([e] + rest)[1..] == rest;
      case Hex(a, b, c, d) =>
        var digits := ['u', a, b, c, d];
        assert (['\\', 'u', a, b, c, d] + rest)[1..] == digits + rest;
        assert (digits + rest)[1..] == digits[1..] + rest;
        QuotedRun(indent, depth, digits[1..], rest);
    }
  }

  lemma {:induction false} QuotedRun(indent: nat, depth: int, s: string, rest: string)
    requires forall i :: 0 <= i < |s| ==> s[i] != '\\' && s[i] != '\"'
    ensures Indented(indent, depth, Quoted, s + rest) == Indented(indent, depth, Quoted, rest)
    decreases s
  {
    if s == "" {
      assert s + rest == rest;
    } else {
      assert (s + rest)[0] == s[0] && (s + rest)[1..] == s[1..] + rest;
      QuotedRun(indent, depth, s[1..], rest);
    }
  }

  lemma QuoteOpens(indent: nat, depth: int, cs: seq<Chr>, rest: string)
    requires CharsOk(cs)
    ensures Indented(indent, depth, Middle, ['\"'] + CharsText(cs, rest)) == Indented(indent, depth, Middle, rest)
  {
    hide CharsText, CharsOk;
    CharsIndented(indent, depth, cs, rest);
    assert (['\"'] + CharsText(cs, rest))[1..] == CharsText(cs, rest);
  }

  // Blanks at the start of a line, then a text that does not start with one.
  lemma {:induction false} BlanksCounted(indent: nat, depth: int, n: nat, k: nat, s: string)
    requires s != "" && s[0] != ' '
    ensures Indented(indent, depth, AtLine(k), GapText(Spaces(n), s))
       <==> k + n == indent * (if Closes(s[0]) then depth - 1 else depth) && Beyond(indent, depth, s)
    decreases n
  {
    hide Beyond;
    if n > 0 {
      var later := GapText(Spaces(n - 1), s);
      assert Spaces(n)[1..] == Spaces(n - 1);
      assert GapText(Spaces(n), s) == [' '] + later;
      assert ([' '] + later)[1..] == later;
      BlanksCounted(indent, depth, n - 1, k + 1, s);
    }
  }

  // A new line for a text at this depth: one that opens no line with a closing bracket, or the closing bracket one deeper.
  lemma NewLineIndents(style: Style, depth: nat, open: int, s: string)
    requires style.indent >= 0 && s != "" && s[0] != ' ' && s[0] != '\n'
    requires open == if Closes(s[0]) then depth + 1 else depth
    ensures Indented(style.indent, open, Middle, GapText(NewLine(style, depth), s))
         == Indented(style.indent, open, Middle, s)
  {
    hide Spaces, GapText;
    NewLineText(style, depth, s);
    var spaces := GapText(Spaces(Margin(style.indent, depth)), s);
    assert (['\n'] + spaces)[1..] == spaces;
    BlanksCounted(style.indent, open, Margin(style.indent, depth), 0, s);
  }

  lemma NewLineText(style: Style, depth: nat, s: string)
    requires style.indent >= 0
    ensures GapText(NewLine(style, depth), s) == ['\n'] + GapText(Spaces(Margin(style.indent, depth)), s)
  {
    assert NewLine(style, depth)[1..] == Spaces(Margin(style.indent, depth));
  }

  lemma OneChar(indent: nat, depth: int, c: char, rest: string)
    requires c != '\n' && c != '\"'
    ensures Indented(indent, depth, Middle, [c] + rest)
         == Indented(indent, if Opens(c) then depth + 1 else if Closes(c) then depth - 1 else depth, Middle, rest)
  {
    assert ([c] + rest)[1..] == rest;
  }

  // The frames of one container: all on one line, or a line for each element and for the closing bracket.
  predicate FrameFits(style: Style, frame: Frame, depth: nat) {
    frame == Frame([], [Space(' ')], []) || (depth > 0 && frame == BlockFrame(style, depth - 1))
  }

  predicate GapFits(style: Style, gap: Gap, depth: nat) {
    gap == [] || gap == [Space(' ')] || gap == NewLine(style, depth)
  }

  lemma GapIndents(style: Style, gap: Gap, depth: nat, open: int, s: string)
    requires style.indent >= 0 && GapFits(style, gap, depth) && s != "" && s[0] != ' ' && s[0] != '\n'
    requires open == if Closes(s[0]) then depth + 1 else depth
    ensures Indented(style.indent, open, Middle, GapText(gap, s)) == Indented(style.indent, open, Middle, s)
  {
    hide NewLine, Indented;
    if gap == [Space(' ')] {
      assert gap[1..] == [];
      assert GapText(gap, s) == [' '] + s;
      OneChar(style.indent, open, ' ', s);
    } else if gap != [] {
      NewLineIndents(style, depth, open, s);
    }
  }

  lemma FrameGaps(style: Style, frame: Frame, depth: nat)
    requires FrameFits(style, frame, depth)
    ensures GapFits(style, frame.open, depth) && GapFits(style, frame.between, depth)
    ensures GapFits(style, frame.close, if depth == 0 then 0 else depth - 1)
  {
  }

  lemma StartsMiddle(c: char)
    requires StartsValue(c)
    ensures c != ' ' && c != '\n' && !Closes(c)
  {
  }

  // A container of the tree, opened at `depth`.
  lemma OpenIndents(style: Style, isObject: bool, frame: Frame, depth: nat, body: Body, rest: string)
    requires style.indent >= 0 && FrameFits(style, frame, depth + 1) && BodyOk(isObject, body) && body.Entry?
    ensures Indented(style.indent, depth, Middle, NodeText(Container(isObject, frame.open, body), rest))
         == Indented(style.indent, depth + 1, Middle, BodyText(isObject, body, rest))
  {
    hide Indented, BodyText, BodyOk, GapText, GapFits, FrameFits;
    var inner := BodyText(isObject, body, rest);
    BodyStarts(isObject, body, rest);
    StartsMiddle(inner[0]);
    FrameGaps(style, frame, depth + 1);
    OneChar(style.indent, depth, OpenMark(isObject), GapText(frame.open, inner));
    GapIndents(style, frame.open, depth + 1, depth + 1, inner);
  }

  lemma CloseIndents(style: Style, isObject: bool, frame: Frame, depth: nat, rest: string)
    requires style.indent >= 0 && FrameFits(style, frame, depth) && depth > 0
    ensures Indented(style.indent, depth, Middle, GapText(frame.close, TailText(isObject, Close, rest)))
         == Indented(style.indent, depth - 1, Middle, rest)
  {
    hide Indented, GapText, GapFits, FrameFits;
    FrameGaps(style, frame, depth);
    GapIndents(style, frame.close, depth - 1, depth, [CloseMark(isObject)] + rest);
    OneChar(style.indent, depth, CloseMark(isObject), rest);
  }

  lemma CommaIndents(style: Style, isObject: bool, frame: Frame, depth: nat, body: Body, rest: string)
    requires style.indent >= 0 && FrameFits(style, frame, depth) && BodyOk(isObject, body) && body.Entry?
    ensures Indented(style.indent, depth, Middle, GapText([], TailText(isObject, Comma(frame.between, body), rest)))
         == Indented(style.indent, depth, Middle, BodyText(isObject, body, rest))
  {
    var inner := BodyText(isObject, body, rest);
    var after := GapText(frame.between, inner);
    assert GapText([], TailText(isObject, Comma(frame.between, body), rest)) == [','] + after;
    hide Indented, BodyText, BodyOk, GapText, GapFits, FrameFits;
    BodyStarts(isObject, body, rest);
    StartsMiddle(inner[0]);
    FrameGaps(style, frame, depth);
    OneChar(style.indent, depth, ',', after);
    GapIndents(style, frame.between, depth, depth, inner);
  }

  lemma KeyIndents(style: Style, name: string, depth: nat, rest: string)
    requires style.indent >= 0
    ensures Indented(style.indent, depth, Middle, KeyText(KeyOf(style, name), rest))
         == Indented(style.indent, depth, Middle, rest)
  {
    hide Indented, Escaped, CharsText, CharsOk, CharsValue;
    EscapedReadsBack(name);
    var key := KeyOf(style, name);
    assert key.after[1..] == [] && GapText(key.after, rest) == [' '] + rest;
    var colon := [':'] + ([' '] + rest);
    assert KeyText(key, rest) == ['\"'] + CharsText(Escaped(name), colon);
    QuoteOpens(style.indent, depth, Escaped(name), colon);
    OneChar(style.indent, depth, ':', [' '] + rest);
    OneChar(style.indent, depth, ' ', rest);
  }

  lemma WordIsDull(truth: Option<bool>)
    ensures AllDull(WordText(truth))
  {
  }

  lemma {:induction false} TreeIndents(style: Style, v: Value, depth: nat, rest: string)
    requires style.indent >= 0
    ensures Indented(style.indent, depth, Middle, NodeText(TreeOf(style, v, depth), rest))
         == Indented(style.indent, depth, Middle, rest)
    decreases v
  {
    hide Indented, NumeralOf, NumeralText, WordText, CharsText, ItemsBody, EntriesBody, BlockFrame, AllDull, FrameFits;
    hide BodyOk, BodyText, IsInline, NumeralOk, CharsOk, CharsValue;
    TreeOk(style, v, depth);
    match v {
      case Null =>
        WordIsDull(None);
        DullText(style.indent, depth, WordText(None), rest);
      case Bool(b) =>
        WordIsDull(Some(b));
        DullText(style.indent, depth, WordText(Some(b)), rest);
      case Number(n) =>
        NumeralIsDull(NumeralOf(style, n), rest);
        DullText(style.indent, depth, NumeralText(NumeralOf(style, n), ""), rest);
      case String(s) => QuoteOpens(style.indent, depth, Escaped(s), rest);
      case Array(items) =>
        if items == [] {
          EmptyIndents(style.indent, depth, false, rest);
        } else {
          var frame := ArrayFrame(style, items, depth);
          FramesFit(style, items, depth);
          ItemsEntry(style, frame, items, depth + 1);
          OpenIndents(style, false, frame, depth, ItemsBody(style, frame, items, depth + 1), rest);
          ItemsIndent(style, frame, items, depth + 1, rest);
        }
      case Object(entries) =>
        if entries == [] {
          EmptyIndents(style.indent, depth, true, rest);
        } else {
          var frame := BlockFrame(style, depth);
          FramesFit(style, [], depth);
          EntriesEntry(style, frame, entries, depth + 1);
          OpenIndents(style, true, frame, depth, EntriesBody(style, frame, entries, depth + 1), rest);
          EntriesIndent(style, frame, entries, depth + 1, rest);
        }
    }
  }

  lemma EmptyIndents(indent: nat, depth: nat, isObject: bool, rest: string)
    ensures Indented(indent, depth, Middle, NodeText(Container(isObject, [], End), rest))
         == Indented(indent, depth, Middle, rest)
  {
    hide Indented;
    OneChar(indent, depth, OpenMark(isObject), [CloseMark(isObject)] + rest);
    OneChar(indent, depth + 1, CloseMark(isObject), rest);
    assert NodeText(Container(isObject, [], End), rest) == [OpenMark(isObject)] + ([CloseMark(isObject)] + rest);
  }

  lemma FramesFit(style: Style, items: seq<Value>, depth: nat)
    ensures FrameFits(style, ArrayFrame(style, items, depth), depth + 1)
    ensures FrameFits(style, BlockFrame(style, depth), depth + 1)
    ensures FrameOk(ArrayFrame(style, items, depth)) && FrameOk(BlockFrame(style, depth))
  {
    FramesOk(style, items, depth);
    hide FrameOk, BlockFrame, IsInline;
  }

  lemma ItemsEntry(style: Style, frame: Frame, items: seq<Value>, depth: nat)
    requires FrameOk(frame) && items != []
    ensures BodyOk(false, ItemsBody(style, frame, items, depth)) && ItemsBody(style, frame, items, depth).Entry?
  {
    ItemsBodyOk(style, frame, items, depth);
    hide BodyOk, TreeOf;
  }

  lemma EntriesEntry(style: Style, frame: Frame, entries: seq<Member>, depth: nat)
    requires FrameOk(frame) && entries != []
    ensures BodyOk(true, EntriesBody(style, frame, entries, depth)) && EntriesBody(style, frame, entries, depth).Entry?
  {
    EntriesBodyOk(style, frame, entries, depth);
    hide BodyOk, TreeOf;
  }

  // What follows an element: the closing bracket with its gap, or a comma, a gap and the other elements.
  function ItemsRest(style: Style, frame: Frame, items: seq<Value>, depth: nat, rest: string): string
    requires items != []
  {
    GapText(if |items| == 1 then frame.close else [], TailText(false, ItemsTail(style, frame, items[1..], depth), rest))
  }

  function EntriesRest(style: Style, frame: Frame, entries: seq<Member>, depth: nat, rest: string): string
    requires entries != []
  {
    GapText(if |entries| == 1 then frame.close else [],
            TailText(true, EntriesTail(style, frame, entries[1..], depth), rest))
  }

  lemma ItemsParts(style: Style, frame: Frame, items: seq<Value>, depth: nat, rest: string)
    requires items != []
    ensures BodyText(false, ItemsBody(style, frame, items, depth), rest)
         == NodeText(TreeOf(style, items[0], depth), ItemsRest(style, frame, items, depth, rest))
  {
    hide NodeText, TreeOf, GapText, TailText;
  }

  lemma EntriesParts(style: Style, frame: Frame, entries: seq<Member>, depth: nat, rest: string)
    requires entries != []
    ensures BodyText(true, EntriesBody(style, frame, entries, depth), rest)
         == KeyText(KeyOf(style, entries[0].name),
                    NodeText(TreeOf(style, entries[0].value, depth), EntriesRest(style, frame, entries, depth, rest)))
  {
    hide NodeText, TreeOf, GapText, TailText, KeyText, KeyOf;
  }

  lemma {:induction false} ItemsIndent(style: Style, frame: Frame, items: seq<Value>, depth: nat, rest: string)
    requires style.indent >= 0 && depth > 0 && FrameFits(style, frame, depth) && FrameOk(frame) && items != []
    ensures Indented(style.indent, depth, Middle, BodyText(false, ItemsBody(style, frame, items, depth), rest))
         == Indented(style.indent, depth - 1, Middle, rest)
    decreases items
  {
    hide Indented, NodeText, TreeOf, BodyText, ItemsBody, GapText, TailText, FrameFits, FrameOk, BodyOk;
    ItemsParts(style, frame, items, depth, rest);
    TreeIndents(style, items[0], depth, ItemsRest(style, frame, items, depth, rest));
    if |items| == 1 {
      assert items[1..] == [];
      CloseIndents(style, false, frame, depth, rest);
    } else {
      ItemsEntry(style, frame, items[1..], depth);
      CommaIndents(style, false, frame, depth, ItemsBody(style, frame, items[1..], depth), rest);
      ItemsIndent(style, frame, items[1..], depth, rest);
    }
  }

  lemma {:induction false} EntriesIndent(style: Style, frame: Frame, entries: seq<Member>, depth: nat, rest: string)
    requires style.indent >= 0 && depth > 0 && FrameFits(style, frame, depth) && FrameOk(frame) && entries != []
    ensures Indented(style.indent, depth, Middle, BodyText(true, EntriesBody(style, frame, entries, depth), rest))
         == Indented(style.indent, depth - 1, Middle, rest)
    decreases entries
  {
    hide Indented, NodeText, TreeOf, BodyText, EntriesBody, GapText, TailText, FrameFits, FrameOk, BodyOk, KeyText, KeyOf;
    var after := EntriesRest(style, frame, entries, depth, rest);
    EntriesParts(style, frame, entries, depth, rest);
    KeyIndents(style, entries[0].name, depth, NodeText(TreeOf(style, entries[0].value, depth), after));
    TreeIndents(style, entries[0].value, depth, after);
    if |entries| == 1 {
      assert entries[1..] == [];
      CloseIndents(style, true, frame, depth, rest);
    } else {
      EntriesEntry(style, frame, entries[1..], depth);
      CommaIndents(style, true, frame, depth, EntriesBody(style, frame, entries[1..], depth), rest);
      EntriesIndent(style, frame, entries[1..], depth, rest);
    }
  }

  // Every line of a dump with an indent starts with exactly that many blanks for each bracket open around it.
  lemma DumpIsIndented(style: Style, v: Value)
    requires style.indent >= 0
    ensures Indented(style.indent, 0, AtLine(0), Dump(style, v))
  {
    var n := TreeOf(style, v, 0);
    var s := NodeText(n, ['\n']);
    DumpText(style, v);
    hide Indented, NodeText, TreeOf, Dump, NodeOk;
    TreeOk(style, v, 0);
    NodeStarts(n, ['\n']);
    StartsMiddle(s[0]);
    TreeIndents(style, v, 0, ['\n']);
    FirstLine(style.indent, s);
    LastLine(style.indent);
  }

  lemma DumpText(style: Style, v: Value)
    requires style.indent >= 0
    ensures Dump(style, v) == NodeText(TreeOf(style, v, 0), ['\n'])
  {
    hide NodeText, TreeOf;
    var g := [Space('\n')];
    assert g[1..] == [] && GapText(g[1..], "") == "";
    assert GapText(g, "") == PieceText(g[0], "") == ['\n'];
  }

  lemma FirstLine(indent: nat, s: string)
    requires s != "" && s[0] != ' ' && !Closes(s[0])
    ensures Indented(indent, 0, AtLine(0), s) == Indented(indent, 0, Middle, s)
  {
    hide Beyond;
    assert indent * 0 == 0;
  }

  lemma LastLine(indent: nat)
    ensures Indented(indent, 0, Middle, ['\n'])
  {
    assert ['\n'][1..] == "";
  }

  // ---- What stays on one line

  // The array is short and holds nothing but numbers and booleans, or the value is no container or an empty one.
  predicate OneLiner(v: Value) {
    match v
    case Array(items) => items == [] || (|items| <= 4 && forall i :: 0 <= i < |items| ==> items[i].Number? || items[i].Bool?)
    case Object(entries) => entries == []
    case _ => true
  }

  predicate Breaks(s: string) {
    '\n' in s
  }

  lemma PutFirst(a: string, rest: string)
    requires '\n' !in a
    ensures Breaks(a + rest) <==> Breaks(rest)
  {
    if Breaks(rest) {
      var i :| 0 <= i < |rest| && rest[i] == '\n';
      assert (a + rest)[|a| + i] == '\n';
    }
  }

  lemma {:induction false} EscapedStays(s: string, rest: string)
    ensures Breaks(CharsText(Escaped(s), rest)) <==> Breaks(rest)
    decreases s
  {
    if s == "" {
      PutFirst(['\"'], rest);
    } else {
      EscapedStays(s[1..], rest);
      EscapeStays(s[0], CharsText(Escaped(s[1..]), rest));
      hide Escape, ChrText;
      assert Escaped(s)[1..] == Escaped(s[1..]);
    }
  }

  lemma EscapeStays(c: char, rest: string)
    ensures Breaks(ChrText(Escape(c), rest)) <==> Breaks(rest)
  {
    match Escape(c) {
      case Plain(x) => PutFirst([x], rest);
      case Short(e) => PutFirst(['\\', e], rest);
      case Hex(a, b, x, d) => PutFirst(['\\', 'u', a, b, x, d], rest);
    }
  }

  lemma NumeralStays(t: Numeral, rest: string)
    requires NumeralOk(t)
    ensures Breaks(NumeralText(t, rest)) <==> Breaks(rest)
  {
    hide NumeralText, NumeralOk;
    NumeralIsDull(t, rest);
    PutFirst(NumeralText(t, ""), rest);
  }

  // No new line in the frame's gaps: the frame of a short array, or any frame of the compact form.
  predicate FrameStays(frame: Frame) {
    (frame.open == []) && (frame.between == [] || frame.between == [Space(' ')]) && frame.close == []
  }

  lemma BlankStays(g: Gap, rest: string)
    requires g == [] || g == [Space(' ')]
    ensures Breaks(GapText(g, rest)) <==> Breaks(rest)
  {
    if g != [] {
      assert g[1..] == [] && GapText(g, rest) == [' '] + rest;
      PutFirst([' '], rest);
    }
  }

  predicate Flat(style: Style, v: Value) {
    style.indent < 0 || v.Null? || v.Number? || v.Bool? || v.String?
  }

  lemma KeyStays(style: Style, name: string, rest: string)
    ensures Breaks(KeyText(KeyOf(style, name), rest)) <==> Breaks(rest)
  {
    hide CharsText, Escaped, GapText, Breaks;
    var key := KeyOf(style, name);
    var after := GapText(key.after, rest);
    BlankStays(key.after, rest);
    PutFirst([':'], after);
    BlankStays([], [':'] + after);
    EscapedStays(name, GapText([], [':'] + after));
    PutFirst(['\"'], CharsText(Escaped(name), GapText([], [':'] + after)));
  }

  lemma WordStays(truth: Option<bool>, rest: string)
    ensures Breaks(WordText(truth) + rest) <==> Breaks(rest)
  {
    WordIsDull(truth);
    PutFirst(WordText(truth), rest);
  }

  // A value printed in the compact form, or one that is no container, adds no new line.
  lemma {:induction false} FlatStays(style: Style, v: Value, depth: nat, rest: string)
    requires Flat(style, v)
    ensures Breaks(NodeText(TreeOf(style, v, depth), rest)) <==> Breaks(rest)
    decreases v
  {
    hide Breaks, NumeralOf, NumeralText, WordText, CharsText, ItemsBody, EntriesBody, NumeralOk, IsInline, BodyText, GapText;
    match v {
      case Null => WordStays(None, rest);
      case Bool(b) => WordStays(Some(b), rest);
      case Number(n) =>
        NumeralOfOk(style, n);
        NumeralStays(NumeralOf(style, n), rest);
      case String(s) =>
        EscapedStays(s, rest);
        PutFirst(['\"'], CharsText(Escaped(s), rest));
      case Array(items) =>
        if items == [] {
          EmptyStays(false, rest);
        } else {
          var frame := ArrayFrame(style, items, depth);
          ItemsStay(style, frame, items, depth + 1, rest);
          OpenStays(false, frame, ItemsBody(style, frame, items, depth + 1), rest);
        }
      case Object(entries) =>
        if entries == [] {
          EmptyStays(true, rest);
        } else {
          var frame := BlockFrame(style, depth);
          EntriesStay(style, frame, entries, depth + 1, rest);
          OpenStays(true, frame, EntriesBody(style, frame, entries, depth + 1), rest);
        }
    }
  }

  lemma EmptyStays(isObject: bool, rest: string)
    ensures Breaks(NodeText(Container(isObject, [], End), rest)) <==> Breaks(rest)
  {
    hide Breaks;
    PutFirst([CloseMark(isObject)], rest);
    PutFirst([OpenMark(isObject)], [CloseMark(isObject)] + rest);
    assert NodeText(Container(isObject, [], End), rest) == [OpenMark(isObject)] + ([CloseMark(isObject)] + rest);
  }

  lemma OpenStays(isObject: bool, frame: Frame, body: Body, rest: string)
    requires frame.open == []
    ensures Breaks(NodeText(Container(isObject, frame.open, body), rest)) <==> Breaks(BodyText(isObject, body, rest))
  {
    hide Breaks, BodyText;
    assert GapText([], BodyText(isObject, body, rest)) == BodyText(isObject, body, rest);
    PutFirst([OpenMark(isObject)], BodyText(isObject, body, rest));
  }

  lemma CloseStays(isObject: bool, rest: string)
    ensures Breaks(GapText([], TailText(isObject, Close, rest))) <==> Breaks(rest)
  {
    PutFirst([CloseMark(isObject)], rest);
    assert GapText([], [CloseMark(isObject)] + rest) == [CloseMark(isObject)] + rest;
  }

  lemma CommaStays(isObject: bool, gap: Gap, body: Body, rest: string)
    requires gap == [] || gap == [Space(' ')]
    ensures Breaks(GapText([], TailText(isObject, Comma(gap, body), rest))) <==> Breaks(BodyText(isObject, body, rest))
  {
    var after := GapText(gap, BodyText(isObject, body, rest));
    assert GapText([], TailText(isObject, Comma(gap, body), rest)) == [','] + after;
    hide Breaks, BodyText, GapText;
    BlankStays(gap, BodyText(isObject, body, rest));
    PutFirst([','], after);
  }

  lemma {:induction false} ItemsStay(style: Style, frame: Frame, items: seq<Value>, depth: nat, rest: string)
    requires FrameStays(frame) && items != [] && forall i :: 0 <= i < |items| ==> Flat(style, items[i])
    ensures Breaks(BodyText(false, ItemsBody(style, frame, items, depth), rest)) <==> Breaks(rest)
    decreases items
  {
    hide Breaks, NodeText, TreeOf, BodyText, ItemsBody, GapText, TailText;
    ItemsParts(style, frame, items, depth, rest);
    FlatStays(style, items[0], depth, ItemsRest(style, frame, items, depth, rest));
    if |items| == 1 {
      assert items[1..] == [];
      CloseStays(false, rest);
    } else {
      CommaStays(false, frame.between, ItemsBody(style, frame, items[1..], depth), rest);
      ItemsStay(style, frame, items[1..], depth, rest);
    }
  }

  lemma {:induction false} EntriesStay(style: Style, frame: Frame, entries: seq<Member>, depth: nat, rest: string)
    requires FrameStays(frame) && entries != [] && forall i :: 0 <= i < |entries| ==> Flat(style, entries[i].value)
    ensures Breaks(BodyText(true, EntriesBody(style, frame, entries, depth), rest)) <==> Breaks(rest)
    decreases entries
  {
    hide Breaks, NodeText, TreeOf, BodyText, EntriesBody, GapText, TailText, KeyText, KeyOf;
    var after := EntriesRest(style, frame, entries, depth, rest);
    EntriesParts(style, frame, entries, depth, rest);
    KeyStays(style, entries[0].name, NodeText(TreeOf(style, entries[0].value, depth), after));
    FlatStays(style, entries[0].value, depth, after);
    if |entries| == 1 {
      assert entries[1..] == [];
      CloseStays(true, rest);
    } else {
      CommaStays(true, frame.between, EntriesBody(style, frame, entries[1..], depth), rest);
      EntriesStay(style, frame, entries[1..], depth, rest);
    }
  }

  // The compact form is one line. In the indented form a value is on one line exactly when it is no container, an empty one,
  // or an array of at most four numbers and booleans.
  lemma OneLineExactly(style: Style, v: Value, depth: nat)
    ensures Breaks(NodeText(TreeOf(style, v, depth), "")) <==> style.indent >= 0 && !OneLiner(v)
  {
    hide NodeText, ItemsBody, EntriesBody, IsInline, Breaks;
    NothingBreaks();
    if Flat(style, v) {
      FlatStays(style, v, depth, "");
    } else {
      match v {
        case Array(items) =>
          if items == [] {
            EmptyStays(false, "");
          } else {
            var frame := ArrayFrame(style, items, depth);
            var body := ItemsBody(style, frame, items, depth + 1);
            InlineMeans(items);
            if IsInline(items) {
              ItemsStay(style, frame, items, depth + 1, "");
              OpenStays(false, frame, body, "");
            } else {
              BlockBreaks(style, false, depth, body);
            }
          }
        case Object(entries) =>
          if entries == [] {
            EmptyStays(true, "");
          } else {
            BlockBreaks(style, true, depth, EntriesBody(style, BlockFrame(style, depth), entries, depth + 1));
          }
      }
    }
  }

  lemma NothingBreaks()
    ensures !Breaks("")
  {
  }

  lemma InlineMeans(items: seq<Value>)
    ensures IsInline(items) <==> |items| <= 4 && forall i :: 0 <= i < |items| ==> items[i].Number? || items[i].Bool?
  {
  }

  lemma BlockBreaks(style: Style, isObject: bool, depth: nat, body: Body)
    requires style.indent >= 0
    ensures Breaks(NodeText(Container(isObject, BlockFrame(style, depth).open, body), ""))
  {
    hide BodyText;
    var inner := BodyText(isObject, body, "");
    NewLineText(style, depth + 1, inner);
    var later := GapText(Spaces(Margin(style.indent, depth + 1)), inner);
    var s := NodeText(Container(isObject, BlockFrame(style, depth).open, body), "");
    assert s == [OpenMark(isObject)] + (['\n'] + later);
    assert s[1] == '\n';
  }

  // ---- How containers are written

  // What stands before an element, or a closing bracket, of a container that is not kept on one line.
  function LineStart(style: Style, depth: nat): string {
    if style.indent < 0 then "" else "\n" + seq(style.indent * depth, _ => ' ')
  }

  function Listed(texts: seq<string>, between: string): string {
    if texts == [] then ""
    else if |texts| == 1 then texts[0]
    else texts[0] + (between + Listed(texts[1..], between))
  }

  function ItemTexts(style: Style, items: seq<Value>, depth: nat): seq<string> {
    if items == [] then [] else [NodeText(TreeOf(style, items[0], depth), "")] + ItemTexts(style, items[1..], depth)
  }

  // The name as a string, a colon, a blank unless the form is compact, and the value.
  function EntryText(style: Style, entry: Member, depth: nat): string {
    NodeText(Str(Escaped(entry.name)), "")
      + ((if style.indent < 0 then ":" else ": ") + NodeText(TreeOf(style, entry.value, depth), ""))
  }

  function EntryTexts(style: Style, entries: seq<Member>, depth: nat): seq<string> {
    if entries == [] then [] else [EntryText(style, entries[0], depth)] + EntryTexts(style, entries[1..], depth)
  }

  lemma {:induction false} SpacesWritten(n: nat, rest: string)
    ensures GapText(Spaces(n), rest) == seq(n, _ => ' ') + rest
  {
    if n == 0 {
      assert seq(0, _ => ' ') + rest == rest;
    } else {
      SpacesWritten(n - 1, rest);
      assert Spaces(n)[1..] == Spaces(n - 1);
      assert [' '] + (seq(n - 1, _ => ' ') + rest) == seq(n, _ => ' ') + rest;
    }
  }

  lemma NewLineWritten(style: Style, depth: nat, rest: string)
    ensures GapText(NewLine(style, depth), rest) == LineStart(style, depth) + rest
  {
    hide Spaces;
    if style.indent >= 0 {
      NewLineText(style, depth, rest);
      hide GapText;
      SpacesWritten(style.indent * depth, rest);
      assert ['\n'] + (seq(style.indent * depth, _ => ' ') + rest) == LineStart(style, depth) + rest;
    } else {
      assert "" + rest == rest;
    }
  }

  lemma BlankWritten(rest: string)
    ensures GapText([Space(' ')], rest) == " " + rest && GapText([], rest) == rest
  {
    assert [Space(' ')][1..] == [];
  }

  lemma Lone(n: Node, rest: string)
    ensures NodeText(n, rest) == NodeText(n, "") + rest
  {
    hide NodeText;
    NodeAppends(n, "", rest);
    assert "" + rest == rest;
  }

  lemma ThreeInARow(a: string, b: string, c: string, d: string)
    ensures a + (b + (c + d)) == (a + (b + c)) + d
  {
    Regroup(b, c, d);
    Regroup(a, b + c, d);
  }

  // The gap's text does not depend on what follows.
  lemma GapIs(g: Gap, rest: string)
    ensures GapText(g, rest) == GapText(g, "") + rest
  {
    hide GapText;
    GapAppends(g, "", rest);
    assert "" + rest == rest;
  }

  lemma {:induction false} ItemsWritten(style: Style, frame: Frame, items: seq<Value>, depth: nat)
    requires items != []
    ensures BodyText(false, ItemsBody(style, frame, items, depth), "")
         == Listed(ItemTexts(style, items, depth), "," + GapText(frame.between, "")) + (GapText(frame.close, "") + "]")
    decreases items
  {
    hide NodeText, TreeOf, BodyText, ItemsBody, GapText, TailText, Listed, ItemTexts;
    var end := GapText(frame.close, "") + "]";
    var between := "," + GapText(frame.between, "");
    ItemsParts(style, frame, items, depth, "");
    Lone(TreeOf(style, items[0], depth), ItemsRest(style, frame, items, depth, ""));
    if |items| == 1 {
      LastWritten(false, frame.close);
      OneItem(style, items, depth, between);
    } else {
      ItemsWritten(style, frame, items[1..], depth);
      NextWritten(false, frame.between, ItemsBody(style, frame, items[1..], depth));
      MoreItems(style, items, depth, between);
      ThreeInARow(NodeText(TreeOf(style, items[0], depth), ""), between,
                  Listed(ItemTexts(style, items[1..], depth), between), end);
    }
  }

  lemma OneItem(style: Style, items: seq<Value>, depth: nat, between: string)
    requires |items| == 1
    ensures items[1..] == []
    ensures Listed(ItemTexts(style, items, depth), between) == NodeText(TreeOf(style, items[0], depth), "")
  {
    hide NodeText, TreeOf;
  }

  lemma MoreItems(style: Style, items: seq<Value>, depth: nat, between: string)
    requires |items| > 1
    ensures Listed(ItemTexts(style, items, depth), between)
         == NodeText(TreeOf(style, items[0], depth), "") + (between + Listed(ItemTexts(style, items[1..], depth), between))
  {
    hide NodeText, TreeOf;
    var t, later := NodeText(TreeOf(style, items[0], depth), ""), ItemTexts(style, items[1..], depth);
    assert later != [] && ([t] + later)[1..] == later;
  }

  lemma LastWritten(isObject: bool, close: Gap)
    ensures GapText(close, TailText(isObject, Close, "")) == GapText(close, "") + if isObject then "}" else "]"
  {
    hide GapText;
    GapIs(close, [CloseMark(isObject)]);
    assert [CloseMark(isObject)] + "" == [CloseMark(isObject)];
  }

  lemma NextWritten(isObject: bool, between: Gap, body: Body)
    ensures GapText([], TailText(isObject, Comma(between, body), ""))
         == ("," + GapText(between, "")) + BodyText(isObject, body, "")
  {
    BlankWritten([','] + GapText(between, BodyText(isObject, body, "")));
    hide GapText, BodyText;
    GapIs(between, BodyText(isObject, body, ""));
    Regroup(",", GapText(between, ""), BodyText(isObject, body, ""));
  }

  lemma {:induction false} EntriesWritten(style: Style, frame: Frame, entries: seq<Member>, depth: nat)
    requires entries != []
    ensures BodyText(true, EntriesBody(style, frame, entries, depth), "")
         == Listed(EntryTexts(style, entries, depth), "," + GapText(frame.between, "")) + (GapText(frame.close, "") + "}")
    decreases entries
  {
    hide NodeText, TreeOf, BodyText, EntriesBody, GapText, TailText, Listed, EntryTexts, EntryText, KeyText, KeyOf;
    var end := GapText(frame.close, "") + "}";
    var between := "," + GapText(frame.between, "");
    var after := EntriesRest(style, frame, entries, depth, "");
    EntriesParts(style, frame, entries, depth, "");
    EntryWritten(style, entries[0], depth, after);
    if |entries| == 1 {
      LastWritten(true, frame.close);
      OneEntry(style, entries, depth, between);
    } else {
      EntriesWritten(style, frame, entries[1..], depth);
      NextWritten(true, frame.between, EntriesBody(style, frame, entries[1..], depth));
      MoreEntries(style, entries, depth, between);
      ThreeInARow(EntryText(style, entries[0], depth), between,
                  Listed(EntryTexts(style, entries[1..], depth), between), end);
    }
  }

  lemma OneEntry(style: Style, entries: seq<Member>, depth: nat, between: string)
    requires |entries| == 1
    ensures entries[1..] == [] && Listed(EntryTexts(style, entries, depth), between) == EntryText(style, entries[0], depth)
  {
    hide EntryText;
  }

  lemma MoreEntries(style: Style, entries: seq<Member>, depth: nat, between: string)
    requires |entries| > 1
    ensures Listed(EntryTexts(style, entries, depth), between)
         == EntryText(style, entries[0], depth) + (between + Listed(EntryTexts(style, entries[1..], depth), between))
  {
    hide EntryText;
    var t, later := EntryText(style, entries[0], depth), EntryTexts(style, entries[1..], depth);
    assert later != [] && ([t] + later)[1..] == later;
  }

  lemma EntryWritten(style: Style, entry: Member, depth: nat, rest: string)
    ensures KeyText(KeyOf(style, entry.name), NodeText(TreeOf(style, entry.value, depth), rest))
         == EntryText(style, entry, depth) + rest
  {
    hide TreeOf, Escaped, CharsText, GapText;
    var value := TreeOf(style, entry.value, depth);
    var key := KeyOf(style, entry.name);
    var colon := if style.indent < 0 then ":" else ": ";
    BlankWritten(NodeText(value, rest));
    BlankWritten([':'] + GapText(key.after, NodeText(value, rest)));
    assert [':'] + GapText(key.after, NodeText(value, rest)) == colon + NodeText(value, rest);
    hide NodeText;
    Lone(value, rest);
    NameWritten(entry.name, colon + NodeText(value, rest));
    ThreeInARow(NodeText(Str(Escaped(entry.name)), ""), colon, NodeText(value, ""), rest);
  }

  lemma NameWritten(name: string, rest: string)
    ensures ['\"'] + CharsText(Escaped(name), rest) == NodeText(Str(Escaped(name)), "") + rest
  {
    hide Escaped, CharsText;
    Lone(Str(Escaped(name)), rest);
  }

  // An array: its elements one level deeper, each on a line of its own with a comma between, or all on one line with a comma
  // and a blank between.
  lemma ArrayWritten(style: Style, items: seq<Value>, depth: nat)
    requires items != []
    ensures var short := |items| <= 4 && forall i :: 0 <= i < |items| ==> items[i].Number? || items[i].Bool?;
      var open, between, close := LineStart(style, depth + 1), "," + LineStart(style, depth + 1), LineStart(style, depth);
      NodeText(TreeOf(style, Array(items), depth), "") ==
        if short then "[" + (Listed(ItemTexts(style, items, depth + 1), ", ") + "]")
        else "[" + (open + (Listed(ItemTexts(style, items, depth + 1), between) + (close + "]")))
  {
    var frame := ArrayFrame(style, items, depth);
    InlineMeans(items);
    BlockGaps(style, depth);
    BlankWritten("");
    hide IsInline, ItemTexts, Listed, GapText, ItemsBody, BodyText, NewLine, LineStart;
    ItemsWritten(style, frame, items, depth + 1);
    GapIs(frame.open, BodyText(false, ItemsBody(style, frame, items, depth + 1), ""));
    if IsInline(items) {
      BlankWritten(BodyText(false, ItemsBody(style, frame, items, depth + 1), ""));
      assert "" + "]" == "]" && " " + "" == " " && "," + " " == ", ";
    }
  }

  lemma BlockGaps(style: Style, depth: nat)
    ensures var frame := BlockFrame(style, depth);
      && GapText(frame.open, "") == LineStart(style, depth + 1) && GapText(frame.between, "") == LineStart(style, depth + 1)
      && GapText(frame.close, "") == LineStart(style, depth)
  {
    hide GapText, NewLine, LineStart;
    NewLineWritten(style, depth, "");
    NewLineWritten(style, depth + 1, "");
    assert LineStart(style, depth + 1) + "" == LineStart(style, depth + 1);
    assert LineStart(style, depth) + "" == LineStart(style, depth);
  }

  // An object: its members one level deeper, each on a line of its own with a comma between.
  lemma ObjectWritten(style: Style, entries: seq<Member>, depth: nat)
    requires entries != []
    ensures var open, close := LineStart(style, depth + 1), LineStart(style, depth);
      var between := "," + open;
      NodeText(TreeOf(style, Object(entries), depth), "")
        == "{" + (open + (Listed(EntryTexts(style, entries, depth + 1), between) + (close + "}")))
  {
    var frame := BlockFrame(style, depth);
    BlockGaps(style, depth);
    hide EntryTexts, Listed, GapText, EntriesBody, BodyText, NewLine, LineStart;
    EntriesWritten(style, frame, entries, depth + 1);
    GapIs(frame.open, BodyText(true, EntriesBody(style, frame, entries, depth + 1), ""));
  }

  // A dump is the text of the value at depth 0, with a new line at the end unless the form is compact.
  lemma DumpWritten(style: Style, v: Value)
    ensures Dump(style, v) == NodeText(TreeOf(style, v, 0), "") + if style.indent < 0 then "" else "\n"
  {
    hide TreeOf;
    if style.indent >= 0 {
      DumpText(style, v);
    } else {
      BlankWritten("");
    }
    hide NodeText;
    Lone(TreeOf(style, v, 0), if style.indent < 0 then "" else "\n");
    BlankWritten(NodeText(TreeOf(style, v, 0), ""));
  }

  // ---- How numbers and characters are written

  // A whole number below 10^15 in magnitude is its sign and its decimal digits without leading zeros; any other number is
  // left to "%.10g".
  lemma NumbersWritten(style: Style, n: int)
    ensures NodeText(TreeOf(style, Number(n as real), 0), "") ==
      if -1_000_000_000_000_000 < n < 1_000_000_000_000_000
      then (if n < 0 then "-" + Decimal(-n) else Decimal(n))
      else NumeralText(style.general(n as real), "")
    ensures forall d: nat ::
      M.Digits(Decimal(d)) && M.Spelled(Decimal(d)) == d && (Decimal(d)[0] == '0' ==> Decimal(d) == "0")
  {
    assert (n as real).Floor == n;
    assert NumeralText(JsonPrinter.Whole(n), "") == if n < 0 then "-" + Decimal(-n) else Decimal(n);
    forall d: nat
      ensures M.Digits(Decimal(d)) && M.Spelled(Decimal(d)) == d && (Decimal(d)[0] == '0' ==> Decimal(d) == "0")
    {
      hide DigitsValue, M.Spelled;
      DecimalReadsBack(d);
      M.DigitsSpell(Decimal(d));
      NoLeadingZero(d);
    }
  }

  lemma {:induction false} NoLeadingZero(d: nat)
    ensures Decimal(d)[0] == '0' <==> d == 0
    decreases d
  {
    if d >= 10 {
      NoLeadingZero(d / 10);
      assert Decimal(d)[0] == Decimal(d / 10)[0];
    } else if d == 0 {
      assert Decimal(0) == "0";
    }
  }

  // A quote, a backslash and the five named control characters are written by name, other characters below 32 as \u with
  // four lower-case digits, and everything else as itself.
  lemma CharactersWritten(c: char)
    ensures var text := ChrText(Escape(c), "");
      if c as int in {0x08, 0x09, 0x0A, 0x0C, 0x0D, 0x22, 0x5C}
      then |text| == 2 && text[0] == '\\' && text[1] != '/' && M.EscapeNames(text[1], c as int)
      else if c as int < 0x20
      then text == "\\u00" + ["0123456789abcdef"[c as int / 16], "0123456789abcdef"[c as int % 16]]
      else text == [c]
  {
    HexMarks(c as int / 16 % 16);
    HexMarks(c as int % 16);
  }

  lemma HexMarks(n: nat)
    requires n < 16
    ensures HexMark(n) == "0123456789abcdef"[n]
  {
  }
}
