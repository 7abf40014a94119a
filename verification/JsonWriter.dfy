// dump() of src/json.cpp as it is written: a buffer that every step appends to. The text it builds is that of the
// layout tree in JsonPrinter.

module JsonWriter {
  import opened Wrappers
  import opened JsonSyntax
  import P = JsonPrinter

  // ---- What is still to be written of a container once `i` of its elements are

  ghost function ItemsLeft(style: P.Style, frame: P.Frame, items: seq<Value>, i: nat, depth: nat): string
    requires i <= |items| && items != []
  {
    if i == 0 then GapText(frame.open, BodyText(false, P.ItemsBody(style, frame, items, depth), ""))
    else GapText(if i == |items| then frame.close else [], TailText(false, P.ItemsTail(style, frame, items[i..], depth), ""))
  }

  ghost function EntriesLeft(style: P.Style, frame: P.Frame, entries: seq<Member>, i: nat, depth: nat): string
    requires i <= |entries| && entries != []
  {
    if i == 0 then GapText(frame.open, BodyText(true, P.EntriesBody(style, frame, entries, depth), ""))
    else GapText(if i == |entries| then frame.close else [],
                 TailText(true, P.EntriesTail(style, frame, entries[i..], depth), ""))
  }

  // What is written before element `i`.
  function Separator(frame: P.Frame, i: nat): string {
    if i == 0 then GapText(frame.open, "") else [','] + GapText(frame.between, "")
  }

  lemma SeparatorText(frame: P.Frame, i: nat, rest: string)
    ensures Separator(frame, i) + rest == if i == 0 then GapText(frame.open, rest) else [','] + GapText(frame.between, rest)
  {
    hide GapText;
    assert "" + rest == rest;
    if i == 0 {
      GapAppends(frame.open, "", rest);
    } else {
      GapAppends(frame.between, "", rest);
      Regroup([','], GapText(frame.between, ""), rest);
    }
  }

  lemma ItemStep(style: P.Style, frame: P.Frame, items: seq<Value>, i: nat, depth: nat)
    requires i < |items|
    ensures ItemsLeft(style, frame, items, i, depth)
         == Separator(frame, i)
              + (NodeText(P.TreeOf(style, items[i], depth), "") + ItemsLeft(style, frame, items, i + 1, depth))
  {
    hide GapText, Separator, NodeText, P.TreeOf;
    var later := ItemsLeft(style, frame, items, i + 1, depth);
    var node := P.TreeOf(style, items[i], depth);
    assert "" + later == later;
    NodeAppends(node, "", later);
    SeparatorText(frame, i, NodeText(node, later));
    assert items[i..][0] == items[i] && items[i..][1..] == items[i + 1..];
    ItemBody(style, frame, items, i, depth);
    EmptyGap(TailText(false, P.ItemsTail(style, frame, items[i..], depth), ""));
    assert items[0..] == items;
  }

  lemma EmptyGap(rest: string)
    ensures GapText([], rest) == rest
  {
  }

  lemma ItemBody(style: P.Style, frame: P.Frame, items: seq<Value>, i: nat, depth: nat)
    requires i < |items|
    ensures BodyText(false, P.ItemsBody(style, frame, items[i..], depth), "")
         == NodeText(P.TreeOf(style, items[i], depth), ItemsLeft(style, frame, items, i + 1, depth))
  {
    hide GapText, NodeText, P.TreeOf, P.ItemsTail, TailText;
    assert items[i..][0] == items[i] && items[i..][1..] == items[i + 1..];
  }

  lemma ItemsEnd(style: P.Style, frame: P.Frame, items: seq<Value>, depth: nat)
    requires items != []
    ensures ItemsLeft(style, frame, items, |items|, depth) == GapText(frame.close, "") + [']']
  {
    hide GapText;
    assert items[|items|..] == [];
    assert [']'] + "" == [']'] && "" + [']'] == [']'];
    GapAppends(frame.close, "", [']']);
  }

  lemma EntryStep(style: P.Style, frame: P.Frame, entries: seq<Member>, i: nat, depth: nat)
    requires i < |entries|
    ensures EntriesLeft(style, frame, entries, i, depth)
         == Separator(frame, i) + (KeyText(P.KeyOf(style, entries[i].name), "")
              + (NodeText(P.TreeOf(style, entries[i].value, depth), "") + EntriesLeft(style, frame, entries, i + 1, depth)))
  {
    hide GapText, Separator, NodeText, KeyText, P.KeyOf, P.TreeOf;
    var later := EntriesLeft(style, frame, entries, i + 1, depth);
    var node := P.TreeOf(style, entries[i].value, depth);
    var key := P.KeyOf(style, entries[i].name);
    assert "" + later == later;
    NodeAppends(node, "", later);
    assert "" + NodeText(node, later) == NodeText(node, later);
    KeyAppends(key, "", NodeText(node, later));
    SeparatorText(frame, i, KeyText(key, NodeText(node, later)));
    assert entries[i..][0] == entries[i] && entries[i..][1..] == entries[i + 1..];
    EntryBody(style, frame, entries, i, depth);
    EmptyGap(TailText(true, P.EntriesTail(style, frame, entries[i..], depth), ""));
    assert entries[0..] == entries;
  }

  lemma EntryBody(style: P.Style, frame: P.Frame, entries: seq<Member>, i: nat, depth: nat)
    requires i < |entries|
    ensures BodyText(true, P.EntriesBody(style, frame, entries[i..], depth), "")
         == KeyText(P.KeyOf(style, entries[i].name),
                    NodeText(P.TreeOf(style, entries[i].value, depth), EntriesLeft(style, frame, entries, i + 1, depth)))
  {
    hide GapText, NodeText, KeyText, P.KeyOf, P.TreeOf, P.EntriesTail, TailText;
    assert entries[i..][0] == entries[i] && entries[i..][1..] == entries[i + 1..];
  }

  lemma EntriesEnd(style: P.Style, frame: P.Frame, entries: seq<Member>, depth: nat)
    requires entries != []
    ensures EntriesLeft(style, frame, entries, |entries|, depth) == GapText(frame.close, "") + ['}']
  {
    hide GapText;
    assert entries[|entries|..] == [];
    assert ['}'] + "" == ['}'] && "" + ['}'] == ['}'];
    GapAppends(frame.close, "", ['}']);
  }

  function Blanks(n: nat): string {
    if n == 0 then "" else [' '] + Blanks(n - 1)
  }

  lemma {:induction false} SpacesAreBlanks(n: nat)
    ensures GapText(P.Spaces(n), "") == Blanks(n)
  {
    if n > 0 {
      SpacesAreBlanks(n - 1);
      assert ([Space(' ')] + P.Spaces(n - 1))[1..] == P.Spaces(n - 1);
    }
  }

  lemma NewLineText(style: P.Style, depth: nat)
    ensures GapText(P.NewLine(style, depth), "")
         == if style.indent < 0 then "" else ['\n'] + Blanks(P.Margin(style.indent, depth))
  {
    hide P.Margin;
    if style.indent >= 0 {
      var n := P.Margin(style.indent, depth);
      SpacesAreBlanks(n);
      assert ([Space('\n')] + P.Spaces(n))[1..] == P.Spaces(n);
    }
  }

  lemma ThreeParts(a: string, b: string, c: string, d: string)
    ensures a + (b + (c + d)) == ((a + b) + c) + d
  {
  }

  lemma EmptyContainer(isObject: bool)
    ensures NodeText(Container(isObject, [], End), "") == [OpenMark(isObject), CloseMark(isObject)]
  {
    assert [CloseMark(isObject)] + "" == [CloseMark(isObject)];
  }

  lemma ArrayText(style: P.Style, items: seq<Value>, depth: nat)
    requires items != []
    ensures NodeText(P.TreeOf(style, Array(items), depth), "")
         == ['['] + ItemsLeft(style, P.ArrayFrame(style, items, depth), items, 0, depth + 1)
  {
    hide GapText, BodyText, P.ItemsBody, P.ArrayFrame;
  }

  lemma ObjectText(style: P.Style, entries: seq<Member>, depth: nat)
    requires entries != []
    ensures NodeText(P.TreeOf(style, Object(entries), depth), "")
         == ['{'] + EntriesLeft(style, P.BlockFrame(style, depth), entries, 0, depth + 1)
  {
    hide GapText, BodyText, P.EntriesBody, P.BlockFrame;
  }

  lemma SpaceText()
    ensures GapText([Space(' ')], "") == [' ']
  {
    assert [Space(' ')][1..] == [];
  }

  lemma SeparatorsAre(style: P.Style, frame: P.Frame, inlineArray: bool, depth: nat, items: seq<Value>)
    requires inlineArray == P.IsInline(items) && frame == P.ArrayFrame(style, items, depth)
    ensures GapText(frame.close, "") == if inlineArray then "" else GapText(P.NewLine(style, depth), "")
    ensures forall i: nat :: Separator(frame, i) == if inlineArray then (if i == 0 then "" else [',', ' '])
              else (if i == 0 then "" else [',']) + GapText(P.NewLine(style, depth + 1), "")
  {
    hide P.IsInline, P.NewLine, GapText;
    EmptyGap("");
    SpaceText();
    assert [','] + [' '] == [',', ' '];
    assert "" + GapText(P.NewLine(style, depth + 1), "") == GapText(P.NewLine(style, depth + 1), "");
  }

  lemma BlockSeparatorsAre(style: P.Style, depth: nat)
    ensures var frame := P.BlockFrame(style, depth);
      && GapText(frame.close, "") == GapText(P.NewLine(style, depth), "")
      && forall i: nat :: Separator(frame, i) == (if i == 0 then "" else [',']) + GapText(P.NewLine(style, depth + 1), "")
  {
    hide P.NewLine, GapText;
    assert "" + GapText(P.NewLine(style, depth + 1), "") == GapText(P.NewLine(style, depth + 1), "");
  }

  lemma KeyIs(style: P.Style, name: string)
    ensures KeyText(P.KeyOf(style, name), "")
         == NodeText(Str(P.Escaped(name)), "") + (if style.indent < 0 then [':'] else [':', ' '])
  {
    hide CharsText, P.Escaped, GapText;
    var colon := if style.indent < 0 then [':'] else [':', ' '];
    EmptyGap("");
    SpaceText();
    EmptyGap(colon);
    assert [':'] + [' '] == [':', ' '] && [':'] + "" == [':'];
    assert "" + colon == colon;
    CharsAppend(P.Escaped(name), "", colon);
    Regroup(['\"'], CharsText(P.Escaped(name), ""), colon);
  }

  lemma DumpText(value: Value, style: P.Style)
    ensures P.Dump(style, value)
         == NodeText(P.TreeOf(style, value, 0), "") + (if style.indent < 0 then "" else ['\n'])
  {
    hide P.TreeOf, NodeText;
    var end := if style.indent < 0 then "" else ['\n'];
    NodeAppends(P.TreeOf(style, value, 0), "", end);
    assert "" + end == end;
    assert ['\n'] + "" == ['\n'];
    assert [Space('\n')][1..] == [];
    assert NodeText(P.TreeOf(style, value, 0), "") + "" == NodeText(P.TreeOf(style, value, 0), "");
  }

  // ---- The writer

  class Writer {
    const style: P.Style
    var out: string

    constructor (style: P.Style)
      ensures this.style == style && out == ""
    {
      this.style, out := style, "";
    }

    method NewLine(depth: nat)
      modifies this
      ensures out == old(out) + GapText(P.NewLine(style, depth), "")
    {
      hide P.NewLine, GapText, P.Margin, Blanks;
      NewLineText(style, depth);
      if style.indent < 0 {
        return;
      }
      out := out + ['\n'];
      out := out + Blanks(P.Margin(style.indent, depth));
    }

    method DumpCharacter(c: char)
      modifies this
      ensures out == old(out) + ChrText(P.Escape(c), "")
    {
      if c == '\"' {
        out := out + ['\\', '\"'];
      } else if c == '\\' {
        out := out + ['\\', '\\'];
      } else if c == 8 as char {
        out := out + ['\\', 'b'];
      } else if c == 12 as char {
        out := out + ['\\', 'f'];
      } else if c == '\n' {
        out := out + ['\\', 'n'];
      } else if c == '\r' {
        out := out + ['\\', 'r'];
      } else if c == '\t' {
        out := out + ['\\', 't'];
      } else if c as int < 0x20 {
        out := out + ['\\', 'u', '0', '0', P.HexMark(c as int / 16), P.HexMark(c as int % 16)];
      } else {
        out := out + [c];
      }
    }

    method DumpString(s: string)
      modifies this
      ensures out == old(out) + NodeText(Str(P.Escaped(s)), "")
    {
      hide P.Escape, ChrText;
      out := out + ['\"'];
      ghost var start := out;
      for i := 0 to |s|
        invariant out + CharsText(P.Escaped(s[i..]), "") == start + CharsText(P.Escaped(s), "")
      {
        ghost var later := CharsText(P.Escaped(s[i + 1..]), "");
        assert s[i..][0] == s[i] && s[i..][1..] == s[i + 1..];
        assert P.Escaped(s[i..]) == [P.Escape(s[i])] + P.Escaped(s[i + 1..]);
        assert P.Escaped(s[i..])[1..] == P.Escaped(s[i + 1..]);
        ChrAppends(P.Escape(s[i]), "", later);
        assert "" + later == later;
        Regroup(out, ChrText(P.Escape(s[i]), ""), later);
        DumpCharacter(s[i]);
      }
      assert s[|s|..] == "";
      assert ['\"'] + "" == ['\"'];
      out := out + ['\"'];
    }

    method DumpValue(value: Value, depth: nat)
      modifies this
      ensures out == old(out) + NodeText(P.TreeOf(style, value, depth), "")
      decreases value, 1
    {
      hide P.NumeralOf, P.IsInline, P.ItemsBody, P.EntriesBody, P.Escaped, P.NewLine;
      hide NumeralText, CharsText, BodyText, GapText;
      match value {
        case Null =>
          out := out + "null";
        case Bool(b) =>
          out := out + (if b then "true" else "false");
        case Number(n) =>
          out := out + NumeralText(P.NumeralOf(style, n), "");
        case String(s) =>
          DumpString(s);
        case Array(items) =>
          if items == [] {
            EmptyContainer(false);
            out := out + "[]";
          } else {
            DumpItems(items, depth);
          }
        case Object(entries) =>
          if entries == [] {
            EmptyContainer(true);
            out := out + "{}";
          } else {
            DumpEntries(entries, depth);
          }
      }
    }

    method StaysInline(items: seq<Value>) returns (inlineArray: bool)
      ensures inlineArray == P.IsInline(items)
    {
      inlineArray := |items| <= 4;
      for i := 0 to |items|
        invariant inlineArray == (|items| <= 4 && forall j :: 0 <= j < i ==> items[j].Number? || items[j].Bool?)
      {
        if !items[i].Number? && !items[i].Bool? {
          inlineArray := false;
        }
      }
    }

    method DumpItems(items: seq<Value>, depth: nat)
      requires items != []
      modifies this
      ensures out == old(out) + NodeText(P.TreeOf(style, Array(items), depth), "")
      decreases items, 0
    {
      hide P.IsInline, P.TreeOf, P.ArrayFrame, NodeText, GapText, ItemsLeft, P.NewLine, Separator;
      var inlineArray := StaysInline(items);
      ghost var frame := P.ArrayFrame(style, items, depth);
      ghost var text := NodeText(P.TreeOf(style, Array(items), depth), "");
      ArrayText(style, items, depth);
      SeparatorsAre(style, frame, inlineArray, depth, items);
      out := out + ['['];
      Regroup(old(out), ['['], ItemsLeft(style, frame, items, 0, depth + 1));
      for i := 0 to |items|
        invariant out + ItemsLeft(style, frame, items, i, depth + 1) == old(out) + text
      {
        ghost var was := out;
        ItemStep(style, frame, items, i, depth + 1);
        if i > 0 {
          out := out + (if inlineArray then [',', ' '] else [',']);
        }
        if !inlineArray {
          NewLine(depth + 1);
        }
        assert out == was + Separator(frame, i);
        ghost var node := NodeText(P.TreeOf(style, items[i], depth + 1), "");
        DumpValue(items[i], depth + 1);
        ThreeParts(was, Separator(frame, i), node, ItemsLeft(style, frame, items, i + 1, depth + 1));
      }
      ItemsEnd(style, frame, items, depth + 1);
      Regroup(out, GapText(frame.close, ""), [']']);
      if !inlineArray {
        NewLine(depth);
      }
      out := out + [']'];
    }

    method DumpEntries(entries: seq<Member>, depth: nat)
      requires entries != []
      modifies this
      ensures out == old(out) + NodeText(P.TreeOf(style, Object(entries), depth), "")
      decreases entries, 0
    {
      hide P.TreeOf, P.BlockFrame, NodeText, GapText, EntriesLeft, P.NewLine, Separator, KeyText, P.KeyOf, P.Escaped;
      ghost var frame := P.BlockFrame(style, depth);
      ghost var text := NodeText(P.TreeOf(style, Object(entries), depth), "");
      ObjectText(style, entries, depth);
      BlockSeparatorsAre(style, depth);
      out := out + ['{'];
      Regroup(old(out), ['{'], EntriesLeft(style, frame, entries, 0, depth + 1));
      for i := 0 to |entries|
        invariant out + EntriesLeft(style, frame, entries, i, depth + 1) == old(out) + text
      {
        ghost var was := out;
        EntryStep(style, frame, entries, i, depth + 1);
        if i > 0 {
          out := out + [','];
        }
        NewLine(depth + 1);
        assert out == was + Separator(frame, i);
        ghost var before := out;
        DumpString(entries[i].name);
        out := out + (if style.indent < 0 then [':'] else [':', ' ']);
        KeyIs(style, entries[i].name);
        assert out == before + KeyText(P.KeyOf(style, entries[i].name), "");
        ghost var node := NodeText(P.TreeOf(style, entries[i].value, depth + 1), "");
        ghost var later := EntriesLeft(style, frame, entries, i + 1, depth + 1);
        DumpValue(entries[i].value, depth + 1);
        Regroup(was, Separator(frame, i), KeyText(P.KeyOf(style, entries[i].name), "") + (node + later));
        ThreeParts(before, KeyText(P.KeyOf(style, entries[i].name), ""), node, later);
      }
      EntriesEnd(style, frame, entries, depth + 1);
      Regroup(out, GapText(frame.close, ""), ['}']);
      NewLine(depth);
      out := out + ['}'];
    }
  }

  method Dump(value: Value, style: P.Style) returns (text: string)
    ensures text == P.Dump(style, value)
  {
    hide P.TreeOf, NodeText, GapText;
    var writer := new Writer(style);
    writer.DumpValue(value, 0);
    text := writer.out;
    if style.indent >= 0 {
      text := text + ['\n'];
    }
    DumpText(value, style);
  }
}
