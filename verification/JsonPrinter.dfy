// The printer of src/json.cpp: the layout it chooses for a value, as a tree of the grammar it is read back with.

module JsonPrinter {
  import opened Wrappers
  import opened JsonSyntax
  import opened JsonReader

  type Printable = t: Numeral | NumeralOk(t) witness Numeral("", ['0'], None, None)

  // `general` stands for "%.10g", which prints the numbers that are not small whole ones.
  datatype Style = Style(indent: int, general: real -> Printable)

  // ---- Numbers

  const LIMIT := 1_000_000_000_000_000

  predicate IsSmallWhole(n: real) {
    n.Floor as real == n && -LIMIT < n.Floor < LIMIT
  }

  function Decimal(n: nat): (s: string)
    ensures s != "" && AllDigits(s)
  {
    if n < 10 then [(n + '0' as int) as char] else Decimal(n / 10) + [(n % 10 + '0' as int) as char]
  }

  function Whole(n: int): Numeral {
    if n < 0 then Numeral(['-'], Decimal(-n), None, None) else Numeral("", Decimal(n), None, None)
  }

  function NumeralOf(style: Style, n: real): Numeral {
    if IsSmallWhole(n) then Whole(n.Floor) else style.general(n)
  }

  lemma {:induction false} DecimalReadsBack(n: nat)
    ensures DigitsValue(Decimal(n)) == n
  {
    var s := Decimal(n);
    if n >= 10 {
      DecimalReadsBack(n / 10);
      assert s[..|s| - 1] == Decimal(n / 10);
    } else {
      assert s[..|s| - 1] == "";
    }
  }

  lemma WholeReadsBack(n: int)
    ensures NumeralOk(Whole(n)) && NumeralValue(Whole(n)) == n as real
  {
    var digits := if n < 0 then Decimal(-n) else Decimal(n);
    DecimalReadsBack(if n < 0 then -n else n);
    assert digits + "" == digits;
    assert Pow10(0) == 1.0;
  }

  // ---- Strings

  function HexMark(n: nat): char
    requires n < 16
  {
    if n < 10 then (n + '0' as int) as char else (n - 10 + 'a' as int) as char
  }

  function Escape(c: char): Chr {
    if c == '\"' || c == '\\' then Short(c)
    else if c == 8 as char then Short('b')
    else if c == 12 as char then Short('f')
    else if c == '\n' then Short('n')
    else if c == '\r' then Short('r')
    else if c == '\t' then Short('t')
    else if c < ' ' then Hex('0', '0', HexMark(c as int / 16), HexMark(c as int % 16))
    else Plain(c)
  }

  function Escaped(s: string): (cs: seq<Chr>)
    ensures |cs| == |s|
  {
    if s == "" then [] else [Escape(s[0])] + Escaped(s[1..])
  }

  lemma EscapeReadsBack(c: char)
    ensures ChrOk(Escape(c)) && ChrValue(Escape(c)) == [c]
  {
  }

  lemma {:induction false} EscapedReadsBack(s: string)
    ensures CharsOk(Escaped(s)) && CharsValue(Escaped(s)) == s
  {
    hide Escape, ChrOk, ChrValue;
    if s != "" {
      EscapeReadsBack(s[0]);
      EscapedReadsBack(s[1..]);
      assert ([Escape(s[0])] + Escaped(s[1..]))[1..] == Escaped(s[1..]);
    }
  }

  // ---- Layout

  function Spaces(n: nat): Gap {
    if n == 0 then [] else [Space(' ')] + Spaces(n - 1)
  }

  function Margin(indent: nat, depth: nat): nat {
    indent * depth
  }

  // A new line at this depth, or nothing in the compact form.
  function NewLine(style: Style, depth: nat): Gap {
    if style.indent < 0 then [] else [Space('\n')] + Spaces(Margin(style.indent, depth))
  }

  // An array is printed inline when it has at most four elements and each is a number or a boolean.
  predicate IsInline(items: seq<Value>) {
    |items| <= 4 && forall i :: 0 <= i < |items| ==> items[i].Number? || items[i].Bool?
  }

  // The gaps of one container: after the opening bracket, after each comma, and before the closing bracket.
  datatype Frame = Frame(open: Gap, between: Gap, close: Gap)

  function BlockFrame(style: Style, depth: nat): Frame {
    Frame(NewLine(style, depth + 1), NewLine(style, depth + 1), NewLine(style, depth))
  }

  function ArrayFrame(style: Style, items: seq<Value>, depth: nat): Frame {
    if IsInline(items) then Frame([], [Space(' ')], []) else BlockFrame(style, depth)
  }

  function KeyOf(style: Style, name: string): Key {
    Named(Escaped(name), [], if style.indent < 0 then [] else [Space(' ')])
  }

  function TreeOf(style: Style, v: Value, depth: nat): Node
    decreases v
  {
    match v
    case Null => Word(None)
    case Bool(b) => Word(Some(b))
    case Number(n) => Num(NumeralOf(style, n))
    case String(s) => Str(Escaped(s))
    case Array(items) =>
      if items == [] then Container(false, [], End)
      else
        var frame := ArrayFrame(style, items, depth);
        Container(false, frame.open, ItemsBody(style, frame, items, depth + 1))
    case Object(entries) =>
      if entries == [] then Container(true, [], End)
      else
        var frame := BlockFrame(style, depth);
        Container(true, frame.open, EntriesBody(style, frame, entries, depth + 1))
  }

  function ItemsBody(style: Style, frame: Frame, items: seq<Value>, depth: nat): Body
    requires items != []
    decreases items, 0
  {
    var after := if |items| == 1 then frame.close else [];
    Entry(NoKey, TreeOf(style, items[0], depth), after, ItemsTail(style, frame, items[1..], depth))
  }

  function ItemsTail(style: Style, frame: Frame, items: seq<Value>, depth: nat): Tail
    decreases items, 1
  {
    if items == [] then Close else Comma(frame.between, ItemsBody(style, frame, items, depth))
  }

  function EntriesBody(style: Style, frame: Frame, entries: seq<Member>, depth: nat): Body
    requires entries != []
    decreases entries, 0
  {
    var after := if |entries| == 1 then frame.close else [];
    Entry(KeyOf(style, entries[0].name), TreeOf(style, entries[0].value, depth), after,
          EntriesTail(style, frame, entries[1..], depth))
  }

  function EntriesTail(style: Style, frame: Frame, entries: seq<Member>, depth: nat): Tail
    decreases entries, 1
  {
    if entries == [] then Close else Comma(frame.between, EntriesBody(style, frame, entries, depth))
  }

  // ---- Every layout is in the grammar

  lemma {:induction false} SpacesOk(n: nat)
    ensures GapOk(Spaces(n))
  {
    if n > 0 {
      SpacesOk(n - 1);
    }
  }

  lemma NewLineOk(style: Style, depth: nat)
    ensures GapOk(NewLine(style, depth))
  {
    if style.indent >= 0 {
      SpacesOk(Margin(style.indent, depth));
    }
  }

  predicate FrameOk(frame: Frame) {
    GapOk(frame.open) && GapOk(frame.between) && GapOk(frame.close)
  }

  lemma FramesOk(style: Style, items: seq<Value>, depth: nat)
    ensures FrameOk(ArrayFrame(style, items, depth)) && FrameOk(BlockFrame(style, depth))
  {
    hide NewLine, IsInline;
    NewLineOk(style, depth);
    NewLineOk(style, depth + 1);
  }

  lemma NumeralOfOk(style: Style, n: real)
    ensures NumeralOk(NumeralOf(style, n))
  {
    hide Whole, NumeralOk;
    if IsSmallWhole(n) {
      WholeReadsBack(n.Floor);
    }
  }

  lemma {:induction false} TreeOk(style: Style, v: Value, depth: nat)
    ensures NodeOk(TreeOf(style, v, depth))
    decreases v
  {
    hide ArrayFrame, BlockFrame, NumeralOf, NumeralOk, CharsOk, GapOk, ItemsBody, EntriesBody;
    match v {
      case Null =>
      case Bool(b) =>
      case Number(n) => NumeralOfOk(style, n);
      case String(s) => EscapedReadsBack(s);
      case Array(items) =>
        EmptyGapOk();
        if items != [] {
          FramesOk(style, items, depth);
          ItemsBodyOk(style, ArrayFrame(style, items, depth), items, depth + 1);
        }
      case Object(entries) =>
        EmptyGapOk();
        if entries != [] {
          FramesOk(style, [], depth);
          EntriesBodyOk(style, BlockFrame(style, depth), entries, depth + 1);
        }
    }
  }

  lemma EmptyGapOk()
    ensures GapOk([]) && GapOk([Space(' ')])
  {
  }

  lemma {:induction false} ItemsBodyOk(style: Style, frame: Frame, items: seq<Value>, depth: nat)
    requires FrameOk(frame) && items != []
    ensures BodyOk(false, ItemsBody(style, frame, items, depth))
    decreases items
  {
    hide GapOk, NodeOk, TreeOf;
    EmptyGapOk();
    TreeOk(style, items[0], depth);
    if |items| > 1 {
      ItemsBodyOk(style, frame, items[1..], depth);
    }
  }

  lemma KeyOfOk(style: Style, name: string)
    ensures KeyOk(true, KeyOf(style, name)) && KeyValue(KeyOf(style, name)) == name
  {
    hide CharsOk, GapOk, Escaped;
    EmptyGapOk();
    EscapedReadsBack(name);
  }

  lemma {:induction false} EntriesBodyOk(style: Style, frame: Frame, entries: seq<Member>, depth: nat)
    requires FrameOk(frame) && entries != []
    ensures BodyOk(true, EntriesBody(style, frame, entries, depth))
    decreases entries
  {
    hide GapOk, NodeOk, TreeOf, KeyOk, KeyOf;
    EmptyGapOk();
    KeyOfOk(style, entries[0].name);
    TreeOk(style, entries[0].value, depth);
    if |entries| > 1 {
      EntriesBodyOk(style, frame, entries[1..], depth);
    }
  }

  // ---- Every layout keeps the value, up to how its numbers are printed

  function Rounded(style: Style, v: Value): Value
    decreases v
  {
    match v
    case Number(n) => Number(NumeralValue(NumeralOf(style, n)))
    case Array(items) => Array(RoundedItems(style, items))
    case Object(entries) => Object(RoundedEntries(style, entries))
    case _ => v
  }

  function RoundedItems(style: Style, items: seq<Value>): seq<Value>
    decreases items
  {
    if items == [] then [] else [Rounded(style, items[0])] + RoundedItems(style, items[1..])
  }

  function RoundedEntries(style: Style, entries: seq<Member>): seq<Member>
    decreases entries
  {
    if entries == [] then []
    else [Member(entries[0].name, Rounded(style, entries[0].value))] + RoundedEntries(style, entries[1..])
  }

  lemma {:induction false} TreeValue(style: Style, v: Value, depth: nat)
    ensures NodeValue(TreeOf(style, v, depth)) == Rounded(style, v)
    decreases v
  {
    hide NumeralOf, NumeralValue, CharsValue, ItemsBody, EntriesBody, BodyItems, BodyEntries, ArrayFrame, BlockFrame;
    match v {
      case Null =>
      case Bool(b) =>
      case Number(n) =>
      case String(s) => EscapedReadsBack(s);
      case Array(items) =>
        if items == [] {
          EmptyBody();
        } else {
          ItemsValue(style, ArrayFrame(style, items, depth), items, depth + 1);
        }
      case Object(entries) =>
        if entries == [] {
          EmptyBody();
        } else {
          EntriesValue(style, BlockFrame(style, depth), entries, depth + 1);
        }
    }
  }

  lemma EmptyBody()
    ensures BodyItems(End) == [] && BodyEntries(End) == []
  {
  }

  lemma {:induction false} ItemsValue(style: Style, frame: Frame, items: seq<Value>, depth: nat)
    requires items != []
    ensures BodyItems(ItemsBody(style, frame, items, depth)) == RoundedItems(style, items)
    decreases items
  {
    hide NodeValue, TreeOf, Rounded;
    TreeValue(style, items[0], depth);
    if |items| > 1 {
      ItemsValue(style, frame, items[1..], depth);
    }
  }

  lemma {:induction false} EntriesValue(style: Style, frame: Frame, entries: seq<Member>, depth: nat)
    requires entries != []
    ensures BodyEntries(EntriesBody(style, frame, entries, depth)) == RoundedEntries(style, entries)
    decreases entries
  {
    hide NodeValue, TreeOf, Rounded, KeyOf, KeyValue;
    KeyOfOk(style, entries[0].name);
    TreeValue(style, entries[0].value, depth);
    if |entries| > 1 {
      EntriesValue(style, frame, entries[1..], depth);
    }
  }

  // ---- Printing and reading back

  // The text of dump(): the tree's, with a newline at the end unless the form is compact.
  function DumpTree(style: Style, v: Value): Document {
    Document([], TreeOf(style, v, 0), if style.indent < 0 then [] else [Space('\n')], Cut.Whole)
  }

  function Dump(style: Style, v: Value): string {
    DocumentText(DumpTree(style, v))
  }

  lemma DumpReadsBack(style: Style, v: Value)
    ensures Parse(Dump(style, v)) == Read(Rounded(style, v))
  {
    hide DocumentText, NodeOk, TreeOf, Rounded, NodeValue, ParseDocument;
    TreeOk(style, v, 0);
    DocumentReadsBack(DumpTree(style, v));
    TreeValue(style, v, 0);
  }

  // Every number in the value is whole and below 10^15 in magnitude.
  predicate AllSmallWhole(v: Value)
    decreases v
  {
    match v
    case Number(n) => IsSmallWhole(n)
    case Array(items) => forall x :: x in items ==> AllSmallWhole(x)
    case Object(entries) => forall e :: e in entries ==> AllSmallWhole(e.value)
    case _ => true
  }

  lemma {:induction false} RoundedIsSame(style: Style, v: Value)
    requires AllSmallWhole(v)
    ensures Rounded(style, v) == v
    decreases v
  {
    hide NumeralValue, Whole;
    match v {
      case Number(n) => WholeReadsBack(n.Floor);
      case Array(items) => RoundedItemsAreSame(style, items);
      case Object(entries) => RoundedEntriesAreSame(style, entries);
      case _ =>
    }
  }

  lemma {:induction false} RoundedItemsAreSame(style: Style, items: seq<Value>)
    requires forall x :: x in items ==> AllSmallWhole(x)
    ensures RoundedItems(style, items) == items
    decreases items
  {
    if items != [] {
      RoundedIsSame(style, items[0]);
      RoundedItemsAreSame(style, items[1..]);
    }
  }

  lemma {:induction false} RoundedEntriesAreSame(style: Style, entries: seq<Member>)
    requires forall e :: e in entries ==> AllSmallWhole(e.value)
    ensures RoundedEntries(style, entries) == entries
    decreases entries
  {
    if entries != [] {
      RoundedIsSame(style, entries[0].value);
      RoundedEntriesAreSame(style, entries[1..]);
    }
  }

  // Reading undoes printing, at every indent.
  lemma RoundTrip(style: Style, v: Value)
    requires AllSmallWhole(v)
    ensures Parse(Dump(style, v)) == Read(v)
  {
    hide *;
    DumpReadsBack(style, v);
    RoundedIsSame(style, v);
  }

  // It still does when the text is edited: comments, other spacing and trailing commas.
  lemma RoundTripEdited(style: Style, v: Value, edited: Document)
    requires AllSmallWhole(v)
    requires DocumentOk(edited) && Bare(edited.root) == Bare(TreeOf(style, v, 0))
    ensures Parse(DocumentText(edited)) == Read(v)
  {
    hide DocumentText, NodeOk, TreeOf, Rounded, NodeValue, Parse, Bare, AllSmallWhole, ParseDocument;
    TreeOk(style, v, 0);
    LayoutMeansNothing(DumpTree(style, v), edited);
    TreeValue(style, v, 0);
    RoundedIsSame(style, v);
  }
}
