// The pattern language of src/sigscan.cpp: what parsePattern accepts, as items of text, and what they stand for.

module PatternSyntax {
  import opened Wrappers
  import opened Bytes

  // A cell of a pattern: a byte, or anything.
  type Cell = Option<byte>

  datatype Item =
    | Blank(c: char)
    | Mark(a: char, x: char)     // \x or 0x: skipped wherever it stands
    | Any(twice: bool)           // ? or ??
    | Pair(high: char, low: char)

  // isspace() in the C locale.
  predicate IsBlank(c: char) {
    c == ' ' || 9 <= c as int <= 13
  }

  function HexDigit(c: char): (d: int)
    ensures -1 <= d < 16
  {
    if '0' <= c <= '9' then c as int - '0' as int
    else if 'a' <= c <= 'f' then c as int - 'a' as int + 10
    else if 'A' <= c <= 'F' then c as int - 'A' as int + 10
    else -1
  }

  predicate ItemOk(i: Item) {
    match i
    case Blank(c) => IsBlank(c)
    case Mark(a, x) => (a == '\\' || a == '0') && (x == 'x' || x == 'X')
    case Any(_) => true
    case Pair(high, low) => HexDigit(high) >= 0 && HexDigit(low) >= 0
  }

  function ItemText(i: Item, rest: string): string {
    match i
    case Blank(c) => [c] + rest
    case Mark(a, x) => [a, x] + rest
    case Any(twice) => (if twice then ['?', '?'] else ['?']) + rest
    case Pair(high, low) => [high, low] + rest
  }

  function ItemsText(items: seq<Item>): string {
    if items == [] then "" else ItemText(items[0], ItemsText(items[1..]))
  }

  // A single ? directly before another ? would be read with it.
  predicate ItemsOk(items: seq<Item>) {
    items == [] || (ItemOk(items[0]) && (items[0] == Any(false) ==> (items[1..] == [] || !items[1].Any?))
                    && ItemsOk(items[1..]))
  }

  function CellsOf(i: Item): seq<Cell> {
    match i
    case Any(_) => [None]
    case Pair(high, low) => if ItemOk(i) then [Some(HexDigit(high) * 16 + HexDigit(low))] else []
    case _ => []
  }

  function Cells(items: seq<Item>): seq<Cell> {
    if items == [] then [] else CellsOf(items[0]) + Cells(items[1..])
  }

  function Concrete(cells: seq<Cell>): nat {
    if cells == [] then 0 else Concrete(cells[..|cells| - 1]) + if cells[|cells| - 1].Some? then 1 else 0
  }

  // What a usable pattern has to have.
  predicate Usable(cells: seq<Cell>) {
    cells != [] && cells[0].Some? && Concrete(cells) >= 4
  }

  // ---- Reading

  datatype Refusal =
    | Unexpected(c: char)
    | HalfByte
    | ExpectedDigit(after: char)
    | EmptyPattern
    | StartsWithWildcard
    | TooFewConcrete

  datatype Reading<+T> = Read(value: T) | Refused(why: Refusal)

  predicate IsMark(s: string) {
    |s| >= 2 && (s[0] == '\\' || s[0] == '0') && (s[1] == 'x' || s[1] == 'X')
  }

  function ReadItem(s: string): (r: Reading<Item>)
    requires s != ""
    ensures r.Read? ==> |ItemText(r.value, "")| <= |s|
  {
    if IsBlank(s[0]) then Read(Blank(s[0]))
    else if IsMark(s) then Read(Mark(s[0], s[1]))
    else if s[0] == '?' then Read(Any(|s| >= 2 && s[1] == '?'))
    else if HexDigit(s[0]) < 0 then Refused(Unexpected(s[0]))
    else if |s| == 1 then Refused(HalfByte)
    else if HexDigit(s[1]) < 0 then Refused(ExpectedDigit(s[0]))
    else Read(Pair(s[0], s[1]))
  }

  function Width(i: Item): (n: nat)
    ensures n > 0 && n == |ItemText(i, "")|
  {
    match i
    case Blank(_) => 1
    case Mark(_, _) => 2
    case Any(twice) => if twice then 2 else 1
    case Pair(_, _) => 2
  }

  function ReadItems(s: string): Reading<seq<Item>>
    decreases |s|
  {
    if s == "" then Read([])
    else
      match ReadItem(s)
      case Refused(why) => Refused(why)
      case Read(item) =>
        match ReadItems(s[Width(item)..])
        case Refused(why) => Refused(why)
        case Read(items) => Read([item] + items)
  }

  // parsePattern()
  function ReadPattern(s: string): Reading<seq<Cell>> {
    match ReadItems(s)
    case Refused(why) => Refused(why)
    case Read(items) =>
      var cells := Cells(items);
      if cells == [] then Refused(EmptyPattern)
      else if cells[0].None? then Refused(StartsWithWildcard)
      else if Concrete(cells) < 4 then Refused(TooFewConcrete)
      else Read(cells)
  }

  // ---- Reading is exact

  lemma ItemReadsBack(i: Item, rest: string)
    requires ItemOk(i) && (i == Any(false) ==> rest == "" || rest[0] != '?')
    ensures var s := ItemText(i, rest); s != "" && ReadItem(s) == Read(i) && s[Width(i)..] == rest
  {
    var s := ItemText(i, rest);
    match i {
      case Blank(c) => assert s[1..] == rest;
      case Mark(a, x) => assert s[2..] == rest;
      case Any(twice) => assert s[if twice then 2 else 1..] == rest;
      case Pair(high, low) => assert s[2..] == rest;
    }
  }

  lemma ItemsStart(items: seq<Item>)
    requires ItemsOk(items)
    ensures ItemsText(items) != "" && ItemsText(items)[0] == '?' ==> items != [] && items[0].Any?
  {
    if items != [] {
      assert ItemsText(items) == ItemText(items[0], ItemsText(items[1..]));
    }
  }

  lemma {:induction false} ItemsReadBack(items: seq<Item>)
    requires ItemsOk(items)
    ensures ReadItems(ItemsText(items)) == Read(items)
  {
    hide ItemText, ReadItem, Width, ItemOk;
    if items != [] {
      var rest := items[1..];
      ItemsStart(rest);
      ItemReadsBack(items[0], ItemsText(rest));
      ItemsReadBack(rest);
      assert [items[0]] + rest == items;
    }
  }

  lemma ItemSound(s: string)
    requires s != "" && ReadItem(s).Read?
    ensures var i := ReadItem(s).value;
      && ItemOk(i) && Width(i) <= |s| && s == ItemText(i, s[Width(i)..])
      && (i == Any(false) ==> s[1..] == "" || s[1] != '?')
  {
  }

  lemma FirstIsAny(s: string)
    requires ReadItems(s).Read? && s != "" && s[0] != '?'
    ensures ReadItems(s).value != [] && !ReadItems(s).value[0].Any?
  {
  }

  lemma {:induction false} ItemsSound(s: string)
    requires ReadItems(s).Read?
    ensures ItemsOk(ReadItems(s).value) && ItemsText(ReadItems(s).value) == s
    decreases |s|
  {
    hide ItemText, ReadItem, Width, ItemOk;
    if s != "" {
      var i := ReadItem(s).value;
      ItemSound(s);
      var rest := s[Width(i)..];
      ItemsSound(rest);
      assert ([i] + ReadItems(rest).value)[1..] == ReadItems(rest).value;
      if i == Any(false) && rest != "" {
        assert Width(Any(false)) == 1 by { AnyWidth(); }
        FirstIsAny(rest);
      }
    }
  }

  lemma AnyWidth()
    ensures Width(Any(false)) == 1
  {
  }

  // A text is accepted with a pattern exactly when it spells that pattern, in whatever mixture of spellings, and the
  // pattern is usable.
  lemma AcceptedExactly(s: string, cells: seq<Cell>)
    ensures ReadPattern(s) == Read(cells)
       <==> Usable(cells) && exists items :: ItemsOk(items) && ItemsText(items) == s && Cells(items) == cells
  {
    hide ItemsOk, ItemsText, Cells, Concrete, ReadItems;
    if ReadPattern(s) == Read(cells) {
      ItemsSound(s);
    }
    if Usable(cells) && exists items :: ItemsOk(items) && ItemsText(items) == s && Cells(items) == cells {
      var items :| ItemsOk(items) && ItemsText(items) == s && Cells(items) == cells;
      ItemsReadBack(items);
    }
  }

  // ---- Every usable pattern can be written down

  function HexMark(n: nat): char
    requires n < 16
  {
    if n < 10 then (n + '0' as int) as char else (n - 10 + 'A' as int) as char
  }

  function Spell(cells: seq<Cell>): seq<Item> {
    if cells == [] then []
    else
      [if cells[0].Some? then Pair(HexMark(cells[0].value / 16), HexMark(cells[0].value % 16)) else Any(true)]
      + Spell(cells[1..])
  }

  lemma HexMarkReadsBack(n: nat)
    requires n < 16
    ensures HexDigit(HexMark(n)) == n
  {
  }

  lemma {:induction false} SpellSpells(cells: seq<Cell>)
    ensures ItemsOk(Spell(cells)) && Cells(Spell(cells)) == cells
  {
    hide HexMark, HexDigit;
    if cells != [] {
      SpellSpells(cells[1..]);
      assert Spell(cells)[1..] == Spell(cells[1..]);
      if cells[0].Some? {
        HexMarkReadsBack(cells[0].value / 16);
        HexMarkReadsBack(cells[0].value % 16);
      }
      assert [cells[0]] + cells[1..] == cells;
    }
  }

  lemma PatternRoundTrip(cells: seq<Cell>)
    requires Usable(cells)
    ensures ReadPattern(ItemsText(Spell(cells))) == Read(cells)
  {
    hide Spell, ItemsOk, ItemsText, Cells, Concrete, ReadPattern;
    SpellSpells(cells);
    AcceptedExactly(ItemsText(Spell(cells)), cells);
  }

  // ---- What a pattern's text means, letter by letter

  predicate HexSpells(c: char, n: nat) {
    n < 16 && (c == "0123456789abcdef"[n] || c == "0123456789ABCDEF"[n])
  }

  // A byte in two digits, in either case; a wildcard of one or two question marks; what is skipped.
  datatype Unit =
    | Byte(high: char, low: char, h: nat, l: nat)
    | Wild(text: string)
    | Skip(text: string)

  predicate UnitOk(u: Unit) {
    match u
    case Byte(high, low, h, l) => HexSpells(high, h) && HexSpells(low, l)
    case Wild(text) => text == "?" || text == "??"
    case Skip(text) =>
      || text == "\\x" || text == "\\X" || text == "0x" || text == "0X"
      || (|text| == 1 && (text[0] as int == 32 || 9 <= text[0] as int <= 13))
  }

  function UnitText(u: Unit): string {
    match u
    case Byte(high, low, _, _) => [high, low]
    case Wild(text) => text
    case Skip(text) => text
  }

  function UnitCells(u: Unit): seq<Cell>
    requires UnitOk(u)
  {
    match u
    case Byte(_, _, h, l) => [Some(16 * h + l)]
    case Wild(_) => [None]
    case Skip(_) => []
  }

  // A single question mark before another would be read with it.
  predicate UnitsOk(us: seq<Unit>) {
    us == [] || (UnitOk(us[0]) && UnitsOk(us[1..]) && (us[0] == Wild("?") ==> us[1..] == [] || !us[1].Wild?))
  }

  function UnitsText(us: seq<Unit>): string {
    if us == [] then "" else UnitText(us[0]) + UnitsText(us[1..])
  }

  function UnitsCells(us: seq<Unit>): seq<Cell>
    requires UnitsOk(us)
  {
    if us == [] then [] else UnitCells(us[0]) + UnitsCells(us[1..])
  }

  function ItemOf(u: Unit): Item
    requires UnitOk(u)
  {
    match u
    case Byte(high, low, _, _) => Pair(high, low)
    case Wild(text) => Any(|text| == 2)
    case Skip(text) => if |text| == 1 then Blank(text[0]) else Mark(text[0], text[1])
  }

  lemma HexIsSpelled(c: char, n: nat)
    requires HexSpells(c, n)
    ensures HexDigit(c) == n
  {
  }

  lemma UnitIsItem(u: Unit, rest: string)
    requires UnitOk(u)
    ensures ItemOk(ItemOf(u)) && ItemText(ItemOf(u), rest) == UnitText(u) + rest
    ensures CellsOf(ItemOf(u)) == UnitCells(u)
    ensures ItemOf(u).Any? <==> u.Wild?
    ensures ItemOf(u) == Any(false) <==> u == Wild("?")
  {
    if u.Byte? {
      HexIsSpelled(u.high, u.h);
      HexIsSpelled(u.low, u.l);
      hide HexSpells, HexDigit;
    }
  }

  lemma {:induction false} UnitsAreItems(us: seq<Unit>) returns (items: seq<Item>)
    requires UnitsOk(us)
    ensures ItemsOk(items) && ItemsText(items) == UnitsText(us) && Cells(items) == UnitsCells(us) && |items| == |us|
    ensures us != [] ==> items[0] == ItemOf(us[0])
    decreases us
  {
    hide UnitOk, ItemOk, UnitText, ItemText, ItemOf, UnitCells, CellsOf;
    items := [];
    if us != [] {
      var later := UnitsAreItems(us[1..]);
      items := [ItemOf(us[0])] + later;
      assert items[1..] == later;
      UnitIsItem(us[0], ItemsText(later));
      if us[1..] != [] {
        UnitIsItem(us[1], "");
      }
    }
  }

  // Two hexadecimal digits are a byte, in upper or lower case alike, question marks are wildcards, and blanks, \x and 0x
  // are skipped: a usable pattern so written is accepted as that pattern.
  lemma PatternsMean(us: seq<Unit>)
    requires UnitsOk(us) && Usable(UnitsCells(us))
    ensures ReadPattern(UnitsText(us)) == Read(UnitsCells(us))
  {
    hide UnitsText, UnitsCells, ItemsOk, ItemsText, Cells, Concrete, ReadPattern;
    var items := UnitsAreItems(us);
    AcceptedExactly(UnitsText(us), UnitsCells(us));
  }

  // The letter case of the digits means nothing.
  lemma CaseMeansNothing(us: seq<Unit>, vs: seq<Unit>)
    requires UnitsOk(us) && UnitsOk(vs) && Usable(UnitsCells(us)) && |us| == |vs|
    requires forall i :: 0 <= i < |us| ==>
      us[i] == vs[i] || (us[i].Byte? && vs[i].Byte? && us[i].h == vs[i].h && us[i].l == vs[i].l)
    ensures ReadPattern(UnitsText(us)) == ReadPattern(UnitsText(vs))
  {
    hide UnitsText, Concrete, ReadPattern;
    SameCells(us, vs);
    PatternsMean(us);
    PatternsMean(vs);
  }

  lemma {:induction false} SameCells(us: seq<Unit>, vs: seq<Unit>)
    requires UnitsOk(us) && UnitsOk(vs) && |us| == |vs|
    requires forall i :: 0 <= i < |us| ==>
      us[i] == vs[i] || (us[i].Byte? && vs[i].Byte? && us[i].h == vs[i].h && us[i].l == vs[i].l)
    ensures UnitsCells(us) == UnitsCells(vs)
    decreases us
  {
    if us != [] {
      SameCells(us[1..], vs[1..]);
    }
  }

  // ---- What is refused

  predicate HexLetter(c: char) {
    '0' <= c <= '9' || 'a' <= c <= 'f' || 'A' <= c <= 'F'
  }

  predicate Skipped(c: char) {
    c as int == 32 || 9 <= c as int <= 13
  }

  predicate PrefixMark(c: char, d: char) {
    (c == '0' || c == '\\') && (d == 'x' || d == 'X')
  }

  lemma UnitStarts(u: Unit)
    requires UnitOk(u) && !u.Wild?
    ensures UnitText(u) != "" && UnitText(u)[0] != '?'
  {
    if u.Byte? {
      HexIsSpelled(u.high, u.h);
    }
  }

  lemma {:induction false} UnitsThen(us: seq<Unit>, tail: string, why: Refusal)
    requires UnitsOk(us) && (tail == "" || tail[0] != '?') && ReadItems(tail) == Refused(why)
    ensures ReadItems(UnitsText(us) + tail) == Refused(why)
    decreases us
  {
    hide UnitOk, ItemOk, UnitText, ItemText, ItemOf, ReadItem, Width;
    if us == [] {
      assert UnitsText(us) + tail == tail;
    } else {
      var later := UnitsText(us[1..]) + tail;
      UnitsThen(us[1..], tail, why);
      UnitIsItem(us[0], later);
      if us[0] == Wild("?") && us[1..] != [] {
        UnitStarts(us[1]);
      }
      ItemReadsBack(ItemOf(us[0]), later);
      assert UnitText(us[0]) + later == UnitsText(us) + tail;
    }
  }

  lemma TailRefused(us: seq<Unit>, tail: string, why: Refusal)
    requires UnitsOk(us) && (tail == "" || tail[0] != '?') && ReadItems(tail) == Refused(why)
    ensures ReadPattern(UnitsText(us) + tail) == Refused(why)
  {
    hide UnitsText, UnitsOk, ReadItems;
    UnitsThen(us, tail, why);
  }

  // After any beginning: a character that starts nothing, a digit at the very end, a digit before something that is none.
  lemma CharactersRefused(us: seq<Unit>, c: char, d: char, s: string)
    requires UnitsOk(us)
    ensures !HexLetter(c) && !Skipped(c) && c != '?' && !PrefixMark(c, d) ==>
      ReadPattern(UnitsText(us) + ([c, d] + s)) == Refused(Unexpected(c))
    ensures HexLetter(c) ==> ReadPattern(UnitsText(us) + [c]) == Refused(HalfByte)
    ensures HexLetter(c) && !HexLetter(d) && !PrefixMark(c, d) ==>
      ReadPattern(UnitsText(us) + ([c, d] + s)) == Refused(ExpectedDigit(c))
  {
    var two := [c, d] + s;
    assert two[0] == c && two[1] == d;
    hide UnitsText, UnitsOk, ReadPattern;
    if !HexLetter(c) && !Skipped(c) && c != '?' && !PrefixMark(c, d) {
      TailRefused(us, two, Unexpected(c));
    }
    if HexLetter(c) {
      TailRefused(us, [c], HalfByte);
      if !HexLetter(d) && !PrefixMark(c, d) {
        TailRefused(us, two, ExpectedDigit(c));
      }
    }
  }

  // A text that is spelled correctly and is still no pattern: nothing in it, a wildcard first, or fewer than four bytes.
  lemma PatternsRefused(us: seq<Unit>)
    requires UnitsOk(us)
    ensures var cells := UnitsCells(us); var r := ReadPattern(UnitsText(us));
      && (cells == [] ==> r == Refused(EmptyPattern))
      && (cells != [] && cells[0].None? ==> r == Refused(StartsWithWildcard))
      && (cells != [] && cells[0].Some? && BytesIn(us) < 4 ==> r == Refused(TooFewConcrete))
  {
    hide UnitsText, UnitsCells, ItemsOk, ItemsText, Cells, Concrete, ReadItems;
    var items := UnitsAreItems(us);
    ItemsReadBack(items);
    BytesAreConcrete(us);
  }

  function BytesIn(us: seq<Unit>): nat {
    if us == [] then 0 else (if us[0].Byte? then 1 else 0) + BytesIn(us[1..])
  }

  lemma {:induction false} BytesAreConcrete(us: seq<Unit>)
    requires UnitsOk(us)
    ensures Concrete(UnitsCells(us)) == BytesIn(us)
    decreases us
  {
    hide UnitOk, Concrete;
    if us == [] {
      ConcreteOf([], []);
    } else {
      BytesAreConcrete(us[1..]);
      ConcreteOf(UnitCells(us[0]), UnitsCells(us[1..]));
      ConcreteUnit(us[0]);
    }
  }

  lemma ConcreteUnit(u: Unit)
    requires UnitOk(u)
    ensures Concrete(UnitCells(u)) == if u.Byte? then 1 else 0
  {
    hide UnitOk;
    assert Concrete([]) == 0;
    if u.Byte? || u.Wild? {
      assert UnitCells(u)[..0] == [];
    }
  }

  lemma {:induction false} ConcreteOf(a: seq<Cell>, b: seq<Cell>)
    ensures Concrete([]) == 0 && Concrete(a + b) == Concrete(a) + Concrete(b)
    decreases b
  {
    if b == [] {
      assert a + b == a;
    } else {
      var n := |b| - 1;
      assert (a + b)[..|a| + n] == a + b[..n];
      ConcreteOf(a, b[..n]);
    }
  }
}
