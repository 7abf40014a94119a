// What the parser of src/json.cpp makes of raw text, said without the grammar's own functions: numbers by place value,
// strings by their escapes and UTF-8 (RFC 3629), containers by the texts they are put together from.

module JsonMeaning {
  import opened Wrappers
  import opened JsonSyntax
  import opened JsonReader

  // The text is one value and nothing else.
  lemma LoneNode(n: Node)
    requires NodeOk(n)
    ensures Parse(NodeText(n, "")) == Read(NodeValue(n))
  {
    hide NodeText, NodeOk, NodeValue, ParseDocument;
    var d := Document([], n, [], Whole);
    EmptyGapText("");
    EmptyGapText(NodeText(n, ""));
    DocumentReadsBack(d);
  }

  lemma EmptyGapText(rest: string)
    ensures GapText([], rest) == rest && GapOk([]) && CutText(Whole) == ""
  {
  }

  // ---- Numbers

  function Tens(n: nat): (p: int)
    ensures p > 0
  {
    if n == 0 then 1 else 10 * Tens(n - 1)
  }

  // The first of n digits counts 10^(n-1) times.
  function Spelled(digits: string): int {
    if digits == "" then 0 else (digits[0] as int - 48) * Tens(|digits| - 1) + Spelled(digits[1..])
  }

  predicate Digits(s: string) {
    forall i :: 0 <= i < |s| ==> 48 <= s[i] as int <= 57
  }

  predicate Sign(s: string) {
    s == "" || s == "+" || s == "-"
  }

  function Minus(sign: string, n: int): int {
    if sign == "-" then -n else n
  }

  lemma {:induction false} SpelledSnoc(s: string, c: char)
    ensures Spelled(s + [c]) == 10 * Spelled(s) + (c as int - 48)
    decreases s
  {
    var t := s + [c];
    if s == "" {
      assert t[1..] == "";
    } else {
      assert t[1..] == s[1..] + [c];
      SpelledSnoc(s[1..], c);
      TensDown(s[0] as int - 48, |s|);
    }
  }

  lemma TensDown(d: int, n: nat)
    requires n > 0
    ensures d * Tens(n) == 10 * (d * Tens(n - 1))
  {
  }

  lemma {:induction false} DigitsSpell(s: string)
    ensures DigitsValue(s) == Spelled(s)
  {
    if s != "" {
      var n := |s| - 1;
      DigitsSpell(s[..n]);
      SpelledSnoc(s[..n], s[n]);
      assert s[..n] + [s[n]] == s;
    }
  }

  lemma {:induction false} PowerIsTens(n: int)
    requires n >= 0
    ensures Pow10(n) == Tens(n) as real && Pow10(-n) * Tens(n) as real == 1.0
  {
    if n > 0 {
      PowerIsTens(n - 1);
      assert Pow10(-n) == Pow10(-n + 1) / 10.0;
      Tenth(Pow10(-n + 1), Tens(n - 1));
    }
  }

  lemma Tenth(x: real, n: int)
    ensures x / 10.0 * (10 * n) as real == x * n as real
  {
    assert (10 * n) as real == 10.0 * n as real;
  }

  // x is m times ten to the k.
  predicate Scales(x: real, m: int, k: int) {
    if k >= 0 then x == (m * Tens(k)) as real else x * Tens(-k) as real == m as real
  }

  function Scale(m: int, k: int): real {
    m as real * Pow10(k)
  }

  lemma Scaled(m: int, k: int)
    ensures Scales(Scale(m, k), m, k)
  {
    hide Pow10, Tens, Scale;
    if k >= 0 {
      ScaledUp(m, k);
    } else {
      ScaledDown(m, -k);
    }
  }

  lemma ScaledUp(m: int, k: nat)
    ensures Scale(m, k) == (m * Tens(k)) as real
  {
    hide Pow10, Tens;
    PowerIsTens(k);
    Product(m, Tens(k));
  }

  lemma ScaledDown(m: int, n: int)
    requires n > 0
    ensures Scale(m, -n) * Tens(n) as real == m as real
  {
    hide Pow10, Tens;
    PowerIsTens(n);
    Cancel(m as real, Pow10(-n), Tens(n) as real);
  }

  lemma Product(m: int, n: int)
    ensures m as real * n as real == (m * n) as real
  {
  }

  lemma Cancel(m: real, x: real, y: real)
    requires x * y == 1.0
    ensures m * x * y == m
  {
    assert m * x * y == m * (x * y);
  }

  predicate FractionPart(point: string, f: string) {
    (point == "." && Digits(f)) || (point == "" && f == "")
  }

  predicate ExponentPart(mark: string, sign: string, e: string) {
    ((mark == "e" || mark == "E") && Sign(sign) && Digits(e)) || (mark == "" && sign == "" && e == "")
  }

  // Sign, digits, point, digits, exponent mark, sign, digits: the digits before and after the point spell an integer, which
  // is scaled by ten to the exponent less the number of digits after the point. No exponent digits count as 0.
  lemma NumbersMean(sign: string, a: string, point: string, f: string, mark: string, esign: string, e: string)
    requires Sign(sign) && Digits(a) && FractionPart(point, f) && ExponentPart(mark, esign, e) && a + f != ""
    ensures var r := Parse(sign + a + point + f + mark + esign + e);
      r.Read? && r.value.Number? && Scales(r.value.n, Minus(sign, Spelled(a + f)), Minus(esign, Spelled(e)) - |f|)
  {
    hide *;
    var t := Numeral(sign, a, if point == "" then None else Some(f),
                     if mark == "" then None else Some(Exponent(mark[0], esign, e)));
    NumeralSpelled(t, point, f, mark, esign, e);
    NumeralMeans(t, point, f, mark, esign, e);
    NumIs(t);
    Scaled(Minus(sign, Spelled(a + f)), Minus(esign, Spelled(e)) - |f|);
  }

  lemma NumIs(t: Numeral)
    requires NumeralOk(t)
    ensures Parse(NumeralText(t, "")) == Read(Number(NumeralValue(t)))
  {
    hide NumeralOk, NumeralText, NumeralValue, Parse;
    LoneNode(Num(t));
  }

  lemma NumeralMeans(t: Numeral, point: string, f: string, mark: string, esign: string, e: string)
    requires Sign(t.sign) && Digits(t.whole) && FractionPart(point, f) && ExponentPart(mark, esign, e) && t.whole + f != ""
    requires t.fraction == if point == "" then None else Some(f)
    requires t.exponent == if mark == "" then None else Some(Exponent(mark[0], esign, e))
    ensures NumeralValue(t)
         == Scale(Minus(t.sign, Spelled(t.whole + f)), Minus(esign, Spelled(e)) - |f|)
  {
    hide *;
    NumeralIsOk(t, point, f, mark, esign, e);
    NumeralScales(t);
    DigitsSpell(t.whole + f);
    DigitsSpell(e);
  }

  lemma NumeralScales(t: Numeral)
    ensures NumeralValue(t) == Scale(Negated(t.sign, DigitsValue(t.whole + FractionDigits(t.fraction))),
                                     ExponentValue(t.exponent) - |FractionDigits(t.fraction)|)
  {
    hide Negated, DigitsValue, ExponentValue, FractionDigits, Pow10;
  }

  lemma NumeralSpelled(t: Numeral, point: string, f: string, mark: string, esign: string, e: string)
    requires Sign(t.sign) && Digits(t.whole) && FractionPart(point, f) && ExponentPart(mark, esign, e) && t.whole + f != ""
    requires t.fraction == if point == "" then None else Some(f)
    requires t.exponent == if mark == "" then None else Some(Exponent(mark[0], esign, e))
    ensures NumeralOk(t) && NumeralText(t, "") == t.sign + t.whole + point + f + mark + esign + e
  {
    NumeralIsOk(t, point, f, mark, esign, e);
    hide NumeralOk, Digits, Sign, FractionPart, ExponentPart;
    ExponentSpelled(t.exponent, mark, esign, e);
    FractionSpelled(t.fraction, point, f, mark + (esign + e));
    InARow(t.sign, t.whole, point, f, mark, esign, e);
  }

  lemma NumeralIsOk(t: Numeral, point: string, f: string, mark: string, esign: string, e: string)
    requires Sign(t.sign) && Digits(t.whole) && FractionPart(point, f) && ExponentPart(mark, esign, e) && t.whole + f != ""
    requires t.fraction == if point == "" then None else Some(f)
    requires t.exponent == if mark == "" then None else Some(Exponent(mark[0], esign, e))
    ensures NumeralOk(t) && FractionDigits(t.fraction) == f && ExponentValue(t.exponent) == Minus(esign, DigitsValue(e))
    ensures Negated(t.sign, DigitsValue(t.whole + f)) == Minus(t.sign, DigitsValue(t.whole + f))
    ensures ExponentPart(mark, esign, e) && mark != "" ==> |mark| == 1
  {
  }

  lemma ExponentSpelled(x: Option<Exponent>, mark: string, esign: string, e: string)
    requires x == if mark == "" then None else Some(Exponent(mark[0], esign, e))
    requires |mark| <= 1 && (mark == "" ==> esign == "" && e == "")
    ensures ExponentText(x, "") == mark + (esign + e)
  {
    assert e + "" == e;
    if mark != "" {
      assert [mark[0]] == mark;
    }
  }

  lemma FractionSpelled(x: Option<string>, point: string, f: string, rest: string)
    requires x == (if point == "" then None else Some(f)) && (point == "." || (point == "" && f == ""))
    ensures FractionText(x, rest) == point + (f + rest)
  {
    assert "" + rest == rest;
  }

  lemma InARow(a: string, b: string, c: string, d: string, e: string, f: string, g: string)
    ensures a + (b + (c + (d + (e + (f + g))))) == a + b + c + d + e + f + g
  {
    Regroup(a, b, c + (d + (e + (f + g))));
    Regroup(a + b, c, d + (e + (f + g)));
    Regroup(a + b + c, d, e + (f + g));
    Regroup(a + b + c + d, e, f + g);
    Regroup(a + b + c + d + e, f, g);
  }

  // ---- Words

  lemma WordsMean()
    ensures Parse("true") == Read(Bool(true)) && Parse("false") == Read(Bool(false)) && Parse("null") == Read(Null)
  {
    hide Parse;
    LoneNode(Word(Some(true)));
    LoneNode(Word(Some(false)));
    LoneNode(Word(None));
    assert NodeText(Word(Some(true)), "") == "true";
    assert NodeText(Word(Some(false)), "") == "false";
    assert NodeText(Word(None), "") == "null";
  }

  // ---- Strings

  // A byte sequence and the code point it encodes, by RFC 3629 section 3.
  predicate Utf8Encodes(s: string, code: nat) {
    || (|s| == 1 && code < 0x80 && s[0] as int == code)
    || (|s| == 2 && 0x80 <= code && 0xC0 <= s[0] as int < 0xE0 && 0x80 <= s[1] as int < 0xC0
        && code == (s[0] as int - 0xC0) * 0x40 + (s[1] as int - 0x80))
    || (|s| == 3 && 0x800 <= code && 0xE0 <= s[0] as int < 0xF0 && 0x80 <= s[1] as int < 0xC0 && 0x80 <= s[2] as int < 0xC0
        && code == (s[0] as int - 0xE0) * 0x1000 + (s[1] as int - 0x80) * 0x40 + (s[2] as int - 0x80))
  }

  predicate HexSpells(c: char, n: nat) {
    n < 16 && (c == "0123456789abcdef"[n] || c == "0123456789ABCDEF"[n])
  }

  predicate EscapeNames(e: char, code: int) {
    || (e == '\"' && code == 0x22) || (e == '\\' && code == 0x5C) || (e == '/' && code == 0x2F)
    || (e == 'b' && code == 8) || (e == 't' && code == 9) || (e == 'n' && code == 10)
    || (e == 'f' && code == 12) || (e == 'r' && code == 13)
  }

  // One character or escape, and the bytes it stands for.
  datatype Unit =
    | Itself(c: char)
    | Name(e: char, stands: char)
    | Code(a: char, b: char, c: char, d: char, h3: nat, h2: nat, h1: nat, h0: nat, bytes: string)

  predicate UnitOk(u: Unit) {
    match u
    case Itself(c) => c != '\"' && c != '\\'
    case Name(e, stands) => EscapeNames(e, stands as int)
    case Code(a, b, c, d, h3, h2, h1, h0, bytes) =>
      && HexSpells(a, h3) && HexSpells(b, h2) && HexSpells(c, h1) && HexSpells(d, h0)
      && Utf8Encodes(bytes, h3 * 0x1000 + h2 * 0x100 + h1 * 0x10 + h0)
  }

  function UnitText(u: Unit): string {
    match u
    case Itself(c) => [c]
    case Name(e, _) => "\\" + [e]
    case Code(a, b, c, d, _, _, _, _, _) => "\\u" + [a, b, c, d]
  }

  function UnitBytes(u: Unit): string {
    match u
    case Itself(c) => [c]
    case Name(_, stands) => [stands]
    case Code(_, _, _, _, _, _, _, _, bytes) => bytes
  }

  function Texts(us: seq<Unit>): string {
    if us == [] then "" else UnitText(us[0]) + Texts(us[1..])
  }

  function Stands(us: seq<Unit>): string {
    if us == [] then "" else UnitBytes(us[0]) + Stands(us[1..])
  }

  function ChrOf(u: Unit): Chr {
    match u
    case Itself(c) => Plain(c)
    case Name(e, _) => Short(e)
    case Code(a, b, c, d, _, _, _, _, _) => Hex(a, b, c, d)
  }

  lemma HexIsSpelled(c: char, n: nat)
    requires HexSpells(c, n)
    ensures IsHex(c) && HexValue(c) == n
  {
  }

  // A code point is encoded in one way only.
  lemma Utf8Unique(s: string, code: nat)
    requires code < 0x10000 && Utf8Encodes(s, code)
    ensures s == Utf8(code)
  {
    if |s| == 1 {
      assert s == [s[0]];
    } else if |s| == 2 {
      Halves(code, s[0] as int - 0xC0, s[1] as int - 0x80);
      assert s == [s[0], s[1]];
    } else {
      Halves(code, (s[0] as int - 0xE0) * 0x40 + (s[1] as int - 0x80), s[2] as int - 0x80);
      Halves(code / 0x40, s[0] as int - 0xE0, s[1] as int - 0x80);
      assert s == [s[0], s[1], s[2]];
    }
  }

  lemma Halves(n: int, high: int, low: int)
    requires n == high * 0x40 + low && 0 <= low < 0x40
    ensures n / 0x40 == high && n % 0x40 == low
  {
  }

  lemma UnitIsChr(u: Unit, rest: string)
    requires UnitOk(u)
    ensures ChrOk(ChrOf(u)) && ChrText(ChrOf(u), rest) == UnitText(u) + rest && ChrValue(ChrOf(u)) == UnitBytes(u)
  {
    hide Utf8, HexCode, HexSpells, HexValue, IsHex, Utf8Encodes, EscapeNames, ShortValue, IsShort;
    match u {
      case Itself(c) =>
      case Name(e, stands) =>
        NameStands(e, stands);
        assert "\\" + [e] == ['\\', e];
      case Code(a, b, c, d, h3, h2, h1, h0, bytes) =>
        HexIsSpelled(a, h3);
        HexIsSpelled(b, h2);
        HexIsSpelled(c, h1);
        HexIsSpelled(d, h0);
        CodeIs(a, b, c, d);
        Utf8Unique(bytes, HexCode(a, b, c, d));
        assert "\\u" + [a, b, c, d] == ['\\', 'u', a, b, c, d];
    }
  }

  lemma NameStands(e: char, stands: char)
    requires EscapeNames(e, stands as int)
    ensures IsShort(e) && ShortValue(e) == stands
  {
  }

  lemma CodeIs(a: char, b: char, c: char, d: char)
    ensures HexCode(a, b, c, d)
         == HexValue(a) * 0x1000 + HexValue(b) * 0x100 + HexValue(c) * 0x10 + HexValue(d)
  {
    hide HexValue;
  }

  lemma {:induction false} UnitsAreChars(us: seq<Unit>) returns (cs: seq<Chr>)
    requires forall i :: 0 <= i < |us| ==> UnitOk(us[i])
    ensures CharsOk(cs) && CharsText(cs, "") == Texts(us) + "\"" && CharsValue(cs) == Stands(us)
    decreases us
  {
    hide UnitOk, UnitText, UnitBytes, ChrOk, ChrText, ChrValue;
    if us == [] {
      cs := [];
      assert ['\"'] + "" == "\"";
    } else {
      var later := UnitsAreChars(us[1..]);
      cs := [ChrOf(us[0])] + later;
      assert cs[1..] == later;
      UnitIsChr(us[0], CharsText(later, ""));
      assert UnitText(us[0]) + (Texts(us[1..]) + "\"") == Texts(us) + "\"";
    }
  }

  // A quoted text is the bytes its characters and escapes stand for: a named escape its control character, a \u escape, in
  // either case of digits, the UTF-8 form of its code point.
  lemma StringsMean(us: seq<Unit>)
    requires forall i :: 0 <= i < |us| ==> UnitOk(us[i])
    ensures Parse("\"" + Texts(us) + "\"") == Read(String(Stands(us)))
  {
    hide UnitOk, Texts, Stands, CharsText, CharsOk, CharsValue, Parse;
    var cs := UnitsAreChars(us);
    LoneNode(Str(cs));
    assert NodeText(Str(cs), "") == "\"" + Texts(us) + "\"";
  }

  // ---- What may stand before a value

  function Shifted(r: Reading, n: nat): Reading {
    match r
    case Read(value) => Read(value)
    case Refused(what, offset) => Refused(what, offset + n)
  }

  // A piece of a gap in front changes nothing but the offset of an error.
  lemma PieceMeansNothing(p: Piece, s: string)
    requires PieceOk(p)
    ensures Parse(PieceText(p, s)) == Shifted(Parse(s), |PieceText(p, s)| - |s|)
    ensures |PieceText(p, s)| >= |s|
  {
    hide PieceText, PieceOk, NextPiece, ParseValue, NodeValue;
    PieceReadsBack(p, s);
    PieceGrows(p, s);
    assert SkipGap(PieceText(p, s)) == Behind(p, SkipGap(s));
  }

  lemma PieceGrows(p: Piece, s: string)
    ensures |PieceText(p, s)| >= |s|
  {
  }

  lemma SpaceMeansNothing(c: char, s: string)
    requires c as int == 32 || c as int == 9 || c as int == 10 || c as int == 13
    ensures Parse([c] + s) == Shifted(Parse(s), 1)
  {
    hide Parse;
    PieceMeansNothing(Space(c), s);
  }

  lemma LineCommentMeansNothing(body: string, s: string)
    requires forall i :: 0 <= i < |body| ==> body[i] as int != 10
    ensures Parse("//" + body + "\n" + s) == Shifted(Parse(s), |body| + 3)
  {
    hide Parse;
    PieceMeansNothing(Line(body), s);
    assert PieceText(Line(body), s) == "//" + body + "\n" + s;
  }

  lemma BlockCommentMeansNothing(body: string, s: string)
    requires forall i :: 0 <= i < |body| - 1 ==> !(body[i] == '*' && body[i + 1] == '/')
    ensures Parse("/*" + body + "*/" + s) == Shifted(Parse(s), |body| + 4)
  {
    hide Parse;
    PieceMeansNothing(Block(body), s);
    assert PieceText(Block(body), s) == "/*" + body + "*/" + s;
  }

  // A space, a bracket, a quote, the first letter of a word, a sign, a point or a digit.
  predicate MayStart(c: char) {
    || c == ' ' || c as int == 9 || c as int == 10 || c as int == 13
    || c == '{' || c == '[' || c == '\"' || c == 't' || c == 'f' || c == 'n'
    || c == '+' || c == '-' || c == '.' || '0' <= c <= '9'
  }

  // Nothing else can come first but a comment.
  lemma NothingElseStarts(c: char, s: string)
    requires !MayStart(c) && (c == '/' ==> s == "" || (s[0] != '/' && s[0] != '*'))
    ensures Parse([c] + s) == Refused(ExpectedValue, 0)
  {
    hide ParseChars, ParseBody, NodeValue;
    var text := [c] + s;
    assert text[0] == c && text[1..] == s;
    assert SkipGap(text) == Skipped([], Whole, text);
    assert ParseNumeral(text) == Err(ExpectedValue, |text|);
  }

  // ---- Containers

  // A text that is accepted, and does not end inside a comment.
  predicate Complete(s: string) {
    match ParseDocument(s)
    case Ok(d, _) => d.cut.Whole?
    case Err(_, _) => false
  }

  function DocumentOf(s: string): Document {
    match ParseDocument(s)
    case Ok(d, _) => d
    case Err(_, _) => Document([], Word(None), [], Whole)
  }

  function ValueOf(s: string): Value {
    match Parse(s)
    case Read(value) => value
    case Refused(_, _) => Null
  }

  function NameOf(s: string): string {
    match ValueOf(s)
    case String(name) => name
    case _ => ""
  }

  // What stands between two commas: a value, or a key and its value.
  datatype Part =
    | Single(value: string)
    | Pair(key: string, value: string)

  predicate PartOk(isObject: bool, p: Part) {
    match p
    case Single(value) => !isObject && Complete(value)
    case Pair(key, value) => isObject && Complete(key) && ValueOf(key).String? && Complete(value)
  }

  predicate PartsOk(isObject: bool, parts: seq<Part>) {
    forall i :: 0 <= i < |parts| ==> PartOk(isObject, parts[i])
  }

  function PartText(p: Part): string {
    match p
    case Single(value) => value
    case Pair(key, value) => key + ":" + value
  }

  function Joined(parts: seq<Part>): string {
    if parts == [] then ""
    else if |parts| == 1 then PartText(parts[0])
    else PartText(parts[0]) + "," + Joined(parts[1..])
  }

  function Items(parts: seq<Part>): seq<Value> {
    if parts == [] then [] else [ValueOf(parts[0].value)] + Items(parts[1..])
  }

  function Entries(parts: seq<Part>): seq<Member> {
    if parts == [] then []
    else (match parts[0]
          case Single(_) => []
          case Pair(key, value) => [Member(NameOf(key), ValueOf(value))]) + Entries(parts[1..])
  }

  // The gap a part starts with, and the key it has in the tree.
  function Lead(p: Part): Gap {
    match p
    case Single(value) => DocumentOf(value).before
    case Pair(key, _) => DocumentOf(key).before
  }

  function CharsOf(n: Node): seq<Chr> {
    match n
    case Str(chars) => chars
    case _ => []
  }

  function KeyPart(p: Part): Key {
    match p
    case Single(_) => NoKey
    case Pair(key, value) => Named(CharsOf(DocumentOf(key).root), DocumentOf(key).after, DocumentOf(value).before)
  }

  function BodyOf(parts: seq<Part>, trailing: bool): Body
    requires parts != []
  {
    var value := DocumentOf(parts[0].value);
    Entry(KeyPart(parts[0]), value.root, value.after,
          if |parts| > 1 then Comma(Lead(parts[1]), BodyOf(parts[1..], trailing)) else LastTail(trailing))
  }

  function LastTail(trailing: bool): Tail {
    if trailing then Comma([], End) else Close
  }

  // A complete text is its document's text, and can be followed by anything.
  lemma Followed(s: string, rest: string)
    requires Complete(s)
    ensures var d := DocumentOf(s);
      && GapOk(d.before) && NodeOk(d.root) && GapOk(d.after)
      && GapText(d.before, NodeText(d.root, GapText(d.after, rest))) == s + rest
      && ValueOf(s) == NodeValue(d.root)
  {
    hide ParseDocument, NodeText, GapText, NodeOk, GapOk, NodeValue;
    DocumentSound(s);
    var d := DocumentOf(s);
    assert CutText(d.cut) == "" && "" + rest == rest;
    GapAppends(d.after, "", rest);
    NodeAppends(d.root, GapText(d.after, ""), rest);
    GapAppends(d.before, NodeText(d.root, GapText(d.after, "")), rest);
  }

  lemma StringNode(n: Node, rest: string)
    requires NodeValue(n).String? && NodeOk(n)
    ensures NodeText(n, rest) == ['\"'] + CharsText(CharsOf(n), rest) && CharsOk(CharsOf(n))
    ensures NodeValue(n) == String(CharsValue(CharsOf(n)))
  {
  }

  lemma PartFollowed(isObject: bool, p: Part, rest: string)
    requires PartOk(isObject, p)
    ensures var value := DocumentOf(p.value);
      && KeyOk(isObject, KeyPart(p)) && NodeOk(value.root) && GapOk(value.after) && GapOk(Lead(p))
      && GapText(Lead(p), KeyText(KeyPart(p), NodeText(value.root, GapText(value.after, rest)))) == PartText(p) + rest
  {
    hide DocumentOf, NodeText, GapText, NodeOk, GapOk, CharsText, CharsOk, Complete, ValueOf, NodeValue;
    Followed(p.value, rest);
    match p {
      case Single(value) =>
      case Pair(key, value) =>
        var after := [':'] + (value + rest);
        Followed(key, after);
        StringNode(DocumentOf(key).root, GapText(DocumentOf(key).after, after));
        assert key + after == PartText(p) + rest;
    }
  }

  lemma PartMeans(isObject: bool, p: Part)
    requires PartOk(isObject, p)
    ensures NodeValue(DocumentOf(p.value).root) == ValueOf(p.value)
    ensures p.Pair? ==> KeyValue(KeyPart(p)) == NameOf(p.key)
  {
    hide DocumentOf, NodeText, GapText, NodeOk, GapOk, CharsText, CharsOk, Complete, ValueOf, NodeValue, CharsValue;
    Followed(p.value, "");
    match p {
      case Single(value) =>
      case Pair(key, value) =>
        Followed(key, "");
        StringNode(DocumentOf(key).root, "");
    }
  }

  function Ending(isObject: bool, trailing: bool): string {
    (if trailing then "," else "") + (if isObject then "}" else "]")
  }

  lemma LastTailIs(isObject: bool, trailing: bool)
    ensures var tail := LastTail(trailing);
      && TailOk(isObject, tail) && TailText(isObject, tail, "") == Ending(isObject, trailing)
      && TailItems(tail) == [] && TailEntries(tail) == []
  {
  }

  lemma CommaIs(isObject: bool, gap: Gap, body: Body)
    ensures var t := Comma(gap, body);
      && TailText(isObject, t, "") == "," + GapText(gap, BodyText(isObject, body, ""))
      && (TailOk(isObject, t) <==> GapOk(gap) && BodyOk(isObject, body))
      && TailItems(t) == BodyItems(body) && TailEntries(t) == BodyEntries(body)
  {
    hide GapText, GapOk;
  }

  // The parts after the first, with what closes the container.
  lemma {:induction false} TailIsJoined(isObject: bool, parts: seq<Part>, trailing: bool)
    requires parts != [] && PartsOk(isObject, parts)
    ensures var tail := BodyOf(parts, trailing).tail; var ending := Ending(isObject, trailing);
      && TailOk(isObject, tail)
      && PartText(parts[0]) + TailText(isObject, tail, "") == Joined(parts) + ending
      && TailItems(tail) == Items(parts[1..]) && (isObject ==> TailEntries(tail) == Entries(parts[1..]))
    decreases parts, 0
  {
    hide PartOk, DocumentOf, KeyPart, Lead, PartText, Ending, TailText, TailOk, LastTail, TailItems, TailEntries, ValueOf;
    hide BodyOk, BodyText, BodyItems, BodyEntries, NameOf;
    LastTailIs(isObject, trailing);
    if |parts| > 1 {
      assert PartsOk(isObject, parts[1..]);
      BodyIsJoined(isObject, parts[1..], trailing);
      CommaIs(isObject, Lead(parts[1]), BodyOf(parts[1..], trailing));
      JoinedOne(parts, Joined(parts[1..]), Ending(isObject, trailing));
    }
  }

  lemma JoinedOne(parts: seq<Part>, later: string, ending: string)
    requires |parts| > 1 && later == Joined(parts[1..])
    ensures PartText(parts[0]) + ("," + (later + ending)) == Joined(parts) + ending
  {
    hide PartText;
  }

  lemma {:induction false} BodyIsJoined(isObject: bool, parts: seq<Part>, trailing: bool)
    requires parts != [] && PartsOk(isObject, parts)
    ensures var body := BodyOf(parts, trailing);
      && GapOk(Lead(parts[0])) && BodyOk(isObject, body)
      && GapText(Lead(parts[0]), BodyText(isObject, body, "")) == Joined(parts) + Ending(isObject, trailing)
      && BodyItems(body) == Items(parts) && (isObject ==> BodyEntries(body) == Entries(parts))
    decreases parts, 1
  {
    hide PartOk, DocumentOf, KeyPart, Lead, PartText, Ending, TailText, TailOk, TailItems, TailEntries, ValueOf, NameOf;
    hide NodeText, NodeOk, NodeValue, KeyText, KeyOk, GapText, GapOk, KeyValue, LastTail, Joined;
    var tail := BodyOf(parts, trailing).tail;
    TailIsJoined(isObject, parts, trailing);
    PartFollowed(isObject, parts[0], TailText(isObject, tail, ""));
    PartMeans(isObject, parts[0]);
    if isObject {
      PartIsPair(parts[0]);
    }
  }

  lemma PartIsPair(p: Part)
    requires PartOk(true, p)
    ensures p.Pair?
  {
  }

  lemma Bracketed(isObject: bool, open: Gap, body: Body, inner: string)
    requires GapOk(open) && BodyOk(isObject, body) && GapText(open, BodyText(isObject, body, "")) == inner
    ensures Parse((if isObject then "{" else "[") + inner)
         == Read(if isObject then Object(BodyEntries(body)) else Array(BodyItems(body)))
  {
    hide Parse, BodyText, GapText, BodyOk, GapOk, BodyEntries, BodyItems;
    LoneNode(Container(isObject, open, body));
  }

  lemma ContainerMeans(isObject: bool, parts: seq<Part>, trailing: bool)
    requires PartsOk(isObject, parts) && (trailing ==> parts != [])
    ensures Parse((if isObject then "{" else "[") + (Joined(parts) + Ending(isObject, trailing)))
         == Read(if isObject then Object(Entries(parts)) else Array(Items(parts)))
  {
    hide Parse, PartOk, BodyText, BodyOk, GapText, GapOk, Lead, BodyItems, BodyEntries, Ending;
    if parts == [] {
      EmptyIs(isObject);
      Bracketed(isObject, [], End, Joined(parts) + Ending(isObject, trailing));
    } else {
      hide Joined, Items, Entries;
      BodyIsJoined(isObject, parts, trailing);
      Bracketed(isObject, Lead(parts[0]), BodyOf(parts, trailing), Joined(parts) + Ending(isObject, trailing));
    }
  }

  lemma EmptyIs(isObject: bool)
    ensures GapOk([]) && BodyOk(isObject, End) && BodyItems(End) == [] && BodyEntries(End) == []
    ensures GapText([], BodyText(isObject, End, "")) == "" + Ending(isObject, false)
  {
  }

  lemma Enclosed(open: string, joined: string, comma: string, close: string)
    ensures open + (joined + (comma + close)) == open + joined + comma + close
  {
    Regroup(open, joined, comma + close);
    Regroup(open + joined, comma, close);
  }

  // Square brackets around texts with commas between them, and perhaps one after, are the array of what the texts denote.
  lemma ArraysMean(parts: seq<Part>, trailing: bool)
    requires PartsOk(false, parts) && (trailing ==> parts != [])
    ensures Parse("[" + Joined(parts) + (if trailing then "," else "") + "]") == Read(Array(Items(parts)))
  {
    hide Parse, PartsOk, Joined, Items;
    ContainerMeans(false, parts, trailing);
    Enclosed("[", Joined(parts), if trailing then "," else "", "]");
  }

  // Curly brackets around key, colon and value texts are the object of those members, in order, repeated names included.
  lemma ObjectsMean(parts: seq<Part>, trailing: bool)
    requires PartsOk(true, parts) && (trailing ==> parts != [])
    ensures Parse("{" + Joined(parts) + (if trailing then "," else "") + "}") == Read(Object(Entries(parts)))
  {
    hide Parse, PartsOk, Joined, Entries;
    ContainerMeans(true, parts, trailing);
    Enclosed("{", Joined(parts), if trailing then "," else "", "}");
  }

  // ---- What is refused, and where

  // The text from the start of a value on is refused at this point.
  lemma ValueRefused(s: string, what: Complaint, left: nat)
    requires !StartsGap(s) && ParseValue(s) == Err(what, left)
    ensures left <= |s| && Parse(s) == Refused(what, |s| - left)
  {
    hide ParseValue, StartsGap;
    SkipReadsBack([], s);
    EmptyGapText(s);
  }

  lemma EmptyRefused()
    ensures Parse("") == Refused(UnexpectedEnd, 0)
  {
    ValueRefused("", UnexpectedEnd, 0);
  }

  // Text that starts like a word but is not one.
  lemma WordRefused(s: string)
    requires s != "" && (s[0] == 't' || s[0] == 'f' || s[0] == 'n')
    requires !("true" <= s) && !("false" <= s) && !("null" <= s)
    ensures Parse(s) == Refused(InvalidLiteral, 0)
  {
    hide ParseChars, ParseNumeral, ParseBody;
    ValueRefused(s, InvalidLiteral, |s|);
  }

  lemma {:induction false} CharsRefused(us: seq<Unit>, tail: string, what: Complaint, left: nat)
    requires (forall i :: 0 <= i < |us| ==> UnitOk(us[i])) && ParseChars(tail) == Err(what, left)
    ensures ParseChars(Texts(us) + tail) == Err(what, left)
    decreases us
  {
    hide UnitOk, UnitText, ParseChr, ChrOk, ChrText;
    if us == [] {
      assert Texts(us) + tail == tail;
    } else {
      var later := Texts(us[1..]) + tail;
      CharsRefused(us[1..], tail, what, left);
      UnitIsChr(us[0], later);
      ChrReadsBack(ChrOf(us[0]), later);
      Regroup(UnitText(us[0]), Texts(us[1..]), tail);
    }
  }

  lemma StringRefused(us: seq<Unit>, tail: string, what: Complaint, left: nat)
    requires (forall i :: 0 <= i < |us| ==> UnitOk(us[i])) && ParseChars(tail) == Err(what, left)
    ensures left <= |tail| && Parse("\"" + (Texts(us) + tail)) == Refused(what, 1 + |Texts(us)| + |tail| - left)
  {
    hide *;
    CharsRefused(us, tail, what, left);
    QuoteRefused(Texts(us) + tail, what, left);
  }

  lemma QuoteRefused(rest: string, what: Complaint, left: nat)
    requires ParseChars(rest) == Err(what, left)
    ensures left <= |rest| && Parse("\"" + rest) == Refused(what, 1 + |rest| - left)
  {
    hide ParseChars, ParseValue, Parse, StartsGap;
    var s := "\"" + rest;
    assert s[0] == '\"' && s[1..] == rest;
    QuotedIs(s, what, left);
    ValueRefused(s, what, left);
  }

  lemma QuotedIs(s: string, what: Complaint, left: nat)
    requires s != "" && s[0] == '\"' && ParseChars(s[1..]) == Err(what, left)
    ensures ParseValue(s) == Err(what, left) && !StartsGap(s)
  {
    hide ParseChars, ParseNumeral, ParseBody, ParseWord, SkipGap;
  }

  // A string that does not end, or ends in the middle of an escape; an escape that is none; too few characters for a \u
  // escape, or one among them that is no hexadecimal digit, which is read before it is refused.
  lemma StringsRefused(us: seq<Unit>, e: char, digits: string, c: char, s: string)
    requires forall i :: 0 <= i < |us| ==> UnitOk(us[i])
    ensures var at := 1 + |Texts(us)|;
      && Parse("\"" + (Texts(us) + "")) == Refused(UnterminatedString, at)
      && Parse("\"" + (Texts(us) + "\\")) == Refused(UnterminatedEscape, at + 1)
      && (e != 'u' && !EscapeLetter(e) ==>
            Parse("\"" + (Texts(us) + ("\\" + ([e] + s)))) == Refused(InvalidEscape, at + 2))
      && (|s| < 4 ==> Parse("\"" + (Texts(us) + ("\\u" + s))) == Refused(TruncatedUnicode, at + 2))
      && (AllHex(digits) && |digits| < 4 && !HexLetter(c) && |digits| + 1 + |s| >= 4 ==>
            Parse("\"" + (Texts(us) + ("\\u" + (digits + ([c] + s))))) == Refused(InvalidUnicode, at + 3 + |digits|))
  {
    hide UnitOk, Texts, Parse, ParseChars, ParseChr;
    EscapesRefused(e, s);
    StringRefused(us, "", UnterminatedString, 0);
    StringRefused(us, "\\", UnterminatedEscape, 0);
    if e != 'u' && !EscapeLetter(e) {
      StringRefused(us, "\\" + ([e] + s), InvalidEscape, |s|);
    }
    if |s| < 4 {
      StringRefused(us, "\\u" + s, TruncatedUnicode, |s|);
    }
    if AllHex(digits) && |digits| < 4 && !HexLetter(c) && |digits| + 1 + |s| >= 4 {
      UnicodeRefused(digits, c, s);
      StringRefused(us, "\\u" + (digits + ([c] + s)), InvalidUnicode, |s|);
    }
  }

  predicate EscapeLetter(e: char) {
    e == '\"' || e == '\\' || e == '/' || e == 'b' || e == 'f' || e == 'n' || e == 'r' || e == 't'
  }

  predicate HexLetter(c: char) {
    '0' <= c <= '9' || 'a' <= c <= 'f' || 'A' <= c <= 'F'
  }

  predicate AllHex(s: string) {
    forall i :: 0 <= i < |s| ==> HexLetter(s[i])
  }

  lemma EscapesRefused(e: char, s: string)
    ensures ParseChars("") == Err(UnterminatedString, 0) && ParseChars("\\") == Err(UnterminatedEscape, 0)
    ensures e != 'u' && !EscapeLetter(e) ==> ParseChars("\\" + ([e] + s)) == Err(InvalidEscape, |s|)
    ensures |s| < 4 ==> ParseChars("\\u" + s) == Err(TruncatedUnicode, |s|)
  {
    var t := "\\" + ([e] + s);
    assert t[0] == '\\' && t[1] == e && |t| == |s| + 2;
    var u := "\\u" + s;
    assert u[0] == '\\' && u[1] == 'u' && |u| == |s| + 2;
  }

  lemma UnicodeRefused(digits: string, c: char, s: string)
    requires AllHex(digits) && |digits| < 4 && !HexLetter(c) && |digits| + 1 + |s| >= 4
    ensures ParseChars("\\u" + (digits + ([c] + s))) == Err(InvalidUnicode, |s|)
  {
    var rest := digits + ([c] + s);
    var t := "\\u" + rest;
    assert t[0] == '\\' && t[1] == 'u' && t[2..] == rest;
    HexRunStops(rest, 0, |digits|);
  }

  lemma {:induction false} HexRunStops(s: string, i: nat, n: nat)
    requires i <= n < 4 <= |s| && (forall j :: 0 <= j < n ==> HexLetter(s[j])) && !HexLetter(s[n])
    ensures HexRun(s, i) == n
    decreases n - i
  {
    if i < n {
      HexRunStops(s, i + 1, n);
    }
  }

  // Neither a gap nor the rest of a number: what stands before this is over.
  predicate Separates(c: char, s: string) {
    && c != ' ' && c as int != 9 && c as int != 10 && c as int != 13 && !('0' <= c <= '9')
    && c != '.' && c != 'e' && c != 'E' && c != '+' && c != '-'
    && (c == '/' ==> s == "" || (s[0] != '/' && s[0] != '*'))
  }

  lemma SeparatesEnds(c: char, s: string)
    requires Separates(c, s)
    ensures EndsNumber([c] + s) && !StartsGap([c] + s)
  {
    var t := [c] + s;
    assert t[0] == c && (s != "" ==> t[1] == s[0]);
  }

  // A complete text, read where other text follows: its value, and the gap after it.
  lemma CompleteThen(x: string, rest: string)
    requires Complete(x) && EndsNumber(rest) && !StartsGap(rest)
    ensures var d := DocumentOf(x);
      && SkipGap(x + rest).rest == NodeText(d.root, GapText(d.after, rest))
      && ParseValue(NodeText(d.root, GapText(d.after, rest))) == Ok(d.root, GapText(d.after, rest))
      && SkipGap(GapText(d.after, rest)).rest == rest
  {
    hide DocumentOf, Complete, NodeText, NodeOk, GapText, GapOk, SkipGap, ParseValue, StartsGap, EndsNumber;
    Followed(x, rest);
    var d := DocumentOf(x);
    GapEndsNumber(d.after, rest);
    NodeReadsBack(d.root, GapText(d.after, rest));
    SkipReadsBack(d.after, rest);
    NodeStartsNoGap(d.root, GapText(d.after, rest));
    SkipReadsBack(d.before, NodeText(d.root, GapText(d.after, rest)));
  }

  // Anything after a complete value.
  lemma TrailingRefused(x: string, c: char, s: string)
    requires Complete(x) && Separates(c, s)
    ensures Parse(x + ([c] + s)) == Refused(TrailingContent, |x|)
  {
    hide Complete, DocumentOf, ParseValue, SkipGap, NodeText, GapText, Separates, StartsGap, EndsNumber;
    SeparatesEnds(c, s);
    CompleteThen(x, [c] + s);
  }

  // After the first element of an array, neither a comma nor the bracket.
  lemma ArrayRefused(x: string, c: char, s: string)
    requires Complete(x) && Separates(c, s) && c != ',' && c != ']'
    ensures Parse("[" + (x + ([c] + s))) == Refused(ExpectedSeparator(false), 1 + |x|)
  {
    hide Complete, DocumentOf, SkipGap, NodeText, NodeOk, GapText, GapOk, Separates, StartsGap, EndsNumber, ParseScalar;
    SeparatesEnds(c, s);
    var rest := [c] + s;
    CompleteThen(x, rest);
    Followed(x, rest);
    var d := DocumentOf(x);
    NodeStarts(d.root, GapText(d.after, rest));
    var text := "[" + (x + rest);
    assert text[0] == '[' && text[1..] == x + rest;
    ElementRefused(text, d.root, GapText(d.after, rest), rest);
    BracketIsNoGap(text);
    ValueRefused(text, ExpectedSeparator(false), |rest|);
  }

  lemma BracketIsNoGap(s: string)
    requires s != "" && (s[0] == '[' || s[0] == '{')
    ensures !StartsGap(s)
  {
  }

  lemma ElementRefused(text: string, root: Node, after: string, rest: string)
    requires text != "" && text[0] == '[' && rest != "" && rest[0] != ',' && rest[0] != ']'
    requires var s := SkipGap(text[1..]).rest; s != "" && s[0] != ']' && ParseValue(s) == Ok(root, after)
    requires SkipGap(after).rest == rest
    ensures ParseValue(text) == Err(ExpectedSeparator(false), |rest|)
  {
    hide SkipGap, ParseScalar;
    var s := SkipGap(text[1..]).rest;
    assert ParseKey(false, s) == Ok(NoKey, s);
    assert ParseTail(false, rest) == Err(ExpectedSeparator(false), |rest|);
    assert ParseBody(false, s) == Err(ExpectedSeparator(false), |rest|);
  }

  // After the opening brace, neither a quote nor the closing one.
  lemma KeyRefused(c: char, s: string)
    requires Separates(c, s) && c != '\"' && c != '}'
    ensures Parse("{" + ([c] + s)) == Refused(ExpectedKey, 1)
  {
    hide Separates, StartsGap, EndsNumber, ParseScalar, ParseTail;
    SeparatesEnds(c, s);
    var rest := [c] + s;
    var text := "{" + rest;
    assert text[0] == '{' && text[1..] == rest && rest[0] == c;
    SkipReadsBack([], rest);
    EmptyGapText(rest);
    assert ParseKey(true, rest) == Err(ExpectedKey, |rest|);
    assert ParseBody(true, rest) == Err(ExpectedKey, |rest|);
    BracketIsNoGap(text);
    ValueRefused(text, ExpectedKey, |rest|);
  }

  // After a key, no colon.
  lemma ColonRefused(key: string, c: char, s: string)
    requires Complete(key) && ValueOf(key).String? && Separates(c, s) && c != ':'
    ensures Parse("{" + (key + ([c] + s))) == Refused(ExpectedColon, 1 + |key|)
  {
    hide Complete, DocumentOf, SkipGap, NodeText, NodeOk, NodeValue, CharsText, CharsOk, GapText, GapOk, ValueOf;
    hide Separates, StartsGap, EndsNumber, ParseScalar;
    SeparatesEnds(c, s);
    var rest := [c] + s;
    CompleteThen(key, rest);
    Followed(key, rest);
    var d := DocumentOf(key);
    StringNode(d.root, GapText(d.after, rest));
    var text := "{" + (key + rest);
    assert text[0] == '{' && text[1..] == key + rest;
    NameRefused(text, CharsOf(d.root), GapText(d.after, rest), rest);
    BracketIsNoGap(text);
    ValueRefused(text, ExpectedColon, |rest|);
  }

  lemma NameRefused(text: string, chars: seq<Chr>, after: string, rest: string)
    requires text != "" && text[0] == '{' && rest != "" && rest[0] != ':' && CharsOk(chars)
    requires SkipGap(text[1..]).rest == ['\"'] + CharsText(chars, after) && SkipGap(after).rest == rest
    ensures ParseValue(text) == Err(ExpectedColon, |rest|)
  {
    hide SkipGap, ParseScalar, ParseChars, CharsText, CharsOk;
    var s := SkipGap(text[1..]).rest;
    CharsReadBack(chars, after);
    assert s[1..] == CharsText(chars, after);
    assert ParseKey(true, s) == Err(ExpectedColon, |rest|);
    assert ParseBody(true, s) == Err(ExpectedColon, |rest|);
  }
}
