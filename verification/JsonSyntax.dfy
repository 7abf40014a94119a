// The JSON dialect of src/json.cpp as a grammar: syntax trees, the text of a tree, and the value of a tree.
// Every text function takes what follows: NodeText(n, rest) is the text of n followed by rest.
// Text is a sequence of characters; a character below 256 stands for one byte.

module JsonSyntax {
  import opened Wrappers

  // Numbers are exact: rounding to a double is not modelled.
  datatype Value =
    | Null
    | Bool(b: bool)
    | Number(n: real)
    | String(s: string)
    | Array(items: seq<Value>)
    | Object(entries: seq<Member>)

  datatype Member = Member(name: string, value: Value)

  // ---- Gaps: what may stand between tokens

  datatype Piece =
    | Space(c: char)
    | Line(body: string)    // from "//" to the end of the line
    | Block(body: string)   // from "/*" to "*/"

  type Gap = seq<Piece>

  predicate IsSpace(c: char) {
    c == ' ' || c == '\t' || c == '\r' || c == '\n'
  }

  predicate ClosesAt(s: string, i: nat) {
    i + 1 < |s| && s[i] == '*' && s[i + 1] == '/'
  }

  // No end mark inside the comment.
  predicate NoEndMark(body: string) {
    forall i: nat :: i < |body| ==> !ClosesAt(body, i)
  }

  predicate PieceOk(p: Piece) {
    match p
    case Space(c) => IsSpace(c)
    case Line(body) => '\n' !in body
    case Block(body) => NoEndMark(body)
  }

  predicate GapOk(g: Gap) {
    forall i :: 0 <= i < |g| ==> PieceOk(g[i])
  }

  function PieceText(p: Piece, rest: string): string {
    match p
    case Space(c) => [c] + rest
    case Line(body) => ['/', '/'] + (body + (['\n'] + rest))
    case Block(body) => ['/', '*'] + (body + (['*', '/'] + rest))
  }

  function GapText(g: Gap, rest: string): string {
    if g == [] then rest else PieceText(g[0], GapText(g[1..], rest))
  }

  // ---- Strings (RFC 8259 section 7)

  datatype Chr =
    | Plain(c: char)
    | Short(e: char)
    | Hex(a: char, b: char, c: char, d: char)

  predicate IsShort(e: char) {
    e == '\"' || e == '\\' || e == '/' || e == 'b' || e == 'f' || e == 'n' || e == 'r' || e == 't'
  }

  function ShortValue(e: char): char {
    match e
    case 'b' => 8 as char
    case 'f' => 12 as char
    case 'n' => '\n'
    case 'r' => '\r'
    case 't' => '\t'
    case _ => e
  }

  predicate IsHex(c: char) {
    '0' <= c <= '9' || 'a' <= c <= 'f' || 'A' <= c <= 'F'
  }

  function HexValue(c: char): (n: nat)
    ensures n < 16
  {
    if '0' <= c <= '9' then c as int - '0' as int
    else if 'a' <= c <= 'f' then c as int - 'a' as int + 10
    else if 'A' <= c <= 'F' then c as int - 'A' as int + 10
    else 0
  }

  function HexCode(a: char, b: char, c: char, d: char): (n: nat)
    ensures n < 0x10000
  {
    HexValue(a) * 4096 + HexValue(b) * 256 + HexValue(c) * 16 + HexValue(d)
  }

  // The bytes of a code point below 0x10000; surrogates are encoded one by one, as the source does.
  function Utf8(code: nat): string
    requires code < 0x10000
  {
    if code < 0x80 then [code as char]
    else if code < 0x800 then [(0xC0 + code / 64) as char, (0x80 + code % 64) as char]
    else [(0xE0 + code / 4096) as char, (0x80 + code / 64 % 64) as char, (0x80 + code % 64) as char]
  }

  predicate ChrOk(c: Chr) {
    match c
    case Plain(c) => c != '\"' && c != '\\'
    case Short(e) => IsShort(e)
    case Hex(a, b, c, d) => IsHex(a) && IsHex(b) && IsHex(c) && IsHex(d)
  }

  predicate CharsOk(cs: seq<Chr>) {
    forall i :: 0 <= i < |cs| ==> ChrOk(cs[i])
  }

  function ChrText(c: Chr, rest: string): string {
    match c
    case Plain(c) => [c] + rest
    case Short(e) => ['\\', e] + rest
    case Hex(a, b, c, d) => ['\\', 'u', a, b, c, d] + rest
  }

  function ChrValue(c: Chr): string {
    match c
    case Plain(c) => [c]
    case Short(e) => [ShortValue(e)]
    case Hex(a, b, c, d) => Utf8(HexCode(a, b, c, d))
  }

  // The characters, the closing quote and what follows.
  function CharsText(cs: seq<Chr>, rest: string): string {
    if cs == [] then ['\"'] + rest else ChrText(cs[0], CharsText(cs[1..], rest))
  }

  function CharsValue(cs: seq<Chr>): string {
    if cs == [] then "" else ChrValue(cs[0]) + CharsValue(cs[1..])
  }

  // ---- Numbers: sign, digits, point, digits, exponent. An exponent mark without digits is accepted and means 0.

  datatype Numeral = Numeral(sign: string, whole: string, fraction: Option<string>, exponent: Option<Exponent>)

  datatype Exponent = Exponent(mark: char, sign: string, digits: string)

  predicate IsDigit(c: char) {
    '0' <= c <= '9'
  }

  predicate AllDigits(s: string) {
    forall i :: 0 <= i < |s| ==> IsDigit(s[i])
  }

  predicate IsSign(s: string) {
    s == "" || s == ['+'] || s == ['-']
  }

  function FractionDigits(f: Option<string>): string {
    if f.Some? then f.value else ""
  }

  predicate ExponentOk(e: Option<Exponent>) {
    match e
    case None => true
    case Some(x) => (x.mark == 'e' || x.mark == 'E') && IsSign(x.sign) && AllDigits(x.digits)
  }

  predicate NumeralOk(t: Numeral) {
    && IsSign(t.sign) && AllDigits(t.whole) && AllDigits(FractionDigits(t.fraction)) && ExponentOk(t.exponent)
    && (t.whole != "" || FractionDigits(t.fraction) != "")
  }

  function FractionText(f: Option<string>, rest: string): string {
    match f
    case None => rest
    case Some(digits) => ['.'] + (digits + rest)
  }

  function ExponentText(e: Option<Exponent>, rest: string): string {
    match e
    case None => rest
    case Some(x) => [x.mark] + (x.sign + (x.digits + rest))
  }

  function NumeralText(t: Numeral, rest: string): string {
    t.sign + (t.whole + FractionText(t.fraction, ExponentText(t.exponent, rest)))
  }

  function DigitsValue(s: string): int {
    if s == "" then 0 else 10 * DigitsValue(s[..|s| - 1]) + (s[|s| - 1] as int - '0' as int)
  }

  function Pow10(e: int): real
    decreases if e < 0 then -e else e
  {
    if e == 0 then 1.0 else if e > 0 then 10.0 * Pow10(e - 1) else Pow10(e + 1) / 10.0
  }

  function Negated(sign: string, n: int): int {
    if sign == ['-'] then -n else n
  }

  function ExponentValue(e: Option<Exponent>): int {
    match e
    case None => 0
    case Some(x) => Negated(x.sign, DigitsValue(x.digits))
  }

  function NumeralValue(t: Numeral): real {
    var digits := t.whole + FractionDigits(t.fraction);
    Negated(t.sign, DigitsValue(digits)) as real * Pow10(ExponentValue(t.exponent) - |FractionDigits(t.fraction)|)
  }

  // ---- Trees

  datatype Node =
    | Word(truth: Option<bool>)
    | Num(numeral: Numeral)
    | Str(chars: seq<Chr>)
    | Container(isObject: bool, open: Gap, body: Body)

  // What follows an opening bracket and its gap, or a comma and its gap; `End` after a comma is a trailing comma.
  datatype Body =
    | End
    | Entry(key: Key, value: Node, after: Gap, tail: Tail)

  datatype Tail =
    | Close
    | Comma(gap: Gap, body: Body)

  datatype Key =
    | NoKey
    | Named(chars: seq<Chr>, before: Gap, after: Gap)

  predicate NodeOk(n: Node)
    decreases n
  {
    match n
    case Word(_) => true
    case Num(numeral) => NumeralOk(numeral)
    case Str(chars) => CharsOk(chars)
    case Container(isObject, open, body) => GapOk(open) && BodyOk(isObject, body)
  }

  predicate KeyOk(isObject: bool, key: Key) {
    match key
    case NoKey => !isObject
    case Named(chars, before, after) => isObject && CharsOk(chars) && GapOk(before) && GapOk(after)
  }

  predicate BodyOk(isObject: bool, b: Body)
    decreases b
  {
    match b
    case End => true
    case Entry(key, value, after, tail) =>
      KeyOk(isObject, key) && NodeOk(value) && GapOk(after) && TailOk(isObject, tail)
  }

  predicate TailOk(isObject: bool, t: Tail)
    decreases t
  {
    match t
    case Close => true
    case Comma(gap, body) => GapOk(gap) && BodyOk(isObject, body)
  }

  function WordText(truth: Option<bool>): string {
    match truth
    case None => ['n', 'u', 'l', 'l']
    case Some(b) => if b then ['t', 'r', 'u', 'e'] else ['f', 'a', 'l', 's', 'e']
  }

  function OpenMark(isObject: bool): char {
    if isObject then '{' else '['
  }

  function CloseMark(isObject: bool): char {
    if isObject then '}' else ']'
  }

  function KeyText(key: Key, rest: string): string {
    match key
    case NoKey => rest
    case Named(chars, before, after) => ['\"'] + CharsText(chars, GapText(before, [':'] + GapText(after, rest)))
  }

  function NodeText(n: Node, rest: string): string
    decreases n
  {
    match n
    case Word(truth) => WordText(truth) + rest
    case Num(numeral) => NumeralText(numeral, rest)
    case Str(chars) => ['\"'] + CharsText(chars, rest)
    case Container(isObject, open, body) => [OpenMark(isObject)] + GapText(open, BodyText(isObject, body, rest))
  }

  function BodyText(isObject: bool, b: Body, rest: string): string
    decreases b
  {
    match b
    case End => [CloseMark(isObject)] + rest
    case Entry(key, value, after, tail) =>
      KeyText(key, NodeText(value, GapText(after, TailText(isObject, tail, rest))))
  }

  function TailText(isObject: bool, t: Tail, rest: string): string
    decreases t
  {
    match t
    case Close => [CloseMark(isObject)] + rest
    case Comma(gap, body) => [','] + GapText(gap, BodyText(isObject, body, rest))
  }

  function WordValue(truth: Option<bool>): Value {
    if truth.None? then Null else Bool(truth.value)
  }

  function KeyValue(key: Key): string {
    if key.NoKey? then "" else CharsValue(key.chars)
  }

  function NodeValue(n: Node): Value {
    match n
    case Word(truth) => WordValue(truth)
    case Num(numeral) => Number(NumeralValue(numeral))
    case Str(chars) => String(CharsValue(chars))
    case Container(isObject, _, body) => if isObject then Object(BodyEntries(body)) else Array(BodyItems(body))
  }

  function BodyItems(b: Body): seq<Value> {
    match b
    case End => []
    case Entry(_, value, _, tail) => [NodeValue(value)] + TailItems(tail)
  }

  function TailItems(t: Tail): seq<Value> {
    match t
    case Close => []
    case Comma(_, body) => BodyItems(body)
  }

  function BodyEntries(b: Body): seq<Member> {
    match b
    case End => []
    case Entry(key, value, _, tail) => [Member(KeyValue(key), NodeValue(value))] + TailEntries(tail)
  }

  function TailEntries(t: Tail): seq<Member> {
    match t
    case Close => []
    case Comma(_, body) => BodyEntries(body)
  }

  // ---- Whole texts: a value between two gaps, then possibly a comment that the end of the text cuts short

  datatype Document = Document(before: Gap, root: Node, after: Gap, cut: Cut)

  datatype Cut =
    | Whole
    | CutLine(body: string)
    | CutBlock(body: string)

  predicate CutOk(c: Cut) {
    match c
    case Whole => true
    case CutLine(body) => '\n' !in body
    case CutBlock(body) => NoEndMark(body)
  }

  function CutText(c: Cut): string {
    match c
    case Whole => ""
    case CutLine(body) => ['/', '/'] + body
    case CutBlock(body) => ['/', '*'] + body
  }

  predicate DocumentOk(d: Document) {
    GapOk(d.before) && NodeOk(d.root) && GapOk(d.after) && CutOk(d.cut)
  }

  function DocumentText(d: Document): string {
    GapText(d.before, NodeText(d.root, GapText(d.after, CutText(d.cut))))
  }

  // ---- Text functions put what follows at the end

  lemma Regroup(a: string, b: string, c: string)
    ensures a + (b + c) == (a + b) + c
  {
  }

  lemma PieceAppends(p: Piece, a: string, b: string)
    ensures PieceText(p, a + b) == PieceText(p, a) + b
  {
  }

  lemma {:induction false} GapAppends(g: Gap, a: string, b: string)
    ensures GapText(g, a + b) == GapText(g, a) + b
  {
    hide PieceText;
    if g != [] {
      GapAppends(g[1..], a, b);
      PieceAppends(g[0], GapText(g[1..], a), b);
    }
  }

  lemma ChrAppends(c: Chr, a: string, b: string)
    ensures ChrText(c, a + b) == ChrText(c, a) + b
  {
  }

  lemma {:induction false} CharsAppend(cs: seq<Chr>, a: string, b: string)
    ensures CharsText(cs, a + b) == CharsText(cs, a) + b
  {
    hide ChrText;
    if cs == [] {
      Regroup(['\"'], a, b);
    } else {
      CharsAppend(cs[1..], a, b);
      ChrAppends(cs[0], CharsText(cs[1..], a), b);
    }
  }

  lemma NumeralAppends(t: Numeral, a: string, b: string)
    ensures NumeralText(t, a + b) == NumeralText(t, a) + b
  {
    hide FractionText, ExponentText;
    ExponentAppends(t.exponent, a, b);
    var e := ExponentText(t.exponent, a);
    FractionAppends(t.fraction, e, b);
    var f := FractionText(t.fraction, e);
    Regroup(t.whole, f, b);
    Regroup(t.sign, t.whole + f, b);
  }

  lemma ExponentAppends(x: Option<Exponent>, a: string, b: string)
    ensures ExponentText(x, a + b) == ExponentText(x, a) + b
  {
    if x.Some? {
      Regroup(x.value.digits, a, b);
      Regroup(x.value.sign, x.value.digits + a, b);
      Regroup([x.value.mark], x.value.sign + (x.value.digits + a), b);
    }
  }

  lemma FractionAppends(f: Option<string>, a: string, b: string)
    ensures FractionText(f, a + b) == FractionText(f, a) + b
  {
    if f.Some? {
      Regroup(f.value, a, b);
      Regroup(['.'], f.value + a, b);
    }
  }

  lemma KeyAppends(k: Key, a: string, b: string)
    ensures KeyText(k, a + b) == KeyText(k, a) + b
  {
    hide GapText, CharsText;
    if k.Named? {
      GapAppends(k.after, a, b);
      var colon := [':'] + GapText(k.after, a);
      Regroup([':'], GapText(k.after, a), b);
      GapAppends(k.before, colon, b);
      CharsAppend(k.chars, GapText(k.before, colon), b);
      Regroup(['\"'], CharsText(k.chars, GapText(k.before, colon)), b);
    }
  }

  lemma {:induction false} NodeAppends(n: Node, a: string, b: string)
    ensures NodeText(n, a + b) == NodeText(n, a) + b
    decreases n
  {
    hide GapText, CharsText, NumeralText, BodyText, WordText;
    match n {
      case Word(truth) => Regroup(WordText(truth), a, b);
      case Num(numeral) => NumeralAppends(numeral, a, b);
      case Str(chars) =>
        CharsAppend(chars, a, b);
        Regroup(['\"'], CharsText(chars, a), b);
      case Container(isObject, open, body) =>
        BodyAppends(isObject, body, a, b);
        GapAppends(open, BodyText(isObject, body, a), b);
        Regroup([OpenMark(isObject)], GapText(open, BodyText(isObject, body, a)), b);
    }
  }

  lemma {:induction false} BodyAppends(isObject: bool, body: Body, a: string, b: string)
    ensures BodyText(isObject, body, a + b) == BodyText(isObject, body, a) + b
    decreases body
  {
    hide GapText, KeyText, NodeText, TailText;
    match body {
      case End => Regroup([CloseMark(isObject)], a, b);
      case Entry(key, value, after, tail) =>
        TailAppends(isObject, tail, a, b);
        var s3 := TailText(isObject, tail, a);
        GapAppends(after, s3, b);
        NodeAppends(value, GapText(after, s3), b);
        KeyAppends(key, NodeText(value, GapText(after, s3)), b);
    }
  }

  lemma {:induction false} TailAppends(isObject: bool, tail: Tail, a: string, b: string)
    ensures TailText(isObject, tail, a + b) == TailText(isObject, tail, a) + b
    decreases tail
  {
    hide GapText, BodyText;
    match tail {
      case Close => Regroup([CloseMark(isObject)], a, b);
      case Comma(gap, body) =>
        BodyAppends(isObject, body, a, b);
        GapAppends(gap, BodyText(isObject, body, a), b);
        Regroup([','], GapText(gap, BodyText(isObject, body, a)), b);
    }
  }
}
