// What the parser of src/json.cpp accepts, as functions on the text still to be read, and the proof that it is
// exactly the grammar of JsonSyntax: what is accepted is the text of a tree, and every tree's text is accepted.

module JsonReader {
  import opened Wrappers
  import opened JsonSyntax

  datatype Complaint =
    | UnexpectedEnd
    | InvalidLiteral
    | ExpectedValue
    | ExpectedKey
    | ExpectedColon
    | ExpectedSeparator(isObject: bool)
    | UnterminatedString
    | UnterminatedEscape
    | TruncatedUnicode
    | InvalidUnicode
    | InvalidEscape
    | TrailingContent

  // `left` is how much of the text lies after the place the error message names.
  datatype Outcome<+T> =
    | Ok(tree: T, rest: string)
    | Err(what: Complaint, left: nat)

  // ---- Gaps

  function NewlineAt(s: string): (n: nat)
    ensures n <= |s| && (forall i :: 0 <= i < n ==> s[i] != '\n') && (n < |s| ==> s[n] == '\n')
  {
    if s == "" || s[0] == '\n' then 0 else NewlineAt(s[1..]) + 1
  }

  function EndMarkAt(s: string): (n: nat)
    ensures n <= |s| && (forall i: nat :: i < n ==> !ClosesAt(s, i)) && (n < |s| ==> ClosesAt(s, n))
  {
    if s == "" || ClosesAt(s, 0) then 0
    else
      var n := EndMarkAt(s[1..]) + 1;
      assert forall i: nat :: 0 < i <= |s| ==> (ClosesAt(s, i) <==> ClosesAt(s[1..], i - 1));
      n
  }

  predicate Slashed(s: string, mark: char) {
    |s| >= 2 && s[0] == '/' && s[1] == mark
  }

  // The next piece of a gap, or what ends the gap: a comment cut short, or the text that follows.
  datatype Step =
    | Take(piece: Piece, rest: string)
    | Stop(cut: Cut, rest: string)

  function NextPiece(s: string): (r: Step)
    ensures if r.Take? then |r.rest| < |s| else |r.rest| <= |s|
  {
    if s == "" then Stop(Whole, "")
    else if IsSpace(s[0]) then Take(Space(s[0]), s[1..])
    else if Slashed(s, '/') then
      var n := NewlineAt(s[2..]);
      if n < |s[2..]| then Take(Line(s[2..][..n]), s[2..][n + 1..]) else Stop(CutLine(s[2..]), "")
    else if Slashed(s, '*') then
      var n := EndMarkAt(s[2..]);
      if n < |s[2..]| then Take(Block(s[2..][..n]), s[2..][n + 2..]) else Stop(CutBlock(s[2..]), "")
    else Stop(Whole, s)
  }

  datatype Skipped = Skipped(gap: Gap, cut: Cut, rest: string)

  function SkipGap(s: string): (k: Skipped)
    ensures |k.rest| <= |s|
  {
    match NextPiece(s)
    case Take(piece, rest) => Behind(piece, SkipGap(rest))
    case Stop(cut, rest) => Skipped([], cut, rest)
  }

  function Behind(p: Piece, k: Skipped): Skipped {
    k.(gap := [p] + k.gap)
  }

  // ---- Strings

  // How many of the first four characters are hexadecimal digits, up to the first that is not.
  function HexRun(s: string, i: nat): (n: nat)
    requires i <= 4 <= |s|
    ensures i <= n <= 4 && forall j :: i <= j < n ==> IsHex(s[j])
    ensures n < 4 ==> !IsHex(s[n])
    decreases 4 - i
  {
    if i == 4 || !IsHex(s[i]) then i else HexRun(s, i + 1)
  }

  // One character or escape.
  function ParseChr(s: string): (r: Outcome<Chr>)
    requires s != ""
    ensures if r.Ok? then |r.rest| < |s| else r.left <= |s|
  {
    if s[0] != '\\' then Ok(Plain(s[0]), s[1..])
    else if |s| == 1 then Err(UnterminatedEscape, 0)
    else if s[1] == 'u' then
      if |s| < 6 then Err(TruncatedUnicode, |s| - 2)
      else
        var n := HexRun(s[2..], 0);
        if n < 4 then Err(InvalidUnicode, |s| - 3 - n) else Ok(Hex(s[2], s[3], s[4], s[5]), s[6..])
    else if IsShort(s[1]) then Ok(Short(s[1]), s[2..])
    else Err(InvalidEscape, |s| - 2)
  }

  // What follows an opening quote.
  function ParseChars(s: string): (r: Outcome<seq<Chr>>)
    ensures if r.Ok? then |r.rest| < |s| else r.left <= |s|
    decreases |s|
  {
    if s == "" then Err(UnterminatedString, 0)
    else if s[0] == '\"' then Ok([], s[1..])
    else
      match ParseChr(s)
      case Err(what, left) => Err(what, left)
      case Ok(c, rest) =>
        match ParseChars(rest)
        case Err(what, left) => Err(what, left)
        case Ok(cs, rest') => Ok([c] + cs, rest')
  }

  // ---- Numbers

  function DigitRun(s: string): (n: nat)
    ensures n <= |s| && AllDigits(s[..n]) && (n < |s| ==> !IsDigit(s[n]))
  {
    if s == "" || !IsDigit(s[0]) then 0
    else
      var n := DigitRun(s[1..]) + 1;
      assert s[..n] == [s[0]] + s[1..][..n - 1];
      n
  }

  function SignRun(s: string): (n: nat)
    ensures n <= |s|
  {
    if s != "" && (s[0] == '-' || s[0] == '+') then 1 else 0
  }

  function ParseFraction(s: string): (r: (Option<string>, string))
    ensures |r.1| <= |s|
  {
    if s != "" && s[0] == '.' then
      var n := DigitRun(s[1..]);
      (Some(s[1..][..n]), s[1..][n..])
    else (None, s)
  }

  function ParseExponent(s: string): (r: (Option<Exponent>, string))
    ensures |r.1| <= |s|
  {
    if s != "" && (s[0] == 'e' || s[0] == 'E') then
      var i := SignRun(s[1..]);
      var n := DigitRun(s[1..][i..]);
      (Some(Exponent(s[0], s[1..][..i], s[1..][i..][..n])), s[1..][i..][n..])
    else (None, s)
  }

  function ParseNumeral(s: string): (r: Outcome<Numeral>)
    ensures if r.Ok? then |r.rest| < |s| else r.left <= |s|
  {
    var i := SignRun(s);
    var n := DigitRun(s[i..]);
    var f := ParseFraction(s[i..][n..]);
    if n == 0 && FractionDigits(f.0) == "" then Err(ExpectedValue, |f.1|)
    else
      var e := ParseExponent(f.1);
      Ok(Numeral(s[..i], s[i..][..n], f.0, e.0), e.1)
  }

  // ---- Values

  function ParseWord(truth: Option<bool>, s: string): (r: Outcome<Node>)
    ensures if r.Ok? then |r.rest| < |s| else r.left <= |s|
  {
    var word := WordText(truth);
    if |word| <= |s| && s[..|word|] == word then Ok(Word(truth), s[|word|..]) else Err(InvalidLiteral, |s|)
  }

  function ParseScalar(s: string): (r: Outcome<Node>)
    requires s != "" && s[0] != '{' && s[0] != '['
    ensures if r.Ok? then |r.rest| < |s| else r.left <= |s|
  {
    if s[0] == '\"' then
      match ParseChars(s[1..])
      case Err(what, left) => Err(what, left)
      case Ok(chars, rest) => Ok(Str(chars), rest)
    else if s[0] == 't' then ParseWord(Some(true), s)
    else if s[0] == 'f' then ParseWord(Some(false), s)
    else if s[0] == 'n' then ParseWord(None, s)
    else
      match ParseNumeral(s)
      case Err(what, left) => Err(what, left)
      case Ok(numeral, rest) => Ok(Num(numeral), rest)
  }

  // An object's key with its colon and the gaps around it; nothing in an array.
  function ParseKey(isObject: bool, s: string): (r: Outcome<Key>)
    ensures if r.Ok? then |r.rest| <= |s| else r.left <= |s|
  {
    if !isObject then Ok(NoKey, s)
    else if s == "" || s[0] != '\"' then Err(ExpectedKey, |s|)
    else
      match ParseChars(s[1..])
      case Err(what, left) => Err(what, left)
      case Ok(chars, rest) =>
        var before := SkipGap(rest);
        if before.rest == "" || before.rest[0] != ':' then Err(ExpectedColon, |before.rest|)
        else
          var after := SkipGap(before.rest[1..]);
          Ok(Named(chars, before.gap, after.gap), after.rest)
  }

  function ParseValue(s: string): (r: Outcome<Node>)
    ensures if r.Ok? then |r.rest| < |s| else r.left <= |s|
    decreases |s|, 0
  {
    if s == "" then Err(UnexpectedEnd, 0)
    else if s[0] == '{' || s[0] == '[' then
      var open := SkipGap(s[1..]);
      match ParseBody(s[0] == '{', open.rest)
      case Err(what, left) => Err(what, left)
      case Ok(body, rest) => Ok(Container(s[0] == '{', open.gap, body), rest)
    else ParseScalar(s)
  }

  function ParseBody(isObject: bool, s: string): (r: Outcome<Body>)
    ensures if r.Ok? then |r.rest| < |s| else r.left <= |s|
    decreases |s|, 1
  {
    if s != "" && s[0] == CloseMark(isObject) then Ok(End, s[1..])
    else
      match ParseKey(isObject, s)
      case Err(what, left) => Err(what, left)
      case Ok(key, s1) =>
        match ParseValue(s1)
        case Err(what, left) => Err(what, left)
        case Ok(value, s2) =>
          var after := SkipGap(s2);
          match ParseTail(isObject, after.rest)
          case Err(what, left) => Err(what, left)
          case Ok(tail, rest) => Ok(Entry(key, value, after.gap, tail), rest)
  }

  function ParseTail(isObject: bool, s: string): (r: Outcome<Tail>)
    ensures if r.Ok? then |r.rest| < |s| else r.left <= |s|
    decreases |s|, 0
  {
    if s != "" && s[0] == ',' then
      var gap := SkipGap(s[1..]);
      match ParseBody(isObject, gap.rest)
      case Err(what, left) => Err(what, left)
      case Ok(body, rest) => Ok(Comma(gap.gap, body), rest)
    else if s != "" && s[0] == CloseMark(isObject) then Ok(Close, s[1..])
    else Err(ExpectedSeparator(isObject), |s|)
  }

  function ParseDocument(s: string): (r: Outcome<Document>)
    ensures r.Err? ==> r.left <= |s|
  {
    var before := SkipGap(s);
    match ParseValue(before.rest)
    case Err(what, left) => Err(what, left)
    case Ok(root, rest) =>
      var after := SkipGap(rest);
      if after.rest != "" then Err(TrailingContent, |after.rest|)
      else Ok(Document(before.gap, root, after.gap, after.cut), "")
  }

  // ---- Gaps: skipping reads back a gap, and takes nothing else

  predicate StartsGap(s: string) {
    s != "" && (IsSpace(s[0]) || Slashed(s, '/') || Slashed(s, '*'))
  }

  lemma NewlineFound(body: string, rest: string)
    requires '\n' !in body
    ensures NewlineAt(body + (['\n'] + rest)) == |body|
  {
    var s := body + (['\n'] + rest);
    assert forall i :: 0 <= i < |body| ==> s[i] == body[i] && body[i] != '\n';
    assert s[|body|] == '\n';
  }

  lemma EndMarkFound(body: string, rest: string)
    requires NoEndMark(body)
    ensures EndMarkAt(body + (['*', '/'] + rest)) == |body|
  {
    var s := body + (['*', '/'] + rest);
    assert ClosesAt(s, |body|);
    assert forall i: nat :: i < |body| ==> (ClosesAt(s, i) <==> ClosesAt(body, i));
  }

  lemma NoEndMarkPrefix(s: string)
    ensures NoEndMark(s[..EndMarkAt(s)])
  {
    var n := EndMarkAt(s);
    assert forall i: nat :: i < n ==> (ClosesAt(s[..n], i) ==> ClosesAt(s, i));
  }

  lemma LineReadsBack(body: string, rest: string)
    requires '\n' !in body
    ensures NextPiece(PieceText(Line(body), rest)) == Take(Line(body), rest)
  {
    var s := PieceText(Line(body), rest);
    assert s[2..] == body + (['\n'] + rest);
    NewlineFound(body, rest);
    assert s[2..][..|body|] == body && s[2..][|body| + 1..] == rest;
  }

  lemma BlockReadsBack(body: string, rest: string)
    requires NoEndMark(body)
    ensures NextPiece(PieceText(Block(body), rest)) == Take(Block(body), rest)
  {
    hide NoEndMark;
    var s := PieceText(Block(body), rest);
    assert s[2..] == body + (['*', '/'] + rest);
    EndMarkFound(body, rest);
    assert s[2..][..|body|] == body && s[2..][|body| + 2..] == rest;
  }

  lemma PieceReadsBack(p: Piece, rest: string)
    requires PieceOk(p)
    ensures NextPiece(PieceText(p, rest)) == Take(p, rest)
  {
    hide NextPiece, PieceText, NoEndMark;
    match p {
      case Space(c) => SpaceReadsBack(c, rest);
      case Line(body) => LineReadsBack(body, rest);
      case Block(body) => BlockReadsBack(body, rest);
    }
  }

  lemma SpaceReadsBack(c: char, rest: string)
    requires IsSpace(c)
    ensures NextPiece(PieceText(Space(c), rest)) == Take(Space(c), rest)
  {
    assert ([c] + rest)[1..] == rest;
  }

  lemma {:induction false} SkipReadsBack(g: Gap, rest: string)
    requires GapOk(g) && !StartsGap(rest)
    ensures SkipGap(GapText(g, rest)) == Skipped(g, Whole, rest)
  {
    hide PieceOk, PieceText;
    if g != [] {
      hide NextPiece;
      PieceReadsBack(g[0], GapText(g[1..], rest));
      SkipReadsBack(g[1..], rest);
      assert [g[0]] + g[1..] == g;
    }
  }

  lemma {:induction false} SkipReadsBackCut(g: Gap, cut: Cut)
    requires GapOk(g) && CutOk(cut)
    ensures SkipGap(GapText(g, CutText(cut))) == Skipped(g, cut, "")
  {
    hide PieceOk, PieceText, NextPiece, CutText, CutOk;
    if g != [] {
      PieceReadsBack(g[0], GapText(g[1..], CutText(cut)));
      SkipReadsBackCut(g[1..], cut);
      assert [g[0]] + g[1..] == g;
    } else {
      CutReadsBack(cut);
    }
  }

  lemma CutReadsBack(cut: Cut)
    requires CutOk(cut)
    ensures NextPiece(CutText(cut)) == Stop(cut, "")
  {
    hide NoEndMark;
    var s := CutText(cut);
    match cut {
      case Whole =>
      case CutLine(body) =>
        assert s[2..] == body;
      case CutBlock(body) =>
        assert s[2..] == body;
        NoEndMarkNone(body);
    }
  }

  lemma NoEndMarkNone(s: string)
    requires NoEndMark(s)
    ensures EndMarkAt(s) == |s|
  {
  }

  ghost predicate StepSound(s: string, r: Step) {
    match r
    case Take(p, rest) => PieceOk(p) && s == PieceText(p, rest)
    case Stop(cut, rest) => CutOk(cut) && !StartsGap(rest) && (cut.Whole? || rest == "") && s == CutText(cut) + rest
  }

  lemma LineSound(s: string)
    requires Slashed(s, '/')
    ensures StepSound(s, NextPiece(s))
  {
    var n := NewlineAt(s[2..]);
    assert '\n' !in s[2..][..n];
    if n == |s[2..]| {
      assert s[2..][..n] == s[2..];
    }
  }

  lemma BlockSound(s: string)
    requires Slashed(s, '*')
    ensures StepSound(s, NextPiece(s))
  {
    hide NoEndMark;
    var n := EndMarkAt(s[2..]);
    NoEndMarkPrefix(s[2..]);
    if n == |s[2..]| {
      assert s[2..][..n] == s[2..];
    }
  }

  lemma StepIsSound(s: string)
    ensures StepSound(s, NextPiece(s))
  {
    if Slashed(s, '/') {
      LineSound(s);
    } else if Slashed(s, '*') {
      BlockSound(s);
    }
  }

  ghost predicate SkipSound(s: string, k: Skipped) {
    && GapOk(k.gap) && CutOk(k.cut) && !StartsGap(k.rest)
    && (k.cut.Whole? || k.rest == "")
    && s == GapText(k.gap, CutText(k.cut) + k.rest)
  }

  lemma {:induction false} SkipIsSound(s: string)
    ensures SkipSound(s, SkipGap(s))
    decreases |s|
  {
    hide PieceOk, PieceText, NextPiece, CutText, CutOk, StartsGap;
    StepIsSound(s);
    match NextPiece(s) {
      case Stop(cut, rest) =>
      case Take(p, rest) =>
        SkipIsSound(rest);
        assert ([p] + SkipGap(rest).gap)[1..] == SkipGap(rest).gap;
    }
  }

  // ---- Strings

  lemma ChrReadsBack(c: Chr, rest: string)
    requires ChrOk(c)
    ensures ChrText(c, rest)[0] != '\"' && ParseChr(ChrText(c, rest)) == Ok(c, rest)
  {
    var s := ChrText(c, rest);
    match c {
      case Plain(c) =>
        assert s[1..] == rest;
      case Short(e) =>
        assert s[2..] == rest;
      case Hex(a, b, c, d) =>
        assert s[6..] == rest;
        assert s[2..][0] == a && s[2..][1] == b && s[2..][2] == c && s[2..][3] == d;
    }
  }

  lemma {:induction false} CharsReadBack(cs: seq<Chr>, rest: string)
    requires CharsOk(cs)
    ensures ParseChars(CharsText(cs, rest)) == Ok(cs, rest)
  {
    hide ChrText, ChrOk, ParseChr;
    if cs == [] {
      assert (['\"'] + rest)[1..] == rest;
    } else {
      ChrReadsBack(cs[0], CharsText(cs[1..], rest));
      CharsReadBack(cs[1..], rest);
      assert [cs[0]] + cs[1..] == cs;
    }
  }

  lemma ChrSound(s: string)
    requires s != "" && s[0] != '\"' && ParseChr(s).Ok?
    ensures ChrOk(ParseChr(s).tree) && s == ChrText(ParseChr(s).tree, ParseChr(s).rest)
  {
    if s[0] == '\\' && s[1] == 'u' {
      assert forall j :: 0 <= j < 4 ==> IsHex(s[2..][j]);
      assert s[2..][0] == s[2] && s[2..][1] == s[3] && s[2..][2] == s[4] && s[2..][3] == s[5];
    }
  }

  lemma {:induction false} CharsSound(s: string)
    requires ParseChars(s).Ok?
    ensures CharsOk(ParseChars(s).tree) && s == CharsText(ParseChars(s).tree, ParseChars(s).rest)
    decreases |s|
  {
    hide ChrText, ChrOk, ParseChr;
    if s[0] != '\"' {
      ChrSound(s);
      var c := ParseChr(s);
      CharsSound(c.rest);
      var cs := ParseChars(c.rest).tree;
      assert ([c.tree] + cs)[1..] == cs;
    }
  }

  // ---- Numbers

  predicate NoDigit(s: string) {
    s == "" || !IsDigit(s[0])
  }

  // A number before this text ends where it does.
  predicate EndsNumber(s: string) {
    NoDigit(s) && (s == "" || (s[0] != '.' && s[0] != 'e' && s[0] != 'E' && s[0] != '+' && s[0] != '-'))
  }

  lemma {:induction false} DigitsReadBack(d: string, rest: string)
    requires AllDigits(d) && NoDigit(rest)
    ensures DigitRun(d + rest) == |d| && (d + rest)[..|d|] == d && (d + rest)[|d|..] == rest
  {
    if d != "" {
      DigitsReadBack(d[1..], rest);
      assert (d + rest)[1..] == d[1..] + rest;
    } else {
      assert d + rest == rest;
    }
  }

  lemma SignReadsBack(sign: string, rest: string)
    requires IsSign(sign) && SignRun(rest) == 0
    ensures SignRun(sign + rest) == |sign| && (sign + rest)[..|sign|] == sign && (sign + rest)[|sign|..] == rest
  {
    if sign == "" {
      assert sign + rest == rest;
    }
  }

  lemma ExponentReadsBack(e: Option<Exponent>, rest: string)
    requires ExponentOk(e) && EndsNumber(rest)
    ensures ParseExponent(ExponentText(e, rest)) == (e, rest)
    ensures NoDigit(ExponentText(e, rest)) && (ExponentText(e, rest) == "" || ExponentText(e, rest)[0] != '.')
  {
    if e.Some? {
      var x := e.value;
      assert ExponentText(e, rest)[1..] == x.sign + (x.digits + rest);
      DigitsReadBack(x.digits, rest);
      SignReadsBack(x.sign, x.digits + rest);
    }
  }

  lemma FractionReadsBack(f: Option<string>, rest: string)
    requires AllDigits(FractionDigits(f)) && NoDigit(rest) && (rest == "" || rest[0] != '.')
    ensures ParseFraction(FractionText(f, rest)) == (f, rest)
    ensures NoDigit(FractionText(f, rest))
  {
    if f.Some? {
      assert FractionText(f, rest)[1..] == f.value + rest;
      DigitsReadBack(f.value, rest);
    }
  }

  lemma NumeralReadsBack(t: Numeral, rest: string)
    requires NumeralOk(t) && EndsNumber(rest)
    ensures ParseNumeral(NumeralText(t, rest)) == Ok(t, rest)
  {
    hide ParseExponent, ParseFraction, ExponentOk, AllDigits, DigitRun;
    var e := ExponentText(t.exponent, rest);
    ExponentReadsBack(t.exponent, rest);
    FractionReadsBack(t.fraction, e);
    var f := FractionText(t.fraction, e);
    DigitsReadBack(t.whole, f);
    WholeStarts(t, f);
    SignReadsBack(t.sign, t.whole + f);
  }

  lemma WholeStarts(t: Numeral, f: string)
    requires NumeralOk(t) && (t.whole == "" ==> f != "" && f[0] == '.')
    ensures SignRun(t.whole + f) == 0
  {
    if t.whole != "" {
      assert IsDigit(t.whole[0]);
    }
  }

  // What starts a number, and so no other token.
  predicate StartsNumber(c: char) {
    IsDigit(c) || c == '.' || c == '+' || c == '-'
  }

  lemma NumeralStarts(t: Numeral, rest: string)
    requires NumeralOk(t)
    ensures NumeralText(t, rest) != "" && StartsNumber(NumeralText(t, rest)[0])
  {
    if t.sign == "" && t.whole != "" {
      assert IsDigit(t.whole[0]);
    }
  }

  lemma ExponentSound(s: string)
    ensures ExponentOk(ParseExponent(s).0) && s == ExponentText(ParseExponent(s).0, ParseExponent(s).1)
  {
    hide DigitRun, AllDigits;
    if s != "" && (s[0] == 'e' || s[0] == 'E') {
      var i := SignRun(s[1..]);
      var n := DigitRun(s[1..][i..]);
      assert s[1..][i..] == s[1..][i..][..n] + s[1..][i..][n..];
      assert s[1..] == s[1..][..i] + s[1..][i..];
      assert s == [s[0]] + s[1..];
    }
  }

  lemma FractionSound(s: string)
    ensures AllDigits(FractionDigits(ParseFraction(s).0)) && s == FractionText(ParseFraction(s).0, ParseFraction(s).1)
  {
    if s != "" && s[0] == '.' {
      var n := DigitRun(s[1..]);
      assert s[1..] == s[1..][..n] + s[1..][n..];
      assert s == [s[0]] + s[1..];
    }
  }

  lemma NumeralSound(s: string)
    requires ParseNumeral(s).Ok?
    ensures NumeralOk(ParseNumeral(s).tree) && s == NumeralText(ParseNumeral(s).tree, ParseNumeral(s).rest)
  {
    hide ParseExponent, ParseFraction, ExponentOk, AllDigits, DigitRun;
    var i := SignRun(s);
    var n := DigitRun(s[i..]);
    FractionSound(s[i..][n..]);
    ExponentSound(ParseFraction(s[i..][n..]).1);
    assert s[i..] == s[i..][..n] + s[i..][n..];
    assert s == s[..i] + s[i..];
  }

  // ---- Values: every tree's text is read back

  // A character that starts a value, and so no gap, comma, colon or closing bracket.
  predicate StartsValue(c: char) {
    c == '{' || c == '[' || c == '\"' || c == 't' || c == 'f' || c == 'n' || StartsNumber(c)
  }

  lemma NodeStarts(n: Node, rest: string)
    requires NodeOk(n)
    ensures NodeText(n, rest) != "" && StartsValue(NodeText(n, rest)[0])
  {
    hide NumeralText, CharsText, GapText, BodyText, NumeralOk;
    if n.Num? {
      NumeralStarts(n.numeral, rest);
    }
  }

  lemma BodyStarts(isObject: bool, b: Body, rest: string)
    requires BodyOk(isObject, b)
    ensures var s := BodyText(isObject, b, rest);
      && s != "" && !StartsGap(s)
      && (if b.End? then s[0] == CloseMark(isObject) else StartsValue(s[0]) && (isObject ==> s[0] == '\"'))
  {
    hide NodeText, NodeOk, CharsText, CharsOk, GapOk, GapText, TailText;
    if b.Entry? {
      NodeStarts(b.value, GapText(b.after, TailText(isObject, b.tail, rest)));
    }
  }

  lemma TailStarts(isObject: bool, t: Tail, rest: string)
    ensures var s := TailText(isObject, t, rest);
      && s != "" && !StartsGap(s) && EndsNumber(s) && s[0] == (if t.Close? then CloseMark(isObject) else ',')
  {
  }

  lemma GapEndsNumber(g: Gap, rest: string)
    requires GapOk(g) && EndsNumber(rest)
    ensures EndsNumber(GapText(g, rest))
  {
    if g != [] {
      assert PieceOk(g[0]);
    }
  }

  lemma WordReadsBack(truth: Option<bool>, rest: string)
    ensures ParseValue(NodeText(Word(truth), rest)) == Ok(Word(truth), rest)
  {
    hide ParseNumeral, ParseChars;
    var s := WordText(truth) + rest;
    var n := |WordText(truth)|;
    assert s[..n] == WordText(truth) && s[n..] == rest;
  }

  lemma NumReadsBack(t: Numeral, rest: string)
    requires NumeralOk(t) && EndsNumber(rest)
    ensures ParseValue(NodeText(Num(t), rest)) == Ok(Num(t), rest)
  {
    hide ParseNumeral, ParseChars, ParseWord, NumeralText, NumeralOk;
    NumeralReadsBack(t, rest);
    NumeralStarts(t, rest);
  }

  lemma StrReadsBack(chars: seq<Chr>, rest: string)
    requires CharsOk(chars)
    ensures ParseValue(NodeText(Str(chars), rest)) == Ok(Str(chars), rest)
  {
    hide ParseNumeral, ParseChars, ParseWord, CharsText, CharsOk;
    CharsReadBack(chars, rest);
    assert (['\"'] + CharsText(chars, rest))[1..] == CharsText(chars, rest);
  }

  lemma KeyReadsBack(isObject: bool, key: Key, rest: string)
    requires KeyOk(isObject, key) && !StartsGap(rest)
    ensures ParseKey(isObject, KeyText(key, rest)) == Ok(key, rest)
  {
    hide ParseChars, SkipGap, GapText, CharsText, CharsOk, GapOk;
    if isObject {
      var after := GapText(key.after, rest);
      var before := GapText(key.before, [':'] + after);
      CharsReadBack(key.chars, before);
      SkipReadsBack(key.before, [':'] + after);
      SkipReadsBack(key.after, rest);
      assert (['\"'] + CharsText(key.chars, before))[1..] == CharsText(key.chars, before);
      assert ([':'] + after)[1..] == after;
    }
  }

  lemma {:induction false} NodeReadsBack(n: Node, rest: string)
    requires NodeOk(n) && EndsNumber(rest)
    ensures ParseValue(NodeText(n, rest)) == Ok(n, rest)
    decreases n
  {
    hide ParseBody, ParseScalar, BodyText, SkipGap, GapText, EndsNumber, StartsGap, StartsValue, NumeralOk, GapOk, CharsOk;
    match n {
      case Word(truth) => WordReadsBack(truth, rest);
      case Num(numeral) => NumReadsBack(numeral, rest);
      case Str(chars) => StrReadsBack(chars, rest);
      case Container(isObject, open, body) =>
        var inner := BodyText(isObject, body, rest);
        BodyStarts(isObject, body, rest);
        SkipReadsBack(open, inner);
        BodyReadsBack(isObject, body, rest);
        assert ([OpenMark(isObject)] + GapText(open, inner))[1..] == GapText(open, inner);
    }
  }

  lemma {:induction false} BodyReadsBack(isObject: bool, b: Body, rest: string)
    requires BodyOk(isObject, b)
    ensures ParseBody(isObject, BodyText(isObject, b, rest)) == Ok(b, rest)
    decreases b
  {
    hide ParseValue, ParseTail, ParseKey, NodeText, NodeOk, TailText, SkipGap, GapText, EndsNumber, StartsGap;
    hide GapOk, KeyText, KeyOk;
    BodyStarts(isObject, b, rest);
    match b {
      case End =>
        assert ([CloseMark(isObject)] + rest)[1..] == rest;
      case Entry(key, value, after, tail) =>
        var s3 := TailText(isObject, tail, rest);
        var s2 := GapText(after, s3);
        var s1 := NodeText(value, s2);
        TailStarts(isObject, tail, rest);
        GapEndsNumber(after, s3);
        NodeStartsNoGap(value, s2);
        KeyReadsBack(isObject, key, s1);
        NodeReadsBack(value, s2);
        SkipReadsBack(after, s3);
        TailReadsBack(isObject, tail, rest);
    }
  }

  lemma NodeStartsNoGap(n: Node, rest: string)
    requires NodeOk(n)
    ensures !StartsGap(NodeText(n, rest))
  {
    hide NodeText, NodeOk;
    NodeStarts(n, rest);
  }

  lemma {:induction false} TailReadsBack(isObject: bool, t: Tail, rest: string)
    requires TailOk(isObject, t)
    ensures ParseTail(isObject, TailText(isObject, t, rest)) == Ok(t, rest)
    decreases t
  {
    hide ParseBody, BodyText, SkipGap, GapText, StartsGap, GapOk, BodyOk;
    match t {
      case Close =>
        assert ([CloseMark(isObject)] + rest)[1..] == rest;
      case Comma(gap, body) =>
        var inner := BodyText(isObject, body, rest);
        BodyStarts(isObject, body, rest);
        SkipReadsBack(gap, inner);
        BodyReadsBack(isObject, body, rest);
        assert ([','] + GapText(gap, inner))[1..] == GapText(gap, inner);
    }
  }

  // ---- Values: what is read is the text of a tree

  lemma GapSound(s: string)
    requires SkipGap(s).rest != ""
    ensures GapOk(SkipGap(s).gap) && s == GapText(SkipGap(s).gap, SkipGap(s).rest)
  {
    hide SkipGap, GapOk, GapText, StartsGap;
    SkipIsSound(s);
    assert "" + SkipGap(s).rest == SkipGap(s).rest;
  }

  lemma WordSound(truth: Option<bool>, s: string)
    requires ParseWord(truth, s).Ok?
    ensures s == NodeText(ParseWord(truth, s).tree, ParseWord(truth, s).rest) && NodeOk(ParseWord(truth, s).tree)
  {
    var n := |WordText(truth)|;
    assert s == s[..n] + s[n..];
  }

  lemma ScalarSound(s: string)
    requires s != "" && s[0] != '{' && s[0] != '[' && ParseScalar(s).Ok?
    ensures NodeOk(ParseScalar(s).tree) && s == NodeText(ParseScalar(s).tree, ParseScalar(s).rest)
  {
    hide ParseChars, ParseNumeral, ParseWord, WordText, NumeralText, NumeralOk, CharsText, CharsOk;
    if s[0] == '\"' {
      CharsSound(s[1..]);
      assert s == [s[0]] + s[1..];
    } else if s[0] == 't' {
      WordSound(Some(true), s);
    } else if s[0] == 'f' {
      WordSound(Some(false), s);
    } else if s[0] == 'n' {
      WordSound(None, s);
    } else {
      NumeralSound(s);
    }
  }

  lemma KeySound(isObject: bool, s: string)
    requires ParseKey(isObject, s).Ok? && ParseKey(isObject, s).rest != ""
    ensures var r := ParseKey(isObject, s); KeyOk(isObject, r.tree) && s == KeyText(r.tree, r.rest)
  {
    hide ParseChars, SkipGap, GapText, CharsText, CharsOk, GapOk;
    if isObject {
      var chars := ParseChars(s[1..]);
      CharsSound(s[1..]);
      var before := SkipGap(chars.rest);
      GapSound(chars.rest);
      GapSound(before.rest[1..]);
      assert before.rest == [':'] + before.rest[1..];
      assert s == ['\"'] + s[1..];
    }
  }

  lemma {:induction false} NodeSound(s: string)
    requires ParseValue(s).Ok?
    ensures NodeOk(ParseValue(s).tree) && s == NodeText(ParseValue(s).tree, ParseValue(s).rest)
    decreases |s|, 0
  {
    hide ParseBody, ParseScalar, BodyText, BodyOk, SkipGap, GapText, GapOk;
    if s[0] == '{' || s[0] == '[' {
      var open := SkipGap(s[1..]);
      var body := ParseBody(s[0] == '{', open.rest);
      BodySound(s[0] == '{', open.rest);
      GapSound(s[1..]);
      assert s == [s[0]] + s[1..];
    } else {
      ScalarSound(s);
    }
  }

  lemma {:induction false} BodySound(isObject: bool, s: string)
    requires ParseBody(isObject, s).Ok?
    ensures var r := ParseBody(isObject, s); BodyOk(isObject, r.tree) && s == BodyText(isObject, r.tree, r.rest)
    decreases |s|, 1
  {
    hide ParseValue, ParseTail, ParseKey, NodeText, NodeOk, TailText, TailOk, SkipGap, GapText, GapOk, KeyText, KeyOk;
    if s != "" && s[0] == CloseMark(isObject) {
      assert s == [CloseMark(isObject)] + s[1..];
    } else {
      var key := ParseKey(isObject, s);
      var value := ParseValue(key.rest);
      var after := SkipGap(value.rest);
      var tail := ParseTail(isObject, after.rest);
      KeySound(isObject, s);
      NodeSound(key.rest);
      GapSound(value.rest);
      TailSound(isObject, after.rest);
    }
  }

  lemma {:induction false} TailSound(isObject: bool, s: string)
    requires ParseTail(isObject, s).Ok?
    ensures var r := ParseTail(isObject, s); TailOk(isObject, r.tree) && s == TailText(isObject, r.tree, r.rest)
    decreases |s|, 0
  {
    hide ParseBody, BodyText, BodyOk, SkipGap, GapText, GapOk;
    if s[0] == ',' {
      BodySound(isObject, SkipGap(s[1..]).rest);
      GapSound(s[1..]);
      assert s == [','] + s[1..];
    } else {
      assert s == [CloseMark(isObject)] + s[1..];
    }
  }

  // ---- Whole texts

  lemma DocumentReadsBack(d: Document)
    requires DocumentOk(d)
    ensures ParseDocument(DocumentText(d)) == Ok(d, "")
  {
    hide SkipGap, ParseValue, NodeText, NodeOk, GapText, GapOk, CutText, CutOk, StartsGap, EndsNumber;
    var s2 := GapText(d.after, CutText(d.cut));
    var s1 := NodeText(d.root, s2);
    NodeStartsNoGap(d.root, s2);
    SkipReadsBack(d.before, s1);
    DocumentEnds(d.after, d.cut);
    NodeReadsBack(d.root, s2);
    SkipReadsBackCut(d.after, d.cut);
  }

  lemma DocumentEnds(after: Gap, cut: Cut)
    requires GapOk(after)
    ensures EndsNumber(GapText(after, CutText(cut)))
  {
    GapEndsNumber(after, CutText(cut));
  }

  lemma DocumentSound(s: string)
    requires ParseDocument(s).Ok?
    ensures DocumentOk(ParseDocument(s).tree) && s == DocumentText(ParseDocument(s).tree)
  {
    hide SkipGap, ParseValue, NodeText, NodeOk, GapText, GapOk, StartsGap, EndsNumber, CutOk, CutText;
    var before := SkipGap(s);
    var root := ParseValue(before.rest);
    GapSound(s);
    NodeSound(before.rest);
    SkipIsSound(root.rest);
    var cut := SkipGap(root.rest).cut;
    assert CutText(cut) + "" == CutText(cut);
  }

  // The text is accepted exactly when it is the text of a document, and then with that document and no other.
  lemma AcceptedExactly(s: string, d: Document)
    ensures ParseDocument(s) == Ok(d, "") <==> DocumentOk(d) && s == DocumentText(d)
  {
    hide *;
    if ParseDocument(s) == Ok(d, "") {
      DocumentSound(s);
    }
    if DocumentOk(d) && s == DocumentText(d) {
      DocumentReadsBack(d);
    }
  }

  // ---- The value read, or where reading stopped

  datatype Reading =
    | Read(value: Value)
    | Refused(what: Complaint, offset: nat)

  function Parse(text: string): (r: Reading)
    ensures r.Refused? ==> r.offset <= |text|
  {
    match ParseDocument(text)
    case Ok(d, _) => Read(NodeValue(d.root))
    case Err(what, left) => Refused(what, |text| - left)
  }

  // Two documents with the same tokens, up to trailing commas, have the same value: comments and layout mean nothing.
  function Bare(n: Node): Node
    decreases n
  {
    match n
    case Container(isObject, _, body) => Container(isObject, [], BareBody(body))
    case _ => n
  }

  function BareBody(b: Body): Body
    decreases b
  {
    match b
    case End => End
    case Entry(key, value, _, tail) => Entry(BareKey(key), Bare(value), [], BareTail(tail))
  }

  function BareTail(t: Tail): Tail
    decreases t
  {
    match t
    case Close => Close
    case Comma(_, End) => Close
    case Comma(_, body) => Comma([], BareBody(body))
  }

  function BareKey(k: Key): Key {
    match k
    case NoKey => NoKey
    case Named(chars, _, _) => Named(chars, [], [])
  }

  lemma {:induction false} BareKeepsValue(n: Node)
    ensures NodeValue(Bare(n)) == NodeValue(n)
    decreases n
  {
    if n.Container? {
      BareBodyKeepsValue(n.body);
    }
  }

  lemma {:induction false} BareBodyKeepsValue(b: Body)
    ensures BodyItems(BareBody(b)) == BodyItems(b) && BodyEntries(BareBody(b)) == BodyEntries(b)
    decreases b
  {
    if b.Entry? {
      BareKeepsValue(b.value);
      BareTailKeepsValue(b.tail);
      assert KeyValue(BareKey(b.key)) == KeyValue(b.key);
    }
  }

  lemma {:induction false} BareTailKeepsValue(t: Tail)
    ensures TailItems(BareTail(t)) == TailItems(t) && TailEntries(BareTail(t)) == TailEntries(t)
    decreases t
  {
    if t.Comma? {
      BareBodyKeepsValue(t.body);
    }
  }

  lemma LayoutMeansNothing(d: Document, e: Document)
    requires DocumentOk(d) && DocumentOk(e) && Bare(d.root) == Bare(e.root)
    ensures Parse(DocumentText(d)) == Parse(DocumentText(e)) == Read(NodeValue(d.root))
  {
    hide ParseDocument, DocumentText, DocumentOk, Bare, NodeValue;
    DocumentReadsBack(d);
    DocumentReadsBack(e);
    BareKeepsValue(d.root);
    BareKeepsValue(e.root);
  }
}
