// src/sigscan.cpp as it is written: the pattern parser filling a Pattern, and the search that jumps to the next occurrence
// of the first byte.

module Scanner {
  import opened Wrappers
  import opened Bytes
  import P = PatternSyntax

  // ---- What there is to find

  // The pattern matches at `at`, within the image up to `end`.
  predicate MatchesAt(cells: seq<P.Cell>, image: seq<byte>, end: nat, at: nat) {
    at + |cells| <= end <= |image| && forall i :: 0 <= i < |cells| && cells[i].Some? ==> image[at + i] == cells[i].value
  }

  // All matches from `from` on, in increasing order.
  function Matches(cells: seq<P.Cell>, image: seq<byte>, end: nat, from: nat): seq<nat>
    decreases |image| - from
  {
    if from >= |image| then []
    else (if MatchesAt(cells, image, end, from) then [from] else []) + Matches(cells, image, end, from + 1)
  }

  lemma {:induction false} MatchesAreAll(cells: seq<P.Cell>, image: seq<byte>, end: nat, from: nat, at: nat)
    requires cells != []
    ensures at in Matches(cells, image, end, from) <==> from <= at && MatchesAt(cells, image, end, at)
    decreases |image| - from
  {
    hide MatchesAt;
    if from < |image| {
      MatchesAreAll(cells, image, end, from + 1, at);
    } else if from <= at {
      NoMatchPastEnd(cells, image, end, at);
    }
  }

  lemma NoMatchPastEnd(cells: seq<P.Cell>, image: seq<byte>, end: nat, at: nat)
    requires cells != [] && at >= |image|
    ensures !MatchesAt(cells, image, end, at)
  {
  }

  predicate Increasing(m: seq<nat>, from: nat) {
    (forall i :: 0 <= i < |m| ==> from <= m[i]) && (forall i, j :: 0 <= i < j < |m| ==> m[i] < m[j])
  }

  lemma PutBefore(first: nat, m: seq<nat>)
    requires Increasing(m, first + 1)
    ensures Increasing([first] + m, first)
  {
  }

  lemma {:induction false} MatchesIncrease(cells: seq<P.Cell>, image: seq<byte>, end: nat, from: nat)
    ensures Increasing(Matches(cells, image, end, from), from)
    decreases |image| - from
  {
    hide MatchesAt;
    if from < |image| {
      MatchesIncrease(cells, image, end, from + 1);
      if MatchesAt(cells, image, end, from) {
        PutBefore(from, Matches(cells, image, end, from + 1));
      }
    }
  }

  // Nothing matches before the next match.
  lemma {:induction false} SkipTo(cells: seq<P.Cell>, image: seq<byte>, end: nat, from: nat, to: nat)
    requires from <= to <= |image| && forall at: nat :: from <= at < to ==> !MatchesAt(cells, image, end, at)
    ensures Matches(cells, image, end, from) == Matches(cells, image, end, to)
    decreases |image| - from
  {
    hide MatchesAt;
    if from < to {
      SkipTo(cells, image, end, from + 1, to);
    }
  }

  // ---- The pattern object

  function CellsOf(bytes: seq<byte>, wildcard: seq<bool>): (cells: seq<P.Cell>)
    requires |bytes| == |wildcard|
    ensures |cells| == |bytes| && forall i :: 0 <= i < |bytes| ==> cells[i] == if wildcard[i] then None else Some(bytes[i])
  {
    if bytes == [] then []
    else
      var n := |bytes| - 1;
      CellsOf(bytes[..n], wildcard[..n]) + [if wildcard[n] then None else Some(bytes[n])]
  }

  class Pattern {
    var bytes: seq<byte>
    var wildcard: seq<bool>

    constructor ()
      ensures bytes == [] && wildcard == []
    {
      bytes, wildcard := [], [];
    }

    ghost predicate Valid()
      reads this
    {
      |bytes| == |wildcard|
    }

    ghost function Value(): seq<P.Cell>
      requires Valid()
      reads this
    {
      CellsOf(bytes, wildcard)
    }

    method Push(b: byte, wild: bool)
      requires Valid()
      modifies this
      ensures Valid() && Value() == old(Value()) + [if wild then None else Some(b)]
    {
      bytes := bytes + [b];
      wildcard := wildcard + [wild];
      assert bytes[..|bytes| - 1] == old(bytes) && wildcard[..|bytes| - 1] == old(wildcard);
    }
  }

  // The cells read so far, and what remains of the text.
  ghost predicate CellsSoFar(cells: seq<P.Cell>, s0: string, s: string) {
    match P.ReadItems(s0)
    case Read(items) => P.ReadItems(s).Read? && P.Cells(items) == cells + P.Cells(P.ReadItems(s).value)
    case Refused(why) => P.ReadItems(s) == P.Refused(why)
  }

  function CellOf(i: P.Item): seq<P.Cell> {
    match i
    case Any(_) => [None]
    case Pair(high, low) => if P.ItemOk(i) then [Some(P.HexDigit(high) * 16 + P.HexDigit(low))] else []
    case _ => []
  }

  lemma CellsOfCons(i: P.Item, items: seq<P.Item>)
    ensures P.Cells([i] + items) == CellOf(i) + P.Cells(items)
  {
    assert ([i] + items)[1..] == items;
  }

  lemma ItemGoesOn(cells: seq<P.Cell>, s0: string, s: string)
    requires CellsSoFar(cells, s0, s) && s != ""
    ensures var r := P.ReadItem(s);
      if r.Refused? then P.ReadItems(s0) == P.Refused(r.why)
      else CellsSoFar(cells + CellOf(r.value), s0, s[P.Width(r.value)..])
  {
    hide P.ReadItem, P.Cells, CellOf, P.Width, P.ItemText;
    var r := P.ReadItem(s);
    if r.Read? {
      var later := P.ReadItems(s[P.Width(r.value)..]);
      if later.Read? {
        CellsOfCons(r.value, later.value);
        assert cells + (CellOf(r.value) + P.Cells(later.value)) == (cells + CellOf(r.value)) + P.Cells(later.value);
      }
    }
  }

  // One turn of the parser's loop, at text[i..].
  method ParseItem(text: string, i: nat, out: Pattern) returns (next: nat, error: Option<P.Refusal>)
    requires i < |text| && out.Valid()
    modifies out
    ensures out.Valid()
    ensures var r := P.ReadItem(text[i..]);
      if r.Refused? then error == Some(r.why) && out.Value() == old(out.Value())
      else error == None && next == i + P.Width(r.value) <= |text| && out.Value() == old(out.Value()) + CellOf(r.value)
  {
    var c := text[i];
    assert text[i..][0] == c && (i + 1 < |text| ==> text[i..][1] == text[i + 1]);
    assert out.Value() + [] == out.Value();
    next, error := i, None;
    if P.IsBlank(c) {
      next := i + 1;
    } else if c == '\\' && i + 1 < |text| && (text[i + 1] == 'x' || text[i + 1] == 'X') {
      next := i + 2;
    } else if c == '0' && i + 1 < |text| && (text[i + 1] == 'x' || text[i + 1] == 'X') {
      next := i + 2;
    } else if c == '?' {
      out.Push(0, true);
      next := i + 1;
      if next < |text| && text[next] == '?' {
        next := next + 1;
      }
    } else {
      var high := P.HexDigit(c);
      if high < 0 {
        error := Some(P.Unexpected(c));
        return;
      }
      if i + 1 >= |text| {
        error := Some(P.HalfByte);
        return;
      }
      var low := P.HexDigit(text[i + 1]);
      if low < 0 {
        error := Some(P.ExpectedDigit(c));
        return;
      }
      out.Push(high * 16 + low, false);
      next := i + 2;
    }
  }

  method CountConcrete(pattern: Pattern) returns (concrete: nat)
    requires pattern.Valid()
    ensures concrete == P.Concrete(pattern.Value())
  {
    concrete := 0;
    ghost var cells := pattern.Value();
    for i := 0 to |pattern.wildcard|
      invariant concrete == P.Concrete(cells[..i])
    {
      assert cells[..i + 1][..i] == cells[..i];
      if !pattern.wildcard[i] {
        concrete := concrete + 1;
      }
    }
    assert cells[..|cells|] == cells;
  }

  method ParsePattern(text: string, out: Pattern) returns (ok: bool, error: Option<P.Refusal>)
    modifies out
    ensures match P.ReadPattern(text)
      case Read(cells) => ok && error == None && out.Valid() && out.Value() == cells
      case Refused(why) => !ok && error == Some(why)
  {
    hide P.ReadItem, P.Cells, P.Concrete, CellsSoFar, P.ReadItems, CellOf, P.Width, P.ItemText;
    out.bytes, out.wildcard := [], [];
    var i := 0;
    NothingReadYet(text);
    while i < |text|
      invariant i <= |text| && out.Valid() && CellsSoFar(out.Value(), text, text[i..])
      decreases |text| - i
    {
      ItemGoesOn(out.Value(), text, text[i..]);
      var next, refused := ParseItem(text, i, out);
      if refused.Some? {
        return false, refused;
      }
      assert text[next..] == text[i..][next - i..];
      WidthIsPositive(P.ReadItem(text[i..]).value);
      i := next;
    }
    AllRead(out.Value(), text, text[i..]);
    if out.bytes == [] {
      return false, Some(P.EmptyPattern);
    }
    if out.wildcard[0] {
      return false, Some(P.StartsWithWildcard);
    }
    var concrete := CountConcrete(out);
    if concrete < 4 {
      return false, Some(P.TooFewConcrete);
    }
    return true, None;
  }

  lemma NothingReadYet(s: string)
    ensures CellsSoFar([], s, s[0..])
  {
    assert s[0..] == s;
    if P.ReadItems(s).Read? {
      assert [] + P.Cells(P.ReadItems(s).value) == P.Cells(P.ReadItems(s).value);
    }
  }

  lemma WidthIsPositive(i: P.Item)
    ensures P.Width(i) > 0
  {
  }

  lemma AllRead(cells: seq<P.Cell>, s0: string, s: string)
    requires CellsSoFar(cells, s0, s) && s == ""
    ensures P.ReadItems(s0).Read? && P.Cells(P.ReadItems(s0).value) == cells
  {
    assert cells + [] == cells;
  }

  // ---- The search

  // memchr(): the first place of a byte.
  method FindByte(image: array<byte>, from: nat, limit: nat, b: byte) returns (at: Option<nat>)
    requires from <= limit <= image.Length
    ensures at.None? ==> forall i :: from <= i < limit ==> image[i] != b
    ensures at.Some? ==> from <= at.value < limit && image[at.value] == b
                         && forall i :: from <= i < at.value ==> image[i] != b
  {
    var i := from;
    while i < limit
      invariant from <= i <= limit && forall j :: from <= j < i ==> image[j] != b
    {
      if image[i] == b {
        return Some(i);
      }
      i := i + 1;
    }
    return None;
  }

  // The search takes the first byte as given, whatever its wildcard flag says.
  ghost function Searched(pattern: Pattern): seq<P.Cell>
    requires pattern.Valid() && pattern.bytes != []
    reads pattern
  {
    pattern.Value()[0 := Some(pattern.bytes[0])]
  }

  // What the search finds from `from` on: nothing for an empty pattern.
  ghost function Sought(pattern: Pattern, image: seq<byte>, end: nat, from: nat): seq<nat>
    requires pattern.Valid()
    reads pattern
  {
    if pattern.bytes == [] then [] else Matches(Searched(pattern), image, end, from)
  }

  ghost predicate AlwaysAgree(a: seq<P.Cell>, b: seq<P.Cell>) {
    forall image: seq<byte>, end: nat, at: nat :: MatchesAt(a, image, end, at) <==> MatchesAt(b, image, end, at)
  }

  // So the search finds the pattern's matches, on every image, exactly when the first byte is concrete.
  lemma FirstByteMustBeConcrete(bytes: seq<byte>, wildcard: seq<bool>)
    requires |bytes| == |wildcard| && bytes != []
    ensures var cells := CellsOf(bytes, wildcard);
      AlwaysAgree(cells[0 := Some(bytes[0])], cells) <==> !wildcard[0]
  {
    hide MatchesAt, CellsOf;
    var cells := CellsOf(bytes, wildcard);
    if wildcard[0] {
      var _ := WildcardMissed(bytes, cells);
    } else {
      assert cells[0 := Some(bytes[0])] == cells;
    }
  }

  // An image that matches a pattern whose first cell is a wildcard, and that the search passes over.
  lemma WildcardMissed(bytes: seq<byte>, cells: seq<P.Cell>) returns (image: seq<byte>)
    requires bytes != [] && |cells| == |bytes| && cells[0].None?
    requires forall i :: 0 <= i < |bytes| && cells[i].Some? ==> cells[i].value == bytes[i]
    ensures MatchesAt(cells, image, |image|, 0) && !MatchesAt(cells[0 := Some(bytes[0])], image, |image|, 0)
  {
    image := bytes[0 := if bytes[0] == 0 then 1 else 0];
    assert cells[0 := Some(bytes[0])][0].Some? && image[0 + 0] != bytes[0];
  }

  method MatchesHere(pattern: Pattern, image: array<byte>, candidate: nat) returns (all: bool)
    requires pattern.Valid() && pattern.bytes != [] && candidate + |pattern.bytes| <= image.Length
    requires image[candidate] == pattern.bytes[0]
    ensures forall end: nat :: candidate + |pattern.bytes| <= end <= image.Length
              ==> (all <==> MatchesAt(Searched(pattern), image[..], end, candidate))
  {
    ghost var cells := Searched(pattern);
    var i := 1;
    while i < |pattern.bytes|
      invariant 1 <= i <= |pattern.bytes|
      invariant forall j :: 0 <= j < i && cells[j].Some? ==> image[candidate + j] == cells[j].value
    {
      if !pattern.wildcard[i] && image[candidate + i] != pattern.bytes[i] {
        assert cells[i] == Some(pattern.bytes[i]);
        return false;
      }
      i := i + 1;
    }
    return true;
  }

  // The first match from `from` on, or none.
  method FindFrom(pattern: Pattern, image: array<byte>, start: nat, end: nat) returns (at: Option<nat>)
    requires pattern.Valid() && start <= end <= image.Length
    ensures at.None? ==> pattern.bytes == []
                         || forall i: nat :: start <= i ==> !MatchesAt(Searched(pattern), image[..], end, i)
    ensures at.Some? ==> pattern.bytes != [] && start <= at.value < end
                         && MatchesAt(Searched(pattern), image[..], end, at.value)
                         && forall i: nat :: start <= i < at.value ==> !MatchesAt(Searched(pattern), image[..], end, i)
  {
    if pattern.bytes == [] || end - start < |pattern.bytes| {
      return None;
    }
    var first := pattern.bytes[0];
    var limit := end - |pattern.bytes| + 1;
    var from := start;
    while from < limit
      invariant start <= from
      invariant forall i: nat :: start <= i < from ==> !MatchesAt(Searched(pattern), image[..], end, i)
      decreases limit - from
    {
      var candidate := FindByte(image, from, limit, first);
      FirstByteOnly(pattern, image[..], end);
      if candidate.None? {
        return None;
      }
      var all := MatchesHere(pattern, image, candidate.value);
      if all {
        return candidate;
      }
      from := candidate.value + 1;
    }
    return None;
  }

  lemma FirstByteOnly(pattern: Pattern, image: seq<byte>, end: nat)
    requires pattern.Valid() && pattern.bytes != []
    ensures forall i: nat :: MatchesAt(Searched(pattern), image, end, i)
              ==> i + |pattern.bytes| <= end <= |image| && image[i] == pattern.bytes[0]
  {
    forall i: nat | MatchesAt(Searched(pattern), image, end, i)
      ensures i + |pattern.bytes| <= end <= |image| && image[i] == pattern.bytes[0]
    {
      assert Searched(pattern)[0].Some? && image[i + 0] == pattern.bytes[0];
    }
  }

  lemma OneSeen(m: seq<nat>, seen: nat, at: nat, later: seq<nat>)
    requires seen <= |m| && m[seen..] == [at] + later
    ensures seen < |m| && m[seen] == at && m[seen + 1..] == later
  {
    assert m[seen..][0] == at;
    assert m[seen + 1..] == m[seen..][1..];
  }

  // The k-th match, overlapping ones included, or none when there are too few.
  method Scan(pattern: Pattern, image: array<byte>, begin: nat, end: nat, occurrence: nat) returns (at: Option<nat>)
    requires pattern.Valid() && begin <= end <= image.Length
    ensures var m := Sought(pattern, image[..], end, begin);
      at == if occurrence < |m| then Some(m[occurrence]) else None
  {
    ghost var m := Sought(pattern, image[..], end, begin);
    var cursor, seen := begin, 0;
    while true
      invariant begin <= cursor <= end && seen <= occurrence
      invariant seen <= |m| && m[seen..] == Sought(pattern, image[..], end, cursor)
      decreases end - cursor
    {
      hide MatchesAt, Matches;
      var hit := FindFrom(pattern, image, cursor, end);
      if hit.None? {
        if pattern.bytes != [] {
          NoMore(Searched(pattern), image[..], end, cursor);
        }
        return None;
      }
      NextMatch(Searched(pattern), image[..], end, cursor, hit.value);
      OneSeen(m, seen, hit.value, Sought(pattern, image[..], end, hit.value + 1));
      if seen == occurrence {
        return hit;
      }
      cursor, seen := hit.value + 1, seen + 1;
    }
  }

  method CountMatches(pattern: Pattern, image: array<byte>, begin: nat, end: nat, limit: nat) returns (count: nat)
    requires pattern.Valid() && begin <= end <= image.Length
    ensures var m := Sought(pattern, image[..], end, begin); count == if |m| < limit then |m| else limit
  {
    ghost var m := Sought(pattern, image[..], end, begin);
    var cursor := begin;
    count := 0;
    while count < limit
      invariant begin <= cursor <= end && count <= limit
      invariant count <= |m| && m[count..] == Sought(pattern, image[..], end, cursor)
      decreases end - cursor
    {
      hide MatchesAt, Matches;
      var hit := FindFrom(pattern, image, cursor, end);
      if hit.None? {
        if pattern.bytes != [] {
          NoMore(Searched(pattern), image[..], end, cursor);
        }
        break;
      }
      NextMatch(Searched(pattern), image[..], end, cursor, hit.value);
      OneSeen(m, count, hit.value, Sought(pattern, image[..], end, hit.value + 1));
      cursor, count := hit.value + 1, count + 1;
    }
  }

  lemma NoMore(cells: seq<P.Cell>, image: seq<byte>, end: nat, from: nat)
    requires from <= |image| && cells != [] && forall at: nat :: from <= at ==> !MatchesAt(cells, image, end, at)
    ensures Matches(cells, image, end, from) == []
  {
    hide MatchesAt;
    SkipTo(cells, image, end, from, |image|);
  }

  lemma NextMatch(cells: seq<P.Cell>, image: seq<byte>, end: nat, from: nat, at: nat)
    requires from <= at < |image| && MatchesAt(cells, image, end, at)
    requires forall i: nat :: from <= i < at ==> !MatchesAt(cells, image, end, i)
    ensures Matches(cells, image, end, from) == [at] + Matches(cells, image, end, at + 1)
  {
    hide MatchesAt;
    SkipTo(cells, image, end, from, at);
  }
}
