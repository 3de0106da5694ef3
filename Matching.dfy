/**
 * The word matcher shared by the presentation board and the server replica:
 * the scan of a row or column string for dictionary words through the placed
 * cell, the reversal used for backward words, the stable ordering of the
 * matches by length and the escalating payout.
 */
module Matching {
  import opened Wrappers
  import opened Strings
  import opened Words

  /** The board is 7 by 7; the reversed scans use `Size - 1 - x`. */
  const Size: nat := 7

  // ---------------------------------------------------------------------
  // Reversal
  // ---------------------------------------------------------------------

  /** `Field.Reverse` on strings and `List.Reverse` on lists: the elements back to front. */
  function Reverse<X>(s: seq<X>): (r: seq<X>)
    ensures |r| == |s|
    ensures forall i :: 0 <= i < |s| ==> r[i] == s[|s| - 1 - i]
  {
    seq(|s|, i requires 0 <= i < |s| => s[|s| - 1 - i])
  }

  /** Reversing twice gives back the original. */
  lemma ReverseInvolution<X>(s: seq<X>)
    ensures Reverse(Reverse(s)) == s
  {
    var r := Reverse(Reverse(s));
    assert forall i :: 0 <= i < |s| ==> r[i] == s[i];
  }

  /** A slice of the reversed sequence is the reversal of the mirrored slice. */
  lemma ReversedSlice<X>(s: seq<X>, start: nat, len: nat)
    requires start + len <= |s|
    ensures Reverse(s)[start..start + len] == Reverse(s[|s| - start - len..|s| - start])
  {
    var a := Reverse(s)[start..start + len];
    var b := Reverse(s[|s| - start - len..|s| - start]);
    assert forall i :: 0 <= i < len ==> a[i] == b[i];
  }

  // ---------------------------------------------------------------------
  // Rendering cells as text
  // ---------------------------------------------------------------------

  /** Every tile in `cells` carries a one-character letter. */
  predicate SingleLetters<C>(cells: seq<Option<C>>, letterOf: C -> string) {
    forall i :: 0 <= i < |cells| && cells[i].Some? ==> |letterOf(cells[i].value)| == 1
  }

  /** The character a cell is rendered as. */
  function CellChar<C>(cell: Option<C>, letterOf: C -> string): char
    requires cell.Some? ==> |letterOf(cell.value)| == 1
  {
    if cell.None? then ' ' else letterOf(cell.value)[0]
  }

  /**
   * The text of a row or column: each tile's letter, `" "` for an empty cell.
   * With one-character letters, string index i is cell i.
   */
  function Render<C>(cells: seq<Option<C>>, letterOf: C -> string): (text: string)
    ensures SingleLetters(cells, letterOf) ==> |text| == |cells|
    ensures SingleLetters(cells, letterOf) ==> forall i :: 0 <= i < |cells| ==> text[i] == CellChar(cells[i], letterOf)
  {
    var parts := seq(|cells|, i requires 0 <= i < |cells| => if cells[i].None? then " " else letterOf(cells[i].value));
    if SingleLetters(cells, letterOf) then
      ConcatOfSingles(parts);
      Concat(parts)
    else Concat(parts)
  }

  /** Rendering commutes with slicing. */
  lemma RenderSlice<C>(cells: seq<Option<C>>, letterOf: C -> string, start: nat, end: nat)
    requires SingleLetters(cells, letterOf) && start <= end <= |cells|
    ensures Render(cells[start..end], letterOf) == Render(cells, letterOf)[start..end]
  {
    assert SingleLetters(cells[start..end], letterOf);
  }

  /** Rendering commutes with reversal, so the reversed scans read the reversed cells. */
  lemma RenderReverse<C>(cells: seq<Option<C>>, letterOf: C -> string)
    requires SingleLetters(cells, letterOf)
    ensures Render(Reverse(cells), letterOf) == Reverse(Render(cells, letterOf))
  {
    assert SingleLetters(Reverse(cells), letterOf);
  }

  // ---------------------------------------------------------------------
  // The scan
  // ---------------------------------------------------------------------

  /** The substring `text[start..start + len]`. */
  datatype Span = Span(start: nat, len: nat)

  predicate InText(text: string, spans: seq<Span>) {
    forall i :: 0 <= i < |spans| ==> spans[i].start + spans[i].len <= |text|
  }

  /** The span covers the index of the placed cell. */
  predicate Covers(s: Span, mustInclude: int) {
    s.start <= mustInclude < s.start + s.len
  }

  /** A span the scan keeps: at least three long, inside the text, a word, through the placed cell. */
  predicate Qualifies(keys: seq<string>, text: string, mustInclude: int, s: Span) {
    s.len >= 3 && s.start + s.len <= |text| && IsWordIn(keys, text[s.start..s.start + s.len]) && Covers(s, mustInclude)
  }

  /** The kept spans of length `len`, starting at `start` or later, left to right. */
  function SpansFrom(keys: seq<string>, text: string, mustInclude: int, len: nat, start: nat): (r: seq<Span>)
    ensures InText(text, r)
    decreases |text| + 1 - start
  {
    if start + len > |text| then []
    else
      var here := Span(start, len);
      (if Qualifies(keys, text, mustInclude, here) then [here] else []) + SpansFrom(keys, text, mustInclude, len, start + 1)
  }

  /** Each length's pass keeps only qualifying spans of that length, from `start` on. */
  lemma {:induction false} SpansFromSound(keys: seq<string>, text: string, mustInclude: int, len: nat, start: nat)
    ensures forall s :: s in SpansFrom(keys, text, mustInclude, len, start) ==>
      Qualifies(keys, text, mustInclude, s) && s.len == len && s.start >= start
    decreases |text| + 1 - start
  {
    if start + len <= |text| {
      SpansFromSound(keys, text, mustInclude, len, start + 1);
    }
  }

  /** Strictly left to right. */
  predicate Ascending(r: seq<Span>) {
    forall i, j :: 0 <= i < j < |r| ==> r[i].start < r[j].start
  }

  /** Each length's pass runs left to right, from `start` on. */
  lemma {:induction false} SpansFromAscending(keys: seq<string>, text: string, mustInclude: int, len: nat, start: nat)
    ensures Ascending(SpansFrom(keys, text, mustInclude, len, start))
    ensures forall k :: 0 <= k < |SpansFrom(keys, text, mustInclude, len, start)| ==>
      SpansFrom(keys, text, mustInclude, len, start)[k].start >= start
    decreases |text| + 1 - start
  {
    if start + len <= |text| {
      var here := Span(start, len);
      var tail := SpansFrom(keys, text, mustInclude, len, start + 1);
      SpansFromAscending(keys, text, mustInclude, len, start + 1);
      if Qualifies(keys, text, mustInclude, here) {
        var r := [here] + tail;
        assert r == SpansFrom(keys, text, mustInclude, len, start);
        forall i, j | 0 <= i < j < |r| ensures r[i].start < r[j].start {
          assert r[j] == tail[j - 1];
          if i > 0 {
            assert r[i] == tail[i - 1];
          }
        }
      } else {
        assert tail == SpansFrom(keys, text, mustInclude, len, start);
      }
    }
  }

  /** Each length's pass misses no qualifying span of that length from `start` on. */
  lemma {:induction false} SpansFromComplete(keys: seq<string>, text: string, mustInclude: int, len: nat, start: nat)
    ensures forall s: Span :: Qualifies(keys, text, mustInclude, s) && s.len == len && s.start >= start ==>
      s in SpansFrom(keys, text, mustInclude, len, start)
    decreases |text| + 1 - start
  {
    if start + len <= |text| {
      SpansFromComplete(keys, text, mustInclude, len, start + 1);
      var here := Span(start, len);
      var head := if Qualifies(keys, text, mustInclude, here) then [here] else [];
      var tail := SpansFrom(keys, text, mustInclude, len, start + 1);
      assert SpansFrom(keys, text, mustInclude, len, start) == head + tail;
      forall s: Span | Qualifies(keys, text, mustInclude, s) && s.len == len && s.start >= start
        ensures s in head + tail
      {
        if s.start == start {
          assert s == here;
        }
      }
    }
  }

  /** Longer spans first, equal lengths left to right; so no span occurs twice. */
  predicate ScanOrder(r: seq<Span>) {
    forall i, j :: 0 <= i < j < |r| ==> r[i].len > r[j].len || (r[i].len == r[j].len && r[i].start < r[j].start)
  }

  /** The kept spans of lengths `len` down to 3, each length left to right. */
  function SpansDown(keys: seq<string>, text: string, mustInclude: int, len: nat): (r: seq<Span>)
    ensures InText(text, r)
  {
    if len < 3 then [] else SpansFrom(keys, text, mustInclude, len, 0) + SpansDown(keys, text, mustInclude, len - 1)
  }

  /** The passes from `len` down keep only qualifying spans of at most that length. */
  lemma {:induction false} SpansDownSound(keys: seq<string>, text: string, mustInclude: int, len: nat)
    ensures forall s :: s in SpansDown(keys, text, mustInclude, len) ==> Qualifies(keys, text, mustInclude, s) && s.len <= len
  {
    if len >= 3 {
      SpansFromSound(keys, text, mustInclude, len, 0);
      SpansDownSound(keys, text, mustInclude, len - 1);
    }
  }

  /** The passes from `len` down record the longest spans first. */
  lemma {:induction false} SpansDownOrdered(keys: seq<string>, text: string, mustInclude: int, len: nat)
    ensures ScanOrder(SpansDown(keys, text, mustInclude, len))
  {
    if len >= 3 {
      var here := SpansFrom(keys, text, mustInclude, len, 0);
      var rest := SpansDown(keys, text, mustInclude, len - 1);
      SpansFromSound(keys, text, mustInclude, len, 0);
      SpansFromAscending(keys, text, mustInclude, len, 0);
      SpansDownSound(keys, text, mustInclude, len - 1);
      SpansDownOrdered(keys, text, mustInclude, len - 1);
      assert forall i :: 0 <= i < |here| ==> here[i] in here;
      assert forall i :: 0 <= i < |rest| ==> rest[i] in rest;
      ScanOrderAppend(here, rest, len);
    }
  }

  /** The passes from `len` down miss no qualifying span of at most that length. */
  lemma {:induction false} SpansDownComplete(keys: seq<string>, text: string, mustInclude: int, len: nat)
    ensures forall s: Span :: Qualifies(keys, text, mustInclude, s) && s.len <= len ==> s in SpansDown(keys, text, mustInclude, len)
  {
    if len >= 3 {
      SpansFromComplete(keys, text, mustInclude, len, 0);
      SpansDownComplete(keys, text, mustInclude, len - 1);
    }
  }

  /** One length's pass, left to right, before the shorter passes keeps the scan order. */
  lemma ScanOrderAppend(here: seq<Span>, rest: seq<Span>, len: nat)
    requires forall i :: 0 <= i < |here| ==> here[i].len == len
    requires Ascending(here)
    requires forall i :: 0 <= i < |rest| ==> rest[i].len < len
    requires ScanOrder(rest)
    ensures ScanOrder(here + rest)
  {
    var r := here + rest;
    forall i, j | 0 <= i < j < |r|
      ensures r[i].len > r[j].len || (r[i].len == r[j].len && r[i].start < r[j].start)
    {
      if j < |here| {
        assert r[i] == here[i] && r[j] == here[j];
      } else if i < |here| {
        assert r[i] == here[i] && r[j] == rest[j - |here|];
      } else {
        assert r[i] == rest[i - |here|] && r[j] == rest[j - |here|];
      }
    }
  }

  /** The spans `CheckString` keeps, in the order it records them. */
  function Hits(keys: seq<string>, text: string, mustInclude: int): (r: seq<Span>)
    ensures InText(text, r)
  {
    if |text| < 3 then [] else SpansDown(keys, text, mustInclude, |text|)
  }

  /** The scan keeps exactly the qualifying spans. */
  lemma HitsExact(keys: seq<string>, text: string, mustInclude: int, s: Span)
    ensures s in Hits(keys, text, mustInclude) <==> Qualifies(keys, text, mustInclude, s)
  {
    SpansDownSound(keys, text, mustInclude, |text|);
    SpansDownComplete(keys, text, mustInclude, |text|);
  }

  /** The scan order: longer spans first, equal lengths left to right, so no span twice. */
  lemma HitsOrdered(keys: seq<string>, text: string, mustInclude: int)
    ensures ScanOrder(Hits(keys, text, mustInclude))
  {
    SpansDownOrdered(keys, text, mustInclude, |text|);
  }

  /** A text shorter than three records nothing. */
  lemma ShortTextNoHits(keys: seq<string>, text: string, mustInclude: int)
    requires |text| < 3
    ensures Hits(keys, text, mustInclude) == []
  {
  }

  /** In the reversed text the placed index is `n - 1 - m`, and a span covers it exactly when its mirror covers `m`. */
  lemma MirroredCover(n: nat, s: Span, mustInclude: int)
    requires s.start + s.len <= n
    ensures Covers(s, n - 1 - mustInclude) <==> Covers(Span(n - s.start - s.len, s.len), mustInclude)
  {
  }

  // ---------------------------------------------------------------------
  // Matches
  // ---------------------------------------------------------------------

  /** `WordMatch` / `LetterMatch`: the word, the cells it was read from, and whether it was read backwards. */
  datatype Match<C> = Match(word: string, cells: seq<Option<C>>, reverse: bool)

  /** The match recorded for a span: the substring and `cells.GetRange(start, len)`. */
  function MatchAt<C>(text: string, cells: seq<Option<C>>, reverse: bool, s: Span): Match<C>
    requires |cells| == |text| && s.start + s.len <= |text|
  {
    Match(text[s.start..s.start + s.len], cells[s.start..s.start + s.len], reverse)
  }

  function MatchesOf<C>(text: string, cells: seq<Option<C>>, reverse: bool, spans: seq<Span>): (r: seq<Match<C>>)
    requires |cells| == |text| && InText(text, spans)
    ensures |r| == |spans|
  {
    seq(|spans|, i requires 0 <= i < |spans| => MatchAt(text, cells, reverse, spans[i]))
  }

  lemma MatchesOfAppend<C>(text: string, cells: seq<Option<C>>, reverse: bool, a: seq<Span>, b: seq<Span>)
    requires |cells| == |text| && InText(text, a) && InText(text, b)
    ensures InText(text, a + b)
    ensures MatchesOf(text, cells, reverse, a + b) == MatchesOf(text, cells, reverse, a) + MatchesOf(text, cells, reverse, b)
  {
  }

  /**
   * `CheckString`: scans every substring of at least three characters, longest
   * first and left to right, and records each dictionary word through the
   * placed index with its cells.
   */
  method CheckString<C>(keys: seq<string>, text: string, mustInclude: int, cells: seq<Option<C>>, isReversed: bool)
    returns (found: seq<Match<C>>)
    requires |cells| == |text|
    ensures found == MatchesOf(text, cells, isReversed, Hits(keys, text, mustInclude))
  {
    found := [];
    if |text| < 3 {
      return;
    }
    var len := |text|;
    while len > 2
      invariant 2 <= len <= |text|
      invariant found + MatchesOf(text, cells, isReversed, SpansDown(keys, text, mustInclude, len))
        == MatchesOf(text, cells, isReversed, Hits(keys, text, mustInclude))
    {
      MatchesOfAppend(text, cells, isReversed, SpansFrom(keys, text, mustInclude, len, 0), SpansDown(keys, text, mustInclude, len - 1));
      var ofLength := CheckLength(keys, text, mustInclude, cells, isReversed, len);
      found := found + ofLength;
      len := len - 1;
    }
  }

  /** The inner loop of `CheckString`: the words of length `len`, left to right. */
  method CheckLength<C>(keys: seq<string>, text: string, mustInclude: int, cells: seq<Option<C>>, isReversed: bool, len: nat)
    returns (found: seq<Match<C>>)
    requires |cells| == |text| && 3 <= len <= |text|
    ensures found == MatchesOf(text, cells, isReversed, SpansFrom(keys, text, mustInclude, len, 0))
  {
    found := [];
    var start := 0;
    ghost var whole := MatchesOf(text, cells, isReversed, SpansFrom(keys, text, mustInclude, len, 0));
    while start <= |text| - len
      invariant 0 <= start <= |text| - len + 1
      invariant found + MatchesOf(text, cells, isReversed, SpansFrom(keys, text, mustInclude, len, start)) == whole
    {
      var word := text[start..start + len];
      CheckStep(keys, text, mustInclude, cells, isReversed, len, start, found, whole);
      if IsWordIn(keys, word) && mustInclude >= start && mustInclude < start + len {
        found := found + [Match(word, cells[start..start + len], isReversed)];
      }
      start := start + 1;
    }
  }

  /** The loop step of `CheckLength`, stated as the invariant it restores. */
  lemma CheckStep<C>(keys: seq<string>, text: string, mustInclude: int, cells: seq<Option<C>>, reverse: bool, len: nat, start: nat,
                     found: seq<Match<C>>, whole: seq<Match<C>>)
    requires |cells| == |text| && 3 <= len && start + len <= |text|
    requires found + MatchesOf(text, cells, reverse, SpansFrom(keys, text, mustInclude, len, start)) == whole
    ensures var tail := MatchesOf(text, cells, reverse, SpansFrom(keys, text, mustInclude, len, start + 1));
      if IsWordIn(keys, text[start..start + len]) && mustInclude >= start && mustInclude < start + len
      then found + [Match(text[start..start + len], cells[start..start + len], reverse)] + tail == whole
      else found + tail == whole
  {
    ScanStep(keys, text, mustInclude, cells, reverse, len, start);
    var tail := MatchesOf(text, cells, reverse, SpansFrom(keys, text, mustInclude, len, start + 1));
    if IsWordIn(keys, text[start..start + len]) && mustInclude >= start && mustInclude < start + len {
      var m := Match(text[start..start + len], cells[start..start + len], reverse);
      assert found + [m] + tail == found + ([m] + tail);
    }
  }

  /** One step of the inner loop: the span at `start` is recorded exactly when it qualifies. */
  lemma ScanStep<C>(keys: seq<string>, text: string, mustInclude: int, cells: seq<Option<C>>, reverse: bool, len: nat, start: nat)
    requires |cells| == |text| && 3 <= len && start + len <= |text|
    ensures var here := Span(start, len);
      Qualifies(keys, text, mustInclude, here) <==>
        IsWordIn(keys, text[start..start + len]) && mustInclude >= start && mustInclude < start + len
    ensures var here := Span(start, len);
      MatchesOf(text, cells, reverse, SpansFrom(keys, text, mustInclude, len, start))
      == (if Qualifies(keys, text, mustInclude, here) then [Match(text[start..start + len], cells[start..start + len], reverse)] else [])
        + MatchesOf(text, cells, reverse, SpansFrom(keys, text, mustInclude, len, start + 1))
  {
    var here := Span(start, len);
    var head := if Qualifies(keys, text, mustInclude, here) then [here] else [];
    var tail := SpansFrom(keys, text, mustInclude, len, start + 1);
    MatchesOfAppend(text, cells, reverse, head, tail);
  }

  /** When the text renders the cells, every recorded word is the rendering of its own cells. */
  lemma MatchesAligned<C>(text: string, cells: seq<Option<C>>, letterOf: C -> string, reverse: bool, spans: seq<Span>)
    requires SingleLetters(cells, letterOf) && text == Render(cells, letterOf)
    requires InText(text, spans)
    ensures forall m :: m in MatchesOf(text, cells, reverse, spans) ==> m.word == Render(m.cells, letterOf)
  {
    var ms := MatchesOf(text, cells, reverse, spans);
    forall m | m in ms ensures m.word == Render(m.cells, letterOf) {
      var i :| 0 <= i < |ms| && ms[i] == m;
      RenderSlice(cells, letterOf, spans[i].start, spans[i].start + spans[i].len);
    }
  }

  // ---------------------------------------------------------------------
  // Ordering the matches
  // ---------------------------------------------------------------------

  predicate SortedByLength<C>(s: seq<Match<C>>) {
    forall i, j :: 0 <= i < j < |s| ==> |s[i].word| <= |s[j].word|
  }

  /** Places `m` after every match that is not longer than it. */
  function Insert<C(==)>(m: Match<C>, s: seq<Match<C>>): (r: seq<Match<C>>)
    ensures |r| == |s| + 1
    ensures multiset(r) == multiset(s) + multiset{m}
  {
    if |s| == 0 then [m]
    else if |s[0].word| <= |m.word| then
      assert s == [s[0]] + s[1..];
      [s[0]] + Insert(m, s[1..])
    else [m] + s
  }

  /** `OrderBy(w => w.word.Length)`: a stable sort by word length. */
  function SortByLength<C(==)>(s: seq<Match<C>>): (r: seq<Match<C>>)
    ensures |r| == |s|
    ensures multiset(r) == multiset(s)
  {
    if |s| == 0 then []
    else
      assert s == s[..|s| - 1] + [s[|s| - 1]];
      Insert(s[|s| - 1], SortByLength(s[..|s| - 1]))
  }

  lemma {:induction false} InsertSorted<C>(m: Match<C>, s: seq<Match<C>>)
    requires SortedByLength(s)
    ensures SortedByLength(Insert(m, s))
  {
    if |s| > 0 && |s[0].word| <= |m.word| {
      InsertSorted(m, s[1..]);
      var r := Insert(m, s[1..]);
      forall j | 0 <= j < |r| ensures |s[0].word| <= |r[j].word| {
        assert r[j] in multiset(r);
        if r[j] != m {
          assert r[j] in multiset(s[1..]);
          var k :| 0 <= k < |s[1..]| && s[1..][k] == r[j];
          assert s[1..][k] == s[k + 1];
        }
      }
      assert Insert(m, s) == [s[0]] + r;
    }
  }

  /** The sorted matches are in ascending order of length. */
  lemma {:induction false} SortByLengthSorted<C>(s: seq<Match<C>>)
    ensures SortedByLength(SortByLength(s))
  {
    if |s| > 0 {
      SortByLengthSorted(s[..|s| - 1]);
      InsertSorted(s[|s| - 1], SortByLength(s[..|s| - 1]));
    }
  }

  /** The matches of length `n`, in their order. */
  function OfLength<C>(s: seq<Match<C>>, n: nat): seq<Match<C>> {
    if |s| == 0 then [] else (if |s[0].word| == n then [s[0]] else []) + OfLength(s[1..], n)
  }

  /** The matches of length `n` in `[m] + s`: `m` when it has that length, then those of `s`. */
  lemma OfLengthCons<C>(m: Match<C>, s: seq<Match<C>>, n: nat)
    ensures OfLength([m] + s, n) == (if |m.word| == n then [m] else []) + OfLength(s, n)
  {
    assert ([m] + s)[1..] == s;
  }

  lemma {:induction false} OfLengthNone<C>(s: seq<Match<C>>, n: nat)
    requires forall i :: 0 <= i < |s| ==> |s[i].word| > n
    ensures OfLength(s, n) == []
  {
    if |s| > 0 {
      OfLengthNone(s[1..], n);
    }
  }

  lemma {:induction false} OfLengthSnoc<C>(s: seq<Match<C>>, m: Match<C>, n: nat)
    ensures OfLength(s + [m], n) == OfLength(s, n) + (if |m.word| == n then [m] else [])
  {
    if |s| > 0 {
      assert (s + [m])[1..] == s[1..] + [m];
      OfLengthSnoc(s[1..], m, n);
    } else {
      assert [m][1..] == [];
    }
  }

  lemma {:induction false} InsertOfLength<C>(m: Match<C>, s: seq<Match<C>>, n: nat)
    requires SortedByLength(s)
    ensures OfLength(Insert(m, s), n) == OfLength(s, n) + (if |m.word| == n then [m] else [])
  {
    if |s| == 0 {
      assert [m][1..] == [];
    } else if |s[0].word| <= |m.word| {
      var r := Insert(m, s[1..]);
      var h, t := (if |s[0].word| == n then [s[0]] else []), (if |m.word| == n then [m] else []);
      assert Insert(m, s) == [s[0]] + r;
      OfLengthCons(s[0], r, n);
      InsertOfLength(m, s[1..], n);
      OfLengthCons(s[0], s[1..], n);
      assert [s[0]] + s[1..] == s;
      AppendAssociative(h, OfLength(s[1..], n), t);
    } else {
      assert Insert(m, s) == [m] + s;
      assert ([m] + s)[1..] == s;
      if |m.word| == n {
        OfLengthNone(s, n);
      }
    }
  }

  lemma AppendAssociative<X>(a: seq<X>, b: seq<X>, c: seq<X>)
    ensures a + (b + c) == (a + b) + c
  {
  }

  /** A non-empty sequence is its front followed by its last element. */
  lemma SplitLast<X>(s: seq<X>)
    requires |s| > 0
    ensures s[..|s| - 1] + [s[|s| - 1]] == s
  {
  }

  /** Stability: for every length, the matches of that length keep their relative order. */
  lemma {:induction false} SortByLengthStable<C>(s: seq<Match<C>>, n: nat)
    ensures OfLength(SortByLength(s), n) == OfLength(s, n)
  {
    if |s| > 0 {
      var init, last := s[..|s| - 1], s[|s| - 1];
      var sortedInit := SortByLength(init);
      var tail := if |last.word| == n then [last] else [];
      assert SortByLength(s) == Insert(last, sortedInit);
      SortByLengthSorted(init);
      InsertOfLength(last, sortedInit, n);
      SortByLengthStable(init, n);
      OfLengthSnoc(init, last, n);
      SplitLast(s);
      calc {
        OfLength(SortByLength(s), n);
        OfLength(sortedInit, n) + tail;
        OfLength(init, n) + tail;
        OfLength(s, n);
      }
    }
  }

  // ---------------------------------------------------------------------
  // Scoring
  // ---------------------------------------------------------------------

  /** `GetScore`: the square of the word's length. */
  function GetScore(word: string): (score: nat)
    ensures |word| >= 3 ==> score >= 9
  {
    |word| * |word|
  }

  /** A longer word is worth strictly more. */
  lemma GetScoreGrows(a: string, b: string)
    requires |a| < |b|
    ensures GetScore(a) < GetScore(b)
  {
    assert |a| * |a| <= |a| * |b| < |b| * |b|;
  }

  /** The multiplier of the k-th match when each match adds `step` to it. */
  function Multiplier(k: nat, step: int): int {
    1 + k * step
  }

  /** Each further match adds `step` to the multiplier. */
  lemma MultiplierStep(k: nat, step: int)
    ensures Multiplier(k + 1, step) == Multiplier(k, step) + step
  {
    assert (k + 1) * step == k * step + step;
  }

  /** What each sorted match pays: its score times its multiplier. */
  function Awards<C>(sorted: seq<Match<C>>, step: int): (r: seq<int>)
    ensures |r| == |sorted|
  {
    seq(|sorted|, k requires 0 <= k < |sorted| => GetScore(sorted[k].word) * Multiplier(k, step))
  }

  function Sum(xs: seq<int>): int {
    if |xs| == 0 then 0 else Sum(xs[..|xs| - 1]) + xs[|xs| - 1]
  }

  /**
   * One step of the paying loop: the k-th match adds its score times the
   * current multiplier, which then grows by `step`.
   */
  lemma PayStep<C>(sorted: seq<Match<C>>, step: int, k: nat, multi: int)
    requires k < |sorted| && multi == Multiplier(k, step)
    ensures Sum(Awards(sorted, step)[..k + 1]) == Sum(Awards(sorted, step)[..k]) + GetScore(sorted[k].word) * multi
    ensures Multiplier(k + 1, step) == multi + step
  {
    var a := Awards(sorted, step);
    assert a[..k + 1][..k] == a[..k];
    MultiplierStep(k, step);
  }

  /** With a non-negative step every award is at least the word's score. */
  lemma AwardsAtLeastScore<C>(sorted: seq<Match<C>>, step: int, k: nat)
    requires step >= 0 && k < |sorted|
    ensures Awards(sorted, step)[k] >= GetScore(sorted[k].word)
  {
    assert Multiplier(k, step) >= 1;
    var score := GetScore(sorted[k].word);
    assert score * Multiplier(k, step) >= score * 1;
  }

  lemma {:induction false} SumNonNegative(xs: seq<int>)
    requires forall i :: 0 <= i < |xs| ==> xs[i] >= 0
    ensures Sum(xs) >= 0
  {
    if |xs| > 0 {
      SumNonNegative(xs[..|xs| - 1]);
    }
  }

  /** With a non-negative step the total payout is never negative. */
  lemma PayoutNonNegative<C>(sorted: seq<Match<C>>, step: int)
    requires step >= 0
    ensures Sum(Awards(sorted, step)) >= 0
  {
    var a := Awards(sorted, step);
    forall k | 0 <= k < |a| ensures a[k] >= 0 {
      AwardsAtLeastScore(sorted, step, k);
    }
    SumNonNegative(a);
  }

  // ---------------------------------------------------------------------
  // The four scans of a check
  // ---------------------------------------------------------------------

  /**
   * The matches a check at (x, y) records: the row forwards, the column
   * forwards, then both reversed with the placed index mirrored.
   */
  function FourWay<C>(keys: seq<string>, row: seq<Option<C>>, col: seq<Option<C>>, x: int, y: int, letterOf: C -> string): seq<Match<C>>
    requires |row| == |col| == Size
    requires SingleLetters(row, letterOf) && SingleLetters(col, letterOf)
  {
    var rowText := Render(row, letterOf);
    var colText := Render(col, letterOf);
    MatchesOf(rowText, row, false, Hits(keys, rowText, x))
    + MatchesOf(colText, col, false, Hits(keys, colText, y))
    + MatchesOf(Reverse(rowText), Reverse(row), true, Hits(keys, Reverse(rowText), Size - 1 - x))
    + MatchesOf(Reverse(colText), Reverse(col), true, Hits(keys, Reverse(colText), Size - 1 - y))
  }

  /**
   * The scanning half of `Check(x, y)`: `CheckString` on the row through the
   * placed cell, on its column, then on both reversed, one after the other.
   */
  method Scan<C>(keys: seq<string>, row: seq<Option<C>>, col: seq<Option<C>>, x: int, y: int, letterOf: C -> string)
    returns (found: seq<Match<C>>)
    requires |row| == |col| == Size
    requires SingleLetters(row, letterOf) && SingleLetters(col, letterOf)
    ensures found == FourWay(keys, row, col, x, y, letterOf)
  {
    var rowsReversed := Reverse(row);
    var colsReversed := Reverse(col);
    var rowText := Render(row, letterOf);
    var colText := Render(col, letterOf);
    var a := CheckString(keys, rowText, x, row, false);
    var b := CheckString(keys, colText, y, col, false);
    var c := CheckString(keys, Reverse(rowText), Size - 1 - x, rowsReversed, true);
    var d := CheckString(keys, Reverse(colText), Size - 1 - y, colsReversed, true);
    found := a + b + c + d;
  }

  /** Every recorded match holds cells of the scanned list. */
  lemma MatchesOfCells<C>(text: string, cells: seq<Option<C>>, reverse: bool, spans: seq<Span>)
    requires |cells| == |text| && InText(text, spans)
    ensures forall m, v :: m in MatchesOf(text, cells, reverse, spans) && v in m.cells ==> v in cells
  {
    var ms := MatchesOf(text, cells, reverse, spans);
    forall m | m in ms ensures forall v :: v in m.cells ==> v in cells {
      var i :| 0 <= i < |ms| && ms[i] == m;
      SliceIn(cells, spans[i].start, spans[i].start + spans[i].len);
    }
  }

  lemma SliceIn<X>(s: seq<X>, a: nat, b: nat)
    requires a <= b <= |s|
    ensures forall v :: v in s[a..b] ==> v in s
  {
    forall v | v in s[a..b] ensures v in s {
      var k :| 0 <= k < b - a && s[a..b][k] == v;
      assert s[a + k] == v;
    }
  }

  /** A check only ever records cells of the row and the column through the placed cell. */
  lemma FourWayCells<C>(keys: seq<string>, row: seq<Option<C>>, col: seq<Option<C>>, x: int, y: int, letterOf: C -> string)
    requires |row| == |col| == Size
    requires SingleLetters(row, letterOf) && SingleLetters(col, letterOf)
    ensures forall m, v :: m in FourWay(keys, row, col, x, y, letterOf) && v in m.cells ==> v in row || v in col
  {
    var rowText := Render(row, letterOf);
    var colText := Render(col, letterOf);
    MatchesOfCells(rowText, row, false, Hits(keys, rowText, x));
    MatchesOfCells(colText, col, false, Hits(keys, colText, y));
    MatchesOfCells(Reverse(rowText), Reverse(row), true, Hits(keys, Reverse(rowText), Size - 1 - x));
    MatchesOfCells(Reverse(colText), Reverse(col), true, Hits(keys, Reverse(colText), Size - 1 - y));
    forall v | v in Reverse(row) ensures v in row {
      var k :| 0 <= k < Size && Reverse(row)[k] == v;
      assert v == row[Size - 1 - k];
    }
    forall v | v in Reverse(col) ensures v in col {
      var k :| 0 <= k < Size && Reverse(col)[k] == v;
      assert v == col[Size - 1 - k];
    }
  }
}
