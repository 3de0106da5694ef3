/**
 * The presentation board: tiles on the 7 by 7 grid, the check after each
 * placement (the words through the placed tile, announced shortest first
 * with an escalating multiplier and the full-match bonus, their tiles
 * marked), the undo of the last move and the twist effects on the board.
 */
module Presentation {
  import opened Wrappers
  import opened Grid
  import opened Twists
  import opened Words
  import Matching
  import Board

  /** A tile: its letter is set once; `Matched` is set by `Colorize` and never reset. */
  class Card {
    const letter: string
    var matched: bool

    /** `Instantiate` followed by `Setup(letter)`. */
    constructor (letter: string)
      ensures this.letter == letter && !matched
    {
      this.letter := letter;
      matched := false;
    }

    method Colorize()
      modifies this
      ensures matched
    {
      matched := true;
    }
  }

  /** What `Announce` shows for one word: the word, its score and its multiplier. */
  datatype Announcement = Announcement(word: string, score: nat, multiplier: int, fullMatch: bool)

  /** `c.Letter`, how a tile is rendered. */
  function LetterOf(c: Card): string {
    c.letter
  }

  /** The tiles a list of cells holds. */
  function CardsIn(cells: seq<Option<Card>>): set<Card> {
    set i | 0 <= i < |cells| && cells[i].Some? :: cells[i].value
  }

  lemma CardsInIff(cells: seq<Option<Card>>)
    ensures forall c :: c in CardsIn(cells) <==> Some(c) in cells
  {
    forall c | Some(c) in cells ensures c in CardsIn(cells) {
      var i :| 0 <= i < |cells| && cells[i] == Some(c);
    }
  }

  /** The cells of a list of matches, one match after the other. */
  function Covered(ms: seq<Matching.Match<Card>>): seq<Option<Card>> {
    if |ms| == 0 then [] else Covered(ms[..|ms| - 1]) + ms[|ms| - 1].cells
  }

  lemma CoveredStep(ms: seq<Matching.Match<Card>>, k: nat)
    requires k < |ms|
    ensures Covered(ms[..k + 1]) == Covered(ms[..k]) + ms[k].cells
  {
    assert ms[..k + 1][..k] == ms[..k];
  }

  /**
   * The index of the first empty cell of `cells`, or `|cells|` when every
   * cell holds a tile: where a loop over the tiles of a match meets `null`.
   */
  function FirstGap<T>(cells: seq<Option<T>>): (r: nat)
    ensures r <= |cells|
    ensures forall i :: 0 <= i < r ==> cells[i].Some?
    ensures r < |cells| ==> cells[r].None?
  {
    if |cells| == 0 || cells[0].None? then 0 else 1 + FirstGap(cells[1..])
  }

  /**
   * The number of matches of `ms` a check gets through: those before the
   * first match that spans an empty cell (a dictionary key holding a space).
   */
  function Reach(ms: seq<Matching.Match<Card>>): (r: nat)
    ensures r <= |ms|
    ensures forall k :: 0 <= k < r ==> None !in ms[k].cells
    ensures r < |ms| ==> None in ms[r].cells
  {
    if |ms| == 0 || None in ms[0].cells then 0 else 1 + Reach(ms[1..])
  }

  /** No match spans an empty cell. */
  predicate Intact(ms: seq<Matching.Match<Card>>) {
    forall m | m in ms :: None !in m.cells
  }

  /** A check gets through all of its matches exactly when none spans an empty cell. */
  lemma ReachIntact(ms: seq<Matching.Match<Card>>)
    ensures Reach(ms) == |ms| <==> Intact(ms)
  {
    if Reach(ms) < |ms| {
      assert ms[Reach(ms)] in ms;
    }
  }

  /** Sorting the matches keeps whether one spans an empty cell. */
  lemma SortedIntact(ms: seq<Matching.Match<Card>>)
    ensures Intact(Matching.SortByLength(ms)) <==> Intact(ms)
  {
    var sorted := Matching.SortByLength(ms);
    assert multiset(sorted) == multiset(ms);
    if Intact(ms) {
      forall m | m in sorted ensures None !in m.cells {
        assert m in multiset(ms);
      }
    }
    if Intact(sorted) {
      forall m | m in ms ensures None !in m.cells {
        assert m in multiset(sorted);
      }
    }
  }

  /** The first gap of a list of cells is its end exactly when it holds no empty cell. */
  lemma FirstGapWhole<T>(cells: seq<Option<T>>)
    ensures FirstGap(cells) == |cells| <==> None !in cells
  {
    if FirstGap(cells) < |cells| {
      assert cells[FirstGap(cells)] == None;
    }
  }

  /**
   * The inner loop of `Check`: colours the tiles of one match in order; at an
   * empty cell `c.transform` throws and the loop ends. Of the tiles in
   * `scope`, exactly those become matched that were matched or stand before
   * the first empty cell.
   */
  method ColorizeAll(cells: seq<Option<Card>>, ghost scope: set<Card>)
    modifies CardsIn(cells)
    ensures forall c | c in scope :: c.matched == (old(c.matched) || Some(c) in cells[..FirstGap(cells)])
  {
    var i := 0;
    while i < |cells| && cells[i].Some?
      invariant 0 <= i <= FirstGap(cells)
      invariant forall c | c in scope :: c.matched == (old(c.matched) || Some(c) in cells[..i])
    {
      cells[i].value.Colorize();
      assert cells[..i + 1] == cells[..i] + [cells[i]];
      i := i + 1;
    }
  }

  /** The position of a cell when the board is enumerated column by column. */
  function Index(p: (nat, nat)): nat {
    p.0 * Matching.Size + p.1
  }

  /** Distinct positions have distinct indices. */
  lemma IndexInjective(p: (nat, nat), q: (nat, nat))
    requires p.1 < Matching.Size && q.1 < Matching.Size
    ensures Index(p) == Index(q) <==> p == q
  {
    if p.0 < q.0 {
      assert Index(p) < (p.0 + 1) * Matching.Size <= q.0 * Matching.Size <= Index(q);
    } else if q.0 < p.0 {
      assert Index(q) < (q.0 + 1) * Matching.Size <= p.0 * Matching.Size <= Index(p);
    }
  }

  class Field {
    const grid: TileGrid<Card>
    const dictionary: WordDictionary
    /** The matches of the latest check, in the order the scans found them. */
    var words: seq<Matching.Match<Card>>
    /** The tile the last move placed from the hand, if it can still be undone. */
    var lastMoved: Option<Card>
    var undoing: bool
    /** How much each further word of one check adds to the multiplier. */
    var multiAddition: int
    /** Every tile ever placed on the board: the tiles a check may mark. */
    ghost var Repr: set<Card>

    /** A 7 by 7 board of one-letter tiles and a multiplier step of at least 1. */
    ghost predicate Valid()
      reads this`multiAddition, this`Repr, grid.data
    {
      Shaped() && multiAddition >= 1 &&
      forall x, y | Board.OnBoard(x, y) :: grid.data[x, y].Some? ==> grid.data[x, y].value in Repr
    }

    /** A 7 by 7 board of one-letter tiles. */
    ghost predicate Shaped()
      reads grid.data
    {
      Board.IsBoard(grid) &&
      forall x, y | Board.OnBoard(x, y) :: grid.data[x, y].Some? ==> |grid.data[x, y].value.letter| == 1
    }

    constructor (dictionary: WordDictionary)
      ensures Valid() && fresh(grid) && fresh(grid.data) && this.dictionary == dictionary
      ensures words == [] && lastMoved == None && !undoing && multiAddition == 1 && Repr == {}
      ensures forall x, y | Board.OnBoard(x, y) :: grid.data[x, y] == None
    {
      this.dictionary := dictionary;
      grid := new TileGrid(Matching.Size, Matching.Size);
      words := [];
      lastMoved := None;
      undoing := false;
      multiAddition := 1;
      Repr := {};
    }

    /** The tile at (x, y) carries `letter`. */
    predicate Holds(x: int, y: int, letter: string)
      requires Shaped() && Board.OnBoard(x, y)
      reads grid.data
    {
      grid.data[x, y].Some? && grid.data[x, y].value.letter == letter
    }

    /** The words a check at (x, y) finds on the current board. */
    function FoundAt(x: int, y: int): seq<Matching.Match<Card>>
      requires Shaped() && Board.OnBoard(x, y)
      reads grid.data, dictionary`words
    {
      Matching.FourWay(dictionary.words, grid.GetRow(y), grid.GetColumn(x), x, y, LetterOf)
    }

    /** The full-match test: every cell is empty, holds a matched tile, or holds one of `cells`. */
    predicate FullMatch(cells: seq<Option<Card>>)
      requires Valid()
      reads this`multiAddition, this`Repr, grid.data, Repr
    {
      forall x, y | 0 <= x < Matching.Size && 0 <= y < Matching.Size ::
        grid.data[x, y].None? || grid.data[x, y].value.matched || grid.data[x, y] in cells
    }

    /** The tiles of the footprint already marked by an earlier check. */
    ghost function Marked(): set<Card>
      reads this`Repr, Repr
    {
      set c | c in Repr && c.matched
    }

    /** Every cell is empty, holds a tile of `marked`, or holds one of `cells`. */
    ghost predicate Settled(marked: set<Card>, cells: seq<Option<Card>>)
      requires Shaped()
      reads grid.data
    {
      forall x, y | Board.OnBoard(x, y) :: grid.data[x, y].None? || grid.data[x, y].value in marked || grid.data[x, y] in cells
    }

    /** Places `card` at (x, y) and, when asked, checks there. */
    method AddCard(card: Card, x: int, y: int, check: bool, fromHand: bool) returns (shown: seq<Announcement>, completed: bool)
      requires Valid() && Board.OnBoard(x, y) && |card.letter| == 1
      modifies this`words, this`undoing, this`lastMoved, this`Repr, grid.data, Repr, card
      ensures Valid() && Repr == old(Repr) + {card}
      ensures grid.data[x, y] == Some(card)
      ensures forall i, j | Board.OnBoard(i, j) && (i != x || j != y) :: grid.data[i, j] == old(grid.data[i, j])
      ensures lastMoved == (if fromHand then Some(card) else None)
      ensures check ==> words == FoundAt(x, y)
      ensures check ==> (completed <==> Intact(words))
      ensures check && completed ==> |shown| == |words| && !undoing
      ensures !completed ==> check && |shown| < |words| && undoing == old(undoing)
      ensures !check ==> completed && shown == [] && words == old(words) && undoing == old(undoing)
    {
      Place(card, x, y, fromHand);
      shown, completed := CheckIf(x, y, check);
    }

    /** The checking half of `AddCard`: a check at (x, y) when asked, nothing otherwise. */
    method CheckIf(x: int, y: int, check: bool) returns (shown: seq<Announcement>, completed: bool)
      requires Valid() && Board.OnBoard(x, y)
      modifies this`words, this`undoing, Repr
      ensures Valid()
      ensures check ==> words == FoundAt(x, y)
      ensures check ==> (completed <==> Intact(words))
      ensures check && completed ==> |shown| == |words| && !undoing
      ensures !completed ==> check && |shown| < |words| && undoing == old(undoing)
      ensures !check ==> completed && shown == [] && words == old(words) && undoing == old(undoing)
    {
      shown, completed := [], true;
      if check {
        shown, completed := Check(x, y);
      }
    }

    /** The placing half of `AddCard`: records the move for undo and puts `card` at (x, y). */
    method Place(card: Card, x: int, y: int, fromHand: bool)
      requires Valid() && Board.OnBoard(x, y) && |card.letter| == 1
      modifies this`lastMoved, this`Repr, grid.data
      ensures Valid() && Repr == old(Repr) + {card}
      ensures grid.data[x, y] == Some(card)
      ensures forall i, j | Board.OnBoard(i, j) && (i != x || j != y) :: grid.data[i, j] == old(grid.data[i, j])
      ensures lastMoved == (if fromHand then Some(card) else None)
    {
      lastMoved := if fromHand then Some(card) else None;
      grid.Set(Some(card), x, y);
      Repr := Repr + {card};
    }

    /** The four scans of `Check(x, y)` on the current board. */
    method Scan(x: int, y: int) returns (found: seq<Matching.Match<Card>>)
      requires Valid() && Board.OnBoard(x, y)
      ensures found == FoundAt(x, y)
    {
      found := Matching.Scan(dictionary.words, grid.GetRow(y), grid.GetColumn(x), x, y, LetterOf);
    }

    /** Every tile in row `y` and in column `x` is in the footprint. */
    lemma LinesInRepr(x: int, y: int)
      requires Valid() && Board.OnBoard(x, y)
      ensures forall v | v in grid.GetRow(y) && v.Some? :: v.value in Repr
      ensures forall v | v in grid.GetColumn(x) && v.Some? :: v.value in Repr
    {
      var row, col := grid.GetRow(y), grid.GetColumn(x);
      forall v | v in row && v.Some? ensures v.value in Repr {
        var k :| 0 <= k < |row| && row[k] == v;
        assert grid.data[k, y] == v;
      }
      forall v | v in col && v.Some? ensures v.value in Repr {
        var k :| 0 <= k < |col| && col[k] == v;
        assert grid.data[x, k] == v;
      }
    }

    /** Every tile a match of the check at (x, y) holds stands on the board. */
    lemma FoundOnBoard(x: int, y: int)
      requires Valid() && Board.OnBoard(x, y)
      ensures forall m :: m in FoundAt(x, y) ==> CardsIn(m.cells) <= Repr
    {
      var row, col := grid.GetRow(y), grid.GetColumn(x);
      var found := Matching.FourWay(dictionary.words, row, col, x, y, LetterOf);
      assert FoundAt(x, y) == found;
      Matching.FourWayCells(dictionary.words, row, col, x, y, LetterOf);
      LinesInRepr(x, y);
      forall m, c | m in found && c in CardsIn(m.cells) ensures c in Repr {
        var i :| 0 <= i < |m.cells| && m.cells[i] == Some(c);
        assert Some(c) in m.cells;
      }
    }

    /** The announcement of the `k`-th word in length order. */
    function Announced(m: Matching.Match<Card>, k: nat, step: int, full: bool): Announcement
    {
      Announcement(m.word, Matching.GetScore(m.word), Matching.Multiplier(k, step) * (if full then 10 else 1), full)
    }

    /** The announcements of the words `ms` in order, the i-th full-match flag being `flags[i]`. */
    function Announcements(ms: seq<Matching.Match<Card>>, flags: seq<bool>, step: int): (r: seq<Announcement>)
      requires |flags| == |ms|
      ensures |r| == |ms|
    {
      seq(|ms|, i requires 0 <= i < |ms| => Announced(ms[i], i, step, flags[i]))
    }

    lemma AnnouncementsStep(ms: seq<Matching.Match<Card>>, flags: seq<bool>, step: int, k: nat)
      requires k < |ms| == |flags|
      ensures Announcements(ms[..k + 1], flags[..k + 1], step) == Announcements(ms[..k], flags[..k], step) + [Announced(ms[k], k, step, flags[k])]
    {
    }

    /**
     * `shown` announces the words `sorted` in order: the k-th with multiplier
     * `1 + k * multiAddition`, ten times that exactly when the tiles of
     * `marked` and of the first k + 1 words cover the board.
     */
    ghost predicate Announces(shown: seq<Announcement>, sorted: seq<Matching.Match<Card>>, marked: set<Card>)
      requires Shaped()
      reads this`multiAddition, grid.data
    {
      |shown| == |sorted| &&
      forall k :: 0 <= k < |shown| ==> shown[k] == Announced(sorted[k], k, multiAddition, Settled(marked, Covered(sorted[..k + 1])))
    }

    /** For each k, whether the tiles of `marked` and of the first k + 1 words of `sorted` cover the board. */
    ghost function SettledFlags(marked: set<Card>, sorted: seq<Matching.Match<Card>>): (r: seq<bool>)
      requires Shaped()
      reads grid.data
      ensures |r| == |sorted|
      ensures forall k :: 0 <= k < |sorted| ==> r[k] == Settled(marked, Covered(sorted[..k + 1]))
    {
      seq(|sorted|, k requires 0 <= k < |sorted| && Shaped() reads grid.data => Settled(marked, Covered(sorted[..k + 1])))
    }

    /** Announcing with the flags of `SettledFlags` is announcing as `Announces` says. */
    lemma AnnouncesFrom(shown: seq<Announcement>, sorted: seq<Matching.Match<Card>>, marked: set<Card>)
      requires Shaped()
      requires shown == Announcements(sorted, SettledFlags(marked, sorted), multiAddition)
      ensures Announces(shown, sorted, marked)
    {
    }

    /** Of the tiles ever placed, exactly those of `marked` and of `cells` are matched. */
    ghost predicate MarkedExactly(marked: set<Card>, cells: seq<Option<Card>>)
      reads this`Repr, Repr
    {
      forall c | c in Repr :: c.matched == (c in marked || Some(c) in cells)
    }

    /**
     * While the marked tiles are `marked` and those of `covered`, the
     * full-match test of `cells` asks whether `marked`, `covered` and `cells`
     * together hold every tile of the board.
     */
    lemma FullStep(marked: set<Card>, covered: seq<Option<Card>>, cells: seq<Option<Card>>)
      requires Valid()
      requires MarkedExactly(marked, covered)
      ensures FullMatch(cells) == Settled(marked, covered + cells)
    {
      forall a, b | Board.OnBoard(a, b)
        ensures (grid.data[a, b].None? || grid.data[a, b].value.matched || grid.data[a, b] in cells) <==>
          (grid.data[a, b].None? || grid.data[a, b].value in marked || grid.data[a, b] in covered + cells)
      {
        if grid.data[a, b].Some? {
          assert grid.data[a, b].value in Repr;
        }
      }
    }

    /** `SettledFlags` of a prefix is the prefix of `SettledFlags`. */
    lemma SettledFlagsPrefix(marked: set<Card>, sorted: seq<Matching.Match<Card>>, k: nat)
      requires Shaped() && k <= |sorted|
      ensures SettledFlags(marked, sorted[..k]) == SettledFlags(marked, sorted)[..k]
    {
      var prefix, whole := SettledFlags(marked, sorted[..k]), SettledFlags(marked, sorted);
      forall j | 0 <= j < k ensures prefix[j] == whole[j] {
        assert sorted[..k][..j + 1] == sorted[..j + 1];
      }
    }

    /**
     * The tiles a check over `sorted` marks: those of the words it gets
     * through, then those of the word it stops at up to its first empty cell.
     */
    ghost function Coloured(sorted: seq<Matching.Match<Card>>): seq<Option<Card>> {
      var n := Reach(sorted);
      Covered(sorted[..n]) + if n < |sorted| then sorted[n].cells[..FirstGap(sorted[n].cells)] else []
    }

    /**
     * The announcing loop of a check: the words of `sorted` in turn, the
     * k-th with multiplier `1 + k * multiAddition`, ten times that when the
     * board is fully matched once its tiles are marked, which they then are.
     * A word spanning an empty cell stops the loop: its `Announce` throws
     * before showing anything, its tiles before the gap are coloured, and
     * the colouring throws at the gap; `completed` says whether the loop
     * got through.
     */
    method Announce(sorted: seq<Matching.Match<Card>>, ghost marked: set<Card>) returns (shown: seq<Announcement>, completed: bool)
      requires Valid()
      requires forall m :: m in sorted ==> CardsIn(m.cells) <= Repr
      requires MarkedExactly(marked, [])
      modifies Repr
      ensures completed <==> Reach(sorted) == |sorted|
      ensures Announces(shown, sorted[..Reach(sorted)], marked)
      ensures MarkedExactly(marked, Coloured(sorted))
    {
      ghost var settled := SettledFlags(marked, sorted);
      ghost var reach := Reach(sorted);
      var multi := 1;
      shown := [];
      var k := 0;
      while k < |sorted| && None !in sorted[k].cells
        modifies Repr
        invariant 0 <= k <= reach && |shown| == k
        invariant multi == Matching.Multiplier(k, multiAddition)
        invariant shown == Announcements(sorted[..k], settled[..k], multiAddition)
        invariant MarkedExactly(marked, Covered(sorted[..k]))
      {
        var m := sorted[k];
        assert k < reach;
        assert m in sorted;
        FullStep(marked, Covered(sorted[..k]), m.cells);
        var full := FullMatch(m.cells);
        CoveredStep(sorted, k);
        assert full == settled[k];
        AnnouncementsStep(sorted, settled, multiAddition, k);
        shown := shown + [Announcement(m.word, Matching.GetScore(m.word), if full then multi * 10 else multi, full)];
        FirstGapWhole(m.cells);
        assert m.cells[..FirstGap(m.cells)] == m.cells;
        ColorizeAll(m.cells, Repr);
        Matching.MultiplierStep(k, multiAddition);
        multi := multi + multiAddition;
        k := k + 1;
      }
      assert k == reach;
      completed := k == |sorted|;
      if !completed {
        assert sorted[k] in sorted;
        ColorizeAll(sorted[k].cells, Repr);
      }
      SettledFlagsPrefix(marked, sorted, k);
      AnnouncesFrom(shown, sorted[..k], marked);
    }

    /** The same holds once the matches are sorted by length. */
    lemma SortedOnBoard(x: int, y: int)
      requires Valid() && Board.OnBoard(x, y)
      ensures forall m :: m in Matching.SortByLength(FoundAt(x, y)) ==> CardsIn(m.cells) <= Repr
    {
      var found := FoundAt(x, y);
      FoundOnBoard(x, y);
      forall m | m in Matching.SortByLength(found) ensures CardsIn(m.cells) <= Repr {
        assert m in multiset(Matching.SortByLength(found));
      }
    }

    /**
     * `Check(x, y)`: records the words through (x, y), then announces them in
     * stable ascending length order and marks their tiles. When a word spans
     * an empty cell the check stops there, as `Announce` says, and `undoing`
     * is left as it was; `completed` says whether it got through.
     */
    method Check(x: int, y: int) returns (shown: seq<Announcement>, completed: bool)
      requires Valid() && Board.OnBoard(x, y)
      modifies this`words, this`undoing, Repr
      ensures Valid()
      ensures words == old(FoundAt(x, y))
      ensures completed <==> Intact(words)
      ensures completed <==> |shown| == |words|
      ensures |shown| <= |words|
      ensures completed ==> !undoing
      ensures !completed ==> undoing == old(undoing)
      ensures Announces(shown, Matching.SortByLength(words)[..Reach(Matching.SortByLength(words))], old(Marked()))
      ensures MarkedExactly(old(Marked()), Coloured(Matching.SortByLength(words)))
    {
      ghost var marked := Marked();
      var found := Scan(x, y);
      words := found;
      var sorted := Matching.SortByLength(found);
      SortedOnBoard(x, y);
      shown, completed := Announce(sorted, marked);
      SortedIntact(found);
      ReachIntact(sorted);
      if completed {
        undoing := false;
      }
    }

    /** Takes the last tile placed from the hand, standing at (x, y), back off the board. */
    method Undo(x: int, y: int)
      requires Valid() && Board.OnBoard(x, y)
      modifies this`lastMoved, this`undoing, grid.data
      ensures Valid()
      ensures old(lastMoved).Some? ==> grid.data[x, y] == None && lastMoved == None && undoing
      ensures old(lastMoved).None? ==> grid.data[x, y] == old(grid.data[x, y]) && lastMoved == None && undoing == old(undoing)
      ensures forall i, j | Board.OnBoard(i, j) && (i != x || j != y) :: grid.data[i, j] == old(grid.data[i, j])
    {
      if lastMoved.Some? {
        grid.Set(None, x, y);
        lastMoved := None;
        undoing := true;
      }
    }

    /**
     * `SlideVertical(diff)`: the edge row's tiles are removed and every tile
     * moves one row towards that edge; with distinct tiles that is a plain
     * shift, the far row left empty.
     */
    method SlideVertical(diff: int)
      requires Valid() && (diff == 1 || diff == -1)
      modifies grid.data
      ensures Valid()
      ensures forall x, y | Board.OnBoard(x, y) ::
        grid.data[x, y] == (if 0 <= y + diff < Matching.Size then Cleared(old(grid.data[x, y + diff]), Board.NonEmpty(old(grid.GetRow(Board.VerticalEdge(diff)))))
          else None)
      ensures old(Board.DistinctTiles(grid)) ==> forall x, y | Board.OnBoard(x, y) ::
        grid.data[x, y] == if 0 <= y + diff < Matching.Size then old(grid.data[x, y + diff]) else None
    {
      if Board.DistinctTiles(grid) {
        Board.ClearedOnlyEdgeRow(grid, Board.VerticalEdge(diff));
      }
      var edge := Board.SlideVertical(grid, diff);
    }

    /** `SlideHorizontal(diff)`: the same along the rows, towards the right edge for `diff == 1`. */
    method SlideHorizontal(diff: int)
      requires Valid() && (diff == 1 || diff == -1)
      modifies grid.data
      ensures Valid()
      ensures forall x, y | Board.OnBoard(x, y) ::
        grid.data[x, y] == (if 0 <= x - diff < Matching.Size then Cleared(old(grid.data[x - diff, y]), Board.NonEmpty(old(grid.GetColumn(Board.HorizontalEdge(diff)))))
          else None)
      ensures old(Board.DistinctTiles(grid)) ==> forall x, y | Board.OnBoard(x, y) ::
        grid.data[x, y] == if 0 <= x - diff < Matching.Size then old(grid.data[x - diff, y]) else None
    {
      if Board.DistinctTiles(grid) {
        Board.ClearedOnlyEdgeColumn(grid, Board.HorizontalEdge(diff));
      }
      var edge := Board.SlideHorizontal(grid, diff);
    }

    /** `All().Where(c => c && c.Letter == letter)` as board positions, column by column from index `i`. */
    function Spots(letter: string, i: nat): (r: seq<(nat, nat)>)
      requires Shaped() && i <= Matching.Size * Matching.Size
      reads grid.data
      ensures forall k :: 0 <= k < |r| ==> Board.OnBoard(r[k].0, r[k].1) && Holds(r[k].0, r[k].1, letter) && i <= Index(r[k])
      ensures forall a, b :: 0 <= a < b < |r| ==> Index(r[a]) < Index(r[b])
      decreases Matching.Size * Matching.Size - i
    {
      if i == Matching.Size * Matching.Size then []
      else
        var p: (nat, nat) := (i / Matching.Size, i % Matching.Size);
        assert Index(p) == i;
        (if Holds(p.0, p.1, letter) then [p] else []) + Spots(letter, i + 1)
    }

    /** Completeness: every cell from index `i` on that carries `letter` is among the spots. */
    lemma {:induction false} SpotsComplete(letter: string, i: nat)
      requires Shaped() && i <= Matching.Size * Matching.Size
      ensures forall x, y | Board.OnBoard(x, y) && i <= Index((x, y)) && Holds(x, y, letter) :: (x, y) in Spots(letter, i)
      decreases Matching.Size * Matching.Size - i
    {
      if i < Matching.Size * Matching.Size {
        var p: (nat, nat) := (i / Matching.Size, i % Matching.Size);
        assert Index(p) == i;
        SpotsComplete(letter, i + 1);
        forall x, y | Board.OnBoard(x, y) && i <= Index((x, y)) && Holds(x, y, letter)
          ensures (x, y) in Spots(letter, i)
        {
          IndexInjective((x, y), p);
        }
      }
    }

    /** The cells at `spots`, in order. */
    function TilesAt(spots: seq<(nat, nat)>): seq<Option<Card>>
      requires Shaped()
      requires forall k :: 0 <= k < |spots| ==> Board.OnBoard(spots[k].0, spots[k].1)
      reads grid.data
    {
      seq(|spots|, k requires 0 <= k < |spots| reads grid.data => grid.data[spots[k].0, spots[k].1])
    }

    /**
     * Removing the tiles at `spots`, the cells carrying `letter`, empties
     * (x, y) exactly when it carries `letter`.
     */
    lemma ClearedIffHolds(letter: string, spots: seq<(nat, nat)>, x: int, y: int)
      requires Valid() && Board.OnBoard(x, y)
      requires forall k :: 0 <= k < |spots| ==> Board.OnBoard(spots[k].0, spots[k].1) && Holds(spots[k].0, spots[k].1, letter)
      requires Holds(x, y, letter) ==> (x, y) in spots
      ensures Cleared(grid.data[x, y], TilesAt(spots)) == if Holds(x, y, letter) then None else grid.data[x, y]
    {
      var cards := TilesAt(spots);
      if Holds(x, y, letter) {
        var k :| 0 <= k < |spots| && spots[k] == (x, y);
        assert cards[k] == grid.data[x, y];
      } else {
        forall k | 0 <= k < |cards| ensures cards[k] != grid.data[x, y] {
          assert Holds(spots[k].0, spots[k].1, letter);
        }
      }
    }

    /**
     * The removal half of `DestroyAll(letter)`: the tiles carrying `letter`,
     * collected column by column, are taken off the board; every other cell
     * keeps its tile.
     */
    method Clear(letter: string) returns (spots: seq<(nat, nat)>)
      requires Valid()
      modifies grid.data
      ensures Valid()
      ensures spots == old(Spots(letter, 0))
      ensures forall x, y | Board.OnBoard(x, y) && old(Holds(x, y, letter)) :: (x, y) in spots
      ensures forall x, y | Board.OnBoard(x, y) ::
        grid.data[x, y] == (if old(Holds(x, y, letter)) then None else old(grid.data[x, y]))
    {
      spots := Spots(letter, 0);
      SpotsComplete(letter, 0);
      var cards := TilesAt(spots);
      forall x, y | Board.OnBoard(x, y)
        ensures Cleared(grid.data[x, y], cards) == if Holds(x, y, letter) then None else grid.data[x, y]
      {
        ClearedIffHolds(letter, spots, x, y);
      }
      grid.Remove(cards);
    }

    /**
     * One step of the replacement: a new tile carrying `letter` at (x, y),
     * then the check there; `completed` says whether the check got through.
     */
    method Replace(x: int, y: int, letter: string) returns (shown: seq<Announcement>, completed: bool)
      requires Valid() && Board.OnBoard(x, y) && |letter| == 1
      modifies this`words, this`undoing, this`lastMoved, this`Repr, grid.data, Repr
      ensures Valid()
      ensures grid.data[x, y].Some? && grid.data[x, y].value.letter == letter && fresh(grid.data[x, y].value)
      ensures Repr == old(Repr) + {grid.data[x, y].value}
      ensures forall i, j | Board.OnBoard(i, j) && (i != x || j != y) :: grid.data[i, j] == old(grid.data[i, j])
      ensures lastMoved == None
      ensures completed <==> Intact(words)
      ensures completed ==> !undoing
      ensures !completed ==> undoing == old(undoing)
    {
      var card := new Card(letter);
      Place(card, x, y, false);
      ghost var placed := Repr;
      shown, completed := Check(x, y);
      assert Repr == placed;
    }

    /**
     * The replacement half of `DestroyAll(letter, replacement)`: at each of
     * `spots` in turn a new tile carrying `replacement` is placed without a
     * check (`AddCard(card, false)`), then the check at that spot runs. The
     * checks are nested in this loop, so the first check that stops ends it:
     * the later spots get no tile. `completed` says whether every check got
     * through.
     */
    method Refill(spots: seq<(nat, nat)>, replacement: string) returns (shown: seq<seq<Announcement>>, completed: bool)
      requires Valid() && |replacement| == 1
      requires forall k :: 0 <= k < |spots| ==> Board.OnBoard(spots[k].0, spots[k].1)
      requires forall a, b :: 0 <= a < b < |spots| ==> spots[a] != spots[b]
      modifies this`words, this`undoing, this`lastMoved, this`Repr, grid.data, Repr
      ensures Valid() && |shown| <= |spots|
      ensures completed ==> |shown| == |spots|
      ensures !completed ==> |shown| > 0 && !Intact(words)
      ensures forall k :: 0 <= k < |shown| ==>
        var v := grid.data[spots[k].0, spots[k].1];
        v.Some? && v.value.letter == replacement && fresh(v.value)
      ensures forall x, y | Board.OnBoard(x, y) && (x, y) !in spots[..|shown|] :: grid.data[x, y] == old(grid.data[x, y])
      ensures |shown| > 0 ==> lastMoved == None
      ensures completed && |spots| > 0 ==> !undoing
      ensures !completed ==> undoing == (old(undoing) && |shown| == 1)
      ensures |shown| == 0 ==> lastMoved == old(lastMoved) && undoing == old(undoing)
    {
      shown := [];
      completed := true;
      var i := 0;
      while i < |spots| && completed
        invariant Valid() && 0 <= i <= |spots| && |shown| == i
        invariant fresh(Repr - old(Repr))
        invariant forall k :: 0 <= k < i ==>
          var v := grid.data[spots[k].0, spots[k].1];
          v.Some? && v.value.letter == replacement && fresh(v.value)
        invariant forall x, y | Board.OnBoard(x, y) && (x, y) !in spots[..i] :: grid.data[x, y] == old(grid.data[x, y])
        invariant i > 0 ==> lastMoved == None
        invariant completed && i > 0 ==> !undoing
        invariant !completed ==> i > 0 && !Intact(words) && undoing == (old(undoing) && i == 1)
        invariant i == 0 ==> completed && lastMoved == old(lastMoved) && undoing == old(undoing)
      {
        var found, through := Replace(spots[i].0, spots[i].1, replacement);
        shown := shown + [found];
        completed := through;
        assert spots[..i + 1] == spots[..i] + [spots[i]];
        i := i + 1;
      }
    }

    /**
     * `DestroyAll(letter, replacement)`: every tile carrying `letter` leaves
     * the board; with a replacement, each emptied cell then gets a new tile
     * carrying it, column by column, each followed by a check there, until a
     * check stops. No other cell changes.
     */
    method DestroyAll(letter: string, replacement: Option<string>) returns (shown: seq<seq<Announcement>>)
      requires Valid() && (replacement.Some? ==> |replacement.value| == 1)
      modifies this`words, this`undoing, this`lastMoved, this`Repr, grid.data, Repr
      ensures Valid()
      ensures forall x, y | Board.OnBoard(x, y) && !old(Holds(x, y, letter)) :: grid.data[x, y] == old(grid.data[x, y])
      ensures forall x, y | Board.OnBoard(x, y) && old(Holds(x, y, letter)) :: (x, y) in old(Spots(letter, 0))
      ensures |shown| <= (if replacement.None? then 0 else |old(Spots(letter, 0))|)
      ensures forall k | 0 <= k < |shown| ::
        var v := grid.data[old(Spots(letter, 0))[k].0, old(Spots(letter, 0))[k].1];
        v.Some? && replacement.Some? && v.value.letter == replacement.value && fresh(v.value)
      ensures forall k | |shown| <= k < |old(Spots(letter, 0))| :: grid.data[old(Spots(letter, 0))[k].0, old(Spots(letter, 0))[k].1].None?
      ensures replacement.Some? && |shown| < |old(Spots(letter, 0))| ==> !Intact(words)
      ensures replacement.None? ==> lastMoved == old(lastMoved) && undoing == old(undoing)
    {
      var spots := Clear(letter);
      if replacement.None? {
        return [];
      }
      forall a, b | 0 <= a < b < |spots| ensures spots[a] != spots[b] {
        assert Index(spots[a]) < Index(spots[b]);
      }
      var completed;
      label cleared:
      shown, completed := Refill(spots, replacement.value);
      forall k | |shown| <= k < |spots| ensures grid.data[spots[k].0, spots[k].1].None? {
        assert old@cleared(grid.data[spots[k].0, spots[k].1]).None?;
        forall j | 0 <= j < |shown| ensures spots[..|shown|][j] != spots[k] {
        }
      }
    }

    /**
     * `ApplyTwist(twist, first, second)`: the board effect of each twist
     * type; a replacement without a second letter destroys, and adding cards
     * leaves the board alone.
     */
    method ApplyTwist(twist: TwistType, first: string, second: Option<string>) returns (shown: seq<seq<Announcement>>)
      requires Valid() && (second.Some? ==> |second.value| == 1)
      modifies this`words, this`undoing, this`lastMoved, this`Repr, this`multiAddition, grid.data, Repr
      ensures Valid()
      ensures multiAddition == old(multiAddition) + (if twist.MoreMulti? then 1 else 0)
      ensures twist.AddCards? || twist.MoreMulti? ==> forall x, y | Board.OnBoard(x, y) :: grid.data[x, y] == old(grid.data[x, y])
      ensures twist.SlideUp? || twist.SlideDown? ==>
        var diff := if twist.SlideUp? then 1 else -1;
        forall x, y | Board.OnBoard(x, y) ::
          grid.data[x, y] == (if 0 <= y + diff < Matching.Size then Cleared(old(grid.data[x, y + diff]), Board.NonEmpty(old(grid.GetRow(Board.VerticalEdge(diff)))))
            else None)
      ensures twist.SlideRight? || twist.SlideLeft? ==>
        var diff := if twist.SlideRight? then 1 else -1;
        forall x, y | Board.OnBoard(x, y) ::
          grid.data[x, y] == (if 0 <= x - diff < Matching.Size then Cleared(old(grid.data[x - diff, y]), Board.NonEmpty(old(grid.GetColumn(Board.HorizontalEdge(diff)))))
            else None)
      ensures twist.Replace? || twist.Destroy? ==>
        forall x, y | Board.OnBoard(x, y) && !old(Holds(x, y, first)) :: grid.data[x, y] == old(grid.data[x, y])
      ensures twist.Destroy? || (twist.Replace? && second.None?) ==>
        forall x, y | Board.OnBoard(x, y) && old(Holds(x, y, first)) :: grid.data[x, y].None?
      ensures twist.Replace? && second.Some? ==> forall k | 0 <= k < |old(Spots(first, 0))| ::
        var v := grid.data[old(Spots(first, 0))[k].0, old(Spots(first, 0))[k].1];
        if k < |shown| then v.Some? && v.value.letter == second.value && fresh(v.value) else v.None?
      ensures twist.Replace? && second.Some? ==> |shown| <= |old(Spots(first, 0))|
      ensures twist.Replace? && second.Some? && |shown| < |old(Spots(first, 0))| ==> !Intact(words)
      ensures !(twist.Replace? && second.Some?) ==> shown == []
    {
      shown := [];
      match twist
      case Replace =>
        shown := DestroyAll(first, second);
      case Destroy =>
        shown := DestroyAll(first, None);
      case AddCards =>
      case SlideUp =>
        SlideVertical(1);
      case SlideRight =>
        SlideHorizontal(1);
      case SlideLeft =>
        SlideHorizontal(-1);
      case SlideDown =>
        SlideVertical(-1);
      case MoreMulti =>
        multiAddition := multiAddition + 1;
    }
  }
}
