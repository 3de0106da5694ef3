/**
 * The server replica of the board: letters on the same 7 by 7 grid, the same
 * four-way check, which here pays the score, the twists the server applies,
 * and the end of the game once the board is full.
 */
module Server {
  import opened Wrappers
  import opened Grid
  import opened Words
  import Matching
  import Board

  /** A letter renders as itself (`c ?? " "` for the empty cells). */
  function Letter(s: string): string {
    s
  }

  /** `!string.IsNullOrEmpty(c)`. */
  predicate Filled(v: Option<string>) {
    v.Some? && |v.value| > 0
  }

  /** `Count(c => !string.IsNullOrEmpty(c))`. */
  function CountFilled(cells: seq<Option<string>>): (n: nat)
    ensures n <= |cells|
  {
    if |cells| == 0 then 0 else CountFilled(cells[..|cells| - 1]) + (if Filled(cells[|cells| - 1]) then 1 else 0)
  }

  /** The count reaches the length exactly when every cell is filled. */
  lemma {:induction false} CountFilledAll(cells: seq<Option<string>>)
    ensures CountFilled(cells) == |cells| <==> forall i :: 0 <= i < |cells| ==> Filled(cells[i])
  {
    if |cells| > 0 {
      var init := cells[..|cells| - 1];
      CountFilledAll(init);
      assert forall i :: 0 <= i < |init| ==> init[i] == cells[i];
    }
  }

  /** The cells of a list equal to `v`: `Where(c => c == letter)`. */
  function EqualTo(cells: seq<Option<string>>, v: Option<string>): (r: seq<Option<string>>)
    ensures forall w :: w in r <==> w in cells && w == v
  {
    if |cells| == 0 then []
    else
      var init := EqualTo(cells[..|cells| - 1], v);
      assert forall w :: w in cells <==> w in cells[..|cells| - 1] || w == cells[|cells| - 1];
      init + (if cells[|cells| - 1] == v then [cells[|cells| - 1]] else [])
  }

  /** What a check pays: each length-sorted match's score times its multiplier, added up. */
  function Payout(found: seq<Matching.Match<string>>, step: int): (r: int)
    ensures step >= 0 ==> r >= 0
  {
    var sorted := Matching.SortByLength(found);
    if step >= 0 then Matching.PayoutNonNegative(sorted, step); Matching.Sum(Matching.Awards(sorted, step))
    else Matching.Sum(Matching.Awards(sorted, step))
  }

  class Arcade {
    const grid: TileGrid<string>
    const dictionary: WordDictionary
    /** The matches of the latest check, in the order the scans found them. */
    var words: seq<Matching.Match<string>>
    var score: int
    /** How much each further word of one check adds to the multiplier. */
    var multiAddition: int

    /** A 7 by 7 board of one-letter cells and a multiplier step of at least 1. */
    ghost predicate Valid()
      reads this`multiAddition, grid.data
    {
      Shaped() && multiAddition >= 1
    }

    /** A 7 by 7 board of one-letter cells. */
    ghost predicate Shaped()
      reads grid.data
    {
      Board.IsBoard(grid) &&
      forall x, y | Board.OnBoard(x, y) :: grid.data[x, y].Some? ==> |grid.data[x, y].value| == 1
    }

    constructor (dictionary: WordDictionary)
      ensures Valid() && fresh(grid) && fresh(grid.data) && this.dictionary == dictionary
      ensures words == [] && score == 0 && multiAddition == 1
      ensures forall x, y | Board.OnBoard(x, y) :: grid.data[x, y] == None
    {
      this.dictionary := dictionary;
      grid := new TileGrid(Matching.Size, Matching.Size);
      words := [];
      score := 0;
      multiAddition := 1;
    }

    /** `IsGameOver`: at least 49 cells are filled. */
    predicate IsGameOver()
      requires Shaped()
      reads grid.data
    {
      CountFilled(grid.All()) >= 49
    }

    /** The game is over exactly when every cell of the board is filled. */
    lemma GameOverIffFull()
      requires Shaped()
      ensures IsGameOver() <==> forall x, y | Board.OnBoard(x, y) :: Filled(grid.data[x, y])
    {
      var all := grid.All();
      CountFilledAll(all);
      if forall x, y | Board.OnBoard(x, y) :: Filled(grid.data[x, y]) {
        forall i | 0 <= i < |all| ensures Filled(all[i]) {
          assert all[i] in all;
        }
      } else {
        var x, y :| Board.OnBoard(x, y) && !Filled(grid.data[x, y]);
        assert grid.data[x, y] in all;
      }
    }

    /** The words a check at (x, y) finds on the current board. */
    function FoundAt(x: int, y: int): seq<Matching.Match<string>>
      requires Shaped() && Board.OnBoard(x, y)
      reads grid.data, dictionary`words
    {
      Matching.FourWay(dictionary.words, grid.GetRow(y), grid.GetColumn(x), x, y, Letter)
    }

    /** The four scans of `Check(x, y)` on the current board. */
    method Scan(x: int, y: int) returns (found: seq<Matching.Match<string>>)
      requires Valid() && Board.OnBoard(x, y)
      ensures found == FoundAt(x, y)
    {
      found := Matching.Scan(dictionary.words, grid.GetRow(y), grid.GetColumn(x), x, y, Letter);
    }

    /**
     * `Check(x, y)`: records the words through (x, y) and adds to the score,
     * in stable ascending length order, each word's score times a multiplier
     * that starts at 1 and grows by `multiAddition` per word; no full-match
     * bonus. The score never goes down.
     */
    method Check(x: int, y: int)
      requires Valid() && Board.OnBoard(x, y)
      modifies this`words, this`score
      ensures words == FoundAt(x, y)
      ensures score == old(score) + Payout(words, multiAddition)
      ensures score >= old(score)
    {
      words := Scan(x, y);
      var sorted := Matching.SortByLength(words);
      ghost var start := score;
      var multi := 1;
      var k := 0;
      while k < |sorted|
        modifies this`score
        invariant 0 <= k <= |sorted|
        invariant multi == Matching.Multiplier(k, multiAddition)
        invariant score == start + Matching.Sum(Matching.Awards(sorted, multiAddition)[..k])
      {
        var amount := Matching.GetScore(sorted[k].word) * multi;
        Matching.PayStep(sorted, multiAddition, k, multi);
        score := score + amount;
        multi := multi + multiAddition;
        k := k + 1;
      }
      assert Matching.Awards(sorted, multiAddition)[..|sorted|] == Matching.Awards(sorted, multiAddition);
    }

    /** `PlaceLetter(letter, x, y)`: writes the letter at (x, y), then checks there. */
    method PlaceLetter(letter: string, x: int, y: int)
      requires Valid() && Board.OnBoard(x, y) && |letter| == 1
      modifies grid.data, this`words, this`score
      ensures Valid()
      ensures grid.data[x, y] == Some(letter)
      ensures forall i, j | Board.OnBoard(i, j) && (i != x || j != y) :: grid.data[i, j] == old(grid.data[i, j])
      ensures words == FoundAt(x, y)
      ensures score == old(score) + Payout(words, multiAddition)
    {
      grid.Set(Some(letter), x, y);
      Check(x, y);
    }

    /** `RemoveLetter(x, y)`: empties (x, y), then checks there. */
    method RemoveLetter(x: int, y: int)
      requires Valid() && Board.OnBoard(x, y)
      modifies grid.data, this`words, this`score
      ensures Valid()
      ensures grid.data[x, y] == None
      ensures forall i, j | Board.OnBoard(i, j) && (i != x || j != y) :: grid.data[i, j] == old(grid.data[i, j])
      ensures words == FoundAt(x, y)
      ensures score == old(score) + Payout(words, multiAddition)
    {
      grid.Set(None, x, y);
      Check(x, y);
    }

    /**
     * `SlideVertical(diff)`: the letters of the edge row are removed by value,
     * so every cell anywhere holding one of them is emptied; then each cell
     * takes the value of its neighbour at `y + diff` and the far row is left
     * empty.
     */
    method SlideVertical(diff: int)
      requires Valid() && (diff == 1 || diff == -1)
      modifies grid.data
      ensures Valid()
      ensures forall x, y | Board.OnBoard(x, y) ::
        grid.data[x, y] == (if 0 <= y + diff < Matching.Size && old(grid.data[x, y + diff]) !in old(grid.GetRow(Board.VerticalEdge(diff)))
          then old(grid.data[x, y + diff]) else None)
    {
      ghost var row := grid.GetRow(Board.VerticalEdge(diff));
      var edge := Board.SlideVertical(grid, diff);
      forall x, y | Board.OnBoard(x, y) && 0 <= y + diff < Matching.Size
        ensures Cleared(old(grid.data[x, y + diff]), edge) == if old(grid.data[x, y + diff]) in row then None else old(grid.data[x, y + diff])
      {
        Board.ClearedNonEmpty(old(grid.data[x, y + diff]), row);
      }
    }

    /** `SlideHorizontal(diff)`: the same along the rows, towards the right edge for `diff == 1`. */
    method SlideHorizontal(diff: int)
      requires Valid() && (diff == 1 || diff == -1)
      modifies grid.data
      ensures Valid()
      ensures forall x, y | Board.OnBoard(x, y) ::
        grid.data[x, y] == (if 0 <= x - diff < Matching.Size && old(grid.data[x - diff, y]) !in old(grid.GetColumn(Board.HorizontalEdge(diff)))
          then old(grid.data[x - diff, y]) else None)
    {
      ghost var column := grid.GetColumn(Board.HorizontalEdge(diff));
      var edge := Board.SlideHorizontal(grid, diff);
      forall x, y | Board.OnBoard(x, y) && 0 <= x - diff < Matching.Size
        ensures Cleared(old(grid.data[x - diff, y]), edge) == if old(grid.data[x - diff, y]) in column then None else old(grid.data[x - diff, y])
      {
        Board.ClearedNonEmpty(old(grid.data[x - diff, y]), column);
      }
    }

    /**
     * `DestroyAll(letter, replacement)`: empties every cell holding `letter`.
     * The positions of the removed letters are looked up only after the
     * removal, so none is found: the replacement is never written and no
     * check runs.
     */
    method DestroyAll(letter: string, replacement: Option<string>)
      requires Valid()
      modifies grid.data
      ensures Valid()
      ensures forall x, y | Board.OnBoard(x, y) ::
        grid.data[x, y] == (if old(grid.data[x, y]) == Some(letter) then None else old(grid.data[x, y]))
    {
      var cards := EqualTo(grid.All(), Some(letter));
      grid.Remove(cards);
      if replacement.None? {
        return;
      }
      var i := 0;
      while i < |cards|
        modifies {}
        invariant 0 <= i <= |cards|
        invariant forall k, x, y | 0 <= k < i && Board.OnBoard(x, y) :: grid.data[x, y] != cards[k]
      {
        assert cards[i] in cards;
        var p := grid.GetPosition(cards[i]);
        assert p.None?;
        i := i + 1;
      }
    }

    /** `MoreMulti`: each further word of a check adds one more to the multiplier. */
    method MoreMulti()
      requires Valid()
      modifies this`multiAddition
      ensures Valid() && multiAddition == old(multiAddition) + 1
    {
      multiAddition := multiAddition + 1;
    }
  }
}
