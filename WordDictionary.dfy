/**
 * The word list: case-insensitive membership, and the letter bag that hands
 * out letters of random dictionary words.
 */
module Words {
  import opened Wrappers
  import opened Strings

  // ---------------------------------------------------------------------
  // Loading the word list
  // ---------------------------------------------------------------------

  /** One line of the word list as a key: trimmed, lower-cased, cut at the first tab. */
  function Normalize(line: string): (key: string)
    ensures '\t' !in key
    ensures key <= ToLower(Trim(line))
    ensures ToLower(key) == key
  {
    var lowered := ToLower(Trim(line));
    var key := BeforeFirst(lowered, '\t');
    assert forall i :: 0 <= i < |key| ==> key[i] == ToLowerChar(Trim(line)[i]);
    ToLowerIdempotent(Trim(line));
    assert forall i :: 0 <= i < |key| ==> ToLowerChar(key[i]) == key[i];
    key
  }

  /** `Distinct()`: the first occurrence of each value, in order of appearance. */
  function Distinct(s: seq<string>): (r: seq<string>)
    ensures forall i, j :: 0 <= i < j < |r| ==> r[i] != r[j]
    ensures forall w :: w in r <==> w in s
  {
    if |s| == 0 then []
    else
      var d := Distinct(s[..|s| - 1]);
      assert forall w :: w in s <==> w in s[..|s| - 1] || w == s[|s| - 1];
      if s[|s| - 1] in d then d else d + [s[|s| - 1]]
  }

  /** The keys of the word list `text`: its lines normalised, without repeats, in order. */
  function Prep(text: string): (keys: seq<string>)
    ensures |keys| >= 1
    ensures forall i, j :: 0 <= i < j < |keys| ==> keys[i] != keys[j]
    ensures forall line :: line in Split(text, '\n') ==> Normalize(line) in keys
    ensures forall w :: w in keys ==> exists line :: line in Split(text, '\n') && Normalize(line) == w
  {
    var lines := Split(text, '\n');
    var normalised := NormalizeAll(lines);
    NormalizedMembers(lines, normalised);
    assert normalised[0] in Distinct(normalised);
    Distinct(normalised)
  }

  /** Each line of the list normalised, in order. */
  function NormalizeAll(lines: seq<string>): (r: seq<string>)
    ensures |r| == |lines|
  {
    seq(|lines|, i requires 0 <= i < |lines| => Normalize(lines[i]))
  }

  /** A list normalised line by line holds the key of every line and nothing else. */
  lemma NormalizedMembers(lines: seq<string>, r: seq<string>)
    requires |r| == |lines|
    requires forall i :: 0 <= i < |lines| ==> r[i] == Normalize(lines[i])
    ensures forall line :: line in lines ==> Normalize(line) in r
    ensures forall w :: w in r ==> exists line :: line in lines && Normalize(line) == w
  {
    forall line | line in lines ensures Normalize(line) in r {
      var i :| 0 <= i < |lines| && lines[i] == line;
      assert r[i] == Normalize(line);
    }
    forall w | w in r ensures exists line :: line in lines && Normalize(line) == w {
      var i :| 0 <= i < |r| && r[i] == w;
      assert lines[i] in lines;
    }
  }

  /** `IsWord`: the lower-cased text is one of the keys. */
  predicate IsWordIn(keys: seq<string>, word: string) {
    ToLower(word) in keys
  }

  /** Membership ignores case: a text is a word exactly when its lower-case form is. */
  lemma IsWordIgnoresCase(keys: seq<string>, word: string)
    ensures IsWordIn(keys, word) <==> IsWordIn(keys, ToLower(word))
  {
    ToLowerIdempotent(word);
  }

  /** Every line of the word list, in any letter case, is a word of the loaded dictionary. */
  lemma LinesAreWords(text: string, line: string)
    requires line in Split(text, '\n')
    ensures IsWordIn(Prep(text), Normalize(line))
  {
  }

  // ---------------------------------------------------------------------
  // The letter bag
  // ---------------------------------------------------------------------

  /**
   * One use of the random generator by PopulateLetterPool: the index that
   * `Random.Range(0, words.Count)` yields (taken modulo the word count) and
   * the order that sorting by `Random.value` puts the letters in, given as
   * successive picks among the letters not yet placed.
   */
  datatype Draw = Draw(wordPick: nat, order: seq<nat>)

  /** Puts `s` in the order the picks choose; any pick sequence gives a permutation. */
  function Shuffle(s: seq<string>, order: seq<nat>): (r: seq<string>)
    ensures |r| == |s| && multiset(r) == multiset(s)
    decreases |s|
  {
    if |s| == 0 then []
    else
      var i := if |order| == 0 then 0 else order[0] % |s|;
      var rest := s[..i] + s[i + 1..];
      RemoveAt(s, i);
      [s[i]] + Shuffle(rest, if |order| == 0 then [] else order[1..])
  }

  /** Taking out the element at `i` takes one copy of it out of the multiset. */
  lemma RemoveAt(s: seq<string>, i: nat)
    requires i < |s|
    ensures multiset(s[..i] + s[i + 1..]) + multiset{s[i]} == multiset(s)
  {
    assert s == s[..i] + [s[i]] + s[i + 1..];
  }

  /** `Regex.Split(word, string.Empty)`: an empty piece, each character, an empty piece. */
  function SplitChars(word: string): seq<string> {
    [""] + seq(|word|, i requires 0 <= i < |word| => [word[i]]) + [""]
  }

  /** `IsOk`: a non-empty piece that starts with a letter. */
  predicate IsOk(letter: string) {
    |letter| > 0 && IsLetter(letter[0])
  }

  function FilterOk(pieces: seq<string>): (r: seq<string>) {
    if |pieces| == 0 then []
    else FilterOk(pieces[..|pieces| - 1]) + (if IsOk(pieces[|pieces| - 1]) then [pieces[|pieces| - 1]] else [])
  }

  /** The letters of `word`, in order, each as a one-character string. */
  function Letters(word: string): (r: seq<string>)
    ensures forall i :: 0 <= i < |r| ==> |r[i]| == 1 && IsLetter(r[i][0])
  {
    if |word| == 0 then []
    else Letters(word[..|word| - 1]) + (if IsLetter(word[|word| - 1]) then [[word[|word| - 1]]] else [])
  }

  lemma FilterOkAppend(a: seq<string>, b: seq<string>)
    ensures FilterOk(a + b) == FilterOk(a) + FilterOk(b)
    decreases |b|
  {
    if |b| == 0 {
      assert a + b == a;
    } else {
      assert (a + b)[..|a + b| - 1] == a + b[..|b| - 1];
      assert (a + b)[|a + b| - 1] == b[|b| - 1];
      FilterOkAppend(a, b[..|b| - 1]);
    }
  }

  /** Splitting a word into characters and keeping the letters gives exactly its letters. */
  lemma {:induction false} SplitCharsKeepsLetters(word: string)
    ensures FilterOk(SplitChars(word)) == Letters(word)
  {
    var chars := seq(|word|, i requires 0 <= i < |word| => [word[i]]);
    FilterOkAppend([""] + chars, [""]);
    FilterOkAppend([""], chars);
    assert FilterOk([""]) == [] by {
      assert [""][..0] == [];
    }
    FilterOfChars(word);
  }

  lemma {:induction false} FilterOfChars(word: string)
    ensures FilterOk(seq(|word|, i requires 0 <= i < |word| => [word[i]])) == Letters(word)
  {
    var chars := seq(|word|, i requires 0 <= i < |word| => [word[i]]);
    if |word| > 0 {
      var init := word[..|word| - 1];
      assert chars[..|chars| - 1] == seq(|init|, i requires 0 <= i < |init| => [init[i]]);
      FilterOfChars(init);
    }
  }

  // ---------------------------------------------------------------------
  // The dictionary object
  // ---------------------------------------------------------------------

  class WordDictionary {
    /** The keys, in insertion order (the key and value of each entry are the same text). */
    var words: seq<string>
    /** The letters still in the bag, the next one first. */
    var letterPool: seq<string>
    /** The letter shown as coming up next; null until a letter has been drawn. */
    var next: Option<string>
    /** The random generator's successive outputs, and how many have been used. */
    const draws: nat -> Draw
    var drawn: nat

    ghost predicate Valid()
      reads this`words
    {
      |words| >= 1 && forall i, j :: 0 <= i < j < |words| ==> words[i] != words[j]
    }

    constructor (draws: nat -> Draw)
      ensures this.draws == draws && drawn == 0
      ensures words == [] && letterPool == [] && next == None
    {
      this.draws := draws;
      drawn := 0;
      words, letterPool, next := [], [], None;
    }

    /** Empties the bag and loads the word list `text`. */
    method Setup(text: string)
      modifies this`words, this`letterPool
      ensures Valid()
      ensures words == Prep(text) && letterPool == []
    {
      letterPool := [];
      words := Prep(text);
    }

    predicate IsWord(word: string)
      reads this
    {
      IsWordIn(words, word)
    }

    /** The key at the position `Random.Range` picked. */
    function RandomWord(pick: nat): (w: string)
      requires Valid()
      reads this`words
      ensures w in words
    {
      words[pick % |words|]
    }

    /** The letters that the k-th use of the generator adds to the bag, shuffled. */
    function Refill(k: nat): (r: seq<string>)
      requires Valid()
      reads this`words
      ensures multiset(r) == multiset(Letters(RandomWord(draws(k).wordPick)))
      ensures forall i :: 0 <= i < |r| ==> |r[i]| == 1 && IsLetter(r[i][0])
    {
      var d := draws(k);
      var letters := Letters(RandomWord(d.wordPick));
      var r := Shuffle(letters, d.order);
      forall i | 0 <= i < |r| ensures r[i] in letters {
        assert r[i] in multiset(letters);
      }
      r
    }

    /** The bag and generator position after refilling the bag if it was empty. */
    function Topped(pool: seq<string>, k: nat): (seq<string>, nat)
      requires Valid()
      reads this`words
    {
      if pool == [] then (Refill(k), k + 1) else (pool, k)
    }

    /** Adds the shuffled letters of one random dictionary word to the bag. */
    method PopulateLetterPool()
      requires Valid()
      modifies this`letterPool, this`drawn
      ensures drawn == old(drawn) + 1
      ensures letterPool == old(letterPool) + Refill(old(drawn))
    {
      var d := draws(drawn);
      drawn := drawn + 1;
      var word := RandomWord(d.wordPick);
      SplitCharsKeepsLetters(word);
      letterPool := letterPool + Shuffle(FilterOk(SplitChars(word)), d.order);
    }

    /**
     * The first letter of the bag, refilling an empty bag first. With `remove`
     * the letter is taken out and the following letter becomes `next`. Taking
     * the first letter of a bag that is still empty throws.
     */
    method GetRandomLetter(remove: bool) returns (letter: Result<string>)
      requires Valid()
      modifies this`letterPool, this`drawn, this`next
      ensures Valid() && words == old(words)
      ensures !remove ==> (letterPool, drawn) == Topped(old(letterPool), old(drawn)) && next == old(next)
      ensures !remove ==> letter == (if letterPool == [] then Err("ArgumentOutOfRange") else Ok(letterPool[0]))
      ensures remove ==>
        var (first, k) := Topped(old(letterPool), old(drawn));
        if first == [] then
          letterPool == first && drawn == k && next == old(next) && letter.Err?
        else
          (letterPool, drawn) == Topped(first[1..], k) &&
          if letterPool == [] then letter.Err? && next == old(next)
          else letter == Ok(first[0]) && next == Some(letterPool[0])
      decreases if remove then 1 else 0
    {
      if letterPool == [] {
        PopulateLetterPool();
        assert letterPool == Refill(old(drawn));
      }
      if letterPool == [] {
        return Err("ArgumentOutOfRange");
      }
      var first := letterPool[0];
      if remove {
        letterPool := letterPool[1..];
        var following := GetRandomLetter(false);
        if following.Err? {
          return following;
        }
        next := Some(following.value);
      }
      return Ok(first);
    }

    function GetNext(): Option<string>
      reads this
    {
      next
    }
  }

  /**
   * Drawing twice: after a successful draw the bag is not empty, and the
   * letter previewed by GetNext is the one the second draw hands out.
   */
  method DrawTwice(d: WordDictionary) returns (a: Result<string>, preview: Option<string>, b: Result<string>)
    requires d.Valid()
    modifies d
    ensures a.Ok? ==> preview.Some? && (b.Ok? ==> b.value == preview.value)
  {
    a := d.GetRandomLetter(true);
    preview := d.GetNext();
    b := d.GetRandomLetter(true);
  }
}
