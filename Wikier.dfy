/**
 * The wikitext scanners of the Wikipedia client: link targets, category
 * names and the short description of an article.
 */
module Wiki {
  import opened Wrappers
  import opened Strings

  const CategoryKey: string := "[[Category:"
  const LinkKey: string := "[["
  const Close: string := "]]"
  const ShortDescriptionKey: string := "{{short description|"
  const TemplateClose: string := "}}"
  /** The most entries either scanner returns. */
  const MaxEntries: nat := 100

  /** The names a scan collects: link targets or category names. */
  type Names = seq<string>

  /** A bracket body: the text between an opening key and the next `]]`. */
  datatype Body = Body(start: nat, end: nat)

  /**
   * `key` ends just before `b.start`, `]]` starts at `b.end`, and no `]]`
   * starts in between: `b` is the body `IndexOf` delimits.
   */
  predicate IsBody(text: string, key: string, b: Body) {
    b.start >= |key| && OccursAt(text, key, b.start - |key|)
    && b.start <= b.end && OccursAt(text, Close, b.end)
    && forall i :: b.start <= i < b.end ==> !OccursAt(text, Close, i)
  }

  /** The entry a body yields: its first `|`-separated part. */
  function Entry(text: string, b: Body): (e: string)
    requires b.start <= b.end <= |text|
    ensures '|' !in e && e <= text[b.start..b.end]
  {
    BeforeFirst(text[b.start..b.end], '|')
  }

  predicate InText(text: string, bodies: seq<Body>) {
    forall i :: 0 <= i < |bodies| ==> bodies[i].start <= bodies[i].end <= |text|
  }

  /** The entries of the bodies, in order. */
  function Entries(text: string, bodies: seq<Body>): (r: seq<string>)
    requires InText(text, bodies)
    ensures |r| == |bodies|
    ensures forall i :: 0 <= i < |bodies| ==> r[i] == Entry(text, bodies[i])
  {
    if |bodies| == 0 then []
    else Entries(text, bodies[..|bodies| - 1]) + [Entry(text, bodies[|bodies| - 1])]
  }

  /** Each body lies after the previous one and after `pos`. */
  predicate InOrder(key: string, bodies: seq<Body>, pos: nat) {
    (forall i :: 0 <= i < |bodies| ==> pos + |key| <= bodies[i].start)
    && forall i :: 0 <= i < |bodies| - 1 ==> bodies[i].end + |key| <= bodies[i + 1].start
  }

  // ---------------------------------------------------------------------
  // One step of either scan
  // ---------------------------------------------------------------------

  /**
   * The loop step both scanners share: the first `key` at or after `pos`,
   * then the next `]]` after it. No key ends the scan; a key without a
   * closing `]]` makes `Substring` throw.
   */
  function NextBody(text: string, key: string, pos: nat): (r: Result<Option<Body>>)
    requires pos <= |text|
    ensures r.Ok? && r.value.Some? ==> pos + |key| <= r.value.value.start <= r.value.value.end <= |text|
  {
    var found := IndexOf(text, key, pos);
    if found < 0 then Ok(None)
    else
      var start := found + |key|;
      var end := IndexOf(text, Close, start);
      if end < 0 then Err("ArgumentOutOfRange") else Ok(Some(Body(start, end)))
  }

  /**
   * The step finds the body delimited by the first key after `pos`, and it
   * ends the scan exactly when no key occurs after `pos`.
   */
  lemma NextBodyShape(text: string, key: string, pos: nat)
    requires pos <= |text|
    ensures var r := NextBody(text, key, pos);
      (r.Ok? && r.value.Some? ==>
        IsBody(text, key, r.value.value) && forall i :: pos <= i < r.value.value.start - |key| ==> !OccursAt(text, key, i))
      && (r == Ok(None) <==> forall i :: pos <= i ==> !OccursAt(text, key, i))
  {
    IndexOfFirst(text, key, pos);
    var found := IndexOf(text, key, pos);
    if found >= 0 {
      IndexOfFirst(text, Close, found + |key|);
    }
  }

  /** Prefixes `done` to a successful scan's result. */
  function Prepend<X>(done: seq<X>, r: Result<seq<X>>): Result<seq<X>> {
    if r.Err? then r else Ok(done + r.value)
  }

  // ---------------------------------------------------------------------
  // The scan FindCategories and FindWords share
  // ---------------------------------------------------------------------

  /**
   * The bodies the scan keeps from `pos` with `matches` already kept: it
   * stops at 100 entries, at the end of the text or when no key follows;
   * with `skipColons`, a body holding a `:` is passed over and not counted.
   */
  function Bodies(text: string, key: string, skipColons: bool, pos: nat, matches: nat): (r: Result<seq<Body>>)
    requires |key| > 0 && pos <= |text| && matches <= MaxEntries
    ensures r.Ok? ==> matches + |r.value| <= MaxEntries && InText(text, r.value)
    decreases |text| - pos
  {
    if matches >= MaxEntries || pos >= |text| then Ok([])
    else
      match NextBody(text, key, pos)
      case Err(e) => Err(e)
      case Ok(None) => Ok([])
      case Ok(Some(b)) =>
        if skipColons && ':' in text[b.start..b.end] then Bodies(text, key, skipColons, b.end, matches)
        else Prepend([b], Bodies(text, key, skipColons, b.end, matches + 1))
  }

  /** One more body kept: the entries and the pending result both advance by it. */
  lemma ScanAdvance(text: string, done: seq<Body>, b: Body, rest: Result<seq<Body>>)
    requires InText(text, done) && b.start <= b.end <= |text|
    ensures InText(text, done + [b])
    ensures Prepend(done + [b], rest) == Prepend(done, Prepend([b], rest))
  {
    if rest.Ok? {
      assert done + [b] + rest.value == done + ([b] + rest.value);
    }
  }

  /** Keeping one more body appends its entry. */
  lemma EntriesSnoc(text: string, done: seq<Body>, b: Body)
    requires InText(text, done) && b.start <= b.end <= |text|
    ensures InText(text, done + [b]) && Entries(text, done + [b]) == Entries(text, done) + [Entry(text, b)]
  {
    assert (done + [b])[..|done|] == done;
  }

  /** The loop's step: a kept body joins `done` and the scan resumes after it; a throw or the end settles the result. */
  lemma Advance(text: string, key: string, skipColons: bool, pos: nat, matches: nat, done: seq<Body>, whole: Result<seq<Body>>)
    requires |key| > 0 && pos < |text| && matches < MaxEntries && InText(text, done)
    requires Prepend(done, Bodies(text, key, skipColons, pos, matches)) == whole
    ensures match NextBody(text, key, pos)
      case Err(e) => whole == Err(e)
      case Ok(None) => whole == Ok(done)
      case Ok(Some(b)) =>
        if skipColons && ':' in text[b.start..b.end] then
          Prepend(done, Bodies(text, key, skipColons, b.end, matches)) == whole
        else
          Prepend(done + [b], Bodies(text, key, skipColons, b.end, matches + 1)) == whole && InText(text, done + [b])
  {
    match NextBody(text, key, pos)
    case Err(e) =>
    case Ok(None) => assert done + [] == done;
    case Ok(Some(b)) =>
      if !(skipColons && ':' in text[b.start..b.end]) {
        ScanAdvance(text, done, b, Bodies(text, key, skipColons, b.end, matches + 1));
      }
  }

  /**
   * The body of the scan loop: the next key and `]]` (a throw when the `]]`
   * is missing), the text between them, and its first `|`-separated part
   * unless the body is skipped for holding a `:`.
   */
  method NextEntry(text: string, key: string, skipColons: bool, pos: nat) returns (next: Result<Option<Body>>, entry: Option<string>)
    requires pos <= |text|
    ensures next == NextBody(text, key, pos)
    ensures entry.Some? <==> next.Ok? && next.value.Some? && !(skipColons && ':' in text[next.value.value.start..next.value.value.end])
    ensures entry.Some? ==> entry.value == Entry(text, next.value.value)
  {
    var start := IndexOf(text, key, pos);
    if start < 0 {
      return Ok(None), None;
    }
    start := start + |key|;
    var end := IndexOf(text, Close, start);
    if end < 0 {
      return Err("ArgumentOutOfRange"), None;
    }
    next := Ok(Some(Body(start, end)));
    var word := text[start..end];
    if skipColons && ':' in word {
      return next, None;
    }
    var parts := Split(word, '|');
    entry := Some(parts[0]);
  }

  /**
   * The loop of `FindCategories` and `FindWords`: collects the first part of
   * each kept body, in text order, until 100 are kept; a key without a
   * closing `]]` throws.
   */
  method Scan(text: string, key: string, skipColons: bool) returns (r: Result<seq<string>>)
    requires |key| > 0
    ensures match Bodies(text, key, skipColons, 0, 0)
      case Err(e) => r == Err(e)
      case Ok(bodies) => r == Ok(Entries(text, bodies))
  {
    var words: seq<string> := [];
    ghost var done: seq<Body> := [];
    var pos := 0;
    var matches := 0;
    ghost var whole := Bodies(text, key, skipColons, 0, 0);
    if whole.Ok? {
      assert [] + whole.value == whole.value;
    }
    while matches < MaxEntries && pos < |text|
      invariant pos <= |text| && matches <= MaxEntries
      invariant InText(text, done) && words == Entries(text, done)
      invariant Prepend(done, Bodies(text, key, skipColons, pos, matches)) == whole
      decreases |text| - pos
    {
      var next, entry := NextEntry(text, key, skipColons, pos);
      Advance(text, key, skipColons, pos, matches, done, whole);
      if next.Err? {
        return Err(next.error);
      }
      if next.value.None? {
        break;
      }
      var b := next.value.value;
      pos := b.end;
      if entry.None? {
        continue;
      }
      EntriesSnoc(text, done, b);
      words := words + [entry.value];
      done := done + [b];
      matches := matches + 1;
    }
    assert done + [] == done;
    return Ok(words);
  }

  /**
   * Each kept body is delimited by the key and the next `]]`, holds no `:`
   * when those are skipped, and they come in text order after `pos`.
   */
  lemma {:induction false} BodiesShape(text: string, key: string, skipColons: bool, pos: nat, matches: nat)
    requires |key| > 0 && pos <= |text| && matches <= MaxEntries && Bodies(text, key, skipColons, pos, matches).Ok?
    ensures var bodies := Bodies(text, key, skipColons, pos, matches).value;
      InOrder(key, bodies, pos) && forall i :: 0 <= i < |bodies| ==>
        IsBody(text, key, bodies[i]) && (skipColons ==> ':' !in text[bodies[i].start..bodies[i].end])
    decreases |text| - pos
  {
    if matches < MaxEntries && pos < |text| {
      var next := NextBody(text, key, pos);
      NextBodyShape(text, key, pos);
      if next.Ok? && next.value.Some? {
        var b := next.value.value;
        if skipColons && ':' in text[b.start..b.end] {
          BodiesShape(text, key, skipColons, b.end, matches);
        } else {
          BodiesShape(text, key, skipColons, b.end, matches + 1);
          ShapeCons(text, key, skipColons, pos, b, Bodies(text, key, skipColons, b.end, matches + 1).value);
        }
      }
    }
  }

  /**
   * The occurrence of `key` at `i` lies within the span (key and body) of a
   * body in `bodies`, or of one passed over for holding a `:`.
   */
  ghost predicate Accounted(text: string, key: string, skipColons: bool, bodies: seq<Body>, i: int) {
    exists c :: IsBody(text, key, c) && c.start - |key| <= i < c.end && (c in bodies || (skipColons && ':' in text[c.start..c.end]))
  }

  /**
   * Nothing is missed: when the scan succeeds without reaching 100 entries,
   * every occurrence of the key from `pos` on lies within the span (key and
   * body) of a body the scan kept, or of one it passed over for holding a `:`.
   */
  lemma {:induction false} BodiesComplete(text: string, key: string, skipColons: bool, pos: nat, matches: nat)
    requires |key| > 0 && pos <= |text| && matches <= MaxEntries
    requires Bodies(text, key, skipColons, pos, matches).Ok?
    requires matches + |Bodies(text, key, skipColons, pos, matches).value| < MaxEntries
    ensures forall i | pos <= i && OccursAt(text, key, i) :: Accounted(text, key, skipColons, Bodies(text, key, skipColons, pos, matches).value, i)
    decreases |text| - pos
  {
    var bodies := Bodies(text, key, skipColons, pos, matches).value;
    if pos < |text| {
      NextBodyShape(text, key, pos);
      var next := NextBody(text, key, pos);
      if next.Ok? && next.value.Some? {
        var b := next.value.value;
        var skipped := skipColons && ':' in text[b.start..b.end];
        var rest := if skipped then matches else matches + 1;
        BodiesComplete(text, key, skipColons, b.end, rest);
        var later := Bodies(text, key, skipColons, b.end, rest).value;
        assert skipped ==> bodies == later;
        assert !skipped ==> bodies == [b] + later;
        forall i | pos <= i && OccursAt(text, key, i) ensures Accounted(text, key, skipColons, bodies, i) {
          if i < b.end {
            assert IsBody(text, key, b) && b.start - |key| <= i < b.end && (b in bodies || skipped);
          } else {
            var c :| IsBody(text, key, c) && c.start - |key| <= i < c.end && (c in later || (skipColons && ':' in text[c.start..c.end]));
            assert c in later ==> c in bodies;
          }
        }
      }
    }
  }

  /** A body kept before bodies in order after it keeps the whole list in order. */
  lemma ShapeCons(text: string, key: string, skipColons: bool, pos: nat, b: Body, rest: seq<Body>)
    requires IsBody(text, key, b) && pos + |key| <= b.start && (skipColons ==> ':' !in text[b.start..b.end])
    requires InOrder(key, rest, b.end) && forall i :: 0 <= i < |rest| ==>
      IsBody(text, key, rest[i]) && (skipColons ==> ':' !in text[rest[i].start..rest[i].end])
    ensures var bodies := [b] + rest;
      InOrder(key, bodies, pos) && forall i :: 0 <= i < |bodies| ==>
        IsBody(text, key, bodies[i]) && (skipColons ==> ':' !in text[bodies[i].start..bodies[i].end])
  {
    var bodies := [b] + rest;
    assert forall i :: 1 <= i < |bodies| ==> bodies[i] == rest[i - 1];
  }

  /** The entries found: at most 100, none containing `|`, each the start of its body. */
  lemma EntriesShape(text: string, bodies: seq<Body>)
    requires InText(text, bodies) && |bodies| <= MaxEntries
    ensures |Entries(text, bodies)| <= MaxEntries
    ensures forall i :: 0 <= i < |bodies| ==>
      '|' !in Entries(text, bodies)[i] && Entries(text, bodies)[i] <= text[bodies[i].start..bodies[i].end]
  {
  }

  /** A skipped `:` stays out of the entry, which is a prefix of its body. */
  lemma EntryHasNoColon(text: string, b: Body)
    requires b.start <= b.end <= |text| && ':' !in text[b.start..b.end]
    ensures ':' !in Entry(text, b)
  {
    var e := Entry(text, b);
    var body := text[b.start..b.end];
    assert forall k :: 0 <= k < |e| ==> e[k] == body[k];
  }

  // ---------------------------------------------------------------------
  // FindCategories
  // ---------------------------------------------------------------------

  /**
   * `FindCategories`: null for an empty text; otherwise the first part of
   * each `[[Category:...]]` body in text order, at most 100 of them.
   */
  method FindCategories(text: string) returns (r: Result<Option<Names>>)
    ensures |text| == 0 ==> r == Ok(None)
    ensures |text| > 0 && Bodies(text, CategoryKey, false, 0, 0).Err? ==>
      r == Err(Bodies(text, CategoryKey, false, 0, 0).error)
    ensures |text| > 0 && Bodies(text, CategoryKey, false, 0, 0).Ok? ==>
      r == Ok(Some(Entries(text, Bodies(text, CategoryKey, false, 0, 0).value)))
  {
    if |text| == 0 {
      return Ok(None);
    }
    var words := Scan(text, CategoryKey, false);
    r := if words.Err? then Err(words.error) else Ok(Some(words.value));
  }

  /** The categories found: at most 100, none containing `|`, each the start of a `[[Category:` body, in text order. */
  lemma CategoriesShape(text: string)
    requires Bodies(text, CategoryKey, false, 0, 0).Ok?
    ensures var bodies := Bodies(text, CategoryKey, false, 0, 0).value;
      |Entries(text, bodies)| <= MaxEntries && InOrder(CategoryKey, bodies, 0)
      && forall i :: 0 <= i < |bodies| ==>
        '|' !in Entries(text, bodies)[i] && Entries(text, bodies)[i] <= text[bodies[i].start..bodies[i].end]
        && IsBody(text, CategoryKey, bodies[i])
  {
    BodiesShape(text, CategoryKey, false, 0, 0);
    EntriesShape(text, Bodies(text, CategoryKey, false, 0, 0).value);
  }

  // ---------------------------------------------------------------------
  // FindWords
  // ---------------------------------------------------------------------

  /**
   * `FindWords`: an empty list for an empty text; otherwise the first part
   * of each `[[...]]` body without a `:`, in text order, at most 100 of them.
   */
  method FindWords(text: string) returns (r: Result<seq<string>>)
    ensures |text| == 0 ==> r == Ok([])
    ensures |text| > 0 && Bodies(text, LinkKey, true, 0, 0).Err? ==>
      r == Err(Bodies(text, LinkKey, true, 0, 0).error)
    ensures |text| > 0 && Bodies(text, LinkKey, true, 0, 0).Ok? ==>
      r == Ok(Entries(text, Bodies(text, LinkKey, true, 0, 0).value))
  {
    if |text| == 0 {
      return Ok([]);
    }
    r := Scan(text, LinkKey, true);
  }

  /** The words found: at most 100, none containing `|` or `:`, each the start of a `[[` body, in text order. */
  lemma WordsShape(text: string)
    requires Bodies(text, LinkKey, true, 0, 0).Ok?
    ensures var bodies := Bodies(text, LinkKey, true, 0, 0).value;
      |Entries(text, bodies)| <= MaxEntries && InOrder(LinkKey, bodies, 0)
      && forall i :: 0 <= i < |bodies| ==>
        '|' !in Entries(text, bodies)[i] && ':' !in Entries(text, bodies)[i]
        && Entries(text, bodies)[i] <= text[bodies[i].start..bodies[i].end]
        && IsBody(text, LinkKey, bodies[i])
  {
    var bodies := Bodies(text, LinkKey, true, 0, 0).value;
    BodiesShape(text, LinkKey, true, 0, 0);
    EntriesShape(text, bodies);
    forall i | 0 <= i < |bodies| ensures ':' !in Entries(text, bodies)[i] {
      EntryHasNoColon(text, bodies[i]);
    }
  }

  // ---------------------------------------------------------------------
  // FindExcerpt
  // ---------------------------------------------------------------------

  /** What `FindExcerpt` yields: null, the short description, or the fallback to the article body. */
  datatype Excerpt = NoExcerpt | ShortDescription(text: string) | FromBody

  /** `key` occurs in `s` at `a` and nowhere before. */
  predicate FirstAt(s: string, key: string, a: nat) {
    OccursAt(s, key, a) && forall i :: 0 <= i < a ==> !OccursAt(s, key, i)
  }

  /** `d` starts at `start` in `text` and runs up to the first `close` after `start`. */
  predicate ClosedAt(text: string, start: nat, close: string, d: string) {
    start + |d| <= |text| && text[start..start + |d|] == d && OccursAt(text, close, start + |d|)
    && forall i :: start <= i < start + |d| ==> !OccursAt(text, close, i)
  }

  /**
   * The search `FindExcerpt` makes: the first `open` in `lower` (the text as
   * compared), then the next `close` in `text` after it, and the text
   * between them. No `open` gives nothing; a missing `close` makes
   * `Substring` throw.
   */
  function Template(text: string, lower: string, open: string, close: string): (r: Result<Option<string>>)
    requires |lower| == |text|
  {
    var found := IndexOf(lower, open, 0);
    if found < 0 then Ok(None)
    else
      var start := found + |open|;
      var end := IndexOf(text, close, start);
      if end < 0 then Err("ArgumentOutOfRange") else Ok(Some(text[start..end]))
  }

  /**
   * What the search finds is enclosed by the first `open` and the next
   * `close`; it finds nothing exactly when `open` never occurs.
   */
  lemma TemplateShape(text: string, lower: string, open: string, close: string)
    requires |lower| == |text|
    ensures var r := Template(text, lower, open, close);
      (r.Ok? && r.value.Some? ==> exists a: nat :: FirstAt(lower, open, a) && ClosedAt(text, a + |open|, close, r.value.value))
      && (r == Ok(None) <==> forall i :: 0 <= i ==> !OccursAt(lower, open, i))
  {
    var found := IndexOf(lower, open, 0);
    IndexOfFirst(lower, open, 0);
    if found >= 0 {
      var start := found + |open|;
      IndexOfFirst(text, close, start);
      if IndexOf(text, close, start) >= 0 {
        assert FirstAt(lower, open, found) && ClosedAt(text, start, close, text[start..IndexOf(text, close, start)]);
      }
    }
  }

  /** Conversely, text enclosed by the first `open` and the next `close` is what the search finds. */
  lemma TemplateFinds(text: string, lower: string, open: string, close: string, a: nat, d: string)
    requires |lower| == |text| && FirstAt(lower, open, a) && ClosedAt(text, a + |open|, close, d)
    ensures Template(text, lower, open, close) == Ok(Some(d))
  {
    IndexOfUnique(lower, open, 0, a);
    IndexOfUnique(text, close, a + |open|, a + |open| + |d|);
  }

  /** An `open` with no `close` after it makes the search throw. */
  lemma TemplateUnclosed(text: string, lower: string, open: string, close: string, a: nat)
    requires |lower| == |text| && FirstAt(lower, open, a) && a + |open| <= |text|
    requires forall i :: a + |open| <= i ==> !OccursAt(text, close, i)
    ensures Template(text, lower, open, close).Err?
  {
    IndexOfUnique(lower, open, 0, a);
    IndexOfUnique(text, close, a + |open|, -1);
  }

  /**
   * `FindExcerpt`: null for an empty text; otherwise the text between the
   * first `{{short description|`, found ignoring case, and the next `}}`.
   * Without the template the excerpt is taken from the article body
   * instead; without the closing `}}`, `Substring` throws.
   */
  function FindExcerpt(text: string): (r: Result<Excerpt>)
    ensures |text| == 0 <==> r == Ok(NoExcerpt)
  {
    if |text| == 0 then Ok(NoExcerpt)
    else
      match Template(text, ToLower(text), ShortDescriptionKey, TemplateClose)
      case Err(e) => Err(e)
      case Ok(None) => Ok(FromBody)
      case Ok(Some(d)) => Ok(ShortDescription(d))
  }

  /** A short description is the text between the first template opening (ignoring case) and the next `}}`. */
  lemma ExcerptIsFirstDescription(text: string)
    ensures var r := FindExcerpt(text);
      r.Ok? && r.value.ShortDescription? ==> exists a: nat ::
        FirstAt(ToLower(text), ShortDescriptionKey, a) && ClosedAt(text, a + |ShortDescriptionKey|, TemplateClose, r.value.text)
  {
    TemplateShape(text, ToLower(text), ShortDescriptionKey, TemplateClose);
  }

  /** The excerpt falls back to the article body exactly when the text is not empty and the template never opens. */
  lemma FromBodyIffNoTemplate(text: string)
    ensures FindExcerpt(text) == Ok(FromBody) <==>
      |text| > 0 && forall i :: 0 <= i ==> !OccursAt(ToLower(text), ShortDescriptionKey, i)
  {
    TemplateShape(text, ToLower(text), ShortDescriptionKey, TemplateClose);
  }

  /** An article that opens with the template yields exactly the description inside it. */
  lemma ShortDescriptionRoundTrip(d: string, rest: string)
    requires TemplateClose[0] !in d
    ensures FindExcerpt(ShortDescriptionKey + d + TemplateClose + rest) == Ok(ShortDescription(d))
  {
    var text := ShortDescriptionKey + d + TemplateClose + rest;
    var k := |ShortDescriptionKey|;
    assert FirstAt(ToLower(text), ShortDescriptionKey, 0) by {
      assert ToLower(text)[..k] == ShortDescriptionKey;
    }
    assert ClosedAt(text, k, TemplateClose, d) by {
      assert text[k + |d|..k + |d| + 2] == TemplateClose;
      assert text[k..k + |d|] == d;
      forall i | k <= i < k + |d| ensures !OccursAt(text, TemplateClose, i) {
        assert text[i] == d[i - k];
      }
    }
    TemplateFinds(text, ToLower(text), ShortDescriptionKey, TemplateClose, 0, d);
  }

  /** An opened template without a closing `}}` makes the excerpt throw. */
  lemma UnclosedTemplateThrows(d: string)
    requires TemplateClose[0] !in d
    ensures FindExcerpt(ShortDescriptionKey + d).Err?
  {
    var text := ShortDescriptionKey + d;
    var k := |ShortDescriptionKey|;
    assert FirstAt(ToLower(text), ShortDescriptionKey, 0) by {
      assert ToLower(text)[..k] == ShortDescriptionKey;
    }
    forall i | k <= i ensures !OccursAt(text, TemplateClose, i) {
      if i + 2 <= |text| {
        assert text[i] == d[i - k];
      }
    }
    TemplateUnclosed(text, ToLower(text), ShortDescriptionKey, TemplateClose, 0);
  }
}
