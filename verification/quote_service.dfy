/**
 * Quote extraction (`QuoteService`): three fixed patterns are searched in a
 * note's content, each match is stripped and kept only if it has a quote's
 * length and does not look like a link or code; the vault's quotes are the
 * per-note quotes in note order.  The random pick is an explicit `choice`
 * index.
 */
module Quotes {
  import opened Wrappers
  import opened Text
  import opened Collections
  import opened NoteModels

  /**
   * The entries of QUOTE_PATTERNS, tried in this order: `^>\s*(.+)$`
   * (multi-line), `"([^"]{20,200})"` and `'([^']{20,200})'`.
   */
  datatype Pattern = Blockquote | DoubleQuoted | SingleQuoted

  const QuotePatterns: seq<Pattern> := [Blockquote, DoubleQuoted, SingleQuoted]

  const MinQuoteLength: int := 30
  const MaxQuoteLength: int := 500
  /** Bounds of the `{20,200}` repetition in the two quoted-text patterns. */
  const MinQuotedRun: int := 20
  const MaxQuotedRun: int := 200

  // ----- `^>\s*(.+)$` with re.MULTILINE -----

  /** `^` in multi-line mode: the start of the text or just after a newline. */
  predicate AtLineStart(s: string, i: int) {
    0 <= i <= |s| && (i == 0 || s[i - 1] == '\n')
  }

  /** End of the longest whitespace run (newlines included) starting at `i`. */
  function SpaceEnd(s: string, i: nat): (p: nat)
    requires i <= |s|
    ensures i <= p <= |s|
    ensures forall k :: i <= k < p ==> IsSpace(s[k])
    ensures p < |s| ==> !IsSpace(s[p])
    decreases |s| - i
  {
    if i < |s| && IsSpace(s[i]) then SpaceEnd(s, i + 1) else i
  }

  /** Position of the first newline at or after `i`, or the end of the text. */
  function LineEnd(s: string, i: nat): (q: nat)
    requires i <= |s|
    ensures i <= q <= |s|
    ensures forall k :: i <= k < q ==> s[k] != '\n'
    ensures q < |s| ==> s[q] == '\n'
    decreases |s| - i
  {
    if i < |s| && s[i] != '\n' then LineEnd(s, i + 1) else i
  }

  /** The last position in `[lo, hi)` that does not hold a newline. */
  function LastNonNewline(s: string, lo: nat, hi: nat): (r: Option<nat>)
    requires lo <= hi <= |s|
    ensures r.Some? ==> lo <= r.value < hi && s[r.value] != '\n'
    ensures r.Some? ==> forall k :: r.value < k < hi ==> s[k] == '\n'
    ensures r.None? ==> forall k :: lo <= k < hi ==> s[k] == '\n'
    decreases hi - lo
  {
    if lo == hi then None
    else if s[hi - 1] != '\n' then Some(hi - 1)
    else LastNonNewline(s, lo, hi - 1)
  }

  /**
   * `g` and `end` are a match of the blockquote pattern at `i`: a `>` at the
   * start of a line, whitespace, then the non-empty group `g`, which holds
   * no newline and ends at a newline or at the end of the text.
   */
  predicate BlockquoteMatch(s: string, i: nat, g: string, end: nat) {
    && i < |s| && AtLineStart(s, i) && s[i] == '>'
    && i < end <= |s| && g != [] && |g| <= end - i - 1
    && g == s[end - |g|..end]
    && AllSpace(s[i + 1..end - |g|])
    && (forall k :: 0 <= k < |g| ==> g[k] != '\n')
    && (end == |s| || s[end] == '\n')
  }

  /**
   * The blockquote pattern tried at `i`: the captured group and the end of
   * the match.  `\s*` may run over newlines; `.+` then takes the rest of
   * the line.  When only whitespace follows the `>`, the regex backtracks
   * until `.+` can take a single non-newline whitespace character.
   */
  function BlockquoteAt(s: string, i: nat): (m: Option<(string, nat)>)
    requires i <= |s|
    ensures m.Some? ==> BlockquoteMatch(s, i, m.value.0, m.value.1)
  {
    if !(i < |s| && AtLineStart(s, i) && s[i] == '>') then None
    else
      var p := SpaceEnd(s, i + 1);
      if p < |s| then
        LineMatch(s, i, p);
        Some((s[p..LineEnd(s, p)], LineEnd(s, p)))
      else
        match LastNonNewline(s, i + 1, p)
        case None => None
        case Some(j) =>
          BacktrackMatch(s, i, j);
          Some(([s[j]], j + 1))
  }

  /** A non-space character after the whitespace: the group runs to the end of its line. */
  lemma LineMatch(s: string, i: nat, p: nat)
    requires i < |s| && AtLineStart(s, i) && s[i] == '>'
    requires i + 1 <= p < |s| && !IsSpace(s[p])
    requires forall k :: i + 1 <= k < p ==> IsSpace(s[k])
    ensures BlockquoteMatch(s, i, s[p..LineEnd(s, p)], LineEnd(s, p))
  {
    var q := LineEnd(s, p);
    assert s[p] != '\n';
    assert |s[p..q]| == q - p;
    var spaces := s[i + 1..p];
    forall k | 0 <= k < |spaces| ensures IsSpace(spaces[k]) {
      assert spaces[k] == s[i + 1 + k];
    }
  }

  /** Only whitespace after the `>`: the group is the last non-newline character. */
  lemma BacktrackMatch(s: string, i: nat, j: nat)
    requires i < |s| && AtLineStart(s, i) && s[i] == '>'
    requires i + 1 <= j < |s| && s[j] != '\n'
    requires forall k :: i + 1 <= k < |s| ==> IsSpace(s[k])
    requires forall k :: j < k < |s| ==> s[k] == '\n'
    ensures BlockquoteMatch(s, i, [s[j]], j + 1)
  {
    assert [s[j]] == s[j..j + 1];
    var spaces := s[i + 1..j];
    forall k | 0 <= k < |spaces| ensures IsSpace(spaces[k]) {
      assert spaces[k] == s[i + 1 + k];
    }
  }

  // ----- `"([^"]{20,200})"` and `'([^']{20,200})'` -----

  /** End of the longest run of characters other than `q` starting at `i`. */
  function RunEnd(s: string, i: nat, q: char): (e: nat)
    requires i <= |s|
    ensures i <= e <= |s|
    ensures forall k :: i <= k < e ==> s[k] != q
    ensures e < |s| ==> s[e] == q
    decreases |s| - i
  {
    if i < |s| && s[i] != q then RunEnd(s, i + 1, q) else i
  }

  /**
   * A quoted-text pattern with quote character `q` tried at `i`.  The
   * repetition is greedy and bounded, so it succeeds exactly when the run
   * of non-`q` characters after the opening quote has 20 to 200 characters
   * and is closed by another `q`.
   */
  function QuotedAt(s: string, i: nat, q: char): (m: Option<(string, nat)>)
    requires i <= |s|
    ensures m.Some? ==> m.value.1 == i + |m.value.0| + 2 <= |s|
    ensures m.Some? ==> s[i..m.value.1] == [q] + m.value.0 + [q]
    ensures m.Some? ==> MinQuotedRun <= |m.value.0| <= MaxQuotedRun
    ensures m.Some? ==> forall k :: 0 <= k < |m.value.0| ==> m.value.0[k] != q
    ensures m.None? && i < |s| && s[i] == q ==>
              RunEnd(s, i + 1, q) == |s| || !(MinQuotedRun <= RunEnd(s, i + 1, q) - (i + 1) <= MaxQuotedRun)
  {
    if !(i < |s| && s[i] == q) then None
    else
      var e := RunEnd(s, i + 1, q);
      if e < |s| && MinQuotedRun <= e - (i + 1) <= MaxQuotedRun then
        var g := s[i + 1..e];
        assert |g| == e - (i + 1);
        assert forall k :: 0 <= k < |g| ==> g[k] == s[i + 1 + k];
        assert s[i..e + 1] == [q] + g + [q];
        Some((g, e + 1))
      else None
  }

  function MatchAt(s: string, pat: Pattern, i: nat): (m: Option<(string, nat)>)
    requires i <= |s|
    ensures m.Some? ==> i < m.value.1 <= |s|
  {
    match pat
    case Blockquote => BlockquoteAt(s, i)
    case DoubleQuoted => QuotedAt(s, i, '"')
    case SingleQuoted => QuotedAt(s, i, '\'')
  }

  /** What a group captured by `pat` looks like. */
  predicate IsGroup(pat: Pattern, g: string) {
    match pat
    case Blockquote => g != [] && forall k :: 0 <= k < |g| ==> g[k] != '\n'
    case DoubleQuoted => MinQuotedRun <= |g| <= MaxQuotedRun && forall k :: 0 <= k < |g| ==> g[k] != '"'
    case SingleQuoted => MinQuotedRun <= |g| <= MaxQuotedRun && forall k :: 0 <= k < |g| ==> g[k] != '\''
  }

  /**
   * `pattern.findall(s)` from position `i`: try the pattern at each
   * position; after a match, carry on where it ended.
   */
  function FindAllFrom(s: string, pat: Pattern, i: nat): (gs: seq<string>)
    requires i <= |s|
    ensures forall g :: g in gs ==> IsGroup(pat, g)
    decreases |s| - i
  {
    if i == |s| then []
    else
      match MatchAt(s, pat, i)
      case Some((g, e)) => [g] + FindAllFrom(s, pat, e)
      case None => FindAllFrom(s, pat, i + 1)
  }

  /** With no match of `pat` from offset `i` on, `findall` finds nothing. */
  lemma {:induction false} NoMatchNothing(s: string, pat: Pattern, i: nat)
    requires i <= |s|
    requires forall p :: i <= p < |s| ==> MatchAt(s, pat, p).None?
    ensures FindAllFrom(s, pat, i) == []
    decreases |s| - i
  {
    if i < |s| {
      NoMatchNothing(s, pat, i + 1);
    }
  }

  /**
   * `findall` from `i` reports first the match that starts nearest to `i`,
   * then goes on from the end of that match: matches are reported left to
   * right and never overlap.
   */
  lemma {:induction false} FirstMatchLeads(s: string, pat: Pattern, i: nat, j: nat)
    requires i <= j < |s| && MatchAt(s, pat, j).Some?
    requires forall p :: i <= p < j ==> MatchAt(s, pat, p).None?
    ensures FindAllFrom(s, pat, i) == [MatchAt(s, pat, j).value.0] + FindAllFrom(s, pat, MatchAt(s, pat, j).value.1)
    decreases j - i
  {
    if i < j {
      assert FindAllFrom(s, pat, i) == FindAllFrom(s, pat, i + 1);
      FirstMatchLeads(s, pat, i + 1, j);
    }
  }

  /** Every match of `pat` in `s[i..]` is reported, unless it starts inside a match that begins earlier. */
  lemma {:induction false} FindAllFromComplete(s: string, pat: Pattern, i: nat, j: nat)
    requires i <= j < |s| && MatchAt(s, pat, j).Some?
    ensures || MatchAt(s, pat, j).value.0 in FindAllFrom(s, pat, i)
            || exists p :: i <= p < j && MatchAt(s, pat, p).Some? && j < MatchAt(s, pat, p).value.1
    decreases j - i
  {
    if i < j {
      match MatchAt(s, pat, i)
      case None =>
        FindAllFromComplete(s, pat, i + 1, j);
      case Some((g, end)) =>
        if end <= j {
          FindAllFromComplete(s, pat, end, j);
        }
    }
  }

  function FindAll(s: string, pat: Pattern): (gs: seq<string>)
    ensures forall g :: g in gs ==> IsGroup(pat, g)
  {
    FindAllFrom(s, pat, 0)
  }

  // ----- Filtering and the quotes of a note -----

  /** The length, link and code checks a stripped match has to pass. */
  predicate Acceptable(text: string) {
    MinQuoteLength <= |text| <= MaxQuoteLength
    && !StartsWith(text, "http") && !Contains(text, "```") && !Contains(text, "[[")
  }

  function QuoteFrom(note: Note, text: string): Quote {
    Quote(text := text, source := note.title, book := note.book, category := note.category)
  }

  /** A quote taken from `note`: acceptable text, attributed to the note. */
  predicate QuoteOfNote(q: Quote, note: Note) {
    Acceptable(q.text) && q.source == note.title && q.book == note.book && q.category == note.category
  }

  /** What one match yields: its stripped text as a quote of `note` if acceptable, else nothing. */
  function QuoteOfMatch(note: Note, m: string): seq<Quote> {
    var text := Strip(m);
    if Acceptable(text) then [QuoteFrom(note, text)] else []
  }

  /** The quotes that the matches `ms` of one pattern yield, in match order. */
  function QuotesFromMatches(note: Note, ms: seq<string>): seq<Quote> {
    if ms == [] then []
    else QuotesFromMatches(note, ms[..|ms| - 1]) + QuoteOfMatch(note, ms[|ms| - 1])
  }

  lemma QuotesFromMatchesStep(note: Note, ms: seq<string>, j: nat)
    requires j < |ms|
    ensures QuotesFromMatches(note, ms[..j + 1]) == QuotesFromMatches(note, ms[..j]) + QuoteOfMatch(note, ms[j])
  {
    assert ms[..j + 1][..j] == ms[..j];
  }

  /** `q` is a quote of `note` whose text is one of the matches `ms`, stripped. */
  predicate FromMatch(q: Quote, note: Note, ms: seq<string>) {
    QuoteOfNote(q, note) && exists m :: m in ms && q.text == Strip(m)
  }

  /** Every quote is the stripped text of one of the matches, acceptable and attributed to the note. */
  lemma {:induction false} QuotesFromMatchesAreStrippedMatches(note: Note, ms: seq<string>)
    ensures forall q :: q in QuotesFromMatches(note, ms) ==> FromMatch(q, note, ms)
    decreases |ms|
  {
    if ms != [] {
      var init, last := ms[..|ms| - 1], ms[|ms| - 1];
      QuotesFromMatchesAreStrippedMatches(note, init);
      forall q | q in QuotesFromMatches(note, ms) ensures FromMatch(q, note, ms) {
        if q in QuotesFromMatches(note, init) {
          assert FromMatch(q, note, init);
          var m :| m in init && q.text == Strip(m);
          assert m in ms;
        } else {
          assert q in QuoteOfMatch(note, last);
          assert q.text == Strip(last);
        }
      }
    }
  }

  /** Matches are not de-duplicated: a match that repeats yields its quote again. */
  lemma RepeatedMatchRepeatsQuote(note: Note, ms: seq<string>, m: string)
    ensures QuotesFromMatches(note, ms + [m, m])
         == QuotesFromMatches(note, ms) + QuoteOfMatch(note, m) + QuoteOfMatch(note, m)
  {
    var xs := ms + [m, m];
    assert xs[..|ms| + 1] == ms + [m] && xs[..|ms|] == ms && xs[..|ms| + 2] == xs;
    QuotesFromMatchesStep(note, xs, |ms|);
    QuotesFromMatchesStep(note, xs, |ms| + 1);
  }

  /** The quotes one pattern yields for `note`. */
  function QuotesFor(note: Note): Pattern -> seq<Quote> {
    (p: Pattern) => QuotesFromMatches(note, FindAll(note.content, p))
  }

  /**
   * All quotes of one note: those of the blockquote matches, then those of
   * the double-quoted matches, then those of the single-quoted matches.
   */
  function QuotesOf(note: Note): seq<Quote> {
    QuotesFromMatches(note, FindAll(note.content, Blockquote))
    + QuotesFromMatches(note, FindAll(note.content, DoubleQuoted))
    + QuotesFromMatches(note, FindAll(note.content, SingleQuoted))
  }

  /** Every quote of a note is acceptable and attributed to the note. */
  lemma QuotesOfAttributed(note: Note)
    ensures forall q :: q in QuotesOf(note) ==> QuoteOfNote(q, note)
  {
    QuotesFromMatchesAreStrippedMatches(note, FindAll(note.content, Blockquote));
    QuotesFromMatchesAreStrippedMatches(note, FindAll(note.content, DoubleQuoted));
    QuotesFromMatchesAreStrippedMatches(note, FindAll(note.content, SingleQuoted));
  }

  /** Running the patterns of QUOTE_PATTERNS in their listed order yields exactly the note's quotes. */
  lemma QuotesInPatternOrder(note: Note)
    ensures FlatMap(QuotePatterns, QuotesFor(note)) == QuotesOf(note)
  {
    FlatMapThree(Blockquote, DoubleQuoted, SingleQuoted, QuotesFor(note));
  }

  /** The inner loop of `extract_quotes_from_note`: the quotes one pattern's matches yield. */
  method AcceptMatches(note: Note, matches: seq<string>) returns (quotes: seq<Quote>)
    ensures quotes == QuotesFromMatches(note, matches)
  {
    quotes := [];
    for j := 0 to |matches|
      invariant quotes == QuotesFromMatches(note, matches[..j])
    {
      QuotesFromMatchesStep(note, matches, j);
      var text := Strip(matches[j]);
      if |text| < MinQuoteLength || |text| > MaxQuoteLength {
        continue;
      }
      if StartsWith(text, "http") || Contains(text, "```") || Contains(text, "[[") {
        continue;
      }
      quotes := quotes + [QuoteFrom(note, text)];
    }
    assert matches[..|matches|] == matches;
  }

  /** `extract_quotes_from_note`. */
  method ExtractQuotesFromNote(note: Note) returns (quotes: seq<Quote>)
    ensures quotes == QuotesOf(note)
  {
    quotes := [];
    for i := 0 to |QuotePatterns|
      invariant quotes == FlatMap(QuotePatterns[..i], QuotesFor(note))
    {
      var found := AcceptMatches(note, FindAll(note.content, QuotePatterns[i]));
      assert QuotePatterns[..i + 1] == QuotePatterns[..i] + [QuotePatterns[i]];
      FlatMapSnoc(QuotePatterns[..i], QuotePatterns[i], QuotesFor(note));
      quotes := quotes + found;
    }
    assert QuotePatterns[..|QuotePatterns|] == QuotePatterns;
    QuotesInPatternOrder(note);
  }

  // ----- The vault's quotes -----

  /** The quotes of every note, note after note. */
  function AllQuotes(notes: seq<Note>): seq<Quote> {
    FlatMap(notes, QuotesOf)
  }

  /** Every quote of the vault comes from one of its notes and carries that note's attribution. */
  lemma AllQuotesAttributed(notes: seq<Note>)
    ensures forall q :: q in AllQuotes(notes) ==> exists n :: n in notes && QuoteOfNote(q, n)
  {
    FlatMapMember(notes, QuotesOf);
    forall n | n in notes {
      QuotesOfAttributed(n);
    }
  }

  /** The vault's quote list splits along any split of the note list. */
  lemma AllQuotesConcat(a: seq<Note>, b: seq<Note>)
    ensures AllQuotes(a + b) == AllQuotes(a) + AllQuotes(b)
  {
    FlatMapConcat(a, b, QuotesOf);
  }

  lemma AllQuotesStep(notes: seq<Note>, k: nat)
    requires k < |notes|
    ensures FlatMap(notes[..k + 1], QuotesOf) == FlatMap(notes[..k], QuotesOf) + QuotesOf(notes[k])
  {
    assert notes[..k + 1] == notes[..k] + [notes[k]];
    FlatMapSnoc(notes[..k], notes[k], QuotesOf);
  }

  /** `get_all_quotes` over an already parsed vault. */
  method GetAllQuotes(notes: seq<Note>) returns (allQuotes: seq<Quote>)
    ensures allQuotes == AllQuotes(notes)
  {
    allQuotes := [];
    for k := 0 to |notes|
      invariant allQuotes == FlatMap(notes[..k], QuotesOf)
    {
      AllQuotesStep(notes, k);
      var quotes := ExtractQuotesFromNote(notes[k]);
      allQuotes := allQuotes + quotes;
    }
    assert notes[..|notes|] == notes;
  }

  // ----- Sorted categories -----

  /** Python's `<` on strings: code-point order, a proper prefix first. */
  predicate StrLess(a: string, b: string)
    decreases |a|
  {
    if a == [] then b != []
    else if b == [] then false
    else if a[0] != b[0] then a[0] < b[0]
    else StrLess(a[1..], b[1..])
  }

  lemma {:induction false} StrLessIrreflexive(a: string)
    ensures !StrLess(a, a)
    decreases |a|
  {
    if a != [] { StrLessIrreflexive(a[1..]); }
  }

  lemma {:induction false} StrLessTransitive(a: string, b: string, c: string)
    requires StrLess(a, b) && StrLess(b, c)
    ensures StrLess(a, c)
    decreases |a|
  {
    if a != [] && b != [] && c != [] && a[0] == b[0] == c[0] {
      StrLessTransitive(a[1..], b[1..], c[1..]);
    }
  }

  lemma {:induction false} StrLessTotal(a: string, b: string)
    ensures a == b || StrLess(a, b) || StrLess(b, a)
    decreases |a|
  {
    if a != [] && b != [] && a[0] == b[0] {
      StrLessTotal(a[1..], b[1..]);
      if a[1..] == b[1..] {
        assert a == [a[0]] + a[1..] && b == [b[0]] + b[1..];
      }
    }
  }

  predicate Sorted(xs: seq<string>) {
    forall i, j :: 0 <= i < j < |xs| ==> StrLess(xs[i], xs[j])
  }

  /** Inserts `x` into a sorted list unless it is already there. */
  function Insert(xs: seq<string>, x: string): (r: seq<string>)
    ensures Elems(r) == Elems(xs) + {x}
  {
    if xs == [] then [x]
    else
      assert Elems(xs) == {xs[0]} + Elems(xs[1..]) by { assert xs == [xs[0]] + xs[1..]; }
      if x == xs[0] then xs
      else if StrLess(x, xs[0]) then [x] + xs
      else
        var rest := Insert(xs[1..], x);
        assert forall y :: y in [xs[0]] + rest <==> y == xs[0] || y in rest;
        assert Elems([xs[0]] + rest) == {xs[0]} + Elems(rest);
        [xs[0]] + rest
  }

  /** Insertion keeps a list sorted. */
  lemma {:induction false} InsertKeepsSorted(xs: seq<string>, x: string)
    requires Sorted(xs)
    ensures Sorted(Insert(xs, x))
    decreases |xs|
  {
    if xs != [] && x != xs[0] {
      if StrLess(x, xs[0]) {
        var r := [x] + xs;
        forall i, j | 0 <= i < j < |r| ensures StrLess(r[i], r[j]) {
          if i == 0 && j > 1 {
            StrLessTransitive(x, xs[0], xs[j - 1]);
          }
        }
      } else {
        StrLessTotal(x, xs[0]);
        InsertKeepsSorted(xs[1..], x);
        var rest := Insert(xs[1..], x);
        var r := [xs[0]] + rest;
        forall i, j | 0 <= i < j < |r| ensures StrLess(r[i], r[j]) {
          if i == 0 {
            var y := rest[j - 1];
            assert y in Elems(rest);
            if y != x {
              assert y in Elems(xs[1..]);
              var k :| 0 <= k < |xs[1..]| && xs[1..][k] == y;
              assert xs[k + 1] == y;
            }
          }
        }
      }
    }
  }

  /** The set of categories of `quotes`. */
  function CategorySet(quotes: seq<Quote>): set<string> {
    set q | q in quotes :: q.category
  }

  /** `sorted(set(q.category for q in quotes))`. */
  function SortedCategories(quotes: seq<Quote>): (r: seq<string>)
    ensures Sorted(r)
    ensures Elems(r) == CategorySet(quotes)
  {
    if quotes == [] then []
    else
      var init := quotes[..|quotes| - 1];
      assert quotes == init + [quotes[|quotes| - 1]];
      InsertKeepsSorted(SortedCategories(init), quotes[|quotes| - 1].category);
      Insert(SortedCategories(init), quotes[|quotes| - 1].category)
  }

  /** A sorted list has no duplicates. */
  lemma SortedNoDup(xs: seq<string>)
    requires Sorted(xs)
    ensures NoDup(xs)
  {
    forall i, j | 0 <= i < j < |xs| ensures xs[i] != xs[j] {
      if xs[i] == xs[j] { StrLessIrreflexive(xs[i]); }
    }
  }

  /** Two sorted lists with the same elements are equal, so the category list is fully determined. */
  lemma {:induction false} SortedIsUnique(a: seq<string>, b: seq<string>)
    requires Sorted(a) && Sorted(b) && Elems(a) == Elems(b)
    ensures a == b
    decreases |a|
  {
    if a != [] {
      assert a[0] in Elems(b);
      assert b != [];
      assert b[0] in Elems(a);
      assert a[0] == b[0] by {
        if a[0] != b[0] {
          var i :| 0 <= i < |a| && a[i] == b[0];
          var j :| 0 <= j < |b| && b[j] == a[0];
          StrLessTransitive(a[0], b[0], a[0]);
          StrLessIrreflexive(a[0]);
        }
      }
      SortedNoDup(a);
      SortedNoDup(b);
      assert Elems(a[1..]) == Elems(b[1..]) by {
        assert forall x :: x in Elems(a[1..]) ==> x in Elems(a) && x != a[0];
        assert forall x :: x in Elems(b[1..]) ==> x in Elems(b) && x != b[0];
        assert a == [a[0]] + a[1..] && b == [b[0]] + b[1..];
      }
      SortedIsUnique(a[1..], b[1..]);
      assert a == [a[0]] + a[1..] && b == [b[0]] + b[1..];
    } else {
      SortedNoDup(b);
      NoDupCard(b);
    }
  }

  /** `get_categories`: the vault's quote categories, sorted and without repeats. */
  function GetCategories(notes: seq<Note>): (r: seq<string>)
    ensures Sorted(r) && NoDup(r)
    ensures forall c :: c in r <==> exists q :: q in AllQuotes(notes) && q.category == c
  {
    var r := SortedCategories(AllQuotes(notes));
    SortedNoDup(r);
    assert forall c :: c in r <==> c in Elems(r);
    r
  }

  // ----- Category filters -----

  function CategoryIs(lower: string): Quote -> bool {
    (q: Quote) => Lower(q.category) == lower
  }

  /** `[q for q in quotes if q.category.lower() == category.lower()]`. */
  function ByCategory(quotes: seq<Quote>, category: string): (r: seq<Quote>)
    ensures forall q :: q in r <==> q in quotes && Lower(q.category) == Lower(category)
  {
    Filter(quotes, CategoryIs(Lower(category)))
  }

  /** The category filter keeps the relative order of the quotes it keeps. */
  lemma ByCategoryKeepsOrder(a: seq<Quote>, b: seq<Quote>, category: string)
    ensures ByCategory(a + b, category) == ByCategory(a, category) + ByCategory(b, category)
  {
    FilterConcat(a, b, CategoryIs(Lower(category)));
  }

  /** `get_quotes_by_category`. */
  function GetQuotesByCategory(notes: seq<Note>, category: string): (r: seq<Quote>)
    ensures forall q :: q in r <==> q in AllQuotes(notes) && Lower(q.category) == Lower(category)
  {
    ByCategory(AllQuotes(notes), category)
  }

  /** The quotes `get_random_quote` draws from: filtered only for a non-empty category. */
  function Candidates(notes: seq<Note>, category: Option<string>): seq<Quote> {
    if category.Some? && category.value != [] then ByCategory(AllQuotes(notes), category.value)
    else AllQuotes(notes)
  }

  /** `get_random_quote`, with `random.choice` replaced by the index `choice` into the candidates. */
  function GetRandomQuote(notes: seq<Note>, category: Option<string>, choice: nat): (r: Option<Quote>)
    ensures r.None? <==> forall q :: q in AllQuotes(notes) ==>
                           category.Some? && category.value != [] && Lower(q.category) != Lower(category.value)
    ensures r.Some? ==> r.value in AllQuotes(notes)
    ensures r.Some? && category.Some? && category.value != [] ==> Lower(r.value.category) == Lower(category.value)
  {
    var quotes := Candidates(notes, category);
    if quotes == [] then None
    else
      assert quotes[0] in quotes && quotes[choice % |quotes|] in quotes;
      Some(quotes[choice % |quotes|])
  }
}
