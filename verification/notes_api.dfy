/**
 * The list, tree and search endpoints of the notes API, as functions of
 * the parsed notes and the request's query parameters.  A query parameter
 * the client left out is `None`; FastAPI's range and length checks on
 * query parameters answer with status 422 (`UnprocessableEntity`).
 */
module NotesApi {
  import opened Wrappers
  import opened Text
  import opened Collections
  import opened NoteModels
  import opened ObsidianParser
  import opened Trees

  /** The error answers of these endpoints: 422, 404 with its detail, and 500. */
  datatype HttpError = UnprocessableEntity | NotFound(detail: string) | InternalServerError

  const DefaultListLimit: nat := 100
  const MaxListLimit: nat := 500
  const DefaultSearchLimit: nat := 20
  const MaxSearchLimit: nat := 50
  const MinQueryLength: nat := 2

  /** `Query(default, ge=1, le=max)`: the limit in force, or none when the given one is out of range. */
  function CheckedLimit(limit: Option<int>, default: nat, max: nat): (r: Option<nat>)
    requires 1 <= default <= max
    ensures r.Some? <==> limit.None? || 1 <= limit.value <= max
    ensures r.Some? ==> 1 <= r.value <= max
  {
    match limit
    case None => Some(default)
    case Some(n) => if 1 <= n <= max then Some(n) else None
  }

  /** The number of items an answer holds when at most `limit` of `available` are listed. */
  function AtMost(limit: nat, available: nat): nat {
    if limit < available then limit else available
  }

  /** `if f:` — the filter was given and is not the empty string. */
  predicate Given(f: Option<string>) {
    f.Some? && f.value != []
  }

  /** `n.book and n.book.lower() == book.lower()`: a note without a book, or with an empty one, never matches. */
  predicate InBook(n: Note, book: string) {
    n.book.Some? && n.book.value != [] && Lower(n.book.value) == Lower(book)
  }

  /** The category filter of `get_all_notes`. */
  function ByCategory(notes: seq<Note>, category: Option<string>): seq<Note> {
    if Given(category) then GetNotesByCategory(notes, category.value) else notes
  }

  /** The book filter of `get_all_notes`. */
  function ByBook(notes: seq<Note>, book: Option<string>): seq<Note> {
    if Given(book) then Filter(notes, n => InBook(n, book.value)) else notes
  }

  /** A note is listed when it passes every filter that was given. */
  predicate Wanted(n: Note, category: Option<string>, book: Option<string>) {
    && (Given(category) ==> InCategory(n, category.value))
    && (Given(book) ==> InBook(n, book.value))
  }

  /** The listed notes in one pass: those that pass every given filter, in vault order. */
  function Selected(notes: seq<Note>, category: Option<string>, book: Option<string>): (r: seq<Note>)
    ensures forall n :: n in r <==> n in notes && Wanted(n, category, book)
  {
    Filter(notes, n => Wanted(n, category, book))
  }

  /** Filtering by category and then by book selects exactly the notes that pass both filters at once. */
  lemma TwoFiltersAreOne(notes: seq<Note>, category: Option<string>, book: Option<string>)
    ensures ByBook(ByCategory(notes, category), book) == Selected(notes, category, book)
  {
    var wanted := n => Wanted(n, category, book);
    if Given(category) {
      var inCategory := n => InCategory(n, category.value);
      assert GetNotesByCategory(notes, category.value) == Filter(notes, inCategory);
      if Given(book) {
        FilterFilter(notes, inCategory, n => InBook(n, book.value), wanted);
      } else {
        FilterAgree(notes, inCategory, wanted);
      }
    } else if Given(book) {
      FilterAgree(notes, n => InBook(n, book.value), wanted);
    } else {
      FilterAllOrNone(notes, wanted);
    }
  }

  /** The `NoteMetadata` of each note, in order. */
  function Metadata(notes: seq<Note>): (ms: seq<NoteMetadata>)
    ensures |ms| == |notes|
    ensures forall k :: 0 <= k < |notes| ==> ms[k] == MetadataOf(notes[k])
  {
    seq(|notes|, k requires 0 <= k < |notes| => MetadataOf(notes[k]))
  }

  /**
   * `get_all_notes`: 422 for a limit outside 1..500; otherwise the metadata
   * of the first `limit` notes (100 when none is given) that pass the
   * category and book filters.
   */
  function GetAllNotes(notes: seq<Note>, category: Option<string>, book: Option<string>, limit: Option<int>)
    : (r: Result<seq<NoteMetadata>, HttpError>)
    ensures r.Failure? <==> limit.Some? && !(1 <= limit.value <= MaxListLimit)
    ensures r.Failure? ==> r.error == UnprocessableEntity
    ensures r.Success? ==>
      var chosen := Selected(notes, category, book);
      && |r.value| == AtMost(if limit.Some? then limit.value else DefaultListLimit, |chosen|)
      && forall k :: 0 <= k < |r.value| ==> r.value[k] == MetadataOf(chosen[k])
  {
    match CheckedLimit(limit, DefaultListLimit, MaxListLimit)
    case None => Failure(UnprocessableEntity)
    case Some(n) =>
      TwoFiltersAreOne(notes, category, book);
      Success(Metadata(Take(ByBook(ByCategory(notes, category), book), n)))
  }

  /**
   * Every item `get_all_notes` lists has the requested category and book,
   * compared case-insensitively, and a book filter lists only notes that
   * have a book; the answer never exceeds 500 items.
   */
  lemma ListedNotesMatchFilters(notes: seq<Note>, category: Option<string>, book: Option<string>, limit: Option<int>)
    ensures var r := GetAllNotes(notes, category, book, limit);
      r.Success? ==>
        && |r.value| <= MaxListLimit
        && forall m :: m in r.value ==>
             && (Given(category) ==> Lower(m.category) == Lower(category.value))
             && (Given(book) ==> m.book.Some? && Lower(m.book.value) == Lower(book.value))
  {
    var r := GetAllNotes(notes, category, book, limit);
    if r.Success? {
      var chosen := Selected(notes, category, book);
      forall m | m in r.value
        ensures Given(category) ==> Lower(m.category) == Lower(category.value)
        ensures Given(book) ==> m.book.Some? && Lower(m.book.value) == Lower(book.value)
      {
        var k :| 0 <= k < |r.value| && r.value[k] == m;
        assert chosen[k] in chosen;
      }
    }
  }

  // ---------------------------------------------------------------- book tree

  /** The answer of `get_book_tree`: a flat (id, title) list when `has_tree` is false, a tree when it is true. */
  datatype BookTree =
    | FlatBook(book: string, notes: seq<(string, string)>)
    | TreeBook(book: string, tree: NoteTree)

  function InBookOf(book: string): Note -> bool {
    n => InBook(n, book)
  }

  /** The notes of a book, compared case-insensitively, in vault order. */
  function BookNotes(notes: seq<Note>, book: string): (r: seq<Note>)
    ensures forall n :: n in r <==> n in notes && InBook(n, book)
  {
    Filter(notes, InBookOf(book))
  }

  /** The (id, title) pair of each note, in order. */
  function IdTitles(notes: seq<Note>): (pairs: seq<(string, string)>)
    ensures |pairs| == |notes|
    ensures forall k :: 0 <= k < |notes| ==> pairs[k] == (notes[k].id, notes[k].title)
  {
    seq(|notes|, k requires 0 <= k < |notes| => (notes[k].id, notes[k].title))
  }

  /** The detail of the 404 answer. */
  function BookNotFound(book: string): HttpError {
    NotFound("Book not found: " + book)
  }

  /** `get_book_tree` as it is written: the tree branch calls a `to_dict` method that `NoteTree` lacks. */
  function GetBookTreeAsWritten(notes: seq<Note>, book: string): (r: Result<BookTree, HttpError>)
    ensures r.Success? ==> r.value.FlatBook?
  {
    var bookNotes := BookNotes(notes, book);
    if bookNotes == [] then Failure(BookNotFound(book))
    else
      var roots := FindRootNotes(bookNotes);
      if roots == [] then Success(FlatBook(book, IdTitles(bookNotes)))
      else Failure(InternalServerError)
  }

  /** A note of `book` that `find_root_notes` picks out. */
  predicate IsBookRoot(n: Note, book: string) {
    InBook(n, book) && IsRootNote(n)
  }

  function BookRootOf(book: string): Note -> bool {
    n => IsBookRoot(n, book)
  }

  /** The root notes of a book, in vault order, are its notes that `find_root_notes` picks out. */
  lemma BookRootsInOrder(notes: seq<Note>, book: string)
    ensures FindRootNotes(BookNotes(notes, book)) == Filter(notes, BookRootOf(book))
  {
    FilterFilter(notes, InBookOf(book), IsRootNote, BookRootOf(book));
  }

  /**
   * `get_book_tree` with the tree serialised: 404 exactly when no note
   * belongs to the book; a flat list of the book's notes exactly when
   * none of them is a root; otherwise the tree grown over all notes from
   * the first note of the vault that is a root of the book.
   */
  function GetBookTree(notes: seq<Note>, book: string): (r: Result<BookTree, HttpError>)
    ensures r.Failure? <==> forall n :: n in notes ==> !InBook(n, book)
    ensures r.Failure? ==> r.error == BookNotFound(book)
    ensures r.Success? ==> r.value.book == book
    ensures r.Success? ==> (r.value.FlatBook? <==> forall n :: n in notes ==> !IsBookRoot(n, book))
    ensures r.Success? && r.value.FlatBook? ==>
      var bookNotes := BookNotes(notes, book);
      |r.value.notes| == |bookNotes| &&
      forall k :: 0 <= k < |bookNotes| ==> r.value.notes[k] == (bookNotes[k].id, bookNotes[k].title)
    ensures r.Success? && r.value.TreeBook? ==>
      exists k :: IsFirstWhere(notes, BookRootOf(book), k) && r.value.tree == TreeOf(notes[k], notes)
  {
    var bookNotes := BookNotes(notes, book);
    if bookNotes == [] then
      assert forall n :: n in notes ==> !InBook(n, book);
      Failure(BookNotFound(book))
    else
      assert bookNotes[0] in bookNotes;
      var roots := FindRootNotes(bookNotes);
      if roots == [] then Success(FlatBook(book, IdTitles(bookNotes)))
      else
        assert roots[0] in roots;
        BookRootsInOrder(notes, book);
        FilterHead(notes, BookRootOf(book));
        Success(TreeBook(book, TreeOf(roots[0], notes)))
  }

  /**
   * The tree `get_book_tree` returns starts at a root note of the book: the
   * root node carries that note's id, title and path, is the only node
   * marked as a root, sits at depth 0, and no note appears twice in it.
   */
  lemma BookTreeIsRooted(notes: seq<Note>, book: string)
    ensures var r := GetBookTree(notes, book);
      r.Success? && r.value.TreeBook? ==>
        var t := r.value.tree;
        && (exists root :: root in notes && IsBookRoot(root, book) && t.id == root.id && t.title == root.title)
        && t.isRoot && t.depth == 0 && Layered(t) && NoDup(TreeIdList(t))
  {
    var r := GetBookTree(notes, book);
    if r.Success? && r.value.TreeBook? {
      var k :| IsFirstWhere(notes, BookRootOf(book), k) && r.value.tree == TreeOf(notes[k], notes);
      var root := notes[k];
      assert root in notes && IsBookRoot(root, book);
      BuildTreeShape(root, notes);
    }
  }

  /**
   * Whenever the book has a root note, the endpoint as written answers
   * 500 where the serialised tree was meant; the two agree everywhere else.
   */
  lemma TreeBranchFailsAsWritten(notes: seq<Note>, book: string)
    ensures (exists n :: n in notes && IsBookRoot(n, book)) ==>
      GetBookTreeAsWritten(notes, book) == Failure(InternalServerError) && GetBookTree(notes, book).Success?
    ensures (forall n :: n in notes ==> !IsBookRoot(n, book)) ==>
      GetBookTreeAsWritten(notes, book) == GetBookTree(notes, book)
  {
    var bookNotes := BookNotes(notes, book);
    if n :| n in notes && IsBookRoot(n, book) {
      assert n in FindRootNotes(bookNotes);
    } else if bookNotes != [] {
      assert bookNotes[0] in bookNotes;
      var roots := FindRootNotes(bookNotes);
      if roots != [] {
        assert roots[0] in roots;
      }
    }
  }

  /** A note of book "b" whose file `notes x` names it as a table of contents. */
  function ExampleRoot(): Note {
    Note(id := "r", title := "r", content := "", category := "c", book := Some("b"),
         filePath := "notes x", wordCount := 0, createdAt := 0)
  }

  lemma PlainFileName(path: string)
    requires '/' !in path
    ensures FileName(path) == path && ParentName(path) == []
  {
    FileNameIsTail(path);
  }

  lemma LowerKeepsLowerCase(s: string)
    requires forall k :: 0 <= k < |s| ==> !IsUpper(s[k])
    ensures Lower(s) == s
  {
  }

  lemma ExampleRootIsBookRoot()
    ensures IsBookRoot(ExampleRoot(), "b")
  {
    var path := ExampleRoot().filePath;
    PlainFileName(path);
    LowerKeepsLowerCase(path);
    LowerKeepsLowerCase("b");
    assert path[..5] == "notes";
    assert path[..6] == "notes ";
  }

  /** A concrete vault on which the as-written endpoint fails: the single note `ExampleRoot()`. */
  lemma TreeBranchFailsOnExample()
    ensures GetBookTreeAsWritten([ExampleRoot()], "b") == Failure(InternalServerError)
  {
    ExampleRootIsBookRoot();
    TreeBranchFailsAsWritten([ExampleRoot()], "b");
  }

  // ---------------------------------------------------------------- search

  /**
   * `search_notes`: 422 when the query is missing or shorter than two
   * characters, or the limit is outside 1..50; otherwise the metadata of
   * the first `limit` search hits (20 when none is given), in order.
   */
  function SearchNotes(notes: seq<Note>, q: Option<string>, limit: Option<int>): (r: Result<seq<NoteMetadata>, HttpError>)
    ensures r.Failure? <==> q.None? || |q.value| < MinQueryLength || (limit.Some? && !(1 <= limit.value <= MaxSearchLimit))
    ensures r.Failure? ==> r.error == UnprocessableEntity
    ensures r.Success? ==>
      var hits := SearchResults(notes, q.value);
      && |r.value| == AtMost(if limit.Some? then limit.value else DefaultSearchLimit, |hits|)
      && forall k :: 0 <= k < |r.value| ==> r.value[k] == MetadataOf(hits[k])
  {
    if q.None? || |q.value| < MinQueryLength then Failure(UnprocessableEntity)
    else
      match CheckedLimit(limit, DefaultSearchLimit, MaxSearchLimit)
      case None => Failure(UnprocessableEntity)
      case Some(n) => Success(Metadata(Take(SearchResults(notes, q.value), n)))
  }

  /** `m` is the metadata of one of `notes` whose title or content contains `query`. */
  ghost predicate IsHit(m: NoteMetadata, notes: seq<Note>, query: string) {
    exists n :: n in notes && MatchesQuery(n, query) && m == MetadataOf(n)
  }

  /** Every item `search_notes` lists is the metadata of a note whose title or content contains the query. */
  lemma SearchHitsMatchQuery(notes: seq<Note>, q: Option<string>, limit: Option<int>)
    ensures var r := SearchNotes(notes, q, limit);
      r.Success? ==> |r.value| <= MaxSearchLimit && forall m :: m in r.value ==> IsHit(m, notes, q.value)
  {
    var r := SearchNotes(notes, q, limit);
    if r.Success? {
      var hits := SearchResults(notes, q.value);
      forall m | m in r.value
        ensures IsHit(m, notes, q.value)
      {
        var k :| 0 <= k < |r.value| && r.value[k] == m;
        assert hits[k] in hits;
      }
    }
  }
}
