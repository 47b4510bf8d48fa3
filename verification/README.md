# Notes backend vault pipeline, modelled in Dafny

This project models the backend that serves an Obsidian vault as a website:

- The **vault parser** turns markdown files into notes. It takes the category and book from the path, cleans up the title, builds a slug id (shortened with an MD5 suffix past 100 characters), extracts `[[target|alias]]` links and counts words. It can also look notes up by id or category, search them, and compute statistics.
- The **tree parser** recognises table-of-contents ("root") notes. It resolves `[[wiki links]]` in three stages (exact title, case-insensitive title in the category, partial title in the category). It grows a depth-first navigation tree that visits every note at most once, and groups trees by category.
- The **quote service** extracts quotes from notes with three patterns (blockquotes, double-quoted and single-quoted text) and filters them by length, links and code fences. It lists, filters and draws quotes.
- The in-memory **TTL cache** and its entry bookkeeping.
- The filter, limit and dispatch logic of the **notes endpoints**: list, book tree and search.
- The **records** of `note.py`.

Files:

| file | module | contents |
|---|---|---|
| `wrappers.dfy` | `Wrappers` | `Option`, `Result` |
| `text.dfy` | `Text` | ASCII character classes, `lower()`, `strip()`, `split()`, substring search |
| `collections.dfy` | `Collections` | duplicates, first-occurrence de-duplication, filters, tallies, `xs[:n]` |
| `models.dfy` | `NoteModels` | `Note`, `NoteMetadata`, `NoteTree`, `Quote`, the contact-form constraints |
| `obsidian_parser.dfy` | `ObsidianParser` | the vault parser |
| `tree_parser.dfy` | `Trees` | the tree parser; the class `TreeParser` holds the three lookup dictionaries |
| `cache_service.dfy` | `Cache` | the class `CacheService` over a map and its key order |
| `quote_service.dfy` | `Quotes` | the quote service |
| `notes_api.dfy` | `NotesApi` | the list, book-tree and search endpoints |

Code that changes state is written as methods with loop invariants. This covers the cache, the tree parser's tables and its recursive builder, and the loops of the vault parser and the quote service. Each method is proved against a specification function, and the properties are proved about those functions. Comprehensions and pure helpers are functions.

## Model

| member | source | states |
|---|---|---|
| NoteModels.NoteTreeDefaults | backend/app/models/note.py:45-53 | a tree node given only id, title and path is not a root, not a leaf, at depth 0, without children |
| NoteModels.NoteDefaults | backend/app/models/note.py:8-18 | a note given no book and no links has book `None` and an empty link list |
| NoteModels.EmailScannerMatchesPattern | backend/app/models/note.py:75 | the first-`@`/last-`.` scanner accepts exactly the strings matching `^[\w.-]+@[\w.-]+\.\w+$` |
| NoteModels.ValidContactFields | backend/app/models/note.py:72-77 | a contact message is valid iff name is 2..100, subject 5..200, message 10..5000 characters and the e-mail matches the pattern |
| Text.Strip | backend/app/services/obsidian_parser.py:101 | `strip()` is empty iff the text is all whitespace; otherwise it neither starts nor ends with whitespace |
| Text.StripTrims | backend/app/services/tree_parser.py:31 | the stripped text is a contiguous piece of the input with only whitespace cut off on both sides |
| Text.Split | backend/app/services/obsidian_parser.py:119 | every word of `split()` is non-empty and holds no whitespace |
| Text.SplitCountsWordStarts | backend/app/services/obsidian_parser.py:119 | `len(content.split())` equals the number of positions where a run of non-whitespace starts |
| ObsidianParser.KeepSlugChars | backend/app/services/obsidian_parser.py:240 | removing `[^\w\s-]` keeps exactly the word characters, whitespace and `-` of the text, in their order, and changes nothing when nothing else is present |
| ObsidianParser.CollapseSeparators | backend/app/services/obsidian_parser.py:241 | replacing runs of `[-\s]` by `-` leaves no whitespace and no two adjacent dashes; the result starts with `-` iff the text starts with a separator, and is empty iff the text is |
| ObsidianParser.CollapseKeepsWords | backend/app/services/obsidian_parser.py:241 | collapsing keeps every character other than `-` and whitespace, in order, and every separator left is `-` |
| ObsidianParser.Slugify | backend/app/services/obsidian_parser.py:234-244 | the empty text gives the empty slug; every result is lower-case, made of word characters and single inner dashes |
| ObsidianParser.SlugifyIdempotent | backend/app/services/obsidian_parser.py:234-244 | slugifying a slug changes nothing: `_slugify(_slugify(t)) == _slugify(t)` |
| ObsidianParser.SlugIsFixedPoint | backend/app/services/obsidian_parser.py:234-244 | every string of slug form is its own slug |
| ObsidianParser.NonEmptyParts | backend/app/services/obsidian_parser.py:225 | `p for p in parts if p` keeps exactly the non-empty parts, in their order |
| ObsidianParser.JoinThree | backend/app/services/obsidian_parser.py:225 | joining the non-empty ones of three strings with `_` puts one `_` between each two non-empty neighbours and none elsewhere |
| ObsidianParser.GenerateId | backend/app/services/obsidian_parser.py:218-231 | the id is at most 100 characters: the joined slug when short enough, else its first 80 characters, `_` and the first 8 digest characters |
| ObsidianParser.IdJoinsSlugs | backend/app/services/obsidian_parser.py:218-231 | the joined slug is the slugs of category, book and title joined by `_` with empty slugs left out (the book's slug is empty when the book is missing or empty); a joined slug of at most 100 characters is the id itself |
| ObsidianParser.Stem | backend/app/services/obsidian_parser.py:105 | the title stem is a prefix of the file name |
| ObsidianParser.CleanTitle | backend/app/services/obsidian_parser.py:106-108 | a `Notes - ` prefix is removed once; any other stem is kept |
| ObsidianParser.LinkAt | backend/app/services/obsidian_parser.py:206 | a reported link is a whole match: `[[`, a non-empty target holding neither `]` nor a pipe, then either `]]` directly or a pipe, a non-empty `]`-free alias and `]]`; the end offset is just past the closing `]]` |
| ObsidianParser.LinkTargetsFrom | backend/app/services/obsidian_parser.py:206-207 | every target found occurs in the text as `[[target]` or as `[[target` followed by a pipe |
| ObsidianParser.NoLinkNothing | backend/app/services/obsidian_parser.py:206-207 | where no link match starts from the offset on, `findall` returns nothing |
| ObsidianParser.FirstLinkLeads | backend/app/services/obsidian_parser.py:206-207 | the first target is that of the match starting nearest the offset, and the search resumes at that match's end: targets come left to right, matches never overlap |
| ObsidianParser.LinkTargetsFromComplete | backend/app/services/obsidian_parser.py:206-207 | every link match in the text is reported unless it starts inside an earlier match |
| ObsidianParser.ExtractLinks | backend/app/services/obsidian_parser.py:204-216 | the links are the targets without repeats, each at its first occurrence; the same set as all targets |
| ObsidianParser.ParseNote | backend/app/services/obsidian_parser.py:88-138 | blank text gives no note; otherwise the note keeps the content, has an id of at most 100 characters, its de-duplicated links and its word count |
| ObsidianParser.ParseNoteFields | backend/app/services/obsidian_parser.py:104-134 | category is the first path part, book the second if any, path the parts joined by `/`, title the cleaned stem of the last path part, id generated from these |
| ObsidianParser.BookOfFileInCategoryFolder | backend/app/services/obsidian_parser.py:197-202 | a file directly inside a category folder gets its own file name as book |
| ObsidianParser.ParsedNotes | backend/app/services/obsidian_parser.py:65-80 | a vault scan yields at most one note per file, none with blank content |
| ObsidianParser.ParseAllNotes | backend/app/services/obsidian_parser.py:41-86 | the loop keeps, in file order, the parsed note of every non-excluded file; default patterns apply only when none are given |
| ObsidianParser.GetNoteById | backend/app/services/obsidian_parser.py:140-154 | no answer iff no note has the id; otherwise the first note with that id |
| ObsidianParser.GetNotesByCategory | backend/app/services/obsidian_parser.py:156-167 | a note is returned iff its category equals the given one ignoring case |
| ObsidianParser.SearchNotes | backend/app/services/obsidian_parser.py:169-188 | a note is returned iff the lower-cased query occurs in its lower-cased title or content |
| ObsidianParser.SearchKeepsOrder | backend/app/services/obsidian_parser.py:182-186 | search results for `a + b` are those for `a` followed by those for `b` |
| ObsidianParser.GetStatistics | backend/app/services/obsidian_parser.py:246-274 | note count, word total, per-category and per-book tallies; an average only for a non-empty vault |
| ObsidianParser.StatisticsCountsAddUp | backend/app/services/obsidian_parser.py:258-271 | the category counts add up to the number of notes; the book counts add up to the number of notes with a book |
| ObsidianParser.BookHasNote | backend/app/services/obsidian_parser.py:264-265 | every counted book is the book of some note |
| Trees.WikiLinkAt | backend/app/services/tree_parser.py:20 | a match of `\[\[([^\]]+)\]\]` is `[[`, a non-empty `]`-free inner text and `]]` |
| Trees.WikiMatchesFrom | backend/app/services/tree_parser.py:30 | every inner text found is non-empty and free of `]` |
| Trees.NoWikiLinkNothing | backend/app/services/tree_parser.py:30 | where no `[[...]]` match starts from the offset on, `findall` returns nothing |
| Trees.FirstWikiLinkLeads | backend/app/services/tree_parser.py:30 | the first inner text is that of the match starting nearest the offset, and the search resumes at that match's end: matches come left to right and never overlap |
| Trees.WikiMatchesFromComplete | backend/app/services/tree_parser.py:30 | every `[[...]]` match in the text is reported unless it starts inside an earlier match |
| Trees.ExtractWikiLinks | backend/app/services/tree_parser.py:28-31 | one link per match, in order, each without surrounding whitespace |
| Trees.WikiLinksAreTrimmedMatches | backend/app/services/tree_parser.py:28-31 | each link is its match with only whitespace cut off on both sides, and is empty iff the match is blank |
| Trees.WikiLinkKeepsAlias | backend/app/services/tree_parser.py:20 | wherever the vault parser sees a link to `t`, the tree parser sees the same match with inner text `t`, or `t`, a pipe and the alias |
| Trees.FileNameIsTail | backend/app/services/tree_parser.py:42 | the file name is the tail of the path after its last `/` |
| Trees.IsRootNote | backend/app/services/tree_parser.py:33-59 | a root's file name contains `notes` and its folder is not `files`, `zfiles` or `file` |
| Trees.RootNoteWhenEligible | backend/app/services/tree_parser.py:51-59 | past those checks, a note is a root iff it has at least 2 wiki links and under 1000 characters, or its name starts with `notes `, `notes-` or `a ` |
| Trees.FindRootNotes | backend/app/services/tree_parser.py:141-143 | a note is returned iff it is a root note |
| Trees.ById | backend/app/services/tree_parser.py:86 | `notes_by_id` has one entry per id in order of first appearance, holding the last note with that id |
| Trees.TitleMap | backend/app/services/tree_parser.py:87 | every title is a key and maps to the last note with that title |
| Trees.Resolve | backend/app/services/tree_parser.py:61-82 | a resolved link names a note of the tables |
| Trees.ResolveFailsExactly | backend/app/services/tree_parser.py:61-82 | resolution fails iff no title equals the stripped link and no title of the category contains it ignoring case; stages 2 and 3 stay in the category |
| Trees.Expand | backend/app/services/tree_parser.py:105-116 | growing a node only enlarges the visited set |
| Trees.Children | backend/app/services/tree_parser.py:118-139 | the link loop only enlarges the visited set |
| Trees.ExpandShape | backend/app/services/tree_parser.py:105-139 | a grown node keeps its header, is a leaf iff its note has no links, is layered, repeats no id, and its new ids were unvisited and become visited |
| Trees.ChildrenShape | backend/app/services/tree_parser.py:118-139 | the link loop only appends children, each with fresh, distinct ids one level down |
| Trees.BuildTreeShape | backend/app/services/tree_parser.py:84-103 | the tree has the root note's id, title and path, is the only root, at depth 0, layered, and repeats no id |
| Trees.ExpandFollows | backend/app/services/tree_parser.py:105-116 | a grown node is a leaf iff its note has no wiki links, and its children are picked from those links as `PickedFrom` says |
| Trees.ChildrenFollows | backend/app/services/tree_parser.py:118-139 | the children the link loop appends are, in link order, the subtrees grown from the notes the links resolve to, skipping a link that fails or finds its note visited; every link fails or leads to a visited note |
| Trees.BuildTreeFollowsLinks | backend/app/services/tree_parser.py:84-139 | at every node of the tree: a leaf iff its note has no wiki links; every link of its note fails to resolve or leads to a note in the tree; its children are the notes its links resolve to, in link order, each at the first link that finds it unvisited, each grown the same way |
| Trees.TreesOf | backend/app/services/tree_parser.py:166-168 | one tree per root note |
| Trees.CategoryTrees | backend/app/services/tree_parser.py:145-172 | one entry per distinct category |
| Trees.CategoryTreesShape | backend/app/services/tree_parser.py:145-172 | the keys are the distinct categories in order of first appearance, none repeated; each entry holds `TreesOf` the root notes of its category, one tree per root, in order, rooted at that note |
| Trees.CategoryEntryShape | backend/app/services/tree_parser.py:162-170 | a category's entry has one tree per root note, in order, each a root at depth 0 with that note's id |
| Trees.HasTreesIff | backend/app/services/tree_parser.py:166-170 | some category has a tree iff the tree loop ran at least once |
| Trees.TreeParser.constructor | backend/app/services/tree_parser.py:22-26 | the three lookup tables start empty |
| Trees.TreeParser.FindNoteByLinkText | backend/app/services/tree_parser.py:61-82 | the two loops over `notes_by_id` return what `Resolve` specifies for the current tables |
| Trees.TreeParser.BuildTree | backend/app/services/tree_parser.py:84-103 | the tables become those of `all_notes`; the tree returned is `TreeOf(root, all_notes)` |
| Trees.TreeParser.BuildTreeRecursive | backend/app/services/tree_parser.py:105-139 | the finished node and visited set are those `Expand` specifies |
| Trees.TreeParser.BuildTrees | backend/app/services/tree_parser.py:164-170 | the inner loop yields the trees of the roots in order; the tables change only if it ran |
| Trees.TreeParser.BuildCategoryTree | backend/app/services/tree_parser.py:145-172 | the result is `CategoryTrees(notes)`; the tables are those of `notes` iff some tree was built |
| Trees.GroupByCategory | backend/app/services/tree_parser.py:153-157 | the keys are the distinct categories in first-appearance order; each holds its notes in order |
| Cache.EffectiveTtl | backend/app/services/cache_service.py:61 | `ttl or default_ttl`: a missing or zero ttl falls back to the default; any other is used as given |
| Cache.Without | backend/app/services/cache_service.py:45 | deleting a key removes exactly that key from the key order |
| Cache.LiveCountIsCard | backend/app/services/cache_service.py:110-113 | counting valid entries along the duplicate-free key list counts each valid key once |
| Cache.CacheService.constructor | backend/app/services/cache_service.py:17-26 | an empty cache with the given default ttl |
| Cache.CacheService.Get | backend/app/services/cache_service.py:28-50 | a missing key is a miss; an expired entry is removed and is a miss; a live entry's value is returned and nothing changes |
| Cache.CacheService.Set | backend/app/services/cache_service.py:52-69 | the key maps to the value with expiry `now + ttl`; a new key goes last in the key order; the invariant is kept |
| Cache.CacheService.Invalidate | backend/app/services/cache_service.py:71-86 | the answer says whether the key was present; the key is gone afterwards |
| Cache.CacheService.InvalidateAll | backend/app/services/cache_service.py:88-99 | returns the number of entries; the cache is empty afterwards |
| Cache.CacheService.GetStats | backend/app/services/cache_service.py:101-118 | total entries, the number still valid at `now` (never more than the total), and the keys in insertion order |
| Quotes.BlockquoteAt | backend/app/services/quote_service.py:23 | a blockquote match starts a line with `>`, skips whitespace, captures a non-empty newline-free group and ends at a line end |
| Quotes.QuotedAt | backend/app/services/quote_service.py:24-25 | a quoted match is the quote character, 20..200 other characters, the quote character; it fails on a run of the wrong length or an unclosed quote |
| Quotes.FindAllFrom | backend/app/services/quote_service.py:50 | every group `findall` returns has the shape its pattern captures |
| Quotes.NoMatchNothing | backend/app/services/quote_service.py:50 | where no match of the pattern starts from the offset on, `findall` returns nothing |
| Quotes.FirstMatchLeads | backend/app/services/quote_service.py:50 | the first group is that of the match starting nearest the offset, and the search resumes at that match's end: matches come left to right and never overlap |
| Quotes.FindAllFromComplete | backend/app/services/quote_service.py:50 | every match of the pattern is reported unless it starts inside an earlier match |
| Quotes.QuotesFromMatchesAreStrippedMatches | backend/app/services/quote_service.py:52-68 | every quote is a stripped match that passed the checks, attributed to the note |
| Quotes.RepeatedMatchRepeatsQuote | backend/app/services/quote_service.py:52-68 | matches are not de-duplicated: a repeated match yields its quote again |
| Quotes.QuotesOfAttributed | backend/app/services/quote_service.py:36-70 | every quote of a note has 30..500 characters, no `http` prefix, no `` ``` `` or `[[`, and carries the note's title, book and category |
| Quotes.QuotesInPatternOrder | backend/app/services/quote_service.py:49-50 | the note's quotes come pattern by pattern in the listed order |
| Quotes.AcceptMatches | backend/app/services/quote_service.py:52-68 | the inner loop yields the quotes of the matches in order |
| Quotes.ExtractQuotesFromNote | backend/app/services/quote_service.py:36-70 | the method's result is the note's quotes |
| Quotes.AllQuotesAttributed | backend/app/services/quote_service.py:87-90 | every vault quote comes from one of the notes and carries its attribution |
| Quotes.AllQuotesConcat | backend/app/services/quote_service.py:87-90 | the vault's quotes split along any split of the note list |
| Quotes.GetAllQuotes | backend/app/services/quote_service.py:72-97 | the loop concatenates the quotes of every note in order |
| Quotes.StrLessTransitive | backend/app/services/quote_service.py:108 | Python's string order is transitive |
| Quotes.StrLessTotal | backend/app/services/quote_service.py:108 | Python's string order is total |
| Quotes.InsertKeepsSorted | backend/app/services/quote_service.py:107-108 | inserting into a sorted list keeps it sorted |
| Quotes.SortedCategories | backend/app/services/quote_service.py:107-108 | the list is sorted and holds exactly the categories of the quotes |
| Quotes.SortedIsUnique | backend/app/services/quote_service.py:107-108 | two sorted lists with the same elements are equal, so the category list is determined |
| Quotes.GetCategories | backend/app/services/quote_service.py:99-108 | sorted, repeat-free, and a category is listed iff some quote has it |
| Quotes.ByCategory | backend/app/services/quote_service.py:141 | a quote is kept iff its category equals the given one ignoring case |
| Quotes.ByCategoryKeepsOrder | backend/app/services/quote_service.py:141 | the category filter keeps the relative order of the quotes |
| Quotes.GetQuotesByCategory | backend/app/services/quote_service.py:130-141 | a vault quote is returned iff its category matches ignoring case |
| Quotes.GetRandomQuote | backend/app/services/quote_service.py:110-128 | none iff no candidate (an empty category filter means no filter); otherwise a vault quote, in the requested category if one was given |
| NotesApi.TwoFiltersAreOne | backend/app/api/notes.py:30-33 | filtering by category, then by book, selects exactly the notes passing both given filters |
| NotesApi.GetAllNotes | backend/app/api/notes.py:20-47 | 422 iff a limit outside 1..500 is given; otherwise the metadata of the first `limit` (default 100) selected notes, in order |
| NotesApi.ListedNotesMatchFilters | backend/app/api/notes.py:30-45 | at most 500 items; each has the requested category, and a book present and equal to the requested one, ignoring case |
| NotesApi.GetBookTreeAsWritten | backend/app/api/notes.py:97-129 | as written, the endpoint never returns a tree: its only successful answer is the flat list |
| NotesApi.GetBookTree | backend/app/api/notes.py:97-129 | 404 iff no note is in the book; flat (id, title) list iff the book has no root note; else the tree, over all notes, of the first note of the vault that is a root of the book |
| NotesApi.BookRootsInOrder | backend/app/api/notes.py:103-122 | the roots found among the book's notes are the vault's notes that are roots of the book, in vault order |
| NotesApi.BookTreeIsRooted | backend/app/api/notes.py:122-129 | the returned tree starts at a root note of the book, is the only root, at depth 0, layered, repeats no note |
| NotesApi.TreeBranchFailsAsWritten | backend/app/api/notes.py:122-129 | when the book has a root note, the code as written answers 500 while the corrected one succeeds; elsewhere the two agree |
| NotesApi.TreeBranchFailsOnExample | backend/app/api/notes.py:128 | a one-note vault on which the code as written answers 500 |
| NotesApi.SearchNotes | backend/app/api/notes.py:132-153 | 422 iff the query is missing or shorter than 2, or a limit outside 1..50 is given; else the metadata of the first `limit` (default 20) hits |
| NotesApi.SearchHitsMatchQuery | backend/app/api/notes.py:139-151 | at most 50 items, each the metadata of a note whose title or content contains the query |

## Left out

- The file system is not modelled. A vault is a list of files, each with its path parts and its text. The order of `rglob` is the order of that list. A missing vault folder is not modelled; it behaves like an empty file list. Read and decode errors, which `parse_note` turns into `None`, are not modelled.
- The `all_notes` and `all_quotes` cache lookups inside `parse_all_notes` and `get_all_quotes` are not modelled. The model always parses afresh. So it does not capture that a cached list is returned whatever `exclude_patterns` is.
- The MD5 digest is a parameter `md5Hex`, assumed to return 32 characters.
- `datetime.now()` and `time.time()` become a parameter `now`. Time is a whole number of seconds rather than a float. `set` reads the clock twice; the model uses one instant for both reads.
- `random.choice` becomes an index `choice` into the candidates. The distribution of the draw is not modelled.
- The `Lock` is not modelled. Each cache method is one atomic step.
- Python's Unicode semantics are not modelled. `\w`, `\s`, `str.isspace`, `str.lower` and string order are modelled over ASCII: characters outside ASCII are never word characters or whitespace, and `lower()` folds only `A`-`Z`. The four regular expressions are matched by hand-written scanners that follow the `re` engine's leftmost, greedy matching and its backtracking.
- `get_statistics` sorts its two dictionaries. The model returns them as maps, so their key order is not represented.
- `ObsidianParser.__init__` is not modelled: the vault root is a parameter. Also left out: the singletons `get_parser`, `get_tree_parser`, `get_quote_service` and `cache_service`, and logging.
- The endpoints `get_stats`, `get_categories`, `get_books`, `get_structure` and `get_note`, and everything in `main.py`, `quotes.py` and `contact.py`, are not modelled. `build_category_structure` and `get_navigation_context` are called there but are not part of this model.
- Pydantic's type validation and JSON serialisation of responses are not modelled. The `created_at` default factory is `now`. `NoteStats` has no counterpart beyond `ObsidianParser.Statistics`.
- `CacheService(default_ttl=300)`: Dafny constructors take no default arguments, so the default ttl is passed explicitly. `Cache.DefaultTtl` records 300.
- `Trees.TreeParser.BuildTreeRecursive`: the source mutates the node it is handed and the shared `visited` set. The model returns the finished node and visited set as values. `NoteTree` is a datatype, so aliasing between the appended child and the node it later grows is not represented; the resulting tree is the same.
- `Quotes.BlockquoteAt`: states only that a reported match is a match of the pattern. It does not state that a `None` answer means no match starts there.
- `ObsidianParser.LinkAt`: states that a reported link is a whole match of the pattern, but not that a `None` answer means no match starts there.
- `Trees.WikiLinkAt`: states only that a reported link is a match of the pattern, not that every match is found.
- `ObsidianParser.Stem`: states only that the stem is a prefix of the name. The position of the dropped suffix is given by its body and by `LastDot`.
- `Trees.Resolve`: its own contract states only that a found note is in the tables. The stage-by-stage behaviour is in `Trees.ResolveFailsExactly` and the method `Trees.TreeParser.FindNoteByLinkText`.
- `Trees.Expand`: its own contract states only that the visited set grows. The shape of the grown node is stated by `Trees.ExpandShape`; its leaf flag and which children it gets, in which order, by `Trees.ExpandFollows` and `Trees.BuildTreeFollowsLinks`.
- `Trees.Children`: its own contract states only that the visited set grows. The shape of what it appends is stated by `Trees.ChildrenShape`; which children it appends, in which order, by `Trees.ChildrenFollows`.
- `Trees.CategoryTrees`: its own contract states only the number of entries. The contents are stated by `Trees.CategoryTreesShape`.

## Findings

| source | as written | input that shows it | evidently intended | confidence | as-written member | corrected member |
|---|---|---|---|---|---|---|
| backend/app/api/notes.py:128 | the tree branch of `get_book_tree` calls `tree.to_dict()`. `NoteTree` is a pydantic `BaseModel`, which has no `to_dict` method, so the call raises `AttributeError` and the endpoint answers 500 | any book with a root note, e.g. the single note of book `b` at path `notes x` (`NotesApi.TreeBranchFailsOnExample`) | answer `has_tree = true` with the serialised tree (`tree.model_dump()`) | high, not executed | NotesApi.GetBookTreeAsWritten | NotesApi.GetBookTree |
