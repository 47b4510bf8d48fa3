/**
 * The tree builder: `[[...]]` link extraction without alias splitting, the
 * root-note heuristic, the three-stage link resolver and the depth-first
 * construction of a note tree that visits every note at most once.
 */
module Trees {
  import opened Wrappers
  import opened Text
  import opened Collections
  import opened NoteModels
  import ObsidianParser

  // ---------------------------------------------------------------- wiki links

  /** A match of `\[\[([^\]]+)\]\]` at offset `i`: the inner text and the offset past the match. */
  function WikiLinkAt(s: string, i: nat): (m: Option<(string, nat)>)
    requires i <= |s|
    ensures m.Some? ==> var (inner, end) := m.value;
      && end == i + |inner| + 4 <= |s|
      && inner != [] && ']' !in inner
      && s[i..end] == "[[" + inner + "]]"
  {
    if i + 2 <= |s| && s[i] == '[' && s[i + 1] == '[' then
      var j := ObsidianParser.BracketEnd(s, i + 2);
      if j > i + 2 && j + 1 < |s| && s[j + 1] == ']' then
        assert s[i..j + 2] == "[[" + s[i + 2..j] + "]]";
        Some((s[i + 2..j], j + 2))
      else None
    else None
  }

  /** `WIKI_LINK_PATTERN.findall` from offset `i`: the inner texts, left to right. */
  function WikiMatchesFrom(s: string, i: nat): (inner: seq<string>)
    requires i <= |s|
    ensures forall t :: t in inner ==> t != [] && ']' !in t
    decreases |s| - i
  {
    if i == |s| then []
    else match WikiLinkAt(s, i)
      case Some((t, end)) => [t] + WikiMatchesFrom(s, end)
      case None => WikiMatchesFrom(s, i + 1)
  }

  /** With no `[[...]]` match from offset `i` on, the scan finds nothing. */
  lemma {:induction false} NoWikiLinkNothing(s: string, i: nat)
    requires i <= |s|
    requires forall p :: i <= p < |s| ==> WikiLinkAt(s, p).None?
    ensures WikiMatchesFrom(s, i) == []
    decreases |s| - i
  {
    if i < |s| {
      NoWikiLinkNothing(s, i + 1);
    }
  }

  /**
   * The scan from `i` reports first the `[[...]]` match that starts nearest to `i`,
   * then goes on from the end of that match: matches are reported left to
   * right and never overlap.
   */
  lemma {:induction false} FirstWikiLinkLeads(s: string, i: nat, j: nat)
    requires i <= j < |s| && WikiLinkAt(s, j).Some?
    requires forall p :: i <= p < j ==> WikiLinkAt(s, p).None?
    ensures WikiMatchesFrom(s, i) == [WikiLinkAt(s, j).value.0] + WikiMatchesFrom(s, WikiLinkAt(s, j).value.1)
    decreases j - i
  {
    if i < j {
      FirstWikiLinkLeads(s, i + 1, j);
    }
  }

  /**
   * Every `[[...]]` match in `s[i..]` is reported, unless it starts inside a match
   * that begins earlier.
   */
  lemma {:induction false} WikiMatchesFromComplete(s: string, i: nat, j: nat)
    requires i <= j < |s| && WikiLinkAt(s, j).Some?
    ensures || WikiLinkAt(s, j).value.0 in WikiMatchesFrom(s, i)
            || exists p :: i <= p < j && WikiLinkAt(s, p).Some? && j < WikiLinkAt(s, p).value.1
    decreases j - i
  {
    if i < j {
      match WikiLinkAt(s, i)
      case None =>
        WikiMatchesFromComplete(s, i + 1, j);
      case Some((t, end)) =>
        if end <= j {
          WikiMatchesFromComplete(s, end, j);
        }
    }
  }

  /** `extract_wiki_links`: the stripped inner text of every `[[...]]`, in order, duplicates kept. */
  function ExtractWikiLinks(content: string): (links: seq<string>)
    ensures |links| == |WikiMatchesFrom(content, 0)|
    ensures forall k :: 0 <= k < |links| ==> links[k] == [] || (!IsSpace(links[k][0]) && !IsSpace(links[k][|links[k]| - 1]))
  {
    var inner := WikiMatchesFrom(content, 0);
    seq(|inner|, k requires 0 <= k < |inner| => Strip(inner[k]))
  }

  /**
   * Each link is its match with the surrounding whitespace cut off; it holds
   * no `]`, and it is empty exactly when the match is blank.
   */
  lemma WikiLinksAreTrimmedMatches(content: string, k: nat)
    requires k < |ExtractWikiLinks(content)|
    ensures var m := WikiMatchesFrom(content, 0)[k]; var link := ExtractWikiLinks(content)[k];
      && (exists i :: TrimmedAt(m, link, i))
      && ']' !in link
      && (link == [] <==> AllSpace(m))
  {
    var m := WikiMatchesFrom(content, 0)[k];
    var link := ExtractWikiLinks(content)[k];
    assert link == Strip(m);
    assert m in WikiMatchesFrom(content, 0);
    StripTrims(m);
    var i :| TrimmedAt(m, link, i);
    assert link == m[i..i + |link|];
  }

  /**
   * Where the vault parser sees a link with target `t`, the tree parser sees
   * the same match: its inner text is `t` itself, or `t` followed by `|` and
   * the alias, which the tree parser keeps.
   */
  lemma {:induction false} WikiLinkKeepsAlias(s: string, i: nat)
    requires i <= |s|
    requires ObsidianParser.LinkAt(s, i).Some?
    ensures WikiLinkAt(s, i).Some?
    ensures WikiLinkAt(s, i).value.1 == ObsidianParser.LinkAt(s, i).value.1
    ensures var t := ObsidianParser.LinkAt(s, i).value.0; var inner := WikiLinkAt(s, i).value.0;
      inner == t || (|inner| > |t| + 1 && inner[..|t| + 1] == t + "|")
  {
    var j := ObsidianParser.TargetEnd(s, i + 2);
    if j + 1 < |s| && s[j] == ']' && s[j + 1] == ']' {
      PlainLinkAgrees(s, i, j);
    } else {
      AliasedLinkAgrees(s, i, j);
    }
  }

  /** `[[t]]`: both parsers see the target `t`. */
  lemma PlainLinkAgrees(s: string, i: nat, j: nat)
    requires i <= |s| && ObsidianParser.LinkAt(s, i).Some?
    requires j == ObsidianParser.TargetEnd(s, i + 2) && j + 1 < |s| && s[j] == ']' && s[j + 1] == ']'
    ensures ObsidianParser.LinkAt(s, i) == Some((s[i + 2..j], j + 2))
    ensures WikiLinkAt(s, i) == Some((s[i + 2..j], j + 2))
  {
    BracketEndIsFirst(s, i + 2, j);
  }

  /** `[[t|alias]]`: the tree parser keeps `t|alias`. */
  lemma AliasedLinkAgrees(s: string, i: nat, j: nat)
    requires i <= |s| && ObsidianParser.LinkAt(s, i).Some?
    requires j == ObsidianParser.TargetEnd(s, i + 2) && !(j + 1 < |s| && s[j] == ']' && s[j + 1] == ']')
    ensures var m := ObsidianParser.BracketEnd(s, j + 1);
      && ObsidianParser.LinkAt(s, i) == Some((s[i + 2..j], m + 2))
      && WikiLinkAt(s, i) == Some((s[i + 2..m], m + 2))
      && |s[i + 2..m]| > j - i - 1 && s[i + 2..m][..j - i - 1] == s[i + 2..j] + "|"
  {
    var m := ObsidianParser.BracketEnd(s, j + 1);
    assert i + 2 <= |s| && s[i] == '[' && s[i + 1] == '[' && j < |s| && s[j] == '|'
      && j + 1 < m && m + 1 < |s| && s[m + 1] == ']';
    AliasedWikiLink(s, i, j, m);
  }

  /** The tree parser's view of `[[t|alias]]`, from the shape of the text alone. */
  lemma AliasedWikiLink(s: string, i: nat, j: nat, m: nat)
    requires i + 2 <= |s| && s[i] == '[' && s[i + 1] == '['
    requires j == ObsidianParser.TargetEnd(s, i + 2) && j < |s| && s[j] == '|'
    requires m == ObsidianParser.BracketEnd(s, j + 1) && j + 1 < m && m + 1 < |s| && s[m + 1] == ']'
    ensures WikiLinkAt(s, i) == Some((s[i + 2..m], m + 2))
    ensures |s[i + 2..m]| > j - i - 1 && s[i + 2..m][..j - i - 1] == s[i + 2..j] + "|"
  {
    assert forall k :: i + 2 <= k < m ==> s[k] != ']' by {
      forall k | i + 2 <= k < m ensures s[k] != ']' {
        if k > j {
          assert j + 1 <= k < ObsidianParser.BracketEnd(s, j + 1);
        }
      }
    }
    assert ObsidianParser.BracketEnd(s, i + 2) == m by { BracketEndIsFirst(s, i + 2, m); }
    assert s[i + 2..m][..j - i - 1] == s[i + 2..j + 1] == s[i + 2..j] + [s[j]];
  }

  /** The `]`-free run from `a` ends at the first `]`. */
  lemma {:induction false} BracketEndIsFirst(s: string, a: nat, j: nat)
    requires a <= j < |s| && s[j] == ']'
    requires forall k :: a <= k < j ==> s[k] != ']'
    ensures ObsidianParser.BracketEnd(s, a) == j
    decreases j - a
  {
    if a < j {
      BracketEndIsFirst(s, a + 1, j);
    }
  }

  // ---------------------------------------------------------------- root notes

  /** `Path(path).name`: the text after the last `/`. */
  function FileName(path: string): (name: string)
    ensures '/' !in name
    ensures |name| <= |path|
  {
    if path == [] || path[|path| - 1] == '/' then
      []
    else
      FileName(path[..|path| - 1]) + [path[|path| - 1]]
  }

  /** The file name is the tail of the path, preceded by a `/` unless it is the whole path. */
  lemma {:induction false} FileNameIsTail(path: string)
    ensures var name := FileName(path);
      && name == path[|path| - |name|..]
      && (|name| < |path| ==> path[|path| - |name| - 1] == '/')
  {
    if path != [] && path[|path| - 1] != '/' {
      var init := path[..|path| - 1];
      FileNameIsTail(init);
      var rest := FileName(init);
      var k := |init| - |rest|;
      assert init[k..] == path[k..|path| - 1];
      assert FileName(path) == rest + [path[|path| - 1]];
      assert path[k..] == path[k..|path| - 1] + [path[|path| - 1]];
      if |rest| < |init| {
        assert path[k - 1] == init[k - 1];
      }
    }
  }

  /** `Path(path).parent.name`: the component before the file name, or empty. */
  function ParentName(path: string): (name: string)
    ensures '/' !in name
  {
    var name := FileName(path);
    if |name| < |path| then FileName(path[..|path| - |name| - 1]) else []
  }

  /** Parent folders whose notes are never roots. */
  const NonRootFolders: seq<string> := ["files", "zfiles", "file"]

  /** The least number of wiki links, and the bound on the length, of a short table-of-contents note. */
  const MinRootLinks := 2
  const MaxRootContentLength := 1000

  /**
   * `is_root_note`: the lower-cased file name must contain `notes` and the
   * parent folder must not be one of the attachment folders; then a short
   * note with at least two wiki links, or a file name starting with
   * `notes `, `notes-` or `a `, is a root.
   */
  function IsRootNote(note: Note): (root: bool)
    ensures root ==> Contains(Lower(FileName(note.filePath)), "notes")
    ensures root ==> Lower(ParentName(note.filePath)) !in NonRootFolders
  {
    var fileName := Lower(FileName(note.filePath));
    var parent := Lower(ParentName(note.filePath));
    if !Contains(fileName, "notes") then false
    else if parent in NonRootFolders then false
    else if |ExtractWikiLinks(note.content)| >= MinRootLinks && |note.content| < MaxRootContentLength then true
    else StartsWith(fileName, "notes ") || StartsWith(fileName, "notes-") || StartsWith(fileName, "a ")
  }

  /** Once the file name and folder pass, a note is a root exactly when it is a short link list or its name says so. */
  lemma RootNoteWhenEligible(note: Note)
    requires Contains(Lower(FileName(note.filePath)), "notes")
    requires Lower(ParentName(note.filePath)) !in NonRootFolders
    ensures var fileName := Lower(FileName(note.filePath));
      IsRootNote(note) <==>
        || (|ExtractWikiLinks(note.content)| >= 2 && |note.content| < 1000)
        || StartsWith(fileName, "notes ") || StartsWith(fileName, "notes-") || StartsWith(fileName, "a ")
  {
  }

  /** `find_root_notes`: the root notes of a list, in order. */
  function FindRootNotes(notes: seq<Note>): (roots: seq<Note>)
    ensures forall n :: n in roots <==> n in notes && IsRootNote(n)
  {
    Filter(notes, IsRootNote)
  }

  // ---------------------------------------------------------------- lookup tables

  /** The three dictionaries `build_tree` fills; `byId` holds the values of `notes_by_id` in key order. */
  datatype Index = Index(byId: seq<Note>, byTitle: map<string, Note>, byPath: map<string, Note>)

  function IdList(notes: seq<Note>): (ids: seq<string>)
    ensures |ids| == |notes| && forall k :: 0 <= k < |notes| ==> ids[k] == notes[k].id
  {
    seq(|notes|, k requires 0 <= k < |notes| => notes[k].id)
  }

  /** `d[n.id] = n` on a dictionary represented by its values in key order. */
  function Upsert(byId: seq<Note>, n: Note): seq<Note> {
    if n.id in IdList(byId) then seq(|byId|, k requires 0 <= k < |byId| => if byId[k].id == n.id then n else byId[k])
    else byId + [n]
  }

  /** The last note in `notes` that carries `id`. */
  function LastWithId(notes: seq<Note>, id: string): (n: Note)
    requires id in IdList(notes)
    ensures n in notes && n.id == id
  {
    var last := notes[|notes| - 1];
    if last.id == id then last
    else
      assert id in IdList(notes[..|notes| - 1]) by {
        var k :| 0 <= k < |notes| && IdList(notes)[k] == id;
        assert IdList(notes[..|notes| - 1])[k] == id;
      }
      LastWithId(notes[..|notes| - 1], id)
  }

  /**
   * `{note.id: note for note in notes}`: one entry per id in order of first
   * appearance, each holding the last note with that id.
   */
  function ById(notes: seq<Note>): (byId: seq<Note>)
    ensures IdList(byId) == Distinct(IdList(notes))
    ensures forall k :: 0 <= k < |byId| ==> byId[k].id in IdList(notes) && byId[k] == LastWithId(notes, byId[k].id)
  {
    if notes == [] then []
    else
      var prefix := notes[..|notes| - 1];
      var n := notes[|notes| - 1];
      ByIdStep(prefix, ById(prefix), n);
      assert prefix + [n] == notes;
      Upsert(ById(prefix), n)
  }

  lemma ByIdStep(prefix: seq<Note>, before: seq<Note>, n: Note)
    requires IdList(before) == Distinct(IdList(prefix))
    requires forall k :: 0 <= k < |before| ==> before[k].id in IdList(prefix) && before[k] == LastWithId(prefix, before[k].id)
    ensures var r := Upsert(before, n); var notes := prefix + [n];
      && IdList(r) == Distinct(IdList(notes))
      && forall k :: 0 <= k < |r| ==> r[k].id in IdList(notes) && r[k] == LastWithId(notes, r[k].id)
  {
    ByIdKeysStep(prefix, before, n);
    var r := Upsert(before, n);
    forall k | 0 <= k < |r| ensures r[k].id in IdList(prefix + [n]) && r[k] == LastWithId(prefix + [n], r[k].id) {
      ByIdValueStep(prefix, before, n, k);
    }
  }

  lemma ByIdKeysStep(prefix: seq<Note>, before: seq<Note>, n: Note)
    requires IdList(before) == Distinct(IdList(prefix))
    ensures IdList(Upsert(before, n)) == Distinct(IdList(prefix + [n]))
  {
    var r := Upsert(before, n);
    assert IdList(prefix + [n]) == IdList(prefix) + [n.id];
    DistinctSnoc(IdList(prefix), n.id);
    if n.id in IdList(before) {
      assert IdList(r) == IdList(before);
    } else {
      assert IdList(r) == IdList(before) + [n.id];
    }
  }

  lemma ByIdValueStep(prefix: seq<Note>, before: seq<Note>, n: Note, k: nat)
    requires IdList(before) == Distinct(IdList(prefix))
    requires forall k :: 0 <= k < |before| ==> before[k].id in IdList(prefix) && before[k] == LastWithId(prefix, before[k].id)
    requires k < |Upsert(before, n)|
    ensures var r := Upsert(before, n); var notes := prefix + [n];
      r[k].id in IdList(notes) && r[k] == LastWithId(notes, r[k].id)
  {
    var notes := prefix + [n];
    var r := Upsert(before, n);
    assert IdList(notes) == IdList(prefix) + [n.id];
    assert notes[..|notes| - 1] == prefix;
    if r[k] != n {
      assert k < |before| && r[k] == before[k];
      assert r[k].id != n.id;
      var j :| 0 <= j < |prefix| && IdList(prefix)[j] == r[k].id;
      assert IdList(notes)[j] == r[k].id;
    } else {
      assert IdList(notes)[|prefix|] == n.id;
    }
  }

  /** `notes[k]` is the last note titled `title`. */
  predicate IsLastWithTitle(notes: seq<Note>, k: int, title: string) {
    0 <= k < |notes| && notes[k].title == title && forall j :: k < j < |notes| ==> notes[j].title != title
  }

  /** Every title in `m` maps to the last note of `notes` with that title. */
  ghost predicate LastWins(notes: seq<Note>, m: map<string, Note>) {
    forall t :: t in m ==> exists k :: IsLastWithTitle(notes, k, t) && notes[k] == m[t]
  }

  /** `{note.title: note for note in notes}`: the last note with a title wins. */
  function TitleMap(notes: seq<Note>): (byTitle: map<string, Note>)
    ensures forall n :: n in notes ==> n.title in byTitle
    ensures LastWins(notes, byTitle)
  {
    if notes == [] then map[]
    else
      var prefix := notes[..|notes| - 1];
      var n := notes[|notes| - 1];
      assert notes == prefix + [n];
      TitleMapStep(prefix, n, TitleMap(prefix));
      TitleMap(prefix)[n.title := n]
  }

  lemma TitleMapStep(prefix: seq<Note>, n: Note, m: map<string, Note>)
    requires forall x :: x in prefix ==> x.title in m
    requires LastWins(prefix, m)
    ensures forall x :: x in prefix + [n] ==> x.title in m[n.title := n]
    ensures LastWins(prefix + [n], m[n.title := n])
  {
    var notes := prefix + [n];
    assert IsLastWithTitle(notes, |notes| - 1, n.title);
    forall t | t in m && t != n.title ensures exists k :: IsLastWithTitle(notes, k, t) && notes[k] == m[t] {
      var k :| IsLastWithTitle(prefix, k, t) && prefix[k] == m[t];
      assert IsLastWithTitle(notes, k, t);
    }
  }

  /** `{note.file_path: note for note in notes}`. */
  function PathMap(notes: seq<Note>): map<string, Note> {
    if notes == [] then map[]
    else PathMap(notes[..|notes| - 1])[notes[|notes| - 1].filePath := notes[|notes| - 1]]
  }

  function MakeIndex(notes: seq<Note>): Index {
    Index(ById(notes), TitleMap(notes), PathMap(notes))
  }

  /** Every id the lookup tables can hand out. */
  function Ids(ix: Index): set<string> {
    (set n | n in ix.byId :: n.id) + (set t | t in ix.byTitle :: ix.byTitle[t].id)
  }

  // ---------------------------------------------------------------- link resolution

  /** Stage 2 of the resolver: same category, title equal ignoring case. */
  function TitleIs(category: string, lowerLink: string): Note -> bool {
    (n: Note) => n.category == category && Lower(n.title) == lowerLink
  }

  /** Stage 3 of the resolver: same category, title contains the link ignoring case. */
  function TitleHas(category: string, lowerLink: string): Note -> bool {
    (n: Note) => n.category == category && Contains(Lower(n.title), lowerLink)
  }

  /**
   * `find_note_by_link_text`: an exact title lookup over all notes, then the
   * first note of the category whose title equals the link ignoring case,
   * then the first whose title contains it.
   */
  function Resolve(ix: Index, linkText: string, category: string): (r: Option<Note>)
    ensures r.Some? ==> r.value.id in Ids(ix)
  {
    var clean := Strip(linkText);
    var lower := Lower(clean);
    if clean in ix.byTitle then Some(ix.byTitle[clean])
    else match FindFirst(ix.byId, TitleIs(category, lower))
      case Some(n) => Some(n)
      case None => FindFirst(ix.byId, TitleHas(category, lower))
  }

  /**
   * Resolution fails exactly when no note has the stripped link as its title
   * and no note of the category contains it in its title, ignoring case; a
   * note found by stages 2 or 3 belongs to the category.
   */
  lemma ResolveFailsExactly(ix: Index, linkText: string, category: string)
    ensures var clean := Strip(linkText);
      Resolve(ix, linkText, category).None? <==>
        clean !in ix.byTitle && forall n :: n in ix.byId ==> !(n.category == category && Contains(Lower(n.title), Lower(clean)))
    ensures var clean := Strip(linkText); var r := Resolve(ix, linkText, category);
      r.Some? && clean !in ix.byTitle ==> r.value.category == category && Contains(Lower(r.value.title), Lower(clean))
  {
    var clean := Strip(linkText);
    var lower := Lower(clean);
    forall n | n in ix.byId && TitleIs(category, lower)(n) ensures TitleHas(category, lower)(n) {
      assert OccursAt(Lower(n.title), lower, 0);
      ContainsAt(Lower(n.title), lower);
    }
    if clean !in ix.byTitle {
      var e := FindFirst(ix.byId, TitleIs(category, lower));
      if e.Some? {
        var k :| IsFirstWhere(ix.byId, TitleIs(category, lower), k) && ix.byId[k] == e.value;
      }
      var p := FindFirst(ix.byId, TitleHas(category, lower));
      if p.Some? {
        var k :| IsFirstWhere(ix.byId, TitleHas(category, lower), k) && ix.byId[k] == p.value;
      }
    }
  }

  // ---------------------------------------------------------------- tree construction

  /** Marking one more id visited leaves fewer unvisited ids. */
  lemma UnvisitedShrinks(ids: set<string>, visited: set<string>, id: string)
    requires id in ids && id !in visited
    ensures |ids - (visited + {id})| < |ids - visited|
  {
    assert ids - (visited + {id}) == (ids - visited) - {id};
  }

  /** Visiting more never leaves more unvisited ids. */
  lemma FewerUnvisited(ids: set<string>, visited: set<string>, seen: set<string>)
    requires visited <= seen
    ensures |ids - seen| <= |ids - visited|
  {
    SubsetCard(ids - seen, ids - visited);
  }

  lemma {:induction false} SubsetCard(a: set<string>, b: set<string>)
    requires a <= b
    ensures |a| <= |b|
    decreases |b|
  {
    if a != {} {
      var x :| x in a;
      SubsetCard(a - {x}, b - {x});
    }
  }

  /**
   * `_build_tree_recursive` on a node for `note`: with no wiki links the
   * node becomes a leaf; otherwise its children are grown from the links.
   * The result is the finished node and the enlarged visited set.
   */
  function Expand(ix: Index, node: NoteTree, note: Note, visited: set<string>): (r: (NoteTree, set<string>))
    ensures visited <= r.1
    decreases |Ids(ix) - visited|, 1, 0, 0
  {
    var links := ExtractWikiLinks(note.content);
    if links == [] then (node.(isLeaf := true), visited)
    else Children(ix, node, note.category, links, visited)
  }

  /**
   * The loop of `_build_tree_recursive` over the remaining `links`: a link
   * that resolves to an unvisited note is adopted as the next child; other
   * links are skipped.
   */
  function Children(ix: Index, node: NoteTree, category: string, links: seq<string>, visited: set<string>): (r: (NoteTree, set<string>))
    ensures visited <= r.1
    decreases |Ids(ix) - visited|, 0, |links|, 1
  {
    if links == [] then (node, visited)
    else
      var found := Resolve(ix, links[0], category);
      if found.None? || found.value.id in visited then Children(ix, node, category, links[1..], visited)
      else
        var c := found.value;
        UnvisitedShrinks(Ids(ix), visited, c.id);
        Adopt(ix, node, category, links[1..], visited, Expand(ix, ChildNode(c, node.depth + 1), c, visited + {c.id}))
  }

  /**
   * The rest of an iteration that found an unvisited note: `grown` is its
   * subtree together with the visited set after growing it; the subtree is
   * appended to the node's children and the loop goes on with `rest`.
   */
  function Adopt(ix: Index, node: NoteTree, category: string, rest: seq<string>, visited: set<string>,
                 grown: (NoteTree, set<string>)): (r: (NoteTree, set<string>))
    requires visited <= grown.1
    ensures grown.1 <= r.1
    decreases |Ids(ix) - visited|, 0, |rest| + 1, 0
  {
    FewerUnvisited(Ids(ix), visited, grown.1);
    Children(ix, node.(children := node.children + [grown.0]), category, rest, grown.1)
  }

  /** The node created for a child note, one level below its parent. */
  function ChildNode(c: Note, depth: int): NoteTree {
    NoteTree(id := c.id, title := c.title, filePath := c.filePath, isRoot := false, depth := depth, children := [])
  }

  /** The node created for the root note. */
  function RootNode(root: Note): NoteTree {
    NoteTree(id := root.id, title := root.title, filePath := root.filePath, isRoot := true, depth := 0, children := [])
  }

  /** `build_tree`: the tree grown from `root` over the lookup tables of `allNotes`. */
  function TreeOf(root: Note, allNotes: seq<Note>): NoteTree {
    Expand(MakeIndex(allNotes), RootNode(root), root, {root.id}).0
  }

  /** The ids of a tree, in pre-order. */
  function TreeIdList(t: NoteTree): seq<string>
    decreases t, 1
  {
    [t.id] + ForestIdList(t.children)
  }

  function ForestIdList(ts: seq<NoteTree>): seq<string>
    decreases ts, 0
  {
    if ts == [] then [] else TreeIdList(ts[0]) + ForestIdList(ts[1..])
  }

  /** Every child sits one level below its parent and is not a root. */
  predicate Layered(t: NoteTree) {
    forall i :: 0 <= i < |t.children| ==>
      t.children[i].depth == t.depth + 1 && !t.children[i].isRoot && Layered(t.children[i])
  }

  /** A node marked as a leaf has no children. */
  predicate LeavesChildless(t: NoteTree) {
    (t.isLeaf ==> t.children == []) && forall i :: 0 <= i < |t.children| ==> LeavesChildless(t.children[i])
  }

  /** The same node apart from its children and leaf flag. */
  predicate SameHeader(a: NoteTree, b: NoteTree) {
    a.id == b.id && a.title == b.title && a.filePath == b.filePath && a.isRoot == b.isRoot && a.depth == b.depth
  }

  lemma ElemsConcat(a: seq<string>, b: seq<string>)
    ensures Elems(a + b) == Elems(a) + Elems(b)
  {
  }

  /**
   * Growing a fresh node: the header is kept, it is a leaf exactly when its
   * note has no wiki links, the subtree is layered, no id occurs twice, and
   * the visited set gains exactly the ids of the new descendants, none of
   * which was visited before.
   */
  lemma {:induction false} ExpandShape(ix: Index, node: NoteTree, note: Note, visited: set<string>)
    requires node.children == [] && !node.isLeaf && node.id in visited
    ensures var (r, seen) := Expand(ix, node, note, visited);
      && SameHeader(r, node)
      && (r.isLeaf <==> ExtractWikiLinks(note.content) == [])
      && Layered(r) && LeavesChildless(r)
      && NoDup(TreeIdList(r))
      && Elems(ForestIdList(r.children)) !! visited
      && Elems(ForestIdList(r.children)) <= Ids(ix)
      && seen == visited + Elems(ForestIdList(r.children))
    decreases |Ids(ix) - visited|, 1, 0, 0
  {
    var links := ExtractWikiLinks(note.content);
    if links != [] {
      ChildrenShape(ix, node, note.category, links, visited);
      var (r, seen) := Children(ix, node, note.category, links, visited);
      assert r.children[0..] == r.children;
      NoDupConcat([r.id], ForestIdList(r.children));
    }
  }

  /**
   * `r` is `node` after the link loop: the header and leaf flag are kept,
   * children are only appended, the tree stays layered, and the appended
   * subtrees carry distinct, previously unvisited ids that the visited set
   * gains.
   */
  predicate GrewFrom(ix: Index, node: NoteTree, visited: set<string>, r: (NoteTree, set<string>)) {
    var (t, seen) := r;
    && SameHeader(t, node) && t.isLeaf == node.isLeaf
    && |node.children| <= |t.children| && t.children[..|node.children|] == node.children
    && Layered(t) && LeavesChildless(t)
    && var added := ForestIdList(t.children[|node.children|..]);
      && NoDup(added) && Elems(added) !! visited && Elems(added) <= Ids(ix)
      && seen == visited + Elems(added)
  }

  lemma {:induction false} ChildrenShape(ix: Index, node: NoteTree, category: string, links: seq<string>, visited: set<string>)
    requires Layered(node) && LeavesChildless(node) && !node.isLeaf
    ensures GrewFrom(ix, node, visited, Children(ix, node, category, links, visited))
    decreases |Ids(ix) - visited|, 0, |links|, 1
  {
    if links == [] {
      assert node.children[|node.children|..] == [];
    } else {
      var found := Resolve(ix, links[0], category);
      if found.None? || found.value.id in visited {
        ChildrenShape(ix, node, category, links[1..], visited);
      } else {
        var c := found.value;
        var grown := Expand(ix, ChildNode(c, node.depth + 1), c, visited + {c.id});
        AdoptShape(ix, node, category, links[1..], visited, c);
        ChildrenUnfold(ix, node, category, links, visited, c);
      }
    }
  }

  /** The iteration that finds the unvisited note `c` goes on in `Adopt`. */
  lemma {:induction false} ChildrenUnfold(ix: Index, node: NoteTree, category: string, links: seq<string>, visited: set<string>, c: Note)
    requires links != [] && Resolve(ix, links[0], category) == Some(c) && c.id !in visited
    ensures c.id in Ids(ix)
    ensures Children(ix, node, category, links, visited)
         == Adopt(ix, node, category, links[1..], visited, Expand(ix, ChildNode(c, node.depth + 1), c, visited + {c.id}))
  {
  }

  lemma {:induction false} AdoptShape(ix: Index, node: NoteTree, category: string, rest: seq<string>, visited: set<string>, c: Note)
    requires c.id in Ids(ix) && c.id !in visited
    requires Layered(node) && LeavesChildless(node) && !node.isLeaf
    ensures GrewFrom(ix, node, visited, Adopt(ix, node, category, rest, visited, Expand(ix, ChildNode(c, node.depth + 1), c, visited + {c.id})))
    decreases |Ids(ix) - visited|, 0, |rest| + 1, 0
  {
    UnvisitedShrinks(Ids(ix), visited, c.id);
    var child := ChildNode(c, node.depth + 1);
    ExpandShape(ix, child, c, visited + {c.id});
    var grown := Expand(ix, child, c, visited + {c.id});
    FewerUnvisited(Ids(ix), visited, grown.1);
    var next := node.(children := node.children + [grown.0]);
    AppendChild(node, grown.0);
    ChildrenShape(ix, next, category, rest, grown.1);
    assert Adopt(ix, node, category, rest, visited, grown) == Children(ix, next, category, rest, grown.1);
    AdoptCombine(ix, node, visited, c.id, grown.0, grown.1, Children(ix, next, category, rest, grown.1));
  }

  /** The appended child and the children added after it together make the node grow. */
  lemma AdoptCombine(ix: Index, node: NoteTree, visited: set<string>, cid: string,
                     grown: NoteTree, seen1: set<string>, r: (NoteTree, set<string>))
    requires cid in Ids(ix) && cid !in visited
    requires Layered(node) && LeavesChildless(node) && !node.isLeaf
    requires grown.id == cid
    requires Layered(grown) && LeavesChildless(grown) && grown.depth == node.depth + 1 && !grown.isRoot
    requires NoDup(TreeIdList(grown))
    requires Elems(ForestIdList(grown.children)) !! (visited + {cid})
    requires Elems(ForestIdList(grown.children)) <= Ids(ix)
    requires seen1 == visited + {cid} + Elems(ForestIdList(grown.children))
    requires GrewFrom(ix, node.(children := node.children + [grown]), seen1, r)
    ensures GrewFrom(ix, node, visited, r)
  {
    AppendChild(node, grown);
    ChildrenStep(node.children, grown, r.0.children, Ids(ix), visited, seen1, r.1);
  }

  lemma AppendChild(node: NoteTree, grown: NoteTree)
    requires Layered(node) && LeavesChildless(node) && !node.isLeaf
    requires Layered(grown) && LeavesChildless(grown) && grown.depth == node.depth + 1 && !grown.isRoot
    ensures var next := node.(children := node.children + [grown]);
      Layered(next) && LeavesChildless(next) && !next.isLeaf && SameHeader(next, node)
  {
    var next := node.(children := node.children + [grown]);
    assert forall i :: 0 <= i < |node.children| ==> next.children[i] == node.children[i];
    assert next.children[|node.children|] == grown;
  }

  /** Combines the appended child with the ids added by the rest of the loop. */
  lemma ChildrenStep(before: seq<NoteTree>, grown: NoteTree, after: seq<NoteTree>, ids: set<string>,
                     visited: set<string>, seen1: set<string>, seen: set<string>)
    requires grown.id !in visited && grown.id in ids
    requires NoDup(TreeIdList(grown))
    requires Elems(ForestIdList(grown.children)) !! (visited + {grown.id})
    requires Elems(ForestIdList(grown.children)) <= ids
    requires seen1 == visited + {grown.id} + Elems(ForestIdList(grown.children))
    requires |before| + 1 <= |after| && after[..|before| + 1] == before + [grown]
    requires var added := ForestIdList(after[|before| + 1..]);
      NoDup(added) && Elems(added) !! seen1 && Elems(added) <= ids && seen == seen1 + Elems(added)
    ensures |before| <= |after| && after[..|before|] == before
    ensures var added := ForestIdList(after[|before|..]);
      NoDup(added) && Elems(added) !! visited && Elems(added) <= ids && seen == visited + Elems(added)
  {
    var n := |before|;
    var tail := after[n + 1..];
    assert after[..n] == after[..n + 1][..n];
    assert after[n..] == [grown] + tail;
    assert ([grown] + tail)[1..] == tail;
    var rest := ForestIdList(tail);
    assert ForestIdList(after[n..]) == TreeIdList(grown) + rest;
    ElemsConcat(TreeIdList(grown), rest);
    ElemsConcat([grown.id], ForestIdList(grown.children));
    assert forall x :: x in TreeIdList(grown) ==> x in Elems(TreeIdList(grown));
    assert forall x :: x in rest ==> x in Elems(rest);
    NoDupConcat(TreeIdList(grown), rest);
  }

  /**
   * `build_tree`: the root is the only node marked as a root, at depth 0;
   * every child is one level below its parent; no id occurs twice; and the
   * root is a leaf exactly when its note has no wiki links.
   */
  lemma BuildTreeShape(root: Note, allNotes: seq<Note>)
    ensures var t := TreeOf(root, allNotes);
      && t.id == root.id && t.title == root.title && t.filePath == root.filePath
      && t.isRoot && t.depth == 0
      && Layered(t) && LeavesChildless(t)
      && NoDup(TreeIdList(t))
      && (t.isLeaf <==> ExtractWikiLinks(root.content) == [])
  {
    ExpandShape(MakeIndex(allNotes), RootNode(root), root, {root.id});
  }

  // ---------------------------------------------------------------- what the builder promises

  /** A link either fails to resolve or leads to a note whose id is in `all`. */
  predicate Reaches(ix: Index, link: string, category: string, all: set<string>) {
    var found := Resolve(ix, link, category);
    found.None? || found.value.id in all
  }

  /**
   * `t` is a node finished for `note` by a build in which the ids in
   * `visited` were taken when the node was entered, and which visits only
   * ids in `all`: the node is a leaf exactly when its note has no wiki
   * link; every link of the note fails to resolve or leads into `all`; and
   * its children are picked from the links as `PickedFrom` says.
   */
  predicate BuiltFrom(ix: Index, t: NoteTree, note: Note, visited: set<string>, all: set<string>)
    decreases t, 1
  {
    var links := ExtractWikiLinks(note.content);
    && (t.isLeaf <==> links == [])
    && (forall k :: 0 <= k < |links| ==> Reaches(ix, links[k], note.category, all))
    && PickedFrom(ix, note.category, links, visited, t.children, t.depth + 1, all)
  }

  /**
   * `kids` are the children the links give, in link order: a link that does
   * not resolve, or resolves to a note already visited, is skipped; a link
   * that resolves to an unvisited note `c` gives the next child, which has
   * `c`'s header at `depth` and is itself built from `c`, and all of whose
   * ids count as visited for the links after it.
   */
  predicate PickedFrom(ix: Index, category: string, links: seq<string>, visited: set<string>,
                       kids: seq<NoteTree>, depth: int, all: set<string>)
    decreases kids, |links|
  {
    if links == [] then kids == []
    else
      var found := Resolve(ix, links[0], category);
      if found.None? || found.value.id in visited then PickedFrom(ix, category, links[1..], visited, kids, depth, all)
      else
        var c := found.value;
        && kids != []
        && SameHeader(kids[0], ChildNode(c, depth))
        && BuiltFrom(ix, kids[0], c, visited + {c.id}, all)
        && PickedFrom(ix, category, links[1..], visited + Elems(TreeIdList(kids[0])), kids[1..], depth, all)
  }

  /**
   * `build_tree` follows the links: at every node the leaf flag says whether
   * the node's note has wiki links, every link either fails to resolve or
   * leads to a note in the tree, and the children are the notes the links
   * resolve to, in link order, each at its first link that finds it
   * unvisited.
   */
  lemma BuildTreeFollowsLinks(root: Note, allNotes: seq<Note>)
    ensures var t := TreeOf(root, allNotes);
      BuiltFrom(MakeIndex(allNotes), t, root, {root.id}, Elems(TreeIdList(t)))
  {
    var ix := MakeIndex(allNotes);
    var t := TreeOf(root, allNotes);
    ExpandShape(ix, RootNode(root), root, {root.id});
    ElemsConcat([t.id], ForestIdList(t.children));
    ExpandFollows(ix, RootNode(root), root, {root.id}, Elems(TreeIdList(t)));
  }

  lemma {:induction false} ExpandFollows(ix: Index, node: NoteTree, note: Note, visited: set<string>, all: set<string>)
    requires node.children == [] && !node.isLeaf && node.id in visited
    requires Expand(ix, node, note, visited).1 <= all
    ensures BuiltFrom(ix, Expand(ix, node, note, visited).0, note, visited, all)
    decreases |Ids(ix) - visited|, 1, 0, 0
  {
    var links := ExtractWikiLinks(note.content);
    if links == [] {
      LeafFollows(ix, node, note, visited, all);
    } else {
      ExpandIsChildren(ix, node, note, visited);
      LinkedNodeFollows(ix, node, note, visited, all);
    }
  }

  /** A fresh node whose note has wiki links is finished by the link loop as `BuiltFrom` says. */
  lemma {:induction false} LinkedNodeFollows(ix: Index, node: NoteTree, note: Note, visited: set<string>, all: set<string>)
    requires node.children == [] && !node.isLeaf
    requires ExtractWikiLinks(note.content) != []
    requires Children(ix, node, note.category, ExtractWikiLinks(note.content), visited).1 <= all
    ensures BuiltFrom(ix, Children(ix, node, note.category, ExtractWikiLinks(note.content), visited).0, note, visited, all)
    decreases |Ids(ix) - visited|, 0, |ExtractWikiLinks(note.content)|, 3
  {
    var links := ExtractWikiLinks(note.content);
    var r := Children(ix, node, note.category, links, visited).0;
    assert Layered(node) && LeavesChildless(node);
    assert SameHeader(r, node) && r.isLeaf == node.isLeaf by {
      ChildrenShape(ix, node, note.category, links, visited);
    }
    ChildrenFollows(ix, node, note.category, links, visited, all, 0, r.depth + 1);
    InnerNodeFollows(ix, node, note, visited, all, r);
  }

  /** A note without wiki links gives a leaf. */
  lemma LeafFollows(ix: Index, node: NoteTree, note: Note, visited: set<string>, all: set<string>)
    requires node.children == [] && ExtractWikiLinks(note.content) == []
    ensures BuiltFrom(ix, Expand(ix, node, note, visited).0, note, visited, all)
  {
    assert Expand(ix, node, note, visited).0 == node.(isLeaf := true);
    NodeBuilt(ix, node.(isLeaf := true), note, visited, all);
  }

  /** A note with wiki links is grown by the link loop. */
  lemma ExpandIsChildren(ix: Index, node: NoteTree, note: Note, visited: set<string>)
    requires ExtractWikiLinks(note.content) != []
    ensures Expand(ix, node, note, visited) == Children(ix, node, note.category, ExtractWikiLinks(note.content), visited)
  {
  }

  /** The node the link loop finished from a fresh node satisfies `BuiltFrom`. */
  lemma InnerNodeFollows(ix: Index, node: NoteTree, note: Note, visited: set<string>, all: set<string>, r: NoteTree)
    requires node.children == [] && ExtractWikiLinks(note.content) != []
    requires r.isLeaf == node.isLeaf && !node.isLeaf
    requires var links := ExtractWikiLinks(note.content);
      && PickedFrom(ix, note.category, links, visited, r.children[0..], r.depth + 1, all)
      && forall k :: 0 <= k < |links| ==> Reaches(ix, links[k], note.category, all)
    ensures BuiltFrom(ix, r, note, visited, all)
  {
    assert r.children[0..] == r.children;
    NodeBuilt(ix, r, note, visited, all);
  }

  /** The three conditions of `BuiltFrom`, gathered. */
  lemma NodeBuilt(ix: Index, t: NoteTree, note: Note, visited: set<string>, all: set<string>)
    requires var links := ExtractWikiLinks(note.content);
      && (t.isLeaf <==> links == [])
      && (forall k :: 0 <= k < |links| ==> Reaches(ix, links[k], note.category, all))
      && PickedFrom(ix, note.category, links, visited, t.children, t.depth + 1, all)
    ensures BuiltFrom(ix, t, note, visited, all)
  {
  }

  /**
   * The children the link loop appends to `node`, which already has `n`
   * children, are picked from `links` as `PickedFrom` says.
   */
  lemma {:induction false} ChildrenFollows(ix: Index, node: NoteTree, category: string, links: seq<string>,
                                           visited: set<string>, all: set<string>, n: nat, depth: int)
    requires n == |node.children| && depth == node.depth + 1
    requires Layered(node) && LeavesChildless(node) && !node.isLeaf
    requires Children(ix, node, category, links, visited).1 <= all
    ensures var r := Children(ix, node, category, links, visited).0;
      && n <= |r.children|
      && PickedFrom(ix, category, links, visited, r.children[n..], depth, all)
      && forall k :: 0 <= k < |links| ==> Reaches(ix, links[k], category, all)
    decreases |Ids(ix) - visited|, 0, |links|, 2
  {
    if links == [] {
      assert Children(ix, node, category, links, visited).0.children[n..] == [];
    } else {
      var found := Resolve(ix, links[0], category);
      if found.None? || found.value.id in visited {
        SkipFollows(ix, node, category, links, visited, all, n, depth);
      } else {
        AdoptedFollows(ix, node, category, links, visited, all, n, depth, found.value);
      }
    }
  }

  /** `ChildrenFollows` when the first link adds no child. */
  lemma {:induction false} SkipFollows(ix: Index, node: NoteTree, category: string, links: seq<string>,
                                       visited: set<string>, all: set<string>, n: nat, depth: int)
    requires n == |node.children| && depth == node.depth + 1
    requires Layered(node) && LeavesChildless(node) && !node.isLeaf
    requires links != [] && Reaches(ix, links[0], category, visited)
    requires Children(ix, node, category, links, visited).1 <= all
    ensures var r := Children(ix, node, category, links, visited).0;
      && n <= |r.children|
      && PickedFrom(ix, category, links, visited, r.children[n..], depth, all)
      && forall k :: 0 <= k < |links| ==> Reaches(ix, links[k], category, all)
    decreases |Ids(ix) - visited|, 0, |links|, 1
  {
    var r := Children(ix, node, category, links, visited);
    assert r == Children(ix, node, category, links[1..], visited);
    ChildrenShape(ix, node, category, links[1..], visited);
    ChildrenFollows(ix, node, category, links[1..], visited, all, n, depth);
    PickSkipped(ix, category, links, visited, r.0.children[n..], depth, all);
  }

  /** `ChildrenFollows` when the first link resolves to the unvisited note `c`. */
  lemma {:induction false} AdoptedFollows(ix: Index, node: NoteTree, category: string, links: seq<string>,
                                          visited: set<string>, all: set<string>, n: nat, depth: int, c: Note)
    requires n == |node.children| && depth == node.depth + 1
    requires Layered(node) && LeavesChildless(node) && !node.isLeaf
    requires links != [] && Resolve(ix, links[0], category) == Some(c) && c.id !in visited
    requires Children(ix, node, category, links, visited).1 <= all
    ensures var r := Children(ix, node, category, links, visited).0;
      && n <= |r.children|
      && PickedFrom(ix, category, links, visited, r.children[n..], depth, all)
      && forall k :: 0 <= k < |links| ==> Reaches(ix, links[k], category, all)
    decreases |Ids(ix) - visited|, 0, |links|, 1
  {
    ChildrenUnfold(ix, node, category, links, visited, c);
    var grown := Expand(ix, ChildNode(c, node.depth + 1), c, visited + {c.id});
    var r := Children(ix, node, category, links, visited);
    assert r == Adopt(ix, node, category, links[1..], visited, grown);
    AdoptFollows(ix, node, category, links[1..], visited, c, all, n, depth);
    var after := r.0.children[n + 1..];
    SplitAt(r.0.children, n);
    PickAdopted(ix, category, links, visited, c, grown.0, grown.1, after, depth, all);
  }

  /** A sequence from index `n` on is its element at `n` followed by the rest. */
  lemma SplitAt<T>(xs: seq<T>, n: nat)
    requires n < |xs|
    ensures xs[n..] == [xs[n]] + xs[n + 1..]
  {
  }

  /** A link that does not resolve, or resolves to a visited note, adds no child. */
  lemma PickSkipped(ix: Index, category: string, links: seq<string>, visited: set<string>,
                    kids: seq<NoteTree>, depth: int, all: set<string>)
    requires links != []
    requires Reaches(ix, links[0], category, visited)
    requires visited <= all
    requires PickedFrom(ix, category, links[1..], visited, kids, depth, all)
    requires forall k :: 0 <= k < |links| - 1 ==> Reaches(ix, links[1..][k], category, all)
    ensures PickedFrom(ix, category, links, visited, kids, depth, all)
    ensures forall k :: 0 <= k < |links| ==> Reaches(ix, links[k], category, all)
  {
    assert forall k :: 1 <= k < |links| ==> links[k] == links[1..][k - 1];
  }

  /** A link that resolves to the unvisited note `c` adds the child `g` grown from `c`. */
  lemma PickAdopted(ix: Index, category: string, links: seq<string>, visited: set<string>, c: Note,
                    g: NoteTree, gseen: set<string>, after: seq<NoteTree>, depth: int, all: set<string>)
    requires links != [] && Resolve(ix, links[0], category) == Some(c) && c.id !in visited
    requires c.id in all
    requires gseen == visited + Elems(TreeIdList(g))
    requires SameHeader(g, ChildNode(c, depth)) && BuiltFrom(ix, g, c, visited + {c.id}, all)
    requires PickedFrom(ix, category, links[1..], gseen, after, depth, all)
    requires forall k :: 0 <= k < |links| - 1 ==> Reaches(ix, links[1..][k], category, all)
    ensures PickedFrom(ix, category, links, visited, [g] + after, depth, all)
    ensures forall k :: 0 <= k < |links| ==> Reaches(ix, links[k], category, all)
  {
    assert ([g] + after)[1..] == after;
    assert forall k :: 1 <= k < |links| ==> links[k] == links[1..][k - 1];
  }

  /** After the child grown from `c` is appended, the loop goes on over the node with that child. */
  lemma AdoptGoesOn(ix: Index, node: NoteTree, category: string, rest: seq<string>, visited: set<string>,
                    grown: (NoteTree, set<string>))
    requires visited <= grown.1
    ensures Adopt(ix, node, category, rest, visited, grown)
         == Children(ix, node.(children := node.children + [grown.0]), category, rest, grown.1)
  {
  }

  /** The subtree grown for `c`: its header, its shape, and the visited set it leaves. */
  lemma GrownChild(ix: Index, c: Note, depth: int, visited: set<string>)
    requires c.id !in visited
    ensures var grown := Expand(ix, ChildNode(c, depth), c, visited + {c.id});
      && SameHeader(grown.0, ChildNode(c, depth))
      && Layered(grown.0) && LeavesChildless(grown.0) && NoDup(TreeIdList(grown.0))
      && Elems(ForestIdList(grown.0.children)) !! (visited + {c.id})
      && Elems(ForestIdList(grown.0.children)) <= Ids(ix)
      && grown.1 == visited + {c.id} + Elems(ForestIdList(grown.0.children))
      && grown.1 == visited + Elems(TreeIdList(grown.0))
  {
    ExpandShape(ix, ChildNode(c, depth), c, visited + {c.id});
    var grown := Expand(ix, ChildNode(c, depth), c, visited + {c.id});
    ElemsConcat([grown.0.id], ForestIdList(grown.0.children));
  }

  /**
   * The iteration that adopts `c` into `node`, which has `n` children:
   * the child grown from `c` becomes child `n`, and the later children
   * are picked from the remaining links.
   */
  lemma {:induction false} AdoptFollows(ix: Index, node: NoteTree, category: string, rest: seq<string>,
                                        visited: set<string>, c: Note, all: set<string>, n: nat, depth: int)
    requires n == |node.children| && depth == node.depth + 1
    requires c.id in Ids(ix) && c.id !in visited
    requires Layered(node) && LeavesChildless(node) && !node.isLeaf
    requires Adopt(ix, node, category, rest, visited, Expand(ix, ChildNode(c, node.depth + 1), c, visited + {c.id})).1 <= all
    ensures var grown := Expand(ix, ChildNode(c, node.depth + 1), c, visited + {c.id});
      var r := Adopt(ix, node, category, rest, visited, grown);
      && n < |r.0.children| && r.0.children[n] == grown.0
      && grown.1 == visited + Elems(TreeIdList(grown.0))
      && SameHeader(grown.0, ChildNode(c, depth))
      && BuiltFrom(ix, grown.0, c, visited + {c.id}, all)
      && PickedFrom(ix, category, rest, grown.1, r.0.children[n + 1..], depth, all)
      && (forall k :: 0 <= k < |rest| ==> Reaches(ix, rest[k], category, all))
      && c.id in all
    decreases |Ids(ix) - visited|, 0, |rest| + 1, 0
  {
    UnvisitedShrinks(Ids(ix), visited, c.id);
    var child := ChildNode(c, node.depth + 1);
    var grown := Expand(ix, child, c, visited + {c.id});
    GrownChild(ix, c, node.depth + 1, visited);
    FewerUnvisited(Ids(ix), visited, grown.1);
    var next := node.(children := node.children + [grown.0]);
    AppendChild(node, grown.0);
    AdoptGoesOn(ix, node, category, rest, visited, grown);
    assert |next.children| == n + 1 && next.depth + 1 == depth;
    ChildrenShape(ix, next, category, rest, grown.1);
    ChildrenFollows(ix, next, category, rest, grown.1, all, n + 1, depth);
    ExpandFollows(ix, child, c, visited + {c.id}, all);
    var r := Children(ix, next, category, rest, grown.1);
    assert r.0.children[..n + 1] == next.children;
    assert r.0.children[n] == next.children[n] == grown.0;
    assert c.id in grown.1 && grown.1 <= r.1;
  }

  // ---------------------------------------------------------------- categories

  function OfCategory(category: string): Note -> bool {
    (n: Note) => n.category == category
  }

  /** The notes `build_category_tree` groups under `category`, in order. */
  function NotesOfCategory(notes: seq<Note>, category: string): seq<Note> {
    Filter(notes, OfCategory(category))
  }

  /** One tree per root note, each grown over all of `allNotes`. */
  function TreesOf(roots: seq<Note>, allNotes: seq<Note>): (trees: seq<NoteTree>)
    ensures |trees| == |roots|
  {
    seq(|roots|, j requires 0 <= j < |roots| => TreeOf(roots[j], allNotes))
  }

  lemma TreesOfSnoc(roots: seq<Note>, notes: seq<Note>, j: nat)
    requires j < |roots|
    ensures TreesOf(roots[..j + 1], notes) == TreesOf(roots[..j], notes) + [TreeOf(roots[j], notes)]
  {
    var a, b := TreesOf(roots[..j + 1], notes), TreesOf(roots[..j], notes) + [TreeOf(roots[j], notes)];
    forall i | 0 <= i < |a| ensures a[i] == b[i] {
      assert roots[..j + 1][i] == (if i < j then roots[..j][i] else roots[j]);
    }
  }

  /**
   * `build_category_tree`: for each category in order of first appearance,
   * the trees of that category's root notes.
   */
  function CategoryTrees(notes: seq<Note>): (r: seq<(string, seq<NoteTree>)>)
    ensures |r| == |Distinct(ObsidianParser.CategoriesOf(notes))|
  {
    var cats := Distinct(ObsidianParser.CategoriesOf(notes));
    seq(|cats|, i requires 0 <= i < |cats| => CategoryEntry(notes, cats[i]))
  }

  /** The entry of one category: its name and the trees of its root notes. */
  function CategoryEntry(notes: seq<Note>, category: string): (string, seq<NoteTree>) {
    (category, TreesOf(FindRootNotes(NotesOfCategory(notes, category)), notes))
  }

  function KeysOf(r: seq<(string, seq<NoteTree>)>): seq<string> {
    seq(|r|, i requires 0 <= i < |r| => r[i].0)
  }

  /**
   * One entry per category of the input, none repeated, in the order in
   * which the categories first appear among the notes; each entry holds the
   * trees of the root notes of its category, in order, each rooted at its
   * note.
   */
  lemma {:induction false} CategoryTreesShape(notes: seq<Note>)
    ensures var r := CategoryTrees(notes); var all := ObsidianParser.CategoriesOf(notes);
      && KeysOf(r) == Distinct(all)
      && NoDup(KeysOf(r))
      && (forall c :: c in KeysOf(r) <==> exists k :: 0 <= k < |notes| && notes[k].category == c)
      && (forall a, b :: 0 <= a < b < |r| ==> FirstIndex(all, r[a].0) < FirstIndex(all, r[b].0))
      && forall i :: 0 <= i < |r| ==>
        var roots := FindRootNotes(NotesOfCategory(notes, r[i].0));
        && r[i].1 == TreesOf(roots, notes)
        && |r[i].1| == |roots|
        && forall j :: 0 <= j < |roots| ==> r[i].1[j].id == roots[j].id && r[i].1[j].isRoot && r[i].1[j].depth == 0
  {
    CategoryKeysInOrder(notes);
    CategoryEntriesHoldTrees(notes);
  }

  /** The keys are the categories in order of first appearance. */
  lemma CategoryKeysInOrder(notes: seq<Note>)
    ensures var r := CategoryTrees(notes); var all := ObsidianParser.CategoriesOf(notes);
      && KeysOf(r) == Distinct(all)
      && (forall c :: c in KeysOf(r) <==> exists k :: 0 <= k < |notes| && notes[k].category == c)
      && (forall a, b :: 0 <= a < b < |r| ==> FirstIndex(all, r[a].0) < FirstIndex(all, r[b].0))
  {
    var r := CategoryTrees(notes);
    var all := ObsidianParser.CategoriesOf(notes);
    assert KeysOf(r) == Distinct(all);
    CategoriesPresent(notes);
    DistinctInFirstAppearanceOrder(all);
    forall a, b | 0 <= a < b < |r| ensures FirstIndex(all, r[a].0) < FirstIndex(all, r[b].0) {
      assert r[a].0 == KeysOf(r)[a] && r[b].0 == KeysOf(r)[b];
    }
  }

  /** The categories listed are those some note carries. */
  lemma CategoriesPresent(notes: seq<Note>)
    ensures forall c :: c in ObsidianParser.CategoriesOf(notes) <==> exists k :: 0 <= k < |notes| && notes[k].category == c
  {
    var all := ObsidianParser.CategoriesOf(notes);
    forall c ensures c in all <==> exists k :: 0 <= k < |notes| && notes[k].category == c {
      if c in all {
        var k :| 0 <= k < |all| && all[k] == c;
      }
    }
  }

  /** `Distinct(all)` lists its elements in the order of their first appearance in `all`. */
  lemma DistinctInFirstAppearanceOrder(all: seq<string>)
    ensures var keys := Distinct(all);
      forall a, b :: 0 <= a < b < |keys| ==> FirstIndex(all, keys[a]) < FirstIndex(all, keys[b])
  {
    var keys := Distinct(all);
    forall a, b | 0 <= a < b < |keys| ensures FirstIndex(all, keys[a]) < FirstIndex(all, keys[b]) {
      DistinctKeepsFirstOccurrenceOrder(all, a, b);
    }
  }

  /** Each entry holds the trees of the root notes of its category. */
  lemma CategoryEntriesHoldTrees(notes: seq<Note>)
    ensures var r := CategoryTrees(notes);
      forall i :: 0 <= i < |r| ==>
        var roots := FindRootNotes(NotesOfCategory(notes, r[i].0));
        && r[i].1 == TreesOf(roots, notes)
        && |r[i].1| == |roots|
        && forall j :: 0 <= j < |roots| ==> r[i].1[j].id == roots[j].id && r[i].1[j].isRoot && r[i].1[j].depth == 0
  {
    var r := CategoryTrees(notes);
    forall i | 0 <= i < |r| ensures
      var roots := FindRootNotes(NotesOfCategory(notes, r[i].0));
      && r[i].1 == TreesOf(roots, notes)
      && |r[i].1| == |roots|
      && forall j :: 0 <= j < |roots| ==> r[i].1[j].id == roots[j].id && r[i].1[j].isRoot && r[i].1[j].depth == 0
    {
      CategoryEntryShape(notes, r[i].0);
    }
  }

  /** The entry of a category holds one tree per root note, in order, rooted at that note. */
  lemma CategoryEntryShape(notes: seq<Note>, category: string)
    ensures var e := CategoryEntry(notes, category); var roots := FindRootNotes(NotesOfCategory(notes, category));
      && |e.1| == |roots|
      && forall j :: 0 <= j < |roots| ==> e.1[j].id == roots[j].id && e.1[j].isRoot && e.1[j].depth == 0
  {
    var roots := FindRootNotes(NotesOfCategory(notes, category));
    forall j | 0 <= j < |roots| ensures TreeOf(roots[j], notes).id == roots[j].id && TreeOf(roots[j], notes).isRoot && TreeOf(roots[j], notes).depth == 0 {
      BuildTreeShape(roots[j], notes);
    }
  }

  // ---------------------------------------------------------------- the service

  /** The tree builder and the lookup tables its last `build_tree` filled. */
  class TreeParser {
    var notesById: seq<Note>
    var notesByTitle: map<string, Note>
    var notesByFilepath: map<string, Note>

    constructor()
      ensures notesById == [] && notesByTitle == map[] && notesByFilepath == map[]
    {
      notesById := [];
      notesByTitle := map[];
      notesByFilepath := map[];
    }

    function Tables(): Index
      reads this
    {
      Index(notesById, notesByTitle, notesByFilepath)
    }

    /** `find_note_by_link_text` over the current tables. */
    method FindNoteByLinkText(linkText: string, baseCategory: string) returns (r: Option<Note>)
      ensures r == Resolve(Tables(), linkText, baseCategory)
    {
      var clean := Strip(linkText);
      var lower := Lower(clean);
      if clean in notesByTitle {
        return Some(notesByTitle[clean]);
      }
      for k := 0 to |notesById|
        invariant FindFirst(notesById[k..], TitleIs(baseCategory, lower)) == FindFirst(notesById, TitleIs(baseCategory, lower))
      {
        FindFirstStep(notesById, TitleIs(baseCategory, lower), k);
        var note := notesById[k];
        if note.category == baseCategory && Lower(note.title) == lower {
          return Some(note);
        }
      }
      assert notesById[|notesById|..] == [];
      for k := 0 to |notesById|
        invariant FindFirst(notesById[k..], TitleHas(baseCategory, lower)) == FindFirst(notesById, TitleHas(baseCategory, lower))
      {
        FindFirstStep(notesById, TitleHas(baseCategory, lower), k);
        var note := notesById[k];
        if note.category == baseCategory && Contains(Lower(note.title), lower) {
          return Some(note);
        }
      }
      return None;
    }

    /**
     * `build_tree`: fills the tables from `allNotes` and grows the tree of
     * `rootNote`, whose id starts out visited.
     */
    method BuildTree(rootNote: Note, allNotes: seq<Note>) returns (tree: NoteTree)
      modifies this
      ensures Tables() == MakeIndex(allNotes)
      ensures tree == TreeOf(rootNote, allNotes)
    {
      notesById := ById(allNotes);
      notesByTitle := TitleMap(allNotes);
      notesByFilepath := PathMap(allNotes);
      var visited := {rootNote.id};
      var root := RootNode(rootNote);
      tree, visited := BuildTreeRecursive(root, rootNote, visited);
    }

    /**
     * `_build_tree_recursive`: returns the finished node and the visited set
     * as they stand when the call returns.
     */
    method BuildTreeRecursive(parentNode: NoteTree, parentNote: Note, visited: set<string>)
      returns (node: NoteTree, seen: set<string>)
      ensures (node, seen) == Expand(Tables(), parentNode, parentNote, visited)
      decreases |Ids(Tables()) - visited|, 1
    {
      var links := ExtractWikiLinks(parentNote.content);
      if links == [] {
        return parentNode.(isLeaf := true), visited;
      }
      node, seen := parentNode, visited;
      for k := 0 to |links|
        invariant visited <= seen
        invariant Children(Tables(), node, parentNote.category, links[k..], seen)
               == Children(Tables(), parentNode, parentNote.category, links, visited)
      {
        assert links[k..][0] == links[k] && links[k..][1..] == links[k + 1..];
        var child := FindNoteByLinkText(links[k], parentNote.category);
        if child.Some? && child.value.id !in seen {
          var c := child.value;
          UnvisitedShrinks(Ids(Tables()), seen, c.id);
          FewerUnvisited(Ids(Tables()), visited, seen);
          var grown, after := BuildTreeRecursive(ChildNode(c, node.depth + 1), c, seen + {c.id});
          assert Adopt(Tables(), node, parentNote.category, links[k + 1..], seen, (grown, after))
              == Children(Tables(), node.(children := node.children + [grown]), parentNote.category, links[k + 1..], after);
          node, seen := node.(children := node.children + [grown]), after;
        }
      }
      assert links[|links|..] == [];
    }

    /** The inner loop of `build_category_tree`: one tree per root note, in order. */
    method BuildTrees(roots: seq<Note>, notes: seq<Note>) returns (trees: seq<NoteTree>)
      modifies this
      ensures trees == TreesOf(roots, notes)
      ensures roots != [] ==> Tables() == MakeIndex(notes)
      ensures roots == [] ==> Tables() == old(Tables())
    {
      trees := [];
      for j := 0 to |roots|
        invariant trees == TreesOf(roots[..j], notes)
        invariant j > 0 ==> Tables() == MakeIndex(notes)
        invariant j == 0 ==> Tables() == old(Tables())
      {
        var tree := BuildTree(roots[j], notes);
        TreesOfSnoc(roots, notes, j);
        trees := trees + [tree];
      }
      assert roots[..|roots|] == roots;
    }

    /**
     * `build_category_tree`: groups the notes by category, then builds a tree
     * for every root note of every group over all the notes.
     */
    method BuildCategoryTree(notes: seq<Note>) returns (result: seq<(string, seq<NoteTree>)>)
      modifies this
      ensures result == CategoryTrees(notes)
      ensures (exists i :: 0 <= i < |result| && result[i].1 != []) ==> Tables() == MakeIndex(notes)
      ensures (forall i :: 0 <= i < |result| ==> result[i].1 == []) ==> Tables() == old(Tables())
    {
      var categories, byCategory := GroupByCategory(notes);
      result := [];
      ghost var built := false;
      for i := 0 to |categories|
        invariant |result| == i
        invariant forall j :: 0 <= j < i ==> result[j] == CategoryTrees(notes)[j]
        invariant built == HasTrees(result)
        invariant built ==> Tables() == MakeIndex(notes)
        invariant !built ==> Tables() == old(Tables())
      {
        var category := categories[i];
        var trees := BuildTrees(FindRootNotes(byCategory[category]), notes);
        CategoryLoopStep(notes, result, (category, trees), i);
        result := result + [(category, trees)];
        built := built || trees != [];
      }
      assert result == CategoryTrees(notes);
      HasTreesIff(result);
    }
  }

  lemma CategoryLoopStep(notes: seq<Note>, prev: seq<(string, seq<NoteTree>)>, entry: (string, seq<NoteTree>), i: nat)
    requires i < |Distinct(ObsidianParser.CategoriesOf(notes))| && |prev| == i
    requires forall j :: 0 <= j < i ==> prev[j] == CategoryTrees(notes)[j]
    requires entry == CategoryEntry(notes, Distinct(ObsidianParser.CategoriesOf(notes))[i])
    ensures forall j :: 0 <= j < i + 1 ==> (prev + [entry])[j] == CategoryTrees(notes)[j]
    ensures HasTrees(prev + [entry]) == (HasTrees(prev) || entry.1 != [])
  {
    assert (prev + [entry])[..i] == prev;
  }

  /** Whether some category of `r` got at least one tree. */
  function HasTrees(r: seq<(string, seq<NoteTree>)>): bool {
    r != [] && (HasTrees(r[..|r| - 1]) || r[|r| - 1].1 != [])
  }

  lemma {:induction false} HasTreesIff(r: seq<(string, seq<NoteTree>)>)
    ensures HasTrees(r) <==> exists i :: 0 <= i < |r| && r[i].1 != []
  {
    if r != [] {
      var p := r[..|r| - 1];
      HasTreesIff(p);
      if HasTrees(p) {
        var i :| 0 <= i < |p| && p[i].1 != [];
        assert r[i] == p[i];
      }
      if exists i :: 0 <= i < |r| && r[i].1 != [] {
        var i :| 0 <= i < |r| && r[i].1 != [];
        if i < |p| {
          assert p[i] == r[i];
        }
      }
    }
  }

  /** The grouping loop of `build_category_tree`: category keys in order of first appearance, and each category's notes. */
  method GroupByCategory(notes: seq<Note>) returns (categories: seq<string>, byCategory: map<string, seq<Note>>)
    ensures categories == Distinct(ObsidianParser.CategoriesOf(notes))
    ensures forall c :: c in byCategory <==> c in categories
    ensures forall c :: c in byCategory ==> byCategory[c] == NotesOfCategory(notes, c)
  {
    categories := [];
    byCategory := map[];
    for k := 0 to |notes|
      invariant Grouped(notes[..k], categories, byCategory)
    {
      var note := notes[k];
      GroupKeysStep(notes, k);
      if note.category !in byCategory {
        NewCategoryIsEmpty(notes, k);
        categories := categories + [note.category];
        byCategory := byCategory[note.category := []];
      }
      AppendStep(notes, k, byCategory);
      byCategory := byCategory[note.category := byCategory[note.category] + [note]];
    }
    assert notes[..|notes|] == notes;
  }

  /** What the grouping loop has built after reading `seen`: its categories in order of first appearance, each with its notes. */
  ghost predicate Grouped(seen: seq<Note>, categories: seq<string>, byCategory: map<string, seq<Note>>) {
    && categories == Distinct(ObsidianParser.CategoriesOf(seen))
    && (forall c :: c in byCategory <==> c in categories)
    && (forall c :: c in byCategory ==> byCategory[c] == NotesOfCategory(seen, c))
  }

  /** One iteration of the grouping loop keeps its invariants. */
  /**
   * The second half of an iteration: once the note's category has its
   * entry, appending the note keeps every entry equal to the notes of its
   * category seen so far.
   */
  lemma AppendStep(notes: seq<Note>, k: nat, byCategory: map<string, seq<Note>>)
    requires k < |notes| && notes[k].category in byCategory
    requires forall c :: c in byCategory ==> byCategory[c] == NotesOfCategory(notes[..k], c)
    ensures var byCategory' := byCategory[notes[k].category := byCategory[notes[k].category] + [notes[k]]];
      forall c :: c in byCategory' ==> byCategory'[c] == NotesOfCategory(notes[..k + 1], c)
  {
    var byCategory' := byCategory[notes[k].category := byCategory[notes[k].category] + [notes[k]]];
    forall c | c in byCategory' ensures byCategory'[c] == NotesOfCategory(notes[..k + 1], c) {
      GroupValueStep(notes, k, c);
    }
  }

  lemma GroupKeysStep(notes: seq<Note>, k: nat)
    requires k < |notes|
    ensures var c := notes[k].category; var d := Distinct(ObsidianParser.CategoriesOf(notes[..k]));
      Distinct(ObsidianParser.CategoriesOf(notes[..k + 1])) == if c in d then d else d + [c]
  {
    ObsidianParser.CategoriesSnoc(notes, k);
    DistinctSnoc(ObsidianParser.CategoriesOf(notes[..k]), notes[k].category);
  }

  lemma GroupValueStep(notes: seq<Note>, k: nat, c: string)
    requires k < |notes|
    ensures NotesOfCategory(notes[..k + 1], c) ==
              if notes[k].category == c then NotesOfCategory(notes[..k], c) + [notes[k]] else NotesOfCategory(notes[..k], c)
  {
    assert notes[..k + 1] == notes[..k] + [notes[k]];
    FilterSnoc(notes[..k], notes[k], OfCategory(c));
  }

  lemma NewCategoryIsEmpty(notes: seq<Note>, k: nat)
    requires k < |notes|
    requires notes[k].category !in Distinct(ObsidianParser.CategoriesOf(notes[..k]))
    ensures NotesOfCategory(notes[..k], notes[k].category) == []
  {
    var c := notes[k].category;
    forall m | m in notes[..k] ensures !OfCategory(c)(m) {
      var j :| 0 <= j < k && notes[..k][j] == m;
      assert ObsidianParser.CategoriesOf(notes[..k])[j] == m.category;
    }
    FilterAllOrNone(notes[..k], OfCategory(c));
  }
}
