/**
 * The vault parser: note ids built from slugs, category and book taken from
 * the path, `[[target|alias]]` link extraction, title cleanup, word counts,
 * the parse of a whole vault, lookup by id or category, substring search and
 * collection statistics.
 *
 * The file system is not modelled: a vault is given as a list of files, each
 * with its path components relative to the vault root and its text.
 */
module ObsidianParser {
  import opened Wrappers
  import opened Text
  import opened Collections
  import opened NoteModels

  // ---------------------------------------------------------------- slugs

  /** `[-\s]`: the characters a run of which becomes one `-`. */
  predicate IsSeparator(c: char) {
    c == '-' || IsSpace(c)
  }

  /** A character that survives the first step of `_slugify` on lower-cased text. */
  predicate IsKeptChar(c: char) {
    (IsWordChar(c) || IsSeparator(c)) && !IsUpper(c)
  }

  /** A character a slug may hold. */
  predicate IsSlugChar(c: char) {
    (IsWordChar(c) || c == '-') && !IsUpper(c)
  }

  /** `[\w\s-]`: the characters the first substitution of `_slugify` keeps. */
  predicate IsSlugSource(c: char) {
    IsWordChar(c) || IsSeparator(c)
  }

  /** `re.sub(r'[^\w\s-]', '', s)`: keeps word characters, whitespace and `-`. */
  function KeepSlugChars(s: string): (r: string)
    ensures r == Filter(s, IsSlugSource)
    ensures |r| <= |s|
    ensures forall k :: 0 <= k < |r| ==> IsWordChar(r[k]) || IsSeparator(r[k])
    ensures (forall k :: 0 <= k < |s| ==> !IsUpper(s[k])) ==> forall k :: 0 <= k < |r| ==> IsKeptChar(r[k])
    ensures (forall k :: 0 <= k < |s| ==> IsWordChar(s[k]) || IsSeparator(s[k])) ==> r == s
  {
    if s == [] then []
    else
      var c := s[|s| - 1];
      var r := KeepSlugChars(s[..|s| - 1]);
      assert s == s[..|s| - 1] + [c];
      if IsWordChar(c) || IsSeparator(c) then r + [c] else r
  }

  /** Drops the run of separators at the front of `s`. */
  function DropSeparators(s: string): (r: string)
    ensures |r| <= |s| && r == s[|s| - |r|..]
    ensures r != [] ==> !IsSeparator(r[0])
  {
    if s != [] && IsSeparator(s[0]) then
      var r := DropSeparators(s[1..]);
      assert s[1..][|s| - 1 - |r|..] == s[|s| - |r|..];
      r
    else s
  }

  /** No two `-` are adjacent. */
  predicate NoDoubleDash(s: string) {
    forall k :: 0 <= k < |s| - 1 ==> !(s[k] == '-' && s[k + 1] == '-')
  }

  /**
   * `re.sub(r'[-\s]+', '-', s)`: every maximal run of `-` and whitespace
   * becomes a single `-`; other characters are kept in order.
   */
  function CollapseSeparators(s: string): (r: string)
    ensures forall k :: 0 <= k < |r| ==> !IsSpace(r[k])
    ensures (forall k :: 0 <= k < |s| ==> IsKeptChar(s[k])) ==> forall k :: 0 <= k < |r| ==> IsSlugChar(r[k])
    ensures NoDoubleDash(r)
    ensures r != [] && r[0] == '-' <==> s != [] && IsSeparator(s[0])
    ensures r == [] <==> s == []
    decreases |s|
  {
    if s == [] then []
    else if IsSeparator(s[0]) then "-" + CollapseSeparators(DropSeparators(s))
    else [s[0]] + CollapseSeparators(s[1..])
  }

  /** A character that is neither `-` nor whitespace. */
  predicate IsWordPart(c: char) {
    !IsSeparator(c)
  }

  /** Dropping leading separators keeps every other character. */
  lemma {:induction false} DropSeparatorsKeepsWords(s: string)
    ensures Filter(DropSeparators(s), IsWordPart) == Filter(s, IsWordPart)
    decreases |s|
  {
    if s != [] && IsSeparator(s[0]) {
      var t := s[1..];
      assert DropSeparators(s) == DropSeparators(t);
      DropSeparatorsKeepsWords(t);
      assert Filter(t, IsWordPart) == Filter(s, IsWordPart) by {
        FilterCons(s[0], t, IsWordPart);
        assert [s[0]] + t == s;
      }
    }
  }

  /**
   * Collapsing separator runs keeps the characters other than `-` and
   * whitespace, in order; the separators left are all `-`.
   */
  lemma {:induction false} CollapseKeepsWords(s: string)
    ensures var r := CollapseSeparators(s);
      && Filter(r, IsWordPart) == Filter(s, IsWordPart)
      && forall k :: 0 <= k < |r| && IsSeparator(r[k]) ==> r[k] == '-'
    decreases |s|
  {
    if s != [] {
      if IsSeparator(s[0]) {
        var d := DropSeparators(s);
        CollapseKeepsWords(d);
        DropSeparatorsKeepsWords(s);
        FilterCons('-', CollapseSeparators(d), IsWordPart);
      } else {
        var t := s[1..];
        CollapseKeepsWords(t);
        assert Filter(s, IsWordPart) == [s[0]] + Filter(t, IsWordPart) by {
          FilterCons(s[0], t, IsWordPart);
          assert [s[0]] + t == s;
        }
        FilterCons(s[0], CollapseSeparators(t), IsWordPart);
      }
    }
  }

  /** `s.lstrip('-')`. */
  function StripLeadingDashes(s: string): (r: string)
    ensures |r| <= |s| && r == s[|s| - |r|..]
    ensures r != [] ==> r[0] != '-'
    ensures (s == [] || s[0] != '-') ==> r == s
  {
    if s != [] && s[0] == '-' then StripLeadingDashes(s[1..]) else s
  }

  /** `s.rstrip('-')`. */
  function StripTrailingDashes(s: string): (r: string)
    ensures |r| <= |s| && r == s[..|r|]
    ensures r != [] ==> r[|r| - 1] != '-'
    ensures (s == [] || s[|s| - 1] != '-') ==> r == s
  {
    if s != [] && s[|s| - 1] == '-' then StripTrailingDashes(s[..|s| - 1]) else s
  }

  /** A string `_slugify` can return: lower-case, word characters and single inner dashes only. */
  predicate IsSlug(s: string) {
    && (forall k :: 0 <= k < |s| ==> IsSlugChar(s[k]))
    && NoDoubleDash(s)
    && (s != [] ==> s[0] != '-' && s[|s| - 1] != '-')
  }

  /**
   * `_slugify`: lower-case, drop characters outside `[\w\s-]`, turn each run
   * of `-` and whitespace into one `-`, and strip `-` from both ends.
   */
  function Slugify(text: string): (r: string)
    ensures text == [] ==> r == []
    ensures IsSlug(r)
  {
    if text == [] then []
    else
      var lowered := Lower(text);
      assert forall k :: 0 <= k < |lowered| ==> !IsUpper(lowered[k]);
      var collapsed := CollapseSeparators(KeepSlugChars(lowered));
      var r := StripTrailingDashes(StripLeadingDashes(collapsed));
      SlugOfSlice(collapsed);
      r
  }

  /** Slug characters with no two adjacent dashes: what `CollapseSeparators` leaves. */
  predicate SlugBody(s: string) {
    (forall k :: 0 <= k < |s| ==> IsSlugChar(s[k])) && NoDoubleDash(s)
  }

  /** Stripping dashes from both ends of a collapsed string leaves a slug. */
  lemma SlugOfSlice(collapsed: string)
    requires forall k :: 0 <= k < |collapsed| ==> IsSlugChar(collapsed[k])
    requires NoDoubleDash(collapsed)
    ensures IsSlug(StripTrailingDashes(StripLeadingDashes(collapsed)))
  {
    var l := StripLeadingDashes(collapsed);
    StripLeadingKeepsBody(collapsed);
    var r := StripTrailingDashes(l);
    StripTrailingKeepsBody(l);
    if r != [] {
      assert r[0] == l[0];
    }
  }

  lemma {:induction false} StripLeadingKeepsBody(s: string)
    requires SlugBody(s)
    ensures SlugBody(StripLeadingDashes(s))
    decreases |s|
  {
    if s != [] && s[0] == '-' {
      assert SlugBody(s[1..]) by {
        forall k | 0 <= k < |s[1..]| - 1 ensures !(s[1..][k] == '-' && s[1..][k + 1] == '-') {
          assert s[1..][k] == s[k + 1] && s[1..][k + 1] == s[k + 2];
        }
      }
      StripLeadingKeepsBody(s[1..]);
    }
  }

  lemma {:induction false} StripTrailingKeepsBody(s: string)
    requires SlugBody(s)
    ensures SlugBody(StripTrailingDashes(s))
    decreases |s|
  {
    if s != [] && s[|s| - 1] == '-' {
      var init := s[..|s| - 1];
      assert SlugBody(init) by {
        forall k | 0 <= k < |init| - 1 ensures !(init[k] == '-' && init[k + 1] == '-') {
          assert init[k] == s[k] && init[k + 1] == s[k + 1];
        }
      }
      StripTrailingKeepsBody(init);
    }
  }

  /** `_slugify` leaves a slug unchanged, so applying it twice is the same as once. */
  lemma SlugifyIdempotent(text: string)
    ensures Slugify(Slugify(text)) == Slugify(text)
  {
    SlugIsFixedPoint(Slugify(text));
  }

  lemma SlugIsFixedPoint(s: string)
    requires IsSlug(s)
    ensures Slugify(s) == s
  {
    if s != [] {
      forall k | 0 <= k < |s| ensures Lower(s)[k] == s[k] {
        assert IsSlugChar(s[k]);
      }
      assert Lower(s) == s;
      assert KeepSlugChars(s) == s;
      CollapseKeepsSlug(s);
    }
  }

  /** Where a lone `-` or another non-whitespace character leads, collapsing keeps it and goes on with the rest. */
  lemma CollapseStep(s: string)
    requires s != [] && !IsSpace(s[0])
    requires s[0] == '-' ==> |s| == 1 || !IsSeparator(s[1])
    ensures CollapseSeparators(s) == [s[0]] + CollapseSeparators(s[1..])
  {
    if s[0] == '-' {
      assert DropSeparators(s) == DropSeparators(s[1..]) == s[1..];
    }
  }

  lemma {:induction false} CollapseKeepsSlug(s: string)
    requires forall k :: 0 <= k < |s| ==> !IsSpace(s[k])
    requires NoDoubleDash(s)
    ensures CollapseSeparators(s) == s
    decreases |s|
  {
    if s != [] {
      var t := s[1..];
      assert NoDoubleDash(t) && forall k :: 0 <= k < |t| ==> !IsSpace(t[k]) by {
        forall k | 0 <= k < |t| ensures t[k] == s[k + 1] {
        }
      }
      CollapseKeepsSlug(t);
      assert CollapseSeparators(s) == [s[0]] + CollapseSeparators(t) by {
        CollapseStep(s);
      }
      assert [s[0]] + t == s;
    }
  }

  // ---------------------------------------------------------------- ids

  /** `sep.join(parts)`. */
  function Join(parts: seq<string>, sep: string): string {
    if parts == [] then []
    else if |parts| == 1 then parts[0]
    else Join(parts[..|parts| - 1], sep) + sep + parts[|parts| - 1]
  }

  /** The slugs `_generate_id` joins: category, book (empty when missing or empty) and title. */
  function IdSlugs(category: string, book: Option<string>, title: string): seq<string> {
    [Slugify(category), if book.Some? && book.value != [] then Slugify(book.value) else [], Slugify(title)]
  }

  predicate NonEmpty(p: string) {
    p != []
  }

  /** The non-empty strings of `parts`, in order. */
  function NonEmptyParts(parts: seq<string>): (r: seq<string>)
    ensures r == Filter(parts, NonEmpty)
    ensures forall p :: p in r <==> p in parts && p != []
  {
    if parts == [] then []
    else
      var last := parts[|parts| - 1];
      assert parts == parts[..|parts| - 1] + [last];
      NonEmptyParts(parts[..|parts| - 1]) + (if last != [] then [last] else [])
  }

  /** `"_".join(p for p in parts if p)` over the id slugs. */
  function JoinedSlug(category: string, book: Option<string>, title: string): string {
    Join(NonEmptyParts(IdSlugs(category, book, title)), "_")
  }

  /** Longest id `_generate_id` returns unshortened, and the kept prefix of a longer one. */
  const MaxIdLength := 100
  const ShortenedPrefixLength := 80

  /**
   * `_generate_id`. `md5Hex` stands for the hexadecimal MD5 digest of the
   * joined slug (32 characters); a joined slug longer than 100 characters
   * is cut to 80, followed by `_` and the digest's first 8 characters.
   */
  function GenerateId(category: string, book: Option<string>, title: string, md5Hex: string -> string): (id: string)
    requires forall s :: |md5Hex(s)| == 32
    ensures |id| <= MaxIdLength
    ensures var slug := JoinedSlug(category, book, title);
      if |slug| <= MaxIdLength then id == slug
      else |id| == 89 && id[..ShortenedPrefixLength] == slug[..ShortenedPrefixLength]
           && id[ShortenedPrefixLength] == '_' && id[ShortenedPrefixLength + 1..] == md5Hex(slug)[..8]
  {
    var slug := JoinedSlug(category, book, title);
    if |slug| > MaxIdLength then slug[..ShortenedPrefixLength] + "_" + md5Hex(slug)[..8] else slug
  }

  /** `a` and `b` joined with `_`, where an empty side contributes nothing, not even the `_`. */
  function Glue(a: string, b: string): string {
    if a == [] then b else if b == [] then a else a + "_" + b
  }

  /** Joining the non-empty ones of three slugs glues them pairwise, left to right. */
  lemma JoinThree(a: string, b: string, c: string)
    ensures Join(NonEmptyParts([a, b, c]), "_") == Glue(Glue(a, b), c)
  {
    assert [a, b, c][..2] == [a, b];
    assert [a, b][..1] == [a];
    assert [a][..0] == [];
    assert NonEmptyParts([a]) == (if a == [] then [] else [a]);
    assert NonEmptyParts([a, b]) == NonEmptyParts([a]) + (if b == [] then [] else [b]);
    assert NonEmptyParts([a, b, c]) == NonEmptyParts([a, b]) + (if c == [] then [] else [c]);
    var ab := NonEmptyParts([a, b]);
    assert Join(ab, "_") == Glue(a, b) by {
      if a != [] && b != [] {
        assert ab[..1] == [a];
      }
    }
    if c != [] && ab != [] {
      assert (ab + [c])[..|ab|] == ab;
      if |ab| == 2 {
        assert Join(ab, "_") == a + "_" + b;
      }
    }
  }

  /**
   * The id joins the slugs of category, book and title with `_`, leaving out
   * the empty ones; a missing or empty book contributes nothing.
   */
  lemma IdJoinsSlugs(category: string, book: Option<string>, title: string, md5Hex: string -> string)
    requires forall s :: |md5Hex(s)| == 32
    ensures var bookSlug := if book.Some? && book.value != [] then Slugify(book.value) else [];
      var joined := Glue(Glue(Slugify(category), bookSlug), Slugify(title));
      && JoinedSlug(category, book, title) == joined
      && (|joined| <= MaxIdLength ==> GenerateId(category, book, title, md5Hex) == joined)
  {
    JoinThree(Slugify(category), IdSlugs(category, book, title)[1], Slugify(title));
  }

  // ---------------------------------------------------------------- path fields

  /** `_extract_category`: the first path component, or `"General"` for an empty path. */
  function ExtractCategory(parts: seq<string>): string {
    if |parts| > 0 then parts[0] else "General"
  }

  /** `_extract_book`: the second path component, if there is one. */
  function ExtractBook(parts: seq<string>): Option<string> {
    if |parts| >= 2 then Some(parts[1]) else None
  }

  /** `str(relative_path)` on a POSIX system. */
  function JoinPath(parts: seq<string>): string {
    Join(parts, "/")
  }

  /** `Path.stem`: the name without its last suffix; a leading or trailing dot is no suffix. */
  function Stem(name: string): (r: string)
    ensures |r| <= |name| && r == name[..|r|]
  {
    if '.' in name then
      var i := LastDot(name);
      if 0 < i < |name| - 1 then name[..i] else name
    else name
  }

  function LastDot(s: string): (k: nat)
    requires '.' in s
    ensures k < |s| && s[k] == '.' && '.' !in s[k + 1..]
  {
    if s[|s| - 1] == '.' then |s| - 1
    else
      assert '.' in s[..|s| - 1];
      LastDot(s[..|s| - 1])
  }

  /** The prefix `parse_note` removes from a title. */
  const NotesPrefix := "Notes - "

  /** Removes one leading `"Notes - "` from a title. */
  function CleanTitle(stem: string): (title: string)
    ensures StartsWith(stem, NotesPrefix) ==> stem == NotesPrefix + title
    ensures !StartsWith(stem, NotesPrefix) ==> title == stem
  {
    if StartsWith(stem, NotesPrefix) then stem[|NotesPrefix|..] else stem
  }

  // ---------------------------------------------------------------- links

  /** End of the run of characters other than `]` and `|` that starts at `i`. */
  function TargetEnd(s: string, i: nat): (j: nat)
    requires i <= |s|
    ensures i <= j <= |s|
    ensures forall k :: i <= k < j ==> s[k] != ']' && s[k] != '|'
    ensures j < |s| ==> s[j] == ']' || s[j] == '|'
    decreases |s| - i
  {
    if i == |s| || s[i] == ']' || s[i] == '|' then i else TargetEnd(s, i + 1)
  }

  /** End of the run of characters other than `]` that starts at `i`. */
  function BracketEnd(s: string, i: nat): (j: nat)
    requires i <= |s|
    ensures i <= j <= |s|
    ensures forall k :: i <= k < j ==> s[k] != ']'
    ensures j < |s| ==> s[j] == ']'
    decreases |s| - i
  {
    if i == |s| || s[i] == ']' then i else BracketEnd(s, i + 1)
  }

  /**
   * A match of `\[\[([^\]|]+)(?:\|[^\]]+)?\]\]` at offset `i`: the captured
   * target and the offset just past the match.
   */
  function LinkAt(s: string, i: nat): (m: Option<(string, nat)>)
    requires i <= |s|
    ensures m.Some? ==> var (target, end) := m.value;
      && i + 4 <= end <= |s| && i + 2 + |target| < |s|
      && target != [] && ']' !in target && '|' !in target
      && OccursAt(s, "[[" + target, i)
      && (s[i + 2 + |target|] == ']' || s[i + 2 + |target|] == '|')
      && s[end - 2..end] == "]]"
      && (s[i + 2 + |target|] == ']' ==> end == i + |target| + 4)
      && (s[i + 2 + |target|] == '|' ==>
            i + |target| + 5 < end && forall k :: i + 3 + |target| <= k < end - 2 ==> s[k] != ']')
  {
    if i + 2 <= |s| && s[i] == '[' && s[i + 1] == '[' then
      var j := TargetEnd(s, i + 2);
      var target := s[i + 2..j];
      assert s[i..i + |"[[" + target|] == "[[" + target;
      if j == i + 2 then None
      else if j + 1 < |s| && s[j] == ']' && s[j + 1] == ']' then Some((target, j + 2))
      else if j < |s| && s[j] == '|' then
        var m := BracketEnd(s, j + 1);
        if m > j + 1 && m + 1 < |s| && s[m + 1] == ']' then Some((target, m + 2)) else None
      else None
    else None
  }

  /** `re.findall` of the link pattern from offset `i`: the captured targets, left to right. */
  function LinkTargetsFrom(s: string, i: nat): (targets: seq<string>)
    requires i <= |s|
    ensures forall t :: t in targets ==>
      t != [] && ']' !in t && '|' !in t && (Contains(s, "[[" + t + "]") || Contains(s, "[[" + t + "|"))
    decreases |s| - i
  {
    if i == |s| then []
    else match LinkAt(s, i)
      case Some((target, end)) =>
        LinkTargetOccurs(s, i, target);
        [target] + LinkTargetsFrom(s, end)
      case None => LinkTargetsFrom(s, i + 1)
  }

  lemma LinkTargetOccurs(s: string, i: nat, target: string)
    requires i <= |s| && LinkAt(s, i).Some? && LinkAt(s, i).value.0 == target
    ensures Contains(s, "[[" + target + "]") || Contains(s, "[[" + target + "|")
  {
    var head := "[[" + target;
    var c := s[i + |head|];
    assert Contains(s, head + [c]) by { OccursExtended(s, head, i); }
    assert head + [c] == "[[" + target + "]" || head + [c] == "[[" + target + "|";
  }

  /** An occurrence of `head` followed by one more character is an occurrence of both. */
  lemma OccursExtended(s: string, head: string, i: nat)
    requires OccursAt(s, head, i) && i + |head| < |s|
    ensures Contains(s, head + [s[i + |head|]])
  {
    var sub := head + [s[i + |head|]];
    assert s[i..i + |sub|] == s[i..i + |head|] + [s[i + |head|]];
    assert OccursAt(s, sub, i);
    ContainsAt(s, sub);
  }

  /** With no link from offset `i` on, the scan finds nothing. */
  lemma {:induction false} NoLinkNothing(s: string, i: nat)
    requires i <= |s|
    requires forall p :: i <= p < |s| ==> LinkAt(s, p).None?
    ensures LinkTargetsFrom(s, i) == []
    decreases |s| - i
  {
    if i < |s| {
      NoLinkNothing(s, i + 1);
    }
  }

  /**
   * The scan from `i` reports first the link that starts nearest to `i`,
   * then goes on from the end of that match: matches are reported left to
   * right and never overlap.
   */
  lemma {:induction false} FirstLinkLeads(s: string, i: nat, j: nat)
    requires i <= j < |s| && LinkAt(s, j).Some?
    requires forall p :: i <= p < j ==> LinkAt(s, p).None?
    ensures LinkTargetsFrom(s, i) == [LinkAt(s, j).value.0] + LinkTargetsFrom(s, LinkAt(s, j).value.1)
    decreases j - i
  {
    if i < j {
      FirstLinkLeads(s, i + 1, j);
    }
  }

  /**
   * Every link in `s[i..]` is reported, unless it starts inside a match
   * that begins earlier.
   */
  lemma {:induction false} LinkTargetsFromComplete(s: string, i: nat, j: nat)
    requires i <= j < |s| && LinkAt(s, j).Some?
    ensures || LinkAt(s, j).value.0 in LinkTargetsFrom(s, i)
            || exists p :: i <= p < j && LinkAt(s, p).Some? && j < LinkAt(s, p).value.1
    decreases j - i
  {
    if i == j {
      assert LinkTargetsFrom(s, i) == [LinkAt(s, j).value.0] + LinkTargetsFrom(s, LinkAt(s, j).value.1);
    } else {
      match LinkAt(s, i)
      case None =>
        LinkTargetsFromComplete(s, i + 1, j);
        assert LinkTargetsFrom(s, i) == LinkTargetsFrom(s, i + 1);
      case Some((t, end)) =>
        if end <= j {
          LinkTargetsFromComplete(s, end, j);
          assert LinkTargetsFrom(s, i) == [t] + LinkTargetsFrom(s, end);
        } else {
          assert i <= i < j && LinkAt(s, i).Some? && j < LinkAt(s, i).value.1;
        }
    }
  }

  /** The targets of all `[[target]]` and `[[target|alias]]` links in `content`, in order. */
  function LinkTargets(content: string): seq<string> {
    LinkTargetsFrom(content, 0)
  }

  /**
   * `_extract_links`: the link targets with duplicates removed, each kept at
   * its first occurrence.
   */
  method ExtractLinks(content: string) returns (links: seq<string>)
    ensures links == Distinct(LinkTargets(content))
    ensures NoDup(links)
    ensures forall t :: t in links <==> t in LinkTargets(content)
    ensures forall t :: t in links ==>
      t != [] && ']' !in t && '|' !in t && (Contains(content, "[[" + t + "]") || Contains(content, "[[" + t + "|"))
  {
    var matches := LinkTargets(content);
    var seen: set<string> := {};
    links := [];
    for k := 0 to |matches|
      invariant links == Distinct(matches[..k])
      invariant seen == Elems(links)
    {
      assert matches[..k + 1][..k] == matches[..k];
      if matches[k] !in seen {
        seen := seen + {matches[k]};
        links := links + [matches[k]];
      }
    }
    assert matches[..|matches|] == matches;
  }

  // ---------------------------------------------------------------- parsing

  /** A vault file: its path components below the vault root, and its text. */
  datatype VaultFile = VaultFile(parts: seq<string>, content: string)

  /**
   * `parse_note` on a file whose text is already read: `None` for blank
   * text, otherwise the note with its title, category, book, links, word
   * count and id.
   */
  function ParseNote(parts: seq<string>, content: string, md5Hex: string -> string, now: int): (r: Option<Note>)
    requires forall s :: |md5Hex(s)| == 32
    ensures r.None? <==> Strip(content) == []
    ensures r.Some? ==>
      && r.value.content == content && |r.value.id| <= MaxIdLength
      && r.value.links == Distinct(LinkTargets(content))
      && r.value.wordCount == WordStarts(content)
  {
    if Strip(content) == [] then None
    else
      var name := if parts == [] then "" else parts[|parts| - 1];
      var title := CleanTitle(Stem(name));
      var category := ExtractCategory(parts);
      var book := ExtractBook(parts);
      SplitCountsWordStarts(content);
      Some(Note(
        id := GenerateId(category, book, title, md5Hex),
        title := title,
        content := content,
        category := category,
        book := book,
        filePath := JoinPath(parts),
        links := Distinct(LinkTargets(content)),
        wordCount := WordCount(content),
        createdAt := now))
  }

  /** Where a parsed note's title, category, book and path come from. */
  lemma ParseNoteFields(parts: seq<string>, content: string, md5Hex: string -> string, now: int)
    requires forall s :: |md5Hex(s)| == 32
    requires |parts| >= 1 && Strip(content) != []
    ensures var n := ParseNote(parts, content, md5Hex, now).value;
      && n.category == parts[0]
      && n.book == (if |parts| >= 2 then Some(parts[1]) else None)
      && n.filePath == Join(parts, "/")
      && n.title == CleanTitle(Stem(parts[|parts| - 1]))
      && n.id == GenerateId(parts[0], n.book, n.title, md5Hex)
  {
  }

  /** A file directly inside a category folder takes its own file name as its book. */
  lemma BookOfFileInCategoryFolder(category: string, fileName: string)
    ensures ExtractBook([category, fileName]) == Some(fileName)
  {
  }

  /** The patterns skipped when none are given. */
  const DefaultExcludePatterns: seq<string> := [".obsidian", "templates", "Archive", ".trash"]

  /** The default patterns stand in only for a missing list; an empty list excludes nothing. */
  function PatternsOrDefault(excludePatterns: Option<seq<string>>): seq<string> {
    if excludePatterns.None? then DefaultExcludePatterns else excludePatterns.value
  }

  /** Whether any exclusion pattern occurs in a path. */
  predicate IsExcluded(path: string, patterns: seq<string>) {
    exists p :: p in patterns && Contains(path, p)
  }

  /** The string form of a file's path: the vault root joined with its relative path. */
  function FullPath(vaultRoot: string, parts: seq<string>): string {
    vaultRoot + "/" + JoinPath(parts)
  }

  /** The notes a vault scan yields from `files`, in file order. */
  function ParsedNotes(vaultRoot: string, files: seq<VaultFile>, patterns: seq<string>, md5Hex: string -> string, now: int): (notes: seq<Note>)
    requires forall s :: |md5Hex(s)| == 32
    ensures |notes| <= |files|
    ensures forall n :: n in notes ==> Strip(n.content) != []
  {
    if files == [] then []
    else
      var f := files[|files| - 1];
      var prefix := ParsedNotes(vaultRoot, files[..|files| - 1], patterns, md5Hex, now);
      if IsExcluded(FullPath(vaultRoot, f.parts), patterns) then prefix
      else match ParseNote(f.parts, f.content, md5Hex, now)
        case None => prefix
        case Some(n) => prefix + [n]
  }

  /** One more file extends the notes of the files before it by that file's note, if it yields one. */
  lemma ParsedNotesStep(vaultRoot: string, files: seq<VaultFile>, patterns: seq<string>, md5Hex: string -> string, now: int, k: nat)
    requires forall s :: |md5Hex(s)| == 32
    requires k < |files|
    ensures var f := files[k];
      ParsedNotes(vaultRoot, files[..k + 1], patterns, md5Hex, now)
      == ParsedNotes(vaultRoot, files[..k], patterns, md5Hex, now)
         + if IsExcluded(FullPath(vaultRoot, f.parts), patterns) || ParseNote(f.parts, f.content, md5Hex, now).None? then []
           else [ParseNote(f.parts, f.content, md5Hex, now).value]
  {
    assert files[..k + 1][..k] == files[..k];
  }

  /**
   * `parse_all_notes` over the files of a vault: every file whose full path
   * contains no exclusion pattern and whose text is not blank becomes a note.
   */
  method ParseAllNotes(vaultRoot: string, files: seq<VaultFile>, excludePatterns: Option<seq<string>>,
                       md5Hex: string -> string, now: int) returns (notes: seq<Note>)
    requires forall s :: |md5Hex(s)| == 32
    ensures notes == ParsedNotes(vaultRoot, files, PatternsOrDefault(excludePatterns), md5Hex, now)
    ensures forall n :: n in notes ==> Strip(n.content) != []
  {
    var patterns := PatternsOrDefault(excludePatterns);
    notes := [];
    for k := 0 to |files|
      invariant notes == ParsedNotes(vaultRoot, files[..k], patterns, md5Hex, now)
    {
      ParsedNotesStep(vaultRoot, files, patterns, md5Hex, now, k);
      var f := files[k];
      var excluded := exists p :: p in patterns && Contains(FullPath(vaultRoot, f.parts), p);
      if !excluded {
        var note := ParseNote(f.parts, f.content, md5Hex, now);
        if note.Some? {
          notes := notes + [note.value];
        }
      }
    }
    assert files[..|files|] == files;
  }

  // ---------------------------------------------------------------- queries

  /** `notes[k]` is the first note carrying `noteId`. */
  predicate IsFirstWithId(notes: seq<Note>, k: int, noteId: string) {
    0 <= k < |notes| && notes[k].id == noteId && forall j :: 0 <= j < k ==> notes[j].id != noteId
  }

  /** `get_note_by_id`: the first note with the id, if any. */
  method GetNoteById(notes: seq<Note>, noteId: string) returns (r: Option<Note>)
    ensures r.None? <==> forall n :: n in notes ==> n.id != noteId
    ensures r.Some? ==> r.value.id == noteId && exists k :: IsFirstWithId(notes, k, noteId) && notes[k] == r.value
  {
    for k := 0 to |notes|
      invariant forall j :: 0 <= j < k ==> notes[j].id != noteId
    {
      if notes[k].id == noteId {
        return Some(notes[k]);
      }
    }
    return None;
  }

  /** Case-insensitive category equality. */
  predicate InCategory(n: Note, category: string) {
    Lower(n.category) == Lower(category)
  }

  /** `get_notes_by_category`: the notes of a category, compared case-insensitively, in order. */
  function GetNotesByCategory(notes: seq<Note>, category: string): (r: seq<Note>)
    ensures forall n :: n in r <==> n in notes && InCategory(n, category)
  {
    Filter(notes, n => InCategory(n, category))
  }

  /** The search test: the lower-cased query occurs in the lower-cased title or content. */
  predicate MatchesQuery(n: Note, query: string) {
    Contains(Lower(n.title), Lower(query)) || Contains(Lower(n.content), Lower(query))
  }

  function SearchResults(notes: seq<Note>, query: string): seq<Note> {
    Filter(notes, n => MatchesQuery(n, query))
  }

  /** `search_notes`: the notes whose title or content contains the query, ignoring case, in order. */
  method SearchNotes(notes: seq<Note>, query: string) returns (results: seq<Note>)
    ensures results == SearchResults(notes, query)
    ensures forall n :: n in results <==> n in notes && MatchesQuery(n, query)
  {
    results := [];
    for k := 0 to |notes|
      invariant results == SearchResults(notes[..k], query)
    {
      assert notes[..k + 1][..k] == notes[..k];
      if MatchesQuery(notes[k], query) {
        results := results + [notes[k]];
      }
    }
    assert notes[..|notes|] == notes;
  }

  /** Search respects the order of the notes: the results for `a + b` are those for `a`, then those for `b`. */
  lemma SearchKeepsOrder(a: seq<Note>, b: seq<Note>, query: string)
    ensures SearchResults(a + b, query) == SearchResults(a, query) + SearchResults(b, query)
  {
    FilterConcat(a, b, n => MatchesQuery(n, query));
  }

  // ---------------------------------------------------------------- statistics

  /** The dictionary `get_statistics` returns; `avgWordsPerNote` is absent for an empty vault. */
  datatype Statistics = Statistics(
    totalNotes: int,
    categories: map<string, int>,
    books: map<string, int>,
    totalWords: int,
    avgWordsPerNote: Option<int>)

  function CategoriesOf(notes: seq<Note>): (cats: seq<string>)
    ensures |cats| == |notes| && forall k :: 0 <= k < |notes| ==> cats[k] == notes[k].category
  {
    if notes == [] then [] else CategoriesOf(notes[..|notes| - 1]) + [notes[|notes| - 1].category]
  }

  /** The book of every note that has a non-empty one. */
  function BooksOf(notes: seq<Note>): (books: seq<string>)
    ensures |books| <= |notes|
  {
    if notes == [] then []
    else
      var n := notes[|notes| - 1];
      BooksOf(notes[..|notes| - 1]) + (if n.book.Some? && n.book.value != [] then [n.book.value] else [])
  }

  function TotalWords(notes: seq<Note>): int {
    if notes == [] then 0 else TotalWords(notes[..|notes| - 1]) + notes[|notes| - 1].wordCount
  }

  /**
   * `get_statistics`: note, category and book counts and the word total; the
   * average is the floor of total words over notes.
   */
  method GetStatistics(notes: seq<Note>) returns (s: Statistics)
    ensures s.totalNotes == |notes| && s.totalWords == TotalWords(notes)
    ensures s.categories == Tally(CategoriesOf(notes))
    ensures s.books == Tally(BooksOf(notes))
    ensures s.avgWordsPerNote == if notes == [] then None else Some(TotalWords(notes) / |notes|)
  {
    if notes == [] {
      return Statistics(0, map[], map[], 0, None);
    }
    var categories: map<string, int> := map[];
    var books: map<string, int> := map[];
    var totalWords := 0;
    for k := 0 to |notes|
      invariant Counted(notes[..k], categories, books, totalWords)
    {
      CountOneMore(notes, k, categories, books, totalWords);
      var n := notes[k];
      categories := Bump(categories, n.category);
      if n.book.Some? && n.book.value != [] {
        books := Bump(books, n.book.value);
      }
      totalWords := totalWords + n.wordCount;
    }
    assert notes[..|notes|] == notes;
    s := Statistics(|notes|, categories, books, totalWords, Some(totalWords / |notes|));
  }

  /** The running counts of `get_statistics` after the notes `done`. */
  predicate Counted(done: seq<Note>, categories: map<string, int>, books: map<string, int>, totalWords: int) {
    categories == Tally(CategoriesOf(done)) && books == Tally(BooksOf(done)) && totalWords == TotalWords(done)
  }

  lemma CountOneMore(notes: seq<Note>, k: nat, categories: map<string, int>, books: map<string, int>, totalWords: int)
    requires k < |notes| && Counted(notes[..k], categories, books, totalWords)
    ensures var n := notes[k];
      Counted(notes[..k + 1], Bump(categories, n.category),
        if n.book.Some? && n.book.value != [] then Bump(books, n.book.value) else books,
        totalWords + n.wordCount)
  {
    var n := notes[k];
    CategoriesSnoc(notes, k);
    TallySnoc(CategoriesOf(notes[..k]), n.category);
    BooksSnoc(notes, k);
    if n.book.Some? && n.book.value != [] {
      TallySnoc(BooksOf(notes[..k]), n.book.value);
    } else {
      assert BooksOf(notes[..k + 1]) == BooksOf(notes[..k]);
    }
    TotalWordsSnoc(notes, k);
  }

  lemma CategoriesSnoc(notes: seq<Note>, k: nat)
    requires k < |notes|
    ensures CategoriesOf(notes[..k + 1]) == CategoriesOf(notes[..k]) + [notes[k].category]
  {
    assert notes[..k + 1][..k] == notes[..k];
  }

  lemma BooksSnoc(notes: seq<Note>, k: nat)
    requires k < |notes|
    ensures var n := notes[k];
      BooksOf(notes[..k + 1]) == BooksOf(notes[..k]) + (if n.book.Some? && n.book.value != [] then [n.book.value] else [])
  {
    assert notes[..k + 1][..k] == notes[..k];
  }

  lemma TotalWordsSnoc(notes: seq<Note>, k: nat)
    requires k < |notes|
    ensures TotalWords(notes[..k + 1]) == TotalWords(notes[..k]) + notes[k].wordCount
  {
    assert notes[..k + 1][..k] == notes[..k];
  }

  /**
   * The category counts add up to the number of notes, and the book counts
   * to the number of notes that have a book; `ks` lists the keys once each.
   */
  lemma StatisticsCountsAddUp(notes: seq<Note>, s: Statistics, cats: seq<string>, books: seq<string>)
    requires s.categories == Tally(CategoriesOf(notes)) && s.books == Tally(BooksOf(notes))
    requires NoDup(cats) && Elems(cats) == s.categories.Keys
    requires NoDup(books) && Elems(books) == s.books.Keys
    ensures SumValues(cats, s.categories) == |notes|
    ensures SumValues(books, s.books) == |BooksOf(notes)|
    ensures forall b :: b in s.books ==> exists n :: n in notes && n.book == Some(b)
  {
    TallySumsToLength(cats, CategoriesOf(notes));
    TallySumsToLength(books, BooksOf(notes));
    forall b | b in s.books ensures exists n :: n in notes && n.book == Some(b) {
      BookHasNote(notes, b);
    }
  }

  lemma {:induction false} BookHasNote(notes: seq<Note>, b: string)
    requires b in BooksOf(notes)
    ensures exists n :: n in notes && n.book == Some(b)
    decreases |notes|
  {
    var last := notes[|notes| - 1];
    if b in BooksOf(notes[..|notes| - 1]) {
      BookHasNote(notes[..|notes| - 1], b);
      var n :| n in notes[..|notes| - 1] && n.book == Some(b);
      assert n in notes;
    } else {
      assert last.book == Some(b);
    }
  }
}
