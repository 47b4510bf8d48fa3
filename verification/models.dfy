/**
 * The records of the notes backend: a parsed note, its metadata, the
 * recursive navigation tree, an extracted quote, and the field
 * constraints of a contact-form submission.
 */
module NoteModels {
  import opened Wrappers
  import opened Text

  /**
   * A parsed vault note. `book` defaults to none and `links` to the empty
   * list; `createdAt` is the parse time, given as a number.
   */
  datatype Note = Note(
    id: string,
    title: string,
    content: string,
    category: string,
    book: Option<string> := None,
    filePath: string,
    links: seq<string> := [],
    wordCount: int,
    createdAt: int)

  /** A note without its content. */
  datatype NoteMetadata = NoteMetadata(
    id: string,
    title: string,
    category: string,
    book: Option<string> := None,
    filePath: string,
    wordCount: int)

  /** A node of a book's navigation tree. */
  datatype NoteTree = NoteTree(
    id: string,
    title: string,
    filePath: string,
    isRoot: bool := false,
    isLeaf: bool := false,
    depth: int := 0,
    children: seq<NoteTree> := [])

  /** A quote taken from a note. */
  datatype Quote = Quote(text: string, source: string, book: Option<string> := None, category: string)

  /** A contact-form submission, before validation. */
  datatype ContactMessage = ContactMessage(name: string, email: string, subject: string, message: string)

  /** A tree node made from only its id, title and path takes the declared defaults. */
  lemma NoteTreeDefaults(id: string, title: string, filePath: string)
    ensures var t := NoteTree(id, title, filePath);
      !t.isRoot && !t.isLeaf && t.depth == 0 && t.children == []
  {
  }

  /** A note made without a book or links has no book and an empty link list. */
  lemma NoteDefaults(id: string, title: string, content: string, category: string, filePath: string, wordCount: int, createdAt: int)
    ensures var n := Note(id := id, title := title, content := content, category := category,
                          filePath := filePath, wordCount := wordCount, createdAt := createdAt);
      n.book == None && n.links == []
  {
  }

  /** The metadata of a note copies its id, title, category, book, path and word count. */
  function MetadataOf(n: Note): NoteMetadata {
    NoteMetadata(n.id, n.title, n.category, n.book, n.filePath, n.wordCount)
  }

  /** `[\w.-]` with `\w` read as ASCII. */
  predicate IsEmailChar(c: char) {
    IsWordChar(c) || c == '.' || c == '-'
  }

  predicate AllEmailChars(s: string) {
    forall k :: 0 <= k < |s| ==> IsEmailChar(s[k])
  }

  predicate AllWordChars(s: string) {
    forall k :: 0 <= k < |s| ==> IsWordChar(s[k])
  }

  /**
   * `s` splits as `local @ domain . tld` at the `@` at `i` and the `.` at `j`,
   * with `local` and `domain` non-empty runs of `[\w.-]` and `tld` a non-empty
   * run of `\w`: one way the pattern `^[\w.-]+@[\w.-]+\.\w+$` can match.
   */
  predicate EmailSplit(s: string, i: int, j: int) {
    && 0 < i && i + 1 < j && j + 1 < |s|
    && s[i] == '@' && s[j] == '.'
    && AllEmailChars(s[..i]) && AllEmailChars(s[i + 1..j]) && AllWordChars(s[j + 1..])
  }

  /** The language of `^[\w.-]+@[\w.-]+\.\w+$`. */
  ghost predicate EmailPattern(s: string) {
    exists i, j :: EmailSplit(s, i, j)
  }

  function IndexOf(s: string, c: char): (k: nat)
    requires c in s
    ensures k < |s| && s[k] == c && c !in s[..k]
  {
    if s[0] == c then 0 else 1 + IndexOf(s[1..], c)
  }

  function LastIndexOf(s: string, c: char): (k: nat)
    requires c in s
    ensures k < |s| && s[k] == c && c !in s[k + 1..]
  {
    if s[|s| - 1] == c then |s| - 1
    else
      assert c in s[..|s| - 1];
      LastIndexOf(s[..|s| - 1], c)
  }

  /**
   * A scanner for the e-mail pattern: the pattern's `@` can only be the first
   * `@` (the classes exclude it) and its `.` only the last `.` (the final
   * `\w+` excludes it).
   */
  predicate IsEmail(s: string) {
    && '@' in s && '.' in s
    && EmailSplit(s, IndexOf(s, '@'), LastIndexOf(s, '.'))
  }

  /** The scanner accepts exactly the strings the e-mail pattern matches. */
  lemma EmailScannerMatchesPattern(s: string)
    ensures IsEmail(s) <==> EmailPattern(s)
  {
    if EmailPattern(s) {
      var i, j :| EmailSplit(s, i, j);
      assert IndexOf(s, '@') == i && LastIndexOf(s, '.') == j;
    }
  }

  /**
   * The field constraints of a contact submission: a name of 2..100
   * characters, an e-mail matching the pattern, a subject of 5..200 and a
   * message of 10..5000 characters.
   */
  predicate IsValidContact(m: ContactMessage) {
    && 2 <= |m.name| <= 100
    && IsEmail(m.email)
    && 5 <= |m.subject| <= 200
    && 10 <= |m.message| <= 5000
  }

  /** What a valid contact submission guarantees, field by field. */
  lemma ValidContactFields(m: ContactMessage)
    ensures IsValidContact(m) <==>
      && 2 <= |m.name| <= 100
      && EmailPattern(m.email)
      && 5 <= |m.subject| <= 200
      && 10 <= |m.message| <= 5000
  {
    EmailScannerMatchesPattern(m.email);
  }
}
