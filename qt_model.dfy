/**
 * The Qt objects the handler talks to, reduced to values: the clipboard's
 * `QMimeData`, a `QTextDocument` (wrapped by a `QQuickTextDocument`, which
 * plays no further part and is folded into it), a `QTextCursor` and the
 * outcome of `QFile::open`.
 */
module QtModel {
  import opened Wrappers
  import opened Utf8

  /** An image payload; its pixels play no part in the handler. */
  datatype Image = Image(data: seq<byte>)

  /**
   * What `QClipboard::mimeData` offers at one moment: the advertised format
   * identifiers and the payloads `hasImage`, `hasHtml` and `hasText` test for.
   */
  datatype MimeData = MimeData(formats: seq<string>, image: Option<Image>, html: Option<string>, text: Option<string>) {

    predicate HasImage() { image.Some? }

    predicate HasHtml() { html.Some? }

    predicate HasText() { text.Some? }

    /** `QMimeData::html`: the markup, or the empty string when there is none. */
    function Html(): string { html.GetOr([]) }

    /** `QMimeData::text`: the text, or the empty string when there is none. */
    function Text(): string { text.GetOr([]) }
  }

  /** What `QClipboard::setText(t)` leaves on the clipboard: plain text and nothing else. */
  function TextMimeData(t: string): (m: MimeData)
    ensures m.HasText() && !m.HasImage() && !m.HasHtml() && m.Text() == t
    ensures m.formats == ["text/plain"]
  {
    MimeData(["text/plain"], None, None, Some(t))
  }

  /** The contents of a text document: plain text, or markup inserted as HTML. */
  datatype Content = Plain(text: string) | Rich(markup: string)

  /**
   * A `QTextDocument`: `id` stands for its identity as an object, so two
   * distinct documents are never equal values.
   */
  datatype TextDocument = TextDocument(id: nat, content: Content, modified: bool)

  /** Qt's conversions between markup and plain text, which the handler never looks inside. */
  datatype Renderer = Renderer(
    plainOfRich: string -> string,
    htmlOfPlain: string -> string,
    htmlOfRich: string -> string)

  /** `QTextDocument::toPlainText`. */
  function ToPlainText(r: Renderer, c: Content): string {
    match c
    case Plain(t) => t
    case Rich(m) => r.plainOfRich(m)
  }

  /** `QTextDocument::toHtml`. */
  function ToHtml(r: Renderer, c: Content): string {
    match c
    case Plain(t) => r.htmlOfPlain(t)
    case Rich(m) => r.htmlOfRich(m)
  }

  /**
   * A `QTextCursor`: the null cursor, or one whose selection spans a whole
   * document (the only kind the handler ever inserts through).
   */
  datatype Cursor = NullCursor | WholeSelection(doc: TextDocument)

  /**
   * `codeCursor`, `outputCursor` and `mimeCursor`: a null cursor when no
   * document is bound, otherwise the whole of the bound document.
   */
  function CursorOn(d: Option<TextDocument>): (c: Cursor)
    ensures c.NullCursor? <==> d.None?
    ensures c.WholeSelection? ==> c.doc == d.value
  {
    match d
    case None => NullCursor
    case Some(doc) => WholeSelection(doc)
  }

  /** A document content with no characters at all. */
  predicate Blank(c: Content) {
    match c
    case Plain(t) => t == []
    case Rich(m) => m == []
  }

  /**
   * Inserting `content` over the whole of a document holding `held` makes no
   * edit: `insertHtml("")` is an empty fragment, which `insertFragment`
   * ignores outright, and `insertText("")` over an empty document has no
   * selection to remove and nothing to add.
   */
  predicate NoEdit(held: Content, content: Content) {
    content == Rich([]) || (Blank(held) && content == Plain([]))
  }

  /** `d` shows `c`: it holds exactly `c`, or both are empty. */
  predicate Holds(d: TextDocument, c: Content) {
    d.content == c || (Blank(d.content) && Blank(c))
  }

  /**
   * `insertText` / `insertHtml` through a cursor. A null cursor ignores the
   * edit, and so does a whole selection when the insert makes no edit.
   * Otherwise the selection is replaced by the new content, so a whole
   * selection leaves exactly that content, and the edit marks the document
   * modified.
   */
  function Insert(c: Cursor, content: Content): (r: Cursor)
    ensures r.NullCursor? <==> c.NullCursor?
    ensures r.WholeSelection? && NoEdit(c.doc.content, content) ==> r == c
    ensures r.WholeSelection? && !NoEdit(c.doc.content, content) ==>
              r.doc == c.doc.(content := content, modified := true)
  {
    match c
    case NullCursor => NullCursor
    case WholeSelection(d) =>
      if NoEdit(d.content, content) then c
      else WholeSelection(d.(content := content, modified := true))
  }

  /** The document a cursor edits, as it stands now. */
  function DocumentOf(c: Cursor): Option<TextDocument> {
    match c
    case NullCursor => None
    case WholeSelection(d) => Some(d)
  }

  /** `QTextCursor::selectedText`: empty for a null cursor. */
  function SelectedText(r: Renderer, c: Cursor): string {
    match c
    case NullCursor => []
    case WholeSelection(d) => ToPlainText(r, d.content)
  }

  /**
   * Inserting over a whole selection replaces and never appends: whenever
   * the insert edits, the result depends neither on what the document held
   * nor on its modified flag.
   */
  lemma InsertReplaces(d1: TextDocument, d2: TextDocument, content: Content)
    requires d1.id == d2.id
    requires !NoEdit(d1.content, content) && !NoEdit(d2.content, content)
    ensures DocumentOf(Insert(CursorOn(Some(d1)), content)) == DocumentOf(Insert(CursorOn(Some(d2)), content))
    ensures DocumentOf(Insert(CursorOn(Some(d1)), content)) == Some(TextDocument(d1.id, content, true))
  {
  }

  /** Any insert but an empty HTML fragment leaves the document showing the inserted content. */
  lemma InsertShows(d: TextDocument, content: Content)
    requires content != Rich([])
    ensures Holds(DocumentOf(Insert(CursorOn(Some(d)), content)).value, content)
    ensures DocumentOf(Insert(CursorOn(Some(d)), content)).value.id == d.id
  {
  }

  /**
   * Empty text over an empty document is no edit: its modified flag stays
   * as it was, where any other text insert sets it.
   */
  lemma EmptyInsertKeepsFlag(d: TextDocument, t: string)
    requires Blank(d.content)
    ensures DocumentOf(Insert(CursorOn(Some(d)), Plain(t))).value.modified == (d.modified || t != [])
  {
  }

  /** An unbound buffer gets a null cursor, and inserting through it changes nothing. */
  lemma NullCursorIgnoresInsert(content: Content)
    ensures DocumentOf(Insert(CursorOn(None), content)) == None
  {
  }

  /** The outcome of `QFile::open`: success, or failure with `errorString()`. */
  datatype OpenOutcome = Opened | OpenFailed(errorString: string)
}
