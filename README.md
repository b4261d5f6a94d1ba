# Clipboard Inspector: the `DocumentHandler` bridge

Clipboard Inspector shows what is on the system clipboard. Its one class with
logic, `DocumentHandler`, links three text areas: the code editor, the rendered
output and the MIME-format listing. It also links the clipboard and the file
the code is saved to. This project models that class in Dafny and proves what
its operations promise:

- `paste` fills the three areas from a clipboard snapshot, using a four-way
  priority dispatch.
- `copy` puts the code area's text on the clipboard.
- `saveAs` and `save` write the code area as UTF-8 plain text or HTML and
  update the modified flag and the file location.
- The six guarded property setters and the derived getters `fileName`,
  `fileType`, `modified` and `mimeType`.

Modules, one concern each:

- `Wrappers`: `Option`. A null pointer or a missing payload is `None`.
- `Utf8`: the encoder behind `QString::toUtf8`, a strict decoder, and the
  round trip between them ("reading the saved file back").
- `Strings`: `join`, `contains`, `QFileInfo::fileName` (the text after the last
  `/`), `QFileInfo::suffix` (the text after the last `.` of the file name), and
  a `Split` that undoes `Join`.
- `QtModel`: the Qt objects as values.
  - `MimeData` is a clipboard snapshot: its format list and optional image,
    HTML and text payloads.
  - `TextDocument` has an `id` that stands for object identity, a content and a
    modified flag.
  - `Cursor` is either null or a selection of a whole document.
  - `Renderer` holds Qt's HTML conversions as function values the model never
    looks inside.
  - `OpenOutcome` is the result of `QFile::open`, given as a parameter.
- `HandlerSpec`: the handler's state as a value (`HandlerState`), each operation
  as a function on it, and the lemmas.
- `Document`: class `DocumentHandler`. Its fields are those of the C++ class,
  plus the clipboard it is given and a ghost log of emitted signals. Each
  method's `ensures` says that `State()` afterwards is the matching
  `HandlerSpec` function applied to `old(State())`.

Behaviour of the code that the model keeps on purpose:

- The document setters compare pointers. Binding the object already bound
  changes nothing, whatever that document now holds. The model compares the
  documents' `id`s.
- `setOutput` and `setMimeText` emit `codeChanged`, not their own notify
  signals, so no setter ever emits `outputChanged` or `mimeTextChanged`.
- An image snapshot puts the clipboard's text payload (or the empty string)
  into the code area, and a placeholder into the output area.
- `paste` joins the formats with `"; "`. `mimeType()` joins them with `", "`.
- `saveAs` treats the target as HTML when its suffix merely contains `html`, so
  `xhtml` counts.
- A second `saveAs` to the location already held emits no `fileUrlChanged`.

Assumptions about Qt that the model makes:

- Inserting through a cursor replaces the selection, and the edit marks the
  document modified. Two inserts make no edit and leave the document, flag
  included, as it was: `insertHtml("")`, whose fragment is empty, and
  `insertText("")` into an empty document, where there is nothing to remove.
- `QClipboard::setText(t)` leaves a snapshot with the single format
  `text/plain` and only the text payload.
- `m_mimeText` is not initialised by the constructor. The model starts it as
  unbound.
- The cursor helpers first call `setPosition` with `QTextCursor::Start` and
  `QTextCursor::End`. Those are move-operation values, not positions. Both
  callers then select the whole document with `movePosition`, so the model's
  cursor is a whole-document selection.
- A file location and its local path are the same string.

## Model

| member | source | states |
|---|---|---|
| HandlerSpec.Initial | src/document/documenthandler.cpp:28-35 | all three buffers start unbound, the cursor position is -1, the selection is 0..0, the file location is empty and no signal has been emitted |
| Document.DocumentHandler.constructor | src/document/documenthandler.cpp:28-35 | the new handler's state is `Initial` for the clipboard it is given |
| HandlerSpec.SetCode | src/document/documenthandler.cpp:53-65 | afterwards the given document object is bound; when it is the object already bound (same identity, whatever it holds) nothing changes, otherwise it is stored as given; only that field changes; one `codeChanged` is emitted exactly when the object differs |
| HandlerSpec.SetOutput | src/document/documenthandler.cpp:67-79 | the given object is bound afterwards; re-binding the bound object (same identity) changes nothing, otherwise it is stored as given; only the output binding changes; `codeChanged` (not `outputChanged`) is emitted exactly when the object differs |
| HandlerSpec.SetMimeText | src/document/documenthandler.cpp:81-93 | the given object is bound afterwards; re-binding the bound object (same identity) changes nothing, otherwise it is stored as given; only the listing binding changes; `codeChanged` (not `mimeTextChanged`) is emitted exactly when the object differs |
| HandlerSpec.SetCursorPosition | src/document/documenthandler.cpp:100-108 | only the cursor position changes; one `cursorPositionChanged` exactly when the value differs |
| HandlerSpec.SetSelectionStart | src/document/documenthandler.cpp:115-122 | only the selection start changes; one `selectionStartChanged` exactly when the value differs |
| HandlerSpec.SetSelectionEnd | src/document/documenthandler.cpp:129-136 | only the selection end changes; one `selectionEndChanged` exactly when the value differs |
| HandlerSpec.SettersGuarded | src/document/documenthandler.cpp:53-136 | each document setter, given any document with the bound object's identity, and each position setter, given the value held, leaves the whole state (signal log included) unchanged |
| HandlerSpec.SettersIdempotent | src/document/documenthandler.cpp:53-136 | calling any setter twice with the same value has the same effect as calling it once |
| HandlerSpec.NoOutputOrMimeTextNotification | src/document/documenthandler.cpp:53-136 | none of the six setters ever emits `outputChanged` or `mimeTextChanged` |
| Document.DocumentHandler.SetCode | src/document/documenthandler.cpp:53-65 | the new state is `HandlerSpec.SetCode` of the old one (the guard compares identities) |
| Document.DocumentHandler.SetOutput | src/document/documenthandler.cpp:67-79 | the new state is `HandlerSpec.SetOutput` of the old one (the guard compares identities) |
| Document.DocumentHandler.SetMimeText | src/document/documenthandler.cpp:81-93 | the new state is `HandlerSpec.SetMimeText` of the old one (the guard compares identities) |
| Document.DocumentHandler.SetCursorPosition | src/document/documenthandler.cpp:100-108 | the new state is `HandlerSpec.SetCursorPosition` of the old one |
| Document.DocumentHandler.SetSelectionStart | src/document/documenthandler.cpp:115-122 | the new state is `HandlerSpec.SetSelectionStart` of the old one |
| Document.DocumentHandler.SetSelectionEnd | src/document/documenthandler.cpp:129-136 | the new state is `HandlerSpec.SetSelectionEnd` of the old one |
| Strings.FileNameSpec | src/document/documenthandler.cpp:141 | the result has no `/`, is a tail of the path, and is preceded by `/` unless it is the whole path |
| HandlerSpec.DisplayFileName | src/document/documenthandler.cpp:138-145 | never empty and has no `/`; it is the location's last component, or `untitled.txt` when that component is empty |
| Document.DocumentHandler.FileName | src/document/documenthandler.cpp:138-145 | the getter is never empty and agrees with `DisplayFileName` of the held location |
| Strings.SuffixSpec | src/document/documenthandler.cpp:149 | no `.` or `/` in the suffix; empty when the file name has no `.`; otherwise it is the tail of the name after its last `.` |
| HandlerSpec.FileType | src/document/documenthandler.cpp:147-150 | the type has no `.` or `/` |
| Document.DocumentHandler.FileType | src/document/documenthandler.cpp:147-150 | the getter has no `.` or `/` and agrees with `HandlerSpec.FileType` of the held location |
| HandlerSpec.DefaultFileType | src/document/documenthandler.cpp:138-150 | with an empty last component, the name is `untitled.txt` and the type is `txt` |
| HandlerSpec.Modified | src/document/documenthandler.cpp:252-255 | `modified()` is true only when a code document is bound |
| Document.DocumentHandler.Modified | src/document/documenthandler.cpp:252-255 | the getter agrees with `HandlerSpec.Modified` of the current state |
| HandlerSpec.SetModified | src/document/documenthandler.cpp:257-261 | only the code document's flag can change; its identity and content stay; binding is unchanged |
| HandlerSpec.ModifiedReadsBack | src/document/documenthandler.cpp:252-261 | after `setModified(m)`, `modified()` is `m` when a code document is bound and false otherwise; with none bound, nothing changes |
| Document.DocumentHandler.SetModified | src/document/documenthandler.cpp:257-261 | the new state is `HandlerSpec.SetModified` of the old one |
| Document.DocumentHandler.MimeType | src/document/documenthandler.cpp:263-268 | the getter is the clipboard's formats joined with `", "` (`HandlerSpec.MimeType`) |
| HandlerSpec.ListingsAgree | src/document/documenthandler.cpp:263-268 | the `"; "` listing that `paste` writes (line 291) splits back into exactly the clipboard's formats when no format contains `"; "`, and the `", "` listing from `mimeType()` does when no format contains `", "` (so `text/plain;charset=utf-8` is allowed); the list must be non-empty |
| Strings.SplitJoin | src/document/documenthandler.cpp:291 | splitting a join on its separator gives back the non-empty list when no element contains the separator and the separator's first character does not recur in it |
| Strings.IndexOfSpec | src/document/documenthandler.cpp:164 | a found position is an occurrence and no earlier position is one; no position means no occurrence anywhere |
| Strings.ContainsSpec | src/document/documenthandler.cpp:164 | `contains` is true exactly when the substring occurs at some position |
| QtModel.CursorOn | src/document/documenthandler.cpp:192-226 | the cursor is null exactly when no document is bound; otherwise it selects that document |
| QtModel.NullCursorIgnoresInsert | src/document/documenthandler.cpp:192-226 | inserting through the null cursor of an unbound buffer leaves it unbound |
| QtModel.Insert | src/document/documenthandler.cpp:272-306 | a null cursor stays null; an insert that makes no edit (empty HTML, or empty text into an empty document) leaves the document as it was; any other insert over a whole selection leaves exactly the inserted content in the same document, marked modified |
| QtModel.InsertShows | src/document/documenthandler.cpp:272-306 | after any insert but empty HTML, the document keeps its identity and shows the inserted content (an empty document shows empty text) |
| QtModel.EmptyInsertKeepsFlag | src/document/documenthandler.cpp:291-302 | a text insert into an empty document sets the modified flag exactly when the text is non-empty, and otherwise leaves the flag as it was |
| QtModel.InsertReplaces | src/document/documenthandler.cpp:272-285 | when the insert edits both documents, the result does not depend on what the document held before or on its flag (replace, never append) |
| HandlerSpec.Branch | src/document/documenthandler.cpp:292-306 | exactly one branch is taken: image if there is one, else HTML, else text, else the unknown branch |
| HandlerSpec.Paste | src/document/documenthandler.cpp:270-310 | only the three buffers change; unbound buffers stay unbound; a bound listing receives the formats joined by `"; "` whatever branch fires, and bound code and output receive the branch's payloads; each bound buffer is left as it was when its insert makes no edit, and otherwise holds exactly its payload, marked modified |
| Document.DocumentHandler.Paste | src/document/documenthandler.cpp:270-310 | the new state is `HandlerSpec.Paste` of the old one |
| HandlerSpec.PasteTextOnly | src/document/documenthandler.cpp:300-302 | with only a text payload, the code and output areas both show that text |
| HandlerSpec.PasteHtml | src/document/documenthandler.cpp:296-298 | with HTML and no image, the code area shows the raw markup as text; the output area holds it as rendered HTML, or is left as it was when the markup is empty |
| HandlerSpec.PasteUnknown | src/document/documenthandler.cpp:303-305 | with no recognised payload, code is `Unknown MIME` and output is `Cannot display data` |
| HandlerSpec.ImageDominates | src/document/documenthandler.cpp:292-295 | with an image, the output is the placeholder whatever HTML or text comes with it, and the HTML payload does not affect the code area |
| HandlerSpec.HtmlDominatesText | src/document/documenthandler.cpp:296-302 | with HTML and no image, the text payload affects neither area |
| HandlerSpec.PasteReplaces | src/document/documenthandler.cpp:272-306 | when every payload is non-empty, two states that bind the same documents are identical after `paste`, whatever those documents held (with an empty payload the source itself keeps part of the old state) |
| HandlerSpec.PasteIdempotent | src/document/documenthandler.cpp:270-310 | pasting the same clipboard twice equals pasting it once |
| HandlerSpec.PasteMarksModified | src/document/documenthandler.cpp:270-310 | after `paste`, `modified()` is true exactly when a code document is bound and it either was modified or received an edit; with a non-empty code payload, exactly when a code document is bound |
| HandlerSpec.ScreenshotIntoEmptyEditor | src/document/documenthandler.cpp:292-293 | an image with no text pasted into an empty, unmodified code document leaves it as it was, and `modified()` stays false |
| QtModel.TextMimeData | src/document/documenthandler.cpp:321 | `setText` leaves a text-only snapshot carrying exactly that text |
| HandlerSpec.CodeText | src/document/documenthandler.cpp:316-320 | the copied text is the code document's plain text, or empty when none is bound |
| HandlerSpec.Copy | src/document/documenthandler.cpp:312-322 | only the clipboard changes; it then offers only text, equal to the code area's text |
| Document.DocumentHandler.Copy | src/document/documenthandler.cpp:312-322 | the new state is `HandlerSpec.Copy` of the old one |
| HandlerSpec.CopyThenPaste | src/document/documenthandler.cpp:270-322 | copying plain text and pasting it back leaves that text in the code area, shows it in the output area and puts `text/plain` in the listing |
| HandlerSpec.SaveAs | src/document/documenthandler.cpp:157-180 | no code document: nothing happens; open fails: one `Cannot save: ` error, nothing else changes, nothing is written; open succeeds: the UTF-8 bytes of the chosen form are written, the flag is cleared, and the location is adopted with `fileUrlChanged` only if it differs |
| Document.DocumentHandler.SaveAs | src/document/documenthandler.cpp:157-180 | the new state and the bytes written are those of `HandlerSpec.SaveAs` |
| HandlerSpec.SaveFailure | src/document/documenthandler.cpp:166-169 | a failed open appends exactly one signal, an error, and leaves `modified()` and the location as they were |
| HandlerSpec.SaveSuccess | src/document/documenthandler.cpp:170-179 | after a successful save `modified()` is false, the location is the target and the document's content is unchanged |
| HandlerSpec.SaveAgainChangesNothing | src/document/documenthandler.cpp:173-179 | a second successful save to the same target writes the same bytes and changes no state and emits nothing |
| HandlerSpec.SaveRoundTrip | src/document/documenthandler.cpp:164-170 | decoding the written bytes gives the document's HTML when the target's suffix contains `html`, and its plain text otherwise |
| HandlerSpec.XhtmlIsHtmlTarget | src/document/documenthandler.cpp:164 | every path ending in `.xhtml` is saved as HTML |
| HandlerSpec.HtmlDirectoryIsNotHtmlTarget | src/document/documenthandler.cpp:164 | only the file's own suffix is tested: a last component without `.` is saved as plain text whatever the directory is called |
| HandlerSpec.Save | src/document/documenthandler.cpp:182-186 | `save()` never changes the location and never emits `fileUrlChanged`; it only appends to the signal log |
| Document.DocumentHandler.Save | src/document/documenthandler.cpp:182-186 | the new state and the bytes written are those of `HandlerSpec.Save` |
| Utf8.EncodeChar | src/document/documenthandler.cpp:170 | each character becomes one to four bytes; ASCII alone takes one; every byte after the first is a continuation byte |
| Utf8.DecodeEncode | src/document/documenthandler.cpp:170 | decoding the UTF-8 encoding of any text gives back exactly that text |
| Utf8.EncodeInjective | src/document/documenthandler.cpp:170 | two texts with the same encoding are the same text |

## Left out

- Application bootstrap (src/main.cpp): it creates the application and the QML engine and holds no logic.
- Signal and slot wiring: the `connect` and `disconnect` calls on `modificationChanged` are not modelled. The log holds only signals the handler emits itself, so `modifiedChanged` never appears in it.
- Aliasing: a document is a value held by each field. Binding the same document to two buffers gives two copies that the model updates separately.
- Edit blocks (`beginEditBlock`/`endEditBlock`) group edits for undo. There is no undo stack in the model.
- The getters `code()`, `output()`, `mimeText()`, `cursorPosition()`, `selectionStart()`, `selectionEnd()` and `fileUrl()` only return a field. The model reads the field directly.
- `codeDocument`, `outputDocument` and `mimeDocument` are not separate members. A `QQuickTextDocument` and its `QTextDocument` are one value here, so each guard is the `Option` field itself.
- `reset()` has an empty body, so `setCursorPosition` has nothing to call.
- `fontFamily`, `textColor` and `alignment` and their setters are declared in the header but never defined.
- Emptiness of a document is read off its content: markup that is not the empty string counts as non-empty, even when it renders as no characters. `insertHtml` of such markup counts as an edit.
- HTML rendering and serialisation stay opaque. `insertHtml` stores the markup as `Rich`; `toHtml` and `toPlainText` of markup go through the `Renderer` functions.
- `toPlainText` normalisation (paragraph separators, non-breaking spaces) is not modelled: plain text reads back as it was inserted.
- `QTextCursor::selectedText` uses U+2029 to separate paragraphs. That is not modelled: `copy` puts the code area's plain text on the clipboard.
- Translation (`i18n`, `tr`) is not modelled. The messages are the English literals.
- Real file I/O is not modelled. Whether `QFile::open` succeeds, and its error string, are the `OpenOutcome` parameter. The written bytes are returned instead of stored.
- Text-mode newline translation for plain-text saves (`QFile::Text` on Windows) is not modelled. The bytes are the UTF-8 encoding of the text.
- QString holds UTF-16 and can contain lone surrogates. A Dafny string holds only Unicode scalar values, so lone surrogates cannot occur in the model.
- `QUrl` to local-path conversion, including `save()` passing a path string to `saveAs`, is the identity in the model. On Windows, `QFileInfo` also treats `\` as a separator; the model does not.
- Qt derives `hasImage`, `hasHtml` and `hasText` from the advertised formats. The model keeps them independent of the format list, so every combination is covered.
- The image payload's own text form and the image preview are not modelled beyond what the code inserts.
