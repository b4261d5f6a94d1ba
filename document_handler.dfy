/**
 * `DocumentHandler`: the bridge between the editor's three text areas, the
 * system clipboard and the file the code is saved to. Each method changes
 * the fields exactly as the matching function of `HandlerSpec` says.
 */
module Document {
  import opened Wrappers
  import opened Utf8
  import opened Strings
  import opened QtModel
  import opened HandlerSpec

  class DocumentHandler {
    var code: Option<TextDocument>
    var output: Option<TextDocument>
    var mimeText: Option<TextDocument>
    var cursorPosition: int32
    var selectionStart: int32
    var selectionEnd: int32
    var fileUrl: string
    /** The system clipboard, which the handler shares with every other application. */
    var clipboard: MimeData
    /** Every signal emitted so far, oldest first. */
    ghost var signals: seq<Signal>
    /** How the documents turn markup into text and text into HTML. */
    const renderer: Renderer

    ghost function State(): HandlerState
      reads this
    {
      HandlerState(code, output, mimeText, cursorPosition, selectionStart, selectionEnd,
                   fileUrl, clipboard, signals)
    }

    constructor (clipboard: MimeData, renderer: Renderer)
      ensures State() == Initial(clipboard) && this.renderer == renderer
    {
      code, output, mimeText := None, None, None;
      cursorPosition, selectionStart, selectionEnd := -1, 0, 0;
      fileUrl := [];
      this.clipboard := clipboard;
      signals := [];
      this.renderer := renderer;
    }

    method SetCode(document: Option<TextDocument>)
      modifies this
      ensures State() == HandlerSpec.SetCode(old(State()), document)
    {
      if SameBinding(document, code) {
        return;
      }
      code := document;
      signals := signals + [CodeChanged];
    }

    method SetOutput(document: Option<TextDocument>)
      modifies this
      ensures State() == HandlerSpec.SetOutput(old(State()), document)
    {
      if SameBinding(document, output) {
        return;
      }
      output := document;
      signals := signals + [CodeChanged];
    }

    method SetMimeText(document: Option<TextDocument>)
      modifies this
      ensures State() == HandlerSpec.SetMimeText(old(State()), document)
    {
      if SameBinding(document, mimeText) {
        return;
      }
      mimeText := document;
      signals := signals + [CodeChanged];
    }

    method SetCursorPosition(position: int32)
      modifies this
      ensures State() == HandlerSpec.SetCursorPosition(old(State()), position)
    {
      if position == cursorPosition {
        return;
      }
      cursorPosition := position;
      signals := signals + [CursorPositionChanged];
    }

    method SetSelectionStart(position: int32)
      modifies this
      ensures State() == HandlerSpec.SetSelectionStart(old(State()), position)
    {
      if position == selectionStart {
        return;
      }
      selectionStart := position;
      signals := signals + [SelectionStartChanged];
    }

    method SetSelectionEnd(position: int32)
      modifies this
      ensures State() == HandlerSpec.SetSelectionEnd(old(State()), position)
    {
      if position == selectionEnd {
        return;
      }
      selectionEnd := position;
      signals := signals + [SelectionEndChanged];
    }

    function FileName(): (r: string)
      reads this
      ensures r != [] && r == DisplayFileName(fileUrl)
    {
      DisplayFileName(fileUrl)
    }

    function FileType(): (r: string)
      reads this
      ensures '.' !in r && '/' !in r && r == HandlerSpec.FileType(fileUrl)
    {
      HandlerSpec.FileType(fileUrl)
    }

    function Modified(): (r: bool)
      reads this
      ensures r == HandlerSpec.Modified(State())
    {
      code.Some? && code.value.modified
    }

    method SetModified(m: bool)
      modifies this
      ensures State() == HandlerSpec.SetModified(old(State()), m)
    {
      if code.Some? {
        code := Some(code.value.(modified := m));
      }
    }

    function MimeType(): (r: string)
      reads this
      ensures r == HandlerSpec.MimeType(State())
    {
      Join(clipboard.formats, ", ")
    }

    /**
     * Selects each bound document whole, writes the format listing, then
     * fills the code and output documents from the first payload present.
     */
    method Paste()
      modifies this
      ensures State() == HandlerSpec.Paste(old(State()))
    {
      var codeCursor := CursorOn(code);
      var outputCursor := CursorOn(output);
      var mimeCursor := CursorOn(mimeText);
      var mimeData := clipboard;

      mimeCursor := Insert(mimeCursor, Plain(Join(mimeData.formats, "; ")));
      if mimeData.HasImage() {
        codeCursor := Insert(codeCursor, Plain(mimeData.Text()));
        outputCursor := Insert(outputCursor, Plain(ImagePreviewMessage));
      } else if mimeData.HasHtml() {
        codeCursor := Insert(codeCursor, Plain(mimeData.Html()));
        outputCursor := Insert(outputCursor, Rich(mimeData.Html()));
      } else if mimeData.HasText() {
        codeCursor := Insert(codeCursor, Plain(mimeData.Text()));
        outputCursor := Insert(outputCursor, Plain(mimeData.Text()));
      } else {
        codeCursor := Insert(codeCursor, Plain(UnknownMimeMessage));
        outputCursor := Insert(outputCursor, Plain(CannotDisplayMessage));
      }
      code := DocumentOf(codeCursor);
      output := DocumentOf(outputCursor);
      mimeText := DocumentOf(mimeCursor);
    }

    /** Puts the whole code document's text on the clipboard. */
    method Copy()
      modifies this
      ensures State() == HandlerSpec.Copy(renderer, old(State()))
    {
      var cursor := CursorOn(code);
      var codeCopy := SelectedText(renderer, cursor);
      clipboard := TextMimeData(codeCopy);
    }

    /**
     * Writes the code document to `url`; `open` is how opening the file for
     * writing turns out. Returns the bytes written, if any.
     */
    method SaveAs(url: string, open: OpenOutcome) returns (written: Option<seq<byte>>)
      modifies this
      ensures State() == HandlerSpec.SaveAs(renderer, old(State()), url, open).state
      ensures written == HandlerSpec.SaveAs(renderer, old(State()), url, open).written
    {
      ghost var before := State();
      ghost var expected := HandlerSpec.SaveAs(renderer, before, url, open);
      if code.None? {
        return None;
      }
      var doc := code.value;
      if open.OpenFailed? {
        signals := signals + [Error("Cannot save: " + open.errorString)];
        assert State() == expected.state;
        return None;
      }
      written := Some(Encode(SavedText(renderer, doc, url)));
      code := Some(doc.(modified := false));
      if url == fileUrl {
        assert State() == expected.state;
        return;
      }
      assert signals == before.signals && url != before.fileUrl;
      fileUrl := url;
      signals := signals + [FileUrlChanged];
      assert State() == expected.state;
    }

    /** Saves again to the location already held. */
    method Save(open: OpenOutcome) returns (written: Option<seq<byte>>)
      modifies this
      ensures State() == HandlerSpec.Save(renderer, old(State()), open).state
      ensures written == HandlerSpec.Save(renderer, old(State()), open).written
    {
      written := SaveAs(fileUrl, open);
    }
  }

  /**
   * The round trip a user sees: code "hello" is copied, the clipboard then
   * offers the plain text "world", and pasting puts "world" in both areas
   * and "text/plain" in the listing.
   */
  method CopyPasteScenario(renderer: Renderer)
  {
    var system := TextMimeData("");
    var handler := new DocumentHandler(system, renderer);
    handler.SetCode(Some(TextDocument(1, Plain("hello"), false)));
    handler.SetOutput(Some(TextDocument(2, Plain(""), false)));
    handler.SetMimeText(Some(TextDocument(3, Plain(""), false)));
    handler.Copy();
    assert handler.clipboard.Text() == "hello";
    handler.clipboard := TextMimeData("world");
    handler.Paste();
    assert handler.code.value.content == Plain("world");
    assert handler.output.value.content == Plain("world");
    assert handler.mimeText.value.content == Plain("text/plain");
  }
}
