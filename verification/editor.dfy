/**
 The Editor component (components/Editor.tsx): its local state -- the prompt,
 the in-flight flag, the error banner and the active tab -- together with the
 image state it receives from the App, and the handlers that change them.
 The asynchronous `handleEdit` is taken as one step: the request is sent and
 its answer applied before anything else happens.
 */
module Editor {
  import opened Js
  import opened Gateway
  import opened History

  /** The 'current' / 'original' tab of the canvas. */
  datatype Tab = CurrentTab | OriginalTab

  datatype EditorState = EditorState(prompt: string, isProcessing: bool, error: Option<string>, activeTab: Tab)

  /** The Editor's local state when it is mounted (lines 13-16). */
  const Mounted: EditorState := EditorState("", false, None, CurrentTab)

  /** What the Editor reads and writes: the App's image state and its own. */
  datatype Screen = Screen(image: ImageState, editor: EditorState)

  /** A submission that was answered, and the request it sent to the gateway, if any. */
  datatype Submission = Submission(screen: Screen, sent: Option<EditRequest>)

  /** `!prompt.trim()`. */
  predicate Blank(prompt: string) {
    !Truthy(Trim(prompt))
  }

  /**
   The guard of `handleEdit` (line 20): the prompt has a character that is not
   whitespace, and the current image is neither null nor the empty string.
   */
  function CanSubmit(sc: Screen): (ok: bool)
    ensures ok <==> !AllWhitespace(sc.editor.prompt) && sc.image.current.Some? && sc.image.current.value != ""
  {
    TrimEmptyIffBlank(sc.editor.prompt);
    !Blank(sc.editor.prompt) && sc.image.current.Some? && Truthy(sc.image.current.value)
  }

  /** The request `handleEdit` sends for the screen's current image and prompt. */
  function RequestFor(sc: Screen, mimeType: string): (req: EditRequest)
    requires sc.image.current.Some?
    ensures req.image == sc.image.current.value && req.prompt == sc.editor.prompt && req.mimeType == mimeType
  {
    EditRequest(sc.image.current.value, sc.editor.prompt, mimeType)
  }

  /**
   `handleEdit`, run to completion against `service`. A blank prompt or a
   missing image sends nothing and changes nothing. Otherwise exactly one
   request goes out; an error is shown and the images and prompt are kept, or
   the new image is committed, the prompt cleared and the result tab shown.
   */
  function HandleEdit(sc: Screen, mimeType: string, service: Service): (out: Submission)
    ensures !CanSubmit(sc) ==> out == Submission(sc, None)
    ensures CanSubmit(sc) ==> out.sent == Some(RequestFor(sc, mimeType))
    ensures CanSubmit(sc) ==> !out.screen.editor.isProcessing
    ensures out.screen.image.original == sc.image.original
    ensures CanSubmit(sc) && EditImage(RequestFor(sc, mimeType), service).error.None? ==>
      var url := EditImage(RequestFor(sc, mimeType), service).imageUrl;
      && out.screen.image.current == Some(url)
      && out.screen.image.history == sc.image.history + [sc.image.current.value]
      && out.screen.editor == EditorState("", false, None, CurrentTab)
    ensures CanSubmit(sc) && EditImage(RequestFor(sc, mimeType), service).error.Some? ==>
      && out.screen.image == sc.image
      && out.screen.editor == sc.editor.(error := EditImage(RequestFor(sc, mimeType), service).error, isProcessing := false)
  {
    if !CanSubmit(sc) then Submission(sc, None)
    else
      var req := RequestFor(sc, mimeType);
      var busy := sc.editor.(isProcessing := true, error := None);
      var result := EditImage(req, service);
      var settled :=
        if Truthy(OrElse(result.error, "")) then Screen(sc.image, busy.(error := result.error))
        else if Truthy(result.imageUrl) then Screen(Commit(sc.image, result.imageUrl), busy.(prompt := "", activeTab := CurrentTab))
        else Screen(sc.image, busy);
      Submission(settled.(editor := settled.editor.(isProcessing := false)), Some(req))
  }

  /**
   `handleUndo`: the last history entry is removed and shown, or the original
   is shown when that entry is the empty string; the Editor's own state is untouched.
   */
  function HandleUndo(sc: Screen): (r: Screen)
    ensures r.editor == sc.editor
    ensures r.image == Undo(sc.image)
  {
    Screen(Undo(sc.image), sc.editor)
  }

  /** `handleReset`: only a confirmed revert changes anything; it also clears the error. */
  function HandleReset(sc: Screen, confirmed: bool): (r: Screen)
    ensures !confirmed ==> r == sc
    ensures confirmed ==> r.image.current == sc.image.original && r.image.history == []
    ensures confirmed ==> r.editor == sc.editor.(error := None)
    ensures r.image.original == sc.image.original
  {
    if confirmed then Screen(Revert(sc.image), sc.editor.(error := None)) else sc
  }

  /** The first thumbnail of the strip (line 234). */
  function ShowOriginal(sc: Screen): (r: Screen)
    ensures r.image.current == sc.image.original
    ensures r.image.history == sc.image.history && r.image.original == sc.image.original
    ensures r.editor == sc.editor
  {
    Screen(SelectOriginal(sc.image), sc.editor)
  }

  /** Thumbnail `i + 1` of the strip (line 242). */
  function ShowRevision(sc: Screen, i: nat): (r: Screen)
    requires i < |sc.image.history|
    ensures r.image.current == Some(sc.image.history[i])
    ensures r.image.history == sc.image.history && r.image.original == sc.image.original
    ensures r.editor == sc.editor
  {
    Screen(SelectEntry(sc.image, i), sc.editor)
  }

  /** Typing in the instruction box, or choosing a quick action (lines 86, 150). */
  function TypePrompt(sc: Screen, prompt: string): (r: Screen)
    ensures r.editor == sc.editor.(prompt := prompt)
    ensures r.image == sc.image
  {
    sc.(editor := sc.editor.(prompt := prompt))
  }

  /** The Result / Original tab buttons (lines 165, 173). */
  function ChooseTab(sc: Screen, tab: Tab): (r: Screen)
    ensures r.editor == sc.editor.(activeTab := tab)
    ensures r.image == sc.image
  {
    sc.(editor := sc.editor.(activeTab := tab))
  }

  /** A blank prompt never reaches the gateway, whatever the service would have answered. */
  lemma BlankPromptIsNoOp(sc: Screen, mimeType: string, service: Service)
    requires AllWhitespace(sc.editor.prompt)
    ensures HandleEdit(sc, mimeType, service) == Submission(sc, None)
  {
    TrimEmptyIffBlank(sc.editor.prompt);
  }

  /** Undo right after a successful edit restores the image state from before the edit. */
  lemma UndoAfterSuccessfulEdit(sc: Screen, mimeType: string, service: Service)
    requires CanSubmit(sc)
    requires EditImage(RequestFor(sc, mimeType), service).error.None?
    ensures HandleUndo(HandleEdit(sc, mimeType, service).screen).image == sc.image
  {
    var url := EditImage(RequestFor(sc, mimeType), service).imageUrl;
    UndoAfterCommit(sc.image, url);
  }

  /** A confirmed revert is idempotent. */
  lemma ResetIdempotent(sc: Screen)
    ensures HandleReset(HandleReset(sc, true), true) == HandleReset(sc, true)
  {
  }

  /** Choosing the same thumbnail twice is choosing it once. */
  lemma ThumbnailIdempotent(sc: Screen, i: nat)
    requires i < |sc.image.history|
    ensures ShowRevision(ShowRevision(sc, i), i) == ShowRevision(sc, i)
    ensures ShowOriginal(ShowOriginal(sc)) == ShowOriginal(sc)
  {
  }
}
