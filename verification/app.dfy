/**
 The App component (App.tsx): it owns the image state and the MIME type of
 the upload, shows the uploader while there is no truthy original and the
 Editor otherwise. A session is a sequence of user actions; an action whose
 control is not on screen at that moment changes nothing.
 */
module App {
  import opened Js
  import opened Gateway
  import opened History
  import opened Editor

  /**
   Everything the page holds. `editor` is the Editor's local state; the Editor
   is unmounted while the uploader shows, and every upload mounts it afresh.
   */
  datatype AppState = AppState(image: ImageState, mimeType: string, editor: EditorState)

  const DefaultMimeType: string := "image/png"

  /** The page as first rendered (lines 9-14). */
  const Init: AppState := AppState(Empty, DefaultMimeType, Mounted)

  /** Line 38: the Editor is shown exactly when the original is truthy, the uploader otherwise. */
  function EditorShown(s: AppState): (shown: bool)
    ensures shown <==> s.image.original != None && s.image.original != Some("")
  {
    s.image.original.Some? && Truthy(s.image.original.value)
  }

  /** `handleUpload`: whatever came before, the upload starts a new session with its own MIME type. */
  function HandleUpload(s: AppState, url: string, mimeType: string): (r: AppState)
    ensures r.image.original == r.image.current == Some(url) && r.image.history == []
    ensures r.mimeType == mimeType
    ensures r.editor == Mounted
  {
    AppState(Fresh(url), mimeType, Mounted)
  }

  /** `handleReset` of the App ("Upload another image"): back to the uploader; the MIME type is kept. */
  function HandleStartOver(s: AppState): (r: AppState)
    ensures r.image.original.None? && r.image.current.None? && r.image.history == []
    ensures r.mimeType == s.mimeType
    ensures !EditorShown(r)
  {
    s.(image := Empty)
  }

  /** The user's actions. `RunInstruction` carries the service that answers this one request. */
  datatype Action =
    | Upload(url: string, mimeType: string)
    | StartOver
    | EnterPrompt(prompt: string)
    | SelectTab(tab: Tab)
    | RunInstruction(service: Service)
    | UndoClick
    | RevertClick(confirmed: bool)
    | OriginalThumbnail
    | RevisionThumbnail(index: nat)

  /**
   Whether the control for `a` is on screen: the uploader and the Editor never
   show together (App.tsx, lines 38-67), and the thumbnails exist only while
   the history strip shows (line 228 of the Editor).
   */
  function Available(s: AppState, a: Action): (on: bool)
    ensures a.Upload? ==> (on <==> !EditorShown(s))
    ensures !a.Upload? && on ==> EditorShown(s)
    ensures a.OriginalThumbnail? ==> (on <==> EditorShown(s) && s.image.history != [])
    ensures a.RevisionThumbnail? ==> (on <==> EditorShown(s) && a.index < |s.image.history|)
    ensures !a.Upload? && !a.OriginalThumbnail? && !a.RevisionThumbnail? ==> (on <==> EditorShown(s))
  {
    match a
    case Upload(_, _) => !EditorShown(s)
    case OriginalThumbnail => EditorShown(s) && |s.image.history| > 0
    case RevisionThumbnail(i) => EditorShown(s) && i < |s.image.history|
    case _ => EditorShown(s)
  }

  function OnScreen(s: AppState): Screen {
    Screen(s.image, s.editor)
  }

  function Apply(s: AppState, sc: Screen): AppState {
    s.(image := sc.image, editor := sc.editor)
  }

  /** One action. */
  function Step(s: AppState, a: Action): (r: AppState)
    ensures !Available(s, a) ==> r == s
    ensures !a.Upload? && !a.StartOver? ==> r.image.original == s.image.original && r.mimeType == s.mimeType
  {
    if !Available(s, a) then s
    else match a
      case Upload(url, mimeType) => HandleUpload(s, url, mimeType)
      case StartOver => HandleStartOver(s)
      case EnterPrompt(p) => Apply(s, Editor.TypePrompt(OnScreen(s), p))
      case SelectTab(t) => Apply(s, Editor.ChooseTab(OnScreen(s), t))
      case RunInstruction(service) => Apply(s, HandleEdit(OnScreen(s), s.mimeType, service).screen)
      case UndoClick => Apply(s, HandleUndo(OnScreen(s)))
      case RevertClick(confirmed) => Apply(s, HandleReset(OnScreen(s), confirmed))
      case OriginalThumbnail => Apply(s, ShowOriginal(OnScreen(s)))
      case RevisionThumbnail(i) => Apply(s, ShowRevision(OnScreen(s), i))
  }

  /** The actions, one after another. */
  function Run(s: AppState, actions: seq<Action>): AppState
    decreases |actions|
  {
    if |actions| == 0 then s else Run(Step(s, actions[0]), actions[1..])
  }

  /**
   What holds between any two actions: original and current are both null or
   both set; the history holds only non-empty strings and is anchored at the
   original; while the Editor is shown the current image is truthy; no request
   is left in flight.
   */
  predicate Inv(s: AppState) {
    && (s.image.original.None? <==> s.image.current.None?)
    && EntriesTruthy(s.image)
    && Anchored(s.image)
    && (EditorShown(s) ==> Truthy(s.image.current.value))
    && !s.editor.isProcessing
  }

  /** The first render shows the uploader over an empty image state, expecting PNG. */
  lemma InitialPage()
    ensures Init.image.original.None? && Init.image.current.None? && Init.image.history == []
    ensures Init.mimeType == "image/png"
    ensures !EditorShown(Init) && Available(Init, Upload("", ""))
  {
  }

  lemma InitInv()
    ensures Inv(Init)
  {
  }

  /** A run of an instruction keeps the invariant: a commit pushes a truthy current onto an anchored history. */
  lemma EditKeepsInv(s: AppState, service: Service)
    requires Inv(s) && EditorShown(s)
    ensures Inv(Step(s, RunInstruction(service)))
  {
  }

  /** A click on Undo keeps the invariant: popping the only entry shows the original again. */
  lemma UndoKeepsInv(s: AppState)
    requires Inv(s) && EditorShown(s)
    ensures Inv(Step(s, UndoClick))
  {
  }

  /** Every action keeps the invariant. */
  lemma StepInv(s: AppState, a: Action)
    requires Inv(s)
    ensures Inv(Step(s, a))
  {
    // The two actions that change the history are proved in lemmas of their own.
    if Available(s, a) {
      match a
      case RunInstruction(service) => EditKeepsInv(s, service);
      case UndoClick => UndoKeepsInv(s);
      case _ =>
    }
  }

  /** Every state reachable from the first render satisfies the invariant. */
  lemma {:induction false} RunInv(s: AppState, actions: seq<Action>)
    requires Inv(s)
    ensures Inv(Run(s, actions))
    decreases |actions|
  {
    if |actions| > 0 {
      StepInv(s, actions[0]);
      RunInv(Step(s, actions[0]), actions[1..]);
    }
  }

  /** In every reachable state, original and current are both null or both set, and no history entry is null or empty. */
  lemma ReachableStatesWellFormed(actions: seq<Action>)
    ensures var s := Run(Init, actions);
      && (s.image.original.None? <==> s.image.current.None?)
      && forall i :: 0 <= i < |s.image.history| ==> Truthy(s.image.history[i])
  {
    InitInv();
    RunInv(Init, actions);
  }

  /** Without a truthy original only an upload can change the page. */
  lemma EditorActionsNeedOriginal(s: AppState, a: Action)
    requires !EditorShown(s) && !a.Upload?
    ensures Step(s, a) == s
  {
  }

  /** An upload leaves nothing of the previous state behind. */
  lemma UploadForgetsPast(s1: AppState, s2: AppState, url: string, mimeType: string)
    ensures HandleUpload(s1, url, mimeType) == HandleUpload(s2, url, mimeType)
  {
  }

  /** In any reachable state, undoing every history entry ends exactly where "Revert All" goes. */
  lemma UndoAllRestoresOriginal(actions: seq<Action>)
    ensures var s := Run(Init, actions);
      UndoTimes(s.image, |s.image.history|) == Revert(s.image)
  {
    InitInv();
    RunInv(Init, actions);
    UndoAllIsRevert(Run(Init, actions).image);
  }

  /** A service answering with a single inline image part. */
  function Answering(mime: string, data: string): Service {
    var part := Part(Some(Blob(Some(mime), Some(data))), None);
    (w: WireRequest) =>
      Answered(GenerateResponse(Some([Candidate(Some(Content(Some([part]))))]), None))
  }

  /** Whatever is asked, `Answering(mime, data)` makes the gateway produce that image. */
  lemma AnsweringProducesImage(req: EditRequest, mime: string, data: string)
    ensures EditImage(req, Answering(mime, data)) == EditResponse(DataUrl(mime, data), None)
  {
    var svc := Answering(mime, data);
    var parts := [Part(Some(Blob(Some(mime), Some(data))), None)];
    assert NoneBefore(parts, 0);
    SuccessFromFirstImagePart(req, svc, svc(WireFor(req)).response, parts, 0);
  }

  /** Typing a non-blank instruction and running it against a service that answers with an image commits that image. */
  lemma InstructionCommits(s: AppState, prompt: string, mime: string, data: string)
    requires EditorShown(s) && s.image.current.Some? && Truthy(s.image.current.value)
    requires !Blank(prompt)
    ensures Step(Step(s, EnterPrompt(prompt)), RunInstruction(Answering(mime, data))).image
      == Commit(s.image, DataUrl(mime, data))
  {
    var t := Step(s, EnterPrompt(prompt));
    assert OnScreen(t) == Screen(s.image, s.editor.(prompt := prompt));
    AnsweringProducesImage(RequestFor(OnScreen(t), t.mimeType), mime, data);
  }

  /** A successful instruction followed by a click on Undo gives back the image state from before it. */
  lemma InstructionThenUndo(s: AppState, prompt: string, mime: string, data: string)
    requires EditorShown(s) && s.image.current.Some? && Truthy(s.image.current.value)
    requires !Blank(prompt)
    ensures Step(Step(Step(s, EnterPrompt(prompt)), RunInstruction(Answering(mime, data))), UndoClick).image == s.image
  {
    InstructionCommits(s, prompt, mime, data);
    UndoAfterCommit(s.image, DataUrl(mime, data));
  }

  /** Upload A and run an instruction answered with image B: B is shown and the history is [A]. */
  lemma UploadThenEdit(a: string, prompt: string, mime: string, data: string)
    requires Truthy(a) && !Blank(prompt)
    ensures Step(Step(Step(Init, Upload(a, mime)), EnterPrompt(prompt)), RunInstruction(Answering(mime, data))).image
      == ImageState(Some(a), Some(DataUrl(mime, data)), [a])
  {
    InstructionCommits(Step(Init, Upload(a, mime)), prompt, mime, data);
  }

  /** From history [A] with B shown, an instruction answered with C shows C over the history [A, B]. */
  lemma SecondEdit(s: AppState, a: string, b: string, prompt: string, mime: string, data: string)
    requires Truthy(a) && Truthy(b) && !Blank(prompt)
    requires s.image == ImageState(Some(a), Some(b), [a])
    ensures Step(Step(s, EnterPrompt(prompt)), RunInstruction(Answering(mime, data))).image
      == ImageState(Some(a), Some(DataUrl(mime, data)), [a, b])
  {
    InstructionCommits(s, prompt, mime, data);
  }

  /** Continuing from [A, B] with C shown: Undo shows B again, and "Revert All" goes back to A. */
  lemma WalkthroughUndoRevert(s: AppState, a: string, b: string, c: string)
    requires Truthy(a) && Truthy(b)
    requires s.image == ImageState(Some(a), Some(c), [a, b])
    ensures Step(s, UndoClick).image == ImageState(Some(a), Some(b), [a])
    ensures Step(Step(s, UndoClick), RevertClick(true)).image == ImageState(Some(a), Some(a), [])
  {
    assert [a, b][..1] == [a];
  }

  /** A confirmed click on "Revert All" while the Editor shows runs `handleReset`'s updater. */
  lemma RevertClickReverts(s: AppState, confirmed: bool)
    requires EditorShown(s)
    ensures Step(s, RevertClick(confirmed)) == Apply(s, HandleReset(OnScreen(s), confirmed))
    ensures confirmed ==> Step(s, RevertClick(confirmed)).image == Revert(s.image)
  {
  }
}
