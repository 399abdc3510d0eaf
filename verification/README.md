# Product-photo editor: edit history and model gateway

A Dafny model of the logic inside a single-page React app. A user uploads a
product photo, types natural-language edit instructions, and gets back images
from a hosted image model. Two pieces of sequential logic sit inside the markup:

- **The edit history.** `ImageState` is `{original, current, history}`. The
  Editor component adds its own `prompt`, `isProcessing`, `error` and
  `activeTab`. Five kinds of transition change this state:
  - upload, and "Upload another image", in the App;
  - commit of a successful edit;
  - undo;
  - confirmed "Revert All";
  - thumbnail navigation in the history strip.
- **The gateway** (`editImageWithGemini`). It takes the base64 payload out of
  the image's data URL and sends it with the prompt. It then turns the answer
  into either `data:<mime>;base64,<data>` from the first inline-image part, or an
  error message.

Modules:

- `Js` (js.dfy) holds the JavaScript semantics the code relies on:
  - nullable values;
  - string truthiness;
  - `trim`, using ECMAScript's whitespace and line-terminator set;
  - `split` on one character, with `join` as its inverse;
  - how a template literal renders `undefined`.
- `Gateway` (gateway.dfy) models services/geminiService.ts. The remote call is
  an oracle, `Service = WireRequest -> CallOutcome`: it either answers with a
  response or fails with a message. A response has optional `candidates`. Each
  candidate has optional `content`, with optional `parts`. Each part may carry
  inline data, whose MIME type and data may each be missing. The response also
  has an optional `text`.
- `History` (history.dfy) models `ImageState` from types.ts and the pure
  updaters that the components pass to `setImageState`.
- `Editor` (editor.dfy) models the Editor component's handlers over a
  `Screen`: the App's image state plus the Editor's own state.
- `App` (app.dfy) models the App component:
  - the initial state and the MIME type;
  - upload and start-over;
  - the `original`-truthy gate that shows the Editor.

  A session is a sequence of `Action`s. An action whose control is not on
  screen changes nothing. An invariant is proved for every state reachable from
  the first render.

Images are modelled as the strings the components store, not as an abstract
type. The code tests truthiness in several places: `!imageState.current`,
`previousImage || prev.original` and `result.imageUrl`. So the empty string
behaves differently from other images. `Js.Option` stands for `null` and
`undefined`.

Points of the code's behaviour that the model keeps:

- `handleEdit` does not check `isProcessing`. Only the disabled controls
  enforce it: the instruction box, Run, Undo and Revert All
  (components/Editor.tsx:89, 95, 129 and 136). The model runs `handleEdit` as
  one atomic step. It proves that `isProcessing` is false between steps
  (`App.StepInv`), and never treats the flag as a check.
- Undo shows the popped entry, or the original when the popped entry is `''`
  (components/Editor.tsx:62). `History.Undo` does the same.
- The Editor keeps `isProcessing` and `error` as two separate fields, and so
  does the model.
- The model adds no stale-response guard, as the code has none. Each edit is
  one atomic step, so no response can arrive late (see Left out).
- The history strip, including its "original" thumbnail, is shown only while
  the history is non-empty (components/Editor.tsx:228). `App.Available` encodes
  this.
- The Editor is unmounted while the uploader is shown, so each upload mounts it
  again with its initial local state (`Editor.Mounted`).
- The `|| prev.original` fallback in undo can only matter for an empty history
  entry. The invariant in `App.StepInv` shows that no reachable state has one.

## Model

| member | source | states |
|---|---|---|
| `Js.Trim` | components/Editor.tsx:20 | The result is one slice of the prompt. Only whitespace lies before and after it in the prompt, and the slice itself does not start or end with whitespace. |
| `Js.TrimEmptyIffBlank` | components/Editor.tsx:20 | `!prompt.trim()` holds exactly when every character of the prompt is whitespace. |
| `Js.Split` | services/geminiService.ts:10 | `split(',')` returns at least one piece, and no piece contains the separator. |
| `Js.JoinSplit` | services/geminiService.ts:10 | Joining the pieces of a split with the separator gives back the original string. |
| `Js.SplitJoin` | services/geminiService.ts:10 | Splitting a join of separator-free pieces gives back the pieces. |
| `Js.SplitPrefix` | services/geminiService.ts:10 | Text without a separator, placed in front of a string, only lengthens the first piece of its split. |
| `Js.Or` | services/geminiService.ts:51 | The string `or` of the catch block: `a` when it is non-empty, `b` otherwise. |
| `Js.OrElse` | services/geminiService.ts:42 | The text when it is present and non-empty, and the default otherwise (`response.text` or a default). |
| `Js.Render` | services/geminiService.ts:34 | A template literal renders a present string as itself and a missing one as `undefined`. So the rendered text is empty exactly when the value is `''`. |
| `Gateway.PayloadOf` | services/geminiService.ts:10 | The payload is missing exactly when the image contains no comma. A payload that is present contains no comma. |
| `Gateway.PayloadIsSecondSegment` | services/geminiService.ts:10 | The payload is exactly the text between the first comma and the next comma, or the end of the string. |
| `Gateway.DataUrlRoundTrip` | services/geminiService.ts:10-34 | Taking the payload of a URL built at line 34 gives back its data, when neither the MIME type nor the data contains a comma. |
| `Gateway.DataUrl` | services/geminiService.ts:34 | A built image URL always starts with `data:`, so it is never empty. |
| `Gateway.WireFor` | services/geminiService.ts:12-27 | The call names the model `gemini-2.5-flash-image`. It sends the extracted payload (missing when the image has no comma), the request's MIME type and the prompt. |
| `Gateway.FirstInline` | services/geminiService.ts:32-37 | The loop returns nothing exactly when no part carries inline data. Otherwise it returns the inline data of a part that has no inline-data part before it. |
| `Gateway.FirstImagePartWins` | services/geminiService.ts:32-37 | The first part that carries inline data is the one chosen. |
| `Gateway.LaterPartsIgnored` | services/geminiService.ts:32-37 | Once an image part has been found, appending more parts does not change the choice. |
| `Gateway.Generated` | services/geminiService.ts:29-38 | A non-empty URL produced by scanning the answer is a data URL. |
| `Gateway.NoImageMessage` | services/geminiService.ts:40-43 | The message is `Model returned: ` plus the text, or plus `No image generated` when the text is missing or empty. It is never empty. |
| `Gateway.TryEdit` | services/geminiService.ts:6-46 | When the `try` block ends with a URL rather than a throw, that URL is non-empty. |
| `Gateway.EditImage` | services/geminiService.ts:5-52 | Exactly one of image and error is present. On failure `imageUrl` is `''` and the error is non-empty. On success the URL is a data URL. |
| `Gateway.SuccessFromFirstImagePart` | services/geminiService.ts:31-46 | If the service answers and the first candidate's first image part has MIME type m and data d, the result is exactly `data:m;base64,d` with no error. m is the part's MIME type, not the request's. |
| `Gateway.NoImagePartReportsText` | services/geminiService.ts:40-52 | If a readable answer has no image part, the result is `''` with the error `Model returned: <text>`. When the text is missing or empty, the error is `Model returned: No image generated`. |
| `Gateway.FailureKeepsMessage` | services/geminiService.ts:47-52 | A failed call gives `''` and the failure's message. If that message is empty, the error is the stock message instead. |
| `Gateway.MalformedAnswerIsError` | services/geminiService.ts:31 | An empty candidate list, or a first candidate without content, throws a TypeError. The TypeError is caught and reported as an error with `''` as the image. |
| `Gateway.EditedImageFeedsNextPayload` | services/geminiService.ts:10-46 | If an edited image is sent back as the next request, the payload on the wire is exactly the data of the image part that produced it. |
| `History.Fresh` | App.tsx:17-21 | An upload makes the image both original and current, with an empty history. |
| `History.Commit` | components/Editor.tsx:34-38 | `current` becomes the result. The old current is appended as the last history entry, and earlier entries and `original` are kept. |
| `History.Undo` | components/Editor.tsx:57-63 | With an empty history, undo is a no-op. Otherwise the history loses exactly its last entry. That entry becomes current, or the original does when the entry is empty. `original` is kept. |
| `History.Revert` | components/Editor.tsx:47-51 | `current` becomes `original`, the history is emptied, and `original` is kept. |
| `History.SelectOriginal` | components/Editor.tsx:234 | `current` becomes `original`. History and original are unchanged. |
| `History.SelectEntry` | components/Editor.tsx:242 | `current` becomes `history[i]`. History and original are unchanged. |
| `History.UndoAfterCommit` | components/Editor.tsx:34-63 | Undo right after a commit restores the exact pre-commit state. |
| `History.RevertIdempotent` | components/Editor.tsx:47-51 | Reverting twice gives the same state as reverting once. |
| `History.SelectionIsNavigation` | components/Editor.tsx:234-242 | Choosing the same thumbnail twice gives the same state as choosing it once. Neither kind of thumbnail changes the history. |
| `History.Commits` | components/Editor.tsx:34-38 | After n commits, `original` is kept and the history has grown by n. |
| `History.CommitsFromUpload` | components/Editor.tsx:34-38 | After uploading I0 and committing I1..In, the history is [I0..I(n-1)] and `current` is In. |
| `History.UndoTimes` | components/Editor.tsx:56-65 | k undos shorten the history by k, stopping at empty, and keep `original`. |
| `History.UndoUnwindsCommits` | components/Editor.tsx:56-65 | k undos after n commits of non-empty images give exactly the state after the first n-k commits. |
| `History.UndoAllIsRevert` | components/Editor.tsx:45-65 | On an anchored history of non-empty entries, undoing every entry ends in exactly the state a confirmed revert produces. |
| `History.UndoTimesUnfold` | components/Editor.tsx:56-65 | k undos are one undo followed by k-1 more. |
| `Editor.CanSubmit` | components/Editor.tsx:20 | `handleEdit` goes ahead exactly when the prompt has a non-whitespace character and the current image is neither null nor `''`. |
| `Editor.RequestFor` | components/Editor.tsx:25-29 | The request carries the current image, the prompt as typed, and the session's MIME type. |
| `Editor.HandleEdit` | components/Editor.tsx:19-43 | A blank prompt or a missing or empty current image changes nothing and sends nothing. Otherwise exactly that request is sent and `isProcessing` ends false. On failure, `error` is recorded and images, prompt and tab are kept. On success, the result is pushed over the old current, and the prompt, error and tab are reset. `original` is always kept. |
| `Editor.HandleUndo` | components/Editor.tsx:56-65 | The image state changes exactly as `History.Undo` states: no change on an empty history, otherwise the last entry is removed and shown, or the original when the entry is `''`. The Editor's own state is untouched. |
| `Editor.HandleReset` | components/Editor.tsx:45-54 | An unconfirmed reset changes nothing. A confirmed one shows the original, empties the history and clears the error. Prompt, tab and `isProcessing` are kept. |
| `Editor.ShowOriginal` | components/Editor.tsx:234 | The original is shown. History, original and the Editor's state are unchanged. |
| `Editor.ShowRevision` | components/Editor.tsx:242 | Entry i is shown. History, original and the Editor's state are unchanged. |
| `Editor.TypePrompt` | components/Editor.tsx:86 | The prompt becomes the typed text. The images and every other Editor field are untouched. |
| `Editor.ChooseTab` | components/Editor.tsx:164-179 | The chosen tab becomes active. The images and every other Editor field are untouched. |
| `Editor.BlankPromptIsNoOp` | components/Editor.tsx:20 | With a whitespace-only prompt, the handler never reaches the gateway and changes nothing, whatever the service would answer. |
| `Editor.UndoAfterSuccessfulEdit` | components/Editor.tsx:34-63 | Undo right after a successful edit restores `current` and `history` to their pre-edit values. |
| `Editor.ResetIdempotent` | components/Editor.tsx:45-54 | A confirmed reset is idempotent. |
| `Editor.ThumbnailIdempotent` | components/Editor.tsx:232-246 | Choosing the same thumbnail twice gives the same state as choosing it once. |
| `App.HandleUpload` | App.tsx:16-23 | After an upload, original and current are the uploaded image, the history is empty, the MIME type is the upload's, and the Editor starts afresh. |
| `App.UploadForgetsPast` | App.tsx:16-23 | The state after an upload does not depend on the state before it. |
| `App.HandleStartOver` | App.tsx:25-31 | "Upload another image" sets original and current to null and empties the history. The MIME type is kept and the uploader is shown again. |
| `App.InitialPage` | App.tsx:9-14 | The first render has null original and current, an empty history and MIME type `image/png`, and shows the uploader. |
| `App.EditorShown` | App.tsx:38 | The Editor shows exactly when `original` is neither null nor `''`; otherwise the uploader shows. |
| `App.Available` | App.tsx:38-67 | Upload is on screen exactly when the Editor is not. "Upload another image", the instruction box, Run, the tabs, Undo and Revert All are on screen exactly when the Editor is. The original thumbnail needs a non-empty history (components/Editor.tsx:228), and thumbnail i needs i < the history length. |
| `App.Step` | App.tsx:38-67 | An action whose control is not on screen changes nothing. Only upload and start-over can change `original` or the MIME type. |
| `App.EditorActionsNeedOriginal` | App.tsx:38-67 | While `original` is null or empty, every action except an upload leaves the page unchanged. |
| `App.StepInv` | App.tsx:9-31 | Every action preserves the invariant. Original and current are both null or both set. History entries are non-empty, and the history is anchored at the original. The current image is truthy while the Editor shows, and no request is in flight. |
| `App.RunInv` | App.tsx:9-31 | Every sequence of actions preserves the invariant. |
| `App.ReachableStatesWellFormed` | components/Editor.tsx:20-62 | In every reachable state, original and current are both null or both set, and every history entry is non-empty. |
| `App.UndoAllRestoresOriginal` | components/Editor.tsx:56-65 | In every reachable state, undoing each history entry brings back the original with an empty history, exactly as "Revert All" does. |
| `App.AnsweringProducesImage` | services/geminiService.ts:31-46 | A service that answers with one image part makes the gateway return that part's data URL. |
| `App.InstructionCommits` | components/Editor.tsx:19-43 | Typing a non-blank instruction and running it, with an answer carrying an image, commits that image. |
| `App.InstructionThenUndo` | components/Editor.tsx:19-65 | Running a successful instruction and then clicking Undo gives back the image state from before. |
| `App.UploadThenEdit` | App.tsx:16-23 | Upload A, then one answered instruction: B is shown and the history is [A]. |
| `App.SecondEdit` | components/Editor.tsx:34-38 | From history [A] with B shown, a second answered instruction shows C with history [A, B]. |
| `App.WalkthroughUndoRevert` | components/Editor.tsx:45-65 | From (A, C, [A, B]), Undo gives (A, B, [A]), and a confirmed revert then gives (A, A, []). |
| `App.RevertClickReverts` | components/Editor.tsx:45-54 | A click on "Revert All" while the Editor shows runs `handleReset`. When it is confirmed, the image state becomes exactly the revert of the previous one. |

## Left out

- Rendering, styling, the suggested-prompt list and the download link are left out, and so are components/Header.tsx and components/ImageUploader.tsx. They are markup, or file-reader I/O and a file picker. An upload is modelled as an input `(url, mimeType)`.
- The `GoogleGenAI` client, `generateContent`, `process.env.API_KEY` and `console.error` are foreign library and network calls. The call is the `Service` oracle. How the SDK derives `response.text` from the parts is taken as given, as an optional field.
- `confirm()` is a browser dialog. It is the boolean parameter of `Editor.HandleReset`.
- Asynchronous interleaving is left out. An edit is one atomic step from click to settled answer. This excludes every action taken while a request is in flight. The instruction box, Run, Undo and Revert All are disabled then (components/Editor.tsx:89, 95, 129, 136). The history thumbnails (234, 242), the tabs (165, 173), the quick actions (150) and "Upload another image" (App.tsx:52-53) stay enabled. A thumbnail click during a request changes `current`, and the updater at components/Editor.tsx:34-38 then pushes that thumbnail's image instead of the one that was sent. After that interleaving, undo does not restore the state from before the edit. A late answer after "Upload another image" is applied to the newer state in the same way.
- A thrown value that is not an `Error`, but is neither `null` nor `undefined`, is modelled as a failure with an empty message, so the stock message is used. This covers values whose `message` is `undefined`. A thrown `null` or `undefined` is left out. For those, `error.message` at services/geminiService.ts:51 throws inside the `catch` and the promise rejects. `handleEdit` then never reaches line 42, so `isProcessing` stays true.
- `Gateway.MalformedAnswerIsError`: the messages of the TypeErrors are written as V8 words them. Other engines word them differently, but the result is still `''` with a non-empty error.
