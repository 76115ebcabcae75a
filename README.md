# NetBuilder browser glue: undo guard and container reordering

This project models the two pieces of decision logic in the browser layer
of NetBuilder, the visual page/network builder, and proves what they do.

- **Undo guard** (`js/ctrlz.js`, module `UndoGuard`). A global `keydown`
  listener recognises Ctrl+Z. It decides whether to send `ctrlZPressed` to
  the hosted Elm application. The decision depends on whether a
  `trix-editor` is on the page, on that editor's content, and on the
  content remembered from the last press that found an editor
  (`_previousCall`). The guard
  is the class `CtrlZ`. Its field `previousCall: Option<string>` is `None`
  while the JavaScript field is still `undefined`. The pure function `Step`
  gives the decision and the new field value of one press, and `Replay`
  folds it over a run of presses.
- **Reorder coordinator** (`js/app.js`, module `Reorder`). These are the
  handlers of the `startMovingContainerDown` and `startMovingContainerUp`
  ports, plus `runMoveAnimation`. The page is the document-order list of
  `.container` elements. Each element has a DOM id and the height of its
  parent's layout box, and is named by its position in the list.
  - `Resolve` is the index arithmetic of both handlers.
  - `IndexOf` models `Array.prototype.indexOf`.
  - `ElementAt` models array access: an out-of-range index, negative ones
    included, gives `undefined`.
  - A handler's behaviour is an ordered trace of `Effect`s: wait for a
    frame, the two `anime` slides, the 400 ms completion timer
    (`MOVING_ANIMATION_DURATION + 100`), the port message, another frame,
    then clearing both inline transforms.
  - When either element is `undefined`, reading `parentNode` in
    `runMoveAnimation` throws a `TypeError`. The trace then ends there and
    no completion is ever sent.
  - `ApplyAll` shows what a trace does to the elements' inline transforms.
    An animation counts at its final value.
- **parseInt** (module `JsNumbers`). The completion carries
  `parseInt(containerId)`. This is ECMAScript's `parseInt` with no radix:
  leading white space is skipped, an optional sign is read, a `0x`/`0X`
  prefix switches to hexadecimal, and digits are read up to the first
  non-digit. The result is NaN when no digit is read. Values are
  unbounded integers.
- `Ports.PortMessage` holds the messages sent into the application.

Three facts about the guard's code, each proved below:
- A press on an empty editor is forwarded both when nothing is remembered
  yet (js/ctrlz.js:38-41) and when the remembered content is empty too
  (js/ctrlz.js:43-46). So every press of a run on an empty editor is
  forwarded, the very first one included (`EmptyEditorPressesAllForward`).
- `_previousCall` is written only inside `noTrixContentTwice`
  (js/ctrlz.js:39, 44, 48), which runs only when an editor is present
  (js/ctrlz.js:12-18). A press without an editor leaves it unchanged.
- Pressing with text, then empty, then empty again suppresses, suppresses,
  then forwards (`TextThenTwoEmptyPresses`).

## Model

| member | source | states |
|---|---|---|
| `UndoGuard.Step` | js/ctrlz.js:11-49 | With no editor, a press is forwarded and the remembered content is kept. With an editor, its content is remembered whichever branch decides. On the first press (nothing remembered), it is forwarded iff the editor is empty. On later presses, it is forwarded iff both the current and the remembered content are empty. A press is suppressed exactly when an editor is present and either it holds text now or the editor held text at the last press that found one. |
| `UndoGuard.UndoKeyOnlyCtrlZ` | js/ctrlz.js:28 | Exactly Ctrl held with key code 90 is an undo key. The Ctrl key's own keydown (code 17 with Ctrl held) and Z without Ctrl are not, nor is Ctrl with any other key code. That no other key sends anything or changes the remembered content is `KeyDown`'s promise. |
| `UndoGuard.CtrlZ.constructor` | js/ctrlz.js:5-8 | A new guard remembers nothing (`_previousCall` is undefined). |
| `UndoGuard.CtrlZ.NoTrixContentTwice` | js/ctrlz.js:34-50 | Returns the decision of `Step` for a press with an editor. Every branch leaves the field equal to the current content. |
| `UndoGuard.CtrlZ.Press` | js/ctrlz.js:10-19 | Sends `[CtrlZPressed]` exactly when `Step` forwards, and `[]` otherwise. The field becomes `Step`'s new remembered content. |
| `UndoGuard.CtrlZ.KeyDown` | js/ctrlz.js:26-32 | A key event sends at most one message. Only Ctrl with key code 90 passes the filter at js/ctrlz.js:28 and can send one. Any other key sends nothing and leaves the field unchanged. Ctrl+Z acts as `Press`. |
| `UndoGuard.NoEditorForwardsEveryPress` | js/ctrlz.js:12-18 | When no editor is on the page, every press of any run is forwarded, and the remembered content does not change. |
| `UndoGuard.ReplayRemembersLastEditorContent` | js/ctrlz.js:38-49 | After any run, the remembered content is that of the last press that found an editor, or the initial value if none did. |
| `UndoGuard.EmptyEditorPressesAllForward` | js/ctrlz.js:38-46 | Starting with nothing or an empty content remembered, every press of a run on an empty editor is forwarded. A second empty press is never suppressed. |
| `UndoGuard.TwoEmptyPressesBothForward` | js/ctrlz.js:38-46 | A fresh guard forwards both of two presses on an empty editor. |
| `UndoGuard.TextThenTwoEmptyPresses` | js/ctrlz.js:43-49 | From any state, text then empty then empty gives suppress, suppress, forward. |
| `JsNumbers.ParseInt` | js/app.js:37 | `parseInt` gives a number only when the string holds a decimal digit. So a string without any decimal digit, even one with a sign or a `0x` prefix, gives NaN. |
| `JsNumbers.ParseIntShowInt` | js/app.js:37 | `parseInt` of the decimal rendering of any integer id gives back that integer. |
| `JsNumbers.ParseIntShowIntPrefix` | js/app.js:57 | `parseInt` stops at the first character after a rendered integer that is not a decimal digit. A rendered 0 followed by `x` or `X` is excluded, because it reads as a hexadecimal prefix. |
| `Reorder.IndexOf` | js/app.js:30 | Returns the first position of the id when it occurs, and -1 when it does not. |
| `Reorder.ElementsDefinedIffResolved` | js/app.js:30-34 | The two array reads of a handler both give an element exactly when the move resolves, and then they give the two resolved positions. Otherwise at least one of them is `undefined`. |
| `Reorder.Resolve` | js/app.js:28-54 | A resolved move names two adjacent positions, with the moving-down element directly above. The position named by the intent (the moving-down one for down, the moving-up one for up) is the first occurrence of the id. |
| `Reorder.MoveDownResolvesFirstOccurrence` | js/app.js:28-34 | If the id first occurs at i and i+1 is in range, moving it down pairs i (moving down) with i+1 (moving up). |
| `Reorder.MoveUpResolvesFirstOccurrence` | js/app.js:48-54 | If the id first occurs at j ≥ 1, moving it up pairs j-1 (moving down) with j (moving up). |
| `Reorder.UnresolvedCases` | js/app.js:30-54 | A move fails to resolve in exactly these cases: moving down the last container, moving up the first, or moving an id that is not on the page. |
| `Reorder.RunMoveAnimation` | js/app.js:69-95 | Its trace is `MoveAnimationEffects` of its two elements. It sends the completion exactly once when both elements are defined. If either is undefined it throws and sends nothing. |
| `Reorder.HandleMove` | js/app.js:22-60 | Its trace is `HandlerEffects`: a frame, then `MoveAnimationEffects` of the two elements it looks up. It sends `[Completion(dir, id)]` when the move resolves, and nothing otherwise. |
| `Reorder.HandlerEffectsResolved` | js/app.js:69-94 | A resolved move waits for a frame and then runs exactly the seven steps of `runMoveAnimation` on the two resolved elements and their parents' heights. |
| `Reorder.HandlerEffectsUnresolved` | js/app.js:69-71 | An unresolved move waits for a frame and then throws, before any animation, timer or message. |
| `Reorder.HandlerSendsOneCompletionIffResolved` | js/app.js:36-58 | A resolved move sends exactly one completion. It goes on `movingDownFinished` for down and `movingUpFinished` for up, and carries `parseInt` of the original id. An unresolved move sends none. |
| `Reorder.CompletionAfterAnimations` | js/app.js:73-94 | Both slides are linear and last 300 ms. Every slide comes before the completion, which is sent exactly its duration plus 100 ms after the slide starts. Both transforms are cleared after the completion. |
| `Reorder.SwappedAtCompletionThenCleared` | js/app.js:70-92 | When the completion is sent, the moving-down element is translated by +height of the moving-up element's parent. The moving-up element is translated by −height of the moving-down element's parent. At the end both inline transforms are empty. |
| `Reorder.OnlyMovedElementsChange` | js/app.js:22-95 | At every point of a handler's trace, every element other than the two moved ones keeps its inline transform. When the move does not resolve, no element changes. |
| `Reorder.MoveDownFirstOfThree` | js/app.js:22-38 | With containers "1", "2", "3", moving "1" down sends exactly `movingDownFinished(1)`. |
| `Reorder.MoveUpFirstOfThree` | js/app.js:42-58 | With containers "1", "2", "3", moving "1" up sends nothing. |

## Left out

- `js/dependencies.js`: script and stylesheet injection driven by `onload` callbacks. This is DOM loading with no decision logic beyond an early return when the library is already present.
- `js/html-content-editor.js`, `js/html-code-editor.js` and `js/html-content.js`: thin wrappers over third-party editors and `innerHTML`.
- `webpack.config.js` and `tailwind.config.js`: build and style configuration only.
- The Elm application is an opaque receiver of `PortMessage`s. Its decoding of a NaN id is not modelled.
- `NetBuilderEditor.connectedCallback`'s wiring is not modelled: the animation-library load, `Elm.Main.init`, `subscribe`. `disconnectedCallback`'s logging is not modelled either. Each handler is modelled as the function it subscribes.
- Listener registration and `CtrlZ.stop` are not modelled. `stop` passes `undefined` (the result of `addEventListener`) and so removes nothing; this is DOM behaviour.
- The unused `lastPressedKey` field and the unused `CTRL_KEY_CODE` and `Z_KEY_CODE` constants are not modelled. The listener compares against the literal 90, as `UndoKeyCode` does.
- `hasTrix` and `getTrixContent` query the DOM several times per press. The model reads the page once per press, because nothing can change it between those synchronous reads.
- Geometry: `getBoundingClientRect` heights are abstract natural numbers, not floating point.
- The `anime` engine is reduced to its final translation. Its intermediate frames are not modelled.
- Scheduling: `requestAnimationFrame` and `setTimeout` become ordered trace steps plus their delays. A frame wait has no duration in `Elapsed`. Whatever other callbacks run in between is not modelled.
- Overlapping moves are not modelled. Each handler's trace is modelled alone, and traces of two intents in flight are not interleaved.
- Elements are identified by their position in the container list, so two containers with the same id stay distinct.
- `JsNumbers.ParseInt` computes with unbounded integers. It does not model rounding to a double above 2^53 or the sign of `-0`.
