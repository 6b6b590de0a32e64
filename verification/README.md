# Dictat — a Dafny model of the transcriber window's logic

Dictat is a small Tk desktop program. The user turns the microphone on and
off, and a capture loop listens for phrases. Each phrase goes to a
recognition worker. The worker sends it to Google's recogniser in the chosen
language and post-processes the words it gets back. A periodic check then
adds the results to a transcript area. The user can also clear the
transcript or save it to a file.

This project models the part of `AudioTranscriber` (`dictat.py`) that is
logic rather than widgets, threads or foreign calls:

- **Strings** (`strings.dfy`) models the Python string operations the
  program relies on:
  - `str.replace` is `ReplaceAll`, a left-to-right, leftmost,
    non-overlapping scan. `Split`/`Join` is an independent definition, and
    the two are proved equal.
  - `str.strip()` is `Strip`, over the set of characters for which
    `str.isspace()` holds.
- **TextPostprocessor** (`postprocess.dfy`) models `processamet_de_text`: five
  replace-all passes in a fixed order. The lemmas here cover:
  - length and "unchanged exactly when no phrase occurs";
  - the order of the passes;
  - how it treats dictated words: " punto y coma " is consumed first, and
    trailing words "cierra paréntesis" with no space after them are kept
    while the text before them is processed as if they were absent;
  - a proof that the post-processor is not idempotent.
- **Languages** (`languages.dfy`) models the combo box's name-to-code table,
  and the mismatch between the initial code (`es-ES`) and the initially
  shown name (Català).
- **Status** (`status.dfy`) gives every status message as a constructor of
  `Status`. `Text` renders it exactly as the program formats it, and `Parse`
  reads it back. So no two statuses render alike.
- **Transcriber** (`session.dfy`) holds the window's state and its events:
  - the microphone toggle, the language choice, clear and save;
  - a recognition worker's answer;
  - one turn of the capture loop and the whole loop over a sequence of
    `listen` results;
  - the periodic drain of the result queue into the transcript.
- **Trace** (`trace.dfy`) interleaves these events in any order, standing in
  for the threads. One more event stands for a capture thread that cannot
  open or calibrate the microphone: it dies without a message and stops
  counting as a running loop. Trace proves five things:
  - without a clear, and apart from the user's own typing in the transcript
    area (which is not modelled), no recognised text is lost, duplicated or
    reordered;
  - a capture loop is the same as its `listen` results arriving one by one;
  - only the microphone button changes whether the window listens;
  - the recogniser's language code always comes from the table;
  - once a language is picked, the combo box and the recogniser agree.

External answers become values:
- the microphone's `listen` result is `ListenResult`;
- the recogniser's answer is `Recognition`;
- the file dialog's chosen path and the outcome of writing the file are
  parameters of `Save`.

## Model

| member | source | states |
|---|---|---|
| Strings.ReplaceAll | dictat.py:191-195 | Python's `str.replace` with a non-empty pattern, as a left-to-right scan: at each position where the pattern starts it emits the replacement and jumps past the pattern, elsewhere it copies one character. Its behaviour is stated by the lemmas below. |
| Strings.Split | dictat.py:191 | Python's `str.split` with a non-empty separator: the pieces between leftmost non-overlapping occurrences; there is always at least one piece. |
| Strings.Join | dictat.py:191 | Python's `sep.join(pieces)`: the pieces in order with the separator between neighbours. It is the independent reference that `ReplaceAll` is proved equal to. |
| Strings.ReplaceAllIsJoinOfSplit | dictat.py:191 | The scan-based replace-all equals the split/join formulation of Python's `str.replace`, on every input. |
| Strings.ReplaceAllAtFirst | dictat.py:191 | Everything before the leftmost occurrence is copied unchanged, that occurrence becomes the replacement, and the scan resumes right after it (no overlap, no rescanning of the replacement). |
| Strings.ReplaceAllWithoutMatch | dictat.py:191 | A text in which the pattern does not occur is returned unchanged. |
| Strings.ReplaceAllShrinks | dictat.py:191-195 | A replacement no longer than its pattern never lengthens the text; a strictly shorter one strictly shortens any text containing the pattern. |
| Strings.SplitJoinRoundTrip | dictat.py:191 | Joining the pieces of a split with the same separator gives back the original text. |
| Strings.SplitPiecesAvoidPattern | dictat.py:191 | No piece of a split contains the separator. |
| Strings.ReplaceAllBeforeTail | dictat.py:191 | When no occurrence of the pattern reaches past `u`, replacing in `u + t` is replacing in `u` and appending `t` unchanged. |
| Strings.FindFirst | dictat.py:191 | The result is the leftmost occurrence of the pattern, and there is none exactly when the pattern does not occur. |
| Strings.Strip | dictat.py:223 | The stripped text is a slice of the text with only whitespace before and after it; it neither starts nor ends with whitespace, and it is empty exactly when the whole text is whitespace. |
| Strings.StripUnique | dictat.py:223 | Any slice with only whitespace around it that neither starts nor ends with whitespace is the stripped text: stripping has exactly one possible result. |
| Strings.StripIgnoresTrailing | dictat.py:223 | One more trailing whitespace character does not change the stripped text. |
| TextPostprocessor.PostProcess | dictat.py:190-196 | The output is never longer than the input, and it equals the input exactly when none of the five phrases occurs in it (the empty text included). |
| TextPostprocessor.PostProcessIsFivePasses | dictat.py:190-196 | The post-processor is exactly five replace-all passes, each over the previous pass's output, in the order " punto y coma ", " punto ", " coma ", " abre paréntesis ", " cierra paréntesis ". |
| TextPostprocessor.PostProcessIsFiveSplitJoins | dictat.py:190-196 | The same five passes, each written as Python's `mark.join(text.split(phrase))`. |
| TextPostprocessor.ApplyShrinks | dictat.py:191-195 | Any chain of passes that replace phrases by shorter marks never lengthens the text, and leaves it unchanged exactly when none of the phrases occurs. |
| TextPostprocessor.SemicolonPhraseFirst | dictat.py:191-193 | Between any two words, " punto y coma " becomes "; ": the first pass consumes it before " punto " or " coma " can match inside it. |
| TextPostprocessor.RepeatedPhraseOnce | dictat.py:191-192 | Between any two words, " punto punto " becomes ". punto ": the two phrases share a space, so only the first is replaced. |
| TextPostprocessor.DotPuntoOnce | dictat.py:190-196 | Between any two words, ". punto " becomes ".. ". |
| TextPostprocessor.NotIdempotent | dictat.py:190-196 | For any two words around " punto punto ", a second run of the post-processor changes the output of the first. |
| TextPostprocessor.TrailingPhraseKept | dictat.py:190-196 | After a single word, " cierra paréntesis" at the very end of the text, with no space after it, comes out of all five passes unchanged. |
| TextPostprocessor.TrailingClosingKept | dictat.py:190-196 | For any text `u`, the words "cierra paréntesis" at the very end, with no space after them, are kept as they are, and `u` is post-processed as if they were absent; so "a abre paréntesis cierra paréntesis" becomes "a (cierra paréntesis". |
| Languages.TableMatchesChoices | dictat.py:32-36 | Every language the combo box offers has its name in the table, mapped to its own code, and the table holds nothing else. |
| Languages.NamesAndCodesDistinct | dictat.py:32-36 | Distinct languages have distinct names and distinct codes. |
| Languages.ByName | dictat.py:115 | Looking a name up gives the language shown under that name, or nothing when no language has that name. |
| Languages.InitialChoiceMismatch | dictat.py:84 | The combo box opens on Català while the initial code is Spanish's `es-ES`, which is in the table but is not Català's code. |
| Status.Text | dictat.py:30-240 | Each status renders as the program's own literal: "Fes clic al micròfon" (line 30), "Idioma cambiat a: <name>" (117), "Escoltant [<name>]" (125), "Error: <msg>" (163), "No he pogut entendre l'àudio [<name>]" (182), "Error en el servei: <msg>" (184), "Error inesperat: <msg>" (186), "No hi ha text per desar" (225), "Transcripció desada a: <path>" (238) and "Error en desar: <msg>" (240). |
| Status.Parse | dictat.py:30 | Any message that reads back as a status is exactly that status's rendering. |
| Status.ParseListening | dictat.py:125 | "Escoltant [<name>]" reads back as listening in that language. |
| Status.ParseLanguageChanged | dictat.py:117 | "Idioma cambiat a: <name>" reads back as a change to that language. |
| Status.ParseCaptureError | dictat.py:163 | "Error: <msg>" reads back as a capture failure with that message. |
| Status.ParseNotUnderstood | dictat.py:182 | "No he pogut entendre l'àudio [<name>]" reads back as an unintelligible phrase in that language. |
| Status.ParseServiceError | dictat.py:184 | "Error en el servei: <msg>" reads back as a service failure, not as a capture failure, although both start with "Error". |
| Status.ParseUnexpectedError | dictat.py:186 | "Error inesperat: <msg>" reads back as an unexpected recognition failure. |
| Status.ParseSaved | dictat.py:238 | "Transcripció desada a: <path>" reads back as a save to that path. |
| Status.ParseSaveError | dictat.py:240 | "Error en desar: <msg>" reads back as a failed save with that message. |
| Status.ParseText | dictat.py:30-31 | Every status message, the default one included, reads back as the status it was rendered from. |
| Status.TextInjective | dictat.py:30-31 | Two statuses render to the same message exactly when they are the same status. |
| Transcriber.InitialState | dictat.py:27-39 | The window opens not listening, with an empty transcript and queue and the default message; its code is in the table but does not match the shown language. |
| Transcriber.ToggleMicrophone | dictat.py:120-138 | The button as evidently intended flips listening. Switching on names the shown language in the status and starts a capture loop. Switching off restores the default message. Nothing else changes. |
| Transcriber.ToggleTwice | dictat.py:120-138 | Two presses of the intended button restore listening and everything but the status and the number of started loops. |
| Transcriber.ToggleMicrophoneAsWritten | dictat.py:103-138 | The button as written flips listening and, when switching on, names the shown language in the status; the image change then raises on the `None` handle, so no capture loop starts and switching off keeps the old status. Nothing else changes. |
| Transcriber.TogglePressesAsWritten | dictat.py:103-138 | Two presses of the button as written from the opened window leave "Escoltant [Català]" and no loop started, where the intended button leaves the default message and one loop started. |
| Transcriber.NoLoopAsWritten | dictat.py:103-130 | However often the button as written is pressed, the number of capture loops never changes. |
| Transcriber.ChooseLanguage | dictat.py:112-117 | The recogniser's code becomes the table's code for the chosen language and the status names it. The result is consistent and well formed, and nothing else changes. |
| Transcriber.Clear | dictat.py:216-219 | The transcript becomes empty and the default message returns; results still queued stay queued. |
| Transcriber.ClearKeepsPending | dictat.py:216-219 | Clearing does not drop queued results: the next check for results shows exactly them, in order, as the whole transcript. |
| Transcriber.Save | dictat.py:221-240 | Saving changes only the status, and it writes only to a non-empty path that the dialog returned. |
| Transcriber.SavedTextIsStrippedTranscript | dictat.py:223 | The transcript area's trailing newline does not change the stripped text, and that text is empty exactly when the transcript is all whitespace. |
| Transcriber.SaveNothing | dictat.py:223-226 | With a transcript that is all whitespace, saving writes nothing and shows "No hi ha text per desar", whatever the dialog and the write would have answered. |
| Transcriber.SaveCancelled | dictat.py:229-234 | With text to save and the dialog cancelled, nothing changes and nothing is written. |
| Transcriber.SaveWrites | dictat.py:234-240 | With text to save and a path chosen, the stripped transcript is sent to be written to that path, and the status reports success or the write's error. |
| Transcriber.HandleRecognition | dictat.py:171-186 | Recognised words are queued at the back, post-processed, and the status is left alone. Each kind of failure sets its own message and queues nothing. Nothing else changes. |
| Transcriber.FailuresDistinguishable | dictat.py:181-186 | Two different failures leave two different status messages. |
| Transcriber.CaptureStep | dictat.py:149-164 | A phrase goes to a new worker and the loop goes on. A timed-out wait changes nothing and the loop goes on. Any other failure sets "Error: <msg>" and ends the loop. Listening is never turned off by the loop. |
| Transcriber.FirstFailure | dictat.py:159-164 | The position of the first failure among the results, if any: none before it. Without one, no result is a failure. |
| Transcriber.CaptureLoop | dictat.py:147-164 | While listening, the loop consumes results up to and including the first failure. It hands every phrase among them to a worker, in order. A failure sets the status and ends the loop, which then stops counting as running; without listening the loop consumes nothing and ends at once. Nothing else changes. |
| Transcriber.Flatten | dictat.py:201-203 | The queued results as the drain writes them: empty exactly when nothing is queued, at least one character per result, and ending in a space when anything is queued. |
| Transcriber.ShowAll | dictat.py:198-207 | One check for results in a single step: the queue ends empty, transcript plus queued text is the same before and after, and nothing else changes. |
| Transcriber.FlattenIsJoin | dictat.py:202-203 | Showing queued results adds them joined by single spaces, plus one final space. |
| Transcriber.ShowResults | dictat.py:198-207 | The drain leaves the queue empty and appends every queued result to the transcript, front first, each followed by one space. The old transcript stays as the prefix and nothing else changes. |
| Trace.Step | dictat.py:112-207 | One event of the window: only a microphone press changes listening, only a language pick changes the language, a `listen` result with no loop running changes nothing, and a microphone that cannot be opened or calibrated takes its loop off the running count and changes nothing else. |
| Trace.StepDelivers | dictat.py:171-207 | Every event but a clear adds to the delivered text (transcript plus queue) exactly what it brings. Only recognised words bring anything. |
| Trace.NothingLost | dictat.py:177-207 | Over any interleaving of events without a clear, the delivered text grows by exactly the post-processed recognised texts, in the order the workers answered (the user's own typing in the text area is not among the events). |
| Trace.ShownInOrder | dictat.py:198-207 | After any events without a clear, a final check for results shows every recognised text in the transcript, in arrival order, and empties the queue (again leaving out the user's own typing). |
| Trace.CaptureLoopIsRun | dictat.py:147-164 | While the microphone stays on, a capture loop is its `listen` results arriving as events one by one: up to the first failure nothing changes, and the failure sets "Error: <msg>" and takes the loop off the running count. |
| Trace.ListeningFollowsPresses | dictat.py:120-164 | After any events, listening has flipped once per microphone press. Nothing else, a failing capture loop included, changes it. |
| Trace.StaysWellFormed | dictat.py:112-117 | The code handed to the recogniser is always one of the table's. |
| Trace.StaysConsistent | dictat.py:112-117 | Once the combo box and the recogniser agree, they keep agreeing. |
| Trace.PickingAligns | dictat.py:112-117 | After a language is picked, the combo box and the recogniser agree from then on, whatever came before. |

## Left out

- Widgets, images, layout and the scrollbar (dictat.py:48-109) are not modelled: they are presentation only. The transcript area is a string. Its scroll to the end and its final newline are reduced to what `Save` sees.
- Threads and timing are not modelled directly. This covers daemon threads, `join(timeout=1)` and the `root.after` schedules, including the extra check that a language change schedules (dictat.py:118). Instead, `Trace` lets events interleave in any order.
- Workers and the capture loop report failures through `root.after(0, …)` (dictat.py:163, 182-186). The model applies such a status update when the worker's answer event or the loop's `listen` event occurs, not later on the Tk thread.
- The microphone's `listen` and `recognize_google` are foreign calls. Their outcomes are the `ListenResult` and `Recognition` values.
- Opening the microphone and calibrating it (dictat.py:145-147) are foreign calls outside the loop's `try`. Their only modelled outcome is failure, the `MicrophoneUnavailable` event of `Trace`: the capture thread dies with an uncaught exception, no "Error: <msg>" is shown, listening stays on and the status keeps reading "Escoltant [..]"; the model takes that loop off the running count. The traceback Python prints for the dead thread is not modelled. A successful calibration changes nothing the model tracks.
- The language code passed to the recogniser (dictat.py:176) is not modelled. The model does not say what the service does with it.
- The worker's return value (dictat.py:188) is not modelled: nothing reads it.
- The file dialog and the file write are not modelled as I/O. Their outcomes are the `path` and `result` parameters of `Save`. The dialog's title and filters are not modelled.
- `Strings.ReplaceAll` requires a non-empty pattern. Python's behaviour for an empty pattern is not modelled, because every pattern the program uses is non-empty.
- The transcript area is an editable text widget (dictat.py:91): the user can type into it or delete from it, and saving writes whatever it holds. Such edits are not modelled, so `Trace.NothingLost` and `Trace.ShownInOrder` speak only of what the program itself puts there.
- `Trace` uses the intended microphone button, `Transcriber.ToggleMicrophone`; the button as written is modelled on its own by `Transcriber.ToggleMicrophoneAsWritten` (see Findings).
- Capture loops are counted in `captureLoops` but not identified. With two loops running after quick presses, a `listen` result is not tied to one particular loop.
- `Strings.Whitespace` is the set of characters for which Python's `str.isspace()` holds. Unicode details beyond that set are not modelled.

## Notes on the code

Behaviour of the code that a reader might not expect (the model follows the code, except for the microphone button, which is listed under Findings and modelled both ways):

- Words "cierra paréntesis" at the very end of a text, with no space after them, are kept. Every phrase ends with a space, so a phrase at the very end is not replaced. The rest of the text is still processed, so "a abre paréntesis cierra paréntesis" becomes "a (cierra paréntesis" (`TextPostprocessor.TrailingClosingKept`); after a single word the whole text comes back unchanged (`TextPostprocessor.TrailingPhraseKept`).
- The post-processor is not idempotent. "x punto punto y" becomes "x. punto y", and a second run gives "x.. y" (`TextPostprocessor.NotIdempotent`).
- Only recognised text is queued. Every failure goes to the status line instead (`Transcriber.HandleRecognition`).
- The microphone button is one toggle, not separate start and stop actions.
- Clearing resets the status to "Fes clic al micròfon" (dictat.py:219) even while the microphone is on, so a listening window that was just cleared shows the same message as an idle one (`Transcriber.Clear`).
- The window opens with the combo box on Català while recognition is set to `es-ES` (`Languages.InitialChoiceMismatch`).
- A failing capture loop leaves the microphone reading as on (`Transcriber.CaptureStep`, `Trace.ListeningFollowsPresses`).

## Findings

| source | as written | input that shows it | evidently intended | confidence | as-written member | corrected member |
|---|---|---|---|---|---|---|
| dictat.py:103 | `self.micro_button` is bound to the result of `.pack(...)`, which is `None`, so `self.micro_button.config(...)` at dictat.py:126 and dictat.py:134 raises right after `escolta` is flipped: switching on never starts the capture thread, and switching off never restores the default message. | Two presses of the microphone button from the opened window: listening ends off, the status still reads "Escoltant [Català]", and no capture loop was ever started. | Keep the button object and `pack` it separately, so switching on starts the capture loop and switching off restores the default message. | not executed | Transcriber.ToggleMicrophoneAsWritten, Transcriber.TogglePressesAsWritten | Transcriber.ToggleMicrophone, Transcriber.ToggleTwice |
