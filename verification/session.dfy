/**
  The transcriber window's state and the events that change it, with the
  widgets, threads and foreign calls taken out: the microphone's and the
  recognizer's answers arrive as values, and the file dialog's choice and
  the file write's outcome are parameters.
 */
module Transcriber {
  import opened Wrappers
  import opened Strings
  import opened Languages
  import opened Status
  import opened TextPostprocessor

  /** A captured phrase; the model never looks inside it. */
  datatype Audio = Audio(id: nat)

  /** What one `listen` call on the microphone gives back. */
  datatype ListenResult =
    | Heard(audio: Audio)         // a phrase was captured
    | WaitTimedOut                // nobody spoke within the wait
    | ListenFailed(msg: string)   // any other failure, with its message

  /** What the recognition service answers for one phrase. */
  datatype Recognition =
    | Recognized(text: string)    // the words it heard
    | Unintelligible              // it could not make out any words
    | ServiceFailed(msg: string)  // the request to the service failed
    | Failed(msg: string)         // anything else went wrong

  /** What writing the transcript to a file gives back. */
  datatype WriteResult = Written | WriteFailed(msg: string)

  /**
    The window's state: whether the microphone is on (`escolta`), the
    status line, the language code handed to the recognizer, the language
    the combo box shows, the transcript area's text, the results waiting to
    be shown (front first), and how many capture loops are still running.
   */
  datatype Session = Session(
    listening: bool,
    status: Status,
    selectedLanguage: string,
    shown: Language,
    transcript: string,
    queue: seq<string>,
    captureLoops: nat)

  /** The window as it opens. */
  const Initial: Session := Session(false, Prompt, InitialCode, InitialChoice, "", [], 0)

  /** The code handed to the recognizer is one the language table knows. */
  ghost predicate WellFormed(s: Session)
  {
    s.selectedLanguage in Table.Values
  }

  /** The combo box shows the language recognition is set to. */
  ghost predicate Consistent(s: Session)
  {
    Name(s.shown) in Table && Table[Name(s.shown)] == s.selectedLanguage
  }

  /** The opened window is well formed but shows a language it does not recognize in. */
  lemma InitialState()
    ensures WellFormed(Initial)
    ensures !Consistent(Initial)
    ensures !Initial.listening && Initial.transcript == [] && Initial.queue == []
    ensures Text(Initial.status) == "Fes clic al micròfon"
  {
    InitialChoiceMismatch();
  }

  // ---------------------------------------------------------------------
  // The microphone button.

  /**
    The microphone button as it is evidently meant to work (the code as
    written is `ToggleMicrophoneAsWritten`): when off, it turns listening
    on, names the combo's language in the status and starts a capture loop;
    when on, it turns listening off and puts back the default status. A
    running capture loop is not stopped here: it ends at its next turn.
   */
  function ToggleMicrophone(s: Session): (r: Session)
    ensures r.listening == !s.listening
    ensures r.listening ==> Text(r.status) == "Escoltant [" + Name(s.shown) + "]"
    ensures !r.listening ==> Text(r.status) == "Fes clic al micròfon"
    ensures r.captureLoops == if r.listening then s.captureLoops + 1 else s.captureLoops
    ensures r.selectedLanguage == s.selectedLanguage && r.shown == s.shown
    ensures r.transcript == s.transcript && r.queue == s.queue
  {
    if !s.listening then
      s.(listening := true, status := Listening(s.shown), captureLoops := s.captureLoops + 1)
    else
      s.(listening := false, status := Prompt)
  }

  /** Two presses put listening back as it was; only the status and the loop count can differ. */
  lemma ToggleTwice(s: Session)
    ensures ToggleMicrophone(ToggleMicrophone(s)).listening == s.listening
    ensures ToggleMicrophone(ToggleMicrophone(s)).(status := s.status, captureLoops := s.captureLoops) == s
    ensures ToggleMicrophone(ToggleMicrophone(s)).captureLoops == s.captureLoops + 1
  {
  }

  /**
    The microphone button as the program is written. The button's handle is
    the result of `pack()`, which is `None`, so changing its image raises
    right after listening has been flipped: switching on sets the listening
    status but starts no capture loop, and switching off never puts back the
    default status. Tk reports the error and the window carries on.
   */
  function ToggleMicrophoneAsWritten(s: Session): (r: Session)
    ensures r.listening == !s.listening
    ensures r.listening ==> Text(r.status) == "Escoltant [" + Name(s.shown) + "]"
    ensures !r.listening ==> r.status == s.status
    ensures r.captureLoops == s.captureLoops
    ensures r.(listening := s.listening, status := s.status) == s
  {
    if !s.listening then s.(listening := true, status := Listening(s.shown))
    else s.(listening := false)
  }

  /**
    Two presses on the button as written, from the opened window, leave the
    status naming Català and no capture loop ever started; the intended
    toggle puts back the default message and has started one loop.
   */
  lemma TogglePressesAsWritten()
    ensures ToggleMicrophoneAsWritten(ToggleMicrophoneAsWritten(Initial)).status == Listening(Catala)
    ensures ToggleMicrophoneAsWritten(ToggleMicrophoneAsWritten(Initial)).captureLoops == 0
    ensures ToggleMicrophone(ToggleMicrophone(Initial)).status == Prompt
    ensures ToggleMicrophone(ToggleMicrophone(Initial)).captureLoops == 1
  {
  }

  /** However often the button as written is pressed, no capture loop is ever started. */
  lemma {:induction false} NoLoopAsWritten(s: Session, presses: nat)
    ensures PressedAsWritten(s, presses).captureLoops == s.captureLoops
    decreases presses
  {
    if presses > 0 {
      NoLoopAsWritten(ToggleMicrophoneAsWritten(s), presses - 1);
    }
  }

  /** The window after `presses` presses on the button as written. */
  function PressedAsWritten(s: Session, presses: nat): Session
    decreases presses
  {
    if presses == 0 then s else PressedAsWritten(ToggleMicrophoneAsWritten(s), presses - 1)
  }

  // ---------------------------------------------------------------------
  // The language combo box.

  /**
    Picking a language in the combo box: the code handed to the recognizer
    becomes the table's code for it and the status names it. Listening is
    not interrupted.
   */
  function ChooseLanguage(s: Session, l: Language): (r: Session)
    ensures r.selectedLanguage == Code(l) && r.shown == l
    ensures Text(r.status) == "Idioma cambiat a: " + Name(l)
    ensures Consistent(r) && WellFormed(r)
    ensures r.(selectedLanguage := s.selectedLanguage, shown := s.shown, status := s.status) == s
  {
    TableMatchesChoices();
    s.(selectedLanguage := Table[Name(l)], shown := l, status := LanguageChanged(l))
  }

  // ---------------------------------------------------------------------
  // The clear button.

  /** Clearing empties the transcript and puts back the default status; pending results stay queued. */
  function Clear(s: Session): (r: Session)
    ensures r.transcript == [] && Text(r.status) == "Fes clic al micròfon"
    ensures r.(transcript := s.transcript, status := s.status) == s
  {
    s.(transcript := [], status := Prompt)
  }

  /** Results still queued when the transcript is cleared are the first thing the next check shows. */
  lemma ClearKeepsPending(s: Session)
    ensures ShowAll(Clear(s)).transcript == Flatten(s.queue)
    ensures ShowAll(Clear(s)).queue == []
  {
  }

  // ---------------------------------------------------------------------
  // The save button.

  /** A file the save button asks to be written, and the text to write. */
  datatype FileWrite = FileWrite(path: string, text: string)

  /** The session after a save, and the write it attempted, if any. */
  datatype SaveStep = SaveStep(after: Session, write: Option<FileWrite>)

  /**
    The save button. The transcript area hands back its text with a final
    newline; that text, stripped of whitespace at both ends, is what gets
    written. With nothing left after stripping, the status says so and no
    dialog opens. Otherwise `path` is the dialog's answer, empty when it was
    cancelled, and `result` is the outcome of writing the file.
   */
  function Save(s: Session, path: string, result: WriteResult): (r: SaveStep)
    ensures r.after.(status := s.status) == s
    ensures r.write.Some? ==> r.write.value.path == path != []
  {
    var text := Strip(s.transcript + "\n", Whitespace);
    if text == [] then
      SaveStep(s.(status := NothingToSave), None)
    else if path == [] then
      SaveStep(s, None)
    else
      var status := if result.Written? then Saved(path) else SaveError(result.msg);
      SaveStep(s.(status := status), Some(FileWrite(path, text)))
  }

  /** The text the save button works on is the transcript, stripped; the area's final newline changes nothing. */
  lemma SavedTextIsStrippedTranscript(s: Session)
    ensures Strip(s.transcript + "\n", Whitespace) == Strip(s.transcript, Whitespace)
    ensures Strip(s.transcript + "\n", Whitespace) == [] <==> AllIn(s.transcript, Whitespace)
  {
    assert '\n' in Whitespace;
    StripIgnoresTrailing(s.transcript, '\n', Whitespace);
  }

  /** With a transcript of only whitespace, saving writes nothing and says there is nothing to save. */
  lemma SaveNothing(s: Session, path: string, result: WriteResult)
    requires AllIn(s.transcript, Whitespace)
    ensures Save(s, path, result).write == None
    ensures Text(Save(s, path, result).after.status) == "No hi ha text per desar"
  {
    SavedTextIsStrippedTranscript(s);
    assert Strip(s.transcript + "\n", Whitespace) == [];
    assert Save(s, path, result) == SaveStep(s.(status := NothingToSave), None);
  }

  /** With text to save, cancelling the dialog changes nothing and writes nothing. */
  lemma SaveCancelled(s: Session, result: WriteResult)
    requires !AllIn(s.transcript, Whitespace)
    ensures Save(s, [], result) == SaveStep(s, None)
  {
    SavedTextIsStrippedTranscript(s);
  }

  /**
    With text to save and a file chosen, saving writes the stripped
    transcript to that file and reports how the write went.
   */
  lemma SaveWrites(s: Session, path: string, result: WriteResult)
    requires !AllIn(s.transcript, Whitespace) && path != []
    ensures Save(s, path, result).write == Some(FileWrite(path, Strip(s.transcript, Whitespace)))
    ensures Save(s, path, result).after.status == if result.Written? then Saved(path) else SaveError(result.msg)
  {
    SavedTextIsStrippedTranscript(s);
  }

  // ---------------------------------------------------------------------
  // A recognition worker's answer.

  /**
    A recognition worker's answer: recognized words are post-processed and
    queued at the back for the window to show, without touching the status;
    every failure sets its own status message and queues nothing.
   */
  function HandleRecognition(s: Session, answer: Recognition): (r: Session)
    ensures r.(queue := s.queue, status := s.status) == s
    ensures answer.Recognized? ==> r.queue == s.queue + [PostProcess(answer.text)] && r.status == s.status
    ensures !answer.Recognized? ==> r.queue == s.queue
    ensures answer.Unintelligible? ==>
              Text(r.status) == "No he pogut entendre l'àudio [" + Name(s.shown) + "]"
    ensures answer.ServiceFailed? ==> Text(r.status) == "Error en el servei: " + answer.msg
    ensures answer.Failed? ==> Text(r.status) == "Error inesperat: " + answer.msg
  {
    match answer
    case Recognized(text) => s.(queue := s.queue + [PostProcess(text)])
    case Unintelligible => s.(status := NotUnderstood(s.shown))
    case ServiceFailed(msg) => s.(status := ServiceError(msg))
    case Failed(msg) => s.(status := UnexpectedError(msg))
  }

  /** Two different failures leave two different status messages. */
  lemma FailuresDistinguishable(s: Session, a: Recognition, b: Recognition)
    requires !a.Recognized? && !b.Recognized? && a != b
    ensures Text(HandleRecognition(s, a).status) != Text(HandleRecognition(s, b).status)
  {
    TextInjective(HandleRecognition(s, a).status, HandleRecognition(s, b).status);
  }

  // ---------------------------------------------------------------------
  // The capture loop.

  /** One turn of a capture loop, and whether the loop goes on to another `listen`. */
  datatype CaptureTurn = CaptureTurn(after: Session, spawned: Option<Audio>, goesOn: bool)

  /**
    The body of the capture loop for one `listen` result: a phrase is handed
    to a new recognition worker, a wait that timed out is ignored, and any
    other failure is reported in the status and ends the loop. The loop
    never turns listening off itself, so after a failure the microphone
    still reads as on while nothing listens.
   */
  function CaptureStep(s: Session, heard: ListenResult): (r: CaptureTurn)
    ensures r.after.listening == s.listening
    ensures r.goesOn <==> !heard.ListenFailed?
    ensures r.spawned.Some? <==> heard.Heard?
    ensures heard.Heard? ==> r.spawned.value == heard.audio
    ensures heard.ListenFailed? ==> r.after == s.(status := CaptureError(heard.msg))
    ensures heard.ListenFailed? ==> Text(r.after.status) == "Error: " + heard.msg
    ensures !heard.ListenFailed? ==> r.after == s
  {
    match heard
    case Heard(a) => CaptureTurn(s, Some(a), true)
    case WaitTimedOut => CaptureTurn(s, None, true)
    case ListenFailed(msg) => CaptureTurn(s.(status := CaptureError(msg)), None, false)
  }

  /** The phrase `heard` holds, if any, as a sequence of at most one. */
  function PhraseOf(heard: ListenResult): seq<Audio>
  {
    if heard.Heard? then [heard.audio] else []
  }

  /** The phrases among `results`, in order. */
  function Phrases(results: seq<ListenResult>): (audios: seq<Audio>)
    ensures |audios| <= |results|
  {
    if results == [] then [] else PhraseOf(results[0]) + Phrases(results[1..])
  }

  lemma {:induction false} PhrasesConcat(a: seq<ListenResult>, b: seq<ListenResult>)
    ensures Phrases(a + b) == Phrases(a) + Phrases(b)
  {
    if a == [] {
      assert a + b == b;
    } else {
      var ab := a + b;
      assert ab[0] == a[0] && ab[1..] == a[1..] + b;
      PhrasesConcat(a[1..], b);
      assert Phrases(ab) == PhraseOf(a[0]) + (Phrases(a[1..]) + Phrases(b));
    }
  }

  /** The position of the first failure among `results`, if any. */
  function FirstFailure(results: seq<ListenResult>): (r: Option<nat>)
    ensures r.Some? ==> r.value < |results| && results[r.value].ListenFailed?
    ensures r.Some? ==> forall i :: 0 <= i < r.value ==> !results[i].ListenFailed?
    ensures r.None? ==> forall i :: 0 <= i < |results| ==> !results[i].ListenFailed?
  {
    if results == [] then None
    else if results[0].ListenFailed? then Some(0)
    else match FirstFailure(results[1..])
      case None => None
      case Some(k) => Some(k + 1)
  }

  /**
    A capture loop started on `s` and counted among its running loops, fed
    the microphone's `results` in turn while listening stays as it is. It
    takes results up to and including the first failure, hands every phrase
    among them to a worker in order, and changes nothing but the status and
    the loop count. A failure sets the status and ends the loop; so does
    finding listening off at the top of the loop. A loop that runs out of
    results while listening is still waiting in `listen`, and still counts.
   */
  method CaptureLoop(s: Session, results: seq<ListenResult>)
    returns (r: Session, spawned: seq<Audio>, used: nat)
    requires s.captureLoops > 0
    ensures used <= |results|
    ensures !s.listening ==> used == 0
    ensures s.listening ==>
              used == match FirstFailure(results) case Some(k) => k + 1 case None => |results|
    ensures spawned == Phrases(results[..used])
    ensures r.(status := s.status, captureLoops := s.captureLoops) == s
    ensures !s.listening ==> r == s.(captureLoops := s.captureLoops - 1)
    ensures used > 0 && results[used - 1].ListenFailed? ==>
              r.status == CaptureError(results[used - 1].msg) && r.captureLoops == s.captureLoops - 1
    ensures s.listening && (used == 0 || !results[used - 1].ListenFailed?) ==> r == s
  {
    r, spawned, used := s, [], 0;
    var goesOn := true;
    while r.listening && goesOn && used < |results|
      invariant LoopState(s, results, r, spawned, used, goesOn)
      invariant !s.listening ==> used == 0
    {
      var turn := CaptureStep(r, results[used]);
      LoopTurn(s, results, r, spawned, used, turn);
      r := turn.after;
      spawned := spawned + PhraseOf(results[used]);
      goesOn := turn.goesOn;
      used := used + 1;
    }
    if !r.listening || !goesOn {
      r := r.(captureLoops := r.captureLoops - 1);
    }
    if s.listening {
      FirstFailureFound(results, used);
    }
  }

  /**
    A capture loop after `used` results: the phrases among them went to
    workers, only the last of them can be a failure, and the loop goes on
    with the session unchanged unless that last one failed.
   */
  ghost predicate LoopState(s: Session, results: seq<ListenResult>, r: Session, spawned: seq<Audio>, used: nat, goesOn: bool)
  {
    && used <= |results|
    && spawned == Phrases(results[..used])
    && (forall i :: 0 <= i < used - 1 ==> !results[i].ListenFailed?)
    && (goesOn <==> (used == 0 || !results[used - 1].ListenFailed?))
    && r == if goesOn then s else s.(status := CaptureError(results[used - 1].msg))
  }

  /** One more turn of a running loop keeps its state described by `LoopState`. */
  lemma LoopTurn(s: Session, results: seq<ListenResult>, r: Session, spawned: seq<Audio>, used: nat, turn: CaptureTurn)
    requires LoopState(s, results, r, spawned, used, true) && used < |results|
    requires turn == CaptureStep(r, results[used])
    ensures LoopState(s, results, turn.after, spawned + PhraseOf(results[used]), used + 1, turn.goesOn)
  {
    var heard := results[used];
    assert Phrases(results[..used + 1]) == spawned + PhraseOf(heard) by {
      PhrasesConcat(results[..used], [results[used]]);
      assert results[..used + 1] == results[..used] + [heard];
    }
    assert forall i :: 0 <= i < used ==> !results[i].ListenFailed? by {
      assert used == 0 || !results[used - 1].ListenFailed?;
    }
    assert turn.after == if turn.goesOn then s else s.(status := CaptureError(heard.msg)) by {
      assert r == s;
    }
  }

  /** Where a loop that ran while listening stopped, in terms of `FirstFailure`. */
  lemma FirstFailureFound(results: seq<ListenResult>, used: nat)
    requires used <= |results| && (used == 0 ==> results == [])
    requires forall i :: 0 <= i < used - 1 ==> !results[i].ListenFailed?
    requires used < |results| ==> results[used - 1].ListenFailed?
    ensures (match FirstFailure(results) case Some(k) => k + 1 case None => |results|) == used
  {
    var f := FirstFailure(results);
    if used < |results| || (used > 0 && results[used - 1].ListenFailed?) {
      assert f.Some? && f.value == used - 1;
    } else {
      assert f.None?;
    }
  }

  // ---------------------------------------------------------------------
  // Showing queued results.

  /** The queued results as the transcript shows them: each followed by one space. */
  function Flatten(queue: seq<string>): (r: string)
    ensures r == [] <==> queue == []
    ensures |r| >= |queue|
    ensures queue != [] ==> r[|r| - 1] == ' '
  {
    if queue == [] then [] else queue[0] + " " + Flatten(queue[1..])
  }

  /** Flattening a queue is joining it with spaces and adding a final space. */
  lemma {:induction false} FlattenIsJoin(queue: seq<string>)
    ensures Flatten(queue) == if queue == [] then [] else Join(queue, " ") + " "
  {
    if |queue| > 1 {
      FlattenIsJoin(queue[1..]);
    }
  }

  lemma {:induction false} FlattenConcat(a: seq<string>, b: seq<string>)
    ensures Flatten(a + b) == Flatten(a) + Flatten(b)
  {
    if a == [] {
      assert a + b == b;
    } else {
      var ab := a + b;
      assert ab[0] == a[0] && ab[1..] == a[1..] + b;
      FlattenConcat(a[1..], b);
      assert Flatten(ab) == a[0] + " " + (Flatten(a[1..]) + Flatten(b));
    }
  }

  /** The window after showing every queued result. */
  function ShowAll(s: Session): (r: Session)
    ensures r.queue == []
    ensures r.transcript + Flatten(r.queue) == s.transcript + Flatten(s.queue)
    ensures r.(transcript := s.transcript, queue := s.queue) == s
  {
    s.(transcript := s.transcript + Flatten(s.queue), queue := [])
  }

  /**
    The periodic check for results: takes the queued results one by one,
    front first, and adds each to the end of the transcript followed by a
    space, until the queue is empty.
   */
  method ShowResults(s: Session) returns (r: Session)
    ensures r.queue == []
    ensures r.transcript == s.transcript + Flatten(s.queue)
    ensures r.(transcript := s.transcript, queue := s.queue) == s
    ensures r == ShowAll(s)
  {
    r := s;
    while r.queue != []
      invariant s.transcript + Flatten(s.queue) == r.transcript + Flatten(r.queue)
      invariant r.(transcript := s.transcript, queue := s.queue) == s
      decreases |r.queue|
    {
      var text := r.queue[0];
      assert r.queue == [text] + r.queue[1..];
      FlattenConcat([text], r.queue[1..]);
      r := r.(transcript := r.transcript + text + " ", queue := r.queue[1..]);
    }
  }
}
