/**
  The window over time: the user's clicks, the capture loops' `listen`
  results, the recognition workers' answers and the periodic check for
  results, interleaved in any order.
 */
module Trace {
  import opened Strings
  import opened Languages
  import opened Status
  import opened TextPostprocessor
  import opened Transcriber

  datatype Event =
    | PressMicrophone
    | PickLanguage(lang: Language)
    | PressClear
    | PressSave(path: string, result: WriteResult)
    | CheckResults                     // the periodic check for results fires
    | Listen(heard: ListenResult)      // a running capture loop's `listen` returns
    | MicrophoneUnavailable            // opening or calibrating the microphone raises
    | Answer(answer: Recognition)      // a recognition worker finishes

  /**
    What one event does. A `listen` result with no capture loop running has
    nobody to go to and changes nothing; a loop that fails, or finds
    listening off when its turn ends, stops. A capture thread that cannot
    open or calibrate the microphone dies before its loop starts: it stops
    counting, and neither the status nor listening changes.
   */
  function Step(s: Session, e: Event): (r: Session)
    ensures r.listening == (s.listening != e.PressMicrophone?)
    ensures !e.PickLanguage? ==> r.selectedLanguage == s.selectedLanguage && r.shown == s.shown
    ensures e.MicrophoneUnavailable? && s.captureLoops > 0 ==>
              r == s.(captureLoops := s.captureLoops - 1)
    ensures e.Listen? && s.captureLoops == 0 ==> r == s
  {
    match e
    case PressMicrophone => ToggleMicrophone(s)
    case PickLanguage(l) => ChooseLanguage(s, l)
    case PressClear => Clear(s)
    case PressSave(path, result) => Save(s, path, result).after
    case CheckResults => ShowAll(s)
    case Listen(heard) =>
      if s.captureLoops == 0 then s
      else
        var turn := CaptureStep(s, heard);
        var loops := if turn.goesOn && s.listening then s.captureLoops else s.captureLoops - 1;
        turn.after.(captureLoops := loops)
    case Answer(answer) => HandleRecognition(s, answer)
    case MicrophoneUnavailable =>
      if s.captureLoops == 0 then s else s.(captureLoops := s.captureLoops - 1)
  }

  /** The window after the events `es`, in order. */
  function Run(s: Session, es: seq<Event>): Session
    decreases |es|
  {
    if es == [] then s else Run(Step(s, es[0]), es[1..])
  }

  /** Everything recognized so far: what the transcript shows and what waits to be shown. */
  function Delivered(s: Session): string
  {
    s.transcript + Flatten(s.queue)
  }

  /** The post-processed text an event brings: only a worker's recognized words bring any. */
  function Brings(e: Event): seq<string>
  {
    if e.Answer? && e.answer.Recognized? then [PostProcess(e.answer.text)] else []
  }

  /** The post-processed texts the workers' answers in `es` bring, in order of arrival. */
  function Accepted(es: seq<Event>): seq<string>
  {
    if es == [] then [] else Brings(es[0]) + Accepted(es[1..])
  }

  predicate NoClear(es: seq<Event>)
  {
    forall i :: 0 <= i < |es| ==> !es[i].PressClear?
  }

  /** Every event but a clear adds to what has been delivered exactly the text it brings. */
  lemma StepDelivers(s: Session, e: Event)
    requires !e.PressClear?
    ensures Delivered(Step(s, e)) == Delivered(s) + Flatten(Brings(e))
  {
    if e.Answer? {
      AnswerDelivers(s, e.answer);
    } else {
      assert Delivered(Step(s, e)) == Delivered(s) by {
        KeepsDelivered(s, e);
      }
      assert Flatten(Brings(e)) == [];
    }
  }

  /** A worker's answer adds its post-processed words, if any, at the end of what has been delivered. */
  lemma AnswerDelivers(s: Session, answer: Recognition)
    ensures Delivered(HandleRecognition(s, answer)) == Delivered(s) + Flatten(Brings(Answer(answer)))
  {
    if answer.Recognized? {
      var text := PostProcess(answer.text);
      FlattenConcat(s.queue, [text]);
      ConcatAssoc(s.transcript, Flatten(s.queue), Flatten([text]));
    } else {
      assert Flatten(Brings(Answer(answer))) == [];
    }
  }

  /** Events other than a clear or an answer move delivered text around at most. */
  lemma KeepsDelivered(s: Session, e: Event)
    requires !e.PressClear? && !e.Answer?
    ensures Delivered(Step(s, e)) == Delivered(s)
  {
    match e
    case CheckResults =>
      ConcatAssoc(s.transcript, Flatten(s.queue), Flatten([]));
    case PressSave(path, result) =>
      assert Step(s, e).queue == s.queue && Step(s, e).transcript == s.transcript;
    case _ =>
  }

  lemma {:induction false} AcceptedConcat(a: seq<Event>, b: seq<Event>)
    ensures Accepted(a + b) == Accepted(a) + Accepted(b)
  {
    if a == [] {
      assert a + b == b;
    } else {
      var ab := a + b;
      assert Accepted(ab) == Brings(a[0]) + Accepted(a[1..] + b) by {
        assert ab[0] == a[0] && ab[1..] == a[1..] + b;
      }
      AcceptedConcat(a[1..], b);
      ConcatAssoc(Brings(a[0]), Accepted(a[1..]), Accepted(b));
    }
  }

  /**
    Without a clear, no recognized text is lost, duplicated or reordered:
    what has been delivered grows by exactly the accepted texts, in the order
    the workers answered, whatever else happens in between, stopping the
    microphone included.
   */
  lemma {:induction false} NothingLost(s: Session, es: seq<Event>)
    requires NoClear(es)
    ensures Delivered(Run(s, es)) == Delivered(s) + Flatten(Accepted(es))
    decreases |es|
  {
    if es != [] {
      var t := Step(s, es[0]);
      var u := Run(t, es[1..]);
      assert Delivered(t) == Delivered(s) + Flatten(Brings(es[0])) by {
        StepDelivers(s, es[0]);
      }
      assert Delivered(u) == Delivered(t) + Flatten(Accepted(es[1..])) by {
        NothingLost(t, es[1..]);
      }
      DeliveredChains(s, t, es[0], es[1..], u);
      assert es == [es[0]] + es[1..];
    }
  }

  /** One event's delivery followed by the rest's adds up to the delivery of all of them. */
  lemma DeliveredChains(s: Session, t: Session, e: Event, rest: seq<Event>, u: Session)
    requires Delivered(t) == Delivered(s) + Flatten(Brings(e))
    requires Delivered(u) == Delivered(t) + Flatten(Accepted(rest))
    ensures Delivered(u) == Delivered(s) + Flatten(Accepted([e] + rest))
  {
    var es := [e] + rest;
    assert Accepted(es) == Brings(e) + Accepted(rest) by {
      assert es[0] == e && es[1..] == rest;
    }
    assert Flatten(Accepted(es)) == Flatten(Brings(e)) + Flatten(Accepted(rest)) by {
      FlattenConcat(Brings(e), Accepted(rest));
    }
    ConcatAssoc(Delivered(s), Flatten(Brings(e)), Flatten(Accepted(rest)));
  }

  /** A final check for results shows everything delivered in the transcript, in arrival order. */
  lemma ShownInOrder(s: Session, es: seq<Event>)
    requires NoClear(es)
    ensures Run(s, es + [CheckResults]).transcript == Delivered(s) + Flatten(Accepted(es))
    ensures Run(s, es + [CheckResults]).queue == []
  {
    var r := Run(s, es);
    assert Run(s, es + [CheckResults]) == ShowAll(r) by {
      RunConcat(s, es, [CheckResults]);
      assert [CheckResults][1..] == [];
    }
    assert Delivered(r) == Delivered(s) + Flatten(Accepted(es)) by {
      NothingLost(s, es);
    }
  }

  lemma {:induction false} RunConcat(s: Session, a: seq<Event>, b: seq<Event>)
    ensures Run(s, a + b) == Run(Run(s, a), b)
    decreases |a|
  {
    if a == [] {
      assert a + b == b;
    } else {
      var ab := a + b;
      assert ab[0] == a[0] && ab[1..] == a[1..] + b;
      RunConcat(Step(s, a[0]), a[1..], b);
    }
  }

  /** The `listen` results of one capture loop, as events. */
  function Listens(results: seq<ListenResult>): (es: seq<Event>)
    ensures |es| == |results|
    ensures forall i :: 0 <= i < |results| ==> es[i] == Listen(results[i])
  {
    seq(|results|, i requires 0 <= i < |results| => Listen(results[i]))
  }

  /** While listening, results that are not failures leave the window as it is. */
  lemma {:induction false} QuietListens(s: Session, results: seq<ListenResult>)
    requires s.listening && s.captureLoops > 0
    requires forall i :: 0 <= i < |results| ==> !results[i].ListenFailed?
    ensures Run(s, Listens(results)) == s
    decreases |results|
  {
    if results != [] {
      var es := Listens(results);
      assert es[0] == Listen(results[0]);
      assert es[1..] == Listens(results[1..]);
      assert Step(s, es[0]) == s;
      QuietListens(s, results[1..]);
    }
  }

  /**
    A capture loop is the same thing as its `listen` results arriving as
    events while the microphone stays on: up to the first failure nothing
    changes; the failure sets the status and the loop stops counting.
   */
  lemma CaptureLoopIsRun(s: Session, results: seq<ListenResult>)
    requires s.listening && s.captureLoops > 0
    ensures FirstFailure(results).None? ==> Run(s, Listens(results)) == s
    ensures FirstFailure(results).Some? ==>
              var k := FirstFailure(results).value;
              Run(s, Listens(results[..k + 1])) ==
                s.(status := CaptureError(results[k].msg), captureLoops := s.captureLoops - 1)
  {
    var first := FirstFailure(results);
    if first.None? {
      QuietListens(s, results);
    } else {
      FailingLoopRun(s, results, first.value);
    }
  }

  /** The run of a loop's results up to and including its first failure, at `k`. */
  lemma FailingLoopRun(s: Session, results: seq<ListenResult>, k: nat)
    requires s.listening && s.captureLoops > 0
    requires k < |results| && results[k].ListenFailed?
    requires forall i :: 0 <= i < k ==> !results[i].ListenFailed?
    ensures Run(s, Listens(results[..k + 1])) ==
              s.(status := CaptureError(results[k].msg), captureLoops := s.captureLoops - 1)
  {
    var quiet := Listens(results[..k]);
    var last := [Listen(results[k])];
    assert Listens(results[..k + 1]) == quiet + last;
    assert Run(s, quiet) == s by {
      QuietListens(s, results[..k]);
    }
    assert Run(s, quiet + last) == Run(s, last) by {
      RunConcat(s, quiet, last);
    }
    assert Run(s, last) == Step(s, last[0]) by {
      assert last[1..] == [];
    }
    FailedListenStep(s, results[k]);
  }

  /** A failed `listen` stops a loop that is counted: the error shows and the loop stops counting. */
  lemma FailedListenStep(s: Session, heard: ListenResult)
    requires s.captureLoops > 0 && heard.ListenFailed?
    ensures Step(s, Listen(heard)) ==
              s.(status := CaptureError(heard.msg), captureLoops := s.captureLoops - 1)
  {
  }

  /** How many times `es` presses the microphone button. */
  function Presses(es: seq<Event>): nat
  {
    if es == [] then 0 else (if es[0].PressMicrophone? then 1 else 0) + Presses(es[1..])
  }

  /**
    Only the microphone button changes whether the window listens: after any
    events, listening is flipped once per press. In particular a failing
    capture loop leaves the microphone on.
   */
  lemma {:induction false} ListeningFollowsPresses(s: Session, es: seq<Event>)
    ensures Run(s, es).listening == (s.listening != (Presses(es) % 2 == 1))
    decreases |es|
  {
    if es != [] {
      ListeningFollowsPresses(Step(s, es[0]), es[1..]);
    }
  }

  /** The code handed to the recognizer is always one of the table's. */
  lemma {:induction false} StaysWellFormed(s: Session, es: seq<Event>)
    requires WellFormed(s)
    ensures WellFormed(Run(s, es))
    decreases |es|
  {
    if es != [] {
      StaysWellFormed(Step(s, es[0]), es[1..]);
    }
  }

  /**
    Once a language has been picked, the combo box and the recognizer agree
    from then on; before that, the opened window's mismatch stays until a
    language is picked.
   */
  lemma {:induction false} StaysConsistent(s: Session, es: seq<Event>)
    requires Consistent(s)
    ensures Consistent(Run(s, es))
    decreases |es|
  {
    if es != [] {
      StaysConsistent(Step(s, es[0]), es[1..]);
    }
  }

  /** Picking a language makes the window consistent, whatever came before. */
  lemma PickingAligns(s: Session, l: Language, es: seq<Event>)
    ensures Consistent(Run(s, [PickLanguage(l)] + es))
  {
    assert ([PickLanguage(l)] + es)[0] == PickLanguage(l);
    assert ([PickLanguage(l)] + es)[1..] == es;
    StaysConsistent(ChooseLanguage(s, l), es);
  }
}
