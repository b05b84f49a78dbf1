/** Continuous recognition (speech_to_text_with_timestamps): the engine's events collected
    into raw captions by two handlers, the wait for the session to end, and the conversion
    of every collected caption to timestamps. */
module Recognition {
  import opened Captions

  /** The part of the engine's result reason the handler looks at. */
  datatype Reason = RecognizedSpeech | NoMatch | OtherReason

  /** A recognition result: reason, text, and offset and duration in 100-ns ticks. */
  datatype SpeechResult = SpeechResult(reason: Reason, text: string, offset: int, duration: int)

  /** The events the handlers are connected to. */
  datatype Event =
    | Recognized(result: SpeechResult)
    | SessionStarted
    | SessionStopped
    | Canceled

  /** What the handlers share: the caption list and the done flag. */
  datatype State = State(captions: seq<Caption>, done: bool)

  /** session_stopped and canceled both go to the session handler, which ends the wait. */
  predicate Terminal(e: Event)
  {
    e.SessionStopped? || e.Canceled?
  }

  /** A result the recognised handler keeps. */
  predicate IsSpeech(e: Event)
  {
    e.Recognized? && e.result.reason == RecognizedSpeech
  }

  /** The caption the recognised handler appends for a kept result. */
  function RawOf(r: SpeechResult): Caption
  {
    Raw(r.text, r.offset, r.duration)
  }

  /** One event delivered to the handler connected to it: the captions gain at most one
      entry at the end, and the wait ends exactly on a terminal event. */
  function Step(s: State, e: Event): (r: State)
    ensures |s.captions| <= |r.captions| <= |s.captions| + 1
    ensures r.captions[..|s.captions|] == s.captions
    ensures r.done == (s.done || Terminal(e))
  {
    match e
    case Recognized(r) => if r.reason == RecognizedSpeech then State(s.captions + [RawOf(r)], s.done) else s
    case SessionStarted => s
    case SessionStopped => State(s.captions, true)
    case Canceled => State(s.captions, true)
  }

  /** The events of a trace delivered one after the other. */
  function Run(s: State, trace: seq<Event>): State
    decreases |trace|
  {
    if trace == [] then s else Step(Run(s, trace[..|trace| - 1]), trace[|trace| - 1])
  }

  /** Independently of the handlers: the captions of the kept results, in emission order. */
  function Speech(trace: seq<Event>): (cs: seq<Caption>)
    ensures |cs| <= |trace|
    ensures AllRaw(cs)
  {
    if trace == [] then []
    else (if IsSpeech(trace[0]) then [RawOf(trace[0].result)] else []) + Speech(trace[1..])
  }

  /** Speech distributes over concatenation of traces. */
  lemma {:induction false} SpeechAppend(t: seq<Event>, u: seq<Event>)
    ensures Speech(t + u) == Speech(t) + Speech(u)
    decreases |t|
  {
    if t == [] {
      assert t + u == u;
    } else {
      var head := if IsSpeech(t[0]) then [RawOf(t[0].result)] else [];
      assert (t + u)[0] == t[0];
      assert (t + u)[1..] == t[1..] + u;
      assert Speech(t + u) == head + Speech(t[1..] + u);
      SpeechAppend(t[1..], u);
      assert Speech(t) == head + Speech(t[1..]);
    }
  }

  /** Delivering a trace appends exactly the kept results' captions, in emission order, and
      never removes or reorders what was there. */
  lemma {:induction false} RunCollectsSpeech(s: State, trace: seq<Event>)
    ensures Run(s, trace).captions == s.captions + Speech(trace)
    decreases |trace|
  {
    if trace != [] {
      var init, last := trace[..|trace| - 1], trace[|trace| - 1];
      assert trace == init + [last];
      RunCollectsSpeech(s, init);
      SpeechAppend(init, [last]);
      assert [last][1..] == [];
    }
  }

  /** The session is done exactly when it was already done or some event of the trace was a
      session_stopped or canceled. */
  lemma {:induction false} RunDone(s: State, trace: seq<Event>)
    ensures Run(s, trace).done <==> s.done || exists i :: 0 <= i < |trace| && Terminal(trace[i])
    decreases |trace|
  {
    if trace != [] {
      var init := trace[..|trace| - 1];
      RunDone(s, init);
      if exists i :: 0 <= i < |init| && Terminal(init[i]) {
        var i :| 0 <= i < |init| && Terminal(init[i]);
        assert trace[i] == init[i];
      }
      if exists i :: 0 <= i < |trace| && Terminal(trace[i]) {
        var i :| 0 <= i < |trace| && Terminal(trace[i]);
        if i < |init| {
          assert init[i] == trace[i];
        }
      }
    }
  }

  /** A result whose reason is not RecognizedSpeech (NoMatch among them) adds nothing, and
      neither does any other event that is not a kept result. */
  lemma NotSpeechAddsNothing(trace: seq<Event>, e: Event)
    requires !IsSpeech(e)
    ensures Speech(trace + [e]) == Speech(trace)
    ensures Run(State([], false), trace + [e]).captions == Run(State([], false), trace).captions
  {
    SpeechAppend(trace, [e]);
    assert [e][1..] == [];
    RunCollectsSpeech(State([], false), trace + [e]);
    RunCollectsSpeech(State([], false), trace);
  }

  /** A kept result adds one caption with its text, offset and duration, at the end. */
  lemma SpeechAddsOne(trace: seq<Event>, r: SpeechResult)
    requires r.reason == RecognizedSpeech
    ensures Speech(trace + [Recognized(r)]) == Speech(trace) + [Raw(r.text, r.offset, r.duration)]
  {
    SpeechAppend(trace, [Recognized(r)]);
    assert [Recognized(r)][1..] == [];
  }

  /** Every collected caption comes from a kept result of the trace. */
  lemma {:induction false} SpeechFromResults(trace: seq<Event>)
    ensures forall c :: c in Speech(trace) ==>
              exists i :: 0 <= i < |trace| && IsSpeech(trace[i]) && c == RawOf(trace[i].result)
    decreases |trace|
  {
    if trace != [] {
      var rest := trace[1..];
      SpeechFromResults(rest);
      var head := if IsSpeech(trace[0]) then [RawOf(trace[0].result)] else [];
      forall c | c in Speech(trace)
        ensures exists i :: 0 <= i < |trace| && IsSpeech(trace[i]) && c == RawOf(trace[i].result)
      {
        if c in head {
          assert IsSpeech(trace[0]) && c == RawOf(trace[0].result);
        } else {
          assert c in Speech(rest);
          var j :| 0 <= j < |rest| && IsSpeech(rest[j]) && c == RawOf(rest[j].result);
          assert trace[j + 1] == rest[j];
        }
      }
    }
  }

  /** As many captions are collected from the first n events as there are kept results
      among them. */
  lemma {:induction false} SpeechCount(trace: seq<Event>, n: nat)
    requires n <= |trace|
    ensures |Speech(trace[..n])| == |set i | 0 <= i < n && IsSpeech(trace[i])|
  {
    if n > 0 {
      SpeechCount(trace, n - 1);
      assert trace[..n] == trace[..n - 1] + [trace[n - 1]];
      SpeechAppend(trace[..n - 1], [trace[n - 1]]);
      assert [trace[n - 1]][1..] == [];
      var before := set i | 0 <= i < n - 1 && IsSpeech(trace[i]);
      var upTo := set i | 0 <= i < n && IsSpeech(trace[i]);
      if IsSpeech(trace[n - 1]) {
        assert upTo == before + {n - 1};
      } else {
        assert upTo == before;
      }
    }
  }

  /** How the wait ends: once done, the collected captions are converted and returned; with
      no session_stopped or canceled event the busy-wait never ends. */
  datatype Outcome = Completed(captions: seq<Caption>) | Stalled

  /** The whole of speech_to_text_with_timestamps for the events the engine delivers before
      recognition is stopped. */
  function Recognize(trace: seq<Event>): (o: Outcome)
    ensures o.Completed? <==> exists i :: 0 <= i < |trace| && Terminal(trace[i])
    ensures o.Completed? ==> o.captions == Timeline(Speech(trace))
  {
    var s := Run(State([], false), trace);
    RunCollectsSpeech(State([], false), trace);
    RunDone(State([], false), trace);
    assert s.captions == Speech(trace);
    if s.done then Completed(Timeline(s.captions)) else Stalled
  }

  /** A session that starts and stops with no speech gives no captions. */
  lemma SilentSession()
    ensures Recognize([SessionStarted, SessionStopped]) == Completed([])
  {
    var trace := [SessionStarted, SessionStopped];
    assert Terminal(trace[1]);
    assert trace[1..] == [SessionStopped] && trace[1..][1..] == [];
    assert Speech(trace) == [];
  }

  /** The handlers' shared state, as the closures see it. */
  class Session {
    var captions: seq<Caption>
    var done: bool

    /** A fresh recognition: an empty list, not done. */
    constructor ()
      ensures captions == [] && !done
    {
      captions := [];
      done := false;
    }

    function Snapshot(): State
      reads this
    {
      State(captions, done)
    }

    /** recognized_handler: appends the result's text, offset and duration when the reason is
        RecognizedSpeech, and only logs otherwise. */
    method OnRecognized(r: SpeechResult)
      modifies this
      ensures Snapshot() == Step(old(Snapshot()), Recognized(r))
      ensures r.reason == RecognizedSpeech ==> captions == old(captions) + [Raw(r.text, r.offset, r.duration)]
      ensures r.reason != RecognizedSpeech ==> captions == old(captions)
      ensures done == old(done)
    {
      if r.reason == RecognizedSpeech {
        captions := captions + [RawOf(r)];
      }
    }

    /** session_event_handler, connected to session_stopped and canceled: sets done. */
    method OnSessionEvent()
      modifies this
      ensures captions == old(captions) && done
    {
      done := true;
    }

    /** One event to the handler connected to it; session_started is only logged. */
    method Deliver(e: Event)
      modifies this
      ensures Snapshot() == Step(old(Snapshot()), e)
    {
      match e
      case Recognized(r) => OnRecognized(r);
      case SessionStarted =>
      case SessionStopped => OnSessionEvent();
      case Canceled => OnSessionEvent();
    }

    /** The engine delivering a whole trace, one event at a time. */
    method Listen(trace: seq<Event>)
      modifies this
      ensures Snapshot() == Run(old(Snapshot()), trace)
    {
      var k := 0;
      while k < |trace|
        invariant 0 <= k <= |trace|
        invariant Snapshot() == Run(old(Snapshot()), trace[..k])
      {
        Deliver(trace[k]);
        assert trace[..k + 1][..k] == trace[..k];
        k := k + 1;
      }
      assert trace[..k] == trace;
    }

    /** The conversion loop: each caption in turn, in place, gets its start and end
        timestamps and loses its offset and duration. */
    method ConvertTimestamps()
      requires AllRaw(captions)
      modifies this
      ensures captions == Timeline(old(captions)) && done == old(done)
    {
      var k := 0;
      while k < |captions|
        invariant 0 <= k <= |captions| == |old(captions)|
        invariant done == old(done)
        invariant forall i :: 0 <= i < k ==> captions[i] == ToTimed(old(captions)[i])
        invariant forall i :: k <= i < |captions| ==> captions[i] == old(captions)[i]
      {
        captions := captions[k := ToTimed(captions[k])];
        k := k + 1;
      }
    }
  }

  /** speech_to_text_with_timestamps: a fresh session, the trace delivered, the wait, then the
      conversion of the collected list. */
  method SpeechToText(trace: seq<Event>) returns (o: Outcome)
    ensures o == Recognize(trace)
  {
    var session := new Session();
    session.Listen(trace);
    if !session.done {
      return Stalled;
    }
    RunCollectsSpeech(State([], false), trace);
    session.ConvertTimestamps();
    o := Completed(session.captions);
  }
}
