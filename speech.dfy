/** The speech-recognition result handler: every final result from the
    event's result index onward whose transcript is the command word clears
    the canvas. */
module Speech {
  import opened Drawing
  import opened Transcript

  /** One recognition hypothesis. */
  datatype Alternative = Alternative(transcript: string)

  /** One recognition result: final or interim, with its hypotheses, best first. */
  datatype RecognitionResult = RecognitionResult(isFinal: bool, alternatives: seq<Alternative>)

  /** A result event: all results of the session so far, and the index of
      the first one that changed since the previous event. */
  datatype RecognitionEvent = RecognitionEvent(resultIndex: nat, results: seq<RecognitionResult>)

  /** The handler reads the best hypothesis of every final result it visits. */
  predicate Readable(r: RecognitionResult)
  {
    r.isFinal ==> r.alternatives != []
  }

  predicate EventReadable(ev: RecognitionEvent)
  {
    forall i :: ev.resultIndex <= i < |ev.results| ==> Readable(ev.results[i])
  }

  /** A result that makes the handler clear the canvas: a final result whose
      best transcript is the command. */
  predicate Fires(r: RecognitionResult)
  {
    r.isFinal && r.alternatives != [] && IsClearCommand(r.alternatives[0].transcript)
  }

  /** How many of the results with index in [lo, hi) satisfy `p`. */
  function CountBetween(rs: seq<RecognitionResult>, lo: nat, hi: nat,
                        p: RecognitionResult -> bool): (n: nat)
    requires hi <= |rs|
    ensures lo <= hi ==> n <= hi - lo
    ensures hi <= lo ==> n == 0
    ensures n == 0 <==> forall i :: lo <= i < hi ==> !p(rs[i])
    decreases hi
  {
    if hi <= lo then 0
    else CountBetween(rs, lo, hi - 1, p) + (if p(rs[hi - 1]) then 1 else 0)
  }

  /** The indices in [lo, hi) of the results that satisfy `p`. */
  ghost function IndicesBetween(rs: seq<RecognitionResult>, lo: nat, hi: nat,
                                p: RecognitionResult -> bool): set<nat>
    requires hi <= |rs|
  {
    set i: nat | lo <= i < hi && p(rs[i])
  }

  lemma {:induction false} CountBetweenIsCardinality(rs: seq<RecognitionResult>, lo: nat, hi: nat,
                                                     p: RecognitionResult -> bool)
    requires hi <= |rs|
    ensures CountBetween(rs, lo, hi, p) == |IndicesBetween(rs, lo, hi, p)|
    decreases hi
  {
    if hi <= lo {
      assert IndicesBetween(rs, lo, hi, p) == {};
    } else {
      CountBetweenIsCardinality(rs, lo, hi - 1, p);
      var last: set<nat> := if p(rs[hi - 1]) then {hi - 1} else {};
      assert IndicesBetween(rs, lo, hi, p) == IndicesBetween(rs, lo, hi - 1, p) + last;
      assert IndicesBetween(rs, lo, hi - 1, p) !! last;
    }
  }

  lemma {:induction false} CountBetweenSameRange(rs: seq<RecognitionResult>, us: seq<RecognitionResult>,
                                                 lo: nat, hi: nat, p: RecognitionResult -> bool)
    requires hi <= |rs| && hi <= |us|
    requires forall i :: lo <= i < hi ==> rs[i] == us[i]
    ensures CountBetween(rs, lo, hi, p) == CountBetween(us, lo, hi, p)
    decreases hi
  {
    if lo < hi {
      CountBetweenSameRange(rs, us, lo, hi - 1, p);
    }
  }

  lemma CountBetweenStep(rs: seq<RecognitionResult>, lo: nat, i: nat, p: RecognitionResult -> bool)
    requires lo <= i < |rs|
    ensures CountBetween(rs, lo, i + 1, p) == CountBetween(rs, lo, i, p) + (if p(rs[i]) then 1 else 0)
  {
  }

  /** How many times one event clears the canvas. */
  function ClearCount(ev: RecognitionEvent): nat
  {
    CountBetween(ev.results, ev.resultIndex, |ev.results|, Fires)
  }

  /** Does this event trigger a clear? */
  ghost predicate TriggersClear(ev: RecognitionEvent)
  {
    exists i :: ev.resultIndex <= i < |ev.results| && Fires(ev.results[i])
  }

  /** An event clears once per final result, from its result index on, whose
      normalised best transcript is the command. */
  lemma ClearCountIsMatchingResults(ev: RecognitionEvent)
    ensures ClearCount(ev) == |set i: nat | ev.resultIndex <= i < |ev.results| && Fires(ev.results[i])|
  {
    CountBetweenIsCardinality(ev.results, ev.resultIndex, |ev.results|, Fires);
    assert IndicesBetween(ev.results, ev.resultIndex, |ev.results|, Fires) ==
           set i: nat | ev.resultIndex <= i < |ev.results| && Fires(ev.results[i]);
  }

  /** An event clears at all exactly when some result it scans fires. */
  lemma ClearCountPositiveIffTriggers(ev: RecognitionEvent)
    ensures ClearCount(ev) > 0 <==> TriggersClear(ev)
  {
  }

  /** Interim results never clear, whatever their transcript. */
  lemma InterimResultsNeverClear(ev: RecognitionEvent)
    requires forall i :: ev.resultIndex <= i < |ev.results| ==> !ev.results[i].isFinal
    ensures ClearCount(ev) == 0
  {
  }

  /** Results before the event's result index are never looked at. */
  lemma EarlierResultsIgnored(ev: RecognitionEvent, earlier: seq<RecognitionResult>)
    requires |earlier| == ev.resultIndex <= |ev.results|
    ensures ClearCount(ev.(results := earlier + ev.results[ev.resultIndex..])) == ClearCount(ev)
  {
    var rs := earlier + ev.results[ev.resultIndex..];
    assert forall i :: ev.resultIndex <= i < |rs| ==> rs[i] == ev.results[i];
    CountBetweenSameRange(rs, ev.results, ev.resultIndex, |rs|, Fires);
  }

  /** One result as the callback handles it: a final result whose normalised
      best transcript is the command clears the sketch. */
  method HandleResult(sketch: Sketch, r: RecognitionResult) returns (fired: bool)
    requires Readable(r)
    modifies sketch
    ensures fired == Fires(r)
    ensures sketch.Current() == if fired then Cleared(old(sketch.Current())) else old(sketch.Current())
  {
    fired := false;
    if r.isFinal {
      var spokenWord := ToLower(Trim(r.alternatives[0].transcript));
      if spokenWord == Command {
        sketch.ClearCanvas();
        fired := true;
      }
    }
  }

  /** The recognition result callback, acting on the shared sketch; returns
      how many times it cleared the canvas. */
  method OnResult(sketch: Sketch, event: RecognitionEvent) returns (clears: nat)
    requires EventReadable(event)
    modifies sketch
    ensures clears == ClearCount(event)
    ensures sketch.Current() ==
              if clears > 0 then Cleared(old(sketch.Current())) else old(sketch.Current())
  {
    ghost var start := sketch.Current();
    clears := 0;
    var i := event.resultIndex;
    while i < |event.results|
      invariant event.resultIndex <= i
      invariant i <= |event.results| ==> clears == CountBetween(event.results, event.resultIndex, i, Fires)
      invariant i > |event.results| ==> clears == 0 && i == event.resultIndex
      invariant clears == 0 ==> sketch.Current() == start
      invariant clears > 0 ==> sketch.Current() == Cleared(start)
      decreases |event.results| - i
    {
      CountBetweenStep(event.results, event.resultIndex, i, Fires);
      var fired := HandleResult(sketch, event.results[i]);
      if fired {
        clears := clears + 1;
      }
      i := i + 1;
    }
    if i <= |event.results| {
      assert i == |event.results|;
    } else {
      assert ClearCount(event) == 0;
    }
  }
}
