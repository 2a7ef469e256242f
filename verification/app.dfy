/**
 The page as a whole: the session state together with the slider's
 debounce timer, and one dispatch function that routes each user or clock
 event to its handler, as the event listeners at the end of the script do.
 */
module App {
  import opened Optional
  import opened Seqs
  import opened Text
  import opened Debounce
  import opened Session

  /** Session state plus the pending debounced compression, if any. */
  datatype Page = Page(state: State, timer: Timer)

  /**
   The events the page reacts to. `Pick` is a drop or a file-picker change;
   `Slide` is an input event on the slider at a time; `Tick` is the clock
   reaching a time, which runs the debounced compression if it is due; the
   outcome fields say what the compression library gives back if called.
   */
  datatype Event =
    | Pick(files: seq<File>, outcome: Outcome)
    | Slide(at: int, value: Percent)
    | Tick(at: int, outcome: Outcome)
    | ClickDownload
    | ClickReset

  /** A page after an event, and the effects the event produced. */
  datatype Step = Step(page: Page, effects: seq<Effect>)

  /** The effects of a download click. */
  function DownloadEffects(r: DownloadResult): seq<Effect> {
    match r
    case Skipped => []
    case Download(name, blob) => [Save(name, blob)]
    case TypeError => [Crash]
  }

  /**
   Routes one event. The slider label follows every input while the
   compression waits for the debounce; reset does not cancel a pending
   debounced compression.
   */
  function Dispatch(p: Page, e: Event): (r: Step)
    ensures e.Slide? ==> r.page.timer == Pending(e.at + Wait) && r.effects == []
    ensures !e.Slide? && !e.Tick? ==> r.page.timer == p.timer
    ensures e.Tick? && !Due(p.timer, e.at) ==> r == Step(p, [])
    ensures e.Tick? && Due(p.timer, e.at) ==> r.page.timer == Idle
  {
    match e
    case Pick(files, outcome) =>
      var h := HandleFiles(p.state, files, outcome);
      Step(Page(h.state, p.timer), h.effects)
    case Slide(at, v) =>
      Step(Page(SliderInput(p.state, v), Call(p.timer, at)), [])
    case Tick(at, outcome) =>
      var (timer, fired) := Advance(p.timer, at);
      if fired then
        var c := CompressImage(p.state, outcome);
        Step(Page(c.state, timer), c.effects)
      else Step(p, [])
    case ClickDownload =>
      Step(p, DownloadEffects(DownloadCompressed(p.state)))
    case ClickReset =>
      Step(Page(Reset(p.state), p.timer), [])
  }

  /**
   Events in order, effects concatenated. Only slider input and the clock
   touch the timer: a sequence of other events, reset included, leaves a
   pending compression pending.
   */
  function RunEvents(p: Page, events: seq<Event>): (r: Step)
    ensures |events| == 0 ==> r == Step(p, [])
    ensures (forall k :: 0 <= k < |events| ==> !events[k].Slide? && !events[k].Tick?) ==> r.page.timer == p.timer
    decreases |events|
  {
    if |events| == 0 then Step(p, [])
    else
      var first := Dispatch(p, events[0]);
      var rest := RunEvents(first.page, events[1..]);
      Step(rest.page, first.effects + rest.effects)
  }

  /**
   The events are in real time order with respect to the timer: no slider
   input arrives after the pending deadline has passed without the clock
   having been ticked to it.
   */
  predicate Timely(p: Page, events: seq<Event>)
    decreases |events|
  {
    |events| == 0 ||
    ((events[0].Slide? ==> !Due(p.timer, events[0].at)) && Timely(Dispatch(p, events[0]).page, events[1..]))
  }

  /** Every event keeps the session invariant. */
  lemma DispatchPreserves(p: Page, e: Event)
    requires Consistent(p.state)
    ensures Consistent(Dispatch(p, e).page.state)
  {
    match e
    case Pick(files, outcome) => HandleFilesPreserves(p.state, files, outcome);
    case Tick(at, outcome) => CompressPreserves(p.state, outcome);
    case ClickReset => ResetConsistent(p.state);
    case _ =>
  }

  /** Every sequence of events keeps the session invariant. */
  lemma {:induction false} RunPreserves(p: Page, events: seq<Event>)
    requires Consistent(p.state)
    ensures Consistent(RunEvents(p, events).page.state)
    decreases |events|
  {
    if |events| > 0 {
      DispatchPreserves(p, events[0]);
      RunPreserves(Dispatch(p, events[0]).page, events[1..]);
    }
  }

  /**
   Every event keeps an artifact tied to a current file, from any state at
   all, the page-load state included.
   */
  lemma DispatchKeepsArtifactNeedsFile(p: Page, e: Event)
    requires ArtifactNeedsFile(p.state)
    ensures ArtifactNeedsFile(Dispatch(p, e).page.state)
  {
  }

  /** Every sequence of events keeps an artifact tied to a current file. */
  lemma {:induction false} RunKeepsArtifactNeedsFile(p: Page, events: seq<Event>)
    requires ArtifactNeedsFile(p.state)
    ensures ArtifactNeedsFile(RunEvents(p, events).page.state)
    decreases |events|
  {
    if |events| > 0 {
      DispatchKeepsArtifactNeedsFile(p, events[0]);
      RunKeepsArtifactNeedsFile(Dispatch(p, events[0]).page, events[1..]);
    }
  }

  /** While every artifact has a current file, no single event makes a download click fail. */
  lemma DispatchNeverCrashes(p: Page, e: Event)
    requires ArtifactNeedsFile(p.state)
    ensures Crash !in Dispatch(p, e).effects
  {
    if e.ClickDownload? {
      DownloadFailsIffOrphaned(p.state);
    }
  }

  /**
   From a state where every artifact has a current file, page load
   included, no sequence of events makes a download click fail.
   */
  lemma {:induction false} RunNeverCrashes(p: Page, events: seq<Event>)
    requires ArtifactNeedsFile(p.state)
    ensures Crash !in RunEvents(p, events).effects
    decreases |events|
  {
    if |events| > 0 {
      var first := Dispatch(p, events[0]);
      DispatchNeverCrashes(p, events[0]);
      DispatchKeepsArtifactNeedsFile(p, events[0]);
      RunNeverCrashes(first.page, events[1..]);
      var rest := RunEvents(first.page, events[1..]);
      assert RunEvents(p, events).effects == first.effects + rest.effects;
    }
  }

  /** Running two event sequences one after the other is running their concatenation. */
  lemma {:induction false} RunAppend(p: Page, xs: seq<Event>, ys: seq<Event>)
    ensures var a := RunEvents(p, xs);
            var b := RunEvents(a.page, ys);
            RunEvents(p, xs + ys) == Step(b.page, a.effects + b.effects)
    decreases |xs|
  {
    if |xs| > 0 {
      assert (xs + ys)[0] == xs[0];
      assert (xs + ys)[1..] == xs[1..] + ys;
      var first := Dispatch(p, xs[0]);
      RunAppend(first.page, xs[1..], ys);
      var a := RunEvents(first.page, xs[1..]);
      var b := RunEvents(a.page, ys);
      ConcatAssoc(first.effects, a.effects, b.effects);
    } else {
      assert xs + ys == ys;
      ConcatEmpty(RunEvents(p, ys).effects);
    }
  }

  /** A concatenation of event sequences is timely iff each part is, from where the first leaves off. */
  lemma {:induction false} TimelyAppend(p: Page, xs: seq<Event>, ys: seq<Event>)
    ensures Timely(p, xs + ys) <==> Timely(p, xs) && Timely(RunEvents(p, xs).page, ys)
    decreases |xs|
  {
    if |xs| > 0 {
      assert (xs + ys)[0] == xs[0];
      assert (xs + ys)[1..] == xs[1..] + ys;
      TimelyAppend(Dispatch(p, xs[0]).page, xs[1..], ys);
    } else {
      assert xs + ys == ys;
    }
  }

  /** Running a single event is dispatching it. */
  lemma RunSingle(p: Page, e: Event)
    ensures RunEvents(p, [e]) == Dispatch(p, e)
  {
    var d := Dispatch(p, e);
    assert [e][1..] == [];
    assert d.effects + [] == d.effects;
  }

  /** Slider inputs whose gaps are each shorter than the debounce window. */
  predicate Burst(slides: seq<Event>) {
    && |slides| >= 1
    && (forall k :: 0 <= k < |slides| ==> slides[k].Slide?)
    && (forall k :: 0 <= k < |slides| - 1 ==> slides[k + 1].at < slides[k].at + Wait)
  }

  /**
   A burst of slider inputs, the first before any pending deadline, is
   timely, calls nothing, leaves the slider and its label at the last value
   and the deadline at the last input plus the window.
   */
  lemma {:induction false} BurstOfSlides(p: Page, slides: seq<Event>)
    requires Burst(slides)
    requires !Due(p.timer, slides[0].at)
    ensures var r := RunEvents(p, slides);
            var last := slides[|slides| - 1];
            && Timely(p, slides)
            && r.effects == []
            && r.page.state == SliderInput(p.state, last.value)
            && r.page.timer == Pending(last.at + Wait)
    decreases |slides|
  {
    BurstIsTimely(p, slides);
    var first := slides[0];
    var q := Page(SliderInput(p.state, first.value), Pending(first.at + Wait));
    assert Dispatch(p, first) == Step(q, []);
    var rest := RunEvents(q, slides[1..]);
    assert RunEvents(p, slides) == Step(rest.page, [] + rest.effects);
    if |slides| > 1 {
      assert Burst(slides[1..]);
      BurstOfSlides(q, slides[1..]);
      assert slides[1..][|slides[1..]| - 1] == slides[|slides| - 1];
    } else {
      assert rest == Step(q, []);
    }
  }

  /** A burst of slider inputs, the first before any pending deadline, never overruns a deadline. */
  lemma {:induction false} BurstIsTimely(p: Page, slides: seq<Event>)
    requires Burst(slides)
    requires !Due(p.timer, slides[0].at)
    ensures Timely(p, slides)
    decreases |slides|
  {
    var first := slides[0];
    var q := Page(SliderInput(p.state, first.value), Pending(first.at + Wait));
    assert Dispatch(p, first) == Step(q, []);
    if |slides| > 1 {
      assert Burst(slides[1..]);
      BurstIsTimely(q, slides[1..]);
    }
  }

  /**
   A burst of slider inputs followed by the clock passing the last input
   plus the window compresses exactly once, with the last slider value, and
   only if a file is loaded; the label shows the last value.
   */
  lemma SlideBurstCompressesOnce(p: Page, slides: seq<Event>, at: int, outcome: Outcome)
    requires Burst(slides)
    requires !Due(p.timer, slides[0].at)
    requires at >= slides[|slides| - 1].at + Wait
    ensures var events := slides + [Tick(at, outcome)];
            var r := RunEvents(p, events);
            var v := slides[|slides| - 1].value;
            && Timely(p, events)
            && r.page.state.qualityText == PercentLabel(v)
            && Calls(r.effects) ==
                 (if p.state.currentFile.Some? then
                    [Invoke(p.state.currentFile.value, CompressionOptions(p.state.currentFile.value, v))]
                  else [])
  {
    var tick := Tick(at, outcome);
    BurstOfSlides(p, slides);
    RunAppend(p, slides, [tick]);
    TimelyAppend(p, slides, [tick]);
    var mid := RunEvents(p, slides).page;
    RunSingle(mid, tick);
    var fin := Dispatch(mid, tick);
    assert RunEvents(p, slides + [tick]).effects == [] + fin.effects == fin.effects;
    CompressCalls(mid.state, outcome);
  }

  /** Before the deadline the clock changes nothing and calls nothing. */
  lemma TickBeforeDeadlineIsQuiet(p: Page, at: int, outcome: Outcome)
    requires p.timer.Pending? && at < p.timer.deadline
    ensures Dispatch(p, Tick(at, outcome)) == Step(p, [])
  {
  }

  /** The debounced compression reads the slider position current when it fires. */
  lemma FiringUsesCurrentSlider(p: Page, at: int, outcome: Outcome)
    requires Due(p.timer, at) && p.state.currentFile.Some?
    ensures var r := Dispatch(p, Tick(at, outcome));
            var f := p.state.currentFile.value;
            |r.effects| >= 1 && r.effects[0] == Invoke(f, CompressionOptions(f, p.state.quality))
  {
  }

  /**
   Reset leaves a pending debounced compression in place; when it fires
   afterwards there is no current file, so it calls nothing and changes nothing.
   */
  lemma FiringAfterResetIsNoOp(p: Page, at: int, outcome: Outcome)
    requires Due(p.timer, at)
    ensures var q := Dispatch(p, ClickReset).page;
            Dispatch(q, Tick(at, outcome)) == Step(q.(timer := Idle), [])
  {
  }

  /**
   Reset leaves a due compression in place, so when a new image is picked
   before the clock reaches the deadline, that image is compressed twice:
   once on the pick and once more when the old deadline fires.
   */
  lemma PickAfterResetCompressesTwice(p: Page, f: File, picked: Outcome, at: int, fired: Outcome)
    requires Due(p.timer, at)
    requires Contains(f.mediaType, "image")
    ensures var r := RunEvents(p, [ClickReset, Pick([f], picked), Tick(at, fired)]);
            var call := Invoke(f, CompressionOptions(f, DefaultQuality));
            Calls(r.effects) == [call, call]
  {
    var pick := Pick([f], picked);
    var tick := Tick(at, fired);
    var q := Dispatch(p, ClickReset).page;
    RunCons(p, ClickReset, [pick, tick]);
    PickThenFire(q, f, picked, at, fired);
    ConcatEmpty(RunEvents(q, [pick, tick]).effects);
  }

  /** Running one event and then a sequence is running the sequence after the event. */
  lemma RunCons(p: Page, e: Event, rest: seq<Event>)
    ensures var d := Dispatch(p, e);
            var r := RunEvents(d.page, rest);
            RunEvents(p, [e] + rest) == Step(r.page, d.effects + r.effects)
  {
    assert ([e] + rest)[0] == e;
    assert ([e] + rest)[1..] == rest;
  }

  /** A picked image is compressed on the pick and again when a due deadline fires. */
  lemma PickThenFire(q: Page, f: File, picked: Outcome, at: int, fired: Outcome)
    requires Due(q.timer, at)
    requires Contains(f.mediaType, "image")
    ensures var call := Invoke(f, CompressionOptions(f, q.state.quality));
            Calls(RunEvents(q, [Pick([f], picked), Tick(at, fired)]).effects) == [call, call]
  {
    var pick := Pick([f], picked);
    var tick := Tick(at, fired);
    var s2 := Dispatch(q, pick);
    var s3 := Dispatch(s2.page, tick);
    assert [pick, tick] == [pick] + [tick];
    RunCons(q, pick, [tick]);
    RunSingle(s2.page, tick);
    PickCalls(q, f, picked);
    FireCalls(s2.page, at, fired);
    CallsAppend(s2.effects, s3.effects);
  }

  /** Picking an image calls the library once and keeps the slider and the timer. */
  lemma PickCalls(q: Page, f: File, picked: Outcome)
    requires Contains(f.mediaType, "image")
    ensures var d := Dispatch(q, Pick([f], picked));
            && Calls(d.effects) == [Invoke(f, CompressionOptions(f, q.state.quality))]
            && d.page.state.currentFile == Some(f)
            && d.page.state.quality == q.state.quality
            && d.page.timer == q.timer
  {
    AcceptedFile(q.state, [f], picked);
  }

  /** A due deadline compresses the current file, if any, at the current slider value. */
  lemma FireCalls(q: Page, at: int, fired: Outcome)
    requires Due(q.timer, at)
    ensures var s := q.state;
            Calls(Dispatch(q, Tick(at, fired)).effects) ==
              (if s.currentFile.Some? then [Invoke(s.currentFile.value, CompressionOptions(s.currentFile.value, s.quality))] else [])
  {
    CompressCalls(q.state, fired);
  }
}
