/**
  The poll session of `onFontLoaded` as a state machine over values. The
  host's timer and clock become explicit inputs: each firing of the interval
  is a `TickInput` carrying the clock reading and the outcome of the presence
  check at that moment. Calls to the caller's callbacks and to the timer host
  are recorded, in order, as `Event`s.
*/
module Poll {
  import opened Wrappers

  const DefaultInterval: int := 100
  const DefaultTimeout: int := 2000

  /** The optional fourth argument; an absent field is `None`. */
  datatype Options = Options(msInterval: Option<int>, msTimeout: Option<int>)

  /** A numeric option is used when it is truthy: present and not zero. */
  predicate Truthy(v: Option<int>)
  {
    v.Some? && v.value != 0
  }

  function IntervalField(options: Option<Options>): Option<int>
  {
    if options.Some? then options.value.msInterval else None
  }

  function TimeoutField(options: Option<Options>): Option<int>
  {
    if options.Some? then options.value.msTimeout else None
  }

  /** The polling period: the supplied `msInterval` when truthy, else 100. */
  function IntervalOf(options: Option<Options>): (ms: int)
    ensures Truthy(IntervalField(options)) ==> ms == IntervalField(options).value
    ensures !Truthy(IntervalField(options)) ==> ms == DefaultInterval
    ensures ms != 0
  {
    var v := IntervalField(options);
    if Truthy(v) then v.value else DefaultInterval
  }

  /** The time-out: the supplied `msTimeout` when truthy, else 2000. */
  function TimeoutOf(options: Option<Options>): (ms: int)
    ensures Truthy(TimeoutField(options)) ==> ms == TimeoutField(options).value
    ensures !Truthy(TimeoutField(options)) ==> ms == DefaultTimeout
    ensures ms != 0
  {
    var v := TimeoutField(options);
    if Truthy(v) then v.value else DefaultTimeout
  }

  datatype Event =
    | IntervalSet(ms: int)              // setInterval(tick, msInterval)
    | IntervalCleared                   // clearInterval(idInterval)
    | LoadCalled(font: string)          // p_onLoad(p_cssFontName)
    | FailCalled(font: string)          // p_onFail(p_cssFontName)
    | LoadNotAFunction(font: string)    // the tick calls p_onLoad although none was given: a TypeError

  /** An event in which control passes to (or fails to reach) caller code. */
  predicate IsCallback(e: Event)
  {
    e.LoadCalled? || e.FailCalled? || e.LoadNotAFunction?
  }

  /** The number of callback events in a log. */
  function Callbacks(events: seq<Event>): (n: nat)
    ensures n <= |events|
    ensures n == 0 <==> forall i :: 0 <= i < |events| ==> !IsCallback(events[i])
    decreases |events|
  {
    if events == [] then 0
    else
      var last := |events| - 1;
      assert forall i :: 0 <= i < last ==> events[..last][i] == events[i];
      Callbacks(events[..last]) + if IsCallback(events[last]) then 1 else 0
  }

  /** One call of `onFontLoaded` and its interval: `start` is the clock reading
      taken when the interval is created (`utStart`), `active` says that the
      interval has not been cleared. */
  datatype Session = Session(name: string, hasOnLoad: bool, hasOnFail: bool, msTimeout: int,
                             start: int, active: bool, events: seq<Event>)

  /** The log of a session that created an interval starts with its creation. */
  predicate Polls(events: seq<Event>)
  {
    events != [] && events[0].IntervalSet?
  }

  /** What the source promises of every session at every moment. */
  predicate WellFormed(s: Session)
  {
    // at most one callback per session
    && Callbacks(s.events) <= 1
    // a running interval exists only before any callback and any clearing
    && (s.active ==> Polls(s.events) && Callbacks(s.events) == 0 && IntervalCleared !in s.events)
    // nothing happens after a callback
    && (forall i :: 0 <= i < |s.events| && IsCallback(s.events[i]) ==> i == |s.events| - 1)
    // a callback is either the synchronous first event of a session without
    // an interval, or comes right after the interval was cleared
    && (forall i :: 0 <= i < |s.events| && IsCallback(s.events[i]) ==>
          (i == 0 && !Polls(s.events)) || (i > 0 && s.events[i - 1] == IntervalCleared))
    // one interval per session, created first
    && (forall i :: 0 < i < |s.events| ==> !s.events[i].IntervalSet?)
    // an interval is cleared at most once, and only a created one
    && (forall i :: 0 <= i < |s.events| && s.events[i] == IntervalCleared ==> i == 1 && Polls(s.events))
  }

  /** The calls that return at once: a falsy font name, or no callback at all. */
  predicate Ignored(name: string, hasOnLoad: bool, hasOnFail: bool)
  {
    name == "" || (!hasOnLoad && !hasOnFail)
  }

  /** The session `onFontLoaded` leaves behind when it returns, given whether
      the font is loaded at the moment of the call and the clock reading then. */
  function Begin(name: string, hasOnLoad: bool, hasOnFail: bool, options: Option<Options>,
                 now: int, loadedNow: bool): Session
  {
    var s0 := Session(name, hasOnLoad, hasOnFail, TimeoutOf(options), now, false, []);
    if Ignored(name, hasOnLoad, hasOnFail) then s0
    else if loadedNow then s0.(events := if hasOnLoad then [LoadCalled(name)] else [])
    else s0.(active := true, events := [IntervalSet(IntervalOf(options))])
  }

  /** How `onFontLoaded` returns: nothing happens for an ignored call; a
      loaded font gets `onLoad` at once (when given) and no interval;
      otherwise an interval is created with the chosen period and polling
      starts at `now`. */
  lemma BeginSpec(name: string, hasOnLoad: bool, hasOnFail: bool, options: Option<Options>,
                  now: int, loadedNow: bool)
    ensures var s := Begin(name, hasOnLoad, hasOnFail, options, now, loadedNow);
      && WellFormed(s)
      && (s.active <==> !Ignored(name, hasOnLoad, hasOnFail) && !loadedNow)
      && (Polls(s.events) <==> s.active)
      && Callbacks(s.events) == (if !Ignored(name, hasOnLoad, hasOnFail) && loadedNow && hasOnLoad then 1 else 0)
      && (Ignored(name, hasOnLoad, hasOnFail) ==> s.events == [])
      && (!Ignored(name, hasOnLoad, hasOnFail) && loadedNow ==>
            s.events == if hasOnLoad then [LoadCalled(name)] else [])
      && (s.active ==> s.events == [IntervalSet(IntervalOf(options))] && s.start == now)
      && s.msTimeout == TimeoutOf(options) && s.name == name
  {
    var s := Begin(name, hasOnLoad, hasOnFail, options, now, loadedNow);
    if !Ignored(name, hasOnLoad, hasOnFail) && loadedNow {
      assert Callbacks(s.events) == if hasOnLoad then 1 else 0 by {
        if hasOnLoad { assert s.events[..0] == []; }
      }
      assert !Polls(s.events);
    }
  }

  /** One firing of the interval: the clock reading and whether the font is
      loaded at that moment. */
  datatype TickInput = TickInput(now: int, loaded: bool)

  /** A tick that ends the session: the font is loaded, or the time-out has
      passed (strictly). */
  predicate Decisive(s: Session, t: TickInput)
  {
    t.loaded || t.now - s.start > s.msTimeout
  }

  /** The interval callback. */
  function Step(s: Session, t: TickInput): Session
    requires s.active
  {
    if t.loaded then
      s.(active := false,
         events := s.events + [IntervalCleared]
                   + [if s.hasOnLoad then LoadCalled(s.name) else LoadNotAFunction(s.name)])
    else if t.now - s.start > s.msTimeout then
      var cleared := s.events + [IntervalCleared];
      s.(active := false, events := if s.hasOnFail then cleared + [FailCalled(s.name)] else cleared)
    else s
  }

  /** The host delivers the ticks in order while the interval exists; once it
      is cleared, no tick fires. */
  function Run(s: Session, ticks: seq<TickInput>): Session
    decreases |ticks|
  {
    if ticks == [] || !s.active then s else Run(Step(s, ticks[0]), ticks[1..])
  }

  /** Appending one event adds one to the count exactly when it is a callback. */
  lemma CallbacksAppend(events: seq<Event>, e: Event)
    ensures Callbacks(events + [e]) == Callbacks(events) + if IsCallback(e) then 1 else 0
  {
    assert (events + [e])[..|events|] == events;
  }

  /** A tick keeps the session well formed. */
  lemma StepWellFormed(s: Session, t: TickInput)
    requires s.active && WellFormed(s)
    ensures WellFormed(Step(s, t))
  {
    if Decisive(s, t) {
      assert |s.events| == 1 by {
        if |s.events| > 1 {
          assert false;
        }
      }
      var s' := Step(s, t);
      if |s'.events| == 3 {
        ClosedWellFormed(s', s.events[0], [s'.events[2]]);
      } else {
        ClosedWellFormed(s', s.events[0], []);
      }
    }
  }

  /** A session whose interval was created and then cleared, followed by at
      most one callback, is well formed. */
  lemma ClosedWellFormed(s: Session, created: Event, tail: seq<Event>)
    requires created.IntervalSet? && !s.active
    requires s.events == [created, IntervalCleared] + tail
    requires |tail| <= 1 && (tail != [] ==> IsCallback(tail[0]))
    ensures WellFormed(s)
  {
    CallbacksAppend([created], IntervalCleared);
    assert [created][..0] == [];
    if tail != [] {
      CallbacksAppend([created, IntervalCleared], tail[0]);
    }
  }

  /** Any sequence of ticks keeps the session well formed. */
  lemma {:induction false} RunWellFormed(s: Session, ticks: seq<TickInput>)
    requires WellFormed(s)
    ensures WellFormed(Run(s, ticks))
    decreases |ticks|
  {
    if ticks != [] && s.active {
      StepWellFormed(s, ticks[0]);
      RunWellFormed(Step(s, ticks[0]), ticks[1..]);
    }
  }

  /** Whatever the ticks, a call of `onFontLoaded` runs at most one callback,
      never after it, and every callback that follows the creation of the
      interval comes right after the interval is cleared. */
  lemma AtMostOneCallback(name: string, hasOnLoad: bool, hasOnFail: bool, options: Option<Options>,
                          now: int, loadedNow: bool, ticks: seq<TickInput>)
    // the headline property, also implied by the well-formedness below
    ensures Callbacks(Run(Begin(name, hasOnLoad, hasOnFail, options, now, loadedNow), ticks).events) <= 1
    ensures WellFormed(Run(Begin(name, hasOnLoad, hasOnFail, options, now, loadedNow), ticks))
  {
    BeginSpec(name, hasOnLoad, hasOnFail, options, now, loadedNow);
    RunWellFormed(Begin(name, hasOnLoad, hasOnFail, options, now, loadedNow), ticks);
  }

  /** The index of the first tick that ends the session, or `|ticks|`. */
  function FirstDecisive(s: Session, ticks: seq<TickInput>): (k: nat)
    ensures k <= |ticks|
    ensures forall i :: 0 <= i < k ==> !Decisive(s, ticks[i])
    ensures k < |ticks| ==> Decisive(s, ticks[k])
    decreases |ticks|
  {
    if ticks == [] || Decisive(s, ticks[0]) then 0 else 1 + FirstDecisive(s, ticks[1..])
  }

  /** Ticks before the first decisive one change nothing; the first decisive
      one alone determines how the session ends. */
  lemma {:induction false} RunOutcome(s: Session, ticks: seq<TickInput>)
    requires s.active
    ensures Run(s, ticks) == if FirstDecisive(s, ticks) == |ticks| then s else Step(s, ticks[FirstDecisive(s, ticks)])
    decreases |ticks|
  {
    if ticks != [] && !Decisive(s, ticks[0]) {
      assert Step(s, ticks[0]) == s;
      RunOutcome(s, ticks[1..]);
    }
  }

  /** A font that never loads: the first tick past the time-out clears the
      interval and then calls `onFail` (when given), and nothing else runs. */
  lemma NeverLoadedTimesOut(s: Session, ticks: seq<TickInput>, k: nat)
    requires s.active
    requires forall i :: 0 <= i < |ticks| ==> !ticks[i].loaded
    requires k < |ticks| && ticks[k].now - s.start > s.msTimeout
    ensures !Run(s, ticks).active
    ensures Run(s, ticks).events ==
      if s.hasOnFail then s.events + [IntervalCleared] + [FailCalled(s.name)] else s.events + [IntervalCleared]
  {
    RunOutcome(s, ticks);
  }

  /** A font that loads before the time-out: the interval is cleared and then
      `onLoad` is called with the font name (a TypeError when no `onLoad` was
      given). */
  lemma LoadedInTime(s: Session, ticks: seq<TickInput>, k: nat)
    requires s.active
    requires k < |ticks| && ticks[k].loaded
    requires forall i :: 0 <= i < k ==> !ticks[i].loaded && ticks[i].now - s.start <= s.msTimeout
    ensures !Run(s, ticks).active
    ensures Run(s, ticks).events ==
      s.events + [IntervalCleared] + [if s.hasOnLoad then LoadCalled(s.name) else LoadNotAFunction(s.name)]
  {
    RunOutcome(s, ticks);
  }

  /** Polling every 50 ms with a 200 ms time-out for a font that never loads:
      the ticks up to 200 ms are not past the time-out, the one at 250 ms is
      the first that is, and `onFail` runs once, after the interval is
      cleared. */
  lemma FailsAfterTwoHundredMs(name: string, start: int)
    requires name != ""
    ensures var s := Begin(name, false, true, Some(Options(Some(50), Some(200))), start, false);
            var ticks := seq(6, i => TickInput(start + 50 * (i + 1), false));
            && ticks[3].now == start + 200 && ticks[4].now == start + 250
            && FirstDecisive(s, ticks) == 4
            && Run(s, ticks).events == [IntervalSet(50), IntervalCleared, FailCalled(name)]
  {
    var s := Begin(name, false, true, Some(Options(Some(50), Some(200))), start, false);
    BeginSpec(name, false, true, Some(Options(Some(50), Some(200))), start, false);
    var ticks := seq(6, i => TickInput(start + 50 * (i + 1), false));
    assert ticks[4].now - s.start == 250;
    forall i | 0 <= i < 4
      ensures !Decisive(s, ticks[i])
    {
      assert ticks[i].now - s.start == 50 * (i + 1);
    }
    NeverLoadedTimesOut(s, ticks, 4);
  }

}
