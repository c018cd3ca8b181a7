/**
  The `FontDetect` object itself: the private state (`_isInitialized` and the
  hidden measuring `span`) and the public methods `isFontLoaded`,
  `onFontLoaded` and `whichFont`, which change that state step by step.

  The browser enters as a parameter `width`: the width the span's sample
  text is laid out at for a given `font-family` value (`span.offsetWidth`).
  The clock enters as `now`, and the element's computed `font-family` as a
  string. Each polling session is an object whose `Tick` is the interval's
  callback; the callbacks it calls are recorded in its event log.
*/
module FontDetect {
  import opened Wrappers
  import opened JsString
  import opened Strip
  import opened Presence
  import opened Poll
  import Resolve

  /** The sample text the hidden span shows. */
  const SampleText: string := "abcdefghijklmnopqrstuvwxyzABCDEFGHIJKLMNOPQRSTUVWXYZ"

  /** The hidden measuring span. `history` records every value assigned to
      its `font-family`, in order. */
  class Span {
    var fontFamily: string
    ghost var history: seq<string>
    const text: string

    /** The style shows the last value assigned, or none. */
    ghost predicate Valid()
      reads this
    {
      fontFamily == if history == [] then "" else history[|history| - 1]
    }

    constructor ()
      ensures Valid() && history == [] && text == SampleText
    {
      fontFamily := "";
      history := [];
      text := SampleText;
    }

    /** The probing loop of `isFontLoaded`: gives the span the name followed
        by each generic family in turn and answers whether every width
        equals the previous one, stopping at the first that differs. */
    method Probe(name: string, width: string -> int) returns (loaded: bool)
      requires Valid()
      modifies this
      ensures Valid()
      ensures loaded == Loaded(name, width)
      ensures history == old(history) + Probed(name, width)
    {
      var wThisFont := 0;
      var wPrevFont := 0;
      ghost var ws, cs := Widths(name, width), Chains(name);
      LoadedIffNoChange(name, width);
      var ix := 0;
      while ix < |Fallbacks|
        invariant 0 <= ix <= FirstChange(ws)
        invariant Valid()
        invariant history == old(history) + cs[..ix]
        invariant ix > 0 ==> wPrevFont == ws[ix - 1]
      {
        wThisFont := Render(Chain(name, Fallbacks[ix]), width);
        TakeSnoc(cs, ix);
        AppendAssoc(old(history), cs[..ix], [cs[ix]]);
        if ix > 0 && wThisFont != wPrevFont {
          assert FirstChange(ws) == ix;
          return false;
        }
        assert ix < FirstChange(ws);
        wPrevFont := wThisFont;
        ix := ix + 1;
      }
      assert cs[..|cs|] == cs;
      return true;
    }

    /** Sets the span's `font-family` to `family` and reads back
        `span.offsetWidth` under the browser's layout `width`. */
    method Render(family: string, width: string -> int) returns (w: int)
      modifies this
      ensures fontFamily == family && history == old(history) + [family]
      ensures w == width(family)
    {
      fontFamily := family;
      history := history + [family];
      w := width(fontFamily);
    }
  }

  /** The presence check under layout `width`, as a predicate on names. */
  function LoadedIn(width: string -> int): string -> bool
  {
    name => Loaded(name, width)
  }

  /** The chains `whichFont` has the span render while it walks `entries`:
      those of each reached entry, cleaned up, up to the first loaded one. */
  ghost function CheckedProbes(entries: seq<string>, width: string -> int): seq<string>
    decreases |entries|
  {
    if entries == [] || entries[0] == "" then []
    else
      var font := StripEntry(entries[0]);
      Probed(font, width) + if Loaded(font, width) then [] else CheckedProbes(entries[1..], width)
  }

  /** A walk that passes over a non-empty entry whose clean-up is not
      loaded probes that entry's chains, then those of the rest. */
  lemma CheckedProbesStep(entries: seq<string>, font: string, width: string -> int)
    requires entries != [] && entries[0] != "" && font == StripEntry(entries[0])
    requires !Loaded(font, width)
    ensures CheckedProbes(entries, width) == Probed(font, width) + CheckedProbes(entries[1..], width)
  {
  }

  /** A walk that reaches a non-empty entry whose clean-up is loaded probes
      that entry's chains and stops. */
  lemma CheckedProbesStop(entries: seq<string>, font: string, width: string -> int)
    requires entries != [] && entries[0] != "" && font == StripEntry(entries[0])
    requires Loaded(font, width)
    ensures CheckedProbes(entries, width) == Probed(font, width)
    ensures Resolve.FirstLoaded(entries, StripEntry, LoadedIn(width)) == Some(font)
  {
  }

  lemma TakeSnoc<T>(s: seq<T>, i: nat)
    requires i < |s|
    ensures s[..i + 1] == s[..i] + [s[i]]
  {
  }

  lemma AppendAssoc<T>(a: seq<T>, b: seq<T>, c: seq<T>)
    ensures a + (b + c) == (a + b) + c
  {
  }

  class Detector {
    var isInitialized: bool
    var span: Span?
    /** How many times `_init` has created and inserted the helper
        elements; each method states by how much it raises the count. */
    ghost var helpersCreated: nat

    /** The span exists exactly once initialization has run, and nothing is
        created before that. */
    ghost predicate Valid()
      reads this, span
    {
      && (isInitialized <==> span != null)
      && (!isInitialized ==> helpersCreated == 0)
      && (span != null ==> span.Valid())
    }

    /** How initialization stands relative to an earlier state with flag
        `wasInit`, span `span0` and count `count0`, given whether a presence
        check has run since. */
    ghost predicate InitSince(wasInit: bool, span0: Span?, count0: nat, started: bool)
      reads this
    {
      && (wasInit ==> span == span0)
      && isInitialized == (wasInit || started)
      && helpersCreated == count0 + if isInitialized == wasInit then 0 else 1
    }

    /** Everything the span has been given so far. */
    ghost function Probes(): seq<string>
      reads this, span
    {
      if span == null then [] else span.history
    }

    constructor ()
      ensures Valid() && !isInitialized && helpersCreated == 0
    {
      isInitialized := false;
      span := null;
      helpersCreated := 0;
    }

    /** `_init`: creates the hidden span the first time, and does nothing
        afterwards. */
    method Init()
      requires Valid()
      modifies this
      ensures Valid() && isInitialized
      ensures helpersCreated == old(helpersCreated) + if old(isInitialized) then 0 else 1
      ensures old(isInitialized) ==> span == old(span)
      ensures !old(isInitialized) ==> fresh(span) && span.history == []
    {
      if isInitialized {
        return;
      }
      isInitialized := true;
      span := new Span();
      helpersCreated := helpersCreated + 1;
    }

    /** `isFontLoaded`: renders the sample with the name followed by each
        generic family in turn and reports whether every width equals the
        previous one, stopping at the first that differs. */
    method IsFontLoaded(name: string, width: string -> int) returns (loaded: bool)
      requires Valid()
      modifies this, span
      ensures Valid() && isInitialized
      ensures helpersCreated == old(helpersCreated) + if old(isInitialized) then 0 else 1
      ensures old(isInitialized) ==> span == old(span)
      ensures !old(isInitialized) ==> fresh(span)
      ensures loaded == Loaded(name, width)
      ensures Probes() == old(Probes()) + Probed(name, width)
    {
      if !isInitialized {
        Init();
      }
      loaded := span.Probe(name, width);
    }

    /** `onFontLoaded`: ignores a falsy name or a call without callbacks;
        otherwise calls `onLoad` at once when the font is already loaded, and
        else sets up a polling session started at `now`. The session's state
        is the one `Poll.Begin` describes. */
    method OnFontLoaded(name: string, hasOnLoad: bool, hasOnFail: bool, options: Option<Options>,
                        now: int, width: string -> int) returns (session: PollSession)
      requires Valid()
      modifies this, span
      ensures Valid() && fresh(session) && session.detector == this
      ensures old(isInitialized) ==> isInitialized && span == old(span)
      ensures !old(isInitialized) && isInitialized ==> fresh(span)
      ensures helpersCreated ==
        old(helpersCreated) + if old(isInitialized) || Ignored(name, hasOnLoad, hasOnFail) then 0 else 1
      ensures session.State() == Begin(name, hasOnLoad, hasOnFail, options, now, Loaded(name, width))
      ensures Ignored(name, hasOnLoad, hasOnFail) ==>
        isInitialized == old(isInitialized) && span == old(span) && Probes() == old(Probes())
      ensures !Ignored(name, hasOnLoad, hasOnFail) ==>
        isInitialized && Probes() == old(Probes()) + Probed(name, width)
    {
      // an ignored call sets nothing up: its session is inert, with no
      // interval and an empty log
      var s := Session(name, hasOnLoad, hasOnFail, TimeoutOf(options), now, false, []);
      if name == "" {
        session := new PollSession(this, s);
        return;
      }
      var msInterval := IntervalOf(options);
      if !hasOnLoad && !hasOnFail {
        session := new PollSession(this, s);
        return;
      }
      if !isInitialized {
        Init();
      }
      var loaded := IsFontLoaded(name, width);
      if loaded {
        // the font is already there: `onLoad`, if given, is called at once
        var events := if hasOnLoad then [LoadCalled(name)] else [];
        session := new PollSession(this, s.(events := events));
        return;
      }
      session := new PollSession(this, s.(active := true, start := now, events := [IntervalSet(msInterval)]));
    }

    /** `whichFont`: walks the comma-separated entries of the element's
        `font-family` value while the raw entry is non-empty, cleans each up
        and returns the first one `isFontLoaded` accepts. */
    method WhichFont(stack: string, width: string -> int) returns (font: Option<string>)
      requires Valid()
      modifies this, span
      ensures Valid()
      ensures isInitialized == (old(isInitialized) || Split(stack, ',')[0] != "")
      ensures old(isInitialized) ==> span == old(span)
      ensures !old(isInitialized) && isInitialized ==> fresh(span)
      ensures helpersCreated == old(helpersCreated) + if isInitialized == old(isInitialized) then 0 else 1
      ensures font == Resolve.WhichFont(stack, LoadedIn(width))
      ensures Probes() == old(Probes()) + CheckedProbes(Split(stack, ','), width)
    {
      var aStack := Split(stack, ',');
      var sFont := aStack[0];
      aStack := aStack[1..];
      // the entries not yet shifted off, with the current one
      ghost var rest := Split(stack, ',');
      // whether a presence check has run yet
      ghost var started := false;
      while sFont != ""
        invariant Valid()
        invariant InitSince(old(isInitialized), old(span), old(helpersCreated), started)
        invariant !old(isInitialized) && isInitialized ==> fresh(span)
        invariant !started ==> rest == Split(stack, ',')
        invariant started ==> Split(stack, ',')[0] != ""
        invariant rest != [] ==> sFont == rest[0] && aStack == rest[1..]
        invariant rest == [] ==> sFont == ""
        invariant Resolve.FirstLoaded(rest, StripEntry, LoadedIn(width))
               == Resolve.FirstLoaded(Split(stack, ','), StripEntry, LoadedIn(width))
        invariant old(Probes()) + CheckedProbes(Split(stack, ','), width)
               == Probes() + CheckedProbes(rest, width)
        decreases |rest|
      {
        ghost var probes := Probes();
        sFont := StripEntry(sFont);
        assert sFont == StripEntry(rest[0]);
        var loaded := IsFontLoaded(sFont, width);
        started := true;
        if loaded {
          CheckedProbesStop(rest, sFont, width);
          return Some(sFont);
        }
        CheckedProbesStep(rest, sFont, width);
        AppendAssoc(probes, Probed(sFont, width), CheckedProbes(rest[1..], width));
        rest := rest[1..];
        if aStack == [] {
          sFont := "";
        } else {
          sFont, aStack := aStack[0], aStack[1..];
        }
      }
      return None;
    }
  }

  /** One polling session of `onFontLoaded`: its interval callback is
      `Tick`. */
  class PollSession {
    const detector: Detector
    const name: string
    const hasOnLoad: bool
    const hasOnFail: bool
    const msTimeout: int
    const start: int
    var active: bool
    var events: seq<Event>

    ghost function State(): Session
      reads this
    {
      Session(name, hasOnLoad, hasOnFail, msTimeout, start, active, events)
    }

    constructor (detector: Detector, s: Session)
      ensures this.detector == detector && State() == s
    {
      this.detector := detector;
      name := s.name;
      hasOnLoad := s.hasOnLoad;
      hasOnFail := s.hasOnFail;
      msTimeout := s.msTimeout;
      start := s.start;
      active := s.active;
      events := s.events;
    }

    /** The interval firing at clock reading `now` while the layout is
        `width`: as `Poll.Step` describes, with the presence check run on the
        shared detector. */
    method Tick(now: int, width: string -> int)
      requires active && detector.Valid()
      modifies this, detector, detector.span
      ensures detector.Valid() && detector.isInitialized
      ensures old(detector.isInitialized) ==> detector.span == old(detector.span)
      ensures !old(detector.isInitialized) ==> fresh(detector.span)
      ensures detector.helpersCreated ==
        old(detector.helpersCreated) + if old(detector.isInitialized) then 0 else 1
      ensures State() == Step(old(State()), TickInput(now, Loaded(name, width)))
      ensures detector.Probes() == old(detector.Probes()) + Probed(name, width)
    {
      var loaded := detector.IsFontLoaded(name, width);
      if loaded {
        active := false;
        events := events + [IntervalCleared];
        // `onLoad` is called without checking that it was given
        if hasOnLoad {
          events := events + [LoadCalled(name)];
        } else {
          events := events + [LoadNotAFunction(name)];
        }
        return;
      }
      var utNow := now;
      if utNow - start > msTimeout {
        active := false;
        events := events + [IntervalCleared];
        if hasOnFail {
          events := events + [FailCalled(name)];
        }
      }
    }
  }
}
