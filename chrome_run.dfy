/**
  The Chrome session runner's `main`: start the virtual display, collect the
  HAR exporter and the requested `.crx` extensions as launch options, launch
  Chrome, set the page-load timeout, measure the page, quit, stop the
  display, and write the bundle.
*/
module ChromeRun {
  import opened Wrappers
  import opened Seqs
  import opened Session
  import Extensions

  /** The add-ons handed to Chrome as launch options: the exporter first, then the requested ones. */
  function SetupEvents(args: Args, dir: seq<string>): seq<Event> {
    [DisplayStart, AddExtension(Exporter(Chrome))]
      + Installs(Chrome, Extensions.Resolve(dir, args.extensions, Suffix(Chrome)))
      + [Launch, SetPageLoadTimeout(args.timeout)]
  }

  /** On success the browser quits, the display stops, and the bundle is written; a crash does none of these. */
  function TeardownEvents(out: Outcome): seq<Event> {
    match out
    case Emitted(bundle) => [Quit, DisplayStop, Emit(bundle)]
    case Crashed(_) => []
  }

  function ResultOf(out: Outcome): Result<Bundle, Crash> {
    match out
    case Emitted(bundle) => Success(bundle)
    case Crashed(crash) => Failure(crash)
  }

  /** Everything a session that ended with `out` did. */
  function RunTrace(args: Args, dir: seq<string>, started: real, polls: nat, ready: bool, out: Outcome): seq<Event> {
    SetupEvents(args, dir) + MeasureTrace(args, started, polls, ready, ResultOf(out)) + TeardownEvents(out)
  }

  /** The start of `main`: the display, then the launch options, then the browser. */
  method Prepare(c: Container, args: Args)
    modifies c
    ensures c.trace == old(c.trace) + SetupEvents(args, c.extensionDir)
    ensures c.now == old(c.now)
  {
    ghost var t0 := c.trace;
    ghost var pre := [DisplayStart, AddExtension(Exporter(Chrome))];
    ghost var ins := Installs(Chrome, Extensions.Resolve(c.extensionDir, args.extensions, Suffix(Chrome)));
    ghost var post := [Launch, SetPageLoadTimeout(args.timeout)];
    c.Record(DisplayStart);
    c.Record(AddExtension(Exporter(Chrome)));
    assert c.trace == t0 + pre;
    c.AddExtensions(Chrome, args.extensions);
    SeqAssoc(t0, pre, ins);
    ghost var t1 := c.trace;
    c.Record(Launch);
    c.Record(SetPageLoadTimeout(args.timeout));
    assert c.trace == t1 + post;
    SeqAssoc(t0, pre + ins, post);
  }

  /**
    `main` once the command line is parsed. Nothing after an uncaught
    exception happens: a crash quits no browser, leaves the display running
    and writes nothing.
  */
  method Run(c: Container, args: Args) returns (out: Outcome, started: real, ghost polls: nat, ready: bool,
                                                ghost pollEnd: real)
    modifies c
    ensures c.trace == old(c.trace) + RunTrace(args, c.extensionDir, started, polls, ready, out)
    ensures out == Crashed(NegativeSleep) <==> args.extensionsWait < 0
    ensures out == Crashed(PageLoadTimeout) <==> args.extensionsWait >= 0 && !c.pageLoads
    ensures args.extensionsWait >= 0 && c.pageLoads ==> c.Gathered(ResultOf(out), ready)
    ensures polls <= if args.timeout > 0 then args.timeout else 0
    ensures args.extensionsWait >= 0 && c.pageLoads ==>
      started <= pollEnd <= c.now && c.PollEnded(started, args.timeout, pollEnd)
  {
    Prepare(c, args);
    ghost var setup := SetupEvents(args, c.extensionDir);
    var r;
    r, started, polls, ready, pollEnd := c.Measure(args);
    ghost var mt := MeasureTrace(args, started, polls, ready, r);
    out := Teardown(c, r);
    SeqAssoc(old(c.trace), setup, mt);
    SeqAssoc(old(c.trace), setup + mt, TeardownEvents(out));
  }

  /** The end of `main`: the teardown and the bundle after a measurement that returned, nothing after one that raised. */
  method Teardown(c: Container, r: Result<Bundle, Crash>) returns (out: Outcome)
    modifies c
    ensures ResultOf(out) == r
    ensures c.trace == old(c.trace) + TeardownEvents(out) && c.now == old(c.now)
  {
    if r.Failure? {
      return Crashed(r.error);
    }
    c.Record(Quit);
    c.Record(DisplayStop);
    c.Record(Emit(r.value));
    out := Emitted(r.value);
  }

  lemma SetupShape(args: Args, dir: seq<string>)
    ensures var setup := SetupEvents(args, dir);
      var ext := Extensions.Resolve(dir, args.extensions, Suffix(Chrome));
      && |setup| == 4 + |ext|
      && setup[0] == DisplayStart && setup[1] == AddExtension(Exporter(Chrome))
      && (forall i :: 0 <= i < |ext| ==> setup[2 + i] == AddExtension(ext[i]))
      && setup[2 + |ext|] == Launch && setup[3 + |ext|] == SetPageLoadTimeout(args.timeout)
  {
    var ext := Extensions.Resolve(dir, args.extensions, Suffix(Chrome));
    var ins := Installs(Chrome, ext);
    InstallsAt(Chrome, ext);
    assert forall i :: 0 <= i < |ext| ==> ins[i] == AddExtension(ext[i]);
    Sandwich([DisplayStart, AddExtension(Exporter(Chrome))], ins, [Launch, SetPageLoadTimeout(args.timeout)]);
  }

  lemma Sandwich(pre: seq<Event>, mid: seq<Event>, post: seq<Event>)
    ensures var s := pre + mid + post;
      && |s| == |pre| + |mid| + |post|
      && (forall i :: 0 <= i < |pre| ==> s[i] == pre[i])
      && (forall i :: 0 <= i < |mid| ==> s[|pre| + i] == mid[i])
      && (forall i :: 0 <= i < |post| ==> s[|pre| + |mid| + i] == post[i])
  {
  }

  /** No event of the measurement or of the teardown adds, launches, starts or shuts anything down before the end. */
  lemma NothingStartsAfterSetup(args: Args, started: real, polls: nat, ready: bool, out: Outcome)
    ensures var rest := MeasureTrace(args, started, polls, ready, ResultOf(out)) + TeardownEvents(out);
      forall i :: 0 <= i < |rest| ==> !rest[i].AddExtension? && !rest[i].Launch? && !rest[i].DisplayStart?
  {
    var mt := MeasureTrace(args, started, polls, ready, ResultOf(out));
    MeasureTraceEvents(args, started, polls, ready, ResultOf(out));
    PrefixAndRest(mt, TeardownEvents(out));
  }

  /**
    Chrome takes its add-ons only at launch: the display starts first, the
    exporter and then the requested extensions, in list order, are added
    before the single launch, and nothing is added, launched or started
    after it.
  */
  lemma ExtensionsBeforeLaunch(args: Args, dir: seq<string>, started: real, polls: nat, ready: bool, out: Outcome)
    ensures var t := RunTrace(args, dir, started, polls, ready, out);
      var ext := Extensions.Resolve(dir, args.extensions, Suffix(Chrome));
      && t[0] == DisplayStart && t[1] == AddExtension(Exporter(Chrome))
      && (forall i :: 0 <= i < |ext| ==> t[2 + i] == AddExtension(ext[i]))
      && t[2 + |ext|] == Launch && t[3 + |ext|] == SetPageLoadTimeout(args.timeout)
      && (forall i :: 4 + |ext| <= i < |t| ==> !t[i].AddExtension? && !t[i].Launch? && !t[i].DisplayStart?)
  {
    var setup := SetupEvents(args, dir);
    var rest := MeasureTrace(args, started, polls, ready, ResultOf(out)) + TeardownEvents(out);
    SetupShape(args, dir);
    NothingStartsAfterSetup(args, started, polls, ready, out);
    assert RunTrace(args, dir, started, polls, ready, out) == setup + rest;
    PrefixAndRest(setup, rest);
  }

  /**
    A session that succeeded ends by quitting the browser, stopping the
    display and writing its one bundle; a crashed session does none of the
    three.
  */
  lemma Shutdown(args: Args, dir: seq<string>, started: real, polls: nat, ready: bool, out: Outcome)
    ensures var t := RunTrace(args, dir, started, polls, ready, out);
      out.Emitted? ==> (|t| >= 3 && t[|t| - 3] == Quit && t[|t| - 2] == DisplayStop && t[|t| - 1] == Emit(out.bundle) &&
        forall i :: 0 <= i < |t| - 1 ==> !t[i].Emit?)
    ensures var t := RunTrace(args, dir, started, polls, ready, out);
      out.Crashed? ==> forall i :: 0 <= i < |t| ==> Quiet(t[i])
  {
    var body := SetupEvents(args, dir) + MeasureTrace(args, started, polls, ready, ResultOf(out));
    QuietUntilTeardown(args, dir, started, polls, ready, out);
    assert RunTrace(args, dir, started, polls, ready, out) == body + TeardownEvents(out);
    if out.Emitted? {
      QuietThenShutdown(body, out.bundle);
    } else {
      assert body + TeardownEvents(out) == body;
    }
  }

  lemma QuietThenShutdown(body: seq<Event>, bundle: Bundle)
    requires forall i :: 0 <= i < |body| ==> Quiet(body[i])
    ensures var t := body + [Quit, DisplayStop, Emit(bundle)];
      |t| >= 3 && t[|t| - 3] == Quit && t[|t| - 2] == DisplayStop && t[|t| - 1] == Emit(bundle) &&
      forall i :: 0 <= i < |t| - 1 ==> !t[i].Emit?
  {
    var t := body + [Quit, DisplayStop, Emit(bundle)];
    forall i | 0 <= i < |t| - 1
      ensures !t[i].Emit?
    {
      if i < |body| {
        assert t[i] == body[i];
      }
    }
  }

  /** Neither the output nor the shutdown of the browser or the display. */
  predicate Quiet(e: Event) {
    !e.Emit? && e != Quit && e != DisplayStop
  }

  lemma QuietUntilTeardown(args: Args, dir: seq<string>, started: real, polls: nat, ready: bool, out: Outcome)
    ensures var body := SetupEvents(args, dir) + MeasureTrace(args, started, polls, ready, ResultOf(out));
      forall i :: 0 <= i < |body| ==> Quiet(body[i])
  {
    var mt := MeasureTrace(args, started, polls, ready, ResultOf(out));
    SetupQuiet(args, dir);
    MeasureTraceEvents(args, started, polls, ready, ResultOf(out));
    assert forall i :: 0 <= i < |mt| ==> Quiet(mt[i]);
    QuietConcat(SetupEvents(args, dir), mt);
  }

  /** The setup neither writes output nor shuts anything down. */
  lemma SetupQuiet(args: Args, dir: seq<string>)
    ensures var setup := SetupEvents(args, dir);
      forall i :: 0 <= i < |setup| ==> Quiet(setup[i])
  {
    var setup := SetupEvents(args, dir);
    var ext := Extensions.Resolve(dir, args.extensions, Suffix(Chrome));
    SetupShape(args, dir);
    forall i | 0 <= i < |setup|
      ensures Quiet(setup[i])
    {
      if 2 <= i < 2 + |ext| {
        assert setup[i] == AddExtension(ext[i - 2]);
      }
    }
  }

  lemma QuietConcat(a: seq<Event>, b: seq<Event>)
    requires forall i :: 0 <= i < |a| ==> Quiet(a[i])
    requires forall i :: 0 <= i < |b| ==> Quiet(b[i])
    ensures forall i :: 0 <= i < |a + b| ==> Quiet((a + b)[i])
  {
    PrefixAndRest(a, b);
  }

  /** A session that wrote its bundle went through the whole measurement, in its order. */
  lemma EmittedMeasuredFully(args: Args, dir: seq<string>, started: real, polls: nat, ready: bool, out: Outcome)
    requires out.Emitted?
    ensures RunTrace(args, dir, started, polls, ready, out) ==
      SetupEvents(args, dir) + MeasureEvents(args, started, polls, ready) + [Quit, DisplayStop, Emit(out.bundle)]
  {
  }
}
