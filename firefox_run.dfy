/**
  The Firefox session runner's `main`: launch Firefox, install the HAR
  exporter, set the page-load timeout, install the requested `.xpi`
  extensions into the running browser, measure the page, quit, and write
  the bundle.
*/
module FirefoxRun {
  import opened Wrappers
  import opened Seqs
  import opened Session
  import Extensions

  /** The start of a session: the browser, the exporter, the page-load timeout, then the requested add-ons. */
  function SetupEvents(args: Args, dir: seq<string>): seq<Event> {
    [Launch, InstallAddon(Exporter(Firefox)), SetPageLoadTimeout(args.timeout)]
      + Installs(Firefox, Extensions.Resolve(dir, args.extensions, Suffix(Firefox)))
  }

  /** The end of a session: on success the browser quits and the bundle is written; a crash does neither. */
  function TeardownEvents(out: Outcome): seq<Event> {
    match out
    case Emitted(bundle) => [Quit, Emit(bundle)]
    case Crashed(_) => []
  }

  function ResultOf(out: Outcome): Result<Bundle, Crash> {
    match out
    case Emitted(bundle) => Success(bundle)
    case Crashed(crash) => Failure(crash)
  }

  /** Everything a session that ended with `out` did. */
  function RunTrace(args: Args, dir: seq<string>, started: real, polls: nat, ready: bool, out: Outcome): seq<Event> {
    SetupEvents(args, dir) + MeasureTrace(args, started, polls, ready, ResultOf(out)) + TeardownEvents(out)
  }

  /** The start of `main`: launch, the exporter, the page-load timeout, then the requested add-ons. */
  method Prepare(c: Container, args: Args)
    modifies c
    ensures c.trace == old(c.trace) + SetupEvents(args, c.extensionDir)
    ensures c.now == old(c.now)
  {
    ghost var pre := [Launch, InstallAddon(Exporter(Firefox)), SetPageLoadTimeout(args.timeout)];
    c.Record(Launch);
    c.Record(InstallAddon(Exporter(Firefox)));
    c.Record(SetPageLoadTimeout(args.timeout));
    assert c.trace == old(c.trace) + pre;
    c.AddExtensions(Firefox, args.extensions);
    SeqAssoc(old(c.trace), pre, Installs(Firefox, Extensions.Resolve(c.extensionDir, args.extensions, Suffix(Firefox))));
  }

  /**
    `main` once the command line is parsed. Nothing after an uncaught
    exception happens: a crash quits no browser and writes nothing.
  */
  method Run(c: Container, args: Args) returns (out: Outcome, started: real, ghost polls: nat, ready: bool,
                                                ghost pollEnd: real)
    modifies c
    ensures c.trace == old(c.trace) + RunTrace(args, c.extensionDir, started, polls, ready, out)
    ensures out == Crashed(NegativeSleep) <==> args.extensionsWait < 0
    ensures out == Crashed(PageLoadTimeout) <==> args.extensionsWait >= 0 && !c.pageLoads
    ensures args.extensionsWait >= 0 && c.pageLoads ==> c.Gathered(ResultOf(out), ready)
    ensures polls <= if args.timeout > 0 then args.timeout else 0
    ensures args.extensionsWait >= 0 && c.pageLoads ==>
      started <= pollEnd <= c.now && c.PollEnded(started, args.timeout, pollEnd)
  {
    Prepare(c, args);
    ghost var setup := SetupEvents(args, c.extensionDir);
    var r;
    r, started, polls, ready, pollEnd := c.Measure(args);
    ghost var mt := MeasureTrace(args, started, polls, ready, r);
    out := Teardown(c, r);
    SeqAssoc(old(c.trace), setup, mt);
    SeqAssoc(old(c.trace), setup + mt, TeardownEvents(out));
  }

  /** The end of `main`: the teardown and the bundle after a measurement that returned, nothing after one that raised. */
  method Teardown(c: Container, r: Result<Bundle, Crash>) returns (out: Outcome)
    modifies c
    ensures ResultOf(out) == r
    ensures c.trace == old(c.trace) + TeardownEvents(out) && c.now == old(c.now)
  {
    if r.Failure? {
      return Crashed(r.error);
    }
    c.Record(Quit);
    c.Record(Emit(r.value));
    out := Emitted(r.value);
  }

  /**
    The exporter is installed right after launch and before the page-load
    timeout; the requested add-ons follow in the order of the list, and no
    add-on is installed later.
  */
  lemma ExporterFirst(args: Args, dir: seq<string>, started: real, polls: nat, ready: bool, out: Outcome)
    ensures var t := RunTrace(args, dir, started, polls, ready, out);
      var ext := Extensions.Resolve(dir, args.extensions, Suffix(Firefox));
      && t[0] == Launch && t[1] == InstallAddon(Exporter(Firefox)) && t[2] == SetPageLoadTimeout(args.timeout)
      && (forall i :: 0 <= i < |ext| ==> t[3 + i] == InstallAddon(ext[i]))
      && (forall i :: 3 + |ext| <= i < |t| ==> !t[i].InstallAddon?)
  {
    var ext := Extensions.Resolve(dir, args.extensions, Suffix(Firefox));
    var setup := SetupEvents(args, dir);
    var rest := MeasureTrace(args, started, polls, ready, ResultOf(out)) + TeardownEvents(out);
    SetupInstalls(args, dir);
    NoInstallAfterSetup(args, started, polls, ready, out);
    assert RunTrace(args, dir, started, polls, ready, out) == setup + rest;
    PrefixAndRest(setup, rest);
  }

  lemma SetupInstalls(args: Args, dir: seq<string>)
    ensures var setup := SetupEvents(args, dir);
      var ext := Extensions.Resolve(dir, args.extensions, Suffix(Firefox));
      && |setup| == 3 + |ext|
      && setup[0] == Launch && setup[1] == InstallAddon(Exporter(Firefox)) && setup[2] == SetPageLoadTimeout(args.timeout)
      && forall i :: 0 <= i < |ext| ==> setup[3 + i] == InstallAddon(ext[i])
  {
    var ext := Extensions.Resolve(dir, args.extensions, Suffix(Firefox));
    var pre := [Launch, InstallAddon(Exporter(Firefox)), SetPageLoadTimeout(args.timeout)];
    var ins := Installs(Firefox, ext);
    InstallsAt(Firefox, ext);
    assert forall i :: 0 <= i < |ext| ==> ins[i] == InstallAddon(ext[i]);
    PrefixAndRest(pre, ins);
  }

  lemma NoInstallAfterSetup(args: Args, started: real, polls: nat, ready: bool, out: Outcome)
    ensures var rest := MeasureTrace(args, started, polls, ready, ResultOf(out)) + TeardownEvents(out);
      forall i :: 0 <= i < |rest| ==> !rest[i].InstallAddon? && !rest[i].AddExtension? && !rest[i].Launch?
  {
    var mt := MeasureTrace(args, started, polls, ready, ResultOf(out));
    MeasureTraceEvents(args, started, polls, ready, ResultOf(out));
    PrefixAndRest(mt, TeardownEvents(out));
  }

  /**
    One bundle at most: a session that succeeded quits the browser and then
    writes its bundle as the very last action, and writes nothing before;
    a crashed session neither quits the browser nor writes anything.
  */
  lemma SingleOutput(args: Args, dir: seq<string>, started: real, polls: nat, ready: bool, out: Outcome)
    ensures var t := RunTrace(args, dir, started, polls, ready, out);
      out.Emitted? ==> (|t| >= 2 && t[|t| - 1] == Emit(out.bundle) && t[|t| - 2] == Quit &&
        forall i :: 0 <= i < |t| - 1 ==> !t[i].Emit?)
    ensures var t := RunTrace(args, dir, started, polls, ready, out);
      out.Crashed? ==> forall i :: 0 <= i < |t| ==> !t[i].Emit? && t[i] != Quit
  {
    var body := SetupEvents(args, dir) + MeasureTrace(args, started, polls, ready, ResultOf(out));
    var td := TeardownEvents(out);
    BodySilent(args, dir, started, polls, ready, out);
    assert RunTrace(args, dir, started, polls, ready, out) == body + td;
    assert forall i :: 0 <= i < |body| ==> (body + td)[i] == body[i];
  }

  /** Neither the output nor the browser's shutdown. */
  predicate Silent(e: Event) {
    !e.Emit? && e != Quit
  }

  /** Before the teardown nothing is written and the browser does not quit. */
  lemma BodySilent(args: Args, dir: seq<string>, started: real, polls: nat, ready: bool, out: Outcome)
    ensures var body := SetupEvents(args, dir) + MeasureTrace(args, started, polls, ready, ResultOf(out));
      forall i :: 0 <= i < |body| ==> Silent(body[i])
  {
    var setup := SetupEvents(args, dir);
    var mt := MeasureTrace(args, started, polls, ready, ResultOf(out));
    SetupSilent(args, dir);
    MeasureTraceEvents(args, started, polls, ready, ResultOf(out));
    assert forall i :: 0 <= i < |mt| ==> Silent(mt[i]);
    forall i | 0 <= i < |setup + mt|
      ensures Silent((setup + mt)[i])
    {
      if i < |setup| {
        assert (setup + mt)[i] == setup[i];
      } else {
        assert (setup + mt)[i] == mt[i - |setup|];
      }
    }
  }

  lemma SetupSilent(args: Args, dir: seq<string>)
    ensures var setup := SetupEvents(args, dir);
      forall i :: 0 <= i < |setup| ==> Silent(setup[i])
  {
    var ext := Extensions.Resolve(dir, args.extensions, Suffix(Firefox));
    var setup := SetupEvents(args, dir);
    InstallsAt(Firefox, ext);
    forall i | 0 <= i < |setup|
      ensures Silent(setup[i])
    {
      if i >= 3 {
        assert setup[i] == InstallAddon(ext[i - 3]);
      }
    }
  }

  /** A session that wrote its bundle went through the whole measurement, in its order. */
  lemma EmittedMeasuredFully(args: Args, dir: seq<string>, started: real, polls: nat, ready: bool, out: Outcome)
    requires out.Emitted?
    ensures RunTrace(args, dir, started, polls, ready, out) ==
      SetupEvents(args, dir) + MeasureEvents(args, started, polls, ready) + [Quit, Emit(out.bundle)]
  {
  }
}
