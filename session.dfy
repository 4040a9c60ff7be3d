/**
  What the two session runners share: the container they run in (clock,
  marker file, HAR file, browser, performance sampler) seen through the
  trace of actions the runner performs, and the measurement itself —
  warm-up sleep, sampler start, navigation, the poll loop for the ready
  marker, sampler stop and the HAR read.
*/
module Session {
  import opened Wrappers
  import opened Seqs
  import opened Json
  import PerfEvents
  import Extensions

  const DefaultTimeout: int := 30
  const HarFile: string := "/home/seluser/measure/har.json"

  /** The browser a runner drives. */
  datatype Browser = Firefox | Chrome

  /** The extension file type each browser installs. */
  function Suffix(b: Browser): string {
    match b
    case Firefox => ".xpi"
    case Chrome => ".crx"
  }

  /** The HAR exporter, installed before any other extension. */
  function Exporter(b: Browser): string {
    match b
    case Firefox => "/home/seluser/measure/harexporttrigger-0.6.2-fx.xpi"
    case Chrome => "/home/seluser/measure/harexporttrigger-0.6.3.crx"
  }

  /** The default of `--extensions-wait`. */
  function DefaultExtensionsWait(b: Browser): int {
    match b
    case Firefox => 1
    case Chrome => 15
  }

  /** The parsed command line: `website`, `--timeout`, `--extensions`, `--extensions-wait`. */
  datatype Args = Args(website: string, timeout: int, extensions: Option<string>, extensionsWait: int)

  /** The command line with only the website given. */
  function DefaultArgs(b: Browser, website: string): (args: Args)
    ensures args.timeout == 30 && args.extensions.None?
    ensures args.extensionsWait == (if b.Firefox? then 1 else 15)
  {
    Args(website, DefaultTimeout, None, DefaultExtensionsWait(b))
  }

  /** The object written to standard output: `{'har': har, 'perf': perf_data}`. */
  datatype Bundle = Bundle(har: Json, perf: PerfEvents.PerfMap)

  /** The actions of a runner, in the order it performs them. */
  datatype Event =
    | DisplayStart                       // the virtual X display starts
    | AddExtension(path: string)         // an extension is added to the browser options
    | Launch                             // the browser starts
    | InstallAddon(path: string)         // an add-on is installed into the running browser
    | SetPageLoadTimeout(seconds: int)
    | PerfCreate(timeout: int)           // the sampler thread is created
    | Sleep(seconds: int)
    | PerfStart(timeout: int)            // the sampler thread starts `PerfEvents.RecordCommand(timeout)`
    | Started(at: real)                  // the navigation start time is taken
    | Get(url: string)                   // the browser navigates
    | PerfStop                           // the sampler is stopped and its output parsed
    | ReadHar                            // har.json is read and parsed
    | Quit                               // the browser quits
    | DisplayStop
    | Emit(bundle: Bundle)               // the bundle is written to standard output

  /** The uncaught exception that ends a runner without output. */
  datatype Crash =
    | NegativeSleep                          // `time.sleep` on a negative `--extensions-wait`
    | PageLoadTimeout                        // `driver.get` exceeded the page-load timeout
    | PerfFailure(error: PerfEvents.PerfError)
    | HarDecodeError(msg: string)            // `json.load` rejected har.json

  datatype Outcome = Emitted(bundle: Bundle) | Crashed(crash: Crash)

  /** The event that installs the extension at `path`: into the running Firefox, or into Chrome's options. */
  function InstallEvent(b: Browser, path: string): Event {
    match b
    case Firefox => InstallAddon(path)
    case Chrome => AddExtension(path)
  }

  /** The installation events for `paths`, in order. */
  function Installs(b: Browser, paths: seq<string>): (es: seq<Event>)
    ensures |es| == |paths|
  {
    if paths == [] then [] else Installs(b, paths[..|paths| - 1]) + [InstallEvent(b, paths[|paths| - 1])]
  }

  lemma InstallsSnoc(b: Browser, paths: seq<string>, p: string)
    ensures Installs(b, paths + [p]) == Installs(b, paths) + [InstallEvent(b, p)]
  {
    assert (paths + [p])[..|paths|] == paths;
  }

  lemma {:induction false} InstallsAppend(b: Browser, a: seq<string>, c: seq<string>)
    ensures Installs(b, a + c) == Installs(b, a) + Installs(b, c)
    decreases |c|
  {
    if c == [] {
      assert a + c == a;
    } else {
      assert (a + c)[..|a + c| - 1] == a + c[..|c| - 1];
      InstallsAppend(b, a, c[..|c| - 1]);
    }
  }

  /** The extension loop's step: the names so far, then one more. */
  lemma InstallsStep(b: Browser, dir: seq<string>, names: seq<string>, i: nat)
    requires i < |names|
    ensures Installs(b, Extensions.Installed(dir, names[..i + 1], Suffix(b))) ==
      Installs(b, Extensions.Installed(dir, names[..i], Suffix(b))) + Installs(b, Extensions.Installed(dir, [names[i]], Suffix(b)))
  {
    assert names[..i + 1] == names[..i] + [names[i]];
    Extensions.InstalledAppend(dir, names[..i], [names[i]], Suffix(b));
    InstallsAppend(b, Extensions.Installed(dir, names[..i], Suffix(b)), Extensions.Installed(dir, [names[i]], Suffix(b)));
  }

  lemma {:induction false} InstallsAt(b: Browser, paths: seq<string>)
    ensures forall i :: 0 <= i < |paths| ==> Installs(b, paths)[i] == InstallEvent(b, paths[i])
  {
    if paths != [] {
      InstallsAt(b, paths[..|paths| - 1]);
    }
  }

  /** `n` one-second sleeps of the poll loop. */
  function PollEvents(n: nat): (es: seq<Event>)
    ensures |es| == n && forall i :: 0 <= i < n ==> es[i] == Sleep(1)
  {
    if n == 0 then [] else PollEvents(n - 1) + [Sleep(1)]
  }

  /** The measurement up to and including the navigation. */
  function PageLoadEvents(args: Args, started: real): seq<Event> {
    [PerfCreate(args.timeout), Sleep(args.extensionsWait), PerfStart(args.timeout),
     Started(started), Get(args.website)]
  }

  /**
    A whole measurement: the page load, `polls` poll-loop sleeps, the
    sampler stop, and the HAR read when the marker was `ready`.
  */
  function MeasureEvents(args: Args, started: real, polls: nat, ready: bool): (es: seq<Event>)
    ensures |es| == 6 + polls + (if ready then 1 else 0)
  {
    PageLoadEvents(args, started) + PollEvents(polls) + [PerfStop] + (if ready then [ReadHar] else [])
  }

  /**
    What a measurement that returned `r` did: an uncaught exception cuts
    the whole measurement short at the step that raised.
  */
  function MeasureTrace(args: Args, started: real, polls: nat, ready: bool, r: Result<Bundle, Crash>): seq<Event> {
    match r
    case Failure(NegativeSleep) => [PerfCreate(args.timeout)]
    case Failure(PageLoadTimeout) => PageLoadEvents(args, started)
    case _ => PageLoadEvents(args, started) + PollEvents(polls) + GatherEvents(r, ready)
  }

  /** What happens after the poll loop: the sampler stops, then the HAR is read if the marker was `ready`, unless parsing the sampler's output raised. */
  function GatherEvents(r: Result<Bundle, Crash>, ready: bool): seq<Event> {
    if r.Failure? && r.error.PerfFailure? then [PerfStop]
    else [PerfStop] + (if ready then [ReadHar] else [])
  }

  lemma MeasureTraceCut(args: Args, started: real, polls: nat, ready: bool, r: Result<Bundle, Crash>)
    requires r == Failure(NegativeSleep) || r == Failure(PageLoadTimeout)
    ensures r == Failure(NegativeSleep) ==> MeasureTrace(args, started, polls, ready, r) == [PerfCreate(args.timeout)]
    ensures r == Failure(PageLoadTimeout) ==> MeasureTrace(args, started, polls, ready, r) == PageLoadEvents(args, started)
  {
  }

  lemma MeasureTraceWhole(args: Args, started: real, polls: nat, ready: bool, r: Result<Bundle, Crash>)
    requires r.Success? || r.error.PerfFailure? || r.error.HarDecodeError?
    ensures MeasureTrace(args, started, polls, ready, r) == PageLoadEvents(args, started) + PollEvents(polls) + GatherEvents(r, ready)
  {
  }

  /** A cut-short measurement is a prefix of the whole one. */
  lemma MeasureTracePrefix(args: Args, started: real, polls: nat, ready: bool, r: Result<Bundle, Crash>)
    ensures var t := MeasureTrace(args, started, polls, ready, r);
      t == MeasureEvents(args, started, polls, ready)[..|t|]
  {
    var pl := PageLoadEvents(args, started);
    var es := MeasureEvents(args, started, polls, ready);
    assert es == pl + PollEvents(polls) + [PerfStop] + (if ready then [ReadHar] else []);
    assert es[..|pl|] == pl;
    assert es[..|pl| + polls + 1] == pl + PollEvents(polls) + [PerfStop];
  }

  /** The actions a measurement consists of: no browser start, installation, teardown or output. */
  predicate IsMeasureEvent(e: Event) {
    e.PerfCreate? || e.Sleep? || e.PerfStart? || e.Started? || e.Get? || e.PerfStop? || e.ReadHar?
  }

  lemma MeasureTraceEvents(args: Args, started: real, polls: nat, ready: bool, r: Result<Bundle, Crash>)
    ensures forall i :: 0 <= i < |MeasureTrace(args, started, polls, ready, r)| ==>
      IsMeasureEvent(MeasureTrace(args, started, polls, ready, r)[i])
  {
    var pl := PageLoadEvents(args, started);
    var pe := PollEvents(polls);
    var ge := GatherEvents(r, ready);
    assert forall i :: 0 <= i < |pl| ==> IsMeasureEvent(pl[i]);
    assert forall i :: 0 <= i < |ge| ==> IsMeasureEvent(ge[i]);
    var rest := pl + pe + ge;
    forall i | 0 <= i < |rest|
      ensures IsMeasureEvent(rest[i])
    {
      if i < |pl| {
        assert rest[i] == pl[i];
      } else if i < |pl| + |pe| {
        assert rest[i] == pe[i - |pl|];
      } else {
        assert rest[i] == ge[i - |pl| - |pe|];
      }
    }
  }

  /**
    A measurement's order: the sampler is created, then the warm-up sleep,
    then the sampler starts a recording that sleeps `timeout + 1` seconds,
    then the start time is taken, then the navigation; after the poll
    sleeps the sampler is stopped exactly once, and the HAR is read only
    after that, when the marker was there (`StopsOnce` and `ReadsIfReady`
    count them).
  */
  lemma MeasureOrder(args: Args, started: real, polls: nat, ready: bool)
    ensures var es := MeasureEvents(args, started, polls, ready);
      && es[0] == PerfCreate(args.timeout) && es[1] == Sleep(args.extensionsWait)
      && es[2] == PerfStart(args.timeout)
      && es[3] == Started(started) && es[4] == Get(args.website)
      && (forall i :: 5 <= i < 5 + polls ==> es[i] == Sleep(1))
      && es[5 + polls] == PerfStop
      && (ready ==> es[6 + polls] == ReadHar)
  {
    var pl := PageLoadEvents(args, started);
    var pe := PollEvents(polls);
    var tail := if ready then [ReadHar] else [];
    var es := MeasureEvents(args, started, polls, ready);
    assert es == pl + (pe + ([PerfStop] + tail));
    assert forall i :: 0 <= i < |pe| ==> es[5 + i] == pe[i];
  }

  /** The sampler is stopped exactly once in a whole measurement. */
  lemma StopsOnce(args: Args, started: real, polls: nat, ready: bool)
    ensures multiset(MeasureEvents(args, started, polls, ready))[PerfStop] == 1
  {
    var before := PageLoadEvents(args, started) + PollEvents(polls);
    var tail := if ready then [ReadHar] else [];
    assert MeasureEvents(args, started, polls, ready) == before + [PerfStop] + tail;
    assert PerfStop !in before;
    OnceBetween(before, PerfStop, tail);
  }

  /** har.json is read once in a whole measurement when the marker was there, and never otherwise. */
  lemma ReadsIfReady(args: Args, started: real, polls: nat, ready: bool)
    ensures multiset(MeasureEvents(args, started, polls, ready))[ReadHar] == (if ready then 1 else 0)
  {
    var before := PageLoadEvents(args, started) + PollEvents(polls) + [PerfStop];
    var tail := if ready then [ReadHar] else [];
    assert MeasureEvents(args, started, polls, ready) == before + tail;
    assert ReadHar !in before;
    if ready {
      OnceBetween(before, ReadHar, []);
      assert before + [ReadHar] + [] == before + tail;
    } else {
      assert before + tail == before;
    }
  }

  lemma OnceBetween<T>(a: seq<T>, x: T, b: seq<T>)
    requires x !in a && x !in b
    ensures multiset(a + [x] + b)[x] == 1
  {
    assert multiset(a + [x] + b) == multiset(a) + multiset{x} + multiset(b);
  }

  /**
    The container a runner executes in. The wall clock advances by at least
    a second per second slept; har_catcher creates the ready marker at
    `markerAt`, if ever, and it stays; `harContent` is what `json.load`
    makes of har.json; `perfScript` is what the sampler's script prints.
  */
  class Container {
    var now: real
    const markerAt: Option<real>
    const harContent: Result<Json, string>
    const pageLoads: bool
    const perfScript: string
    const extensionDir: seq<string>
    var trace: seq<Event>

    constructor (start: real, markerAt: Option<real>, harContent: Result<Json, string>, pageLoads: bool,
                 perfScript: string, extensionDir: seq<string>)
      ensures this.now == start && this.markerAt == markerAt && this.harContent == harContent
      ensures this.pageLoads == pageLoads && this.perfScript == perfScript && this.extensionDir == extensionDir
      ensures trace == []
    {
      this.now := start;
      this.markerAt := markerAt;
      this.harContent := harContent;
      this.pageLoads := pageLoads;
      this.perfScript := perfScript;
      this.extensionDir := extensionDir;
      this.trace := [];
    }

    /** `pathlib.Path(har_file + ".ready").exists()` now. */
    predicate MarkerExists()
      reads this`now
    {
      markerAt.Some? && markerAt.value <= now
    }

    /** Why the wait for `har.json.ready` may stop at time `at`: the marker is there, or the timeout has run out. */
    predicate PollEnded(started: real, timeout: int, at: real) {
      (markerAt.Some? && markerAt.value <= at) || at - started >= timeout as real
    }

    /** An action that takes no time. */
    method Record(e: Event)
      modifies this
      ensures trace == old(trace) + [e] && now == old(now)
    {
      trace := trace + [e];
    }

    /** `time.sleep(seconds)`: at least that long; a negative length raises and nothing happens. */
    method Sleep(seconds: int) returns (ok: bool)
      modifies this
      ensures ok <==> seconds >= 0
      ensures ok ==> trace == old(trace) + [Event.Sleep(seconds)] && now >= old(now) + seconds as real
      ensures !ok ==> trace == old(trace) && now == old(now)
    {
      if seconds < 0 {
        return false;
      }
      var overrun: real :| overrun >= 0.0;
      now := now + seconds as real + overrun;
      trace := trace + [Event.Sleep(seconds)];
      ok := true;
    }

    /** `driver.get(url)`: returns when the page has loaded, or raises on the page-load timeout. */
    method Navigate(url: string) returns (ok: bool)
      modifies this
      ensures ok == pageLoads
      ensures trace == old(trace) + [Get(url)] && now >= old(now)
    {
      var took: real :| took >= 0.0;
      now := now + took;
      trace := trace + [Get(url)];
      ok := pageLoads;
    }

    /** `perf.stop()`: ends the recording and parses the script output. */
    method StopPerf() returns (r: Result<PerfEvents.PerfMap, PerfEvents.PerfError>)
      modifies this
      ensures trace == old(trace) + [PerfStop] && now >= old(now)
      ensures r.Success? <==> PerfEvents.Samples(perfScript).Success?
      ensures r.Failure? ==> r.error == PerfEvents.Samples(perfScript).error
      ensures r.Success? ==> PerfEvents.Summarises(r.value, perfScript)
    {
      var took: real :| took >= 0.0;
      now := now + took;
      trace := trace + [PerfStop];
      r := PerfEvents.Parse(perfScript);
    }

    /** `json.load` on har.json. */
    method ReadHar() returns (r: Result<Json, string>)
      modifies this
      ensures trace == old(trace) + [Event.ReadHar] && now == old(now)
      ensures r == harContent
    {
      trace := trace + [Event.ReadHar];
      r := harContent;
    }

    /** Installs the extensions `--extensions` asks for; nothing when it is absent or empty. */
    method AddExtensions(b: Browser, requested: Option<string>)
      modifies this
      ensures trace == old(trace) + Installs(b, Extensions.Resolve(extensionDir, requested, Suffix(b)))
      ensures now == old(now)
    {
      if requested.Some? && requested.value != "" {
        AddEach(b, Extensions.Split(requested.value, Extensions.Comma));
      }
    }

    /**
      The extension loop: for each name, install the file matching
      `<name>*<suffix>` when it is the only match.
    */
    method AddEach(b: Browser, names: seq<string>)
      modifies this
      ensures trace == old(trace) + Installs(b, Extensions.Installed(extensionDir, names, Suffix(b)))
      ensures now == old(now)
    {
      var i := 0;
      ghost var done: seq<Event> := [];
      while i < |names|
        invariant 0 <= i <= |names|
        invariant done == Installs(b, Extensions.Installed(extensionDir, names[..i], Suffix(b)))
        invariant trace == old(trace) + done
        invariant now == old(now)
      {
        ghost var one := Installs(b, Extensions.Installed(extensionDir, [names[i]], Suffix(b)));
        AddExtension(b, names[i]);
        InstallsStep(b, extensionDir, names, i);
        SeqAssoc(old(trace), done, one);
        done := done + one;
        i := i + 1;
      }
      assert names[..i] == names;
    }

    /** One pass of the extension loop: glob for `<name>*<suffix>` and install the single match. */
    method AddExtension(b: Browser, name: string)
      modifies this
      ensures trace == old(trace) + Installs(b, Extensions.Installed(extensionDir, [name], Suffix(b)))
      ensures now == old(now)
    {
      Extensions.InstalledOne(extensionDir, name, Suffix(b));
      var matches := Extensions.Glob(extensionDir, name, Suffix(b));
      if |matches| > 0 && |matches| == 1 {
        Record(InstallEvent(b, Extensions.PathOf(matches[0])));
        assert [InstallEvent(b, Extensions.PathOf(matches[0]))] == Installs(b, [Extensions.PathOf(matches[0])]);
      }
    }

    /**
      The poll loop: sleep a second at a time while less than `timeout`
      seconds have passed since `started` and the marker is absent.
    */
    method PollForMarker(started: real, timeout: int) returns (ghost polls: nat, ghost lastCheck: real)
      requires now >= started
      modifies this
      ensures trace == old(trace) + PollEvents(polls)
      ensures now >= old(now) + polls as real
      ensures MarkerExists() || now - started >= timeout as real
      ensures polls <= if timeout > 0 then timeout else 0
      ensures old(MarkerExists()) || old(now) - started >= timeout as real ==> polls == 0
      ensures polls > 0 ==>
        && old(now) <= lastCheck < now
        && !(markerAt.Some? && markerAt.value <= lastCheck)
        && lastCheck - started < timeout as real
    {
      polls, lastCheck := 0, now;
      while now - started < timeout as real && !MarkerExists()
        invariant trace == old(trace) + PollEvents(polls)
        invariant now >= old(now) + polls as real
        invariant polls <= if timeout > 0 then timeout else 0
        invariant polls > 0 ==>
          && old(now) <= lastCheck < now
          && !(markerAt.Some? && markerAt.value <= lastCheck)
          && lastCheck - started < timeout as real
        decreases (timeout as real - (now - started)).Floor
      {
        lastCheck := now;
        var _ := Sleep(1);
        polls := polls + 1;
      }
    }

    /**
      The measurement up to the navigation: the sampler is created, the
      warm-up sleep runs, the sampler starts, the start time is taken and
      the page is requested. A negative warm-up raises before anything
      else; a page-load timeout raises out of the navigation.
    */
    method LoadPage(args: Args) returns (crash: Option<Crash>, started: real)
      modifies this
      ensures crash == Some(NegativeSleep) <==> args.extensionsWait < 0
      ensures crash == Some(PageLoadTimeout) <==> args.extensionsWait >= 0 && !pageLoads
      ensures crash.None? || crash == Some(NegativeSleep) || crash == Some(PageLoadTimeout)
      ensures crash == Some(NegativeSleep) ==> trace == old(trace) + [PerfCreate(args.timeout)]
      ensures crash != Some(NegativeSleep) ==> trace == old(trace) + PageLoadEvents(args, started)
      ensures now >= old(now) && now >= started
    {
      started := now;
      Record(PerfCreate(args.timeout));
      var slept := Sleep(args.extensionsWait);
      if !slept {
        return Some(NegativeSleep), started;
      }
      Record(PerfStart(args.timeout));
      started := now;
      Record(Started(started));
      var loaded := Navigate(args.website);
      crash := if loaded then None else Some(PageLoadTimeout);
    }

    /**
      What the end of a measurement returns: the sampler's parse error, or
      else the HAR's decode error when the marker was `ready` (checked now),
      or else the bundle of the parsed HAR (`{}` when not ready) and the
      per-event sums of the sampler's output.
    */
    predicate Gathered(r: Result<Bundle, Crash>, ready: bool)
      reads this`now
    {
      var samples := PerfEvents.Samples(perfScript);
      && (r.Failure? ==> r.error.PerfFailure? || r.error.HarDecodeError?)
      && ((r.Failure? && r.error.PerfFailure?) <==> samples.Failure?)
      && (r.Failure? && r.error.PerfFailure? ==> r.error.error == samples.error)
      && (r.Failure? && r.error.HarDecodeError? ==> ready && harContent == Failure(r.error.msg))
      && (r.Success? || r.error.HarDecodeError? ==> ready == MarkerExists())
      && (r.Success? ==> PerfEvents.Summarises(r.value.perf, perfScript))
      && (r.Success? ==> (ready ==> harContent.Success? && r.value.har == harContent.value))
      && (r.Success? ==> (!ready ==> r.value.har == EmptyObject))
    }

    /**
      After the poll loop: the sampler is stopped and its output parsed,
      then har.json is read if the marker exists now (`ready`); otherwise
      the HAR stays `{}`.
    */
    method Gather() returns (r: Result<Bundle, Crash>, ready: bool)
      modifies this
      ensures trace == old(trace) + GatherEvents(r, ready)
      ensures Gathered(r, ready)
      ensures now >= old(now)
    {
      var perf := StopPerf();
      ready := false;
      if perf.Failure? {
        return Failure(PerfFailure(perf.error)), ready;
      }
      ready := MarkerExists();
      var har := EmptyObject;
      if ready {
        var content := ReadHar();
        if content.Failure? {
          return Failure(HarDecodeError(content.error)), ready;
        }
        har := content.value;
      }
      r := Success(Bundle(har, perf.value));
    }

    /**
      The measurement of one page: `LoadPage`, the poll loop, `Gather`. An
      uncaught exception stops it where it arises. `ready` is whether the
      marker existed at the re-check after the sampler stopped.
    */
    method Measure(args: Args) returns (r: Result<Bundle, Crash>, started: real, ghost polls: nat, ready: bool,
                                        ghost pollEnd: real)
      modifies this
      ensures trace == old(trace) + MeasureTrace(args, started, polls, ready, r)
      ensures r == Failure(NegativeSleep) <==> args.extensionsWait < 0
      ensures r == Failure(PageLoadTimeout) <==> args.extensionsWait >= 0 && !pageLoads
      ensures args.extensionsWait >= 0 && pageLoads ==> Gathered(r, ready)
      ensures polls <= if args.timeout > 0 then args.timeout else 0
      ensures args.extensionsWait >= 0 && pageLoads ==>
        started <= pollEnd <= now && PollEnded(started, args.timeout, pollEnd)
      ensures now >= old(now)
    {
      polls, ready := 0, false;
      var crash;
      crash, started := LoadPage(args);
      pollEnd := started;
      if crash.Some? {
        r := Failure(crash.value);
        MeasureTraceCut(args, started, polls, ready, r);
        return;
      }
      ghost var t1 := trace;
      ghost var pl := PageLoadEvents(args, started);
      assert t1 == old(trace) + pl;
      ghost var lastCheck;
      polls, lastCheck := PollForMarker(started, args.timeout);
      pollEnd := now;
      ghost var t2 := trace;
      ghost var pe := PollEvents(polls);
      assert t2 == t1 + pe;
      r, ready := Gather();
      ghost var ge := GatherEvents(r, ready);
      assert trace == t2 + ge;
      MeasureTraceWhole(args, started, polls, ready, r);
      SeqAssoc(old(trace), pl, pe);
      SeqAssoc(old(trace), pl + pe, ge);
      assert trace == old(trace) + (pl + pe + ge);
    }
  }
}
