/**
  The experiment loop of the wrapper: `run` visits every domain in a
  shuffled order. Each domain gets a warm-up visit without extensions and
  without a database, which fills the upstream DNS cache. Then it gets one
  visit per extension configuration, in a fresh shuffled order, and each of
  those visits stores its result. `run_configuration` performs one visit.
  It catches every exception, so no failure ends the experiment.

  The container's output, the HAR's `uuid1`, and the insertion time of each
  visit come from the environment, indexed by the number of the visit.
*/
module Orchestrator {
  import opened Wrappers
  import opened Json
  import opened Sanitizer
  import opened Database

  /** What the environment supplies to the `n`-th visit. */
  datatype Environment = Environment(
    container: nat -> ContainerOutput,
    uuid: nat -> string,
    clock: nat -> int,
    loads: string -> Result<Json, PyException>,
    dumps: Json -> string)

  /** An exception that `run_configuration` catches and logs. */
  datatype Escaped = FromSanitiser(e: PyException) | FromStore(r: Raised)

  /** What `run_configuration` logs at the end of one visit. */
  datatype Outcome =
    | Saved                    // insert returned None
    | NotSaved(error: DbError) // insert returned the exception of the failed command
    | Unstored                 // no database: the warm-up visit
    | Caught(e: Escaped)       // "Unknown error for domain ..."

  /** One call of `run_configuration`: the domain, the extensions, and whether a database was passed. */
  datatype Visit = Visit(domain: string, extensions: string, stored: bool)

  /**
    `random.shuffle`: Fisher-Yates from the end. Each swap partner is any
    index up to the current position, so this covers every order the random
    generator could pick.
  */
  method Shuffle(a: array<string>)
    modifies a
    ensures multiset(a[..]) == old(multiset(a[..]))
  {
    var i := a.Length;
    while i > 1
      invariant 0 <= i <= a.Length
      invariant multiset(a[..]) == old(multiset(a[..]))
    {
      i := i - 1;
      var j :| 0 <= j <= i;
      a[i], a[j] := a[j], a[i];
    }
  }

  /** The row the `n`-th visit would insert for a sanitiser result. */
  function VisitRow(env: Environment, n: nat, experiment: string, browser: string, extensions: string,
                    domain: string, x: Extended): Row {
    RowOf(experiment, env.clock(n), browser, extensions, domain, env.uuid(n), x.har, x.error)
  }

  /**
    `run_configuration` for the `n`-th visit. Only a visit with a database
    inserts anything. "Saved" means that the insert reported no error. Every
    exception is caught and becomes an outcome.
  */
  method RunConfiguration(db: Store?, env: Environment, n: nat, experiment: string, browser: string,
                          extensions: string, domain: string)
    returns (outcome: Outcome)
    modifies db
    ensures var x := ExtendedHar(env.container(n), env.loads, env.dumps);
      x.Failure? ==> outcome == Caught(FromSanitiser(x.error)) && (db != null ==> unchanged(db))
    ensures var x := ExtendedHar(env.container(n), env.loads, env.dumps);
      x.Success? && db == null ==> outcome == Unstored
    ensures var x := ExtendedHar(env.container(n), env.loads, env.dumps);
      x.Success? && db != null && !Reachable(old(db.conn), db.serverUp) ==>
        outcome == Caught(FromStore(Unreachable(old(db.conn)))) && db.conn == Flagged(old(db.conn)) && db.table == old(db.table)
    ensures var x := ExtendedHar(env.container(n), env.loads, env.dumps);
      x.Success? && db != null && Reachable(old(db.conn), db.serverUp) ==>
        var cmd := InsertRow(VisitRow(env, n, experiment, browser, extensions, domain, x.value));
        var before := Prepared(old(db.conn), old(db.table), db.acceptsDdl);
        && db.conn == Open
        && (outcome == Saved <==> Apply(cmd, before, db.accepts, db.acceptsDdl).Some?)
        && (outcome == Saved ==> db.table == Apply(cmd, before, db.accepts, db.acceptsDdl).value)
        && (outcome != Saved ==> outcome == NotSaved(Rejected(cmd)) && db.table == before)
  {
    var extended := GetExtendedHar(env.container(n), env.loads, env.dumps);
    if extended.Failure? {
      return Caught(FromSanitiser(extended.error));
    }
    var harUuid := env.uuid(n);
    if db == null {
      return Unstored;
    }
    var rv := db.Insert(experiment, env.clock(n), browser, extensions, domain, harUuid,
                        extended.value.har, extended.value.error);
    if rv.Failure? {
      return Caught(FromStore(rv.error));
    }
    if rv.value.None? {
      outcome := Saved;
    } else {
      outcome := NotSaved(rv.value.value);
    }
  }

  /** Whether an outcome leaves the database alone. */
  predicate Unwritten(o: Outcome) {
    o == Unstored || (o.Caught? && o.e.FromSanitiser?)
  }

  /** The stored visits of one domain, one per configuration in the given order. */
  function StoredVisits(domain: string, configs: seq<string>): (vs: seq<Visit>)
    ensures |vs| == |configs|
    ensures forall i :: 0 <= i < |configs| ==> vs[i] == Visit(domain, configs[i], true)
  {
    if configs == [] then [] else StoredVisits(domain, configs[..|configs| - 1]) + [Visit(domain, configs[|configs| - 1], true)]
  }

  /** One more configuration of the round appends its visit. */
  lemma StoredVisitsNext(domain: string, round: seq<string>, c: nat)
    requires c < |round|
    ensures StoredVisits(domain, round[..c + 1]) == StoredVisits(domain, round[..c]) + [Visit(domain, round[c], true)]
  {
    assert round[..c + 1][..c] == round[..c];
  }

  /** The visits for all domains: per domain the warm-up, then that domain's configurations. */
  function Schedule(domains: seq<string>, rounds: seq<seq<string>>): (vs: seq<Visit>)
    requires |domains| == |rounds|
  {
    if domains == [] then []
    else
      var n := |domains| - 1;
      Schedule(domains[..n], rounds[..n]) + [Visit(domains[n], "", false)] + StoredVisits(domains[n], rounds[n])
  }

  /** Whether the visits without a database left it alone; `outcomes` holds one outcome per visit. */
  predicate WarmupsUnwritten(visits: seq<Visit>, outcomes: seq<Outcome>) {
    |outcomes| == |visits| && forall i :: 0 <= i < |visits| && !visits[i].stored ==> Unwritten(outcomes[i])
  }

  lemma WarmupsUnwrittenAppend(v1: seq<Visit>, o1: seq<Outcome>, v2: seq<Visit>, o2: seq<Outcome>)
    requires WarmupsUnwritten(v1, o1) && WarmupsUnwritten(v2, o2)
    ensures WarmupsUnwritten(v1 + v2, o1 + o2)
  {
    forall i | 0 <= i < |v1 + v2| && !(v1 + v2)[i].stored
      ensures Unwritten((o1 + o2)[i])
    {
      if i < |v1| {
        assert (v1 + v2)[i] == v1[i] && (o1 + o2)[i] == o1[i];
      } else {
        assert (v1 + v2)[i] == v2[i - |v1|] && (o1 + o2)[i] == o2[i - |v1|];
      }
    }
  }

  /**
    The body of the outer loop of `run` for one domain, from visit number
    `n` on: the warm-up, then a fresh shuffle of the configurations, then
    one visit per configuration in that order.
  */
  method VisitDomain(db: Store?, env: Environment, n: nat, experiment: string, browser: string,
                     configurations: array<string>, domain: string)
    returns (visits: seq<Visit>, outcomes: seq<Outcome>, ghost round: seq<string>)
    modifies db, configurations
    ensures multiset(configurations[..]) == old(multiset(configurations[..]))
    ensures round == configurations[..]
    ensures visits == [Visit(domain, "", false)] + StoredVisits(domain, round)
    ensures WarmupsUnwritten(visits, outcomes)
  {
    var warmup := RunConfiguration(null, env, n, experiment, browser, "", domain);
    visits, outcomes := [Visit(domain, "", false)], [warmup];
    Shuffle(configurations);
    round := configurations[..];
    for c := 0 to configurations.Length
      invariant configurations[..] == round
      invariant visits == [Visit(domain, "", false)] + StoredVisits(domain, round[..c])
      invariant |outcomes| == |visits| && Unwritten(outcomes[0])
    {
      var o := RunConfiguration(db, env, n + |visits|, experiment, browser, configurations[c], domain);
      StoredVisitsNext(domain, round, c);
      visits, outcomes := visits + [Visit(domain, configurations[c], true)], outcomes + [o];
    }
    assert round[..configurations.Length] == round;
  }

  /**
    `run`: shuffle the domains once, then for each domain a warm-up visit
    without a database, and then each configuration in a freshly shuffled
    order. The ghost `rounds` records the configuration order used for
    each domain.
  */
  method Run(db: Store?, env: Environment, experiment: string, browser: string,
             configurations: array<string>, domains: array<string>)
    returns (visits: seq<Visit>, outcomes: seq<Outcome>, ghost rounds: seq<seq<string>>)
    requires configurations != domains
    modifies db, configurations, domains
    ensures multiset(domains[..]) == old(multiset(domains[..]))
    ensures multiset(configurations[..]) == old(multiset(configurations[..]))
    ensures |rounds| == domains.Length
    ensures forall d :: 0 <= d < |rounds| ==> multiset(rounds[d]) == old(multiset(configurations[..]))
    ensures visits == Schedule(domains[..], rounds)
    ensures WarmupsUnwritten(visits, outcomes)
  {
    ghost var configs0 := multiset(configurations[..]);
    Shuffle(domains);
    ghost var order := domains[..];
    visits, outcomes, rounds := [], [], [];
    for d := 0 to domains.Length
      invariant domains[..] == order
      invariant multiset(configurations[..]) == configs0
      invariant |rounds| == d
      invariant forall e :: 0 <= e < d ==> multiset(rounds[e]) == configs0
      invariant visits == Schedule(order[..d], rounds)
      invariant WarmupsUnwritten(visits, outcomes)
    {
      var block, outs, round := VisitDomain(db, env, |visits|, experiment, browser, configurations, domains[d]);
      WarmupsUnwrittenAppend(visits, outcomes, block, outs);
      ScheduleNext(order, rounds, round);
      visits, outcomes, rounds := visits + block, outcomes + outs, rounds + [round];
    }
    assert order[..domains.Length] == order;
  }

  /** One more domain appends its warm-up and then its configurations. */
  lemma ScheduleNext(order: seq<string>, rounds: seq<seq<string>>, round: seq<string>)
    requires |rounds| < |order|
    ensures var d := |rounds|;
      Schedule(order[..d + 1], rounds + [round]) ==
        Schedule(order[..d], rounds) + ([Visit(order[d], "", false)] + StoredVisits(order[d], round))
  {
    var d := |rounds|;
    assert order[..d + 1][..d] == order[..d];
    assert (rounds + [round])[..d] == rounds;
  }

  /** Every domain costs one warm-up and one visit per configuration: `|domains|·(1+|configs|)` visits. */
  lemma {:induction false} ScheduleLength(domains: seq<string>, rounds: seq<seq<string>>, k: nat)
    requires |domains| == |rounds|
    requires forall d :: 0 <= d < |rounds| ==> |rounds[d]| == k
    ensures |Schedule(domains, rounds)| == |domains| * (1 + k)
  {
    if domains != [] {
      var n := |domains| - 1;
      ScheduleLength(domains[..n], rounds[..n], k);
      assert |domains| * (1 + k) == n * (1 + k) + (1 + k);
    }
  }

  /** The visits for the first `m` domains come first. */
  lemma {:induction false} SchedulePrefix(domains: seq<string>, rounds: seq<seq<string>>, m: nat)
    requires |domains| == |rounds| && m <= |domains|
    ensures Schedule(domains[..m], rounds[..m]) <= Schedule(domains, rounds)
    decreases |domains|
  {
    if m < |domains| {
      var n := |domains| - 1;
      SchedulePrefix(domains[..n], rounds[..n], m);
      assert domains[..n][..m] == domains[..m];
      assert rounds[..n][..m] == rounds[..m];
    } else {
      assert domains[..m] == domains && rounds[..m] == rounds;
    }
  }

  /**
    Domain `d`'s block follows the blocks of the domains before it: the
    warm-up, which has no database, then the domain's configurations in
    that round's order, each with the database.
  */
  lemma ScheduleBlock(domains: seq<string>, rounds: seq<seq<string>>, d: nat)
    requires |domains| == |rounds| && d < |domains|
    ensures var o := |Schedule(domains[..d], rounds[..d])|;
      && o + |rounds[d]| < |Schedule(domains, rounds)|
      && Schedule(domains, rounds)[o] == Visit(domains[d], "", false)
      && forall c :: 0 <= c < |rounds[d]| ==> Schedule(domains, rounds)[o + 1 + c] == Visit(domains[d], rounds[d][c], true)
  {
    ScheduleStep(domains, rounds, d);
    SchedulePrefix(domains, rounds, d + 1);
    BlockAt(Schedule(domains, rounds), Schedule(domains[..d], rounds[..d]), domains[d], rounds[d]);
  }

  /** The visits for the first `d + 1` domains: those for the first `d`, then domain `d`'s block. */
  lemma ScheduleStep(domains: seq<string>, rounds: seq<seq<string>>, d: nat)
    requires |domains| == |rounds| && d < |domains|
    ensures Schedule(domains[..d + 1], rounds[..d + 1]) ==
      Schedule(domains[..d], rounds[..d]) + ([Visit(domains[d], "", false)] + StoredVisits(domains[d], rounds[d]))
  {
    assert domains[..d + 1][..d] == domains[..d];
    assert rounds[..d + 1][..d] == rounds[..d];
  }

  /** Where a domain's block sits in a sequence of visits that starts with the visits before it and then the block. */
  lemma BlockAt(whole: seq<Visit>, before: seq<Visit>, domain: string, round: seq<string>)
    requires before + ([Visit(domain, "", false)] + StoredVisits(domain, round)) <= whole
    ensures |before| + |round| < |whole|
    ensures whole[|before|] == Visit(domain, "", false)
    ensures forall c :: 0 <= c < |round| ==> whole[|before| + 1 + c] == Visit(domain, round[c], true)
  {
    var upto := before + ([Visit(domain, "", false)] + StoredVisits(domain, round));
    assert whole[|before|] == upto[|before|];
    forall c | 0 <= c < |round|
      ensures whole[|before| + 1 + c] == Visit(domain, round[c], true)
    {
      assert whole[|before| + 1 + c] == upto[|before| + 1 + c];
    }
  }

  /**
    With `k` configurations, domain `d` occupies the `d`-th block of `1+k`
    visits, opening with its warm-up and then its round.
  */
  lemma ScheduleBlocks(domains: seq<string>, rounds: seq<seq<string>>, k: nat, d: nat)
    requires |domains| == |rounds|
    requires forall e :: 0 <= e < |rounds| ==> |rounds[e]| == k
    requires d < |domains|
    ensures |Schedule(domains, rounds)| == |domains| * (1 + k)
    ensures d * (1 + k) + k < |Schedule(domains, rounds)|
    ensures Schedule(domains, rounds)[d * (1 + k)] == Visit(domains[d], "", false)
    ensures forall c :: 0 <= c < k ==> Schedule(domains, rounds)[d * (1 + k) + 1 + c] == Visit(domains[d], rounds[d][c], true)
  {
    ScheduleLength(domains, rounds, k);
    ScheduleLength(domains[..d], rounds[..d], k);
    ScheduleBlock(domains, rounds, d);
  }
}
