/** Configuration apply, rollback and persistence as functions of the runtime,
    the file and the faults that strike. */
module ConfigSpec {
  import opened Names

  /** A configuration: its DNSSEC section and everything else. */
  datatype Config = Config(dnssec: nat, rest: nat)

  /** The published snapshot; each part names the configuration it was built
      from. */
  datatype Snapshot = Snapshot(config: Config, clients: Config, rewrites: Config)

  /** The live components, by the configuration each runs, the DNSSEC policies of
      the validations under way, and those of the cached answers. */
  datatype Runtime = Runtime(
    upstream: Config, filter: Config, hooks: Config, cachePolicy: Config, queryLog: Config,
    snapshot: Snapshot, pending: multiset<nat>, answers: set<nat>)

  /** A query loads the current validator, or a validation under that policy ends
      and its answer is cached. */
  datatype Traffic = Begin | Finish(policy: nat)

  /** What the code decides from a configuration or document alone. */
  datatype Rules = Rules(
    valid: Config -> bool, clientsParse: Config -> bool, rewritesParse: Config -> bool,
    savable: Config -> bool, parse: string -> Option<Config>)

  /** One pass over the components: which of them fail, what a failing hook
      leaves behind, and the traffic in the gaps. */
  datatype Weather = Weather(
    upstreamFails: bool, filterFails: bool, hooksFail: bool, hooksLeft: Config,
    beforeHooks: seq<Traffic>, afterHooks: seq<Traffic>, afterFlush: seq<Traffic>)

  datatype Applied = Applied(rt: Runtime, ok: bool)

  function Whole(cfg: Config): Snapshot { Snapshot(cfg, cfg, cfg) }

  /** The policies of the validations under way and of the cached answers. */
  datatype Flight = Flight(pending: multiset<nat>, cached: set<nat>)

  function Move(f: Flight, policy: nat, event: Traffic): Flight {
    match event
    case Begin => f.(pending := f.pending + multiset{policy})
    case Finish(p) => if p in f.pending then Flight(f.pending - multiset{p}, f.cached + {p}) else f
  }

  /** A gap in which `policy` is the current one. */
  function Moves(f: Flight, policy: nat, gap: seq<Traffic>): Flight {
    if gap == [] then f else Move(Moves(f, policy, gap[..|gap| - 1]), policy, gap[|gap| - 1])
  }

  function Play(rt: Runtime, gap: seq<Traffic>): Runtime {
    var f := Moves(Flight(rt.pending, rt.answers), rt.hooks.dnssec, gap);
    rt.(pending := f.pending, answers := f.cached)
  }

  function FilterStep(rt: Runtime, cfg: Config, sync: bool): Runtime {
    if sync then rt.(filter := cfg, answers := {}) else rt
  }

  function Inner(rules: Rules, rt: Runtime, cfg: Config, sync: bool, w: Weather): Applied {
    if w.upstreamFails then Applied(rt, false)
    else
      var rt1 := rt.(upstream := cfg);
      if sync && w.filterFails then Applied(rt1, false)
      else FromClients(rules, Play(FilterStep(rt1, cfg, sync), w.beforeHooks), cfg, w)
  }

  /** The pass from the client and rewrite sections on. */
  function FromClients(rules: Rules, rt: Runtime, cfg: Config, w: Weather): Applied {
    if !rules.clientsParse(cfg) || !rules.rewritesParse(cfg) then Applied(rt, false)
    else if w.hooksFail then Applied(Play(rt.(hooks := w.hooksLeft), w.afterHooks), false)
    else Applied(Publish(Play(rt.(hooks := cfg), w.afterHooks), cfg, w.afterFlush), true)
  }

  /** The flush on a change of policy, and what follows it. */
  function Publish(rt: Runtime, cfg: Config, gap: seq<Traffic>): Runtime {
    var rt1 := if rt.snapshot.config.dnssec != cfg.dnssec then rt.(answers := {}) else rt;
    Play(rt1, gap).(cachePolicy := cfg, queryLog := cfg, snapshot := Whole(cfg))
  }

  /** Apply, and on failure apply the previous configuration again. */
  function Full(rules: Rules, rt: Runtime, cfg: Config, sync: bool, w: Weather, back: Weather): Applied {
    if !rules.valid(cfg) then Applied(rt, false)
    else
      var first := Inner(rules, rt, cfg, sync, w);
      if first.ok then first
      else Applied(Inner(rules, first.rt, rt.snapshot.config, true, back).rt, false)
  }

  datatype Server = Server(rt: Runtime, file: string)

  datatype Result = Result(server: Server, ok: bool)

  /** Apply, then persist; a failed write undoes the apply. */
  function Persist(rules: Rules, s: Server, cfg: Config, document: string, sync: bool, writeFails: bool,
                   w: Weather, back: Weather, undo: Weather, undoBack: Weather): Result
  {
    var applied := Full(rules, s.rt, cfg, sync, w, back);
    if !applied.ok then Result(s.(rt := applied.rt), false)
    else if !rules.savable(cfg) || rules.parse(document).None? || writeFails then
      Result(s.(rt := Full(rules, applied.rt, s.rt.snapshot.config, true, undo, undoBack).rt), false)
    else Result(Server(applied.rt, document), true)
  }

  datatype EventOutcome = SelfWriteIgnored | AppliedFile | Rejected

  /** A file-watcher event: the current file counts, not the event's document. */
  function Event(rules: Rules, s: Server, document: string, readable: bool, sync: bool, w: Weather, back: Weather)
    : (Server, EventOutcome)
  {
    match rules.parse(if readable then s.file else document)
    case None => (s, Rejected)
    case Some(cfg) =>
      if cfg == s.rt.snapshot.config then (s, SelfWriteIgnored)
      else
        var applied := Full(rules, s.rt, cfg, sync, w, back);
        (s.(rt := applied.rt), if applied.ok then AppliedFile else Rejected)
  }

  // ---- The transaction --------------------------------------------------

  /** Every component runs `cfg`. */
  predicate AllAt(rt: Runtime, cfg: Config) {
    && rt.upstream == cfg && rt.filter == cfg && rt.hooks == cfg
    && rt.cachePolicy == cfg && rt.queryLog == cfg && rt.snapshot == Whole(cfg)
  }

  /** `cfg` got through an apply before, so its sections parse. */
  predicate Proven(rules: Rules, cfg: Config) { rules.clientsParse(cfg) && rules.rewritesParse(cfg) }

  predicate Calm(w: Weather) { !w.upstreamFails && !w.filterFails && !w.hooksFail }

  /** No fault strikes a pass of that kind. */
  predicate Passes(w: Weather, sync: bool) { !w.upstreamFails && !(sync && w.filterFails) && !w.hooksFail }

  /** A pass succeeds exactly for a parsing configuration without faults, and then
      every component runs it, a deferred filter excepted; a failed pass leaves
      the snapshot. */
  lemma InnerOutcome(rules: Rules, rt: Runtime, cfg: Config, sync: bool, w: Weather)
    ensures var r := Inner(rules, rt, cfg, sync, w);
            && (r.ok <==> Passes(w, sync) && Proven(rules, cfg))
            && (r.ok ==> AllAt(r.rt.(filter := cfg), cfg) && r.rt.filter == if sync then cfg else rt.filter)
            && (!r.ok ==>
                  && r.rt.snapshot == rt.snapshot && r.rt.cachePolicy == rt.cachePolicy
                  && r.rt.queryLog == rt.queryLog)
            && r.rt.upstream == (if w.upstreamFails then rt.upstream else cfg)
            && (Passes(w.(hooksFail := false), sync) && Proven(rules, cfg) && w.hooksFail ==> r.rt.hooks == w.hooksLeft)
  {
  }

  /** The transaction: an apply succeeds exactly for a valid, parsing candidate
      without faults and then moved everything to it, a deferred filter excepted;
      otherwise a faultless rollback brought everything back; and whatever fails,
      the snapshot is one whole configuration, the new or the old. */
  lemma ApplyIsTransaction(rules: Rules, rt: Runtime, previous: Config, cfg: Config, sync: bool, w: Weather,
                           back: Weather)
    requires AllAt(rt, previous) && Proven(rules, previous)
    ensures var r := Full(rules, rt, cfg, sync, w, back);
            && (r.ok <==> rules.valid(cfg) && Proven(rules, cfg) && Passes(w, sync))
            && (r.ok ==> AllAt(r.rt.(filter := cfg), cfg) && r.rt.filter == if sync then cfg else previous)
            && (!r.ok && (Calm(back) || !rules.valid(cfg)) ==> AllAt(r.rt, previous))
            && r.rt.snapshot == Whole(if r.ok then cfg else previous)
  {
    InnerOutcome(rules, rt, cfg, sync, w);
    InnerOutcome(rules, Inner(rules, rt, cfg, sync, w).rt, previous, true, back);
  }

  /** Persistence joins the transaction: it succeeds exactly when the apply does
      and the document can be saved, and then runtime and file are at the
      candidate; failure leaves the file, and the runtime too when the rollbacks
      it needs are faultless and accepted. */
  lemma PersistIsTransaction(rules: Rules, s: Server, previous: Config, cfg: Config, document: string, writeFails: bool,
                             w: Weather, back: Weather, undo: Weather, undoBack: Weather)
    requires AllAt(s.rt, previous) && Proven(rules, previous)
    ensures var r := Persist(rules, s, cfg, document, true, writeFails, w, back, undo, undoBack);
            && (r.ok <==> rules.valid(cfg) && Proven(rules, cfg) && Calm(w)
                          && rules.savable(cfg) && rules.parse(document).Some? && !writeFails)
            && (r.ok ==> AllAt(r.server.rt, cfg) && r.server.file == document)
            && (!r.ok ==> r.server.file == s.file)
            && (!r.ok && Calm(back) && Calm(undo) && rules.valid(previous) ==> AllAt(r.server.rt, previous))
            && r.server.rt.snapshot in {Whole(cfg), Whole(previous)}
  {
    ApplyIsTransaction(rules, s.rt, previous, cfg, true, w, back);
    var applied := Full(rules, s.rt, cfg, true, w, back);
    if applied.ok {
      ApplyIsTransaction(rules, applied.rt, cfg, previous, true, undo, undoBack);
    }
  }

  /** A successful write can still leave file and runtime apart, because a document
      is only checked to parse: exactly when it parses to something else. */
  lemma PersistedApartExactly(rules: Rules, s: Server, previous: Config, cfg: Config, document: string,
                              writeFails: bool,
                              w: Weather, back: Weather, undo: Weather, undoBack: Weather)
    requires AllAt(s.rt, previous) && Proven(rules, previous)
    ensures var r := Persist(rules, s, cfg, document, true, writeFails, w, back, undo, undoBack);
            r.ok && rules.parse(r.server.file) != Some(r.server.rt.snapshot.config) <==>
              && rules.valid(cfg) && Proven(rules, cfg) && Calm(w) && rules.savable(cfg) && !writeFails
              && rules.parse(document).Some? && rules.parse(document).value != cfg
  {
    PersistIsTransaction(rules, s, previous, cfg, document, writeFails, w, back, undo, undoBack);
  }

  /** Such a write exists. */
  lemma WriteApart(cfg: Config, other: Config, document: string, file: string, calm: Weather)
    requires cfg != other && Calm(calm)
    ensures var rules := Rules(_ => true, _ => true, _ => true, _ => true, _ => Some(other));
            var s := Server(Runtime(other, other, other, other, other, Whole(other), multiset{}, {}), file);
            var r := Persist(rules, s, cfg, document, true, false, calm, calm, calm, calm);
            r.ok && r.server.rt.snapshot.config == cfg && rules.parse(r.server.file) == Some(other)
  {
    var rules := Rules(_ => true, _ => true, _ => true, _ => true, _ => Some(other));
    var s := Server(Runtime(other, other, other, other, other, Whole(other), multiset{}, {}), file);
    PersistIsTransaction(rules, s, other, cfg, document, false, calm, calm, calm, calm);
  }

  /** A watcher event that could read the file and was not rejected ends with the
      runtime at the file's configuration, however old the event's document. */
  lemma EventFollowsFile(rules: Rules, s: Server, previous: Config, document: string, w: Weather, back: Weather)
    requires AllAt(s.rt, previous) && Proven(rules, previous)
    ensures var (s', outcome) := Event(rules, s, document, true, true, w, back);
            && s'.file == s.file
            && (!outcome.Rejected? ==> rules.parse(s'.file).Some? && AllAt(s'.rt, rules.parse(s'.file).value))
            && (outcome.Rejected? && Calm(back) ==> AllAt(s'.rt, previous))
            && forall other :: Event(rules, s, other, true, true, w, back) == (s', outcome)
  {
    match rules.parse(s.file) {
      case Some(cfg) => ApplyIsTransaction(rules, s.rt, previous, cfg, true, w, back);
      case None =>
    }
  }

  /** An event is taken for the server's own write exactly when the document that
      counts parses to what is running, and then nothing is touched. */
  lemma SelfWriteExactly(rules: Rules, s: Server, document: string, readable: bool, sync: bool, w: Weather,
                         back: Weather)
    ensures var (s', outcome) := Event(rules, s, document, readable, sync, w, back);
            && (outcome == SelfWriteIgnored <==>
                  rules.parse(if readable then s.file else document) == Some(s.rt.snapshot.config))
            && (outcome == SelfWriteIgnored ==> s' == s)
  {
  }

  // ---- Cached answers and the DNSSEC policy -----------------------------

  predicate Only(policies: set<nat>, p: nat) { policies <= {p} }

  /** Every cached answer was validated under the running policy. */
  predicate AnswersCurrent(rt: Runtime) { Only(rt.answers, rt.snapshot.config.dnssec) }

  /** No validation under another policy is under way. */
  predicate Drained(pending: multiset<nat>, p: nat) { forall a | a in pending :: a == p }

  /** Nothing of another policy is under way or cached. */
  predicate Pure(f: Flight, p: nat) { Drained(f.pending, p) && Only(f.cached, p) }

  lemma {:induction false} PureStays(f: Flight, p: nat, gap: seq<Traffic>)
    requires Pure(f, p)
    ensures Pure(Moves(f, p, gap), p)
  {
    if gap != [] { PureStays(f, p, gap[..|gap| - 1]); }
  }

  lemma {:induction false} GapsJoin(f: Flight, p: nat, a: seq<Traffic>, b: seq<Traffic>)
    ensures Moves(Moves(f, p, a), p, b) == Moves(f, p, a + b)
  {
    if b == [] {
      assert a + b == a;
    } else {
      GapsJoin(f, p, a, b[..|b| - 1]);
      assert (a + b)[..|a + b| - 1] == a + b[..|b| - 1];
    }
  }

  /** Cached answers stay through a gap. */
  lemma {:induction false} CachedStays(f: Flight, p: nat, gap: seq<Traffic>)
    ensures f.cached <= Moves(f, p, gap).cached
  {
    if gap != [] { CachedStays(f, p, gap[..|gap| - 1]); }
  }

  /** Finishing one validation caches its answer. */
  lemma FinishCaches(f: Flight, p: nat, a: nat)
    requires a in f.pending
    ensures a in Moves(f, p, [Finish(a)]).cached
  {
    assert [Finish(a)][..0] == [];
  }

  lemma BeginFinishCaches(f: Flight, p: nat)
    ensures p in Moves(f, p, [Begin, Finish(p)]).cached
  {
    assert [Begin, Finish(p)][..1] == [Begin] && [Begin][..0] == [];
    assert Moves(f, p, [Begin]) == f.(pending := f.pending + multiset{p});
  }

  // ---- Answers after a change of policy ---------------------------------

  /** The validations under way at the flush of a policy change, nothing cached. */
  function AtFlush(rt: Runtime, cfg: Config, w: Weather): Flight {
    var before := Moves(Flight(rt.pending, {}), rt.hooks.dnssec, w.beforeHooks);
    Flight(Moves(before, cfg.dnssec, w.afterHooks).pending, {})
  }

  lemma {:induction false} PendingAlone(pending: multiset<nat>, a: set<nat>, b: set<nat>, p: nat, gap: seq<Traffic>)
    ensures Moves(Flight(pending, a), p, gap).pending == Moves(Flight(pending, b), p, gap).pending
  {
    if gap != [] { PendingAlone(pending, a, b, p, gap[..|gap| - 1]); }
  }

  lemma AtFlushPending(rules: Rules, rt: Runtime, cfg: Config, sync: bool, w: Weather)
    requires Inner(rules, rt, cfg, sync, w).ok && rt.snapshot.config.dnssec != cfg.dnssec
    ensures var r := Inner(rules, rt, cfg, sync, w).rt;
            var f := Moves(AtFlush(rt, cfg, w), cfg.dnssec, w.afterFlush);
            r.pending == f.pending && r.answers == f.cached && r.hooks == cfg && r.snapshot.config == cfg
  {
    var start := if sync then {} else rt.answers;
    PendingAlone(rt.pending, start, {}, rt.hooks.dnssec, w.beforeHooks);
    var x, y := Moves(Flight(rt.pending, start), rt.hooks.dnssec, w.beforeHooks),
        Moves(Flight(rt.pending, {}), rt.hooks.dnssec, w.beforeHooks);
    PendingAlone(x.pending, x.cached, y.cached, cfg.dnssec, w.afterHooks);
  }

  /** After a successful change of DNSSEC policy, and the traffic that follows it,
      the cached answers are those finished since the flush. So they are current
      exactly when no validation begun under another policy finished since. */
  lemma AnswersAfterChange(rules: Rules, rt: Runtime, cfg: Config, sync: bool, w: Weather, back: Weather,
                           later: seq<Traffic>)
    requires Full(rules, rt, cfg, sync, w, back).ok && rt.snapshot.config.dnssec != cfg.dnssec
    ensures var r := Play(Full(rules, rt, cfg, sync, w, back).rt, later);
            var since := Moves(AtFlush(rt, cfg, w), cfg.dnssec, w.afterFlush + later);
            r.answers == since.cached && (AnswersCurrent(r) <==> Only(since.cached, cfg.dnssec))
  {
    AtFlushPending(rules, rt, cfg, sync, w);
    GapsJoin(AtFlush(rt, cfg, w), cfg.dnssec, w.afterFlush, later);
  }

  /** The cached answers after a pass that applied the filter and left the DNSSEC
      policy as it was: exactly those finished since the filter was swapped, so none
      that was cached before it stays. */
  lemma AnswersAfterFilter(rules: Rules, rt: Runtime, cfg: Config, w: Weather, back: Weather)
    requires Full(rules, rt, cfg, true, w, back).ok && rt.snapshot.config.dnssec == cfg.dnssec
    ensures var swapped := Moves(Flight(rt.pending, {}), rt.hooks.dnssec, w.beforeHooks);
            Full(rules, rt, cfg, true, w, back).rt.answers
            == Moves(swapped, cfg.dnssec, w.afterHooks + w.afterFlush).cached
    ensures forall cached :: Full(rules, rt.(answers := cached), cfg, true, w, back).rt.answers
                             == Full(rules, rt, cfg, true, w, back).rt.answers
  {
    var swapped := Moves(Flight(rt.pending, {}), rt.hooks.dnssec, w.beforeHooks);
    GapsJoin(swapped, cfg.dnssec, w.afterHooks, w.afterFlush);
  }

  /** A deferred filter keeps them all. */
  lemma AnswersStayDeferred(rules: Rules, rt: Runtime, cfg: Config, w: Weather, back: Weather)
    requires Full(rules, rt, cfg, false, w, back).ok && rt.snapshot.config.dnssec == cfg.dnssec
    ensures rt.answers <= Full(rules, rt, cfg, false, w, back).rt.answers
  {
    var a := Moves(Flight(rt.pending, rt.answers), rt.hooks.dnssec, w.beforeHooks);
    var b := Moves(a, cfg.dnssec, w.afterHooks);
    CachedStays(Flight(rt.pending, rt.answers), rt.hooks.dnssec, w.beforeHooks);
    CachedStays(a, cfg.dnssec, w.afterHooks);
    CachedStays(b, cfg.dnssec, w.afterFlush);
  }

  /** The answers stay current whatever traffic follows the flush. */
  ghost predicate StayCurrent(rules: Rules, rt: Runtime, cfg: Config, sync: bool, w: Weather, back: Weather) {
    forall after, later :: AnswersCurrent(Play(Full(rules, rt, cfg, sync, w.(afterFlush := after), back).rt, later))
  }

  lemma FlushGapIsFree(rules: Rules, rt: Runtime, cfg: Config, sync: bool, w: Weather, back: Weather,
                       after: seq<Traffic>, later: seq<Traffic>)
    requires Full(rules, rt, cfg, sync, w, back).ok && rt.snapshot.config.dnssec != cfg.dnssec
    ensures AnswersCurrent(Play(Full(rules, rt, cfg, sync, w.(afterFlush := after), back).rt, later)) <==>
              Only(Moves(AtFlush(rt, cfg, w), cfg.dnssec, after + later).cached, cfg.dnssec)
  {
    var w' := w.(afterFlush := after);
    InnerOutcome(rules, rt, cfg, sync, w);
    InnerOutcome(rules, rt, cfg, sync, w');
    assert AtFlush(rt, cfg, w') == AtFlush(rt, cfg, w);
    AnswersAfterChange(rules, rt, cfg, sync, w', back, later);
  }

  /** No cached answer can survive a successful change of DNSSEC policy if and only
      if no validation begun under another policy was under way at the flush. */
  lemma NoAnswerSurvivesExactly(rules: Rules, rt: Runtime, cfg: Config, sync: bool, w: Weather, back: Weather)
    requires Full(rules, rt, cfg, sync, w, back).ok && rt.snapshot.config.dnssec != cfg.dnssec
    ensures StayCurrent(rules, rt, cfg, sync, w, back) <==> Drained(AtFlush(rt, cfg, w).pending, cfg.dnssec)
  {
    var f := AtFlush(rt, cfg, w);
    if Drained(f.pending, cfg.dnssec) {
      forall after, later
        ensures AnswersCurrent(Play(Full(rules, rt, cfg, sync, w.(afterFlush := after), back).rt, later))
      {
        FlushGapIsFree(rules, rt, cfg, sync, w, back, after, later);
        PureStays(f, cfg.dnssec, after + later);
      }
    } else {
      var a :| a in f.pending && a != cfg.dnssec;
      FinishCaches(f, cfg.dnssec, a);
      assert [] + [Finish(a)] == [Finish(a)];
      FlushGapIsFree(rules, rt, cfg, sync, w, back, [], [Finish(a)]);
    }
  }

  /** Every change of policy has such a run: one query that loads the old validator
      before the hooks and caches its answer after the flush. */
  lemma OldAnswerSurvives(rules: Rules, rt: Runtime, cfg: Config, sync: bool, w: Weather, back: Weather)
    requires rt.hooks == rt.snapshot.config && rt.snapshot.config.dnssec != cfg.dnssec
    requires Full(rules, rt, cfg, sync, w, back).ok && w.beforeHooks == [Begin] && w.afterHooks == []
    ensures !AnswersCurrent(Play(Full(rules, rt, cfg, sync, w.(afterFlush := []), back).rt,
        [Finish(rt.snapshot.config.dnssec)]))
  {
    var p := rt.snapshot.config.dnssec;
    assert [Begin][..0] == [];
    assert Moves(Flight(rt.pending, {}), p, [Begin]) == Flight(rt.pending + multiset{p}, {});
    assert AtFlush(rt, cfg, w) == Flight(rt.pending + multiset{p}, {});
    FinishCaches(AtFlush(rt, cfg, w), cfg.dnssec, p);
    assert [] + [Finish(p)] == [Finish(p)];
    FlushGapIsFree(rules, rt, cfg, sync, w, back, [], [Finish(p)]);
  }

  /** An apply that keeps the policy keeps the answers current. */
  lemma SamePolicyStaysCurrent(rules: Rules, rt: Runtime, cfg: Config, sync: bool, w: Weather, back: Weather,
                               later: seq<Traffic>)
    requires rt.hooks == rt.snapshot.config && Pure(Flight(rt.pending, rt.answers), cfg.dnssec)
    requires Full(rules, rt, cfg, sync, w, back).ok && rt.snapshot.config.dnssec == cfg.dnssec
    ensures AnswersCurrent(Play(Full(rules, rt, cfg, sync, w, back).rt, later))
  {
    var p := cfg.dnssec;
    var f0 := Flight(rt.pending, if sync then {} else rt.answers);
    var f1 := Moves(f0, p, w.beforeHooks);
    var f2 := Moves(f1, p, w.afterHooks);
    var f3 := Moves(f2, p, w.afterFlush);
    PureStays(f0, p, w.beforeHooks);
    PureStays(f1, p, w.afterHooks);
    PureStays(f2, p, w.afterFlush);
    PureStays(f3, p, later);
  }

  // ---- Answers after a rollback -----------------------------------------

  /** What is under way and cached after a rollback from `failed` and the traffic
      that follows: the one flush comes before the validator is restored. */
  function AfterRollback(failed: Runtime, previous: Config, back: Weather, later: seq<Traffic>): Flight {
    var before := Moves(Flight(failed.pending, {}), failed.hooks.dnssec, back.beforeHooks);
    Moves(before, previous.dnssec, back.afterHooks + back.afterFlush + later)
  }

  /** The cached answers after a rolled-back apply are those finished since that
      flush. */
  lemma AnswersAfterRollback(rules: Rules, rt: Runtime, previous: Config, cfg: Config, sync: bool, w: Weather,
                             back: Weather,
                             later: seq<Traffic>)
    requires AllAt(rt, previous) && Proven(rules, previous) && rules.valid(cfg) && Calm(back)
    requires !Full(rules, rt, cfg, sync, w, back).ok
    ensures var r := Play(Full(rules, rt, cfg, sync, w, back).rt, later);
            var since := AfterRollback(Inner(rules, rt, cfg, sync, w).rt, previous, back, later);
            r.answers == since.cached && (AnswersCurrent(r) <==> Only(since.cached, previous.dnssec))
  {
    var failed := Inner(rules, rt, cfg, sync, w).rt;
    InnerOutcome(rules, rt, cfg, sync, w);
    InnerOutcome(rules, failed, previous, true, back);
    var before := Moves(Flight(failed.pending, {}), failed.hooks.dnssec, back.beforeHooks);
    GapsJoin(before, previous.dnssec, back.afterHooks, back.afterFlush);
    GapsJoin(before, previous.dnssec, back.afterHooks + back.afterFlush, later);
  }

  function WithTraffic(back: Weather, before: seq<Traffic>, after: seq<Traffic>, last: seq<Traffic>): Weather {
    back.(beforeHooks := before, afterHooks := after, afterFlush := last)
  }

  /** The answers stay current whatever traffic follows the rollback's flush. */
  ghost predicate StayCurrentAfterRollback(rules: Rules, rt: Runtime, cfg: Config, sync: bool, w: Weather,
                                           back: Weather) {
    forall before, after, last, later ::
      AnswersCurrent(Play(Full(rules, rt, cfg, sync, w, WithTraffic(back, before, after, last)).rt, later))
  }

  /** No answer of another policy can survive a rolled-back apply if and only if
      the failed pass left the validator under the previous policy and no
      validation under another one under way. */
  lemma SurvivorsAfterRollbackExactly(rules: Rules, rt: Runtime, previous: Config, cfg: Config, sync: bool,
                                      w: Weather, back: Weather)
    requires AllAt(rt, previous) && Proven(rules, previous) && rules.valid(cfg) && Calm(back)
    requires !Full(rules, rt, cfg, sync, w, back).ok
    ensures var failed := Inner(rules, rt, cfg, sync, w).rt;
            StayCurrentAfterRollback(rules, rt, cfg, sync, w, back) <==>
              failed.hooks.dnssec == previous.dnssec && Drained(failed.pending, previous.dnssec)
  {
    var failed := Inner(rules, rt, cfg, sync, w).rt;
    var p := previous.dnssec;
    if failed.hooks.dnssec == p && Drained(failed.pending, p) {
      forall before, after, last, later
        ensures AnswersCurrent(Play(Full(rules, rt, cfg, sync, w, WithTraffic(back, before, after, last)).rt, later))
      {
        AnswersAfterRollback(rules, rt, previous, cfg, sync, w, WithTraffic(back, before, after, last), later);
        PureStays(Flight(failed.pending, {}), p, before);
        PureStays(Moves(Flight(failed.pending, {}), p, before), p, after + last + later);
      }
    } else {
      RollbackSurvivor(rules, rt, previous, cfg, sync, w, back);
    }
  }

  /** A survivor of a rollback, when there can be one. */
  lemma RollbackSurvivor(rules: Rules, rt: Runtime, previous: Config, cfg: Config, sync: bool, w: Weather,
                         back: Weather)
    requires AllAt(rt, previous) && Proven(rules, previous) && rules.valid(cfg) && Calm(back)
    requires !Full(rules, rt, cfg, sync, w, back).ok
    requires var failed := Inner(rules, rt, cfg, sync, w).rt;
             failed.hooks.dnssec != previous.dnssec || !Drained(failed.pending, previous.dnssec)
    ensures !StayCurrentAfterRollback(rules, rt, cfg, sync, w, back)
  {
    var failed := Inner(rules, rt, cfg, sync, w).rt;
    var f := Flight(failed.pending, {});
    var gap;
    if failed.hooks.dnssec != previous.dnssec {
      gap := [Begin, Finish(failed.hooks.dnssec)];
      BeginFinishCaches(f, failed.hooks.dnssec);
    } else {
      var a :| a in failed.pending && a != previous.dnssec;
      gap := [Finish(a)];
      FinishCaches(f, failed.hooks.dnssec, a);
    }
    AnswersAfterRollback(rules, rt, previous, cfg, sync, w, WithTraffic(back, gap, [], []), []);
    CachedStays(Moves(f, failed.hooks.dnssec, gap), previous.dnssec, [] + [] + []);
    assert !AnswersCurrent(Play(Full(rules, rt, cfg, sync, w, WithTraffic(back, gap, [], [])).rt, []));
  }

  // ---- Runs -------------------------------------------------------------

  /** Operations the apply lock serializes, and edits of the file by others. */
  datatype Op =
    | Put(cfg: Config, document: string, sync: bool, writeFails: bool, w: Weather, back: Weather, undo: Weather,
          undoBack: Weather)
    | Watch(stale: string, readable: bool, onEvent: Weather, eventBack: Weather)
    | Edit(document: string)
    | Serve(gap: seq<Traffic>)

  function Step(rules: Rules, s: Server, op: Op): Server {
    match op
    case Put(cfg, document, sync, writeFails, w, back, undo, undoBack) =>
      Persist(rules, s, cfg, document, sync, writeFails, w, back, undo, undoBack).server
    case Watch(stale, readable, w, back) => Event(rules, s, stale, readable, true, w, back).0
    case Edit(document) => s.(file := document)
    case Serve(gap) => s.(rt := Play(s.rt, gap))
  }

  function Run(rules: Rules, s: Server, ops: seq<Op>): Server {
    if ops == [] then s else Step(rules, Run(rules, s, ops[..|ops| - 1]), ops[|ops| - 1])
  }

  /** The snapshot is one whole, parsing configuration. */
  ghost predicate Sound(rules: Rules, s: Server) {
    s.rt.snapshot == Whole(s.rt.snapshot.config) && Proven(rules, s.rt.snapshot.config)
  }

  lemma FullKeepsSound(rules: Rules, rt: Runtime, cfg: Config, sync: bool, w: Weather, back: Weather, file: string)
    requires Sound(rules, Server(rt, file))
    ensures Sound(rules, Server(Full(rules, rt, cfg, sync, w, back).rt, file))
  {
  }

  /** Over every run of writes, watcher events and foreign edits, with faults and
      failed rollbacks anywhere, the snapshot stays one whole configuration. */
  lemma {:induction false} SnapshotStaysWhole(rules: Rules, s: Server, ops: seq<Op>)
    requires Sound(rules, s)
    ensures Sound(rules, Run(rules, s, ops))
  {
    if ops != [] {
      SnapshotStaysWhole(rules, s, ops[..|ops| - 1]);
      var before := Run(rules, s, ops[..|ops| - 1]);
      match ops[|ops| - 1] {
        case Put(cfg, document, sync, writeFails, w, back, undo, undoBack) =>
          FullKeepsSound(rules, before.rt, cfg, sync, w, back, before.file);
          FullKeepsSound(rules, Full(rules, before.rt, cfg, sync, w, back).rt, before.rt.snapshot.config, true,
              undo, undoBack, before.file);
        case Watch(stale, readable, w, back) =>
          match rules.parse(if readable then before.file else stale) {
            case Some(cfg) => FullKeepsSound(rules, before.rt, cfg, true, w, back, before.file);
            case None =>
          }
        case Edit(_) =>
        case Serve(_) =>
      }
    }
  }

  /** The file reads back as the running configuration, which would be accepted
      again. */
  ghost predicate InStep(rules: Rules, s: Server) {
    && Sound(rules, s) && rules.valid(s.rt.snapshot.config)
    && rules.parse(s.file) == Some(s.rt.snapshot.config)
  }

  /** Writes whose document says what is applied and whose undo is calm; events
      that can read the file; no foreign edits. */
  predicate Orderly(rules: Rules, op: Op) {
    match op
    case Put(cfg, document, _, _, _, _, undo, _) => rules.parse(document) == Some(cfg) && Calm(undo)
    case Watch(_, readable, _, _) => readable
    case Edit(_) => false
    case Serve(_) => true
  }

  /** In such a run file and runtime never part, whatever the documents of late
      events say, and whichever applies and writes fail. */
  lemma {:induction false} FileStaysInStep(rules: Rules, s: Server, ops: seq<Op>)
    requires InStep(rules, s) && forall op | op in ops :: Orderly(rules, op)
    ensures InStep(rules, Run(rules, s, ops))
  {
    if ops != [] {
      FileStaysInStep(rules, s, ops[..|ops| - 1]);
      var before := Run(rules, s, ops[..|ops| - 1]);
      assert Orderly(rules, ops[|ops| - 1]);
      match ops[|ops| - 1] {
        case Put(cfg, document, sync, writeFails, w, back, undo, undoBack) =>
          PutStaysInStep(rules, before, cfg, document, sync, writeFails, w, back, undo, undoBack);
        case Watch(_, _, _, _) =>
        case Serve(_) =>
      }
    }
  }

  lemma PutStaysInStep(rules: Rules, s: Server, cfg: Config, document: string, sync: bool, writeFails: bool,
                       w: Weather, back: Weather, undo: Weather, undoBack: Weather)
    requires InStep(rules, s) && rules.parse(document) == Some(cfg) && Calm(undo)
    ensures InStep(rules, Persist(rules, s, cfg, document, sync, writeFails, w, back, undo, undoBack).server)
  {
    FullKeepsSound(rules, s.rt, cfg, sync, w, back, s.file);
    var applied := Full(rules, s.rt, cfg, sync, w, back);
    assert applied.rt.snapshot.config == if applied.ok then cfg else s.rt.snapshot.config;
    InnerOutcome(rules, applied.rt, s.rt.snapshot.config, true, undo);
  }

  /** Without the re-read it is otherwise: an event that cannot read the file
      applies its own document, and from then on runtime and file are apart,
      exactly when that document is accepted and says something else. */
  lemma UnreadFileRegresses(rules: Rules, s: Server, stale: string, sync: bool, w: Weather, back: Weather)
    requires InStep(rules, s)
    ensures InStep(rules, Event(rules, s, stale, false, sync, w, back).0) <==>
              !(&& rules.parse(stale).Some? && rules.parse(stale) != rules.parse(s.file)
                && rules.valid(rules.parse(stale).value) && Proven(rules, rules.parse(stale).value) && Passes(w, sync))
  {
    match rules.parse(stale) {
      case Some(cfg) =>
        InnerOutcome(rules, s.rt, cfg, sync, w);
        FullKeepsSound(rules, s.rt, cfg, sync, w, back, s.file);
      case None =>
    }
  }
}
