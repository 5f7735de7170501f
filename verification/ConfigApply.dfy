/** The running server: live components updated one after another. */
module ConfigApplyModel {
  import opened Names
  import opened ConfigSpec

  class ServerContext {
    const rules: Rules
    var upstream: Config
    var filter: Config
    var hooks: Config
    var cachePolicy: Config
    var queryLog: Config
    var snapshot: Snapshot
    var pending: multiset<nat>
    var answers: set<nat>
    var file: string

    function State(): Runtime
      reads this
    {
      Runtime(upstream, filter, hooks, cachePolicy, queryLog, snapshot, pending, answers)
    }

    /** Every component runs the published configuration, whose sections parse. */
    predicate Coherent()
      reads this
    {
      AllAt(State(), snapshot.config) && Proven(rules, snapshot.config)
    }

    constructor (rules: Rules, cfg: Config, file: string)
      requires Proven(rules, cfg)
      ensures this.rules == rules && Coherent() && snapshot.config == cfg && this.file == file
      ensures pending == multiset{} && answers == {}
    {
      this.rules, this.file := rules, file;
      upstream, filter, hooks, cachePolicy, queryLog := cfg, cfg, cfg, cfg, cfg;
      snapshot, pending, answers := Whole(cfg), multiset{}, {};
    }

    /** Queries load the current validator, and validations end and are cached
        under the policy they were begun with. */
    method ServeTraffic(gap: seq<Traffic>)
      modifies `pending, `answers
      ensures State() == Play(old(State()), gap)
    {
      var underWay, cached := pending, answers;
      for i := 0 to |gap|
        invariant Flight(underWay, cached) == Moves(Flight(pending, answers), hooks.dnssec, gap[..i])
      {
        assert gap[..i + 1][..i] == gap[..i];
        match gap[i] {
          case Begin => underWay := underWay + multiset{hooks.dnssec};
          case Finish(p) =>
            if p in underWay {
              underWay, cached := underWay - multiset{p}, cached + {p};
            }
        }
      }
      assert gap[..|gap|] == gap;
      pending, answers := underWay, cached;
    }

    /** Succeeds exactly for a parsing configuration without faults, and then every
        component runs it, a deferred filter excepted; a failed pass has not touched
        the snapshot, the cache policy or the query log. */
    method ApplyInner(cfg: Config, sync: bool, w: Weather) returns (ok: bool)
      modifies this
      ensures ok <==> Passes(w, sync) && Proven(rules, cfg)
      ensures ok ==> AllAt(State().(filter := cfg), cfg) && filter == if sync then cfg else old(filter)
      ensures !ok ==> snapshot == old(snapshot) && cachePolicy == old(cachePolicy) && queryLog == old(queryLog)
      ensures file == old(file)
      ensures Applied(State(), ok) == Inner(rules, old(State()), cfg, sync, w)
    {
      InnerOutcome(rules, State(), cfg, sync, w);
      if w.upstreamFails {
        return false;
      }
      upstream := cfg;
      if sync {
        if w.filterFails {
          return false;
        }
        filter := cfg;
        answers := {};
      }
      ServeTraffic(w.beforeHooks);
      ok := ApplyFromClients(cfg, w);
    }

    method ApplyFromClients(cfg: Config, w: Weather) returns (ok: bool)
      modifies this
      ensures Applied(State(), ok) == FromClients(rules, old(State()), cfg, w) && file == old(file)
    {
      if !rules.clientsParse(cfg) || !rules.rewritesParse(cfg) {
        return false;
      }
      if w.hooksFail {
        hooks := w.hooksLeft;
        ServeTraffic(w.afterHooks);
        return false;
      }
      hooks := cfg;
      ServeTraffic(w.afterHooks);
      PublishConfig(cfg, w.afterFlush);
      return true;
    }

    method PublishConfig(cfg: Config, gap: seq<Traffic>)
      modifies this
      ensures State() == Publish(old(State()), cfg, gap) && file == old(file)
    {
      if snapshot.config.dnssec != cfg.dnssec {
        answers := {};
      }
      ServeTraffic(gap);
      cachePolicy := cfg;
      queryLog := cfg;
      snapshot := Whole(cfg);
    }

    /** A transaction: all at the candidate, or all back where it was once the
        rollback is faultless; the published snapshot is whole either way. */
    method ApplyFullConfig(cfg: Config, sync: bool, w: Weather, back: Weather) returns (ok: bool)
      modifies this
      ensures old(Coherent()) ==>
                && (ok <==> rules.valid(cfg) && Proven(rules, cfg) && Passes(w, sync))
                && (ok && sync ==> Coherent() && snapshot.config == cfg)
                && (!ok && (Calm(back) || !rules.valid(cfg)) ==> Coherent() && snapshot.config == old(snapshot.config))
                && snapshot == Whole(if ok then cfg else old(snapshot.config))
      ensures file == old(file)
      ensures Applied(State(), ok) == Full(rules, old(State()), cfg, sync, w, back)
    {
      if Coherent() {
        ApplyIsTransaction(rules, State(), snapshot.config, cfg, sync, w, back);
      }
      if !rules.valid(cfg) {
        return false;
      }
      var previous := snapshot.config;
      ok := ApplyInner(cfg, sync, w);
      if !ok {
        var _ := ApplyInner(previous, true, back);
      }
    }

    /** Runtime and file move together, or the file stays, and with it the runtime
        once the rollbacks are faultless and accepted. */
    method ApplyAndPersistDocument(cfg: Config, document: string, sync: bool, writeFails: bool,
                                   w: Weather, back: Weather, undo: Weather, undoBack: Weather) returns (ok: bool)
      modifies this
      ensures old(Coherent()) && sync ==>
                && (ok ==> Coherent() && snapshot.config == cfg && file == document && rules.parse(file).Some?)
                && (!ok && Calm(back) && Calm(undo) && rules.valid(old(snapshot.config)) ==>
                      Coherent() && snapshot.config == old(snapshot.config))
                && snapshot in {Whole(cfg), Whole(old(snapshot.config))}
      ensures !ok ==> file == old(file)
      ensures old(InStep(rules, Server(State(), file))) && rules.parse(document) == Some(cfg) && Calm(undo) ==>
                InStep(rules, Server(State(), file))
    {
      ghost var before := Server(State(), file);
      ghost var coherent := Coherent();
      ok := ApplyAndPersistLocked(cfg, document, sync, writeFails, w, back, undo, undoBack);
      if coherent && sync {
        PersistIsTransaction(rules, before, before.rt.snapshot.config, cfg, document, writeFails, w, back, undo,
            undoBack);
      }
      if InStep(rules, before) && rules.parse(document) == Some(cfg) && Calm(undo) {
        PutStaysInStep(rules, before, cfg, document, sync, writeFails, w, back, undo, undoBack);
      }
    }

    method ApplyAndPersistLocked(cfg: Config, document: string, sync: bool, writeFails: bool,
                                 w: Weather, back: Weather, undo: Weather, undoBack: Weather) returns (ok: bool)
      modifies this
      ensures Result(Server(State(), file), ok)
           == Persist(rules, old(Server(State(), file)), cfg, document, sync, writeFails, w, back, undo, undoBack)
    {
      var previous := snapshot.config;
      ok := ApplyFullConfig(cfg, sync, w, back);
      if ok {
        if !rules.savable(cfg) || rules.parse(document).None? || writeFails {
          var _ := ApplyFullConfig(previous, true, undo, undoBack);
          return false;
        }
        file := document;
      }
    }

    /** An event that read the file and was not rejected leaves the runtime at the
        file's configuration, whatever document it carried; a rejected one leaves
        the runtime where it was once the rollback is faultless. */
    method ApplyConfigDocumentEvent(document: string, readable: bool, sync: bool, w: Weather, back: Weather)
      returns (outcome: EventOutcome)
      modifies this
      ensures file == old(file)
      ensures old(Coherent()) && readable && sync ==>
                && (!outcome.Rejected? ==> Coherent() && rules.parse(file) == Some(snapshot.config))
                && (outcome.Rejected? && Calm(back) ==> Coherent() && snapshot.config == old(snapshot.config))
      ensures outcome.SelfWriteIgnored? ==> State() == old(State())
      ensures (Server(State(), file), outcome)
          == Event(rules, old(Server(State(), file)), document, readable, sync, w, back)
    {
      var current := document;
      if readable && file != current {
        current := file;
      }
      match rules.parse(current) {
        case None => return Rejected;
        case Some(cfg) =>
          if cfg == snapshot.config {
            return SelfWriteIgnored;
          }
          var ok := ApplyFullConfig(cfg, sync, w, back);
          return if ok then AppliedFile else Rejected;
      }
    }
  }
}
