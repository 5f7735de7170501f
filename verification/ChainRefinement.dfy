/** The cache object's operations as steps of the run model. */
module ChainRefinement {
  import opened Names
  import opened ChainSpec
  import opened ChainRuns

  /** `steps` lead from `st` to `st'`. */
  ghost predicate Leads(parse: Parser, st: State, steps: seq<Step>, st': State)
    decreases |steps|
  {
    if steps == [] then st' == st
    else Enabled(st, steps[0]) && Leads(parse, Next(parse, st, steps[0]), steps[1..], st')
  }

  /** A step of writer `t`, or the pruning of an expired entry. */
  predicate IsBy(step: Step, t: nat) {
    match step
    case WriteEntry(u, _, _, _) => u == t
    case AddMissed(u) => u == t
    case MarkDirty(u) => u == t
    case Rank(u, _) => u == t
    case Evict(u, _) => u == t
    case FinishBounds(u) => u == t
    case Expire(_) => true
    case _ => false
  }

  ghost predicate AllBy(steps: seq<Step>, t: nat) { forall i | 0 <= i < |steps| :: IsBy(steps[i], t) }

  lemma One(parse: Parser, st: State, step: Step)
    requires Enabled(st, step)
    ensures Leads(parse, st, [step], Next(parse, st, step))
  {
    assert [step][1..] == [];
  }

  lemma {:induction false} Then(parse: Parser, a: State, s: seq<Step>, b: State, s': seq<Step>, c: State)
    requires Leads(parse, a, s, b) && Leads(parse, b, s', c)
    ensures Leads(parse, a, s + s', c)
    decreases |s|
  {
    if s == [] {
      assert s + s' == s';
    } else {
      assert (s + s')[1..] == s[1..] + s';
      Then(parse, Next(parse, a, s[0]), s[1..], b, s', c);
    }
  }

  /** What an insert leaves alone. */
  predicate SameBesides(a: State, b: State) {
    && a.now == b.now && a.policy == b.policy && a.file == b.file && a.stamps == b.stamps && a.blind == b.blind
  }

  // ---- Recording --------------------------------------------------------

  /** Writing, and adding what was missed, records the entry. */
  lemma Records(parse: Parser, st: State, t: nat, n: Name, e: Entry, under: Option<PolicyRecord>)
    returns (steps: seq<Step>)
    requires t !in st.writers && (n in st.entries ==> e.validatedAt >= st.entries[n].validatedAt)
    ensures AllBy(steps, t) && Leads(parse, st, steps, Record(parse, st, t, n, e, under))
    ensures steps == if n in st.entries then [WriteEntry(t, n, e, under)]
                     else [WriteEntry(t, n, e, under), AddMissed(t)]
  {
    var write := WriteEntry(t, n, e, under);
    One(parse, st, write);
    if n in st.entries {
      steps := [write];
    } else {
      var missed := Next(parse, st, write);
      One(parse, missed, AddMissed(t));
      assert missed.writers[t := MustMark] == st.writers[t := MustMark];
      assert Next(parse, missed, AddMissed(t)) == Record(parse, st, t, n, e, under);
      Then(parse, st, [write], missed, [AddMissed(t)], Record(parse, st, t, n, e, under));
      assert [write] + [AddMissed(t)] == [write, AddMissed(t)];
      steps := [write, AddMissed(t)];
    }
  }

  // ---- Enforcing the bound ----------------------------------------------

  /** Pruning one by one. */
  lemma {:induction false} Prunes(parse: Parser, st: State, t: nat, gone: set<Name>) returns (steps: seq<Step>)
    requires forall n | n in gone :: n in st.entries && st.entries[n].expiresAt < st.now
    ensures AllBy(steps, t) && Leads(parse, st, steps, st.(entries := st.entries - gone))
    decreases |gone|
  {
    if gone == {} {
      steps := [];
      assert st.entries - gone == st.entries;
    } else {
      var n :| n in gone;
      var next := st.(entries := st.entries - {n});
      One(parse, st, Expire(n));
      var rest := Prunes(parse, next, t, gone - {n});
      assert next.entries - (gone - {n}) == st.entries - gone;
      Then(parse, st, [Expire(n)], next, rest, st.(entries := st.entries - gone));
      steps := [Expire(n)] + rest;
    }
  }

  /** Evicting what was ranked, one by one. */
  lemma {:induction false} Evicts(parse: Parser, st: State, t: nat, left: set<Name>)
    returns (steps: seq<Step>, st': State)
    requires t in st.writers && st.writers[t].Evicting? && st.writers[t].left == left
    ensures AllBy(steps, t) && Leads(parse, st, steps, st')
    ensures t in st'.writers && st'.writers[t].Evicting? && st'.writers[t].left == {}
    ensures st'.entries == st.entries - left && SameBesides(st, st') && st'.origins == st.origins
    ensures st'.writers - {t} == st.writers - {t} && st'.dirty == st.dirty
    decreases |left|
  {
    if left == {} {
      steps, st' := [], st;
      assert st.entries - left == st.entries;
    } else {
      var n :| n in left;
      var next := Next(parse, st, Evict(t, n));
      One(parse, st, Evict(t, n));
      var rest;
      assert next.entries == st.entries - {n};
      rest, st' := Evicts(parse, next, t, left - {n});
      assert next.entries - (left - {n}) == st.entries - left;
      Then(parse, st, [Evict(t, n)], next, rest, st');
      steps := [Evict(t, n)] + rest;
    }
  }

  /** Ranking, evicting and marking. */
  lemma EvictsRanked(parse: Parser, st: State, t: nat, after: Entries) returns (steps: seq<Step>, st': State)
    requires t in st.writers && st.writers[t].Bounding?
    requires forall n | n in after :: n in st.entries && after[n] == st.entries[n]
    requires forall n, m | n in st.entries && n !in after && m in after ::
               st.entries[n].validatedAt <= after[m].validatedAt
    ensures AllBy(steps, t) && Leads(parse, st, steps, st')
    ensures st'.entries == after && st'.writers == st.writers - {t} && st'.dirty
    ensures SameBesides(st, st') && st'.origins == st.origins
  {
    var victims := st.entries.Keys - after.Keys;
    var rank := Rank(t, victims);
    One(parse, st, rank);
    var ranked := Next(parse, st, rank);
    var evictions, done := Evicts(parse, ranked, t, victims);
    assert ranked.writers - {t} == st.writers - {t};
    assert st.entries - victims == after;
    One(parse, done, MarkDirty(t));
    st' := Next(parse, done, MarkDirty(t));
    Then(parse, ranked, evictions, done, [MarkDirty(t)], st');
    Then(parse, st, [rank], ranked, evictions + [MarkDirty(t)], st');
    steps := [rank] + (evictions + [MarkDirty(t)]);
  }

  lemma Finishes(parse: Parser, st: State, t: nat) returns (steps: seq<Step>)
    requires t in st.writers && st.writers[t].Bounding?
    ensures AllBy(steps, t) && Leads(parse, st, steps, st.(writers := st.writers - {t}))
  {
    steps := [FinishBounds(t)];
    One(parse, st, FinishBounds(t));
  }

  /** The part after the pruning. */
  lemma BoundsLive(parse: Parser, st: State, t: nat, max: nat, after: Entries) returns (steps: seq<Step>, st': State)
    requires t in st.writers && st.writers[t].Bounding? && st.dirty
    requires if |st.entries| <= max then after == st.entries
             else && (forall n | n in after :: n in st.entries && after[n] == st.entries[n])
                  && (forall n, m | n in st.entries && n !in after && m in after ::
                        st.entries[n].validatedAt <= after[m].validatedAt)
    ensures AllBy(steps, t) && Leads(parse, st, steps, st')
    ensures st'.entries == after && st'.writers == st.writers - {t} && st'.dirty
    ensures SameBesides(st, st') && st'.origins == st.origins
  {
    if |st.entries| <= max {
      st' := st.(writers := st.writers - {t});
      steps := Finishes(parse, st, t);
    } else {
      steps, st' := EvictsRanked(parse, st, t, after);
    }
  }

  /** Enforcing the bound, whichever way it goes. */
  lemma Bounds(parse: Parser, st: State, t: nat, max: nat, after: Entries) returns (steps: seq<Step>, st': State)
    requires t in st.writers && st.writers[t].Bounding? && st.dirty && IsBounded(st.entries, after, max, st.now)
    ensures AllBy(steps, t) && Leads(parse, st, steps, st')
    ensures st'.entries == after && st'.writers == st.writers - {t} && st'.dirty
    ensures SameBesides(st, st') && st'.origins == st.origins
  {
    if |st.entries| <= max {
      st' := st.(writers := st.writers - {t});
      steps := Finishes(parse, st, t);
    } else {
      var gone := set n | n in st.entries && st.entries[n].expiresAt < st.now;
      var prune := Prunes(parse, st, t, gone);
      var live := st.(entries := st.entries - gone);
      assert live.entries == Live(st.entries, st.now);
      var rest;
      rest, st' := BoundsLive(parse, live, t, max, after);
      Then(parse, st, prune, live, rest, st');
      steps := prune + rest;
    }
  }

  // ---- The insert -------------------------------------------------------

  /** The entry recorded and marked, the bound not yet enforced. */
  function Marked(parse: Parser, st: State, t: nat, n: Name, e: Entry, under: Option<PolicyRecord>): State {
    var recorded := Record(parse, st, t, n, e, under);
    recorded.(dirty := true, writers := recorded.writers[t := Bounding])
  }

  lemma RecordsAndMarks(parse: Parser, st: State, t: nat, n: Name, e: Entry, under: Option<PolicyRecord>)
    returns (steps: seq<Step>)
    requires t !in st.writers && (n in st.entries ==> e.validatedAt >= st.entries[n].validatedAt)
    ensures AllBy(steps, t) && Leads(parse, st, steps, Marked(parse, st, t, n, e, under))
  {
    var record := Records(parse, st, t, n, e, under);
    var recorded := Record(parse, st, t, n, e, under);
    One(parse, recorded, MarkDirty(t));
    Then(parse, st, record, recorded, [MarkDirty(t)], Marked(parse, st, t, n, e, under));
    steps := record + [MarkDirty(t)];
  }

  lemma MarkedIs(parse: Parser, st: State, t: nat, n: Name, e: Entry, under: Option<PolicyRecord>)
    requires t !in st.writers
    ensures var marked := Marked(parse, st, t, n, e, under);
            && marked.entries == st.entries[n := e] && marked.writers - {t} == st.writers && SameBesides(st, marked)
            && t in marked.writers && marked.writers[t] == Bounding
  {
  }

  lemma AcceptedIsRun(parse: Parser, st: State, t: nat, n: Name, e: Entry, under: Option<PolicyRecord>, max: nat,
                      after: Entries)
    returns (steps: seq<Step>, st': State)
    requires t !in st.writers && (n in st.entries ==> e.validatedAt >= st.entries[n].validatedAt)
    requires IsBounded(st.entries[n := e], after, max, st.now)
    ensures AllBy(steps, t) && Leads(parse, st, steps, st')
    ensures st'.entries == after && st'.writers == st.writers && SameBesides(st, st') && st'.dirty
    ensures st'.origins == st.origins[n := Origin(under, !VouchedFor(parse, st.policy, under, n, e), true)]
  {
    var first := RecordsAndMarks(parse, st, t, n, e, under);
    var marked := Marked(parse, st, t, n, e, under);
    MarkedIs(parse, st, t, n, e, under);
    var bound;
    bound, st' := Bounds(parse, marked, t, max, after);
    Then(parse, st, first, marked, bound, st');
    steps := first + bound;
  }

  /** Whatever an insert makes of the entries, uninterrupted steps of one writer make
      too: recording, marking, and enforcing the bound. */
  lemma InsertIsRun(parse: Parser, st: State, t: nat, n: Name, e: Entry, under: Option<PolicyRecord>, max: nat,
                    after: Entries)
    returns (steps: seq<Step>, st': State)
    requires t !in st.writers && st.now == e.validatedAt && IsInserted(st.entries, after, n, e, max)
    ensures AllBy(steps, t) && Leads(parse, st, steps, st')
    ensures st'.entries == after && st'.writers == st.writers && SameBesides(st, st')
    ensures var accepted := n in st.entries ==> e.validatedAt >= st.entries[n].validatedAt;
            && st'.dirty == (st.dirty || accepted)
            && st'.origins == if accepted
                              then st.origins[n := Origin(under, !VouchedFor(parse, st.policy, under, n, e), true)]
                              else st.origins
  {
    if n in st.entries && e.validatedAt < st.entries[n].validatedAt {
      steps, st' := [WriteEntry(t, n, e, under)], st;
      One(parse, st, WriteEntry(t, n, e, under));
    } else {
      steps, st' := AcceptedIsRun(parse, st, t, n, e, under, max, after);
    }
  }

  // ---- The flush --------------------------------------------------------

  /** The entries of some names. */
  function Only(entries: Entries, names: set<Name>): Entries { map n | n in entries && n in names :: entries[n] }

  function OriginsOf(origins: map<Name, Origin>, names: set<Name>): map<Name, Origin> {
    map n | n in origins && n in names :: origins[n]
  }

  /** A flush that has collected `names`, undisturbed. */
  predicate HasCollected(st: State, names: set<Name>) {
    && st.flush.Collecting? && st.flush.visited == names <= st.entries.Keys
    && st.flush.snap == Only(st.entries, names) && st.flush.snapOrigins == OriginsOf(st.origins, names)
  }

  lemma CollectsOne(parse: Parser, st: State, names: set<Name>, n: Name)
    requires HasCollected(st, names) && n in st.entries && n !in names
    ensures Enabled(st, Collect(n)) && HasCollected(Next(parse, st, Collect(n)), names + {n})
    ensures var st' := Next(parse, st, Collect(n)); st' == st.(flush := st'.flush)
  {
    var f := st.flush;
    assert f.snap[n := st.entries[n]] == Only(st.entries, names + {n});
    if n in st.origins {
      assert f.snapOrigins[n := st.origins[n]] == OriginsOf(st.origins, names + {n});
    } else {
      assert f.snapOrigins - {n} == OriginsOf(st.origins, names + {n});
    }
  }

  lemma {:induction false} Collects(parse: Parser, st: State, names: set<Name>) returns (steps: seq<Step>, st': State)
    requires HasCollected(st, names)
    ensures Leads(parse, st, steps, st') && st' == st.(flush := st'.flush) && HasCollected(st', st.entries.Keys)
    decreases |st.entries.Keys - names|
  {
    var left := st.entries.Keys - names;
    if left == {} {
      steps, st' := [], st;
      assert st.entries.Keys <= names;
    } else {
      var n :| n in left;
      CollectsOne(parse, st, names, n);
      One(parse, st, Collect(n));
      var next := Next(parse, st, Collect(n));
      assert st.entries.Keys - (names + {n}) == left - {n};
      var rest;
      rest, st' := Collects(parse, next, names + {n});
      Then(parse, st, [Collect(n)], next, rest, st');
      steps := [Collect(n)] + rest;
    }
  }

  lemma BeginsAndPrunes(parse: Parser, st: State) returns (steps: seq<Step>)
    requires st.flush.Idle? && st.dirty
    ensures Leads(parse, st, steps, st.(entries := Live(st.entries, st.now), dirty := false,
                                        flush := Collecting(map[], map[], {}, {})))
  {
    var begun := Next(parse, st, BeginFlush);
    One(parse, st, BeginFlush);
    var gone := set n | n in st.entries && st.entries[n].expiresAt < st.now;
    var prune := Prunes(parse, begun, 0, gone);
    assert begun.entries - gone == Live(st.entries, st.now);
    Then(parse, st, [BeginFlush], begun, prune, begun.(entries := begun.entries - gone));
    steps := [BeginFlush] + prune;
  }

  /** The file of everything in memory. */
  function FileOf(st: State): File {
    File(FORMAT_VERSION, st.entries, st.policy, OriginsOf(st.origins, st.entries.Keys), st.stamps)
  }

  lemma CollectsAll(parse: Parser, st: State) returns (steps: seq<Step>)
    requires st.flush == Collecting(map[], map[], {}, {})
    ensures Leads(parse, st, steps, st.(flush := Writing(FileOf(st)), stamps := st.stamps + 1))
  {
    var collect, all := Collects(parse, st, {});
    assert Only(st.entries, st.entries.Keys) == st.entries;
    One(parse, all, EndCollect);
    Then(parse, st, collect, all, [EndCollect], Next(parse, all, EndCollect));
    steps := collect + [EndCollect];
  }

  /** The locked half of a flush, uninterrupted: the flag cleared, expired entries
      pruned, and a file of exactly the live entries, their origins and the policy
      ready to be written. */
  lemma SnapshotIsRun(parse: Parser, st: State) returns (steps: seq<Step>, st': State)
    requires st.flush.Idle? && st.dirty
    ensures Leads(parse, st, steps, st')
    ensures st'.entries == Live(st.entries, st.now) && !st'.dirty
    ensures st'.flush == Writing(FileOf(st'.(stamps := st.stamps)))
    ensures st'.policy == st.policy && st'.origins == st.origins && st'.writers == st.writers && st'.file == st.file
  {
    var first := BeginsAndPrunes(parse, st);
    var live := st.(entries := Live(st.entries, st.now), dirty := false, flush := Collecting(map[], map[], {}, {}));
    var rest := CollectsAll(parse, live);
    st' := live.(flush := Writing(FileOf(live)), stamps := st.stamps + 1);
    Then(parse, st, first, live, rest, st');
    steps := first + rest;
  }

  // ---- The load ---------------------------------------------------------

  /** Loading the file into an empty cache is the restart step, whatever the order of
      the listing and whatever the bound makes of it, the dirty flag included. */
  lemma LoadIsRestart(parse: Parser, st: State, listed: seq<PersistedEntry>, max: nat, after: Entries)
    requires st.file.Some? && Lists(listed, st.file.value.entries)
    requires IsBounded(LoadEntries(map[], st.file.value.version, listed, st.now), after, max, st.now)
    ensures Enabled(st, Restart(after))
    ensures var version := st.file.value.version;
            var loaded := LoadEntries(map[], version, listed, st.now);
            var st' := Next(parse, st, Restart(after));
            && st'.entries == after && st'.policy == st.file.value.policy
            && (st'.dirty <==> Migrates(version, listed, st.now)
                               || (|loaded| > max && |Live(loaded, st.now)| > max))
  {
    var file := st.file.value;
    LoadIsView(file.entries, file.version, listed, st.now);
    var loaded := FileView(file.version, file.entries, st.now);
    assert Live(loaded, st.now) == loaded;
    MigratesView(file.version, file.entries, listed, st.now);
    KeptIsWhole(file.version, file.entries, st.now, after);
  }

  lemma MigratesView(version: nat, entries: Entries, listed: seq<PersistedEntry>, now: nat)
    requires Lists(listed, entries)
    ensures Migrates(version, listed, now) <==> FileView(version, entries, now) != Live(entries, now)
  {
    if Migrates(version, listed, now) {
      var p :| p in listed && p.name.Some? && p.entry.expiresAt >= now && ShallowSigned(p.name.value, p.entry);
      assert p.name.value in Live(entries, now) && p.name.value !in FileView(version, entries, now);
    }
    if !Migrates(version, listed, now) {
      forall n | n in Live(entries, now) ensures n in FileView(version, entries, now) {
        assert PersistedEntry(Some(n), entries[n]) in listed;
      }
      assert FileView(version, entries, now) == Live(entries, now);
    }
  }

  /** What is kept of a view is all that is live exactly if both are. */
  lemma KeptIsWhole(version: nat, entries: Entries, now: nat, after: Entries)
    requires forall n | n in after :: n in FileView(version, entries, now) && after[n] == entries[n]
    ensures after == Live(entries, now) <==>
              after == FileView(version, entries, now) && FileView(version, entries, now) == Live(entries, now)
  {
    forall n | n in FileView(version, entries, now) ensures n in Live(entries, now) {
    }
    if after == Live(entries, now) {
      assert FileView(version, entries, now).Keys == Live(entries, now).Keys;
    }
  }
}
