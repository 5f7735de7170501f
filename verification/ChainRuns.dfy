/** The chain cache as a concurrent, crashing system: writers, policy changes
    and flushes interleave step by step, a crash loses the memory and a restart
    reads the file back. */
module ChainRuns {
  import opened Names
  import opened ChainSpec

  /** Where an entry comes from: the policy of the validator that authenticated
      it, whether the cache's policy failed to vouch for that when the entry was
      recorded, and whether that happened in this run rather than before it. */
  datatype Origin = Origin(under: Option<PolicyRecord>, stray: bool, inRun: bool)

  /** A written file with the origins of its entries and a snapshot number. */
  datatype File = File(version: nat, entries: Entries, policy: Option<PolicyRecord>, origins: map<Name, Origin>,
                       stamp: nat)

  /** Progress of the one flush that can hold the flush lock. While collecting it
      also holds the policy lock; `touched` are the names changed meanwhile. */
  datatype FlushPc =
    | Idle
    | Collecting(snap: Entries, snapOrigins: map<Name, Origin>, visited: set<Name>, touched: set<Name>)
    | Writing(pending: File)

  /** Progress of an insert: it found no entry and is about to add one, it changed
      an entry and still has to set the dirty flag, it is enforcing the bound, or
      it ranked the entries by age and removes the oldest one by one before it sets
      the flag. */
  datatype WriterPc =
    | Missed(n: Name, e: Entry, under: Option<PolicyRecord>)
    | MustMark
    | Bounding
    | Evicting(ages: map<Name, nat>, ranked: set<Name>, left: set<Name>, removed: bool)

  datatype State = State(
    now: nat, entries: Entries, policy: Option<PolicyRecord>, dirty: bool, origins: map<Name, Origin>,
    writers: map<nat, WriterPc>, flush: FlushPc, file: Option<File>, stamps: nat,
    blind: bool)  // started from a file it could not read, nothing written since

  datatype Step =
    | Tick(later: nat)
    | WriteEntry(t: nat, n: Name, e: Entry, under: Option<PolicyRecord>)  // by the caller's clock and policy
    | AddMissed(t: nat)
    | MarkDirty(t: nat)
    | Expire(n: Name)
    | Rank(t: nat, ranked: set<Name>)
    | Evict(t: nat, n: Name)
    | FinishBounds(t: nat)
    | ChangePolicy(next: Policy)
    | Invalidate(anchor: Name)
    | BeginFlush
    | Collect(n: Name)
    | EndCollect
    | WriteSucceeds
    | WriteFails
    | WriteFailsLate   // the rename happened, making it durable did not
    | Restart(kept: Entries)
    | RestartUnreadable

  predicate IsFlushStep(step: Step) {
    step.BeginFlush? || step.Collect? || step.EndCollect? || step.WriteSucceeds? || step.WriteFails?
        || step.WriteFailsLate?
  }

  function Lookup(entries: Entries, n: Name, now: nat): Option<Entry> {
    if n in entries && entries[n].expiresAt >= now then Some(entries[n]) else None
  }

  function Touch(flush: FlushPc, names: set<Name>): FlushPc {
    if flush.Collecting? then flush.(touched := flush.touched + names) else flush
  }

  function FileLoads(file: Option<File>, now: nat): Entries {
    if file.None? then map[] else FileView(file.value.version, file.value.entries, now)
  }

  function FilePolicy(file: Option<File>): Option<PolicyRecord> {
    if file.None? then None else file.value.policy
  }

  /** The writer changed something it has not marked yet. */
  predicate Owes(w: WriterPc) { w.MustMark? || (w.Evicting? && w.removed) }

  predicate Enabled(st: State, step: Step) {
    match step
    case Tick(later) => later >= st.now
    case WriteEntry(t, _, _, _) => t !in st.writers
    case AddMissed(t) => t in st.writers && st.writers[t].Missed?
    case MarkDirty(t) =>
      t in st.writers && (st.writers[t].MustMark? || (st.writers[t].Evicting? && st.writers[t].left == {}))
    case Expire(n) => n in st.entries && st.entries[n].expiresAt < st.now
    case Rank(t, ranked) =>
      && t in st.writers && st.writers[t].Bounding? && ranked <= st.entries.Keys
      && forall v, m | v in ranked && m in st.entries.Keys - ranked ::
          st.entries[v].validatedAt <= st.entries[m].validatedAt
    case Evict(t, n) => t in st.writers && st.writers[t].Evicting? && n in st.writers[t].left
    case FinishBounds(t) => t in st.writers && st.writers[t].Bounding?
    case ChangePolicy(_) => !st.flush.Collecting?
    case Invalidate(_) => !st.flush.Collecting?
    case BeginFlush => st.flush.Idle? && st.dirty
    case Collect(n) => st.flush.Collecting? && n !in st.flush.visited
    case EndCollect => st.flush.Collecting? && st.entries.Keys <= st.flush.visited + st.flush.touched
    case WriteSucceeds => st.flush.Writing?
    case WriteFails => st.flush.Writing?
    case WriteFailsLate => st.flush.Writing?
    case Restart(kept) =>
      forall n | n in kept :: n in FileLoads(st.file, st.now) && kept[n] == FileLoads(st.file, st.now)[n]
    case RestartUnreadable => st.file.Some?
  }

  function Next(parse: Parser, st: State, step: Step): State
    requires Enabled(st, step)
  {
    if IsFlushStep(step) then NextOfFlush(st, step) else NextInMemory(parse, st, step)
  }

  function NextInMemory(parse: Parser, st: State, step: Step): State
    requires Enabled(st, step) && !IsFlushStep(step)
  {
    match step
    case Tick(later) => st.(now := later)
    case WriteEntry(t, n, e, under) =>
      if n !in st.entries then st.(writers := st.writers[t := Missed(n, e, under)])
      else if e.validatedAt < st.entries[n].validatedAt then st
      else Record(parse, st, t, n, e, under)
    case AddMissed(t) => Record(parse, st, t, st.writers[t].n, st.writers[t].e, st.writers[t].under)
    case MarkDirty(t) =>
      st.(dirty := true, writers := if st.writers[t].MustMark? then st.writers[t := Bounding] else st.writers - {t})
    case Expire(n) => st.(entries := st.entries - {n})
    case Rank(t, ranked) =>
      var ages := map n | n in st.entries :: st.entries[n].validatedAt;
      st.(writers := st.writers[t := Evicting(ages, ranked, ranked, false)])
    case Evict(t, n) =>
      var w := st.writers[t].(left := st.writers[t].left - {n});
      if n !in st.entries then st.(writers := st.writers[t := w])
      else
        st.(entries := st.entries - {n}, writers := st.writers[t := w.(removed := true)], flush := Touch(st.flush, {n}))
    case FinishBounds(t) => st.(writers := st.writers - {t})
    case ChangePolicy(next) =>
      var change := PolicyChange(parse, st.policy, next);
      st.(entries := EntriesAfter(st.entries, change), policy := PolicyAfter(st.policy, next, change),
          dirty := st.dirty || !change.Unchanged?)
    case Invalidate(anchor) =>
      var kept := WithoutContradicted(st.entries, {anchor});
      st.(entries := kept, dirty := st.dirty || kept != st.entries)
    case Restart(kept) =>
      State(st.now, kept, FilePolicy(st.file), kept != Live(FileRaw(st.file), st.now),
            FileOrigins(st.file), map[], Idle, st.file, st.stamps, false)
    case RestartUnreadable => State(st.now, map[], None, false, map[], map[], Idle, st.file, st.stamps, true)
  }

  function NextOfFlush(st: State, step: Step): State
    requires Enabled(st, step) && IsFlushStep(step)
  {
    match step
    case BeginFlush => st.(dirty := false, flush := Collecting(map[], map[], {}, {}))
    case Collect(n) =>
      var f := st.flush;
      if n !in st.entries then st.(flush := f.(visited := f.visited + {n}))
      else
        st.(flush := Collecting(
              f.snap[n := st.entries[n]],
              if n in st.origins then f.snapOrigins[n := st.origins[n]] else f.snapOrigins - {n},
              f.visited + {n}, f.touched))
    case EndCollect =>
      st.(flush := Writing(File(FORMAT_VERSION, st.flush.snap, st.policy, st.flush.snapOrigins, st.stamps)),
          stamps := st.stamps + 1)
    case WriteSucceeds => st.(file := Some(st.flush.pending), flush := Idle, blind := false)
    case WriteFails => st.(dirty := true, flush := Idle)
    case WriteFailsLate => st.(file := Some(st.flush.pending), dirty := true, flush := Idle, blind := false)
  }

  /** The entry is set, whatever was there, and the mark owed. */
  function Record(parse: Parser, st: State, t: nat, n: Name, e: Entry, under: Option<PolicyRecord>): State {
    st.(entries := st.entries[n := e],
        origins := st.origins[n := Origin(under, !VouchedFor(parse, st.policy, under, n, e), true)],
        writers := st.writers[t := MustMark], flush := Touch(st.flush, {n}))
  }

  function FileRaw(file: Option<File>): Entries {
    if file.None? then map[] else file.value.entries
  }

  function FileOrigins(file: Option<File>): map<Name, Origin> {
    if file.None? then map[] else file.value.origins
  }

  // ---- Policy safety ----------------------------------------------------

  /** Evidence authenticated under `u` is still good under `p`: the same NTAs, no
      anchor lost, and an unsigned zone not at or above an anchor added since. */
  predicate StillGood(parse: Parser, u: PolicyRecord, p: PolicyRecord, n: Name, e: Entry) {
    if !p.metadataKnown then u.state.fingerprint == p.state.fingerprint
    else
      && u.metadataKnown && u.state.ntas == p.state.ntas && u.state.anchors <= p.state.anchors
      && (e.status.UnsignedZone? ==>
            forall a | a in p.state.anchors - u.state.anchors && parse(a).Some? :: !ZoneOf(n, parse(a).value))
  }

  /** The recorded policy, once there is one, vouches for the entry. */
  predicate VouchedFor(parse: Parser, policy: Option<PolicyRecord>, under: Option<PolicyRecord>, n: Name, e: Entry) {
    policy.Some? ==> under.Some? && StillGood(parse, under.value, policy.value, n, e)
  }

  /** Every entry is vouched for, save those that were not when recorded. */
  ghost predicate PolicySafe(parse: Parser, entries: Entries, origins: map<Name, Origin>,
                             policy: Option<PolicyRecord>) {
    policy.Some? ==>
      forall n | n in entries :: n in origins
          && (origins[n].stray || VouchedFor(parse, policy, origins[n].under, n, entries[n]))
  }

  /** Every entry is vouched for. */
  ghost predicate AllVouched(parse: Parser, entries: Entries, origins: map<Name, Origin>,
                             policy: Option<PolicyRecord>) {
    policy.Some? ==>
      forall n | n in entries :: n in origins && VouchedFor(parse, policy, origins[n].under, n, entries[n])
  }

  /** Memory, snapshot and file each hold only evidence their policy vouches for. */
  ghost predicate AllPolicySafe(parse: Parser, st: State) {
    && PolicySafe(parse, st.entries, st.origins, st.policy)
    && (st.flush.Collecting? ==> PolicySafe(parse, st.flush.snap, st.flush.snapOrigins, st.policy))
    && (st.flush.Writing? ==>
          PolicySafe(parse, st.flush.pending.entries, st.flush.pending.origins, st.flush.pending.policy))
    && (st.file.Some? ==> PolicySafe(parse, st.file.value.entries, st.file.value.origins, st.file.value.policy))
  }

  lemma ChangeKeepsVouched(parse: Parser, entries: Entries, policy: Option<PolicyRecord>, next: Policy, n: Name,
                           under: Option<PolicyRecord>)
    requires policy.Some? && n in entries && VouchedFor(parse, policy, under, n, entries[n])
    ensures var change := PolicyChange(parse, policy, next);
            n in EntriesAfter(entries, change) ==>
                VouchedFor(parse, PolicyAfter(policy, next, change), under, n, entries[n])
  {
    var change := PolicyChange(parse, policy, next);
    var p := policy.value;
    if change.AddedAnchors? && n in EntriesAfter(entries, change) {
      forall a | a in next.anchors - under.value.state.anchors && parse(a).Some?
        ensures entries[n].status.UnsignedZone? ==> !ZoneOf(n, parse(a).value)
      {
        if a !in p.state.anchors { assert parse(a).value in Added(parse, p.state.anchors, next.anchors); }
      }
    }
  }

  lemma PolicyChangeKeepsSafe(parse: Parser, entries: Entries, origins: map<Name, Origin>,
                              policy: Option<PolicyRecord>, next: Policy)
    requires PolicySafe(parse, entries, origins, policy)
    ensures var change := PolicyChange(parse, policy, next);
            PolicySafe(parse, EntriesAfter(entries, change), origins, PolicyAfter(policy, next, change))
  {
    var change := PolicyChange(parse, policy, next);
    if policy.Some? {
      forall n | n in EntriesAfter(entries, change)
        ensures n in origins && (origins[n].stray
            || VouchedFor(parse, PolicyAfter(policy, next, change), origins[n].under, n, entries[n]))
      {
        if !origins[n].stray { ChangeKeepsVouched(parse, entries, policy, next, n, origins[n].under); }
      }
    }
  }

  lemma FlushPolicySafe(parse: Parser, st: State, step: Step)
    requires AllPolicySafe(parse, st) && Enabled(st, step) && IsFlushStep(step)
    ensures AllPolicySafe(parse, NextOfFlush(st, step))
  {
  }

  lemma MemoryPolicySafe(parse: Parser, st: State, step: Step)
    requires AllPolicySafe(parse, st) && Enabled(st, step) && !IsFlushStep(step) && !step.ChangePolicy?
    ensures AllPolicySafe(parse, NextInMemory(parse, st, step))
  {
  }

  lemma StepPolicySafe(parse: Parser, st: State, step: Step)
    requires AllPolicySafe(parse, st) && Enabled(st, step)
    ensures AllPolicySafe(parse, Next(parse, st, step))
  {
    if step.ChangePolicy? {
      PolicyChangeKeepsSafe(parse, st.entries, st.origins, st.policy, step.next);
    } else if IsFlushStep(step) {
      FlushPolicySafe(parse, st, step);
    } else {
      MemoryPolicySafe(parse, st, step);
    }
  }

  // ---- Stray writes -----------------------------------------------------

  ghost predicate NoStray(entries: Entries, origins: map<Name, Origin>) {
    forall n | n in entries && n in origins :: !origins[n].stray
  }

  ghost predicate NowhereStray(st: State) {
    && NoStray(st.entries, st.origins)
    && (st.flush.Collecting? ==> NoStray(st.flush.snap, st.flush.snapOrigins))
    && (st.flush.Writing? ==> NoStray(st.flush.pending.entries, st.flush.pending.origins))
    && (st.file.Some? ==> NoStray(st.file.value.entries, st.file.value.origins))
  }

  /** The step records evidence that the policy then recorded does not vouch
      for: its validator runs under another policy. */
  predicate IsStray(parse: Parser, st: State, step: Step)
    requires Enabled(st, step)
  {
    match step
    case WriteEntry(_, n, e, under) =>
      n in st.entries && e.validatedAt >= st.entries[n].validatedAt && !VouchedFor(parse, st.policy, under, n, e)
    case AddMissed(t) => !VouchedFor(parse, st.policy, st.writers[t].under, st.writers[t].n, st.writers[t].e)
    case _ => false
  }

  lemma FlushNowhereStray(st: State, step: Step)
    requires NowhereStray(st) && Enabled(st, step) && IsFlushStep(step)
    ensures NowhereStray(NextOfFlush(st, step))
  {
  }

  lemma MemoryNowhereStray(parse: Parser, st: State, step: Step)
    requires NowhereStray(st) && Enabled(st, step) && !IsStray(parse, st, step) && !IsFlushStep(step)
    ensures NowhereStray(NextInMemory(parse, st, step))
  {
  }

  lemma StepNowhereStray(parse: Parser, st: State, step: Step)
    requires NowhereStray(st) && Enabled(st, step) && !IsStray(parse, st, step)
    ensures NowhereStray(Next(parse, st, step))
  {
    if IsFlushStep(step) { FlushNowhereStray(st, step); } else { MemoryNowhereStray(parse, st, step); }
  }

  /** A stray write shows at once. */
  lemma StrayIsNotVouched(parse: Parser, st: State, step: Step)
    requires Enabled(st, step) && IsStray(parse, st, step)
    ensures var st' := Next(parse, st, step); !AllVouched(parse, st'.entries, st'.origins, st'.policy)
  {
    var st' := Next(parse, st, step);
    var n := if step.AddMissed? then st.writers[step.t].n else step.n;
    assert n in st'.entries && n in st'.origins;
  }

  // ---- Newest evidence --------------------------------------------------

  /** An insert that found no entry overtakes a newer one added meanwhile. */
  predicate IsOvertaken(st: State, step: Step, n: Name)
    requires Enabled(st, step)
  {
    step.AddMissed? && st.writers[step.t].n == n && n in st.entries
    && st.writers[step.t].e.validatedAt < st.entries[n].validatedAt
  }

  /** Within a process, exactly such an insert replaces newer evidence by older. */
  lemma OlderReplacesNewerExactly(parse: Parser, st: State, step: Step, n: Name)
    requires Enabled(st, step) && !step.Restart? && !step.RestartUnreadable?
    requires n in st.entries && n in Next(parse, st, step).entries
    ensures Next(parse, st, step).entries[n].validatedAt < st.entries[n].validatedAt <==> IsOvertaken(st, step, n)
  {
  }

  // ---- Eviction ---------------------------------------------------------

  /** What a writer ranked for eviction was no newer than what it did not. */
  ghost predicate Ranked(w: WriterPc) {
    w.Evicting? ==>
      && w.left <= w.ranked <= w.ages.Keys
      && forall v, m | v in w.ranked && m in w.ages.Keys - w.ranked :: w.ages[v] <= w.ages[m]
  }

  ghost predicate AllRanked(st: State) {
    forall t | t in st.writers :: Ranked(st.writers[t])
  }

  lemma StepRanked(parse: Parser, st: State, step: Step)
    requires AllRanked(st) && Enabled(st, step)
    ensures AllRanked(Next(parse, st, step))
  {
    if IsFlushStep(step) {
      assert NextOfFlush(st, step).writers == st.writers;
    }
  }

  // ---- Legacy evidence --------------------------------------------------

  ghost predicate ShallowFresh(entries: Entries, origins: map<Name, Origin>) {
    forall n | n in entries && ShallowSigned(n, entries[n]) :: n in origins && origins[n].inRun
  }

  /** Every root or top-level `Signed` entry in memory, in a snapshot or in a
      current-format file was recorded in this run. */
  ghost predicate AllShallowFresh(st: State) {
    && ShallowFresh(st.entries, st.origins)
    && (st.flush.Collecting? ==> ShallowFresh(st.flush.snap, st.flush.snapOrigins))
    && (st.flush.Writing? ==> ShallowFresh(st.flush.pending.entries, st.flush.pending.origins))
    && (st.file.Some? && st.file.value.version >= FORMAT_VERSION ==>
          ShallowFresh(st.file.value.entries, st.file.value.origins))
  }

  lemma FlushShallowFresh(st: State, step: Step)
    requires AllShallowFresh(st) && Enabled(st, step) && IsFlushStep(step)
    ensures AllShallowFresh(NextOfFlush(st, step))
  {
  }

  lemma MemoryShallowFresh(parse: Parser, st: State, step: Step)
    requires AllShallowFresh(st) && Enabled(st, step) && !IsFlushStep(step)
    ensures AllShallowFresh(NextInMemory(parse, st, step))
  {
  }

  lemma StepShallowFresh(parse: Parser, st: State, step: Step)
    requires AllShallowFresh(st) && Enabled(st, step)
    ensures AllShallowFresh(Next(parse, st, step))
  {
    if IsFlushStep(step) { FlushShallowFresh(st, step); } else { MemoryShallowFresh(parse, st, step); }
  }

  // ---- Nothing is lost --------------------------------------------------

  ghost predicate Owing(st: State) {
    exists t | t in st.writers :: Owes(st.writers[t])
  }

  /** Same live contents. */
  ghost predicate Agree(a: Entries, b: Entries, now: nat) {
    forall n :: Lookup(a, n, now) == Lookup(b, n, now)
  }

  ghost predicate FlushInv(st: State) {
    match st.flush
    case Idle =>
      !st.dirty && !Owing(st) ==>
        if st.blind then st.entries == map[] && st.policy == None
        else Agree(FileLoads(st.file, st.now), st.entries, st.now) && FilePolicy(st.file) == st.policy
    case Collecting(snap, _, visited, touched) =>
      && (touched != {} ==> st.dirty || Owing(st))
      && snap.Keys <= visited
      && forall n | n in visited - touched :: Lookup(snap, n, st.now) == Lookup(st.entries, n, st.now)
    case Writing(f) =>
      && f.version == FORMAT_VERSION
      && (!st.dirty && !Owing(st) ==> Agree(f.entries, st.entries, st.now) && f.policy == st.policy)
  }

  lemma TickKeepsFlush(st: State, later: nat)
    requires FlushInv(st) && later >= st.now
    ensures FlushInv(st.(now := later))
  {
    var st' := st.(now := later);
    assert Owing(st') ==> Owing(st);
    forall n ensures Lookup(FileLoads(st.file, later), n, later) == Lookup(FileLoads(st.file, st.now), n, later) {
    }
    forall a: Entries, b: Entries, n | Lookup(a, n, st.now) == Lookup(b, n, st.now)
      ensures Lookup(a, n, later) == Lookup(b, n, later)
    {
    }
  }

  /** A writer that changed an entry owes the mark from then on. */
  lemma RecordKeepsFlush(parse: Parser, st: State, t: nat, n: Name, e: Entry, under: Option<PolicyRecord>)
    requires FlushInv(st)
    ensures FlushInv(Record(parse, st, t, n, e, under))
  {
    var st' := Record(parse, st, t, n, e, under);
    assert t in st'.writers && Owes(st'.writers[t]);
  }

  /** A writer that owes nothing may come and go. */
  lemma SameOwing(st: State, st': State, t: nat)
    requires forall u | u != t ::
               (u in st.writers <==> u in st'.writers) && (u in st.writers ==> st.writers[u] == st'.writers[u])
    requires (t in st.writers ==> !Owes(st.writers[t])) && (t in st'.writers ==> !Owes(st'.writers[t]))
    ensures Owing(st') <==> Owing(st)
  {
    if u :| u in st.writers && Owes(st.writers[u]) { assert u in st'.writers && Owes(st'.writers[u]); }
    if u :| u in st'.writers && Owes(st'.writers[u]) { assert u in st.writers && Owes(st.writers[u]); }
  }

  lemma WriterKeepsFlush(parse: Parser, st: State, step: Step)
    requires FlushInv(st) && Enabled(st, step)
    requires step.WriteEntry? || step.AddMissed? || step.MarkDirty? || step.FinishBounds?
    ensures FlushInv(Next(parse, st, step))
  {
    var st' := Next(parse, st, step);
    match step {
      case WriteEntry(t, n, e, under) =>
        if n !in st.entries {
          SameOwing(st, st', t);
        } else if e.validatedAt >= st.entries[n].validatedAt {
          RecordKeepsFlush(parse, st, t, n, e, under);
        }
      case AddMissed(t) => RecordKeepsFlush(parse, st, t, st.writers[t].n, st.writers[t].e, st.writers[t].under);
      case FinishBounds(t) => SameOwing(st, st', t);
      case MarkDirty(_) =>
    }
  }

  lemma EvictionKeepsFlush(parse: Parser, st: State, step: Step)
    requires FlushInv(st) && Enabled(st, step) && (step.Rank? || step.Evict?)
    ensures FlushInv(NextInMemory(parse, st, step))
  {
    var st' := NextInMemory(parse, st, step);
    var t := step.t;
    if Owes(st'.writers[t]) {
      assert Owing(st');
      if Owes(st.writers[t]) { assert Owing(st); }
    } else {
      SameOwing(st, st', t);
    }
  }

  lemma CollectKeepsFlush(st: State, n: Name)
    requires FlushInv(st) && Enabled(st, Collect(n))
    ensures FlushInv(NextOfFlush(st, Collect(n)))
  {
    assert Owing(NextOfFlush(st, Collect(n))) <==> Owing(st);
  }

  lemma FlushStepsKeepFlush(st: State, step: Step)
    requires FlushInv(st) && Enabled(st, step) && IsFlushStep(step) && !step.Collect?
    ensures FlushInv(NextOfFlush(st, step))
  {
    assert Owing(NextOfFlush(st, step)) <==> Owing(st);
  }

  lemma OtherStepsKeepFlush(parse: Parser, st: State, step: Step)
    requires FlushInv(st) && Enabled(st, step)
    requires step.Expire? || step.ChangePolicy? || step.Invalidate? || step.Restart? || step.RestartUnreadable?
    ensures FlushInv(Next(parse, st, step))
  {
    var st' := Next(parse, st, step);
    if !step.Restart? && !step.RestartUnreadable? {
      assert Owing(st') <==> Owing(st);
    }
  }

  lemma StepFlush(parse: Parser, st: State, step: Step)
    requires FlushInv(st) && Enabled(st, step)
    ensures FlushInv(Next(parse, st, step))
  {
    match step {
      case Tick(later) => TickKeepsFlush(st, later);
      case WriteEntry(_, _, _, _) => WriterKeepsFlush(parse, st, step);
      case AddMissed(_) => WriterKeepsFlush(parse, st, step);
      case MarkDirty(_) => WriterKeepsFlush(parse, st, step);
      case Rank(_, _) => EvictionKeepsFlush(parse, st, step);
      case Evict(_, _) => EvictionKeepsFlush(parse, st, step);
      case FinishBounds(_) => WriterKeepsFlush(parse, st, step);
      case Expire(_) => OtherStepsKeepFlush(parse, st, step);
      case ChangePolicy(_) => OtherStepsKeepFlush(parse, st, step);
      case Invalidate(_) => OtherStepsKeepFlush(parse, st, step);
      case Restart(_) => OtherStepsKeepFlush(parse, st, step);
      case RestartUnreadable => OtherStepsKeepFlush(parse, st, step);
      case Collect(n) => CollectKeepsFlush(st, n);
      case _ => FlushStepsKeepFlush(st, step);
    }
  }

  // ---- Snapshot order ---------------------------------------------------

  ghost predicate StampInv(st: State) {
    && (st.file.Some? ==> st.file.value.stamp < st.stamps)
    && (st.flush.Writing? ==> st.flush.pending.stamp < st.stamps)
    && (st.flush.Writing? && st.file.Some? ==> st.file.value.stamp < st.flush.pending.stamp)
  }

  /** A file gives way only to a file of a later snapshot. */
  predicate FileAdvances(file: Option<File>, file': Option<File>) {
    file' == file || (file'.Some? && (file.Some? ==> file.value.stamp < file'.value.stamp))
  }

  lemma MemoryStamps(parse: Parser, st: State, step: Step)
    requires StampInv(st) && Enabled(st, step) && !IsFlushStep(step)
    ensures StampInv(NextInMemory(parse, st, step)) && NextInMemory(parse, st, step).file == st.file
  {
  }

  lemma StepStamps(parse: Parser, st: State, step: Step)
    requires StampInv(st) && Enabled(st, step)
    ensures StampInv(Next(parse, st, step)) && FileAdvances(st.file, Next(parse, st, step).file)
  {
    if !IsFlushStep(step) { MemoryStamps(parse, st, step); }
  }

  /** A flush that failed, even after the rename, is due again at once. */
  lemma FailedFlushIsDue(parse: Parser, st: State, step: Step)
    requires Enabled(st, step) && (step.WriteFails? || step.WriteFailsLate?)
    ensures Enabled(Next(parse, st, step), BeginFlush)
  {
  }

  // ---- Whole runs -------------------------------------------------------

  /** A fresh process: an empty memory beside no file, or beside a file whose
      entries its policy vouches for. */
  ghost predicate Init(parse: Parser, st: State) {
    && st.entries == map[] && st.policy == None && !st.dirty && st.origins == map[]
    && st.writers == map[] && st.flush == Idle && !st.blind && StampInv(st)
    && (st.file.Some? ==>
          PolicySafe(parse, st.file.value.entries, st.file.value.origins, st.file.value.policy)
          && NoStray(st.file.value.entries, st.file.value.origins))
    && (st.file.Some? && st.file.value.version >= FORMAT_VERSION ==>
          ShallowFresh(st.file.value.entries, st.file.value.origins))
  }

  ghost predicate IsRun(parse: Parser, states: seq<State>, steps: seq<Step>) {
    && |states| == |steps| + 1 && Init(parse, states[0])
    && (|steps| > 0 ==> steps[0].Restart? || steps[0].RestartUnreadable?)
    && forall i {:trigger StepAt(parse, states, steps, i)} | 0 <= i < |steps| :: StepAt(parse, states, steps, i)
  }

  ghost predicate StepAt(parse: Parser, states: seq<State>, steps: seq<Step>, i: nat)
    requires i < |steps| && |states| == |steps| + 1
  {
    Enabled(states[i], steps[i]) && states[i + 1] == Next(parse, states[i], steps[i])
  }

  lemma StartInv(parse: Parser, states: seq<State>, steps: seq<Step>)
    requires IsRun(parse, states, steps) && |steps| > 0
    ensures FlushInv(states[1])
  {
    assert StepAt(parse, states, steps, 0);
  }

  lemma {:induction false} RunInv(parse: Parser, states: seq<State>, steps: seq<Step>, i: nat)
    requires IsRun(parse, states, steps) && i < |states|
    ensures AllPolicySafe(parse, states[i]) && AllShallowFresh(states[i]) && StampInv(states[i])
    ensures i > 0 ==> FlushInv(states[i])
  {
    if i > 0 {
      RunInv(parse, states, steps, i - 1);
      assert StepAt(parse, states, steps, i - 1);
      StepPolicySafe(parse, states[i - 1], steps[i - 1]);
      StepShallowFresh(parse, states[i - 1], steps[i - 1]);
      StepStamps(parse, states[i - 1], steps[i - 1]);
      if i == 1 { StartInv(parse, states, steps); } else { StepFlush(parse, states[i - 1], steps[i - 1]); }
    }
  }

  /** Policy safety over every run: once a policy is recorded, every entry that
      survived inserts, policy changes, flushes, crashes and restarts is still
      vouched for by it, unless it was not when recorded; and so is every file by
      the policy it carries. */
  lemma PolicySafety(parse: Parser, states: seq<State>, steps: seq<Step>, i: nat)
    requires IsRun(parse, states, steps) && i < |states|
    ensures PolicySafe(parse, states[i].entries, states[i].origins, states[i].policy)
    ensures states[i].file.Some? ==>
              PolicySafe(parse, states[i].file.value.entries, states[i].file.value.origins, states[i].file.value.policy)
  {
    RunInv(parse, states, steps, i);
  }

  lemma {:induction false} RunNowhereStray(parse: Parser, states: seq<State>, steps: seq<Step>, i: nat)
    requires IsRun(parse, states, steps) && i < |states|
    requires forall j {:trigger StrayAt(parse, states, steps, j)} | 0 <= j < i :: !StrayAt(parse, states, steps, j)
    ensures NowhereStray(states[i])
  {
    if i > 0 {
      RunNowhereStray(parse, states, steps, i - 1);
      assert StepAt(parse, states, steps, i - 1) && !StrayAt(parse, states, steps, i - 1);
      StepNowhereStray(parse, states[i - 1], steps[i - 1]);
    }
  }

  ghost predicate StrayAt(parse: Parser, states: seq<State>, steps: seq<Step>, j: nat)
    requires j < |steps| && |states| == |steps| + 1
  {
    Enabled(states[j], steps[j]) && IsStray(parse, states[j], steps[j])
  }

  ghost predicate VouchedAt(parse: Parser, states: seq<State>, i: nat)
    requires i < |states|
  {
    AllVouched(parse, states[i].entries, states[i].origins, states[i].policy)
  }

  /** Exactly when nothing else gets in: over a whole run every entry is
      authenticated under a policy the recorded one vouches for if and only if no
      insert records evidence of a validator whose policy it does not vouch for. */
  lemma PolicySafetyExactly(parse: Parser, states: seq<State>, steps: seq<Step>)
    requires IsRun(parse, states, steps)
    ensures (forall i {:trigger VouchedAt(parse, states, i)} | 0 <= i < |states| :: VouchedAt(parse, states, i)) <==>
            (forall j {:trigger StrayAt(parse, states, steps, j)} | 0 <= j < |steps| ::
                !StrayAt(parse, states, steps, j))
  {
    forall j | 0 <= j < |steps| && StrayAt(parse, states, steps, j) ensures !VouchedAt(parse, states, j + 1) {
      assert StepAt(parse, states, steps, j);
      StrayIsNotVouched(parse, states[j], steps[j]);
    }
    if forall j {:trigger StrayAt(parse, states, steps, j)} | 0 <= j < |steps| :: !StrayAt(parse, states, steps, j) {
      forall i | 0 <= i < |states| ensures VouchedAt(parse, states, i) {
        RunNowhereStray(parse, states, steps, i);
        PolicySafety(parse, states, steps, i);
      }
    }
  }

  /** While an entry stays, in a stretch of a run without restarts, its evidence
      only grows newer unless an insert is overtaken. */
  lemma {:induction false} NewestWins(parse: Parser, states: seq<State>, steps: seq<Step>, i: nat, j: nat, n: Name)
    requires IsRun(parse, states, steps) && i <= j < |states|
    requires forall k | i <= k <= j :: n in states[k].entries
    requires forall k {:trigger steps[k]} | i <= k < j ::
               !steps[k].Restart? && !steps[k].RestartUnreadable? && Enabled(states[k], steps[k])
                   && !IsOvertaken(states[k], steps[k], n)
    ensures states[i].entries[n].validatedAt <= states[j].entries[n].validatedAt
    decreases j
  {
    if i < j {
      NewestWins(parse, states, steps, i, j - 1, n);
      assert StepAt(parse, states, steps, j - 1);
      assert n in states[j].entries && n in states[j - 1].entries;
      OlderReplacesNewerExactly(parse, states[j - 1], steps[j - 1], n);
    }
  }

  lemma {:induction false} RunRanked(parse: Parser, states: seq<State>, steps: seq<Step>, i: nat)
    requires IsRun(parse, states, steps) && i < |states|
    ensures AllRanked(states[i])
  {
    if i > 0 {
      RunRanked(parse, states, steps, i - 1);
      assert StepAt(parse, states, steps, i - 1);
      StepRanked(parse, states[i - 1], steps[i - 1]);
    }
  }

  /** In every run an eviction removes an entry newer than one that was ranked
      behind it only if since the ranking the one was refreshed or the other fell
      back to older evidence. */
  lemma NewerIsEvictedOnlyIf(parse: Parser, states: seq<State>, steps: seq<Step>, i: nat, t: nat, n: Name, m: Name)
    requires IsRun(parse, states, steps) && i < |states| && Enabled(states[i], Evict(t, n))
    requires var w := states[i].writers[t]; m in w.ages && m !in w.ranked
    requires n in states[i].entries && m in states[i].entries
    ensures var st, w := states[i], states[i].writers[t];
            && n in w.ages
            && (st.entries[m].validatedAt < st.entries[n].validatedAt ==>
                  w.ages[n] < st.entries[n].validatedAt || st.entries[m].validatedAt < w.ages[m])
  {
    RunRanked(parse, states, steps, i);
    assert Ranked(states[i].writers[t]);
  }

  // ---- These failures are real ------------------------------------------

  ghost predicate Reachable(parse: Parser, st: State) {
    exists states, steps :: RunsTo(parse, states, steps, st)
  }

  ghost predicate RunsTo(parse: Parser, states: seq<State>, steps: seq<Step>, st: State) {
    IsRun(parse, states, steps) && |steps| > 0 && states[|steps|] == st
  }

  lemma ReachableNext(parse: Parser, st: State, step: Step)
    requires Reachable(parse, st) && Enabled(st, step)
    ensures Reachable(parse, Next(parse, st, step))
  {
    var states, steps :| RunsTo(parse, states, steps, st);
    var states', steps' := states + [Next(parse, st, step)], steps + [step];
    forall i | 0 <= i < |steps'| ensures StepAt(parse, states', steps', i) {
      assert i < |steps| ==> StepAt(parse, states, steps, i);
    }
    assert RunsTo(parse, states', steps', Next(parse, st, step));
  }

  /** A process that starts without a file. */
  function Blank(now: nat): State { State(now, map[], None, false, map[], map[], Idle, None, 0, false) }

  lemma BlankIsReachable(parse: Parser, now: nat)
    ensures Reachable(parse, Blank(now))
  {
    var st := Blank(now);
    assert Next(parse, st, Restart(map[])) == st;
    assert StepAt(parse, [st, st], [Restart(map[])], 0);
    assert RunsTo(parse, [st, st], [Restart(map[])], st);
  }

  /** A validator of policy `u` missed an entry, and the policy is now `p`. */
  function Late(now: nat, n: Name, e: Entry, u: PolicyRecord, p: Policy): State {
    Blank(now).(policy := Some(PolicyRecord(p, true)), dirty := true, writers := map[0 := Missed(n, e, Some(u))])
  }

  /** If the NTAs differ it goes on to record what the policy does not vouch for. */
  lemma LateValidatorIsStray(parse: Parser, now: nat, n: Name, e: Entry, u: PolicyRecord, p: Policy)
    requires u.state.ntas != p.ntas
    ensures var st := Late(now, n, e, u, p);
            Reachable(parse, st) && Enabled(st, AddMissed(0)) && IsStray(parse, st, AddMissed(0))
  {
    var missed := Blank(now).(writers := map[0 := Missed(n, e, Some(u))]);
    BlankIsReachable(parse, now);
    ReachableNext(parse, Blank(now), WriteEntry(0, n, e, Some(u)));
    assert Next(parse, Blank(now), WriteEntry(0, n, e, Some(u))) == missed;
    ReachableNext(parse, missed, ChangePolicy(p));
    assert Next(parse, missed, ChangePolicy(p)) == Late(now, n, e, u, p);
  }

  /** Two writers missed the same entry, and the newer evidence was added. */
  function Raced(now: nat, n: Name, older: Entry, newer: Entry): State {
    Blank(now).(entries := map[n := newer], origins := map[n := Origin(None, false, true)],
                writers := map[0 := Missed(n, older, None), 1 := MustMark])
  }

  /** The other one goes on to replace it. */
  lemma OlderComesLast(parse: Parser, now: nat, n: Name, older: Entry, newer: Entry)
    requires older.validatedAt < newer.validatedAt
    ensures var st := Raced(now, n, older, newer);
            Reachable(parse, st) && Enabled(st, AddMissed(0)) && IsOvertaken(st, AddMissed(0), n)
  {
    var one := Blank(now).(writers := map[0 := Missed(n, older, None)]);
    var both := Blank(now).(writers := map[0 := Missed(n, older, None), 1 := Missed(n, newer, None)]);
    BlankIsReachable(parse, now);
    ReachableNext(parse, Blank(now), WriteEntry(0, n, older, None));
    assert Next(parse, Blank(now), WriteEntry(0, n, older, None)) == one;
    ReachableNext(parse, one, WriteEntry(1, n, newer, None));
    assert Next(parse, one, WriteEntry(1, n, newer, None)) == both;
    ReachableNext(parse, both, AddMissed(1));
    assert Next(parse, both, AddMissed(1)) == Raced(now, n, older, newer);
  }

  /** Entries of an `n` and an `m`, recorded without a policy. */
  function Holding(now: nat, n: Name, m: Name, a: Entry, b: Entry, writers: map<nat, WriterPc>): State {
    Blank(now).(entries := map[n := a, m := b], dirty := true, writers := writers,
                origins := map[n := Origin(None, false, true), m := Origin(None, false, true)])
  }

  /** Writer 0 ranked `n` for eviction before `m`; then `n` was refreshed. */
  function Refreshed(now: nat, n: Name, m: Name, stale: Entry, kept: Entry, renewed: Entry): State {
    Holding(now, n, m, renewed, kept, RankedWriters(n, m, stale, kept)[2 := MustMark])
  }

  function RankedWriters(n: Name, m: Name, a: Entry, b: Entry): map<nat, WriterPc> {
    map[0 := Evicting(map[n := a.validatedAt, m := b.validatedAt], {n}, {n}, false), 1 := MustMark]
  }

  lemma OneEntry(parse: Parser, now: nat, n: Name, e: Entry)
    ensures Reachable(parse, Blank(now).(entries := map[n := e], origins := map[n := Origin(None, false, true)],
                                         dirty := true, writers := map[0 := Bounding]))
  {
    var missed := Blank(now).(writers := map[0 := Missed(n, e, None)]);
    var added := Blank(now).(entries := map[n := e], origins := map[n := Origin(None, false, true)],
                             writers := map[0 := MustMark]);
    BlankIsReachable(parse, now);
    ReachableNext(parse, Blank(now), WriteEntry(0, n, e, None));
    assert Next(parse, Blank(now), WriteEntry(0, n, e, None)) == missed;
    ReachableNext(parse, missed, AddMissed(0));
    assert Next(parse, missed, AddMissed(0)) == added;
    ReachableNext(parse, added, MarkDirty(0));
    assert Next(parse, added, MarkDirty(0)) == added.(dirty := true, writers := map[0 := Bounding]);
  }

  lemma TwoEntries(parse: Parser, now: nat, n: Name, m: Name, a: Entry, b: Entry)
    requires n != m
    ensures Reachable(parse, Holding(now, n, m, a, b, map[0 := Bounding, 1 := MustMark]))
  {
    var one := Blank(now).(entries := map[n := a], origins := map[n := Origin(None, false, true)],
                           dirty := true, writers := map[0 := Bounding]);
    var missed := one.(writers := map[0 := Bounding, 1 := Missed(m, b, None)]);
    OneEntry(parse, now, n, a);
    ReachableNext(parse, one, WriteEntry(1, m, b, None));
    assert Next(parse, one, WriteEntry(1, m, b, None)) == missed;
    ReachableNext(parse, missed, AddMissed(1));
    assert Next(parse, missed, AddMissed(1)) == Holding(now, n, m, a, b, map[0 := Bounding, 1 := MustMark]);
  }

  lemma RankEffect(parse: Parser, st: State, n: Name, m: Name, a: Entry, b: Entry)
    requires n != m && a.validatedAt <= b.validatedAt && st.entries == map[n := a, m := b]
    requires st.writers == map[0 := Bounding, 1 := MustMark]
    ensures Enabled(st, Rank(0, {n}))
    ensures NextInMemory(parse, st, Rank(0, {n})) == st.(writers := RankedWriters(n, m, a, b))
  {
    assert (map x | x in st.entries :: st.entries[x].validatedAt) == map[n := a.validatedAt, m := b.validatedAt];
  }

  lemma RanksOne(parse: Parser, now: nat, n: Name, m: Name, a: Entry, b: Entry)
    requires n != m && a.validatedAt <= b.validatedAt
    ensures Reachable(parse, Holding(now, n, m, a, b, RankedWriters(n, m, a, b)))
  {
    var st := Holding(now, n, m, a, b, map[0 := Bounding, 1 := MustMark]);
    TwoEntries(parse, now, n, m, a, b);
    RankEffect(parse, st, n, m, a, b);
    ReachableNext(parse, st, Rank(0, {n}));
  }

  /** It goes on to evict the refreshed entry, the newest of all. */
  lemma RefreshedIsEvicted(parse: Parser, now: nat, n: Name, m: Name, stale: Entry, kept: Entry, renewed: Entry)
    requires n != m && stale.validatedAt <= kept.validatedAt < renewed.validatedAt
    ensures var st := Refreshed(now, n, m, stale, kept, renewed);
            Reachable(parse, st) && Enabled(st, Evict(0, n)) && st.entries[m].validatedAt < st.entries[n].validatedAt
  {
    var st := Holding(now, n, m, stale, kept, RankedWriters(n, m, stale, kept));
    RanksOne(parse, now, n, m, stale, kept);
    var step := WriteEntry(2, n, renewed, None);
    ReachableNext(parse, st, step);
    var st' := Refreshed(now, n, m, stale, kept, renewed);
    assert Next(parse, st, step) == Record(parse, st, 2, n, renewed, None);
    assert st.entries[n := renewed] == st'.entries;
    assert st.origins[n := Origin(None, false, true)] == st'.origins;
  }

  /** A restart would read back exactly the live entries and the policy. */
  ghost predicate InStep(st: State) {
    FileLoads(st.file, st.now) == Live(st.entries, st.now) && FilePolicy(st.file) == st.policy
  }

  /** Nothing is lost: in every interleaving, with the dirty flag clear, no
      writer between its change and its mark and no flush between snapshot and
      completion, file and memory are in step; the only exception is a start that
      could not read a file with something in it. */
  lemma NothingLost(parse: Parser, states: seq<State>, steps: seq<Step>, i: nat)
    requires IsRun(parse, states, steps) && 0 < i < |states|
    requires !states[i].dirty && !Owing(states[i]) && states[i].flush.Idle?
    ensures var st := states[i];
            InStep(st) <==> !st.blind || (FileLoads(st.file, st.now) == map[] && FilePolicy(st.file) == None)
  {
    RunInv(parse, states, steps, i);
    var st := states[i];
    if st.blind {
      assert Live(st.entries, st.now) == map[];
    } else {
      AgreeMeansEqual(FileLoads(st.file, st.now), st.entries, st.now);
    }
  }

  lemma AgreeMeansEqual(a: Entries, b: Entries, now: nat)
    requires Agree(a, b, now) && forall n | n in a :: a[n].expiresAt >= now
    ensures a == Live(b, now)
  {
    forall n ensures n in a <==> n in Live(b, now)
      ensures n in a ==> a[n] == Live(b, now)[n]
    {
      assert Lookup(a, n, now) == Lookup(b, n, now);
    }
  }

  /** The one exception is real: a start that could not read its file is out of
      step with it although nothing is pending. */
  lemma UnreadableStartIsOutOfStep(parse: Parser, n: Name, e: Entry)
    ensures var f := File(FORMAT_VERSION, map[n := e], None, map[n := Origin(None, false, true)], 0);
            var st := State(e.expiresAt, map[], None, false, map[], map[], Idle, Some(f), 1, false);
            && IsRun(parse, [st, Next(parse, st, RestartUnreadable)], [RestartUnreadable])
            && var st' := Next(parse, st, RestartUnreadable);
               !st'.dirty && !Owing(st') && st'.flush.Idle?
                   && FileLoads(st'.file, st'.now) != Live(st'.entries, st'.now)
  {
    var f := File(FORMAT_VERSION, map[n := e], None, map[n := Origin(None, false, true)], 0);
    var st := State(e.expiresAt, map[], None, false, map[], map[], Idle, Some(f), 1, false);
    var st' := Next(parse, st, RestartUnreadable);
    assert n in FileLoads(st'.file, st'.now);
    assert n !in Live(st'.entries, st'.now);
  }

  /** Files replace each other in snapshot order: a later file is the same file
      or one of a later snapshot. */
  lemma {:induction false} FilesInOrder(parse: Parser, states: seq<State>, steps: seq<Step>, i: nat, j: nat)
    requires IsRun(parse, states, steps) && i <= j < |states| && states[i].file.Some?
    ensures states[j].file.Some?
    ensures states[j].file == states[i].file || states[i].file.value.stamp < states[j].file.value.stamp
    decreases j
  {
    if i < j {
      FilesInOrder(parse, states, steps, i, j - 1);
      NextFile(parse, states, steps, j);
    }
  }

  lemma NextFile(parse: Parser, states: seq<State>, steps: seq<Step>, j: nat)
    requires IsRun(parse, states, steps) && 0 < j < |states|
    ensures FileAdvances(states[j - 1].file, states[j].file)
  {
    RunInv(parse, states, steps, j - 1);
    assert StepAt(parse, states, steps, j - 1);
    StepStamps(parse, states[j - 1], steps[j - 1]);
  }

  /** Unsafe legacy evidence never comes back: a shallow `Signed` entry in memory
      at any point of any run was recorded during that run. */
  lemma LegacyNeverReturns(parse: Parser, states: seq<State>, steps: seq<Step>, i: nat, n: Name)
    requires IsRun(parse, states, steps) && i < |states|
    requires n in states[i].entries && ShallowSigned(n, states[i].entries[n])
    ensures n in states[i].origins && states[i].origins[n].inRun
  {
    RunInv(parse, states, steps, i);
  }
}
