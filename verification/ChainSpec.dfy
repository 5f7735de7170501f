/** The chain cache's values and the effect of each operation on them. */
module ChainSpec {
  import opened Names
  import opened Text

  datatype Status = SignedZone | UnsignedZone

  /** An authenticated status with its UNIX expiry and recording times. */
  datatype Entry = Entry(status: Status, expiresAt: nat, validatedAt: nat)

  type Entries = map<Name, Entry>

  /** Trust-anchor policy; the sorted, deduplicated name lists as sets. */
  datatype Policy = Policy(fingerprint: string, anchors: set<string>, ntas: set<string>)

  datatype PolicyRecord = PolicyRecord(state: Policy, metadataKnown: bool)

  datatype Change = Unchanged | FullClear | AddedAnchors(added: set<Name>)

  /** The library's reading of a textual name. */
  type Parser = string -> Option<Name>

  const FORMAT_VERSION: nat := 2

  // ---- Policy names -----------------------------------------------------

  /** Trimmed, lowercased, with a final dot unless empty. */
  function Canon(s: string): string {
    var t := Lower(TrimRight(TrimLeft(s)));
    if t == [] || t[|t| - 1] == '.' then t else t + "."
  }

  function Normalize(values: set<string>): set<string> {
    set v | v in values && Canon(v) != [] :: Canon(v)
  }

  /** A canonical name is its own canonical form, so lists that were normalized
      before they were persisted come back unchanged. */
  lemma CanonIdempotent(s: string)
    ensures Canon(Canon(s)) == Canon(s)
  {
    TrimLeftTight(s);
    TrimRightTight(TrimLeft(s));
    var c := Canon(s);
    assert Tight(c);
    assert Lower(c) == c;
  }

  /** The canonical form of a name between white space, spelled in any case: the
      name in small letters with exactly the final dots it has, at least one. */
  lemma CanonIs(s: string, t: string, l: string)
    requires Surrounds(s, t) && Spells(t, l)
    ensures Canon(s) == if l == "" || l[|l| - 1] == '.' then l else l + "."
  {
    TrimIs(s, t);
    LowerSpells(t, l);
  }

  lemma NormalizeIdempotent(values: set<string>)
    ensures Normalize(Normalize(values)) == Normalize(values)
  {
    forall v ensures Canon(Canon(v)) == Canon(v) { CanonIdempotent(v); }
    forall c | c in Normalize(values) ensures c in Normalize(Normalize(values)) {
      var v :| v in values && Canon(v) == c;
      assert Canon(c) == c;
    }
  }

  // ---- Entries ----------------------------------------------------------

  function Live(entries: Entries, now: nat): Entries {
    map n | n in entries && entries[n].expiresAt >= now :: entries[n]
  }

  /** What enforcing the bound leaves: everything if it fits, else the live entries
      if those fit, else as many of the newest live entries as do. */
  ghost predicate IsBounded(before: Entries, after: Entries, max: nat, now: nat) {
    var live := Live(before, now);
    if |before| <= max then after == before
    else if |live| <= max then after == live
    else
      && |after| == max && (forall n | n in after :: n in live && after[n] == live[n])
      && (forall n, m | n in live && n !in after && m in after :: live[n].validatedAt <= after[m].validatedAt)
  }

  /** Evidence as old as what is there or newer goes in, then the bound applies;
      older evidence changes nothing. */
  ghost predicate IsInserted(before: Entries, after: Entries, n: Name, e: Entry, max: nat) {
    if n in before && e.validatedAt < before[n].validatedAt then after == before
    else IsBounded(before[n := e], after, max, e.validatedAt)
  }

  /** The cached zone is unsigned and at or above an anchor. */
  predicate Contradicted(entries: Entries, n: Name, anchors: set<Name>)
    requires n in entries
  {
    entries[n].status.UnsignedZone? && exists a | a in anchors :: ZoneOf(n, a)
  }

  function WithoutContradicted(entries: Entries, anchors: set<Name>): Entries {
    map n | n in entries && !Contradicted(entries, n, anchors) :: entries[n]
  }

  // ---- Policy changes ---------------------------------------------------

  /** The added anchors that read as names. */
  function Added(parse: Parser, previous: set<string>, anchors: set<string>): set<Name> {
    set a | a in anchors - previous && parse(a).Some? :: parse(a).value
  }

  /** What a policy change does to the cache (names already normalized). */
  function PolicyChange(parse: Parser, policy: Option<PolicyRecord>, next: Policy): Change {
    match policy
    case None => FullClear
    case Some(previous) =>
      if previous.state.fingerprint == next.fingerprint then Unchanged
      else if !previous.metadataKnown || previous.state.ntas != next.ntas then FullClear
      else
        var added := Added(parse, previous.state.anchors, next.anchors);
        if !(previous.state.anchors <= next.anchors) || added == {} then FullClear else AddedAnchors(added)
  }

  function EntriesAfter(entries: Entries, change: Change): Entries {
    match change
    case Unchanged => entries
    case FullClear => map[]
    case AddedAnchors(added) => WithoutContradicted(entries, added)
  }

  function PolicyAfter(policy: Option<PolicyRecord>, next: Policy, change: Change): Option<PolicyRecord> {
    if change.Unchanged? then policy else Some(PolicyRecord(next, true))
  }

  /** What survives a change of policy, exactly: everything under the same
      fingerprint; else, if the lists are known, the NTAs the same, no anchor lost
      and a readable one added, all but unsigned zones at or above an added one;
      else nothing. */
  lemma SurvivesExactly(parse: Parser, entries: Entries, policy: Option<PolicyRecord>, next: Policy, n: Name)
    ensures var after := EntriesAfter(entries, PolicyChange(parse, policy, next));
            n in after ==> n in entries && after[n] == entries[n]
    ensures n in EntriesAfter(entries, PolicyChange(parse, policy, next)) <==>
              n in entries && policy.Some? &&
              var previous := policy.value;
              || previous.state.fingerprint == next.fingerprint
              || (&& previous.metadataKnown && previous.state.ntas == next.ntas
                  && previous.state.anchors <= next.anchors
                  && (exists a | a in next.anchors - previous.state.anchors :: parse(a).Some?)
                  && !(entries[n].status.UnsignedZone?
                       && exists a | a in next.anchors - previous.state.anchors ::
                            parse(a).Some? && ZoneOf(n, parse(a).value)))
  {
    if policy.Some? {
      var added := Added(parse, policy.value.state.anchors, next.anchors);
      forall a | a in next.anchors - policy.value.state.anchors && parse(a).Some? ensures parse(a).value in added {
      }
    }
  }

  /** And the policy adopted is the one asked for, so asking again changes nothing. */
  lemma AdoptsExactly(parse: Parser, policy: Option<PolicyRecord>, next: Policy)
    ensures var after := PolicyAfter(policy, next, PolicyChange(parse, policy, next));
            && after == (if policy.Some? && policy.value.state.fingerprint == next.fingerprint then policy
                         else Some(PolicyRecord(next, true)))
            && PolicyChange(parse, after, next) == Unchanged
  {
  }

  // ---- Lookup -----------------------------------------------------------

  /** `k` is the longest live ancestor-or-self key of `name`. */
  ghost predicate IsDeepest(entries: Entries, name: Name, now: nat, k: Name) {
    && k in Live(entries, now) && ZoneOf(k, name)
    && forall n | n in Live(entries, now) && ZoneOf(n, name) :: |n| <= |k|
  }

  // ---- The file ---------------------------------------------------------

  /** One persisted entry; `name` is `None` when the text is no name. */
  datatype PersistedEntry = PersistedEntry(name: Option<Name>, entry: Entry)

  /** The file: absent lists mark a format that did not record them. */
  datatype Persisted = Persisted(
    formatVersion: nat, entries: seq<PersistedEntry>,
    policy: Option<string>, anchors: Option<set<string>>, ntas: Option<set<string>>)

  /** Root and top-level `Signed` evidence, which legacy files cannot be trusted
      for. */
  predicate ShallowSigned(n: Name, e: Entry) { e.status.SignedZone? && NumLabels(n) <= 1 }

  predicate Loadable(version: nat, n: Name, e: Entry, now: nat) {
    e.expiresAt >= now && !(version < FORMAT_VERSION && ShallowSigned(n, e))
  }

  /** The load loop: later records replace older or equally old ones. */
  function LoadEntries(entries: Entries, version: nat, file: seq<PersistedEntry>, now: nat): Entries {
    if file == [] then entries
    else
      var before := LoadEntries(entries, version, file[..|file| - 1], now);
      var last := file[|file| - 1];
      if last.name.Some? && Loadable(version, last.name.value, last.entry, now)
         && (last.name.value in before ==> last.entry.validatedAt >= before[last.name.value].validatedAt)
      then before[last.name.value := last.entry]
      else before
  }

  /** Whether the load drops a live legacy entry. */
  predicate Migrates(version: nat, file: seq<PersistedEntry>, now: nat) {
    version < FORMAT_VERSION
    && exists p | p in file :: p.name.Some? && p.entry.expiresAt >= now && ShallowSigned(p.name.value, p.entry)
  }

  function LoadPolicy(policy: Option<PolicyRecord>, file: Persisted): Option<PolicyRecord> {
    match file.policy
    case None => policy
    case Some(fp) =>
      var anchors := if file.anchors.Some? then file.anchors.value else {};
      var ntas := if file.ntas.Some? then file.ntas.value else {};
      Some(PolicyRecord(Policy(fp, Normalize(anchors), Normalize(ntas)), file.anchors.Some? && file.ntas.Some?))
  }

  /** `file` lists exactly the entries of `entries`, in some order. */
  ghost predicate Lists(file: seq<PersistedEntry>, entries: Entries) {
    && (forall i | 0 <= i < |file| ::
          file[i].name.Some? && file[i].name.value in entries && file[i].entry == entries[file[i].name.value])
    && (forall i, j | 0 <= i < j < |file| :: file[i].name != file[j].name)
    && (forall n | n in entries :: PersistedEntry(Some(n), entries[n]) in file)
  }

  /** The file a flush writes. */
  function Persist(file: seq<PersistedEntry>, policy: Option<PolicyRecord>): Persisted {
    match policy
    case None => Persisted(FORMAT_VERSION, file, None, None, None)
    case Some(p) =>
      Persisted(FORMAT_VERSION, file, Some(p.state.fingerprint),
                if p.metadataKnown then Some(p.state.anchors) else None,
                if p.metadataKnown then Some(p.state.ntas) else None)
  }

  /** Recorded policy lists are normalized. */
  ghost predicate Canonical(policy: Option<PolicyRecord>) {
    policy.Some? && policy.value.metadataKnown ==>
      && Normalize(policy.value.state.anchors) == policy.value.state.anchors
      && Normalize(policy.value.state.ntas) == policy.value.state.ntas
  }

  /** Equal but for lists that the record itself calls unknown. */
  predicate SamePolicy(a: Option<PolicyRecord>, b: Option<PolicyRecord>) {
    match (a, b)
    case (None, None) => true
    case (Some(x), Some(y)) =>
      && x.metadataKnown == y.metadataKnown && x.state.fingerprint == y.state.fingerprint
      && (x.metadataKnown ==> x.state == y.state)
    case _ => false
  }

  /** No later policy change can tell such records apart. */
  lemma SamePolicySameChange(parse: Parser, a: Option<PolicyRecord>, b: Option<PolicyRecord>, next: Policy)
    requires SamePolicy(a, b)
    ensures PolicyChange(parse, a, next) == PolicyChange(parse, b, next)
    ensures SamePolicy(PolicyAfter(a, next, PolicyChange(parse, a, next)),
        PolicyAfter(b, next, PolicyChange(parse, b, next)))
  {
  }

  /** Loading what was listed yields exactly the loadable part. */
  lemma {:induction false} LoadListed(entries: Entries, version: nat, file: seq<PersistedEntry>, now: nat, k: nat)
    requires Lists(file, entries) && k <= |file|
    ensures LoadEntries(map[], version, file[..k], now).Keys
            == set i | 0 <= i < k && Loadable(version, file[i].name.value, file[i].entry, now) :: file[i].name.value
    ensures forall n | n in LoadEntries(map[], version, file[..k], now) ::
              n in entries && LoadEntries(map[], version, file[..k], now)[n] == entries[n]
  {
    if k > 0 {
      LoadListed(entries, version, file, now, k - 1);
      assert file[..k][..k - 1] == file[..k - 1];
      assert file[k - 1].name.value !in LoadEntries(map[], version, file[..k - 1], now);
    }
  }

  /** The entries a file with these contents loads as. */
  function FileView(version: nat, entries: Entries, now: nat): Entries {
    map n | n in entries && Loadable(version, n, entries[n], now) :: entries[n]
  }

  lemma LoadIsView(entries: Entries, version: nat, file: seq<PersistedEntry>, now: nat)
    requires Lists(file, entries)
    ensures LoadEntries(map[], version, file, now) == FileView(version, entries, now)
  {
    LoadListed(entries, version, file, now, |file|);
    assert file[..|file|] == file;
    var loaded := LoadEntries(map[], version, file, now);
    forall n | n in FileView(version, entries, now) ensures n in loaded {
      assert PersistedEntry(Some(n), entries[n]) in file;
      var i :| 0 <= i < |file| && file[i] == PersistedEntry(Some(n), entries[n]);
    }
    forall n | n in loaded ensures n in FileView(version, entries, now) {
      var i :| 0 <= i < |file| && Loadable(version, file[i].name.value, file[i].entry, now) && file[i].name.value == n;
    }
    assert loaded.Keys == FileView(version, entries, now).Keys;
  }

  /** Persist/restart round trip: whatever the order of the listing and the time
      of the restart, the same live entries and the same policy come back. */
  lemma RoundTrip(entries: Entries, policy: Option<PolicyRecord>, file: seq<PersistedEntry>, flushed: nat, now: nat)
    requires Canonical(policy) && flushed <= now && Lists(file, Live(entries, flushed))
    ensures var p := Persist(file, policy);
            && LoadEntries(map[], p.formatVersion, p.entries, now) == Live(entries, now)
            && SamePolicy(LoadPolicy(None, p), policy)
            && !Migrates(p.formatVersion, p.entries, now)
  {
    LoadIsView(Live(entries, flushed), FORMAT_VERSION, file, now);
    assert FileView(FORMAT_VERSION, Live(entries, flushed), now) == Live(entries, now);
  }

  /** A persisted record that can be trusted: a name, not expired, and in a file of
      the first format neither the root nor a top-level name as `Signed`. */
  predicate IsTrusted(version: nat, p: PersistedEntry, now: nat) {
    && p.name.Some? && p.entry.expiresAt >= now
    && (version >= 2 || p.entry.status.UnsignedZone? || NumLabels(p.name.value) >= 2)
  }

  /** What a file loads as, exactly, whatever it holds: the names of its trusted
      records, each with the newest of its evidence. */
  lemma {:induction false} LoadsExactly(version: nat, file: seq<PersistedEntry>, now: nat)
    ensures var loaded := LoadEntries(map[], version, file, now);
            && (forall n :: n in loaded <==> exists p | p in file :: IsTrusted(version, p, now) && p.name == Some(n))
            && (forall n | n in loaded :: exists p | p in file ::
                  IsTrusted(version, p, now) && p.name == Some(n) && p.entry == loaded[n])
            && (forall p | p in file && IsTrusted(version, p, now) ::
                  p.name.value in loaded && p.entry.validatedAt <= loaded[p.name.value].validatedAt)
    ensures Migrates(version, file, now) <==>
              exists p | p in file :: p.name.Some? && p.entry.expiresAt >= now && !IsTrusted(version, p, now)
  {
    if file != [] {
      var init, last := file[..|file| - 1], file[|file| - 1];
      LoadsExactly(version, init, now);
      assert file == init + [last];
      assert last.name.Some? && Loadable(version, last.name.value, last.entry, now) <==> IsTrusted(version, last, now);
    }
  }

  /** `i` is the last of the newest trusted records of its name. */
  ghost predicate IsLastNewest(version: nat, file: seq<PersistedEntry>, now: nat, i: nat) {
    && i < |file| && IsTrusted(version, file[i], now)
    && forall j | i < j < |file| && IsTrusted(version, file[j], now) && file[j].name == file[i].name ::
         file[j].entry.validatedAt < file[i].entry.validatedAt
  }

  /** Among equally new records of a name the last one counts. */
  lemma {:induction false} LoadsLatest(version: nat, file: seq<PersistedEntry>, now: nat, n: Name) returns (i: nat)
    requires n in LoadEntries(map[], version, file, now)
    ensures IsLastNewest(version, file, now, i)
    ensures file[i].name == Some(n) && file[i].entry == LoadEntries(map[], version, file, now)[n]
    decreases |file|
  {
    var init, last := file[..|file| - 1], file[|file| - 1];
    var before := LoadEntries(map[], version, init, now);
    if last.name == Some(n) && IsTrusted(version, last, now)
       && (n in before ==> last.entry.validatedAt >= before[n].validatedAt)
    {
      i := |file| - 1;
    } else {
      i := LoadsLatest(version, init, now, n);
      assert forall j | 0 <= j < |init| :: file[j] == init[j];
    }
  }

  /** A load never replaces evidence by older evidence. */
  lemma {:induction false} LoadKeepsNewest(entries: Entries, version: nat, file: seq<PersistedEntry>, now: nat)
    ensures var loaded := LoadEntries(entries, version, file, now);
            forall n | n in entries :: n in loaded && entries[n].validatedAt <= loaded[n].validatedAt
  {
    if file != [] { LoadKeepsNewest(entries, version, file[..|file| - 1], now); }
  }

  /** A legacy file never yields a shallow `Signed` entry, whatever it holds. */
  lemma {:induction false} LegacyLoadIsDeep(version: nat, file: seq<PersistedEntry>, now: nat)
    requires version < FORMAT_VERSION
    ensures forall n | n in LoadEntries(map[], version, file, now) ::
              !ShallowSigned(n, LoadEntries(map[], version, file, now)[n])
  {
    if file != [] { LegacyLoadIsDeep(version, file[..|file| - 1], now); }
  }
}
