# Verified model of the Sito DNS resolver core

Sito is a filtering DNS server. This project models, in Dafny, the parts of it
whose correctness is hardest to see from the code, and proves what they are for:

* **Denial of existence** (`Orders`, `Names`, `Zones`, `Nsec`, `NsecProofs`,
  `NsecExactness`, `NsecCompleteness`, `NsecNodata`, `NsecStability`, `Nsec3`,
  `Nsec3Proofs`, `Nsec3Completeness`, `Nsec3OptOut`, `Nsec3Witnesses`). The NSEC and NSEC3 evaluators are connected to
  an independent zone lookup, that of section 4.3.2 of RFC 1034 with the wildcard
  rules of RFC 4592 and the redirection of RFC 6672: when is a `Secure` verdict
  right, and when does a whole chain yield one?
* **The DNSSEC chain cache** (`ChainSpec`, `ChainCache`, `ChainRuns`,
  `ChainRefinement`): each operation on the object, the persist/restart round trip, and safety over every
  interleaving of inserts, policy changes, flushes, crashes and restarts.
* **The response cache** (`Messages`, `ResponseCache`, `ResponseContract`,
  `ResponseProofs`, `DnsCache`, `SingleFlight`): what is stored and for how long, what is served at
  which age, resizing, and the single-flight lock protocol.
* **Configuration apply** (`ConfigSpec`, `ConfigApply`): apply, rollback,
  persistence and file-watcher events as transactions, under faults and traffic.
* **Clients and parental lists** (`Clients`, `Parental`, `Domains`, `Text`):
  longest-prefix client matching over an index, how domains are written in category
  lists, and suffix matching of queries against them.

Conventions. A name is its lowercased labels from the root, so ancestors are
prefixes. Clocks, hash functions, text parsers, iteration orders, faults and
concurrent traffic are parameters, and every result is for all of them. A record
set handed to an evaluator is `Genuine` when each record is a link of the zone's
chain, which is what a validated signature establishes. A zone is `Proper` when it
owns nothing strictly below a delegation or DNAME, and `Legal` when its owners are
legal names.

## What is not as promised

Where the code falls short of the property one would expect, the model keeps the
code and proves the exact limit.

* NSEC verdicts are sound for exactly the `Safe` names: no label below the first
  one under the apex sorts before `*`, and no single `*` label is followed by
  another label (`NsecSoundExactly`, `NodataSoundExactly`). The search takes the
  deepest owner ancestor by label count, and that count ignores a leading `*`.
  NXDOMAIN verdicts alone are sound for exactly the `SafeNxdomain` names, which
  are a few more (`NxdomainSoundExactly`).
* Below a zone cut they are wrong, because a covering record that is the cut's own
  is not rejected (`DelegationProvesTooMuch`). The records tell exactly: a Secure
  verdict is right if and only if no supplied record both covers the name and is a
  delegation or DNAME above it (`NsecSound`), the check of section 4.1 of RFC 6840.
* A whole NSEC chain proves NXDOMAIN for a name without inner `*` label exactly
  when the closest encloser is not the root, where no wildcard can be built
  (`NsecComplete`); with an inner `*` it may fail anywhere
  (`NsecCompleteExactly`). For NSEC3 the root is the only exception
  (`Nsec3Complete`).
* NODATA is proved exactly when it is the zone's answer at every node
  (`NodeNodataExactly`), and where a wildcard answers for exactly the names without
  a lone `*` label (`NodataCompleteExactly`). At an empty non-terminal it is the
  answer for every type, but a whole NSEC chain proves it, for a name without inner
  `*`, exactly if a wildcard beside the name lacks the type
  (`NonTerminalNodataExactly`).
* A Secure NSEC verdict can be lost when further genuine records are supplied
  (`NodataIsLost`); when it lasts is stated exactly (`SecureLastsExactly`).
* NSEC3 verdicts ignore the types of the closest encloser's record, contrary to
  section 8.3 of RFC 5155, so they are wrong below a cut (`CutGivesSecure`), and
  exactly there (`Nsec3Sound`).
* NSEC3 wildcard NODATA is `Secure` even over an opt-out cover
  (`OpenGivesSecure`), and NXDOMAIN even if the wildcard is covered with opt-out
  only (`WildGivesSecure`). A Secure verdict can be trusted in every zone its
  records fit exactly when the encloser's record shows no cut and the verdict is
  `Firm` or a denial of DS that nothing hidden can break (`Nsec3SoundExactly`).
* Entry ages in the response cache are taken modulo 2^32 seconds: what a Secure
  entry rests on is alive at a fresh hit exactly before that
  (`SecureLifetimeExactly`).
* A chain cache that is clean and idle can be out of step with its file, exactly
  when it could not read it at startup and there was something in it
  (`NothingLost`).
* A validator that is still running when the policy changes records evidence of
  the old policy afterwards, since an insert checks no policy. Everything is
  vouched for exactly in the runs without such a write (`PolicySafetyExactly`).
* An insert that found no entry overwrites a newer one added meanwhile, and within
  a process this is the only way older evidence replaces newer
  (`OlderReplacesNewerExactly`).
* Eviction removes by name what it ranked by age, so an entry refreshed in between
  goes although it is the newest (`RefreshedIsEvicted`, `NewerIsEvictedOnlyIf`).
* An expired entry dropped on resize could still have been served exactly if its age
  had wrapped around (`ExpiredIsServableExactly`).
* A validation begun before a change of DNSSEC policy can be cached after the
  flush. No old answer can survive exactly when none is under way at the flush
  (`NoAnswerSurvivesExactly`). A rollback flushes before it restores the validator,
  so there the validator must not have changed either
  (`SurvivorsAfterRollbackExactly`).
* A persisted document is checked to parse, not to parse to what is running
  (`PersistedApartExactly`); a watcher event that cannot read the file applies
  its own, possibly old, document (`UnreadFileRegresses`).

## Model

| member | source | states |
|---|---|---|
| Names.NamesOrdered | crates/sito-dnssec/src/nsec.rs:34-47 | canonical name order is a strict total order |
| Names.SubtreeConvex | crates/sito-dnssec/src/nsec.rs:34-47 | the names below one ancestor are an interval of that order |
| Cyclic.ArcExists | crates/sito-dnssec/src/nsec.rs:34-47 | every non-member of a finite non-empty set lies inside an arc of its cyclic order; the generic basis of both chains |
| Nsec.CollectRelevant | crates/sito-dnssec/src/nsec.rs:91-94 | the loop keeps, in order, the records owned inside the signer zone |
| Nsec.ClimbSpec | crates/sito-dnssec/src/nsec.rs:96-115 | climbing from an owner finds its deepest non-root ancestor that is a proper ancestor of the query name, or shows there is none |
| Nsec.ClosestSpec | crates/sito-dnssec/src/nsec.rs:96-115 | the encloser is the apex or climbed from a record, and no record climbs to a name with more labels |
| Nsec.FindClosest | crates/sito-dnssec/src/nsec.rs:96-115 | the nested loops compute that encloser |
| Nsec.EvaluateNsecDenial | crates/sito-dnssec/src/nsec.rs:81-158 | the imperative evaluation agrees with the verdict function on every input |
| Nsec.ForeignIgnored | crates/sito-dnssec/src/nsec.rs:91-94 | a record owned outside the signer zone never influences a verdict, wherever it stands |
| Nsec.NeverDenied | crates/sito-dnssec/src/nsec.rs:88-90 | whatever the records, nothing is proved about a name outside the signer zone, nor NXDOMAIN about the owner of a record |
| Zones.DeniesIsNoData | crates/sito-dnssec/src/nsec.rs:56-66 | a bitmap denies a type exactly when a node with these types answers NODATA for it, DS at a delegation included |
| NsecProofs.CoveredIsNoNode | crates/sito-dnssec/src/nsec.rs:34-47 | a genuine record never covers a node of its zone |
| Cyclic.ArcUnique | crates/sito-dnssec/src/nsec.rs:34-47 | and inside no other arc |
| NsecProofs.NonNodeIsCovered | crates/sito-dnssec/src/nsec.rs:34-47 | the whole chain covers every name that is no node |
| NsecProofs.EncloserFound | crates/sito-dnssec/src/nsec.rs:96-115 | for a safe, covered name that a wildcard would answer, the label-count search over genuine records finds the true closest encloser, so the wildcard test is of the right wildcard |
| NsecProofs.CoverShowsCut | crates/sito-dnssec/src/nsec.rs:34-47 | a name covered by a genuine record is below a cut exactly if that record is the cut's own |
| NsecProofs.NsecSound | crates/sito-dnssec/src/nsec.rs:81-158 | over any genuine records of any proper zone, of legal names for NXDOMAIN, a Secure verdict for a name safe for its kind is right if and only if no supplied record covers the name from a delegation or DNAME above it |
| NsecProofs.ExactNodataSound | crates/sito-dnssec/src/nsec.rs:136-142 | a record at the name itself denying the type makes NODATA the zone's answer, for every name |
| NsecProofs.CoverShowsNonTerminal | crates/sito-dnssec/src/nsec.rs:34-47 | a covered name exists, as an empty non-terminal, exactly if the covering record's next name is below it |
| NsecProofs.DenialKind | crates/sito-dnssec/src/nsec.rs:117-157 | a right denial of a covered name is NODATA exactly when that record shows an empty non-terminal or the answering wildcard exists |
| NsecExactness.DelegationProvesTooMuch | crates/sito-dnssec/src/nsec.rs:117-134 | for every name below a delegation the delegation's own link gives a Secure NXDOMAIN while the zone answers with a referral |
| NsecExactness.EarlyLabelIsUnsound | crates/sito-dnssec/src/nsec.rs:99-157 | every legal name with a deep label sorting before `*` has a legal zone and genuine records giving a Secure NODATA for a name the zone answers |
| NsecExactness.EarlyLabelSpoilsNxdomain | crates/sito-dnssec/src/nsec.rs:99-134 | below an encloser the search can settle on, whose next label is not the last legal one before `*`, so does NXDOMAIN, in legal zones too |
| NsecExactness.InnerStarIsUnsound | crates/sito-dnssec/src/nsec.rs:99-157 | so has every name with a lone inner `*`, by a tie in label count, for NODATA |
| NsecExactness.InnerStarSpoilsNxdomain | crates/sito-dnssec/src/nsec.rs:99-134 | and for NXDOMAIN unless the `*` is a top-level label |
| NsecExactness.NodataSoundExactly | crates/sito-dnssec/src/nsec.rs:136-157 | for every apex and legal name, NODATA verdicts over records that show no cut are right in all legal zones exactly for the safe names |
| NsecExactness.NxdomainSoundExactly | crates/sito-dnssec/src/nsec.rs:117-134 | the same for NXDOMAIN verdicts and the names safe for them |
| NsecExactness.NsecSoundExactly | crates/sito-dnssec/src/nsec.rs:81-158 | the same for all verdicts together and the safe names |
| NsecCompleteness.WholeChainVerdict | crates/sito-dnssec/src/nsec.rs:117-134 | over a whole chain that lacks the name, NXDOMAIN is Secure exactly when the computed encloser is not the root and its wildcard is no node |
| NsecCompleteness.NsecComplete | crates/sito-dnssec/src/nsec.rs:117-134 | for every zone and name without inner `*` that neither exists nor has a wildcard, the whole chain yields Secure NXDOMAIN exactly when the closest encloser is not the root |
| NsecCompleteness.InnerStarIsIncomplete | crates/sito-dnssec/src/nsec.rs:99-134 | every inner `*` has a zone whose whole chain is judged Incomplete although the closest encloser is not the root |
| NsecCompleteness.NsecCompleteExactly | crates/sito-dnssec/src/nsec.rs:117-134 | that completeness holds in all zones at an apex exactly for the names without inner `*` |
| NsecNodata.NodeNodataExactly | crates/sito-dnssec/src/nsec.rs:136-142 | at every node of a proper zone, over any genuine records with the node's own, NODATA is Secure exactly when the zone answers NODATA |
| NsecNodata.UnsignedDelegationIsProved | crates/sito-dnssec/src/nsec.rs:49-66 | the link of a delegation without DS proves the absence of DS, and of no other type |
| NsecNodata.WholeChainNodata | crates/sito-dnssec/src/nsec.rs:144-157 | over a whole chain NODATA for a name that is no node is Secure exactly when the wildcard of the computed encloser is a node and answers NODATA |
| NsecNodata.WildcardNodataExactly | crates/sito-dnssec/src/nsec.rs:144-157 | where a wildcard answers a name without lone `*`, the whole chain proves NODATA exactly when that is the zone's answer |
| NsecNodata.LoneStarIsIncomplete | crates/sito-dnssec/src/nsec.rs:99-157 | below every lone `*` there is a zone whose whole chain misses the NODATA its wildcard answers |
| NsecNodata.NodataCompleteExactly | crates/sito-dnssec/src/nsec.rs:99-157 | wildcard NODATA is complete in all proper zones at an apex exactly for the names without a lone `*` |
| NsecNodata.NonTerminalNodataExactly | crates/sito-dnssec/src/nsec.rs:144-157 | at an empty non-terminal the zone answers NODATA, and the whole chain proves it exactly when the sibling wildcard is a node lacking the type |
| NsecStability.SecureLastsExactly | crates/sito-dnssec/src/nsec.rs:96-157 | a Secure verdict on a covered name survives all further genuine records in any order exactly when every rival encloser a link of the zone shows is dealt with already or by that link |
| NsecStability.NodataIsLost | crates/sito-dnssec/src/nsec.rs:96-157 | on a safe name one link gives a Secure NODATA and one more takes it away |
| NsecStability.ExactNodataLasts | crates/sito-dnssec/src/nsec.rs:136-142 | a denial at the name itself is never lost |
| Nsec3.WalkSpec | crates/sito-dnssec/src/nsec3.rs:134-151 | the walk returns the longest matched ancestor-or-self, and nothing exactly when none is matched |
| Nsec3.FirstCoveringSpec | crates/sito-dnssec/src/nsec3.rs:69-85 | a cover is found exactly when some record covers |
| Nsec3.FirstCoveringIsFirst | crates/sito-dnssec/src/nsec3.rs:169-171 | and it is the first that covers |
| Nsec3.CollectRelevant | crates/sito-dnssec/src/nsec3.rs:122-133 | the loop keeps the records of zones above the name within the iteration cap |
| Nsec3.FindEncloser | crates/sito-dnssec/src/nsec3.rs:134-151 | the loop computes the walk |
| Nsec3.EvaluateNsec3Denial | crates/sito-dnssec/src/nsec3.rs:116-206 | the imperative evaluation agrees with the verdict function on every input |
| Nsec3Proofs.MatchMeans | crates/sito-dnssec/src/nsec3.rs:60-64 | a genuine record that matches a name which collides with nothing on the chain is that name's, with its types |
| Nsec3Proofs.CoverMeans | crates/sito-dnssec/src/nsec3.rs:69-85 | a genuine cover excludes the name from the chain, and without opt-out from the zone |
| Nsec3Proofs.CoversAgree | crates/sito-dnssec/src/nsec3.rs:69-85 | all genuine covers of one name agree on opt-out |
| Nsec3Proofs.WalkFindsEncloser | crates/sito-dnssec/src/nsec3.rs:134-151 | a firm cover of the next closer name makes the walked encloser the true closest encloser |
| Nsec3Proofs.Nsec3Sound | crates/sito-dnssec/src/nsec3.rs:116-206 | over genuine records of any chain, opt-out included, a firm Secure verdict finds the true encloser, and the zone answers NXDOMAIN or NODATA just as it says, or a referral exactly if the encloser's own record shows a cut |
| Nsec3Proofs.NxdomainIsFirm | crates/sito-dnssec/src/nsec3.rs:189-205 | NXDOMAIN is Secure only over a next closer cover without opt-out and some cover of the wildcard |
| Nsec3Proofs.NoOptOutIsFirm | crates/sito-dnssec/src/nsec3.rs:116-206 | in a zone without opt-out every Secure verdict is firm |
| Nsec3OptOut.DelegationFits | crates/sito-dnssec/src/nsec3.rs:153-187 | an opt-out cover leaves room for a delegation: the extended zone is well signed by the same chain |
| Nsec3OptOut.DsIsTrusted | crates/sito-dnssec/src/nsec3.rs:153-205 | a Secure denial of DS, by NXDOMAIN or at the next closer name, is right in every fitting zone even over opt-out covers |
| Nsec3OptOut.Nsec3SoundExactly | crates/sito-dnssec/src/nsec3.rs:116-206 | every Secure verdict holds in every zone its records fit if and only if the encloser's record shows no cut and the verdict is firm or such a denial of DS |
| Nsec3Witnesses.CutGivesSecure | crates/sito-dnssec/src/nsec3.rs:189-205 | for every name below a delegation its record gives a firm Secure NXDOMAIN while the zone answers with a referral |
| Nsec3Witnesses.OpenGivesSecure | crates/sito-dnssec/src/nsec3.rs:153-187 | for every legal name below a non-root apex, its wildcard's subtree excepted, a fitting zone gives a Secure NODATA that is not firm |
| Nsec3Witnesses.WildGivesSecure | crates/sito-dnssec/src/nsec3.rs:189-205 | and another a Secure NXDOMAIN that is not firm |
| Nsec3OptOut.OptOutIsJustified | crates/sito-dnssec/src/nsec3.rs:153-205 | for every OptOut verdict some zone with the same records delegates the next closer name unsigned exactly if no cut is shown, and the name is not denied there unless DS is asked at it |
| Nsec3Proofs.WholeChainCovers | crates/sito-dnssec/src/nsec3.rs:69-85 | the whole chain covers every name it does not match |
| Nsec3Completeness.Nsec3Verdict | crates/sito-dnssec/src/nsec3.rs:116-206 | over the whole chain, opt-out included, all three verdicts for both questions: decided by the longest ancestor-or-self with a record, the types of its wildcard, and whether the next closer name is in an opt-out arc |
| Nsec3Completeness.ChainedNodataExactly | crates/sito-dnssec/src/nsec3.rs:153-166 | for a name with a record NODATA is Secure exactly when it is the zone's answer |
| Nsec3Completeness.HiddenIsAdmitted | crates/sito-dnssec/src/nsec3.rs:167-206 | a name that opt-out left out never gets a Secure NXDOMAIN: its absence gets OptOut below every encloser but the root, its NODATA OptOut unless a wildcard answers |
| Nsec3Completeness.Nsec3Complete | crates/sito-dnssec/src/nsec3.rs:116-206 | without opt-out the whole chain proves NXDOMAIN exactly when neither name nor wildcard exists and the closest encloser is not the root; above cuts NODATA and NXDOMAIN are proved exactly when they are the zone's answer, except below the root |
| Nsec3Proofs.SecureStays | crates/sito-dnssec/src/nsec3.rs:116-206 | adding genuine records never takes a Secure verdict away |
| Nsec3Proofs.OrderIrrelevant | crates/sito-dnssec/src/nsec3.rs:116-206 | over genuine records the verdict depends on neither order nor repetition |
| Nsec3Proofs.OverCapIgnored | crates/sito-dnssec/src/nsec3.rs:122-133 | records above 150 iterations never influence a verdict |
| Nsec3Proofs.ForeignIgnored | crates/sito-dnssec/src/nsec3.rs:122-125 | nor do records of a zone that is not above the name |
| ChainSpec.CanonIdempotent | crates/sito-dnssec/src/chain_cache.rs:741-761 | a normalized policy name is its own normal form |
| ChainSpec.CanonIs | crates/sito-dnssec/src/chain_cache.rs:741-761 | the normal form of a name in any case between white space is its small letters with a final dot, nothing for an empty one |
| ChainSpec.NormalizeIdempotent | crates/sito-dnssec/src/chain_cache.rs:741-761 | so is a normalized list |
| ChainSpec.RoundTrip | crates/sito-dnssec/src/chain_cache.rs:401-512 | what a flush writes, in any order, loads at any later time as exactly the live entries and the same policy, with no migration |
| ChainSpec.SamePolicySameChange | crates/sito-dnssec/src/chain_cache.rs:185-324 | the restored policy is indistinguishable from the original for every later change |
| ChainSpec.LegacyLoadIsDeep | crates/sito-dnssec/src/chain_cache.rs:401-512 | no legacy file yields a signed status for the root or a top-level name |
| ChainSpec.LoadsExactly | crates/sito-dnssec/src/chain_cache.rs:430-500 | whatever a file holds, it loads exactly the names of its trusted records, each with its newest evidence, and migrates exactly if a live named record is not trusted |
| ChainSpec.LoadsLatest | crates/sito-dnssec/src/chain_cache.rs:478-484 | among equally new records of a name the last in the file counts |
| ChainSpec.SurvivesExactly | crates/sito-dnssec/src/chain_cache.rs:185-324 | which entries survive a policy change, exactly: all under the same fingerprint, all but unsigned ones at or above an added anchor when anchors were only added, else none |
| ChainSpec.AdoptsExactly | crates/sito-dnssec/src/chain_cache.rs:185-324 | the recorded policy is then the one asked for, and asking again changes nothing |
| ChainSpec.LoadKeepsNewest | crates/sito-dnssec/src/chain_cache.rs:478-484 | a load never replaces evidence by older evidence |
| ChainCacheModel.ChainCache.constructor | crates/sito-dnssec/src/chain_cache.rs:162-173 | starts empty and clean with a bound of at least one |
| ChainCacheModel.ChainCache.EnsurePolicy | crates/sito-dnssec/src/chain_cache.rs:185-324 | the whole new state: unchanged, cleared, or without exactly the unsigned entries at or above an added anchor |
| ChainCacheModel.ChainCache.InvalidateUnsignedAtOrAbove | crates/sito-dnssec/src/chain_cache.rs:333-347 | drops exactly the unsigned entries at or above the anchor, counts them, and is dirty exactly if something changed |
| ChainCacheModel.ChainCache.RemoveUnsignedAtOrAbove | crates/sito-dnssec/src/chain_cache.rs:350-364 | the removal and its count |
| ChainCacheModel.ChainCache.Load | crates/sito-dnssec/src/chain_cache.rs:401-512 | merges the live trustworthy records, newest evidence winning, adopts the file's policy if it has one, marks migrations dirty and keeps the bound |
| ChainCacheModel.ChainCache.LoadRecords | crates/sito-dnssec/src/chain_cache.rs:430-500 | the record loop computes that merge and counts the refused legacy records |
| ChainCacheModel.ChainCache.Get | crates/sito-dnssec/src/chain_cache.rs:516-521 | finds exactly the live entries |
| ChainCacheModel.ChainCache.Insert | crates/sito-dnssec/src/chain_cache.rs:525-545 | older evidence changes nothing; else the name gets exactly the given status, expiry and time, every other kept entry is unchanged, with room left the name is there, and the bound leaves the newest live entries |
| ChainCacheModel.InsertThenAsk | crates/sito-dnssec/src/chain_cache.rs:516-575 | a kept insert is found with its own status, expiry and time until it expires, and at its name exactly the lookup of that status answers; afterwards or if not kept, nothing answers at that name |
| ChainRefinement.InsertIsRun | crates/sito-dnssec/src/chain_cache.rs:525-621 | every outcome an insert may have is reached by uninterrupted steps of one writer in the run model, which leave file, policy, clock and other writers alone |
| ChainRefinement.Records | crates/sito-dnssec/src/chain_cache.rs:525-542 | an accepted insert is the write step, followed by the add step exactly if the name was missing, and records the entry |
| ChainRefinement.SnapshotIsRun | crates/sito-dnssec/src/chain_cache.rs:630-719 | the locked half of a flush is uninterrupted flush steps: flag cleared, expired entries pruned, and a pending file of exactly the live entries and the policy |
| ChainRefinement.LoadIsRestart | crates/sito-dnssec/src/chain_cache.rs:401-512 | loading a file into an empty cache, within any bound and in any order of its listing, is the run model's restart, dirty flag included |
| ChainCacheModel.ChainCache.Retain | crates/sito-dnssec/src/chain_cache.rs:548-552 | keeps exactly the live entries and counts the rest |
| ChainCacheModel.ChainCache.EnforceBounds | crates/sito-dnssec/src/chain_cache.rs:600-619 | everything stays if it fits, else exactly the live entries if those fit, else exactly as many live ones as fit, none of them older than one that went |
| ChainCacheModel.ChainCache.EvictOldest | crates/sito-dnssec/src/chain_cache.rs:606-619 | exactly the excess goes, and nothing kept is older than anything evicted |
| ChainCacheModel.ChainCache.DeepestEntry | crates/sito-dnssec/src/chain_cache.rs:577-596 | the upward walk finds the deepest live ancestor-or-self, or there is none |
| ChainCacheModel.ChainCache.ClosestSigned | crates/sito-dnssec/src/chain_cache.rs:556-563 | answers exactly when the deepest live status is signed |
| ChainCacheModel.ChainCache.CoversUnsigned | crates/sito-dnssec/src/chain_cache.rs:568-575 | answers exactly when the deepest live status is unsigned |
| ChainCacheModel.LookupsPartition | crates/sito-dnssec/src/chain_cache.rs:556-596 | a name with a live ancestor is exactly one of signed and unsigned |
| ChainCacheModel.ChainCache.Snapshot | crates/sito-dnssec/src/chain_cache.rs:630-719 | clears the dirty flag and lists exactly the live entries with the policy, or nothing when clean |
| ChainRuns.PolicySafety | crates/sito-dnssec/src/chain_cache.rs:185-324 | in every reachable state each entry, in memory and on disk, was authenticated under a policy the recorded one vouches for, unless it already was not when recorded |
| ChainRuns.PolicySafetyExactly | crates/sito-dnssec/src/chain_cache.rs:525-545 | over a whole run every entry is vouched for if and only if no insert records evidence of a validator whose policy the recorded one does not vouch for |
| ChainRuns.OlderReplacesNewerExactly | crates/sito-dnssec/src/chain_cache.rs:525-545 | within a process a step replaces evidence by older evidence exactly if it is the second half of an insert that missed an entry added meanwhile |
| ChainRuns.NewestWins | crates/sito-dnssec/src/chain_cache.rs:525-545 | so over any stretch of a run without such a step an entry that stays only grows newer |
| ChainRuns.NewerIsEvictedOnlyIf | crates/sito-dnssec/src/chain_cache.rs:600-619 | in every run an eviction removes an entry newer than one ranked behind it only if the one was refreshed or the other fell back since the ranking |
| ChainRuns.RefreshedIsEvicted | crates/sito-dnssec/src/chain_cache.rs:606-619 | a reachable state in which a refreshed entry, the newest of all, is about to be evicted |
| ChainRuns.LateValidatorIsStray | crates/sito/src/server.rs:560-568 | a reachable state in which a validator of the old policy is about to record an entry after the change |
| ChainRuns.OlderComesLast | crates/sito-dnssec/src/chain_cache.rs:526-542 | a reachable state in which two inserts missed and older evidence is about to replace newer |
| ChainRuns.NothingLost | crates/sito-dnssec/src/chain_cache.rs:630-719 | in every interleaving, clean and idle, a restart would read back exactly the live entries and the policy if and only if the start was not from an unreadable file with something in it |
| ChainRuns.FailedFlushIsDue | crates/sito-dnssec/src/chain_cache.rs:690-719 | a flush that failed, even after the rename, can begin again at once |
| ChainRuns.UnreadableStartIsOutOfStep | crates/sito-dnssec/src/chain_cache.rs:401-440 | a run that is out of step that way |
| ChainRuns.FilesInOrder | crates/sito-dnssec/src/chain_cache.rs:630-719 | files only ever give way to files of later snapshots, in runs with failing writes and crashes |
| ChainRuns.LegacyNeverReturns | crates/sito-dnssec/src/chain_cache.rs:401-512 | a shallow signed status in memory was recorded during the run, never loaded from a legacy file |
| Messages.ChainIsReachable | crates/sito-cache/src/cache.rs:642-669 | below the 16-name bound the alias chain is exactly the set of names reachable by first-match aliases |
| Messages.ChainExactly | crates/sito-cache/src/cache.rs:642-669 | in every case the chain is exactly the names that fewer than 16 aliases lead to |
| Messages.FirstAliasIsFirst | crates/sito-cache/src/cache.rs:650-660 | the alias followed from a name is its first in the answer |
| Messages.ChainIsPath | crates/sito-cache/src/cache.rs:642-669 | the chain is a duplicate-free alias path of at most 16 names from the query name |
| Messages.AnswerOwnersAreRelevant | crates/sito-cache/src/cache.rs:642-669 | accepts exactly the answers all of whose owners are on the chain |
| Messages.CnameChain | crates/sito-cache/src/cache.rs:725-753 | returns the chain and the least TTL of the aliases followed |
| DnsCacheModel.NegativeTtlFromSoa | crates/sito-cache/src/cache.rs:675-684 | the in-bailiwick SOA's lesser of TTL and minimum, or none |
| DnsCacheModel.DenialProofTtl | crates/sito-cache/src/cache.rs:694-717 | the least TTL, signature TTLs included, of the denial records |
| DnsCacheModel.DnsCache.InsertWithStatus | crates/sito-cache/src/cache.rs:392-586 | stores an entry of the specified content and lifetime exactly for untruncated NOERROR or NXDOMAIN responses to the question, all owners on the alias chain, with an answer or an SOA in bailiwick; else changes nothing |
| ResponseContract.PositiveLifetimes | crates/sito-cache/src/cache.rs:480-563 | every record of an answer gets its TTL moved into the configured range and no further, from zero on if Secure; the entry lives as long as the least, or the minimum if all are the largest TTL |
| ResponseContract.NegativeLifetimes | crates/sito-cache/src/cache.rs:480-536 | a denial lives as the first SOA in bailiwick says, in the configured range, but no longer than the aliases and, if Secure, the denial proof; its records no longer than that or their TTL |
| ResponseContract.NegativeIsUnanswered | crates/sito-cache/src/cache.rs:462-474 | a cacheable response counts as negative exactly without an RRset of the type, any record answering ANY |
| DnsCacheModel.DnsCache.GetByKeyWithStatus | crates/sito-cache/src/cache.rs:190-251 | serves exactly while fresh, every stored record aged and the header and status as stored, and removes the entry exactly past its stale window |
| DnsCacheModel.DnsCache.GetStaleByKey | crates/sito-cache/src/cache.rs:292-332 | serves exactly within the stale window, and then exactly the stored plain records for 30 seconds under the stored header without AD |
| ResponseContract.StaleIsExact | crates/sito-cache/src/cache.rs:311-324 | a stale message has the stored header without AD and, section by section, exactly the non-DNSSEC records in order, their owners and data unchanged, for 30 seconds |
| ResponseContract.FreshIsExact | crates/sito-cache/src/cache.rs:215-251 | a fresh message has the stored header and every stored record in place, its owner and data unchanged and its stored lifetime less the age |
| DnsCacheModel.CarryOver | crates/sito-cache/src/cache.rs:92-125 | carries a prefix of the old generation without its fully expired entries, within the capacity, stopping only where the next would not fit |
| DnsCacheModel.WeightCountsBytes | crates/sito-cache/src/cache.rs:92-125 | the weight held against the capacity is the bytes of the entries, an empty one counting one |
| DnsCacheModel.ExpiredIsServableExactly | crates/sito-cache/src/cache.rs:102-108 | an entry dropped on resize could be served, fresh or stale, exactly if its age had wrapped around and was small again |
| DnsCacheModel.ResizeRefines | crates/sito-cache/src/cache.rs:92-125 | any later lookup misses or answers as the old generation would; when all of it was visited, exactly so unless an expired entry's age wrapped around |
| DnsCacheModel.DnsCache.Resize | crates/sito-cache/src/cache.rs:92-125 | the new cache is exactly the carried part of the old one |
| DnsCacheModel.DnsCache.UpdateConfig | crates/sito-cache/src/cache.rs:77-82 | adopts the settings; entries are kept as they were or dropped, and all kept when the size is unchanged |
| DnsCacheModel.DnsCache.Flush | crates/sito-cache/src/cache.rs:592-594 | empties the cache |
| ResponseProofs.SecureLifetime | crates/sito-cache/src/cache.rs:392-586 | for every Secure response and every fresh hit below 2^32 seconds of age, no served TTL exceeds original minus age and everything the answer or denial rests on is alive |
| ResponseProofs.SecureLifetimeExactly | crates/sito-cache/src/cache.rs:190-251 | at every fresh hit on a Secure entry all it rests on is alive if and only if fewer than 2^32 seconds have passed |
| ResponseProofs.AgeWraps | crates/sito-cache/src/cache.rs:190-251 | after exactly 2^32 seconds every entry is served again as new |
| ResponseProofs.NegativeWithinAliases | crates/sito-cache/src/cache.rs:725-753 | a negative entry of any status never outlives an alias followed |
| ResponseProofs.FreshPositiveIsAlive | crates/sito-cache/src/cache.rs:190-251 | a fresh positive hit never carries a TTL of zero |
| ResponseProofs.StaleIsStripped | crates/sito-cache/src/cache.rs:627-638 | a stale hit has no AD bit, no DNSSEC records and only the stale TTL |
| ResponseProofs.HitsByPhase | crates/sito-cache/src/cache.rs:190-332 | after any sequence of reads the next one hits exactly by the phase (fresh, stale only, dead) of its time |
| ResponseProofs.LifeIsOneWay | crates/sito-cache/src/cache.rs:190-332 | along any sequence of reads phases only advance and hits are preceded by hits |
| SingleFlight.AtMostOneGuard | crates/sito-cache/src/cache.rs:132-152 | in every interleaving of acquiring, waiting, cancelling, dropping and pruning at most one guard per key exists |
| SingleFlight.WaitersShareTheGuardsLock | crates/sito-cache/src/cache.rs:132-152 | every task of a key waits for or holds the same lock |
| SingleFlight.WaiterCanGrab | crates/sito-cache/src/cache.rs:132-152 | in every interleaving a waiting task can have the guard exactly while no guard of its key exists |
| SingleFlight.PrunesExactly | crates/sito-cache/src/cache.rs:138-140 | acquiring drops exactly the keys no task uses from a table above 1024, and none otherwise |
| ConfigApplyModel.ServerContext.ApplyInner | crates/sito-api/src/config_apply.rs:437-501 | succeeds exactly for a parsing configuration without faults and then every component runs it, a deferred filter excepted; a failed pass has not touched snapshot, cache policy or query log |
| ConfigApplyModel.ServerContext.ApplyFullConfig | crates/sito-api/src/config_apply.rs:231-257 | from a coherent server: coherent at the candidate exactly for a valid parsing one without faults, else coherent at the previous after a faultless rollback, and a whole snapshot whatever fails |
| ConfigApplyModel.ServerContext.ApplyAndPersistDocument | crates/sito-api/src/config_apply.rs:337-360 | runtime and file move to candidate and document together, or the file stays and faultless rollbacks keep the runtime; in step before and a matching document means in step after |
| ConfigApplyModel.ServerContext.ApplyConfigDocumentEvent | crates/sito-api/src/config_apply.rs:388-435 | an event that read the file and was not rejected leaves a coherent server at the file's configuration; a rejected one keeps the previous after a faultless rollback; an ignored one changes nothing |
| ConfigSpec.InnerOutcome | crates/sito-api/src/config_apply.rs:437-501 | the outcome of a pass, for both kinds of filter apply |
| ConfigSpec.ApplyIsTransaction | crates/sito-api/src/config_apply.rs:231-257 | everything at the candidate, a deferred filter excepted, or after a faultless rollback everything at the previous; the snapshot is one whole configuration whatever fails |
| ConfigSpec.PersistIsTransaction | crates/sito-api/src/config_apply.rs:337-360 | exactly when a write succeeds; success puts runtime and file at the candidate; failure leaves the file and, after faultless rollbacks, the runtime |
| ConfigSpec.PersistedApartExactly | crates/sito-api/src/config_writer.rs:34-53 | a successful write leaves file and runtime apart exactly when an acceptable candidate comes with a document that parses to something else |
| ConfigSpec.WriteApart | crates/sito-api/src/config_writer.rs:34-53 | and such writes exist |
| ConfigSpec.EventFollowsFile | crates/sito-api/src/config_apply.rs:388-435 | an event that read the file and was not rejected leaves the runtime at the file's configuration, whatever document it carried |
| ConfigSpec.SelfWriteExactly | crates/sito-api/src/config_apply.rs:395-426 | an event counts as the server's own write exactly when the document that counts parses to the running configuration, and then nothing is touched |
| ConfigSpec.UnreadFileRegresses | crates/sito-api/src/config_apply.rs:401-411 | an event that cannot read the file parts file and runtime exactly when its document parses differently, is accepted and meets no fault |
| ConfigSpec.AnswersAfterChange | crates/sito-api/src/config_apply.rs:475-482 | after a successful change of DNSSEC policy the cached answers are those finished since the flush, so current exactly if none of these was begun under another policy |
| ConfigSpec.AnswersAfterFilter | crates/sito-api/src/config_apply.rs:454-465 | after an apply that swaps the filter under an unchanged DNSSEC policy the cached answers are exactly those finished since the swap, whatever was cached before |
| ConfigSpec.AnswersStayDeferred | crates/sito-api/src/config_apply.rs:454-465 | with a deferred filter all of them stay |
| ConfigSpec.NoAnswerSurvivesExactly | crates/sito-api/src/config_apply.rs:475-482 | they stay current whatever traffic follows if and only if no validation begun under another policy is under way at the flush |
| ConfigSpec.OldAnswerSurvives | crates/sito/src/pipeline.rs:1652-1691 | in every change of policy a query that loads the validator before the swap and caches after the flush leaves an old answer |
| ConfigSpec.SamePolicyStaysCurrent | crates/sito-api/src/config_apply.rs:475-482 | an apply that keeps the policy keeps the answers current |
| ConfigSpec.AnswersAfterRollback | crates/sito-api/src/config_apply.rs:231-257 | after a rolled-back apply the cached answers are those finished since the rollback's flush, which precedes the restored validator |
| ConfigSpec.SurvivorsAfterRollbackExactly | crates/sito-api/src/config_apply.rs:231-257 | they stay current whatever traffic follows if and only if the failed pass left the validator under the previous policy and nothing under way under another |
| ConfigSpec.SnapshotStaysWhole | crates/sito-api/src/config_apply.rs:437-501 | over every run of writes, events, traffic and foreign edits with any faults the snapshot is one whole parsing configuration |
| ConfigSpec.FileStaysInStep | crates/sito-api/src/config_apply.rs:337-435 | over every run of matching writes and readable events, with failing applies and writes, file and runtime never part |
| Clients.InSubnetIsPrefix | crates/sito-clients/src/registry.rs:618-644 | masking and comparing is equality of family and of the first prefix bits, for both families and every prefix length |
| Clients.BuildClientIndex | crates/sito-clients/src/registry.rs:557-600 | the index holds the first entry of every host address and exactly the valid subnets, in configured order |
| Clients.MatchByIpOrCidr | crates/sito-clients/src/registry.rs:324-343 | the first entry listing the address, else the longest covering prefix with the first configured entry among equals, else nobody |
| Clients.Identify | crates/sito-clients/src/registry.rs:324-343 | the same, stated of the configuration alone |
| Clients.MatchUnique | crates/sito-clients/src/registry.rs:324-343 | that rule determines the match |
| Domains.NormalizesToDomains | crates/sito-clients/src/parental.rs:28-60 | tokens normalize to well-formed domains only, and those are its fixed points |
| Domains.NormalizesExactly | crates/sito-clients/src/parental.rs:28-60 | a token normalizes to a domain exactly if it spells it in any case, with any final dots, with an optional double-bar anchor before it, an optional `^` and modifiers from a `$` on after it, and white space around |
| Domains.DomainsAreHostNames | crates/sito-clients/src/parental.rs:46-58 | a domain is at most 253 letters, digits, `-`, `_` and dots, no dot at an end or next to another, one among any 64 in a row |
| Domains.DottedIs | crates/sito-clients/src/parental.rs:90-95 | folding case and dropping final dots gives a name exactly for its spellings in any case with any number of final dots |
| Parental.StatesExactly | crates/sito-clients/src/parental.rs:90-102 | what a token contributes: the domain it is an entry for, unless it spells an ignored host name |
| Parental.MatchesExactly | crates/sito-clients/src/parental.rs:217-234 | the folded query matches a domain exactly if the query spells it, or ends in it after a dot, in any case with any final dots |
| Parental.ParseTokens | crates/sito-clients/src/parental.rs:90-102 | the collected domains are exactly those the tokens state |
| Parental.Registry.AddCategoryList | crates/sito-clients/src/parental.rs:193-202 | adds exactly the stated domains to one category |
| Parental.Registry.SetCategoryList | crates/sito-clients/src/parental.rs:179-186 | one category becomes exactly the stated domains, counted without repetition; the others are untouched |
| Parental.WalkIsSuffixMatch | crates/sito-core/src/domain.rs:9-19 | probing the parents finds nothing exactly when no stored domain is a suffix match |
| Parental.Registry.MatchesCategory | crates/sito-clients/src/parental.rs:211-234 | the parent walk matches exactly when the query, in any case and with any final dots, is a stored domain or below one |
| Parental.SetThenMatch | crates/sito-clients/src/parental.rs:179-234 | end to end: blocked exactly when a token of the list stands for the query or an ancestor |

## Left out

- ConfigApplyModel.ServerContext.ApplyInner: hooks are always present, and everything they own counts as one component.
- ChainCacheModel.ChainCache.Load: file reading and JSON decoding are a parameter; an unreadable file is a step of the run model.
- ChainCacheModel.ChainCache.EnsurePolicy: the sorted, deduplicated name lists are sets, and entries and policy change in one step; an insert in between counts as coming after it.
- DnsCacheModel.DnsCache.Resize: entries inserted during the rebuild, and eviction by the underlying cache library, are not modelled.
- ChainRuns.NewerIsEvictedOnlyIf: the ranking by age is read in one step.
- DnsCacheModel.DnsCache.InsertWithStatus: the estimated size of an entry is a parameter.
- Parental.ParseTokens: splitting lists into lines, comments and tokens is not modelled.
- Clients.BuildClientIndex: MAC addresses and client-id secrets; addresses arrive parsed, as bits.
- NSEC3 digests are octet strings from an arbitrary hash under which no chained name shares its digest with an existing name, an ancestor of the queried name or a wildcard of one; Base32 decoding of owners is not modelled.
- Every non-root name is taken to survive printing and parsing when a wildcard is built from its text.
- Hit counters, prefetch, invalidation by domain and metrics of the response cache, and the construction of cache keys.
- Signature validation, the resolver, upstream selection, filtering rules and rewrites.
- High availability, clustering, DHCP leases, the web interface and authentication.
- Atomicity of the file system: a write either replaces the file or leaves it.
