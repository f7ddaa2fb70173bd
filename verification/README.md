# Verification of the Codex support scripts and runtime cores

A Dafny model of the parts of this repository that hold an algorithm or a protocol, with proofs of what they promise.
Verify everything with `dafny verify dfyconfig.toml`.

| files | what they model |
|---|---|
| `Facility*.dfy` | the facility location solver, its greedy bound and its independent verifier |
| `Release{Store,Metadata,Protocol,Published,Failure,Finalize,Recovery}.dfy` | the publication of a release to the R2 object store, as a protocol of concurrent publishers, as the finalize run, and what a rerun can rely on |
| `Json.dfy`, `Regression*.dfy` | the MCP conformance regression gate and its compact baselines |
| `Review*.dfy` | the reviewer regression gate and its compact baselines |
| `Sse*.dfy` | the fixture server's event stream and the standard's parser |
| `Fixture*.dfy` | the fixture server's handshake and its sessions under concurrent requests |
| `AppServer*.dfy` | the compliance runner's app-server client |
| `Bazel*.dfy` | rewriting and checking the rusty_v8 checksums of MODULE.bazel, on characters |
| `AgentRole*.dfy` | loading agent roles from configuration layers |
| `Analytics*.dfy` | analytics batching and the bounded deduplication sets |
| `Release{Version,Spelling}.dfy` | version normal forms, the spellings that are accepted for them, and release tags |
| `Lint*.dfy` | the argument-comment-lint wrapper's arguments and environment |
| `Prelude.dfy`, `Ordering.dfy`, `PythonText.dfy` | option and result types, Python's ordering of strings and tuples, its whitespace and digits |

Each file keeps to one pattern. A function says what an operation computes; where the source loops or changes state, a
method or a class does the same step by step and is proved to compute that function; lemmas then say what the function
means, independently of how it is computed, with object keys, field names, error codes and option names written out.

What a reader should know about the modelling:

- Numbers of the facility instance are reals, so the tolerances of the verifier are exact. Products with unknown
  factors are kept behind the name `Times`. The verifier itself is modelled on data outside the solver's guard too,
  as long as every distance it looks up exists.
- A SHA-256 digest stands for the file it was taken of, so equal digests mean equal files. A write with overwriting
  switched off is one atomic step. `release.json` is kept as the value that is serialised, and its size is that of the
  text.
- In the publication protocol a process may stop between any two actions, and a write may end acknowledged, performed
  without an acknowledgement, or not performed. A write that was ever sent may take effect again, or for the first
  time, at any later moment.
- Reports and baselines are JSON objects with any fields missing, misplaced or of another type. The scenario catalogue
  and the required reviewer cases are parameters.
- The fixture server's sessions are handled by identity of the connection object, so nothing is assumed about the
  freshness of session identifiers. One request is handled in one step; lookups, handling and deletions of different
  requests interleave freely.
- The app-server client's inbox lists in advance what each read of its queue yields: a message, the end of the stream
  or a timeout.
- MODULE.bazel is a sequence of characters. The patterns are written out as functions on positions with the same
  whitespace, line and quote rules; each can match in one way only from a given field name, which the functions use.

Some promises hold only under a condition, which is proved exact:

- `BazelGuarantee.UpdateEstablishesCheck` and `SecondUpdateChangesNothing`: an upper-case checksum is not replaced, and
  a blank line behind an inserted checksum is swallowed by the next update. `BazelExamples.UpperCaseChecksum` and
  `BazelExamples.BlankLineBehindPath` are whole files where this happens; `BazelTidy.TidyUpdate` covers blocks without
  blank lines and with a lower-case first checksum if any.
- `AppServerConversation.WaitReturnsEarliest`: a wait passes over server requests, and an index beyond the recorded
  events is not waited for. The condition is on the messages about to be delivered; `WaitPassesRequest` and
  `WaitIgnoresLateIndex` are concrete waits.
- `SseBreaks.RoundTripExactly`: payloads come back exactly when none of them holds a line break.
- `ReleaseSpelling.NormalizeMeaning`: beside the documented spellings, a beta spelled `-bet-alpha` is accepted, since one
  substitution leaves what the next one takes up.
- `LintWrapper.NormalForm`: with a manifest path equal to `--`, arguments that name no manifest path themselves have no
  normal form.

Compacting a regression baseline drops SKIP statuses, so `RegressionRatchet.CompactionAndAcceptance` and
`CompactionIdempotent` depend on every required case and scenario having a check that was not skipped;
`RegressionSkips.SkippedScenariosAreLost` gives, for every catalogue, a report for which they fail. The fixture server
answers a notification whose session it does not know, against section 4.1 of JSON-RPC 2.0:
`FixtureSessions.UnknownNotificationAnswered`.

## Model

| member | source | states |
|---|---|---|
| FacilityCost.NearestIsMinimum | examples/facility-location/solve.py:16-17 | the distance a row contributes is reached at a selected site and no selected site is nearer |
| FacilityCost.CostMonotone | examples/facility-location/solve.py:16-17 | selecting more sites never raises the cost |
| FacilityCost.Supermodular | examples/facility-location/solve.py:16-17 | the saving of one more site shrinks as the selection grows |
| FacilitySolve.CombinationsExact | examples/facility-location/solve.py:25 | the enumerated combinations are exactly the increasing site tuples of the asked length |
| FacilitySolve.ExactIsCombination | examples/facility-location/solve.py:25 | the exact method selects p distinct sites in increasing order |
| FacilitySolve.ExactIsOptimal | examples/facility-location/solve.py:25 | no p-subset is cheaper than the exact selection, and among equally cheap ones it is the lexicographically least |
| FacilitySolve.BestBelowIsBest | examples/facility-location/solve.py:22-23 | a greedy pick is new, no other new site gives a lower cost, and ties go to the smaller index |
| FacilitySolve.GreedyPicksDistinct | examples/facility-location/solve.py:19-23 | under the guard the greedy loop always finds a site and picks p distinct ones |
| FacilitySolve.Solve | examples/facility-location/solve.py:8-28 | instances outside the guard are refused; the loop that appends picks, and the exact search, give a record with the picks in increasing order, their exact cost, and for every row the selected site that is least by distance and index |
| FacilitySolve.SolvedMeaning | examples/facility-location/solve.py:19-28 | the same of the specification of both methods: the record describes the greedy picks or the exact selection |
| FacilityGreedyBound.JointGain | examples/facility-location/solve.py:16-17 | the joint saving of any set of further sites is at most the sum of their single savings |
| FacilityGreedyBound.OptimumIsLowerBound | examples/facility-location/solve.py:25 | any selection of at most p sites, repetitions allowed, costs at least the exact optimum |
| FacilityGreedyBound.GreedyStepBound | examples/facility-location/solve.py:19-25 | each greedy step from the second on shrinks the gap to the optimum: p times the new gap is at most p-1 times the old |
| FacilityGreedyBound.GreedyGapBound | examples/facility-location/solve.py:19-25 | after k picks the gap is at most (1-1/p)^(k-1) times the gap after the first pick |
| FacilityGreedyBound.GreedyNeverBeatsOptimum | examples/facility-location/solve.py:19-25 | the greedy cost is never below the optimum |
| FacilityGreedyBound.GreedyExactForOneSite | examples/facility-location/solve.py:19-25 | with one site to open greedy is optimal |
| FacilityVerify.AssignmentsExact | examples/facility-location/verify.py:12-13 | the enumerated assignments are exactly the maps from demand points to sites |
| FacilityVerify.NearestAssignmentCost | examples/facility-location/verify.py:22-25 | assigning each demand point to its nearest selected site costs what the selection costs |
| FacilityVerify.TwoOptimaAgree | examples/facility-location/verify.py:12-14 | the least total over assignments that use at most p distinct sites equals the least cost over p-subsets |
| FacilityVerify.Verify | examples/facility-location/verify.py:8-35 | the loop with its early continue produces the specified list of checks, for any data whose distances can be looked up, or fails when no assignment can be enumerated |
| FacilityVerify.NoAssignmentMeaning | examples/facility-location/verify.py:12-14 | the minimum is taken over nothing exactly when p is negative, or there is demand and no site may serve it |
| FacilityVerify.VerdictMeaning | examples/facility-location/verify.py:15-35 | all checks pass exactly when both entrants open p distinct sites, report their cost and assignments that attain it, the candidate is the true optimum and not above the baseline, each within 1e-9 |
| FacilityVerify.VerifierSound | examples/facility-location/verify.py:15-35 | for any candidate at all, passing every check means p distinct valid sites whose true cost is within 2e-9 of the optimum |
| FacilityVerify.VerifierComplete | examples/facility-location/verify.py:15-35 | every check passes on the outputs of the greedy and the exact method |
| ReleaseMetadata.GetReleaseMetadata | codex-runtime/.github/scripts/publish_r2_release.py:71-130 | the asset list is accepted exactly when no element offends and one contributes, and then holds exactly the contributing assets in name order, with distinct names other than release.json; otherwise the first offending element is reported |
| ReleaseMetadata.MetadataNames | codex-runtime/.github/scripts/publish_r2_release.py:113-130 | accepted assets have distinct non-empty names, none of them release.json |
| ReleaseStore.KeySpaces | codex-runtime/.github/scripts/publish_r2_release.py:278-292 | asset, channel and installer keys never coincide |
| ReleaseStore.AssetKeyInjective | codex-runtime/.github/scripts/publish_r2_release.py:292 | within a version two asset names share a key only when they are equal |
| ReleaseStore.SizeIsTextLength | codex-runtime/.github/scripts/publish_r2_release.py:434-459 | the size of release.json is the length of its rendered text, for any assets and digests |
| ReleaseProtocol.PutIfAbsentSafe | codex-runtime/.github/scripts/publish_r2_release.py:189-217 | a write under a release key that is absent keeps every published channel backed |
| ReleaseProtocol.PutInstallerSafe | codex-runtime/.github/scripts/publish_r2_release.py:268-285 | an installer upload keeps every published channel backed and the installers supplied |
| ReleaseProtocol.PutChannelSafe | codex-runtime/.github/scripts/publish_r2_release.py:486-494 | moving a channel after verification leaves it backed by the published release |
| ReleaseProtocol.StepDelivers | codex-runtime/.github/scripts/publish_r2_release.py:189-217 | an action changes the store only by the effect of the request it sends |
| ReleaseProtocol.DeliverSafe | codex-runtime/.github/scripts/publish_r2_release.py:189-217 | a request sent by a justified publisher is safe whenever it takes effect and however often |
| ReleaseProtocol.StepSafe | codex-runtime/.github/scripts/publish_r2_release.py:412-505 | every action of a publisher, whatever its outcome, keeps the store safe and its own progress justified |
| ReleaseProtocol.EventsMeaning | codex-runtime/.github/scripts/publish_r2_release.py:377-505 | what may happen in a run: a publisher starts with nothing done, one takes an action, or a request that was sent takes effect late or again |
| ReleaseProtocol.NextSafe | codex-runtime/.github/scripts/publish_r2_release.py:412-505 | a step of one publisher, or a late effect of a request, disturbs no publisher's progress |
| ReleaseProtocol.RunSafe | codex-runtime/.github/scripts/publish_r2_release.py:377-521 | safety over every run: any number of publishers, any interleaving of their workers, failed and unanswered requests, requests that take effect late or again, and a stop anywhere |
| ReleaseProtocol.BackedIsInstallable | codex-runtime/.github/scripts/publish_r2_release.py:434-457 | the manifest a channel holds is the stored release.json, and each asset it lists is in the store with the listed digest and the checked size |
| ReleaseProtocol.RunAttributed | codex-runtime/.github/scripts/publish_r2_release.py:377-521 | over every run, every request in flight and every channel goes back to a publisher of the run that sent it |
| ReleaseProtocol.ChannelsAlwaysInstallable | codex-runtime/.github/scripts/publish_r2_release.py:377-521 | from a store without channels, at every point of every run each channel present is `latest` or `prerelease`, was moved by a finalizing publisher of the run whose own flag asked for it, and is installable |
| ReleaseProtocol.CompletedStaysPublished | codex-runtime/.github/scripts/publish_r2_release.py:377-521 | a completed finalize run's release stays published whatever runs afterwards |
| ReleaseFailure.UnansweredFails | codex-runtime/.github/scripts/publish_r2_release.py:189-217 | a write that is not acknowledged is a failure, whether it took effect or not |
| ReleaseFailure.InspectionFails | codex-runtime/.github/scripts/publish_r2_release.py:220-280 | so is an inspection that finds anything else than the expected size and digest, except an asset that is still absent, and a stable release without its installers |
| ReleaseFailure.OtherDownloadFails | codex-runtime/.github/scripts/publish_r2_release.py:170-178 | so is a download that is not the listed asset, which is not uploaded |
| ReleaseFailure.FailedNeverDone | codex-runtime/.github/scripts/publish_r2_release.py:377-528 | over every run, a publisher that has failed never reports success |
| ReleaseFailure.JoinMeaning | codex-runtime/.github/scripts/publish_r2_release.py:309-365 | the assets stage is done when every upload is acknowledged; finalizing goes on when every asset is accounted for, and again when every asset is verified |
| ReleaseFailure.DoneStays | codex-runtime/.github/scripts/publish_r2_release.py:377-525 | over every run, a publisher that is done stays done |
| ReleasePublished.CanPublishMeaning | codex-runtime/.github/scripts/publish_r2_release.py:268-365 | a finalize run can complete exactly when, key by key, every asset is in place or can be written from a good download, release.json is free or its own, and a stable release has good installers |
| ReleasePublished.PublishedMeaning | codex-runtime/.github/scripts/publish_r2_release.py:412-505 | what a completed run leaves, key by key: the assets, release.json, `codex/channels/latest` and `codex/channels/prerelease` as the flags ask, the installers of a stable release, and everything else as before |
| ReleaseFinalize.ObjectStore.PutObject | codex-runtime/.github/scripts/publish_r2_release.py:189-217 | a write replaces one object, or nothing when overwriting is off and the key is taken |
| ReleaseFinalize.ObjectStore.VerifyRemote | codex-runtime/.github/scripts/publish_r2_release.py:220-265 | absence, agreement in size and digest, and mismatch are told apart |
| ReleaseFinalize.FindPublished | codex-runtime/.github/scripts/publish_r2_release.py:331-365 | an asset is found present or absent, or the run stops at a mismatch; the search is a run of the protocol |
| ReleaseFinalize.PublishAsset | codex-runtime/.github/scripts/publish_r2_release.py:288-306 | one upload and its verification are two protocol actions, and the asset ends up stored as listed or the run stops |
| ReleaseFinalize.PublishRemaining | codex-runtime/.github/scripts/publish_r2_release.py:309-328 | exactly the absent assets are uploaded |
| ReleaseFinalize.PublishManifest | codex-runtime/.github/scripts/publish_r2_release.py:446-473 | release.json is written if absent and verified before anything else happens |
| ReleaseFinalize.PublishInstallers | codex-runtime/.github/scripts/publish_r2_release.py:268-285 | the installers are uploaded in order, each verified, and no channel moves |
| ReleaseFinalize.AdvanceChannels | codex-runtime/.github/scripts/publish_r2_release.py:481-500 | `codex/channels/latest` holds the manifest if the release is marked latest, `codex/channels/prerelease` if it is a prerelease, and every other key is as before |
| ReleaseFinalize.FinalizeAssets | codex-runtime/.github/scripts/publish_r2_release.py:412-432 | up to the last asset: it succeeds exactly when every asset is in place or can be uploaded and the installers are downloaded, and moves no channel |
| ReleaseFinalize.Finalize | codex-runtime/.github/scripts/publish_r2_release.py:412-505 | a finalize run alone succeeds exactly when nothing in the store contradicts the job, then leaves exactly the published store, key by key, and is a run of the protocol; a failed run moves no channel |
| ReleaseFinalize.AloneIsRun | codex-runtime/.github/scripts/publish_r2_release.py:377-528 | a publisher that acts alone is a run of the whole protocol, from its start on |
| ReleaseFinalize.PublishedStoreIsPublished | codex-runtime/.github/scripts/publish_r2_release.py:412-505 | after success every asset, the manifest and every asked channel is in place and the store is safe |
| ReleaseRecovery.DeliverOpen | codex-runtime/.github/scripts/publish_r2_release.py:189-217 | a request leaves every key of the release free or right if what its publisher uploads under such a key are this release's assets and, for the finalize stage, this release's release.json |
| ReleaseRecovery.RerunCanPublish | codex-runtime/.github/scripts/publish_r2_release.py:377-521 | a store that a finalize run could complete stays one after any events of such publishers of either stage, stops and late requests included, so a rerun succeeds |
| ReleaseRecovery.StagesFit | codex-runtime/.github/scripts/publish_r2_release.py:99-130 | the assets stage of a release is such a publisher, whatever unfinished uploads it deferred, when the finalize stage's listing holds what it was shown as uploaded |
| ReleaseRecovery.OtherVersionFits | codex-runtime/.github/scripts/publish_r2_release.py:386-387 | so is every publisher of another version, since versions hold no slash |
| RegressionReader.ReadBucketRecords | codex-runtime/scripts/mcp_conformance/run_codex_compliance.py:1516-1554 | the loop over recorded identities reports malformed and duplicate records and keeps the rest |
| RegressionReader.CollectCases | codex-runtime/scripts/mcp_conformance/run_codex_compliance.py:1593-1613 | the loop over cases keeps the first case per mode and transport and reports the others |
| RegressionReader.ReadCaseChecks | codex-runtime/scripts/mcp_conformance/run_codex_compliance.py:1634-1677 | the loop over a case's checks reports malformed ones, unobserved and unexpected scenarios |
| RegressionReader.RequiredRegressionChecks | codex-runtime/scripts/mcp_conformance/run_codex_compliance.py:1459-1679 | both readings of a report, full and compact, with every problem in order; `FullReportMeaning`, `CompactReportMeaning` and the two exactness lemmas say over the fields what it accepts and reads |
| RegressionReport.CheckIdentityWellFormed | codex-runtime/scripts/mcp_conformance/run_codex_compliance.py:1425-1456 | an identity read from a check belongs to the case's mode and transport and is well formed |
| RegressionIdentities.StableNameMeaning | codex-runtime/scripts/mcp_conformance/run_codex_compliance.py:1443-1449 | a name loses a trailing `#` and digits exactly when something stands in front of them |
| RegressionIdentities.CheckMeaning | codex-runtime/scripts/mcp_conformance/run_codex_compliance.py:1425-1456 | a check is taken in as an identity with a status exactly when its fields say so: its source, its scenario or none, its recorded identifier whatever the name or else its stable name, and a status that agrees with its success |
| RegressionGate.ScanCandidate | codex-runtime/scripts/mcp_conformance/run_codex_compliance.py:1772-1781 | the candidate loop lists exactly the known and the new failures, sorted, and the shipping errors |
| RegressionGate.ScanBaseline | codex-runtime/scripts/mcp_conformance/run_codex_compliance.py:1783-1798 | the baseline loop lists exactly the missing and the fixed checks, sorted, and the shipping errors |
| RegressionGate.EvaluateRegressionGate | codex-runtime/scripts/mcp_conformance/run_codex_compliance.py:1744-1809 | the whole verdict, problems first, then policy, then the two loops |
| RegressionGate.NoErrorsMeaning | codex-runtime/scripts/mcp_conformance/run_codex_compliance.py:1750-1787 | no error exactly when both reports read cleanly under one recorded policy and neither has a shipping failure |
| RegressionGate.NoRegressionMeaning | codex-runtime/scripts/mcp_conformance/run_codex_compliance.py:1772-1798 | no new failure and no missing check exactly when failures are old, passes are kept, and old failures are still observed |
| RegressionGate.AcceptsMeaning | codex-runtime/scripts/mcp_conformance/run_codex_compliance.py:1800-1809 | the gate accepts exactly acceptable reports of one policy without a regression |
| RegressionGate.ErrorsMeaning | codex-runtime/scripts/mcp_conformance/run_codex_compliance.py:1750-1787 | which errors the gate reports: each report's problems, a missing or differing policy, and the failures of the shipping version on either side |
| RegressionGate.ListsMeaning | codex-runtime/scripts/mcp_conformance/run_codex_compliance.py:1772-1798 | which checks it lists as new, known, missing and fixed, from the statuses on both sides |
| RegressionGate.AcceptsReflexive | codex-runtime/scripts/mcp_conformance/run_codex_compliance.py:1800-1809 | a report is accepted against itself exactly when it is acceptable at all |
| RegressionGate.AcceptsTransitive | codex-runtime/scripts/mcp_conformance/run_codex_compliance.py:1800-1809 | acceptance is transitive |
| RegressionCompaction.CompactableMeaning | codex-runtime/scripts/mcp_conformance/run_codex_compliance.py:1682-1694 | no objection exactly to acceptable reports, and which objections otherwise |
| RegressionCompaction.CompactionSucceeds | codex-runtime/scripts/mcp_conformance/run_codex_compliance.py:1682-1694 | compaction succeeds exactly on acceptable reports and otherwise raises the objections |
| RegressionCompaction.ReadFacts | codex-runtime/scripts/mcp_conformance/run_codex_compliance.py:1459-1679 | a clean reading has well-formed identities, covers every required case and scenario and selects the catalogue |
| RegressionIdentities.ReadingIsExact | codex-runtime/scripts/mcp_conformance/run_codex_compliance.py:1593-1679 | the identities of a full report without problems are exactly those that the fields of its required cases' checks name, with exactly the statuses they report |
| RegressionClean.FullReportMeaning | codex-runtime/scripts/mcp_conformance/run_codex_compliance.py:1459-1679 | a full report is read without problems exactly when its header is right, its cases stand for distinct places, and in each of the three versions the pinned catalogue was selected, both transports ran readable checks, and HTTP observed exactly the catalogued scenarios |
| RegressionRecords.CompactReportIsExact | codex-runtime/scripts/mcp_conformance/run_codex_compliance.py:1510-1554 | the identities of a compact baseline are exactly those its two lists spell out, as passing and as failing |
| RegressionRecords.CompactReportMeaning | codex-runtime/scripts/mcp_conformance/run_codex_compliance.py:1493-1591 | a compact baseline is read without problems exactly when its header, modes and transports are right, no list repeats an identity, and in each version the pinned catalogue was selected and is recorded over both transports |
| RegressionCompaction.ScanOwnRecords | codex-runtime/scripts/mcp_conformance/run_codex_compliance.py:1516-1554 | reading back the records of a sorted identity list adds exactly those identities without a problem |
| RegressionCompaction.CompactFormReread | codex-runtime/scripts/mcp_conformance/run_codex_compliance.py:1700-1726 | the compact form of any well-formed identities is read back as those identities without SKIP, cleanly exactly when they still cover every required case and scenario |
| RegressionCompaction.CompactReread | codex-runtime/scripts/mcp_conformance/run_codex_compliance.py:1682-1726 | the same for a compacted report |
| RegressionRatchet.SkipsDoNotMatter | codex-runtime/scripts/mcp_conformance/run_codex_compliance.py:1772-1798 | statuses SKIP influence none of the sets that the gate compares |
| RegressionRatchet.GateIgnoresSkips | codex-runtime/scripts/mcp_conformance/run_codex_compliance.py:1744-1809 | a baseline without its SKIP statuses gives the same verdict |
| RegressionRatchet.CompactionKeepsVerdict | codex-runtime/scripts/mcp_conformance/run_codex_compliance.py:1682-1809 | against the compacted baseline every candidate gets the same new, missing, known and fixed lists, and the same verdict when each required case and scenario has a check that was not skipped |
| RegressionRatchet.CompactionAndAcceptance | codex-runtime/scripts/mcp_conformance/run_codex_compliance.py:1682-1809 | a compacted baseline accepts exactly what the report accepts if that coverage holds, and nothing otherwise |
| RegressionRatchet.CompactionIdempotent | codex-runtime/scripts/mcp_conformance/run_codex_compliance.py:1682-1726 | compacting a compact baseline gives the same baseline exactly when the coverage survived the first compaction, and fails otherwise |
| RegressionSkips.SkippedScenariosAreLost | codex-runtime/scripts/mcp_conformance/run_codex_compliance.py:1682-1726 | for every catalogue that lists a scenario, a report in which every scenario was skipped is compacted and accepts itself, while its compact baseline accepts nothing |
| RegressionRatchet.RatchetAccepts | codex-runtime/scripts/mcp_conformance/run_codex_compliance.py:1744-1809 | in a chain of accepted candidates, each the next baseline, compacted or not, every later report is accepted against every earlier one |
| RegressionRatchet.RatchetIsSafe | codex-runtime/scripts/mcp_conformance/run_codex_compliance.py:1744-1809 | such a chain never loses a passing check and never admits a failure absent from the first baseline |
| ReviewReader.RequiredReviewChecks | codex-runtime/scripts/mcp_conformance/review_regressions.py:859-1029 | both readings of a reviewer report, with every problem in order, one for each missing and each unexpected case in sorted order |
| ReviewIdentities.ReadingIsExact | codex-runtime/scripts/mcp_conformance/review_regressions.py:939-993 | the results of a full reviewer report without problems are exactly the checks its cases name, each with its own outcome |
| ReviewClean.FullReportMeaning | codex-runtime/scripts/mcp_conformance/review_regressions.py:859-1029 | a full reviewer report is read without problems exactly when its header is right, exactly the required cases are there, once each, with readable and distinct checks and the outcome these give, and the totals and the overall outcome are those of the results |
| ReviewRecords.CompactReportMeaning | codex-runtime/scripts/mcp_conformance/review_regressions.py:859-1029 | a compact reviewer baseline is read without problems exactly when its header is right, exactly the required cases are listed, no identity is recorded twice and the totals are those of the records; its results are then what its lists record |
| ReviewGate.ScanCandidate | codex-runtime/scripts/mcp_conformance/review_regressions.py:1085-1091 | the candidate loop lists exactly the known and the new failures, sorted |
| ReviewGate.ScanBaseline | codex-runtime/scripts/mcp_conformance/review_regressions.py:1093-1098 | the baseline loop lists exactly the missing and the fixed checks, sorted |
| ReviewGate.EvaluateReviewGate | codex-runtime/scripts/mcp_conformance/review_regressions.py:1070-1110 | the whole verdict |
| ReviewGate.AcceptsMeaning | codex-runtime/scripts/mcp_conformance/review_regressions.py:1070-1110 | the gate accepts exactly when both reports read cleanly, every failure is an old one and no check is lost |
| ReviewGate.ListsMeaning | codex-runtime/scripts/mcp_conformance/review_regressions.py:1085-1110 | which checks the gate lists as new, known, missing and fixed, and which problems it reports |
| ReviewGate.AcceptsReflexive | codex-runtime/scripts/mcp_conformance/review_regressions.py:1070-1110 | a report is accepted against itself exactly when it reads cleanly |
| ReviewGate.AcceptsTransitive | codex-runtime/scripts/mcp_conformance/review_regressions.py:1070-1110 | acceptance is transitive |
| ReviewGate.ReadCompactForm | codex-runtime/scripts/mcp_conformance/review_regressions.py:1032-1067 | the compact form of any well-formed results with consistent totals is read back as exactly those results |
| ReviewGate.CompactReread | codex-runtime/scripts/mcp_conformance/review_regressions.py:859-1067 | if compaction succeeds, re-reading its output gives no problem and exactly the same identity-to-boolean map |
| ReviewGate.CompactionSucceeds | codex-runtime/scripts/mcp_conformance/review_regressions.py:1032-1038 | exactly the reports that are read without problems can be compacted |
| ReviewGate.CompactionKeepsVerdict | codex-runtime/scripts/mcp_conformance/review_regressions.py:1032-1110 | the gate cannot tell a report from its compact baseline |
| ReviewGate.CompactionIdempotent | codex-runtime/scripts/mcp_conformance/review_regressions.py:1032-1067 | compacting again gives the same baseline |
| ReviewGate.RatchetAccepts | codex-runtime/scripts/mcp_conformance/review_regressions.py:1070-1110 | in a chain of accepted candidates every later report is accepted against every earlier one |
| ReviewGate.RatchetIsSafe | codex-runtime/scripts/mcp_conformance/review_regressions.py:1070-1110 | such a chain never loses a passing check and never admits a new failure |
| ReviewGate.CompactedChainsRatchet | codex-runtime/scripts/mcp_conformance/review_regressions.py:1032-1110 | the same when baselines are compacted on the way |
| SseStream.MessagesFed | codex-runtime/scripts/mcp_conformance/server.py:1364-1371 | the parser turns the encoded messages into one event each and ends idle, from any idle state and for either line ending |
| SseStream.CommentsFed | codex-runtime/scripts/mcp_conformance/server.py:1349-1359 | any number of comment lines ended by a lone CR leave the parser as it was |
| SseStream.RoundTrip | codex-runtime/scripts/mcp_conformance/server.py:1344-1371 | parsing the encoded bytes by section 9.2.6 of the WHATWG HTML standard yields exactly the payloads, in order, for every profile and every payload list free of CR and LF |
| SseStream.EncodeInjective | codex-runtime/scripts/mcp_conformance/server.py:1344-1371 | two payload lists never encode alike |
| SseStream.FloodExceedsLimit | codex-runtime/scripts/mcp_conformance/server.py:1349-1356 | in the flood profile the comments in front are 4097 lines of 2048 bytes, more than 8 MiB |
| SseStream.EncodedPreamble | codex-runtime/scripts/mcp_conformance/server.py:1349-1362 | what is printed in front of the first message, byte by byte, in each profile |
| SseStream.EncodedLast | codex-runtime/scripts/mcp_conformance/server.py:1349-1371 | each message is printed as one data line and a blank line, ended by line feeds in the plain profile and by carriage returns otherwise |
| SseBreaks.RoundTripExactly | codex-runtime/scripts/mcp_conformance/server.py:1344-1371 | for every profile the parser reads back exactly the payloads if and only if none of them holds a line break |
| FixtureProtocol.ProtocolServer.Handle | codex-runtime/scripts/mcp_conformance/server.py:306-348 | the answer and the connection's new state for every message; `UndispatchedAnswers`, `ModernAnswers`, `DiscoveryAnswers` and `LegacyAnswers` say which answer that is |
| FixtureProtocol.ProtocolServer.HandleNotification | codex-runtime/scripts/mcp_conformance/server.py:350-362 | a notification is never answered and makes a connection ready only when initialize was seen |
| FixtureProtocol.ProtocolServer.HandleLegacy | codex-runtime/scripts/mcp_conformance/server.py:487-572 | the legacy dispatch and its effect on the connection |
| FixtureProtocol.UndispatchedAnswers | codex-runtime/scripts/mcp_conformance/server.py:306-362 | anything but a JSON-RPC 2.0 request with a method gets error -32600 and status 400, parameters that are no object -32602 and 400, and a notification no body and status 202 |
| FixtureProtocol.ModernAnswers | codex-runtime/scripts/mcp_conformance/server.py:364-485 | a modern request gets a result exactly when `_meta` declares capabilities and version 2026-07-28 and the method is one the server has, up to the catalogue's own refusals; initialize gets -32601 and 404, a missing or malformed `_meta` -32602 and 400, another version -32022 and 400, an unknown method -32601 and 404 |
| FixtureProtocol.DiscoveryAnswers | codex-runtime/scripts/mcp_conformance/server.py:414-437 | a discovery is answered under the request's identifier, under null, or under a marked text of it, as the profile says |
| FixtureProtocol.LegacyAnswers | codex-runtime/scripts/mcp_conformance/server.py:487-572 | a legacy request gets a result exactly when it is an initialize with a version, or the connection is ready and the method is one the server has, up to the catalogue's own refusals; otherwise -32602 or -32600 with status 200, or -32601 with 404 |
| FixtureProtocol.OneAnswer | codex-runtime/scripts/mcp_conformance/server.py:306-485 | sections 4.1 and 5 of JSON-RPC 2.0: a well-formed notification is never answered; a well-formed request is answered once, with its own identifier except in exactly the discoveries that the two identifier profiles spoil |
| FixtureProtocol.PhaseStep | codex-runtime/scripts/mcp_conformance/server.py:350-529 | a connection is seen only through an accepted initialize and ready only through a later notifications/initialized, and neither is taken back |
| FixtureSessions.FixtureHttpServer.LegacyState | codex-runtime/scripts/mcp_conformance/server.py:1542-1568 | initialize opens a session, discovery gets a connection of its own, other messages the session of their header or an error; the table changes only for initialize |
| FixtureSessions.FixtureHttpServer.Delete | codex-runtime/scripts/mcp_conformance/server.py:1421-1431 | a deletion removes exactly the named session and reports whether it existed |
| FixtureSessions.FixtureHttpServer.Post | codex-runtime/scripts/mcp_conformance/server.py:1507-1512 | looking up the connection and handling the message, with no other request in flight |
| FixtureSessions.RunKeeps | codex-runtime/scripts/mcp_conformance/server.py:1412-1568 | over every interleaving, a connection's phase is exactly what the answers given on it justify |
| FixtureSessions.HandshakeSafety | codex-runtime/scripts/mcp_conformance/server.py:306-362 | over every interleaving of concurrent requests and deletions, with any session identifiers, a result of a request other than initialize comes after an accepted initialize and a later notifications/initialized on the same session |
| FixtureSessions.EachArrivalAnsweredOnce | codex-runtime/scripts/mcp_conformance/server.py:1507-1540 | every arrival is in flight or answered, never both, and never answered twice |
| FixtureSessions.EachAnswerIsRight | codex-runtime/scripts/mcp_conformance/server.py:1507-1568 | the answer under the ticket of an arrival belongs to its message and is the one known on arrival: a refusal if its session is unknown, otherwise a request's own identifier, nothing for a notification, and a refusal for anything malformed |
| FixtureSessions.UnknownNotificationAnswered | codex-runtime/scripts/mcp_conformance/server.py:1505-1512 | a run in which a notification with an unknown session is answered |
| FixtureSessions.HandshakeServes | codex-runtime/scripts/mcp_conformance/server.py:487-536 | once the handshake is complete on a connection, ping is served there |
| AppServerClient.AppServer.Request | codex-runtime/scripts/mcp_conformance/run_codex_compliance.py:242-276 | one line is sent under a new identifier; messages are consumed in order, each server request answered and each other message recorded, up to the first response to that identifier, the end of the stream, a timeout or the exit of the process; the rest of the inbox is untouched |
| AppServerClient.AppServer.Notify | codex-runtime/scripts/mcp_conformance/run_codex_compliance.py:239-240 | one line without an identifier is sent, unless the process has exited |
| AppServerClient.AppServer.WaitForNotification | codex-runtime/scripts/mcp_conformance/run_codex_compliance.py:278-317 | the first matching recorded event, without consuming anything; otherwise messages are consumed in order up to the first matching one that is not a server request, the end of the stream, a timeout or the exit of the process |
| AppServerClient.AppServer.HandleServerRequest | codex-runtime/scripts/mcp_conformance/run_codex_compliance.py:319-353 | one event recorded and one answer sent, unless the process has exited |
| AppServerClient.MessageKinds | codex-runtime/scripts/mcp_conformance/run_codex_compliance.py:271-276 | which messages are responses to an identifier and which are server requests |
| AppServerClient.HandlingMeaning | codex-runtime/scripts/mcp_conformance/run_codex_compliance.py:319-353 | elicitations alone are accepted, with what the answerer makes of their parameters or a fixed confirmation; every other request is declined, and the answer carries the request's identifier |
| AppServerConversation.ConversationRuns | codex-runtime/scripts/mcp_conformance/run_codex_compliance.py:239-317 | a conversation makes its calls one after the other on the state that the earlier ones left |
| AppServerConversation.ConversationConserves | codex-runtime/scripts/mcp_conformance/run_codex_compliance.py:242-317 | over any calls, the consumed messages are the recorded events and the returned responses shuffled together: each message is in exactly one of them, once, in its order of arrival |
| AppServerConversation.InterleavesCount | codex-runtime/scripts/mcp_conformance/run_codex_compliance.py:242-317 | such a shuffle loses and duplicates nothing |
| AppServerConversation.ConversationSettled | codex-runtime/scripts/mcp_conformance/run_codex_compliance.py:228-353 | over any calls, every server request is answered once, in order, with its own identifier, until the process exits; elicitation parameters are recorded; request identifiers only rise |
| AppServerConversation.ReceivingReturns | codex-runtime/scripts/mcp_conformance/run_codex_compliance.py:255-276 | a request returns a response to its own identifier and files none away as an event |
| AppServerConversation.AwaitingReturns | codex-runtime/scripts/mcp_conformance/run_codex_compliance.py:294-317 | what a wait takes in before it returns or fails matches only if it is a server request |
| AppServerConversation.AwaitingMeaning | codex-runtime/scripts/mcp_conformance/run_codex_compliance.py:291-317 | a wait that finds nothing recorded succeeds exactly when a matching message that is no server request will be delivered and every server request in front of it can be answered |
| AppServerConversation.WaitReturns | codex-runtime/scripts/mcp_conformance/run_codex_compliance.py:278-317 | a successful wait returns the earliest recorded match at or after its index or, with none, reads up to the first delivered match that is no server request |
| AppServerConversation.WaitReturnsEarliest | codex-runtime/scripts/mcp_conformance/run_codex_compliance.py:278-317 | what a wait reads is the earliest matching event at or after its index exactly when the first delivered match from the index on is no server request and no earlier delivered message would have been returned |
| AppServerConversation.WaitFromRecorded | codex-runtime/scripts/mcp_conformance/run_codex_compliance.py:278-317 | for an index among the recorded events the condition is that the first delivered match is no server request |
| AppServerConversation.WaitPassesRequest | codex-runtime/scripts/mcp_conformance/run_codex_compliance.py:305-317 | a concrete wait that passes over a matching server request |
| AppServerConversation.WaitIgnoresLateIndex | codex-runtime/scripts/mcp_conformance/run_codex_compliance.py:278-317 | a concrete wait that returns a message in front of its index |
| BazelManifest.ParseChecksumManifest | codex-runtime/.github/scripts/rusty_v8_module_bazel.py:35-61 | the loop over lines stops at the first faulty line with its complaint, or returns the checksums |
| BazelManifest.ManifestMeaning | codex-runtime/.github/scripts/rusty_v8_module_bazel.py:35-61 | an accepted manifest holds exactly the pairs of words that its lines spell |
| BazelManifest.AcceptMeaning | codex-runtime/.github/scripts/rusty_v8_module_bazel.py:35-61 | a manifest is accepted exactly when every line is blank or spells 64 lower-case hexadecimal digits and a bare file name, no two lines the same file, and some line is not blank |
| BazelManifest.WordsMeaning | codex-runtime/.github/scripts/rusty_v8_module_bazel.py:37-44 | a line splits into two words exactly when these, the whitespace between them and perhaps around them make it up |
| BazelFields.MatchPrefix | codex-runtime/.github/scripts/rusty_v8_module_bazel.py:64-69 | a field closed inside a text whose last line is blank is read alike whatever follows |
| BazelFields.MatchSuffix | codex-runtime/.github/scripts/rusty_v8_module_bazel.py:64-69 | a field behind a line start is read alike whatever precedes |
| BazelPatterns.StringFieldMeaning | codex-runtime/.github/scripts/rusty_v8_module_bazel.py:64-69 | a field is read from the match of its pattern that starts first, the pattern spelled out position by position |
| BazelPatterns.NoStringField | codex-runtime/.github/scripts/rusty_v8_module_bazel.py:64-69 | and is absent when nothing matches |
| PythonText.Whitespace | codex-runtime/.github/scripts/rusty_v8_module_bazel.py:37-39 | the characters that count as whitespace |
| BazelBlock.FieldOfShaText | codex-runtime/.github/scripts/rusty_v8_module_bazel.py:64-69 | in a block with a checksum line the front's field wins, then the line's own, then the back's |
| BazelBlock.UpdatedBlock | codex-runtime/.github/scripts/rusty_v8_module_bazel.py:179-196 | the rewritten block is the old front, one checksum line and the old back, and rewriting fails exactly when neither recogniser matches |
| BazelPatterns.ReplacedMeaning | codex-runtime/.github/scripts/rusty_v8_module_bazel.py:180-186 | the first lower-case checksum field is replaced, from its name to the last line end of the blanks behind it |
| BazelPatterns.InsertedMeaning | codex-runtime/.github/scripts/rusty_v8_module_bazel.py:188-196 | without one, the checksum goes on a line of its own behind the first path field that ends its line, indented like it |
| BazelPatterns.RefusedMeaning | codex-runtime/.github/scripts/rusty_v8_module_bazel.py:192-193 | with neither field the block is refused |
| BazelUpdate.NoNameAcross | codex-runtime/.github/scripts/rusty_v8_module_bazel.py:190-196 | a name can be read across the place of insertion only from the path's closing quote on, so it starts with a comma |
| BazelUpdate.BlockUpdate | codex-runtime/.github/scripts/rusty_v8_module_bazel.py:179-196 | rewriting keeps the path, keeps every name that does not start with a comma, and makes the checker read the written checksum exactly when the block is readable: its first sha256 field is the lower-case one, or none stands above the insertion |
| BazelUpdate.SecondUpdate | codex-runtime/.github/scripts/rusty_v8_module_bazel.py:179-196 | rewriting twice equals rewriting once exactly when the block held a lower-case checksum or no blank line follows the insertion |
| BazelDocument.RenderParse | codex-runtime/.github/scripts/rusty_v8_module_bazel.py:11 | the blocks and the text between them make up the file |
| BazelDocument.ParseRender | codex-runtime/.github/scripts/rusty_v8_module_bazel.py:11 | a well-shaped division is the one that the block pattern finds |
| BazelPatterns.BlockMeaning | codex-runtime/.github/scripts/rusty_v8_module_bazel.py:11 | the first block found is the match that starts first, the pattern spelled out position by position |
| BazelPatterns.NoBlock | codex-runtime/.github/scripts/rusty_v8_module_bazel.py:11 | and there is none when nothing matches |
| BazelPatterns.DivisionMeaning | codex-runtime/.github/scripts/rusty_v8_module_bazel.py:76 | each block found is taken out, and the search goes on behind it |
| BazelDocument.UpdateKeepsShape | codex-runtime/.github/scripts/rusty_v8_module_bazel.py:179-196 | a rewritten block is still one block: its header, its closing line and its last character are kept and no closing line is added |
| BazelEntries.RustyV8HttpFiles | codex-runtime/.github/scripts/rusty_v8_module_bazel.py:72-96 | the entries of the version in file order with their offsets, or the first entry without a path |
| BazelEntries.ModuleEntrySetErrors | codex-runtime/.github/scripts/rusty_v8_module_bazel.py:111-138 | the loops over entries, duplicates, unchecked and unused files produce the specified complaints in order |
| BazelEntries.SetErrorsMeaning | codex-runtime/.github/scripts/rusty_v8_module_bazel.py:111-138 | no complaint exactly when there are entries, no path repeats and the paths are the manifest's files |
| BazelEntries.ModuleChecksumErrors | codex-runtime/.github/scripts/rusty_v8_module_bazel.py:141-157 | the loop over entries produces the specified complaints in order |
| BazelEntries.ChecksumProblemsMeaning | codex-runtime/.github/scripts/rusty_v8_module_bazel.py:141-157 | no complaint exactly when every entry with a checksum in the manifest carries it |
| BazelModule.CheckModuleBazelText | codex-runtime/.github/scripts/rusty_v8_module_bazel.py:166-176 | it accepts, or returns every complaint: about the set of entries first, then about checksums |
| BazelModule.CheckMeaning | codex-runtime/.github/scripts/rusty_v8_module_bazel.py:111-176 | the check accepts exactly when the entries parse, are there, have distinct paths that are the manifest's files, and each carries its checksum |
| BazelModule.UpdateMeaning | codex-runtime/.github/scripts/rusty_v8_module_bazel.py:179-217 | the update returns exactly when the entries fit the manifest and each entry's block can be rewritten |
| BazelModule.SpliceIsWritten | codex-runtime/.github/scripts/rusty_v8_module_bazel.py:208-217 | slicing the text between entries renders the division with exactly the entries' blocks rewritten |
| BazelModule.UpdateModuleBazelText | codex-runtime/.github/scripts/rusty_v8_module_bazel.py:199-217 | the update with its running offset equals rewriting the division block by block, errors included; what becomes of a block is `ReplacedMeaning`, `InsertedMeaning` and `RefusedMeaning` |
| BazelGuarantee.UpdateTouchesOnlyEntries | codex-runtime/.github/scripts/rusty_v8_module_bazel.py:199-217 | read again, an updated file divides into the same text and the same other blocks, with each entry's block rewritten |
| BazelGuarantee.EntriesRewritten | codex-runtime/.github/scripts/rusty_v8_module_bazel.py:199-217 | the entries keep their order, names and paths, and carry the manifest's checksum exactly where the old block was readable |
| BazelGuarantee.UpdateEstablishesCheck | codex-runtime/.github/scripts/rusty_v8_module_bazel.py:166-217 | if the update returns, the check accepts its result exactly when every entry's block was readable |
| BazelGuarantee.ManifestReachesCheck | codex-runtime/.github/scripts/rusty_v8_module_bazel.py:35-217 | a file updated from the lines of a manifest passes the check against them exactly when every entry's block was readable, and then its entries carry exactly the checksums that the lines spell |
| BazelGuarantee.SecondUpdateChangesNothing | codex-runtime/.github/scripts/rusty_v8_module_bazel.py:199-217 | a second update returns, and changes nothing exactly when every entry's block was settled |
| BazelTidy.TidyUpdate | codex-runtime/.github/scripts/rusty_v8_module_bazel.py:166-217 | for blocks without blank lines and with a lower-case first checksum if any, update establishes check and a second update is a no-op |
| BazelExamples.UpperCaseChecksum | codex-runtime/.github/scripts/rusty_v8_module_bazel.py:166-217 | a file with an upper-case checksum whose update returns and fails the check |
| BazelExamples.BlankLineBehindPath | codex-runtime/.github/scripts/rusty_v8_module_bazel.py:179-217 | a file with a blank line behind the path that a second update changes |
| AgentRoles.DiscoverAgentRoles | codex-runtime/codex-rs/agent-roles/src/loader.rs:290-335 | the loop over discovered files, with its warnings |
| AgentRoleLayers.DiscoveredMeaning | codex-runtime/codex-rs/agent-roles/src/loader.rs:290-335 | of the undeclared files that can be read the first one that names a role counts |
| AgentRoles.DeclareAgentRoles | codex-runtime/codex-rs/agent-roles/src/loader.rs:45-72 | the loop over declared roles, with the files they name and its warnings |
| AgentRoleLayers.RoleFileMeaning | codex-runtime/codex-rs/agent-roles/src/loader.rs:219-235 | a role file gives its own name or else the declared one, and its own fields; without a declaration it must carry instructions and a name; and the complaint otherwise |
| AgentRoleLayers.DeclarationMeaning | codex-runtime/codex-rs/agent-roles/src/loader.rs:147-217 | a declaration gives a role exactly when it is well formed and its file, if it names one, can be read; the file's name, description and nicknames win over the declared ones |
| AgentRoleLayers.DeclarationProblem | codex-runtime/codex-rs/agent-roles/src/loader.rs:147-288 | and the complaint otherwise |
| AgentRoles.LoadLayer | codex-runtime/codex-rs/agent-roles/src/loader.rs:34-95 | one layer's own roles, or the directory error that stops the load |
| AgentRoles.MergeAgentRoles | codex-runtime/codex-rs/agent-roles/src/loader.rs:97-113 | the loop that merges a layer into the roles below it |
| AgentRoles.LoadAgentRolesWithoutLayers | codex-runtime/codex-rs/agent-roles/src/loader.rs:125-145 | the strict load, stopped by the first problem |
| AgentRoles.LoadAgentRoles | codex-runtime/codex-rs/agent-roles/src/loader.rs:23-117 | the whole load and the warnings it pushes, in order |
| AgentRoleLayers.DeclaredMeaning | codex-runtime/codex-rs/agent-roles/src/loader.rs:46-72 | of the readable declarations of a layer the first one of a name counts |
| AgentRoleLayers.LayerRolesMeaning | codex-runtime/codex-rs/agent-roles/src/loader.rs:74-95 | a declared role wins over a discovered one of the same name |
| AgentRoleLayers.MergeLayerMeaning | codex-runtime/codex-rs/agent-roles/src/loader.rs:97-113 | merging a layer acts on each name separately |
| AgentRoleLayers.LayeringMeaning | codex-runtime/codex-rs/agent-roles/src/loader.rs:23-117 | a name is loaded exactly when some layer describes it, with a description, and each field comes from the highest layer that sets it at or above the first layer that described the name |
| AgentRoleLayers.LoadingFails | codex-runtime/codex-rs/agent-roles/src/loader.rs:74-83 | loading fails exactly when some layer's directory cannot be read |
| AgentRoleLayers.WithoutLayersMeaning | codex-runtime/codex-rs/agent-roles/src/loader.rs:125-145 | the strict load succeeds exactly when every declaration can be read and describes its role and no name repeats |
| AgentRoleLayers.WithoutLayersRoles | codex-runtime/codex-rs/agent-roles/src/loader.rs:125-145 | it then holds exactly the declared roles |
| AnalyticsBatches.TrackEventRequestBatches | codex-runtime/codex-rs/analytics/src/client.rs:858-879 | the batches concatenate to the events, none is empty, isolated events are alone, no such split has fewer batches, and no other has as few |
| AnalyticsBatches.NoSplitIsBetter | codex-runtime/codex-rs/analytics/src/client.rs:858-879 | the optimality behind it |
| AnalyticsBatches.SendTrackEvents | codex-runtime/codex-rs/analytics/src/client.rs:829-856 | the requests are the best split of what may be sent, which is exactly the events that the authentication allows, in order; under an API key there is at most one request |
| AnalyticsBatches.SendableMeaning | codex-runtime/codex-rs/analytics/src/client.rs:829-852 | under the backend's own authentication every event may be sent, under an API key exactly those that name their plugin, otherwise none, and the order is kept |
| AnalyticsDedupe.AnalyticsEventsQueue.ShouldEnqueueAppUsed | codex-runtime/codex-rs/analytics/src/client.rs:197-213 | the app set after each call, emptied only on a call with a connector |
| AnalyticsDedupe.AnalyticsEventsQueue.ShouldEnqueuePluginUsed | codex-runtime/codex-rs/analytics/src/client.rs:215-236 | the plugin set after each call, emptied before the key is looked at |
| AnalyticsDedupe.NeverTooMany | codex-runtime/codex-rs/analytics/src/client.rs:84 | no run makes the set larger than 4096 keys |
| AnalyticsDedupe.HeldMeaning | codex-runtime/codex-rs/analytics/src/client.rs:197-236 | the set holds exactly the keys accepted since it was last emptied |
| AnalyticsDedupe.RefusedMeaning | codex-runtime/codex-rs/analytics/src/client.rs:197-236 | a call is refused exactly when its key was accepted earlier and the set has not been emptied since |
| AnalyticsDedupe.AcceptancesSeparated | codex-runtime/codex-rs/analytics/src/client.rs:197-236 | two acceptances of one key are separated by the emptying of a set of 4096 distinct keys, each accepted since the emptying before |
| ReleaseVersion.ReadShows | codex-runtime/sdk/python/release_version.py:10-12 | what the accepting pattern matches is a base, an optional numbered pre-release and an optional post-release, spelled out |
| ReleaseVersion.ShownReads | codex-runtime/sdk/python/release_version.py:10-12 | every such spelling is matched, in one way only |
| ReleaseVersion.NormalFormsExactly | codex-runtime/sdk/python/release_version.py:70-86 | the fixed points of normalisation are exactly those spellings |
| ReleaseVersion.NormalizeIdempotent | codex-runtime/sdk/python/release_version.py:70-86 | normalising twice is normalising once |
| ReleaseSpelling.NormalizeMeaning | codex-runtime/sdk/python/release_version.py:70-84 | an input normalises to a version exactly when whitespace and a prefix `v` or `rust-v` wrap its normal form, a named pre-release, a named alpha with a hotfix number, or a beta spelled `-bet-alpha`, each with or without the dot |
| ReleaseSpelling.BaseMeaning | codex-runtime/sdk/python/release_version.py:10-12 | a base is a number, or a number, a dot and a base |
| ReleaseSpelling.TagMeaning | codex-runtime/sdk/python/release_version.py:47-67 | the tag of a version, case by case |
| ReleaseVersion.TagRoundTrip | codex-runtime/sdk/python/release_version.py:47-86 | an accepted version has a tag and the tag normalises to the version's normal form |
| ReleaseVersion.TagsAgree | codex-runtime/sdk/python/release_version.py:47-86 | two accepted versions share a tag exactly when their normal forms agree |
| LintWrapper.ParseWrapperArgs | codex-runtime/tools/argument-comment-lint/wrapper_common.py:53-102 | what the whole argument list sets: lint and cargo arguments, each flag, with a value option claiming the next argument |
| LintFlags.FlagsMeaning | codex-runtime/tools/argument-comment-lint/wrapper_common.py:53-102 | each flag is set exactly when some option gives it, by itself or through the value behind it, and targets are selected exactly when some argument for cargo selects them |
| LintWrapper.BuildFinalArgs | codex-runtime/tools/argument-comment-lint/wrapper_common.py:105-120 | the missing defaults in front, the lint arguments, and the completed cargo arguments behind a separator if there are any |
| LintWrapper.SplitAtSeparator | codex-runtime/tools/argument-comment-lint/wrapper_common.py:53-71 | the user's arguments are split at the first separator and nothing is lost or moved |
| LintWrapper.UserArgsSurvive | codex-runtime/tools/argument-comment-lint/wrapper_common.py:53-120 | parsing the built arguments gives back the user's lint and cargo arguments in order, with exactly the additions in front and behind |
| LintWrapper.NormalForm | codex-runtime/tools/argument-comment-lint/wrapper_common.py:53-120 | parsing and building the built arguments again changes nothing exactly when the manifest path is not the separator or the user gave one |
| LintWrapper.Environment.AppendEnvFlag | codex-runtime/tools/argument-comment-lint/wrapper_common.py:123-129 | one variable changes: the flag is set, appended or already there |
| LintWrapper.Environment.SetDefaultLintEnv | codex-runtime/tools/argument-comment-lint/wrapper_common.py:132-137 | after the defaults the three lint flags are part of one variable, a second has a value, and the others are as before |
| LintWrapper.DefaultsMeaning | codex-runtime/tools/argument-comment-lint/wrapper_common.py:123-137 | the defaults keep every other variable and the flags already set in front, add each lint flag, and setting them twice changes nothing |

## Left out

- The command lines around these cores: `gh`, `aws`, Bazel and Cargo calls, downloads, file access, argument parsing and printing.
- Floating-point rounding in the facility scripts, real time and deadlines.
- FacilityVerify.Verify: data without a distance that the script looks up, where it raises an index error.
- Publication: the shape of CRC64 values beyond their presence, the version pattern of the tag, asset names that need escaping in release.json or its download links, asset names that contain a path separator, and the bound on simultaneous uploads.
- Publication: sizes and digests of downloaded files that disagree with the listing stop a worker; the download itself is not modelled.
- Regression report: a list or an object where the script expects a string raises an exception there and counts as malformed here; arrival numbers are recognised in ASCII digits only.
- Regression and reviewer reports: writing the baseline file and printing the report.
- Event stream: JSON serialisation, whose escaping keeps CR and LF out of payloads. Parsing works on bytes, since the delimiters are ASCII, and no stream starts with a byte order mark.
- Fixture server: the contents of the tool, resource and prompt catalogues, which are a parameter; modern header validation; checks of path, origin, content type and length; the stdio transport.
- FixtureSessions.FixtureHttpServer.Post: states one request at a time; concurrent requests are the state machine beside it, where lookup and handling are separate steps.
- App-server client: starting and closing the process, its stderr, and reading lines into the queue.
- AppServerClient.AppServer.WaitForNotification: a negative index, which Python counts from the end of the events.
- AppServerClient.AppServer.Request: the inbox is fixed in advance, so a message cannot depend on what the client sends; every inbox is covered.
- MODULE.bazel: the list of versions found in the file, and the command that rewrites the file.
- Agent roles: TOML parsing and the normalisation of descriptions and nicknames, which arrive as parsed values or failures; the texts of warnings; the directory walk, which arrives as a sorted list of files or a failure.
- Analytics: the reducer, the queue, the wire format and the plugin measurements; one call under the set's lock is one step.
- Release versions: the restriction of the Python runtime to stable and alpha versions.
- Lint wrapper: locating tools, toolchains and packages, and starting the command.
