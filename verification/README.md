# NAILS, modelled and proved in Dafny

NAILS runs a hidden session on top of a decoy system and afterwards shows that the
session left nothing behind. Around the mounting and rebooting it holds a number of
real algorithms, each with a simple statement of what it is for. This project models
those algorithms and proves the statements, for every input:

- **The mount table.** Reading the kernel's mountinfo through two nested layers of
  escapes, and finding the mount that a path lookup ends in when mounts are stacked on
  and shadow one another (`Texts`, `Mounts`, `Escapes`, `Overlay`, `MountInfo`, `MountWalk`).
- **The shard planner.** Longest-first list scheduling of the end-to-end tests with its
  4/3 - 1/(3m) guarantee, the shard count, timeouts and weight file, the even splitter, and
  the retry loop with its "every test really booted" promise (`Basics`, `Names`, `Loads`,
  `Graham`, `Plan`, `PlanBounds`, `Weights`, `Batches`, `RunBuild`).
- **The device-stack walkers.** A bounded breadth-first walk over sysfs and a recursive
  walk over device-mapper slaves, both on arbitrary graphs (`DeviceStack`, `DmStack`).
- **The verdict.** The decision whether a scan after the session is clean, and the
  normaliser of journal lines (`PathScope`, `Verdict`, `VerdictLaws`, `Journal`).
- **Edit distance** for configuration hints (`EditDistance`).
- **systemd names.** Unit names for paths and udev links for fstab specs, against
  systemd's own rules (`Utf8`, `UnitNames`).

Pure code is modelled by functions. Loops are methods proved equal to a recursive
specification function, and the theorems are lemmas about that function; where the
source shares mutable state across a recursion (`walk_dm_stack`) the model is a class.
`dafny verify dfyconfig.toml` checks everything.

## Where the code and a promise part ways

The model follows the code. Each of these has a lemma at a concrete failing input and one
with the exact condition under which the promise holds.

- `top_mount_at` looks for a root mount that is not the child of a mount at `/`. A root
  that is its own parent fails that test and nothing is ever found. With unique ids and
  unique children the answer is the kernel's for every path if and only if the root is
  not its own parent (`MountWalk.LookupAgreesExactlyWhen`, `MountWalk.SelfParentedRootIsNeverFound`).
  Acyclic parents need not be assumed: unique ids are enough.
- The comment on `walk_dm_stack` says that a node already seen is not revisited, but the
  recursion is unconditional. The walk ends if and only if no chain of device-mapper
  slaves comes back to a node (`DmStack.WalkEndsExactlyWhenAcyclic`, `DmStack.SelfSlaveNeverEnds`).
- An allowlist entry is validated by its trimmed citation and explained by the
  untrimmed one, so a padded citation loses its risk text
  (`VerdictLaws.ExplanationExactlyWhenTrimmed`, `VerdictLaws.PaddedCitationLosesItsExplanation`).
- `durations_from_internal_json` promises that a test with no outcome had no build
  activity. A build whose id nix gives to another build before stopping it is forgotten;
  a test has an outcome if and only if some build of it kept its id
  (`RunBuild.OutcomeExactlyWhen`, `RunBuild.ReusedIdHidesABuild`).
- A regenerated weight file passes `validate`, and survives a second `regen`, if and only
  if every sampled test has a timeout of at least 10 seconds
  (`Weights.RegenIsTidyExactlyWhen`, `Weights.RegenIsStableExactlyWhen`,
  `Weights.ShortTimeoutIsUntidy`).
- A parsed mount table printed and parsed again is the same if and only if no entry's
  last field ends in a carriage return (`MountInfo.ReparseIsStableExactlyWhen`,
  `MountInfo.ReturnIsLostOnReparse`).
- The letters that mask a run in a journal line (`X`, `N`) are not set apart from the same
  letters in the text (`Journal.MaskLetterCollides`). Two lines collapse if and only if, token
  by token, they differ in nothing but the digits of identifiers and numbers, or spell out a
  mask letter where the other has what it masks (`Journal.CollapseExactlyWhen`).
- `run_build` documents status 1 for a test that did not boot. When nix failed with another
  status, no test is failed and no test that booted passed in a retry, nix's own status is
  returned instead (`RunBuild.NotBootedGivesOneExactlyWhen`, `RunBuild.NotBootedKeepsNixStatus`).
  It is never zero (`RunBuild.ServedPassFails`).
- `closest` is documented to catch swapped characters. One adjacent swap costs two edits, so
  it is caught if and only if the name has at least six characters
  (`EditDistance.SwapGetsHintExactlyWhen`, `EditDistance.ShortSwapGetsNoHint`).

- `path_covers` is documented as equality or an ancestor directory. A pattern with a slash at
  the end does not cover the same path without one; otherwise coverage is exactly that the
  parts of the one are the first parts of the other (`PathScope.CoversExactlyWhen`).

## Model

| member | source | states |
|---|---|---|
| `Basics.RoundHalves` | ci/e2e/plan.py:298-301 | rounding is to a nearest whole number, and a tie goes to the even one |
| `Basics.MedianAtLeast` | ci/e2e/plan.py:111-112 | the rounded median is no less than any lower bound of the values |
| `Basics.MedianIgnoresOrder` | ci/e2e/plan.py:111-112 | the median does not depend on the order in which the values are met |
| `Basics.MedianIsMiddle` | ci/e2e/plan.py:111-112 | the median is the rounded half-way point of the lower and the upper middle value, which have fewer than half of the values below and above them |
| `Loads.LoadsAddUp` | ci/e2e/plan.py:246-268 | over any assignment the loads of the shards add up to the total weight |
| `Loads.LoadIgnoresOrder` | ci/e2e/plan.py:261-268 | a shard's load is the same whatever order the tests are placed in |
| `Loads.PickedIgnoresOrder` | ci/e2e/plan.py:261-270 | a shard's members are the same multiset whatever order the tests are placed in |
| `Graham.ListSchedulingBound` | ci/e2e/plan.py:262-268 | greedy placement in any order: m times a load is at most the total plus m - 1 times the longest test |
| `Graham.LargeJobsFit` | ci/e2e/plan.py:261-268 | heaviest first, if the last test is longer than a third of another assignment's heaviest shard, the shard it lands on is no heavier than that one |
| `Graham.LongestFirstBound` | ci/e2e/plan.py:261-268 | heaviest first: 3m times any load is at most 4m - 1 times the heaviest shard of every other assignment |
| `Graham.LongestFirstBoundIsTight` | ci/e2e/plan.py:261-268 | for every number of shards m, the weights 2m-1, 2m-1, ..., m+1, m+1, m, m, m meet the factor with equality |
| `Plan.MedianOfValues` | ci/e2e/plan.py:256-256 | the default weight is the median of the weights, whatever the iteration order of the file |
| `Plan.DefaultIsMiddle` | ci/e2e/plan.py:256-259 | the default is the rounded half-way point of the weights of two tests in the middle of the file |
| `Plan.OrderUpToSorts` | ci/e2e/plan.py:261-261 | the placing order is a permutation of the tests, heaviest first and the earlier test first on a tie |
| `Plan.Lightest` | ci/e2e/plan.py:263-266 | the shard chosen precedes every other by load, then count, then index |
| `Plan.DealGreedy` | ci/e2e/plan.py:262-268 | every test of the deal goes on a shard that was lightest at that moment |
| `Plan.DealRoundRobin` | ci/e2e/plan.py:253-254 | without weights, shard s receives, in order, exactly the tests whose index is s modulo the count |
| `Plan.DealLightest` | ci/e2e/plan.py:262-268 | the in-place placing loop ends with the members and loads of the specification's greedy deal |
| `Plan.ShardInOrder` | ci/e2e/plan.py:269-272 | sorting a shard's indexes gives its tests in their original order |
| `Plan.LoadOfAssignment` | ci/e2e/plan.py:262-268 | the load gathered in placing order is the weight of the tests assigned to the shard |
| `Plan.Allocate` | ci/e2e/plan.py:239-272 | fails exactly for fewer than one shard; else the shards and loads are those of one assignment, and each load is the sum over the names in the shard of their weights in the file, or of the default for a name without one |
| `PlanBounds.EveryTestOnce` | ci/e2e/plan.py:239-272 | the shards together hold every test exactly as often as the input, and the loads add up to the total weight |
| `PlanBounds.AllocateWithinFourThirds` | ci/e2e/plan.py:239-272 | 3m times any shard's load is at most 4m - 1 times the heaviest shard of every assignment to m shards |
| `PlanBounds.AllocateNearOptimal` | ci/e2e/plan.py:239-272 | the same bound between what the names in a shard weigh by the file and the heaviest shard of any rival assignment |
| `PlanBounds.AllocateFollowsRule` | ci/e2e/plan.py:239-272 | tests are placed heaviest first, the earlier first among equals, each on the shard that is first by load, then number of tests, then index |
| `PlanBounds.UnweightedIsRoundRobin` | ci/e2e/plan.py:251-254 | without weights, test i goes to shard i modulo the count |
| `PlanBounds.AllocateNearAverage` | ci/e2e/plan.py:239-272 | m times any load is at most the total plus m - 1 times the longest test |
| `PlanBounds.EmptyShardsFillFirst` | ci/e2e/plan.py:263-266 | while a shard is empty no shard has two tests |
| `PlanBounds.NoShardEmpty` | ci/e2e/plan.py:281-283 | with no more shards than tests no shard is empty, with or without weights |
| `PlanBounds.ShardCount` | ci/e2e/plan.py:275-295 | fails exactly for a limit below one; else it is the fewest shards whose target time holds the total, capped by the limit and the number of tests |
| `PlanBounds.PlannedShards` | ci/e2e/plan.py:281-295 | with the chosen count no shard is empty, and no load exceeds the target by more than the longest test unless the cap bound |
| `PlanBounds.PlanMatrix` | ci/e2e/__main__.py:116-143 | fails exactly for a limit below one and is never empty; with tests, it has a job for every shard of the assignment to the chosen count, none dropped as empty |
| `PlanBounds.PlannedJobs` | ci/e2e/__main__.py:116-143 | every test is in exactly one job, no job is empty, each has time for one and a half times its load, and the load bound holds unless the cap bound |
| `PlanBounds.LoadNearTarget` | ci/e2e/plan.py:275-295 | if the cap did not bind, no load exceeds the target time by more than the longest test |
| `PlanBounds.ShardTimeoutMinutes` | ci/e2e/plan.py:298-301 | a timeout is never below the least one |
| `PlanBounds.TimeoutCoversLoad` | ci/e2e/plan.py:298-301 | the minutes beyond setup cover one and a half times the load: half-even rounding down never survives the minute ceiling |
| `PlanBounds.TimeoutMonotone` | ci/e2e/plan.py:298-301 | a heavier shard never gets less time |
| `PlanBounds.TimeoutIsLeast` | ci/e2e/plan.py:298-301 | one minute less would not cover the load, unless the least timeout applies |
| `Names.SortsUnique` | ci/e2e/plan.py:198-198 | the names of a set have only one ascending order |
| `Names.BeforeExactlyWhen` | ci/e2e/plan.py:198-198 | names are ordered by the first character in which they differ, and a prefix comes first |
| `Names.SortNames` | ci/e2e/plan.py:198-198 | names are met in that order |
| `Weights.CheckWeights` | ci/e2e/plan.py:198-226 | the errors and issues of the weights in sorted order, each once |
| `Weights.Validate` | ci/e2e/plan.py:196-229 | the whole report in its order; the errors are exactly the unusable weights, the issues exactly the untidy ones and the tests without one |
| `Weights.ErrorsExactly` | ci/e2e/plan.py:199-216 | an error is a weight that is no positive whole number, or one that reaches the timeout |
| `Weights.IssuesExactly` | ci/e2e/plan.py:206-228 | an issue is a weight of no leaf test, one over half the timeout and below it, one under five seconds, or a leaf test without one |
| `Weights.Regen` | ci/e2e/plan.py:322-355 | each leaf test has its capped median, or its old weight if usable, and nothing else has a weight; all the notes in their order |
| `Weights.RegenExactly` | ci/e2e/plan.py:322-355 | a sampled test gets its median, or the greatest weight that fits its timeout twice; any other keeps a weight of at least five seconds that fits twice |
| `Weights.NoteExactlyWhen` | ci/e2e/plan.py:322-355 | exactly which notes there are, kind by kind |
| `Weights.NotedExactlyWhen` | ci/e2e/plan.py:322-355 | a test is noted if and only if its weight is neither what was measured nor what it was |
| `Weights.NewWeightInRange` | ci/e2e/plan.py:232-236 | a new weight is in the accepted range exactly when it is an old one or the timeout is at least 10 |
| `Weights.RegenIsTidyExactlyWhen` | ci/e2e/plan.py:322-355 | checking regenerated weights finds nothing but missing ones if and only if every sampled test's timeout is at least 10 |
| `Weights.RegenIsStableExactlyWhen` | ci/e2e/plan.py:322-355 | regenerating again without samples changes nothing under exactly the same condition |
| `Weights.ShortTimeoutIsUntidy` | ci/e2e/plan.py:332-341 | five measured seconds under a timeout of eight become four, which the check calls too short and the next run drops |
| `Batches.BatchCount` | ci/e2e/evaluate.py:83-85 | the least number of batches that gives every worker one, as far as there are tests, and no batch more than the maximum |
| `Batches.CutEvenly` | ci/e2e/evaluate.py:86-95 | the batches concatenate to the input and their sizes are the even ones |
| `Batches.CutBySize` | ci/e2e/evaluate.py:88-95 | the batches concatenate to the input, all but the last of the given size |
| `Batches.Split` | ci/e2e/evaluate.py:69-95 | fails exactly for a bad argument; concatenates back to the input; without a size, 1 to 8 tests a batch and sizes within one of each other |
| `RunBuild.FailUnfinished` | ci/e2e/run.py:143-144 | every build still under way fails its test unless the test already has an outcome |
| `RunBuild.DurationsFromLog` | ci/e2e/run.py:102-145 | the in-place pass over the log ends with the outcomes of the specification |
| `RunBuild.OutcomeExactlyWhen` | ci/e2e/run.py:102-145 | a test has an outcome if and only if the log starts a build of it whose id is not given away before it stops |
| `RunBuild.OutcomeMeansActivity` | ci/e2e/run.py:107-113 | a test with an outcome had a build activity in that very log |
| `RunBuild.StoppedExactly` | ci/e2e/run.py:137-142 | a test with a build that stopped is a pass as long as the one that stopped last, from its start line to its stop line |
| `RunBuild.OutcomeExactly` | ci/e2e/run.py:107-144 | an outcome is a pass if and only if a build of the test stopped, with its seconds, and none otherwise |
| `RunBuild.OnlySelectedCount` | ci/e2e/run.py:377-382 | an attempt says something exactly of the tests it selects whose derivation's build its log starts and keeps |
| `RunBuild.ReusedIdHidesABuild` | ci/e2e/run.py:132-136 | two builds under one id: the first leaves no outcome |
| `RunBuild.Retry` | ci/e2e/run.py:374-390 | one retry passes exactly the selected tests whose output exists, and adds to the served those without a build in it |
| `RunBuild.Run` | ci/e2e/run.py:328-422 | status and outcomes are those of the run specified attempt by attempt; the loop's early stop changes nothing |
| `RunBuild.ReportedFailed` | ci/e2e/run.py:364-369 | a test that is still failed is reported as a failure with the seconds of the first attempt, whatever the log said |
| `RunBuild.ReportedFlaky` | ci/e2e/run.py:384-387 | a test that passed in a retry is reported as a flaky pass with the seconds of that very retry |
| `RunBuild.ReportedFirst` | ci/e2e/run.py:362-373 | any other test is reported if and only if the first attempt built it: as a pass if and only if a build of it stopped, with its seconds |
| `RunBuild.ReportedNotBooted` | ci/e2e/run.py:392-396 | a test that did not boot is reported as that |
| `RunBuild.StatusExactly` | ci/e2e/run.py:417-422 | 1 for a test that is still failed; else, with every test booted, 0 after a flaky pass and nix's status otherwise |
| `RunBuild.StaysDone` | ci/e2e/run.py:374-376 | once nothing is failed, further attempts leave the state alone |
| `RunBuild.EveryTestHasAStanding` | ci/e2e/run.py:358-390 | after every run each test is failed, or served, or passed and booted in one identified attempt |
| `RunBuild.ZeroMeansBooted` | ci/e2e/run.py:358-422 | with boots required, status 0 means no test is failed and each was built in the very attempt that passed it |
| `RunBuild.ServedPassFails` | ci/e2e/run.py:390-422 | with boots required, one served pass in any attempt makes the status non-zero |
| `RunBuild.FlakyExactlyWhen` | ci/e2e/run.py:384-390 | an outcome is flaky if and only if the test passed in one of the retries |
| `RunBuild.NotBootedGivesOneExactlyWhen` | ci/e2e/run.py:352-422 | with a test that did not boot, the status is 1 if and only if nix returned 0 or 1, a test is failed, or one that booted passed in a retry |
| `RunBuild.NotBootedKeepsNixStatus` | ci/e2e/run.py:418-422 | a build that failed with 7 and a served test: the status is 7 |
| `RunBuild.ZeroExactlyWhen` | ci/e2e/run.py:392-422 | exactly when the status is 0, in terms of the failed, the served, nix's status and flaky passes |
| `EditDistance.Levenshtein` | nails-base/src/config/suggest.rs:87-103 | the two-row program returns the length of a shortest script of insertions, deletions and substitutions |
| `EditDistance.DistanceIsEditDistance` | nails-base/src/config/suggest.rs:87-103 | the recurrence is the minimum over all edit scripts |
| `EditDistance.ScriptAtLeast` | nails-base/src/config/suggest.rs:87-103 | no script that turns one string into the other is shorter |
| `EditDistance.ShortestScript` | nails-base/src/config/suggest.rs:87-103 | a script of exactly that length exists |
| `EditDistance.DistanceZero` | nails-base/src/config/suggest.rs:87-103 | zero if and only if the strings are equal |
| `EditDistance.DistanceSymmetric` | nails-base/src/config/suggest.rs:87-103 | the distance is symmetric |
| `EditDistance.Triangle` | nails-base/src/config/suggest.rs:87-103 | the triangle inequality |
| `EditDistance.DistanceBounds` | nails-base/src/config/suggest.rs:87-103 | between the difference of the lengths and the longer length |
| `EditDistance.FirstLeast` | nails-base/src/config/suggest.rs:77-84 | the first of the smallest scores, or none if and only if nothing scored |
| `EditDistance.QualifiesExactlyWhen` | nails-base/src/config/suggest.rs:72-82 | a candidate is near enough if and only if it is one edit away or three times the distance fits into either name |
| `EditDistance.ClosestIsFirstNearest` | nails-base/src/config/suggest.rs:70-85 | the first candidate of least distance among those within a third, or none if and only if none qualifies |
| `EditDistance.TypoGetsHint` | nails-base/src/config/suggest.rs:70-85 | a name one edit away from a candidate always gets a hint, at distance at most one |
| `EditDistance.SwapIsTwoEdits` | nails-base/src/config/suggest.rs:87-103 | two different neighbours in the wrong order are exactly two edits away |
| `EditDistance.SwapGetsHintExactlyWhen` | nails-base/src/config/suggest.rs:72-84 | an adjacent swap of a key is caught if and only if the name has at least six characters |
| `EditDistance.LongSwapGetsHint` | nails-base/src/config/suggest.rs:72-84 | among any candidates, such a swap gets a hint at most two edits away |
| `EditDistance.ShortSwapGetsNoHint` | nails-base/src/config/suggest.rs:72-84 | "ab" gets no hint for the key "ba" |
| `EditDistance.KnownKeyIsItsOwnHint` | nails-base/src/config/suggest.rs:76-85 | a known name is its own hint |
| `Texts.SplitJoin` | nails-teardown/src/mountinfo.rs:153-155 | splitting on a separator undoes joining pieces free of it |
| `Escapes.DecodeEscapes` | nails-teardown/src/mountinfo.rs:82-111 | the index loop decodes as the recursive specification |
| `Escapes.DecodeOctal` | nails-teardown/src/mountinfo.rs:229-256 | the index loop undoes octal escapes only, keeping other pairs, as the specification |
| `Escapes.DecodeOverlay` | nails-teardown/src/mountinfo.rs:260-274 | the loop drops overlay escapes as the specification |
| `Escapes.CutRaw` | nails-teardown/src/mountinfo.rs:117-139 | the flag-driven splitter cuts at exactly the unescaped delimiters of the specification |
| `Escapes.EscapeOverlayPath` | nails-teardown/src/mountinfo.rs:283-296 | refuses exactly the paths with a newline and escapes the others |
| `Escapes.Octal` | fuzz/src/kernel.rs:16-28 | an octal escape is four characters that decode to the character |
| `Escapes.UnescapeKernel` | nails-teardown/src/mountinfo.rs:82-111 | decoding inverts the kernel's escaping of any set of characters with the backslash |
| `Escapes.UnescapeOctalKernel` | nails-teardown/src/mountinfo.rs:229-256 | so does the octal-only decoder |
| `Escapes.UnescapeOverlayEscape` | nails-teardown/src/mountinfo.rs:258-274 | dropping overlay escapes inverts adding them |
| `Escapes.UnescapeOctalLeaves` | nails-teardown/src/mountinfo.rs:224-228 | a text without octal escapes passes the octal decoder unchanged |
| `Escapes.UnescapePairs` | nails-teardown/src/mountinfo.rs:78-111 | the full decoder undoes backslashes before anything but octal digits as well |
| `Escapes.OctalEscape` | nails-teardown/src/mountinfo.rs:88-96 | three octal digits that are a byte are that byte |
| `Escapes.OddEscape` | nails-teardown/src/mountinfo.rs:88-101 | three octal digits that are no byte, or anything else after a backslash, are not an octal escape |
| `Escapes.OpenEscape` | nails-teardown/src/mountinfo.rs:97-104 | a backslash at the end stays |
| `Escapes.SplitRawParts` | nails-teardown/src/mountinfo.rs:113-139 | no piece of any text holds an unescaped delimiter |
| `Escapes.SplitRawJoins` | nails-teardown/src/mountinfo.rs:113-139 | the pieces of any text join to it |
| `Escapes.SplitRawJoin` | nails-teardown/src/mountinfo.rs:113-139 | splitting undoes joining pieces whose delimiters are all escaped |
| `Overlay.ReadLayers` | nails-teardown/src/mountinfo.rs:210-216 | the layers of a lowerdir value, decoded in the order octal, split, overlay |
| `Overlay.ParseOverlayOpts` | nails-teardown/src/mountinfo.rs:205-222 | the loop over the options gives the options of the specification, the last of each key winning |
| `Overlay.ValueDecodes` | nails-teardown/src/mountinfo.rs:191-204 | undoing the kernel's layer gives the overlay's layer back in all three forms, and no form shows a bare comma |
| `Overlay.LayersRoundTrip` | nails-teardown/src/mountinfo.rs:191-222 | every list of non-empty layers and any upper and work directory come back exactly, from the string given to mount(2), from what the kernel shows of it, and from what it shows of the fsconfig form, among any unrelated options |
| `Overlay.LastLayersWin` | nails-teardown/src/mountinfo.rs:208-214 | the last lowerdir counts, whatever options stand before it |
| `Overlay.LastUpperWins` | nails-teardown/src/mountinfo.rs:215-216 | so does the last upperdir |
| `Overlay.LastWorkWins` | nails-teardown/src/mountinfo.rs:217-219 | and the last workdir |
| `Overlay.NothingToTake` | nails-teardown/src/mountinfo.rs:205-222 | other options leave no layers |
| `Overlay.EmptyLayersGo` | nails-teardown/src/mountinfo.rs:210-214 | empty layers are left out |
| `Mounts.ComponentsOfNames` | nails-teardown/src/mountinfo.rs:333-350 | a path of names below the root has exactly those names as its components |
| `Mounts.ComponentsSkip` | nails-teardown/src/mountinfo.rs:333-350 | an empty part or a dot changes nothing |
| `Mounts.ComponentsUp` | nails-teardown/src/mountinfo.rs:333-350 | two dots are a step up, wherever they stand |
| `Mounts.RelativeComponents` | nails-teardown/src/mountinfo.rs:333-350 | a relative path has only its names, after a dot if it begins with one |
| `MountWalk.Climb` | nails-teardown/src/mountinfo.rs:320-330 | the bounded loop climbs as the specification with the table's length as bound |
| `MountWalk.TopMountAt` | nails-teardown/src/mountinfo.rs:308-338 | on any table at all it ends and answers only with an entry at the target |
| `MountWalk.TowerFitsTable` | nails-teardown/src/mountinfo.rs:320-321 | with unique ids no tower of stacked mounts is taller than the table, so the bound never cuts a climb short |
| `MountWalk.BoundedWalkIsKernelWalk` | nails-teardown/src/mountinfo.rs:316-336 | with unique ids, every stop of the bounded walk is where an unbounded climb ends |
| `MountWalk.StartIsNamespaceRoot` | nails-teardown/src/mountinfo.rs:310-315 | the walk starts at the bottom mount of the namespace if that is not its own parent, else nowhere |
| `MountWalk.KernelLookupUnique` | nails-teardown/src/mountinfo.rs:298-307 | with at most one child per mount and point the kernel's walk has one end |
| `MountWalk.LookupIsKernelLookup` | nails-teardown/src/mountinfo.rs:298-338 | the answer is e if and only if the kernel's walk ends at e and e sits at the target |
| `MountWalk.LookupAgreesExactlyWhen` | nails-teardown/src/mountinfo.rs:310-315 | that holds for all paths if and only if the root is not its own parent |
| `MountWalk.SelfParentedRootIsNeverFound` | nails-teardown/src/mountinfo.rs:310-315 | a root that is its own parent: nothing is found although the kernel finds the root |
| `MountInfo.ParsePrinted` | fuzz/src/kernel.rs:44-57 | every 32-bit id is read back from its decimal text, which is never a bare dash |
| `MountInfo.ParseI32Exactly` | nails-teardown/src/mountinfo.rs:161-162 | a number is read if and only if it is digits with at most one sign and fits 32 bits |
| `MountInfo.EntryExactlyWhen` | nails-teardown/src/mountinfo.rs:153-175 | a line is an entry if and only if it begins with two numbers and has six fields before the first separator and three after it; each field is its token |
| `MountInfo.LineRoundTrip` | nails-teardown/src/mountinfo.rs:153-175 | parsing inverts printing for every printable entry and any optional fields, with empty sources and any characters in the paths |
| `MountInfo.IndentedLineParses` | nails-teardown/src/mountinfo.rs:154-154 | whitespace in front of a line changes nothing |
| `MountInfo.PrintedTableParses` | nails-teardown/src/mountinfo.rs:149-151 | a printed table parses to itself less the carriage returns that end a line |
| `MountInfo.TableRoundTripExactlyWhen` | nails-teardown/src/mountinfo.rs:149-151 | it parses to itself if and only if no last field ends in a carriage return |
| `MountInfo.ParsedIsPrintable` | nails-teardown/src/mountinfo.rs:153-175 | whatever line parses, its entry is one that prints on one line |
| `MountInfo.ReparseIsStableExactlyWhen` | fuzz/fuzz_targets/mountinfo.rs:41-60 | entries of any parsed text, printed and parsed again, are the same if and only if no last field ends in a carriage return |
| `MountInfo.ReturnIsLostOnReparse` | fuzz/fuzz_targets/mountinfo.rs:43-49 | an entry whose options end in a carriage return is read from a last line and does not come back once printed |
| `MountInfo.RootIsHiddenOverlay` | nails-teardown/src/mountinfo.rs:342-351 | the upper of the overlay on top of `/`, if it lies under the hidden root |
| `MountInfo.SessionRootIsRecognised` | nails-teardown/src/mountinfo.rs:340-351 | when the kernel's lookup of `/` ends in an overlay with these layers, the answer is its upper directory if and only if it lies under the hidden root |
| `MountInfo.UpperIsRecognisedExactlyWhen` | nails-teardown/src/mountinfo.rs:340-351 | in names: an upper directory is recognised if and only if its path begins with the names of the hidden root |
| `MountInfo.OtherRootIsNotRecognised` | nails-teardown/src/mountinfo.rs:342-346 | any other filesystem on top of `/` is not |
| `DeviceStack.FindBelowLoop` | nails-base/src/blockdev/walk.rs:245-261 | the device under a loop does not depend on the cached mount table, which is loaded only for a backing file |
| `DeviceStack.MountOverExactlyWhen` | nails-base/src/blockdev/walk.rs:273-273 | the mount a file lies on is that of the longest prefix of its path a lookup finds one at |
| `DeviceStack.SitsOnExactly` | nails-base/src/blockdev/walk.rs:45-60 | the device of a mount is the one with its number; if none has, the one its source names under /dev or as a device-mapper name |
| `DeviceStack.HoldsExactly` | nails-base/src/blockdev/walk.rs:263-275 | the device that holds a file is the one with the file's number; if none has, that of the mount it lies on |
| `DeviceStack.EdgeExactlyWhen` | nails-base/src/blockdev/walk.rs:31-38 | the walk goes on to exactly a device's slaves and what it is bound to as a loop device, as far as loops are followed |
| `DeviceStack.ChildrenExactly` | nails-base/src/blockdev/walk.rs:32-38 | slaves are queued as they are listed, and then what the device is bound to |
| `DeviceStack.BackingFileIsFollowed` | nails-base/src/blockdev/walk.rs:253-275 | a loop device over a file on a filesystem with an anonymous number leads to the device its mount has as source |
| `DeviceStack.SlavesByName` | nails-base/src/blockdev/walk.rs:33-33 | a layer lists its slaves by their names |
| `DeviceStack.SkipKeepsWalking` | nails-base/src/blockdev/walk.rs:26-31 | skipping a device already seen keeps the breadth-first invariant |
| `DeviceStack.VisitKeepsWalking` | nails-base/src/blockdev/walk.rs:31-40 | visiting a device and queueing what is below it keeps the invariant |
| `DeviceStack.Frontier` | nails-base/src/blockdev/walk.rs:19-42 | what is n steps away has been visited within n, or the head of the queue is at most n away |
| `DeviceStack.WalkEnds` | nails-base/src/blockdev/walk.rs:19-42 | a queue run empty, or the bound reached, leaves the devices nearest to the top |
| `DeviceStack.Stack` | nails-base/src/blockdev/walk.rs:19-42 | ends on any graph with 1 to 16 distinct canonical devices from the top on, each at its shortest distance in ascending order, none left out that is nearer, and all reachable ones if fewer than 16; in exactly the order a first-in first-out queue yields |
| `DeviceStack.FollowingFurther` | nails-base/src/blockdev/mod.rs:162-174 | what is reachable in n steps stays so when loops are followed further |
| `DeviceStack.FollowingFurtherFindsMore` | nails-base/src/blockdev/mod.rs:162-174 | below the bound, following loops further lists every device again, no further away |
| `DmStack.BackendChain.constructor` | nails-platform/src/backend_lock.rs:80-85 | a chain starts with no names and no loop devices |
| `DmStack.BackendChain.WalkDmStack` | nails-platform/src/backend_lock.rs:139-166 | the recursion appends to the shared chain exactly what its depth-first trace records |
| `DmStack.BackendChain.NoteName` | nails-platform/src/backend_lock.rs:142-147 | a node's name is appended once, and never if empty |
| `DmStack.BackendChain.WalkSlave` | nails-platform/src/backend_lock.rs:153-164 | one slave appends exactly the events of its own trace |
| `DmStack.WalkEndsExactlyWhenAcyclic` | nails-platform/src/backend_lock.rs:135-158 | the recursion ends if and only if no chain of device-mapper slaves repeats a node |
| `DmStack.SelfSlaveNeverEnds` | nails-platform/src/backend_lock.rs:135-158 | a device listed under its own slaves is walked without end |
| `DmStack.VisitsReachable` | nails-platform/src/backend_lock.rs:139-166 | the nodes visited are exactly those reachable through device-mapper slaves |
| `DmStack.LoopsSeen` | nails-platform/src/backend_lock.rs:159-164 | the loops recorded are exactly the loop slaves of visited nodes |
| `DmStack.ChainIsFirstVisits` | nails-platform/src/backend_lock.rs:140-164 | names and loops are listed without duplicates in the order of first visit |
| `DmStack.ChainIsReachableNames` | nails-platform/src/backend_lock.rs:139-166 | a name is listed if and only if it is the non-empty name of a reachable node |
| `DmStack.NameIsListedExactlyWhen` | nails-platform/src/backend_lock.rs:142-147 | a name is listed if and only if it is the trimmed, non-empty content of a reachable node's name file |
| `DmStack.DeviceNamesExactly` | nails-platform/src/backend_lock.rs:117-131 | a device-mapper node is `dm-` and a number, a loop device `loop` and a number |
| `DmStack.ChainIsReachableLoops` | nails-platform/src/backend_lock.rs:139-166 | a loop device is listed if and only if it is a slave of a reachable node |
| `DmStack.LoopIsListedExactlyWhen` | nails-platform/src/backend_lock.rs:153-164 | `/dev/loop` and a number is listed if and only if a reachable node has it among its slaves |
| `PathScope.UnderTransitive` | nails-oracle/src/verdict.rs:196-205 | lying under a directory is transitive, with trailing slashes dropped in between |
| `PathScope.PathCoversTransitive` | nails-oracle/src/verdict.rs:196-205 | path coverage is transitive |
| `PathScope.CoveredSegments` | nails-oracle/src/verdict.rs:196-205 | the segments of a covering path are a prefix of those of the covered one |
| `PathScope.CoveredIsSpecific` | nails-oracle/src/verdict.rs:239-265 | what a path that passes the breadth guard covers has two segments, three below a system root |
| `PathScope.CoversExactlyWhen` | nails-oracle/src/verdict.rs:193-205 | a path covers another if and only if its parts are the first of the other's, trailing slashes accounted for |
| `PathScope.NarrowExactlyWhen` | nails-oracle/src/verdict.rs:239-265 | a path passes the breadth guard if and only if it has no wildcard and two parts, three below a system root |
| `PathScope.WordsAreNarrow` | nails-oracle/src/verdict.rs:240-253 | a word that is no path passes if and only if it is not empty and has no wildcard |
| `Texts.TrimPadded` | nails-oracle/src/verdict.rs:283-283 | trimming takes off the whitespace on both sides and nothing else |
| `Verdict.ValidateAllowlist` | nails-oracle/src/verdict.rs:334-351 | the loop keeps the valid entries and reports the others, each in order |
| `Verdict.ComputeResidue` | nails-oracle/src/verdict.rs:355-369 | the residue is what is in neither earlier scan, and candidate = noise + residue |
| `Verdict.ValidateSelfChecks` | nails-oracle/src/verdict.rs:404-435 | the loop keeps the valid controls and canary and reports the others |
| `Verdict.FirstCovering` | nails-oracle/src/verdict.rs:456-480 | a covering entry of the valid ones, or none if and only if none covers |
| `Verdict.PartitionResidue` | nails-oracle/src/verdict.rs:462-486 | residue = self checks + explained + unexplained, each part as specified |
| `Verdict.CheckControls` | nails-oracle/src/verdict.rs:508-529 | blind if and only if some valid control was not detected |
| `Verdict.Judge` | nails-oracle/src/verdict.rs:560-607 | clean if and only if nothing failed; both count equations; every field of the verdict |
| `VerdictLaws.FailureExactlyWhen` | nails-oracle/src/verdict.rs:508-607 | each failure is reported if and only if the run deserves it, in terms of the scans and the policy alone: a canary or control is missing exactly when it is valid and no finding of its tool has its exact path and value |
| `VerdictLaws.EntryExactly` | nails-oracle/src/verdict.rs:282-324 | an entry is valid if and only if it is cited, narrow, names a value if it is a feature, and its citation is one that vouches; and when it vouches for what lies below |
| `VerdictLaws.VouchesExactly` | nails-oracle/src/verdict.rs:454-460 | a valid entry covers a finding if and only if it is at its path, or below where it vouches for that, with the value named |
| `VerdictLaws.SelfCheckExactly` | nails-oracle/src/verdict.rs:388-400 | a planted check is valid if and only if it is narrow and names a value |
| `VerdictLaws.PlantedExactly` | nails-oracle/src/verdict.rs:437-452 | a finding is a planted check if and only if tool, path and value are exactly those of a narrow one |
| `VerdictLaws.WithinChannelIsExplained` | nails-oracle/src/verdict.rs:313-324 | every finding at or below a path within a cited channel is explained |
| `VerdictLaws.ExplainedExactly` | nails-oracle/src/verdict.rs:462-493 | a finding is explained if and only if it is new, not planted and vouched for, by the first entry that does |
| `VerdictLaws.CountsAreSizes` | nails-oracle/src/verdict.rs:355-369 | the counts are the sizes of the set differences |
| `VerdictLaws.UnexplainedExactlyWhen` | nails-oracle/src/verdict.rs:462-486 | nothing is unexplained if and only if every finding is accounted for, stated without the loops |
| `VerdictLaws.CleanExactlyWhen` | nails-oracle/src/verdict.rs:560-607 | clean if and only if the policy is valid, the scan sees what was planted and every finding is accounted for |
| `VerdictLaws.CleanMeansAccounted` | nails-oracle/src/verdict.rs:560-607 | in a clean run each new finding is specific, and is a planted path and value exactly or covered by a valid entry and within its citation |
| `VerdictLaws.PlantedIsExact` | nails-oracle/src/verdict.rs:392-455 | a planted finding has a planted check's exact path and non-empty value |
| `VerdictLaws.VouchedIsWithin` | nails-oracle/src/verdict.rs:282-324 | a finding covered as a subtree lies under a channel path of the cited row; a field given must be equal |
| `VerdictLaws.OrderDoesNotMatter` | nails-oracle/src/verdict.rs:560-607 | status and counts do not depend on the order of the allowlist or controls |
| `VerdictLaws.CleanIsMonotone` | nails-oracle/src/verdict.rs:560-607 | more in the earlier scans or a wider valid allowlist never turns clean into fail |
| `VerdictLaws.ExplanationExactlyWhenTrimmed` | nails-oracle/src/verdict.rs:489-505 | a valid entry shows the risk of the row that validated it if and only if its citation is trimmed |
| `VerdictLaws.PaddedCitationLosesItsExplanation` | nails-oracle/src/verdict.rs:477-493 | a padded citation passes validation and explains nothing |
| `Utf8.CodeBack` | fuzz/src/systemd.rs:122-138 | a character is read back from its UTF-8 bytes |
| `Utf8.BytesPrefix` | fuzz/src/systemd.rs:122-138 | UTF-8 is prefix-free |
| `Utf8.EncodeInjective` | nails-base/src/fstab.rs:239-247 | different texts have different bytes |
| `Utf8.HexAllInjective` | nails-base/src/fstab.rs:196-216 | different bytes have different escapes |
| `UnitNames.KeepComponents` | nails-base/src/fstab.rs:224-238 | the loop over the components keeps the simplified list of the specification |
| `UnitNames.EscapePath` | nails-base/src/fstab.rs:224-248 | the byte loop writes the escaped name of the specification |
| `UnitNames.EscapedPathExactlyWhen` | nails-base/src/fstab.rs:224-248 | two paths have one name if and only if they simplify to the same components |
| `UnitNames.EscapesAgree` | fuzz/src/systemd.rs:72-88 | systemd's escaping, by the place of each byte, is the same |
| `UnitNames.SystemdAgrees` | fuzz/src/systemd.rs:37-111 | wherever systemd names a unit for a path, it is this name |
| `UnitNames.HexBytes` | nails-base/src/fstab.rs:208-213 | every byte of a character is written as its own escape |
| `UnitNames.EncodeDevnodeName` | nails-base/src/fstab.rs:196-216 | the character loop writes the encoded name of the specification |
| `UnitNames.NodeNameInjective` | nails-base/src/fstab.rs:196-216 | different labels have different link names |
| `UnitNames.NodeNameFree` | nails-base/src/fstab.rs:196-216 | an encoded name holds no slash, so it names one file |
| `UnitNames.NodeNamesAgree` | fuzz/src/systemd.rs:113-138 | the encoding is udev's |
| `UnitNames.UnquotesAgree` | fuzz/src/systemd.rs:140-148 | systemd's unquoting is the same |
| `UnitNames.SpecDeviceAgrees` | nails-base/src/fstab.rs:164-190 | the device of any fstab spec is the node systemd turns it into, and a spec without one is left alone |
| `Journal.NormalizeJournalBody` | nails-oracle/src/scan.rs:242-271 | the loop over the rest of the text masks as the specification |
| `Journal.NormalizeIsBlur` | nails-oracle/src/scan.rs:242-271 | normalising is masking run by run: every other character stays, in order |
| `Journal.RunIsMasked` | nails-oracle/src/scan.rs:234-271 | in any text, a run of decimal digits becomes N, one of eight and more hexadecimal digits of both kinds X, and any other stays |
| `Journal.OthersStay` | nails-oracle/src/scan.rs:239-271 | text without hexadecimal digits is unchanged |
| `Journal.TokensOfNormalized` | nails-oracle/src/scan.rs:242-271 | masking never joins or cuts a run |
| `Journal.NormalizeIdempotent` | nails-oracle/src/scan.rs:242-271 | normalising twice is normalising once |
| `Journal.NormalizeNeverLengthens` | nails-oracle/src/scan.rs:242-271 | the result is no longer than the text |
| `Journal.AlikeExactlyWhen` | nails-oracle/src/scan.rs:234-271 | two lines normalise alike if and only if their masked tokens agree one by one |
| `Journal.CollapseExactlyWhen` | nails-oracle/src/scan.rs:234-271 | two lines normalise alike if and only if each pair of tokens differs only in digits of the same masked class, or one spells out the letter that masks the other |
| `Journal.OnlyDigitsCollapse` | nails-oracle/src/scan.rs:234-271 | differing only inside runs of the same masked class always collapses; where no mask letter is spelled out, nothing else does |
| `Journal.MaskLetterCollides` | nails-oracle/src/scan.rs:242-271 | a mask letter in the text looks like a masked run |

## Left out

- Weights.Validate: the wording of the messages.
- Weights.Regen: the wording of the notes.
- Plan.Allocate: the local lists `members` and `loads` are sequences that the loops reassign; no caller can see them change.
- PlanBounds.PlanMatrix: a count given on the command line, the listing that is not a matrix, and the index and count fields of a job.
- Verdict.Judge: the one-line summary and the wording of the failures.
- RunBuild.DurationsFromLog: clock readings are whole seconds given with each line, activity ids are non-negative, and lines that are not build starts or stops are dropped beforehand.
- RunBuild.Run: evaluating the derivations, the nix processes, the console summary and the duration and log files; each attempt's log, status and missing outputs are parameters.
- DeviceStack.Stack: sysfs is fixed during a walk and listings are already sorted; a layer keeps only the attributes the walk reads (slaves and loop backing), not sizes, partitions or device-mapper kinds.
- DmStack.BackendChain.WalkDmStack: has the trace's depth as a ghost argument, because a method that does not end has no contract; that such a depth exists if and only if the graph has no cycle is proved beside it.
- Escapes.DecodeEscapes: an octal escape above \177 yields the character with that code; assembling several such bytes into one character, and lossy decoding of invalid ones, is not modelled.
- Escapes.DecodeOctal: as for Escapes.DecodeEscapes.
- UnitNames.SystemdAgrees: names too long for a unit, which systemd replaces by a hash, and paths it refuses.
- PlanBounds.TimeoutCoversLoad: one and a half times the load is exact; floating point at loads beyond 2^52 is not modelled.
- Finding the backend of a mount (`resolve_backend_chain`) and a device's sysfs name, which only look things up.
- Reading scan results, weight files and duration files, the `usable_weights` and drift reports of the planner.
- Parsing fstab and crypttab lines, symbolic links, and the session's mount policy.
- Killing processes, cgroups, signals, teardown ordering and locking, which rest on kernel behaviour.
- Configuration loading, messages, styling and exit codes.
