# App Engine firewall reconciliation, modelled in Dafny

`gae_fw_update` keeps a window of App Engine ingress rules in step with a list of source
ranges read from standard input. Each run works in four steps:

1. It lists the existing rules and records every priority as occupied. It indexes the rules
   whose priority lies in the window `[base-priority, max-priority]` by source range, and a
   later rule with the same range overwrites an earlier one.
2. It reads the desired ranges line by line and skips empty lines. A line that is still a key
   of that index consumes the key. Any other line becomes a new range.
3. It deletes every rule left in the index, in the map's iteration order, and releases the
   rule's priority.
4. It gives each new range the first free priority at or above the previous one, starting at
   `base-priority`, and reserves it at once.

In dry-run mode every step is still reported, but no delete or create call is made. The rules are
still listed.

The model follows `main.go`:

- `priority_set.dfy`, module `PrioritySet`, models the `Int64Array` helper: `IndexOf`,
  `Include`, and `Remove`, which deletes the first occurrence.
- `reconciler.dfy`, module `Reconciler`, models the run as pure stages. `UsedPriorities` and
  `OldRules` are the partition, `Match` is the scan of the input, `Deletions` and `ReleaseAll`
  are the deletion pass, and `NextFree` and `Assign` are the priority search and creation
  pass. `Reconcile` composes them into a `Plan` of deleted priorities and created rules.
- `run.dfy`, module `FirewallRun`, models the closure body as one method with the source's
  loops. The API becomes a log of `DeleteRule`/`CreateRule` calls. `reported` is what the run
  prints and `issued` is what it sends.
- `properties.dfy`, module `RunProperties`, proves properties of whole runs:
  - the outcome does not depend on the iteration order;
  - a second run over the applied result is quiet, under stated conditions;
  - the diff is exact;
  - deleted priorities are reusable;
  - a full window overflows.
- `scenarios.dfy`, module `Scenarios`, works through concrete runs. They include the inputs on
  which a second run is not quiet.

Go's map iteration order is not specified. `Reconcile` therefore takes the order of the stale
keys as a parameter `order`, constrained by `Enumerates`. `ActionFor` picks it
nondeterministically and returns it as a ghost value. `ReleaseOrderIrrelevant` and
`ReconcileOrderIrrelevant` show that the order changes only the order of the delete calls.

Two behaviours of the code are weaker than one might expect, and the model keeps them as written:

- A new rule might be expected to avoid every priority in use before the run. It avoids every
  rule that survives the run. It may, however, take the priority of a rule deleted in the same
  run, as `Scenarios.StalePriorityIsReused` shows.
- A second run with the same input might be expected to do nothing. It does nothing when four
  conditions hold:
  - priorities are unique;
  - no two windowed rules share a range;
  - no desired line repeats;
  - the new rules fit inside the window.

  The conditions are sufficient, not necessary: `Scenarios.ShadowedButWanted` gives two
  windowed rules with one wanted range, and both runs over it do nothing. Still, none of the
  last three can be dropped from the general statement. `RepeatedLineIsRecreated`,
  `ShadowedRuleSurvives` and `FullWindowIsRecreated` each give inputs that break one of them and
  whose second run deletes or creates a rule.

## Model

| member | source | states |
|---|---|---|
| PrioritySet.IndexOf | main.go:183-190 | The result is -1 exactly when the value does not occur. Otherwise the value is at that index and at no earlier index. |
| PrioritySet.Include | main.go:179-181 | Holds exactly when the value occurs in the list. |
| PrioritySet.Remove | main.go:192-198 | An absent value leaves the list unchanged. A present value makes it exactly one element shorter. |
| PrioritySet.RemoveRoundTrip | main.go:192-198 | Putting the value back at the index of its first occurrence restores the original list. Only the first occurrence is removed, and the other elements keep their order. |
| PrioritySet.RemoveCount | main.go:192-198 | Removal takes away one copy of the value and changes no other count. |
| PrioritySet.RemoveCommutes | main.go:138-139 | Two removals give the same list in either order. |
| PrioritySet.IncludeAfterRemove | main.go:179-198 | After removing `v`, a value is included exactly when it was included before and is either not `v` or a second copy of `v`. |
| Reconciler.UsedPriorities | main.go:106-110 | There is one entry per listed rule, in listing order. Each entry is that rule's priority, whether or not it lies in the window. |
| Reconciler.OldRules | main.go:106-114 | Every value lies in the window. The keys are exactly the ranges of windowed rules. For each range, the last windowed rule with that range supplies the value. |
| Reconciler.Match | main.go:119-131 | The stale map is the managed map minus the non-empty desired lines. Every new range is a non-empty desired line. |
| Reconciler.MatchAppendsUnclaimed | main.go:119-131 | The new ranges are exactly the unclaimed lines, in input order. A line is unclaimed when it is non-empty and either is not a key or repeats an earlier line. |
| Reconciler.MatchedRangeUntouched | main.go:125-127 | A range that is both a key and a desired line is never stale. It is never new unless the line repeats. |
| Reconciler.ReleaseAll | main.go:138-139 | The deletion loop removes one occupied copy per deleted priority and nothing else: each value's count drops by its number of deletions, down to zero. |
| Reconciler.ReleaseOrderIrrelevant | main.go:138-139 | Releasing any permutation of the same priorities leaves the same occupied list. |
| Reconciler.NextFree | main.go:153-155 | The search returns a free priority at or above its start. Every priority it steps over is occupied, so it returns the lowest such free slot. |
| Reconciler.Assign | main.go:151-156 | The new rules carry the new ranges in order with the run's action and comment. Their priorities are at or above the start, avoid every occupied priority, and strictly increase. |
| Reconciler.AssignFirstFit | main.go:151-156 | Every free priority between the start and an assigned one went to an earlier range, so no free slot is skipped. |
| Reconciler.Reconcile | main.go:106-156 | One priority is deleted per stale rule: the i-th deleted priority is the value of the i-th key the map visits, so a priority shared by two stale keys is deleted twice. Every deleted priority lies in the window. One rule is created per new range, with the run's action and comment. Created priorities are at or above the base, strictly increase, and avoid every rule that survives. |
| Reconciler.DeletedCoverStale | main.go:137-139 | Over any enumeration of the stale map, the deleted priorities are exactly its values, one per key: each priority is deleted as many times as there are stale keys holding it. |
| Reconciler.SurvivorsStayUsed | main.go:138-139 | A rule whose priority is not deleted stays occupied during the creation pass. |
| FirewallRun.ActionFor | main.go:106-171 | For some enumeration of the stale map, the run carries out `Reconcile`'s plan. The reported calls are its deletions, then its creations. Dry-run issues no call, and a live run issues exactly the reported ones. |
| FirewallRun.PartitionRules | main.go:106-114 | The partition loop computes `UsedPriorities` and `OldRules`. |
| FirewallRun.ScanDesired | main.go:119-131 | The input scan computes `Match`. |
| FirewallRun.IterationOrder | main.go:138 | Every key of the stale map is visited exactly once. |
| FirewallRun.DeleteStale | main.go:138-147 | The deletion loop visits every stale key once, deletes the visited keys' priorities and releases them from the occupied list. It reports one delete call each and issues them only when not in dry-run. |
| FirewallRun.DeleteInOrder | main.go:139-146 | For a given visiting order, the loop body's deletions, releases and calls are those of the whole order, one per key. |
| FirewallRun.CreateNew | main.go:151-171 | The creation loop computes `Assign`. It reports one create call per new rule and issues them only when not in dry-run. |
| FirewallRun.SearchFree | main.go:153-155 | The inner loop stops at the first free priority from its start. |
| RunProperties.ReconcileOrderIrrelevant | main.go:138-156 | Two iteration orders of the stale map give the same created rules and the same deleted priorities up to order. |
| RunProperties.SecondRunIsQuiet | main.go:106-171 | After the plan is applied, and whatever order the rules are listed in, the windowed ranges are exactly the desired lines, and a second run deletes and creates nothing. This holds with unique priorities, no shadowed windowed range, no repeated line and no overflow. |
| RunProperties.NewRangesExact | main.go:119-131 | Without repeated lines, a range is created exactly when it is a desired line that is not a key, and it is created only once. |
| RunProperties.EmptyInputDeletesAll | main.go:119-147 | An empty input makes every managed rule stale and creates nothing. Without shadowed ranges, every windowed rule is deleted. |
| RunProperties.DeletedAreFreed | main.go:138-156 | With unique priorities, no deleted priority is still occupied when the creation pass starts. |
| RunProperties.FullWindowOverflows | main.go:151-155 | When every slot of the window is occupied, every new rule lands above `max-priority`. |
| Scenarios.StalePriorityIsReused | main.go:106-156 | Rules 8000 `1.2.3.0/24` and 8001 `5.6.7.0/24` with input `5.6.7.0/24`, `9.9.9.0/24` delete 8000 and create `9.9.9.0/24` at 8000. |
| Scenarios.FullWindowConcrete | main.go:151-155 | With the one-slot window [1, 1] taken by a matched rule, the new range gets priority 2, outside the window. |
| Scenarios.FullWindowIsRecreated | main.go:106-156 | The rule that overflowed the window is not managed on the next run, so the second run creates its range again, at priority 3. |
| Scenarios.RepeatedLineIsRecreated | main.go:122-130 | A repeated input line creates two rules, and the second run creates a third. |
| Scenarios.ShadowedButWanted | main.go:106-156 | Rules 1 `a` and 2 `a` with the input `a` give an empty plan, and applying it leaves the rules as they were, so a shadowed range alone does not make a second run noisy. |
| Scenarios.ShadowedRuleSurvives | main.go:108-113 | Of two windowed rules with one unwanted range, the first run deletes only the later one, and the second run deletes the other. |

## Left out

- Command-line parsing, the `allow`/`deny` subcommand wiring and the `os.Exit(1)` on a missing apps id (main.go:16-81) are plumbing. The action string becomes the `Action` datatype.
- Credential acquisition and client construction (main.go:83-95) are not modelled. Neither is the List call (main.go:97-101): the listed rules are a parameter.
- Errors returned by the Delete and Create calls (main.go:142-145, main.go:166-169) are not modelled. The model assumes every call succeeds, so the abort after a partly applied run is out of scope.
- Reading standard input and its error path (main.go:118, main.go:132-135) are not modelled. The input is the sequence of lines already split.
- The wording of the printed status lines (main.go:140, main.go:157) is left out. A printed line is modelled as the call it announces.
- `int64` overflow of `priority += 1` (main.go:154) is not modelled: priorities are unbounded integers.
- Go's slice aliasing in `Remove`'s `append(c[:idx], c[idx+1:]...)` is not modelled: `Remove` returns a new sequence. The source always reassigns the result, so no caller can observe the difference.
- Go map iteration order is not modelled as a fixed order. It is an explicit enumeration, chosen nondeterministically in `FirewallRun.ActionFor`.
- The DNS TXT range resolver is not part of this model. Its source is not among the modelled files.
- RunProperties.SecondRunIsQuiet: proved only under its four conditions, not for all inputs. `Scenarios.RepeatedLineIsRecreated`, `Scenarios.ShadowedRuleSurvives` and `Scenarios.FullWindowIsRecreated` show that the last three conditions are needed. Unique priorities are a guarantee of the ingress-rules API.
