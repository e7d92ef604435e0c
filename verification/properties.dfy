/**
  Properties of whole reconciliation runs: the outcome does not depend on the
  order in which the stale-rule map is iterated, a second run over the applied
  result does nothing (under the conditions the code needs for that), and the
  edge cases the code leaves open, shown on concrete inputs.
 */
module RunProperties {
  import opened PrioritySet
  import opened Reconciler

  // ---------------------------------------------------------------------------
  // Independence from the map iteration order
  // ---------------------------------------------------------------------------

  /** A duplicate-free sequence holds each of its elements exactly once. */
  lemma {:induction false} DistinctOnce<T>(o: seq<T>, x: T)
    requires Distinct(o)
    ensures multiset(o)[x] == if x in o then 1 else 0
    decreases |o|
  {
    if |o| > 0 {
      var rest := o[1..];
      assert o == [o[0]] + rest;
      forall j | 0 <= j < |rest|
        ensures rest[j] != o[0]
      {
        assert rest[j] == o[j + 1];
      }
      DistinctOnce(rest, x);
    }
  }

  /** Two iterations of the same map visit the same keys, only in another order. */
  lemma EnumerationsPermute(o1: seq<string>, o2: seq<string>, m: map<string, int>)
    requires Enumerates(o1, m) && Enumerates(o2, m)
    ensures multiset(o1) == multiset(o2)
  {
    forall x ensures multiset(o1)[x] == multiset(o2)[x] {
      DistinctOnce(o1, x);
      DistinctOnce(o2, x);
    }
  }

  /** Looking up a concatenation of keys concatenates the lookups. */
  lemma DeletionsAppend(a: seq<string>, b: seq<string>, m: map<string, int>)
    requires forall k :: k in a + b ==> k in m
    ensures Deletions(a + b, m) == Deletions(a, m) + Deletions(b, m)
  {
    assert forall k :: k in a ==> k in a + b;
    assert forall k :: k in b ==> k in a + b;
  }

  /** Looking up permuted keys gives permuted priorities. */
  lemma {:induction false} DeletionsPermute(o1: seq<string>, o2: seq<string>, m: map<string, int>)
    requires forall k :: k in o1 ==> k in m
    requires forall k :: k in o2 ==> k in m
    requires multiset(o1) == multiset(o2)
    ensures multiset(Deletions(o1, m)) == multiset(Deletions(o2, m))
    decreases |o1|
  {
    if |o1| == 0 {
      assert |o2| == |multiset(o2)| == 0;
    } else {
      var k, rest, a, b := SplitPermutation(o1, o2);
      DeletionsPermute(rest, a + b, m);
      DeletionsStep(k, rest, a, b, m);
    }
  }

  /** The first element of a sequence occurs somewhere in any permutation of it, and the
      remainders are again permutations of each other. */
  lemma SplitPermutation(o1: seq<string>, o2: seq<string>)
    returns (k: string, rest: seq<string>, a: seq<string>, b: seq<string>)
    requires |o1| > 0 && multiset(o1) == multiset(o2)
    ensures o1 == [k] + rest && o2 == a + [k] + b
    ensures multiset(rest) == multiset(a + b)
    ensures forall x :: x in rest ==> x in o1
    ensures forall x :: x in a + b ==> x in o2
  {
    k, rest := o1[0], o1[1..];
    assert o1 == [k] + rest;
    assert multiset(rest) == multiset(o1) - multiset{k};
    assert k in multiset(o2);
    a, b := SplitAt(o2, k);
  }

  /** One step of the induction: putting the same key in front of one list and in the middle
      of the other keeps their lookups permutations of each other. */
  lemma DeletionsStep(k: string, rest: seq<string>, a: seq<string>, b: seq<string>, m: map<string, int>)
    requires forall x :: x in [k] + rest ==> x in m
    requires forall x :: x in a + [k] + b ==> x in m
    requires multiset(Deletions(rest, m)) == multiset(Deletions(a + b, m))
    ensures multiset(Deletions([k] + rest, m)) == multiset(Deletions(a + [k] + b, m))
  {
    DeletionsAppend([k], rest, m);
    DeletionsMiddle(a, k, b, m);
    assert Deletions([k], m) == [m[k]];
  }

  /** Looking up a key in the middle adds its priority to the lookups of the others. */
  lemma DeletionsMiddle(a: seq<string>, k: string, b: seq<string>, m: map<string, int>)
    requires forall x :: x in a + [k] + b ==> x in m
    ensures multiset(Deletions(a + [k] + b, m)) == multiset([m[k]] + Deletions(a + b, m))
  {
    assert forall x :: x in a + b ==> x in a + [k] + b;
    var da, db := Deletions(a, m), Deletions(b, m);
    DeletionsAppend(a + [k], b, m);
    DeletionsAppend(a, [k], m);
    assert Deletions([k], m) == [m[k]];
    assert Deletions(a + [k] + b, m) == da + [m[k]] + db;
    DeletionsAppend(a, b, m);
    MultisetMiddle(da, m[k], db);
  }

  /** Moving one element to the front does not change a sequence's multiset. */
  lemma MultisetMiddle(a: seq<int>, x: int, b: seq<int>)
    ensures multiset(a + [x] + b) == multiset([x] + (a + b))
  {
  }

  /** Whatever order the stale rules are visited in, the same rules are created (same
      ranges, same priorities) and the same priorities are deleted. */
  lemma ReconcileOrderIrrelevant(existing: seq<FirewallRule>, desired: seq<string>, w: Window,
                                 action: Action, comment: string, o1: seq<string>, o2: seq<string>)
    requires Enumerates(o1, Match(OldRules(existing, w), desired).stale)
    requires Enumerates(o2, Match(OldRules(existing, w), desired).stale)
    ensures Reconcile(existing, desired, w, action, comment, o1).created
            == Reconcile(existing, desired, w, action, comment, o2).created
    ensures multiset(Reconcile(existing, desired, w, action, comment, o1).deleted)
            == multiset(Reconcile(existing, desired, w, action, comment, o2).deleted)
  {
    var stale := Match(OldRules(existing, w), desired).stale;
    EnumerationsPermute(o1, o2, stale);
    DeletionsPermute(o1, o2, stale);
    ReleaseOrderIrrelevant(UsedPriorities(existing), Deletions(o1, stale), Deletions(o2, stale));
  }

  // ---------------------------------------------------------------------------
  // A second run over the applied result
  // ---------------------------------------------------------------------------

  /** The listed rules that a plan does not delete, in listing order. */
  function Survivors(existing: seq<FirewallRule>, deleted: seq<int>): (kept: seq<FirewallRule>)
    ensures forall r :: r in kept <==> r in existing && r.priority !in deleted
    ensures |kept| <= |existing|
  {
    if |existing| == 0 then []
    else
      assert existing == [existing[0]] + existing[1..];
      (if existing[0].priority in deleted then [] else [existing[0]]) + Survivors(existing[1..], deleted)
  }

  /** The rule list after a plan has been carried out: the survivors, then the new rules. */
  function Apply(existing: seq<FirewallRule>, plan: Plan): (after: seq<FirewallRule>)
    ensures forall r :: r in after <==> (r in existing && r.priority !in plan.deleted) || r in plan.created
  {
    Survivors(existing, plan.deleted) + plan.created
  }

  /** No two listed rules share a priority, as the ingress-rules API guarantees. */
  predicate UniquePriorities(existing: seq<FirewallRule>) {
    forall i, j :: 0 <= i < j < |existing| ==> existing[i].priority != existing[j].priority
  }

  /** No two rules inside the window share a source range. */
  predicate DistinctManagedRanges(existing: seq<FirewallRule>, w: Window) {
    forall i, j :: 0 <= i < j < |existing| && w.Contains(existing[i].priority) && w.Contains(existing[j].priority) ==>
      existing[i].sourceRange != existing[j].sourceRange
  }

  /** No non-empty desired line repeats. */
  predicate DistinctLines(desired: seq<string>) {
    forall i, j :: 0 <= i < j < |desired| && desired[i] != "" ==> desired[i] != desired[j]
  }

  /** With distinct managed ranges, no rule is shadowed: each windowed rule is found under its range. */
  lemma ManagedLookup(existing: seq<FirewallRule>, w: Window)
    requires DistinctManagedRanges(existing, w)
    ensures forall r :: r in existing && w.Contains(r.priority) ==>
              r.sourceRange in OldRules(existing, w) && OldRules(existing, w)[r.sourceRange] == r.priority
  {
    forall r | r in existing && w.Contains(r.priority)
      ensures r.sourceRange in OldRules(existing, w) && OldRules(existing, w)[r.sourceRange] == r.priority
    {
      var i :| 0 <= i < |existing| && existing[i] == r;
      assert LastManaged(existing, w, i);
    }
  }

  /** An unclaimed line at or after `i` is among the lines `UnclaimedFrom` collects from `i`. */
  lemma {:induction false} UnclaimedFromContains(managed: map<string, int>, desired: seq<string>, i: nat, j: nat)
    requires i <= j < |desired| && Unclaimed(managed, desired, j)
    ensures desired[j] in UnclaimedFrom(managed, desired, i)
    decreases j - i
  {
    if i < j {
      UnclaimedFromContains(managed, desired, i + 1, j);
    }
  }

  /** Without unclaimed lines from `i` on, nothing is collected. */
  lemma {:induction false} UnclaimedFromEmpty(managed: map<string, int>, desired: seq<string>, i: nat)
    requires i <= |desired|
    requires forall j :: i <= j < |desired| ==> !Unclaimed(managed, desired, j)
    ensures UnclaimedFrom(managed, desired, i) == []
    decreases |desired| - i
  {
    if i < |desired| {
      UnclaimedFromEmpty(managed, desired, i + 1);
    }
  }

  /** After the run, a windowed rule is a survivor whose range was matched or a new rule for
      an unclaimed line; either way its range is a desired line. */
  lemma WindowedAfterAreDesired(existing: seq<FirewallRule>, w: Window, desired: seq<string>,
                                managed: map<string, int>, m: Matched, plan: Plan)
    requires forall r :: r in existing && w.Contains(r.priority) ==>
               r.sourceRange in managed && managed[r.sourceRange] == r.priority
    requires m.stale == managed - Lines(desired)
    requires forall k :: k in m.stale ==> m.stale[k] in plan.deleted
    requires forall x :: x in m.newRanges ==> x != "" && x in desired
    requires |plan.created| == |m.newRanges|
    requires forall i :: 0 <= i < |plan.created| ==> plan.created[i].sourceRange == m.newRanges[i]
    ensures forall r :: r in Apply(existing, plan) && w.Contains(r.priority) ==> r.sourceRange in Lines(desired)
  {
    forall r | r in Apply(existing, plan) && w.Contains(r.priority)
      ensures r.sourceRange in Lines(desired)
    {
      if r in plan.created {
        var t :| 0 <= t < |plan.created| && plan.created[t] == r;
        assert r.sourceRange in m.newRanges;
      } else {
        StaleDeleted(managed, desired, m.stale, plan.deleted);
      }
    }
  }

  /** A managed range that is not a desired line has its priority deleted. */
  lemma StaleDeleted(managed: map<string, int>, desired: seq<string>, stale: map<string, int>, deleted: seq<int>)
    requires stale == managed - Lines(desired)
    requires forall k :: k in stale ==> stale[k] in deleted
    ensures forall k :: k in managed && k !in Lines(desired) ==> managed[k] in deleted
  {
    forall k | k in managed && k !in Lines(desired)
      ensures managed[k] in deleted
    {
      assert k in stale && stale[k] == managed[k];
    }
  }

  /** With unique priorities, deleting the priorities of the stale rules spares every rule
      whose range was matched. */
  lemma MatchedSurvive(existing: seq<FirewallRule>, w: Window, desired: seq<string>,
                       managed: map<string, int>, stale: map<string, int>, deleted: seq<int>)
    requires UniquePriorities(existing)
    requires forall r :: r in existing && w.Contains(r.priority) ==>
               r.sourceRange in managed && managed[r.sourceRange] == r.priority
    requires forall k :: k in managed ==>
               exists i :: 0 <= i < |existing| && w.Contains(existing[i].priority) && existing[i].sourceRange == k
    requires stale == managed - Lines(desired)
    requires forall p :: p in deleted ==> p in stale.Values
    ensures forall r :: r in existing && w.Contains(r.priority) && r.sourceRange in Lines(desired) ==>
              r.priority !in deleted
  {
    forall r | r in existing && w.Contains(r.priority) && r.sourceRange in Lines(desired)
      ensures r.priority !in deleted
    {
      var i :| 0 <= i < |existing| && existing[i] == r;
      forall k | k in stale
        ensures stale[k] != r.priority
      {
        var j :| 0 <= j < |existing| && w.Contains(existing[j].priority) && existing[j].sourceRange == k;
        assert stale[k] == existing[j].priority;
        assert i != j;
      }
    }
  }

  /** After the run, every desired line is carried by a windowed rule: a matched line by its
      surviving rule, an unclaimed one by the rule created for it, provided that rule fits
      inside the window. */
  lemma DesiredAreWindowedAfter(existing: seq<FirewallRule>, w: Window, desired: seq<string>,
                                managed: map<string, int>, m: Matched, plan: Plan)
    requires UniquePriorities(existing)
    requires forall r :: r in existing && w.Contains(r.priority) ==>
               r.sourceRange in managed && managed[r.sourceRange] == r.priority
    requires forall k :: k in managed ==>
               exists i :: 0 <= i < |existing| && w.Contains(existing[i].priority) && existing[i].sourceRange == k
    requires m.stale == managed - Lines(desired)
    requires forall p :: p in plan.deleted ==> p in m.stale.Values
    requires m.newRanges == UnclaimedFrom(managed, desired, 0)
    requires |plan.created| == |m.newRanges|
    requires forall i :: 0 <= i < |plan.created| ==> plan.created[i].sourceRange == m.newRanges[i]
    requires forall c :: c in plan.created ==> w.Contains(c.priority)
    ensures forall x :: x in Lines(desired) ==>
              exists r :: r in Apply(existing, plan) && w.Contains(r.priority) && r.sourceRange == x
  {
    forall x | x in Lines(desired)
      ensures exists r :: r in Apply(existing, plan) && w.Contains(r.priority) && r.sourceRange == x
    {
      if x in managed {
        var i :| 0 <= i < |existing| && w.Contains(existing[i].priority) && existing[i].sourceRange == x;
        var r := existing[i];
        MatchedSurvive(existing, w, desired, managed, m.stale, plan.deleted);
        assert r in existing;
      } else {
        var i :| 0 <= i < |desired| && desired[i] == x;
        UnclaimedFromContains(managed, desired, 0, i);
        var t :| 0 <= t < |m.newRanges| && m.newRanges[t] == x;
        assert plan.created[t] in plan.created;
      }
    }
  }

  /** The keys of the managed map are exactly the desired lines when the windowed rules carry
      exactly the desired lines. */
  lemma ManagedKeysAreLines(rules: seq<FirewallRule>, w: Window, desired: seq<string>)
    requires forall r :: r in rules && w.Contains(r.priority) ==> r.sourceRange in Lines(desired)
    requires forall x :: x in Lines(desired) ==> exists r :: r in rules && w.Contains(r.priority) && r.sourceRange == x
    ensures OldRules(rules, w).Keys == Lines(desired)
  {
    var managed := OldRules(rules, w);
    forall x ensures x in managed <==> x in Lines(desired) {
      if x in managed {
        var i :| 0 <= i < |rules| && w.Contains(rules[i].priority) && rules[i].sourceRange == x;
        assert rules[i] in rules;
      }
      if x in Lines(desired) {
        var r :| r in rules && w.Contains(r.priority) && r.sourceRange == x;
        var i :| 0 <= i < |rules| && rules[i] == r;
      }
    }
  }

  /** With every desired line already a key and no line repeated, the scan consumes every key
      and appends nothing. */
  lemma MatchAllKnown(managed: map<string, int>, desired: seq<string>)
    requires managed.Keys == Lines(desired) && DistinctLines(desired)
    ensures Match(managed, desired) == Matched(map[], [])
  {
    assert managed - Lines(desired) == map[];
    assert forall j :: 0 <= j < |desired| ==> !Unclaimed(managed, desired, j);
    UnclaimedFromEmpty(managed, desired, 0);
    MatchAppendsUnclaimed(managed, desired);
  }

  /** After the run the windowed rules carry only desired lines. */
  lemma AppliedCarriesOnlyLines(existing: seq<FirewallRule>, desired: seq<string>, w: Window,
                                action: Action, comment: string, order: seq<string>)
    requires Enumerates(order, Match(OldRules(existing, w), desired).stale)
    requires DistinctManagedRanges(existing, w)
    ensures var after := Apply(existing, Reconcile(existing, desired, w, action, comment, order));
            forall r :: r in after && w.Contains(r.priority) ==> r.sourceRange in Lines(desired)
  {
    var managed := OldRules(existing, w);
    var plan := Reconcile(existing, desired, w, action, comment, order);
    ManagedLookup(existing, w);
    WindowedAfterAreDesired(existing, w, desired, managed, Match(managed, desired), plan);
  }

  /** After the run the windowed rules carry every desired line, provided the new rules fit
      inside the window. */
  lemma AppliedCarriesAllLines(existing: seq<FirewallRule>, desired: seq<string>, w: Window,
                               action: Action, comment: string, order: seq<string>)
    requires Enumerates(order, Match(OldRules(existing, w), desired).stale)
    requires UniquePriorities(existing) && DistinctManagedRanges(existing, w)
    requires forall c :: c in Reconcile(existing, desired, w, action, comment, order).created ==> c.priority <= w.max
    ensures var after := Apply(existing, Reconcile(existing, desired, w, action, comment, order));
            forall x :: x in Lines(desired) ==> exists r :: r in after && w.Contains(r.priority) && r.sourceRange == x
  {
    var managed := OldRules(existing, w);
    var plan := Reconcile(existing, desired, w, action, comment, order);
    ManagedLookup(existing, w);
    MatchAppendsUnclaimed(managed, desired);
    DesiredAreWindowedAfter(existing, w, desired, managed, Match(managed, desired), plan);
  }

  /** Listing the same rules in another order keeps the windowed ranges equal to the desired
      lines. */
  lemma ListedInAnyOrder(after: seq<FirewallRule>, applied: seq<FirewallRule>, w: Window, desired: seq<string>)
    requires multiset(after) == multiset(applied)
    requires forall r :: r in applied && w.Contains(r.priority) ==> r.sourceRange in Lines(desired)
    requires forall x :: x in Lines(desired) ==> exists r :: r in applied && w.Contains(r.priority) && r.sourceRange == x
    ensures OldRules(after, w).Keys == Lines(desired)
  {
    forall r ensures r in after <==> r in applied {
      assert r in after <==> r in multiset(after);
      assert r in applied <==> r in multiset(applied);
    }
    ManagedKeysAreLines(after, w, desired);
  }

  /** Running again over the applied result, with the same input, finds every rule in place
      and does nothing, in whatever order the rules are listed. This needs unique priorities,
      no shadowed windowed rule, no repeated desired line, and new rules that fit inside the
      window. */
  lemma SecondRunIsQuiet(existing: seq<FirewallRule>, desired: seq<string>, w: Window,
                         action: Action, comment: string, order: seq<string>, after: seq<FirewallRule>)
    requires Enumerates(order, Match(OldRules(existing, w), desired).stale)
    requires UniquePriorities(existing) && DistinctManagedRanges(existing, w) && DistinctLines(desired)
    requires forall c :: c in Reconcile(existing, desired, w, action, comment, order).created ==> c.priority <= w.max
    requires multiset(after) == multiset(Apply(existing, Reconcile(existing, desired, w, action, comment, order)))
    ensures OldRules(after, w).Keys == Lines(desired)
    ensures Match(OldRules(after, w), desired) == Matched(map[], [])
    ensures Reconcile(after, desired, w, action, comment, []) == Plan([], [])
  {
    var applied := Apply(existing, Reconcile(existing, desired, w, action, comment, order));
    AppliedCarriesOnlyLines(existing, desired, w, action, comment, order);
    AppliedCarriesAllLines(existing, desired, w, action, comment, order);
    ListedInAnyOrder(after, applied, w, desired);
    MatchAllKnown(OldRules(after, w), desired);
  }

  // ---------------------------------------------------------------------------
  // Exact diff
  // ---------------------------------------------------------------------------

  /** With no desired line repeated, the unclaimed lines from `i` on are pairwise distinct. */
  lemma {:induction false} UnclaimedFromDistinct(managed: map<string, int>, desired: seq<string>, i: nat)
    requires i <= |desired| && DistinctLines(desired)
    ensures Distinct(UnclaimedFrom(managed, desired, i))
    decreases |desired| - i
  {
    if i < |desired| {
      var tail := UnclaimedFrom(managed, desired, i + 1);
      UnclaimedFromDistinct(managed, desired, i + 1);
      if Unclaimed(managed, desired, i) {
        UnclaimedFromMembers(managed, desired, i + 1);
        assert desired[i] !in tail;
        var u := [desired[i]] + tail;
        assert UnclaimedFrom(managed, desired, i) == u;
        forall a, b | 0 <= a < b < |u|
          ensures u[a] != u[b]
        {
          assert u[b] == tail[b - 1] && tail[b - 1] in tail;
          if a > 0 {
            assert u[a] == tail[a - 1];
          }
        }
      } else {
        assert UnclaimedFrom(managed, desired, i) == tail;
      }
    }
  }

  /** Without repeated lines the diff is exact: a range is created exactly when it is a desired
      line that names no managed rule, and it is created once. */
  lemma NewRangesExact(managed: map<string, int>, desired: seq<string>)
    requires DistinctLines(desired)
    ensures var wanted := Match(managed, desired).newRanges;
            && (forall x :: x in wanted <==> x in Lines(desired) && x !in managed)
            && Distinct(wanted)
  {
    MatchAppendsUnclaimed(managed, desired);
    UnclaimedFromMembers(managed, desired, 0);
    UnclaimedFromDistinct(managed, desired, 0);
    forall x | x in Lines(desired) && x !in managed
      ensures x in UnclaimedFrom(managed, desired, 0)
    {
      var i :| 0 <= i < |desired| && desired[i] == x;
      UnclaimedFromContains(managed, desired, 0, i);
    }
    forall x | x in UnclaimedFrom(managed, desired, 0)
      ensures x in Lines(desired) && x !in managed
    {
      var j :| 0 <= j < |desired| && desired[j] == x && Unclaimed(managed, desired, j);
    }
  }

  /** With an empty input every managed rule is stale and nothing is created; without shadowed
      ranges that means every windowed rule is deleted. */
  lemma EmptyInputDeletesAll(existing: seq<FirewallRule>, w: Window, action: Action, comment: string,
                             order: seq<string>)
    requires Enumerates(order, OldRules(existing, w))
    ensures Match(OldRules(existing, w), []) == Matched(OldRules(existing, w), [])
    ensures Reconcile(existing, [], w, action, comment, order).created == []
    ensures DistinctManagedRanges(existing, w) ==>
              forall r :: r in existing && w.Contains(r.priority) ==> r.priority in Reconcile(existing, [], w, action, comment, order).deleted
  {
    assert Lines([]) == {};
    assert OldRules(existing, w) - {} == OldRules(existing, w);
    if DistinctManagedRanges(existing, w) {
      ManagedLookup(existing, w);
    }
  }

  /** With unique priorities each deleted priority is gone from the occupied list when the
      creation loop starts, so a new range may take it. */
  lemma DeletedAreFreed(existing: seq<FirewallRule>, desired: seq<string>, w: Window,
                        action: Action, comment: string, order: seq<string>)
    requires Enumerates(order, Match(OldRules(existing, w), desired).stale)
    requires UniquePriorities(existing)
    ensures var deleted := Reconcile(existing, desired, w, action, comment, order).deleted;
            forall p :: p in deleted ==> p !in ReleaseAll(UsedPriorities(existing), deleted)
  {
    var used := UsedPriorities(existing);
    ReleasedAreGone(used, Reconcile(existing, desired, w, action, comment, order).deleted);
  }

  /** Releasing priorities from a duplicate-free list leaves none of them behind. */
  lemma ReleasedAreGone(used: seq<int>, deleted: seq<int>)
    requires Distinct(used)
    ensures forall p :: p in deleted ==> p !in ReleaseAll(used, deleted)
  {
    forall p | p in deleted
      ensures p !in ReleaseAll(used, deleted)
    {
      DistinctOnce(used, p);
      assert multiset(deleted)[p] >= 1;
      assert multiset(ReleaseAll(used, deleted))[p] == 0;
    }
  }

  // ---------------------------------------------------------------------------
  // Window overflow
  // ---------------------------------------------------------------------------

  /** The search never consults the upper end of the window: when every slot of the window is
      occupied, every new rule lands above it. */
  lemma FullWindowOverflows(freed: seq<int>, ranges: seq<string>, w: Window, action: Action, comment: string)
    requires forall x :: w.base <= x <= w.max ==> x in freed
    ensures forall c :: c in Assign(freed, ranges, w.base, action, comment) ==> c.priority > w.max
  {
  }
}
