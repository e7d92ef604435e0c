/**
  The priority-slot reconciliation of `actionFor` in main.go, as pure stages:
  partition the listed ingress rules, match them against the desired source
  ranges, release the priorities of stale rules, and assign collision-free
  priorities to the new ranges.
 */
module Reconciler {
  import opened PrioritySet

  /** The two subcommands; each creates rules of its own kind. */
  datatype Action = Allow | Deny

  /** An App Engine ingress rule. The priority identifies the rule; the source range is opaque CIDR text. */
  datatype FirewallRule = FirewallRule(action: Action, description: string, priority: int, sourceRange: string)

  /** The managed priority window `[base, max]`, both ends inclusive. */
  datatype Window = Window(base: int, max: int) {
    predicate Contains(p: int) {
      base <= p <= max
    }
  }

  /** The stale rules left after matching, and the desired ranges that need a new rule. */
  datatype Matched = Matched(stale: map<string, int>, newRanges: seq<string>)

  /** What one run does: priorities to delete, then rules to create. */
  datatype Plan = Plan(deleted: seq<int>, created: seq<FirewallRule>)

  // ---------------------------------------------------------------------------
  // Partition of the listed rules
  // ---------------------------------------------------------------------------

  /** Every listed priority, windowed or not, one entry per rule in listing order. */
  function UsedPriorities(existing: seq<FirewallRule>): (used: seq<int>)
    ensures |used| == |existing|
    ensures forall i :: 0 <= i < |existing| ==> used[i] == existing[i].priority
  {
    if |existing| == 0 then []
    else UsedPriorities(existing[..|existing| - 1]) + [existing[|existing| - 1].priority]
  }

  /** Rule `i` is managed, and no later managed rule carries the same source range. */
  ghost predicate LastManaged(existing: seq<FirewallRule>, w: Window, i: int)
    requires 0 <= i < |existing|
  {
    && w.Contains(existing[i].priority)
    && forall j :: i < j < |existing| && w.Contains(existing[j].priority) ==>
         existing[j].sourceRange != existing[i].sourceRange
  }

  /** Source range to priority for the rules inside the window; a later rule overwrites an earlier one. */
  function OldRules(existing: seq<FirewallRule>, w: Window): (managed: map<string, int>)
    ensures forall k :: k in managed ==> w.Contains(managed[k])
    ensures forall k :: k in managed <==>
              exists i :: 0 <= i < |existing| && w.Contains(existing[i].priority) && existing[i].sourceRange == k
    ensures forall i :: 0 <= i < |existing| && LastManaged(existing, w, i) ==>
              existing[i].sourceRange in managed && managed[existing[i].sourceRange] == existing[i].priority
  {
    if |existing| == 0 then map[]
    else
      var n := |existing|;
      var pre := existing[..n - 1];
      var m := OldRules(pre, w);
      var r := existing[n - 1];
      var m' := if w.Contains(r.priority) then m[r.sourceRange := r.priority] else m;
      OldRulesStep(existing, w, m, m');
      m'
  }

  /** One iteration of the partition loop keeps the three facts `OldRules` promises. */
  lemma OldRulesStep(existing: seq<FirewallRule>, w: Window, m: map<string, int>, m': map<string, int>)
    requires |existing| > 0
    requires var pre := existing[..|existing| - 1];
             && (forall k :: k in m ==> w.Contains(m[k]))
             && (forall k :: k in m <==>
                   exists i :: 0 <= i < |pre| && w.Contains(pre[i].priority) && pre[i].sourceRange == k)
             && (forall i :: 0 <= i < |pre| && LastManaged(pre, w, i) ==>
                   pre[i].sourceRange in m && m[pre[i].sourceRange] == pre[i].priority)
    requires var r := existing[|existing| - 1];
             m' == if w.Contains(r.priority) then m[r.sourceRange := r.priority] else m
    ensures forall k :: k in m' ==> w.Contains(m'[k])
    ensures forall k :: k in m' <==>
              exists i :: 0 <= i < |existing| && w.Contains(existing[i].priority) && existing[i].sourceRange == k
    ensures forall i :: 0 <= i < |existing| && LastManaged(existing, w, i) ==>
              existing[i].sourceRange in m' && m'[existing[i].sourceRange] == existing[i].priority
  {
    OldRulesStepKeys(existing, w, m, m');
    OldRulesStepLast(existing, w, m, m');
  }

  /** The keys after one more iteration are the ranges of the windowed rules seen so far. */
  lemma OldRulesStepKeys(existing: seq<FirewallRule>, w: Window, m: map<string, int>, m': map<string, int>)
    requires |existing| > 0
    requires var pre := existing[..|existing| - 1];
             forall k :: k in m <==>
               exists i :: 0 <= i < |pre| && w.Contains(pre[i].priority) && pre[i].sourceRange == k
    requires var r := existing[|existing| - 1];
             m' == if w.Contains(r.priority) then m[r.sourceRange := r.priority] else m
    ensures forall k :: k in m' <==>
              exists i :: 0 <= i < |existing| && w.Contains(existing[i].priority) && existing[i].sourceRange == k
  {
    var n := |existing|;
    var pre := existing[..n - 1];
    var r := existing[n - 1];
    forall k
      ensures k in m' <==>
              exists i :: 0 <= i < n && w.Contains(existing[i].priority) && existing[i].sourceRange == k
    {
      if k in m' && !(w.Contains(r.priority) && k == r.sourceRange) {
        var i :| 0 <= i < |pre| && w.Contains(pre[i].priority) && pre[i].sourceRange == k;
        assert existing[i] == pre[i];
      }
      if exists i :: 0 <= i < n && w.Contains(existing[i].priority) && existing[i].sourceRange == k {
        var i :| 0 <= i < n && w.Contains(existing[i].priority) && existing[i].sourceRange == k;
        if i < n - 1 {
          assert pre[i] == existing[i];
        }
      }
    }
  }

  /** After one more iteration, the last windowed rule of each range is the one recorded. */
  lemma OldRulesStepLast(existing: seq<FirewallRule>, w: Window, m: map<string, int>, m': map<string, int>)
    requires |existing| > 0
    requires var pre := existing[..|existing| - 1];
             forall i :: 0 <= i < |pre| && LastManaged(pre, w, i) ==>
               pre[i].sourceRange in m && m[pre[i].sourceRange] == pre[i].priority
    requires var r := existing[|existing| - 1];
             m' == if w.Contains(r.priority) then m[r.sourceRange := r.priority] else m
    ensures forall i :: 0 <= i < |existing| && LastManaged(existing, w, i) ==>
              existing[i].sourceRange in m' && m'[existing[i].sourceRange] == existing[i].priority
  {
    var n := |existing|;
    var pre := existing[..n - 1];
    forall i | 0 <= i < n && LastManaged(existing, w, i)
      ensures existing[i].sourceRange in m' && m'[existing[i].sourceRange] == existing[i].priority
    {
      if i < n - 1 {
        assert pre[i] == existing[i];
        assert LastManaged(pre, w, i);
      }
    }
  }

  // ---------------------------------------------------------------------------
  // Matching desired ranges against the managed rules
  // ---------------------------------------------------------------------------

  /** The non-empty desired lines. */
  function Lines(desired: seq<string>): set<string> {
    set x | x in desired && x != ""
  }

  /** The scan over the desired lines: an empty line is skipped, a line that is still a key
      consumes that key, and any other line is appended to `newRanges`. */
  function Match(managed: map<string, int>, desired: seq<string>): (m: Matched)
    ensures m.stale == managed - Lines(desired)
    ensures forall x :: x in m.newRanges ==> x != "" && x in desired
    ensures |m.newRanges| <= |desired|
    decreases |desired|
  {
    if |desired| == 0 then Matched(managed, [])
    else
      var line, rest := desired[0], desired[1..];
      assert desired == [line] + rest;
      assert Lines(desired) == Lines(rest) + (if line == "" then {} else {line});
      if line == "" then Match(managed, rest)
      else if line in managed then Match(managed - {line}, rest)
      else
        var m := Match(managed, rest);
        Matched(m.stale, [line] + m.newRanges)
  }

  /** Line `i` ends up in `newRanges`: it is non-empty and either names no managed rule or
      repeats an earlier line, whose first occurrence already consumed the rule. */
  predicate Unclaimed(managed: map<string, int>, desired: seq<string>, i: int)
    requires 0 <= i < |desired|
  {
    desired[i] != "" && (desired[i] !in managed || desired[i] in desired[..i])
  }

  /** Reference definition of `newRanges`: the unclaimed lines from index `i` on, in input order. */
  function UnclaimedFrom(managed: map<string, int>, desired: seq<string>, i: nat): seq<string>
    requires i <= |desired|
    decreases |desired| - i
  {
    if i == |desired| then []
    else (if Unclaimed(managed, desired, i) then [desired[i]] else []) + UnclaimedFrom(managed, desired, i + 1)
  }

  /** Scanning from line `i` with the keys the earlier lines consumed already gone yields
      exactly the unclaimed lines from `i` on. */
  lemma {:induction false} MatchFromSelectsUnclaimed(managed: map<string, int>, desired: seq<string>, i: nat)
    requires i <= |desired|
    ensures Match(managed - Lines(desired[..i]), desired[i..]).newRanges == UnclaimedFrom(managed, desired, i)
    decreases |desired| - i
  {
    if i < |desired| {
      var x := desired[i];
      var cur := managed - Lines(desired[..i]);
      assert desired[i..] == [x] + desired[i + 1..];
      assert desired[i..][1..] == desired[i + 1..];
      assert desired[..i + 1] == desired[..i] + [x];
      assert Lines(desired[..i + 1]) == Lines(desired[..i]) + (if x == "" then {} else {x});
      var next := managed - Lines(desired[..i + 1]);
      MatchFromSelectsUnclaimed(managed, desired, i + 1);
      if x == "" {
        assert next == cur;
      } else if x in cur {
        assert next == cur - {x};
        assert x !in desired[..i];
      } else {
        assert next == cur;
        assert x !in managed || x in desired[..i];
      }
    } else {
      assert desired[i..] == [];
    }
  }

  /** The lines the scan appends to `newRanges` are exactly the unclaimed ones, in input order. */
  lemma MatchAppendsUnclaimed(managed: map<string, int>, desired: seq<string>)
    ensures Match(managed, desired).newRanges == UnclaimedFrom(managed, desired, 0)
  {
    MatchFromSelectsUnclaimed(managed, desired, 0);
    assert desired[..0] == [] && desired[0..] == desired;
    assert managed - Lines([]) == managed;
  }

  /** A range that is both a managed key and a desired line is neither deleted nor created:
      it leaves the stale map, and it is appended only for a repeated line. */
  lemma MatchedRangeUntouched(managed: map<string, int>, desired: seq<string>, x: string)
    requires x in managed && x in Lines(desired)
    ensures x !in Match(managed, desired).stale
    ensures (forall i, j :: 0 <= i < j < |desired| && desired[i] == x ==> desired[j] != x) ==>
              x !in Match(managed, desired).newRanges
  {
    if forall i, j :: 0 <= i < j < |desired| && desired[i] == x ==> desired[j] != x {
      MatchAppendsUnclaimed(managed, desired);
      UnclaimedFromMembers(managed, desired, 0);
    }
  }

  /** Every line in `UnclaimedFrom(.., i)` is an unclaimed line at some index from `i` on. */
  lemma {:induction false} UnclaimedFromMembers(managed: map<string, int>, desired: seq<string>, i: nat)
    requires i <= |desired|
    ensures forall x :: x in UnclaimedFrom(managed, desired, i) ==>
              exists j :: i <= j < |desired| && desired[j] == x && Unclaimed(managed, desired, j)
    decreases |desired| - i
  {
    if i < |desired| {
      UnclaimedFromMembers(managed, desired, i + 1);
    }
  }

  // ---------------------------------------------------------------------------
  // Releasing the priorities of stale rules
  // ---------------------------------------------------------------------------

  /** The priorities of the stale rules, visited in `order`. */
  function Deletions(order: seq<string>, stale: map<string, int>): (ps: seq<int>)
    requires forall k :: k in order ==> k in stale
    ensures |ps| == |order|
    ensures forall i :: 0 <= i < |order| ==> ps[i] == stale[order[i]]
  {
    seq(|order|, i requires 0 <= i < |order| => stale[order[i]])
  }

  /** No element of `s` occurs twice. */
  predicate Distinct<T(==)>(s: seq<T>) {
    forall a, b :: 0 <= a < b < |s| ==> s[a] != s[b]
  }

  /** `order` lists every key of `m` exactly once: one run of Go's map iteration. */
  predicate Enumerates(order: seq<string>, m: map<string, int>) {
    && Distinct(order)
    && (forall k :: k in order ==> k in m)
    && (forall k :: k in m ==> k in order)
  }

  /** Removes each priority of `ps` from `used` in turn, as the deletion loop does: one
      occupied copy goes per released priority, and nothing else. */
  function ReleaseAll(used: seq<int>, ps: seq<int>): (freed: seq<int>)
    ensures forall x :: multiset(freed)[x] == (multiset(used) - multiset(ps))[x]
    decreases |ps|
  {
    if |ps| == 0 then used
    else
      assert ps == [ps[0]] + ps[1..];
      RemoveCount(used, ps[0]);
      ReleaseAll(Remove(used, ps[0]), ps[1..])
  }

  /** Releasing one more priority after a batch removes it from the batch's result. */
  lemma {:induction false} ReleaseSnoc(used: seq<int>, ps: seq<int>, p: int)
    ensures ReleaseAll(used, ps + [p]) == Remove(ReleaseAll(used, ps), p)
    decreases |ps|
  {
    if |ps| == 0 {
      assert ps + [p] == [p];
      assert [p][1..] == [];
    } else {
      assert (ps + [p])[0] == ps[0];
      assert (ps + [p])[1..] == ps[1..] + [p];
      ReleaseSnoc(Remove(used, ps[0]), ps[1..], p);
    }
  }

  /** Any priority of the batch may be released first. */
  lemma {:induction false} ReleaseFirst(used: seq<int>, xs: seq<int>, a: int, ys: seq<int>)
    ensures ReleaseAll(used, xs + [a] + ys) == ReleaseAll(Remove(used, a), xs + ys)
    decreases |xs|
  {
    if |xs| == 0 {
      assert xs + [a] + ys == [a] + ys;
      assert ([a] + ys)[1..] == ys;
      assert xs + ys == ys;
    } else {
      var x := xs[0];
      assert (xs + [a] + ys)[0] == x;
      assert (xs + [a] + ys)[1..] == xs[1..] + [a] + ys;
      assert (xs + ys)[0] == x;
      assert (xs + ys)[1..] == xs[1..] + ys;
      ReleaseFirst(Remove(used, x), xs[1..], a, ys);
      RemoveCommutes(used, x, a);
    }
  }

  /** The deletion loop leaves the same sequence whatever order it visits the stale rules in,
      so the nondeterministic iteration of the stale map cannot change the outcome. */
  lemma {:induction false} ReleaseOrderIrrelevant(used: seq<int>, ps: seq<int>, qs: seq<int>)
    requires multiset(ps) == multiset(qs)
    ensures ReleaseAll(used, ps) == ReleaseAll(used, qs)
    decreases |ps|
  {
    if |ps| == 0 {
      assert |qs| == |multiset(qs)| == 0;
    } else {
      var a, ps' := ps[0], ps[1..];
      assert ps == [a] + ps';
      assert multiset(ps') == multiset(ps) - multiset{a};
      assert a in multiset(qs);
      var xs, ys := SplitAt(qs, a);
      ReleaseFirst(used, xs, a, ys);
      ReleaseOrderIrrelevant(Remove(used, a), ps', xs + ys);
    }
  }

  /** Cutting a sequence around one occurrence of `k` leaves the other elements. */
  lemma SplitAt<T>(o: seq<T>, k: T) returns (a: seq<T>, b: seq<T>)
    requires k in o
    ensures o == a + [k] + b
    ensures multiset(a + b) == multiset(o) - multiset{k}
  {
    var t :| 0 <= t < |o| && o[t] == k;
    a, b := o[..t], o[t + 1..];
    assert o == a + [k] + b;
    assert multiset(o) == multiset(a) + multiset{k} + multiset(b);
    assert multiset(a + b) == multiset(a) + multiset(b);
  }

  // ---------------------------------------------------------------------------
  // Assigning priorities to new ranges
  // ---------------------------------------------------------------------------

  /** A strict upper bound of the entries of `c`; it bounds the priority search. */
  function Ceiling(c: seq<int>): (b: int)
    ensures forall x :: x in c ==> x < b
  {
    if |c| == 0 then 0
    else
      var b := Ceiling(c[1..]);
      assert c == [c[0]] + c[1..];
      if c[0] < b then b else c[0] + 1
  }

  /** The inner search loop: step upward from `p` while the candidate is occupied. */
  function NextFree(used: seq<int>, p: int): (q: int)
    ensures p <= q
    ensures q !in used
    ensures forall x :: p <= x < q ==> x in used
    decreases Ceiling(used) - p
  {
    if Include(used, p) then NextFree(used, p + 1) else p
  }

  /** The creation loop: each new range takes the next free priority at or above the last
      one handed out, which is reserved before the next range is served. The new rules carry
      the ranges in order; their priorities start at `p`, avoid every occupied priority and
      strictly increase, so no two of them collide either. */
  function Assign(used: seq<int>, ranges: seq<string>, p: int, action: Action, comment: string)
    : (created: seq<FirewallRule>)
    ensures |created| == |ranges|
    ensures forall i :: 0 <= i < |ranges| ==>
              created[i] == FirewallRule(action, comment, created[i].priority, ranges[i])
    ensures forall i :: 0 <= i < |created| ==> p <= created[i].priority && created[i].priority !in used
    ensures forall i, j :: 0 <= i < j < |created| ==> created[i].priority < created[j].priority
    decreases |ranges|
  {
    if |ranges| == 0 then []
    else
      var q := NextFree(used, p);
      [FirewallRule(action, comment, q, ranges[0])] + Assign(used + [q], ranges[1..], q, action, comment)
  }

  /** First fit: a free priority between the start and an assigned one was handed out to an
      earlier range, so the new rules fill the lowest free slots without gaps. */
  lemma AssignFirstFit(used: seq<int>, ranges: seq<string>, p: int, action: Action, comment: string)
    ensures var created := Assign(used, ranges, p, action, comment);
            forall i, x :: 0 <= i < |created| && p <= x < created[i].priority && x !in used ==>
              exists j :: 0 <= j < i && created[j].priority == x
  {
    var created := Assign(used, ranges, p, action, comment);
    forall i, x | 0 <= i < |created| && p <= x < created[i].priority && x !in used
      ensures exists j :: 0 <= j < i && created[j].priority == x
    {
      var j := FirstFitWitness(used, ranges, p, action, comment, i, x);
    }
  }

  /** The earlier range that took the free priority `x` below the `i`-th assigned one. */
  lemma {:induction false} FirstFitWitness(used: seq<int>, ranges: seq<string>, p: int, action: Action,
                                           comment: string, i: int, x: int) returns (j: int)
    requires 0 <= i < |ranges|
    requires p <= x < Assign(used, ranges, p, action, comment)[i].priority && x !in used
    ensures 0 <= j < i && Assign(used, ranges, p, action, comment)[j].priority == x
    decreases |ranges|
  {
    var created := Assign(used, ranges, p, action, comment);
    var q := NextFree(used, p);
    var rest := Assign(used + [q], ranges[1..], q, action, comment);
    assert created == [FirewallRule(action, comment, q, ranges[0])] + rest;
    if x < q {
      assert false;
    } else if x == q {
      assert i > 0;
      j := 0;
    } else {
      assert i > 0;
      assert rest[i - 1] == created[i];
      assert x !in used + [q];
      var j' := FirstFitWitness(used + [q], ranges[1..], q, action, comment, i - 1, x);
      j := j' + 1;
      assert created[j] == rest[j'];
    }
  }

  // ---------------------------------------------------------------------------
  // One reconciliation run
  // ---------------------------------------------------------------------------

  /** The whole run, with `order` the iteration order of the stale-rule map. */
  function Reconcile(existing: seq<FirewallRule>, desired: seq<string>, w: Window,
                     action: Action, comment: string, order: seq<string>): (plan: Plan)
    requires Enumerates(order, Match(OldRules(existing, w), desired).stale)
    ensures var stale := Match(OldRules(existing, w), desired).stale;
            && |plan.deleted| == |order| == |stale|
            && (forall i :: 0 <= i < |order| ==> plan.deleted[i] == stale[order[i]])
            && (forall k :: k in stale ==> stale[k] in plan.deleted)
            && (forall p :: p in plan.deleted ==> p in stale.Values)
    ensures forall p :: p in plan.deleted ==> w.Contains(p)
    ensures var wanted := Match(OldRules(existing, w), desired).newRanges;
            |plan.created| == |wanted| &&
            forall i :: 0 <= i < |wanted| ==>
              plan.created[i] == FirewallRule(action, comment, plan.created[i].priority, wanted[i])
    ensures forall c :: c in plan.created ==> w.base <= c.priority
    ensures forall c, r :: c in plan.created && r in existing && r.priority !in plan.deleted ==>
              c.priority != r.priority
    ensures forall i, j :: 0 <= i < j < |plan.created| ==> plan.created[i].priority < plan.created[j].priority
  {
    var used := UsedPriorities(existing);
    var m := Match(OldRules(existing, w), desired);
    var deleted := Deletions(order, m.stale);
    var freed := ReleaseAll(used, deleted);
    var created := Assign(freed, m.newRanges, w.base, action, comment);
    DeletedCoverStale(order, m.stale);
    SurvivorsStayUsed(existing, used, deleted, freed);
    Plan(deleted, created)
  }

  /** The deleted priorities are exactly the values of the stale map, one per key. */
  lemma DeletedCoverStale(order: seq<string>, stale: map<string, int>)
    requires Enumerates(order, stale)
    ensures |Deletions(order, stale)| == |stale.Keys|
    ensures forall k :: k in stale ==> stale[k] in Deletions(order, stale)
    ensures forall p :: p in Deletions(order, stale) ==> p in stale.Values
    ensures forall p :: multiset(Deletions(order, stale))[p] == |set k | k in stale && stale[k] == p|
  {
    var ps := Deletions(order, stale);
    forall p ensures multiset(ps)[p] == |set k | k in stale && stale[k] == p| {
      DeletionsCount(order, stale, p);
      assert (set k | k in order && k in stale && stale[k] == p) == (set k | k in stale && stale[k] == p);
    }
    forall k | k in stale
      ensures stale[k] in ps
    {
      var i :| 0 <= i < |order| && order[i] == k;
      assert ps[i] == stale[k];
    }
    DistinctCount(order, stale.Keys);
  }

  /** Over keys visited once each, a priority is deleted as often as visited keys hold it. */
  lemma {:induction false} DeletionsCount(order: seq<string>, stale: map<string, int>, p: int)
    requires Distinct(order) && forall k :: k in order ==> k in stale
    ensures multiset(Deletions(order, stale))[p] == |set k | k in order && k in stale && stale[k] == p|
    decreases |order|
  {
    if |order| == 0 {
      assert (set k | k in stale && stale[k] == p && k in order) == {};
    } else {
      var last := order[|order| - 1];
      var pre := order[..|order| - 1];
      assert order == pre + [last];
      DistinctInit(order);
      DeletionsCount(pre, stale, p);
      assert Deletions(order, stale) == Deletions(pre, stale) + [stale[last]];
      HoldersSnoc(pre, last, stale, p);
    }
  }

  /** Dropping the last element of a duplicate-free sequence keeps it duplicate-free, and the
      dropped element does not occur in the rest. */
  lemma DistinctInit<T>(order: seq<T>)
    requires Distinct(order) && |order| > 0
    ensures Distinct(order[..|order| - 1]) && order[|order| - 1] !in order[..|order| - 1]
  {
    var pre := order[..|order| - 1];
    forall a, b | 0 <= a < b < |pre| ensures pre[a] != pre[b] {
      assert pre[a] == order[a] && pre[b] == order[b];
    }
    forall a | 0 <= a < |pre| ensures pre[a] != order[|order| - 1] {
      assert pre[a] == order[a];
    }
  }

  /** Appending a fresh key adds it to the keys holding `p` exactly when it holds `p`. */
  lemma HoldersSnoc(pre: seq<string>, last: string, stale: map<string, int>, p: int)
    requires last !in pre && last in stale && forall k :: k in pre ==> k in stale
    ensures |set k | k in pre + [last] && k in stale && stale[k] == p|
            == |set k | k in pre && k in stale && stale[k] == p| + if stale[last] == p then 1 else 0
  {
    var s, s' := set k | k in pre && k in stale && stale[k] == p, set k | k in pre + [last] && k in stale && stale[k] == p;
    if stale[last] == p {
      assert s' == s + {last};
    } else {
      assert s' == s;
    }
  }

  /** A duplicate-free sequence listing a set has the set's size. */
  lemma {:induction false} DistinctCount(order: seq<string>, keys: set<string>)
    requires Distinct(order)
    requires forall k :: k in order <==> k in keys
    ensures |order| == |keys|
    decreases |order|
  {
    if |order| > 0 {
      var last := order[|order| - 1];
      var pre := order[..|order| - 1];
      assert forall k :: k in pre <==> k in keys - {last} by {
        forall k ensures k in pre <==> k in keys - {last} {
          if k in pre {
            var i :| 0 <= i < |pre| && pre[i] == k;
            assert order[i] == k;
          }
          if k in keys - {last} {
            var i :| 0 <= i < |order| && order[i] == k;
            assert i != |order| - 1;
            assert pre[i] == k;
          }
        }
      }
      DistinctCount(pre, keys - {last});
    } else {
      assert forall k :: k !in keys;
      assert keys == {};
    }
  }

  /** A rule whose priority is not deleted keeps its priority occupied after the release. */
  lemma SurvivorsStayUsed(existing: seq<FirewallRule>, used: seq<int>, deleted: seq<int>, freed: seq<int>)
    requires used == UsedPriorities(existing)
    requires freed == ReleaseAll(used, deleted)
    ensures forall r :: r in existing && r.priority !in deleted ==> r.priority in freed
  {
    forall r | r in existing && r.priority !in deleted
      ensures r.priority in freed
    {
      var p := r.priority;
      var i :| 0 <= i < |existing| && existing[i] == r;
      assert used[i] == p;
      assert multiset(used)[p] > 0;
      assert multiset(deleted)[p] == 0;
      assert multiset(freed)[p] == multiset(used)[p] - multiset(deleted)[p];
    }
  }
}
