/**
  The body of the closure `actionFor` returns in main.go, as an imperative method
  that follows its three loops: partition the listed rules, scan the desired
  lines, delete the stale rules, then create the new ones. The firewall API
  becomes a log of the calls the run would issue; in dry-run mode every call is
  still reported but none is issued.
 */
module FirewallRun {
  import opened PrioritySet
  import opened Reconciler

  /** A mutating call against the ingress-rules API. */
  datatype Call = DeleteRule(priority: int) | CreateRule(rule: FirewallRule)

  /** One delete call per priority, in order. */
  function DeleteCalls(ps: seq<int>): (calls: seq<Call>)
    ensures |calls| == |ps|
    ensures forall i :: 0 <= i < |ps| ==> calls[i] == DeleteRule(ps[i])
  {
    seq(|ps|, i requires 0 <= i < |ps| => DeleteRule(ps[i]))
  }

  /** One create call per rule, in order. */
  function CreateCalls(rules: seq<FirewallRule>): (calls: seq<Call>)
    ensures |calls| == |rules|
    ensures forall i :: 0 <= i < |rules| ==> calls[i] == CreateRule(rules[i])
  {
    seq(|rules|, i requires 0 <= i < |rules| => CreateRule(rules[i]))
  }

  /** The calls that carry out a plan: every deletion, then every creation. */
  function CallsFor(plan: Plan): seq<Call> {
    DeleteCalls(plan.deleted) + CreateCalls(plan.created)
  }

  /** One run. `reported` is what the run prints (one line per call, with or without the
      dry-run prefix), `issued` what it sends to the API; `order` is the order in which the
      stale-rule map happened to be iterated. */
  method ActionFor(existing: seq<FirewallRule>, desired: seq<string>, w: Window,
                   action: Action, comment: string, dryrun: bool)
    returns (plan: Plan, reported: seq<Call>, issued: seq<Call>, ghost order: seq<string>)
    ensures Enumerates(order, Match(OldRules(existing, w), desired).stale)
    ensures plan == Reconcile(existing, desired, w, action, comment, order)
    ensures reported == CallsFor(plan)
    ensures issued == if dryrun then [] else reported
  {
    var used, managed := PartitionRules(existing, w);
    var stale, newRanges := ScanDesired(managed, desired);
    var freed, deleted, deleteReported, deleteIssued;
    freed, deleted, deleteReported, deleteIssued, order := DeleteStale(used, stale, dryrun);
    var created, createReported, createIssued := CreateNew(freed, newRanges, w.base, action, comment, dryrun);
    plan := Plan(deleted, created);
    reported := deleteReported + createReported;
    issued := deleteIssued + createIssued;
  }

  /** The partition loop: every priority is occupied, windowed rules are indexed by source range. */
  method PartitionRules(existing: seq<FirewallRule>, w: Window) returns (used: seq<int>, managed: map<string, int>)
    ensures used == UsedPriorities(existing)
    ensures managed == OldRules(existing, w)
  {
    used, managed := [], map[];
    var i := 0;
    while i < |existing|
      invariant 0 <= i <= |existing|
      invariant used == UsedPriorities(existing[..i])
      invariant managed == OldRules(existing[..i], w)
    {
      var rule := existing[i];
      PartitionSnoc(existing, w, i);
      used := used + [rule.priority];
      if w.Contains(rule.priority) {
        managed := managed[rule.sourceRange := rule.priority];
      }
      i := i + 1;
    }
    assert existing[..|existing|] == existing;
  }

  /** The scan of the input lines: a line that is still a key consumes it; other non-empty
      lines are new. */
  method ScanDesired(managed: map<string, int>, desired: seq<string>)
    returns (stale: map<string, int>, newRanges: seq<string>)
    ensures Matched(stale, newRanges) == Match(managed, desired)
  {
    stale, newRanges := managed, [];
    var j := 0;
    while j < |desired|
      invariant 0 <= j <= |desired|
      invariant Match(stale, desired[j..]).stale == Match(managed, desired).stale
      invariant newRanges + Match(stale, desired[j..]).newRanges == Match(managed, desired).newRanges
    {
      var line := desired[j];
      assert desired[j..] == [line] + desired[j + 1..];
      assert desired[j..][1..] == desired[j + 1..];
      if line != "" {
        if line in stale {
          stale := stale - {line};
        } else {
          newRanges := newRanges + [line];
        }
      }
      j := j + 1;
    }
    assert desired[|desired|..] == [];
  }

  /** The deletion loop: release each stale priority, in whatever order the map yields its keys. */
  method DeleteStale(used: seq<int>, stale: map<string, int>, dryrun: bool)
    returns (freed: seq<int>, deleted: seq<int>, reported: seq<Call>, issued: seq<Call>, order: seq<string>)
    ensures Enumerates(order, stale)
    ensures deleted == Deletions(order, stale)
    ensures freed == ReleaseAll(used, deleted)
    ensures reported == DeleteCalls(deleted)
    ensures issued == if dryrun then [] else reported
  {
    order := IterationOrder(stale);
    freed, deleted, reported, issued := DeleteInOrder(used, stale, order, dryrun);
  }

  /** The body of the deletion loop, run over the keys in the order given. */
  method DeleteInOrder(used: seq<int>, stale: map<string, int>, order: seq<string>, dryrun: bool)
    returns (freed: seq<int>, deleted: seq<int>, reported: seq<Call>, issued: seq<Call>)
    requires forall k :: k in order ==> k in stale
    ensures deleted == Deletions(order, stale)
    ensures freed == ReleaseAll(used, deleted)
    ensures reported == DeleteCalls(deleted)
    ensures issued == if dryrun then [] else reported
  {
    freed, deleted, reported, issued := used, [], [], [];
    var i := 0;
    while i < |order|
      invariant 0 <= i <= |order|
      invariant deleted == Deletions(order[..i], stale)
      invariant freed == ReleaseAll(used, deleted)
      invariant reported == DeleteCalls(deleted)
      invariant issued == if dryrun then [] else reported
    {
      var p := stale[order[i]];
      DeleteStep(used, stale, order, i, deleted, freed, reported);
      freed := Remove(freed, p);
      deleted := deleted + [p];
      reported := reported + [DeleteRule(p)];
      if !dryrun {
        issued := issued + [DeleteRule(p)];
      }
      i := i + 1;
    }
    assert order[..|order|] == order;
  }

  /** Some order in which iterating over the map visits its keys; Go leaves the order unspecified. */
  method IterationOrder(m: map<string, int>) returns (order: seq<string>)
    ensures Enumerates(order, m)
  {
    var pending := m.Keys;
    order := [];
    while pending != {}
      invariant pending <= m.Keys
      invariant forall k :: k in order ==> k in m && k !in pending
      invariant forall k :: k in m ==> k in pending || k in order
      invariant Distinct(order)
      decreases pending
    {
      var k :| k in pending;
      order := order + [k];
      pending := pending - {k};
    }
  }

  /** The creation loop: each new range takes the next free priority, reserved at once. */
  method CreateNew(used: seq<int>, newRanges: seq<string>, base: int, action: Action, comment: string, dryrun: bool)
    returns (created: seq<FirewallRule>, reported: seq<Call>, issued: seq<Call>)
    ensures created == Assign(used, newRanges, base, action, comment)
    ensures reported == CreateCalls(created)
    ensures issued == if dryrun then [] else reported
  {
    var occupied := used;
    var priority := base;
    created, reported, issued := [], [], [];
    var n := 0;
    while n < |newRanges|
      invariant 0 <= n <= |newRanges|
      invariant created + Assign(occupied, newRanges[n..], priority, action, comment)
                == Assign(used, newRanges, base, action, comment)
      invariant reported == CreateCalls(created)
      invariant issued == if dryrun then [] else reported
    {
      ghost var start := priority;
      priority := SearchFree(occupied, priority);
      var rule := FirewallRule(action, comment, priority, newRanges[n]);
      CreateStep(created, occupied, newRanges, n, start, action, comment);
      occupied := occupied + [priority];
      CreateCallsSnoc(created, rule);
      created := created + [rule];
      reported := reported + [CreateRule(rule)];
      if !dryrun {
        issued := issued + [CreateRule(rule)];
      }
      n := n + 1;
    }
    assert newRanges[|newRanges|..] == [];
  }

  /** The inner search loop: step upward while the candidate priority is occupied. */
  method SearchFree(occupied: seq<int>, start: int) returns (priority: int)
    ensures priority == NextFree(occupied, start)
  {
    priority := start;
    while Include(occupied, priority)
      invariant start <= priority <= NextFree(occupied, start)
      invariant NextFree(occupied, priority) == NextFree(occupied, start)
      decreases NextFree(occupied, start) - priority
    {
      priority := priority + 1;
    }
  }

  /** One iteration of the creation loop: the rule made for range `n` is the head of what
      remains to be assigned. */
  lemma CreateStep(created: seq<FirewallRule>, occupied: seq<int>, newRanges: seq<string>, n: int, p: int,
                   action: Action, comment: string)
    requires 0 <= n < |newRanges|
    ensures var q := NextFree(occupied, p);
            created + Assign(occupied, newRanges[n..], p, action, comment)
            == (created + [FirewallRule(action, comment, q, newRanges[n])])
               + Assign(occupied + [q], newRanges[n + 1..], q, action, comment)
  {
    var q := NextFree(occupied, p);
    var rest := newRanges[n..];
    AssignStep(occupied, rest, p, action, comment);
    assert rest[1..] == newRanges[n + 1..];
    var rule := FirewallRule(action, comment, q, newRanges[n]);
    var after := Assign(occupied + [q], newRanges[n + 1..], q, action, comment);
    assert created + [rule] + after == created + ([rule] + after);
  }

  /** Serving the first pending range splits the assignment into its head and the rest. */
  lemma AssignStep(occupied: seq<int>, rest: seq<string>, p: int, action: Action, comment: string)
    requires |rest| > 0
    ensures var q := NextFree(occupied, p);
            Assign(occupied, rest, p, action, comment)
            == [FirewallRule(action, comment, q, rest[0])] + Assign(occupied + [q], rest[1..], q, action, comment)
  {
  }

  /** One more listed rule extends the occupied list and, when windowed, records its range. */
  lemma PartitionSnoc(existing: seq<FirewallRule>, w: Window, i: int)
    requires 0 <= i < |existing|
    ensures UsedPriorities(existing[..i + 1]) == UsedPriorities(existing[..i]) + [existing[i].priority]
    ensures OldRules(existing[..i + 1], w)
            == if w.Contains(existing[i].priority)
               then OldRules(existing[..i], w)[existing[i].sourceRange := existing[i].priority]
               else OldRules(existing[..i], w)
  {
    assert existing[..i + 1][..i] == existing[..i];
  }

  /** One turn of the deletion loop extends the deletions, the released list and the call log
      by the next visited key's priority. */
  lemma DeleteStep(used: seq<int>, stale: map<string, int>, order: seq<string>, i: int,
                   deleted: seq<int>, freed: seq<int>, reported: seq<Call>)
    requires 0 <= i < |order| && forall k :: k in order ==> k in stale
    requires deleted == Deletions(order[..i], stale)
    requires freed == ReleaseAll(used, deleted)
    requires reported == DeleteCalls(deleted)
    ensures deleted + [stale[order[i]]] == Deletions(order[..i + 1], stale)
    ensures Remove(freed, stale[order[i]]) == ReleaseAll(used, deleted + [stale[order[i]]])
    ensures reported + [DeleteRule(stale[order[i]])] == DeleteCalls(deleted + [stale[order[i]]])
  {
    assert order[..i + 1] == order[..i] + [order[i]];
    DeletionsSnoc(order[..i], order[i], stale);
    DeleteCallsSnoc(deleted, stale[order[i]]);
    ReleaseSnoc(used, deleted, stale[order[i]]);
  }

  /** Looking up one more key appends its priority. */
  lemma DeletionsSnoc(order: seq<string>, k: string, stale: map<string, int>)
    requires forall k' :: k' in order ==> k' in stale
    requires k in stale
    ensures Deletions(order + [k], stale) == Deletions(order, stale) + [stale[k]]
  {
  }

  /** One more deleted priority appends one delete call. */
  lemma DeleteCallsSnoc(ps: seq<int>, p: int)
    ensures DeleteCalls(ps + [p]) == DeleteCalls(ps) + [DeleteRule(p)]
  {
  }

  /** One more created rule appends one create call. */
  lemma CreateCallsSnoc(rules: seq<FirewallRule>, rule: FirewallRule)
    ensures CreateCalls(rules + [rule]) == CreateCalls(rules) + [CreateRule(rule)]
  {
  }
}
