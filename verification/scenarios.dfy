/**
  Concrete runs: the worked example of a reconciliation, the boundary where the window is
  full, and the two inputs on which a second run is not quiet.
 */
module Scenarios {
  import opened PrioritySet
  import opened Reconciler
  import opened RunProperties

  // ---------------------------------------------------------------------------
  // A stale rule gives its priority to a new range
  // ---------------------------------------------------------------------------

  /** Two windowed rules; the first one's range is no longer wanted. */
  function ListedRules(): seq<FirewallRule> {
    [FirewallRule(Allow, "", 8000, "1.2.3.0/24"), FirewallRule(Allow, "", 8001, "5.6.7.0/24")]
  }

  lemma ListedPartition()
    ensures OldRules(ListedRules(), Window(8000, 8999)) == map["1.2.3.0/24" := 8000, "5.6.7.0/24" := 8001]
    ensures UsedPriorities(ListedRules()) == [8000, 8001]
  {
    var existing := ListedRules();
    assert existing[..1][..0] == [];
    assert existing[..1] == [existing[0]];
  }

  lemma ListedMatch()
    ensures Match(map["1.2.3.0/24" := 8000, "5.6.7.0/24" := 8001], ["5.6.7.0/24", "9.9.9.0/24"])
            == Matched(map["1.2.3.0/24" := 8000], ["9.9.9.0/24"])
  {
    var d := ["5.6.7.0/24", "9.9.9.0/24"];
    assert d[1..] == ["9.9.9.0/24"];
    assert d[1..][1..] == [];
    assert map["1.2.3.0/24" := 8000, "5.6.7.0/24" := 8001] - {"5.6.7.0/24"} == map["1.2.3.0/24" := 8000];
  }

  lemma ListedAssign()
    ensures ReleaseAll([8000, 8001], [8000]) == [8001]
    ensures Assign([8001], ["9.9.9.0/24"], 8000, Allow, "by fw-updater")
            == [FirewallRule(Allow, "by fw-updater", 8000, "9.9.9.0/24")]
  {
    assert IndexOf([8000, 8001], 8000) == 0;
    assert Remove([8000, 8001], 8000) == [8001];
    assert [8000][1..] == [];
    assert !Include([8001], 8000);
    assert ["9.9.9.0/24"][1..] == [];
  }

  /** The stale rule at 8000 is deleted before creation starts, so the new range takes 8000. */
  lemma StalePriorityIsReused()
    ensures Reconcile(ListedRules(), ["5.6.7.0/24", "9.9.9.0/24"], Window(8000, 8999), Allow, "by fw-updater",
                      ["1.2.3.0/24"])
            == Plan([8000], [FirewallRule(Allow, "by fw-updater", 8000, "9.9.9.0/24")])
  {
    ListedPartition();
    ListedMatch();
    ListedAssign();
    assert Deletions(["1.2.3.0/24"], map["1.2.3.0/24" := 8000]) == [8000];
  }

  // ---------------------------------------------------------------------------
  // A full window overflows
  // ---------------------------------------------------------------------------

  /** The one-slot window [1, 1] is taken by a matched rule, so the new range lands on 2. */
  lemma FullWindowConcrete()
    ensures var plan := Reconcile([FirewallRule(Deny, "", 1, "a")], ["a", "b"], Window(1, 1), Deny, "", []);
            plan == Plan([], [FirewallRule(Deny, "", 2, "b")]) && !Window(1, 1).Contains(plan.created[0].priority)
  {
    var existing := [FirewallRule(Deny, "", 1, "a")];
    assert existing[..0] == [];
    assert OldRules(existing, Window(1, 1)) == map["a" := 1];
    assert UsedPriorities(existing) == [1];
    var d := ["a", "b"];
    assert d[1..] == ["b"] && d[1..][1..] == [];
    assert map["a" := 1] - {"a"} == map[];
    assert Match(map["a" := 1], d) == Matched(map[], ["b"]);
    assert Include([1], 1) && !Include([1], 2);
    assert NextFree([1], 1) == 2;
    assert ["b"][1..] == [];
  }

  /** The rule created above the window is not managed on the next run, so its range is
      created once more, one slot higher. */
  lemma FullWindowSecondRun(after: seq<FirewallRule>)
    requires after == [FirewallRule(Deny, "", 1, "a"), FirewallRule(Deny, "", 2, "b")]
    ensures OldRules(after, Window(1, 1)) == map["a" := 1]
    ensures Reconcile(after, ["a", "b"], Window(1, 1), Deny, "", []) == Plan([], [FirewallRule(Deny, "", 3, "b")])
  {
    assert after[..1][..0] == [];
    assert after[..1] == [after[0]];
    assert OldRules(after, Window(1, 1)) == map["a" := 1];
    assert UsedPriorities(after) == [1, 2];
    var d := ["a", "b"];
    assert d[1..] == ["b"] && d[1..][1..] == [];
    assert map["a" := 1] - {"a"} == map[];
    assert Match(map["a" := 1], d) == Matched(map[], ["b"]);
    assert Include([1, 2], 1) && Include([1, 2], 2) && !Include([1, 2], 3);
    assert NextFree([1, 2], 1) == 3;
    assert ["b"][1..] == [];
  }

  /** Overflow makes the run noisy: every run over the applied result creates the
      overflowing range again. */
  lemma FullWindowIsRecreated()
    ensures var existing, w := [FirewallRule(Deny, "", 1, "a")], Window(1, 1);
            var first := Reconcile(existing, ["a", "b"], w, Deny, "", []);
            var after := Apply(existing, first);
            && first == Plan([], [FirewallRule(Deny, "", 2, "b")])
            && after == [FirewallRule(Deny, "", 1, "a"), FirewallRule(Deny, "", 2, "b")]
            && Reconcile(after, ["a", "b"], w, Deny, "", []) == Plan([], [FirewallRule(Deny, "", 3, "b")])
  {
    FullWindowConcrete();
    FullWindowApplied([FirewallRule(Deny, "", 1, "a")]);
    FullWindowSecondRun([FirewallRule(Deny, "", 1, "a"), FirewallRule(Deny, "", 2, "b")]);
  }

  lemma FullWindowApplied(existing: seq<FirewallRule>)
    requires existing == [FirewallRule(Deny, "", 1, "a")]
    ensures Apply(existing, Plan([], [FirewallRule(Deny, "", 2, "b")]))
            == [FirewallRule(Deny, "", 1, "a"), FirewallRule(Deny, "", 2, "b")]
  {
    assert existing[1..] == [];
    assert Survivors(existing, []) == existing;
  }

  // ---------------------------------------------------------------------------
  // Inputs on which a second run is not quiet
  // ---------------------------------------------------------------------------

  /** A repeated desired line is created twice, and created once more on every later run:
      the second line never finds its key, which the first line consumed. */
  lemma RepeatedLineIsRecreated()
    ensures var w := Window(1, 10);
            var first := Reconcile([], ["a", "a"], w, Allow, "", []);
            && first == Plan([], [FirewallRule(Allow, "", 1, "a"), FirewallRule(Allow, "", 2, "a")])
            && Match(OldRules(Apply([], first), w), ["a", "a"]) == Matched(map[], ["a"])
            && Reconcile(Apply([], first), ["a", "a"], w, Allow, "", []) == Plan([], [FirewallRule(Allow, "", 3, "a")])
  {
    RepeatedFirstRun();
    var after := [FirewallRule(Allow, "", 1, "a"), FirewallRule(Allow, "", 2, "a")];
    assert Apply([], Plan([], after)) == after;
    RepeatedSecondRun(after);
  }

  lemma RepeatedFirstRun()
    ensures Reconcile([], ["a", "a"], Window(1, 10), Allow, "", [])
            == Plan([], [FirewallRule(Allow, "", 1, "a"), FirewallRule(Allow, "", 2, "a")])
  {
    var d := ["a", "a"];
    assert OldRules([], Window(1, 10)) == map[];
    assert UsedPriorities([]) == [];
    assert d[1..] == ["a"] && d[1..][1..] == [];
    assert Match(map[], d) == Matched(map[], ["a", "a"]);
    assert Deletions([], map[]) == [];
    assert ReleaseAll([], []) == [];
    assert NextFree([], 1) == 1;
    assert Include([1], 1) && !Include([1], 2);
    assert NextFree([1], 1) == 2;
    assert Assign([1], ["a"], 1, Allow, "") == [FirewallRule(Allow, "", 2, "a")] by {
      assert ["a"][1..] == [];
    }
    assert Assign([], d, 1, Allow, "") == [FirewallRule(Allow, "", 1, "a"), FirewallRule(Allow, "", 2, "a")];
  }

  lemma RepeatedSecondRun(after: seq<FirewallRule>)
    requires after == [FirewallRule(Allow, "", 1, "a"), FirewallRule(Allow, "", 2, "a")]
    ensures Match(OldRules(after, Window(1, 10)), ["a", "a"]) == Matched(map[], ["a"])
    ensures Reconcile(after, ["a", "a"], Window(1, 10), Allow, "", []) == Plan([], [FirewallRule(Allow, "", 3, "a")])
  {
    assert after[..1][..0] == [];
    assert after[..1] == [after[0]];
    assert OldRules(after, Window(1, 10)) == map["a" := 2];
    assert UsedPriorities(after) == [1, 2];
    var d := ["a", "a"];
    assert d[1..] == ["a"] && d[1..][1..] == [];
    assert map["a" := 2] - {"a"} == map[];
    assert Match(map["a" := 2], d) == Matched(map[], ["a"]);
    assert Include([1, 2], 1) && Include([1, 2], 2) && !Include([1, 2], 3);
    assert NextFree([1, 2], 2) == 3;
    assert NextFree([1, 2], 1) == 3;
    assert ["a"][1..] == [];
  }

  /** Of two windowed rules with the same range, only the later one is in the managed map,
      so an unwanted range loses one rule per run. */
  lemma ShadowedRuleSurvives()
    ensures var w := Window(1, 10);
            var existing := [FirewallRule(Allow, "", 1, "a"), FirewallRule(Allow, "", 2, "a")];
            var first := Reconcile(existing, [], w, Allow, "", ["a"]);
            && first == Plan([2], [])
            && Apply(existing, first) == [FirewallRule(Allow, "", 1, "a")]
            && Reconcile(Apply(existing, first), [], w, Allow, "", ["a"]) == Plan([1], [])
  {
    ShadowedFirstRun();
    ShadowedSecondRun();
  }

  lemma ShadowedFirstRun()
    ensures var existing := [FirewallRule(Allow, "", 1, "a"), FirewallRule(Allow, "", 2, "a")];
            && Reconcile(existing, [], Window(1, 10), Allow, "", ["a"]) == Plan([2], [])
            && Apply(existing, Plan([2], [])) == [FirewallRule(Allow, "", 1, "a")]
  {
    var w := Window(1, 10);
    var existing := [FirewallRule(Allow, "", 1, "a"), FirewallRule(Allow, "", 2, "a")];
    assert existing[..1][..0] == [];
    assert existing[..1] == [existing[0]];
    assert OldRules(existing, w) == map["a" := 2];
    assert Match(map["a" := 2], []) == Matched(map["a" := 2], []);
    assert Deletions(["a"], map["a" := 2]) == [2];
    ShadowedSurvivor(existing);
  }

  lemma ShadowedSurvivor(existing: seq<FirewallRule>)
    requires existing == [FirewallRule(Allow, "", 1, "a"), FirewallRule(Allow, "", 2, "a")]
    ensures Apply(existing, Plan([2], [])) == [FirewallRule(Allow, "", 1, "a")]
  {
    assert existing[1..] == [existing[1]];
    assert existing[1..][1..] == [];
    assert Survivors(existing, [2]) == [existing[0]];
  }

  /** A shadowed range is harmless when its range is wanted: the later rule consumes the line,
      nothing is stale or new, and the applied result is the listing itself. */
  lemma ShadowedButWanted(existing: seq<FirewallRule>)
    requires existing == [FirewallRule(Allow, "", 1, "a"), FirewallRule(Allow, "", 2, "a")]
    ensures Reconcile(existing, ["a"], Window(1, 10), Allow, "", []) == Plan([], [])
    ensures Apply(existing, Plan([], [])) == existing
  {
    assert existing[..1][..0] == [];
    assert existing[..1] == [existing[0]];
    assert OldRules(existing, Window(1, 10)) == map["a" := 2];
    var d := ["a"];
    assert d[1..] == [];
    assert map["a" := 2] - {"a"} == map[];
    assert Match(map["a" := 2], d) == Matched(map[], []);
    assert existing[1..][1..] == [];
    assert Survivors(existing, []) == existing;
  }

  lemma ShadowedSecondRun()
    ensures Reconcile([FirewallRule(Allow, "", 1, "a")], [], Window(1, 10), Allow, "", ["a"]) == Plan([1], [])
  {
    var w := Window(1, 10);
    var after := [FirewallRule(Allow, "", 1, "a")];
    assert after[..0] == [];
    assert OldRules(after, w) == map["a" := 1];
    assert Match(map["a" := 1], []) == Matched(map["a" := 1], []);
    assert Deletions(["a"], map["a" := 1]) == [1];
  }
}
