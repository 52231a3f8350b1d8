/**
 * `optimizePluginsArray`: groups the flat plugin list into maximal runs of
 * adjacent plugins that share the same `type`, so that svgo runs each run of
 * per-item plugins in a single pass over the tree.
 */
module PluginGroups {
  import opened Plugins

  /** The groups concatenated, in order. */
  function Flatten(gs: seq<seq<Plugin>>): (ps: seq<Plugin>)
    decreases |gs|
  {
    if gs == [] then [] else Flatten(gs[..|gs| - 1]) + gs[|gs| - 1]
  }

  /** Every group is non-empty and all its members have the `type` of its first member. */
  ghost predicate Homogeneous(gs: seq<seq<Plugin>>)
  {
    forall i :: 0 <= i < |gs| ==>
      |gs[i]| > 0 && forall j :: 0 <= j < |gs[i]| ==> gs[i][j].kind == gs[i][0].kind
  }

  /** Adjacent groups differ in `type`, so no two neighbouring runs could be merged. */
  ghost predicate Maximal(gs: seq<seq<Plugin>>)
    requires Homogeneous(gs)
  {
    forall i :: 0 < i < |gs| ==> gs[i - 1][0].kind != gs[i][0].kind
  }

  /** `gs` splits `ps` into its maximal runs of equal `type`. */
  ghost predicate IsRunPartition(gs: seq<seq<Plugin>>, ps: seq<Plugin>)
  {
    Flatten(gs) == ps && Homogeneous(gs) && Maximal(gs)
  }

  /**
   * One step of the reduce: the plugin joins the last group when that group
   * has the same `type`, and opens a new group otherwise.
   */
  function Step(acc: seq<seq<Plugin>>, p: Plugin): (r: seq<seq<Plugin>>)
    requires forall i :: 0 <= i < |acc| ==> |acc[i]| > 0
    ensures forall i :: 0 <= i < |r| ==> |r[i]| > 0
    ensures |r| == |acc| <==> |acc| > 0 && acc[|acc| - 1][0].kind == p.kind
    ensures |acc| <= |r| <= |acc| + 1
    ensures r[|r| - 1][|r[|r| - 1]| - 1] == p
    ensures |r| == |acc| ==> r == acc[..|acc| - 1] + [acc[|acc| - 1] + [p]]
    ensures |r| == |acc| + 1 ==> r == acc + [[p]]
  {
    if |acc| > 0 && acc[|acc| - 1][0].kind == p.kind then
      acc[..|acc| - 1] + [acc[|acc| - 1] + [p]]
    else
      acc + [[p]]
  }

  /** The result of the reduce over the whole list, starting from `[]`. */
  function Groups(ps: seq<Plugin>): (gs: seq<seq<Plugin>>)
    ensures forall i :: 0 <= i < |gs| ==> |gs[i]| > 0
    ensures |gs| <= |ps|
    ensures ps == [] <==> gs == []
    decreases |ps|
  {
    if ps == [] then [] else Step(Groups(ps[..|ps| - 1]), ps[|ps| - 1])
  }

  /** The reduce over one more plugin is one more step. */
  lemma GroupsPrefix(ps: seq<Plugin>, i: nat)
    requires i < |ps|
    ensures Groups(ps[..i + 1]) == Step(Groups(ps[..i]), ps[i])
  {
    assert ps[..i + 1][..i] == ps[..i];
  }

  /** The reduce builds the maximal-run partition of the list. */
  lemma {:induction false} GroupsPartition(ps: seq<Plugin>)
    ensures IsRunPartition(Groups(ps), ps)
    decreases |ps|
  {
    if ps != [] {
      var init, p := ps[..|ps| - 1], ps[|ps| - 1];
      assert init + [p] == ps;
      var acc := Groups(init);
      assert Groups(ps) == Step(acc, p);
      GroupsPartition(init);
      StepKeepsPartition(acc, init, p);
    }
  }

  /** One step of the reduce turns the run partition of a list into that of the list extended by one plugin. */
  lemma StepKeepsPartition(acc: seq<seq<Plugin>>, ps: seq<Plugin>, p: Plugin)
    requires IsRunPartition(acc, ps)
    ensures IsRunPartition(Step(acc, p), ps + [p])
  {
    if |acc| > 0 && acc[|acc| - 1][0].kind == p.kind {
      JoinLastGroup(acc, ps, p);
    } else {
      OpenGroup(acc, ps, p);
    }
  }

  /** A plugin of the last group's `type` joins that group. */
  lemma JoinLastGroup(acc: seq<seq<Plugin>>, ps: seq<Plugin>, p: Plugin)
    requires IsRunPartition(acc, ps) && |acc| > 0 && acc[|acc| - 1][0].kind == p.kind
    ensures IsRunPartition(acc[..|acc| - 1] + [acc[|acc| - 1] + [p]], ps + [p])
  {
    var init, last := acc[..|acc| - 1], acc[|acc| - 1];
    var gs := init + [last + [p]];
    FlattenSnoc(init, last + [p]);
    FlattenSnoc(init, last);
    assert init + [last] == acc;
    LengthenLastGroup(acc, gs, p);
  }

  /** Adding `p` to the last group, whose `type` it shares, keeps the groups homogeneous and maximal. */
  lemma LengthenLastGroup(gs: seq<seq<Plugin>>, gs': seq<seq<Plugin>>, p: Plugin)
    requires Homogeneous(gs) && Maximal(gs) && gs != [] && gs[|gs| - 1][0].kind == p.kind
    requires gs' == gs[..|gs| - 1] + [gs[|gs| - 1] + [p]]
    ensures Homogeneous(gs') && Maximal(gs')
  {
    var n := |gs|;
    var longer := gs[n - 1] + [p];
    assert Homogeneous(gs') by {
      forall i | 0 <= i < |gs'|
        ensures |gs'[i]| > 0 && forall j :: 0 <= j < |gs'[i]| ==> gs'[i][j].kind == gs'[i][0].kind
      {
        if i < n - 1 { assert gs'[i] == gs[i]; } else { assert gs'[i] == longer; }
      }
    }
    assert Maximal(gs') by {
      forall i | 0 < i < |gs'| ensures gs'[i - 1][0].kind != gs'[i][0].kind {
        assert gs'[i - 1][0] == gs[i - 1][0] && gs'[i][0] == gs[i][0];
      }
    }
  }

  /** A plugin of another `type` than the last group's opens a group of its own. */
  lemma OpenGroup(acc: seq<seq<Plugin>>, ps: seq<Plugin>, p: Plugin)
    requires IsRunPartition(acc, ps) && (|acc| > 0 ==> acc[|acc| - 1][0].kind != p.kind)
    ensures IsRunPartition(acc + [[p]], ps + [p])
  {
    var gs := acc + [[p]];
    FlattenSnoc(acc, [p]);
    assert Homogeneous(gs) by {
      forall i | 0 <= i < |gs|
        ensures |gs[i]| > 0 && forall j :: 0 <= j < |gs[i]| ==> gs[i][j].kind == gs[i][0].kind
      {
        if i < |acc| { assert gs[i] == acc[i]; } else { assert gs[i] == [p]; }
      }
    }
    assert Maximal(gs) by {
      forall i | 0 < i < |gs| ensures gs[i - 1][0].kind != gs[i][0].kind {
        assert gs[i - 1] == acc[i - 1];
        if i < |acc| { assert gs[i] == acc[i]; }
      }
    }
  }

  lemma FlattenSnoc(gs: seq<seq<Plugin>>, g: seq<Plugin>)
    ensures Flatten(gs + [g]) == Flatten(gs) + g
  {
    assert (gs + [g])[..|gs|] == gs;
  }

  /** `gs` and `hs` have groups of the same sizes and the same `type`s, in the same order. */
  ghost predicate SameShape(gs: seq<seq<Plugin>>, hs: seq<seq<Plugin>>)
  {
    |gs| == |hs| && forall j :: 0 <= j < |gs| ==>
      |gs[j]| == |hs[j]| && (|gs[j]| > 0 ==> gs[j][0].kind == hs[j][0].kind)
  }

  /**
   * The grouping depends on the `type`s of the plugins alone: two lists with
   * the same `type` at every position are grouped alike.
   */
  lemma GroupsFollowKinds(ps: seq<Plugin>, qs: seq<Plugin>)
    requires |ps| == |qs| && forall i :: 0 <= i < |ps| ==> ps[i].kind == qs[i].kind
    ensures SameShape(Groups(ps), Groups(qs))
  {
    PrefixesFollowKinds(ps, qs, |ps|);
    assert ps[..|ps|] == ps && qs[..|qs|] == qs;
  }

  /** `GroupsFollowKinds` for the first `n` plugins of each list, by induction on `n`. */
  lemma {:induction false} PrefixesFollowKinds(ps: seq<Plugin>, qs: seq<Plugin>, n: nat)
    requires n <= |ps| == |qs| && forall i :: 0 <= i < |ps| ==> ps[i].kind == qs[i].kind
    ensures SameShape(Groups(ps[..n]), Groups(qs[..n]))
  {
    if n == 0 {
      assert ps[..0] == [] && qs[..0] == [];
    } else {
      PrefixesFollowKinds(ps, qs, n - 1);
      PrefixStepFollowsKinds(ps, qs, n);
    }
  }

  /** The step case of `PrefixesFollowKinds`: one more plugin of the same `type` on each side. */
  lemma PrefixStepFollowsKinds(ps: seq<Plugin>, qs: seq<Plugin>, n: nat)
    requires 0 < n <= |ps| && n <= |qs| && ps[n - 1].kind == qs[n - 1].kind
    requires SameShape(Groups(ps[..n - 1]), Groups(qs[..n - 1]))
    ensures SameShape(Groups(ps[..n]), Groups(qs[..n]))
  {
    GroupsTake(ps, n);
    GroupsTake(qs, n);
    StepFollowsKinds(Groups(ps[..n - 1]), Groups(qs[..n - 1]), ps[n - 1], qs[n - 1]);
  }

  lemma GroupsTake(ps: seq<Plugin>, n: nat)
    requires 0 < n <= |ps|
    ensures Groups(ps[..n]) == Step(Groups(ps[..n - 1]), ps[n - 1])
  {
    assert ps[..n][..n - 1] == ps[..n - 1];
  }

  /** One step of the reduce keeps two groupings of the same shape alike. */
  lemma StepFollowsKinds(a1: seq<seq<Plugin>>, a2: seq<seq<Plugin>>, p1: Plugin, p2: Plugin)
    requires forall i :: 0 <= i < |a1| ==> |a1[i]| > 0
    requires forall i :: 0 <= i < |a2| ==> |a2[i]| > 0
    requires SameShape(a1, a2) && p1.kind == p2.kind
    ensures SameShape(Step(a1, p1), Step(a2, p2))
  {
    var r1, r2 := Step(a1, p1), Step(a2, p2);
    var n := |a1|;
    if n > 0 && a1[n - 1][0].kind == p1.kind {
      assert |r1| == |r2| == n;
      assert r1[n - 1] == a1[n - 1] + [p1] && r2[n - 1] == a2[n - 1] + [p2];
    } else {
      assert |r1| == |r2| == n + 1;
      assert r1[n] == [p1] && r2[n] == [p2];
      assert forall j :: 0 <= j < n ==> r1[j] == a1[j] && r2[j] == a2[j];
    }
  }

  /**
   * The maximal-run partition of a list is unique: any grouping that
   * concatenates back to `ps`, has homogeneous non-empty groups and
   * different types in adjacent groups is exactly what the reduce builds.
   */
  lemma {:induction false} RunPartitionUnique(gs: seq<seq<Plugin>>, ps: seq<Plugin>)
    requires IsRunPartition(gs, ps)
    ensures gs == Groups(ps)
    decreases |ps|
  {
    if gs == [] {
      assert ps == [];
    } else {
      var n := |gs|;
      var pre, q := ps[..|ps| - 1], ps[|ps| - 1];
      var acc;
      if |gs[n - 1]| == 1 {
        acc := DropSingletonGroup(gs, ps);
      } else {
        acc := DropLastPlugin(gs, ps);
      }
      RunPartitionUnique(acc, pre);
      assert Groups(ps) == Step(Groups(pre), q);
    }
  }

  /** Removing a last group of one plugin leaves the run partition of the list without that plugin. */
  lemma DropSingletonGroup(gs: seq<seq<Plugin>>, ps: seq<Plugin>) returns (init: seq<seq<Plugin>>)
    requires IsRunPartition(gs, ps) && gs != [] && |gs[|gs| - 1]| == 1
    ensures ps != [] && init == gs[..|gs| - 1]
    ensures gs == init + [[ps[|ps| - 1]]]
    ensures IsRunPartition(init, ps[..|ps| - 1])
    ensures gs == Step(init, ps[|ps| - 1])
  {
    var n := |gs|;
    init := gs[..n - 1];
    assert gs == init + [gs[n - 1]];
    FlattenSnoc(init, gs[n - 1]);
    assert ps == Flatten(init) + gs[n - 1];
    assert Flatten(init) == ps[..|ps| - 1];
    assert gs[n - 1] == [ps[|ps| - 1]];
    assert Homogeneous(init) by {
      forall i | 0 <= i < |init|
        ensures |init[i]| > 0 && forall j :: 0 <= j < |init[i]| ==> init[i][j].kind == init[i][0].kind
      {
        assert init[i] == gs[i];
      }
    }
    if n > 1 {
      assert init[n - 2] == gs[n - 2] && gs[n - 2][0].kind != gs[n - 1][0].kind;
    }
  }

  /** Removing the last plugin of a last group of several keeps a run partition. */
  lemma DropLastPlugin(gs: seq<seq<Plugin>>, ps: seq<Plugin>) returns (gs': seq<seq<Plugin>>)
    requires IsRunPartition(gs, ps) && gs != [] && |gs[|gs| - 1]| > 1
    ensures ps != [] && |gs'| == |gs| && gs'[..|gs| - 1] == gs[..|gs| - 1]
    ensures gs'[|gs| - 1] + [ps[|ps| - 1]] == gs[|gs| - 1]
    ensures gs'[|gs| - 1][0].kind == ps[|ps| - 1].kind
    ensures IsRunPartition(gs', ps[..|ps| - 1])
    ensures gs == Step(gs', ps[|ps| - 1])
  {
    var n := |gs|;
    var last := gs[n - 1];
    var init := gs[..n - 1];
    var shorter := last[..|last| - 1];
    gs' := init + [shorter];
    assert gs == init + [last];
    FlattenSnoc(init, last);
    FlattenSnoc(init, shorter);
    assert last == shorter + [last[|last| - 1]];
    assert ps == Flatten(init) + shorter + [last[|last| - 1]];
    ShortenLastGroup(gs, gs');
    assert gs'[n - 1] == shorter && gs'[..n - 1] == init;
  }

  /** Dropping the last plugin of a last group of several keeps the groups homogeneous and maximal. */
  lemma ShortenLastGroup(gs: seq<seq<Plugin>>, gs': seq<seq<Plugin>>)
    requires Homogeneous(gs) && Maximal(gs) && gs != [] && |gs[|gs| - 1]| > 1
    requires gs' == gs[..|gs| - 1] + [gs[|gs| - 1][..|gs[|gs| - 1]| - 1]]
    ensures Homogeneous(gs') && Maximal(gs')
  {
    var n := |gs|;
    var shorter := gs[n - 1][..|gs[n - 1]| - 1];
    assert Homogeneous(gs') by {
      forall i | 0 <= i < |gs'|
        ensures |gs'[i]| > 0 && forall j :: 0 <= j < |gs'[i]| ==> gs'[i][j].kind == gs'[i][0].kind
      {
        if i < n - 1 { assert gs'[i] == gs[i]; } else { assert gs'[i] == shorter; }
      }
    }
    assert Maximal(gs') by {
      forall i | 0 < i < |gs'| ensures gs'[i - 1][0].kind != gs'[i][0].kind {
        assert gs'[i - 1][0] == gs[i - 1][0] && gs'[i][0] == gs[i][0];
      }
    }
  }

  /**
   * The reduce as written: each plugin is pushed onto the last group when its
   * `type` matches, or starts a new group.
   */
  method OptimizePluginsArray(plugins: seq<Plugin>) returns (groups: seq<seq<Plugin>>)
    ensures IsRunPartition(groups, plugins)
    ensures groups == Groups(plugins)
  {
    groups := [];
    for i := 0 to |plugins|
      invariant groups == Groups(plugins[..i])
    {
      var item := plugins[i];
      GroupsPrefix(plugins, i);
      if |groups| > 0 && groups[|groups| - 1][0].kind == item.kind {
        var last := groups[|groups| - 1];
        groups := groups[..|groups| - 1] + [last + [item]];
      } else {
        groups := groups + [[item]];
      }
    }
    assert plugins[..|plugins|] == plugins;
    GroupsPartition(plugins);
  }
}
