/** Scheduling: which deployment targets a policy assigns to which cluster types. */
module Scheduling {
  import opened Api
  import opened Basics
  import opened Text

  type Selector = Labels -> bool

  /** A scheduling policy; None is a label selector that does not convert. */
  datatype Policy = Policy(name: string, workspace: string, clusterTypes: Option<Selector>, targets: Option<Selector>)

  datatype AssignmentSpec = AssignmentSpec(workload: string, deploymentTarget: string, clusterType: string)

  /** A stored assignment; `policy` is its scheduling-policy label. */
  datatype Assignment = Assignment(name: string, policy: string, spec: AssignmentSpec)

  function AssignmentName(spec: AssignmentSpec): string {
    Join([spec.workload, spec.deploymentTarget, spec.clusterType], "-")
  }

  datatype Scheduler = Scheduler(policy: string, workspace: string, clusterTypes: Selector, targets: Selector)
  {
    predicate IsClusterTypeCompliant(ct: ClusterType) {
      clusterTypes(ct.labels)
    }

    predicate IsDeploymentTargetCompliant(dt: DeploymentTarget) {
      (workspace != "" ==> workspace == dt.Workspace()) && targets(dt.labels)
    }

    function Assign(dt: DeploymentTarget, ct: ClusterType): Assignment {
      var spec := AssignmentSpec(dt.Workload(), dt.name, ct.name);
      Assignment(AssignmentName(spec), policy, spec)
    }

    method SelectClusterTypes(all: seq<ClusterType>) returns (selected: seq<ClusterType>)
      ensures selected == SelectedClusterTypes(all)
    {
      selected := [];
      for i := 0 to |all|
        invariant selected == SelectedClusterTypes(all[..i])
      {
        assert all[..i + 1][..i] == all[..i];
        if IsClusterTypeCompliant(all[i]) {
          selected := selected + [all[i]];
        }
      }
      assert all[..|all|] == all;
    }

    method SelectDeploymentTargets(all: seq<DeploymentTarget>) returns (selected: seq<DeploymentTarget>)
      ensures selected == SelectedTargets(all)
    {
      selected := [];
      for i := 0 to |all|
        invariant selected == SelectedTargets(all[..i])
      {
        assert all[..i + 1][..i] == all[..i];
        if IsDeploymentTargetCompliant(all[i]) {
          selected := selected + [all[i]];
        }
      }
      assert all[..|all|] == all;
    }

    /** The matrix of the selected cluster types and targets, row by row. */
    method Schedule(cts: seq<ClusterType>, dts: seq<DeploymentTarget>) returns (assignments: seq<Assignment>)
      ensures assignments == Assignments(cts, dts)
    {
      hide *;
      assignments := [];
      var targets := SelectDeploymentTargets(dts);
      var types := SelectClusterTypes(cts);
      AllRows(cts, dts);
      for i := 0 to |types|
        invariant assignments == Rows(types[..i], targets)
      {
        ghost var before := assignments;
        NextRow(types, targets, i);
        for j := 0 to |targets|
          invariant assignments == before + Row(types[i], targets[..j])
        {
          NextInRow(types[i], targets, j);
          assignments := assignments + [Assign(targets[j], types[i])];
        }
        assert targets[..|targets|] == targets;
      }
      assert types[..|types|] == types;
    }

    lemma AllRows(cts: seq<ClusterType>, dts: seq<DeploymentTarget>)
      ensures var types, targets := SelectedClusterTypes(cts), SelectedTargets(dts);
              Rows(types[..0], targets) == [] && Assignments(cts, dts) == Rows(types, targets)
    {
    }

    lemma NextRow(types: seq<ClusterType>, targets: seq<DeploymentTarget>, i: nat)
      requires i < |types|
      ensures Rows(types[..i + 1], targets) == Rows(types[..i], targets) + Row(types[i], targets)
      ensures Row(types[i], targets[..0]) == []
    {
      assert types[..i + 1][..i] == types[..i];
    }

    lemma NextInRow(ct: ClusterType, targets: seq<DeploymentTarget>, j: nat)
      requires j < |targets|
      ensures Row(ct, targets[..j + 1]) == Row(ct, targets[..j]) + [Assign(targets[j], ct)]
    {
      assert targets[..j + 1][..j] == targets[..j];
    }

    function SelectedClusterTypes(all: seq<ClusterType>): seq<ClusterType> {
      if all == [] then []
      else
        var n := |all| - 1;
        SelectedClusterTypes(all[..n]) + if IsClusterTypeCompliant(all[n]) then [all[n]] else []
    }

    function SelectedTargets(all: seq<DeploymentTarget>): seq<DeploymentTarget> {
      if all == [] then []
      else
        var n := |all| - 1;
        SelectedTargets(all[..n]) + if IsDeploymentTargetCompliant(all[n]) then [all[n]] else []
    }

    function Row(ct: ClusterType, dts: seq<DeploymentTarget>): seq<Assignment> {
      if dts == [] then [] else Row(ct, dts[..|dts| - 1]) + [Assign(dts[|dts| - 1], ct)]
    }

    function Rows(cts: seq<ClusterType>, dts: seq<DeploymentTarget>): seq<Assignment> {
      if cts == [] then [] else Rows(cts[..|cts| - 1], dts) + Row(cts[|cts| - 1], dts)
    }

    function Assignments(cts: seq<ClusterType>, dts: seq<DeploymentTarget>): seq<Assignment> {
      Rows(SelectedClusterTypes(cts), SelectedTargets(dts))
    }

    /** The policy selects the pair that `spec` names. */
    ghost predicate Selects(cts: seq<ClusterType>, dts: seq<DeploymentTarget>, spec: AssignmentSpec) {
      exists ct, dt :: ct in cts && dt in dts && IsClusterTypeCompliant(ct) && IsDeploymentTargetCompliant(dt)
                       && spec == AssignmentSpec(dt.Workload(), dt.name, ct.name)
    }

    // ----- What is scheduled -----

    lemma {:induction false} SelectedClusterTypesExact(all: seq<ClusterType>, ct: ClusterType)
      ensures ct in SelectedClusterTypes(all) <==> ct in all && IsClusterTypeCompliant(ct)
    {
      if all == [] {
      } else {
        SelectedClusterTypesExact(all[..|all| - 1], ct);
        assert all == all[..|all| - 1] + [all[|all| - 1]];
      }
    }

    lemma {:induction false} SelectedTargetsExact(all: seq<DeploymentTarget>, dt: DeploymentTarget)
      ensures dt in SelectedTargets(all) <==> dt in all && IsDeploymentTargetCompliant(dt)
    {
      if all == [] {
      } else {
        SelectedTargetsExact(all[..|all| - 1], dt);
        assert all == all[..|all| - 1] + [all[|all| - 1]];
      }
    }

    lemma {:induction false} RowExact(ct: ClusterType, dts: seq<DeploymentTarget>, a: Assignment)
      ensures a in Row(ct, dts) <==> exists dt :: dt in dts && a == Assign(dt, ct)
    {
      if dts == [] {
      } else {
        RowExact(ct, dts[..|dts| - 1], a);
        assert dts == dts[..|dts| - 1] + [dts[|dts| - 1]];
      }
    }

    lemma {:induction false} RowsExact(cts: seq<ClusterType>, dts: seq<DeploymentTarget>, a: Assignment)
      ensures a in Rows(cts, dts) <==> exists ct, dt :: ct in cts && dt in dts && a == Assign(dt, ct)
    {
      if cts == [] {
      } else {
        RowsExact(cts[..|cts| - 1], dts, a);
        RowExact(cts[|cts| - 1], dts, a);
        assert cts == cts[..|cts| - 1] + [cts[|cts| - 1]];
      }
    }

    /** A pair is scheduled exactly when the policy selects both of its sides. */
    lemma ScheduleExact(cts: seq<ClusterType>, dts: seq<DeploymentTarget>, spec: AssignmentSpec)
      ensures (exists a :: a in Assignments(cts, dts) && a.spec == spec) <==> Selects(cts, dts, spec)
    {
      var types, targets := SelectedClusterTypes(cts), SelectedTargets(dts);
      if a :| a in Assignments(cts, dts) && a.spec == spec {
        RowsExact(types, targets, a);
        var ct, dt :| ct in types && dt in targets && a == Assign(dt, ct);
        SelectedClusterTypesExact(cts, ct);
        SelectedTargetsExact(dts, dt);
      }
      if Selects(cts, dts, spec) {
        var ct, dt :| ct in cts && dt in dts && IsClusterTypeCompliant(ct) && IsDeploymentTargetCompliant(dt)
          && spec == AssignmentSpec(dt.Workload(), dt.name, ct.name);
        SelectedClusterTypesExact(cts, ct);
        SelectedTargetsExact(dts, dt);
        RowsExact(types, targets, Assign(dt, ct));
        assert Assign(dt, ct) in Assignments(cts, dts);
      }
    }

    /** Every assignment carries the policy's label and the name of its spec. */
    lemma ScheduleLabels(cts: seq<ClusterType>, dts: seq<DeploymentTarget>, a: Assignment)
      requires a in Assignments(cts, dts)
      ensures a.policy == policy && a.name == AssignmentName(a.spec)
      ensures a.name == a.spec.workload + "-" + a.spec.deploymentTarget + "-" + a.spec.clusterType
    {
      RowsExact(SelectedClusterTypes(cts), SelectedTargets(dts), a);
      NameParts(a.spec);
    }

    /** The matrix goes row by row: the row of a cluster type comes after those of the types before it. */
    lemma {:induction false} RowsSplit(types: seq<ClusterType>, targets: seq<DeploymentTarget>, i: nat)
      requires i < |types|
      ensures Rows(types, targets) ==
              Rows(types[..i], targets) + Row(types[i], targets) + Rows(types[i + 1..], targets)
      decreases |types|
    {
      var n := |types| - 1;
      hide Row;
      if i == n {
        assert types[i + 1..] == [];
      } else {
        RowsSplit(types[..n], targets, i);
        assert types[..n][..i] == types[..i] && types[..n][i] == types[i];
        assert types[i + 1..][..|types[i + 1..]| - 1] == types[..n][i + 1..];
      }
    }

    /** A row lists the targets in their order. */
    lemma {:induction false} RowAt(ct: ClusterType, targets: seq<DeploymentTarget>, j: nat)
      requires j < |targets|
      ensures |Row(ct, targets)| == |targets| && Row(ct, targets)[j] == Assign(targets[j], ct)
    {
      var n := |targets| - 1;
      if n > 0 {
        RowAt(ct, targets[..n], if j < n then j else 0);
      }
    }

    lemma {:induction false} SelectedClusterTypesUnique(all: seq<ClusterType>)
      requires UniqueClusterTypes(all)
      ensures UniqueClusterTypes(SelectedClusterTypes(all))
    {
      if all == [] {
      } else {
        var n := |all| - 1;
        SelectedClusterTypesUnique(all[..n]);
        forall ct | ct in SelectedClusterTypes(all[..n])
          ensures ct.name != all[n].name
        {
          SelectedClusterTypesExact(all[..n], ct);
        }
      }
    }

    lemma {:induction false} SelectedTargetsUnique(all: seq<DeploymentTarget>)
      requires UniqueTargets(all)
      ensures UniqueTargets(SelectedTargets(all))
    {
      if all == [] {
      } else {
        var n := |all| - 1;
        SelectedTargetsUnique(all[..n]);
        forall dt | dt in SelectedTargets(all[..n])
          ensures dt.name != all[n].name
        {
          SelectedTargetsExact(all[..n], dt);
        }
      }
    }

    lemma {:induction false} RowDistinct(ct: ClusterType, dts: seq<DeploymentTarget>)
      requires UniqueTargets(dts)
      ensures DistinctSpecs(Row(ct, dts))
    {
      if dts == [] {
      } else {
        var n := |dts| - 1;
        RowDistinct(ct, dts[..n]);
        forall a | a in Row(ct, dts[..n])
          ensures a.spec != Assign(dts[n], ct).spec
        {
          RowExact(ct, dts[..n], a);
        }
      }
    }

    lemma {:induction false} RowsDistinct(cts: seq<ClusterType>, dts: seq<DeploymentTarget>)
      requires UniqueClusterTypes(cts) && UniqueTargets(dts)
      ensures DistinctSpecs(Rows(cts, dts))
    {
      if cts == [] {
      } else {
        var n := |cts| - 1;
        RowsDistinct(cts[..n], dts);
        RowDistinct(cts[n], dts);
        forall a, b | a in Rows(cts[..n], dts) && b in Row(cts[n], dts)
          ensures a.spec != b.spec
        {
          RowsExact(cts[..n], dts, a);
          RowExact(cts[n], dts, b);
        }
      }
    }

    /** No pair is scheduled twice, as names are unique within a namespace. */
    lemma ScheduleDistinct(cts: seq<ClusterType>, dts: seq<DeploymentTarget>)
      requires UniqueClusterTypes(cts) && UniqueTargets(dts)
      ensures DistinctSpecs(Assignments(cts, dts))
    {
      SelectedClusterTypesUnique(cts);
      SelectedTargetsUnique(dts);
      RowsDistinct(SelectedClusterTypes(cts), SelectedTargets(dts));
    }
  }

  function NewScheduler(policy: Policy): (s: Option<Scheduler>)
    ensures s.Some? <==> policy.clusterTypes.Some? && policy.targets.Some?
    ensures s.Some? ==> s.value.policy == policy.name
  {
    if policy.clusterTypes.None? || policy.targets.None? then None
    else Some(Scheduler(policy.name, policy.workspace, policy.clusterTypes.value, policy.targets.value))
  }

  predicate UniqueClusterTypes(cts: seq<ClusterType>) {
    forall i, j :: 0 <= i < j < |cts| ==> cts[i].name != cts[j].name
  }

  predicate UniqueTargets(dts: seq<DeploymentTarget>) {
    forall i, j :: 0 <= i < j < |dts| ==> dts[i].name != dts[j].name
  }

  predicate DistinctSpecs(assignments: seq<Assignment>) {
    forall i, j :: 0 <= i < j < |assignments| ==> assignments[i].spec != assignments[j].spec
  }

  // ----- Names -----

  lemma NameParts(spec: AssignmentSpec)
    ensures AssignmentName(spec) == spec.workload + "-" + spec.deploymentTarget + "-" + spec.clusterType
  {
    var parts := [spec.workload, spec.deploymentTarget, spec.clusterType];
    assert parts[1..] == [spec.deploymentTarget, spec.clusterType] && parts[1..][1..] == [spec.clusterType];
    assert Join(parts[1..], "-") == spec.deploymentTarget + "-" + spec.clusterType;
    assert spec.workload + "-" + (spec.deploymentTarget + "-" + spec.clusterType) ==
           spec.workload + "-" + spec.deploymentTarget + "-" + spec.clusterType;
  }

  /** Different specs can be given the same name: the dashes inside names shift. */
  lemma NamesCollide()
    ensures exists a, b :: a != b && AssignmentName(a) == AssignmentName(b)
  {
    var a, b := AssignmentSpec("shop", "shop-eu", "x-west"), AssignmentSpec("shop", "shop-eu-x", "west");
    assert AssignmentName(a) == "shop-shop-eu-x-west" == AssignmentName(b);
  }

  /** If workloads and cluster types have no dashes in their names, a name determines its spec, whatever the target is
      called. */
  lemma DashFreeNamesInjective(a: AssignmentSpec, b: AssignmentSpec)
    requires '-' !in a.workload && '-' !in a.clusterType && '-' !in b.workload && '-' !in b.clusterType
    requires AssignmentName(a) == AssignmentName(b)
    ensures a == b
  {
    SplitName(a);
    SplitName(b);
    var s, t := Split(a.deploymentTarget, "-"), Split(b.deploymentTarget, "-");
    assert ([a.workload] + s + [a.clusterType])[1..|s| + 1] == s;
    assert ([b.workload] + t + [b.clusterType])[1..|t| + 1] == t;
    JoinSplit(a.deploymentTarget, "-");
    JoinSplit(b.deploymentTarget, "-");
  }

  lemma SplitName(a: AssignmentSpec)
    requires '-' !in a.workload && '-' !in a.clusterType
    ensures Split(AssignmentName(a), "-") == [a.workload] + Split(a.deploymentTarget, "-") + [a.clusterType]
  {
    var rest := a.deploymentTarget + "-" + a.clusterType;
    SingleSeparator(a.workload, '-');
    SplitAtFirst(a.workload, "-", rest);
    SplitAtLast(a.deploymentTarget, '-', a.clusterType);
    var parts := [a.workload, a.deploymentTarget, a.clusterType];
    assert parts[1..] == [a.deploymentTarget, a.clusterType] && parts[1..][1..] == [a.clusterType];
    assert Join(parts[1..], "-") == rest;
    assert AssignmentName(a) == a.workload + "-" + rest;
  }
}
