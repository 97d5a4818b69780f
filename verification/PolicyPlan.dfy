/** What a policy reconcile should leave in the store of assignments, as a function of the store it found. */
module PolicyPlan {
  import opened Api
  import opened Basics
  import opened Scheduling

  type Store = map<string, Assignment>

  predicate NamedByKey(store: Store) {
    forall n :: n in store ==> store[n].name == n
  }

  function EnvironmentTargets(dts: seq<DeploymentTarget>, environment: string): seq<DeploymentTarget> {
    if dts == [] then []
    else
      var n := |dts| - 1;
      EnvironmentTargets(dts[..n], environment) + if dts[n].spec.environment == environment then [dts[n]] else []
  }

  /** What the policy schedules in its namespace. */
  function Scheduled(policy: Policy, cts: seq<ClusterType>, dts: seq<DeploymentTarget>,
                     namespace: string): seq<Assignment> {
    var s := NewScheduler(policy);
    if s.None? then [] else s.value.Assignments(cts, EnvironmentTargets(dts, namespace))
  }

  predicate WantsSpec(want: seq<Assignment>, spec: AssignmentSpec) {
    exists j :: 0 <= j < |want| && want[j].spec == spec
  }

  /** The policy's own assignment, no longer scheduled. */
  predicate Stale(a: Assignment, policy: string, want: seq<Assignment>) {
    a.policy == policy && !WantsSpec(want, a.spec)
  }

  ghost predicate Holds(store: Store, policy: string, spec: AssignmentSpec) {
    exists n :: n in store && store[n].policy == policy && store[n].spec == spec
  }

  function Kept(store: Store, policy: string, want: seq<Assignment>): Store {
    map n | n in store && !Stale(store[n], policy, want) :: store[n]
  }

  ghost function Missing(store: Store, policy: string, want: seq<Assignment>): seq<Assignment> {
    if want == [] then []
    else
      var n := |want| - 1;
      Missing(store, policy, want[..n]) + if Holds(store, policy, want[n].spec) then [] else [want[n]]
  }

  function ByName(assignments: seq<Assignment>): Store {
    if assignments == [] then map[]
    else
      var a := assignments[|assignments| - 1];
      ByName(assignments[..|assignments| - 1])[a.name := a]
  }

  /** The store a failure-free reconcile aims at. */
  ghost function Target(store: Store, policy: string, want: seq<Assignment>): Store {
    Kept(store, policy, want) + ByName(Missing(store, policy, want))
  }

  /** No name is taken: not by an assignment that stays, nor by an earlier one to create. */
  predicate FreeNames(kept: Store, create: seq<Assignment>) {
    forall i :: 0 <= i < |create| ==>
                  create[i].name !in kept && forall j :: 0 <= j < i ==> create[j].name != create[i].name
  }

  ghost predicate Creatable(store: Store, policy: string, want: seq<Assignment>) {
    FreeNames(Kept(store, policy, want), Missing(store, policy, want))
  }

  /** A store that a reconcile may leave when it stops: some stale assignments deleted, or all of them deleted and the
      first few missing ones created. */
  ghost predicate Interrupted(store: Store, now: Store, policy: string, want: seq<Assignment>) {
    DuringDeletes(store, now, policy, want) || exists i :: DuringCreates(store, now, policy, want, i)
  }

  ghost predicate DuringDeletes(store: Store, now: Store, policy: string, want: seq<Assignment>) {
    (forall n :: n in now ==> n in store && now[n] == store[n])
    && forall n :: n in store && n !in now ==> Stale(store[n], policy, want)
  }

  ghost predicate DuringCreates(store: Store, now: Store, policy: string, want: seq<Assignment>, i: int) {
    0 <= i <= |want|
    && FreeNames(Kept(store, policy, want), Missing(store, policy, want[..i]))
    && now == Kept(store, policy, want) + ByName(Missing(store, policy, want[..i]))
  }

  /** The creates have come to the `i`-th wanted assignment, which is missing and whose name is taken. */
  ghost predicate BlockedAt(store: Store, now: Store, policy: string, want: seq<Assignment>, i: int) {
    DuringCreates(store, now, policy, want, i) && i < |want|
    && !Holds(store, policy, want[i].spec) && want[i].name in now
  }

  // ----- Small facts -----

  lemma {:induction false} ByNameExact(create: seq<Assignment>, kept: Store)
    requires FreeNames(kept, create)
    ensures forall n :: n in ByName(create) <==> exists i :: 0 <= i < |create| && create[i].name == n
    ensures forall i :: 0 <= i < |create| ==> ByName(create)[create[i].name] == create[i]
    ensures forall n :: n in ByName(create) ==> n !in kept
  {
    if create == [] {
    } else {
      var k := |create| - 1;
      var front, last := create[..k], create[k];
      hide *;
      FreePrefix(kept, create);
      ByNameExact(front, kept);
      ByNameLast(create);
      NamedSnoc(ByName(front), front, last);
      assert create == front + [last];
    }
  }

  lemma FreePrefix(kept: Store, create: seq<Assignment>)
    requires create != [] && FreeNames(kept, create)
    ensures var front, last := create[..|create| - 1], create[|create| - 1];
            FreeNames(kept, front) && last.name !in kept && forall i :: 0 <= i < |front| ==> front[i].name != last.name
  {
  }

  lemma ByNameLast(create: seq<Assignment>)
    requires create != []
    ensures var front, last := create[..|create| - 1], create[|create| - 1];
            ByName(create) == ByName(front)[last.name := last]
  {
  }

  lemma NamedSnoc(byName: Store, front: seq<Assignment>, last: Assignment)
    requires forall n :: n in byName <==> exists i :: 0 <= i < |front| && front[i].name == n
    requires forall i :: 0 <= i < |front| ==> byName[front[i].name] == front[i] && front[i].name != last.name
    ensures var create, now := front + [last], byName[last.name := last];
            (forall n :: n in now <==> exists i :: 0 <= i < |create| && create[i].name == n)
            && forall i :: 0 <= i < |create| ==> now[create[i].name] == create[i]
  {
    var create, now := front + [last], byName[last.name := last];
    assert create[|front|] == last && forall i :: 0 <= i < |front| ==> create[i] == front[i];
    forall n | n in now
      ensures exists i :: 0 <= i < |create| && create[i].name == n
    {
      if n in byName {
        var i :| 0 <= i < |front| && front[i].name == n;
        assert create[i].name == n;
      }
    }
  }

  lemma {:induction false} ByNameConcat(a: seq<Assignment>, b: seq<Assignment>)
    ensures ByName(a + b) == ByName(a) + ByName(b)
  {
    if b == [] {
      assert a + b == a;
    } else {
      var n := |b| - 1;
      ByNameConcat(a, b[..n]);
      assert (a + b)[..|a + b| - 1] == a + b[..n];
    }
  }

  lemma {:induction false} MissingConcat(store: Store, policy: string, a: seq<Assignment>, b: seq<Assignment>)
    ensures Missing(store, policy, a + b) == Missing(store, policy, a) + Missing(store, policy, b)
  {
    if b == [] {
      assert a + b == a;
    } else {
      var n := |b| - 1;
      MissingConcat(store, policy, a, b[..n]);
      assert (a + b)[..|a + b| - 1] == a + b[..n];
    }
  }

  lemma {:induction false} MissingExact(store: Store, policy: string, want: seq<Assignment>, a: Assignment)
    ensures a in Missing(store, policy, want) <==> a in want && !Holds(store, policy, a.spec)
  {
    if want == [] {
    } else {
      var n := |want| - 1;
      MissingExact(store, policy, want[..n], a);
      assert want == want[..n] + [want[n]];
    }
  }

  /** `Missing` depends on the store only through what it holds. */
  lemma {:induction false} MissingSame(a: Store, b: Store, policy: string, want: seq<Assignment>)
    requires forall j :: 0 <= j < |want| ==> (Holds(a, policy, want[j].spec) <==> Holds(b, policy, want[j].spec))
    ensures Missing(a, policy, want) == Missing(b, policy, want)
  {
    if want == [] {
    } else {
      MissingSame(a, b, policy, want[..|want| - 1]);
    }
  }

  /** Once everything in `want` is held, nothing is missing. */
  lemma {:induction false} NothingMissing(store: Store, policy: string, want: seq<Assignment>)
    requires forall j :: 0 <= j < |want| ==> Holds(store, policy, want[j].spec)
    ensures Missing(store, policy, want) == []
  {
    if want == [] {
    } else {
      NothingMissing(store, policy, want[..|want| - 1]);
    }
  }

  ghost predicate Labelled(want: seq<Assignment>, policy: string) {
    forall j :: 0 <= j < |want| ==> want[j].policy == policy
  }

  // ----- What a store during the creates holds -----

  lemma HoldsDuringCreates(store: Store, now: Store, policy: string, want: seq<Assignment>, i: int,
                           spec: AssignmentSpec)
    requires Labelled(want, policy) && DuringCreates(store, now, policy, want, i) && WantsSpec(want, spec)
    ensures Holds(now, policy, spec) <==> Holds(store, policy, spec) || WantsSpec(want[..i], spec)
  {
    var kept, created := Kept(store, policy, want), Missing(store, policy, want[..i]);
    ByNameExact(created, kept);
    if Holds(store, policy, spec) {
      var n :| n in store && store[n].policy == policy && store[n].spec == spec;
      assert n in kept && now[n] == store[n];
    } else if WantsSpec(want[..i], spec) {
      var j :| 0 <= j < i && want[..i][j].spec == spec;
      MissingExact(store, policy, want[..i], want[j]);
      var l :| 0 <= l < |created| && created[l] == want[j];
      assert now[created[l].name] == want[j];
    }
    if Holds(now, policy, spec) {
      var n :| n in now && now[n].policy == policy && now[n].spec == spec;
      if n in ByName(created) {
        var l :| 0 <= l < |created| && created[l].name == n;
        MissingExact(store, policy, want[..i], created[l]);
        var j :| 0 <= j < i && want[..i][j] == created[l];
      } else {
        assert n in kept && store[n] == now[n];
      }
    }
  }

  /** A created assignment is one of the wanted ones. */
  lemma CreatedFrom(store: Store, policy: string, want: seq<Assignment>, i: nat, n: string) returns (j: nat)
    requires i <= |want| && FreeNames(Kept(store, policy, want), Missing(store, policy, want[..i]))
    requires n in ByName(Missing(store, policy, want[..i]))
    ensures j < i && want[j].name == n && want[j] == ByName(Missing(store, policy, want[..i]))[n]
  {
    var created := Missing(store, policy, want[..i]);
    ByNameExact(created, Kept(store, policy, want));
    hide *;
    var l :| 0 <= l < |created| && created[l].name == n;
    var a := created[l];
    MissingExact(store, policy, want[..i], a);
    j := IndexOf(want[..i], a);
  }

  lemma IndexOf(assignments: seq<Assignment>, a: Assignment) returns (j: nat)
    requires a in assignments
    ensures j < |assignments| && assignments[j] == a
  {
    j :| 0 <= j < |assignments| && assignments[j] == a;
  }

  lemma NoneStaleDuringCreates(store: Store, now: Store, policy: string, want: seq<Assignment>, i: int)
    requires DuringCreates(store, now, policy, want, i)
    ensures Kept(now, policy, want) == now
  {
    hide ByName, Missing, FreeNames;
    forall n | n in now
      ensures !Stale(now[n], policy, want)
    {
      if n in ByName(Missing(store, policy, want[..i])) {
        var j := CreatedFrom(store, policy, want, i, n);
        assert want[j].spec == now[n].spec;
      } else {
        assert n in Kept(store, policy, want);
      }
    }
  }

  // ----- Recovery -----

  /** Wherever a reconcile stopped, the next failure-free one can finish the job and arrives at the same store as an
      uninterrupted reconcile of the original store. */
  lemma Recovery(store: Store, now: Store, policy: string, want: seq<Assignment>)
    requires Labelled(want, policy) && DistinctSpecs(want)
    requires Creatable(store, policy, want) && Interrupted(store, now, policy, want)
    ensures Creatable(now, policy, want) && Target(now, policy, want) == Target(store, policy, want)
  {
    if DuringDeletes(store, now, policy, want) {
      RecoveryFromDeletes(store, now, policy, want);
    } else {
      var i :| DuringCreates(store, now, policy, want, i);
      RecoveryFromCreates(store, now, policy, want, i);
    }
  }

  lemma RecoveryFromDeletes(store: Store, now: Store, policy: string, want: seq<Assignment>)
    requires Creatable(store, policy, want) && DuringDeletes(store, now, policy, want)
    ensures Creatable(now, policy, want) && Target(now, policy, want) == Target(store, policy, want)
  {
    assert Kept(now, policy, want) == Kept(store, policy, want);
    forall j | 0 <= j < |want|
      ensures Holds(now, policy, want[j].spec) <==> Holds(store, policy, want[j].spec)
    {
      if Holds(store, policy, want[j].spec) {
        var n :| n in store && store[n].policy == policy && store[n].spec == want[j].spec;
        assert WantsSpec(want, store[n].spec);
        assert n in now;
      }
    }
    MissingSame(now, store, policy, want);
  }

  lemma RecoveryFromCreates(store: Store, now: Store, policy: string, want: seq<Assignment>, i: int)
    requires Labelled(want, policy) && DistinctSpecs(want)
    requires Creatable(store, policy, want) && DuringCreates(store, now, policy, want, i)
    ensures Creatable(now, policy, want) && Target(now, policy, want) == Target(store, policy, want)
  {
    hide Missing, ByName, Kept, FreeNames, Holds;
    var done, rest := want[..i], want[i..];
    var kept := Kept(store, policy, want);
    assert want == done + rest;
    NoneStaleDuringCreates(store, now, policy, want, i);
    RestMissing(store, now, policy, want, i);
    MissingConcat(store, policy, done, rest);
    ByNameConcat(Missing(store, policy, done), Missing(store, policy, rest));
    ByNameExact(Missing(store, policy, done), kept);
    FreeNamesSplit(kept, now, Missing(store, policy, done), Missing(store, policy, rest));
    PlusAssociates(kept, ByName(Missing(store, policy, done)), ByName(Missing(store, policy, rest)));
  }

  lemma RestMissing(store: Store, now: Store, policy: string, want: seq<Assignment>, i: int)
    requires Labelled(want, policy) && DistinctSpecs(want) && DuringCreates(store, now, policy, want, i)
    ensures Missing(now, policy, want) == Missing(store, policy, want[i..])
  {
    var done, rest := want[..i], want[i..];
    assert want == done + rest;
    forall j | 0 <= j < |done|
      ensures Holds(now, policy, done[j].spec)
    {
      assert want[j].spec == done[j].spec;
      HoldsDuringCreates(store, now, policy, want, i, done[j].spec);
    }
    NothingMissing(now, policy, done);
    forall j | 0 <= j < |rest|
      ensures Holds(now, policy, rest[j].spec) <==> Holds(store, policy, rest[j].spec)
    {
      assert want[i + j].spec == rest[j].spec;
      HoldsDuringCreates(store, now, policy, want, i, rest[j].spec);
    }
    MissingSame(now, store, policy, rest);
    MissingConcat(now, policy, done, rest);
  }

  lemma FreeNamesSplit(kept: Store, now: Store, a: seq<Assignment>, b: seq<Assignment>)
    requires FreeNames(kept, a + b) && now == kept + ByName(a)
    requires forall n :: n in ByName(a) <==> exists i :: 0 <= i < |a| && a[i].name == n
    ensures FreeNames(now, b)
  {
    forall i | 0 <= i < |b|
      ensures b[i].name !in now && forall j :: 0 <= j < i ==> b[j].name != b[i].name
    {
      assert (a + b)[|a| + i] == b[i];
      forall l | 0 <= l < |a|
        ensures a[l].name != b[i].name
      {
        assert (a + b)[l] == a[l];
      }
      forall j | 0 <= j < i
        ensures b[j].name != b[i].name
      {
        assert (a + b)[|a| + j] == b[j];
      }
    }
  }

  // ----- Convergence -----

  /** The finished store holds exactly the scheduled specs under this policy. */
  lemma Converged(store: Store, policy: string, want: seq<Assignment>, spec: AssignmentSpec)
    requires Labelled(want, policy) && Creatable(store, policy, want)
    ensures Holds(Target(store, policy, want), policy, spec) <==> WantsSpec(want, spec)
  {
    var now := Target(store, policy, want);
    assert want[..|want|] == want;
    assert DuringCreates(store, now, policy, want, |want|);
    if WantsSpec(want, spec) {
      HoldsDuringCreates(store, now, policy, want, |want|, spec);
    }
    NoneStaleDuringCreates(store, now, policy, want, |want|);
    forall n | n in now
      ensures !Stale(now[n], policy, want)
    {
      assert n in Kept(now, policy, want);
    }
  }

  /** A second reconcile finds nothing stale and nothing missing. */
  lemma Idempotent(store: Store, policy: string, want: seq<Assignment>)
    requires Labelled(want, policy) && Creatable(store, policy, want)
    ensures var now := Target(store, policy, want);
            Kept(now, policy, want) == now && Missing(now, policy, want) == []
            && Creatable(now, policy, want) && Target(now, policy, want) == now
  {
    var now := Target(store, policy, want);
    assert want[..|want|] == want;
    assert DuringCreates(store, now, policy, want, |want|);
    NoneStaleDuringCreates(store, now, policy, want, |want|);
    forall j | 0 <= j < |want|
      ensures Holds(now, policy, want[j].spec)
    {
      Converged(store, policy, want, want[j].spec);
    }
    NothingMissing(now, policy, want);
  }

  // ----- When everything can be created -----

  /** Names are as the scheduler gives them, and no two wanted specs share one. */
  ghost predicate NamedApart(want: seq<Assignment>) {
    (forall a :: a in want ==> a.name == AssignmentName(a.spec))
    && forall a, b :: a in want && b in want && a.name == b.name ==> a.spec == b.spec
  }

  /** Whatever stale assignments the policy has, everything can be created if its own assignments are named by the
      scheduler, the scheduled names are distinct, and no other policy holds one of them. */
  lemma CreatableByNames(store: Store, policy: string, want: seq<Assignment>)
    requires DistinctSpecs(want) && NamedApart(want)
    requires forall n :: n in store && store[n].policy == policy ==> n == AssignmentName(store[n].spec)
    requires forall a :: a in want && a.name in store ==> store[a.name].policy == policy
    ensures Creatable(store, policy, want)
  {
    var create, kept := Missing(store, policy, want), Kept(store, policy, want);
    MissingDistinct(store, policy, want);
    hide Missing, AssignmentName;
    forall i | 0 <= i < |create|
      ensures create[i] in want && !Holds(store, policy, create[i].spec)
    {
      MissingExact(store, policy, want, create[i]);
    }
    forall i | 0 <= i < |create|
      ensures create[i].name !in kept && forall j :: 0 <= j < i ==> create[j].name != create[i].name
    {
      var a := create[i];
      if a.name in kept {
        KeptIsHeld(store, policy, want, a);
      }
      forall j | 0 <= j < i
        ensures create[j].name != a.name
      {
        assert create[j].spec != a.spec;
      }
    }
  }

  lemma KeptIsHeld(store: Store, policy: string, want: seq<Assignment>, a: Assignment)
    requires NamedApart(want) && a in want && a.name in Kept(store, policy, want)
    requires store[a.name].policy == policy && a.name == AssignmentName(store[a.name].spec)
    ensures Holds(store, policy, a.spec)
  {
    hide AssignmentName;
    var j :| 0 <= j < |want| && want[j].spec == store[a.name].spec;
    assert want[j] in want && want[j].name == a.name;
  }

  lemma {:induction false} MissingDistinct(store: Store, policy: string, want: seq<Assignment>)
    requires DistinctSpecs(want)
    ensures DistinctSpecs(Missing(store, policy, want))
  {
    if want == [] {
    } else {
      var n := |want| - 1;
      MissingDistinct(store, policy, want[..n]);
      forall a | a in Missing(store, policy, want[..n])
        ensures a.spec != want[n].spec
      {
        MissingExact(store, policy, want[..n], a);
      }
    }
  }

  // ----- Framing -----

  /** Wherever a reconcile stops, it has neither touched nor added an assignment of another policy. */
  lemma OthersUntouched(store: Store, now: Store, policy: string, want: seq<Assignment>)
    requires Labelled(want, policy) && Interrupted(store, now, policy, want)
    ensures forall n :: n in store && store[n].policy != policy ==> n in now && now[n] == store[n]
    ensures forall n :: n in now && now[n].policy != policy ==> n in store && now[n] == store[n]
  {
    if !DuringDeletes(store, now, policy, want) {
      var i :| DuringCreates(store, now, policy, want, i);
      var created := ByName(Missing(store, policy, want[..i]));
      hide ByName, Missing, FreeNames, WantsSpec;
      forall n | n in created
        ensures created[n].policy == policy && n !in Kept(store, policy, want)
      {
        var j := CreatedFrom(store, policy, want, i, n);
        CreatedIsNew(store, policy, want, i, n);
      }
    }
  }

  lemma CreatedIsNew(store: Store, policy: string, want: seq<Assignment>, i: nat, n: string)
    requires i <= |want| && FreeNames(Kept(store, policy, want), Missing(store, policy, want[..i]))
    requires n in ByName(Missing(store, policy, want[..i]))
    ensures n !in Kept(store, policy, want)
  {
    ByNameExact(Missing(store, policy, want[..i]), Kept(store, policy, want));
  }

  // ----- The whole story for one policy -----

  lemma {:induction false} EnvironmentTargetsExact(dts: seq<DeploymentTarget>, environment: string,
                                                   dt: DeploymentTarget)
    ensures dt in EnvironmentTargets(dts, environment) <==> dt in dts && dt.spec.environment == environment
  {
    if dts == [] {
    } else {
      var n := |dts| - 1;
      EnvironmentTargetsExact(dts[..n], environment, dt);
      assert dts == dts[..n] + [dts[n]];
    }
  }

  lemma {:induction false} EnvironmentTargetsUnique(dts: seq<DeploymentTarget>, environment: string)
    requires UniqueTargets(dts)
    ensures UniqueTargets(EnvironmentTargets(dts, environment))
  {
    if dts == [] {
    } else {
      var n := |dts| - 1;
      EnvironmentTargetsUnique(dts[..n], environment);
      forall dt | dt in EnvironmentTargets(dts[..n], environment)
        ensures dt.name != dts[n].name
      {
        EnvironmentTargetsExact(dts[..n], environment, dt);
      }
    }
  }

  /** What a policy means: both selectors are valid, they match a cluster type and a target of this environment, and the
      target belongs to the policy's workspace, if it names one. */
  ghost predicate PolicySelects(policy: Policy, cts: seq<ClusterType>, dts: seq<DeploymentTarget>, namespace: string,
                                spec: AssignmentSpec)
  {
    policy.clusterTypes.Some? && policy.targets.Some?
    && exists ct, dt ::
         ct in cts && dt in dts && policy.clusterTypes.value(ct.labels) && policy.targets.value(dt.labels)
         && dt.spec.environment == namespace && (policy.workspace == "" || dt.Workspace() == policy.workspace)
         && spec == AssignmentSpec(dt.Workload(), dt.name, ct.name)
  }

  /** What is scheduled is what the policy means. */
  lemma ScheduledExact(policy: Policy, cts: seq<ClusterType>, dts: seq<DeploymentTarget>, namespace: string,
                       spec: AssignmentSpec)
    ensures WantsSpec(Scheduled(policy, cts, dts, namespace), spec) <==>
            PolicySelects(policy, cts, dts, namespace, spec)
  {
    var want := Scheduled(policy, cts, dts, namespace);
    if policy.clusterTypes.Some? && policy.targets.Some? {
      var s, targets := NewScheduler(policy).value, EnvironmentTargets(dts, namespace);
      s.ScheduleExact(cts, targets, spec);
      forall dt
        ensures dt in targets <==> dt in dts && dt.spec.environment == namespace
      {
        EnvironmentTargetsExact(dts, namespace, dt);
      }
      SelectsAsMeant(policy, s, cts, dts, targets, namespace, spec);
      if a :| a in want && a.spec == spec {
        var j :| 0 <= j < |want| && want[j] == a;
      }
    }
  }

  lemma SelectsAsMeant(policy: Policy, s: Scheduler, cts: seq<ClusterType>, dts: seq<DeploymentTarget>,
                       targets: seq<DeploymentTarget>, namespace: string, spec: AssignmentSpec)
    requires NewScheduler(policy) == Some(s)
    requires forall dt :: dt in targets <==> dt in dts && dt.spec.environment == namespace
    ensures s.Selects(cts, targets, spec) <==> PolicySelects(policy, cts, dts, namespace, spec)
  {
    if PolicySelects(policy, cts, dts, namespace, spec) {
      var ct, dt :| ct in cts && dt in dts && policy.clusterTypes.value(ct.labels) && policy.targets.value(dt.labels)
        && dt.spec.environment == namespace && (policy.workspace == "" || dt.Workspace() == policy.workspace)
        && spec == AssignmentSpec(dt.Workload(), dt.name, ct.name);
      assert s.IsClusterTypeCompliant(ct) && s.IsDeploymentTargetCompliant(dt);
    }
    if s.Selects(cts, targets, spec) {
      var ct, dt :| ct in cts && dt in targets && s.IsClusterTypeCompliant(ct) && s.IsDeploymentTargetCompliant(dt)
        && spec == AssignmentSpec(dt.Workload(), dt.name, ct.name);
      assert dt in dts;
    }
  }

  lemma ScheduledLabelled(policy: Policy, cts: seq<ClusterType>, dts: seq<DeploymentTarget>, namespace: string)
    ensures Labelled(Scheduled(policy, cts, dts, namespace), policy.name)
  {
    var want := Scheduled(policy, cts, dts, namespace);
    forall j | 0 <= j < |want|
      ensures want[j].policy == policy.name
    {
      NewScheduler(policy).value.ScheduleLabels(cts, EnvironmentTargets(dts, namespace), want[j]);
    }
  }

  /** From a store that any number of reconciles left behind half-way, the next failure-free one ends where an
      uninterrupted one would have: with exactly the selected pairs, and nothing left to do. */
  lemma RetriesConverge(policy: Policy, cts: seq<ClusterType>, dts: seq<DeploymentTarget>, namespace: string,
                        stores: seq<Store>)
    requires UniqueClusterTypes(cts) && UniqueTargets(dts) && stores != []
    requires var want := Scheduled(policy, cts, dts, namespace);
             Creatable(stores[0], policy.name, want)
             && forall i :: 0 <= i < |stores| - 1 ==> Interrupted(stores[i], stores[i + 1], policy.name, want)
    ensures var want, last := Scheduled(policy, cts, dts, namespace), stores[|stores| - 1];
            var final := Target(last, policy.name, want);
            Creatable(last, policy.name, want) && final == Target(stores[0], policy.name, want)
            && (forall spec :: Holds(final, policy.name, spec) <==> PolicySelects(policy, cts, dts, namespace, spec))
            && Kept(final, policy.name, want) == final && Missing(final, policy.name, want) == []
  {
    var want, last := Scheduled(policy, cts, dts, namespace), stores[|stores| - 1];
    ScheduledLabelled(policy, cts, dts, namespace);
    EnvironmentTargetsUnique(dts, namespace);
    if NewScheduler(policy).Some? {
      NewScheduler(policy).value.ScheduleDistinct(cts, EnvironmentTargets(dts, namespace));
    }
    RetriesKeepTarget(policy.name, want, stores);
    forall spec
      ensures Holds(Target(last, policy.name, want), policy.name, spec) <==>
              PolicySelects(policy, cts, dts, namespace, spec)
    {
      Converged(last, policy.name, want, spec);
      ScheduledExact(policy, cts, dts, namespace, spec);
    }
    Idempotent(last, policy.name, want);
  }

  lemma {:induction false} RetriesKeepTarget(policy: string, want: seq<Assignment>, stores: seq<Store>)
    requires Labelled(want, policy) && DistinctSpecs(want) && stores != [] && Creatable(stores[0], policy, want)
    requires forall i :: 0 <= i < |stores| - 1 ==> Interrupted(stores[i], stores[i + 1], policy, want)
    ensures Creatable(stores[|stores| - 1], policy, want)
    ensures Target(stores[|stores| - 1], policy, want) == Target(stores[0], policy, want)
  {
    var n := |stores| - 1;
    if n == 0 {
    } else {
      RetriesKeepTarget(policy, want, stores[..n]);
      assert Interrupted(stores[n - 1], stores[n - 1 + 1], policy, want);
      Recovery(stores[n - 1], stores[n], policy, want);
    }
  }
}
