/** All policies of a namespace working on the same store: they settle, one round after another. */
module PolicyRounds {
  import opened Api
  import opened Scheduling
  import opened PolicyPlan

  /** An environment namespace: the inputs of the scheduling. */
  datatype Namespace = Namespace(name: string, policies: seq<Policy>, cts: seq<ClusterType>, dts: seq<DeploymentTarget>)
  {
    function Want(i: nat): seq<Assignment>
      requires i < |policies|
    {
      Scheduled(policies[i], cts, dts, name)
    }

    ghost predicate SelectedBy(i: int, spec: AssignmentSpec) {
      0 <= i < |policies| && PolicySelects(policies[i], cts, dts, name, spec)
    }

    ghost predicate SelectedSpec(spec: AssignmentSpec) {
      exists i :: SelectedBy(i, spec)
    }

    /** Some policy selects the cluster type together with a target of this environment. */
    ghost predicate Selected(ct: string, dt: string) {
      exists spec :: SelectedSpec(spec) && spec.clusterType == ct && spec.deploymentTarget == dt
    }

    predicate DistinctPolicies() {
      forall i, j :: 0 <= i < j < |policies| ==> policies[i].name != policies[j].name
    }

    predicate NoSlashes() {
      (forall c :: c in cts ==> '/' !in c.name) && forall d :: d in dts ==> '/' !in d.name
    }
  }

  predicate WellNamed(store: Store) {
    forall n :: n in store ==> n == AssignmentName(store[n].spec)
  }

  /** A reconcile of the policy succeeds without a delete or a create. */
  ghost predicate Settled(ns: Namespace, i: nat, store: Store)
    requires i < |ns.policies|
  {
    NewScheduler(ns.policies[i]).Some?
    && Kept(store, ns.policies[i].name, ns.Want(i)) == store
    && Missing(store, ns.policies[i].name, ns.Want(i)) == []
  }

  /** Every policy is settled, and no assignment outlives its policy. */
  ghost predicate Quiescent(ns: Namespace, store: Store) {
    WellNamed(store)
    && (forall i :: 0 <= i < |ns.policies| ==> Settled(ns, i, store))
    && forall n :: n in store ==> exists i :: 0 <= i < |ns.policies| && ns.policies[i].name == store[n].policy
  }

  // ----- One round over all policies settles them all -----

  /** The store after the first `k` policies have been reconciled, one after the other. */
  ghost function AfterRound(ns: Namespace, store: Store, k: nat): Store
    requires k <= |ns.policies|
  {
    if k == 0 then store else Target(AfterRound(ns, store, k - 1), ns.policies[k - 1].name, ns.Want(k - 1))
  }

  ghost predicate RoundSucceeds(ns: Namespace, store: Store) {
    forall i :: 0 <= i < |ns.policies| ==>
                  NewScheduler(ns.policies[i]).Some?
                    && Creatable(AfterRound(ns, store, i), ns.policies[i].name, ns.Want(i))
  }

  /** A failure-free round settles every policy: no reconcile undoes the work of an earlier one. */
  lemma {:induction false} RoundSettles(ns: Namespace, store: Store, k: nat)
    requires ns.DistinctPolicies() && RoundSucceeds(ns, store) && k <= |ns.policies|
    ensures forall i :: 0 <= i < k ==> Settled(ns, i, AfterRound(ns, store, k))
  {
    hide *;
    if k == 0 {
    } else {
      RoundSettles(ns, store, k - 1);
      NextTurn(ns, store, k);
      var before := AfterRound(ns, store, k - 1);
      SettledByTurn(ns, k - 1, before);
      forall i | 0 <= i < k - 1
        ensures Settled(ns, i, AfterRound(ns, store, k))
      {
        StaysSettled(ns, i, k - 1, before);
      }
    }
  }

  lemma NextTurn(ns: Namespace, store: Store, k: nat)
    requires RoundSucceeds(ns, store) && 0 < k <= |ns.policies|
    ensures var before, policy, want := AfterRound(ns, store, k - 1), ns.policies[k - 1].name, ns.Want(k - 1);
            NewScheduler(ns.policies[k - 1]).Some? && Creatable(before, policy, want)
            && AfterRound(ns, store, k) == Target(before, policy, want)
  {
    hide Target, Creatable, NewScheduler, Scheduled;
  }

  lemma SettledByTurn(ns: Namespace, j: nat, store: Store)
    requires j < |ns.policies| && NewScheduler(ns.policies[j]).Some?
            && Creatable(store, ns.policies[j].name, ns.Want(j))
    ensures Settled(ns, j, Target(store, ns.policies[j].name, ns.Want(j)))
  {
    ScheduledLabelled(ns.policies[j], ns.cts, ns.dts, ns.name);
    Idempotent(store, ns.policies[j].name, ns.Want(j));
    hide Target, Creatable, Labelled, Scheduled, Kept, Missing;
  }

  /** The reconcile of policy `j` leaves policy `i` settled. */
  lemma StaysSettled(ns: Namespace, i: nat, j: nat, store: Store)
    requires ns.DistinctPolicies() && i < |ns.policies| && j < |ns.policies| && i != j && Settled(ns, i, store)
    requires Creatable(store, ns.policies[j].name, ns.Want(j))
    ensures Settled(ns, i, Target(store, ns.policies[j].name, ns.Want(j)))
  {
    var policy, want := ns.policies[j].name, ns.Want(j);
    ScheduledLabelled(ns.policies[j], ns.cts, ns.dts, ns.name);
    FinishedIsInterrupted(store, policy, want);
    OthersUntouched(store, Target(store, policy, want), policy, want);
    assert ns.policies[i].name != policy;
    hide Settled, Target, Creatable, Interrupted, Labelled, Scheduled;
    SettledFrame(ns, i, store, Target(store, policy, want));
  }

  lemma FinishedIsInterrupted(store: Store, policy: string, want: seq<Assignment>)
    requires Creatable(store, policy, want)
    ensures Interrupted(store, Target(store, policy, want), policy, want)
  {
    assert want[..|want|] == want;
    assert DuringCreates(store, Target(store, policy, want), policy, want, |want|);
  }

  /** Being settled depends only on the policy's own assignments. */
  lemma SettledFrame(ns: Namespace, i: nat, store: Store, now: Store)
    requires i < |ns.policies| && Settled(ns, i, store)
    requires forall n :: n in store && store[n].policy == ns.policies[i].name ==> n in now && now[n] == store[n]
    requires forall n :: n in now && now[n].policy == ns.policies[i].name ==> n in store && now[n] == store[n]
    ensures Settled(ns, i, now)
  {
    var policy, want := ns.policies[i].name, ns.Want(i);
    hide Scheduled, WantsSpec;
    forall n | n in now
      ensures !Stale(now[n], policy, want)
    {
      if now[n].policy == policy {
        assert n in Kept(store, policy, want);
      }
    }
    forall j | 0 <= j < |want|
      ensures Holds(now, policy, want[j].spec) <==> Holds(store, policy, want[j].spec)
    {
      if Holds(store, policy, want[j].spec) {
        var n :| n in store && store[n].policy == policy && store[n].spec == want[j].spec;
        assert now[n] == store[n];
      }
    }
    MissingSame(now, store, policy, want);
  }

  // ----- What a settled policy holds -----

  lemma SettledHolds(ns: Namespace, i: nat, store: Store, spec: AssignmentSpec)
    requires i < |ns.policies| && Settled(ns, i, store)
    ensures Holds(store, ns.policies[i].name, spec) <==> ns.SelectedBy(i, spec)
  {
    var policy, want := ns.policies[i].name, ns.Want(i);
    ScheduledExact(ns.policies[i], ns.cts, ns.dts, ns.name, spec);
    hide Scheduled, PolicySelects;
    if Holds(store, policy, spec) {
      var n :| n in store && store[n].policy == policy && store[n].spec == spec;
      assert n in Kept(store, policy, want);
    }
    if WantsSpec(want, spec) {
      var j :| 0 <= j < |want| && want[j].spec == spec;
      MissingExact(store, policy, want, want[j]);
    }
  }

  /** Two policies that select the same pair never settle together: their assignments would share a name. */
  lemma OverlapNeverSettles(ns: Namespace, i: nat, j: nat, store: Store, spec: AssignmentSpec)
    requires ns.DistinctPolicies() && WellNamed(store) && i < j < |ns.policies|
    requires ns.SelectedBy(i, spec) && ns.SelectedBy(j, spec)
    ensures !(Settled(ns, i, store) && Settled(ns, j, store))
  {
    if Settled(ns, i, store) && Settled(ns, j, store) {
      SettledHolds(ns, i, store, spec);
      SettledHolds(ns, j, store, spec);
      hide Settled, Holds;
      HeldOnce(store, ns.policies[i].name, ns.policies[j].name, spec);
    }
  }

  lemma HeldOnce(store: Store, p: string, q: string, spec: AssignmentSpec)
    requires WellNamed(store) && Holds(store, p, spec) && Holds(store, q, spec)
    ensures p == q
  {
    var n :| n in store && store[n].policy == p && store[n].spec == spec;
    var m :| m in store && store[m].policy == q && store[m].spec == spec;
    assert n == AssignmentName(spec) == m;
  }

  /** A quiescent store holds the selected pairs and nothing else. */
  lemma StoreExact(ns: Namespace, store: Store, spec: AssignmentSpec)
    requires Quiescent(ns, store)
    ensures AssignmentName(spec) in store && store[AssignmentName(spec)].spec == spec <==> ns.SelectedSpec(spec)
  {
    hide Settled;
    if AssignmentName(spec) in store && store[AssignmentName(spec)].spec == spec {
      var n := AssignmentName(spec);
      var i :| 0 <= i < |ns.policies| && ns.policies[i].name == store[n].policy;
      assert Holds(store, ns.policies[i].name, spec);
      SettledHolds(ns, i, store, spec);
    }
    if ns.SelectedSpec(spec) {
      var i :| ns.SelectedBy(i, spec);
      SettledHolds(ns, i, store, spec);
      var n :| n in store && store[n].policy == ns.policies[i].name && store[n].spec == spec;
      assert n == AssignmentName(spec);
    }
  }

  // ----- Two rounds suffice -----

  /** An assignment that its policy wants. */
  ghost predicate Wanted(ns: Namespace, i: int, a: Assignment) {
    0 <= i < |ns.policies| && ns.policies[i].name == a.policy && WantsSpec(ns.Want(i), a.spec)
  }

  /** Nothing is stale, for any policy. */
  ghost predicate Clean(ns: Namespace, store: Store) {
    WellNamed(store) && forall n :: n in store ==> exists i :: Wanted(ns, i, store[n])
  }

  ghost predicate DisjointPolicies(ns: Namespace) {
    forall i, j, spec :: ns.SelectedBy(i, spec) && ns.SelectedBy(j, spec) ==> i == j
  }

  ghost predicate InjectiveNames(ns: Namespace) {
    forall a, b :: ns.SelectedSpec(a) && ns.SelectedSpec(b) && AssignmentName(a) == AssignmentName(b) ==> a == b
  }

  /** The namespace is one in which reconciles can succeed. */
  ghost predicate Sound(ns: Namespace) {
    ns.DistinctPolicies() && UniqueClusterTypes(ns.cts) && UniqueTargets(ns.dts)
    && DisjointPolicies(ns) && InjectiveNames(ns)
    && forall i :: 0 <= i < |ns.policies| ==> NewScheduler(ns.policies[i]).Some?
  }

  /** Both sides of a selected spec exist, and the target determines the workload. */
  lemma SelectedParts(ns: Namespace, spec: AssignmentSpec)
    requires ns.SelectedSpec(spec)
    ensures exists c :: c in ns.cts && c.name == spec.clusterType
    ensures exists d :: d in ns.dts && d.name == spec.deploymentTarget && d.Workload() == spec.workload
  {
    var i :| ns.SelectedBy(i, spec);
  }

  /** Workload and cluster type names without dashes make all assignment names distinct. */
  lemma DashFreeInjective(ns: Namespace)
    requires forall c :: c in ns.cts ==> '-' !in c.name
    requires forall d :: d in ns.dts ==> '-' !in d.Workload()
    ensures InjectiveNames(ns)
  {
    forall a, b | ns.SelectedSpec(a) && ns.SelectedSpec(b) && AssignmentName(a) == AssignmentName(b)
      ensures a == b
    {
      SelectedParts(ns, a);
      SelectedParts(ns, b);
      hide Namespace.SelectedSpec, AssignmentName;
      DashFreeNamesInjective(a, b);
    }
  }

  lemma WantFacts(ns: Namespace, i: nat)
    requires Sound(ns) && i < |ns.policies|
    ensures Labelled(ns.Want(i), ns.policies[i].name) && DistinctSpecs(ns.Want(i))
    ensures forall j :: 0 <= j < |ns.Want(i)| ==> ns.Want(i)[j].name == AssignmentName(ns.Want(i)[j].spec)
  {
    ScheduledLabelled(ns.policies[i], ns.cts, ns.dts, ns.name);
    EnvironmentTargetsUnique(ns.dts, ns.name);
    var s, targets := NewScheduler(ns.policies[i]).value, EnvironmentTargets(ns.dts, ns.name);
    s.ScheduleDistinct(ns.cts, targets);
    forall j | 0 <= j < |ns.Want(i)|
      ensures ns.Want(i)[j].name == AssignmentName(ns.Want(i)[j].spec)
    {
      s.ScheduleLabels(ns.cts, targets, ns.Want(i)[j]);
    }
  }

  lemma WantedIsSelected(ns: Namespace, i: nat, spec: AssignmentSpec)
    requires i < |ns.policies|
    ensures WantsSpec(ns.Want(i), spec) <==> ns.SelectedBy(i, spec)
  {
    ScheduledExact(ns.policies[i], ns.cts, ns.dts, ns.name, spec);
  }

  /** On a clean store no name is taken. */
  lemma CleanCreatable(ns: Namespace, i: nat, store: Store)
    requires Sound(ns) && Clean(ns, store) && i < |ns.policies|
    ensures Creatable(store, ns.policies[i].name, ns.Want(i))
  {
    var policy, want := ns.policies[i].name, ns.Want(i);
    WantFacts(ns, i);
    hide Scheduled, Sound, AssignmentName, DistinctSpecs, Creatable;
    forall a | a in want
      ensures ns.SelectedBy(i, a.spec) && a.name == AssignmentName(a.spec)
    {
      WantedIsSelected(ns, i, a.spec);
    }
    forall a, b | a in want && b in want && a.name == b.name
      ensures a.spec == b.spec
    {
      SameName(ns, i, i, a.spec, b.spec);
    }
    forall a | a in want && a.name in store
      ensures store[a.name].policy == policy
    {
      var j :| Wanted(ns, j, store[a.name]);
      WantedIsSelected(ns, j, store[a.name].spec);
      SameName(ns, i, j, a.spec, store[a.name].spec);
    }
    CreatableByNames(store, policy, want);
  }

  lemma SameName(ns: Namespace, i: nat, j: nat, a: AssignmentSpec, b: AssignmentSpec)
    requires Sound(ns) && ns.SelectedBy(i, a) && ns.SelectedBy(j, b) && AssignmentName(a) == AssignmentName(b)
    ensures i == j && a == b
  {
    hide AssignmentName, PolicySelects;
    assert ns.SelectedSpec(a) && ns.SelectedSpec(b);
  }

  /** A reconcile that got past its deletes keeps the form of the store and leaves nothing of its own policy stale. */
  lemma CreatesKeepForm(ns: Namespace, i: nat, store: Store, now: Store, k: int)
    requires Sound(ns) && i < |ns.policies| && WellNamed(store)
    requires DuringCreates(store, now, ns.policies[i].name, ns.Want(i), k)
    ensures WellNamed(now)
    ensures forall n :: n in now ==>
              (n in store && now[n] == store[n] && now[n].policy != ns.policies[i].name) || Wanted(ns, i, now[n])
  {
    var policy, want := ns.policies[i].name, ns.Want(i);
    WantFacts(ns, i);
    var created := Missing(store, policy, want[..k]);
    hide AssignmentName, Scheduled, Sound, DistinctSpecs, ByName, Missing, FreeNames;
    forall n | n in now
      ensures n == AssignmentName(now[n].spec)
      ensures (n in store && now[n] == store[n] && now[n].policy != policy) || Wanted(ns, i, now[n])
    {
      if n in ByName(created) {
        var j := CreatedFrom(store, policy, want, k, n);
        assert want[j].spec == now[n].spec;
      }
    }
  }

  lemma TargetClean(ns: Namespace, i: nat, store: Store)
    requires Sound(ns) && Clean(ns, store) && i < |ns.policies| && Creatable(store, ns.policies[i].name, ns.Want(i))
    ensures Clean(ns, Target(store, ns.policies[i].name, ns.Want(i)))
  {
    var want := ns.Want(i);
    assert want[..|want|] == want;
    CreatesKeepForm(ns, i, store, Target(store, ns.policies[i].name, want), |want|);
  }

  /** From a clean store, a round goes through and ends quiescent. */
  lemma CleanRound(ns: Namespace, store: Store)
    requires Sound(ns) && Clean(ns, store)
    ensures RoundSucceeds(ns, store) && Quiescent(ns, AfterRound(ns, store, |ns.policies|))
  {
    forall i | 0 <= i < |ns.policies|
      ensures Creatable(AfterRound(ns, store, i), ns.policies[i].name, ns.Want(i))
    {
      RoundClean(ns, store, i);
      CleanCreatable(ns, i, AfterRound(ns, store, i));
    }
    RoundClean(ns, store, |ns.policies|);
    RoundSettles(ns, store, |ns.policies|);
  }

  lemma {:induction false} RoundClean(ns: Namespace, store: Store, k: nat)
    requires Sound(ns) && Clean(ns, store) && k <= |ns.policies|
    ensures Clean(ns, AfterRound(ns, store, k))
  {
    hide Sound, Clean, Target, Creatable, Scheduled;
    if k == 0 {
    } else {
      RoundClean(ns, store, k - 1);
      CleanCreatable(ns, k - 1, AfterRound(ns, store, k - 1));
      TargetClean(ns, k - 1, AfterRound(ns, store, k - 1));
    }
  }

  /** The stores of a first round in which each reconcile got past its deletes, but may have stopped at any of its
      creates. */
  ghost predicate FirstRound(ns: Namespace, stores: seq<Store>) {
    |stores| == |ns.policies| + 1
    && forall i :: 0 <= i < |ns.policies| ==> PastDeletes(ns, i, stores[i], stores[i + 1])
  }

  ghost predicate PastDeletes(ns: Namespace, i: nat, store: Store, now: Store)
    requires i < |ns.policies|
  {
    exists k :: DuringCreates(store, now, ns.policies[i].name, ns.Want(i), k)
  }

  /** Every assignment belongs to a policy, and what belongs to the first `k` is wanted. */
  ghost predicate CleanUpTo(ns: Namespace, k: int, store: Store) {
    WellNamed(store)
    && forall n :: n in store ==> exists i :: 0 <= i < |ns.policies| && ns.policies[i].name == store[n].policy
                                              && (i < k ==> Wanted(ns, i, store[n]))
  }

  lemma {:induction false} FirstRoundCleans(ns: Namespace, stores: seq<Store>, k: nat)
    requires Sound(ns) && FirstRound(ns, stores) && CleanUpTo(ns, 0, stores[0]) && k <= |ns.policies|
    ensures CleanUpTo(ns, k, stores[k])
  {
    if k == 0 {
    } else {
      FirstRoundCleans(ns, stores, k - 1);
      hide Sound;
      var i := k - 1;
      assert PastDeletes(ns, i, stores[i], stores[i + 1]);
      CleansNext(ns, i, stores[i], stores[i + 1]);
    }
  }

  lemma CleansNext(ns: Namespace, j: nat, store: Store, now: Store)
    requires Sound(ns) && j < |ns.policies| && CleanUpTo(ns, j, store) && PastDeletes(ns, j, store, now)
    ensures CleanUpTo(ns, j + 1, now)
  {
    var c :| DuringCreates(store, now, ns.policies[j].name, ns.Want(j), c);
    CreatesKeepForm(ns, j, store, now, c);
    hide Sound, DuringCreates, Scheduled;
    forall n | n in now
      ensures exists i ::
                0 <= i < |ns.policies| && ns.policies[i].name == now[n].policy && (i < j + 1 ==> Wanted(ns, i, now[n]))
    {
      if Wanted(ns, j, now[n]) {
      } else {
        var i :| 0 <= i < |ns.policies| && ns.policies[i].name == store[n].policy
          && (i < j ==> Wanted(ns, i, store[n]));
        assert i != j;
      }
    }
  }

  /** From any well-named store, whatever creates fail in a first round, a second round goes through and leaves the
      namespace quiescent: the first round at least frees the names. */
  lemma TwoRoundsSuffice(ns: Namespace, stores: seq<Store>)
    requires Sound(ns) && FirstRound(ns, stores) && CleanUpTo(ns, 0, stores[0])
    ensures var last := stores[|ns.policies|];
            RoundSucceeds(ns, last) && Quiescent(ns, AfterRound(ns, last, |ns.policies|))
  {
    FirstRoundCleans(ns, stores, |ns.policies|);
    var last := stores[|ns.policies|];
    forall n | n in last
      ensures exists i :: Wanted(ns, i, last[n])
    {
      var i :| 0 <= i < |ns.policies| && ns.policies[i].name == last[n].policy
        && (i < |ns.policies| ==> Wanted(ns, i, last[n]));
    }
    CleanRound(ns, last);
  }

  // ----- When a namespace can settle -----

  lemma QuiescentIsSound(ns: Namespace, store: Store)
    requires ns.DistinctPolicies() && UniqueClusterTypes(ns.cts) && UniqueTargets(ns.dts) && Quiescent(ns, store)
    ensures Sound(ns)
  {
    hide AssignmentName, PolicySelects, Scheduled;
    forall i, j, spec | ns.SelectedBy(i, spec) && ns.SelectedBy(j, spec)
      ensures i == j
    {
      assert Settled(ns, i, store) && Settled(ns, j, store);
      if i < j {
        OverlapNeverSettles(ns, i, j, store, spec);
      } else if j < i {
        OverlapNeverSettles(ns, j, i, store, spec);
      }
    }
    forall a, b | ns.SelectedSpec(a) && ns.SelectedSpec(b) && AssignmentName(a) == AssignmentName(b)
      ensures a == b
    {
      StoreExact(ns, store, a);
      StoreExact(ns, store, b);
    }
    forall i | 0 <= i < |ns.policies|
      ensures NewScheduler(ns.policies[i]).Some?
    {
      assert Settled(ns, i, store);
    }
  }

  /** A namespace has a quiescent state if and only if all selectors are valid, no two policies select the same pair,
      and no two selected specs share a name; two rounds then lead there. */
  lemma SettlesIff(ns: Namespace)
    requires ns.DistinctPolicies() && UniqueClusterTypes(ns.cts) && UniqueTargets(ns.dts)
    ensures (exists store :: Quiescent(ns, store)) <==> Sound(ns)
  {
    if store :| Quiescent(ns, store) {
      QuiescentIsSound(ns, store);
    }
    if Sound(ns) {
      CleanRound(ns, map[]);
    }
  }
}
