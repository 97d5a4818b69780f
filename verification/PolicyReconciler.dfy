/** The scheduling-policy reconciler: deletes the stale and creates the missing assignments of one policy. */
module PolicyReconciler {
  import opened Api
  import opened ApiServer
  import opened Basics
  import opened Scheduling
  import opened PolicyPlan

  class Reconciler {
    const api: Server

    /** The assignments of the namespace, by name. */
    var store: Store
    /** The persisted Ready condition of the policy. */
    var ready: bool

    constructor (api: Server, store: Store, ready: bool)
      requires NamedByKey(store)
      ensures this.api == api && this.store == store && this.ready == ready
    {
      this.api, this.store, this.ready := api, store, ready;
    }

    method Reconcile(policy: Policy, cts: seq<ClusterType>, dts: seq<DeploymentTarget>, namespace: string)
      returns (outcome: Outcome)
      requires NamedByKey(store)
      modifies this, api
      ensures NamedByKey(store)
      // Wherever it stops, only stale assignments are gone and only missing ones are new.
      ensures Interrupted(old(store), store, policy.name, Scheduled(policy, cts, dts, namespace))
      // Ready is reported only for the finished store, and no unfinished change is left under a Ready status.
      ensures outcome.Done? ==>
                ready && NewScheduler(policy).Some?
                && store == Target(old(store), policy.name, Scheduled(policy, cts, dts, namespace))
                && Creatable(old(store), policy.name, Scheduled(policy, cts, dts, namespace))
      ensures outcome.Failed? ==> !ready || (ready == old(ready) && store == old(store))
      // If the API server does not fail, the policy alone decides.
      ensures old(api.FailureFree()) ==>
                (outcome.Done? <==>
                 NewScheduler(policy).Some?
                   && Creatable(old(store), policy.name, Scheduled(policy, cts, dts, namespace)))
                && (ready <==> outcome.Done?)
      // It then stops at the first name that is taken, with everything stale gone; without valid selectors, at once.
      ensures old(api.FailureFree()) && NewScheduler(policy).Some? && outcome.Failed? ==>
                exists i :: BlockedAt(old(store), store, policy.name, Scheduled(policy, cts, dts, namespace), i)
      ensures NewScheduler(policy).None? ==> store == old(store)
    {
      ghost var before := store;
      StoppedAtOnce(before, policy.name, Scheduled(policy, cts, dts, namespace));
      hide Interrupted, Creatable, Target, Labelled, EnvironmentTargets, BlockedAt;
      var ok := api.Call();
      if !ok {
        return Failed;
      }
      ready := false;
      ok := api.Call();
      if !ok {
        ManageFailure();
        return Failed;
      }
      ok := api.Call();
      if !ok {
        ManageFailure();
        return Failed;
      }
      var scheduler := NewScheduler(policy);
      if scheduler.None? {
        ManageFailure();
        return Failed;
      }
      var want := scheduler.value.Schedule(cts, EnvironmentTargets(dts, namespace));
      ScheduledLabelled(policy, cts, dts, namespace);
      ok := api.Call();
      if !ok {
        ManageFailure();
        return Failed;
      }
      ok := Apply(policy.name, want);
      if !ok {
        ManageFailure();
        return Failed;
      }
      ok := api.Call();
      if !ok {
        return Failed;
      }
      ready := true;
      return Done;
    }

    /** The deletes and creates, against the snapshot taken before. */
    method Apply(policy: string, want: seq<Assignment>) returns (ok: bool)
      requires NamedByKey(store) && Labelled(want, policy)
      modifies api, `store
      ensures NamedByKey(store) && Interrupted(old(store), store, policy, want)
      ensures ok ==> store == Target(old(store), policy, want) && Creatable(old(store), policy, want)
      ensures old(api.FailureFree()) ==> api.FailureFree() && (ok <==> Creatable(old(store), policy, want))
      ensures old(api.FailureFree()) && !ok ==> exists i :: BlockedAt(old(store), store, policy, want, i)
    {
      hide DuringDeletes, DuringCreates, Creatable, Kept, Labelled, Snapshot, Target, BlockedAt;
      ghost var before := store;
      var items := ListOwned(policy);
      ok := DeleteStale(policy, items, want);
      if ok {
        ok := CreateMissing(before, policy, items, want);
        if ok {
          CreatesEnd(before, store, policy, want);
        }
      }
    }

    method ManageFailure()
      modifies api, `ready
      ensures old(!ready) ==> !ready
    {
      var ok := api.Call();
      if ok {
        ready := false;
      }
    }

    /** The assignments with the policy's label, in the API server's order. */
    method ListOwned(policy: string) returns (items: seq<Assignment>)
      requires NamedByKey(store)
      ensures Snapshot(items, store, policy)
    {
      items := [];
      var pending := set n | n in store && store[n].policy == policy;
      while pending != {}
        invariant forall n :: n in pending ==> n in store && store[n].policy == policy
        invariant forall i :: 0 <= i < |items| ==>
                    items[i].name in store && store[items[i].name] == items[i] && items[i].policy == policy
        invariant forall i :: 0 <= i < |items| ==> items[i].name !in pending
        invariant forall n :: n in store && store[n].policy == policy ==> n in pending || store[n] in items
        invariant forall i, j :: 0 <= i < j < |items| ==> items[i].name != items[j].name
      {
        var n :| n in pending;
        items := items + [store[n]];
        pending := pending - {n};
      }
    }

    method HasSpec(assignments: seq<Assignment>, spec: AssignmentSpec) returns (found: bool)
      ensures found <==> WantsSpec(assignments, spec)
    {
      found := false;
      for i := 0 to |assignments|
        invariant !found && !WantsSpec(assignments[..i], spec)
      {
        if assignments[i].spec == spec {
          found := true;
          break;
        }
      }
    }

    method DeleteStale(policy: string, items: seq<Assignment>, want: seq<Assignment>) returns (ok: bool)
      requires NamedByKey(store) && Snapshot(items, store, policy)
      modifies api, `store
      ensures NamedByKey(store)
      ensures DuringDeletes(old(store), store, policy, want)
      ensures ok ==> store == Kept(old(store), policy, want)
      ensures old(api.FailureFree()) ==> ok && api.FailureFree()
    {
      ghost var before := store;
      ok := true;
      for i := 0 to |items|
        invariant NamedByKey(store) && (old(api.FailureFree()) ==> api.FailureFree())
        invariant store == Without(before, items[..i], want)
      {
        var found := HasSpec(want, items[i].spec);
        WithoutStep(before, items, i, want);
        if !found {
          ok := api.Call();
          if !ok {
            WithoutIsPartial(before, items, i, policy, want);
            return;
          }
          store := store - {items[i].name};
        }
      }
      assert items[..|items|] == items;
      WithoutIsPartial(before, items, |items|, policy, want);
      WithoutAll(before, items, policy, want);
    }

    /** The lookup is in the snapshot taken before the deletes; `before` is the store it was taken of. */
    method CreateMissing(ghost before: Store, policy: string, items: seq<Assignment>, want: seq<Assignment>)
      returns (ok: bool)
      requires Snapshot(items, before, policy) && store == Kept(before, policy, want)
      requires NamedByKey(store) && Labelled(want, policy)
      modifies api, `store
      ensures NamedByKey(store)
      ensures exists i :: DuringCreates(before, store, policy, want, i)
      ensures ok ==> DuringCreates(before, store, policy, want, |want|)
      ensures old(api.FailureFree()) ==> api.FailureFree() && (ok <==> Creatable(before, policy, want))
      ensures old(api.FailureFree()) && !ok ==> exists i :: BlockedAt(before, store, policy, want, i)
    {
      hide DuringCreates, Creatable, Kept, Holds, Snapshot, WantsSpec;
      ok := true;
      CreatesStart(before, policy, want);
      for i := 0 to |want|
        invariant NamedByKey(store) && ok && (old(api.FailureFree()) ==> api.FailureFree())
        invariant DuringCreates(before, store, policy, want, i)
      {
        var found := HasSpec(items, want[i].spec);
        SnapshotHolds(items, before, policy, want[i].spec);
        CreatesStep(before, store, policy, want, i);
        if !found {
          ok := api.Call();
          if !ok || want[i].name in store {
            assert ok ==> BlockedAt(before, store, policy, want, i);
            ok := false;
            return;
          }
          store := store[want[i].name := want[i]];
        }
      }
      CreatesEnd(before, store, policy, want);
    }
  }

  ghost predicate Snapshot(items: seq<Assignment>, store: Store, policy: string) {
    (forall i :: 0 <= i < |items| ==>
                   items[i].name in store && store[items[i].name] == items[i] && items[i].policy == policy)
    && forall n :: n in store && store[n].policy == policy ==> store[n] in items
  }

  lemma StoppedAtOnce(store: Store, policy: string, want: seq<Assignment>)
    ensures Interrupted(store, store, policy, want)
  {
    assert DuringDeletes(store, store, policy, want);
  }

  lemma SnapshotHolds(items: seq<Assignment>, store: Store, policy: string, spec: AssignmentSpec)
    requires Snapshot(items, store, policy)
    ensures WantsSpec(items, spec) <==> Holds(store, policy, spec)
  {
    if Holds(store, policy, spec) {
      var n :| n in store && store[n].policy == policy && store[n].spec == spec;
      var i :| 0 <= i < |items| && items[i] == store[n];
    }
  }

  // ----- The deletes, item by item -----

  ghost function Without(store: Store, items: seq<Assignment>, want: seq<Assignment>): Store {
    map n | n in store && !(exists i :: 0 <= i < |items| && items[i].name == n && !WantsSpec(want, items[i].spec)) ::
      store[n]
  }

  lemma WithoutStep(store: Store, items: seq<Assignment>, i: nat, want: seq<Assignment>)
    requires i < |items|
    ensures Without(store, items[..i + 1], want) ==
            if WantsSpec(want, items[i].spec) then Without(store, items[..i], want)
            else Without(store, items[..i], want) - {items[i].name}
  {
    var longer, shorter := items[..i + 1], items[..i];
    assert longer == shorter + [items[i]];
    forall n | n in store
      ensures (exists l :: 0 <= l < |longer| && longer[l].name == n && !WantsSpec(want, longer[l].spec)) <==>
              (exists l :: 0 <= l < |shorter| && shorter[l].name == n && !WantsSpec(want, shorter[l].spec))
              || (items[i].name == n && !WantsSpec(want, items[i].spec))
    {
      if l :| 0 <= l < |shorter| && shorter[l].name == n && !WantsSpec(want, shorter[l].spec) {
        assert longer[l] == shorter[l];
      }
      if items[i].name == n && !WantsSpec(want, items[i].spec) {
        assert longer[i] == items[i];
      }
    }
  }

  lemma WithoutIsPartial(store: Store, items: seq<Assignment>, i: nat, policy: string, want: seq<Assignment>)
    requires Snapshot(items, store, policy) && i <= |items|
    ensures DuringDeletes(store, Without(store, items[..i], want), policy, want)
  {
    var now := Without(store, items[..i], want);
    forall n | n in store && n !in now
      ensures Stale(store[n], policy, want)
    {
      var l :| 0 <= l < i && items[..i][l].name == n && !WantsSpec(want, items[..i][l].spec);
      assert items[l].name == n;
    }
  }

  lemma WithoutAll(store: Store, items: seq<Assignment>, policy: string, want: seq<Assignment>)
    requires Snapshot(items, store, policy) && NamedByKey(store)
    ensures Without(store, items, want) == Kept(store, policy, want)
  {
    forall n | n in store
      ensures (exists l :: 0 <= l < |items| && items[l].name == n && !WantsSpec(want, items[l].spec)) <==>
              Stale(store[n], policy, want)
    {
      if Stale(store[n], policy, want) {
        var l :| 0 <= l < |items| && items[l] == store[n];
        assert items[l].name == n;
      }
    }
  }

  // ----- The creates, one by one -----

  lemma CreatesStart(before: Store, policy: string, want: seq<Assignment>)
    ensures DuringCreates(before, Kept(before, policy, want), policy, want, 0)
  {
    assert want[..0] == [];
  }

  lemma CreatesEnd(before: Store, now: Store, policy: string, want: seq<Assignment>)
    requires DuringCreates(before, now, policy, want, |want|)
    ensures Creatable(before, policy, want) && now == Target(before, policy, want)
  {
    assert want[..|want|] == want;
  }

  /** One desired assignment: skipped if held, created if its name is free; a taken name means that not everything
      can be created. */
  lemma CreatesStep(before: Store, now: Store, policy: string, want: seq<Assignment>, i: nat)
    requires DuringCreates(before, now, policy, want, i) && i < |want|
    ensures Holds(before, policy, want[i].spec) ==> DuringCreates(before, now, policy, want, i + 1)
    ensures !Holds(before, policy, want[i].spec) && want[i].name !in now ==>
              DuringCreates(before, now[want[i].name := want[i]], policy, want, i + 1)
    ensures !Holds(before, policy, want[i].spec) && want[i].name in now ==> !Creatable(before, policy, want)
  {
    hide Holds, Kept, WantsSpec, Missing, ByName, FreeNames;
    var kept, created, a := Kept(before, policy, want), Missing(before, policy, want[..i]), want[i];
    MissingStep(before, policy, want, i);
    if !Holds(before, policy, a.spec) {
      if a.name in now {
        assert want == want[..i + 1] + want[i + 1..];
        MissingConcat(before, policy, want[..i + 1], want[i + 1..]);
        ByNameExact(created, kept);
        TakenName(kept, created, a, Missing(before, policy, want[i + 1..]));
      } else {
        FreeName(kept, created, a);
      }
    }
  }

  lemma MissingStep(store: Store, policy: string, want: seq<Assignment>, i: nat)
    requires i < |want|
    ensures Missing(store, policy, want[..i + 1]) ==
            Missing(store, policy, want[..i]) + if Holds(store, policy, want[i].spec) then [] else [want[i]]
    ensures Holds(store, policy, want[i].spec) ==>
            Missing(store, policy, want[..i + 1]) == Missing(store, policy, want[..i])
  {
    assert want[..i + 1][..i] == want[..i];
  }

  lemma FreeName(kept: Store, created: seq<Assignment>, a: Assignment)
    requires FreeNames(kept, created) && a.name !in kept + ByName(created)
    ensures FreeNames(kept, created + [a])
    ensures (kept + ByName(created))[a.name := a] == kept + ByName(created + [a])
  {
    ByNameExact(created, kept);
    ByNameSnoc(created, a);
    assert forall i :: 0 <= i < |created| ==> created[i].name in ByName(created);
    assert a.name !in kept && a.name !in ByName(created);
    hide *;
    PutByName(kept, ByName(created), a);
    FreeSnoc(kept, created, a);
  }

  lemma PutByName(kept: Store, byName: Store, a: Assignment)
    ensures (kept + byName)[a.name := a] == kept + byName[a.name := a]
  {
  }

  lemma FreeSnoc(kept: Store, created: seq<Assignment>, a: Assignment)
    requires FreeNames(kept, created) && a.name !in kept
    requires forall i :: 0 <= i < |created| ==> created[i].name != a.name
    ensures FreeNames(kept, created + [a])
  {
  }

  lemma ByNameSnoc(created: seq<Assignment>, a: Assignment)
    ensures ByName(created + [a]) == ByName(created)[a.name := a]
  {
    assert (created + [a])[..|created|] == created;
  }

  lemma TakenName(kept: Store, created: seq<Assignment>, a: Assignment, rest: seq<Assignment>)
    requires a.name in kept || exists l :: 0 <= l < |created| && created[l].name == a.name
    ensures !FreeNames(kept, (created + [a]) + rest)
  {
    var all := (created + [a]) + rest;
    assert all[|created|] == a;
    if a.name !in kept {
      var l :| 0 <= l < |created| && created[l].name == a.name;
      assert all[l] == created[l];
    }
  }
}
