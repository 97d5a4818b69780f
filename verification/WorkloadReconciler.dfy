/** The workload reconciler: deletes, updates and creates the deployment targets of one workload. */
module WorkloadReconciler {
  import opened Api
  import opened ApiServer
  import opened Basics
  import opened WorkloadPlan

  /** How the write loop ends. */
  datatype Attempt = Finished | Refused | Panicked

  class Reconciler {
    const api: Server

    /** The deployment targets of the namespace, by name. */
    var store: Store
    /** The persisted Ready condition of the workload. */
    var ready: bool

    constructor (api: Server, store: Store, ready: bool)
      requires NamedByKey(store)
      ensures this.api == api && this.store == store && this.ready == ready
    {
      this.api, this.store, this.ready := api, store, ready;
    }

    method Reconcile(w: Workload, registrations: Labels) returns (outcome: Outcome)
      requires NamedByKey(store)
      modifies this, api
      ensures NamedByKey(store)
      ensures Interrupted(old(store), store, w, registrations)
      ensures outcome.Done? ==>
                ready && store == Target(old(store), w, Workspace(w, registrations))
                && Achievable(old(store), w, registrations)
      ensures outcome.Failed? ==> !ready || ready == old(ready)
      ensures old(api.FailureFree()) ==> (outcome.Done? <==> Achievable(old(store), w, registrations))
      // It then stops at the first detail that cannot be written, with everything stale gone.
      ensures old(api.FailureFree()) && outcome.Failed? ==>
                exists i :: BlockedAt(old(store), store, w, registrations, i)
      ensures old(api.FailureFree()) && (HasLocal(w.details, w) ==> FluxNameHasDash(w)) ==> (ready <==> outcome.Done?)
      // A Flux owner name without a dash stops the operator before the first write, with the status as it was.
      ensures old(api.FailureFree()) && HasLocal(w.details, w) && !FluxNameHasDash(w) ==>
                store == Kept(old(store), w) && ready == old(ready)
    {
      hide Interrupted, DuringWrites, DuringDeletes, Achievable, Kept, Owned, FluxNameHasDash, BlockedAt;
      ghost var before := store;
      InterruptedAtOnce(before, w, registrations);
      var ok := api.Call();
      if !ok {
        ManageFailure();
        return Failed;
      }
      var items := ListOwned(w);
      ok := DeleteStale(w, items);
      DeletesInterrupted(before, store, w, registrations);
      var attempt := Refused;
      if ok {
        attempt := WriteDetails(before, w, items, registrations);
      }
      if attempt.Panicked? {
        return Failed;
      }
      if attempt.Refused? {
        ManageFailure();
        return Failed;
      }
      ok := api.Call();
      if !ok {
        return Failed;
      }
      ready := true;
      return Done;
    }

    method ManageFailure()
      modifies api, `ready
      ensures !ready || ready == old(ready)
      ensures old(api.FailureFree()) ==> !ready
    {
      var ok := api.Call();
      if ok {
        ready := false;
      }
    }

    /** The targets with the workload's label, in the API server's order. */
    method ListOwned(w: Workload) returns (items: seq<DeploymentTarget>)
      requires NamedByKey(store)
      ensures Snapshot(items, store, w)
    {
      items := [];
      var pending := set n | n in store && Owned(w, store[n]);
      while pending != {}
        invariant forall n :: n in pending ==> n in store && Owned(w, store[n])
        invariant forall i :: 0 <= i < |items| ==>
                    items[i].name in store && store[items[i].name] == items[i] && Owned(w, items[i])
        invariant forall n :: n in store && Owned(w, store[n]) ==> n in pending || store[n] in items
      {
        var n :| n in pending;
        items := items + [store[n]];
        pending := pending - {n};
      }
    }

    /** The inner search of the delete loop. */
    method IsMatched(w: Workload, t: DeploymentTarget) returns (found: bool)
      ensures found <==> Matched(w, t)
    {
      found := false;
      for i := 0 to |w.details|
        invariant !found
        invariant t.spec.environment == w.namespace ==> forall j :: 0 <= j < i ==>
                t.name != TargetName(w, w.details[j].name)
      {
        if t.name == TargetName(w, w.details[i].name) && t.spec.environment == w.namespace {
          found := true;
          break;
        }
      }
    }

    method DeleteStale(w: Workload, items: seq<DeploymentTarget>) returns (ok: bool)
      requires NamedByKey(store) && Snapshot(items, store, w)
      modifies api, `store
      ensures NamedByKey(store)
      ensures DuringDeletes(old(store), store, w)
      ensures ok ==> store == Kept(old(store), w)
      ensures old(api.FailureFree()) ==> ok && api.FailureFree()
    {
      hide Owned, Matched;
      ghost var before := store;
      ok := true;
      for i := 0 to |items|
        invariant NamedByKey(store) && (old(api.FailureFree()) ==> api.FailureFree())
        invariant DuringDeletes(before, store, w)
        invariant forall j :: 0 <= j < i && Stale(w, items[j]) ==> items[j].name !in store
      {
        var found := IsMatched(w, items[i]);
        if !found {
          ok := api.Call();
          if !ok {
            return;
          }
          store := store - {items[i].name};
        }
      }
      forall n | n in before && Stale(w, before[n])
        ensures n !in store
      {
        var j :| 0 <= j < |items| && items[j] == before[n];
      }
    }

    /** The inner search of the write loop, in the snapshot taken before the deletes. */
    method FindByName(items: seq<DeploymentTarget>, name: string) returns (found: Option<DeploymentTarget>)
      ensures found.None? ==> forall i :: 0 <= i < |items| ==> items[i].name != name
      ensures found.Some? ==> found.value in items && found.value.name == name
    {
      found := None;
      for i := 0 to |items|
        invariant found.None? && forall j :: 0 <= j < i ==> items[j].name != name
      {
        if items[i].name == name {
          found := Some(items[i]);
          break;
        }
      }
    }

    /** None if the owner's workload registration cannot be read. */
    method GetWorkspaceLabel(w: Workload, registrations: Labels) returns (workspace: Option<string>, panicked: bool)
      modifies api
      ensures panicked <==> !FluxNameHasDash(w)
      ensures workspace.Some? ==> workspace == WorkspaceOf(w, registrations)
      ensures old(api.FailureFree()) ==> workspace == WorkspaceOf(w, registrations) && api.FailureFree()
    {
      var owner := Lookup(w.labels, FLUX_OWNER_LABEL);
      workspace, panicked := Some(""), false;
      if owner != "" {
        if '-' !in owner {
          return None, true;
        }
        var name := AfterFirstDash(owner);
        var ok := api.Call();
        workspace := if ok && name in registrations then Some(registrations[name]) else None;
      }
    }

    /** The target of a detail: its spec with the workload's schemas appended, and the labels of both. */
    method Compose(w: Workload, d: Detail, workspace: string) returns (t: DeploymentTarget)
      ensures t == Desired(w, d, workspace)
    {
      var spec := d.spec;
      for i := 0 to |w.schemas|
        invariant spec == d.spec.(schemas := d.spec.schemas + w.schemas[..i])
      {
        assert w.schemas[..i + 1] == w.schemas[..i] + [w.schemas[i]];
        spec := spec.(schemas := spec.schemas + [w.schemas[i]]);
      }
      assert w.schemas[..|w.schemas|] == w.schemas;
      var labels := CopyLabels(map[], d.labels);
      assert labels == d.labels;
      labels := CopyLabels(labels, w.labels);
      labels := labels[WORKLOAD_LABEL := w.name];
      labels := labels[WORKSPACE_LABEL := workspace];
      t := DeploymentTarget(TargetName(w, d.name), labels, spec);
    }

    /** Copies all labels, in an arbitrary order, over those already there. */
    method CopyLabels(into: Labels, from: Labels) returns (labels: Labels)
      ensures labels == into + from
    {
      labels := into;
      var pending := from.Keys;
      while pending != {}
        invariant pending <= from.Keys
        invariant labels == into + (from - pending)
      {
        var key :| key in pending;
        labels := labels[key := from[key]];
        pending := pending - {key};
      }
      assert from - {} == from;
    }

    method WriteDetails(ghost before: Store, w: Workload, items: seq<DeploymentTarget>, registrations: Labels)
      returns (attempt: Attempt)
      requires Snapshot(items, before, w) && NamedByKey(before) && store == Kept(before, w) && NamedByKey(store)
      modifies api, `store
      ensures NamedByKey(store)
      ensures Interrupted(before, store, w, registrations)
      ensures attempt.Finished? ==>
                store == Target(before, w, Workspace(w, registrations)) && Achievable(before, w, registrations)
      ensures old(api.FailureFree()) ==>
                api.FailureFree() && (attempt.Finished? <==> Achievable(before, w, registrations))
      ensures attempt.Panicked? || (old(api.FailureFree()) && HasLocal(w.details, w) && !FluxNameHasDash(w)) ==>
                attempt.Panicked? && store == old(store)
      ensures attempt.Panicked? ==> HasLocal(w.details, w) && !FluxNameHasDash(w)
      ensures old(api.FailureFree()) && !attempt.Finished? ==> exists i :: BlockedAt(before, store, w, registrations, i)
    {
      hide DuringWrites, DuringDeletes, Interrupted, Kept, Owned, Written, Writable, Achievable, Snapshot;
      hide WorkspaceOf, FluxNameHasDash, TargetName, Desired, BlockedAt;
      ghost var goal := Workspace(w, registrations);
      WritesStart(before, w, goal);
      NoDashNoWorkspace(w, registrations);
      for i := 0 to |w.details|
        invariant NamedByKey(store) && (old(api.FailureFree()) ==> api.FailureFree())
        invariant DuringWrites(before, store, w, goal, i)
        invariant forall j :: 0 <= j < i && Local(w, w.details[j]) ==> WorkspaceOf(w, registrations).Some?
        invariant (forall j :: 0 <= j < i ==> !Local(w, w.details[j])) ==> store == old(store)
      {
        WritesInterrupted(before, store, w, registrations, i);
        var d := w.details[i];
        if d.spec.environment == w.namespace {
          assert Local(w, d);
          var found := FindByName(items, TargetName(w, d.name));
          WritesStep(before, store, w, items, registrations, i, found);
          var workspace, panicked := GetWorkspaceLabel(w, registrations);
          if panicked {
            return Panicked;
          }
          if workspace.None? {
            return Refused;
          }
          var ok := api.Call();
          var t := Compose(w, d, workspace.value);
          if !ok || (if found.Some? then t.name !in store || store[t.name] != found.value else t.name in store) {
            return Refused;
          }
          store := store[t.name := t];
        } else {
          SkipStep(before, store, w, goal, i);
        }
      }
      WritesEnd(before, store, w, registrations);
      attempt := Finished;
    }
  }

  lemma NoDashNoWorkspace(w: Workload, registrations: Labels)
    ensures !FluxNameHasDash(w) ==> WorkspaceOf(w, registrations).None?
  {
  }

  ghost predicate Snapshot(items: seq<DeploymentTarget>, store: Store, w: Workload) {
    (forall i :: 0 <= i < |items| ==> items[i].name in store && store[items[i].name] == items[i] && Owned(w, items[i]))
    && forall n :: n in store && Owned(w, store[n]) ==> store[n] in items
  }

  lemma InterruptedAtOnce(store: Store, w: Workload, registrations: Labels)
    ensures Interrupted(store, store, w, registrations)
  {
  }

  lemma DeletesInterrupted(before: Store, now: Store, w: Workload, registrations: Labels)
    requires DuringDeletes(before, now, w)
    ensures Interrupted(before, now, w, registrations)
  {
  }

  lemma WritesInterrupted(before: Store, now: Store, w: Workload, registrations: Labels, i: int)
    requires DuringWrites(before, now, w, Workspace(w, registrations), i)
    ensures Interrupted(before, now, w, registrations)
  {
  }

  lemma WritesStart(before: Store, w: Workload, workspace: string)
    ensures DuringWrites(before, Kept(before, w), w, workspace, 0)
  {
    assert Written(w, w.details[..0], workspace) == map[];
  }

  lemma SkipStep(before: Store, now: Store, w: Workload, workspace: string, i: nat)
    requires DuringWrites(before, now, w, workspace, i) && i < |w.details| && !Local(w, w.details[i])
    ensures DuringWrites(before, now, w, workspace, i + 1)
  {
    WrittenStep(w, i, workspace);
  }

  lemma WritesEnd(before: Store, now: Store, w: Workload, registrations: Labels)
    requires DuringWrites(before, now, w, Workspace(w, registrations), |w.details|)
    requires forall j :: 0 <= j < |w.details| && Local(w, w.details[j]) ==> WorkspaceOf(w, registrations).Some?
    ensures Achievable(before, w, registrations) && now == Target(before, w, Workspace(w, registrations))
    ensures Interrupted(before, now, w, registrations)
  {
    assert w.details[..|w.details|] == w.details;
  }

  /** One detail of this environment. A target found in the snapshot is updated if it is still there and unchanged,
      and a new one is created if the name is free; otherwise the call is refused, and the whole job cannot be done. */
  lemma WritesStep(before: Store, now: Store, w: Workload, items: seq<DeploymentTarget>, registrations: Labels, i: nat,
                   found: Option<DeploymentTarget>)
    requires Snapshot(items, before, w) && NamedByKey(before)
    requires DuringWrites(before, now, w, Workspace(w, registrations), i) && i < |w.details| && Local(w, w.details[i])
    requires var n := TargetName(w, w.details[i].name);
             if found.Some? then found.value in items && found.value.name == n
             else forall l :: 0 <= l < |items| ==> items[l].name != n
    ensures var t := Desired(w, w.details[i], Workspace(w, registrations));
            var accepted := if found.Some? then t.name in now && now[t.name] == found.value else t.name !in now;
            (accepted ==> DuringWrites(before, now[t.name := t], w, Workspace(w, registrations), i + 1))
            && (!accepted || WorkspaceOf(w, registrations).None? ==>
                  !Achievable(before, w, registrations) && BlockedAt(before, now, w, registrations, i))
  {
    var workspace, d := Workspace(w, registrations), w.details[i];
    var n, t := TargetName(w, d.name), Desired(w, d, workspace);
    FoundIffOwned(before, w, items, n, found);
    var accepted := if found.Some? then n in now && now[n] == found.value else n !in now;
    StepAccepted(before, now, w, workspace, i);
    hide Written, Owned, Snapshot, Desired, Stale, Kept, EarlierIdle, Writable;
    if accepted {
      WrittenStep(w, i, workspace);
      PutWritten(Kept(before, w), Written(w, w.details[..i], workspace), n, t);
    }
  }

  /** The call is accepted if and only if the target is writable and earlier namesakes changed nothing. */
  lemma StepAccepted(before: Store, now: Store, w: Workload, workspace: string, i: nat)
    requires NamedByKey(before) && DuringWrites(before, now, w, workspace, i) && i < |w.details|
            && Local(w, w.details[i])
    ensures var n := TargetName(w, w.details[i].name);
            (if n in before && Owned(w, before[n]) then n in now && now[n] == before[n] else n !in now)
            <==> Writable(before, w, w.details[i]) && EarlierIdle(before, w, workspace, i + 1)
  {
    var n := TargetName(w, w.details[i].name);
    hide Written, Desired, Owned, EarlierIdle;
    WritableIff(before, w, i);
    if n in Written(w, w.details[..i], workspace) {
      var l := WrittenBy(w, i, workspace, n);
      SameTargetName(w, w.details[l].name, w.details[i].name);
      NamesakeIdle(before, w, workspace, i, l);
      DesiredStays(w, l, workspace);
    } else {
      NoNamesake(before, w, workspace, i);
    }
  }

  /** With an earlier writer `l`, the latest one, the next namesake may follow exactly if that writer changed nothing.
      */
  lemma NamesakeIdle(before: Store, w: Workload, workspace: string, i: nat, l: nat)
    requires i < |w.details| && LastWriter(w, i, TargetName(w, w.details[i].name), l) && Namesakes(w, l, i)
    requires EarlierIdle(before, w, workspace, i)
    ensures var n := TargetName(w, w.details[i].name);
            EarlierIdle(before, w, workspace, i + 1) <==>
            n in before && before[n] == Desired(w, w.details[l], workspace)
  {
    var n := TargetName(w, w.details[i].name);
    hide Desired;
    if n in before && before[n] == Desired(w, w.details[l], workspace) {
      forall a, b | a < b < i + 1 && Namesakes(w, a, b)
        ensures var m := TargetName(w, w.details[a].name);
                m in before && before[m] == Desired(w, w.details[a], workspace)
      {
        if b == i && a != l {
          assert WritesTo(w, a, n);
          assert Namesakes(w, a, l);
        }
      }
    }
  }

  lemma NoNamesake(before: Store, w: Workload, workspace: string, i: nat)
    requires i < |w.details| && Local(w, w.details[i]) && EarlierIdle(before, w, workspace, i)
    requires TargetName(w, w.details[i].name) !in Written(w, w.details[..i], workspace)
    ensures EarlierIdle(before, w, workspace, i + 1)
  {
    var n := TargetName(w, w.details[i].name);
    hide Desired, Written;
    WrittenNames(w, i, workspace, n);
    forall a | 0 <= a < i
      ensures !Namesakes(w, a, i)
    {
      assert !WritesTo(w, a, n);
    }
  }

  lemma PutWritten(kept: Store, written: Store, n: string, t: DeploymentTarget)
    ensures (kept + written)[n := t] == kept + written[n := t]
  {
  }

  lemma WritableIff(before: Store, w: Workload, i: nat)
    requires NamedByKey(before) && i < |w.details|
    ensures var n := TargetName(w, w.details[i].name);
            Writable(before, w, w.details[i]) <==>
            ((n in before && Owned(w, before[n])) <==> (n in before && !Stale(w, before[n])))
  {
    var n := TargetName(w, w.details[i].name);
    if n in before {
      assert Matched(w, before[n]) <==> before[n].spec.environment == w.namespace;
    }
  }

  lemma FoundIffOwned(before: Store, w: Workload, items: seq<DeploymentTarget>, n: string,
                      found: Option<DeploymentTarget>)
    requires Snapshot(items, before, w) && NamedByKey(before)
    requires if found.Some? then found.value in items && found.value.name == n
             else forall l :: 0 <= l < |items| ==> items[l].name != n
    ensures found.Some? <==> n in before && Owned(w, before[n])
    ensures found.Some? ==> found.value == before[n]
  {
    if n in before && Owned(w, before[n]) {
      var l :| 0 <= l < |items| && items[l] == before[n];
    }
    if found.Some? {
      var l :| 0 <= l < |items| && items[l] == found.value;
    }
  }
}
