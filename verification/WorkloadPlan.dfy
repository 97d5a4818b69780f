/** What a workload reconcile should leave in the store of deployment targets, as a function of the store it found. */
module WorkloadPlan {
  import opened Api
  import opened Basics

  /** One deployment target as the workload describes it. */
  datatype Detail = Detail(name: string, labels: Labels, spec: TargetSpec)

  datatype Workload = Workload(name: string, namespace: string, labels: Labels, details: seq<Detail>,
                               schemas: seq<string>)

  type Store = map<string, DeploymentTarget>

  predicate NamedByKey(store: Store) {
    forall n :: n in store ==> store[n].name == n
  }

  function TargetName(w: Workload, detail: string): string {
    w.name + "-" + detail
  }

  predicate Local(w: Workload, d: Detail) {
    d.spec.environment == w.namespace
  }

  /** Two details of this environment stand for the same target. */
  predicate Namesakes(w: Workload, i: int, j: int) {
    0 <= i < |w.details| && 0 <= j < |w.details|
    && Local(w, w.details[i]) && Local(w, w.details[j]) && w.details[i].name == w.details[j].name
  }

  ghost predicate UniqueDetails(w: Workload) {
    forall i, j :: Namesakes(w, i, j) ==> i == j
  }

  // ----- The workspace label -----

  function AfterFirstDash(s: string): string {
    if s == [] then [] else if s[0] == '-' then s[1..] else AfterFirstDash(s[1..])
  }

  /** The operator indexes past the first dash of a Flux owner name and panics if there is none. */
  predicate FluxNameHasDash(w: Workload) {
    var owner := Lookup(w.labels, FLUX_OWNER_LABEL);
    owner == "" || '-' in owner
  }

  /** None if the owner's name has no dash or names no workload registration; `registrations` gives their workspaces. */
  function WorkspaceOf(w: Workload, registrations: Labels): Option<string> {
    var owner := Lookup(w.labels, FLUX_OWNER_LABEL);
    if owner == "" then Some("")
    else if '-' in owner && AfterFirstDash(owner) in registrations then Some(registrations[AfterFirstDash(owner)])
    else None
  }

  // ----- The wanted targets -----

  function TargetLabels(w: Workload, d: Detail, workspace: string): Labels {
    (d.labels + w.labels)[WORKLOAD_LABEL := w.name][WORKSPACE_LABEL := workspace]
  }

  function Desired(w: Workload, d: Detail, workspace: string): DeploymentTarget {
    DeploymentTarget(TargetName(w, d.name), TargetLabels(w, d, workspace),
      d.spec.(schemas := d.spec.schemas + w.schemas))
  }

  /** The targets for the details of this environment, by name. */
  function Written(w: Workload, details: seq<Detail>, workspace: string): Store {
    if details == [] then map[]
    else
      var n := |details| - 1;
      var d := details[n];
      var rest := Written(w, details[..n], workspace);
      if Local(w, d) then rest[TargetName(w, d.name) := Desired(w, d, workspace)] else rest
  }

  /** The label by which the workload finds its targets again. */
  predicate Owned(w: Workload, t: DeploymentTarget) {
    WORKLOAD_LABEL in t.labels && t.labels[WORKLOAD_LABEL] == w.name
  }

  /** The test of the delete loop: the environment is the stored one, not the detail's. */
  predicate Matched(w: Workload, t: DeploymentTarget) {
    t.spec.environment == w.namespace
    && exists i :: 0 <= i < |w.details| && t.name == TargetName(w, w.details[i].name)
  }

  predicate Stale(w: Workload, t: DeploymentTarget) {
    Owned(w, t) && !Matched(w, t)
  }

  function Kept(store: Store, w: Workload): Store {
    map n | n in store && !Stale(w, store[n]) :: store[n]
  }

  function Target(store: Store, w: Workload, workspace: string): Store {
    Kept(store, w) + Written(w, w.details, workspace)
  }

  predicate HasLocal(details: seq<Detail>, w: Workload) {
    exists i :: 0 <= i < |details| && Local(w, details[i])
  }

  /** The name is free, or held by a target of this workload that the delete loop leaves in place. */
  predicate Writable(store: Store, w: Workload, d: Detail) {
    var n := TargetName(w, d.name);
    n in store ==> Owned(w, store[n]) && store[n].spec.environment == w.namespace
  }

  /** A later detail of the same name is refused, as its copy of the target is outdated, unless the earlier one changed
      nothing. */
  ghost predicate EarlierIdle(store: Store, w: Workload, workspace: string, k: int) {
    forall i, j :: i < j < k && Namesakes(w, i, j) ==>
                     var n := TargetName(w, w.details[i].name);
                     n in store && store[n] == Desired(w, w.details[i], workspace)
  }

  ghost predicate Achievable(store: Store, w: Workload, registrations: Labels) {
    (HasLocal(w.details, w) ==> WorkspaceOf(w, registrations).Some?)
    && (forall i :: 0 <= i < |w.details| && Local(w, w.details[i]) ==> Writable(store, w, w.details[i]))
    && EarlierIdle(store, w, Workspace(w, registrations), |w.details|)
  }

  /** Details of the same name describe the same target. */
  ghost predicate NamesakesAgree(w: Workload, workspace: string) {
    forall i, j :: Namesakes(w, i, j) ==> Desired(w, w.details[i], workspace) == Desired(w, w.details[j], workspace)
  }

  ghost predicate DuringDeletes(store: Store, now: Store, w: Workload) {
    (forall n :: n in now ==> n in store && now[n] == store[n])
    && forall n :: n in store && n !in now ==> Stale(w, store[n])
  }

  /** All deletes done, and the first `i` details written, where none of them was refused. */
  ghost predicate DuringWrites(store: Store, now: Store, w: Workload, workspace: string, i: int) {
    0 <= i <= |w.details|
    && (forall j :: 0 <= j < i && Local(w, w.details[j]) ==> Writable(store, w, w.details[j]))
    && EarlierIdle(store, w, workspace, i)
    && now == Kept(store, w) + Written(w, w.details[..i], workspace)
  }

  /** The writes have come to detail `i` of this environment, which cannot be written. */
  ghost predicate BlockedAt(store: Store, now: Store, w: Workload, registrations: Labels, i: int) {
    var workspace := Workspace(w, registrations);
    DuringWrites(store, now, w, workspace, i) && i < |w.details| && Local(w, w.details[i])
    && (WorkspaceOf(w, registrations).None? || !Writable(store, w, w.details[i])
      || !EarlierIdle(store, w, workspace, i + 1))
  }

  /** A store that a reconcile may leave when it stops. */
  ghost predicate Interrupted(store: Store, now: Store, w: Workload, registrations: Labels) {
    DuringDeletes(store, now, w)
    || exists i :: DuringWrites(store, now, w, Workspace(w, registrations), i)
  }

  /** The workspace that is written, if any target is. */
  function Workspace(w: Workload, registrations: Labels): string {
    if WorkspaceOf(w, registrations).Some? then WorkspaceOf(w, registrations).value else ""
  }

  // ----- Small facts -----

  /** A wanted target is found again by the next reconcile and survives its delete loop. */
  lemma DesiredStays(w: Workload, i: nat, workspace: string)
    requires i < |w.details| && Local(w, w.details[i])
    ensures var t := Desired(w, w.details[i], workspace); Owned(w, t) && Matched(w, t) && t.Workload() == w.name
  {
    assert WORKLOAD_LABEL[4] != WORKSPACE_LABEL[4];
  }

  lemma SameTargetName(w: Workload, a: string, b: string)
    ensures TargetName(w, a) == TargetName(w, b) <==> a == b
  {
    assert TargetName(w, a)[|w.name| + 1..] == a;
    assert TargetName(w, b)[|w.name| + 1..] == b;
  }

  /** Targets of two workloads can be given the same name if and only if one workload's name, with its dash, begins the
      other's. */
  lemma TargetNamesMeetIff(a: Workload, b: Workload)
    ensures (exists x, y :: TargetName(a, x) == TargetName(b, y)) <==>
            a.name + "-" <= b.name + "-" || b.name + "-" <= a.name + "-"
  {
    var p, q := a.name + "-", b.name + "-";
    if x, y :| TargetName(a, x) == TargetName(b, y) {
      assert p + x == q + y;
      PrefixesOfOne(p, x, q, y);
    }
    if p <= q {
      assert p + q[|p|..] == q + "";
      assert TargetName(a, q[|p|..]) == TargetName(b, "");
    }
    if q <= p {
      assert q + p[|q|..] == p + "";
      assert TargetName(a, "") == TargetName(b, p[|q|..]);
    }
  }

  lemma PrefixesOfOne(p: string, x: string, q: string, y: string)
    requires p + x == q + y
    ensures p <= q || q <= p
  {
    assert |p| <= |q| ==> p == (p + x)[..|p|] == q[..|p|];
    assert |q| <= |p| ==> q == (q + y)[..|q|] == p[..|q|];
  }

  /** Detail `i` writes target `n`. */
  predicate WritesTo(w: Workload, i: int, n: string) {
    0 <= i < |w.details| && Local(w, w.details[i]) && TargetName(w, w.details[i].name) == n
  }

  /** Detail `i` is the last of the first `k` to write target `n`. */
  ghost predicate LastWriter(w: Workload, k: int, n: string, i: int) {
    0 <= i < k <= |w.details| && WritesTo(w, i, n) && forall j :: i < j < k ==> !WritesTo(w, j, n)
  }

  lemma {:induction false} WrittenNames(w: Workload, k: nat, workspace: string, n: string)
    requires k <= |w.details|
    ensures n in Written(w, w.details[..k], workspace) <==> exists i :: 0 <= i < k && WritesTo(w, i, n)
  {
    if k == 0 {
    } else {
      WrittenNames(w, k - 1, workspace, n);
      WrittenStep(w, k - 1, workspace);
      assert WritesTo(w, k - 1, n) <==> Local(w, w.details[k - 1]) && TargetName(w, w.details[k - 1].name) == n;
      hide Written, Desired;
    }
  }

  /** Every target is as its last writer wants it. */
  lemma {:induction false} WrittenExact(w: Workload, k: nat, workspace: string, n: string, i: nat)
    requires k <= |w.details| && LastWriter(w, k, n, i)
    ensures n in Written(w, w.details[..k], workspace)
    ensures Written(w, w.details[..k], workspace)[n] == Desired(w, w.details[i], workspace)
  {
    hide Written, Desired;
    WrittenStep(w, k - 1, workspace);
    assert WritesTo(w, k - 1, n) <==> i == k - 1;
    if i == k - 1 {
    } else {
      hide TargetName;
      WrittenExact(w, k - 1, workspace, n, i);
    }
  }

  lemma {:induction false} LastWriterExists(w: Workload, k: nat, n: string) returns (i: nat)
    requires k <= |w.details| && exists j :: 0 <= j < k && WritesTo(w, j, n)
    ensures LastWriter(w, k, n, i)
  {
    hide WritesTo;
    if WritesTo(w, k - 1, n) {
      i := k - 1;
    } else {
      i := LastWriterExists(w, k - 1, n);
    }
  }

  lemma WrittenStep(w: Workload, i: nat, workspace: string)
    requires i < |w.details|
    ensures var d := w.details[i];
            Written(w, w.details[..i + 1], workspace) ==
            if Local(w, d) then Written(w, w.details[..i], workspace)[TargetName(w, d.name) := Desired(w, d, workspace)]
            else Written(w, w.details[..i], workspace)
  {
    hide Desired, TargetName;
    assert w.details[..i + 1][..i] == w.details[..i];
  }

  /** A written target is the one that some detail describes. */
  lemma WrittenBy(w: Workload, k: nat, workspace: string, n: string) returns (i: nat)
    requires k <= |w.details| && n in Written(w, w.details[..k], workspace)
    ensures LastWriter(w, k, n, i) && Written(w, w.details[..k], workspace)[n] == Desired(w, w.details[i], workspace)
  {
    WrittenNames(w, k, workspace, n);
    i := LastWriterExists(w, k, n);
    WrittenExact(w, k, workspace, n, i);
  }

  lemma WrittenStays(w: Workload, k: nat, workspace: string, n: string)
    requires k <= |w.details| && n in Written(w, w.details[..k], workspace)
    ensures var t := Written(w, w.details[..k], workspace)[n];
            t.name == n && Owned(w, t) && Matched(w, t)
  {
    var i := WrittenBy(w, k, workspace, n);
    DesiredStays(w, i, workspace);
  }

  // ----- The finished store -----

  /** Each detail of this environment, unless a later one of the same name follows, has exactly its target: the detail's
      spec, the detail's schemas followed by the workload's (once, however often it is reconciled),
        and the label that keeps
      it discoverable. */
  lemma EveryDetailHasItsTarget(store: Store, w: Workload, workspace: string, i: nat)
    requires i < |w.details| && Local(w, w.details[i]) && !(exists j :: i < j && Namesakes(w, i, j))
    ensures var d, final := w.details[i], Target(store, w, workspace);
            var n := w.name + "-" + d.name;
            n in final && final[n].name == n && Owned(w, final[n])
            && final[n].labels == Desired(w, d, workspace).labels
            && final[n].spec == TargetSpec(d.spec.environment, d.spec.manifests, d.spec.schemas + w.schemas)
  {
    var n := TargetName(w, w.details[i].name);
    assert w.details[..|w.details|] == w.details;
    forall j | i < j < |w.details|
      ensures !WritesTo(w, j, n)
    {
      SameTargetName(w, w.details[i].name, w.details[j].name);
      assert !Namesakes(w, i, j);
    }
    WrittenExact(w, |w.details|, workspace, n, i);
    DesiredStays(w, i, workspace);
  }

  /** Its labels are the detail's, overridden by the workload's, overridden by the two that the operator sets. */
  lemma LabelsComposed(w: Workload, d: Detail, workspace: string, key: string)
    ensures var labels := Desired(w, d, workspace).labels;
            labels.Keys == d.labels.Keys + w.labels.Keys + {"workload", "workspace"}
            && (key in labels ==> labels[key] == if key == "workspace" then workspace
                                                 else if key == "workload" then w.name
                                                 else if key in w.labels then w.labels[key]
                                                 else d.labels[key])
  {
    assert WORKLOAD_LABEL[4] != WORKSPACE_LABEL[4];
  }

  /** A labelled target that is left belongs to a detail of this environment, or it is a leftover: a detail has its
      name, but that detail now names another environment. */
  lemma LabelledTargetsExact(store: Store, w: Workload, workspace: string, n: string)
    requires NamedByKey(store)
    ensures var final := Target(store, w, workspace);
            n in final && Owned(w, final[n]) <==>
            (exists i :: WritesTo(w, i, n))
            || (n in store && Owned(w, store[n]) && store[n].spec.environment == w.namespace
                && exists i :: 0 <= i < |w.details| && TargetName(w, w.details[i].name) == n)
  {
    var final := Target(store, w, workspace);
    assert w.details[..|w.details|] == w.details;
    WrittenNames(w, |w.details|, workspace, n);
    if n in Written(w, w.details, workspace) {
      WrittenStays(w, |w.details|, workspace, n);
    }
  }

  /** A detail that moved to another environment keeps its old target here. */
  lemma MovedDetailLeavesTarget()
    ensures exists store: Store, w: Workload, n ::
              NamedByKey(store) && UniqueDetails(w) && n in Target(store, w, "") && Owned(w, Target(store, w, "")[n])
              && !HasLocal(w.details, w)
  {
    var stored := DeploymentTarget("shop-eu", map[WORKLOAD_LABEL := "shop"], TargetSpec("dev", map[], []));
    var store: Store := map["shop-eu" := stored];
    var w := Workload("shop", "dev", map[], [Detail("eu", map[], TargetSpec("stage", map[], []))], []);
    assert TargetName(w, w.details[0].name) == "shop-eu";
    assert "stage"[0] != "dev"[0];
    assert !HasLocal(w.details, w);
    assert Matched(w, stored);
    assert Written(w, w.details[..0], "") == map[];
    assert "shop-eu" in Target(store, w, "");
  }

  lemma {:induction false} AfterFirstDashExact(p: string, r: string)
    requires '-' !in p
    ensures AfterFirstDash(p + "-" + r) == r
  {
    if p == [] {
      assert "" + "-" + r == "-" + r && ("-" + r)[1..] == r;
    } else {
      AfterFirstDashExact(p[1..], r);
      assert (p + "-" + r)[0] == p[0] && (p + "-" + r)[1..] == p[1..] + "-" + r;
    }
  }

  /** A Flux owner `p-r` names the registration `r`, whatever dashes that has; its workspace becomes the label of every
      target. A workload without an owner gets the empty workspace, and there is none if the owner has no dash or the
      registration is unknown. */
  lemma WorkspaceOfOwner(w: Workload, p: string, r: string, registrations: Labels)
    requires "kustomize.toolkit.fluxcd.io/name" in w.labels
    requires w.labels["kustomize.toolkit.fluxcd.io/name"] == p + "-" + r && '-' !in p
    ensures WorkspaceOf(w, registrations) == if r in registrations then Some(registrations[r]) else None
    ensures r in registrations ==> forall d ::
              Desired(w, d, Workspace(w, registrations)).Workspace() == registrations[r]
  {
    AfterFirstDashExact(p, r);
    assert '-' in "-" && "-" <= "-" + r;
    assert (p + "-" + r)[|p|] == '-';
    forall d | r in registrations
      ensures Desired(w, d, Workspace(w, registrations)).Workspace() == registrations[r]
    {
      LabelsComposed(w, d, registrations[r], WORKSPACE_LABEL);
    }
  }

  lemma WorkspaceWithoutOwner(w: Workload, registrations: Labels)
    ensures var ownerLabel := "kustomize.toolkit.fluxcd.io/name";
            (ownerLabel !in w.labels || w.labels[ownerLabel] == "" ==> WorkspaceOf(w, registrations) == Some(""))
            && (ownerLabel in w.labels && w.labels[ownerLabel] != "" && '-' !in w.labels[ownerLabel] ==>
                  WorkspaceOf(w, registrations) == None)
  {
  }

  // ----- Recovery, idempotence, framing -----

  lemma NoneStaleDuringWrites(store: Store, now: Store, w: Workload, workspace: string, i: int)
    requires DuringWrites(store, now, w, workspace, i)
    ensures Kept(now, w) == now
  {
    hide Owned, Matched, Written;
    forall n | n in now
      ensures !Stale(w, now[n])
    {
      if n in Written(w, w.details[..i], workspace) {
        WrittenStays(w, i, workspace, n);
      } else {
        assert n in Kept(store, w);
      }
    }
  }

  /** Wherever a reconcile stopped, the next failure-free one can finish the job and arrives at the same store. */
  lemma Recovery(store: Store, now: Store, w: Workload, registrations: Labels)
    requires NamesakesAgree(w, Workspace(w, registrations)) && NamedByKey(store)
    requires Achievable(store, w, registrations) && Interrupted(store, now, w, registrations)
    ensures Achievable(now, w, registrations)
    ensures Target(now, w, Workspace(w, registrations)) == Target(store, w, Workspace(w, registrations))
  {
    hide Written, Achievable;
    var workspace := Workspace(w, registrations);
    if DuringDeletes(store, now, w) {
      WritableDuringDeletes(store, now, w, registrations);
      assert Kept(now, w) == Kept(store, w);
    } else {
      var i :| DuringWrites(store, now, w, workspace, i);
      RecoveryFromWrites(store, now, w, registrations, i);
    }
  }

  lemma RecoveryFromWrites(store: Store, now: Store, w: Workload, registrations: Labels, i: int)
    requires NamesakesAgree(w, Workspace(w, registrations)) && NamedByKey(store) && Achievable(store, w, registrations)
    requires DuringWrites(store, now, w, Workspace(w, registrations), i)
    ensures Achievable(now, w, registrations)
    ensures Target(now, w, Workspace(w, registrations)) == Target(store, w, Workspace(w, registrations))
  {
    hide Written, Achievable, NamesakesAgree, EarlierIdle;
    var workspace := Workspace(w, registrations);
    NoneStaleDuringWrites(store, now, w, workspace, i);
    AchievableDuringWrites(store, now, w, registrations, i);
    WrittenMonotone(w, i, workspace);
    PlusAssociates(Kept(store, w), Written(w, w.details[..i], workspace), Written(w, w.details, workspace));
  }

  lemma WritableDuringDeletes(store: Store, now: Store, w: Workload, registrations: Labels)
    requires NamedByKey(store) && Achievable(store, w, registrations) && DuringDeletes(store, now, w)
    ensures Achievable(now, w, registrations)
  {
    var workspace := Workspace(w, registrations);
    hide Desired;
    forall i, j | i < j < |w.details| && Namesakes(w, i, j)
      ensures var n := TargetName(w, w.details[i].name); n in now && now[n] == Desired(w, w.details[i], workspace)
    {
      DesiredStays(w, i, workspace);
    }
  }

  lemma AchievableDuringWrites(store: Store, now: Store, w: Workload, registrations: Labels, i: int)
    requires NamesakesAgree(w, Workspace(w, registrations)) && NamedByKey(store) && Achievable(store, w, registrations)
    requires DuringWrites(store, now, w, Workspace(w, registrations), i)
    ensures Achievable(now, w, registrations)
  {
    var workspace := Workspace(w, registrations);
    hide Desired, Written;
    WritableDuringWrites(store, now, w, workspace, i);
    forall a, b | a < b < |w.details| && Namesakes(w, a, b)
      ensures var n := TargetName(w, w.details[a].name); n in now && now[n] == Desired(w, w.details[a], workspace)
    {
      var n := TargetName(w, w.details[a].name);
      DesiredStays(w, a, workspace);
      if n in Written(w, w.details[..i], workspace) {
        var c := WrittenBy(w, i, workspace, n);
        SameTargetName(w, w.details[a].name, w.details[c].name);
        assert Namesakes(w, a, c);
      }
    }
  }

  lemma WritableDuringWrites(store: Store, now: Store, w: Workload, workspace: string, i: int)
    requires NamedByKey(store) && DuringWrites(store, now, w, workspace, i)
    requires forall j :: 0 <= j < |w.details| && Local(w, w.details[j]) ==> Writable(store, w, w.details[j])
    ensures forall j :: 0 <= j < |w.details| && Local(w, w.details[j]) ==> Writable(now, w, w.details[j])
  {
    hide Desired, Written, EarlierIdle;
    forall j | 0 <= j < |w.details| && Local(w, w.details[j])
      ensures Writable(now, w, w.details[j])
    {
      var n := TargetName(w, w.details[j].name);
      if n in Written(w, w.details[..i], workspace) {
        WrittenStays(w, i, workspace, n);
      } else if n in now {
        assert now[n] == store[n] && Writable(store, w, w.details[j]);
      }
    }
  }

  /** What is written later overrides what was written before the interruption. */
  lemma WrittenMonotone(w: Workload, i: nat, workspace: string)
    requires i <= |w.details|
    ensures Written(w, w.details[..i], workspace) + Written(w, w.details, workspace) == Written(w, w.details, workspace)
  {
    hide Desired, Written;
    assert w.details[..|w.details|] == w.details;
    forall n | n in Written(w, w.details[..i], workspace)
      ensures n in Written(w, w.details, workspace)
    {
      WrittenNames(w, i, workspace, n);
      WrittenNames(w, |w.details|, workspace, n);
    }
  }

  /** A second reconcile finds nothing stale and writes what is there already. */
  lemma Idempotent(store: Store, w: Workload, registrations: Labels)
    requires NamesakesAgree(w, Workspace(w, registrations)) && NamedByKey(store) && Achievable(store, w, registrations)
    ensures var workspace := Workspace(w, registrations);
            var final := Target(store, w, workspace);
            Kept(final, w) == final && Target(final, w, workspace) == final && Achievable(final, w, registrations)
  {
    var workspace := Workspace(w, registrations);
    var final := Target(store, w, workspace);
    assert w.details[..|w.details|] == w.details;
    assert DuringWrites(store, final, w, workspace, |w.details|);
    NoneStaleDuringWrites(store, final, w, workspace, |w.details|);
    AchievableDuringWrites(store, final, w, registrations, |w.details|);
  }

  /** After a success, the next reconcile can succeed too if and only if details of the same name agree. */
  lemma SettlesIff(store: Store, w: Workload, registrations: Labels)
    requires NamedByKey(store) && Achievable(store, w, registrations)
    ensures Achievable(Target(store, w, Workspace(w, registrations)), w, registrations)
            <==> NamesakesAgree(w, Workspace(w, registrations))
  {
    var workspace := Workspace(w, registrations);
    var final := Target(store, w, workspace);
    hide Desired, Written;
    if NamesakesAgree(w, workspace) {
      Idempotent(store, w, registrations);
    }
    if Achievable(final, w, registrations) {
      forall i, j | Namesakes(w, i, j)
        ensures Desired(w, w.details[i], workspace) == Desired(w, w.details[j], workspace)
      {
        FinalIsWanted(store, w, registrations, i);
        FinalIsWanted(store, w, registrations, j);
      }
    }
  }

  lemma FinalIsWanted(store: Store, w: Workload, registrations: Labels, i: nat)
    requires i < |w.details| && Local(w, w.details[i])
    requires Achievable(Target(store, w, Workspace(w, registrations)), w, registrations)
    ensures var workspace, n := Workspace(w, registrations), TargetName(w, w.details[i].name);
            n in Target(store, w, workspace) && Target(store, w, workspace)[n] == Desired(w, w.details[i], workspace)
  {
    var workspace, n := Workspace(w, registrations), TargetName(w, w.details[i].name);
    hide Desired, Written;
    assert w.details[..|w.details|] == w.details;
    assert WritesTo(w, i, n);
    var l := LastWriterExists(w, |w.details|, n);
    WrittenExact(w, |w.details|, workspace, n, l);
    SameTargetName(w, w.details[i].name, w.details[l].name);
    assert Namesakes(w, i, l);
  }

  /** With distinct details, a reconcile can succeed if and only if the workspace is known and every target name is
      free or held by a target that carries this workload's label and this environment. */
  lemma AchievableIff(store: Store, w: Workload, registrations: Labels)
    requires UniqueDetails(w)
    ensures Achievable(store, w, registrations) <==>
            ((exists d :: d in w.details && d.spec.environment == w.namespace) ==> WorkspaceOf(w, registrations).Some?)
            && forall d :: d in w.details && d.spec.environment == w.namespace && w.name + "-" + d.name in store ==>
                             var t := store[w.name + "-" + d.name];
                             "workload" in t.labels && t.labels["workload"] == w.name
                             && t.spec.environment == w.namespace
  {
    hide Desired, WorkspaceOf;
    if HasLocal(w.details, w) {
      var i :| 0 <= i < |w.details| && Local(w, w.details[i]);
      assert w.details[i] in w.details;
    }
    assert Achievable(store, w, registrations) ==>
           forall d :: d in w.details && Local(w, d) ==> Writable(store, w, d);
  }

  /** A target that carries a detail's name under the wrong environment makes one reconcile fail, after it has been
      deleted. If no name is held by anyone else, the next reconcile can succeed, with the same result. */
  lemma SecondRunHeals(store: Store, now: Store, w: Workload, registrations: Labels, i: int)
    requires UniqueDetails(w) && NamedByKey(store)
    requires HasLocal(w.details, w) ==> WorkspaceOf(w, registrations).Some?
    requires forall j :: 0 <= j < |w.details| && Local(w, w.details[j]) && TargetName(w, w.details[j].name) in store ==>
               Owned(w, store[TargetName(w, w.details[j].name)])
    requires DuringWrites(store, now, w, Workspace(w, registrations), i)
    ensures Achievable(now, w, registrations)
    ensures Target(now, w, Workspace(w, registrations)) == Target(store, w, Workspace(w, registrations))
  {
    var workspace := Workspace(w, registrations);
    hide Written, Desired;
    forall j | 0 <= j < |w.details| && Local(w, w.details[j])
      ensures Writable(now, w, w.details[j])
    {
      var n := TargetName(w, w.details[j].name);
      if n in Written(w, w.details[..i], workspace) {
        WrittenStays(w, i, workspace, n);
      }
    }
    NoneStaleDuringWrites(store, now, w, workspace, i);
    WrittenMonotone(w, i, workspace);
    PlusAssociates(Kept(store, w), Written(w, w.details[..i], workspace), Written(w, w.details, workspace));
  }

  /** Wherever a reconcile stops, targets without this workload's label are as they were. */
  lemma OthersUntouched(store: Store, now: Store, w: Workload, registrations: Labels)
    requires NamedByKey(store) && Interrupted(store, now, w, registrations)
    ensures forall n :: n in store && !Owned(w, store[n]) ==> n in now && now[n] == store[n]
    ensures forall n :: n in now && !Owned(w, now[n]) ==> n in store && now[n] == store[n]
  {
    hide Written, Desired;
    if !DuringDeletes(store, now, w) {
      var workspace := Workspace(w, registrations);
      var i :| DuringWrites(store, now, w, workspace, i);
      forall n | n in Written(w, w.details[..i], workspace)
        ensures Owned(w, Written(w, w.details[..i], workspace)[n]) && (n in store ==> Owned(w, store[n]))
      {
        WrittenStays(w, i, workspace, n);
        var j := WrittenBy(w, i, workspace, n);
        assert Writable(store, w, w.details[j]);
      }
    }
  }
}
