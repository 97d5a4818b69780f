/** All workloads of a namespace working on the same store of deployment targets. */
module WorkloadRounds {
  import opened Api
  import opened WorkloadPlan

  /** The workloads, and the workspaces of the workload registrations. */
  datatype Namespace = Namespace(name: string, workloads: seq<Workload>, registrations: Labels)
  {
    /** Names are unique, and every workload lives here. */
    predicate Valid() {
      (forall i :: 0 <= i < |workloads| ==> workloads[i].namespace == name)
      && forall i, j :: 0 <= i < j < |workloads| ==> workloads[i].name != workloads[j].name
    }

    function WorkspaceAt(i: nat): string
      requires i < |workloads|
    {
      Workspace(workloads[i], registrations)
    }

    /** What workload `i` writes. */
    function Writes(i: nat): Store
      requires i < |workloads|
    {
      Written(workloads[i], workloads[i].details, WorkspaceAt(i))
    }
  }

  /** A reconcile of the workload succeeds and changes nothing. */
  ghost predicate Settled(ns: Namespace, i: nat, store: Store)
    requires i < |ns.workloads|
  {
    Achievable(store, ns.workloads[i], ns.registrations)
    && Target(store, ns.workloads[i], ns.WorkspaceAt(i)) == store
  }

  ghost predicate AllSettled(ns: Namespace, store: Store) {
    NamedByKey(store) && forall i :: 0 <= i < |ns.workloads| ==> Settled(ns, i, store)
  }

  /** Two workloads have details of this environment for one target name. */
  ghost predicate Meet(ns: Namespace, i: int, j: int) {
    0 <= i < |ns.workloads| && 0 <= j < |ns.workloads|
    && exists n, k, l :: WritesTo(ns.workloads[i], k, n) && WritesTo(ns.workloads[j], l, n)
  }

  /** Workspaces are known, details of one name agree, and no two workloads meet. */
  ghost predicate Sound(ns: Namespace) {
    (forall i :: 0 <= i < |ns.workloads| ==>
                   (HasLocal(ns.workloads[i].details, ns.workloads[i]) ==>
                      WorkspaceOf(ns.workloads[i], ns.registrations).Some?)
                   && NamesakesAgree(ns.workloads[i], ns.WorkspaceAt(i)))
    && forall i, j :: Meet(ns, i, j) ==> i == j
  }

  // ----- Settled workloads -----

  /** A settled store holds what the workload writes. */
  lemma SettledHolds(ns: Namespace, i: nat, store: Store, n: string)
    requires i < |ns.workloads| && Settled(ns, i, store) && n in ns.Writes(i)
    ensures n in store && store[n] == ns.Writes(i)[n]
  {
    hide Written, Achievable, Kept;
  }

  lemma WrittenIsOwned(ns: Namespace, i: nat, n: string)
    requires i < |ns.workloads| && n in ns.Writes(i)
    ensures Owned(ns.workloads[i], ns.Writes(i)[n]) && Matched(ns.workloads[i], ns.Writes(i)[n])
    ensures ns.Writes(i)[n].name == n
  {
    var w := ns.workloads[i];
    assert w.details[..|w.details|] == w.details;
    hide Written;
    WrittenStays(w, |w.details|, ns.WorkspaceAt(i), n);
  }

  lemma WrittenIff(ns: Namespace, i: nat, n: string)
    requires i < |ns.workloads|
    ensures n in ns.Writes(i) <==> exists k :: WritesTo(ns.workloads[i], k, n)
  {
    var w := ns.workloads[i];
    assert w.details[..|w.details|] == w.details;
    WrittenNames(w, |w.details|, ns.WorkspaceAt(i), n);
    hide Written;
  }

  /** Two workloads with details for one target name are never both settled. */
  lemma MeetingNeverSettles(ns: Namespace, i: nat, j: nat, store: Store)
    requires ns.Valid() && Meet(ns, i, j) && i != j
    ensures !(Settled(ns, i, store) && Settled(ns, j, store))
  {
    if Settled(ns, i, store) && Settled(ns, j, store) {
      var n, k, l :| WritesTo(ns.workloads[i], k, n) && WritesTo(ns.workloads[j], l, n);
      WrittenIff(ns, i, n);
      WrittenIff(ns, j, n);
      hide Settled, WritesTo;
      SettledHolds(ns, i, store, n);
      SettledHolds(ns, j, store, n);
      WrittenIsOwned(ns, i, n);
      WrittenIsOwned(ns, j, n);
    }
  }

  lemma SettledIsSound(ns: Namespace, store: Store)
    requires ns.Valid() && AllSettled(ns, store)
    ensures Sound(ns)
  {
    forall i | 0 <= i < |ns.workloads|
      ensures HasLocal(ns.workloads[i].details, ns.workloads[i]) ==>
                WorkspaceOf(ns.workloads[i], ns.registrations).Some?
      ensures NamesakesAgree(ns.workloads[i], ns.WorkspaceAt(i))
    {
      assert Settled(ns, i, store);
      SettlesIff(store, ns.workloads[i], ns.registrations);
      hide NamesakesAgree, EarlierIdle, Target;
    }
    hide Settled, Meet;
    forall i, j | Meet(ns, i, j)
      ensures i == j
    {
      MeetBounds(ns, i, j);
      if i != j {
        assert Settled(ns, i, store) && Settled(ns, j, store);
        MeetingNeverSettles(ns, i, j, store);
      }
    }
  }

  lemma MeetBounds(ns: Namespace, i: int, j: int)
    requires Meet(ns, i, j)
    ensures 0 <= i < |ns.workloads| && 0 <= j < |ns.workloads|
  {
  }

  // ----- A settled store exists -----

  /** The targets of workload `i` are there as it writes them. */
  ghost predicate InPlace(ns: Namespace, i: int, store: Store) {
    0 <= i < |ns.workloads| && forall n :: n in ns.Writes(i) ==> n in store && store[n] == ns.Writes(i)[n]
  }

  /** One of the first `k` workloads writes a target of this name. */
  ghost predicate SomeWrite(ns: Namespace, k: int, n: string) {
    exists i :: 0 <= i < k && i < |ns.workloads| && n in ns.Writes(i)
  }

  /** The store that holds what the workloads write, and nothing else. */
  ghost predicate Holds(ns: Namespace, store: Store) {
    (forall i :: 0 <= i < |ns.workloads| ==> InPlace(ns, i, store))
    && forall n :: n in store ==> SomeWrite(ns, |ns.workloads|, n)
  }

  function Union(ns: Namespace, k: nat): Store
    requires k <= |ns.workloads|
  {
    if k == 0 then map[] else Union(ns, k - 1) + ns.Writes(k - 1)
  }

  lemma {:induction false} UnionHoldsAll(ns: Namespace, k: nat)
    requires Sound(ns) && k <= |ns.workloads|
    ensures forall i :: 0 <= i < k ==> InPlace(ns, i, Union(ns, k))
  {
    if k == 0 {
    } else {
      UnionHoldsAll(ns, k - 1);
      forall i | 0 <= i < k
        ensures InPlace(ns, i, Union(ns, k))
      {
        StaysInPlace(ns, i, k - 1, Union(ns, k - 1));
        hide Sound, InPlace, Namespace.Writes;
      }
    }
  }

  lemma StaysInPlace(ns: Namespace, i: nat, k: nat, store: Store)
    requires Sound(ns) && i <= k < |ns.workloads| && (i < k ==> InPlace(ns, i, store))
    ensures InPlace(ns, i, store + ns.Writes(k))
  {
    forall n | n in ns.Writes(i) && i < k
      ensures n !in ns.Writes(k)
    {
      if n in ns.Writes(k) {
        WrittenByTwo(ns, i, k, n);
      }
      hide Sound;
    }
    hide Sound, Namespace.Writes;
  }

  lemma {:induction false} UnionHoldsOnly(ns: Namespace, k: nat, n: string)
    requires k <= |ns.workloads| && n in Union(ns, k)
    ensures SomeWrite(ns, k, n)
  {
    hide Namespace.Writes;
    if k == 0 {
    } else if n in ns.Writes(k - 1) {
    } else {
      UnionHoldsOnly(ns, k - 1, n);
      var i :| 0 <= i < k - 1 && n in ns.Writes(i);
    }
  }

  lemma UnionHolds(ns: Namespace)
    requires Sound(ns)
    ensures Holds(ns, Union(ns, |ns.workloads|))
  {
    var all := |ns.workloads|;
    UnionHoldsAll(ns, all);
    hide Sound, InPlace, Union, SomeWrite;
    forall n | n in Union(ns, all)
      ensures SomeWrite(ns, all, n)
    {
      UnionHoldsOnly(ns, all, n);
    }
  }

  lemma WrittenByTwo(ns: Namespace, i: nat, j: nat, n: string)
    requires Sound(ns) && i < |ns.workloads| && j < |ns.workloads| && n in ns.Writes(i) && n in ns.Writes(j)
    ensures i == j
  {
    WrittenIff(ns, i, n);
    WrittenIff(ns, j, n);
    hide WritesTo, Written;
    assert Meet(ns, i, j);
  }

  /** A target of that store belongs to one of the workloads. */
  lemma HeldTarget(ns: Namespace, store: Store, n: string) returns (i: nat)
    requires Holds(ns, store) && n in store
    ensures i < |ns.workloads| && Owned(ns.workloads[i], store[n]) && Matched(ns.workloads[i], store[n])
    ensures store[n].name == n
  {
    assert SomeWrite(ns, |ns.workloads|, n);
    hide Owned, Matched, Namespace.Writes;
    i :| 0 <= i < |ns.workloads| && n in ns.Writes(i);
    assert InPlace(ns, i, store);
    WrittenIsOwned(ns, i, n);
  }

  lemma HoldsSettles(ns: Namespace, store: Store, i: nat)
    requires ns.Valid() && Sound(ns) && Holds(ns, store) && i < |ns.workloads|
    ensures Settled(ns, i, store)
  {
    var w, workspace := ns.workloads[i], ns.WorkspaceAt(i);
    hide Written, WorkspaceOf;
    NothingStale(ns, store, i);
    forall k | 0 <= k < |w.details| && Local(w, w.details[k])
      ensures var n := TargetName(w, w.details[k].name); n in store && store[n] == Desired(w, w.details[k], workspace)
    {
      HoldsDetail(ns, store, i, k);
    }
    hide Sound, Holds;
    forall k | 0 <= k < |w.details| && Local(w, w.details[k])
      ensures Writable(store, w, w.details[k])
    {
      DesiredStays(w, k, workspace);
    }
    assert EarlierIdle(store, w, workspace, |w.details|) by { hide Desired, TargetName; }
    assert Achievable(store, w, ns.registrations) by { SoundWorkspace(ns, i); }
    SameStore(ns, store, i);
  }

  lemma SoundWorkspace(ns: Namespace, i: nat)
    requires Sound(ns) && i < |ns.workloads|
    ensures HasLocal(ns.workloads[i].details, ns.workloads[i]) ==> WorkspaceOf(ns.workloads[i], ns.registrations).Some?
  {
  }

  lemma SameStore(ns: Namespace, store: Store, i: nat)
    requires i < |ns.workloads| && Holds(ns, store) && Kept(store, ns.workloads[i]) == store
    ensures Target(store, ns.workloads[i], ns.WorkspaceAt(i)) == store
  {
    assert InPlace(ns, i, store);
    hide Written, Kept, Holds;
    assert Target(store, ns.workloads[i], ns.WorkspaceAt(i)) == store + ns.Writes(i);
  }

  lemma NothingStale(ns: Namespace, store: Store, i: nat)
    requires ns.Valid() && Holds(ns, store) && i < |ns.workloads|
    ensures Kept(store, ns.workloads[i]) == store
  {
    forall n | n in store
      ensures !Stale(ns.workloads[i], store[n])
    {
      var j := HeldTarget(ns, store, n);
      OwnNotStale(ns, i, j, store[n]);
    }
  }

  lemma OwnNotStale(ns: Namespace, i: nat, j: nat, t: DeploymentTarget)
    requires ns.Valid() && i < |ns.workloads| && j < |ns.workloads|
    requires Owned(ns.workloads[j], t) && Matched(ns.workloads[j], t)
    ensures !Stale(ns.workloads[i], t)
  {
    hide Matched;
  }

  /** Each detail of this environment finds its target as it describes it. */
  lemma HoldsDetail(ns: Namespace, store: Store, i: nat, k: nat)
    requires Sound(ns) && Holds(ns, store) && i < |ns.workloads|
    requires k < |ns.workloads[i].details| && Local(ns.workloads[i], ns.workloads[i].details[k])
    ensures var w := ns.workloads[i];
            var n := TargetName(w, w.details[k].name);
            n in store && store[n] == Desired(w, w.details[k], ns.WorkspaceAt(i))
  {
    var w, workspace := ns.workloads[i], ns.WorkspaceAt(i);
    var n := TargetName(w, w.details[k].name);
    hide Written, Desired;
    assert w.details[..|w.details|] == w.details;
    assert WritesTo(w, k, n);
    var l := LastWriterExists(w, |w.details|, n);
    WrittenExact(w, |w.details|, workspace, n, l);
    SameTargetName(w, w.details[k].name, w.details[l].name);
    assert Namesakes(w, k, l);
    assert n in ns.Writes(i) && InPlace(ns, i, store);
  }

  /** The workloads of a namespace can settle if and only if their workspaces are known, details of one name agree,
      and no two workloads have details for one target name. */
  lemma SettlesTogetherIff(ns: Namespace)
    requires ns.Valid()
    ensures (exists store :: AllSettled(ns, store)) <==> Sound(ns)
  {
    if store :| AllSettled(ns, store) {
      SettledIsSound(ns, store);
    }
    if Sound(ns) {
      var store := Union(ns, |ns.workloads|);
      UnionHolds(ns);
      HoldsIsNamed(ns, store);
      forall i | 0 <= i < |ns.workloads|
        ensures Settled(ns, i, store)
      {
        HoldsSettles(ns, store, i);
      }
      hide Settled, Holds, Union;
      assert AllSettled(ns, store);
    }
  }

  lemma HoldsIsNamed(ns: Namespace, store: Store)
    requires Holds(ns, store)
    ensures NamedByKey(store)
  {
    forall n | n in store
      ensures store[n].name == n
    {
      var _ := HeldTarget(ns, store, n);
    }
  }

  // ----- What a settled store holds -----

  /** Every target is written by some workload: none is left over from a detail that has moved to another
      environment, or from a workload that is gone. */
  ghost predicate NoLeftovers(ns: Namespace, store: Store) {
    forall n :: n in store ==> SomeWrite(ns, |ns.workloads|, n)
  }

  /** Detail `k` of workload `i` is of this environment, and this is its target. */
  predicate TargetOf(ns: Namespace, i: int, k: int, t: DeploymentTarget) {
    0 <= i < |ns.workloads| && 0 <= k < |ns.workloads[i].details|
    && Local(ns.workloads[i], ns.workloads[i].details[k])
    && t == Desired(ns.workloads[i], ns.workloads[i].details[k], ns.WorkspaceAt(i))
  }

  lemma SettledHoldsAll(ns: Namespace, store: Store)
    requires AllSettled(ns, store) && NoLeftovers(ns, store)
    ensures Holds(ns, store)
  {
    hide Settled, Namespace.Writes;
    forall i | 0 <= i < |ns.workloads|
      ensures InPlace(ns, i, store)
    {
      forall n | n in ns.Writes(i)
        ensures n in store && store[n] == ns.Writes(i)[n]
      {
        SettledHolds(ns, i, store, n);
      }
    }
    hide InPlace;
  }

  /** A settled store without leftovers holds the targets of the details of this environment, composed of detail,
      workload and workspace, and nothing else. */
  lemma StoreExact(ns: Namespace, store: Store, t: DeploymentTarget)
    requires ns.Valid() && AllSettled(ns, store) && NoLeftovers(ns, store)
    ensures t.name in store && store[t.name] == t <==> exists i, k :: TargetOf(ns, i, k, t)
  {
    SettledIsSound(ns, store);
    SettledHoldsAll(ns, store);
    hide AllSettled, Sound, Holds, Desired, Written;
    if t.name in store && store[t.name] == t {
      assert SomeWrite(ns, |ns.workloads|, t.name);
      var i :| 0 <= i < |ns.workloads| && t.name in ns.Writes(i);
      WrittenIff(ns, i, t.name);
      var k :| WritesTo(ns.workloads[i], k, t.name);
      HoldsDetail(ns, store, i, k);
      assert TargetOf(ns, i, k, t);
    }
    if i, k :| TargetOf(ns, i, k, t) {
      HoldsDetail(ns, store, i, k);
      TargetOfName(ns, i, k, t);
    }
  }

  lemma TargetOfName(ns: Namespace, i: int, k: int, t: DeploymentTarget)
    requires TargetOf(ns, i, k, t)
    ensures t.name == TargetName(ns.workloads[i], ns.workloads[i].details[k].name)
  {
  }

  // ----- Two rounds suffice -----

  predicate DetailOf(w: Workload, k: int, n: string) {
    0 <= k < |w.details| && TargetName(w, w.details[k].name) == n
  }

  /** Details have distinct names, also across workloads and environments, and workspaces are known. */
  ghost predicate NamesApart(ns: Namespace) {
    ns.Valid()
    && (forall i, j, n :: Describes(ns, i, n) && Describes(ns, j, n) ==> i == j)
    && forall i :: 0 <= i < |ns.workloads| ==>
                     UniqueDetails(ns.workloads[i])
                     && (HasLocal(ns.workloads[i].details, ns.workloads[i]) ==>
                           WorkspaceOf(ns.workloads[i], ns.registrations).Some?)
  }

  /** Workload `i` has a detail, of whatever environment, for this target name. */
  ghost predicate Describes(ns: Namespace, i: int, n: string) {
    0 <= i < |ns.workloads| && exists k :: DetailOf(ns.workloads[i], k, n)
  }

  /** Every target belongs to a workload, and what belongs to the first `k` is not stale. */
  ghost predicate CleanUpTo(ns: Namespace, k: int, store: Store) {
    NamedByKey(store)
    && forall n :: n in store ==> HasOwner(ns, k, store[n])
  }

  ghost predicate HasOwner(ns: Namespace, k: int, t: DeploymentTarget) {
    exists i :: BelongsTo(ns, i, k, t)
  }

  ghost predicate BelongsTo(ns: Namespace, i: int, k: int, t: DeploymentTarget) {
    0 <= i < |ns.workloads| && Owned(ns.workloads[i], t) && (i < k ==> Matched(ns.workloads[i], t))
  }

  /** A reconcile that got past its deletes leaves nothing of its own workload stale. */
  lemma CleansNext(ns: Namespace, j: nat, store: Store, now: Store, c: int)
    requires j < |ns.workloads| && CleanUpTo(ns, j, store)
    requires DuringWrites(store, now, ns.workloads[j], ns.WorkspaceAt(j), c)
    ensures CleanUpTo(ns, j + 1, now)
  {
    var w, workspace := ns.workloads[j], ns.WorkspaceAt(j);
    hide Written, Owned, Matched, EarlierIdle, Writable;
    forall n | n in now
      ensures now[n].name == n && HasOwner(ns, j + 1, now[n])
    {
      if n in Written(w, w.details[..c], workspace) {
        WrittenStays(w, c, workspace, n);
        assert BelongsTo(ns, j, j + 1, now[n]);
      } else {
        assert n in Kept(store, w) && now[n] == store[n];
        var i :| BelongsTo(ns, i, j, store[n]);
        assert BelongsTo(ns, i, j + 1, now[n]);
      }
    }
  }

  /** A workload that finds nothing stale anywhere leaves it so. */
  lemma StaysClean(ns: Namespace, j: nat, store: Store, now: Store, c: int)
    requires j < |ns.workloads| && CleanUpTo(ns, |ns.workloads|, store)
    requires DuringWrites(store, now, ns.workloads[j], ns.WorkspaceAt(j), c)
    ensures CleanUpTo(ns, |ns.workloads|, now)
  {
    var w, workspace, all := ns.workloads[j], ns.WorkspaceAt(j), |ns.workloads|;
    hide Written, Owned, Matched, EarlierIdle, Writable;
    forall n | n in now
      ensures now[n].name == n && HasOwner(ns, all, now[n])
    {
      if n in Written(w, w.details[..c], workspace) {
        WrittenStays(w, c, workspace, n);
        assert BelongsTo(ns, j, all, now[n]);
      } else {
        assert n in Kept(store, w) && now[n] == store[n];
        var i :| BelongsTo(ns, i, all, store[n]);
        assert BelongsTo(ns, i, all, now[n]);
      }
    }
  }

  lemma CleanKeeps(ns: Namespace, i: nat, store: Store)
    requires NamesApart(ns) && i < |ns.workloads| && CleanUpTo(ns, |ns.workloads|, store)
    ensures Kept(store, ns.workloads[i]) == store
  {
    forall n | n in store
      ensures !Stale(ns.workloads[i], store[n])
    {
      var j :| BelongsTo(ns, j, |ns.workloads|, store[n]);
      hide Matched;
    }
  }

  /** On a clean store no name is taken. */
  lemma CleanAchievable(ns: Namespace, i: nat, store: Store)
    requires NamesApart(ns) && i < |ns.workloads| && CleanUpTo(ns, |ns.workloads|, store)
    ensures Achievable(store, ns.workloads[i], ns.registrations)
  {
    var w := ns.workloads[i];
    hide WorkspaceOf, Desired;
    forall k | 0 <= k < |w.details| && Local(w, w.details[k])
      ensures Writable(store, w, w.details[k])
    {
      var n := TargetName(w, w.details[k].name);
      if n in store {
        assert DetailOf(w, k, n) && Describes(ns, i, n);
        OwnerOf(ns, store, n, i);
      }
    }
  }

  /** A target with the name of a detail of workload `i` belongs to that workload. */
  lemma OwnerOf(ns: Namespace, store: Store, n: string, i: nat)
    requires NamesApart(ns) && CleanUpTo(ns, |ns.workloads|, store) && n in store
    requires Describes(ns, i, n)
    ensures Owned(ns.workloads[i], store[n]) && store[n].spec.environment == ns.name
  {
    var k :| DetailOf(ns.workloads[i], k, n);
    var j :| BelongsTo(ns, j, |ns.workloads|, store[n]);
    var u := ns.workloads[j];
    var l :| 0 <= l < |u.details| && store[n].name == TargetName(u, u.details[l].name);
    assert DetailOf(u, l, n) && Describes(ns, j, n);
  }

  /** On a clean store a workload is settled if its targets are there. */
  lemma CleanSettled(ns: Namespace, i: nat, store: Store)
    requires NamesApart(ns) && i < |ns.workloads| && CleanUpTo(ns, |ns.workloads|, store)
    requires InPlace(ns, i, store)
    ensures Settled(ns, i, store)
  {
    CleanAchievable(ns, i, store);
    CleanKeeps(ns, i, store);
    hide Achievable, Kept, Written, NamesApart, CleanUpTo;
    assert Target(store, ns.workloads[i], ns.WorkspaceAt(i)) == store + ns.Writes(i) == store;
  }

  /** The store after the first `k` workloads have been reconciled, one after the other. */
  function AfterRound(ns: Namespace, store: Store, k: nat): Store
    requires k <= |ns.workloads|
  {
    if k == 0 then store else Target(AfterRound(ns, store, k - 1), ns.workloads[k - 1], ns.WorkspaceAt(k - 1))
  }

  /** One turn of a round on a clean store adds what the workload writes, and takes nothing from the others. */
  lemma NextTurn(ns: Namespace, store: Store, k: nat, i: nat, n: string)
    requires NamesApart(ns) && CleanUpTo(ns, |ns.workloads|, store) && i <= k < |ns.workloads| && n in ns.Writes(i)
    requires i < k ==> n in store && store[n] == ns.Writes(i)[n]
    ensures var after := Target(store, ns.workloads[k], ns.WorkspaceAt(k));
            n in after && after[n] == ns.Writes(i)[n]
  {
    CleanKeeps(ns, k, store);
    if i < k && n in ns.Writes(k) {
      WritesApart(ns, i, k, n);
    }
    hide NamesApart, CleanUpTo, Kept, Written;
    assert Target(store, ns.workloads[k], ns.WorkspaceAt(k)) == store + ns.Writes(k);
  }

  lemma StaysCleanAfter(ns: Namespace, store: Store, k: nat)
    requires NamesApart(ns) && CleanUpTo(ns, |ns.workloads|, store) && k < |ns.workloads|
    ensures CleanUpTo(ns, |ns.workloads|, Target(store, ns.workloads[k], ns.WorkspaceAt(k)))
  {
    hide *;
    CleanAchievable(ns, k, store);
    FinishedWrites(ns, k, store);
    StaysClean(ns, k, store, Target(store, ns.workloads[k], ns.WorkspaceAt(k)), |ns.workloads[k].details|);
  }

  lemma NextInPlace(ns: Namespace, store: Store, k: nat, i: nat)
    requires NamesApart(ns) && CleanUpTo(ns, |ns.workloads|, store) && i <= k < |ns.workloads|
    requires i < k ==> InPlace(ns, i, store)
    ensures InPlace(ns, i, Target(store, ns.workloads[k], ns.WorkspaceAt(k)))
  {
    hide NamesApart, CleanUpTo, Target, Namespace.Writes;
    forall n | n in ns.Writes(i)
      ensures var after := Target(store, ns.workloads[k], ns.WorkspaceAt(k)); n in after && after[n] == ns.Writes(i)[n]
    {
      NextTurn(ns, store, k, i, n);
    }
  }

  /** On a clean store, every reconcile of a round succeeds, and the targets of all of them are there afterwards. */
  lemma {:induction false} RoundGoesThrough(ns: Namespace, store: Store, k: nat)
    requires NamesApart(ns) && CleanUpTo(ns, |ns.workloads|, store) && k <= |ns.workloads|
    ensures CleanUpTo(ns, |ns.workloads|, AfterRound(ns, store, k))
    ensures forall i :: 0 <= i < k ==> Achievable(AfterRound(ns, store, i), ns.workloads[i], ns.registrations)
    ensures forall i :: 0 <= i < k ==> InPlace(ns, i, AfterRound(ns, store, k))
  {
    hide NamesApart, CleanUpTo, Achievable, InPlace, Target, Namespace.WorkspaceAt;
    if k == 0 {
    } else {
      RoundGoesThrough(ns, store, k - 1);
      var before := AfterRound(ns, store, k - 1);
      CleanAchievable(ns, k - 1, before);
      StaysCleanAfter(ns, before, k - 1);
      forall i | 0 <= i < k
        ensures InPlace(ns, i, AfterRound(ns, store, k))
      {
        NextInPlace(ns, before, k - 1, i);
      }
    }
  }

  lemma FinishedWrites(ns: Namespace, i: nat, store: Store)
    requires i < |ns.workloads| && Achievable(store, ns.workloads[i], ns.registrations)
    ensures var w := ns.workloads[i];
            DuringWrites(store, Target(store, w, ns.WorkspaceAt(i)), w, ns.WorkspaceAt(i), |w.details|)
  {
    var w := ns.workloads[i];
    hide Kept, Written, Writable;
    assert w.details[..|w.details|] == w.details;
  }

  lemma WritesApart(ns: Namespace, i: nat, j: nat, n: string)
    requires NamesApart(ns) && i < |ns.workloads| && j < |ns.workloads| && n in ns.Writes(i) && n in ns.Writes(j)
    ensures i == j
  {
    WrittenIff(ns, i, n);
    WrittenIff(ns, j, n);
    hide Written;
    var k :| WritesTo(ns.workloads[i], k, n);
    var l :| WritesTo(ns.workloads[j], l, n);
    assert DetailOf(ns.workloads[i], k, n) && DetailOf(ns.workloads[j], l, n);
    assert Describes(ns, i, n) && Describes(ns, j, n);
  }

  /** The stores of a first round in which each reconcile got past its deletes, but may have stopped at any write. */
  ghost predicate FirstRound(ns: Namespace, stores: seq<Store>) {
    |stores| == |ns.workloads| + 1
    && forall i :: 0 <= i < |ns.workloads| ==> PastDeletes(ns, i, stores[i], stores[i + 1])
  }

  ghost predicate PastDeletes(ns: Namespace, i: nat, store: Store, now: Store)
    requires i < |ns.workloads|
  {
    exists c :: DuringWrites(store, now, ns.workloads[i], ns.WorkspaceAt(i), c)
  }

  lemma {:induction false} FirstRoundCleans(ns: Namespace, stores: seq<Store>, k: nat)
    requires FirstRound(ns, stores) && CleanUpTo(ns, 0, stores[0]) && k <= |ns.workloads|
    ensures CleanUpTo(ns, k, stores[k])
  {
    if k == 0 {
    } else {
      var i := k - 1;
      FirstRoundCleans(ns, stores, i);
      assert PastDeletes(ns, i, stores[i], stores[i + 1]);
      hide CleanUpTo, DuringWrites;
      var c :| DuringWrites(stores[i], stores[i + 1], ns.workloads[i], ns.WorkspaceAt(i), c);
      CleansNext(ns, i, stores[i], stores[i + 1], c);
    }
  }

  /** From any store whose targets belong to the workloads, whatever writes are refused in a first round, a second round
      goes through and settles all of them. */
  lemma TwoRoundsSuffice(ns: Namespace, stores: seq<Store>)
    requires NamesApart(ns) && FirstRound(ns, stores) && CleanUpTo(ns, 0, stores[0])
    ensures var last := stores[|ns.workloads|];
            (forall i :: 0 <= i < |ns.workloads| ==>
                           Achievable(AfterRound(ns, last, i), ns.workloads[i], ns.registrations))
            && AllSettled(ns, AfterRound(ns, last, |ns.workloads|))
  {
    LastStore(ns, stores);
    hide *;
    FirstRoundCleans(ns, stores, |ns.workloads|);
    var last := stores[|ns.workloads|];
    RoundGoesThrough(ns, last, |ns.workloads|);
    var final := AfterRound(ns, last, |ns.workloads|);
    forall i | 0 <= i < |ns.workloads|
      ensures Settled(ns, i, final)
    {
      CleanSettled(ns, i, final);
    }
    CleanIsNamed(ns, final);
    AllOfThem(ns, final);
  }

  lemma LastStore(ns: Namespace, stores: seq<Store>)
    requires FirstRound(ns, stores)
    ensures |stores| == |ns.workloads| + 1
  {
  }

  lemma CleanIsNamed(ns: Namespace, store: Store)
    requires CleanUpTo(ns, |ns.workloads|, store)
    ensures NamedByKey(store)
  {
  }

  lemma AllOfThem(ns: Namespace, store: Store)
    requires NamedByKey(store) && forall i :: 0 <= i < |ns.workloads| ==> Settled(ns, i, store)
    ensures AllSettled(ns, store)
  {
  }
}
