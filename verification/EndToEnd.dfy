/** From workloads and scheduling policies to files: what the published tree holds once the reconcilers have nothing
    left to do. */
module EndToEnd {
  import opened Api
  import opened Basics
  import opened Text
  import opened Manifests
  import opened Scheduling
  import opened PolicyPlan
  import opened PolicyRounds
  import opened RepoContents
  import opened TreeChanges
  import opened PublishedTree
  import PackagePlan
  import PullRequestProtocol
  import WorkloadPlan
  import WorkloadRounds

  // ----- Workloads and policies -----

  /** The scheduler lists the targets that the settled workloads of the namespace have left. */
  ghost predicate ListsTargets(ns: Namespace, ws: WorkloadRounds.Namespace, targets: WorkloadPlan.Store) {
    ws.Valid() && ws.name == ns.name
    && WorkloadRounds.AllSettled(ws, targets) && WorkloadRounds.NoLeftovers(ws, targets)
    && forall d :: d in ns.dts <==> d.name in targets && targets[d.name] == d
  }

  /** The selectors of the policy match the cluster type and the labels composed for detail `k` of workload `i`,
      which is a detail of this environment, and of the policy's workspace if it names one. */
  ghost predicate Intends(policy: Policy, c: ClusterType, ws: WorkloadRounds.Namespace, i: int, k: int) {
    0 <= i < |ws.workloads| && 0 <= k < |ws.workloads[i].details|
    && var w, d, workspace := ws.workloads[i], ws.workloads[i].details[k], ws.WorkspaceAt(i);
    WorkloadPlan.Local(w, d)
    && policy.clusterTypes.Some? && policy.clusterTypes.value(c.labels)
    && policy.targets.Some? && policy.targets.value(WorkloadPlan.TargetLabels(w, d, workspace))
    && (policy.workspace == "" || workspace == policy.workspace)
  }

  /** Some policy intends the cluster type for some detail with this target name. */
  ghost predicate Intended(ns: Namespace, ws: WorkloadRounds.Namespace, ct: string, dt: string) {
    exists p, c, i, k ::
      p in ns.policies && c in ns.cts && c.name == ct && Intends(p, c, ws, i, k)
      && WorkloadPlan.TargetName(ws.workloads[i], ws.workloads[i].details[k].name) == dt
  }

  /** For a stored target, the policy's test is that of the detail behind it. */
  lemma IntendsTarget(policy: Policy, c: ClusterType, ns: Namespace, ws: WorkloadRounds.Namespace, i: int, k: int,
                      t: DeploymentTarget)
    requires ws.Valid() && ws.name == ns.name && WorkloadRounds.TargetOf(ws, i, k, t)
    ensures t.name == WorkloadPlan.TargetName(ws.workloads[i], ws.workloads[i].details[k].name)
    ensures t.spec.environment == ns.name
    ensures Intends(policy, c, ws, i, k) <==>
            policy.clusterTypes.Some? && policy.targets.Some? && policy.clusterTypes.value(c.labels)
            && policy.targets.value(t.labels) && (policy.workspace == "" || t.Workspace() == policy.workspace)
  {
  }

  /** A pair is selected if and only if some policy intends it for some workload. */
  lemma SelectedIsIntended(ns: Namespace, ws: WorkloadRounds.Namespace, targets: WorkloadPlan.Store, ct: string,
                           dt: string)
    requires ListsTargets(ns, ws, targets)
    ensures ns.Selected(ct, dt) <==> Intended(ns, ws, ct, dt)
  {
    hide WorkloadRounds.AllSettled, WorkloadRounds.NoLeftovers, WorkloadRounds.TargetOf, Intends;
    if ns.Selected(ct, dt) {
      var spec :| ns.SelectedSpec(spec) && spec.clusterType == ct && spec.deploymentTarget == dt;
      var j :| ns.SelectedBy(j, spec);
      var p := ns.policies[j];
      var c, d :|
        c in ns.cts && d in ns.dts && p.clusterTypes.value(c.labels) && p.targets.value(d.labels)
        && (p.workspace == "" || d.Workspace() == p.workspace) && spec == AssignmentSpec(d.Workload(), d.name, c.name);
      WorkloadRounds.StoreExact(ws, targets, d);
      var i, k :| WorkloadRounds.TargetOf(ws, i, k, d);
      IntendsTarget(p, c, ns, ws, i, k, d);
    }
    if Intended(ns, ws, ct, dt) {
      IntendedIsSelected(ns, ws, targets, ct, dt);
    }
  }

  lemma IntendedIsSelected(ns: Namespace, ws: WorkloadRounds.Namespace, targets: WorkloadPlan.Store, ct: string,
                           dt: string)
    requires ListsTargets(ns, ws, targets) && Intended(ns, ws, ct, dt)
    ensures ns.Selected(ct, dt)
  {
    var p, c, i, k :|
      p in ns.policies && c in ns.cts && c.name == ct && Intends(p, c, ws, i, k)
      && WorkloadPlan.TargetName(ws.workloads[i], ws.workloads[i].details[k].name) == dt;
    hide WorkloadRounds.AllSettled, WorkloadRounds.NoLeftovers;
    var d := WorkloadPlan.Desired(ws.workloads[i], ws.workloads[i].details[k], ws.WorkspaceAt(i));
    assert WorkloadRounds.TargetOf(ws, i, k, d);
    WorkloadRounds.StoreExact(ws, targets, d);
    IntendsTarget(p, c, ns, ws, i, k, d);
    var spec := AssignmentSpec(d.Workload(), d.name, c.name);
    var j :| 0 <= j < |ns.policies| && ns.policies[j] == p;
    assert ns.SelectedBy(j, spec);
  }

  // ----- Assignments and packages -----

  predicate AllReady(book: PackagePlan.Book) {
    forall n :: n in book.specs ==> n in book.ready && book.ready[n]
  }

  /** The packages in the order in which they happen to be listed. */
  ghost predicate Lists(listed: seq<Package>, packages: map<string, Package>) {
    forall p :: p in listed <==> exists n :: n in packages && packages[n] == p
  }

  /** The policies are done; the assignments they have left, after whatever has happened to them and their
      namesakes, are all Ready, which a pull request waits for; their packages are listed. */
  ghost predicate Delivers(ns: Namespace, store: Store, turns: seq<PackagePlan.Turn>, listed: seq<Package>) {
    Quiescent(ns, store)
    && PackagePlan.ValidLife(turns)
    && PackagePlan.Live(turns).specs == (map n | n in store :: store[n].spec)
    && AllReady(PackagePlan.Live(turns))
    && Lists(listed, PackagePlan.Live(turns).packages)
  }

  /** Then the packages are those of the assignments, and each carries the labels of its assignment and what was
      built for it last. */
  lemma PackagesMatch(ns: Namespace, store: Store, turns: seq<PackagePlan.Turn>, listed: seq<Package>)
    requires Delivers(ns, store, turns, listed)
    ensures var packages := PackagePlan.Live(turns).packages;
            packages.Keys == store.Keys
            && forall n :: n in store ==>
                             var built := PackagePlan.LatestBuilt(turns, n);
                             built.Some? && PackagePlan.Carries(packages[n], store[n].spec, built.value)
  {
    hide Quiescent, Lists, PackagePlan.Live, PackagePlan.ValidLife, PackagePlan.Carries, PackagePlan.LatestBuilt;
    PackagePlan.LivePackaged(turns);
    assert PackagePlan.Live(turns).specs.Keys == store.Keys;
  }

  lemma SameTargetSameSpec(ns: Namespace, a: AssignmentSpec, b: AssignmentSpec)
    requires UniqueTargets(ns.dts) && ns.SelectedSpec(a) && ns.SelectedSpec(b)
    requires a.clusterType == b.clusterType && a.deploymentTarget == b.deploymentTarget
    ensures a == b
  {
    SelectedParts(ns, a);
    SelectedParts(ns, b);
  }

  lemma LabelsOfPackage(p: Package, spec: AssignmentSpec, built: PackagePlan.Built)
    requires PackagePlan.Carries(p, spec, built)
    ensures Carries(p, spec.clusterType, spec.deploymentTarget)
  {
  }

  /** A listed package is that of a selected spec. */
  lemma ListedIsSelected(ns: Namespace, store: Store, turns: seq<PackagePlan.Turn>, listed: seq<Package>, p: Package)
    returns (spec: AssignmentSpec)
    requires Delivers(ns, store, turns, listed) && p in listed
    ensures var packages := PackagePlan.Live(turns).packages;
            ns.SelectedSpec(spec) && AssignmentName(spec) in packages && packages[AssignmentName(spec)] == p
    ensures Carries(p, spec.clusterType, spec.deploymentTarget)
  {
    PackagesMatch(ns, store, turns, listed);
    hide PackagePlan.Live, PackagePlan.ValidLife, PackagePlan.Carries, PackagePlan.LatestBuilt, Carries;
    var packages := PackagePlan.Live(turns).packages;
    var n :| n in packages && packages[n] == p;
    spec := store[n].spec;
    StoreExact(ns, store, spec);
    LabelsOfPackage(p, spec, PackagePlan.LatestBuilt(turns, n).value);
  }

  lemma SelectedIsListed(ns: Namespace, store: Store, turns: seq<PackagePlan.Turn>, listed: seq<Package>,
                         spec: AssignmentSpec)
    requires Delivers(ns, store, turns, listed) && ns.SelectedSpec(spec)
    ensures var packages := PackagePlan.Live(turns).packages;
            AssignmentName(spec) in packages && packages[AssignmentName(spec)] in listed
    ensures HasPackage(listed, spec.clusterType, spec.deploymentTarget)
  {
    PackagesMatch(ns, store, turns, listed);
    hide PackagePlan.Live, PackagePlan.ValidLife, PackagePlan.Carries, PackagePlan.LatestBuilt, Carries;
    StoreExact(ns, store, spec);
    var n := AssignmentName(spec);
    LabelsOfPackage(PackagePlan.Live(turns).packages[n], spec, PackagePlan.LatestBuilt(turns, n).value);
  }

  // ----- Content -----

  /** The content has an entry exactly for the selected pairs, and a folder exactly for the cluster types. */
  lemma ContentExact(ns: Namespace, store: Store, turns: seq<PackagePlan.Turn>, listed: seq<Package>, ct: string,
                     dt: string)
    requires Delivers(ns, store, turns, listed)
    ensures var content := Placed(Folders(ns.cts), listed);
            (ct in content && dt in content[ct] <==> ns.Selected(ct, dt))
            && (ct in content <==> exists c :: c in ns.cts && c.name == ct)
  {
    PlacedExact(ns.cts, listed, ct, dt);
    hide Delivers, Placed, Folders, PackagePlan.Live;
    if HasPackage(listed, ct, dt) {
      var p :| p in listed && Carries(p, ct, dt);
      var spec := ListedIsSelected(ns, store, turns, listed, p);
    }
    if ns.Selected(ct, dt) {
      var spec :| ns.SelectedSpec(spec) && spec.clusterType == ct && spec.deploymentTarget == dt;
      SelectedIsListed(ns, store, turns, listed, spec);
    }
    if d :| HasPackage(listed, ct, d) {
      var p :| p in listed && Carries(p, ct, d);
      var spec := ListedIsSelected(ns, store, turns, listed, p);
      SelectedParts(ns, spec);
    }
  }

  /** The entry of a selected pair is the package of its assignment, in whatever order the packages are listed. */
  lemma ContentValue(ns: Namespace, store: Store, turns: seq<PackagePlan.Turn>, listed: seq<Package>,
                     spec: AssignmentSpec)
    requires Delivers(ns, store, turns, listed) && UniqueTargets(ns.dts) && ns.SelectedSpec(spec)
    ensures var content, packages := Placed(Folders(ns.cts), listed), PackagePlan.Live(turns).packages;
            AssignmentName(spec) in packages
            && spec.clusterType in content && spec.deploymentTarget in content[spec.clusterType]
            && content[spec.clusterType][spec.deploymentTarget] == packages[AssignmentName(spec)].spec
  {
    SelectedIsListed(ns, store, turns, listed, spec);
    hide Delivers, Placed, Folders, PackagePlan.Live;
    var packages := PackagePlan.Live(turns).packages;
    forall p | p in listed && Carries(p, spec.clusterType, spec.deploymentTarget)
      ensures p.spec == packages[AssignmentName(spec)].spec
    {
      var other := ListedIsSelected(ns, store, turns, listed, p);
      SameTargetSameSpec(ns, other, spec);
    }
    PlacedValue(Folders(ns.cts), listed, spec.clusterType, spec.deploymentTarget, packages[AssignmentName(spec)].spec);
  }

  lemma ContentSlashFree(ns: Namespace, store: Store, turns: seq<PackagePlan.Turn>, listed: seq<Package>)
    requires Delivers(ns, store, turns, listed) && ns.NoSlashes()
    ensures SlashFree(Placed(Folders(ns.cts), listed))
  {
    hide Delivers, Placed, Folders;
    var content := Placed(Folders(ns.cts), listed);
    forall ct | ct in content
      ensures '/' !in ct && forall dt :: dt in content[ct] ==> '/' !in dt
    {
      ContentExact(ns, store, turns, listed, ct, "");
      forall dt | dt in content[ct]
        ensures '/' !in dt
      {
        ContentExact(ns, store, turns, listed, ct, dt);
        var spec :| ns.SelectedSpec(spec) && spec.clusterType == ct && spec.deploymentTarget == dt;
        SelectedParts(ns, spec);
      }
    }
  }

  // ----- The published tree -----

  /** The tree has a folder for exactly the cluster types, and in it one for exactly the targets that some policy
      selects for the type. */
  ghost predicate Shows(tree: Tree, ns: Namespace, ct: string, dt: string) {
    (HasFolder(tree, ct) <==> exists c :: c in ns.cts && c.name == ct)
    && (HasEntry(tree, ct, dt) <==> ns.Selected(ct, dt))
  }

  /** Publishing the content of a quiescent namespace over any base tree yields folders for exactly what the policies
      select. */
  lemma TreeMatchesPolicies(ns: Namespace, store: Store, turns: seq<PackagePlan.Turn>, listed: seq<Package>,
                            repos: seq<BaseRepo>,
                            base: Tree, content: RepoContent, changes: seq<Change>, ct: string, dt: string)
    requires Delivers(ns, store, turns, listed) && ns.NoSlashes()
            && ContentOf(ns.cts, listed, repos) == Some(content)
    requires DistinctPaths(changes) && ExactChanges(changes, base, content)
    requires !HasPrefix(ct, ".") && dt != README
    ensures Shows(Apply(base, changes), ns, ct, dt)
  {
    ContentSlashFree(ns, store, turns, listed);
    ContentExact(ns, store, turns, listed, ct, dt);
    ChangesPublish(base, content, changes);
    assert content.clusterTypes == Placed(Folders(ns.cts), listed);
    hide Delivers, Placed, Folders, Apply, Published, SlashFree, HasFolder, HasEntry, ExactChanges;
    TopFoldersExact(base, content, Apply(base, changes), ct);
    TargetFoldersExact(base, content, Apply(base, changes), ct, dt);
  }

  /** And the folder of a selected pair holds the manifests of the package of its assignment. */
  lemma FilesMatchPackages(ns: Namespace, store: Store, turns: seq<PackagePlan.Turn>, listed: seq<Package>,
                           repos: seq<BaseRepo>, base: Tree, content: RepoContent, changes: seq<Change>,
                             spec: AssignmentSpec)
    requires Delivers(ns, store, turns, listed) && UniqueTargets(ns.dts) && ns.NoSlashes()
    requires ContentOf(ns.cts, listed, repos) == Some(content)
    requires DistinctPaths(changes) && ExactChanges(changes, base, content)
    requires ns.SelectedSpec(spec)
    ensures var packages := PackagePlan.Live(turns).packages;
            AssignmentName(spec) in packages
            && HoldsPackage(Apply(base, changes), spec.clusterType, spec.deploymentTarget,
                 packages[AssignmentName(spec)].spec)
  {
    ContentSlashFree(ns, store, turns, listed);
    ContentValue(ns, store, turns, listed, spec);
    ChangesPublish(base, content, changes);
    assert content.clusterTypes == Placed(Folders(ns.cts), listed);
    hide *;
    TargetPublished(base, content, Apply(base, changes), spec.clusterType, spec.deploymentTarget);
  }

  /** So the folder holds what the latest successful reconcile of the assignment built, each list of manifests in
      its own file. */
  lemma FilesMatchBuilt(ns: Namespace, store: Store, turns: seq<PackagePlan.Turn>, listed: seq<Package>,
                        repos: seq<BaseRepo>, base: Tree, content: RepoContent, changes: seq<Change>,
                        spec: AssignmentSpec)
    requires Delivers(ns, store, turns, listed) && UniqueTargets(ns.dts) && ns.NoSlashes()
    requires ContentOf(ns.cts, listed, repos) == Some(content)
    requires DistinctPaths(changes) && ExactChanges(changes, base, content)
    requires ns.SelectedSpec(spec)
    ensures var built := PackagePlan.LatestBuilt(turns, AssignmentName(spec));
            built.Some? && built.value.Manifests?
            && var tree, folder := Apply(base, changes), spec.clusterType + "/" + spec.deploymentTarget + "/";
               FileAt(tree, folder + "reconciler.yaml") == Some(Yaml(built.value.reconciler))
               && FileAt(tree, folder + "namespace.yaml") == Some(Yaml(built.value.namespace))
               && (Yaml(built.value.config) != "" ==>
                     HoldsFile(tree, folder + "platform-config", built.value.configContentType,
                               Yaml(built.value.config)))
  {
    FilesMatchPackages(ns, store, turns, listed, repos, base, content, changes, spec);
    PackagesMatch(ns, store, turns, listed);
    StoreExact(ns, store, spec);
    var n := AssignmentName(spec);
    hide Delivers, PackagePlan.Live, PackagePlan.LatestBuilt, Apply, Yaml, AssignmentName, ExactChanges, DistinctPaths;
    BuiltFiles(Apply(base, changes), spec, PackagePlan.Live(turns).packages[n],
               PackagePlan.LatestBuilt(turns, n).value);
  }

  lemma BuiltFiles(tree: Tree, spec: AssignmentSpec, p: Package, built: PackagePlan.Built)
    requires PackagePlan.Carries(p, spec, built)
    requires HoldsPackage(tree, spec.clusterType, spec.deploymentTarget, p.spec)
    ensures var folder := spec.clusterType + "/" + spec.deploymentTarget + "/";
            FileAt(tree, folder + "reconciler.yaml") == Some(Yaml(built.reconciler))
            && FileAt(tree, folder + "namespace.yaml") == Some(Yaml(built.namespace))
            && (Yaml(built.config) != "" ==>
                  HoldsFile(tree, folder + "platform-config", built.configContentType, Yaml(built.config)))
  {
    hide Yaml;
    var folder := spec.clusterType + "/" + spec.deploymentTarget + "/";
    assert folder + "reconciler" + ".yaml" == folder + "reconciler.yaml";
    assert folder + "namespace" + ".yaml" == folder + "namespace.yaml";
  }

  /** The tracking file names the commit of the base repository `main`. */
  lemma CommitTracked(cts: seq<ClusterType>, listed: seq<Package>, repos: seq<BaseRepo>, i: nat,
                      base: Tree, content: RepoContent, changes: seq<Change>)
    requires ContentOf(cts, listed, repos) == Some(content) && IsMain(repos, i) && repos[i].spec.commit != ""
    requires DistinctPaths(changes) && ExactChanges(changes, base, content)
    ensures FileAt(Apply(base, changes), ".github/tracking/Promoted_Commit_Id") == Some(repos[i].spec.commit)
  {
    BaseRepoExact(cts, listed, repos);
    ChangesPublish(base, content, changes);
    hide ContentOf, Published, Apply, ExactChanges;
    TrackingPublished(base, content, Apply(base, changes));
  }

  /** From the workloads on: a target folder lies in the published tree if and only if some policy matches the cluster
      type and the labels composed for a detail of that target name. */
  lemma TreeMatchesWorkloads(ws: WorkloadRounds.Namespace, targets: WorkloadPlan.Store,
                             ns: Namespace, store: Store, turns: seq<PackagePlan.Turn>, listed: seq<Package>,
                             repos: seq<BaseRepo>,
                             base: Tree, content: RepoContent, changes: seq<Change>, ct: string, dt: string)
    requires ListsTargets(ns, ws, targets)
    requires Delivers(ns, store, turns, listed) && ns.NoSlashes()
            && ContentOf(ns.cts, listed, repos) == Some(content)
    requires DistinctPaths(changes) && ExactChanges(changes, base, content)
    requires !HasPrefix(ct, ".") && dt != README
    ensures HasEntry(Apply(base, changes), ct, dt) <==> Intended(ns, ws, ct, dt)
  {
    TreeMatchesPolicies(ns, store, turns, listed, repos, base, content, changes, ct, dt);
    hide Intended, HasEntry, HasFolder, Delivers, ListsTargets, Apply, ExactChanges;
    SelectedIsIntended(ns, ws, targets, ct, dt);
  }

  // ----- Up to the pull request -----

  /** Different contents have different hashes. */
  ghost predicate InjectiveHash(h: PullRequestProtocol.Hash) {
    forall a, b :: h(a) == h(b) ==> a == b
  }

  /** After any run whose pull requests are recorded, two effective reconciles with the namespace's content make the
      latest pull request carry exactly this content, so committing it over any base tree yields what the policies
      select; and it is open, unless a failed attempt has closed it and the content has reverted to it. */
  lemma PullRequestMatchesPolicies(ns: Namespace, store: Store, turns: seq<PackagePlan.Turn>, listed: seq<Package>,
                                   repos: seq<BaseRepo>, content: RepoContent, status: PullRequestProtocol.RepoStatus,
                                   clock: int, events: seq<PullRequestProtocol.Event>,
                                   calm: seq<PullRequestProtocol.Event>, h: PullRequestProtocol.Hash,
                                   carried: RepoContent, base: Tree, changes: seq<Change>, ct: string, dt: string)
    requires Delivers(ns, store, turns, listed) && ns.NoSlashes()
            && ContentOf(ns.cts, listed, repos) == Some(content)
    requires InjectiveHash(h) && PullRequestProtocol.ValidRun(PullRequestProtocol.Start(status, clock), events, h)
    requires PullRequestProtocol.RecordedThroughout(PullRequestProtocol.Start(status, clock), events, h)
    requires var w := PullRequestProtocol.Run(PullRequestProtocol.Start(status, clock), events, h);
             PullRequestProtocol.ValidRun(w, calm, h) && PullRequestProtocol.CleanRun(w, calm, content, h)
             && PullRequestProtocol.Effective(w, calm, content, h) >= 2
    requires var w := PullRequestProtocol.Run(PullRequestProtocol.Start(status, clock), events, h);
             var t := PullRequestProtocol.Run(w, calm, h);
             t.prs != [] && t.prs[|t.prs| - 1].hash == h(carried)
    requires DistinctPaths(changes) && ExactChanges(changes, base, carried)
    requires !HasPrefix(ct, ".") && dt != README
    ensures carried == content && Shows(Apply(base, changes), ns, ct, dt)
    ensures var w := PullRequestProtocol.Run(PullRequestProtocol.Start(status, clock), events, h);
            var t := PullRequestProtocol.Run(w, calm, h);
            (t.standing <==> w.standing || w.Current().hash != h(content))
            && (PullRequestProtocol.SafeThroughout(PullRequestProtocol.Start(status, clock), events, h) ==> t.standing)
  {
    PullRequestProtocol.LatestCarries(status, clock, events, calm, content, h);
    assert carried == content by {
      hide PullRequestProtocol.Run, PullRequestProtocol.ValidRun, PullRequestProtocol.CleanRun;
    }
    hide *;
    TreeMatchesPolicies(ns, store, turns, listed, repos, base, content, changes, ct, dt);
  }
}
