/** The packages of the assignments: what a reconcile leaves, and what every life of a namespace keeps. */
module PackagePlan {
  import opened Api
  import opened Basics
  import opened Scheduling

  /** The outcome of collecting and validating the configuration and expanding the templates. */
  datatype Built =
    | Manifests(reconciler: seq<string>, namespace: seq<string>, config: seq<string>, configContentType: string)
    | BuildFailed(message: string)

  /** Which calls of one reconcile go through, in the order of their use. */
  datatype Calls = Calls(firstStatus: bool, readPackage: bool, writePackage: bool, packageError: string,
                         repo: bool, readIssue: bool, writeIssue: bool, lastStatus: bool)

  /** What the reconcile has to report: an error message, or None. */
  function Message(built: Built, calls: Calls): Option<string> {
    if built.BuildFailed? then Some(built.message)
    else if !calls.readPackage || !calls.writePackage then Some(calls.packageError)
    else None
  }

  function PackageLabels(spec: AssignmentSpec): Labels {
    map[CLUSTER_TYPE_LABEL := spec.clusterType, WORKLOAD_LABEL := spec.workload,
      DEPLOYMENT_TARGET_LABEL := spec.deploymentTarget]
  }

  /** The two content types that are not set keep what the package had. */
  function PackageOf(a: Assignment, built: Built, stored: PackageSpec): Package
    requires built.Manifests?
  {
    Package(PackageLabels(a.spec),
            stored.(reconcilerManifests := built.reconciler, namespaceManifests := built.namespace,
                    configManifests := built.config, configContentType := built.configContentType))
  }

  function StoredSpec(packages: map<string, Package>, name: string): PackageSpec {
    if name in packages then packages[name].spec else NO_PACKAGE
  }

  /** The package is written exactly when there is nothing to report. */
  function PackagesAfter(packages: map<string, Package>, a: Assignment, built: Built, calls: Calls)
    : map<string, Package>
  {
    if calls.firstStatus && Message(built, calls).None? then
      packages[a.name := PackageOf(a, built, StoredSpec(packages, a.name))]
    else packages
  }

  /** Only the assignment's own condition changes: to Ready if the reconcile is done, to not Ready otherwise. */
  function ReadyAfter(ready: map<string, bool>, a: Assignment, calls: Calls, done: bool): map<string, bool> {
    if calls.firstStatus then ready[a.name := done] else ready
  }

  // ----- Every life of a namespace -----

  /** The assignments by name, their Ready conditions, and their packages. */
  datatype Book = Book(specs: map<string, AssignmentSpec>, ready: map<string, bool>, packages: map<string, Package>)

  /** An assignment is created under a free name, deleted with its package, or reconciled. */
  datatype Turn =
    | Created(a: Assignment)
    | Deleted(name: string)
    | Reconciled(a: Assignment, built: Built, calls: Calls, done: bool)

  predicate Possible(b: Book, t: Turn) {
    match t
    case Created(a) => a.name !in b.specs
    case Deleted(name) => name in b.specs
    case Reconciled(a, built, calls, done) =>
      a.name in b.specs && b.specs[a.name] == a.spec && (done ==> calls.firstStatus && Message(built, calls).None?)
  }

  function Take(b: Book, t: Turn): Book {
    match t
    case Created(a) => b.(specs := b.specs[a.name := a.spec])
    case Deleted(name) => Book(b.specs - {name}, b.ready - {name}, b.packages - {name})
    case Reconciled(a, built, calls, done) =>
      b.(ready := ReadyAfter(b.ready, a, calls, done), packages := PackagesAfter(b.packages, a, built, calls))
  }

  const EMPTY := Book(map[], map[], map[])

  predicate ValidLife(turns: seq<Turn>) {
    turns != [] ==>
      ValidLife(turns[..|turns| - 1]) && Possible(Live(turns[..|turns| - 1]), turns[|turns| - 1])
  }

  function Live(turns: seq<Turn>): Book {
    if turns == [] then EMPTY else Take(Live(turns[..|turns| - 1]), turns[|turns| - 1])
  }

  /** What the latest successful reconcile of the assignment built, since the assignment was created. */
  function LatestBuilt(turns: seq<Turn>, name: string): Option<Built> {
    if turns == [] then None
    else
      var earlier := LatestBuilt(turns[..|turns| - 1], name);
      match turns[|turns| - 1]
      case Created(a) => if a.name == name then None else earlier
      case Deleted(gone) => if gone == name then None else earlier
      case Reconciled(a, built, calls, done) => if a.name == name && done then Some(built) else earlier
  }

  /** The package carries the three labels of the assignment and each list of manifests in its place; the operator never
      sets the other two content types. */
  predicate Carries(p: Package, spec: AssignmentSpec, built: Built) {
    built.Manifests?
    && p.labels == map["cluster-type" := spec.clusterType, "workload" := spec.workload,
                     "deployment-target" := spec.deploymentTarget]
    && p.spec.reconcilerManifests == built.reconciler && p.spec.namespaceManifests == built.namespace
    && p.spec.configManifests == built.config && p.spec.configContentType == built.configContentType
    && p.spec.reconcilerContentType == "" && p.spec.namespaceContentType == ""
  }

  /** The content types that are never set. */
  predicate Untyped(p: Package) {
    p.spec.reconcilerContentType == "" && p.spec.namespaceContentType == ""
  }

  /** Only existing assignments are Ready or have packages, and a Ready one has a package with what its latest
      successful reconcile built. */
  ghost predicate Packaged(turns: seq<Turn>, b: Book) {
    b.ready.Keys <= b.specs.Keys && b.packages.Keys <= b.specs.Keys
    && (forall n :: n in b.packages ==> Untyped(b.packages[n]))
    && forall n :: n in b.ready && b.ready[n] ==> HasBuilt(b, n, LatestBuilt(turns, n))
  }

  predicate HasBuilt(b: Book, n: string, built: Option<Built>) {
    built.Some? && n in b.packages && n in b.specs && Carries(b.packages[n], b.specs[n], built.value)
  }

  /** A reconcile whose build and whose calls up to the package succeed puts what it has built where it belongs, and
      keeps the two content types that it does not set; any other leaves the packages alone. */
  lemma PackageExact(packages: map<string, Package>, a: Assignment, built: Built, calls: Calls)
    ensures var now := PackagesAfter(packages, a, built, calls);
            var stored := if a.name in packages then packages[a.name].spec else PackageSpec([], "", [], "", [], "");
            now ==
            if calls.firstStatus && built.Manifests? && calls.readPackage && calls.writePackage then
              packages[a.name := Package(
                map["cluster-type" := a.spec.clusterType, "workload" := a.spec.workload,
                  "deployment-target" := a.spec.deploymentTarget],
                PackageSpec(built.reconciler, stored.reconcilerContentType, built.namespace,
                            stored.namespaceContentType, built.config, built.configContentType))]
            else packages
    ensures Message(built, calls).None? <==> built.Manifests? && calls.readPackage && calls.writePackage
  {
  }

  lemma TakePackaged(turns: seq<Turn>)
    requires turns != [] && ValidLife(turns) && Packaged(turns[..|turns| - 1], Live(turns[..|turns| - 1]))
    ensures Packaged(turns, Live(turns))
  {
    var front, t := turns[..|turns| - 1], turns[|turns| - 1];
    if t.Reconciled? {
      ReconciledPackaged(turns, Live(front), t.a, t.built, t.calls, t.done);
    } else {
      hide Carries, Untyped;
    }
  }

  lemma ReconciledPackaged(turns: seq<Turn>, b: Book, a: Assignment, built: Built, calls: Calls, done: bool)
    requires turns != [] && turns[|turns| - 1] == Reconciled(a, built, calls, done)
    requires Packaged(turns[..|turns| - 1], b) && Possible(b, turns[|turns| - 1])
    ensures Packaged(turns, Take(b, turns[|turns| - 1]))
  {
    PackageExact(b.packages, a, built, calls);
    hide PackagesAfter, Message, StoredSpec;
    var now := Take(b, turns[|turns| - 1]);
    forall n | n in now.ready && now.ready[n]
      ensures HasBuilt(now, n, LatestBuilt(turns, n))
    {
      if n != a.name || !calls.firstStatus {
        assert HasBuilt(b, n, LatestBuilt(turns[..|turns| - 1], n));
      }
    }
  }

  /** Over every life, however often reconciles fail and names are used again. */
  lemma {:induction false} LivePackaged(turns: seq<Turn>)
    requires ValidLife(turns)
    ensures Packaged(turns, Live(turns))
  {
    if turns == [] {
    } else {
      hide Packaged, Take, Possible;
      LivePackaged(turns[..|turns| - 1]);
      TakePackaged(turns);
    }
  }
}
