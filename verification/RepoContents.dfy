/** The content of the GitOps repository, gathered from the cluster types and assignment packages of a namespace. */
module RepoContents {
  import opened Api
  import opened Basics

  datatype BaseRepo = BaseRepo(name: string, spec: BaseRepoSpec)
  datatype BaseRepoSpec = BaseRepoSpec(repo: string, branch: string, path: string, commit: string)
  const NO_BASE_REPO := BaseRepoSpec("", "", "", "")

  /** The packages by cluster type and deployment target. */
  type ClusterTypes = map<string, map<string, PackageSpec>>
  datatype RepoContent = RepoContent(clusterTypes: ClusterTypes, baseRepo: BaseRepoSpec)

  function Folders(cts: seq<ClusterType>): ClusterTypes {
    if cts == [] then map[] else Folders(cts[..|cts| - 1])[cts[|cts| - 1].name := map[]]
  }

  function Place(content: ClusterTypes, p: Package): ClusterTypes {
    var ct, dt := Lookup(p.labels, CLUSTER_TYPE_LABEL), Lookup(p.labels, DEPLOYMENT_TARGET_LABEL);
    content[ct := (if ct in content then content[ct] else map[])[dt := p.spec]]
  }

  function Placed(content: ClusterTypes, packages: seq<Package>): ClusterTypes {
    if packages == [] then content else Place(Placed(content, packages[..|packages| - 1]), packages[|packages| - 1])
  }

  function MainRepos(repos: seq<BaseRepo>): seq<BaseRepoSpec> {
    if repos == [] then []
    else MainRepos(repos[..|repos| - 1]) + if repos[|repos| - 1].name == "main" then [repos[|repos| - 1].spec] else []
  }

  /** None if there is more than one main base repository. */
  function ContentOf(cts: seq<ClusterType>, packages: seq<Package>, repos: seq<BaseRepo>): Option<RepoContent> {
    var mains := MainRepos(repos);
    if |mains| > 1 then None
    else Some(RepoContent(Placed(Folders(cts), packages), if mains == [] then NO_BASE_REPO else mains[0]))
  }

  method GetRepoContent(cts: seq<ClusterType>, packages: seq<Package>, repos: seq<BaseRepo>)
    returns (content: Option<RepoContent>)
    ensures content == ContentOf(cts, packages, repos)
  {
    var clusterTypes: ClusterTypes := map[];
    for i := 0 to |cts|
      invariant clusterTypes == Folders(cts[..i])
    {
      assert cts[..i + 1][..i] == cts[..i];
      clusterTypes := clusterTypes[cts[i].name := map[]];
    }
    assert cts[..|cts|] == cts;
    assert Placed(Folders(cts), packages[..0]) == Folders(cts) && MainRepos(repos[..0]) == [];
    hide *;
    for i := 0 to |packages|
      invariant clusterTypes == Placed(Folders(cts), packages[..i])
    {
      PlacedStep(Folders(cts), packages, i);
      var ct := Lookup(packages[i].labels, CLUSTER_TYPE_LABEL);
      if ct !in clusterTypes {
        clusterTypes := clusterTypes[ct := map[]];
      }
      var dt := Lookup(packages[i].labels, DEPLOYMENT_TARGET_LABEL);
      clusterTypes := clusterTypes[ct := clusterTypes[ct][dt := packages[i].spec]];
    }
    assert packages[..|packages|] == packages;
    var baseRepo := NO_BASE_REPO;
    var found := false;
    for i := 0 to |repos|
      invariant MainRepos(repos[..i]) == if found then [baseRepo] else []
      invariant !found ==> baseRepo == NO_BASE_REPO
    {
      MainReposStep(repos, i);
      if repos[i].name == "main" {
        if found {
          MainReposGrow(repos, i + 1);
          ContentFound(cts, packages, repos);
          return None;
        }
        baseRepo := repos[i].spec;
        found := true;
      }
    }
    assert repos[..|repos|] == repos;
    content := Some(RepoContent(clusterTypes, baseRepo));
    ContentFound(cts, packages, repos);
  }

  lemma ContentFound(cts: seq<ClusterType>, packages: seq<Package>, repos: seq<BaseRepo>)
    ensures var mains := MainRepos(repos);
            ContentOf(cts, packages, repos) ==
            if |mains| > 1 then None
            else Some(RepoContent(Placed(Folders(cts), packages), if mains == [] then NO_BASE_REPO else mains[0]))
  {
  }

  lemma PlacedStep(content: ClusterTypes, packages: seq<Package>, i: nat)
    requires i < |packages|
    ensures var before, p := Placed(content, packages[..i]), packages[i];
            var ct, dt := Lookup(p.labels, CLUSTER_TYPE_LABEL), Lookup(p.labels, DEPLOYMENT_TARGET_LABEL);
            Placed(content, packages[..i + 1]) ==
            before[ct := (if ct in before then before[ct] else map[])[dt := p.spec]]
  {
    assert packages[..i + 1][..i] == packages[..i];
  }

  lemma MainReposStep(repos: seq<BaseRepo>, i: nat)
    requires i < |repos|
    ensures MainRepos(repos[..i + 1]) == MainRepos(repos[..i]) + if repos[i].name == "main" then [repos[i].spec] else []
  {
    assert repos[..i + 1][..i] == repos[..i];
  }

  lemma {:induction false} MainReposGrow(repos: seq<BaseRepo>, k: nat)
    requires k <= |repos|
    ensures |MainRepos(repos[..k])| <= |MainRepos(repos)|
    decreases |repos|
  {
    if k < |repos| {
      var front := repos[..|repos| - 1];
      MainReposGrow(front, k);
      assert front[..k] == repos[..k];
    } else {
      assert repos[..k] == repos;
    }
  }

  // ----- What the content has -----

  /** The package is labelled with the cluster type and the target. */
  predicate Carries(p: Package, ct: string, dt: string) {
    Lookup(p.labels, CLUSTER_TYPE_LABEL) == ct && Lookup(p.labels, DEPLOYMENT_TARGET_LABEL) == dt
  }

  ghost predicate HasPackage(packages: seq<Package>, ct: string, dt: string) {
    exists p :: p in packages && Carries(p, ct, dt)
  }

  lemma {:induction false} FoldersExact(cts: seq<ClusterType>, ct: string)
    ensures ct in Folders(cts) <==> exists c :: c in cts && c.name == ct
    ensures ct in Folders(cts) ==> Folders(cts)[ct] == map[]
  {
    if cts == [] {
    } else {
      var n := |cts| - 1;
      FoldersExact(cts[..n], ct);
      assert cts == cts[..n] + [cts[n]];
    }
  }

  /** A target has an entry exactly if a package carries its labels, a cluster type exactly if it exists or a package
      names it. */
  lemma {:induction false} PlacedExact(cts: seq<ClusterType>, packages: seq<Package>, ct: string, dt: string)
    ensures var content := Placed(Folders(cts), packages);
            (ct in content && dt in content[ct] <==> HasPackage(packages, ct, dt))
            && (ct in content <==> (exists c :: c in cts && c.name == ct) || exists d :: HasPackage(packages, ct, d))
  {
    if packages == [] {
      FoldersExact(cts, ct);
    } else {
      var n := |packages| - 1;
      var front, p := packages[..n], packages[n];
      PlacedExact(cts, front, ct, dt);
      assert packages == front + [p];
      forall d
        ensures HasPackage(packages, ct, d) <==> HasPackage(front, ct, d) || Carries(p, ct, d)
      {
      }
      if Lookup(p.labels, CLUSTER_TYPE_LABEL) == ct {
        assert Carries(p, ct, Lookup(p.labels, DEPLOYMENT_TARGET_LABEL));
      }
    }
  }

  /** Packages with the same two labels and different specs would overwrite each other in list order; if there are none,
      the entry is the spec of the one package. */
  lemma {:induction false} PlacedValue(content: ClusterTypes, packages: seq<Package>, ct: string, dt: string,
                                       spec: PackageSpec)
    requires HasPackage(packages, ct, dt)
    requires forall p :: p in packages && Carries(p, ct, dt) ==> p.spec == spec
    ensures var placed := Placed(content, packages); ct in placed && dt in placed[ct] && placed[ct][dt] == spec
  {
    var n := |packages| - 1;
    var front, p := packages[..n], packages[n];
    assert packages == front + [p];
    if !Carries(p, ct, dt) {
      PlacedValue(content, front, ct, dt, spec);
    }
  }

  /** Of several packages with the same two labels the last one listed has the entry. */
  lemma {:induction false} PlacedLast(content: ClusterTypes, packages: seq<Package>, i: nat)
    requires i < |packages|
    requires forall j :: i < j < |packages| ==>
                           !Carries(packages[j], Lookup(packages[i].labels, "cluster-type"),
                                    Lookup(packages[i].labels, "deployment-target"))
    ensures var placed := Placed(content, packages);
            var ct, dt := Lookup(packages[i].labels, "cluster-type"), Lookup(packages[i].labels, "deployment-target");
            ct in placed && dt in placed[ct] && placed[ct][dt] == packages[i].spec
  {
    var n := |packages| - 1;
    if i < n {
      PlacedLast(content, packages[..n], i);
      assert packages[..n][i] == packages[i];
      assert !Carries(packages[n], Lookup(packages[i].labels, "cluster-type"),
                      Lookup(packages[i].labels, "deployment-target"));
    }
  }

  // ----- The base repository -----

  predicate IsMain(repos: seq<BaseRepo>, i: int) {
    0 <= i < |repos| && repos[i].name == "main"
  }

  lemma {:induction false} MainReposExact(repos: seq<BaseRepo>)
    ensures MainRepos(repos) == [] <==> forall i :: !IsMain(repos, i)
    ensures |MainRepos(repos)| > 1 <==> exists i, j :: i < j && IsMain(repos, i) && IsMain(repos, j)
    ensures |MainRepos(repos)| == 1 ==> exists i :: IsMain(repos, i) && MainRepos(repos)[0] == repos[i].spec
  {
    if repos == [] {
    } else {
      var n := |repos| - 1;
      MainReposExact(repos[..n]);
      assert forall i :: i < n ==> (IsMain(repos[..n], i) <==> IsMain(repos, i));
      assert repos == repos[..n] + [repos[n]];
      assert IsMain(repos, n) <==> repos[n].name == "main";
      if |MainRepos(repos)| == 1 && repos[n].name != "main" {
        var i :| IsMain(repos[..n], i) && MainRepos(repos[..n])[0] == repos[..n][i].spec;
        assert IsMain(repos, i);
      }
    }
  }

  /** The content takes over the one base repository named `main`, and none if there is none; two are an error. */
  lemma BaseRepoExact(cts: seq<ClusterType>, packages: seq<Package>, repos: seq<BaseRepo>)
    ensures var content := ContentOf(cts, packages, repos);
            (content.None? <==> exists i, j :: i < j && IsMain(repos, i) && IsMain(repos, j))
            && (content.Some? ==> (forall i :: IsMain(repos, i) ==> content.value.baseRepo == repos[i].spec))
            && (content.Some? && (forall i :: !IsMain(repos, i)) ==>
                  content.value.baseRepo == BaseRepoSpec("", "", "", ""))
  {
    MainReposExact(repos);
    hide MainRepos, Placed, Folders;
    if ContentOf(cts, packages, repos).Some? {
      forall i | IsMain(repos, i)
        ensures MainRepos(repos)[0] == repos[i].spec
      {
        var j :| IsMain(repos, j) && MainRepos(repos)[0] == repos[j].spec;
        assert i == j;
      }
    }
  }
}
