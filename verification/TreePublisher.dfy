/** Computing the changes to the tree of the GitOps repository. */
module TreePublisher {
  import opened Api
  import opened Basics
  import opened Text
  import opened Manifests
  import opened RepoContents
  import opened TreeChanges

  /** Cluster types and targets are visited in an arbitrary order. None if the tracking file cannot be read. */
  method GetTree(entries: seq<Entry>, content: RepoContent, readOk: bool) returns (tree: Option<(seq<Change>, bool)>)
    requires DistinctEntries(entries) && SlashFree(content.clusterTypes)
    ensures tree.None? <==> content.baseRepo.commit != "" && TRACKING in Files(entries) && !readOk
    ensures tree.Some? ==>
              DistinctPaths(tree.value.0) && ExactChanges(tree.value.0, Files(entries), content)
              && (tree.value.1 <==> Promotes(Files(entries), content))
  {
    var changes := DeleteFiles(entries, content.clusterTypes);
    var commit := AddPromotedCommitId(entries, content, readOk);
    if commit.None? {
      return None;
    }
    changes := changes + commit.value.0;
    var written;
    ghost var visits;
    written, visits := WriteFiles(content.clusterTypes);
    AllChangesExact(entries, content, commit.value.0, visits);
    tree := Some((changes + written, commit.value.1));
  }

  method DeleteFiles(entries: seq<Entry>, content: ClusterTypes) returns (changes: seq<Change>)
    ensures changes == Deletes(entries, content)
  {
    changes := [];
    for i := 0 to |entries|
      invariant changes == Deletes(entries[..i], content)
    {
      assert entries[..i + 1][..i] == entries[..i];
      var entry := entries[i];
      if entry.kind == "blob" {
        var path := Split(entry.path, "/");
        if |path| > 1 {
          var clusterTypeFolder := path[0];
          if !HasPrefix(clusterTypeFolder, ".") {
            var ok := clusterTypeFolder in content;
            if ok {
              var deploymentTargetFolder := path[1];
              if deploymentTargetFolder != README {
                ok := deploymentTargetFolder in content[clusterTypeFolder];
              }
            }
            if !ok {
              changes := changes + [Delete(entry.path)];
            }
          }
        }
      }
    }
    assert entries[..|entries|] == entries;
  }

  /** The tracking write, if any, and whether the commit is promoted. */
  method AddPromotedCommitId(entries: seq<Entry>, content: RepoContent, readOk: bool)
    returns (commit: Option<(seq<Change>, bool)>)
    requires DistinctEntries(entries)
    ensures commit.None? <==> content.baseRepo.commit != "" && TRACKING in Files(entries) && !readOk
    ensures commit.Some? ==>
              (commit.value.1 <==> Promotes(Files(entries), content))
              && commit.value.0 == if Promotes(Files(entries), content) then [Write(TRACKING, content.baseRepo.commit)]
                else []
  {
    var promotedCommitId := content.baseRepo.commit;
    if promotedCommitId == "" {
      return Some(([], false));
    }
    for i := 0 to |entries|
      invariant forall j :: 0 <= j < i ==> entries[j].kind != "blob" || entries[j].path != TRACKING
    {
      if entries[i].kind == "blob" {
        if entries[i].path == TRACKING {
          FileOfEntry(entries, i);
          if !readOk {
            return None;
          }
          if entries[i].content == promotedCommitId {
            return Some(([], false));
          }
          break;
        }
      }
    }
    FilesExact(entries, TRACKING);
    commit := Some(([Write(TRACKING, promotedCommitId)], true));
  }

  method WriteFiles(content: ClusterTypes) returns (changes: seq<Change>, ghost visits: seq<Visit>)
    ensures ValidVisits(visits, content) && changes == VisitsChanges(visits, content)
    ensures forall ct :: ct in content ==> exists i :: 0 <= i < |visits| && visits[i].ct == ct
  {
    hide TargetsChanges, VisitsChanges;
    changes, visits := [], [];
    var pending := content.Keys;
    NoVisits(content);
    while pending != {}
      invariant pending <= content.Keys
      invariant ValidVisits(visits, content) && changes == VisitsChanges(visits, content)
      invariant forall i :: 0 <= i < |visits| ==> visits[i].ct !in pending
      invariant forall ct :: ct in content && ct !in pending ==> exists i :: 0 <= i < |visits| && visits[i].ct == ct
    {
      var ct :| ct in pending;
      var targets;
      ghost var dts;
      targets, dts := WriteTargets(ct, content[ct]);
      NextVisit(visits, Visit(ct, dts), content);
      changes := changes + targets;
      changes := changes + [ReadmeChange(ct)];
      visits := visits + [Visit(ct, dts)];
      pending := pending - {ct};
    }
  }

  lemma NoVisits(content: ClusterTypes)
    ensures ValidVisits([], content) && VisitsChanges([], content) == []
  {
  }

  lemma NextVisit(visits: seq<Visit>, v: Visit, content: ClusterTypes)
    requires ValidVisits(visits, content) && Complete(v, content)
    requires forall i :: 0 <= i < |visits| ==> visits[i].ct != v.ct
    ensures var longer := visits + [v];
            ValidVisits(longer, content)
            && VisitsChanges(longer, content) ==
               (VisitsChanges(visits, content) + TargetsChanges(v.ct, content[v.ct], v.dts)) + [ReadmeChange(v.ct)]
            && (forall i :: 0 <= i < |visits| ==> longer[i].ct == visits[i].ct) && longer[|visits|].ct == v.ct
  {
    var longer := visits + [v];
    assert longer[..|visits|] == visits && longer[|visits|] == v;
  }

  method WriteTargets(ct: string, targets: map<string, PackageSpec>)
    returns (changes: seq<Change>, ghost dts: seq<string>)
    ensures forall dt :: dt in dts <==> dt in targets
    ensures forall i, j :: 0 <= i < j < |dts| ==> dts[i] != dts[j]
    ensures changes == TargetsChanges(ct, targets, dts)
  {
    changes, dts := [], [];
    var pending := targets.Keys;
    while pending != {}
      invariant pending <= targets.Keys
      invariant forall dt :: dt in dts <==> dt in targets && dt !in pending
      invariant forall i, j :: 0 <= i < j < |dts| ==> dts[i] != dts[j]
      invariant changes == TargetsChanges(ct, targets, dts)
    {
      var dt :| dt in pending;
      var added := WriteTarget(ct, dt, targets[dt]);
      assert (dts + [dt])[..|dts|] == dts;
      changes := changes + added;
      dts := dts + [dt];
      pending := pending - {dt};
    }
  }

  method WriteTarget(ct: string, dt: string, spec: PackageSpec) returns (changes: seq<Change>)
    ensures changes == TargetChanges(ct, dt, spec)
  {
    changes := [];
    var path := ct + "/" + dt;
    var reconcilerManifests := GetManifestsYamlString(spec.reconcilerManifests);
    changes := changes + [Write(path + "/" + FileName("reconciler", spec.reconcilerContentType), reconcilerManifests)];
    var namespaceManifests := GetManifestsYamlString(spec.namespaceManifests);
    changes := changes + [Write(path + "/" + FileName("namespace", spec.namespaceContentType), namespaceManifests)];
    var configManifests := GetManifestsYamlString(spec.configManifests);
    if configManifests != "" {
      changes := changes + [Write(path + "/" + FileName("platform-config", spec.configContentType), configManifests)];
    }
  }
}
