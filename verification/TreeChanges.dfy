/** The changes that publishing makes to the tree of the GitOps repository: what is deleted and what is written. */
module TreeChanges {
  import opened Api
  import opened Basics
  import opened Text
  import opened Manifests
  import opened RepoContents

  const README := "README.md"
  const README_CONTENT := "This folder contains deployment targets scheduled on the cluster type"
  const TRACKING := ".github/tracking/Promoted_Commit_Id"

  /** An entry of the listed base tree; only blobs have content of their own. */
  datatype Entry = Entry(path: string, kind: string, content: string)

  datatype Change = Delete(path: string) | Write(path: string, content: string)

  /** The files of a tree: content by path. */
  type Tree = map<string, string>

  function Files(entries: seq<Entry>): Tree {
    if entries == [] then map[]
    else
      var e := entries[|entries| - 1];
      var rest := Files(entries[..|entries| - 1]);
      if e.kind == "blob" then rest[e.path := e.content] else rest
  }

  predicate DistinctEntries(entries: seq<Entry>) {
    forall i, j :: 0 <= i < j < |entries| ==> entries[i].path != entries[j].path
  }

  /** What GitHub does with the changes, in order. */
  function Apply(tree: Tree, changes: seq<Change>): Tree {
    if changes == [] then tree
    else
      var before := Apply(tree, changes[..|changes| - 1]);
      match changes[|changes| - 1]
      case Delete(p) => before - {p}
      case Write(p, c) => before[p := c]
  }

  predicate DistinctPaths(changes: seq<Change>) {
    forall i, j :: 0 <= i < j < |changes| ==> changes[i].path != changes[j].path
  }

  function FileAt(tree: Tree, p: string): Option<string> {
    if p in tree then Some(tree[p]) else None
  }

  // ----- What is deleted and what is written -----

  function Parts(path: string): (parts: seq<string>)
    ensures parts != []
  {
    Split(path, "/")
  }

  /** The file lies in a folder that is not hidden. */
  predicate InOpenFolder(path: string) {
    var parts := Parts(path);
    |parts| > 1 && !HasPrefix(parts[0], ".")
  }

  /** The file belongs to a cluster type or target that is no longer there. */
  predicate Obsolete(content: ClusterTypes, path: string) {
    InOpenFolder(path)
    && var parts := Parts(path);
       parts[0] !in content || (parts[1] != README && parts[1] !in content[parts[0]])
  }

  function FileName(base: string, contentType: string): string {
    base + "." + if contentType == "sh" then "sh" else "yaml"
  }

  /** The generated files of one target, by file name. */
  function TargetFile(spec: PackageSpec, file: string): Option<string> {
    if file == FileName("reconciler", spec.reconcilerContentType) then Some(Yaml(spec.reconcilerManifests))
    else if file == FileName("namespace", spec.namespaceContentType) then Some(Yaml(spec.namespaceManifests))
    else if file == FileName("platform-config", spec.configContentType) && Yaml(spec.configManifests) != "" then
      Some(Yaml(spec.configManifests))
    else None
  }

  /** The generated content of a path, if any. */
  function Generated(content: ClusterTypes, path: string): Option<string> {
    var parts := Parts(path);
    if parts[0] !in content then None
    else if |parts| == 2 && parts[1] == README then Some(README_CONTENT)
    else if |parts| == 3 && parts[1] in content[parts[0]] then TargetFile(content[parts[0]][parts[1]], parts[2])
    else None
  }

  predicate Promotes(base: Tree, content: RepoContent) {
    content.baseRepo.commit != "" && FileAt(base, TRACKING) != Some(content.baseRepo.commit)
  }

  /** Names of cluster types and targets contain no slash. */
  predicate SlashFree(content: ClusterTypes) {
    forall ct :: ct in content ==> '/' !in ct && forall dt :: dt in content[ct] ==> '/' !in dt
  }

  /** The changes are exactly the obsolete deletes, the generated writes, and the tracking file if there is a
      promotion. */
  ghost predicate ExactChanges(changes: seq<Change>, base: Tree, content: RepoContent) {
    (forall p :: Delete(p) in changes <==> p in base && Obsolete(content.clusterTypes, p))
    && (forall p, c :: Write(p, c) in changes <==>
                       Generated(content.clusterTypes, p) == Some(c)
                       || (p == TRACKING && Promotes(base, content) && c == content.baseRepo.commit))
  }

  // ----- Paths -----

  lemma JoinThree(a: string, b: string, c: string)
    ensures Join([a, b, c], "/") == a + "/" + b + "/" + c
  {
    assert [a, b, c][1..] == [b, c] && [b, c][1..] == [c];
    assert Join([b, c], "/") == b + "/" + c;
    assert a + "/" + (b + "/" + c) == a + "/" + b + "/" + c;
  }

  lemma PartsOfTarget(ct: string, dt: string, file: string)
    requires '/' !in ct && '/' !in dt && '/' !in file
    ensures Parts(ct + "/" + dt + "/" + file) == [ct, dt, file]
  {
    SingleSeparator(ct, '/');
    SingleSeparator(dt, '/');
    SingleSeparator(file, '/');
    SplitJoin([ct, dt, file], "/");
    JoinThree(ct, dt, file);
  }

  lemma PartsOfReadme(ct: string)
    requires '/' !in ct
    ensures Parts(ct + "/" + README) == [ct, README]
  {
    SingleSeparator(ct, '/');
    SingleSeparator(README, '/');
    SplitJoin([ct, README], "/");
    assert [ct, README][1..] == [README];
  }

  lemma PathOfParts(path: string)
    ensures |Parts(path)| == 3 ==> path == Parts(path)[0] + "/" + Parts(path)[1] + "/" + Parts(path)[2]
    ensures |Parts(path)| == 2 ==> path == Parts(path)[0] + "/" + Parts(path)[1]
  {
    JoinSplit(path, "/");
    var parts := Parts(path);
    if |parts| == 3 {
      assert parts == [parts[0], parts[1], parts[2]];
      JoinThree(parts[0], parts[1], parts[2]);
    } else if |parts| == 2 {
      assert parts[1..] == [parts[1]];
    }
  }

  lemma TrackingPath()
    ensures TRACKING == ".github" + "/" + "tracking" + "/" + "Promoted_Commit_Id"
  {
  }

  lemma PartsOfTracking()
    ensures Parts(TRACKING) == [".github", "tracking", "Promoted_Commit_Id"]
  {
    hide Parts;
    TrackingPath();
    PartsOfTarget(".github", "tracking", "Promoted_Commit_Id");
  }

  // ----- The changes in the order in which they are made -----

  function Deletes(entries: seq<Entry>, content: ClusterTypes): seq<Change> {
    if entries == [] then []
    else
      var e := entries[|entries| - 1];
      Deletes(entries[..|entries| - 1], content) + if e.kind == "blob"
        && Obsolete(content, e.path) then [Delete(e.path)] else []
  }

  function TargetChanges(ct: string, dt: string, spec: PackageSpec): seq<Change> {
    var path := ct + "/" + dt;
    [Write(path + "/" + FileName("reconciler", spec.reconcilerContentType), Yaml(spec.reconcilerManifests)),
     Write(path + "/" + FileName("namespace", spec.namespaceContentType), Yaml(spec.namespaceManifests))]
    + if Yaml(spec.configManifests) != "" then
        [Write(path + "/" + FileName("platform-config", spec.configContentType), Yaml(spec.configManifests))]
      else []
  }

  function TargetsChanges(ct: string, targets: map<string, PackageSpec>, dts: seq<string>): seq<Change>
    requires forall i :: 0 <= i < |dts| ==> dts[i] in targets
  {
    if dts == [] then []
    else
      var dt := dts[|dts| - 1];
      TargetsChanges(ct, targets, dts[..|dts| - 1]) + TargetChanges(ct, dt, targets[dt])
  }

  /** A cluster type and its targets in the order in which they are visited. */
  datatype Visit = Visit(ct: string, dts: seq<string>)

  ghost predicate Complete(v: Visit, content: ClusterTypes) {
    v.ct in content
    && (forall dt :: dt in v.dts <==> dt in content[v.ct])
    && forall i, j :: 0 <= i < j < |v.dts| ==> v.dts[i] != v.dts[j]
  }

  ghost predicate ValidVisits(visits: seq<Visit>, content: ClusterTypes) {
    (forall i :: 0 <= i < |visits| ==> Complete(visits[i], content))
    && forall i, j :: 0 <= i < j < |visits| ==> visits[i].ct != visits[j].ct
  }

  function ReadmeChange(ct: string): Change {
    Write(ct + "/" + README, README_CONTENT)
  }

  ghost function VisitsChanges(visits: seq<Visit>, content: ClusterTypes): seq<Change>
    requires ValidVisits(visits, content)
  {
    if visits == [] then []
    else
      var v := visits[|visits| - 1];
      VisitsChanges(visits[..|visits| - 1], content) + VisitChanges(v, content)
  }

  ghost function VisitChanges(v: Visit, content: ClusterTypes): seq<Change>
    requires Complete(v, content)
  {
    TargetsChanges(v.ct, content[v.ct], v.dts) + [ReadmeChange(v.ct)]
  }

  // ----- The base tree -----

  lemma {:induction false} FilesExact(entries: seq<Entry>, p: string)
    requires DistinctEntries(entries)
    ensures p in Files(entries) <==> exists i :: 0 <= i < |entries| && entries[i].kind == "blob" && entries[i].path == p
  {
    if entries == [] {
    } else {
      var n := |entries| - 1;
      FilesExact(entries[..n], p);
      if i :| 0 <= i < n && entries[..n][i].kind == "blob" && entries[..n][i].path == p {
        assert entries[i].path == p;
      }
    }
  }

  lemma {:induction false} FileOfEntry(entries: seq<Entry>, i: nat)
    requires DistinctEntries(entries) && i < |entries| && entries[i].kind == "blob"
    ensures FileAt(Files(entries), entries[i].path) == Some(entries[i].content)
  {
    var n := |entries| - 1;
    if i < n {
      FileOfEntry(entries[..n], i);
    }
  }

  // ----- The changes are exact, and touch each path once -----

  lemma DistinctConcat(a: seq<Change>, b: seq<Change>)
    requires DistinctPaths(a) && DistinctPaths(b)
    requires forall x, y :: x in a && y in b ==> x.path != y.path
    ensures DistinctPaths(a + b)
  {
  }

  lemma {:induction false} DeleteOrigin(entries: seq<Entry>, content: ClusterTypes, c: Change) returns (i: nat)
    requires c in Deletes(entries, content)
    ensures i < |entries| && entries[i].kind == "blob" && Obsolete(content, entries[i].path)
    ensures c == Delete(entries[i].path)
  {
    hide Obsolete;
    i := |entries| - 1;
    if c in Deletes(entries[..i], content) {
      i := DeleteOrigin(entries[..i], content, c);
    }
  }

  lemma {:induction false} DeleteMade(entries: seq<Entry>, content: ClusterTypes, i: nat)
    requires i < |entries| && entries[i].kind == "blob" && Obsolete(content, entries[i].path)
    ensures Delete(entries[i].path) in Deletes(entries, content)
  {
    hide Obsolete;
    if i < |entries| - 1 {
      DeleteMade(entries[..|entries| - 1], content, i);
    }
  }

  lemma {:induction false} DeletesDistinct(entries: seq<Entry>, content: ClusterTypes)
    requires DistinctEntries(entries)
    ensures DistinctPaths(Deletes(entries, content))
  {
    hide Obsolete;
    if entries == [] {
    } else {
      var n := |entries| - 1;
      var front, e := entries[..n], entries[n];
      DeletesDistinct(front, content);
      forall c | c in Deletes(front, content)
        ensures c.path != e.path
      {
        var i := DeleteOrigin(front, content, c);
        assert entries[i] == front[i];
      }
      var last := if e.kind == "blob" && Obsolete(content, e.path) then [Delete(e.path)] else [];
      DistinctConcat(Deletes(front, content), last);
    }
  }

  /** The deletes are exactly those of the obsolete files. */
  lemma DeletesExact(entries: seq<Entry>, content: ClusterTypes)
    requires DistinctEntries(entries)
    ensures forall c :: c in Deletes(entries, content) ==>
              c.Delete? && Obsolete(content, c.path)
              && exists i :: 0 <= i < |entries| && entries[i].kind == "blob" && entries[i].path == c.path
    ensures forall i :: 0 <= i < |entries| && entries[i].kind == "blob" && Obsolete(content, entries[i].path) ==>
              Delete(entries[i].path) in Deletes(entries, content)
    ensures DistinctPaths(Deletes(entries, content))
  {
    hide Obsolete, Deletes;
    forall c | c in Deletes(entries, content)
      ensures c.Delete? && Obsolete(content, c.path)
      ensures exists i :: 0 <= i < |entries| && entries[i].kind == "blob" && entries[i].path == c.path
    {
      var i := DeleteOrigin(entries, content, c);
    }
    forall i | 0 <= i < |entries| && entries[i].kind == "blob" && Obsolete(content, entries[i].path)
      ensures Delete(entries[i].path) in Deletes(entries, content)
    {
      DeleteMade(entries, content, i);
    }
    DeletesDistinct(entries, content);
  }

  lemma FileNames(t: string)
    ensures FileName("reconciler", t)[0] == 'r' && FileName("namespace", t)[0] == 'n'
            && FileName("platform-config", t)[0] == 'p'
    ensures '/' !in FileName("reconciler", t) && '/' !in FileName("namespace", t)
            && '/' !in FileName("platform-config", t)
  {
  }

  /** `c` writes a generated file of the target. */
  predicate WritesTarget(c: Change, ct: string, dt: string, spec: PackageSpec) {
    c.Write? && var parts := Parts(c.path);
                |parts| == 3 && parts[0] == ct && parts[1] == dt && TargetFile(spec, parts[2]) == Some(c.content)
  }

  lemma TargetChangesExact(ct: string, dt: string, spec: PackageSpec)
    requires '/' !in ct && '/' !in dt
    ensures forall c :: c in TargetChanges(ct, dt, spec) ==> WritesTarget(c, ct, dt, spec)
    ensures forall file :: TargetFile(spec, file).Some? ==>
              Write(ct + "/" + dt + "/" + file, TargetFile(spec, file).value) in TargetChanges(ct, dt, spec)
    ensures DistinctPaths(TargetChanges(ct, dt, spec))
  {
    var r, n, p := FileName("reconciler", spec.reconcilerContentType), FileName("namespace", spec.namespaceContentType),
                   FileName("platform-config", spec.configContentType);
    FileNames(spec.reconcilerContentType);
    FileNames(spec.namespaceContentType);
    FileNames(spec.configContentType);
    PartsOfTarget(ct, dt, r);
    PartsOfTarget(ct, dt, n);
    PartsOfTarget(ct, dt, p);
    hide Parts, Yaml, FileName;
    var changes := TargetChanges(ct, dt, spec);
    assert changes[0] == Write(ct + "/" + dt + "/" + r, Yaml(spec.reconcilerManifests));
    assert changes[1] == Write(ct + "/" + dt + "/" + n, Yaml(spec.namespaceManifests));
    assert |changes| == 3 ==> changes[2] == Write(ct + "/" + dt + "/" + p, Yaml(spec.configManifests));
  }

  predicate WritesSomeTarget(c: Change, ct: string, targets: map<string, PackageSpec>, dts: seq<string>) {
    exists dt :: dt in dts && dt in targets && WritesTarget(c, ct, dt, targets[dt])
  }

  lemma {:induction false} TargetsChangesExact(ct: string, targets: map<string, PackageSpec>, dts: seq<string>)
    requires '/' !in ct && forall i :: 0 <= i < |dts| ==> dts[i] in targets && '/' !in dts[i]
    requires forall i, j :: 0 <= i < j < |dts| ==> dts[i] != dts[j]
    ensures forall c :: c in TargetsChanges(ct, targets, dts) ==> WritesSomeTarget(c, ct, targets, dts)
    ensures forall i, file :: 0 <= i < |dts| && TargetFile(targets[dts[i]], file).Some? ==>
              Write(ct + "/" + dts[i] + "/" + file, TargetFile(targets[dts[i]], file).value) in TargetsChanges(ct,
                targets, dts)
    ensures DistinctPaths(TargetsChanges(ct, targets, dts))
  {
    hide TargetFile, TargetChanges, Parts;
    if dts == [] {
    } else {
      var n := |dts| - 1;
      var front, dt := dts[..n], dts[n];
      TargetsChangesExact(ct, targets, front);
      TargetChangesExact(ct, dt, targets[dt]);
      var before, added := TargetsChanges(ct, targets, front), TargetChanges(ct, dt, targets[dt]);
      forall c | c in before
        ensures WritesSomeTarget(c, ct, targets, dts) && Parts(c.path)[1] != dt
      {
        var d :| d in front && d in targets && WritesTarget(c, ct, d, targets[d]);
        assert d in dts;
      }
      forall c | c in added
        ensures WritesSomeTarget(c, ct, targets, dts) && Parts(c.path)[1] == dt
      {
        assert WritesTarget(c, ct, dt, targets[dt]);
      }
      DistinctConcat(before, added);
      forall i, file | 0 <= i < n && TargetFile(targets[dts[i]], file).Some?
        ensures Write(ct + "/" + dts[i] + "/" + file, TargetFile(targets[dts[i]], file).value) in before
      {
        assert front[i] == dts[i];
      }
    }
  }

  /** The change writes a generated file under the cluster type. */
  predicate WritesGenerated(c: Change, content: ClusterTypes, ct: string) {
    c.Write? && Parts(c.path)[0] == ct && Generated(content, c.path) == Some(c.content)
  }

  /** Everything written for one cluster type is generated, once. */
  lemma VisitSound(v: Visit, content: ClusterTypes)
    requires SlashFree(content) && Complete(v, content)
    ensures forall c :: c in VisitChanges(v, content) ==> WritesGenerated(c, content, v.ct)
    ensures DistinctPaths(VisitChanges(v, content))
  {
    var targets := content[v.ct];
    TargetsChangesExact(v.ct, targets, v.dts);
    PartsOfReadme(v.ct);
    hide Parts, TargetFile, TargetsChanges, Generated, WritesSomeTarget;
    var written := TargetsChanges(v.ct, targets, v.dts);
    forall c | c in written
      ensures WritesGenerated(c, content, v.ct) && |Parts(c.path)| == 3
    {
      TargetGenerated(c, v.ct, content, v.dts);
    }
    ReadmeGenerated(v.ct, content);
    DistinctConcat(written, [ReadmeChange(v.ct)]);
  }

  lemma TargetGenerated(c: Change, ct: string, content: ClusterTypes, dts: seq<string>)
    requires ct in content && WritesSomeTarget(c, ct, content[ct], dts)
    ensures WritesGenerated(c, content, ct) && |Parts(c.path)| == 3
  {
    hide Parts, TargetFile;
    var dt :| dt in dts && dt in content[ct] && WritesTarget(c, ct, dt, content[ct][dt]);
  }

  lemma ReadmeGenerated(ct: string, content: ClusterTypes)
    requires '/' !in ct && ct in content
    ensures WritesGenerated(ReadmeChange(ct), content, ct)
  {
    PartsOfReadme(ct);
  }

  /** Everything generated for one cluster type is written. */
  lemma VisitComplete(v: Visit, content: ClusterTypes, p: string)
    requires SlashFree(content) && Complete(v, content)
    requires Parts(p)[0] == v.ct && Generated(content, p).Some?
    ensures Write(p, Generated(content, p).value) in VisitChanges(v, content)
  {
    var targets := content[v.ct];
    TargetsChangesExact(v.ct, targets, v.dts);
    PathOfParts(p);
    hide Parts, TargetFile, TargetsChanges;
    if |Parts(p)| == 3 {
      var i :| 0 <= i < |v.dts| && v.dts[i] == Parts(p)[1];
      assert TargetFile(targets[v.dts[i]], Parts(p)[2]).Some?;
    }
  }

  lemma {:induction false} VisitsChangesExact(visits: seq<Visit>, content: ClusterTypes)
    requires SlashFree(content) && ValidVisits(visits, content)
    ensures forall c :: c in VisitsChanges(visits, content) ==>
              exists i :: 0 <= i < |visits| && WritesGenerated(c, content, visits[i].ct)
    ensures forall i, p :: 0 <= i < |visits| && Parts(p)[0] == visits[i].ct && Generated(content, p).Some? ==>
              Write(p, Generated(content, p).value) in VisitsChanges(visits, content)
    ensures DistinctPaths(VisitsChanges(visits, content))
  {
    hide Parts, Generated, VisitChanges;
    if visits == [] {
    } else {
      var n := |visits| - 1;
      var front, v := visits[..n], visits[n];
      VisitsChangesExact(front, content);
      VisitSound(v, content);
      var before, added := VisitsChanges(front, content), VisitChanges(v, content);
      forall c | c in before
        ensures Parts(c.path)[0] != v.ct && exists i :: 0 <= i < |visits| && WritesGenerated(c, content, visits[i].ct)
      {
        var i :| 0 <= i < n && WritesGenerated(c, content, front[i].ct);
        assert visits[i] == front[i];
      }
      forall c | c in added
        ensures exists i :: 0 <= i < |visits| && WritesGenerated(c, content, visits[i].ct)
      {
        assert WritesGenerated(c, content, visits[n].ct);
      }
      DistinctConcat(before, added);
      forall i, p | 0 <= i < |visits| && Parts(p)[0] == visits[i].ct && Generated(content, p).Some?
        ensures Write(p, Generated(content, p).value) in before + added
      {
        if i < n {
          assert front[i] == visits[i];
        } else {
          VisitComplete(v, content, p);
        }
      }
    }
  }

  lemma GeneratedIsNotObsolete(content: ClusterTypes, p: string)
    requires Generated(content, p).Some?
    ensures !Obsolete(content, p)
  {
  }

  lemma TrackingIsSeparate(content: ClusterTypes)
    ensures Generated(content, TRACKING).None? && !InOpenFolder(TRACKING) && !Obsolete(content, TRACKING)
  {
    PartsOfTracking();
    hide Parts;
    if ".github" in content && "tracking" in content[".github"] {
      var spec := content[".github"]["tracking"];
      FileNames(spec.reconcilerContentType);
      FileNames(spec.namespaceContentType);
      FileNames(spec.configContentType);
      assert "Promoted_Commit_Id"[0] == 'P';
    }
  }

  lemma AllChangesExact(entries: seq<Entry>, content: RepoContent, commit: seq<Change>, visits: seq<Visit>)
    requires DistinctEntries(entries) && SlashFree(content.clusterTypes) && ValidVisits(visits, content.clusterTypes)
    requires forall ct :: ct in content.clusterTypes ==> exists i :: 0 <= i < |visits| && visits[i].ct == ct
    requires commit == if Promotes(Files(entries), content) then [Write(TRACKING, content.baseRepo.commit)] else []
    ensures var changes := Deletes(entries, content.clusterTypes) + commit + VisitsChanges(visits,
            content.clusterTypes);
            DistinctPaths(changes) && ExactChanges(changes, Files(entries), content)
  {
    var cts := content.clusterTypes;
    var deletes, writes := Deletes(entries, cts), VisitsChanges(visits, cts);
    DeletesExact(entries, cts);
    DeletesMatch(entries, cts);
    WritesExact(visits, cts);
    TrackingIsSeparate(cts);
    hide *;
    Assemble(deletes, commit, writes, Files(entries), content);
  }

  lemma DeletesMatch(entries: seq<Entry>, content: ClusterTypes)
    requires DistinctEntries(entries)
    ensures forall p :: Delete(p) in Deletes(entries, content) <==> p in Files(entries) && Obsolete(content, p)
  {
    DeletesExact(entries, content);
    hide Deletes, Obsolete, Files;
    forall p
      ensures Delete(p) in Deletes(entries, content) <==> p in Files(entries) && Obsolete(content, p)
    {
      FilesExact(entries, p);
    }
  }

  lemma Assemble(deletes: seq<Change>, commit: seq<Change>, writes: seq<Change>, base: Tree, content: RepoContent)
    requires DistinctPaths(deletes) && DistinctPaths(writes)
    requires forall c :: c in deletes ==> c.Delete? && Obsolete(content.clusterTypes, c.path)
    requires forall p :: Delete(p) in deletes <==> p in base && Obsolete(content.clusterTypes, p)
    requires forall c :: c in writes ==>
               c.Write? && Generated(content.clusterTypes, c.path) == Some(c.content)
                 && !Obsolete(content.clusterTypes, c.path)
    requires forall p :: Generated(content.clusterTypes, p).Some? ==>
            Write(p, Generated(content.clusterTypes, p).value) in writes
    requires commit == if Promotes(base, content) then [Write(TRACKING, content.baseRepo.commit)] else []
    requires Generated(content.clusterTypes, TRACKING).None? && !Obsolete(content.clusterTypes, TRACKING)
    ensures DistinctPaths(deletes + commit + writes) && ExactChanges(deletes + commit + writes, base, content)
  {
    hide Generated, Obsolete, Promotes, DistinctPaths;
    assert DistinctPaths(commit) by { AtMostOne(commit); }
    DistinctConcat(deletes, commit);
    DistinctConcat(deletes + commit, writes);
  }

  lemma AtMostOne(changes: seq<Change>)
    requires |changes| <= 1
    ensures DistinctPaths(changes)
  {
  }

  lemma WritesExact(visits: seq<Visit>, content: ClusterTypes)
    requires SlashFree(content) && ValidVisits(visits, content)
    requires forall ct :: ct in content ==> exists i :: 0 <= i < |visits| && visits[i].ct == ct
    ensures forall c :: c in VisitsChanges(visits, content) ==>
              c.Write? && Generated(content, c.path) == Some(c.content) && !Obsolete(content, c.path)
    ensures forall p :: Generated(content, p).Some? ==>
            Write(p, Generated(content, p).value) in VisitsChanges(visits, content)
    ensures DistinctPaths(VisitsChanges(visits, content))
  {
    var writes := VisitsChanges(visits, content);
    VisitsChangesExact(visits, content);
    hide VisitsChanges, Parts;
    forall c | c in writes
      ensures c.Write? && Generated(content, c.path) == Some(c.content) && !Obsolete(content, c.path)
    {
      var i :| 0 <= i < |visits| && WritesGenerated(c, content, visits[i].ct);
      GeneratedIsNotObsolete(content, c.path);
    }
    forall p | Generated(content, p).Some?
      ensures Write(p, Generated(content, p).value) in writes
    {
      assert Parts(p)[0] in content;
      var i :| 0 <= i < |visits| && visits[i].ct == Parts(p)[0];
    }
  }
}
