/** The published tree: what the changes make of the base tree, and why publishing again changes nothing. */
module PublishedTree {
  import opened Api
  import opened Basics
  import opened Text
  import opened Manifests
  import opened RepoContents
  import opened TreeChanges

  /** What a path holds after publishing. */
  function PublishedAt(base: Tree, content: RepoContent, p: string): Option<string> {
    if Generated(content.clusterTypes, p).Some? then Generated(content.clusterTypes, p)
    else if p == TRACKING && Promotes(base, content) then Some(content.baseRepo.commit)
    else if Obsolete(content.clusterTypes, p) then None
    else FileAt(base, p)
  }

  ghost predicate Published(base: Tree, content: RepoContent, tree: Tree) {
    forall p :: FileAt(tree, p) == PublishedAt(base, content, p)
  }

  /** Some file lies in the top-level folder. */
  ghost predicate HasFolder(tree: Tree, folder: string) {
    exists p :: p in tree && |Parts(p)| > 1 && Parts(p)[0] == folder
  }

  /** The top-level folder has an entry of this name. */
  ghost predicate HasEntry(tree: Tree, folder: string, name: string) {
    exists p :: p in tree && |Parts(p)| > 1 && Parts(p)[0] == folder && Parts(p)[1] == name
  }

  predicate NoHiddenNames(content: ClusterTypes) {
    forall ct :: ct in content ==> !HasPrefix(ct, ".")
  }

  // ----- Applying the changes -----

  /** Changes to distinct paths act on each path alone, whatever their order. */
  lemma {:induction false} ApplyExact(tree: Tree, changes: seq<Change>, p: string)
    requires DistinctPaths(changes)
    ensures forall c :: Write(p, c) in changes ==> FileAt(Apply(tree, changes), p) == Some(c)
    ensures Delete(p) in changes ==> FileAt(Apply(tree, changes), p) == None
    ensures (forall x :: x in changes ==> x.path != p) ==> FileAt(Apply(tree, changes), p) == FileAt(tree, p)
  {
    if changes == [] {
    } else {
      var n := |changes| - 1;
      var front, last := changes[..n], changes[n];
      ApplyExact(tree, front, p);
      ApplyLast(tree, changes, p);
      assert changes == front + [last];
      assert last.path == p ==> forall x :: x in front ==> x.path != p;
      hide Apply, FileAt, DistinctPaths;
    }
  }

  lemma ApplyLast(tree: Tree, changes: seq<Change>, p: string)
    requires changes != []
    ensures var front, last := changes[..|changes| - 1], changes[|changes| - 1];
            FileAt(Apply(tree, changes), p) ==
            if last.path != p then FileAt(Apply(tree, front), p) else if last.Delete? then None
              else Some(last.content)
  {
  }

  /** The exact changes turn the base tree into the published one. */
  lemma ChangesPublish(base: Tree, content: RepoContent, changes: seq<Change>)
    requires DistinctPaths(changes) && ExactChanges(changes, base, content)
    ensures Published(base, content, Apply(base, changes))
  {
    forall p
      ensures FileAt(Apply(base, changes), p) == PublishedAt(base, content, p)
    {
      ChangesPublishPath(base, content, changes, p);
    }
  }

  lemma ChangesPublishPath(base: Tree, content: RepoContent, changes: seq<Change>, p: string)
    requires DistinctPaths(changes) && ExactChanges(changes, base, content)
    ensures FileAt(Apply(base, changes), p) == PublishedAt(base, content, p)
  {
    ApplyExact(base, changes, p);
    TrackingIsSeparate(content.clusterTypes);
    hide Generated, Obsolete, Promotes, Apply, DistinctPaths;
    var cts := content.clusterTypes;
    if Generated(cts, p).Some? {
      assert Write(p, Generated(cts, p).value) in changes;
    } else if p == TRACKING && Promotes(base, content) {
      assert Write(p, content.baseRepo.commit) in changes;
    } else if p in base && Obsolete(cts, p) {
      assert Delete(p) in changes;
    } else {
      forall x | x in changes
        ensures x.path != p
      {
        match x {
          case Delete(q) =>
          case Write(q, c) => assert Write(q, c) in changes;
        }
      }
    }
  }

  /** Two published trees agree, so the order in which the changes were made is irrelevant. */
  lemma OrderIrrelevant(base: Tree, content: RepoContent, a: seq<Change>, b: seq<Change>)
    requires DistinctPaths(a) && ExactChanges(a, base, content)
    requires DistinctPaths(b) && ExactChanges(b, base, content)
    ensures Apply(base, a) == Apply(base, b)
  {
    ChangesPublish(base, content, a);
    ChangesPublish(base, content, b);
    hide PublishedAt, ExactChanges, DistinctPaths, Apply;
    SameTree(Apply(base, a), Apply(base, b));
  }

  lemma SameTree(a: Tree, b: Tree)
    requires forall p :: FileAt(a, p) == FileAt(b, p)
    ensures a == b
  {
    forall p
      ensures p in a <==> p in b
      ensures p in a && p in b ==> a[p] == b[p]
    {
      assert FileAt(a, p) == FileAt(b, p);
    }
  }

  // ----- Folders -----

  /** The open top-level folders are exactly the cluster types. */
  lemma TopFoldersExact(base: Tree, content: RepoContent, tree: Tree, folder: string)
    requires SlashFree(content.clusterTypes) && Published(base, content, tree) && !HasPrefix(folder, ".")
    ensures HasFolder(tree, folder) <==> folder in content.clusterTypes
  {
    var cts := content.clusterTypes;
    if folder in cts {
      ReadmePublished(base, content, tree, folder);
    } else if HasFolder(tree, folder) {
      var p :| p in tree && |Parts(p)| > 1 && Parts(p)[0] == folder;
      PartsOfTracking();
      hide Parts;
      assert FileAt(tree, p) == PublishedAt(base, content, p);
      assert Obsolete(cts, p);
      assert p != TRACKING by {
        assert HasPrefix(".github", ".");
      }
      assert false;
    }
  }

  /** Every cluster type has its README. */
  lemma ReadmePublished(base: Tree, content: RepoContent, tree: Tree, ct: string)
    requires SlashFree(content.clusterTypes) && Published(base, content, tree) && ct in content.clusterTypes
    ensures HasFolder(tree, ct) && HasEntry(tree, ct, "README.md")
    ensures FileAt(tree, ct + "/README.md") ==
            Some("This folder contains deployment targets scheduled on the cluster type")
  {
    var p := ct + "/" + README;
    assert p == ct + "/README.md";
    PartsOfReadme(ct);
    hide Parts;
    assert FileAt(tree, p) == PublishedAt(base, content, p);
    assert p in tree && Parts(p)[0] == ct && Parts(p)[1] == README;
  }

  /** The entries of a cluster type's folder, apart from its README, are exactly its targets. */
  lemma TargetFoldersExact(base: Tree, content: RepoContent, tree: Tree, ct: string, name: string)
    requires SlashFree(content.clusterTypes) && Published(base, content, tree)
    requires !HasPrefix(ct, ".") && name != README
    ensures HasEntry(tree, ct, name) <==> ct in content.clusterTypes && name in content.clusterTypes[ct]
  {
    var cts := content.clusterTypes;
    if ct in cts && name in cts[ct] {
      TargetPublished(base, content, tree, ct, name);
    } else if HasEntry(tree, ct, name) {
      var p :| p in tree && |Parts(p)| > 1 && Parts(p)[0] == ct && Parts(p)[1] == name;
      PartsOfTracking();
      hide Parts;
      assert FileAt(tree, p) == PublishedAt(base, content, p);
      assert Obsolete(cts, p);
      assert p != TRACKING by {
        assert HasPrefix(".github", ".");
      }
      assert false;
    }
  }

  /** Environment variables are kept in shell scripts, everything else in YAML files. */
  ghost predicate HoldsFile(tree: Tree, file: string, contentType: string, text: string) {
    FileAt(tree, if contentType == "sh" then file + ".sh" else file + ".yaml") == Some(text)
  }

  /** The tree holds the manifests of the package in the target's folder; an empty configuration has no file. */
  ghost predicate HoldsPackage(tree: Tree, ct: string, dt: string, p: PackageSpec) {
    var folder := ct + "/" + dt + "/";
    HoldsFile(tree, folder + "reconciler", p.reconcilerContentType, Yaml(p.reconcilerManifests))
    && HoldsFile(tree, folder + "namespace", p.namespaceContentType, Yaml(p.namespaceManifests))
    && (Yaml(p.configManifests) != "" ==>
          HoldsFile(tree, folder + "platform-config", p.configContentType, Yaml(p.configManifests)))
  }

  /** Each target of the content has all its manifests in the published tree. */
  lemma TargetPublished(base: Tree, content: RepoContent, tree: Tree, ct: string, dt: string)
    requires SlashFree(content.clusterTypes) && Published(base, content, tree)
    requires ct in content.clusterTypes && dt in content.clusterTypes[ct]
    ensures HoldsPackage(tree, ct, dt, content.clusterTypes[ct][dt])
    ensures HasEntry(tree, ct, dt)
  {
    var spec := content.clusterTypes[ct][dt];
    TargetFiles(spec);
    hide TargetFile, FileName, Yaml, HoldsFile, SlashFree, Published;
    FileHeld(base, content, tree, ct, dt, "reconciler", spec.reconcilerContentType);
    FileHeld(base, content, tree, ct, dt, "namespace", spec.namespaceContentType);
    if Yaml(spec.configManifests) != "" {
      FileHeld(base, content, tree, ct, dt, "platform-config", spec.configContentType);
    }
  }

  lemma FileHeld(base: Tree, content: RepoContent, tree: Tree, ct: string, dt: string, file: string,
                 contentType: string)
    requires SlashFree(content.clusterTypes) && Published(base, content, tree)
    requires ct in content.clusterTypes && dt in content.clusterTypes[ct]
    requires '/' !in FileName(file, contentType)
    requires TargetFile(content.clusterTypes[ct][dt], FileName(file, contentType)).Some?
    ensures HoldsFile(tree, ct + "/" + dt + "/" + file, contentType,
                      TargetFile(content.clusterTypes[ct][dt], FileName(file, contentType)).value)
    ensures HasEntry(tree, ct, dt)
  {
    FilePath(ct, dt, file, contentType);
    hide FileName, TargetFile;
    FilePublished(base, content, tree, ct, dt, FileName(file, contentType));
  }

  lemma TargetFiles(spec: PackageSpec)
    ensures var r, n, c := FileName("reconciler", spec.reconcilerContentType),
            FileName("namespace", spec.namespaceContentType),
                           FileName("platform-config", spec.configContentType);
            '/' !in r && '/' !in n && '/' !in c
            && TargetFile(spec, r) == Some(Yaml(spec.reconcilerManifests))
            && TargetFile(spec, n) == Some(Yaml(spec.namespaceManifests))
            && (Yaml(spec.configManifests) != "" ==> TargetFile(spec, c) == Some(Yaml(spec.configManifests)))
  {
    FileNames(spec.reconcilerContentType);
    FileNames(spec.namespaceContentType);
    FileNames(spec.configContentType);
    hide FileName, Yaml;
  }

  lemma FilePublished(base: Tree, content: RepoContent, tree: Tree, ct: string, dt: string, file: string)
    requires SlashFree(content.clusterTypes) && Published(base, content, tree)
    requires ct in content.clusterTypes && dt in content.clusterTypes[ct]
    requires '/' !in file && TargetFile(content.clusterTypes[ct][dt], file).Some?
    ensures FileAt(tree, ct + "/" + dt + "/" + file) == TargetFile(content.clusterTypes[ct][dt], file)
    ensures HasEntry(tree, ct, dt)
  {
    var p := ct + "/" + dt + "/" + file;
    PartsOfTarget(ct, dt, file);
    hide Parts, TargetFile;
    assert FileAt(tree, p) == PublishedAt(base, content, p);
    assert p in tree && Parts(p)[0] == ct && Parts(p)[1] == dt;
  }

  /** `p` is the README of a cluster type, or one of the files of a target. */
  ghost predicate IsReadme(content: ClusterTypes, p: string) {
    exists ct :: ct in content && p == ct + "/README.md"
  }

  predicate IsTargetFile(ct: string, dt: string, spec: PackageSpec, p: string) {
    var folder := ct + "/" + dt + "/";
    p == folder + "reconciler" + (if spec.reconcilerContentType == "sh" then ".sh" else ".yaml")
    || p == folder + "namespace" + (if spec.namespaceContentType == "sh" then ".sh" else ".yaml")
    || (Yaml(spec.configManifests) != ""
        && p == folder + "platform-config" + (if spec.configContentType == "sh" then ".sh" else ".yaml"))
  }

  ghost predicate IsManifest(content: ClusterTypes, p: string) {
    exists ct, dt :: ct in content && dt in content[ct] && IsTargetFile(ct, dt, content[ct][dt], p)
  }

  /** Whatever a published tree holds beyond its base is a README, a manifest of a target, or the tracking file. */
  lemma NothingElsePublished(base: Tree, content: RepoContent, tree: Tree, p: string)
    requires Published(base, content, tree)
    requires p in tree && FileAt(tree, p) != FileAt(base, p)
    ensures IsReadme(content.clusterTypes, p) || IsManifest(content.clusterTypes, p)
            || p == ".github/tracking/Promoted_Commit_Id"
  {
    var cts := content.clusterTypes;
    assert FileAt(tree, p) == PublishedAt(base, content, p);
    if Generated(cts, p).Some? {
      var parts := Parts(p);
      PathOfParts(p);
      hide Parts;
      if |parts| == 2 {
        assert p == parts[0] + "/README.md";
      } else {
        ManifestPath(parts[0], parts[1], parts[2], cts[parts[0]][parts[1]]);
      }
    }
  }

  lemma ManifestPath(ct: string, dt: string, file: string, spec: PackageSpec)
    requires TargetFile(spec, file).Some?
    ensures IsTargetFile(ct, dt, spec, ct + "/" + dt + "/" + file)
  {
    hide Yaml;
    FilePath(ct, dt, "reconciler", spec.reconcilerContentType);
    FilePath(ct, dt, "namespace", spec.namespaceContentType);
    FilePath(ct, dt, "platform-config", spec.configContentType);
    hide FileName;
  }

  lemma FilePath(ct: string, dt: string, file: string, contentType: string)
    ensures ct + "/" + dt + "/" + FileName(file, contentType) ==
            ct + "/" + dt + "/" + file + if contentType == "sh" then ".sh" else ".yaml"
  {
    var extension := if contentType == "sh" then ".sh" else ".yaml";
    assert FileName(file, contentType) == file + extension;
    var folder := ct + "/" + dt + "/";
    assert folder + (file + extension) == folder + file + extension;
  }

  // ----- What stays as it was -----

  /** Files in the root and in hidden folders, apart from the tracking file, are left alone for every base tree exactly
      if no cluster type has a hidden name. */
  lemma HiddenFilesKeptIff(content: RepoContent)
    requires SlashFree(content.clusterTypes)
    ensures (forall base: Tree, p :: !InOpenFolder(p) && p != TRACKING ==>
            PublishedAt(base, content, p) == FileAt(base, p))
            <==> NoHiddenNames(content.clusterTypes)
  {
    var cts := content.clusterTypes;
    if !NoHiddenNames(cts) {
      var ct :| ct in cts && HasPrefix(ct, ".");
      var p := ct + "/" + README;
      PartsOfReadme(ct);
      PartsOfTracking();
      hide Parts;
      assert PublishedAt(map[], content, p) != FileAt(map[], p);
    } else {
      hide Parts;
    }
  }

  /** After publishing, the tracking file names the promoted commit, if there is one. */
  lemma TrackingPublished(base: Tree, content: RepoContent, tree: Tree)
    requires Published(base, content, tree)
    ensures var p := ".github/tracking/Promoted_Commit_Id";
            FileAt(tree, p) == if content.baseRepo.commit != "" then Some(content.baseRepo.commit) else FileAt(base, p)
  {
    TrackingIsSeparate(content.clusterTypes);
    assert FileAt(tree, TRACKING) == PublishedAt(base, content, TRACKING);
  }

  // ----- Publishing again -----

  /** Publishing is a fixed point: a second run with the same content deletes nothing, rewrites what is there and does
      not promote again. */
  lemma PublishAgain(base: Tree, content: RepoContent, tree: Tree, again: seq<Change>)
    requires Published(base, content, tree) && DistinctPaths(again) && ExactChanges(again, tree, content)
    ensures !Promotes(tree, content)
    ensures forall c :: c in again ==> c.Write? && FileAt(tree, c.path) == Some(c.content)
    ensures Apply(tree, again) == tree
  {
    TrackingPublished(base, content, tree);
    TrackingIsSeparate(content.clusterTypes);
    assert !Promotes(tree, content);
    ChangesPublish(tree, content, again);
    hide Generated, Obsolete, Apply, Promotes, DistinctPaths;
    forall c | c in again
      ensures c.Write? && FileAt(tree, c.path) == Some(c.content)
    {
      assert FileAt(tree, c.path) == PublishedAt(base, content, c.path);
      if c.Delete? {
        assert c == Delete(c.path);
        GeneratedOrGone(base, content, tree, c.path);
      } else {
        assert c == Write(c.path, c.content);
      }
    }
    forall p
      ensures FileAt(Apply(tree, again), p) == FileAt(tree, p)
    {
      assert FileAt(tree, p) == PublishedAt(base, content, p);
      assert FileAt(Apply(tree, again), p) == PublishedAt(tree, content, p);
      if Obsolete(content.clusterTypes, p) {
        GeneratedOrGone(base, content, tree, p);
      }
    }
    SameTree(Apply(tree, again), tree);
  }

  lemma GeneratedOrGone(base: Tree, content: RepoContent, tree: Tree, p: string)
    requires Published(base, content, tree) && Obsolete(content.clusterTypes, p)
    ensures p !in tree
  {
    TrackingIsSeparate(content.clusterTypes);
    if Generated(content.clusterTypes, p).Some? {
      GeneratedIsNotObsolete(content.clusterTypes, p);
    }
    hide Generated, Obsolete, Promotes;
    assert FileAt(tree, p) == PublishedAt(base, content, p);
  }

  // ----- Files of an earlier content -----

  /** The base has a file under a target that is still there, but the file is no longer generated. */
  ghost predicate HasLeftover(base: Tree, content: ClusterTypes) {
    exists p :: p in base && InOpenFolder(p) && !Obsolete(content, p) && Generated(content, p).None?
  }

  /** The open folders hold generated files only exactly if the base had no leftovers: deleting goes by folders. */
  lemma OnlyGeneratedIff(base: Tree, content: RepoContent, tree: Tree)
    requires Published(base, content, tree)
    ensures (forall p :: p in tree && InOpenFolder(p) ==> Generated(content.clusterTypes, p).Some?)
            <==> !HasLeftover(base, content.clusterTypes)
  {
    var cts := content.clusterTypes;
    TrackingIsSeparate(cts);
    hide Generated, Obsolete, InOpenFolder, Promotes;
    if HasLeftover(base, cts) {
      var p :| p in base && InOpenFolder(p) && !Obsolete(cts, p) && Generated(cts, p).None?;
      assert FileAt(tree, p) == PublishedAt(base, content, p);
      assert p in tree;
    } else {
      forall p | p in tree && InOpenFolder(p)
        ensures Generated(cts, p).Some?
      {
        assert FileAt(tree, p) == PublishedAt(base, content, p);
      }
    }
  }

  /** Such leftovers arise when the type of a target's configuration changes from shell to YAML: the old file
      stays. */
  lemma OldConfigurationStays(base: Tree, content: RepoContent, tree: Tree, ct: string, dt: string)
    requires SlashFree(content.clusterTypes) && NoHiddenNames(content.clusterTypes) && Published(base, content, tree)
    requires ct in content.clusterTypes && dt in content.clusterTypes[ct]
            && content.clusterTypes[ct][dt].configContentType != "sh"
    requires ct + "/" + dt + "/platform-config.sh" in base
    ensures var p := ct + "/" + dt + "/platform-config.sh";
            FileAt(tree, p) == FileAt(base, p) && HasLeftover(base, content.clusterTypes)
  {
    var cts, file := content.clusterTypes, "platform-config.sh";
    var p := ct + "/" + dt + "/" + file;
    assert p == ct + "/" + dt + "/platform-config.sh";
    OldFile(cts[ct][dt]);
    PartsOfTarget(ct, dt, file);
    PartsOfTracking();
    hide Parts, FileName, TargetFile, Yaml;
    NotGenerated(cts, p, ct, dt, file);
    hide Generated, Obsolete, InOpenFolder;
    assert FileAt(tree, p) == PublishedAt(base, content, p);
  }

  /** A file of a target that is there, but not one of its manifests, is neither written nor deleted. */
  lemma NotGenerated(cts: ClusterTypes, p: string, ct: string, dt: string, file: string)
    requires Parts(p) == [ct, dt, file] && ct in cts && dt in cts[ct] && !HasPrefix(ct, ".")
    requires TargetFile(cts[ct][dt], file).None?
    ensures Generated(cts, p).None? && !Obsolete(cts, p) && InOpenFolder(p) && p != TRACKING
  {
    PartsOfTracking();
    hide Parts, TargetFile;
    assert HasPrefix(".github", ".");
  }

  lemma OldFile(spec: PackageSpec)
    requires spec.configContentType != "sh"
    ensures '/' !in "platform-config.sh" && TargetFile(spec, "platform-config.sh").None?
  {
    var now := FileName("platform-config", spec.configContentType);
    FileNames(spec.reconcilerContentType);
    FileNames(spec.namespaceContentType);
    assert now == "platform-config.yaml";
    assert now[|now| - 1] == 'l' && "platform-config.sh"[17] == 'h' && "platform-config.sh"[0] == 'p';
    hide FileName;
  }
}
