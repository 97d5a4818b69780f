/** The assignment reconciler, from the built manifests on: the package of the assignment and the issue reporting. */
module AssignmentReconciler {
  import opened Api
  import opened Basics
  import opened Scheduling
  import opened IssueProtocol
  import opened PackagePlan

  function EventOf(a: Assignment, built: Built, calls: Calls): Event {
    Event(a.name, Message(built, calls), calls.repo, calls.readIssue, calls.writeIssue, calls.lastStatus)
  }

  /** Closing the assignment's issue goes through: there is nothing to report any more, or the issue can be edited,
      or it cannot be read and is taken for gone. */
  predicate Closes(s: State, owner: string, calls: Calls, setup: Setup) {
    setup.hash(None) == s.Recorded(owner).contentHash
    || (calls.repo && (!calls.readIssue || s.Recorded(owner).issueNo !in s.issues || calls.writeIssue))
  }

  /** The step of a reconcile that has nothing to report. */
  lemma SuccessStep(s: State, a: Assignment, built: Built, calls: Calls, setup: Setup)
    ensures var u := IssueProtocol.UpdateGitHubIssue(s, EventOf(a, built, calls).(message := None), setup);
            (u.issueNo.Some? <==> Closes(s, a.name, calls, setup))
            && (Message(built, calls).None? ==>
                  Step(s, EventOf(a, built, calls), setup) ==
                  if u.issueNo.Some? && calls.lastStatus then u.state.(recorded := s.recorded[a.name := NO_ISSUE])
                  else u.state)
  {
    hide Message;
  }

  class Reconciler {
    const setup: Setup

    /** Packages by name. */
    var packages: map<string, Package>
    /** The persisted Ready condition and issue status of the assignments. */
    var ready: map<string, bool>
    var recorded: map<string, IssueStatus>

    /** The issues of the GitOps repository. */
    var issues: map<nat, Issue>
    var next: nat
    var gitHubCalls: nat

    constructor (setup: Setup)
      ensures this.setup == setup && Protocol() == INITIAL && packages == map[] && ready == map[]
    {
      this.setup := setup;
      packages, ready, recorded, issues, next, gitHubCalls := map[], map[], map[], map[], 1, 0;
    }

    ghost function Protocol(): State
      reads this
    {
      State(recorded, issues, next, gitHubCalls)
    }

    function RecordedIssue(owner: string): IssueStatus
      reads this
    {
      if owner in recorded then recorded[owner] else NO_ISSUE
    }

    method Reconcile(a: Assignment, built: Built, calls: Calls) returns (outcome: Outcome)
      modifies this
      ensures Protocol() == if calls.firstStatus then Step(old(Protocol()), EventOf(a, built, calls), setup)
                            else old(Protocol())
      ensures packages == PackagesAfter(old(packages), a, built, calls)
      ensures ready == ReadyAfter(old(ready), a, calls, outcome.Done?)
      // Ready is reported exactly if the package has been written, an open issue is closed and the status is written.
      ensures calls.firstStatus ==> a.name in ready && (ready[a.name] <==> outcome.Done?)
      ensures outcome.Done? <==>
              calls.firstStatus && built.Manifests? && calls.readPackage && calls.writePackage && calls.lastStatus
              && Closes(old(Protocol()), a.name, calls, setup)
    {
      SuccessStep(Protocol(), a, built, calls, setup);
      hide PackageOf, IssueProtocol.UpdateGitHubIssue, Closes, Step;
      if !calls.firstStatus {
        return Failed;
      }
      ready := ready[a.name := false];
      if built.BuildFailed? {
        ManageFailure(a, built.message, built, calls);
        return Failed;
      }
      if !calls.readPackage {
        ManageFailure(a, calls.packageError, built, calls);
        return Failed;
      }
      var package := BuildPackage(a, built);
      if !calls.writePackage {
        ManageFailure(a, calls.packageError, built, calls);
        return Failed;
      }
      packages := packages[a.name := package];
      var status := DeleteGitHubIssue(a, EventOf(a, built, calls));
      if status.None? || !calls.lastStatus {
        return Failed;
      }
      recorded := recorded[a.name := status.value];
      ready := ready[a.name := true];
      return Done;
    }

    /** The stored package, or an empty one, with what has been built and the assignment's labels. */
    method BuildPackage(a: Assignment, built: Built) returns (package: Package)
      requires built.Manifests?
      ensures package == PackageOf(a, built, StoredSpec(packages, a.name))
    {
      package := Package(map[], NO_PACKAGE);
      if a.name in packages {
        package := packages[a.name];
      }
      package := package.(spec := package.spec.(reconcilerManifests := built.reconciler));
      package := package.(spec := package.spec.(namespaceManifests := built.namespace));
      package := package.(spec := package.spec.(configManifests := built.config));
      package := package.(spec := package.spec.(configContentType := built.configContentType));
      package := package.(labels := PackageLabels(a.spec));
    }

    method ManageFailure(a: Assignment, message: string, built: Built, calls: Calls)
      requires Message(built, calls) == Some(message)
      modifies `recorded, `issues, `next, `gitHubCalls
      ensures Protocol() == Step(old(Protocol()), EventOf(a, built, calls), setup)
    {
      var status := UpdateGitHubIssue(a, Some(message), EventOf(a, built, calls));
      if status.Some? && calls.lastStatus {
        recorded := recorded[a.name := status.value];
      }
    }

    /** The status to record, or None on an error; without a message there is nothing to report any more. */
    method UpdateGitHubIssue(a: Assignment, message: Option<string>, e: Event) returns (status: Option<IssueStatus>)
      requires e.owner == a.name
      modifies `issues, `next, `gitHubCalls
      ensures var u := IssueProtocol.UpdateGitHubIssue(old(Protocol()), e.(message := message), setup);
              Protocol() == u.state
              && status == if u.issueNo.None? then None else Some(IssueStatus(u.issueNo.value, setup.hash(message)))
    {
      var issueNo := RecordedIssue(a.name).issueNo;
      var contentHash := RecordedIssue(a.name).contentHash;
      var messageHash := setup.hash(message);
      if messageHash != contentHash {
        if !e.repoOk {
          return None;
        }
        var n := UpdateIssue(issueNo, setup.title(a.name), e.(message := message));
        if n.None? {
          return None;
        }
        issueNo := n.value;
      }
      status := Some(IssueStatus(issueNo, messageHash));
    }

    method DeleteGitHubIssue(a: Assignment, e: Event) returns (status: Option<IssueStatus>)
      requires e.owner == a.name
      modifies `issues, `next, `gitHubCalls
      ensures var u := IssueProtocol.UpdateGitHubIssue(old(Protocol()), e.(message := None), setup);
              Protocol() == u.state && status == if u.issueNo.None? then None else Some(NO_ISSUE)
    {
      var updated := UpdateGitHubIssue(a, None, e);
      status := if updated.None? then None else Some(NO_ISSUE);
    }

    /** GitHub: closes, creates or edits an issue; the number of the open issue is returned (0 if there is none). */
    method UpdateIssue(gitIssueNumber: nat, title: string, e: Event) returns (issueNo: Option<nat>)
      modifies `issues, `next, `gitHubCalls
      ensures var u := IssueProtocol.UpdateIssue(old(Protocol()), gitIssueNumber, title, e);
              Protocol() == u.state && issueNo == u.issueNo
    {
      gitHubCalls := gitHubCalls + 1;
      if e.message.None? {
        if !e.readOk || gitIssueNumber !in issues {
          return Some(0);
        }
        gitHubCalls := gitHubCalls + 1;
        if !e.writeOk {
          return None;
        }
        issues := issues[gitIssueNumber := issues[gitIssueNumber].(open := false)];
        return Some(0);
      }
      issueNo := Some(gitIssueNumber);
      if gitIssueNumber == 0 {
        if !e.writeOk {
          return None;
        }
        issues := issues[next := Issue(e.owner, title, e.message.value, true)];
        issueNo := Some(next);
        next := next + 1;
      } else {
        if !e.writeOk || gitIssueNumber !in issues {
          return None;
        }
        issues := issues[gitIssueNumber := issues[gitIssueNumber].(title := title, body := e.message.value)];
      }
    }
  }
}
