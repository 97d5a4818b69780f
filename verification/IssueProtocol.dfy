/** Reporting failed assignments as GitHub issues: the protocol between the status of the assignments and the issues of
    the GitOps repository, as a transition function. */
module IssueProtocol {
  import opened Basics

  datatype IssueStatus = IssueStatus(issueNo: nat, contentHash: string)

  const NO_ISSUE := IssueStatus(0, "")

  /** `owner` is the assignment that an issue was created for. */
  datatype Issue = Issue(owner: string, title: string, body: string, open: bool)

  /** The recorded issue of each assignment, the issues, the next free issue number, and the GitHub calls made so far.
      */
  datatype State = State(recorded: map<string, IssueStatus>, issues: map<nat, Issue>, next: nat, calls: nat)
  {
    function Recorded(owner: string): IssueStatus {
      if owner in recorded then recorded[owner] else NO_ISSUE
    }
  }

  /** The hash of a message, or of no message, and the title of an assignment's issue. */
  datatype Setup = Setup(hash: Option<string> -> string, title: string -> string)
  {
    ghost predicate Valid() {
      (forall a, b :: hash(a) == hash(b) ==> a == b) && forall a :: hash(a) != ""
    }
  }

  /** One reconcile of an assignment: it succeeded (no message) or failed, and which of the calls went through: finding
      the GitOps repository, reading an issue, writing an issue, and writing the status. */
  datatype Event = Event(owner: string, message: Option<string>, repoOk: bool, readOk: bool, writeOk: bool,
                         statusOk: bool)
  {
    predicate AllOk() {
      repoOk && readOk && writeOk && statusOk
    }
  }

  /** The effect on GitHub and the issue number that is returned (None on an error). */
  datatype Update = Update(state: State, issueNo: Option<nat>)

  /** Closing: an issue that cannot be read is taken for gone. */
  function CloseIssue(s: State, issueNo: nat, e: Event): Update {
    if !e.readOk || issueNo !in s.issues then Update(s.(calls := s.calls + 1), Some(0))
    else if !e.writeOk then Update(s.(calls := s.calls + 2), None)
    else Update(s.(issues := s.issues[issueNo := s.issues[issueNo].(open := false)], calls := s.calls + 2), Some(0))
  }

  function ReportIssue(s: State, issueNo: nat, title: string, message: string, e: Event): Update {
    var t := s.(calls := s.calls + 1);
    if issueNo == 0 then
      if !e.writeOk then Update(t, None)
      else Update(t.(issues := s.issues[s.next := Issue(e.owner, title, message, true)], next := s.next + 1),
        Some(s.next))
    else if !e.writeOk || issueNo !in s.issues then Update(t, None)
    else Update(t.(issues := s.issues[issueNo := s.issues[issueNo].(title := title, body := message)]), Some(issueNo))
  }

  function UpdateIssue(s: State, issueNo: nat, title: string, e: Event): Update {
    if e.message.None? then CloseIssue(s, issueNo, e) else ReportIssue(s, issueNo, title, e.message.value, e)
  }

  /** GitHub is only called when the hash of the message differs from the recorded one. */
  function UpdateGitHubIssue(s: State, e: Event, setup: Setup): Update {
    var status := s.Recorded(e.owner);
    if setup.hash(e.message) == status.contentHash then Update(s, Some(status.issueNo))
    else if !e.repoOk then Update(s, None)
    else UpdateIssue(s, status.issueNo, setup.title(e.owner), e)
  }

  /** The status that is written: none after a success, the reported issue after a failure. */
  function NewStatus(u: Update, e: Event, setup: Setup): IssueStatus
    requires u.issueNo.Some?
  {
    if e.message.None? then NO_ISSUE else IssueStatus(u.issueNo.value, setup.hash(e.message))
  }

  function Step(s: State, e: Event, setup: Setup): State {
    var u := UpdateGitHubIssue(s, e, setup);
    if u.issueNo.None? || !e.statusOk then u.state
    else u.state.(recorded := s.recorded[e.owner := NewStatus(u, e, setup)])
  }

  /** What happens to the assignments: one is reconciled, or one is deleted and its status with it. The reconciler
      is not told what a deleted assignment had recorded. */
  datatype Happening = Reconciled(event: Event) | Deleted(owner: string)

  function Advance(s: State, x: Happening, setup: Setup): State {
    match x
    case Reconciled(e) => Step(s, e, setup)
    case Deleted(owner) => s.(recorded := s.recorded - {owner})
  }

  function Run(s: State, happenings: seq<Happening>, setup: Setup): State {
    if happenings == [] then s
    else Advance(Run(s, happenings[..|happenings| - 1], setup), happenings[|happenings| - 1], setup)
  }

  // ----- The invariant -----

  /** An assignment with a recorded issue has that one open, with the recorded content and its title; any other issue of
      the assignment is closed. */
  predicate OwnerConsistent(s: State, owner: string, setup: Setup) {
    var status := s.Recorded(owner);
    if status.issueNo == 0 then
      status == NO_ISSUE && NoneOpen(s, owner, 0)
    else
      status.issueNo in s.issues && NoneOpen(s, owner, status.issueNo)
      && var issue := s.issues[status.issueNo];
         issue.owner == owner && issue.open && issue.title == setup.title(owner)
         && status.contentHash == setup.hash(Some(issue.body))
  }

  /** No issue of the assignment is open, except possibly number `except`. */
  predicate NoneOpen(s: State, owner: string, except: nat) {
    forall n :: n in s.issues && n != except && s.issues[n].owner == owner ==> !s.issues[n].open
  }

  ghost predicate Consistent(s: State, setup: Setup) {
    s.next > 0 && (forall n :: n in s.issues ==> 0 < n < s.next) && forall owner :: OwnerConsistent(s, owner, setup)
  }

  const INITIAL := State(map[], map[], 1, 0)

  lemma InitiallyConsistent(setup: Setup)
    ensures Consistent(INITIAL, setup)
  {
  }

  /** The recorded issue of the assignment is treated as gone because it could not be read. */
  predicate LosesIssue(s: State, e: Event) {
    e.message.None? && e.repoOk && !e.readOk && s.Recorded(e.owner).issueNo != 0
  }

  /** The reconcile changes an issue: the message is news, and there is something to create, edit or close. */
  predicate WritesIssue(s: State, e: Event, setup: Setup) {
    setup.hash(e.message) != s.Recorded(e.owner).contentHash && e.repoOk && e.writeOk
    && (e.message.Some? || (e.readOk && s.Recorded(e.owner).issueNo != 0))
  }

  /** A change of an issue is followed by a successful status write, and a failed read of an open issue is not. */
  predicate Safe(s: State, e: Event, setup: Setup) {
    (WritesIssue(s, e, setup) ==> e.statusOk)
    && (LosesIssue(s, e) ==> !e.statusOk)
  }

  /** The guard says exactly when the issues change. */
  lemma WritesIssueIff(s: State, e: Event, setup: Setup)
    requires setup.Valid() && Consistent(s, setup)
    ensures WritesIssue(s, e, setup) <==> Step(s, e, setup).issues != s.issues
  {
    assert OwnerConsistent(s, e.owner, setup);
    var n := s.Recorded(e.owner).issueNo;
    if WritesIssue(s, e, setup) {
      var t := Step(s, e, setup);
      if e.message.None? {
        assert s.issues[n].open && !t.issues[n].open;
      } else if n == 0 {
        assert s.next in t.issues && s.next !in s.issues;
      } else {
        assert setup.hash(Some(s.issues[n].body)) == s.Recorded(e.owner).contentHash;
        assert t.issues[n].body == e.message.value != s.issues[n].body;
      }
    }
  }

  lemma OthersUnchanged(s: State, e: Event, setup: Setup, owner: string)
    requires setup.Valid() && Consistent(s, setup) && owner != e.owner
    ensures OwnerConsistent(Step(s, e, setup), owner, setup)
  {
    var t := Step(s, e, setup);
    assert OwnerConsistent(s, owner, setup);
    assert t.Recorded(owner) == s.Recorded(owner);
    OthersIssuesUnchanged(s, e, setup, owner);
    hide Step;
  }

  lemma OthersIssuesUnchanged(s: State, e: Event, setup: Setup, owner: string)
    requires setup.Valid() && Consistent(s, setup) && owner != e.owner
    ensures forall n :: n in s.issues && s.issues[n].owner == owner ==>
                          n in Step(s, e, setup).issues && Step(s, e, setup).issues[n] == s.issues[n]
    ensures forall n :: n in Step(s, e, setup).issues && Step(s, e, setup).issues[n].owner == owner ==>
                          n in s.issues && Step(s, e, setup).issues[n] == s.issues[n]
  {
    assert OwnerConsistent(s, e.owner, setup);
  }

  lemma StepNumbers(s: State, e: Event, setup: Setup)
    requires setup.Valid() && Consistent(s, setup)
    ensures var t := Step(s, e, setup); t.next > 0 && forall n :: n in t.issues ==> 0 < n < t.next
  {
  }

  lemma StepOwner(s: State, e: Event, setup: Setup)
    requires setup.Valid() && Consistent(s, setup)
    ensures OwnerConsistent(Step(s, e, setup), e.owner, setup) <==> Safe(s, e, setup)
  {
    var t := Step(s, e, setup);
    assert OwnerConsistent(s, e.owner, setup);
    if e.message.None? {
      CloseOwner(s, e, setup);
    } else {
      ReportOwner(s, e, setup);
    }
  }

  lemma CloseOwner(s: State, e: Event, setup: Setup)
    requires setup.Valid() && Consistent(s, setup) && OwnerConsistent(s, e.owner, setup) && e.message.None?
    ensures OwnerConsistent(Step(s, e, setup), e.owner, setup) <==> Safe(s, e, setup)
  {
    var t := Step(s, e, setup);
    var status := s.Recorded(e.owner);
    if status.issueNo != 0 {
      assert status.contentHash == setup.hash(Some(s.issues[status.issueNo].body));
      assert t.issues == s.issues || !t.issues[status.issueNo].open;
    }
  }

  lemma ReportOwner(s: State, e: Event, setup: Setup)
    requires setup.Valid() && Consistent(s, setup) && OwnerConsistent(s, e.owner, setup) && e.message.Some?
    ensures OwnerConsistent(Step(s, e, setup), e.owner, setup) <==> Safe(s, e, setup)
  {
    var t := Step(s, e, setup);
    var status := s.Recorded(e.owner);
    assert setup.hash(e.message) != "";
    if status.issueNo != 0 {
      assert e.message.value != s.issues[status.issueNo].body <==> setup.hash(e.message) != status.contentHash;
    } else if WritesIssue(s, e, setup) && !e.statusOk {
      assert t.issues[s.next] == Issue(e.owner, setup.title(e.owner), e.message.value, true);
    }
  }

  /** A step keeps status and issues consistent if and only if it is safe. */
  lemma StepConsistentIff(s: State, e: Event, setup: Setup)
    requires setup.Valid() && Consistent(s, setup)
    ensures Consistent(Step(s, e, setup), setup) <==> Safe(s, e, setup)
  {
    hide Step, OwnerConsistent, Safe;
    StepNumbers(s, e, setup);
    StepOwner(s, e, setup);
    forall owner | owner != e.owner
      ensures OwnerConsistent(Step(s, e, setup), owner, setup)
    {
      OthersUnchanged(s, e, setup, owner);
    }
  }

  // ----- What is written to GitHub -----

  /** Whatever the state of affairs, a report that goes through leaves the message under the issue's title: in the
      recorded issue if there is one, and in a new open issue of the assignment otherwise. */
  lemma ReportWrites(s: State, e: Event, setup: Setup)
    requires e.message.Some? && e.AllOk() && setup.hash(e.message) != s.Recorded(e.owner).contentHash
    ensures var t, before := Step(s, e, setup), s.Recorded(e.owner).issueNo;
            (before != 0 && before in s.issues ==>
               t.issues == s.issues[before := s.issues[before].(title := setup.title(e.owner), body := e.message.value)]
               && t.Recorded(e.owner) == IssueStatus(before, setup.hash(e.message)) && t.next == s.next)
            && (before == 0 ==>
                  t.issues == s.issues[s.next := Issue(e.owner, setup.title(e.owner), e.message.value, true)]
                  && t.Recorded(e.owner) == IssueStatus(s.next, setup.hash(e.message)) && t.next == s.next + 1)
  {
  }

  /** A success that goes through closes the recorded issue, and keeps its text; the status is emptied. */
  lemma CloseWrites(s: State, e: Event, setup: Setup)
    requires e.message.None? && e.AllOk() && setup.hash(e.message) != s.Recorded(e.owner).contentHash
    ensures var t, before := Step(s, e, setup), s.Recorded(e.owner).issueNo;
            t.issues == (if before in s.issues then s.issues[before := s.issues[before].(open := false)] else s.issues)
            && t.next == s.next && t.recorded == s.recorded[e.owner := IssueStatus(0, "")]
  {
  }

  /** Without news GitHub is not called; a report takes one call, a closing a read and an edit. */
  lemma CallsMade(s: State, e: Event, setup: Setup)
    ensures var news := setup.hash(e.message) != s.Recorded(e.owner).contentHash && e.repoOk;
            Step(s, e, setup).calls == s.calls +
            if !news then 0
            else if e.message.None? && e.readOk && s.Recorded(e.owner).issueNo in s.issues then 2 else 1
  {
  }

  /** A deletion keeps them consistent if and only if the assignment has no recorded issue. */
  lemma DeletionConsistentIff(s: State, owner: string, setup: Setup)
    requires setup.Valid() && Consistent(s, setup)
    ensures Consistent(Advance(s, Deleted(owner), setup), setup) <==> s.Recorded(owner).issueNo == 0
  {
    var t := Advance(s, Deleted(owner), setup);
    assert OwnerConsistent(s, owner, setup);
    if s.Recorded(owner).issueNo == 0 {
      forall other
        ensures OwnerConsistent(t, other, setup)
      {
        assert OwnerConsistent(s, other, setup);
        assert t.Recorded(other) == s.Recorded(other);
      }
    } else {
      assert s.issues[s.Recorded(owner).issueNo].open;
      assert !OwnerConsistent(t, owner, setup);
    }
  }

  /** A reconcile is safe as above, a deletion if no issue is recorded. */
  predicate SafeHappening(s: State, x: Happening, setup: Setup) {
    match x
    case Reconciled(e) => Safe(s, e, setup)
    case Deleted(owner) => s.Recorded(owner).issueNo == 0
  }

  lemma AdvanceConsistentIff(s: State, x: Happening, setup: Setup)
    requires setup.Valid() && Consistent(s, setup)
    ensures Consistent(Advance(s, x, setup), setup) <==> SafeHappening(s, x, setup)
  {
    match x
    case Reconciled(e) => StepConsistentIff(s, e, setup);
    case Deleted(owner) => DeletionConsistentIff(s, owner, setup);
  }

  // ----- Whole runs -----

  /** The outcome of the latest reconcile of the assignment: its message, or None after a success, no reconcile, or a
      deletion. */
  function Latest(happenings: seq<Happening>, owner: string): Option<string> {
    if happenings == [] then None
    else
      var rest := Latest(happenings[..|happenings| - 1], owner);
      match happenings[|happenings| - 1]
      case Reconciled(e) => if e.owner == owner then e.message else rest
      case Deleted(o) => if o == owner then None else rest
  }

  /** GitHub shows the outcome: an issue with that message, open and recorded; or no open issue at all. */
  predicate Shows(s: State, owner: string, outcome: Option<string>, setup: Setup) {
    var n := s.Recorded(owner).issueNo;
    NoneOpen(s, owner, n)
    && if outcome.None? then n == 0 && NoneOpen(s, owner, 0)
       else n in s.issues && s.issues[n] == Issue(owner, setup.title(owner), outcome.value, true)
  }

  /** All calls go through, and no assignment is deleted while it is failing. */
  predicate GoodRun(happenings: seq<Happening>) {
    forall i :: 0 <= i < |happenings| ==>
                  match happenings[i]
                  case Reconciled(e) => e.AllOk()
                  case Deleted(owner) => Latest(happenings[..i], owner).None?
  }

  /** Over every good run, interleaved over any number of assignments: each has at most one open issue, the recorded
      one, and it shows the latest outcome. */
  lemma {:induction false} RunShowsLatest(happenings: seq<Happening>, setup: Setup, owner: string)
    requires setup.Valid() && GoodRun(happenings)
    ensures Consistent(Run(INITIAL, happenings, setup), setup)
    ensures Shows(Run(INITIAL, happenings, setup), owner, Latest(happenings, owner), setup)
    decreases |happenings|, 0
  {
    hide Step, Safe, OwnerConsistent;
    if happenings == [] {
      InitiallyConsistent(setup);
      InitiallyShown(setup, owner);
    } else {
      var front, x := happenings[..|happenings| - 1], happenings[|happenings| - 1];
      GoodFront(happenings);
      RunShowsLatest(front, setup, owner);
      RunShowsNext(front, x, setup, owner);
    }
  }

  lemma InitiallyShown(setup: Setup, owner: string)
    ensures Shows(INITIAL, owner, None, setup)
  {
  }

  lemma GoodFront(happenings: seq<Happening>)
    requires GoodRun(happenings) && happenings != []
    ensures GoodRun(happenings[..|happenings| - 1])
  {
    var front := happenings[..|happenings| - 1];
    forall i | 0 <= i < |front|
      ensures front[i] == happenings[i] && front[..i] == happenings[..i]
    {
    }
  }

  lemma RunShowsNext(front: seq<Happening>, x: Happening, setup: Setup, owner: string)
    requires setup.Valid() && GoodRun(front) && Consistent(Run(INITIAL, front, setup), setup)
    requires match x case Reconciled(e) => e.AllOk() case Deleted(o) => Latest(front, o).None?
    requires Shows(Run(INITIAL, front, setup), owner, Latest(front, owner), setup)
    ensures var s := Advance(Run(INITIAL, front, setup), x, setup);
            Consistent(s, setup)
            && Shows(s, owner, match x
                               case Reconciled(e) => if e.owner == owner then e.message else Latest(front, owner)
                               case Deleted(o) => if o == owner then None else Latest(front, owner), setup)
    decreases |front|, 1
  {
    var s := Run(INITIAL, front, setup);
    match x {
      case Reconciled(e) =>
        AllOkIsSafe(s, e, setup);
        StepConsistentIff(s, e, setup);
        hide Step;
        assert OwnerConsistent(Step(s, e, setup), owner, setup);
        StepShows(s, e, setup, owner, Latest(front, owner));
      case Deleted(o) =>
        RunShowsLatest(front, setup, o);
        DeletionConsistentIff(s, o, setup);
        DeletionShows(s, o, setup, owner, Latest(front, owner));
    }
  }

  lemma AllOkIsSafe(s: State, e: Event, setup: Setup)
    requires e.AllOk()
    ensures Safe(s, e, setup)
  {
  }

  lemma DeletionShows(s: State, gone: string, setup: Setup, owner: string, before: Option<string>)
    requires Shows(s, owner, before, setup) && s.Recorded(gone).issueNo == 0
    requires gone == owner ==> before.None?
    ensures Shows(Advance(s, Deleted(gone), setup), owner, if gone == owner then None else before, setup)
  {
    assert Advance(s, Deleted(gone), setup).Recorded(owner).issueNo == s.Recorded(owner).issueNo;
  }

  /** Consistent after every step. */
  ghost predicate ConsistentThroughout(happenings: seq<Happening>, setup: Setup) {
    Consistent(Run(INITIAL, happenings, setup), setup)
    && (happenings != [] ==> ConsistentThroughout(happenings[..|happenings| - 1], setup))
  }

  predicate SafeThroughout(happenings: seq<Happening>, setup: Setup) {
    happenings != [] ==>
      var front, x := happenings[..|happenings| - 1], happenings[|happenings| - 1];
      SafeThroughout(front, setup) && SafeHappening(Run(INITIAL, front, setup), x, setup)
  }

  /** A run of reconciles and deletions keeps status and issues consistent throughout if and only if each of its
      steps is safe. */
  lemma {:induction false} RunConsistentIff(happenings: seq<Happening>, setup: Setup)
    requires setup.Valid()
    ensures ConsistentThroughout(happenings, setup) <==> SafeThroughout(happenings, setup)
  {
    hide Consistent, SafeHappening, Advance;
    if happenings == [] {
      InitiallyConsistent(setup);
    } else {
      var front, x := happenings[..|happenings| - 1], happenings[|happenings| - 1];
      RunConsistentIff(front, setup);
      if ConsistentThroughout(front, setup) {
        AdvanceConsistentIff(Run(INITIAL, front, setup), x, setup);
      }
    }
  }

  lemma StepShows(s: State, e: Event, setup: Setup, owner: string, before: Option<string>)
    requires setup.Valid() && Consistent(s, setup) && e.AllOk() && Shows(s, owner, before, setup)
    requires OwnerConsistent(Step(s, e, setup), owner, setup)
    ensures Shows(Step(s, e, setup), owner, if e.owner == owner then e.message else before, setup)
  {
    var t := Step(s, e, setup);
    assert OwnerConsistent(s, owner, setup);
    if e.owner == owner && e.message.Some? {
      var n := t.Recorded(owner).issueNo;
      assert t.Recorded(owner).contentHash == setup.hash(e.message);
      assert t.issues[n].body == e.message.value;
    }
  }

  /** Reporting the same failure again makes no GitHub call and changes nothing. */
  lemma RepeatedFailureIsSilent(s: State, e: Event, again: Event, setup: Setup)
    requires setup.Valid() && Consistent(s, setup) && e.AllOk()
    requires e.message.Some? && again.owner == e.owner && again.message == e.message
    ensures Step(Step(s, e, setup), again, setup) == Step(s, e, setup)
  {
    var t := Step(s, e, setup);
    assert OwnerConsistent(s, e.owner, setup);
    assert t.Recorded(e.owner).contentHash == setup.hash(e.message);
    assert t.recorded[e.owner := t.recorded[e.owner]] == t.recorded;
  }

  // ----- What goes wrong otherwise -----

  lemma RunOfTwo(a: Happening, b: Happening, setup: Setup)
    ensures Run(INITIAL, [a, b], setup) == Advance(Advance(INITIAL, a, setup), b, setup)
  {
    assert [a, b][..1] == [a] && [a][..0] == [];
    assert Run(INITIAL, [a], setup) == Advance(INITIAL, a, setup);
  }

  /** If the status write after creating an issue is lost, the same failure is reported twice. */
  lemma LostStatusDuplicatesIssue(setup: Setup)
    requires setup.Valid()
    ensures var e := Event("a", Some("broken"), true, true, true, false);
            var t := Run(INITIAL, [Reconciled(e), Reconciled(e.(statusOk := true))], setup);
            1 in t.issues && 2 in t.issues && t.issues[1] == t.issues[2] && t.issues[1].open
  {
    var e := Event("a", Some("broken"), true, true, true, false);
    RunOfTwo(Reconciled(e), Reconciled(e.(statusOk := true)), setup);
  }

  /** If the issue cannot be read when the failure is gone, it stays open and is forgotten. */
  lemma FailedReadOrphansIssue(setup: Setup)
    requires setup.Valid()
    ensures var e := Event("a", Some("broken"), true, true, true, true);
            var t := Run(INITIAL, [Reconciled(e), Reconciled(Event("a", None, true, false, true, true))], setup);
            t.Recorded("a") == NO_ISSUE && 1 in t.issues && t.issues[1].open && t.issues[1].owner == "a"
  {
    var e := Event("a", Some("broken"), true, true, true, true);
    RunOfTwo(Reconciled(e), Reconciled(Event("a", None, true, false, true, true)), setup);
    assert setup.hash(None) != setup.hash(Some("broken"));
  }

  /** If a failing assignment is deleted and created again, as when its pair is deselected and selected again, the same
      failure is reported twice, although every call goes through. */
  lemma DeletionDuplicatesIssue(setup: Setup)
    requires setup.Valid()
    ensures var x := Reconciled(Event("a", Some("broken"), true, true, true, true));
            var t := Advance(Run(INITIAL, [x, Deleted("a")], setup), x, setup);
            1 in t.issues && 2 in t.issues && t.issues[1] == t.issues[2] && t.issues[1].open
  {
    RunOfTwo(Reconciled(Event("a", Some("broken"), true, true, true, true)), Deleted("a"), setup);
  }
}
