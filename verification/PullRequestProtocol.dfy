/** Debouncing of pull requests: the GitOps repository reconciler as a timed transition function.

    Times are in milliseconds. The reconciler works on a copy of the stored object that may be stale; the API server
    rejects a status write based on a stale copy. */
module PullRequestProtocol {
  import opened Basics
  import opened RepoContents

  /** Changes are left to settle for this long before a pull request is created. */
  const TIMEOUT := 3000

  /** The API server keeps condition times in whole seconds. */
  const GRANULARITY := 1000

  function Stored(time: int): int {
    time - time % GRANULARITY
  }

  /** The persisted status: the hash of the published content, the time of the ReadyToPR condition, and Ready. */
  datatype RepoStatus = RepoStatus(hash: string, mark: Option<int>, ready: Option<bool>)

  /** `reported`: the call that created it succeeded or said that it exists. */
  datatype PullRequest = PullRequest(time: int, hash: string, reported: bool)

  /** All versions of the persisted status, the last being the current one; the pull requests, created or reported to
      exist already; whether the latest one stands, that is, has not been closed by the operator; the number of CreatePR
      calls and of status writes. */
  datatype World = World(
    history: seq<RepoStatus>, clock: int, prs: seq<PullRequest>, standing: bool, attempts: nat, writes: nat)
  {
    predicate Valid() {
      history != []
    }

    function Current(): RepoStatus
      requires Valid()
    {
      history[|history| - 1]
    }
  }

  /** The call first closes the earlier pull requests. It may fail before that (Rejected), between that and the creation
      (Withdrawn), or after the creation, when the pull request is labelled (CreatedWithError). */
  datatype CreateResult = Created | AlreadyExists | CreatedWithError | Rejected | Withdrawn
  {
    predicate Makes() {
      !Rejected? && !Withdrawn?
    }
  }

  /** One reconcile: when, on which version of the object, what it sees of the policies, assignments and packages, and
      which calls go through. */
  datatype Event = Event(
    now: int, copy: nat, policies: seq<bool>, assignments: seq<bool>, content: RepoContent,
    policiesListed: bool, assignmentsListed: bool, contentOk: bool, repoOk: bool, create: CreateResult,
    firstWrite: bool, lastWrite: bool)

  predicate All(conditions: seq<bool>) {
    forall i :: 0 <= i < |conditions| ==> conditions[i]
  }

  type Hash = RepoContent -> string

  datatype Written = Written(world: World, accepted: bool)

  /** A status write is accepted only for the current version; writing the same status again makes no new version. */
  function WriteStatus(w: World, copy: nat, status: RepoStatus, ok: bool): (r: Written)
    requires w.Valid()
    ensures r.world.Valid()
  {
    var t := w.(writes := w.writes + 1);
    if ok && copy == |w.history| - 1 then
      Written(if status == w.Current() then t else t.(history := w.history + [status]), true)
    else
      Written(t, false)
  }

  function Fail(w: World, copy: nat, status: RepoStatus, ok: bool): (t: World)
    requires w.Valid()
    ensures t.Valid()
  {
    WriteStatus(w, copy, status.(ready := Some(false)), ok).world
  }

  /** A new pull request, after the earlier ones have been closed. */
  function Add(w: World, pr: PullRequest): (t: World)
    ensures t.history == w.history
  {
    w.(prs := w.prs + [pr], standing := true)
  }

  /** The mark is old enough: announce, create, record. */
  function Publish(w: World, e: Event, status: RepoStatus, hash: string): (t: World)
    requires w.Valid()
    ensures t.Valid()
  {
    var announced := status.(ready := Some(false));
    var first := WriteStatus(w, e.copy, announced, e.firstWrite);
    if !first.accepted then first.world
    else
      var version := |first.world.history| - 1;
      if !e.repoOk then Fail(first.world, version, announced, e.lastWrite)
      else
        var called := first.world.(attempts := first.world.attempts + 1);
        if e.create.Rejected? then Fail(called, version, announced, e.lastWrite)
        else if e.create.Withdrawn? then Fail(called.(standing := false), version, announced, e.lastWrite)
        else
          var created := Add(called, PullRequest(e.now, hash, !e.create.CreatedWithError?));
          if e.create.CreatedWithError? then Fail(created, version, announced, e.lastWrite)
          else WriteStatus(created, version, RepoStatus(hash, None, Some(true)), e.lastWrite).world
  }

  predicate SettledMark(status: RepoStatus, now: int) {
    status.mark.Some? && status.mark.value + TIMEOUT < now
  }

  function Step(w: World, e: Event, h: Hash): (t: World)
    requires w.Valid() && e.copy < |w.history|
    ensures t.Valid()
  {
    var u := w.(clock := e.now);
    var status := w.history[e.copy];
    if !e.policiesListed then Fail(u, e.copy, status, e.firstWrite)
    else if !All(e.policies) then u
    else if !e.assignmentsListed then Fail(u, e.copy, status, e.firstWrite)
    else if !All(e.assignments) then u
    else if !e.contentOk then Fail(u, e.copy, status, e.firstWrite)
    else
      var hash := h(e.content);
      if status.hash != hash then
        if status.mark.None? then WriteStatus(u, e.copy, status.(mark := Some(Stored(e.now))), e.firstWrite).world
        else if SettledMark(status, e.now) then Publish(u, e, status, hash)
        else u
      else if status.mark.Some? then WriteStatus(u, e.copy, status.(mark := None), e.firstWrite).world
      else u
  }

  // ----- One step -----

  /** A CreatePR call is made only on the current version of the status, with all policies and assignments ready, a
      content hash that has not been published, and a mark that is older than the timeout. */
  lemma CreatesOnlyWhenSettled(w: World, e: Event, h: Hash)
    requires w.Valid() && e.copy < |w.history|
    ensures var t := Step(w, e, h);
            t.attempts != w.attempts ==>
              t.attempts == w.attempts + 1
              && w.history[e.copy] == w.Current()
              && All(e.policies) && All(e.assignments)
              && h(e.content) != w.Current().hash && SettledMark(w.Current(), e.now)
  {
    StepEffect(w, e, h);
  }

  // ----- Whole runs -----

  predicate ValidRun(w: World, events: seq<Event>, h: Hash)
    requires w.Valid()
    decreases events, 0
  {
    events != [] ==>
      var front, e := events[..|events| - 1], events[|events| - 1];
      ValidRun(w, front, h)
      && Run(w, front, h).clock <= e.now && e.copy < |Run(w, front, h).history|
  }

  function Run(w: World, events: seq<Event>, h: Hash): (t: World)
    requires w.Valid() && ValidRun(w, events, h)
    ensures t.Valid()
    decreases events, 1
  {
    if events == [] then w
    else Step(Run(w, events[..|events| - 1], h), events[|events| - 1], h)
  }

  function Start(status: RepoStatus, clock: int): (w: World)
    ensures w.Valid()
  {
    World([status], clock, [], true, 0, 0)
  }

  ghost predicate Published(w: World, initial: string, hash: string) {
    hash == initial || exists i :: 0 <= i < |w.prs| && w.prs[i].reported && w.prs[i].hash == hash
  }

  ghost predicate AllPublished(w: World, initial: string) {
    forall i :: 0 <= i < |w.history| ==> Published(w, initial, w.history[i].hash)
  }

  /** With any call failing at any point, every persisted hash is the initial one or that of content for which a pull
      request was created or reported to exist. */
  lemma {:induction false} OnlyPublishedHashes(status: RepoStatus, clock: int, events: seq<Event>, h: Hash)
    requires ValidRun(Start(status, clock), events, h)
    ensures AllPublished(Run(Start(status, clock), events, h), status.hash)
  {
    if events == [] {
    } else {
      var front, e := events[..|events| - 1], events[|events| - 1];
      OnlyPublishedHashes(status, clock, front, h);
      StepPublished(Run(Start(status, clock), front, h), e, h, status.hash);
    }
  }

  lemma StepPublished(w: World, e: Event, h: Hash, initial: string)
    requires w.Valid() && e.copy < |w.history|
    requires AllPublished(w, initial)
    ensures AllPublished(Step(w, e, h), initial)
  {
    var t := Step(w, e, h);
    StepGrows(w, e, h);
    forall i | 0 <= i < |w.history|
      ensures Published(t, initial, w.history[i].hash)
    {
      assert Published(w, initial, w.history[i].hash);
      if w.history[i].hash != initial {
        var j :| 0 <= j < |w.prs| && w.prs[j].reported && w.prs[j].hash == w.history[i].hash;
        assert t.prs[j] == w.prs[j];
      }
    }
    hide Step;
    forall i | |w.history| <= i < |t.history|
      ensures Published(t, initial, t.history[i].hash)
    {
      assert Published(t, initial, w.history[|w.history| - 1].hash);
    }
  }

  /** Versions and pull requests are only added, and a new version has the current hash or that of the latest pull
      request, if that has been reported. */
  ghost predicate Grows(w: World, t: World)
    requires w.Valid()
  {
    w.history <= t.history && w.prs <= t.prs
    && forall i :: |w.history| <= i < |t.history| ==>
                     t.history[i].hash == w.Current().hash
                     || (t.prs != [] && t.prs[|t.prs| - 1].reported && t.history[i].hash == t.prs[|t.prs| - 1].hash)
  }

  lemma StepGrows(w: World, e: Event, h: Hash)
    requires w.Valid() && e.copy < |w.history|
    ensures Grows(w, Step(w, e, h))
  {
    var u, status := w.(clock := e.now), w.history[e.copy];
    SameGrows(w, u, u);
    SameGrows(w, u, Step(w, e, h));
    hide Grows, Publish, WriteStatus, Fail;
    if !e.policiesListed || !All(e.policies) || !e.assignmentsListed || !All(e.assignments) || !e.contentOk {
      FailGrows(u, e.copy, status, e.firstWrite);
    } else if status.hash == h(e.content) {
      WriteGrows(u, e.copy, status.(mark := None), e.firstWrite);
    } else if status.mark.None? {
      WriteGrows(u, e.copy, status.(mark := Some(Stored(e.now))), e.firstWrite);
    } else {
      PublishGrows(u, e, status, h(e.content));
    }
  }

  lemma SameGrows(w: World, u: World, t: World)
    requires w.Valid() && u.history == w.history && u.prs == w.prs
    ensures Grows(u, t) <==> Grows(w, t)
    ensures Grows(w, u)
  {
  }

  /** An accepted write is based on the current version. */
  lemma WriteGrows(w: World, copy: nat, status: RepoStatus, ok: bool)
    requires w.Valid() && copy < |w.history| && status.hash == w.history[copy].hash
    ensures Grows(w, WriteStatus(w, copy, status, ok).world)
  {
  }

  lemma FailGrows(w: World, copy: nat, status: RepoStatus, ok: bool)
    requires w.Valid() && copy < |w.history| && status.hash == w.history[copy].hash
    ensures Grows(w, Fail(w, copy, status, ok))
  {
    WriteGrows(w, copy, status.(ready := Some(false)), ok);
  }

  lemma PublishGrows(w: World, e: Event, status: RepoStatus, hash: string)
    requires w.Valid() && e.copy < |w.history| && status == w.history[e.copy]
    ensures Grows(w, Publish(w, e, status, hash))
  {
    hide WriteStatus, Fail, Add, Grows, KeepsHash;
    var announced := status.(ready := Some(false));
    var first := WriteStatus(w, e.copy, announced, e.firstWrite);
    WriteGrows(w, e.copy, announced, e.firstWrite);
    if first.accepted {
      AcceptedKeepsHash(w, e.copy, announced, e.firstWrite);
      CallGrows(w, first.world, e, announced, hash);
    }
  }

  /** The versions since `w` have its current hash. */
  ghost predicate KeepsHash(w: World, t: World)
    requires w.Valid()
  {
    w.history <= t.history && w.prs <= t.prs
    && forall i :: |w.history| - 1 <= i < |t.history| ==> t.history[i].hash == w.Current().hash
  }

  lemma AcceptedKeepsHash(w: World, copy: nat, status: RepoStatus, ok: bool)
    requires w.Valid() && copy < |w.history| && status.hash == w.history[copy].hash
    requires WriteStatus(w, copy, status, ok).accepted
    ensures KeepsHash(w, WriteStatus(w, copy, status, ok).world)
    ensures WriteStatus(w, copy, status, ok).world.Current() == status
  {
  }

  lemma KeepsThenGrows(w: World, u: World, t: World)
    requires w.Valid() && KeepsHash(w, u) && u.Valid() && Grows(u, t)
    ensures Grows(w, t)
  {
    assert u.history[|u.history| - 1].hash == w.Current().hash;
  }

  /** The rest of the publication, once the announcement has been accepted. */
  lemma CallGrows(w: World, u: World, e: Event, announced: RepoStatus, hash: string)
    requires w.Valid() && u.Valid() && KeepsHash(w, u) && u.Current() == announced
    ensures var version := |u.history| - 1;
            var called := u.(attempts := u.attempts + 1);
            var added := Add(called, PullRequest(e.now, hash, !e.create.CreatedWithError?));
            Grows(w, Fail(u, version, announced, e.lastWrite))
            && Grows(w, Fail(called, version, announced, e.lastWrite))
            && Grows(w, Fail(called.(standing := false), version, announced, e.lastWrite))
            && Grows(w, Fail(added, version, announced, e.lastWrite))
            && (!e.create.CreatedWithError? ==>
                  Grows(w, WriteStatus(added, version, RepoStatus(hash, None, Some(true)), e.lastWrite).world))
  {
    var version := |u.history| - 1;
    var called := u.(attempts := u.attempts + 1);
    var added := Add(called, PullRequest(e.now, hash, !e.create.CreatedWithError?));
    assert KeepsHash(w, called) && KeepsHash(w, called.(standing := false)) && KeepsHash(w, added);
    hide KeepsHash, Grows, WriteStatus, Fail;
    FailAlsoGrows(w, u, version, announced, e.lastWrite);
    FailAlsoGrows(w, called, version, announced, e.lastWrite);
    FailAlsoGrows(w, called.(standing := false), version, announced, e.lastWrite);
    FailAlsoGrows(w, added, version, announced, e.lastWrite);
    RecordGrows(added, version, RepoStatus(hash, None, Some(true)), e.lastWrite);
    if !e.create.CreatedWithError? {
      KeepsThenGrows(w, added, WriteStatus(added, version, RepoStatus(hash, None, Some(true)), e.lastWrite).world);
    }
  }

  lemma FailAlsoGrows(w: World, u: World, copy: nat, status: RepoStatus, ok: bool)
    requires w.Valid() && u.Valid() && KeepsHash(w, u) && copy == |u.history| - 1 && status.hash == u.Current().hash
    ensures Grows(w, Fail(u, copy, status, ok))
  {
    FailGrows(u, copy, status, ok);
    hide KeepsHash, Grows, Fail;
    KeepsThenGrows(w, u, Fail(u, copy, status, ok));
  }

  /** Recording the latest pull request. */
  lemma RecordGrows(w: World, copy: nat, status: RepoStatus, ok: bool)
    requires w.Valid() && w.prs != []
    requires w.prs[|w.prs| - 1].reported ==> status.hash == w.prs[|w.prs| - 1].hash
    ensures w.prs[|w.prs| - 1].reported ==> Grows(w, WriteStatus(w, copy, status, ok).world)
  {
  }

  /** The reconcile gets as far as the CreatePR call. */
  predicate Attempts(w: World, e: Event, h: Hash)
    requires w.Valid() && e.copy < |w.history|
  {
    var status := w.history[e.copy];
    e.policiesListed && All(e.policies) && e.assignmentsListed && All(e.assignments) && e.contentOk
    && h(e.content) != status.hash && SettledMark(status, e.now)
    && e.firstWrite && e.copy == |w.history| - 1 && e.repoOk
  }

  /** The reconcile creates a pull request, or hears that it exists. */
  predicate Creates(w: World, e: Event, h: Hash)
    requires w.Valid() && e.copy < |w.history|
  {
    Attempts(w, e, h) && e.create.Makes()
  }

  /** The reconcile closes the earlier pull request without creating another one. */
  predicate Closes(w: World, e: Event, h: Hash)
    requires w.Valid() && e.copy < |w.history|
  {
    Attempts(w, e, h) && e.create.Withdrawn?
  }

  lemma CreatesIff(w: World, e: Event, h: Hash)
    requires w.Valid() && e.copy < |w.history|
    ensures Step(w, e, h).prs == if Creates(w, e, h)
            then w.prs + [PullRequest(e.now, h(e.content), !e.create.CreatedWithError?)] else w.prs
    ensures Step(w, e, h).standing == if Creates(w, e, h) then true else if Closes(w, e, h) then false else w.standing
  {
    StepEffect(w, e, h);
  }

  lemma StepEffect(w: World, e: Event, h: Hash)
    requires w.Valid() && e.copy < |w.history|
    ensures var t, attempt := Step(w, e, h), Attempts(w, e, h);
            t.attempts == w.attempts + (if attempt then 1 else 0)
            && t.prs == (if attempt && e.create.Makes()
                         then w.prs + [PullRequest(e.now, h(e.content), !e.create.CreatedWithError?)] else w.prs)
            && t.standing == (if attempt && !e.create.Rejected? then e.create.Makes() else w.standing)
  {
    hide WriteStatus, Fail, Publish, Stored, All;
    var u, status := w.(clock := e.now), w.history[e.copy];
    WriteCases(u, e.copy, status.(mark := Some(Stored(e.now))), e.firstWrite);
    WriteCases(u, e.copy, status.(mark := None), e.firstWrite);
    FailCases(u, e.copy, status, e.firstWrite);
    PublishEffect(u, e, status, h(e.content));
  }

  lemma PublishEffect(w: World, e: Event, status: RepoStatus, hash: string)
    requires w.Valid() && e.copy < |w.history| && status == w.history[e.copy]
    ensures var t, called := Publish(w, e, status, hash), e.firstWrite && e.copy == |w.history| - 1 && e.repoOk;
            t.attempts == w.attempts + (if called then 1 else 0)
            && t.prs == (if called && e.create.Makes()
                         then w.prs + [PullRequest(e.now, hash, !e.create.CreatedWithError?)] else w.prs)
            && t.standing == (if called && !e.create.Rejected? then e.create.Makes() else w.standing)
  {
    hide WriteStatus, Fail;
    var announced := status.(ready := Some(false));
    WriteCases(w, e.copy, announced, e.firstWrite);
    var first := WriteStatus(w, e.copy, announced, e.firstWrite);
    if first.accepted {
      var version := |first.world.history| - 1;
      var called := first.world.(attempts := first.world.attempts + 1);
      var added := Add(called, PullRequest(e.now, hash, !e.create.CreatedWithError?));
      if !e.repoOk {
        FailCases(first.world, version, announced, e.lastWrite);
      } else if e.create.Rejected? {
        FailCases(called, version, announced, e.lastWrite);
      } else if e.create.Withdrawn? {
        FailCases(called.(standing := false), version, announced, e.lastWrite);
      } else if e.create.CreatedWithError? {
        FailCases(added, version, announced, e.lastWrite);
      } else {
        WriteCases(added, version, RepoStatus(hash, None, Some(true)), e.lastWrite);
      }
    }
  }

  /** The call reports success, or that the pull request exists, and the last status write goes through. */
  predicate Reported(e: Event) {
    (e.create.Created? || e.create.AlreadyExists?) && e.lastWrite
  }

  /** A pull request that is created is recorded. */
  predicate Recorded(w: World, e: Event, h: Hash)
    requires w.Valid() && e.copy < |w.history|
  {
    Creates(w, e, h) ==> Reported(e)
  }

  /** What the latest pull request leaves behind until the next one. */
  predicate AfterLatest(w: World)
    requires w.Valid()
  {
    w.prs != [] ==>
      var pr := w.prs[|w.prs| - 1];
      w.Current().hash == pr.hash && pr.time <= w.clock
      && (w.Current().mark.Some? ==> w.Current().mark.value >= Stored(pr.time))
  }

  /** Consecutive pull requests differ in content and lie more than the timeout apart, counted from the second in
      which the earlier one was created. */
  predicate Spaced(prs: seq<PullRequest>) {
    forall i :: 0 <= i < |prs| - 1 ==> prs[i].hash != prs[i + 1].hash && prs[i + 1].time > Stored(prs[i].time) + TIMEOUT
  }

  lemma StoredMonotone(a: int, b: int)
    requires a <= b
    ensures Stored(a) <= Stored(b) <= b < Stored(b) + GRANULARITY
  {
    assert Stored(a) == a / GRANULARITY * GRANULARITY && Stored(b) == b / GRANULARITY * GRANULARITY;
  }

  /** A step either keeps the published hash and drops, keeps or newly sets the mark, or it creates a pull request. */
  lemma StepCases(w: World, e: Event, h: Hash)
    requires w.Valid() && e.copy < |w.history| && Recorded(w, e, h)
    ensures var t := Step(w, e, h);
            t.clock == e.now
            && if t.prs == w.prs then
                 t.Current().hash == w.Current().hash
                 && (t.Current().mark.None? || t.Current().mark == w.Current().mark
                   || t.Current().mark.value == Stored(e.now))
               else
                 t.prs == w.prs + [PullRequest(e.now, h(e.content), true)]
                 && h(e.content) != w.Current().hash && SettledMark(w.Current(), e.now)
                 && t.Current().hash == h(e.content) && t.Current().mark.None?
  {
    hide Publish, WriteStatus, Fail;
    var u := w.(clock := e.now);
    var status := w.history[e.copy];
    WriteCases(u, e.copy, status.(ready := Some(false)), e.firstWrite);
    WriteCases(u, e.copy, status.(mark := Some(Stored(e.now))), e.firstWrite);
    WriteCases(u, e.copy, status.(mark := None), e.firstWrite);
    FailCases(u, e.copy, status, e.firstWrite);
    if e.firstWrite && e.copy == |w.history| - 1 && e.repoOk && e.create.Makes() ==> Reported(e) {
      PublishCases(u, e, status, h(e.content));
    }
  }

  /** An accepted write installs the status, based on the current version; a rejected one changes nothing. */
  lemma WriteCases(w: World, copy: nat, status: RepoStatus, ok: bool)
    requires w.Valid()
    ensures var r := WriteStatus(w, copy, status, ok);
            r.world.prs == w.prs && r.world.standing == w.standing
            && r.world.clock == w.clock && r.world.attempts == w.attempts
            && r.world.Current() == (if r.accepted then status else w.Current())
            && (r.accepted <==> ok && copy == |w.history| - 1)
  {
  }

  lemma FailCases(w: World, copy: nat, status: RepoStatus, ok: bool)
    requires w.Valid()
    ensures var t := Fail(w, copy, status, ok);
            t.prs == w.prs && t.standing == w.standing && t.clock == w.clock && t.attempts == w.attempts
            && t.Current() == (if ok && copy == |w.history| - 1 then status.(ready := Some(false)) else w.Current())
  {
    WriteCases(w, copy, status.(ready := Some(false)), ok);
  }

  lemma PublishCases(w: World, e: Event, status: RepoStatus, hash: string)
    requires w.Valid() && e.copy < |w.history| && status == w.history[e.copy]
    requires e.firstWrite && e.copy == |w.history| - 1 && e.repoOk && e.create.Makes() ==> Reported(e)
    ensures var t := Publish(w, e, status, hash);
            t.clock == w.clock
            && if t.prs == w.prs then
                 t.Current().hash == w.Current().hash && t.Current().mark == w.Current().mark
               else
                 t.prs == w.prs + [PullRequest(e.now, hash, true)] && status == w.Current()
                 && t.Current().hash == hash && t.Current().mark.None?
  {
    hide WriteStatus, Fail;
    var announced := status.(ready := Some(false));
    WriteCases(w, e.copy, announced, e.firstWrite);
    var first := WriteStatus(w, e.copy, announced, e.firstWrite);
    if first.accepted {
      var version := |first.world.history| - 1;
      FailCases(first.world, version, announced, e.lastWrite);
      var called := first.world.(attempts := first.world.attempts + 1);
      FailCases(called, version, announced, e.lastWrite);
      FailCases(called.(standing := false), version, announced, e.lastWrite);
      WriteCases(Add(called, PullRequest(e.now, hash, true)), version, RepoStatus(hash, None, Some(true)), e.lastWrite);
    }
  }

  lemma SpacedSnoc(prs: seq<PullRequest>, pr: PullRequest)
    requires Spaced(prs)
    requires prs != [] ==> prs[|prs| - 1].hash != pr.hash && pr.time > Stored(prs[|prs| - 1].time) + TIMEOUT
    ensures Spaced(prs + [pr])
  {
    hide Stored;
  }

  lemma StepSpaced(w: World, e: Event, h: Hash)
    requires w.Valid() && e.copy < |w.history| && w.clock <= e.now && Recorded(w, e, h)
    requires AfterLatest(w) && Spaced(w.prs)
    ensures AfterLatest(Step(w, e, h)) && Spaced(Step(w, e, h).prs)
  {
    LatestRecordedIff(w, e, h);
    StepCases(w, e, h);
    hide Step, Stored, Spaced, Recorded;
    if Step(w, e, h).prs != w.prs {
      SpacedSnoc(w.prs, PullRequest(e.now, h(e.content), true));
    }
  }

  predicate RecordedThroughout(w: World, events: seq<Event>, h: Hash)
    requires w.Valid() && ValidRun(w, events, h)
  {
    events != [] ==>
      var front, e := events[..|events| - 1], events[|events| - 1];
      RecordedThroughout(w, front, h) && Recorded(Run(w, front, h), e, h)
  }

  /** Over every run in which created pull requests are recorded, however stale the copies and whatever else fails. */
  lemma {:induction false} PullRequestsAreSpaced(status: RepoStatus, clock: int, events: seq<Event>, h: Hash)
    requires ValidRun(Start(status, clock), events, h)
    requires RecordedThroughout(Start(status, clock), events, h)
    ensures var w := Run(Start(status, clock), events, h); AfterLatest(w) && Spaced(w.prs)
  {
    if events == [] {
    } else {
      var front, e := events[..|events| - 1], events[|events| - 1];
      PullRequestsAreSpaced(status, clock, front, h);
      StepSpaced(Run(Start(status, clock), front, h), e, h);
    }
  }

  // ----- Status and pull requests in step -----

  /** The status names the latest pull request, and that one stands. */
  predicate InStep(w: World)
    requires w.Valid()
  {
    AfterLatest(w) && w.standing
  }

  /** A pull request that is created is recorded, and none is closed without another one being created. */
  predicate Safe(w: World, e: Event, h: Hash)
    requires w.Valid() && e.copy < |w.history|
  {
    Recorded(w, e, h) && !Closes(w, e, h)
  }

  /** The status names the latest pull request if and only if those that are created are recorded. */
  lemma LatestRecordedIff(w: World, e: Event, h: Hash)
    requires w.Valid() && e.copy < |w.history| && w.clock <= e.now && AfterLatest(w)
    ensures AfterLatest(Step(w, e, h)) <==> Recorded(w, e, h)
  {
    if Recorded(w, e, h) {
      StepCases(w, e, h);
      hide Step, Stored;
      if w.prs != [] {
        StoredMonotone(w.prs[|w.prs| - 1].time, e.now);
      }
    } else {
      UnrecordedStep(w, e, h);
    }
  }

  /** Otherwise the old hash stays, and so does the old mark. */
  lemma UnrecordedStep(w: World, e: Event, h: Hash)
    requires w.Valid() && e.copy < |w.history| && !Recorded(w, e, h)
    ensures var t := Step(w, e, h);
            t.prs == w.prs + [PullRequest(e.now, h(e.content), !e.create.CreatedWithError?)]
            && t.Current().hash == w.Current().hash != h(e.content) && t.Current().mark == w.Current().mark
  {
  }

  /** A step keeps status and pull requests in step if and only if it is safe. */
  lemma StepInStepIff(w: World, e: Event, h: Hash)
    requires w.Valid() && e.copy < |w.history| && w.clock <= e.now && InStep(w)
    ensures InStep(Step(w, e, h)) <==> Safe(w, e, h)
  {
    LatestRecordedIff(w, e, h);
    CreatesIff(w, e, h);
    hide Step, AfterLatest;
  }

  predicate InStepThroughout(w: World, events: seq<Event>, h: Hash)
    requires w.Valid() && ValidRun(w, events, h)
  {
    InStep(Run(w, events, h))
    && (events != [] ==> InStepThroughout(w, events[..|events| - 1], h))
  }

  predicate SafeThroughout(w: World, events: seq<Event>, h: Hash)
    requires w.Valid() && ValidRun(w, events, h)
  {
    events != [] ==>
      var front, e := events[..|events| - 1], events[|events| - 1];
      SafeThroughout(w, front, h) && Safe(Run(w, front, h), e, h)
  }

  /** A run keeps them in step throughout if and only if each of its steps is safe. */
  lemma {:induction false} RunInStepIff(status: RepoStatus, clock: int, events: seq<Event>, h: Hash)
    requires ValidRun(Start(status, clock), events, h)
    ensures InStepThroughout(Start(status, clock), events, h) <==> SafeThroughout(Start(status, clock), events, h)
  {
    hide Step, Safe, InStep;
    var w := Start(status, clock);
    if events == [] {
      StartInStep(w);
    } else {
      var front, e := events[..|events| - 1], events[|events| - 1];
      RunInStepIff(status, clock, front, h);
      if InStepThroughout(w, front, h) {
        StepInStepIff(Run(w, front, h), e, h);
      }
    }
  }

  lemma StartInStep(w: World)
    requires w.Valid() && w.prs == [] && w.standing
    ensures InStep(w)
  {
  }

  // ----- What a reconcile does to the status -----

  /** The reconcile works on the current version, and its listings succeed and show every policy and every assignment
      ready. */
  predicate SeesReady(w: World, e: Event)
    requires w.Valid()
  {
    e.copy == |w.history| - 1 && e.policiesListed && false !in e.policies && e.assignmentsListed
    && false !in e.assignments && e.contentOk
  }

  /** Something is not ready; the assignments are listed only if all policies are ready. */
  predicate Unready(e: Event) {
    e.policiesListed && (false in e.policies || (e.assignmentsListed && false in e.assignments))
  }

  /** A listing fails, or the content cannot be gathered. */
  predicate Unlisted(e: Event) {
    !e.policiesListed
    || (false !in e.policies && (!e.assignmentsListed || (false !in e.assignments && !e.contentOk)))
  }

  lemma AllReady(conditions: seq<bool>)
    ensures All(conditions) <==> false !in conditions
  {
  }

  /** A CreatePR call is made if and only if everything is ready, the content has not been published, its mark is more
      than three seconds old, and the calls before it go through. */
  lemma AttemptsIff(w: World, e: Event, h: Hash)
    requires w.Valid() && e.copy < |w.history|
    ensures var t, current := Step(w, e, h), w.Current();
            t.attempts == w.attempts +
            if SeesReady(w, e) && h(e.content) != current.hash && current.mark.Some?
              && current.mark.value + 3000 < e.now && e.firstWrite && e.repoOk then 1 else 0
  {
    StepEffect(w, e, h);
    AllReady(e.policies);
    AllReady(e.assignments);
  }

  /** The published hash, and with it Ready, changes exactly when a pull request is recorded; the status is then that of
      the new content. Otherwise Ready is left as it is or becomes false. */
  lemma HashChangesIff(w: World, e: Event, h: Hash)
    requires w.Valid() && e.copy < |w.history|
    ensures var t := Step(w, e, h);
            if Creates(w, e, h) && Reported(e) then
              t.Current() == RepoStatus(h(e.content), None, Some(true)) && t.Current().hash != w.Current().hash
            else
              t.Current().hash == w.Current().hash && t.Current().ready in {w.Current().ready, Some(false)}
  {
    StatusEffect(w, e, h);
  }

  /** A mark goes away exactly when everything is seen ready and either the content is the published one or a pull
      request is recorded. */
  lemma MarkGoesIff(w: World, e: Event, h: Hash)
    requires w.Valid() && e.copy < |w.history| && w.Current().mark.Some?
    ensures var t := Step(w, e, h);
            (t.Current().mark.None? <==>
             (SeesReady(w, e) && h(e.content) == w.Current().hash && e.firstWrite) || (Creates(w, e, h) && Reported(e)))
            && (t.Current().mark.Some? ==> t.Current().mark == w.Current().mark)
  {
    StatusEffect(w, e, h);
  }

  /** A mark is set exactly when everything is seen ready and the content is not the published one, to the second in
      which that happens. */
  lemma MarkComesIff(w: World, e: Event, h: Hash)
    requires w.Valid() && e.copy < |w.history| && w.Current().mark.None?
    ensures var mark := Step(w, e, h).Current().mark;
            (mark.Some? <==> SeesReady(w, e) && h(e.content) != w.Current().hash && e.firstWrite)
            && (mark.Some? ==> mark.value <= e.now < mark.value + 1000 && mark.value % 1000 == 0)
  {
    StatusEffect(w, e, h);
    StoredMonotone(e.now, e.now);
  }

  /** What becomes of the current status. */
  lemma StatusEffect(w: World, e: Event, h: Hash)
    requires w.Valid() && e.copy < |w.history|
    ensures var now, before := Step(w, e, h).Current(), w.Current();
            if Creates(w, e, h) && Reported(e) then
              now == RepoStatus(h(e.content), None, Some(true)) && SeesReady(w, e) && h(e.content) != before.hash
              && before.mark.Some?
            else if SeesReady(w, e) && e.firstWrite && h(e.content) == before.hash then now == before.(mark := None)
            else if SeesReady(w, e) && e.firstWrite && before.mark.None? then
              now == before.(mark := Some(Stored(e.now)))
            else now.hash == before.hash && now.mark == before.mark && now.ready in {before.ready, Some(false)}
  {
    AllReady(e.policies);
    AllReady(e.assignments);
    hide WriteStatus, Fail, Publish, Stored, All;
    var u, status := w.(clock := e.now), w.history[e.copy];
    WriteCases(u, e.copy, status.(mark := Some(Stored(e.now))), e.firstWrite);
    WriteCases(u, e.copy, status.(mark := None), e.firstWrite);
    FailCases(u, e.copy, status, e.firstWrite);
    PublishStatus(u, e, status, h(e.content));
  }

  lemma PublishStatus(w: World, e: Event, status: RepoStatus, hash: string)
    requires w.Valid() && e.copy < |w.history| && status == w.history[e.copy]
    ensures var now, before := Publish(w, e, status, hash).Current(), w.Current();
            if e.firstWrite && e.copy == |w.history| - 1 && e.repoOk && e.create.Makes() && Reported(e) then
              now == RepoStatus(hash, None, Some(true))
            else now == before || now == before.(ready := Some(false))
  {
    var announced := status.(ready := Some(false));
    WriteCases(w, e.copy, announced, e.firstWrite);
    var first := WriteStatus(w, e.copy, announced, e.firstWrite);
    if first.accepted {
      var version := |first.world.history| - 1;
      var called := first.world.(attempts := first.world.attempts + 1);
      FailCases(first.world, version, announced, e.lastWrite);
      FailCases(called, version, announced, e.lastWrite);
      FailCases(called.(standing := false), version, announced, e.lastWrite);
      var added := Add(called, PullRequest(e.now, hash, !e.create.CreatedWithError?));
      FailCases(added, version, announced, e.lastWrite);
      WriteCases(added, version, RepoStatus(hash, None, Some(true)), e.lastWrite);
    }
    hide WriteStatus, Fail;
  }

  /** An attempt is announced: Ready is persisted as false before GitHub is called, and stays so unless the pull
      request is recorded. */
  lemma AttemptsAreAnnounced(w: World, e: Event, h: Hash)
    requires w.Valid() && e.copy < |w.history| && Step(w, e, h).attempts != w.attempts
    ensures var t, announced := Step(w, e, h), w.Current().(ready := Some(false));
            announced in t.history[|w.history| - 1..]
            && (!Reported(e) ==> t.Current() == announced)
  {
    StepEffect(w, e, h);
    PublishAnnounces(w.(clock := e.now), e, h(e.content));
    hide Publish;
  }

  lemma PublishAnnounces(w: World, e: Event, hash: string)
    requires w.Valid() && e.copy == |w.history| - 1 && e.firstWrite && e.repoOk
    ensures var t, announced := Publish(w, e, w.Current(), hash), w.Current().(ready := Some(false));
            |t.history| >= |w.history| && announced in t.history[|w.history| - 1..]
            && (!Reported(e) ==> t.Current() == announced)
  {
    var t, announced := Publish(w, e, w.Current(), hash), w.Current().(ready := Some(false));
    var first := WriteStatus(w, e.copy, announced, true).world;
    assert first.history == if announced == w.Current() then w.history else w.history + [announced];
    assert first.Current() == announced;
    assert first.history <= t.history;
    assert t.history[|first.history| - 1] == announced;
  }

  /** If a listing fails, Ready becomes false and nothing else changes. */
  lemma UnlistedIsReported(w: World, e: Event, h: Hash)
    requires w.Valid() && e.copy < |w.history| && Unlisted(e)
    ensures var t := Step(w, e, h);
            t.Current() == (if e.firstWrite && e.copy == |w.history| - 1 then w.Current().(ready := Some(false))
                            else w.Current())
            && t.prs == w.prs && t.standing == w.standing && t.attempts == w.attempts && t.writes == w.writes + 1
  {
    AllReady(e.policies);
    AllReady(e.assignments);
    FailCases(w.(clock := e.now), e.copy, w.history[e.copy], e.firstWrite);
    hide Publish;
  }

  /** With everything seen ready, the status is written once to set or to remove a mark, twice around an attempt,
      and not at all otherwise. */
  lemma WritesMade(w: World, e: Event, h: Hash)
    requires w.Valid() && e.copy < |w.history| && SeesReady(w, e)
    ensures var published, mark, writes :=
              h(e.content) == w.Current().hash, w.Current().mark, Step(w, e, h).writes - w.writes;
            writes == if published then (if mark.Some? then 1 else 0)
                      else if mark.None? then 1
                      else if mark.value + 3000 < e.now then (if e.firstWrite then 2 else 1)
                      else 0
  {
    AllReady(e.policies);
    AllReady(e.assignments);
    PublishWrites(w.(clock := e.now), e, h(e.content));
    hide Publish, All;
  }

  lemma PublishWrites(w: World, e: Event, hash: string)
    requires w.Valid() && e.copy == |w.history| - 1
    ensures Publish(w, e, w.Current(), hash).writes == w.writes + if e.firstWrite then 2 else 1
  {
  }

  /** A reconcile on an outdated copy of the object changes neither status nor pull requests. */
  lemma StaleCopyIsHarmless(w: World, e: Event, h: Hash)
    requires w.Valid() && e.copy < |w.history| - 1
    ensures var t := Step(w, e, h);
            t.history == w.history && t.prs == w.prs && t.standing == w.standing && t.attempts == w.attempts
  {
  }

  /** While something is not ready, reconciles write nothing and call nobody, over any number of them. */
  lemma {:induction false} UnreadyIsSilent(w: World, events: seq<Event>, h: Hash)
    requires w.Valid() && ValidRun(w, events, h) && forall e :: e in events ==> Unready(e)
    ensures var t := Run(w, events, h); t == w.(clock := t.clock)
  {
    if events == [] {
    } else {
      var n := |events| - 1;
      UnreadyIsSilent(w, events[..n], h);
      assert Unready(events[n]);
      AllReady(events[n].policies);
      AllReady(events[n].assignments);
      hide Publish, All;
    }
  }

  // ----- Quiescence -----

  /** Everything is ready and goes through, on the current version of the object. */
  predicate Clean(w: World, e: Event, content: RepoContent)
    requires w.Valid()
  {
    e.content == content && e.copy == |w.history| - 1 && w.clock <= e.now
    && All(e.policies) && All(e.assignments) && e.policiesListed && e.assignmentsListed && e.contentOk
    && e.repoOk && Reported(e) && e.firstWrite
  }

  predicate CleanRun(w: World, events: seq<Event>, content: RepoContent, h: Hash)
    requires w.Valid() && ValidRun(w, events, h)
  {
    events != [] ==>
      CleanRun(w, events[..|events| - 1], content, h)
      && Clean(Run(w, events[..|events| - 1], h), events[|events| - 1], content)
  }

  /** How many effective reconciles are still ahead. */
  function Rank(w: World, hash: string): nat
    requires w.Valid()
  {
    if w.Current().hash != hash then (if w.Current().mark.None? then 2 else 1)
    else if w.Current().mark.Some? then 1 else 0
  }

  predicate Waiting(w: World, e: Event, hash: string)
    requires w.Valid()
  {
    w.Current().hash != hash && w.Current().mark.Some? && !SettledMark(w.Current(), e.now)
  }

  /** A clean reconcile outside the wait window gets closer; inside it, and once everything is done, nothing is
      written. */
  lemma RankFalls(w: World, e: Event, content: RepoContent, h: Hash)
    requires w.Valid() && Clean(w, e, content)
    ensures var t, hash := Step(w, e, h), h(content);
            (Waiting(w, e, hash) || Rank(w, hash) == 0 ==> t == w.(clock := e.now))
            && (!Waiting(w, e, hash) && Rank(w, hash) > 0 ==> Rank(t, hash) == Rank(w, hash) - 1)
            && t.prs == (if w.Current().hash != hash && SettledMark(w.Current(), e.now)
                         then w.prs + [PullRequest(e.now, hash, true)] else w.prs)
            && (w.Current().hash == hash || t.prs != w.prs ==> t.Current().hash == hash)
            && (t.prs == w.prs ==> t.Current().hash == w.Current().hash && t.standing == w.standing)
            && (t.prs != w.prs ==> t.standing)
  {
    if w.Current().hash != h(content) && SettledMark(w.Current(), e.now) {
      CleanPublish(w.(clock := e.now), e, h(content));
    }
    hide Publish;
  }

  lemma CleanPublish(w: World, e: Event, hash: string)
    requires w.Valid() && e.copy == |w.history| - 1 && e.firstWrite && e.repoOk && Reported(e)
    ensures var t := Publish(w, e, w.Current(), hash);
            t.prs == w.prs + [PullRequest(e.now, hash, true)] && t.standing
            && t.Current() == RepoStatus(hash, None, Some(true))
  {
  }

  /** The reconciles of a run that fall outside the wait window. */
  function Effective(w: World, events: seq<Event>, content: RepoContent, h: Hash): nat
    requires w.Valid() && ValidRun(w, events, h)
  {
    if events == [] then 0
    else
      var front, e := events[..|events| - 1], events[|events| - 1];
      Effective(w, front, content, h) + if Waiting(Run(w, front, h), e, h(content)) then 0 else 1
  }

  /** From `w` to `t`, `n` effective reconciles later, with the content of this hash: at most one more pull request has
      been created, it carries that content, and there is none if that content is what had been published; the rank has
      counted down with every effective reconcile. */
  ghost predicate Settling(w: World, t: World, hash: string, n: nat)
    requires w.Valid() && t.Valid()
  {
    w.prs <= t.prs && |t.prs| <= |w.prs| + (if w.Current().hash == hash then 0 else 1)
    && (|t.prs| > |w.prs| ==> t.prs[|w.prs|].hash == hash && t.Current().hash == hash && t.standing)
    && (|t.prs| == |w.prs| ==> t.Current().hash == w.Current().hash && t.standing == w.standing)
    && Rank(t, hash) + n >= Rank(w, hash)
    && (Rank(t, hash) == 0 || Rank(t, hash) == Rank(w, hash) - n)
  }

  lemma SettlingStep(w: World, t: World, e: Event, content: RepoContent, h: Hash, n: nat)
    requires w.Valid() && t.Valid() && Settling(w, t, h(content), n) && Clean(t, e, content)
    ensures Settling(w, Step(t, e, h), h(content), n + if Waiting(t, e, h(content)) then 0 else 1)
  {
    hide Step, Clean, SettledMark;
    RankFalls(t, e, content, h);
  }

  /** Once the content stays the same, whatever happened before, the reconciles settle. */
  lemma {:induction false} BurstsSettle(w: World, events: seq<Event>, content: RepoContent, h: Hash)
    requires w.Valid() && ValidRun(w, events, h) && CleanRun(w, events, content, h)
    ensures Settling(w, Run(w, events, h), h(content), Effective(w, events, content, h))
  {
    if events == [] {
    } else {
      var front, e := events[..|events| - 1], events[|events| - 1];
      BurstsSettle(w, front, content, h);
      hide Step, Clean, Waiting, Settling;
      SettlingStep(w, Run(w, front, h), e, content, h, Effective(w, front, content, h));
    }
  }

  /** Two effective reconciles suffice: then exactly the current content has been published, and nothing is left to
      do. */
  lemma TwoReconcilesSuffice(w: World, events: seq<Event>, content: RepoContent, h: Hash)
    requires w.Valid() && ValidRun(w, events, h) && CleanRun(w, events, content, h)
    requires Effective(w, events, content, h) >= 2
    ensures var t, hash := Run(w, events, h), h(content);
            t.Current().hash == hash && t.Current().mark.None?
            && |t.prs| == |w.prs| + (if w.Current().hash == hash then 0 else 1)
            // The pull request stands, unless it had been closed and the content has reverted to it.
            && (t.standing <==> w.standing || w.Current().hash != hash)
  {
    BurstsSettle(w, events, content, h);
    hide Run, ValidRun, CleanRun, Effective;
  }

  /** After any run whose pull requests are recorded, two effective reconciles make the latest pull request carry the
      content. It stands unless a failed attempt has closed it and the content has reverted to it; after safe steps it
      always stands. */
  lemma LatestCarries(status: RepoStatus, clock: int, events: seq<Event>, calm: seq<Event>, content: RepoContent,
                      h: Hash)
    requires ValidRun(Start(status, clock), events, h) && RecordedThroughout(Start(status, clock), events, h)
    requires var w := Run(Start(status, clock), events, h);
             ValidRun(w, calm, h) && CleanRun(w, calm, content, h) && Effective(w, calm, content, h) >= 2
    ensures var w := Run(Start(status, clock), events, h);
            var t := Run(w, calm, h);
            (t.prs != [] ==> t.prs[|t.prs| - 1].hash == h(content))
            && (t.standing <==> w.standing || w.Current().hash != h(content))
            && (SafeThroughout(Start(status, clock), events, h) ==> t.standing)
  {
    hide *;
    var w := Run(Start(status, clock), events, h);
    PullRequestsAreSpaced(status, clock, events, h);
    if SafeThroughout(Start(status, clock), events, h) {
      SafeStands(status, clock, events, h);
    }
    BurstsSettle(w, calm, content, h);
    TwoReconcilesSuffice(w, calm, content, h);
    LatestSettles(w, Run(w, calm, h), h(content), Effective(w, calm, content, h));
  }

  lemma SafeStands(status: RepoStatus, clock: int, events: seq<Event>, h: Hash)
    requires ValidRun(Start(status, clock), events, h) && SafeThroughout(Start(status, clock), events, h)
    ensures Run(Start(status, clock), events, h).standing
  {
    RunInStepIff(status, clock, events, h);
    hide Run, ValidRun, SafeThroughout;
  }

  lemma LatestSettles(w: World, t: World, hash: string, n: nat)
    requires w.Valid() && t.Valid() && AfterLatest(w) && Settling(w, t, hash, n) && t.Current().hash == hash
    ensures t.prs != [] ==> t.prs[|t.prs| - 1].hash == hash
  {
    hide Rank;
  }

  /** From then on, reconciles write nothing. */
  lemma {:induction false} QuietAfterwards(w: World, events: seq<Event>, content: RepoContent, h: Hash)
    requires w.Valid() && ValidRun(w, events, h) && CleanRun(w, events, content, h)
    requires Rank(w, h(content)) == 0
    ensures var t := Run(w, events, h); t == w.(clock := t.clock)
  {
    if events == [] {
    } else {
      var front, e := events[..|events| - 1], events[|events| - 1];
      QuietAfterwards(w, front, content, h);
      RankFalls(Run(w, front, h), e, content, h);
    }
  }

  // ----- What the timeout does not give -----

  /** After a pull request at time `t`, recorded, the next one is more than the timeout away. */
  ghost predicate AlwaysApart(t: int, h: Hash) {
    forall w: World, e: Event ::
      w.Valid() && AfterLatest(w) && w.prs != [] && w.prs[|w.prs| - 1].time == t
      && e.copy < |w.history| && w.clock <= e.now && Step(w, e, h).prs != w.prs
      ==> e.now - t > TIMEOUT
  }

  /** In real time this is guaranteed only for pull requests that happen to be created on a whole second. */
  lemma AlwaysApartIff(t: int, h: Hash, a: RepoContent, b: RepoContent)
    requires h(a) != h(b)
    ensures AlwaysApart(t, h) <==> t % GRANULARITY == 0
  {
    if t % GRANULARITY == 0 {
      forall w: World, e: Event | w.Valid() && AfterLatest(w) && w.prs != [] && w.prs[|w.prs| - 1].time == t
                                  && e.copy < |w.history| && w.clock <= e.now && Step(w, e, h).prs != w.prs
        ensures e.now - t > TIMEOUT
      {
        GapFromMark(w, e, h);
      }
    } else {
      TooClose(t, h, a, b);
    }
  }

  lemma GapFromMark(w: World, e: Event, h: Hash)
    requires w.Valid() && AfterLatest(w) && w.prs != [] && e.copy < |w.history| && Step(w, e, h).prs != w.prs
    ensures e.now > Stored(w.prs[|w.prs| - 1].time) + TIMEOUT
  {
  }

  lemma TooClose(t: int, h: Hash, a: RepoContent, b: RepoContent)
    requires h(a) != h(b) && t % GRANULARITY != 0
    ensures !AlwaysApart(t, h)
  {
    var w := World([RepoStatus(h(a), Some(Stored(t)), Some(true))], t, [PullRequest(t, h(a), true)], true, 0, 0);
    var e := CleanEvent(Stored(t) + TIMEOUT + 1, 0, b);
    assert Step(w, e, h).prs == w.prs + [PullRequest(e.now, h(b), true)];
  }

  function CleanEvent(now: int, copy: nat, content: RepoContent): Event {
    Event(now, copy, [], [], content, true, true, true, true, Created, true, true)
  }

  /** Because marks are kept in whole seconds, two pull requests may be less than the timeout apart in real time. */
  lemma CloserThanTheTimeout(h: Hash, a: RepoContent, b: RepoContent)
    requires h(a) != h(b)
    ensures var w := World([RepoStatus(h(b), Some(0), None)], 3999, [], true, 0, 0);
            var t := Step(Step(Step(w, CleanEvent(3999, 0, a), h), CleanEvent(3999, 2, b), h), CleanEvent(6001, 3, b),
              h);
            |t.prs| == 2 && t.prs[1].time - t.prs[0].time < TIMEOUT
  {
    var w := World([RepoStatus(h(b), Some(0), None)], 3999, [], true, 0, 0);
    var w1 := Step(w, CleanEvent(3999, 0, a), h);
    assert w1.history == [RepoStatus(h(b), Some(0), None), RepoStatus(h(b), Some(0), Some(false)),
      RepoStatus(h(a), None, Some(true))];
    var w2 := Step(w1, CleanEvent(3999, 2, b), h);
    assert w2.history == w1.history + [RepoStatus(h(a), Some(3000), Some(true))];
  }

  /** If the status write after a pull request is lost, the next reconcile creates the same pull request again. */
  lemma LostWriteRepeatsPullRequest(h: Hash, a: RepoContent, initial: string)
    requires h(a) != initial
    ensures var w := World([RepoStatus(initial, Some(0), Some(false))], 4000, [], true, 0, 0);
            var t := Step(Step(w, CleanEvent(4000, 0, a).(lastWrite := false), h), CleanEvent(4001, 0, a), h);
            t.prs == [PullRequest(4000, h(a), true), PullRequest(4001, h(a), true)]
  {
    var w := World([RepoStatus(initial, Some(0), Some(false))], 4000, [], true, 0, 0);
    var w1 := Step(w, CleanEvent(4000, 0, a).(lastWrite := false), h);
    assert w1.history == w.history && w1.prs == [PullRequest(4000, h(a), true)];
  }

  /** The same happens if the pull request has been created but its label could not be set. */
  lemma FailedLabelRepeatsPullRequest(h: Hash, a: RepoContent, initial: string)
    requires h(a) != initial
    ensures var w := World([RepoStatus(initial, Some(0), Some(false))], 4000, [], true, 0, 0);
            var t := Step(Step(w, CleanEvent(4000, 0, a).(create := CreatedWithError), h), CleanEvent(4001, 0, a), h);
            t.prs == [PullRequest(4000, h(a), false), PullRequest(4001, h(a), true)]
  {
    var w := World([RepoStatus(initial, Some(0), Some(false))], 4000, [], true, 0, 0);
    var w1 := Step(w, CleanEvent(4000, 0, a).(create := CreatedWithError), h);
    assert w1.history == w.history && w1.prs == [PullRequest(4000, h(a), false)];
  }

  /** If an attempt closes the earlier pull request and creates none, and the content then reverts, the reconciler
      is done while no pull request is open. */
  lemma RevertedAttemptLeavesNone(h: Hash, a: RepoContent, b: RepoContent)
    requires h(a) != h(b)
    ensures var w := World([RepoStatus(h(a), Some(0), Some(false))], 4000, [PullRequest(0, h(a), true)], true, 0, 0);
            var t := Step(Step(w, CleanEvent(4000, 0, b).(create := Withdrawn), h), CleanEvent(4001, 0, a), h);
            InStep(w) && t.prs == w.prs && Rank(t, h(a)) == 0 && !t.standing
  {
    var w := World([RepoStatus(h(a), Some(0), Some(false))], 4000, [PullRequest(0, h(a), true)], true, 0, 0);
    var w1 := Step(w, CleanEvent(4000, 0, b).(create := Withdrawn), h);
    assert w1.history == w.history && !w1.standing;
  }
}
