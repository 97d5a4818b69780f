/** The GitOps repository reconciler, step by step, proved against `PullRequestProtocol.Step`. */
module PullRequestReconciler {
  import opened Basics
  import opened PullRequestProtocol

  class Reconciler {
    const h: Hash

    /** The versions of the persisted status. */
    var history: seq<RepoStatus>
    var clock: int
    var prs: seq<PullRequest>
    var standing: bool
    var attempts: nat
    var writes: nat

    constructor (h: Hash, status: RepoStatus, clock: int)
      ensures this.h == h && Now() == Start(status, clock)
    {
      this.h, this.history, this.clock, this.prs, this.standing := h, [status], clock, [], true;
      this.attempts, this.writes := 0, 0;
    }

    ghost function Now(): World
      reads this
    {
      World(history, clock, prs, standing, attempts, writes)
    }

    /** The status subresource update with its version check. */
    method UpdateStatus(version: nat, status: RepoStatus, ok: bool) returns (accepted: bool)
      requires history != []
      modifies `history, `writes
      ensures var r := WriteStatus(old(Now()), version, status, ok); Now() == r.world && accepted == r.accepted
      ensures history != []
    {
      writes := writes + 1;
      accepted := ok && version == |history| - 1;
      if accepted && status != history[|history| - 1] {
        history := history + [status];
      }
    }

    method ManageFailure(version: nat, status: RepoStatus, ok: bool)
      requires history != []
      modifies `history, `writes
      ensures Now() == Fail(old(Now()), version, status, ok)
    {
      var _ := UpdateStatus(version, status.(ready := Some(false)), ok);
    }

    method AllTrue(conditions: seq<bool>) returns (ready: bool)
      ensures ready <==> All(conditions)
    {
      ready := true;
      for i := 0 to |conditions|
        invariant ready && forall j :: 0 <= j < i ==> conditions[j]
      {
        if !conditions[i] {
          ready := false;
          break;
        }
      }
    }

    method Reconcile(e: Event)
      requires e.copy < |history|
      modifies this
      ensures Now() == Step(old(Now()), e, h)
      ensures history != []
    {
      hide Fail, WriteStatus;
      clock := e.now;
      var status := history[e.copy];
      if !e.policiesListed {
        ManageFailure(e.copy, status, e.firstWrite);
        return;
      }
      var readyToPR := AllTrue(e.policies);
      if readyToPR {
        if !e.assignmentsListed {
          ManageFailure(e.copy, status, e.firstWrite);
          return;
        }
        readyToPR := AllTrue(e.assignments);
      }
      if readyToPR {
        if !e.contentOk {
          ManageFailure(e.copy, status, e.firstWrite);
          return;
        }
        var hash := h(e.content);
        if status.hash != hash {
          if status.mark.Some? {
            if status.mark.value + TIMEOUT < e.now {
              CreatePullRequest(e, status, hash);
            }
          } else {
            status := status.(mark := Some(Stored(e.now)));
            var _ := UpdateStatus(e.copy, status, e.firstWrite);
          }
        } else {
          if status.mark.Some? {
            status := status.(mark := None);
            var _ := UpdateStatus(e.copy, status, e.firstWrite);
          }
        }
      }
    }

    /** GitHub: closes the earlier pull requests and creates the new one; that it exists already is not an error. */
    method CreatePR(e: Event, hash: string) returns (ok: bool)
      requires history != []
      modifies `attempts, `prs, `standing
      ensures ok <==> e.create.Created? || e.create.AlreadyExists?
      ensures var called := old(Now()).(attempts := old(attempts) + 1);
              Now() == if e.create.Rejected? then called
                       else if e.create.Withdrawn? then called.(standing := false)
                       else Add(called, PullRequest(e.now, hash, ok))
    {
      attempts := attempts + 1;
      if e.create.Rejected? {
        return false;
      }
      standing := false;
      if e.create.Withdrawn? {
        return false;
      }
      prs := prs + [PullRequest(e.now, hash, !e.create.CreatedWithError?)];
      standing := true;
      ok := !e.create.CreatedWithError?;
    }

    method CreatePullRequest(e: Event, copy: RepoStatus, hash: string)
      requires history != []
      modifies this
      ensures Now() == Publish(old(Now()), e, copy, hash)
      ensures history != []
    {
      hide Fail, WriteStatus;
      var status := copy.(ready := Some(false));
      var accepted := UpdateStatus(e.copy, status, e.firstWrite);
      if !accepted {
        return;
      }
      var version := |history| - 1;
      if !e.repoOk {
        ManageFailure(version, status, e.lastWrite);
        return;
      }
      var created := CreatePR(e, hash);
      if !created {
        ManageFailure(version, status, e.lastWrite);
        return;
      }
      status := status.(ready := Some(true));
      status := status.(mark := None);
      status := status.(hash := hash);
      var _ := UpdateStatus(version, status, e.lastWrite);
    }
  }
}
