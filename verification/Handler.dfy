/** The stop-node and restart-node branches of the web handler, and what the quorum guard keeps. */
module Handler {
  import opened Wire
  import opened Member
  import opened Cluster
  import Registry

  /** A request for the member at idx; `allowed` is the rate limiter's answer and `launched` etcd's. */
  datatype Request =
    | StopNode(idx: nat, allowed: bool, when: string)
    | RestartNode(idx: nat, allowed: bool, launched: Option<Uint64>, when: string)

  datatype Reply =
    | RateLimited | QuorumLost | AlreadyStopped | StoppedNode | AlreadyStarted | RestartFailed | RestartedNode

  /** The Success flag of the response. */
  predicate Success(reply: Reply) {
    reply.StoppedNode? || reply.RestartedNode?
  }

  // ---------------------------------------------------------------- requests as a function

  function Decide(sts: seq<NodeStatus>, req: Request): Reply
    requires req.idx < |sts|
  {
    if !req.allowed then RateLimited
    else match req
      case StopNode(idx, _, _) =>
        if Active(sts) < Quorum(|sts|) then QuorumLost
        else if sts[idx].state == STOPPED then AlreadyStopped
        else StoppedNode
      case RestartNode(idx, _, launched, _) =>
        if sts[idx].state != STOPPED then AlreadyStarted
        else if launched.Some? then RestartedNode
        else RestartFailed
  }

  function Handle(sts: seq<NodeStatus>, req: Request): (r: seq<NodeStatus>)
    requires req.idx < |sts|
    ensures |r| == |sts|
  {
    if !Success(Decide(sts, req)) then sts
    else
      var ev := if req.StopNode? then Stopping(req.when) else Restarted(req.when);
      sts[req.idx := After(sts[req.idx], ev, "", "")]
  }

  predicate InRange(n: nat, reqs: seq<Request>) {
    forall r :: r in reqs ==> r.idx < n
  }

  function Run(sts: seq<NodeStatus>, reqs: seq<Request>): (r: seq<NodeStatus>)
    requires InRange(|sts|, reqs)
    ensures |r| == |sts|
    decreases |reqs|
  {
    if reqs == [] then sts else Run(Handle(sts, reqs[0]), reqs[1..])
  }

  // ---------------------------------------------------------------- the handler

  /** stop-node. No reply stands for the panic of Stop on a member without a server. */
  method StopNodeRequest(clus: Cluster, idx: nat, allowed: bool, when: string) returns (reply: Option<Reply>)
    requires clus.Valid() && idx < |clus.members|
    modifies clus.members`status
    ensures clus.Valid()
    ensures var sts, req := old(clus.Statuses()), StopNode(idx, allowed, when);
            if Decide(sts, req) == StoppedNode && clus.members[idx].server.None? then
              reply == None && clus.Statuses() == sts
            else
              reply == Some(Decide(sts, req)) && clus.Statuses() == Handle(sts, req)
    ensures var n, active := |clus.members|, Active(old(clus.Statuses()));
            var m, was := clus.members[idx], old(clus.members[idx].status);
            if !allowed then reply == Some(RateLimited) && m.status == was
            else if 2 * active <= n then reply == Some(QuorumLost) && m.status == was
            else if was.state == "Stopped" then reply == Some(AlreadyStopped) && m.status == was
            else if m.server.None? then reply == None && m.status == was
            else
              && reply == Some(StoppedNode) && m.status.state == "Stopped" && !m.status.isLeader
              && m.status.dbSize == 0 && m.status.dbSizeTxt == "" && m.status.hash == 0
              && KeepsIdentity(m.status, was)
    ensures forall i :: 0 <= i < |clus.members| && i != idx ==>
              clus.members[i].status == old(clus.members[i].status)
  {
    hide clus.Addressed, Registry.Consistent, Coherent, Active;
    ghost var sts := clus.Statuses();
    if !allowed { return Some(RateLimited); }
    var active := clus.ActiveNodeN();
    if active < Quorum(|clus.members|) { return Some(QuorumLost); }
    var m := clus.members[idx];
    if m.status.state == STOPPED { return Some(AlreadyStopped); }
    if m.server.None? { return None; }
    AfterCoherent(m.status, Stopping(when), m.cfg.name, UrlText(m.cfg.clientUrl));
    m.Stop(when);
    assert clus.Statuses() == sts[idx := m.status];
    return Some(StoppedNode);
  }

  /** restart-node. No reply stands for the panic of Restart on a member without a server. */
  method RestartNodeRequest(clus: Cluster, idx: nat, allowed: bool, launched: Option<Uint64>, when: string)
    returns (reply: Option<Reply>)
    requires clus.Valid() && idx < |clus.members|
    modifies clus.members
    ensures clus.Valid()
    ensures var sts, req := old(clus.Statuses()), RestartNode(idx, allowed, launched, when);
            if Decide(sts, req) in {RestartedNode, RestartFailed} && old(clus.members[idx].server).None? then
              reply == None && clus.Statuses() == sts
            else
              reply == Some(Decide(sts, req)) && clus.Statuses() == Handle(sts, req)
    ensures var m, was := clus.members[idx], old(clus.members[idx].status);
            if !allowed then reply == Some(RateLimited) && m.status == was
            else if was.state != "Stopped" then reply == Some(AlreadyStarted) && m.status == was
            else if old(m.server).None? then reply == None && m.status == was
            else if launched.None? then reply == Some(RestartFailed) && m.status == was
            else
              && reply == Some(RestartedNode) && m.status.state == "Follower" && !m.status.isLeader
              && KeepsIdentity(m.status, was) && KeepsData(m.status, was)
    ensures forall i :: 0 <= i < |clus.members| && i != idx ==>
              clus.members[i].status == old(clus.members[i].status)
  {
    hide Registry.HostAt, Registry.NodeName, Registry.Consistent, Coherent, Active;
    ghost var sts := clus.Statuses();
    if !allowed { return Some(RateLimited); }
    var m := clus.members[idx];
    if m.status.state != STOPPED { return Some(AlreadyStarted); }
    if m.server.None? { return None; }
    AfterCoherent(m.status, Restarted(when), m.cfg.name, UrlText(m.cfg.clientUrl));
    var ok := m.Restart(launched, when);
    assert clus.Statuses() == sts[idx := m.status];
    reply := Some(if ok then RestartedNode else RestartFailed);
  }

  // ---------------------------------------------------------------- counting

  function One(st: NodeStatus): nat {
    if st.state != STOPPED then 1 else 0
  }

  lemma {:induction false} ActiveUpdate(sts: seq<NodeStatus>, i: nat, st: NodeStatus)
    requires i < |sts|
    ensures Active(sts[i := st]) == Active(sts) - One(sts[i]) + One(st)
  {
    var k := |sts| - 1;
    if i < k {
      ActiveUpdate(sts[..k], i, st);
      assert sts[i := st][..k] == sts[..k][i := st];
    } else {
      assert sts[i := st][..k] == sts[..k];
    }
  }

  ghost predicate AllRunning(sts: seq<NodeStatus>) {
    forall i :: 0 <= i < |sts| ==> sts[i].state != STOPPED
  }

  lemma {:induction false} AllRunningActive(sts: seq<NodeStatus>)
    requires AllRunning(sts)
    ensures Active(sts) == |sts|
  {
    if sts != [] { AllRunningActive(sts[..|sts| - 1]); }
  }

  // ---------------------------------------------------------------- one request

  /** A request changes the number of running members by one when it succeeds, down for a stop and
      up for a restart, and otherwise changes nothing at all. */
  lemma {:induction false} RequestEffect(sts: seq<NodeStatus>, req: Request)
    requires req.idx < |sts|
    ensures !Success(Decide(sts, req)) ==> Handle(sts, req) == sts
    ensures Decide(sts, req) == StoppedNode ==> Active(Handle(sts, req)) == Active(sts) - 1
    ensures Decide(sts, req) == RestartedNode ==> Active(Handle(sts, req)) == Active(sts) + 1
    ensures forall i :: 0 <= i < |sts| && i != req.idx ==> Handle(sts, req)[i] == sts[i]
  {
    StatesDiffer();
    if Success(Decide(sts, req)) {
      ActiveUpdate(sts, req.idx, Handle(sts, req)[req.idx]);
    }
  }

  /** An allowed stop of a running member is accepted exactly when more than half the members run. */
  lemma {:induction false} StopAcceptedIff(sts: seq<NodeStatus>, req: Request)
    requires req.idx < |sts| && req.StopNode? && req.allowed && sts[req.idx].state != "Stopped"
    ensures Decide(sts, req) == StoppedNode <==> 2 * Active(sts) > |sts|
    ensures Decide(sts, req) == QuorumLost <==> 2 * Active(sts) <= |sts|
  {
    hide Active, Quorum;
  }

  /** An accepted stop leaves a quorum running exactly when more than a quorum was running: the
      guard compares with the count before the stop. */
  lemma {:induction false} StopKeepsQuorumIff(sts: seq<NodeStatus>, req: Request)
    requires req.idx < |sts| && Decide(sts, req) == StoppedNode
    ensures Active(Handle(sts, req)) >= Quorum(|sts|) <==> Active(sts) > Quorum(|sts|)
    ensures 2 * Active(Handle(sts, req)) > |sts| <==> 2 * (Active(sts) - 1) > |sts|
  {
    RequestEffect(sts, req);
  }

  // ---------------------------------------------------------------- runs

  lemma {:induction false} GuardOverRuns(sts: seq<NodeStatus>, reqs: seq<Request>)
    requires InRange(|sts|, reqs) && Active(sts) >= Quorum(|sts|) - 1
    ensures Active(Run(sts, reqs)) >= Quorum(|sts|) - 1
    decreases |reqs|
  {
    hide Active, Decide, Handle;
    if reqs != [] {
      RequestEffect(sts, reqs[0]);
      DecideStopped(sts, reqs[0]);
      GuardOverRuns(Handle(sts, reqs[0]), reqs[1..]);
    }
  }

  lemma {:induction false} DecideStopped(sts: seq<NodeStatus>, req: Request)
    requires req.idx < |sts|
    ensures Decide(sts, req) == StoppedNode ==> Active(sts) >= Quorum(|sts|)
  {}

  /** From a cluster with all members running, no sequence of requests takes the number of running
      members more than one below the quorum. */
  lemma {:induction false} QuorumGuard(sts: seq<NodeStatus>, reqs: seq<Request>)
    requires InRange(|sts|, reqs) && AllRunning(sts)
    ensures Active(Run(sts, reqs)) >= Quorum(|sts|) - 1
    ensures 2 * (Active(Run(sts, reqs)) + 1) > |sts|
  {
    AllRunningActive(sts);
    GuardOverRuns(sts, reqs);
  }

  lemma {:induction false} RunsStayCoherent(sts: seq<NodeStatus>, reqs: seq<Request>)
    requires InRange(|sts|, reqs) && forall i :: 0 <= i < |sts| ==> Coherent(sts[i])
    ensures forall i :: 0 <= i < |sts| ==> Coherent(Run(sts, reqs)[i])
    decreases |reqs|
  {
    hide Active, Coherent, Decide, After;
    if reqs != [] {
      var req := reqs[0];
      AfterCoherent(sts[req.idx], if req.StopNode? then Stopping(req.when) else Restarted(req.when), "", "");
      RunsStayCoherent(Handle(sts, req), reqs[1..]);
    }
  }

  // ---------------------------------------------------------------- the bound is reached

  /** Stop requests for the members from `first` on, n of them. */
  function StopsFrom(first: nat, n: nat): seq<Request>
    decreases n
  {
    if n == 0 then [] else [StopNode(first, true, "")] + StopsFrom(first + 1, n - 1)
  }

  lemma {:induction false} StopAccepted(sts: seq<NodeStatus>, req: Request)
    requires req.idx < |sts| && req.StopNode? && req.allowed
    ensures Decide(sts, req) == StoppedNode <==> Active(sts) >= Quorum(|sts|) && sts[req.idx].state != STOPPED
  {}

  lemma {:induction false} StopTaken(sts: seq<NodeStatus>, idx: nat)
    requires idx < |sts| && sts[idx].state != STOPPED && Active(sts) >= Quorum(|sts|)
    ensures var next := Handle(sts, StopNode(idx, true, ""));
            Active(next) == Active(sts) - 1 && forall i :: 0 <= i < |sts| && i != idx ==> next[i] == sts[i]
  {
    hide Active, Handle;
    var req := StopNode(idx, true, "");
    StopAccepted(sts, req);
    RequestEffect(sts, req);
  }

  lemma {:induction false} RunNone(sts: seq<NodeStatus>)
    ensures InRange(|sts|, []) && Run(sts, []) == sts
  {}

  /** A run of one request and then others. */
  lemma {:induction false} RunOn(sts: seq<NodeStatus>, req: Request, rest: seq<Request>)
    requires req.idx < |sts| && InRange(|sts|, rest)
    ensures InRange(|sts|, [req] + rest) && Run(sts, [req] + rest) == Run(Handle(sts, req), rest)
  {
    hide Handle;
    assert ([req] + rest)[1..] == rest;
  }

  lemma {:induction false} StopsLower(sts: seq<NodeStatus>, first: nat, n: nat)
    requires first + n <= |sts| && forall i :: first <= i < |sts| ==> sts[i].state != STOPPED
    requires Active(sts) >= Quorum(|sts|) - 1 + n
    ensures InRange(|sts|, StopsFrom(first, n))
    ensures Active(Run(sts, StopsFrom(first, n))) == Active(sts) - n
    decreases n
  {
    hide Active, Decide, Handle, Quorum, Run, InRange;
    if n == 0 {
      RunNone(sts);
    } else {
      var req := StopNode(first, true, "");
      StopTaken(sts, first);
      StopsLower(Handle(sts, req), first + 1, n - 1);
      RunOn(sts, req, StopsFrom(first + 1, n - 1));
    }
  }

  lemma {:induction false} AllRunningFrom(sts: seq<NodeStatus>)
    requires AllRunning(sts)
    ensures forall i :: 0 <= i < |sts| ==> sts[i].state != STOPPED
  {}

  /** The guard does let a non-empty cluster lose its quorum: these stops are all accepted, leave one
      member too few, and only then is any further stop rejected. */
  lemma {:induction false} QuorumIsLost(sts: seq<NodeStatus>, idx: nat, when: string)
    requires sts != [] && AllRunning(sts) && idx < |sts|
    ensures var reqs := StopsFrom(0, |sts| - Quorum(|sts|) + 1);
            && InRange(|sts|, reqs)
            && Active(Run(sts, reqs)) == Quorum(|sts|) - 1
            && 2 * Active(Run(sts, reqs)) <= |sts| < 2 * (Active(Run(sts, reqs)) + 1)
            && Decide(Run(sts, reqs), StopNode(idx, true, when)) == QuorumLost
  {
    hide Run, Active, StopsFrom, InRange, Quorum, AllRunning;
    AllRunningActive(sts);
    AllRunningFrom(sts);
    StopsLower(sts, 0, |sts| - Quorum(|sts|) + 1);
  }
}
