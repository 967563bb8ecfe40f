/** A member of the cluster and its status, as the transitions of cluster/member.go drive it. The
    answers of etcd, of gRPC and of the clock are parameters. */
module Member {
  import opened Wire
  import opened Message

  const STOPPED: string := "Stopped"
  const FOLLOWER: string := "Follower"
  const LEADER: string := "Leader"

  type NodeStatus = MemberStatus<string>

  // ---------------------------------------------------------------- transitions as a function

  /** What one answer of etcd does to the status, or one action. */
  datatype Event =
    | Started(when: string)                                    // Start, server ready
    | Restarted(when: string)                                  // Restart, server launched
    | Stopping(when: string)                                   // Stop
    | Polled(answer: Answer)                                   // one answer inside WaitForLeader
    | Fetched(fetch: Fetch)                                    // FetchMemberStatus

  /** cli.Status in WaitForLeader: an error, or the member's id as a number and as text, and the leader. */
  datatype Answer = NoAnswer | Answer(memberId: Uint64, idText: string, leader: Uint64)

  /** How far FetchMemberStatus gets. */
  datatype Fetch =
    | NoClient
    | NotReachable(when: string, err: string)                  // cli.Status or grpc.Dial fails
    | NoHash(when: string, err: string)                        // the Hash call fails
    | Healthy(memberId: Uint64, leader: Uint64, idText: string, since: string,
              dbSize: int, dbSizeText: string, hash: Uint32)

  function Initial(name: string, endpoint: string): NodeStatus {
    MemberStatus(name, "", endpoint, false, STOPPED, "", 0, "", 0)
  }

  function IfLeader(leads: bool): string {
    if leads then LEADER else FOLLOWER
  }

  /** The fields every failure and every stop clears. */
  function Cleared(st: NodeStatus, txt: string): NodeStatus {
    st.(isLeader := false, state := STOPPED, stateTxt := txt, dbSize := 0, dbSizeTxt := "", hash := 0)
  }

  function After(st: NodeStatus, ev: Event, name: string, endpoint: string): NodeStatus {
    match ev
    case Started(when) =>
      st.(state := FOLLOWER, stateTxt := st.name + " just started (" + when + ")", isLeader := false)
    case Restarted(when) =>
      if st.state != STOPPED then st
      else st.(state := FOLLOWER, stateTxt := st.name + " just restarted (" + when + ")", isLeader := false)
    case Stopping(when) =>
      if st.state == STOPPED then st else Cleared(st, st.name + " just stopped (" + when + ")")
    case Polled(answer) => AfterAnswer(st, answer)
    case Fetched(fetch) => AfterFetch(st, fetch, name, endpoint)
  }

  function AfterAnswer(st: NodeStatus, answer: Answer): NodeStatus {
    match answer
    case NoAnswer => st
    case Answer(memberId, idText, leader) =>
      var leads := leader != 0 && leader == memberId;
      st.(id := idText, isLeader := leads, state := IfLeader(leads))
  }

  function AfterFetch(st: NodeStatus, fetch: Fetch, name: string, endpoint: string): NodeStatus {
    match fetch
    case NoClient => st
    case NotReachable(when, err) => Cleared(st, st.name + " is not reachable (" + when + " - " + err + ")")
    case NoHash(when, err) =>
      Cleared(st, st.name + " was not reachable while getting hash (" + when + " - " + err + ")")
    case Healthy(memberId, leader, idText, since, dbSize, dbSizeText, hash) =>
      var leads := memberId == leader;
      MemberStatus(name, idText, endpoint, leads, IfLeader(leads),
                   st.name + " has been healthy (since " + since + ")",
                   dbSize % TWO_64, dbSizeText, hash)
  }

  // ---------------------------------------------------------------- what holds after any run

  /** The flag and the state agree, and a stopped member shows no data. */
  predicate Coherent(st: NodeStatus) {
    && st.state in {STOPPED, FOLLOWER, LEADER}
    && (st.isLeader <==> st.state == LEADER)
    && (st.state == STOPPED ==> st.dbSize == 0 && st.dbSizeTxt == "" && st.hash == 0)
  }

  lemma {:induction false} StatesDiffer()
    ensures STOPPED != FOLLOWER && STOPPED != LEADER && FOLLOWER != LEADER
  {
    assert STOPPED[0] == 'S' && FOLLOWER[0] == 'F' && LEADER[0] == 'L';
  }

  lemma {:induction false} InitialMeans(name: string, endpoint: string)
    ensures Initial(name, endpoint) == MemberStatus(name, "", endpoint, false, "Stopped", "", 0, "", 0)
  {}

  lemma {:induction false} StoppedShowsNothing(st: NodeStatus)
    requires Coherent(st) && st.state == STOPPED
    ensures !st.isLeader && st.dbSize == 0 && st.dbSizeTxt == "" && st.hash == 0
  {
    StatesDiffer();
  }

  lemma {:induction false} InitialCoherent(name: string, endpoint: string)
    ensures Coherent(Initial(name, endpoint))
  {
    StatesDiffer();
  }

  lemma {:induction false} AfterCoherent(st: NodeStatus, ev: Event, name: string, endpoint: string)
    requires Coherent(st)
    ensures Coherent(After(st, ev, name, endpoint))
  {
    hide AfterFetch, AfterAnswer, Cleared;
    StatesDiffer();
    match ev
    case Stopping(when) => ClearedCoherent(st, st.name + " just stopped (" + when + ")");
    case Polled(answer) => AnswerCoherent(st, answer);
    case Fetched(fetch) => FetchCoherent(st, fetch, name, endpoint);
    case _ =>
  }

  lemma {:induction false} ClearedCoherent(st: NodeStatus, txt: string)
    ensures Coherent(Cleared(st, txt))
  {
    StatesDiffer();
  }

  lemma {:induction false} AnswerCoherent(st: NodeStatus, answer: Answer)
    requires Coherent(st)
    ensures Coherent(AfterAnswer(st, answer))
  {
    StatesDiffer();
  }

  lemma {:induction false} FetchCoherent(st: NodeStatus, fetch: Fetch, name: string, endpoint: string)
    requires Coherent(st)
    ensures Coherent(AfterFetch(st, fetch, name, endpoint))
  {
    hide Cleared;
    StatesDiffer();
    match fetch
    case NotReachable(when, err) => ClearedCoherent(st, st.name + " is not reachable (" + when + " - " + err + ")");
    case NoHash(when, err) =>
      ClearedCoherent(st, st.name + " was not reachable while getting hash (" + when + " - " + err + ")");
    case _ =>
  }

  lemma {:induction false} LeaderRuns(st: NodeStatus)
    requires Coherent(st) && st.isLeader
    ensures st.state != STOPPED
  {
    StatesDiffer();
  }

  function Run(st: NodeStatus, evs: seq<Event>, name: string, endpoint: string): NodeStatus
    decreases |evs|
  {
    if evs == [] then st
    else Run(After(st, evs[0], name, endpoint), evs[1..], name, endpoint)
  }

  /** A status is coherent after any sequence of actions and answers. */
  lemma {:induction false} RunCoherent(st: NodeStatus, evs: seq<Event>, name: string, endpoint: string)
    requires Coherent(st)
    ensures Coherent(Run(st, evs, name, endpoint))
    decreases |evs|
  {
    hide After, Coherent;
    if evs != [] {
      AfterCoherent(st, evs[0], name, endpoint);
      RunCoherent(After(st, evs[0], name, endpoint), evs[1..], name, endpoint);
    }
  }

  lemma {:induction false} FreshRunCoherent(evs: seq<Event>, name: string, endpoint: string)
    ensures Coherent(Run(Initial(name, endpoint), evs, name, endpoint))
  {
    InitialCoherent(name, endpoint);
    RunCoherent(Initial(name, endpoint), evs, name, endpoint);
  }

  // ---------------------------------------------------------------- waiting for a leader

  /** What the member's own server says of its leader: its stop channel is closed, or the leader it knows. */
  datatype Lead = StopSeen | LeadIs(id: Uint64)

  /** One turn of the polling loop: what the server says until it knows a leader, and the answer then. */
  datatype Poll = Poll(leads: seq<Lead>, answer: Answer)

  /** All that a waiting member is told: whether its client can be made, how its linearizable reads
      end, and the turns of the polling loop. */
  datatype WaitAnswer = WaitAnswer(clientOk: bool, gets: seq<bool>, polls: seq<Poll>)

  /** How waiting ends: the program panics on a member without a server, the client cannot be made,
      the member would go on waiting, or it is done. */
  datatype WaitEnd = NilServer | NoClientMade | Waiting | Done

  /** The inner loop: the first leader other than zero that is one of the members. */
  function FirstLead(leads: seq<Lead>, possible: set<Uint64>): (lead: Option<Uint64>)
    ensures lead.Some? ==> lead.value != 0 && lead.value in possible && LeadIs(lead.value) in leads
  {
    if leads == [] then None
    else if leads[0].LeadIs? && leads[0].id != 0 && leads[0].id in possible then Some(leads[0].id)
    else FirstLead(leads[1..], possible)
  }

  /** None of the first n things the server says names a member. */
  predicate NoLeadIn(leads: seq<Lead>, n: nat, possible: set<Uint64>)
    requires n <= |leads|
  {
    forall i :: 0 <= i < n ==> leads[i].StopSeen? || leads[i].id == 0 || leads[i].id !in possible
  }

  /** The inner loop finds the first leader that the server names, counting no stop, no zero and no
      stranger, and finds none exactly when the server never names one. */
  lemma {:induction false} FirstLeadIff(leads: seq<Lead>, possible: set<Uint64>, i: nat)
    requires i < |leads|
    ensures leads[i].LeadIs? && leads[i].id != 0 && leads[i].id in possible && NoLeadIn(leads, i, possible) ==>
              FirstLead(leads, possible) == Some(leads[i].id)
    ensures FirstLead(leads, possible).None? <==> NoLeadIn(leads, |leads|, possible)
  {
    var rest := leads[1..];
    assert forall j :: 0 <= j < |rest| ==> rest[j] == leads[j + 1];
    assert forall j :: 1 <= j < |leads| ==> leads[j] == rest[j - 1];
    if rest != [] { FirstLeadIff(rest, possible, if i > 0 then i - 1 else 0); }
  }

  /** The answer names the leader that the server knew. */
  predicate Agreed(poll: Poll, possible: set<Uint64>) {
    poll.answer.Answer? && FirstLead(poll.leads, possible) == Some(poll.answer.leader)
  }

  /** The status after polling until the server's leader and the answered one agree. */
  function PollAll(st: NodeStatus, polls: seq<Poll>, possible: set<Uint64>): NodeStatus
    decreases |polls|
  {
    if polls == [] || FirstLead(polls[0].leads, possible).None? then st
    else if Agreed(polls[0], possible) then AfterAnswer(st, polls[0].answer)
    else PollAll(AfterAnswer(st, polls[0].answer), polls[1..], possible)
  }

  /** The number of turns before the one that agrees, when there is one. */
  function AgreedAt(polls: seq<Poll>, possible: set<Uint64>): Option<nat> {
    if polls == [] || FirstLead(polls[0].leads, possible).None? then None
    else if Agreed(polls[0], possible) then Some(0)
    else match AgreedAt(polls[1..], possible)
      case None => None
      case Some(k) => Some(k + 1)
  }

  /** Turn k is the one that ends the polling exactly when it agrees, no earlier one does, and no
      earlier one is still waiting for a leader. */
  lemma {:induction false} AgreedAtIff(polls: seq<Poll>, possible: set<Uint64>, k: nat)
    ensures AgreedAt(polls, possible) == Some(k) <==>
            && k < |polls| && polls[k].answer.Answer?
            && FirstLead(polls[k].leads, possible) == Some(polls[k].answer.leader)
            && forall i :: 0 <= i < k ==>
                 && FirstLead(polls[i].leads, possible).Some?
                 && (polls[i].answer.NoAnswer?
                     || FirstLead(polls[i].leads, possible) != Some(polls[i].answer.leader))
    decreases |polls|
  {
    hide FirstLead;
    if polls != [] && k > 0 {
      var rest := polls[1..];
      AgreedAtIff(rest, possible, k - 1);
      assert forall i :: 0 <= i < |rest| ==> rest[i] == polls[i + 1];
      assert forall i :: 1 <= i < |polls| ==> polls[i] == rest[i - 1];
    }
  }

  /** Waiting ends on the first turn that agrees, and the status then is that turn's answer: it names
      one of the members as leader, and the flag says whether that is the member itself. */
  lemma {:induction false} PollAllSettles(st: NodeStatus, polls: seq<Poll>, possible: set<Uint64>)
    requires AgreedAt(polls, possible).Some?
    ensures var k := AgreedAt(polls, possible).value;
            && k < |polls| && Agreed(polls[k], possible) && (forall i :: 0 <= i < k ==> !Agreed(polls[i], possible))
            && var last, answer := PollAll(st, polls, possible), polls[k].answer;
               && last == AfterAnswer(st, answer)
               && answer.leader != 0 && answer.leader in possible && LeadIs(answer.leader) in polls[k].leads
               && last.id == answer.idText
               && last.isLeader == (answer.leader == answer.memberId)
               && last.state == IfLeader(last.isLeader)
    decreases |polls|
  {
    hide FirstLead;
    if !Agreed(polls[0], possible) {
      PollAllSettles(AfterAnswer(st, polls[0].answer), polls[1..], possible);
    }
  }

  /** What one answer makes of the status: none leaves it alone; without a leader the member follows;
      otherwise the flag and the state say whether the member is the leader. The rest stays. */
  lemma {:induction false} AnswerMeans(st: NodeStatus, answer: Answer)
    ensures answer.NoAnswer? ==> AfterAnswer(st, answer) == st
    ensures answer.Answer? ==>
              var leads := answer.leader != 0 && answer.leader == answer.memberId;
              AfterAnswer(st, answer)
              == st.(id := answer.idText, isLeader := leads, state := if leads then "Leader" else "Follower")
  {}

  /** While nothing is settled, the status is what the last answer that came makes of it. */
  lemma {:induction false} PollAllLast(st: NodeStatus, polls: seq<Poll>, possible: set<Uint64>, j: nat)
    requires AgreedAt(polls, possible).None? && j < |polls| && polls[j].answer.Answer?
    requires forall i :: 0 <= i <= j ==> FirstLead(polls[i].leads, possible).Some?
    requires forall i :: j < i < |polls| ==> polls[i].answer.NoAnswer?
    ensures PollAll(st, polls, possible) == AfterAnswer(st, polls[j].answer)
    decreases |polls|
  {
    hide FirstLead;
    var rest, next := polls[1..], AfterAnswer(st, polls[0].answer);
    assert forall i :: 0 <= i < |rest| ==> rest[i] == polls[i + 1];
    if j == 0 {
      SilentPolls(next, rest, possible);
    } else {
      PollAllLast(next, rest, possible, j - 1);
    }
  }

  lemma {:induction false} SilentPolls(st: NodeStatus, polls: seq<Poll>, possible: set<Uint64>)
    requires forall i :: 0 <= i < |polls| ==> polls[i].answer.NoAnswer?
    ensures PollAll(st, polls, possible) == st
    decreases |polls|
  {
    hide FirstLead;
    if polls != [] { SilentPolls(AfterAnswer(st, polls[0].answer), polls[1..], possible); }
  }

  /** Polling never makes a running member stopped. */
  lemma {:induction false} PollAllRuns(st: NodeStatus, polls: seq<Poll>, possible: set<Uint64>)
    requires st.state != STOPPED
    ensures PollAll(st, polls, possible).state != STOPPED
    decreases |polls|
  {
    hide FirstLead, Agreed;
    StatesDiffer();
    if polls != [] { PollAllRuns(AfterAnswer(st, polls[0].answer), polls[1..], possible); }
  }

  lemma {:induction false} PollAllCoherent(st: NodeStatus, polls: seq<Poll>, possible: set<Uint64>)
    requires Coherent(st)
    ensures Coherent(PollAll(st, polls, possible))
    decreases |polls|
  {
    hide Coherent, FirstLead, Agreed;
    if polls != [] {
      AfterCoherent(st, Polled(polls[0].answer), "", "");
      PollAllCoherent(AfterAnswer(st, polls[0].answer), polls[1..], possible);
    }
  }

  /** How waiting ends, given the ids of the cluster's members (None if one has no server). */
  function EndOfWait(st: NodeStatus, possible: Option<set<Uint64>>, w: WaitAnswer): WaitEnd {
    if st.state == STOPPED then Done
    else if possible.None? then NilServer
    else if !w.clientOk then NoClientMade
    else if true in w.gets && AgreedAt(w.polls, possible.value).Some? then Done
    else Waiting
  }

  /** The status of a member that has waited. */
  function Waited(st: NodeStatus, possible: Option<set<Uint64>>, w: WaitAnswer): NodeStatus {
    if EndOfWait(st, possible, w) in {NilServer, NoClientMade} || st.state == STOPPED || true !in w.gets then st
    else PollAll(st, w.polls, possible.value)
  }

  lemma {:induction false} NobodyWaits(st: NodeStatus, w: WaitAnswer)
    ensures Waited(st, None, w) == st && EndOfWait(st, None, w) in {Done, NilServer}
  {}

  /** A running member that is done waiting has settled on one of the members as leader; a member is
      left alone unless it runs, and runs after waiting exactly if it did before. */
  lemma {:induction false} WaitedEnds(st: NodeStatus, possible: Option<set<Uint64>>, w: WaitAnswer)
    requires Coherent(st)
    ensures var st' := Waited(st, possible, w);
            && Coherent(st') && (st'.state == STOPPED <==> st.state == STOPPED)
            && (EndOfWait(st, possible, w) in {NilServer, NoClientMade} || st.state == STOPPED ==> st' == st)
            && (EndOfWait(st, possible, w) == Done && st.state != STOPPED ==>
                  exists poll :: poll in w.polls && Agreed(poll, possible.value)
                    && st'.id == poll.answer.idText && poll.answer.leader in possible.value
                    && st'.isLeader == (poll.answer.leader == poll.answer.memberId))
  {
    hide Coherent, PollAll, AgreedAt, Agreed;
    if st.state != STOPPED && possible.Some? {
      PollAllCoherent(st, w.polls, possible.value);
      PollAllRuns(st, w.polls, possible.value);
      if AgreedAt(w.polls, possible.value).Some? {
        PollAllSettles(st, w.polls, possible.value);
        var poll := w.polls[AgreedAt(w.polls, possible.value).value];
        assert poll in w.polls;
      }
    }
  }

  // ---------------------------------------------------------------- the struct

  datatype Url = Url(scheme: string, host: string)

  function UrlText(u: Url): string {
    u.scheme + "://" + u.host
  }

  datatype Config = Config(name: string, clientUrl: Url, peerUrl: Url, existing: bool, initialCluster: string)

  predicate KeepsIdentity(st: NodeStatus, was: NodeStatus) {
    st.name == was.name && st.id == was.id && st.endpoint == was.endpoint
  }

  predicate KeepsData(st: NodeStatus, was: NodeStatus) {
    st.dbSize == was.dbSize && st.dbSizeTxt == was.dbSizeTxt && st.hash == was.hash
  }

  class Node {
    var cfg: Config
    var server: Option<Uint64>   // m.srv, as the id of its server; None is nil
    var status: NodeStatus

    constructor (cfg: Config)
      ensures this.cfg == cfg && server == None
      ensures status == Initial(cfg.name, UrlText(cfg.clientUrl))
      ensures status == MemberStatus(cfg.name, "", cfg.clientUrl.scheme + "://" + cfg.clientUrl.host, false,
                                     "Stopped", "", 0, "", 0)
    {
      this.cfg, server := cfg, None;
      status := Initial(cfg.name, UrlText(cfg.clientUrl));
    }

    /** Start: launching the server fails, or it comes up and fails before it is ready, or it is
        ready (ready). The configuration etcd hands back keeps the names and addresses. */
    method Start(launched: Option<Uint64>, ready: bool, when: string) returns (ok: bool)
      modifies this`status, this`server
      ensures server == if launched.Some? then launched else old(server)
      ensures ok == (launched.Some? && ready)
      ensures status == if ok then After(old(status), Started(when), cfg.name, UrlText(cfg.clientUrl))
                        else old(status)
      ensures ok ==>
                && status.state == "Follower" && !status.isLeader
                && status.stateTxt == status.name + " just started (" + when + ")"
                && KeepsIdentity(status, old(status)) && KeepsData(status, old(status))
    {
      if launched.None? { return false; }
      server := launched;
      if !ready { return false; }
      status := status.(state := FOLLOWER, stateTxt := status.name + " just started (" + when + ")");
      status := status.(isLeader := false);
      return true;
    }

    /** Restart dereferences m.srv before anything else. */
    method Restart(launched: Option<Uint64>, when: string) returns (ok: bool)
      requires server.Some?
      modifies this
      ensures server == if old(status).state == STOPPED && launched.Some? then launched else old(server)
      ensures cfg == old(cfg).(existing := old(cfg).existing || old(status).state == STOPPED)
      ensures ok == (old(status).state != STOPPED || launched.Some?)
      ensures status == if launched.Some? then After(old(status), Restarted(when), cfg.name, UrlText(cfg.clientUrl))
                        else old(status)
      ensures old(status).state == "Stopped" && launched.Some? ==>
                && status.state == "Follower" && !status.isLeader
                && status.stateTxt == status.name + " just restarted (" + when + ")"
                && KeepsIdentity(status, old(status)) && KeepsData(status, old(status))
      ensures old(status).state != "Stopped" || launched.None? ==> status == old(status)
    {
      if status.state != STOPPED { return true; }
      cfg := cfg.(existing := true);
      if launched.None? { return false; }
      server := launched;
      status := status.(isLeader := false);
      status := status.(state := FOLLOWER, stateTxt := status.name + " just restarted (" + when + ")");
      return true;
    }

    /** Stop dereferences m.srv before anything else. */
    method Stop(when: string)
      requires server.Some?
      modifies this`status
      ensures status == After(old(status), Stopping(when), cfg.name, UrlText(cfg.clientUrl))
      ensures old(status).state == "Stopped" ==> status == old(status)
      ensures old(status).state != "Stopped" ==>
                && status.state == "Stopped" && !status.isLeader
                && status.stateTxt == status.name + " just stopped (" + when + ")"
                && status.dbSize == 0 && status.dbSizeTxt == "" && status.hash == 0
                && KeepsIdentity(status, old(status))
    {
      if status.state == STOPPED { return; }
      status := status.(isLeader := false);
      status := status.(state := STOPPED, stateTxt := status.name + " just stopped (" + when + ")");
      status := status.(dbSize := 0, dbSizeTxt := "");
      status := status.(hash := 0);
    }

    /** WaitForLeader, given what allMemberIDs answers: it panics if any member of the cluster, this
        one included, has no server. */
    method WaitForLeader(possible: Option<set<Uint64>>, w: WaitAnswer) returns (end: WaitEnd)
      requires possible.Some? ==> server.Some?
      modifies this`status
      ensures end == EndOfWait(old(status), possible, w)
      ensures status == Waited(old(status), possible, w)
      ensures old(status).state == "Stopped" ==> end == Done && status == old(status)
      ensures old(status).state != "Stopped" && possible.None? ==> end == NilServer && status == old(status)
      ensures old(status).state != "Stopped" && possible.Some? && !w.clientOk ==>
                end == NoClientMade && status == old(status)
      ensures old(status).state != "Stopped" && possible.Some? && w.clientOk ==>
                && end == (if true in w.gets && AgreedAt(w.polls, possible.value).Some? then Done else Waiting)
                && status == if true in w.gets then PollAll(old(status), w.polls, possible.value) else old(status)
    {
      hide FirstLead;
      if status.state == STOPPED { return Done; }
      if possible.None? { return NilServer; }
      var possibleLead := possible.value;
      if !w.clientOk { return NoClientMade; }
      var g := 0;
      while g < |w.gets| && !w.gets[g]
        invariant g <= |w.gets| && true !in w.gets[..g]
      {
        g := g + 1;
      }
      if g == |w.gets| {
        assert w.gets[..g] == w.gets;
        return Waiting;
      }
      assert w.gets[g] in w.gets;
      var settled := PollUntilAgreed(w.polls, possibleLead);
      end := if settled then Done else Waiting;
    }

    /** The polling loop; it is left unsettled where the given turns run out. */
    method PollUntilAgreed(polls: seq<Poll>, possibleLead: set<Uint64>) returns (settled: bool)
      modifies this`status
      ensures settled == AgreedAt(polls, possibleLead).Some?
      ensures status == PollAll(old(status), polls, possibleLead)
    {
      hide FirstLead;
      ghost var first := status;
      for i := 0 to |polls|
        invariant PollAll(first, polls, possibleLead) == PollAll(status, polls[i..], possibleLead)
        invariant AgreedAt(polls, possibleLead).Some? == AgreedAt(polls[i..], possibleLead).Some?
      {
        assert polls[i..][0] == polls[i] && polls[i..][1..] == polls[i + 1..];
        var lead := AwaitLead(polls[i].leads, possibleLead);
        if lead.None? { return false; }
        match polls[i].answer {
          case NoAnswer =>
          case Answer(memberId, idText, leader) =>
            status := status.(id := idText);
            if leader == 0 {
              status := status.(isLeader := false, state := FOLLOWER);
            } else {
              status := status.(isLeader := leader == memberId);
              status := status.(state := if status.isLeader then LEADER else FOLLOWER);
              if lead.value == leader { return true; }
            }
        }
      }
      return false;
    }

    /** FetchMemberStatus. The embedded client dereferences m.srv. */
    method FetchMemberStatus(embeddedClient: bool, fetch: Fetch) returns (ok: bool, panicked: bool)
      modifies this`status
      ensures panicked == (embeddedClient && server.None?)
      ensures ok == (!panicked && fetch.Healthy?)
      ensures status == if panicked then old(status)
                        else After(old(status), Fetched(fetch), cfg.name, UrlText(cfg.clientUrl))
      ensures panicked || fetch.NoClient? ==> status == old(status)
      ensures !panicked && (fetch.NotReachable? || fetch.NoHash?) ==>
                && status.state == "Stopped" && !status.isLeader
                && status.dbSize == 0 && status.dbSizeTxt == "" && status.hash == 0
                && status.stateTxt == status.name + (if fetch.NotReachable? then " is not reachable ("
                                                     else " was not reachable while getting hash (")
                                      + fetch.when + " - " + fetch.err + ")"
                && KeepsIdentity(status, old(status))
      ensures ok ==>
                && (status.isLeader <==> fetch.memberId == fetch.leader)
                && status.state == (if fetch.memberId == fetch.leader then "Leader" else "Follower")
                && status.name == cfg.name && status.id == fetch.idText
                && status.endpoint == cfg.clientUrl.scheme + "://" + cfg.clientUrl.host
                && status.stateTxt == old(status).name + " has been healthy (since " + fetch.since + ")"
                && status.dbSize == fetch.dbSize % TWO_64 && status.dbSizeTxt == fetch.dbSizeText
                && status.hash == fetch.hash
    {
      if embeddedClient && server.None? { return false, true; }
      match fetch {
        case NoClient => return false, false;
        case NotReachable(when, err) =>
          Clear(status.name + " is not reachable (" + when + " - " + err + ")");
          return false, false;
        case NoHash(when, err) =>
          Clear(status.name + " was not reachable while getting hash (" + when + " - " + err + ")");
          return false, false;
        case Healthy(memberId, leader, idText, since, dbSize, dbSizeText, hash) =>
          var isLeader, state := false, FOLLOWER;
          if memberId == leader { isLeader, state := true, LEADER; }
          var text := status.name + " has been healthy (since " + since + ")";
          var fetched := MemberStatus(cfg.name, idText, UrlText(cfg.clientUrl), isLeader, state, text,
                                      dbSize % TWO_64, dbSizeText, 0);
          status := fetched.(hash := hash);
          return true, false;
      }
    }

    /** The failure blocks of FetchMemberStatus. */
    method Clear(txt: string)
      modifies this`status
      ensures status == Cleared(old(status), txt)
    {
      status := status.(state := STOPPED, stateTxt := txt);
      status := status.(isLeader := false);
      status := status.(dbSize := 0, dbSizeTxt := "", hash := 0);
    }
  }

  /** The inner loop of WaitForLeader: asks the member's server until it names one of the members. */
  method AwaitLead(leads: seq<Lead>, possibleLead: set<Uint64>) returns (r: Option<Uint64>)
    ensures r == FirstLead(leads, possibleLead)
  {
    var lead: Uint64, i := 0, 0;
    while lead == 0 || lead !in possibleLead
      invariant i <= |leads|
      invariant FirstLead(leads, possibleLead)
                == if lead != 0 && lead in possibleLead then Some(lead) else FirstLead(leads[i..], possibleLead)
      decreases |leads| - i
    {
      if i == |leads| { return None; }
      lead := 0;
      assert leads[i..][1..] == leads[i + 1..];
      match leads[i] {
        case StopSeen =>
        case LeadIs(id) => lead := id;
      }
      i := i + 1;
    }
    return Some(lead);
  }
}
