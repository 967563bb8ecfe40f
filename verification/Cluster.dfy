/** The cluster registry of cluster.go and cluster_other.go, in place. */
module Cluster {
  import opened Wire
  import opened Message
  import opened Member
  import opened InitialCluster
  import Decimal
  import Registry

  datatype Settings = Settings(
    size: nat, rootPort: int, embeddedClient: bool,
    peerTLS: bool, peerAutoTLS: bool, clientTLS: bool, clientAutoTLS: bool)

  function Scheme(tls: bool, autoTLS: bool): (s: string)
    ensures s == "http" <==> !tls && !autoTLS
    ensures s == "https" <==> tls || autoTLS
  {
    if !tls && !autoTLS then "http" else "https"
  }

  /** What etcd answers when a member is started: the id of the server, if it launches. */
  datatype StartAnswer = StartAnswer(launched: Option<Uint64>, ready: bool, when: string)

  datatype ClusterError =
    | TooLarge | NoDirectory | PeerTLSConflict | ClientTLSConflict | MemberFailed
    | ClientError | MemberChangeFailed | WaitFailed | DuplicateLeader
    | Panicked                                    // a nil m.srv or an index out of range

  predicate AllStart(starts: seq<StartAnswer>) {
    forall i :: 0 <= i < |starts| ==> starts[i].launched.Some? && starts[i].ready
  }

  // ---------------------------------------------------------------- all members waiting

  /** The statuses after every member has waited, and how each wait ends. */
  ghost function AllWaited(before: seq<NodeStatus>, ids: Option<set<Uint64>>, waits: seq<WaitAnswer>)
    : (r: seq<NodeStatus>)
    requires |before| == |waits|
    ensures |r| == |before|
  {
    seq(|before|, i requires 0 <= i < |before| => Waited(before[i], ids, waits[i]))
  }

  ghost function AllEnds(before: seq<NodeStatus>, ids: Option<set<Uint64>>, waits: seq<WaitAnswer>): seq<WaitEnd>
    requires |before| == |waits|
  {
    seq(|before|, i requires 0 <= i < |before| => EndOfWait(before[i], ids, waits[i]))
  }

  ghost predicate AnyRuns(before: seq<NodeStatus>) {
    exists i :: 0 <= i < |before| && before[i].state != STOPPED
  }

  /** The client of a running member cannot be made. */
  ghost predicate AnyFails(before: seq<NodeStatus>, waits: seq<WaitAnswer>)
    requires |before| == |waits|
  {
    exists i :: 0 <= i < |before| && before[i].state != STOPPED && !waits[i].clientOk
  }

  ghost predicate AnyWaits(before: seq<NodeStatus>, ids: Option<set<Uint64>>, waits: seq<WaitAnswer>)
    requires |before| == |waits|
  {
    exists i :: 0 <= i < |before| && EndOfWait(before[i], ids, waits[i]) == Waiting
  }

  /** Each end occurs exactly when a member has its cause. */
  lemma {:induction false} CauseOfEnds(before: seq<NodeStatus>, ids: Option<set<Uint64>>, waits: seq<WaitAnswer>)
    requires |before| == |waits|
    ensures var ends := AllEnds(before, ids, waits);
            && (NilServer in ends <==> ids.None? && AnyRuns(before))
            && (Waiting in ends <==> AnyWaits(before, ids, waits))
            && (NilServer in ends ==> Waiting !in ends && AllWaited(before, ids, waits) == before)
            && (NilServer !in ends ==> (NoClientMade in ends <==> AnyFails(before, waits)))
  {
    hide AgreedAt, PollAll;
    var ends := AllEnds(before, ids, waits);
    if i :| 0 <= i < |before| && ids.None? && before[i].state != STOPPED { assert ends[i] == NilServer; }
    if i :| 0 <= i < |before| && EndOfWait(before[i], ids, waits[i]) == Waiting { assert ends[i] == Waiting; }
    if i :| 0 <= i < |before| && before[i].state != STOPPED && !waits[i].clientOk {
      assert ends[i] in {NilServer, NoClientMade};
    }
  }

  lemma {:induction false} AllStillRun(before: seq<NodeStatus>, ids: Option<set<Uint64>>, waits: seq<WaitAnswer>)
    requires |before| == |waits|
    requires forall i :: 0 <= i < |before| ==> Coherent(before[i]) && before[i].state != STOPPED
    ensures forall i :: 0 <= i < |before| ==> AllWaited(before, ids, waits)[i].state != STOPPED
  {
    hide Coherent, Waited;
    forall i | 0 <= i < |before| ensures AllWaited(before, ids, waits)[i].state != STOPPED {
      WaitedEnds(before[i], ids, waits[i]);
    }
  }

  class Cluster {
    var size: int
    var leadIdx: int
    var members: seq<Node>
    var clientHostToIndex: map<string, int>
    var basePort: int
    const embeddedClient: bool
    const clientScheme: string
    const peerScheme: string

    /** The number in each member's name, and its client port. */
    ghost var numbers: seq<int>
    ghost var ports: seq<int>

    // -------------------------------------------------------------- abstraction

    ghost function Reg(): Registry.State
      requires |numbers| == |ports|
      reads `numbers, `ports, `clientHostToIndex, `basePort
    {
      Registry.State(numbers, ports, clientHostToIndex, basePort)
    }

    ghost function Configs(): seq<Config>
      reads this, members
    {
      seq(|members|, i requires 0 <= i < |members| reads this, members => members[i].cfg)
    }

    ghost function Statuses(): seq<NodeStatus>
      reads this, members
    {
      seq(|members|, i requires 0 <= i < |members| reads this, members => members[i].status)
    }

    ghost predicate Distinct()
      reads `members
    {
      forall i, j :: 0 <= i < j < |members| ==> members[i] != members[j]
    }

    /** The configuration of the member with a number that listens on a port. */
    ghost predicate Addressed(cfg: Config, number: int, port: int) {
      && cfg.name == Registry.NodeName(number)
      && cfg.clientUrl == Url(clientScheme, Registry.HostAt(port))
      && cfg.peerUrl == Url(peerScheme, Registry.HostAt(port + 1))
    }

    ghost predicate Valid()
      reads `size, `members, `numbers, `ports, `clientHostToIndex, `basePort, members`cfg, members`status
    {
      && size == |members| == |numbers| == |ports|
      && Distinct()
      && peerScheme in {"http", "https"}
      && (forall i :: 0 <= i < |members| ==>
            Addressed(members[i].cfg, numbers[i], ports[i]) && Coherent(members[i].status))
      && Registry.Consistent(Reg())
    }

    ghost predicate NamesDiffer()
      reads `members, members`cfg
    {
      forall i, j :: 0 <= i < j < |members| ==> members[i].cfg.name != members[j].cfg.name
    }

    /** Every member holds the initial-cluster string of the present member list. */
    ghost predicate SameInitialCluster()
      reads this, members
    {
      forall i :: 0 <= i < |members| ==> members[i].cfg.initialCluster == InitialClusterOf(Configs())
    }

    // -------------------------------------------------------------- Start

    /** Start up to the launch of the members. */
    constructor Build(ccfg: Settings)
      ensures Valid() && fresh(members) && |members| == ccfg.size
      ensures StartedAs(ccfg) && leadIdx == 0
      ensures forall i :: 0 <= i < |members| ==>
                && members[i].server.None?
                && members[i].status == MemberStatus(members[i].cfg.name, "", UrlText(members[i].cfg.clientUrl), false,
                                                     "Stopped", "", 0, "", 0)
    {
      size := ccfg.size;
      leadIdx := 0;
      members := [];
      clientHostToIndex := map[];
      basePort := ccfg.rootPort;
      embeddedClient := ccfg.embeddedClient;
      clientScheme := Scheme(ccfg.clientTLS, ccfg.clientAutoTLS);
      peerScheme := Scheme(ccfg.peerTLS, ccfg.peerAutoTLS);
      numbers, ports := [], [];
      new;
      hide Registry.HostAt, Initial, Registry.NodeName, UrlText, Scheme, Registry.Consistent, Coherent;
      hide InitialClusterOf, Registry.Started, MadeAs;
      FillMembers(ccfg.rootPort);
      ShareInitialCluster();
      Registry.StartedConsistent(ccfg.size, ccfg.rootPort);
      forall i | 0 <= i < |members|
        ensures MadeAs(members[i].cfg, ccfg, i)
        ensures members[i].status == MemberStatus(members[i].cfg.name, "", UrlText(members[i].cfg.clientUrl), false,
                                                  "Stopped", "", 0, "", 0)
      {
        AddressedAsStarted(ccfg, i);
        InitialMeans(members[i].cfg.name, UrlText(members[i].cfg.clientUrl));
      }
    }

    lemma {:induction false} AddressedAsStarted(ccfg: Settings, i: nat)
      requires Valid() && Reg() == Registry.Started(ccfg.size, ccfg.rootPort) && i < |members|
      requires clientScheme == Scheme(ccfg.clientTLS, ccfg.clientAutoTLS)
      requires peerScheme == Scheme(ccfg.peerTLS, ccfg.peerAutoTLS)
      ensures members[i].cfg.existing || MadeAs(members[i].cfg, ccfg, i)
    {
      hide Registry.Started, Registry.Consistent, Coherent;
      Registry.StartedConsistent(ccfg.size, ccfg.rootPort);
      Registry.StartedNames(ccfg.size, ccfg.rootPort);
      assert Addressed(members[i].cfg, numbers[i], ports[i]);
    }

    /** The configuration of the i-th member of a started cluster. */
    static ghost predicate MadeAs(cfg: Config, ccfg: Settings, i: nat) {
      && cfg.name == "node" + Decimal.ToString(i + 1) && !cfg.existing
      && cfg.clientUrl == Url(if !ccfg.clientTLS && !ccfg.clientAutoTLS then "http" else "https",
                              "localhost:" + Decimal.ToString(ccfg.rootPort + 2 * i))
      && cfg.peerUrl == Url(if !ccfg.peerTLS && !ccfg.peerAutoTLS then "http" else "https",
                            "localhost:" + Decimal.ToString(ccfg.rootPort + 2 * i + 1))
    }

    /** The loop of Start that makes the members, and the new basePort. */
    method FillMembers(rootPort: int)
      requires members == [] && numbers == ports == [] && clientHostToIndex == map[] && size >= 0
      requires peerScheme in {"http", "https"}
      modifies this
      ensures Valid() && fresh(members) && size == old(size) && leadIdx == old(leadIdx)
      ensures Reg() == Registry.Started(size, rootPort)
      ensures forall i :: 0 <= i < |members| ==> AsMade(members[i], i)
    {
      hide Registry.HostAt, Initial, Registry.NodeName, UrlText, Registry.Consistent, Coherent, Addressed, AsMade;
      var startPort := rootPort;
      Registry.StartedConsistent(0, rootPort);
      for i := 0 to size
        invariant size == old(size) && leadIdx == old(leadIdx) && fresh(members)
        invariant |members| == |numbers| == |ports| == i
        invariant Distinct()
        invariant Registry.State(numbers, ports, clientHostToIndex, startPort) == Registry.Started(i, rootPort)
        invariant forall j :: 0 <= j < i ==> Addressed(members[j].cfg, numbers[j], ports[j]) && AsMade(members[j], j)
      {
        var m := NewNode(Registry.NodeName(i + 1), startPort, false);
        Made(m, i, startPort);
        clientHostToIndex := clientHostToIndex[m.cfg.clientUrl.host := i];
        members := members + [m];
        numbers, ports := numbers + [i + 1], ports + [startPort];
        startPort := startPort + 2;
      }
      basePort := startPort;
      Registry.StartedConsistent(size, rootPort);
      forall i | 0 <= i < |members| ensures Coherent(members[i].status) { MadeCoherent(members[i], i); }
    }

    lemma {:induction false} Made(m: Node, i: nat, port: int)
      requires m.cfg == Config(Registry.NodeName(i + 1), Url(clientScheme, Registry.HostAt(port)),
                               Url(peerScheme, Registry.HostAt(port + 1)), false, "")
      requires m.server.None? && m.status == Initial(m.cfg.name, UrlText(m.cfg.clientUrl))
      ensures Addressed(m.cfg, i + 1, port) && AsMade(m, i)
    {}

    lemma {:induction false} MadeCoherent(m: Node, i: nat)
      requires AsMade(m, i)
      ensures Coherent(m.status)
    {
      InitialCoherent(Registry.NodeName(i + 1), UrlText(m.cfg.clientUrl));
    }

    /** The i-th member as Start makes it. */
    ghost predicate AsMade(m: Node, i: nat)
      reads m
    {
      && m.cfg.name == Registry.NodeName(i + 1) && !m.cfg.existing && m.server.None?
      && m.status == Initial(Registry.NodeName(i + 1), UrlText(m.cfg.clientUrl))
    }

    method NewNode(name: string, port: int, existing: bool) returns (m: Node)
      ensures fresh(m) && m.server.None?
      ensures m.cfg == Config(name, Url(clientScheme, Registry.HostAt(port)),
                              Url(peerScheme, Registry.HostAt(port + 1)), existing, "")
      ensures m.status == Initial(name, UrlText(m.cfg.clientUrl))
    {
      var curl, purl := Url(clientScheme, Registry.HostAt(port)), Url(peerScheme, Registry.HostAt(port + 1));
      m := new Node(Config(name, curl, purl, existing, ""));
    }

    /** initialCluster. */
    method InitialClusterString() returns (s: string)
      ensures s == InitialClusterOf(Configs())
    {
      var inits: seq<string> := [];
      for i := 0 to |members|
        invariant |inits| == i
        invariant forall j :: 0 <= j < i ==> inits[j] == Entry(members[j].cfg)
      {
        inits := inits + [members[i].cfg.name + "=" + UrlText(members[i].cfg.peerUrl)];
      }
      assert inits == Entries(Configs());
      s := Join(inits, ',');
    }

    /** The loops that give every member the initial-cluster string, computed afresh each turn. */
    method ShareInitialCluster()
      requires Valid()
      modifies members`cfg
      ensures Valid() && SameInitialCluster()
      ensures forall i :: 0 <= i < |members| ==>
                members[i].cfg == old(members[i].cfg).(initialCluster := members[i].cfg.initialCluster)
    {
      hide InitialClusterOf, Registry.HostAt, Registry.NodeName, Registry.Consistent, Coherent;
      ghost var before := Configs();
      for i := 0 to size
        invariant forall j :: 0 <= j < |members| ==>
                    members[j].cfg == before[j].(initialCluster := members[j].cfg.initialCluster)
        invariant forall j :: 0 <= j < i ==> members[j].cfg.initialCluster == InitialClusterOf(before)
      {
        var s := InitialClusterString();
        SameEntries(Configs(), before);
        members[i].cfg := members[i].cfg.(initialCluster := s);
      }
      SameEntries(Configs(), before);
    }

    /** Start. `settled` is false while some member would go on waiting for a leader. */
    static method Start(ccfg: Settings, dirOk: bool, starts: seq<StartAnswer>, waits: seq<WaitAnswer>)
      returns (clus: Cluster?, err: Option<ClusterError>, settled: bool)
      requires |starts| == |waits| == ccfg.size
      ensures if ccfg.size > 7 then clus == null && err == Some(TooLarge)
              else if !dirOk then clus == null && err == Some(NoDirectory)
              else if ccfg.peerTLS && ccfg.peerAutoTLS then clus == null && err == Some(PeerTLSConflict)
              else if ccfg.clientTLS && ccfg.clientAutoTLS then clus == null && err == Some(ClientTLSConflict)
              else if exists i :: 0 <= i < |starts| && (starts[i].launched.None? || !starts[i].ready)
                then clus == null && err == Some(MemberFailed)
              else clus != null
      ensures clus != null ==>
                && fresh(clus) && fresh(clus.members)
                && clus.Valid() && clus.AllUp() && clus.StartedAs(ccfg)
                && err != Some(Panicked) && (settled && err == None ==> clus.LeaderKnown())
    {
      settled := true;
      if ccfg.size > 7 { return null, Some(TooLarge), true; }
      if !dirOk { return null, Some(NoDirectory), true; }
      if ccfg.peerTLS && ccfg.peerAutoTLS { return null, Some(PeerTLSConflict), true; }
      if ccfg.clientTLS && ccfg.clientAutoTLS { return null, Some(ClientTLSConflict), true; }
      hide Coherent, Registry.NodeName, Registry.Consistent, Registry.Started, InitialClusterOf, UrlText, MadeAs;
      clus := new Cluster.Build(ccfg);
      var ok;
      ok, err, settled := clus.BringUp(starts, waits, ccfg);
      if !ok { return null, err, settled; }
    }

    /** At most one member leads, and leadIdx is its position. */
    ghost predicate LeaderKnown()
      reads this, members
    {
      && (forall i, j :: 0 <= i < j < |members| ==> !(Leads(i) && Leads(j)))
      && (forall i :: 0 <= i < |members| && Leads(i) ==> leadIdx == i)
    }

    /** The cluster is as Start makes it: named node1, node2 and so on, on consecutive pairs of ports
        from the root port on, every URL with the scheme of the settings. */
    ghost predicate StartedAs(ccfg: Settings)
      reads this, members
    {
      && size == |members| == |numbers| == |ports| == ccfg.size
      && basePort == ccfg.rootPort + 2 * ccfg.size
      && embeddedClient == ccfg.embeddedClient
      && clientScheme == (if !ccfg.clientTLS && !ccfg.clientAutoTLS then "http" else "https")
      && peerScheme == (if !ccfg.peerTLS && !ccfg.peerAutoTLS then "http" else "https")
      && Reg() == Registry.Started(ccfg.size, ccfg.rootPort)
      && SameInitialCluster()
      && forall i :: 0 <= i < |members| ==> MadeAs(members[i].cfg, ccfg, i)
    }

    ghost predicate AllUp()
      reads this, members
    {
      forall i :: 0 <= i < |members| ==> members[i].server.Some? && members[i].status.state != STOPPED
    }

    /** The launch of all members and the wait that ends Start; ok is false if a member fails. */
    method BringUp(starts: seq<StartAnswer>, waits: seq<WaitAnswer>, ghost ccfg: Settings)
      returns (ok: bool, err: Option<ClusterError>, settled: bool)
      requires Valid() && StartedAs(ccfg) && |starts| == |waits| == |members|
      modifies this`leadIdx, members`status, members`server
      ensures Valid() && StartedAs(ccfg)
      ensures ok == AllStart(starts)
      ensures !ok ==> err == Some(MemberFailed)
      ensures ok ==> AllUp() && err != Some(Panicked) && (settled && err == None ==> LeaderKnown())
    {
      hide Coherent, Registry.Consistent, Addressed, InitialClusterOf, MadeAs, Registry.Started;
      hide Valid, AllWaited, AnyRuns, AnyFails, AnyWaits, TwoLead, LeaderKnown, AllUp, ServerIds;
      settled := true;
      ok := StartMembers(starts);
      if !ok { return false, Some(MemberFailed), true; }
      StatesDiffer();
      StatusesCoherent();
      AllStillRun(Statuses(), ServerIds(), waits);
      assert ServerIds().Some? by { AllServe(); }
      err, settled := WaitForLeader(waits);
      UpByStatuses();
    }

    lemma {:induction false} AllServe()
      requires forall i :: 0 <= i < |members| ==> members[i].server.Some?
      ensures ServerIds().Some?
    {}

    lemma {:induction false} UpByStatuses()
      requires forall i :: 0 <= i < |members| ==> members[i].server.Some?
      requires forall i :: 0 <= i < |members| ==> Statuses()[i].state != STOPPED
      ensures AllUp()
    {
      forall i | 0 <= i < |members| ensures members[i].status.state != STOPPED {
        assert members[i].status == Statuses()[i];
      }
    }

    method StartMembers(starts: seq<StartAnswer>) returns (ok: bool)
      requires Valid() && |starts| == |members|
      modifies members`status, members`server
      ensures Valid() && Configs() == old(Configs())
      ensures ok == AllStart(starts)
      ensures ok ==> forall i :: 0 <= i < |members| ==> members[i].server.Some? && members[i].status.state == FOLLOWER
    {
      hide Coherent, Registry.Consistent, Addressed;
      ok := true;
      for i := 0 to |members|
        invariant forall j :: 0 <= j < |members| ==> Coherent(members[j].status)
        invariant ok == forall j :: 0 <= j < i ==> starts[j].launched.Some? && starts[j].ready
        invariant ok ==> forall j :: 0 <= j < i ==> members[j].server.Some? && members[j].status.state == FOLLOWER
      {
        var a, m := starts[i], members[i];
        AfterCoherent(m.status, Started(a.when), m.cfg.name, UrlText(m.cfg.clientUrl));
        var started := m.Start(a.launched, a.ready, a.when);
        ok := ok && started;
      }
    }

    // -------------------------------------------------------------- waiting for a leader

    predicate Leads(i: int)
      requires 0 <= i < |members|
      reads `members, members`status
    {
      members[i].status.isLeader
    }

    /** The ids of the members' servers; None if a member has none. */
    ghost function ServerIds(): Option<set<Uint64>>
      reads `members, members`server
    {
      if exists i :: 0 <= i < |members| && members[i].server.None? then None
      else Some(set i | 0 <= i < |members| :: members[i].server.value)
    }

    /** allMemberIDs: None stands for the panic on a nil m.srv. */
    method AllMemberIDs() returns (ms: Option<set<Uint64>>)
      ensures ms == ServerIds()
    {
      var ids: set<Uint64> := {};
      for i := 0 to |members|
        invariant forall j :: 0 <= j < i ==> members[j].server.Some?
        invariant ids == set j | 0 <= j < i :: members[j].server.value
      {
        if members[i].server.None? { return None; }
        ids := ids + {members[i].server.value};
      }
      return Some(ids);
    }

    /** WaitForLeader: the members wait first; if all find a leader, the list is scanned. A running
        member panics as soon as any member has no server. */
    method WaitForLeader(waits: seq<WaitAnswer>) returns (err: Option<ClusterError>, settled: bool)
      requires Valid() && |waits| == |members|
      modifies this`leadIdx, members`status
      ensures Valid() && Configs() == old(Configs())
      ensures var before := old(Statuses());
              && Statuses() == AllWaited(before, ServerIds(), waits)
              && (err == Some(Panicked) <==> ServerIds().None? && AnyRuns(before))
              && (err == Some(Panicked) ==> settled && Statuses() == before)
              && (settled <==> !AnyWaits(before, ServerIds(), waits))
              && (!settled ==> err == None)
              && (settled && err != Some(Panicked) ==> (err == Some(WaitFailed) <==> AnyFails(before, waits)))
      ensures settled && err !in {Some(Panicked), Some(WaitFailed)} ==>
                && err in {None, Some(DuplicateLeader)}
                && (err == None ==> LeaderKnown())
                && (err == Some(DuplicateLeader) <==> TwoLead())
    {
      hide Valid, AllWaited, AllEnds, ServerIds, LeaderKnown, TwoLead, AnyRuns, AnyWaits, AnyFails, Coherent;
      ghost var before := Statuses();
      var ids := AllMemberIDs();
      assert forall i :: 0 <= i < |before| ==> Coherent(before[i]) by { StatusesCoherent(); }
      var ends := WaitForAll(ids, waits);
      CauseOfEnds(before, ids, waits);
      if NilServer in ends { return Some(Panicked), true; }
      if Waiting in ends { return None, false; }
      if NoClientMade in ends { return Some(WaitFailed), true; }
      LeadersServe(before, waits);
      var duplicate := ScanLeaders();
      err := if duplicate then Some(DuplicateLeader) else None;
      settled := true;
    }

    lemma {:induction false} StatusesCoherent()
      requires Valid()
      ensures forall i :: 0 <= i < |Statuses()| ==> Coherent(Statuses()[i])
    {
      hide Coherent, Registry.Consistent, Addressed;
    }

    /** A member that leads after the wait has a server. */
    lemma {:induction false} LeadersServe(before: seq<NodeStatus>, waits: seq<WaitAnswer>)
      requires Valid() && |before| == |waits| == |members|
      requires Statuses() == AllWaited(before, ServerIds(), waits)
      requires ServerIds().None? ==> !AnyRuns(before)
      ensures forall i :: 0 <= i < |members| && Leads(i) ==> members[i].server.Some?
    {
      hide Coherent, Registry.Consistent, Addressed, Waited;
      forall i | 0 <= i < |members| && Leads(i) ensures members[i].server.Some? {
        LeaderRuns(members[i].status);
        assert members[i].status == Statuses()[i];
        NobodyWaits(before[i], waits[i]);
      }
    }

    method WaitForAll(ids: Option<set<Uint64>>, waits: seq<WaitAnswer>) returns (ends: seq<WaitEnd>)
      requires Valid() && |waits| == |members| && ids == ServerIds()
      modifies members`status
      ensures Valid() && Configs() == old(Configs())
      ensures Statuses() == AllWaited(old(Statuses()), ids, waits)
      ensures ends == AllEnds(old(Statuses()), ids, waits)
    {
      hide Coherent, Registry.Consistent, Addressed, Waited, EndOfWait;
      ends := [];
      ghost var before := Statuses();
      for i := 0 to |members|
        invariant |ends| == i
        invariant forall j :: 0 <= j < |members| ==> Coherent(members[j].status)
        invariant forall j :: 0 <= j < i ==> members[j].status == Waited(before[j], ids, waits[j])
        invariant forall j :: i <= j < |members| ==> members[j].status == before[j]
        invariant forall j :: 0 <= j < i ==> ends[j] == EndOfWait(before[j], ids, waits[j])
      {
        var m := members[i];
        WaitedEnds(m.status, ids, waits[i]);
        var end := m.WaitForLeader(ids, waits[i]);
        ends := ends + [end];
      }
    }

    ghost predicate TwoLead()
      reads `members, members`status
    {
      exists i, j :: 0 <= i < j < |members| && Leads(i) && Leads(j)
    }

    /** The scan: it fails exactly when two members claim to lead, and then and otherwise notes the
        first that does. */
    method ScanLeaders() returns (duplicate: bool)
      requires forall i :: 0 <= i < |members| && Leads(i) ==> members[i].server.Some?   // it logs the id
      modifies this`leadIdx
      ensures duplicate <==> TwoLead()
      ensures forall i :: 0 <= i < |members| && Leads(i) && (forall j :: 0 <= j < i ==> !Leads(j)) ==> leadIdx == i
      ensures (forall i :: 0 <= i < |members| ==> !Leads(i)) ==> leadIdx == old(leadIdx)
      ensures !duplicate ==> LeaderKnown()
    {
      var found := false;
      for i := 0 to |members|
        invariant !found ==> leadIdx == old(leadIdx) && forall j :: 0 <= j < i ==> !Leads(j)
        invariant found ==> 0 <= leadIdx < i && Leads(leadIdx) && forall j :: 0 <= j < i && j != leadIdx ==> !Leads(j)
      {
        if Leads(i) {
          if found { return true; }
          leadIdx := i;
          found := true;
        }
      }
      duplicate := false;
    }

    // -------------------------------------------------------------- Add and Remove

    /** Add. The registry has grown whatever the outcome. */
    method Add(clientOk: bool, changeOk: bool, start: StartAnswer) returns (err: Option<ClusterError>)
      requires Valid()
      modifies this, members`cfg
      ensures Valid() && SameInitialCluster()
      ensures Reg() == Registry.Added(old(Reg())) && leadIdx == old(leadIdx)
      ensures old(NamesDiffer()) ==> (NamesDiffer() <==> old(size) + 1 !in old(numbers))
      ensures size == |members| == old(|members|) + 1 && members[..old(|members|)] == old(members)
      ensures basePort == old(basePort) + 2
      ensures forall i :: 0 <= i < old(|members|) ==>
                members[i].cfg == old(members[i].cfg).(initialCluster := members[i].cfg.initialCluster)
      ensures var m := members[old(|members|)];
              && fresh(m) && m.cfg.existing && m.cfg.name == "node" + Decimal.ToString(old(size) + 1)
              && m.cfg.clientUrl == Url(clientScheme, "localhost:" + Decimal.ToString(old(basePort)))
              && m.cfg.peerUrl == Url(peerScheme, "localhost:" + Decimal.ToString(old(basePort) + 1))
              && clientHostToIndex == old(clientHostToIndex)[m.cfg.clientUrl.host := old(size)]
              && !m.status.isLeader && m.status.state == (if err.None? then "Follower" else "Stopped")
              && m.server == if err in {None, Some(MemberFailed)} then start.launched else None
      ensures err == if embeddedClient && old(members == [] || members[0].server.None?) then Some(Panicked)
                     else if !clientOk then Some(ClientError)
                     else if !changeOk then Some(MemberChangeFailed)
                     else if start.launched.None? || !start.ready then Some(MemberFailed)
                     else None
    {
      hide Registry.NamesDistinct, NamesDiffer, Registry.Added, Valid, SameInitialCluster;
      SizesAgree();
      NamesAreNumbers();
      if Registry.NamesDistinct(Reg()) { Registry.AddedNamesIff(Reg()); }
      var m := Register();
      SizesAgree();
      NamesAreNumbers();
      err := Launch(m, clientOk, changeOk, start);
    }

    /** Add from the etcd calls on: the last entry, just made, is announced and started. */
    method Launch(m: Node, clientOk: bool, changeOk: bool, start: StartAnswer) returns (err: Option<ClusterError>)
      requires Valid() && members != [] && m == members[|members| - 1]
      requires m.server.None? && m.status.state == STOPPED && !m.status.isLeader
      modifies m`status, m`server
      ensures Valid() && old(SameInitialCluster()) == SameInitialCluster()
      ensures err == if embeddedClient && old(members[0].server).None? then Some(Panicked)
                     else if !clientOk then Some(ClientError)
                     else if !changeOk then Some(MemberChangeFailed)
                     else if start.launched.None? || !start.ready then Some(MemberFailed)
                     else None
      ensures !m.status.isLeader && m.status.state == (if err.None? then "Follower" else "Stopped")
      ensures m.server == if err in {None, Some(MemberFailed)} then start.launched else None
    {
      hide Registry.Consistent, InitialClusterOf, Coherent, Addressed;
      if embeddedClient && members[0].server.None? { return Some(Panicked); }   // Client
      if !clientOk { return Some(ClientError); }
      if !changeOk { return Some(MemberChangeFailed); }
      AfterCoherent(m.status, Started(start.when), m.cfg.name, UrlText(m.cfg.clientUrl));
      var ok := m.Start(start.launched, start.ready, start.when);
      assert Configs() == old(Configs());
      err := if ok then None else Some(MemberFailed);
    }

    /** Add up to the etcd calls: the next ports, a new entry, and the new initial-cluster string. */
    method Register() returns (m: Node)
      requires Valid()
      modifies this, members`cfg
      ensures Valid() && SameInitialCluster() && fresh(m)
      ensures Reg() == Registry.Added(old(Reg())) && leadIdx == old(leadIdx)
      ensures members == old(members) + [m]
      ensures m.cfg.existing && m.cfg.name == "node" + Decimal.ToString(old(size) + 1)
      ensures m.cfg.clientUrl == Url(clientScheme, "localhost:" + Decimal.ToString(old(basePort)))
      ensures m.cfg.peerUrl == Url(peerScheme, "localhost:" + Decimal.ToString(old(basePort) + 1))
      ensures clientHostToIndex == old(clientHostToIndex)[m.cfg.clientUrl.host := old(size)]
      ensures basePort == old(basePort) + 2
      ensures m.server.None? && m.status.state == STOPPED && !m.status.isLeader
      ensures forall i :: 0 <= i < old(|members|) ==>
                members[i].cfg == old(members[i].cfg).(initialCluster := members[i].cfg.initialCluster)
    {
      hide Registry.HostAt, Registry.NodeName, UrlText, Registry.Consistent, Registry.Added, InitialClusterOf, Coherent;
      m := NewNode(Registry.NodeName(size + 1), basePort, true);
      Registry.AddressText(size + 1, basePort);
      Registry.AddressText(size + 1, basePort + 1);
      InitialMeans(m.cfg.name, UrlText(m.cfg.clientUrl));
      InitialCoherent(m.cfg.name, UrlText(m.cfg.clientUrl));
      Append(m);
      ShareInitialCluster();
    }

    lemma {:induction false} SizesAgree()
      requires Valid()
      ensures size == |members| == |numbers| == |ports|
    {}

    /** The members' names differ exactly when the names of the registry as a value do. */
    lemma {:induction false} NamesAreNumbers()
      requires Valid()
      ensures NamesDiffer() <==> Registry.NamesDistinct(Reg())
    {
      hide Registry.HostAt, Registry.NodeName, Registry.Consistent, Coherent;
    }

    method Append(m: Node)
      requires Valid() && m !in members && Addressed(m.cfg, size + 1, basePort) && Coherent(m.status)
      modifies this
      ensures Valid()
      ensures Reg() == Registry.Added(old(Reg())) && leadIdx == old(leadIdx)
      ensures basePort == old(basePort) + 2
      ensures clientHostToIndex == old(clientHostToIndex)[m.cfg.clientUrl.host := old(size)]
      ensures members == old(members) + [m]
    {
      hide Registry.HostAt, Registry.NodeName, UrlText, Registry.Consistent, Coherent;
      Registry.AddedConsistent(Reg());
      size := size + 1;
      numbers, ports := numbers + [size], ports + [basePort];
      members := members + [m];
      var idx := |members| - 1;
      clientHostToIndex := clientHostToIndex[m.cfg.clientUrl.host := idx];
      basePort := basePort + 2;
    }

    /** Remove, to its end: the entry it stops is the one that moved into the freed place. */
    method Remove(i: nat, clientOk: bool, changeOk: bool, when: string) returns (err: Option<ClusterError>)
      requires Valid() && i < |members|
      modifies this, members`status
      ensures Valid() && leadIdx == old(leadIdx)
      ensures var refused := if embeddedClient && old(members[(i + 1) % |members|].server).None? then Some(Panicked)
                             else if !clientOk then Some(ClientError)
                             else if old(members[i].server).None? then Some(Panicked)
                             else if !changeOk then Some(MemberChangeFailed)
                             else None;
              if refused.Some? then
                && err == refused && members == old(members) && Reg() == old(Reg())
                && forall j :: 0 <= j < |members| ==> members[j].status == old(members[j].status)
              else
                && members == Registry.Without(old(members), i) && Reg() == Registry.Removed(old(Reg()), i)
                && old(members[i]).status == old(members[i].status)
                && size == old(size) - 1 && basePort == old(basePort)
                && (err == None <==> i < |members| && members[i].server.Some?) && (err.Some? ==> err == Some(Panicked))
                && forall j :: 0 <= j < |members| ==>
                     members[j].status == if err == None && j == i then AfterStop(old(members[i + 1].status), when)
                                          else old(members[if j < i then j else j + 1].status)
      ensures err == None ==>
                var st := members[i].status;
                && st.state == "Stopped" && !st.isLeader && st.dbSize == 0 && st.dbSizeTxt == "" && st.hash == 0
                && KeepsIdentity(st, old(members[i + 1].status))
    {
      hide Registry.Consistent, Registry.Removed, Addressed, UrlText, Coherent;
      var idx := (i + 1) % size;
      if embeddedClient && members[idx].server.None? { return Some(Panicked); }   // Client
      if !clientOk { return Some(ClientError); }
      if members[i].server.None? { return Some(Panicked); }
      if !changeOk { return Some(MemberChangeFailed); }
      Unregister(i);
      if i >= |members| || members[i].server.None? { return Some(Panicked); }
      var m := members[i];
      AfterCoherent(m.status, Stopping(when), m.cfg.name, UrlText(m.cfg.clientUrl));
      if m.status.state == STOPPED { StoppedShowsNothing(m.status); }
      m.Stop(when);
      err := None;
    }

    /** Remove from the successful answer of etcd up to the rebuilt index. */
    method Unregister(i: nat)
      requires Valid() && i < |members|
      modifies this
      ensures Valid() && leadIdx == old(leadIdx)
      ensures members == Registry.Without(old(members), i) && Reg() == Registry.Removed(old(Reg()), i)
      ensures size == old(size) - 1 && basePort == old(basePort)
    {
      hide Registry.Consistent, Registry.Without, Coherent, Addressed;
      Registry.RemovedConsistent(Reg(), i);
      DropEntry(i);
      RebuildIndex();
    }

    /** The member leaves the list. */
    method DropEntry(i: nat)
      requires Valid() && i < |members|
      modifies `size, `members, `numbers, `ports
      ensures members == Registry.Without(old(members), i) && size == |members| && Distinct()
      ensures numbers == Registry.Without(old(numbers), i) && ports == Registry.Without(old(ports), i)
      ensures forall j :: 0 <= j < |members| ==>
                Addressed(members[j].cfg, numbers[j], ports[j]) && Coherent(members[j].status)
    {
      hide Registry.Consistent, Registry.Without, Coherent, Addressed;
      ghost var was := members;
      size := size - 1;
      members := DropAt(i);
      Registry.WithoutDiffer(was, i);
      forall j | 0 <= j < |members|
        ensures members[j] == was[if j < i then j else j + 1]
        ensures Registry.Without(numbers, i)[j] == numbers[if j < i then j else j + 1]
        ensures Registry.Without(ports, i)[j] == ports[if j < i then j else j + 1]
      {
        Registry.WithoutAt(was, i, j);
        Registry.WithoutAt(numbers, i, j);
        Registry.WithoutAt(ports, i, j);
      }
      numbers, ports := Registry.Without(numbers, i), Registry.Without(ports, i);
    }

    method RebuildIndex()
      requires |members| == |numbers| == |ports|
      requires forall i :: 0 <= i < |members| ==> Addressed(members[i].cfg, numbers[i], ports[i])
      modifies this`clientHostToIndex
      ensures clientHostToIndex == Registry.Reindexed(old(clientHostToIndex), ports, |ports|)
    {
      hide Registry.HostAt, Registry.NodeName;
      for j := 0 to |members|
        invariant clientHostToIndex == Registry.Reindexed(old(clientHostToIndex), ports, j)
      {
        clientHostToIndex := clientHostToIndex[members[j].cfg.clientUrl.host := j];
      }
    }

    /** The loop that collects every member but the i-th. */
    method DropAt(i: nat) returns (newms: seq<Node>)
      requires i < |members|
      ensures newms == Registry.Without(members, i)
    {
      newms := [];
      for j := 0 to |members|
        invariant newms == if j <= i then members[..j] else members[..i] + members[i + 1..j]
      {
        if j != i { newms := newms + [members[j]]; }
      }
    }

    // -------------------------------------------------------------- queries

    /** ActiveNodeN. */
    method ActiveNodeN() returns (cnt: nat)
      ensures cnt == Active(Statuses())
    {
      cnt := 0;
      for i := 0 to |members|
        invariant cnt == Active(Statuses()[..i])
      {
        assert Statuses()[..i + 1][..i] == Statuses()[..i];
        if members[i].status.state != STOPPED { cnt := cnt + 1; }
      }
      assert Statuses()[..|members|] == Statuses();
    }

    /** FindIndex, given the host of the endpoint: a live member's host answers its position. */
    function FindIndex(host: string): (r: int)
      requires Valid()
      reads this, members
      ensures r == -1 <==> host !in clientHostToIndex
      ensures host in clientHostToIndex ==> r == clientHostToIndex[host] >= 0
      ensures forall i :: 0 <= i < |members| && members[i].cfg.clientUrl.host == host ==> r == i
    {
      if host in clientHostToIndex then clientHostToIndex[host] else -1
    }

    /** The initial-cluster string reads back as the names and peer addresses of the members. */
    lemma {:induction false} InitialClusterReadsBack()
      requires Valid() && members != []
      ensures var parts := Split(InitialClusterOf(Configs()), ',');
              && |parts| == |members|
              && forall i :: 0 <= i < |members| ==>
                   Split(parts[i], '=')
                   == [members[i].cfg.name, peerScheme + "://" + ("localhost:" + Decimal.ToString(ports[i] + 1))]
    {
      hide Registry.HostAt, Registry.Consistent, Coherent, InitialClusterOf;
      forall i | 0 <= i < |members|
        ensures Plain(Configs()[i].name) && Plain(UrlText(Configs()[i].peerUrl))
        ensures Registry.HostAt(ports[i] + 1) == "localhost:" + Decimal.ToString(ports[i] + 1)
      {
        NamesArePlain(numbers[i]);
        UrlsArePlain(peerScheme, ports[i] + 1);
        Registry.AddressText(numbers[i], ports[i] + 1);
      }
      ReadsBack(Configs());
    }
  }

  /** The number of members that are not stopped. */
  function Active(sts: seq<NodeStatus>): nat {
    if sts == [] then 0
    else
      var i := |sts| - 1;
      Active(sts[..i]) + (if sts[i].state != STOPPED then 1 else 0)
  }

  lemma {:induction false} ActiveIsCount(sts: seq<NodeStatus>)
    ensures Active(sts) == |set i | 0 <= i < |sts| && sts[i].state != "Stopped"|
  {
    var all := set i | 0 <= i < |sts| && sts[i].state != "Stopped";
    if sts != [] {
      var k := |sts| - 1;
      ActiveIsCount(sts[..k]);
      var front := set i | 0 <= i < k && sts[..k][i].state != "Stopped";
      assert all == if sts[k].state != "Stopped" then front + {k} else front;
    }
  }

  /** Quorum, the least majority of n members. */
  function Quorum(n: nat): (q: nat)
    ensures 2 * q > n && 2 * (q - 1) <= n
  {
    n / 2 + 1
  }

  function AfterStop(st: NodeStatus, when: string): NodeStatus {
    After(st, Stopping(when), "", "")
  }
}
