/** The member list, the host index and the port allocator of cluster.go, as a value: what each
    operation makes of them and what every run of operations keeps. */
module Registry {
  import Decimal

  /** The number in each member's name, its client port (the peer port is the next one), the host index
      and basePort. */
  datatype Record = State(numbers: seq<int>, ports: seq<int>, index: map<string, int>, base: int)

  type State = r: Record | |r.numbers| == |r.ports| witness State([], [], map[], 0)

  function NodeName(n: int): string {
    "node" + Decimal.ToString(n)
  }

  lemma {:induction false} NodeNameInjective(m: int, n: int)
    requires NodeName(m) == NodeName(n)
    ensures m == n
  {
    assert NodeName(m)[4..] == Decimal.ToString(m) && NodeName(n)[4..] == Decimal.ToString(n);
    Decimal.ToStringInjective(m, n);
  }

  /** The Host of the client URL that listens on a port. */
  function HostAt(port: int): string {
    "localhost:" + Decimal.ToString(port)
  }

  lemma {:induction false} HostAtInjective(p: int, q: int)
    requires HostAt(p) == HostAt(q)
    ensures p == q
  {
    assert HostAt(p)[10..] == Decimal.ToString(p) && HostAt(q)[10..] == Decimal.ToString(q);
    Decimal.ToStringInjective(p, q);
  }

  lemma {:induction false} AddressText(n: int, port: int)
    ensures NodeName(n) == "node" + Decimal.ToString(n)
    ensures HostAt(port) == "localhost:" + Decimal.ToString(port)
  {}

  // ---------------------------------------------------------------- operations

  /** Start with n members from rootPort on: the loop's state after n turns. */
  function Started(n: nat, rootPort: int): State {
    if n == 0 then State([], [], map[], rootPort) else Added(Started(n - 1, rootPort))
  }

  /** A member more, named after the new size. */
  function Added(r: State): State {
    State(r.numbers + [|r.ports| + 1], r.ports + [r.base], r.index[HostAt(r.base) := |r.ports|], r.base + 2)
  }

  function Without<T>(s: seq<T>, i: nat): (r: seq<T>)
    requires i < |s|
    ensures |r| == |s| - 1
  {
    s[..i] + s[i + 1..]
  }

  lemma {:induction false} WithoutAt<T>(s: seq<T>, i: nat, j: nat)
    requires i < |s| && j < |s| - 1
    ensures Without(s, i)[j] == s[if j < i then j else j + 1]
  {}

  lemma {:induction false} WithoutDiffer<T>(s: seq<T>, i: nat)
    requires i < |s| && forall j, k :: 0 <= j < k < |s| ==> s[j] != s[k]
    ensures var r := Without(s, i); forall j, k :: 0 <= j < k < |r| ==> r[j] != r[k]
  {}

  /** The index after the rebuilding loop has set the first n members. */
  function Reindexed(index: map<string, int>, ports: seq<int>, n: nat): map<string, int>
    requires n <= |ports|
  {
    if n == 0 then index else Reindexed(index, ports, n - 1)[HostAt(ports[n - 1]) := n - 1]
  }

  /** The source never deletes the removed member's host from the index. */
  function Removed(r: State, i: nat): State
    requires i < |r.ports|
  {
    var ports := Without(r.ports, i);
    State(Without(r.numbers, i), ports, Reindexed(r.index, ports, |ports|), r.base)
  }

  datatype Op = Add | Remove(i: nat)

  function Apply(r: State, op: Op): State {
    match op
    case Add => Added(r)
    case Remove(i) => if i < |r.ports| then Removed(r, i) else r
  }

  function Run(r: State, ops: seq<Op>): State
    decreases |ops|
  {
    if ops == [] then r else Run(Apply(r, ops[0]), ops[1..])
  }

  // ---------------------------------------------------------------- the invariant

  /** Ports ascend in steps of at least two and stay below the next one to hand out, every live
      member's client host is indexed by its own position, and no index is negative. */
  ghost predicate Consistent(r: State) {
    && (forall i, j :: 0 <= i < j < |r.ports| ==> r.ports[i] + 2 <= r.ports[j])
    && (forall i :: 0 <= i < |r.ports| ==> r.ports[i] + 2 <= r.base)
    && (forall i :: 0 <= i < |r.ports| ==>
          HostAt(r.ports[i]) in r.index && r.index[HostAt(r.ports[i])] == i)
    && (forall h :: h in r.index ==> r.index[h] >= 0)
  }

  lemma {:induction false} AddedConsistent(r: State)
    requires Consistent(r)
    ensures Consistent(Added(r))
  {
    hide HostAt;
    forall i | 0 <= i < |r.ports| ensures HostAt(r.ports[i]) != HostAt(r.base) {
      if HostAt(r.ports[i]) == HostAt(r.base) { HostAtInjective(r.ports[i], r.base); }
    }
  }

  lemma {:induction false} ReindexedAt(index: map<string, int>, ports: seq<int>, n: nat)
    requires n <= |ports|
    requires forall i, j :: 0 <= i < j < |ports| ==> ports[i] != ports[j]
    ensures forall i :: 0 <= i < n ==>
              HostAt(ports[i]) in Reindexed(index, ports, n) && Reindexed(index, ports, n)[HostAt(ports[i])] == i
    ensures forall h :: h in index ==> h in Reindexed(index, ports, n)
    ensures (forall h :: h in index ==> index[h] >= 0) ==>
              forall h :: h in Reindexed(index, ports, n) ==> Reindexed(index, ports, n)[h] >= 0
    ensures forall h :: h in index && (forall i :: 0 <= i < n ==> h != HostAt(ports[i])) ==>
              Reindexed(index, ports, n)[h] == index[h]
  {
    hide HostAt;
    if n > 0 {
      ReindexedAt(index, ports, n - 1);
      forall i | 0 <= i < n - 1 ensures HostAt(ports[i]) != HostAt(ports[n - 1]) {
        if HostAt(ports[i]) == HostAt(ports[n - 1]) { HostAtInjective(ports[i], ports[n - 1]); }
      }
    }
  }

  lemma {:induction false} RemovedConsistent(r: State, i: nat)
    requires Consistent(r) && i < |r.ports|
    ensures Consistent(Removed(r, i))
  {
    hide HostAt, Reindexed;
    var ports := Without(r.ports, i);
    ReindexedAt(r.index, ports, |ports|);
  }

  lemma {:induction false} StartedConsistent(n: nat, rootPort: int)
    ensures Consistent(Started(n, rootPort))
    ensures |Started(n, rootPort).ports| == n && Started(n, rootPort).base == rootPort + 2 * n
    ensures forall i :: 0 <= i < n ==> Started(n, rootPort).ports[i] == rootPort + 2 * i
  {
    hide Consistent;
    if n > 0 {
      StartedConsistent(n - 1, rootPort);
      AddedConsistent(Started(n - 1, rootPort));
    } else {
      EmptyConsistent(rootPort);
    }
  }

  lemma {:induction false} EmptyConsistent(rootPort: int)
    ensures Consistent(State([], [], map[], rootPort))
  {}

  /** Whatever sequence of additions and removals follows a start, the registry is consistent. */
  lemma {:induction false} RunConsistent(r: State, ops: seq<Op>)
    requires Consistent(r)
    ensures Consistent(Run(r, ops))
    ensures r.base <= Run(r, ops).base
    decreases |ops|
  {
    hide Consistent, Added, Removed;
    if ops != [] {
      ApplyConsistent(r, ops[0]);
      RunConsistent(Apply(r, ops[0]), ops[1..]);
    }
  }

  lemma {:induction false} ApplyConsistent(r: State, op: Op)
    requires Consistent(r)
    ensures Consistent(Apply(r, op)) && r.base <= Apply(r, op).base
  {
    hide Consistent;
    match op
    case Add => AddedConsistent(r);
    case Remove(i) => if i < |r.ports| { RemovedConsistent(r, i); }
  }

  /** All the client and peer ports in use, in order. */
  function AllPorts(ports: seq<int>): seq<int> {
    if ports == [] then [] else [ports[0], ports[0] + 1] + AllPorts(ports[1..])
  }

  lemma {:induction false} AllPortsAt(ports: seq<int>, k: nat)
    requires k < 2 * |ports|
    ensures |AllPorts(ports)| == 2 * |ports| && AllPorts(ports)[k] == ports[k / 2] + k % 2
  {
    if |ports| == 1 {
      assert AllPorts(ports[1..]) == [];
    } else if k >= 2 {
      AllPortsAt(ports[1..], k - 2);
    } else {
      AllPortsAt(ports[1..], 0);
    }
  }

  /** No port is used twice, and none is one that will be handed out later. */
  lemma {:induction false} PortsDistinct(r: State, j: nat, k: nat)
    requires Consistent(r) && j < k < 2 * |r.ports|
    ensures |AllPorts(r.ports)| == 2 * |r.ports|
    ensures AllPorts(r.ports)[j] < AllPorts(r.ports)[k] < r.base
  {
    hide HostAt;
    AllPortsAt(r.ports, j);
    AllPortsAt(r.ports, k);
    var x, y := j / 2, k / 2;
    if x < y { assert r.ports[x] + 2 <= r.ports[y]; }
    assert r.ports[y] + 2 <= r.base;
  }

  /** A port once handed out is not handed out again: the members a run adds listen on ports that
      no member had before it, even those since removed. */
  lemma {:induction false} PortsNeverReused(r: State, ops: seq<Op>, i: nat)
    requires Consistent(r) && i < |Run(r, ops).ports|
    ensures Run(r, ops).ports[i] in r.ports || r.base <= Run(r, ops).ports[i]
    decreases |ops|
  {
    hide Consistent;
    if ops != [] {
      var next := Apply(r, ops[0]);
      ApplyConsistent(r, ops[0]);
      PortsNeverReused(next, ops[1..], i);
      forall p | p in next.ports ensures p in r.ports || r.base <= p {
        match ops[0]
        case Add =>
        case Remove(k) =>
      }
    }
  }

  // ---------------------------------------------------------------- names

  ghost predicate NamesDistinct(r: State) {
    forall i, j :: 0 <= i < j < |r.numbers| ==> NodeName(r.numbers[i]) != NodeName(r.numbers[j])
  }

  /** Start gives different names. */
  lemma {:induction false} StartedNames(n: nat, rootPort: int)
    ensures var r := Started(n, rootPort);
            |r.numbers| == n && (forall i :: 0 <= i < n ==> r.numbers[i] == i + 1) && NamesDistinct(r)
  {
    hide NodeName;
    if n > 0 { StartedNames(n - 1, rootPort); }
    AscendingNames(Started(n, rootPort));
  }

  lemma {:induction false} AscendingNames(r: State)
    requires forall i :: 0 <= i < |r.numbers| ==> r.numbers[i] == i + 1
    ensures NamesDistinct(r)
  {
    forall i, j | 0 <= i < j < |r.numbers| ensures NodeName(r.numbers[i]) != NodeName(r.numbers[j]) {
      if NodeName(r.numbers[i]) == NodeName(r.numbers[j]) { NodeNameInjective(r.numbers[i], r.numbers[j]); }
    }
  }

  /** Adding keeps the names different exactly when no member is numbered one above the size. */
  lemma {:induction false} AddedNamesIff(r: State)
    requires NamesDistinct(r)
    ensures NamesDistinct(Added(r)) <==> |r.ports| + 1 !in r.numbers
  {
    hide NodeName;
    var r', k := Added(r), |r.ports|;
    if k + 1 in r.numbers {
      var i :| 0 <= i < |r.numbers| && r.numbers[i] == k + 1;
      assert NodeName(r'.numbers[i]) == NodeName(r'.numbers[k]);
    } else {
      forall i | 0 <= i < k ensures NodeName(r.numbers[i]) != NodeName(k + 1) {
        if NodeName(r.numbers[i]) == NodeName(k + 1) { NodeNameInjective(r.numbers[i], k + 1); }
      }
    }
  }

  lemma {:induction false} RemovedNames(r: State, i: nat)
    requires NamesDistinct(r) && i < |r.ports|
    ensures NamesDistinct(Removed(r, i))
  {
    hide NodeName, Reindexed;
  }

  /** After every operation of the run the members have different names. */
  ghost predicate AlwaysDistinct(r: State, ops: seq<Op>)
    decreases |ops|
  {
    NamesDistinct(r) && (ops != [] ==> AlwaysDistinct(Apply(r, ops[0]), ops[1..]))
  }

  /** No addition of the run finds a member numbered one above the size. */
  predicate NoClash(r: State, ops: seq<Op>)
    decreases |ops|
  {
    ops != [] ==> (ops[0].Add? ==> |r.ports| + 1 !in r.numbers) && NoClash(Apply(r, ops[0]), ops[1..])
  }

  lemma {:induction false} AlwaysDistinctIff(r: State, ops: seq<Op>)
    requires NamesDistinct(r)
    ensures AlwaysDistinct(r, ops) <==> NoClash(r, ops)
    decreases |ops|
  {
    hide NamesDistinct, Added, Removed;
    if ops != [] {
      match ops[0]
      case Add =>
        AddedNamesIff(r);
        if |r.ports| + 1 !in r.numbers { AlwaysDistinctIff(Added(r), ops[1..]); }
      case Remove(i) =>
        if i < |r.ports| { RemovedNames(r, i); }
        AlwaysDistinctIff(Apply(r, ops[0]), ops[1..]);
    }
  }

  /** k additions in a row. */
  function Grown(r: State, k: nat): State {
    if k == 0 then r else Added(Grown(r, k - 1))
  }

  lemma {:induction false} GrownNumbers(r: State, k: nat)
    ensures |Grown(r, k).numbers| == |r.numbers| + k && r.numbers <= Grown(r, k).numbers
    ensures forall i :: |r.numbers| <= i < |r.numbers| + k ==> Grown(r, k).numbers[i] == i + 1
  {
    if k > 0 { GrownNumbers(r, k - 1); }
  }

  /** However many members are added, the names stay different exactly when no member's number is
      above the size. */
  lemma {:induction false} GrowthIff(r: State)
    requires NamesDistinct(r)
    ensures (forall k: nat :: NamesDistinct(Grown(r, k)))
            <==> forall i :: 0 <= i < |r.numbers| ==> r.numbers[i] <= |r.ports|
  {
    if i :| 0 <= i < |r.numbers| && r.numbers[i] > |r.ports| {
      GrowthClashes(r, i);
    } else {
      forall k: nat ensures NamesDistinct(Grown(r, k)) { GrowthKeeps(r, k); }
    }
  }

  lemma {:induction false} GrowthClashes(r: State, i: nat)
    requires i < |r.numbers| && r.numbers[i] > |r.ports|
    ensures !NamesDistinct(Grown(r, r.numbers[i] - |r.ports|))
  {
    hide Grown;
    var j := r.numbers[i] - 1;
    var r' := Grown(r, r.numbers[i] - |r.ports|);
    GrownNumbers(r, r.numbers[i] - |r.ports|);
    assert r'.numbers[i] == r.numbers[i] == r'.numbers[j];
  }

  lemma {:induction false} GrowthKeeps(r: State, k: nat)
    requires NamesDistinct(r)
    requires forall i :: 0 <= i < |r.numbers| ==> r.numbers[i] <= |r.ports|
    ensures NamesDistinct(Grown(r, k))
  {
    hide NamesDistinct, Added;
    if k > 0 {
      GrowthKeeps(r, k - 1);
      GrownNumbers(r, k - 1);
      AddedNamesIff(Grown(r, k - 1));
    }
  }

  /** After a start, a removal followed by an addition makes two names equal unless the last member
      was the one removed. */
  lemma {:induction false} RemoveThenAdd(n: nat, rootPort: int, i: nat)
    requires i < n
    ensures NamesDistinct(Run(Started(n, rootPort), [Remove(i), Add])) <==> i == n - 1
  {
    hide NamesDistinct, Added, Reindexed;
    var r := Started(n, rootPort);
    StartedNames(n, rootPort);
    StartedConsistent(n, rootPort);
    RemovedNames(r, i);
    AddedNamesIff(Removed(r, i));
    var numbers := Removed(r, i).numbers;
    if i < n - 1 { assert numbers[n - 2] == n; }
    assert [Remove(i), Add][1..] == [Add] && [Add][1..] == [];
    assert Run(Removed(r, i), [Add]) == Run(Added(Removed(r, i)), []);
  }

  // ---------------------------------------------------------------- hosts of no member

  /** Every indexed host is a live member's. */
  ghost predicate Exact(r: State) {
    forall h :: h in r.index ==> exists i :: 0 <= i < |r.ports| && h == HostAt(r.ports[i])
  }

  lemma {:induction false} AddedExact(r: State)
    requires Exact(r)
    ensures Exact(Added(r))
  {
    hide HostAt;
    var r' := Added(r);
    forall h | h in r'.index ensures exists i :: 0 <= i < |r'.ports| && h == HostAt(r'.ports[i]) {
      if h in r.index {
        var i :| 0 <= i < |r.ports| && h == HostAt(r.ports[i]);
        assert r'.ports[i] == r.ports[i];
      } else {
        assert h == HostAt(r'.ports[|r.ports|]);
      }
    }
  }

  /** Without a removal, exactly the live hosts are indexed; after one never again, since the
      removed host keeps the index it had. */
  lemma {:induction false} RemovedNotExact(r: State, i: nat)
    requires Consistent(r) && i < |r.ports|
    ensures var h := HostAt(r.ports[i]);
            h in Removed(r, i).index && Removed(r, i).index[h] == i && !Exact(Removed(r, i))
  {
    hide HostAt, Reindexed;
    var h, ports := HostAt(r.ports[i]), Without(r.ports, i);
    ReindexedAt(r.index, ports, |ports|);
    forall j | 0 <= j < |ports| ensures h != HostAt(ports[j]) {
      if h == HostAt(ports[j]) { HostAtInjective(r.ports[i], ports[j]); }
    }
  }

  predicate NoRemoval(r: State, ops: seq<Op>)
    decreases |ops|
  {
    ops == [] || (!(ops[0].Remove? && ops[0].i < |r.ports|) && NoRemoval(Apply(r, ops[0]), ops[1..]))
  }

  /** The index holds exactly the live hosts after a run if and only if the run removed nothing. */
  lemma {:induction false} ExactIffNoRemoval(r: State, ops: seq<Op>)
    requires Consistent(r) && Exact(r)
    ensures Exact(Run(r, ops)) <==> NoRemoval(r, ops)
    decreases |ops|
  {
    hide Consistent, Exact, Added, Removed, HostAt;
    if ops != [] {
      ApplyConsistent(r, ops[0]);
      match ops[0]
      case Add =>
        AddedExact(r);
        ExactIffNoRemoval(Apply(r, ops[0]), ops[1..]);
      case Remove(i) =>
        if i < |r.ports| {
          RemovedNotExact(r, i);
          RemovedStale(r, i);
          StaysStale(Removed(r, i), ops[1..], r.ports[i]);
        } else {
          ExactIffNoRemoval(r, ops[1..]);
        }
    }
  }

  /** An indexed host whose port was handed out before and belongs to no member. */
  ghost predicate Stale(r: State, port: int) {
    HostAt(port) in r.index && port !in r.ports && port < r.base
  }

  lemma {:induction false} RemovedStale(r: State, i: nat)
    requires Consistent(r) && i < |r.ports|
    ensures Stale(Removed(r, i), r.ports[i])
  {
    hide HostAt, Reindexed;
    RemovedNotExact(r, i);
  }

  lemma {:induction false} StaysStale(r: State, ops: seq<Op>, port: int)
    requires Consistent(r) && Stale(r, port)
    ensures !Exact(Run(r, ops))
    decreases |ops|
  {
    hide Consistent, HostAt, Reindexed;
    if ops == [] {
      forall i | 0 <= i < |r.ports| ensures HostAt(port) != HostAt(r.ports[i]) {
        if HostAt(port) == HostAt(r.ports[i]) { HostAtInjective(port, r.ports[i]); }
      }
    } else {
      ApplyConsistent(r, ops[0]);
      if ops[0].Remove? && ops[0].i < |r.ports| {
        var ports := Without(r.ports, ops[0].i);
        ConsistentPortsDiffer(r, ops[0].i);
        ReindexedAt(r.index, ports, |ports|);
      }
      StaysStale(Apply(r, ops[0]), ops[1..], port);
    }
  }

  lemma {:induction false} ConsistentPortsDiffer(r: State, i: nat)
    requires Consistent(r) && i < |r.ports|
    ensures var ports := Without(r.ports, i); forall j, k :: 0 <= j < k < |ports| ==> ports[j] != ports[k]
  {
    hide HostAt;
    WithoutDiffer(r.ports, i);
  }
}
