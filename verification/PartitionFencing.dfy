/** Two-way quorum fencing: writes are admitted only while enough peers both reach us and hear us. */
module PartitionFencing {
  import opened Wrappers

  datatype FencingError =
    | ZeroTotalNodes
    | ZeroLocalNodeId
    | InvalidPeerId
    | CannotRecordSelfAsPeer
    | ZeroPeerSequence
    | PeerCountExceedsClusterLimit(active: nat, maxAllowed: nat)

  datatype Reachability = SymmetricHealthy | AsymmetricOutboundBlackhole | Unreachable

  datatype Link = Link(receivedSeq: U64, ackSeq: U64, seenTick: U64)

  datatype Node = Node(
    local: U64, total: U32, maxAckLag: U64, timeout: U64, ourSeq: U64, tick: U64, peers: map<U64, Link>)

  datatype Heartbeat = Heartbeat(peer: U64, seqNo: U64, ack: U64, tick: U64)

  function Quorum(n: Node): nat {
    n.total / 2 + 1
  }

  function New(local: U64, total: U32, maxAckLag: U64, timeout: U64): Result<Node, FencingError> {
    if total == 0 then Err(ZeroTotalNodes)
    else if local == 0 then Err(ZeroLocalNodeId)
    else Ok(Node(local, total, maxAckLag, timeout, 1, 0, map[]))
  }

  function Refusal(n: Node, b: Heartbeat): Option<FencingError> {
    if b.peer == 0 then Some(InvalidPeerId)
    else if b.peer == n.local then Some(CannotRecordSelfAsPeer)
    else if b.seqNo == 0 then Some(ZeroPeerSequence)
    else if b.peer !in n.peers && |n.peers| >= Max(n.total - 1, 0)
    then Some(PeerCountExceedsClusterLimit(|n.peers| + 1, Max(n.total - 1, 0)))
    else None
  }

  /** The link after a heartbeat: each field keeps the larger value. */
  function Merged(l: Link, b: Heartbeat): Link {
    Link(Max(l.receivedSeq, b.seqNo), Max(l.ackSeq, b.ack), Max(l.seenTick, b.tick))
  }

  function Recorded(n: Node, b: Heartbeat): Node {
    if Refusal(n, b).Some? then n
    else
      var l := if b.peer in n.peers then Merged(n.peers[b.peer], b) else Link(b.seqNo, b.ack, b.tick);
      n.(tick := Max(n.tick, b.tick), peers := n.peers[b.peer := l])
  }

  function Reach(n: Node, peer: U64): Reachability {
    if peer !in n.peers then Unreachable
    else if SatSub(n.tick, n.peers[peer].seenTick) > n.timeout then Unreachable
    else if SatSub(n.ourSeq, n.peers[peer].ackSeq) > n.maxAckLag then AsymmetricOutboundBlackhole
    else SymmetricHealthy
  }

  function HealthyAmong(n: Node, ps: set<U64>): set<U64> {
    set p | p in ps && Reach(n, p).SymmetricHealthy?
  }

  function Healthy(n: Node): set<U64> {
    HealthyAmong(n, n.peers.Keys)
  }

  lemma OneMorePeer(n: Node, ps: set<U64>, p: U64)
    requires p !in ps
    ensures |HealthyAmong(n, ps + {p})| == |HealthyAmong(n, ps)| + if Reach(n, p).SymmetricHealthy? then 1 else 0
  {
    assert HealthyAmong(n, ps + {p}) == HealthyAmong(n, ps) + if Reach(n, p).SymmetricHealthy? then {p} else {};
  }

  predicate Admitted(n: Node) {
    1 + |Healthy(n)| >= Quorum(n)
  }

  // ---- The object -----------------------------------------------------

  class FencingKernel {
    const local: U64
    const total: U32
    const quorumSize: nat
    const maxAckLag: U64
    const timeout: U64
    var ourSeq: U64
    var tick: U64
    var peers: map<U64, Link>

    ghost predicate Valid()
      reads this
    {
      quorumSize == Quorum(Value()) && |peers| <= total
    }

    function Value(): Node
      reads this
    {
      Node(local, total, maxAckLag, timeout, ourSeq, tick, peers)
    }

    constructor (local: U64, total: U32, maxAckLag: U64, timeout: U64)
      requires New(local, total, maxAckLag, timeout).Ok?
      ensures Valid() && Ok(Value()) == New(local, total, maxAckLag, timeout)
    {
      this.local, this.total, this.maxAckLag, this.timeout := local, total, maxAckLag, timeout;
      quorumSize := total / 2 + 1;
      ourSeq, tick, peers := 1, 0, map[];
    }

    static method TryNew(local: U64, total: U32, maxAckLag: U64, timeout: U64)
      returns (r: Result<FencingKernel, FencingError>)
      ensures match New(local, total, maxAckLag, timeout)
              case Err(e) => r == Err(e)
              case Ok(n) => r.Ok? && fresh(r.value) && r.value.Valid() && r.value.Value() == n && Inv(n)
    {
      if total == 0 {
        return Err(ZeroTotalNodes);
      }
      if local == 0 {
        return Err(ZeroLocalNodeId);
      }
      var kernel := new FencingKernel(local, total, maxAckLag, timeout);
      return Ok(kernel);
    }

    method AdvanceOurSeq() returns (s: U64)
      requires Valid()
      modifies this`ourSeq
      ensures Valid() && Value() == old(Value()).(ourSeq := SatAdd(old(ourSeq), 1)) && s == ourSeq
    {
      ourSeq := SatAdd(ourSeq, 1);
      s := ourSeq;
    }

    method AdvanceTick(delta: U64)
      requires Valid()
      modifies this`tick
      ensures Valid() && Value() == old(Value()).(tick := SatAdd(old(tick), delta))
    {
      tick := SatAdd(tick, delta);
    }

    method RecordPeerHeartbeat(peer: U64, peerSeq: U64, ack: U64, at: U64) returns (r: Result<(), FencingError>)
      requires Valid()
      modifies this`tick, this`peers
      ensures Valid() && Value() == Recorded(old(Value()), Heartbeat(peer, peerSeq, ack, at))
      ensures match Refusal(old(Value()), Heartbeat(peer, peerSeq, ack, at)) case None => r.Ok? case Some(e) => r == Err(e)
    {
      if peer == 0 {
        return Err(InvalidPeerId);
      }
      if peer == local {
        return Err(CannotRecordSelfAsPeer);
      }
      if peerSeq == 0 {
        return Err(ZeroPeerSequence);
      }
      var maxPeers := Max(total - 1, 0);
      if peer !in peers && |peers| >= maxPeers {
        return Err(PeerCountExceedsClusterLimit(|peers| + 1, maxPeers));
      }
      if at > tick {
        tick := at;
      }
      var entry := if peer in peers then peers[peer] else Link(peerSeq, ack, at);
      if peerSeq > entry.receivedSeq {
        entry := entry.(receivedSeq := peerSeq);
      }
      if ack > entry.ackSeq {
        entry := entry.(ackSeq := ack);
      }
      if at > entry.seenTick {
        entry := entry.(seenTick := at);
      }
      InsertSize(peers, peer, entry);
      peers := peers[peer := entry];
      return Ok(());
    }

    /** Counts the healthy peers one by one. */
    method ActiveSymmetricPeers() returns (count: nat)
      ensures count == |Healthy(Value())|
    {
      count := 0;
      var left, seen: set<U64> := peers.Keys, {};
      while left != {}
        invariant left + seen == peers.Keys && left !! seen && count == |HealthyAmong(Value(), seen)|
        decreases |left|
      {
        var p :| p in left;
        OneMorePeer(Value(), seen, p);
        if Reach(Value(), p).SymmetricHealthy? {
          count := count + 1;
        }
        left, seen := left - {p}, seen + {p};
      }
      assert seen == peers.Keys;
    }

    method IsWriteAdmitted() returns (ok: bool)
      requires Valid()
      ensures ok <==> Admitted(Value())
      ensures ok <==> 2 * (1 + |Healthy(Value())|) > Value().total
    {
      AdmittedIsMajority(Value());
      var active := ActiveSymmetricPeers();
      ok := 1 + active >= quorumSize;
    }
  }

  lemma InsertSize(m: map<U64, Link>, p: U64, l: Link)
    ensures |m[p := l]| == |m| + if p in m then 0 else 1
  {
    assert m[p := l].Keys == m.Keys + {p};
  }

  // ---- Runs -----------------------------------------------------------

  datatype Event = Seq | Tick(delta: U64) | Beat(b: Heartbeat)

  function Step(n: Node, e: Event): Node {
    match e
    case Seq => n.(ourSeq := SatAdd(n.ourSeq, 1))
    case Tick(delta) => n.(tick := SatAdd(n.tick, delta))
    case Beat(b) => Recorded(n, b)
  }

  function After(n: Node, es: seq<Event>): Node {
    if es == [] then n else Step(After(n, es[..|es| - 1]), es[|es| - 1])
  }

  /** The heartbeats of `p` accepted along a run, in order. */
  function Reports(n: Node, es: seq<Event>, p: U64): seq<Heartbeat> {
    if es == [] then []
    else
      var before, e := After(n, es[..|es| - 1]), es[|es| - 1];
      Reports(n, es[..|es| - 1], p) +
      if e.Beat? && e.b.peer == p && Refusal(before, e.b).None? then [e.b] else []
  }

  /** Recorded peers are within the cluster, not the node itself, have been heard from, and were seen no later than now. */
  predicate Inv(n: Node) {
    && n.total > 0 && |n.peers| <= n.total - 1
    && 0 !in n.peers && n.local !in n.peers
    && forall p :: p in n.peers ==> n.peers[p].seenTick <= n.tick && n.peers[p].receivedSeq > 0
  }

  lemma StepKeepsInv(n: Node, e: Event)
    requires Inv(n)
    ensures Inv(Step(n, e))
  {
    if e.Beat? && Refusal(n, e.b).None? {
      InsertSize(n.peers, e.b.peer, Recorded(n, e.b).peers[e.b.peer]);
    }
  }

  lemma {:induction false} PeersWithinCluster(n: Node, es: seq<Event>)
    requires Inv(n)
    ensures Inv(After(n, es)) && After(n, es).total == n.total
  {
    if es != [] {
      PeersWithinCluster(n, es[..|es| - 1]);
      StepKeepsInv(After(n, es[..|es| - 1]), es[|es| - 1]);
    }
  }

  /**
   Which heartbeats count: those of a real other node with a real sequence, if the node is known or there is
   room for it in the cluster. Such a heartbeat is recorded and touches no other link; any other changes nothing.
   */
  lemma HeartbeatCounts(n: Node, b: Heartbeat)
    requires Inv(n)
    ensures var m := Recorded(n, b);
            if b.peer != 0 && b.peer != n.local && b.seqNo != 0 && (b.peer in n.peers || |n.peers| + 1 < n.total) then
              && b.peer in m.peers && m.peers.Keys == n.peers.Keys + {b.peer} && b.tick <= m.tick
              && b.seqNo <= m.peers[b.peer].receivedSeq && b.ack <= m.peers[b.peer].ackSeq && b.tick <= m.peers[b.peer].seenTick
              && forall p :: p in n.peers && p != b.peer ==> m.peers[p] == n.peers[p]
            else m == n
  {}

  /** `l` covers every report, and each of its fields is one of them. */
  predicate IsMaximum(reports: seq<Heartbeat>, l: Link) {
    && (forall b :: b in reports ==> b.seqNo <= l.receivedSeq && b.ack <= l.ackSeq && b.tick <= l.seenTick)
    && (exists b :: b in reports && b.seqNo == l.receivedSeq)
    && (exists b :: b in reports && b.ack == l.ackSeq)
    && (exists b :: b in reports && b.tick == l.seenTick)
  }

  lemma MaximumGrows(reports: seq<Heartbeat>, l: Link, b: Heartbeat)
    requires IsMaximum(reports, l)
    ensures IsMaximum(reports + [b], Merged(l, b))
  {
    var x :| x in reports && x.seqNo == l.receivedSeq;
    var y :| y in reports && y.ack == l.ackSeq;
    var z :| z in reports && z.tick == l.seenTick;
    var all := reports + [b];
    assert x in all && y in all && z in all && b in all;
  }

  lemma MaximumOfOne(b: Heartbeat)
    ensures IsMaximum([b], Link(b.seqNo, b.ack, b.tick))
  {
    assert b in [b];
  }

  /** From a node without peers: a peer is recorded iff it was accepted, and each field is the maximum ever reported. */
  lemma {:induction false} LinksAreMaxima(n: Node, es: seq<Event>, p: U64)
    requires n.peers == map[]
    ensures p in After(n, es).peers <==> Reports(n, es, p) != []
    ensures p in After(n, es).peers ==> IsMaximum(Reports(n, es, p), After(n, es).peers[p])
  {
    hide Refusal, IsMaximum;
    if es != [] {
      var init, e := es[..|es| - 1], es[|es| - 1];
      LinksAreMaxima(n, init, p);
      var before := After(n, init);
      assert Reports(n, init, p) + [] == Reports(n, init, p);
      if e.Beat? {
        MaximumOfOne(e.b);
        assert Reports(n, init, p) == [] ==> Reports(n, init, p) + [e.b] == [e.b];
        if p in before.peers { MaximumGrows(Reports(n, init, p), before.peers[p], e.b); }
      }
    }
  }

  // ---- Admission ------------------------------------------------------

  /** `p` was heard within the timeout and has acknowledged us within the lag. */
  predicate FreshAndAcked(n: Node, p: U64) {
    p in n.peers && n.tick <= n.peers[p].seenTick + n.timeout && n.ourSeq <= n.peers[p].ackSeq + n.maxAckLag
  }

  /** Writes are admitted exactly when fewer than half of all nodes are missing. */
  lemma AdmittedIsMajority(n: Node)
    ensures Admitted(n) <==> 2 * (n.total - (1 + |Healthy(n)|)) < n.total
  {}

  /** `ps` and the node itself are more than half of the cluster, and every one of `ps` is fresh and acknowledged. */
  ghost predicate BackedBy(n: Node, ps: set<U64>) {
    2 * (|ps| + 1) > n.total && forall p :: p in ps ==> FreshAndAcked(n, p)
  }

  /** Writes are admitted exactly when distinct peers, both fresh and acknowledged, make a majority with the node. */
  lemma AdmittedExactly(n: Node)
    ensures Admitted(n) <==> exists ps: set<U64> :: BackedBy(n, ps)
  {
    forall p ensures p in Healthy(n) <==> FreshAndAcked(n, p) {}
    AdmittedIsMajority(n);
    if Admitted(n) {
      assert BackedBy(n, Healthy(n));
    }
    if ps: set<U64> :| BackedBy(n, ps) {
      assert ps <= Healthy(n);
      SubsetSize(ps, Healthy(n));
    }
  }

  /** The nodes a node can count on: itself and its healthy peers. */
  function Side(n: Node): set<U64> {
    {n.local} + Healthy(n)
  }

  lemma SideSize(n: Node)
    requires Inv(n)
    ensures |Side(n)| == 1 + |Healthy(n)|
  {
    assert n.local !in Healthy(n);
  }

  /**
   No split brain: of two nodes of one cluster that are both admitted, some node is on both sides.
   Two sides without a common node cannot both write.
   */
  lemma AdmittedSidesMeet(a: Node, b: Node, ids: set<U64>)
    requires Inv(a) && Inv(b) && a.total == b.total == |ids|
    requires {a.local} + a.peers.Keys <= ids && {b.local} + b.peers.Keys <= ids
    requires Admitted(a) && Admitted(b)
    ensures Side(a) * Side(b) != {}
  {
    SideSize(a);
    SideSize(b);
    AdmittedIsMajority(a);
    AdmittedIsMajority(b);
    assert Side(a) <= ids && Side(b) <= ids;
    hide Healthy, Admitted, Inv;
    if Side(a) * Side(b) == {} { SubsetSize(Side(a) + Side(b), ids); }
  }

  lemma {:induction false} SubsetSize(a: set<U64>, b: set<U64>)
    requires a <= b
    ensures |a| <= |b|
  {
    if a != {} {
      var x :| x in a;
      SubsetSize(a - {x}, b - {x});
    }
  }

  function Rank(r: Reachability): nat {
    match r case Unreachable => 0 case AsymmetricOutboundBlackhole => 1 case SymmetricHealthy => 2
  }

  /** Only a heartbeat improves a peer's status, and only its sender's; the sender's own never worsens. */
  lemma OnlySenderImproves(n: Node, e: Event, q: U64)
    requires Inv(n)
    ensures !(e.Beat? && e.b.peer == q) ==> Rank(Reach(Step(n, e), q)) <= Rank(Reach(n, q))
    ensures e.Beat? && e.b.peer == q ==> Rank(Reach(n, q)) <= Rank(Reach(Step(n, e), q))
  {}

  /** Admission once lost stays lost until a heartbeat arrives. */
  lemma {:induction false} NotRegainedWithoutHeartbeat(n: Node, es: seq<Event>)
    requires Inv(n) && forall i :: 0 <= i < |es| ==> !es[i].Beat?
    ensures Healthy(After(n, es)) <= Healthy(n)
    ensures Admitted(After(n, es)) ==> Admitted(n)
  {
    PeersWithinCluster(n, es);
    if es != [] {
      var init := es[..|es| - 1];
      NotRegainedWithoutHeartbeat(n, init);
      PeersWithinCluster(n, init);
      forall p | p in Healthy(After(n, es)) ensures p in Healthy(After(n, init)) {
        OnlySenderImproves(After(n, init), es[|es| - 1], p);
      }
    }
    SubsetSize(Healthy(After(n, es)), Healthy(n));
  }
}
