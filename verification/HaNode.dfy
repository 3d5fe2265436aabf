/**
 One CubeMaster of an active-passive pair or group: the value-level meaning of
 every role transition, and the manager object that performs it in place.

 The clock, the network and heartbeat authentication are parameters: `now` is
 the reading a call takes, and a heartbeat that fails a check is simply not
 accepted.
 */
module HaNode {

  /** Seconds of silence after which a standby suspects the active node. */
  const FAILOVER_TIMEOUT := 10

  datatype Role = Active | Standby | Unjoined

  datatype Peer = Peer(id: string, address: string, lastSeen: int, healthy: bool)

  datatype Heartbeat = Heartbeat(fromId: string, role: Role, priority: int)

  datatype Node = Node(selfId: string, priority: int, role: Role, activeId: string,
                       lastHeartbeat: int, peers: seq<Peer>)

  /** Strings compare as in Go: lexicographically, a proper prefix being smaller. */
  predicate StrLess(a: string, b: string) {
    b != "" && (a == "" || a[0] < b[0] || (a[0] == b[0] && StrLess(a[1..], b[1..])))
  }

  /** The precedence used to settle a split brain: the lower priority number
      wins, and between equal numbers the greater ID wins. */
  predicate Outranks(p: int, id: string, q: int, other: string) {
    p < q || (p == q && StrLess(other, id))
  }

  // ---- StrLess, and hence Outranks, is a strict total order ----

  lemma {:induction false} StrLessAsymmetric(a: string, b: string)
    requires StrLess(a, b)
    ensures a != b && !StrLess(b, a)
  {
    if a != "" && a[0] == b[0] {
      StrLessAsymmetric(a[1..], b[1..]);
    }
  }

  lemma {:induction false} StrLessTransitive(a: string, b: string, c: string)
    requires StrLess(a, b) && StrLess(b, c)
    ensures StrLess(a, c)
  {
    if a != "" && a[0] == b[0] == c[0] {
      StrLessTransitive(a[1..], b[1..], c[1..]);
    }
  }

  lemma {:induction false} StrLessTotal(a: string, b: string)
    ensures a == b || StrLess(a, b) || StrLess(b, a)
  {
    if a != "" && b != "" && a[0] == b[0] {
      StrLessTotal(a[1..], b[1..]);
      if a[1..] == b[1..] {
        assert a == [a[0]] + a[1..] == [b[0]] + b[1..] == b;
      }
    }
  }

  /** The strings agree up to `i`, where the first ends or has the smaller character. */
  ghost predicate DiffersAt(a: string, b: string, i: nat) {
    i <= |a| && i < |b| && a[..i] == b[..i] && (i == |a| || a[i] < b[i])
  }

  lemma {:induction false} StrLessIsLexicographic(a: string, b: string)
    ensures StrLess(a, b) <==> exists i: nat :: DiffersAt(a, b, i)
  {
    forall i: nat | i > 0 && DiffersAt(a, b, i) ensures a != "" && a[0] == b[0] {
      assert a[0] == a[..i][0] && b[0] == b[..i][0];
    }
    if a != "" && b != "" && a[0] == b[0] {
      StrLessIsLexicographic(a[1..], b[1..]);
      assert a == [a[0]] + a[1..] && b == [b[0]] + b[1..];
      if i: nat :| DiffersAt(a[1..], b[1..], i) {
        assert a[..i + 1] == [a[0]] + a[1..][..i] && b[..i + 1] == [b[0]] + b[1..][..i];
        assert DiffersAt(a, b, i + 1);
      }
      if i: nat :| DiffersAt(a, b, i) {
        assert i > 0;
        assert a[1..][..i - 1] == a[..i][1..] && b[1..][..i - 1] == b[..i][1..];
        assert DiffersAt(a[1..], b[1..], i - 1);
      }
    } else if StrLess(a, b) {
      assert DiffersAt(a, b, 0);
    }
  }

  /** Outranking is a strict total order on nodes with distinct IDs. */
  lemma OutranksIsTotalOrder(p: int, a: string, q: int, b: string, r: int, c: string)
    ensures Outranks(p, a, q, b) ==> !Outranks(q, b, p, a)
    ensures Outranks(p, a, q, b) && Outranks(q, b, r, c) ==> Outranks(p, a, r, c)
    ensures a != b ==> Outranks(p, a, q, b) || Outranks(q, b, p, a)
  {
    if StrLess(b, a) { StrLessAsymmetric(b, a); }
    if StrLess(c, b) && StrLess(b, a) { StrLessTransitive(c, b, a); }
    StrLessTotal(a, b);
  }

  // ---- What one event does to a node ----

  /** A heartbeat refreshes the first peer known by the sender's ID or address,
      or introduces the sender as a new peer. */
  function TrackPeer(peers: seq<Peer>, from: string, ts: int): (r: seq<Peer>) {
    if peers == [] then [Peer(from, from, ts, true)]
    else if peers[0].id == from || peers[0].address == from then
      [Peer(from, peers[0].address, ts, true)] + peers[1..]
    else [peers[0]] + TrackPeer(peers[1..], from, ts)
  }

  ghost predicate Knows(peers: seq<Peer>, from: string) {
    exists p :: p in peers && (p.id == from || p.address == from)
  }

  lemma KnowsLater(peers: seq<Peer>, from: string)
    requires peers != [] && peers[0].id != from && peers[0].address != from
    ensures Knows(peers, from) <==> Knows(peers[1..], from)
  {
  }

  /** No peer is ever dropped or re-addressed, none but one known by the sender's
      ID or address changes, the sender ends up known, and at
      most one peer is added, exactly when the sender was unknown. */
  lemma {:induction false} TrackPeerKeepsPeers(peers: seq<Peer>, from: string, ts: int)
    ensures var r := TrackPeer(peers, from, ts);
            var known := Knows(peers, from);
            && |r| == |peers| + (if known then 0 else 1)
            && (forall i :: 0 <= i < |peers| ==> r[i].address == peers[i].address)
            && (forall i :: 0 <= i < |peers| && r[i] != peers[i] ==> from in {peers[i].id, peers[i].address})
            && Peer(from, if known then FirstAddress(peers, from) else from, ts, true) in r
  {
    hide Knows;
    if peers == [] {
      assert !Knows(peers, from) by { NobodyIsKnown(from); }
    } else if peers[0].id != from && peers[0].address != from {
      KnowsLater(peers, from);
      TrackPeerKeepsPeers(peers[1..], from, ts);
      assert TrackPeer(peers, from, ts) == [peers[0]] + TrackPeer(peers[1..], from, ts);
    } else {
      KnowsFirst(peers, from);
    }
  }

  ghost predicate Strangers(peers: seq<Peer>, from: string) {
    forall p :: p in peers ==> p.id != from && p.address != from
  }

  /** The first peer after a run of strangers is the one refreshed. */
  lemma {:induction false} TrackAfterStrangers(peers: seq<Peer>, from: string, ts: int, i: nat)
    requires i <= |peers| && Strangers(peers[..i], from)
    requires i < |peers| ==> peers[i].id == from || peers[i].address == from
    ensures TrackPeer(peers, from, ts) ==
            if i < |peers| then peers[i := Peer(from, peers[i].address, ts, true)]
            else peers + [Peer(from, from, ts, true)]
  {
    if i > 0 {
      assert peers[0] in peers[..i];
      var rest := peers[1..];
      assert rest[..i - 1] == peers[..i][1..];
      TrackAfterStrangers(rest, from, ts, i - 1);
      assert TrackPeer(peers, from, ts) == [peers[0]] + TrackPeer(rest, from, ts);
      if i < |peers| {
        var p := Peer(from, peers[i].address, ts, true);
        assert [peers[0]] + rest[i - 1 := p] == peers[i := p];
      } else {
        assert [peers[0]] + (rest + [Peer(from, from, ts, true)]) == peers + [Peer(from, from, ts, true)];
      }
    }
  }

  lemma NobodyIsKnown(from: string)
    ensures !Knows([], from)
  {
  }

  lemma KnowsFirst(peers: seq<Peer>, from: string)
    requires peers != [] && (peers[0].id == from || peers[0].address == from)
    ensures Knows(peers, from)
  {
    assert peers[0] in peers;
  }

  ghost function FirstAddress(peers: seq<Peer>, from: string): string
    requires Knows(peers, from)
  {
    if peers[0].id == from || peers[0].address == from then peers[0].address
    else
      KnowsLater(peers, from);
      FirstAddress(peers[1..], from)
  }

  /** An accepted heartbeat restarts the failover timer; one from an active
      sender is believed, and demotes an active receiver that it outranks. */
  function Receive(n: Node, hb: Heartbeat, now: int): Node {
    var heard := n.(lastHeartbeat := now, peers := TrackPeer(n.peers, hb.fromId, now));
    if !hb.role.Active? then heard
    else if n.role.Active? && hb.fromId != n.selfId
            && Outranks(hb.priority, hb.fromId, n.priority, n.selfId)
    then heard.(activeId := hb.fromId, role := Standby)
    else heard.(activeId := hb.fromId)
  }

  function Promoted(n: Node, now: int): Node {
    n.(role := Active, activeId := n.selfId, lastHeartbeat := now)
  }

  predicate Suspects(n: Node, now: int) {
    n.role.Standby? && now - n.lastHeartbeat >= FAILOVER_TIMEOUT
  }

  function Beat(n: Node): Heartbeat {
    Heartbeat(n.selfId, n.role, n.priority)
  }

  /** When two active nodes hear each other, exactly one of them stands down,
      and it is the outranked one: never both, never neither. */
  lemma ExactlyOneStandsDown(a: Node, b: Node, t: int, u: int)
    requires a.role.Active? && b.role.Active? && a.selfId != b.selfId
    ensures Receive(a, Beat(b), t).role.Active? <==> !Receive(b, Beat(a), u).role.Active?
    ensures Receive(a, Beat(b), t).role.Active? <==> Outranks(a.priority, a.selfId, b.priority, b.selfId)
  {
    OutranksIsTotalOrder(a.priority, a.selfId, b.priority, b.selfId, b.priority, b.selfId);
    OutranksIsTotalOrder(b.priority, b.selfId, a.priority, a.selfId, b.priority, b.selfId);
  }

  /** Of two active nodes that hear each other, the one with the lower ID stands
      down exactly if its priority number is not the lower one. */
  lemma LowerIdStandsDownIff(low: Node, high: Node, t: int, u: int)
    requires low.role.Active? && high.role.Active? && StrLess(low.selfId, high.selfId)
    ensures !Receive(low, Beat(high), t).role.Active? && Receive(high, Beat(low), u).role.Active?
       <==> high.priority <= low.priority
  {
    StrLessAsymmetric(low.selfId, high.selfId);
    ExactlyOneStandsDown(low, high, t, u);
  }

  /** With priority 1 against 2, the node with the greater ID is the one that stands down. */
  lemma GreaterIdCanStandDown(t: int, u: int)
    ensures var a, b := Node("a", 1, Active, "a", 0, []), Node("b", 2, Active, "b", 0, []);
            && StrLess(a.selfId, b.selfId)
            && Receive(a, Beat(b), t).role.Active? && Receive(b, Beat(a), u).role.Standby?
  {
    LowerIdStandsDownIff(Node("a", 1, Active, "a", 0, []), Node("b", 2, Active, "b", 0, []), t, u);
  }

  // ---- The manager ----

  /** The heartbeat handler, role transitions and failover check of one process. */
  class HaManager {
    const selfId: string
    const priority: int
    var role: Role
    var activeId: string
    var lastHeartbeat: int
    var peers: seq<Peer>

    ghost function State(): Node
      reads this
    {
      Node(selfId, priority, role, activeId, lastHeartbeat, peers)
    }

    /** The initial role is the configured one or, when none is configured,
        active exactly if there are no peers. */
    constructor (selfId: string, priority: int, addresses: seq<string>, configured: Role, now: int)
      ensures this.selfId == selfId && this.priority == priority
      ensures role == if configured.Unjoined? then (if addresses == [] then Active else Standby) else configured
      ensures activeId == if role.Active? then selfId else ""
      ensures lastHeartbeat == now
      ensures |peers| == |addresses|
      ensures forall i :: 0 <= i < |peers| ==> peers[i].id == peers[i].address == addresses[i] && peers[i].healthy
    {
      this.selfId := selfId;
      this.priority := priority;
      var r := configured;
      if r.Unjoined? {
        r := if addresses == [] then Active else Standby;
      }
      role := r;
      activeId := if r.Active? then selfId else "";
      lastHeartbeat := now;
      peers := seq(|addresses|, i requires 0 <= i < |addresses| => Peer(addresses[i], addresses[i], 0, true));
    }

    /** The peer loop of the heartbeat handler. */
    method NotePeer(from: string, now: int)
      modifies this`peers
      ensures peers == TrackPeer(old(peers), from, now)
    {
      hide TrackPeer;
      var i := 0;
      while i < |peers| && peers[i].id != from && peers[i].address != from
        invariant 0 <= i <= |peers| && peers == old(peers)
        invariant Strangers(peers[..i], from)
      {
        assert peers[..i + 1] == peers[..i] + [peers[i]];
        i := i + 1;
      }
      TrackAfterStrangers(peers, from, now, i);
      if i < |peers| {
        peers := peers[i := peers[i].(id := from, lastSeen := now, healthy := true)];
      } else {
        peers := peers + [Peer(from, from, now, true)];
      }
    }

    /** `authentic` stands for the rate limit, HMAC and freshness checks. */
    method HandleHeartbeat(hb: Heartbeat, authentic: bool, now: int) returns (accepted: bool)
      modifies this
      ensures accepted == (authentic && hb.fromId != "")
      ensures State() == if accepted then Receive(old(State()), hb, now) else old(State())
    {
      if hb.fromId == "" || !authentic {
        return false;
      }
      lastHeartbeat := now;
      NotePeer(hb.fromId, now);
      if hb.role.Active? {
        activeId := hb.fromId;
        if role.Active? && hb.fromId != selfId {
          var peerWins := hb.priority < priority || (hb.priority == priority && StrLess(selfId, hb.fromId));
          if peerWins {
            role := Standby;
          }
        }
      }
      return true;
    }

    method Promote(now: int)
      modifies this
      ensures State() == Promoted(old(State()), now)
    {
      role := Active;
      activeId := selfId;
      lastHeartbeat := now;
    }

    method CheckFailover(now: int) returns (dead: bool)
      ensures dead <==> Suspects(State(), now)
    {
      if !role.Standby? {
        return false;
      }
      return now - lastHeartbeat >= FAILOVER_TIMEOUT;
    }

    /** The payload is built from the role held at that moment, which need not
        be the role that was checked before dispatching. */
    method BuildHeartbeat() returns (hb: Heartbeat, addresses: seq<string>)
      ensures hb == Beat(State())
      ensures |addresses| == |peers|
      ensures forall i :: 0 <= i < |peers| ==> addresses[i] == peers[i].address
    {
      hb := Heartbeat(selfId, role, priority);
      addresses := [];
      for i := 0 to |peers|
        invariant |addresses| == i
        invariant forall j :: 0 <= j < i ==> addresses[j] == peers[j].address
      {
        addresses := addresses + [peers[i].address];
      }
    }
  }
}
