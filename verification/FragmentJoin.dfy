/**
 A peer that did not fit in one netlink message arrives as several fragments, and the list of fragments
 is walked once to join neighbours with the same key.  Peers and allowed IPs are linked lists, and a join
 hangs the allowed IPs of one peer behind the last allowed IP of the other.
 */
module FragmentJoin {
  type Key = nat

  /** An allowed IP; what it stands for is in id, the rest decides how much room it takes. */
  datatype Ip = Ip(id: nat, addrLen: nat, hasFlags: bool)

  /** A peer as it stands in one message; header tells whether its own attributes are there. */
  datatype Frag = Frag(key: Key, removeMe: bool, replaceIps: bool, header: bool, ips: seq<Ip>)

  // ---------------------------------------------------------------- what the join should be

  /** One more fragment: joined to the last one if it has the same key. */
  function Push(r: seq<Frag>, f: Frag): seq<Frag> {
    if r != [] && r[|r| - 1].key == f.key then r[|r| - 1 := r[|r| - 1].(ips := r[|r| - 1].ips + f.ips)] else r + [f]
  }

  /** The fragments of each run of one key as one. */
  function Coalesce(fs: seq<Frag>): seq<Frag> {
    if fs == [] then [] else Push(Coalesce(fs[..|fs| - 1]), fs[|fs| - 1])
  }

  lemma CoalesceMore(fs: seq<Frag>, f: Frag)
    ensures Coalesce(fs + [f]) == Push(Coalesce(fs), f)
  {
    assert (fs + [f])[..|fs|] == fs;
  }

  // ---------------------------------------------------------------- what the walk does

  /** The peers joined so far, and whether the last of them still knows where its allowed IPs end. */
  datatype Walk = Lost | Walk(peers: seq<Frag>, tail: bool)

  /** A peer that has allowed IPs but has lost their end cannot be joined to anything. */
  function Meet(w: Walk, f: Frag): Walk {
    if w.Lost? then Lost
    else if w.peers != [] && w.peers[|w.peers| - 1].key == f.key && w.peers[|w.peers| - 1].ips != [] && !w.tail then Lost
    else Walk(Push(w.peers, f), f.ips != [])
  }

  function WalkOver(fs: seq<Frag>): Walk {
    if fs == [] then Walk([], false) else Meet(WalkOver(fs[..|fs| - 1]), fs[|fs| - 1])
  }

  lemma WalkOverNothing()
    ensures WalkOver([]) == Walk([], false) && Coalesce([]) == []
  {
  }

  lemma WalkMore(fs: seq<Frag>, f: Frag)
    ensures WalkOver(fs + [f]) == Meet(WalkOver(fs), f)
  {
    assert (fs + [f])[..|fs|] == fs;
  }

  lemma {:induction false} LostStays(fs: seq<Frag>, n: nat)
    requires n <= |fs| && WalkOver(fs[..n]).Lost?
    ensures WalkOver(fs).Lost?
    decreases |fs| - n
  {
    hide WalkOver;
    if n == |fs| {
      assert fs[..n] == fs;
    } else {
      assert fs[..n + 1] == fs[..n] + [fs[n]];
      WalkMore(fs[..n], fs[n]);
      LostStays(fs, n + 1);
    }
  }

  ghost predicate SameKey(fs: seq<Frag>, j: nat, i: nat)
    requires i < |fs|
  {
    forall m :: j <= m <= i ==> fs[m].key == fs[i].key
  }

  /** Some earlier fragment of the run that fragment i belongs to has allowed IPs. */
  ghost predicate PartBefore(fs: seq<Frag>, i: nat)
    requires i < |fs|
  {
    exists j: nat :: j < i && SameKey(fs, j, i) && fs[j].ips != []
  }

  /** Fragment i adds nothing to the allowed IPs before it, and yet its key comes again. */
  ghost predicate Snag(fs: seq<Frag>, i: nat) {
    i + 1 < |fs| && fs[i].key == fs[i + 1].key && fs[i].ips == [] && PartBefore(fs, i)
  }

  ghost predicate Smooth(fs: seq<Frag>) {
    forall i: nat :: i + 1 < |fs| ==> !Snag(fs, i)
  }

  /** What the walk gives is the join, and it gets through exactly when there is no snag. */
  lemma {:induction false} WalkExactly(fs: seq<Frag>)
    ensures WalkOver(fs).Walk? <==> Smooth(fs)
    ensures WalkOver(fs).Walk? ==> WalkOver(fs) == Walk(Coalesce(fs), fs != [] && fs[|fs| - 1].ips != [])
    ensures fs != [] ==> Coalesce(fs) != [] && var last := Coalesce(fs)[|Coalesce(fs)| - 1];
              last.key == fs[|fs| - 1].key && (last.ips != [] <==> fs[|fs| - 1].ips != [] || PartBefore(fs, |fs| - 1))
  {
    if fs != [] {
      hide Smooth, PartBefore;
      var n := |fs| - 1;
      var front := fs[..n];
      WalkExactly(front);
      if n > 0 { PartMore(fs); }
      SmoothMore(fs);
    }
  }

  lemma PartMore(fs: seq<Frag>)
    requires |fs| > 1
    ensures var n := |fs| - 1;
            PartBefore(fs, n) <==> fs[n - 1].key == fs[n].key && (fs[n - 1].ips != [] || PartBefore(fs[..n], n - 1))
  {
    var n := |fs| - 1;
    var front := fs[..n];
    if PartBefore(fs, n) {
      var j: nat :| j < n && SameKey(fs, j, n) && fs[j].ips != [];
      assert j < n - 1 ==> SameKey(front, j, n - 1);
      assert fs[n - 1].key == fs[n].key;
    }
    if fs[n - 1].key == fs[n].key && fs[n - 1].ips != [] {
      assert SameKey(fs, n - 1, n);
    }
    if fs[n - 1].key == fs[n].key && PartBefore(front, n - 1) {
      var j: nat :| j < n - 1 && SameKey(front, j, n - 1) && front[j].ips != [];
      assert front[n - 1].key == fs[n].key;
      assert SameKey(fs, j, n) by {
        forall m | j <= m <= n ensures fs[m].key == fs[n].key { assert m < n ==> front[m].key == front[n - 1].key; }
      }
    }
  }

  lemma PartPrefix(fs: seq<Frag>, n: nat, i: nat)
    requires i < n <= |fs|
    ensures PartBefore(fs, i) <==> PartBefore(fs[..n], i)
  {
    assert forall j: nat :: j < i ==> (SameKey(fs, j, i) <==> SameKey(fs[..n], j, i));
  }

  lemma SmoothMore(fs: seq<Frag>)
    requires fs != []
    ensures var n := |fs| - 1;
            Smooth(fs) <==> Smooth(fs[..n]) && (n > 0 && fs[n - 1].key == fs[n].key && fs[n - 1].ips == [] ==> !PartBefore(fs[..n], n - 1))
  {
    var n := |fs| - 1;
    forall i: nat | i < n ensures PartBefore(fs, i) <==> PartBefore(fs[..n], i) { PartPrefix(fs, n, i); }
    forall i: nat | i + 1 < n ensures Snag(fs, i) <==> Snag(fs[..n], i) {}
    assert n > 0 ==> (Snag(fs, n - 1) <==> fs[n - 1].key == fs[n].key && fs[n - 1].ips == [] && PartBefore(fs[..n], n - 1));
  }

  /** Where every fragment that continues a peer brings allowed IPs along, the walk gets through. */
  lemma ContinuedIsSmooth(fs: seq<Frag>)
    requires forall i {:trigger fs[i]} :: 0 < i < |fs| && fs[i - 1].key == fs[i].key ==> fs[i].ips != []
    ensures WalkOver(fs).Walk? && WalkOver(fs).peers == Coalesce(fs)
  {
    forall i: nat | i + 1 < |fs| ensures !Snag(fs, i) {
      if PartBefore(fs, i) {
        assert i > 0 && fs[i - 1].key == fs[i].key;
      }
    }
    WalkExactly(fs);
  }

  function Part(k: Key, ips: seq<Ip>): Frag { Frag(k, false, false, false, ips) }

  /** An empty fragment in the middle of a peer: joined they would be one peer, but the walk does not get there. */
  lemma EmptyMiddle(k: Key, a: Ip, b: Ip)
    ensures var fs := [Part(k, [a]), Part(k, []), Part(k, [b])];
            WalkOver(fs) == Lost && Coalesce(fs) == [Part(k, [a, b])]
  {
    var fs := [Part(k, [a]), Part(k, []), Part(k, [b])];
    assert SameKey(fs, 0, 1);
    assert Snag(fs, 1);
    WalkExactly(fs);
    assert fs[..2] == [Part(k, [a]), Part(k, [])] && fs[..2][..1] == [Part(k, [a])] && [Part(k, [a])][..0] == [];
    assert Coalesce(fs[..2][..1]) == [Part(k, [a])];
    assert [a] + [] == [a] && [a] + [b] == [a, b];
  }

  // ---------------------------------------------------------------- the lists on the heap

  class IpNode {
    const ip: Ip
    var next: IpNode?

    constructor (ip: Ip)
      ensures this.ip == ip && next == null
    {
      this.ip, this.next := ip, null;
    }
  }

  class PeerNode {
    const key: Key
    const removeMe: bool
    const replaceIps: bool
    const header: bool
    var first: IpNode?
    var last: IpNode?
    var next: PeerNode?

    constructor (key: Key, removeMe: bool, replaceIps: bool, header: bool)
      ensures this.key == key && this.removeMe == removeMe && this.replaceIps == replaceIps && this.header == header
      ensures first == null && last == null && next == null
    {
      this.key, this.removeMe, this.replaceIps, this.header := key, removeMe, replaceIps, header;
      this.first, this.last, this.next := null, null, null;
    }
  }

  /** The peers of a list and the allowed IPs that hang from each, all of them in pool. */
  datatype Lists = Lists(peers: seq<PeerNode>, ips: seq<seq<IpNode>>, pool: set<IpNode>)

  function EndOf(ns: seq<IpNode>): IpNode? { if ns == [] then null else ns[|ns| - 1] }

  /** The nodes are linked in this order, and nothing follows the last. */
  ghost predicate Chain(first: IpNode?, ns: seq<IpNode>)
    reads ns
  {
    && first == (if ns == [] then null else ns[0])
    && forall i {:trigger ns[i]} :: 0 <= i < |ns| ==> ns[i].next == if i + 1 < |ns| then ns[i + 1] else null
  }

  /** No node hangs in two places. */
  ghost predicate Apart(ips: seq<seq<IpNode>>) {
    forall i, a, j, b {:trigger ips[i][a], ips[j][b]} ::
      0 <= i < |ips| && 0 <= a < |ips[i]| && 0 <= j < |ips| && 0 <= b < |ips[j]| && ips[i][a] == ips[j][b] ==> i == j && a == b
  }

  ghost predicate Distinct(peers: seq<PeerNode>) {
    forall i, j :: 0 <= i < |peers| && 0 <= j < |peers| && peers[i] == peers[j] ==> i == j
  }

  ghost predicate PeersLinked(peers: seq<PeerNode>)
    reads peers
  {
    && Distinct(peers)
    && forall i {:trigger peers[i]} :: 0 <= i < |peers| ==> peers[i].next == if i + 1 < |peers| then peers[i + 1] else null
  }

  ghost predicate InPool(ns: seq<IpNode>, pool: set<IpNode>) {
    forall n :: n in ns ==> n in pool
  }

  ghost predicate Linked(l: Lists)
    reads l.peers, l.pool
  {
    && |l.peers| == |l.ips| && PeersLinked(l.peers) && Apart(l.ips)
    && (forall i {:trigger l.ips[i]} :: 0 <= i < |l.ips| ==> InPool(l.ips[i], l.pool))
    && (forall i {:trigger l.ips[i]} :: 0 <= i < |l.ips| ==> Chain(l.peers[i].first, l.ips[i]))
  }

  function Values(ns: seq<IpNode>): (r: seq<Ip>)
    ensures |r| == |ns| && forall i :: 0 <= i < |ns| ==> r[i] == ns[i].ip
  {
    if ns == [] then [] else [ns[0].ip] + Values(ns[1..])
  }

  /** The fragments a list stands for. */
  function Read(l: Lists): (fs: seq<Frag>)
    requires |l.peers| == |l.ips|
    ensures |fs| == |l.peers|
  {
    seq(|l.peers|, i requires 0 <= i < |l.peers| =>
      Frag(l.peers[i].key, l.peers[i].removeMe, l.peers[i].replaceIps, l.peers[i].header, Values(l.ips[i])))
  }

  /** Peer i takes over the allowed IPs of the next one, which goes. */
  function Joined(l: Lists, i: nat): Lists
    requires |l.peers| == |l.ips| && i + 1 < |l.peers|
  {
    Lists(l.peers[..i + 1] + l.peers[i + 2..], l.ips[..i] + [l.ips[i] + l.ips[i + 1]] + l.ips[i + 2..], l.pool)
  }

  lemma ReadJoined(l: Lists, i: nat)
    requires |l.peers| == |l.ips| && i + 1 < |l.peers|
    ensures var r := Read(l); Read(Joined(l, i)) == r[..i] + [r[i].(ips := r[i].ips + r[i + 1].ips)] + r[i + 2..]
  {
    assert Values(l.ips[i] + l.ips[i + 1]) == Values(l.ips[i]) + Values(l.ips[i + 1]);
  }

  lemma ApartJoined(l: Lists, i: nat)
    requires |l.peers| == |l.ips| && i + 1 < |l.peers| && Apart(l.ips)
    ensures Apart(Joined(l, i).ips)
  {
    var ips, js := l.ips, Joined(l, i).ips;
    forall x, a, y, b | 0 <= x < |js| && 0 <= a < |js[x]| && 0 <= y < |js| && 0 <= b < |js[y]| && js[x][a] == js[y][b]
      ensures x == y && a == b
    {
      var (x', a') := Origin(l, i, x, a);
      var (y', b') := Origin(l, i, y, b);
      assert ips[x'][a'] == ips[y'][b'];
    }
  }

  /** Where a node hung before the join. */
  function Origin(l: Lists, i: nat, x: nat, a: nat): (o: (nat, nat))
    requires |l.peers| == |l.ips| && i + 1 < |l.peers| && x < |Joined(l, i).ips| && a < |Joined(l, i).ips[x]|
    ensures o.0 < |l.ips| && o.1 < |l.ips[o.0]| && l.ips[o.0][o.1] == Joined(l, i).ips[x][a]
  {
    if x < i then (x, a)
    else if x == i then (if a < |l.ips[i]| then (i, a) else (i + 1, a - |l.ips[i]|))
    else (x + 1, a)
  }

  /** Every peer knows where its allowed IPs end. */
  ghost predicate AllTails(l: Lists)
    reads l.peers
  {
    |l.peers| == |l.ips| && forall k {:trigger l.peers[k]} :: 0 <= k < |l.peers| ==> l.peers[k].last == EndOf(l.ips[k])
  }

  function FirstOf(ps: seq<PeerNode>): PeerNode? { if ps == [] then null else ps[0] }

  // ---------------------------------------------------------------- building the lists

  ghost predicate DistinctNodes(ns: seq<IpNode>) {
    forall a, b :: 0 <= a < |ns| && 0 <= b < |ns| && ns[a] == ns[b] ==> a == b
  }

  ghost predicate Outside(ns: seq<IpNode>, pool: set<IpNode>) {
    forall n :: n in ns ==> n !in pool
  }

  lemma ChainMore(first: IpNode?, ns: seq<IpNode>, n: IpNode)
    requires ns != [] && first == ns[0] && n.next == null && EndOf(ns).next == n
    requires forall a {:trigger ns[a]} :: 0 <= a < |ns| - 1 ==> ns[a].next == ns[a + 1]
    ensures Chain(first, ns + [n])
  {
    assert Chain(n, [n]);
    ChainConcat(ns, [n], n);
  }

  /** The allowed IPs hang from the peer as the nodes ns, and it knows where they end. */
  ghost predicate Hangs(peer: PeerNode, ips: seq<Ip>, ns: seq<IpNode>, nodes: set<IpNode>)
    reads peer, nodes
  {
    && InPool(ns, nodes) && DistinctNodes(ns) && Chain(peer.first, ns) && peer.last == EndOf(ns)
    && Values(ns) == ips
  }

  /** An allowed IP is hung behind the last one of its peer. */
  method ParseIp(peer: PeerNode, ip: Ip, ghost ips: seq<Ip>, ghost ns: seq<IpNode>, ghost nodes: set<IpNode>) returns (node: IpNode)
    requires Hangs(peer, ips, ns, nodes)
    modifies peer`first, peer`last, nodes
    ensures Hangs(peer, ips + [ip], ns + [node], nodes + {node}) && fresh(node)
  {
    node := new IpNode(ip);
    if peer.first == null {
      peer.first := node;
    } else {
      assert peer.last in ns;
      peer.last.next := node;
      FrontKept(ns);
      ChainMore(peer.first, ns, node);
    }
    peer.last := node;
    assert Values(ns + [node]) == ips + [ip];
  }

  /** A peer with its allowed IPs, each hung behind the one before. */
  method ParsePeer(f: Frag) returns (peer: PeerNode, ghost ns: seq<IpNode>, ghost nodes: set<IpNode>)
    ensures fresh(peer) && peer.next == null && fresh(nodes) && Hangs(peer, f.ips, ns, nodes)
    ensures f == Frag(peer.key, peer.removeMe, peer.replaceIps, peer.header, f.ips)
  {
    peer := new PeerNode(f.key, f.removeMe, f.replaceIps, f.header);
    ns, nodes := [], {};
    for k := 0 to |f.ips|
      invariant peer.next == null && fresh(nodes) && Hangs(peer, f.ips[..k], ns, nodes)
    {
      hide Hangs;
      var node := ParseIp(peer, f.ips[k], f.ips[..k], ns, nodes);
      ns, nodes := ns + [node], nodes + {node};
      assert f.ips[..k + 1] == f.ips[..k] + [f.ips[k]];
    }
    assert f.ips[..|f.ips|] == f.ips;
  }

  /** Writing the link behind the last node leaves the others as they were. */
  twostate lemma FrontKept(ns: seq<IpNode>)
    requires ns != [] && old(Chain(ns[0], ns)) && DistinctNodes(ns)
    requires forall n :: n in ns && n != EndOf(ns) ==> n.next == old(n.next)
    ensures forall a {:trigger ns[a]} :: 0 <= a < |ns| - 1 ==> ns[a].next == ns[a + 1]
  {
    forall a | 0 <= a < |ns| - 1 ensures ns[a].next == ns[a + 1] {
      assert ns[a] in ns && ns[a] != ns[|ns| - 1];
    }
  }

  ghost function With(l: Lists, peer: PeerNode, ns: seq<IpNode>, nodes: set<IpNode>): Lists {
    Lists(l.peers + [peer], l.ips + [ns], l.pool + nodes)
  }

  lemma ReadWith(l: Lists, peer: PeerNode, ns: seq<IpNode>, nodes: set<IpNode>)
    requires |l.peers| == |l.ips|
    ensures Read(With(l, peer, ns, nodes)) == Read(l) + [Frag(peer.key, peer.removeMe, peer.replaceIps, peer.header, Values(ns))]
  {
  }

  lemma ApartWith(l: Lists, ns: seq<IpNode>, nodes: set<IpNode>)
    requires Apart(l.ips) && (forall i {:trigger l.ips[i]} :: 0 <= i < |l.ips| ==> InPool(l.ips[i], l.pool))
    requires Outside(ns, l.pool) && InPool(ns, nodes) && DistinctNodes(ns)
    ensures Apart(l.ips + [ns])
  {
    forall i, a | 0 <= i < |l.ips| && 0 <= a < |l.ips[i]| ensures l.ips[i][a] in l.pool && l.ips[i][a] !in ns {
      assert InPool(l.ips[i], l.pool) && l.ips[i][a] in l.ips[i];
    }
    var ips := l.ips + [ns];
    forall i, a, j, b | 0 <= i < |ips| && 0 <= a < |ips[i]| && 0 <= j < |ips| && 0 <= b < |ips[j]| && ips[i][a] == ips[j][b]
      ensures i == j && a == b
    {
      assert i < |l.ips| ==> ips[i][a] == l.ips[i][a];
      assert j < |l.ips| ==> ips[j][b] == l.ips[j][b];
    }
  }

  /** Another peer at the end of the list; the links of the others are as they were. */
  lemma LinkedWith(l: Lists, peer: PeerNode, ns: seq<IpNode>, nodes: set<IpNode>)
    requires |l.peers| == |l.ips| && Apart(l.ips) && Distinct(l.peers) && peer !in l.peers && Outside(ns, l.pool) && InPool(ns, nodes) && DistinctNodes(ns)
    requires forall i {:trigger l.ips[i]} :: 0 <= i < |l.ips| ==> InPool(l.ips[i], l.pool) && Chain(l.peers[i].first, l.ips[i])
    requires forall i {:trigger l.peers[i]} :: 0 <= i < |l.peers| ==> l.peers[i].next == if i + 1 < |l.peers| then l.peers[i + 1] else peer
    requires peer.next == null && Chain(peer.first, ns)
    ensures Linked(With(l, peer, ns, nodes))
  {
    ApartWith(l, ns, nodes);
    hide Apart, Chain;
    var m := With(l, peer, ns, nodes);
    forall i | 0 <= i < |m.ips| ensures InPool(m.ips[i], m.pool) && Chain(m.peers[i].first, m.ips[i]) {
      if i < |l.ips| { assert m.ips[i] == l.ips[i] && InPool(l.ips[i], l.pool); }
    }
    forall i | 0 <= i < |m.peers| ensures m.peers[i].next == if i + 1 < |m.peers| then m.peers[i + 1] else null {
      if i < |l.peers| { assert m.peers[i] == l.peers[i]; }
    }
  }

  /** The peer is hung behind the last one. */
  method AppendPeer(last: PeerNode?, peer: PeerNode, ghost l: Lists, ghost ns: seq<IpNode>, ghost nodes: set<IpNode>)
    requires Linked(l) && AllTails(l) && last == LastOf(l.peers) && peer !in l.peers && Outside(ns, l.pool) && InPool(ns, nodes) && DistinctNodes(ns)
    requires peer.next == null && Chain(peer.first, ns) && peer.last == EndOf(ns)
    modifies (if last == null then {} else {last})`next
    ensures Linked(With(l, peer, ns, nodes)) && AllTails(With(l, peer, ns, nodes))
  {
    hide Apart, Chain, Distinct, DistinctNodes, Outside, InPool, With;
    if last != null {
      last.next := peer;
    }
    LinkedWith(l, peer, ns, nodes);
    TailsWith(l, peer, ns, nodes);
  }

  lemma TailsWith(l: Lists, peer: PeerNode, ns: seq<IpNode>, nodes: set<IpNode>)
    requires AllTails(l) && peer.last == EndOf(ns)
    ensures AllTails(With(l, peer, ns, nodes))
  {
    var m := With(l, peer, ns, nodes);
    forall k | 0 <= k < |m.peers| ensures m.peers[k].last == EndOf(m.ips[k]) {
      if k < |l.peers| { assert m.peers[k] == l.peers[k] && m.ips[k] == l.ips[k]; }
    }
  }

  function LastOf(ps: seq<PeerNode>): PeerNode? { if ps == [] then null else ps[|ps| - 1] }

  ghost predicate AllIn(ps: seq<PeerNode>, made: set<PeerNode>) {
    forall p :: p in ps ==> p in made
  }

  /** A list of the fragments fs, whose peers are in made. */
  ghost predicate Device(fs: seq<Frag>, first: PeerNode?, last: PeerNode?, l: Lists, made: set<PeerNode>)
    reads l.peers, l.pool
  {
    Linked(l) && AllTails(l) && first == FirstOf(l.peers) && last == LastOf(l.peers) && Read(l) == fs && AllIn(l.peers, made)
  }

  lemma DeviceLast(fs: seq<Frag>, first: PeerNode?, last: PeerNode?, l: Lists, made: set<PeerNode>)
    requires Device(fs, first, last, l, made)
    ensures last != null ==> last in made
  {
  }

  lemma NoDevice()
    ensures Device([], null, null, Lists([], [], {}), {})
  {
  }

  /** One more fragment becomes one more peer. */
  method ParseNext(f: Frag, first: PeerNode?, last: PeerNode?, ghost fs: seq<Frag>, ghost l: Lists, ghost made: set<PeerNode>)
    returns (first': PeerNode, last': PeerNode, ghost m: Lists)
    requires Device(fs, first, last, l, made)
    modifies made`next
    ensures Device(fs + [f], first', last', m, made + {last'}) && fresh(last') && fresh(m.pool - l.pool)
  {
    hide Linked, AllTails, Read, Apart, Chain, DistinctNodes;
    LinkedSizes(l);
    DeviceLast(fs, first, last, l, made);
    var peer, ns, nodes := ParsePeer(f);
    AppendPeer(last, peer, l, ns, nodes);
    ReadWith(l, peer, ns, nodes);
    first', last', m := if first == null then peer else first, peer, With(l, peer, ns, nodes);
  }

  /** The received fragments become a list of peers, each appended behind the last. */
  method ParsePeers(fs: seq<Frag>) returns (first: PeerNode?, ghost last: PeerNode?, ghost l: Lists, ghost made: set<PeerNode>)
    ensures Device(fs, first, last, l, made) && fresh(made) && fresh(l.pool)
  {
    hide Device;
    l, made := Lists([], [], {}), {};
    first := null;
    var end: PeerNode? := null;
    NoDevice();
    for k := 0 to |fs|
      invariant Device(fs[..k], first, end, l, made) && fresh(made) && fresh(l.pool)
    {
      first, end, l := ParseNext(fs[k], first, end, fs[..k], l, made);
      made := made + {end};
      assert fs[..k + 1] == fs[..k] + [fs[k]];
    }
    assert fs[..|fs|] == fs;
    last := end;
  }

  /** What arrives is parsed and joined; that works out exactly when the walk meets no snag. */
  method Receive(fs: seq<Frag>) returns (ok: bool, first: PeerNode?, ghost l: Lists)
    ensures ok <==> Smooth(fs)
    ensures ok ==> Linked(l) && first == FirstOf(l.peers) && Read(l) == Coalesce(fs)
  {
    hide Linked, AllTails, Read, Smooth, Coalesce;
    ghost var last, made;
    first, last, l, made := ParsePeers(fs);
    ok, l := CoalescePeers(first, l, made);
  }

  /** The pointers a join writes: the link behind the last allowed IP, or the first, and the link to the next peer. */
  twostate predicate Hung(j: (Lists, nat))
    reads j.0.peers, j.0.pool
  {
    var (l, i) := j;
    && |l.peers| == |l.ips| && i + 1 < |l.peers|
    && (forall k {:trigger l.peers[k]} :: 0 <= k < |l.peers| && k != i ==> l.peers[k].first == old(l.peers[k].first) && l.peers[k].next == old(l.peers[k].next))
    && l.peers[i].next == old(l.peers[i + 1].next)
    && l.peers[i].first == (if l.ips[i] == [] then old(l.peers[i + 1].first) else old(l.peers[i].first))
    && (forall n :: n in l.pool && n != EndOf(l.ips[i]) ==> n.next == old(n.next))
    && (l.ips[i] != [] && EndOf(l.ips[i]) in l.pool ==> EndOf(l.ips[i]).next == old(l.peers[i + 1].first))
  }

  lemma DistinctJoined(l: Lists, i: nat)
    requires |l.peers| == |l.ips| && i + 1 < |l.peers| && Distinct(l.peers)
    ensures Distinct(Joined(l, i).peers)
  {
    var ps, qs := l.peers, Joined(l, i).peers;
    forall x, y | 0 <= x < |qs| && 0 <= y < |qs| && qs[x] == qs[y] ensures x == y {
      var x', y' := if x <= i then x else x + 1, if y <= i then y else y + 1;
      assert qs[x] == ps[x'] && qs[y] == ps[y'];
    }
  }

  twostate lemma HungPeers(j: (Lists, nat))
    requires Hung(j) && old(PeersLinked(j.0.peers))
    ensures PeersLinked(Joined(j.0, j.1).peers)
  {
    var (l, i) := j;
    var ps := Joined(l, i).peers;
    DistinctJoined(l, i);
    hide Distinct;
    assert old(l.peers[i + 1].next) == if i + 2 < |l.peers| then l.peers[i + 2] else null;
    forall k | 0 <= k < |ps| ensures ps[k].next == if k + 1 < |ps| then ps[k + 1] else null {
      assert ps[k] == if k <= i then l.peers[k] else l.peers[k + 1];
    }
  }

  /** A chain that the join does not touch. */
  twostate lemma ChainSame(c: (Lists, nat, nat))
    requires Hung((c.0, c.1)) && old(Linked(c.0)) && c.2 < |c.0.ips| && c.2 != c.1
    ensures Chain(c.0.peers[c.2].first, c.0.ips[c.2])
  {
    var (l, i, k) := c;
    assert old(Chain(l.peers[k].first, l.ips[k]));
    assert InPool(l.ips[k], l.pool);
    forall a | 0 <= a < |l.ips[k]| ensures l.ips[k][a] in l.pool && l.ips[k][a] != EndOf(l.ips[i]) {
      if l.ips[i] != [] { assert l.ips[i][|l.ips[i]| - 1] != l.ips[k][a]; }
    }
  }

  /** Two chains, the second hung behind the first. */
  lemma ChainConcat(s: seq<IpNode>, t: seq<IpNode>, mid: IpNode?)
    requires s != [] && Chain(mid, t) && EndOf(s).next == mid
    requires forall a {:trigger s[a]} :: 0 <= a < |s| - 1 ==> s[a].next == s[a + 1]
    ensures Chain(s[0], s + t)
  {
    var u := s + t;
    forall a | 0 <= a < |u| ensures u[a].next == if a + 1 < |u| then u[a + 1] else null {
      if a < |s| { assert u[a] == s[a]; } else { assert u[a] == t[a - |s|]; }
    }
  }

  /** The chain that another is hung behind keeps its links up to its end. */
  twostate lemma FrontSame(j: (Lists, nat))
    requires Hung(j) && old(Linked(j.0)) && j.0.ips[j.1] != []
    ensures var s := j.0.ips[j.1];
            && j.0.peers[j.1].first == s[0] && EndOf(s) in j.0.pool
            && forall a {:trigger s[a]} :: 0 <= a < |s| - 1 ==> s[a].next == s[a + 1]
  {
    var (l, i) := j;
    var s := l.ips[i];
    assert old(Chain(l.peers[i].first, s)) && InPool(s, l.pool);
    forall a | 0 <= a < |s| - 1 ensures s[a].next == s[a + 1] {
      assert l.ips[i][a] != l.ips[i][|s| - 1];
    }
  }

  twostate lemma ChainJoined(j: (Lists, nat))
    requires Hung(j) && old(Linked(j.0))
    ensures Chain(j.0.peers[j.1].first, j.0.ips[j.1] + j.0.ips[j.1 + 1])
  {
    hide Chain, Apart, PeersLinked, InPool;
    var (l, i) := j;
    ChainSame((l, i, i + 1));
    if l.ips[i] == [] {
      assert l.ips[i] + l.ips[i + 1] == l.ips[i + 1];
    } else {
      FrontSame(j);
      ChainConcat(l.ips[i], l.ips[i + 1], l.peers[i + 1].first);
    }
  }

  twostate lemma JoinedLinked(j: (Lists, nat))
    requires Hung(j) && old(Linked(j.0))
    ensures Linked(Joined(j.0, j.1))
  {
    hide Apart, Chain, PeersLinked;
    var (l, i) := j;
    var m := Joined(l, i);
    HungPeers(j);
    ApartJoined(l, i);
    ChainJoined(j);
    forall k | 0 <= k < |m.ips| ensures InPool(m.ips[k], m.pool) && Chain(m.peers[k].first, m.ips[k]) {
      if k < i {
        ChainSame((l, i, k));
      } else if k > i {
        ChainSame((l, i, k + 1));
      }
    }
  }

  lemma Neighbour(l: Lists, i: nat)
    requires Linked(l) && i < |l.peers|
    ensures |l.peers| == |l.ips| && l.peers[i].next == if i + 1 < |l.peers| then l.peers[i + 1] else null
    ensures forall k :: 0 <= k < |l.peers| && k != i ==> l.peers[k] != l.peers[i]
    ensures l.peers[i].first == null <==> l.ips[i] == []
    ensures l.ips[i] != [] ==> EndOf(l.ips[i]) in l.pool
  {
    assert Chain(l.peers[i].first, l.ips[i]) && InPool(l.ips[i], l.pool);
  }

  /** The next peer's allowed IPs are hung behind those of peer, and that peer is taken out; not possible when the end is lost. */
  method JoinNext(peer: PeerNode, ghost l: Lists, ghost i: nat) returns (ok: bool)
    requires Linked(l) && i + 1 < |l.peers| && peer == l.peers[i]
    requires peer.last == EndOf(l.ips[i]) || peer.last == null
    requires l.peers[i + 1].last == EndOf(l.ips[i + 1])
    modifies peer, l.pool
    ensures ok <==> l.ips[i] == [] || old(peer.last) != null
    ensures ok ==> Linked(Joined(l, i)) && peer.last == EndOf(l.ips[i + 1])
  {
    hide Linked, Joined;
    Neighbour(l, i);
    var next := peer.next;
    if peer.first == null {
      peer.first := next.first;
    } else if peer.last == null {
      return false;
    } else {
      peer.last.next := next.first;
    }
    peer.last := next.last;
    peer.next := next.next;
    ok := true;
    JoinedLinked((l, i));
  }

  lemma LinkedSizes(l: Lists)
    requires Linked(l)
    ensures |l.peers| == |l.ips|
  {
  }

  /** The walk stands at peer i of r: up to there the fragments are joined, the rest is as it came. */
  ghost predicate Trace(fs: seq<Frag>, r: seq<Frag>, i: nat, done: nat, tail: bool) {
    && i < |r| && 1 <= done <= |fs|
    && WalkOver(fs[..done]) == Walk(r[..i + 1], tail) && r[i + 1..] == fs[done..]
  }

  lemma TraceNext(fs: seq<Frag>, r: seq<Frag>, i: nat, done: nat, tail: bool)
    requires Trace(fs, r, i, done, tail) && i + 1 < |r|
    ensures done < |fs| && r[i + 2..] == fs[done + 1..]
    ensures WalkOver(fs[..done + 1]) == Meet(Walk(r[..i + 1], tail), r[i + 1])
  {
    assert r[i + 1..][0] == fs[done..][0] && r[i + 1..][1..] == fs[done..][1..];
    assert fs[..done + 1] == fs[..done] + [fs[done]];
    WalkMore(fs[..done], fs[done]);
  }

  lemma TracePast(fs: seq<Frag>, r: seq<Frag>, i: nat, done: nat, tail: bool)
    requires Trace(fs, r, i, done, tail) && i + 1 < |r| && r[i].key != r[i + 1].key
    ensures Trace(fs, r, i + 1, done + 1, r[i + 1].ips != [])
  {
    hide WalkOver;
    TraceNext(fs, r, i, done, tail);
    assert r[..i + 2] == r[..i + 1] + [r[i + 1]];
  }

  lemma TraceJoin(fs: seq<Frag>, r: seq<Frag>, i: nat, done: nat, tail: bool)
    requires Trace(fs, r, i, done, tail) && i + 1 < |r| && r[i].key == r[i + 1].key
    ensures done < |fs| && (WalkOver(fs[..done + 1]).Lost? <==> r[i].ips != [] && !tail)
    ensures WalkOver(fs[..done + 1]).Walk? ==>
              Trace(fs, r[..i] + [r[i].(ips := r[i].ips + r[i + 1].ips)] + r[i + 2..], i, done + 1, r[i + 1].ips != [])
  {
    hide WalkOver;
    TraceNext(fs, r, i, done, tail);
    var joined := r[i].(ips := r[i].ips + r[i + 1].ips);
    var r' := r[..i] + [joined] + r[i + 2..];
    assert r'[..i + 1] == r[..i + 1][i := joined] && r'[i + 1..] == r[i + 2..];
  }

  /** The walk stands at peer i of the list. */
  ghost predicate Standing(fs: seq<Frag>, l: Lists, i: nat, done: nat, tail: bool) {
    |l.peers| == |l.ips| && Trace(fs, Read(l), i, done, tail)
  }

  /** Every peer behind i knows where its allowed IPs end; peer i does if tail says so. */
  ghost predicate Tails(l: Lists, i: nat, tail: bool)
    reads l.peers
  {
    && |l.peers| == |l.ips| && i < |l.peers|
    && l.peers[i].last == (if tail then EndOf(l.ips[i]) else null)
    && (forall k {:trigger l.peers[k]} :: i < k < |l.peers| ==> l.peers[k].last == EndOf(l.ips[k]))
  }

  lemma StandingFirst(fs: seq<Frag>, l: Lists)
    requires |l.peers| == |l.ips| && fs == Read(l) && fs != []
    ensures Standing(fs, l, 0, 1, l.ips[0] != [])
  {
    assert fs[..1] == [fs[0]] && fs[..1][..0] == [];
    assert WalkOver(fs[..1][..0]) == Walk([], false);
  }

  lemma StandingPast(fs: seq<Frag>, l: Lists, i: nat, done: nat, tail: bool)
    requires Standing(fs, l, i, done, tail) && i + 1 < |l.peers| && l.peers[i].key != l.peers[i + 1].key
    ensures Standing(fs, l, i + 1, done + 1, l.ips[i + 1] != [])
  {
    hide Trace;
    TracePast(fs, Read(l), i, done, tail);
  }

  lemma StandingJoin(fs: seq<Frag>, l: Lists, i: nat, done: nat, tail: bool)
    requires Standing(fs, l, i, done, tail) && i + 1 < |l.peers| && l.peers[i].key == l.peers[i + 1].key
    ensures done < |fs|
    ensures WalkOver(fs[..done + 1]).Lost? <==> l.ips[i] != [] && !tail
    ensures WalkOver(fs[..done + 1]).Walk? ==> Standing(fs, Joined(l, i), i, done + 1, l.ips[i + 1] != [])
  {
    hide Trace;
    TraceJoin(fs, Read(l), i, done, tail);
    ReadJoined(l, i);
  }

  lemma StandingLast(fs: seq<Frag>, l: Lists, i: nat, done: nat, tail: bool)
    requires Standing(fs, l, i, done, tail) && i + 1 == |l.peers|
    ensures WalkOver(fs).Walk? && WalkOver(fs).peers == Read(l)
  {
    assert fs[..done] == fs && Read(l)[..i + 1] == Read(l);
  }

  lemma JoinedAt(l: Lists, i: nat)
    requires |l.peers| == |l.ips| && i + 1 < |l.peers|
    ensures var m := Joined(l, i);
            && |m.peers| == |m.ips| == |l.peers| - 1 && m.peers[i] == l.peers[i] && FirstOf(m.peers) == FirstOf(l.peers)
            && m.pool == l.pool && (forall p :: p in m.peers ==> p in l.peers)
            && EndOf(m.ips[i]) == (if l.ips[i + 1] != [] then EndOf(l.ips[i + 1]) else EndOf(l.ips[i]))
            && forall k {:trigger m.peers[k]} :: i < k < |m.peers| ==> m.peers[k] == l.peers[k + 1] && m.ips[k] == l.ips[k + 1]
  {
  }

  /**
   The list is walked once; a peer that repeats its neighbour's key gives it its allowed IPs and is dropped.
   Following a pointer that is null is the end of the walk.
   */
  method CoalescePeers(first: PeerNode?, ghost l0: Lists, ghost owners: set<PeerNode>) returns (ok: bool, ghost l: Lists)
    requires Linked(l0) && first == FirstOf(l0.peers)
    requires AllTails(l0) && AllIn(l0.peers, owners)
    modifies owners, l0.pool
    ensures ok <==> Smooth(Read(l0))
    ensures ok ==> Linked(l) && first == FirstOf(l.peers) && Read(l) == Coalesce(Read(l0))
  {
    hide Linked, Standing, Joined, Read, Smooth, Coalesce, WalkOver;
    LinkedSizes(l0);
    ghost var fs := Read(l0);
    l := l0;
    WalkExactly(fs);
    if first == null {
      WalkOverNothing();
      return true, l0;
    }
    var peer: PeerNode := first;
    ghost var i, done, tail := 0, 1, l.ips[0] != [];
    StandingFirst(fs, l);
    assert EndOf(l.ips[0]) == peer.last;
    while peer.next != null
      invariant Linked(l) && Standing(fs, l, i, done, tail) && Tails(l, i, tail)
      invariant i < |l.peers| && peer == l.peers[i] && first == FirstOf(l.peers) && AllIn(l.peers, owners) && l.pool == l0.pool
      decreases |l.peers| - i
    {
      Neighbour(l, i);
      assert l.peers[i] in l.peers;
      if peer.key != peer.next.key {
        StandingPast(fs, l, i, done, tail);
        peer := peer.next;
        i, tail := i + 1, l.ips[i + 1] != [];
      } else {
        StandingJoin(fs, l, i, done, tail);
        var joined := JoinNext(peer, l, i);
        if !joined {
          LostStays(fs, done + 1);
          return false, l;
        }
        JoinedAt(l, i);
        l, tail := Joined(l, i), l.ips[i + 1] != [];
      }
      done := done + 1;
    }
    ok := true;
    Neighbour(l, i);
    StandingLast(fs, l, i, done, tail);
  }
}
