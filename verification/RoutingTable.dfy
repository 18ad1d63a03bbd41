/**
 The public face of the allowed-IPs table: one trie per address family over shared peers, and
 the proof that any run of operations behaves like two plain maps from prefixes to peers.
 */
module RoutingTable {
  import opened AddressBits
  import opened AllowedIps

  /** An address with a prefix length; an address of another size than IPv4's or IPv6's is invalid. */
  datatype Prefix = Prefix(addr: Bytes, bits: nat) {
    ghost predicate Valid() { bits <= 8 * |addr| }

    ghost function Key(): BitString
      requires Valid()
    {
      Bits(addr)[..bits]
    }
  }

  // ---------------------------------------------------------------- the reference: two maps

  type Routes = map<BitString, Peer>

  datatype Table = Table(v4: Routes, v6: Routes)

  datatype Op = Insert(prefix: Prefix, peer: Peer) | Remove(prefix: Prefix, peer: Peer) | RemoveByPeer(peer: Peer)

  ghost predicate Known(addr: Bytes) { |addr| == IPV4_LEN || |addr| == IPV6_LEN }

  ghost function ForgetPeer(m: Routes, peer: Peer): Routes {
    map k | k in m && m[k] != peer :: m[k]
  }

  ghost function Family(t: Table, addr: Bytes): Routes {
    if |addr| == IPV6_LEN then t.v6 else t.v4
  }

  ghost function WithFamily(t: Table, addr: Bytes, m: Routes): Table {
    if |addr| == IPV6_LEN then t.(v6 := m) else t.(v4 := m)
  }

  /** Insert overwrites, Remove deletes only the given peer's prefix, RemoveByPeer all of the peer's. */
  ghost function Apply(t: Table, op: Op): Table
    requires op.RemoveByPeer? || op.prefix.Valid()
  {
    match op
    case Insert(prefix, peer) =>
      if !Known(prefix.addr) then t
      else WithFamily(t, prefix.addr, Family(t, prefix.addr)[prefix.Key() := peer])
    case Remove(prefix, peer) =>
      if !Known(prefix.addr) then t
      else
        var m := Family(t, prefix.addr);
        if prefix.Key() in m && m[prefix.Key()] == peer then WithFamily(t, prefix.addr, m - {prefix.Key()}) else t
    case RemoveByPeer(peer) => Table(ForgetPeer(t.v4, peer), ForgetPeer(t.v6, peer))
  }

  datatype LookupResult = Panic | Found(peer: Peer?)

  ghost function Match(t: Table, ip: Bytes): LookupResult {
    if Known(ip) then Found(LongestMatch(Family(t, ip), Bits(ip), 8 * |ip| + 1)) else Panic
  }

  // ---------------------------------------------------------------- the table

  class AllowedIPs {
    const v4: Trie
    const v6: Trie
    ghost var peers: set<Peer>

    ghost predicate Valid()
      reads this, v4, v6, v4.at.Values, v6.at.Values, peers
    {
      && v4 != v6 && v4.size == IPV4_LEN && v6.size == IPV6_LEN
      && v4.Tidy(peers, v6.at.Values) && v6.Tidy(peers, v4.at.Values)
    }

    ghost function Abs(): Table
      reads this, v4, v6, v4.at.Values, v6.at.Values
    {
      Table(v4.Contents(), v6.Contents())
    }

    constructor ()
      ensures Valid() && Abs() == Table(map[], map[]) && peers == {} && fresh(v4) && fresh(v6)
      ensures v4.at.Values == {} && v6.at.Values == {}
    {
      v4 := new Trie(IPV4_LEN);
      v6 := new Trie(IPV6_LEN);
      peers := {};
    }

    /** A peer comes to the table with an empty list and stays known from then on. */
    ghost method Know(peer: Peer)
      requires Valid() && (peer in peers || peer.trieEntries == [])
      modifies this`peers
      ensures Valid() && peers == old(peers) + {peer} && Abs() == old(Abs())
    {
      hide Trie.Shape, Trie.Compact;
      MorePeers(peers, v4.at.Values + v6.at.Values, peer);
      MorePeers(peers, v6.at.Values + v4.at.Values, peer);
      peers := peers + {peer};
    }

    method Insert(prefix: Prefix, peer: Peer) returns (panicked: bool)
      requires Valid() && prefix.Valid() && peer in peers
      modifies v4, v6, v4.at.Values, v6.at.Values, peers`trieEntries
      ensures Valid() && fresh(v4.at.Values - old(v4.at.Values)) && fresh(v6.at.Values - old(v6.at.Values))
      ensures panicked <==> !Known(prefix.addr)
      ensures Abs() == Apply(old(Abs()), Op.Insert(prefix, peer))
    {
      hide Trie.Shape, Trie.Compact, Lists;
      panicked := false;
      if |prefix.addr| == IPV6_LEN {
        v6.Insert(prefix.addr, prefix.bits, peer, peers, v4.at.Values);
        OtherFamily(v4);
      } else if |prefix.addr| == IPV4_LEN {
        v4.Insert(prefix.addr, prefix.bits, peer, peers, v6.at.Values);
        OtherFamily(v6);
      } else {
        panicked := true;
      }
    }

    method Remove(prefix: Prefix, peer: Peer) returns (panicked: bool)
      requires Valid() && prefix.Valid() && peer in peers
      modifies v4, v6, v4.at.Values, v6.at.Values, peer`trieEntries
      ensures Valid() && v4.at.Values <= old(v4.at.Values) && v6.at.Values <= old(v6.at.Values)
      ensures panicked <==> !Known(prefix.addr)
      ensures Abs() == Apply(old(Abs()), Op.Remove(prefix, peer))
    {
      hide Trie.Shape, Trie.Compact, Lists;
      panicked := false;
      if |prefix.addr| == IPV6_LEN {
        RemoveFrom(v6, prefix, peer, peers, v4.at.Values);
        OtherFamily(v4);
      } else if |prefix.addr| == IPV4_LEN {
        RemoveFrom(v4, prefix, peer, peers, v6.at.Values);
        OtherFamily(v6);
      } else {
        panicked := true;
      }
    }

    method RemoveByPeer(peer: Peer)
      requires Valid() && peer in peers
      modifies v4, v6, v4.at.Values, v6.at.Values, peer`trieEntries
      ensures Valid() && v4.at.Values <= old(v4.at.Values) && v6.at.Values <= old(v6.at.Values)
      ensures peer.trieEntries == []
      ensures Abs() == Apply(old(Abs()), Op.RemoveByPeer(peer))
    {
      hide Trie.Shape, Trie.Compact, Lists, ForgetPeer;
      var rest := peer.trieEntries;
      while rest != []
        invariant Valid() && v4.at.Values <= old(v4.at.Values) && v6.at.Values <= old(v6.at.Values)
        invariant rest == peer.trieEntries
        invariant ForgetPeer(v4.Contents(), peer) == old(ForgetPeer(v4.Contents(), peer))
        invariant ForgetPeer(v6.Contents(), peer) == old(ForgetPeer(v6.Contents(), peer))
        decreases |rest|
      {
        var node := rest[0];
        rest := rest[1..];
        RemoveEntry(peer, node);
      }
      NoneLeft(peer);
    }

    method RemoveEntry(peer: Peer, node: TrieEntry)
      requires Valid() && peer in peers && peer.trieEntries != [] && node == peer.trieEntries[0]
      modifies v4, v6, v4.at.Values, v6.at.Values, peer`trieEntries
      ensures Valid() && v4.at.Values <= old(v4.at.Values) && v6.at.Values <= old(v6.at.Values)
      ensures peer.trieEntries == old(peer.trieEntries)[1..]
      ensures ForgetPeer(v4.Contents(), peer) == old(ForgetPeer(v4.Contents(), peer))
      ensures ForgetPeer(v6.Contents(), peer) == old(ForgetPeer(v6.Contents(), peer))
    {
      hide Trie.Shape, Trie.Compact, Lists, ForgetPeer;
      Entry(peer, node);
      WithoutFirst(peer.trieEntries);
      if |node.bits| == IPV4_LEN {
        ForgetRemoved(v4.Contents(), node.prefix, peer);
        v4.RemoveNode(node, peers, v6.at.Values);
        OtherFamily(v6);
      } else {
        ForgetRemoved(v6.Contents(), node.prefix, peer);
        v6.RemoveNode(node, peers, v4.at.Values);
        OtherFamily(v4);
      }
    }

    method Lookup(ip: Bytes) returns (r: LookupResult)
      requires Valid()
      ensures r == Match(Abs(), ip)
    {
      if |ip| == IPV6_LEN {
        var found := v6.Lookup(ip);
        r := Found(found);
      } else if |ip| == IPV4_LEN {
        var found := v4.Lookup(ip);
        r := Found(found);
      } else {
        r := Panic;
      }
    }

    /** Visits the peer's prefixes in the order of its list until the callback says stop. */
    method EntriesForPeer(peer: Peer, cb: Prefix -> bool) returns (visited: seq<Prefix>)
      requires Valid() && peer in peers
      ensures |visited| <= |peer.trieEntries|
      ensures forall i :: 0 <= i < |visited| ==> visited[i] == Prefix(peer.trieEntries[i].bits, peer.trieEntries[i].cidr)
      ensures forall i :: 0 <= i < |visited| - 1 ==> cb(visited[i])
      ensures |visited| == |peer.trieEntries| || (visited != [] && !cb(visited[|visited| - 1]))
    {
      visited := [];
      for i := 0 to |peer.trieEntries|
        invariant |visited| == i
        invariant forall j :: 0 <= j < i ==> visited[j] == Prefix(peer.trieEntries[j].bits, peer.trieEntries[j].cidr) && cb(visited[j])
      {
        var node := peer.trieEntries[i];
        visited := visited + [Prefix(node.bits, node.cidr)];
        if !cb(Prefix(node.bits, node.cidr)) {
          return;
        }
      }
    }

    /** The list of a peer holds exactly the prefixes the table maps to it, each once. */
    lemma ListIsExact(peer: Peer)
      requires Valid() && peer in peers
      ensures NoDuplicates(peer.trieEntries)
      ensures forall n :: n in peer.trieEntries ==>
                var m := if |n.bits| == IPV4_LEN then v4.Contents() else v6.Contents();
                n.prefix in m && m[n.prefix] == peer && n.cidr <= 8 * |n.bits| && n.prefix == Bits(n.bits)[..n.cidr]
      ensures forall k :: k in v4.Contents() && v4.Contents()[k] == peer ==> k in v4.at && v4.at[k] in peer.trieEntries && |v4.at[k].bits| == IPV4_LEN
      ensures forall k :: k in v6.Contents() && v6.Contents()[k] == peer ==> k in v6.at && v6.at[k] in peer.trieEntries && |v6.at[k].bits| == IPV6_LEN
    {
      assert OwnList(peer, v4.at.Values + v6.at.Values);
      forall n | n in peer.trieEntries
        ensures var m := if |n.bits| == IPV4_LEN then v4.Contents() else v6.Contents();
                n.prefix in m && m[n.prefix] == peer && n.cidr <= 8 * |n.bits| && n.prefix == Bits(n.bits)[..n.cidr]
      {
        Entry(peer, n);
        var t := if |n.bits| == IPV4_LEN then v4 else v6;
        t.NodeOk(n.prefix);
      }
      forall k | k in v4.Contents() && v4.Contents()[k] == peer ensures v4.at[k] in peer.trieEntries && |v4.at[k].bits| == IPV4_LEN {
        assert NodeListed(peers, v4.at[k]);
        v4.NodeOk(k);
      }
      forall k | k in v6.Contents() && v6.Contents()[k] == peer ensures v6.at[k] in peer.trieEntries && |v6.at[k].bits| == IPV6_LEN {
        assert NodeListed(peers, v6.at[k]);
        v6.NodeOk(k);
      }
    }

    /** A listed node is stored, for this peer, in the trie of its own address size. */
    lemma Entry(peer: Peer, node: TrieEntry)
      requires Valid() && peer in peers && node in peer.trieEntries
      ensures node.peer == peer && NoDuplicates(peer.trieEntries)
      ensures if |node.bits| == IPV4_LEN then node.prefix in v4.at && v4.at[node.prefix] == node
              else |node.bits| == IPV6_LEN && node.prefix in v6.at && v6.at[node.prefix] == node
    {
      assert OwnList(peer, v4.at.Values + v6.at.Values);
      var t := if node in v4.at.Values then v4 else v6;
      var q :| q in t.at && t.at[q] == node;
      t.NodeOk(q);
    }

    lemma NoneLeft(peer: Peer)
      requires Valid() && peer in peers && peer.trieEntries == []
      ensures ForgetPeer(v4.Contents(), peer) == v4.Contents() && ForgetPeer(v6.Contents(), peer) == v6.Contents()
    {
      forall n | n in v4.at.Values + v6.at.Values ensures n.peer != peer { assert NodeListed(peers, n); }
    }

    /** A trie none of whose nodes were touched keeps its part of the invariant when the lists stay exact. */
    twostate lemma OtherFamily(t: Trie)
      requires t == v4 || t == v6
      requires old(Valid()) && Other(t).Tidy(peers, t.at.Values) && peers == old(peers)
      requires unchanged(t) && forall n :: n in t.at.Values ==> unchanged(n)
      ensures t.Tidy(peers, Other(t).at.Values)
    {
      var u := Other(t);
      assert t.at.Values + u.at.Values == u.at.Values + t.at.Values;
    }

    ghost function Other(t: Trie): Trie { if t == v4 then v6 else v4 }
  }

  lemma MorePeers(peers: set<Peer>, nodes: set<TrieEntry>, peer: Peer)
    requires Lists(peers, nodes) && (peer in peers || peer.trieEntries == [])
    ensures Lists(peers + {peer}, nodes)
  {
    forall n | n in nodes ensures NodeListed(peers + {peer}, n) { assert NodeListed(peers, n); }
    forall o | o in peers + {peer} ensures OwnList(o, nodes) { assert o in peers ==> OwnList(o, nodes); }
  }

  lemma ForgetRemoved(m: Routes, k: BitString, peer: Peer)
    requires k in m && m[k] == peer
    ensures ForgetPeer(m - {k}, peer) == ForgetPeer(m, peer)
  {
  }

  /** Remove on one trie: nothing happens unless the prefix is stored for exactly this peer. */
  method RemoveFrom(trie: Trie, prefix: Prefix, peer: Peer, ghost peers: set<Peer>, ghost others: set<TrieEntry>)
    requires trie.Tidy(peers, others) && |prefix.addr| == trie.size && prefix.Valid() && peer in peers
    modifies trie, trie.at.Values, peer`trieEntries
    ensures trie.Tidy(peers, others) && trie.at.Values <= old(trie.at.Values)
    ensures var m := old(trie.Contents());
            trie.Contents() == if prefix.Key() in m && m[prefix.Key()] == peer then m - {prefix.Key()} else m
  {
    hide Trie.Compact, Lists;
    var node, exact := trie.NodePlacement(prefix.addr, prefix.bits);
    if !exact || node == null || peer != node.peer {
      return;
    }
    trie.RemoveNode(node, peers, others);
  }

  // ---------------------------------------------------------------- whole runs

  ghost function ApplyAll(t: Table, ops: seq<Op>): Table
    requires forall i :: 0 <= i < |ops| ==> ops[i].RemoveByPeer? || ops[i].prefix.Valid()
  {
    if ops == [] then t else Apply(ApplyAll(t, ops[..|ops| - 1]), ops[|ops| - 1])
  }

  method Perform(table: AllowedIPs, op: Op)
    requires table.Valid() && (op.RemoveByPeer? || op.prefix.Valid())
    requires op.peer in table.peers || op.peer.trieEntries == []
    modifies table, table.v4, table.v6, table.v4.at.Values, table.v6.at.Values, table.peers`trieEntries, op.peer`trieEntries
    ensures table.Valid() && table.peers == old(table.peers) + {op.peer}
    ensures fresh(table.v4.at.Values - old(table.v4.at.Values)) && fresh(table.v6.at.Values - old(table.v6.at.Values))
    ensures table.Abs() == Apply(old(table.Abs()), op)
  {
    hide AllowedIPs.Valid;
    table.Know(op.peer);
    match op {
      case Insert(prefix, peer) => var _ := table.Insert(prefix, peer);
      case Remove(prefix, peer) => var _ := table.Remove(prefix, peer);
      case RemoveByPeer(peer) => table.RemoveByPeer(peer);
    }
  }

  /** After any run of operations on a fresh table, a lookup answers as the two plain maps would. */
  method Run(ops: seq<Op>, ip: Bytes) returns (r: LookupResult)
    requires forall i :: 0 <= i < |ops| ==> ops[i].RemoveByPeer? || ops[i].prefix.Valid()
    requires forall i :: 0 <= i < |ops| ==> ops[i].peer.trieEntries == []
    modifies set i | 0 <= i < |ops| :: ops[i].peer
    ensures r == Match(ApplyAll(Table(map[], map[]), ops), ip)
  {
    hide AllowedIPs.Valid;
    var table := new AllowedIPs();
    for i := 0 to |ops|
      invariant table.Valid() && fresh(table.v4.at.Values) && fresh(table.v6.at.Values)
      invariant table.peers <= set i | 0 <= i < |ops| :: ops[i].peer
      invariant forall j :: 0 <= j < |ops| ==> ops[j].peer in table.peers || ops[j].peer.trieEntries == []
      invariant table.Abs() == ApplyAll(Table(map[], map[]), ops[..i])
    {
      assert ops[..i + 1][..i] == ops[..i];
      Perform(table, ops[i]);
    }
    assert ops[..|ops|] == ops;
    r := table.Lookup(ip);
  }
}
