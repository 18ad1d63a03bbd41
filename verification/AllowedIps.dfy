/**
 The allowed-IPs routing table: a path-compressed binary trie per address family whose nodes
 hold back pointers to the slots they hang from, and a list of its own nodes per peer.
 */
module AllowedIps {
  import opened AddressBits
  import opened PrefixLinks
  import opened Wrappers

  class Peer {
    var trieEntries: seq<TrieEntry>

    constructor ()
      ensures trieEntries == []
    {
      trieEntries := [];
    }
  }

  /** The place a node hangs from: the root of a trie or one child slot of a node. */
  datatype Slot = Detached | RootOf(trie: Trie) | ChildOf(node: TrieEntry, bit: nat)

  /** The nodes a structural edit is about. */
  datatype Edit = Edit(parent: TrieEntry?, down: TrieEntry?, node: TrieEntry)

  function BitOf(b: bool): nat { if b then 1 else 0 }

  /** Longest-prefix match over a plain map, among the prefixes of addr shorter than n bits. */
  ghost function LongestMatch(m: map<BitString, Peer>, addr: BitString, n: nat): Peer?
    requires n <= |addr| + 1
  {
    if n == 0 then null
    else if addr[..n - 1] in m then m[addr[..n - 1]]
    else LongestMatch(m, addr, n - 1)
  }

  lemma {:induction false} LongestMatchSkip(m: map<BitString, Peer>, addr: BitString, lo: nat, hi: nat)
    requires lo <= hi <= |addr| + 1
    requires forall k :: lo <= k < hi ==> addr[..k] !in m
    ensures LongestMatch(m, addr, hi) == LongestMatch(m, addr, lo)
  {
    if lo < hi { LongestMatchSkip(m, addr, lo, hi - 1); }
  }

  /** LongestMatch is the peer of the longest covering prefix, and null exactly if none covers. */
  lemma {:induction false} LongestMatchIsLongest(m: map<BitString, Peer>, addr: BitString, n: nat)
    requires n <= |addr| + 1
    ensures LongestMatch(m, addr, n) == null <==> forall k :: 0 <= k < n ==> addr[..k] !in m
    ensures LongestMatch(m, addr, n) != null ==>
              exists k :: 0 <= k < n && addr[..k] in m && m[addr[..k]] == LongestMatch(m, addr, n)
                          && forall j :: k < j < n ==> addr[..j] !in m
  {
    if n > 0 && addr[..n - 1] !in m { LongestMatchIsLongest(m, addr, n - 1); }
  }

  class TrieEntry {
    const bits: Bytes
    const cidr: nat
    const bitAtByte: nat
    const bitAtShift: nat
    ghost const prefix: BitString
    var peer: Peer?
    var child: seq<TrieEntry?>
    var parent: Slot
    var perPeerElem: bool

    /** What never changes about a node: its bits are masked and its branch bit is bit number cidr. */
    ghost predicate Formed(size: nat) {
      && |bits| == size
      && cidr <= 8 * size
      && prefix == Bits(bits)[..cidr]
      && (forall i :: cidr <= i < 8 * size ==> !Bits(bits)[i])
      && bitAtByte == cidr / 8
      && bitAtShift == 7 - cidr % 8
    }

    constructor (ip: Bytes, cidr: nat, peer: Peer?)
      requires cidr <= 8 * |ip|
      ensures Formed(|ip|) && prefix == Bits(ip)[..cidr]
      ensures this.cidr == cidr && this.peer == peer
      ensures child == [null, null] && parent == Detached && !perPeerElem
    {
      this.bits := Masked(ip, cidr);
      this.cidr := cidr;
      this.bitAtByte := cidr / 8;
      this.bitAtShift := 7 - cidr % 8;
      this.prefix := Bits(ip)[..cidr];
      this.peer := peer;
      this.child := [null, null];
      this.parent := Detached;
      this.perPeerElem := false;
    }

    method AddToPeerEntries()
      requires peer != null
      modifies this`perPeerElem, peer`trieEntries
      ensures perPeerElem && peer.trieEntries == old(peer.trieEntries) + [this]
    {
      peer.trieEntries := peer.trieEntries + [this];
      perPeerElem := true;
    }

    method RemoveFromPeerEntries()
      requires perPeerElem ==> peer != null
      modifies this`perPeerElem, (if peer == null then {} else {peer})`trieEntries
      ensures !perPeerElem
      ensures peer != null ==> peer.trieEntries == if old(perPeerElem) then Without(old(peer.trieEntries), this) else old(peer.trieEntries)
    {
      if perPeerElem {
        peer.trieEntries := Without(peer.trieEntries, this);
        perPeerElem := false;
      }
    }

    method Zeroize()
      modifies this`peer, this`child, this`parent
      ensures peer == null && child == [null, null] && parent == Detached
    {
      peer := null;
      child := [null, null];
      parent := Detached;
    }

    function ChooseBit(ip: Bytes): (bit: nat)
      requires Formed(|ip|) && cidr < 8 * |ip|
      ensures bit == BitOf(Bits(ip)[cidr])
    {
      Choose(ip, bitAtByte, bitAtShift)
    }
  }

  // ---------------------------------------------------------------- the lists of the peers

  predicate NoDuplicates<T(==)>(s: seq<T>) {
    forall i, j :: 0 <= i < j < |s| ==> s[i] != s[j]
  }

  /** A list with an element taken out. */
  function Without<T(==)>(s: seq<T>, x: T): (r: seq<T>)
    ensures x !in r
    ensures forall i :: 0 <= i < |r| ==> r[i] in s
    ensures forall i :: 0 <= i < |s| && s[i] != x ==> s[i] in r
    ensures NoDuplicates(s) ==> NoDuplicates(r)
  {
    if s == [] then [] else if s[0] == x then Without(s[1..], x) else [s[0]] + Without(s[1..], x)
  }

  lemma {:induction false} WithoutAbsent<T>(s: seq<T>, x: T)
    requires x !in s
    ensures Without(s, x) == s
  {
    if s != [] { WithoutAbsent(s[1..], x); }
  }

  lemma WithoutFirst<T>(s: seq<T>)
    requires s != [] && NoDuplicates(s)
    ensures Without(s, s[0]) == s[1..]
  {
    WithoutAbsent(s[1..], s[0]);
  }

  /** Each peer lists exactly its own nodes, each once, and a node without a peer is in no list. */
  ghost predicate Lists(peers: set<Peer>, nodes: set<TrieEntry>)
    reads peers, nodes
  {
    && (forall n :: n in nodes ==> NodeListed(peers, n))
    && (forall o :: o in peers ==> OwnList(o, nodes))
  }

  ghost predicate NodeListed(peers: set<Peer>, n: TrieEntry)
    reads n, peers
  {
    && (n.perPeerElem <==> n.peer != null)
    && (n.peer != null ==> n.peer in peers && n in n.peer.trieEntries)
  }

  ghost predicate OwnList(o: Peer, nodes: set<TrieEntry>)
    reads o, nodes
  {
    && NoDuplicates(o.trieEntries)
    && (forall n :: n in o.trieEntries ==> n in nodes && n.peer == o)
  }

  /** Puts a new node on the list of the peer it was made for. */
  method Enlist(n: TrieEntry, ghost peers: set<Peer>, ghost nodes: set<TrieEntry>)
    requires Lists(peers, nodes) && n !in nodes && n.peer != null && n.peer in peers
    modifies n`perPeerElem, n.peer`trieEntries
    ensures Lists(peers, nodes + {n})
  {
    n.AddToPeerEntries();
    forall m | m in nodes + {n} ensures NodeListed(peers, m) {
      assert m in nodes ==> old(NodeListed(peers, m));
    }
    forall o | o in peers ensures OwnList(o, nodes + {n}) {
      assert old(OwnList(o, nodes));
    }
  }

  /** Moves a stored node to another peer: off the list of its old peer, if any, and onto the new one's. */
  method Relist(n: TrieEntry, peer: Peer, ghost peers: set<Peer>, ghost nodes: set<TrieEntry>)
    requires Lists(peers, nodes) && n in nodes && peer in peers
    modifies n`peer, n`perPeerElem, (if n.peer == null then {} else {n.peer})`trieEntries, peer`trieEntries
    ensures Lists(peers, nodes) && n.peer == peer
  {
    assert NodeListed(peers, n);
    n.RemoveFromPeerEntries();
    n.peer := peer;
    n.AddToPeerEntries();
    forall m | m in nodes ensures NodeListed(peers, m) {
      assert old(NodeListed(peers, m));
    }
    forall o | o in peers ensures OwnList(o, nodes) {
      assert old(OwnList(o, nodes));
    }
  }

  /** Takes a node off the list of its peer and leaves it without one. */
  method Delist(n: TrieEntry, ghost peers: set<Peer>, ghost nodes: set<TrieEntry>)
    requires Lists(peers, nodes) && n in nodes
    modifies n`peer, n`perPeerElem, (if n.peer == null then {} else {n.peer})`trieEntries
    ensures Lists(peers, nodes) && n.peer == null
    ensures old(n.peer) != null ==> old(n.peer).trieEntries == Without(old(n.peer.trieEntries), n)
  {
    assert NodeListed(peers, n);
    n.RemoveFromPeerEntries();
    n.peer := null;
    forall m | m in nodes ensures NodeListed(peers, m) {
      assert old(NodeListed(peers, m));
    }
    forall o | o in peers ensures OwnList(o, nodes) {
      assert old(OwnList(o, nodes));
    }
  }

  class Trie {
    const size: nat
    var root: TrieEntry?
    ghost var at: map<BitString, TrieEntry>
    ghost var links: Links

    /** The heap realises the links: children, back pointers and prefixes are those of the nodes. */
    ghost predicate Shape()
      reads this, at.Values
    {
      && size in {IPV4_LEN, IPV6_LEN}
      && Linked(links)
      && links.kids.Keys == at.Keys
      && (forall p :: p in at ==> at[p].prefix == p)
      && (forall p {:trigger at[p].Formed(size)} :: p in at ==> at[p].Formed(size))
      && root == Deref(links.root)
      && (forall p {:trigger KidsShape(p)} :: p in at ==> KidsShape(p))
      && (forall p {:trigger UpShape(p)} :: p in at ==> UpShape(p))
    }

    ghost predicate KidsShape(p: BitString)
      reads this, at.Values
    {
      p in at && p in links.kids && at[p].child == [Deref(links.kids[p].Get(false)), Deref(links.kids[p].Get(true))]
    }

    ghost predicate UpShape(p: BitString)
      reads this, at.Values
    {
      p in at && p in links.up && at[p].parent == SlotOf(links.up[p])
    }

    ghost predicate NodeShape(p: BitString)
      reads this, at.Values
    {
      p in at && at[p].Formed(size) && KidsShape(p) && UpShape(p)
    }

    /** No node exists without need: one that carries no peer has two children. */
    ghost predicate Compact()
      reads this, at.Values
    {
      forall p :: p in at && at[p].peer == null ==> Full(links, p)
    }

    ghost function Deref(k: Option<BitString>): TrieEntry?
      reads this
    {
      if k.Some? && k.value in at then at[k.value] else null
    }

    ghost function SlotOf(place: Place): Slot
      reads this
    {
      match place
      case AtRoot => RootOf(this)
      case Under(p, b) => if p in at then ChildOf(at[p], BitOf(b)) else Detached
    }

    ghost function Contents(): map<BitString, Peer>
      reads this, at.Values
    {
      map p | p in at && at[p].peer != null :: at[p].peer
    }

    constructor (size: nat)
      requires size in {IPV4_LEN, IPV6_LEN}
      ensures Shape() && Compact() && this.size == size && at == map[]
      ensures Contents() == map[]
    {
      this.size := size;
      root := null;
      at := map[];
      links := Links(None, map[], map[]);
    }

    // ------------------------------------------------------------ walking down

    /** The slot below parent (the root slot if null) on the way to p. */
    ghost function PlaceBelow(parent: TrieEntry?, p: BitString): Place {
      if parent == null || |p| <= |parent.prefix| then AtRoot else Under(parent.prefix, p[|parent.prefix|])
    }

    /** A walk towards p has passed parent and stands at node. */
    ghost predicate Walking(parent: TrieEntry?, node: TrieEntry?, p: BitString)
      reads this
    {
      && (parent != null ==> parent.prefix in at && at[parent.prefix] == parent && parent.prefix < p)
      && links.HasPlace(PlaceBelow(parent, p))
      && node == Deref(links.Get(PlaceBelow(parent, p)))
    }

    /** The test of the walks: the node's prefix covers the first bits of the address. */
    lemma Covering(n: TrieEntry, ip: Bytes, cidr: nat)
      requires n.Formed(size) && size in {IPV4_LEN, IPV6_LEN} && |ip| == size && n.cidr <= cidr <= 8 * size
      ensures |n.prefix| == n.cidr
      ensures CommonBits(n.bits, ip) >= n.cidr <==> n.prefix <= Bits(ip)[..cidr]
      ensures n.prefix <= Bits(ip)[..cidr] && n.cidr == cidr ==> n.prefix == Bits(ip)[..cidr]
    {
      CommonPrefixIsLongest(Bits(n.bits), Bits(ip), n.cidr);
      assert Bits(ip)[..cidr][..n.cidr] == Bits(ip)[..n.cidr];
    }

    /** What a walk knows about the node it stands at. */
    lemma Standing(parent: TrieEntry?, node: TrieEntry?, p: BitString)
      requires Shape() && Walking(parent, node, p)
      ensures node == null ==> links.Get(PlaceBelow(parent, p)) == None
      ensures node != null ==>
                && node.prefix in at && at[node.prefix] == node && NodeShape(node.prefix)
                && links.Get(PlaceBelow(parent, p)) == Some(node.prefix)
                && Fits(PlaceBelow(parent, p), node.prefix)
                && (parent != null ==> |parent.prefix| < |node.prefix|)
    {
      assert SlotOk(links, PlaceBelow(parent, p));
      if node != null { NodeOk(links.Get(PlaceBelow(parent, p)).value); }
    }

    lemma StepDown(node: TrieEntry, ip: Bytes, p: BitString)
      requires Shape() && node.prefix in at && at[node.prefix] == node
      requires |ip| == size && p <= Bits(ip) && node.prefix < p
      ensures node.Formed(size) && node.cidr < 8 * size && |node.child| == 2
      ensures Walking(node, node.child[node.ChooseBit(ip)], p)
    {
      NodeOk(node.prefix);
    }

    lemma SizeOk()
      requires Shape()
      ensures size in {IPV4_LEN, IPV6_LEN} && links.kids.Keys == at.Keys
    {
    }

    lemma NodeOk(p: BitString)
      requires Shape() && p in at
      ensures NodeShape(p)
    {
      assert KidsShape(p) && UpShape(p) && at[p].Formed(size);
    }

    method NodePlacement(ip: Bytes, cidr: nat) returns (parent: TrieEntry?, exact: bool)
      requires Shape() && |ip| == size && cidr <= 8 * size
      ensures exact ==> Bits(ip)[..cidr] in at && parent == at[Bits(ip)[..cidr]]
      ensures !exact ==> Placed(parent, Bits(ip)[..cidr])
    {
      ghost var p := Bits(ip)[..cidr];
      parent, exact := null, false;
      var node := root;
      Standing(parent, node, p);
      while node != null && node.cidr <= cidr && CommonBits(node.bits, ip) >= node.cidr
        invariant Walking(parent, node, p)
        invariant node != null ==> node.prefix in at && at[node.prefix] == node && NodeShape(node.prefix)
        decreases if node == null then 0 else 8 * size + 1 - node.cidr
      {
        Covering(node, ip, cidr);
        parent := node;
        if parent.cidr == cidr {
          exact := true;
          return;
        }
        StepDown(node, ip, p);
        var bit := node.ChooseBit(ip);
        node := node.child[bit];
        Standing(parent, node, p);
      }
      if node != null && node.cidr <= cidr { Covering(node, ip, cidr); }
      NotStored(parent, node, p);
    }

    /** p is not stored and belongs in the slot below parent. */
    ghost predicate Placed(parent: TrieEntry?, p: BitString)
      reads this
    {
      && p !in at
      && var place := PlaceBelow(parent, p);
      && Walking(parent, if links.HasPlace(place) then Deref(links.Get(place)) else null, p)
      && (links.Get(place) == None || !(links.Get(place).value <= p))
    }

    lemma NotStored(parent: TrieEntry?, node: TrieEntry?, p: BitString)
      requires Shape() && Walking(parent, node, p)
      requires node == null || !(node.prefix <= p)
      ensures Placed(parent, p)
    {
      Standing(parent, node, p);
      assert p in at ==> Reached(links, PlaceBelow(parent, p), p);
    }

    method Lookup(ip: Bytes) returns (found: Peer?)
      requires Shape() && |ip| == size
      ensures found == LongestMatch(Contents(), Bits(ip), 8 * size + 1)
    {
      hide Shape, Linked, KidsShape, UpShape, Contents, LongestMatch;
      found := null;
      ghost var addr, d := Bits(ip), 0;
      ghost var parent: TrieEntry? := null;
      assert addr == addr[..8 * size];
      var node := root;
      SizeOk();
      AtStart(addr);
      Standing(parent, node, addr);
      while node != null && CommonBits(node.bits, ip) >= node.cidr
        invariant d <= 8 * size && d == if parent == null then 0 else |parent.prefix| + 1
        invariant Walking(parent, node, addr)
        invariant node != null ==> node.prefix in at && at[node.prefix] == node && NodeShape(node.prefix)
        invariant found == LongestMatch(Contents(), addr, d)
        decreases if node == null then 0 else 8 * size + 1 - node.cidr
      {
        Covering(node, ip, 8 * size);
        Visit(parent, node, addr);
        if node.peer != null {
          found := node.peer;
        }
        if node.bitAtByte == size {
          return;
        }
        StepDown(node, ip, addr);
        var bit := node.ChooseBit(ip);
        parent, d := node, node.cidr + 1;
        node := node.child[bit];
        Standing(parent, node, addr);
      }
      if node != null { Covering(node, ip, 8 * size); }
      NoneBetween(parent, node, addr, 8 * size + 1);
    }

    lemma AtStart(addr: BitString)
      requires Shape()
      ensures Walking(null, root, addr) && LongestMatch(Contents(), addr, 0) == null
    {
    }

    /** What passing a covering node does to the best match so far. */
    lemma Visit(parent: TrieEntry?, node: TrieEntry, addr: BitString)
      requires Shape() && Walking(parent, node, addr) && node.prefix <= addr
      ensures LongestMatch(Contents(), addr, |node.prefix| + 1)
           == if node.peer != null then node.peer
              else LongestMatch(Contents(), addr, if parent == null then 0 else |parent.prefix| + 1)
    {
      Standing(parent, node, addr);
      NoneBetween(parent, node, addr, |node.prefix|);
      assert addr[..|node.prefix|] == node.prefix;
    }

    /** No stored prefix of addr lies between the last node passed and the next candidate. */
    lemma NoneBetween(parent: TrieEntry?, node: TrieEntry?, addr: BitString, hi: nat)
      requires Shape() && Walking(parent, node, addr) && hi <= |addr| + 1
      requires node == null || !(node.prefix <= addr) || hi <= |node.prefix|
      ensures var lo := if parent == null then 0 else |parent.prefix| + 1;
              lo <= hi ==> LongestMatch(Contents(), addr, hi) == LongestMatch(Contents(), addr, lo)
    {
      var lo := if parent == null then 0 else |parent.prefix| + 1;
      Standing(parent, node, addr);
      forall k | lo <= k < hi ensures addr[..k] !in at {
        assert addr[..k] in at ==> Reached(links, PlaceBelow(parent, addr), addr[..k]);
      }
      if lo <= hi { LongestMatchSkip(Contents(), addr, lo, hi); }
    }

    // ------------------------------------------------------------ linking nodes in and out

    /** Stores a node in a slot of this trie. */
    method Write(slot: Slot, n: TrieEntry?)
      requires slot == RootOf(this) || (slot.ChildOf? && slot.bit < |slot.node.child|)
      modifies this`root, (if slot.ChildOf? then {slot.node} else {})`child
      ensures slot.RootOf? ==> root == n
      ensures slot.ChildOf? ==> root == old(root) && slot.node.child == old(slot.node.child)[slot.bit := n]
    {
      match slot {
        case RootOf(_) => root := n;
        case ChildOf(parent, bit) => parent.child := parent.child[bit := n];
      }
    }

    /** The node a link leads to stays the same when that prefix stays stored. */
    twostate lemma SameKids(q: BitString)
      requires old(Shape()) && Linked(links) && links.kids.Keys == at.Keys
      requires q in old(at) && q in at && at[q].child == old(at[q].child) && links.kids[q] == old(links.kids[q])
      requires forall k :: k in at && k in old(at) ==> at[k] == old(at[k])
      ensures KidsShape(q)
    {
      assert old(KidsShape(q));
      Neighbours(old(links), q);
      Neighbours(links, q);
    }

    twostate lemma SameUp(q: BitString)
      requires old(Shape()) && Linked(links) && links.kids.Keys == at.Keys
      requires q in old(at) && q in at && at[q].parent == old(at[q].parent) && links.up[q] == old(links.up[q])
      requires forall k :: k in at && k in old(at) ==> at[k] == old(at[k])
      ensures UpShape(q)
    {
      assert old(UpShape(q));
      Neighbours(old(links), q);
      Neighbours(links, q);
    }

    /** Rewriting one child slot of a node together with its link keeps the node's children in shape. */
    twostate lemma OneKid(slot: Place)
      requires old(Shape()) && Linked(links) && links.kids.Keys == at.Keys && slot.Under?
      requires slot.prefix in old(at) && slot.prefix in at && |at[slot.prefix].child| == 2 && |old(at[slot.prefix].child)| == 2
      requires links.kids[slot.prefix] == old(links.kids[slot.prefix]).Set(slot.bit, links.Get(slot))
      requires at[slot.prefix].child[BitOf(slot.bit)] == Deref(links.Get(slot))
      requires at[slot.prefix].child[1 - BitOf(slot.bit)] == old(at[slot.prefix].child)[1 - BitOf(slot.bit)]
      requires forall k :: k in at && k in old(at) ==> at[k] == old(at[k])
      ensures KidsShape(slot.prefix)
    {
      var q, b := slot.prefix, slot.bit;
      assert old(KidsShape(q));
      Neighbours(old(links), q);
      Neighbours(links, q);
      assert links.kids[q].Get(!b) == old(links.kids[q]).Get(!b);
    }

    /** An edit keeps the shape if the nodes whose children or back pointer it rewrote have theirs. */
    twostate lemma Rewired(touched: (set<BitString>, set<BitString>))
      requires old(Shape()) && Linked(links) && links.kids.Keys == at.Keys && root == Deref(links.root)
      requires forall k :: k in at ==> at[k].prefix == k
      requires forall k {:trigger at[k].Formed(size)} :: k in at ==> at[k].Formed(size)
      requires forall k :: k in at && k in old(at) ==> at[k] == old(at[k])
      requires forall q :: q in touched.0 ==> KidsShape(q)
      requires forall q :: q in touched.1 ==> UpShape(q)
      requires forall q :: q in at && q !in touched.0 ==>
                 q in old(at) && at[q].child == old(at[q].child) && links.kids[q] == old(links.kids[q])
      requires forall q :: q in at && q !in touched.1 ==>
                 q in old(at) && at[q].parent == old(at[q].parent) && links.up[q] == old(links.up[q])
      ensures Shape()
    {
      forall q | q in at ensures KidsShape(q) { if q !in touched.0 { SameKids(q); } }
      forall q | q in at ensures UpShape(q) { if q !in touched.1 { SameUp(q); } }
    }

    ghost predicate CanHang(parent: TrieEntry, bit: nat, newNode: TrieEntry)
      reads this, at.Values, newNode
    {
      && Shape() && newNode.Formed(size) && newNode.child == [null, null] && newNode !in at.Values
      && Placed(parent, newNode.prefix) && bit == BitOf(newNode.prefix[|parent.prefix|]) && |parent.child| == 2
      && links.Get(PlaceBelow(parent, newNode.prefix)) == None
    }

    method HangLeaf(parent: TrieEntry, bit: nat, newNode: TrieEntry)
      requires CanHang(parent, bit, newNode)
      modifies this`at, this`links, parent`child, newNode`parent
      ensures Shape() && at == old(at)[newNode.prefix := newNode]
      ensures links == PrefixLinks.HangLeaf(old(links), PlaceBelow(parent, newNode.prefix), newNode.prefix)
    {
      newNode.parent := ChildOf(parent, bit);
      parent.child := parent.child[bit := newNode];
      at := at[newNode.prefix := newNode];
      links := PrefixLinks.HangLeaf(links, PlaceBelow(parent, newNode.prefix), newNode.prefix);
      HangLeafShape(Edit(parent, null, newNode));
    }

    twostate lemma HangLeafShape(e: Edit)
      requires e.parent != null && |e.parent.prefix| < |e.node.prefix|
      requires old(CanHang(e.parent, BitOf(e.node.prefix[|e.parent.prefix|]), e.node)) && root == old(root)
      requires at == old(at)[e.node.prefix := e.node]
      requires links == PrefixLinks.HangLeaf(old(links), PlaceBelow(e.parent, e.node.prefix), e.node.prefix)
      requires e.node.child == [null, null] && e.node.parent == ChildOf(e.parent, BitOf(e.node.prefix[|e.parent.prefix|]))
      requires e.parent.child == old(e.parent.child)[BitOf(e.node.prefix[|e.parent.prefix|]) := e.node] && e.parent.parent == old(e.parent.parent)
      requires forall q :: q in old(at) && q != e.parent.prefix ==> at[q].child == old(at[q].child) && at[q].parent == old(at[q].parent)
      ensures Shape()
    {
      hide Linked;
      var parent, p, l := e.parent, e.node.prefix, old(links);
      HangLeafKeepsLinked(l, PlaceBelow(parent, p), p);
      RootStored(l);
      assert old(KidsShape(parent.prefix));
      OneKid(Under(parent.prefix, p[|parent.prefix|]));
      assert KidsShape(p) && UpShape(p);
      Rewired(({p, parent.prefix}, {p}));
    }

    lemma BranchOf(n: TrieEntry, m: TrieEntry)
      requires n.Formed(size) && m.Formed(size) && n.prefix < m.prefix
      ensures n.cidr < 8 * size == 8 * |m.bits| && n.ChooseBit(m.bits) == BitOf(m.prefix[|n.prefix|])
    {
      assert m.prefix[|n.prefix|] == Bits(m.bits)[|n.prefix|];
    }

    ghost predicate CanSplice(parent: TrieEntry?, down: TrieEntry, newNode: TrieEntry)
      reads this, at.Values, newNode
    {
      && Shape() && newNode.Formed(size) && newNode.child == [null, null] && newNode !in at.Values
      && Placed(parent, newNode.prefix) && newNode.prefix < down.prefix
      && links.Get(PlaceBelow(parent, newNode.prefix)) == Some(down.prefix)
      && down.prefix in at && at[down.prefix] == down && down.Formed(size)
      && (parent != null ==> |parent.child| == 2 && parent.Formed(size))
    }

    /** The writes of a splice: down hangs from the new node, and the new node in the slot that held down. */
    method WriteSplice(parent: TrieEntry?, down: TrieEntry, newNode: TrieEntry)
      requires CanSplice(parent, down, newNode)
      modifies this`root, (if parent == null then {} else {parent})`child, down`parent, newNode`child, newNode`parent
      ensures Spliced(Edit(parent, down, newNode)) && newNode.parent == SlotOf(PlaceBelow(parent, newNode.prefix))
    {
      hide Linked, Shape, KidsShape, UpShape, TrieEntry.Formed;
      SizeOk();
      BranchOf(newNode, down);
      var bit := newNode.ChooseBit(down.bits);
      down.parent := ChildOf(newNode, bit);
      newNode.child := newNode.child[bit := down];
      var slot := RootOf(this);
      if parent != null {
        BranchOf(parent, newNode);
        slot := ChildOf(parent, parent.ChooseBit(newNode.bits));
      }
      newNode.parent := slot;
      Write(slot, newNode);
    }

    method SpliceAbove(parent: TrieEntry?, down: TrieEntry, newNode: TrieEntry)
      requires CanSplice(parent, down, newNode)
      modifies this`root, this`at, this`links, (if parent == null then {} else {parent})`child, down`parent, newNode`child, newNode`parent
      ensures Shape() && at == old(at)[newNode.prefix := newNode]
      ensures links == PrefixLinks.SpliceAbove(old(links), PlaceBelow(parent, newNode.prefix), newNode.prefix, down.prefix)
    {
      hide Linked, KidsShape, UpShape, PrefixLinks.SpliceAbove, TrieEntry.Formed, Spliced;
      WriteSplice(parent, down, newNode);
      at := at[newNode.prefix := newNode];
      links := PrefixLinks.SpliceAbove(links, PlaceBelow(parent, newNode.prefix), newNode.prefix, down.prefix);
      SpliceAboveShape(Edit(parent, down, newNode));
    }

    /** The fields that putting a node above down writes. */
    twostate predicate Spliced(e: Edit)
      requires e.down != null && old(CanSplice(e.parent, e.down, e.node))
      reads this`root, e.node, e.down, if e.parent == null then {} else {e.parent}
    {
      && (var b := BitOf(e.down.prefix[|e.node.prefix|]);
          e.down.parent == ChildOf(e.node, b) && e.down.child == old(e.down.child) && e.node.child == [null, null][b := e.down])
      && (e.parent == null ==> root == e.node)
      && (e.parent != null ==> root == old(root) && e.parent.parent == old(e.parent.parent))
      && (e.parent != null ==> e.parent.child == old(e.parent.child)[BitOf(e.node.prefix[|e.parent.prefix|]) := e.node])
    }

    /** The nodes at the splice have the children and back pointers that the links give them. */
    twostate lemma SplicedHere(e: Edit)
      requires e.down != null && old(CanSplice(e.parent, e.down, e.node)) && Spliced(e)
      requires at == old(at)[e.node.prefix := e.node] && e.node.parent == SlotOf(PlaceBelow(e.parent, e.node.prefix))
      requires links == PrefixLinks.SpliceAbove(old(links), PlaceBelow(e.parent, e.node.prefix), e.node.prefix, e.down.prefix)
      ensures Linked(links) && KidsShape(e.node.prefix) && UpShape(e.node.prefix) && UpShape(e.down.prefix)
      ensures e.parent != null ==> KidsShape(e.parent.prefix)
    {
      hide Linked, PrefixLinks.SpliceAbove, TrieEntry.Formed;
      var parent, p, d, l := e.parent, e.node.prefix, e.down.prefix, old(links);
      SpliceAboveKeepsLinked(l, PlaceBelow(parent, p), p, d);
      SpliceAboveEffect(l, PlaceBelow(parent, p), p, d);
      if parent != null { OneKid(Under(parent.prefix, p[|parent.prefix|])); }
    }

    twostate lemma SpliceAboveShape(e: Edit)
      requires e.down != null && old(CanSplice(e.parent, e.down, e.node)) && Spliced(e)
      requires at == old(at)[e.node.prefix := e.node] && e.node.parent == SlotOf(PlaceBelow(e.parent, e.node.prefix))
      requires links == PrefixLinks.SpliceAbove(old(links), PlaceBelow(e.parent, e.node.prefix), e.node.prefix, e.down.prefix)
      requires forall q :: q in old(at) && q != e.down.prefix && (e.parent == null || q != e.parent.prefix) ==>
                 at[q].child == old(at[q].child) && at[q].parent == old(at[q].parent)
      ensures Shape()
    {
      hide Linked, PrefixLinks.SpliceAbove, TrieEntry.Formed, KidsShape, UpShape;
      var parent, p, d, l := e.parent, e.node.prefix, e.down.prefix, old(links);
      SplicedHere(e);
      SpliceAboveEffect(l, PlaceBelow(parent, p), p, d);
      RootStored(l);
      Rewired((if parent == null then {p} else {p, parent.prefix}, {p, d}));
    }

    /** A node that may be cut out: it hangs in this trie and has at most one child. */
    ghost predicate CanUnlink(node: TrieEntry)
      reads this, at.Values
    {
      && Shape() && node.prefix in at && at[node.prefix] == node
      && Unlinkable(links, node.prefix)
    }

    method Unlink(node: TrieEntry, child: TrieEntry?)
      requires CanUnlink(node) && child == Deref(OnlyKid(links.kids[node.prefix]))
      modifies this`root, this`at, this`links
      modifies (if child == null then {} else {child})`parent
      modifies (if node.parent.ChildOf? then {node.parent.node} else {})`child
      ensures node.prefix in old(links.up) && old(links).HasPlace(old(links).up[node.prefix]) && Fits(old(links).up[node.prefix], node.prefix)
      ensures Shape() && at == old(at) - {node.prefix} && links == PrefixLinks.Unlink(old(links), node.prefix)
      ensures node.child == old(node.child) && node.parent == old(node.parent)
    {
      hide Linked, PrefixLinks.Unlink, TrieEntry.Formed;
      UnlinkKeepsLinked(links, node.prefix);
      Neighbours(links, node.prefix);
      AboveNode(node);
      if child != null {
        child.parent := node.parent;
      }
      Write(node.parent, child);
      at := at - {node.prefix};
      links := PrefixLinks.Unlink(links, node.prefix);
      UnlinkShape(Edit(null, child, node));
    }

    /** The slot a node hangs in is the root's or belongs to another node of the trie. */
    lemma AboveNode(node: TrieEntry)
      requires Shape() && node.prefix in at && at[node.prefix] == node
      ensures node.prefix in links.up && node.parent == SlotOf(links.up[node.prefix])
      ensures node.parent == RootOf(this) || (node.parent.ChildOf? && node.parent.node in at.Values && node.parent.node != node)
      ensures links.up[node.prefix].Under? ==>
                var q := links.up[node.prefix].prefix; q in at && at[q].prefix == q && |at[q].child| == 2 && node.parent == ChildOf(at[q], BitOf(links.up[node.prefix].bit))
    {
      hide TrieEntry.Formed;
      Neighbours(links, node.prefix);
      assert UpShape(node.prefix) && (links.up[node.prefix].Under? ==> KidsShape(links.up[node.prefix].prefix));
    }

    twostate lemma UnlinkShape(e: Edit)
      requires old(CanUnlink(e.node) && e.down == Deref(OnlyKid(links.kids[e.node.prefix])))
      requires e.node.prefix in old(links.up) && old(links).HasPlace(old(links).up[e.node.prefix]) && Fits(old(links).up[e.node.prefix], e.node.prefix)
      requires at == old(at) - {e.node.prefix} && links == PrefixLinks.Unlink(old(links), e.node.prefix)
      requires e.down != null ==> e.down.parent == old(e.node.parent) && e.down.child == old(e.down.child)
      requires old(links).up[e.node.prefix] == AtRoot ==> root == e.down
      requires old(links).up[e.node.prefix].Under? ==>
                 var up := old(links).up[e.node.prefix];
                 root == old(root) && up.prefix in at && |old(at[up.prefix].child)| == 2
                 && at[up.prefix].child == old(at[up.prefix].child)[BitOf(up.bit) := e.down]
      requires forall q :: q in at && (old(links).up[e.node.prefix].Under? ==> q != old(links).up[e.node.prefix].prefix) ==> at[q].child == old(at[q].child)
      requires forall q :: q in at && at[q] != e.down ==> at[q].parent == old(at[q].parent)
      ensures Shape()
    {
      hide Linked, PrefixLinks.Unlink, TrieEntry.Formed;
      var k, l := e.node.prefix, old(links);
      UnlinkKeepsLinked(l, k);
      UnlinkEffect(l, k);
      RootStored(l);
      var place, c := l.up[k], OnlyKid(l.kids[k]);
      assert old(UpShape(k));
      if c.Some? { assert UpShape(c.value); }
      if place.Under? { OneKid(place); }
      Rewired((if place.Under? then {place.prefix} else {}, if c.Some? then {c.value} else {}));
    }

    /** A tidy trie with n prefixes in its contents has at most 2n - 1 nodes. */
    lemma NodeBound()
      requires Shape() && Compact() && at != map[]
      ensures |at| <= 2 * |Contents()| - 1
    {
      forall p | p in at ensures |p| <= 8 * size { NodeOk(p); }
      forall p | p in at && p !in Contents().Keys ensures Full(links, p) {}
      FewNodes(links, Contents().Keys, 8 * size);
    }

    // ------------------------------------------------------------ inserting

    /** How a prefix that belongs below parent relates to the node already in that slot. */
    lemma Diverge(parent: TrieEntry?, down: TrieEntry, ip: Bytes, cidr: nat)
      requires Shape() && |ip| == size && cidr <= 8 * size && Placed(parent, Bits(ip)[..cidr])
      requires links.Get(PlaceBelow(parent, Bits(ip)[..cidr])) == Some(down.prefix) && down.prefix in at && at[down.prefix] == down
      ensures down.Formed(size)
      ensures var p, s, c := Bits(ip)[..cidr], Bits(ip), CommonBits(down.bits, ip);
              if c >= cidr then p < down.prefix
              else s[..c] < p && s[..c] < down.prefix && p[c] != down.prefix[c] && Placed(parent, s[..c])
                   && PlaceBelow(parent, s[..c]) == PlaceBelow(parent, p)
    {
      NodeOk(down.prefix);
      var p, place, c := Bits(ip)[..cidr], PlaceBelow(parent, Bits(ip)[..cidr]), CommonBits(down.bits, ip);
      assert SlotOk(links, place) && Fits(place, down.prefix);
      PartBelow(place, Bits(down.bits), down.cidr, Bits(ip), cidr);
      if c < cidr {
        assert Bits(ip)[..c] in at ==> Reached(links, place, Bits(ip)[..c]);
      }
    }

    /** Splices a peerless node in where the new prefix and the node below part, and hangs the new node from it. */
    method Fork(parent: TrieEntry?, down: TrieEntry, fork: TrieEntry, newNode: TrieEntry)
      requires CanSplice(parent, down, fork) && Compact()
      requires newNode.Formed(size) && newNode.child == [null, null] && newNode !in at.Values && newNode != fork && newNode.peer != null
      requires newNode.prefix !in at && fork.prefix < newNode.prefix
      requires newNode.prefix[|fork.prefix|] != down.prefix[|fork.prefix|]
      modifies this`root, this`at, this`links, (if parent == null then {} else {parent})`child, down`parent, fork`child, fork`parent, newNode`parent
      ensures Shape() && Compact() && at == old(at)[fork.prefix := fork][newNode.prefix := newNode]
    {
      hide Linked, Shape, Full, UpShape, Deref, SlotOf, PrefixLinks.SpliceAbove, PrefixLinks.HangLeaf, TrieEntry.Formed;
      SizeOk();
      ForkedFull(links, PlaceBelow(parent, fork.prefix), fork.prefix, down.prefix, newNode.prefix);
      SpliceAbove(parent, down, fork);
      NodeOk(fork.prefix);
      SizeOk();
      BranchOf(fork, newNode);
      var bit := fork.ChooseBit(newNode.bits);
      HangLeaf(fork, bit, newNode);
    }

    /** A new node for a prefix that is not stored and belongs below parent. */
    ghost predicate Linkable(ip: Bytes, cidr: nat, parent: TrieEntry?, n: TrieEntry)
      reads this, at.Values, n
    {
      && Shape() && Compact() && root != null && |ip| == size && cidr <= 8 * size
      && n.Formed(size) && n.child == [null, null] && n !in at.Values && n.peer != null
      && n.prefix == Bits(ip)[..cidr] && n.cidr == cidr && Placed(parent, n.prefix)
    }

    /** Links a new node in below parent, adding a peerless fork only where the two paths part. */
    method Link(ip: Bytes, cidr: nat, parent: TrieEntry?, newNode: TrieEntry) returns (ghost forks: set<TrieEntry>)
      requires Linkable(ip, cidr, parent, newNode)
      modifies this`root, this`at, this`links, at.Values`child, at.Values`parent, newNode`child, newNode`parent
      ensures Shape() && Compact() && Grown(old(at), at, newNode, forks)
      ensures fresh(forks) && forall n :: n in forks ==> n.peer == null && !n.perPeerElem
    {
      hide Linked, PrefixLinks.SpliceAbove, PrefixLinks.HangLeaf, Grown;
      var down := root;
      if parent != null {
        StepDown(parent, ip, newNode.prefix);
        var bit := parent.ChooseBit(ip);
        down := parent.child[bit];
        Standing(parent, down, newNode.prefix);
        if down == null {
          LeafFull(PlaceBelow(parent, newNode.prefix), newNode.prefix);
          HangLeaf(parent, bit, newNode);
          GrownByOne(old(at), newNode);
          return {};
        }
      }
      Standing(parent, down, newNode.prefix);
      forks := LinkAbove(ip, cidr, parent, down, newNode);
    }

    method LinkAbove(ip: Bytes, cidr: nat, parent: TrieEntry?, down: TrieEntry, newNode: TrieEntry) returns (ghost forks: set<TrieEntry>)
      requires Linkable(ip, cidr, parent, newNode)
      requires links.Get(PlaceBelow(parent, newNode.prefix)) == Some(down.prefix) && down.prefix in at && at[down.prefix] == down
      modifies this`root, this`at, this`links, (if parent == null then {} else {parent})`child, down`parent, newNode`child, newNode`parent
      ensures Shape() && Compact() && Grown(old(at), at, newNode, forks)
      ensures fresh(forks) && forall n :: n in forks ==> n.peer == null && !n.perPeerElem
    {
      hide Linked, Shape, PrefixLinks.SpliceAbove, PrefixLinks.HangLeaf, Grown, TrieEntry.Formed;
      SizeOk();
      Diverge(parent, down, ip, cidr);
      var common := CommonBits(down.bits, ip);
      if parent != null { NodeOk(parent.prefix); }
      if common >= cidr {
        SpliceFull(PlaceBelow(parent, newNode.prefix), newNode.prefix, down.prefix);
        SpliceAbove(parent, down, newNode);
        GrownByOne(old(at), newNode);
        return {};
      }
      var node := new TrieEntry(ip, common, null);
      Fork(parent, down, node, newNode);
      GrownByTwo(old(at), node, newNode);
      forks := {node};
    }

    lemma LeafFull(place: Place, p: BitString)
      requires links.HasPlace(place) && p !in links.kids
      ensures forall q :: Full(links, q) ==> Full(PrefixLinks.HangLeaf(links, place, p), q)
    {
      forall q | Full(links, q) ensures Full(PrefixLinks.HangLeaf(links, place, p), q) { HangLeafFull(links, place, p, q); }
    }

    lemma SpliceFull(place: Place, p: BitString, d: BitString)
      requires links.HasPlace(place) && p !in links.kids && |p| < |d|
      ensures forall q :: Full(links, q) ==> Full(PrefixLinks.SpliceAbove(links, place, p, d), q)
    {
      forall q | Full(links, q) ensures Full(PrefixLinks.SpliceAbove(links, place, p, d), q) { SpliceAboveFull(links, place, p, d, q); }
    }

    method HangRoot(node: TrieEntry)
      requires Shape() && Compact() && root == null && node.Formed(size) && node.child == [null, null] && node.peer != null
      modifies this`root, this`at, this`links, node`parent
      ensures Shape() && Compact() && old(at) == map[] && at == map[node.prefix := node]
    {
      assert SlotOk(links, AtRoot);
      forall q ensures q !in at { assert q in at ==> Reached(links, AtRoot, q); }
      HangLeafKeepsLinked(links, AtRoot, node.prefix);
      node.parent := RootOf(this);
      root := node;
      at := map[node.prefix := node];
      links := PrefixLinks.HangLeaf(links, AtRoot, node.prefix);
      assert KidsShape(node.prefix) && UpShape(node.prefix);
    }

    /** What every operation keeps: the shape, the compactness, and exact lists for this and the other trie's nodes. */
    ghost predicate Tidy(peers: set<Peer>, others: set<TrieEntry>)
      reads this, at.Values, peers, others
    {
      Shape() && Compact() && others !! at.Values && Lists(peers, at.Values + others)
    }

    method Insert(ip: Bytes, cidr: nat, peer: Peer, ghost peers: set<Peer>, ghost others: set<TrieEntry>)
      requires Tidy(peers, others) && |ip| == size && cidr <= 8 * size && peer in peers
      modifies this, at.Values, peers`trieEntries
      ensures Tidy(peers, others) && fresh(at.Values - old(at.Values))
      ensures Contents() == old(Contents())[Bits(ip)[..cidr] := peer]
    {
      hide Linked, Shape, Full, Lists, Contents, Walking;
      SizeOk();
      ghost var nodes := at.Values + others;
      if root == null {
        InsertFirst(ip, cidr, peer, peers, others);
        return;
      }
      var node, exact := NodePlacement(ip, cidr);
      if exact {
        OwnerKnown(peers, nodes, node);
        Relist(node, peer, peers, nodes);
        PeersOnly();
        NewContents(Bits(ip)[..cidr]);
      } else {
        InsertNew(ip, cidr, peer, node, peers, others);
      }
    }

    method InsertFirst(ip: Bytes, cidr: nat, peer: Peer, ghost peers: set<Peer>, ghost others: set<TrieEntry>)
      requires Tidy(peers, others) && root == null && |ip| == size && cidr <= 8 * size && peer in peers
      modifies this, peer`trieEntries
      ensures Tidy(peers, others) && fresh(at.Values - old(at.Values))
      ensures Contents() == old(Contents())[Bits(ip)[..cidr] := peer]
    {
      hide Linked, Shape, Full, Lists, Contents;
      ghost var nodes := at.Values + others;
      var node := new TrieEntry(ip, cidr, peer);
      Enlist(node, peers, nodes);
      label Listed:
      HangRoot(node);
      SameLists@Listed((peers, nodes + {node}));
      ValuesOfUpdate(map[], node.prefix, node);
      assert at.Values + others == nodes + {node};
      NewContents(node.prefix);
    }

    method InsertNew(ip: Bytes, cidr: nat, peer: Peer, parent: TrieEntry?, ghost peers: set<Peer>, ghost others: set<TrieEntry>)
      requires Tidy(peers, others) && root != null && |ip| == size && cidr <= 8 * size && peer in peers
      requires Placed(parent, Bits(ip)[..cidr])
      modifies this, at.Values, peer`trieEntries
      ensures Tidy(peers, others) && fresh(at.Values - old(at.Values))
      ensures Contents() == old(Contents())[Bits(ip)[..cidr] := peer]
    {
      hide Linked, Shape, Full, Lists, Compact, Contents, Walking, TrieEntry.Formed, Grown;
      ghost var nodes := at.Values + others;
      var newNode := new TrieEntry(ip, cidr, peer);
      Enlist(newNode, peers, nodes);
      label Enlisted:
      ghost var forks := Link(ip, cidr, parent, newNode);
      SameLists@Enlisted((peers, nodes + {newNode}));
      AddPeerless(peers, nodes + {newNode}, forks);
      GrownValues(old(at), at, newNode, forks);
      assert at.Values + others == nodes + {newNode} + forks;
      NewContents(newNode.prefix);
    }

    twostate lemma NewContents(p: BitString)
      requires p in at && at[p].peer != null
      requires forall q :: q in old(at) && q != p ==> q in at && at[q].peer == old(at[q].peer)
      requires forall q :: q in at && q !in old(at) && q != p ==> at[q].peer == null
      ensures Contents() == old(Contents())[p := at[p].peer]
    {
    }

    twostate lemma ContentsLess(p: BitString)
      requires at == old(at) && p in at && at[p].peer == null
      requires forall q :: q in at && q != p ==> at[q].peer == old(at[q].peer)
      ensures Contents() == old(Contents()) - {p}
    {
    }

    // ------------------------------------------------------------ removing

    /** Unlinks a peerless node that has a child to take its place, or hangs from the root or from a node with a peer. */
    method Cut(node: TrieEntry, child: TrieEntry?, ghost peers: set<Peer>, ghost others: set<TrieEntry>, ghost peerless: BitString)
      requires CanUnlink(node) && child == Deref(OnlyKid(links.kids[node.prefix])) && node.peer == null
      requires others !! at.Values && Lists(peers, at.Values + others) && CompactBut({node.prefix, peerless})
      requires OnlyKid(links.kids[node.prefix]).None? && links.up[node.prefix].Under? ==>
                 links.up[node.prefix].prefix == peerless || (links.up[node.prefix].prefix in at && at[links.up[node.prefix].prefix].peer != null)
      modifies this`root, this`at, this`links
      modifies (if child == null then {} else {child})`parent
      modifies (if node.parent.ChildOf? then {node.parent.node} else {})`child
      ensures node.prefix in old(links.up) && old(links).HasPlace(old(links).up[node.prefix]) && Fits(old(links).up[node.prefix], node.prefix)
      ensures Shape() && at == old(at) - {node.prefix} && links == PrefixLinks.Unlink(old(links), node.prefix)
      ensures node.child == old(node.child) && node.parent == old(node.parent)
      ensures at.Values == old(at.Values) - {node}
      ensures Lists(peers, at.Values + others) && CompactBut({peerless}) && Contents() == old(Contents())
    {
      hide Linked, Lists, PrefixLinks.Unlink;
      ghost var nodes := at.Values + others;
      Unlink(node, child);
      SameLists((peers, nodes));
      DropPeerless(peers, nodes, node);
      ValuesOfRemoval(old(at), node.prefix);
      assert at.Values + others == nodes - {node};
      PeerlessGone(node.prefix);
      forall q | q in at && q != peerless && at[q].peer == null ensures Full(links, q) {
        assert Full(old(links), q);
        UnlinkFull(old(links), node.prefix, q);
      }
    }

    twostate lemma PeerlessGone(k: BitString)
      requires k in old(at) && at == old(at) - {k} && old(at[k].peer) == null
      requires forall q :: q in at ==> at[q].peer == old(at[q].peer)
      ensures Contents() == old(Contents())
    {
    }

    /** Compactness except for some prefixes under repair. */
    ghost predicate CompactBut(s: set<BitString>)
      reads this, at.Values
    {
      forall p :: p in at && p !in s && at[p].peer == null ==> Full(links, p)
    }

    /** Removes a stored node, and the peerless node above it if that one is left with a single child. */
    method RemoveNode(node: TrieEntry, ghost peers: set<Peer>, ghost others: set<TrieEntry>)
      requires Tidy(peers, others) && node.prefix in at && at[node.prefix] == node && node.peer != null && node.peer in peers
      modifies this, at.Values, node.peer`trieEntries
      ensures Tidy(peers, others) && at.Values <= old(at.Values)
      ensures Contents() == old(Contents()) - {node.prefix}
      ensures old(node.peer).trieEntries == Without(old(node.peer.trieEntries), node)
    {
      hide Linked, Shape, Full, Lists, Contents;
      SizeOk();
      Delist(node, peers, at.Values + others);
      PeersOnly();
      ContentsLess(node.prefix);
      Prune(node, peers, others);
    }

    /** What holds while the nodes in s still have to be checked for compactness. */
    ghost predicate TidyBut(s: set<BitString>, peers: set<Peer>, others: set<TrieEntry>)
      reads this, at.Values, peers, others
    {
      Shape() && CompactBut(s) && others !! at.Values && Lists(peers, at.Values + others)
    }

    /** Unlinks a node that has just lost its peer, unless it joins two subtrees. */
    method Prune(node: TrieEntry, ghost peers: set<Peer>, ghost others: set<TrieEntry>)
      requires TidyBut({node.prefix}, peers, others) && node.prefix in at && at[node.prefix] == node && node.peer == null
      modifies this, at.Values
      ensures Tidy(peers, others) && at.Values <= old(at.Values) && Contents() == old(Contents())
    {
      hide Linked, Shape, Lists, PrefixLinks.Unlink;
      NodeKids(node);
      if node.child[0] != null && node.child[1] != null {
        return;
      }
      var bit := 0;
      if node.child[0] == null { bit := 1; }
      var child := node.child[bit];
      var leaf := child == null;
      ghost var up := links.up[node.prefix];
      ghost var above := if leaf && up.Under? then up.prefix else node.prefix;
      ghost var full := above != node.prefix && at[above].peer == null;
      assert full ==> Full(links, above) && links.kids[above].Get(!up.bit).Some?;
      if above != node.prefix { UnlinkLeaf(links, node.prefix); }
      Cut(node, child, peers, others, above);
      var slot := node.parent;
      node.Zeroize();
      if leaf && slot.ChildOf? && slot.node.peer == null {
        Collapse(slot.node, slot.bit, peers, others);
      }
    }

    /** Replaces a peerless node whose branch bit has become empty by its other child. */
    method Collapse(parent: TrieEntry, bit: nat, ghost peers: set<Peer>, ghost others: set<TrieEntry>)
      requires TidyBut({parent.prefix}, peers, others) && parent.prefix in at && at[parent.prefix] == parent && parent.peer == null
      requires bit < 2 && parent.prefix in links.kids && links.kids[parent.prefix].Get(bit == 1) == None && links.kids[parent.prefix].Get(bit == 0).Some?
      modifies this, at.Values
      ensures Tidy(peers, others) && at.Values <= old(at.Values) && Contents() == old(Contents())
    {
      hide Linked, Shape, Lists, PrefixLinks.Unlink;
      NodeKids(parent);
      var child := parent.child[1 - bit];
      Cut(parent, child, peers, others, parent.prefix);
      parent.Zeroize();
    }

    lemma NodeKids(node: TrieEntry)
      requires Shape() && node.prefix in at && at[node.prefix] == node
      ensures |node.child| == 2 && node.prefix in links.kids && node.prefix in links.up
      ensures node.child[0] == null <==> links.kids[node.prefix].zero == None
      ensures node.child[1] == null <==> links.kids[node.prefix].one == None
      ensures node.child[0] == null || node.child[1] == null ==>
                CanUnlink(node) && Deref(OnlyKid(links.kids[node.prefix])) == if node.child[0] == null then node.child[1] else node.child[0]
      ensures links.HasPlace(links.up[node.prefix]) && node.parent == SlotOf(links.up[node.prefix])
      ensures links.up[node.prefix].Under? ==> links.up[node.prefix].prefix in at && links.up[node.prefix].prefix != node.prefix
                                                     && at[links.up[node.prefix].prefix].prefix == links.up[node.prefix].prefix
    {
      NodeOk(node.prefix);
      Neighbours(links, node.prefix);
    }

    /** Changing only which peer a node carries leaves the shape alone. */
    twostate lemma PeersOnly()
      requires old(Shape()) && root == old(root) && at == old(at) && links == old(links)
      requires forall q :: q in at ==> at[q].child == old(at[q].child) && at[q].parent == old(at[q].parent)
      ensures Shape()
    {
      Rewired(({}, {}));
    }
  }

  /** The new map has the old nodes, n, and some more that are in extra. */
  ghost predicate Grown(before: map<BitString, TrieEntry>, after: map<BitString, TrieEntry>, n: TrieEntry, extra: set<TrieEntry>) {
    && n.prefix in after && after[n.prefix] == n && after.Values == before.Values + {n} + extra
    && (forall q :: q in before ==> q in after && after[q] == before[q])
    && (forall q :: q in after && q !in before && q != n.prefix ==> after[q] in extra)
  }

  lemma GrownByOne(m: map<BitString, TrieEntry>, n: TrieEntry)
    requires n.prefix !in m
    ensures Grown(m, m[n.prefix := n], n, {})
  {
    ValuesOfUpdate(m, n.prefix, n);
  }

  lemma GrownByTwo(m: map<BitString, TrieEntry>, f: TrieEntry, n: TrieEntry)
    requires f.prefix !in m && n.prefix !in m && f.prefix != n.prefix
    ensures Grown(m, m[f.prefix := f][n.prefix := n], n, {f})
  {
    ValuesOfUpdate(m, f.prefix, f);
    ValuesOfUpdate(m[f.prefix := f], n.prefix, n);
  }

  lemma GrownValues(before: map<BitString, TrieEntry>, after: map<BitString, TrieEntry>, n: TrieEntry, extra: set<TrieEntry>)
    requires Grown(before, after, n, extra)
    ensures n.prefix in after && after[n.prefix] == n && after.Values == before.Values + {n} + extra
    ensures forall q :: q in before ==> q in after && after[q] == before[q]
    ensures forall q :: q in after && q !in before && q != n.prefix ==> after[q] in extra
  {
  }

  lemma ValuesOfUpdate<K, V>(m: map<K, V>, k: K, v: V)
    requires k !in m
    ensures m[k := v].Values == m.Values + {v}
  {
    assert m[k := v][k] == v;
    forall x | x in m.Values ensures x in m[k := v].Values {
      var j :| j in m && m[j] == x;
      assert m[k := v][j] == x;
    }
  }

  lemma ValuesOfRemoval<K, V>(m: map<K, V>, k: K)
    requires k in m && forall j :: j in m && m[j] == m[k] ==> j == k
    ensures (m - {k}).Values == m.Values - {m[k]}
  {
    forall x | x in m.Values && x != m[k] ensures x in (m - {k}).Values {
      var j :| j in m && m[j] == x;
      assert (m - {k})[j] == x;
    }
  }

  lemma OwnerKnown(peers: set<Peer>, nodes: set<TrieEntry>, n: TrieEntry)
    requires Lists(peers, nodes) && n in nodes
    ensures n.peer != null ==> n.peer in peers
  {
    assert NodeListed(peers, n);
  }

  /** The lists do not depend on how the nodes are linked. */
  twostate lemma SameLists(all: (set<Peer>, set<TrieEntry>))
    requires old(Lists(all.0, all.1))
    requires forall n :: n in all.1 ==> n.peer == old(n.peer) && n.perPeerElem == old(n.perPeerElem)
    requires forall o :: o in all.0 ==> o.trieEntries == old(o.trieEntries)
    ensures Lists(all.0, all.1)
  {
    forall n | n in all.1 ensures NodeListed(all.0, n) { assert old(NodeListed(all.0, n)); }
    forall o | o in all.0 ensures OwnList(o, all.1) { assert old(OwnList(o, all.1)); }
  }

  lemma DropPeerless(peers: set<Peer>, nodes: set<TrieEntry>, n: TrieEntry)
    requires Lists(peers, nodes) && n.peer == null
    ensures Lists(peers, nodes - {n})
  {
    forall m | m in nodes - {n} ensures NodeListed(peers, m) {}
    forall o | o in peers ensures OwnList(o, nodes - {n}) { assert OwnList(o, nodes); }
  }

  lemma AddPeerless(peers: set<Peer>, nodes: set<TrieEntry>, more: set<TrieEntry>)
    requires Lists(peers, nodes) && forall n :: n in more ==> n.peer == null && !n.perPeerElem
    ensures Lists(peers, nodes + more)
  {
    forall o | o in peers ensures OwnList(o, nodes + more) { assert OwnList(o, nodes); }
  }
}
