/**
 Sessions and their receiver indices.  A peer owns one handshake and up to three keypairs
 (previous, current, next); each of them that is live occupies one entry of the device's index
 table, under which the other side addresses it.  Handshakes, key rotation, confirmation,
 expiry and shutdown add, convert and delete entries; this module proves that the table never
 leaks an entry and never loses one that is in use.
 */
module SessionIndices {

  type u32 = x: int | 0 <= x < 0x1_0000_0000

  datatype HandshakeState = Zeroed | InitiationCreated | InitiationConsumed | ResponseCreated | ResponseConsumed

  class Keypair {
    const localIndex: u32
    const remoteIndex: u32
    const isInitiator: bool

    constructor (localIndex: u32, remoteIndex: u32, isInitiator: bool)
      ensures this.localIndex == localIndex && this.remoteIndex == remoteIndex && this.isInitiator == isInitiator
    {
      this.localIndex := localIndex;
      this.remoteIndex := remoteIndex;
      this.isInitiator := isInitiator;
    }
  }

  datatype Slots = Slots(previous: Keypair?, current: Keypair?, next: Keypair?) {

    predicate Has(k: Keypair) { k == previous || k == current || k == next }

    predicate Distinct() {
      && (previous != null ==> previous != current && previous != next)
      && (current != null ==> current != next)
    }
  }

  /** Key rotation.  An initiator uses its new keypair at once and keeps, as previous, the unconfirmed
      next one if there is one and the current one otherwise; a responder waits for confirmation. */
  function Rotated(s: Slots, k: Keypair): Slots {
    if k.isInitiator then Slots(if s.next != null then s.next else s.current, k, null)
    else Slots(null, s.current, k)
  }

  /** The index a slot occupies, if it is filled. */
  function Index(k: Keypair?): set<u32> {
    if k == null then {} else {k.localIndex}
  }

  /** The indices of the keypairs that rotation drops. */
  function Dropped(s: Slots, k: Keypair): set<u32> {
    if k.isInitiator then (if s.next != null then Index(s.current) else {}) + Index(s.previous)
    else Index(s.next) + Index(s.previous)
  }

  function Confirmed(s: Slots): Slots {
    Slots(s.current, s.next, null)
  }

  class Peer {
    var state: HandshakeState
    var localIndex: u32
    var remoteIndex: u32
    var slots: Slots

    constructor ()
      ensures state == Zeroed && localIndex == 0 && slots == Slots(null, null, null)
    {
      state := Zeroed;
      localIndex := 0;
      remoteIndex := 0;
      slots := Slots(null, null, null);
    }
  }

  datatype Entry = HandshakeOf(peer: Peer) | KeypairOf(peer: Peer, keypair: Keypair)

  class Device {
    var table: map<u32, Entry>
    ghost var peers: set<Peer>

    // ------------------------------------------------------------ the invariant

    ghost predicate Valid()
      reads this, peers
    {
      && 0 !in table
      && (forall i :: i in table ==> table[i].peer in peers && InUse(i, table[i]))
      && (forall p :: p in peers ==> Registered(p))
    }

    /** An entry stands for something its peer still holds, under the index it is stored at. */
    ghost predicate InUse(i: u32, e: Entry)
      reads e.peer
    {
      match e
      case HandshakeOf(p) => p.localIndex == i
      case KeypairOf(p, k) => k.localIndex == i && p.slots.Has(k)
    }

    /** Whatever a peer holds has its entry. */
    ghost predicate Registered(p: Peer)
      reads this, p
    {
      && (p.localIndex != 0 ==> p.localIndex in table && table[p.localIndex] == HandshakeOf(p))
      && (p.state in {InitiationCreated, ResponseCreated, ResponseConsumed} ==> p.localIndex != 0)
      && p.slots.Distinct()
      && KeypairRegistered(p, p.slots.previous) && KeypairRegistered(p, p.slots.current) && KeypairRegistered(p, p.slots.next)
    }

    ghost predicate KeypairRegistered(p: Peer, k: Keypair?)
      reads this
    {
      k != null ==> k.localIndex in table && table[k.localIndex] == KeypairOf(p, k)
    }

    /** A step that concerns one peer keeps the invariant if it keeps that peer's part of it. */
    twostate lemma OnePeer(p: Peer)
      requires old(Valid()) && p in peers && peers == old(peers)
      requires OthersKept(old(table), table, p) && 0 !in table
      requires forall q :: q in peers && q != p ==> unchanged(q)
      requires Registered(p)
      requires forall i :: i in table && table[i].peer == p ==> InUse(i, table[i])
      ensures Valid()
    {
      forall q | q in peers && q != p ensures Registered(q) {
        assert old(Registered(q));
        assert q.localIndex != 0 ==> Kept(old(table), table, p, q.localIndex);
        assert q.slots.previous != null ==> Kept(old(table), table, p, q.slots.previous.localIndex);
        assert q.slots.current != null ==> Kept(old(table), table, p, q.slots.current.localIndex);
        assert q.slots.next != null ==> Kept(old(table), table, p, q.slots.next.localIndex);
      }
      forall i | i in table ensures table[i].peer in peers && InUse(i, table[i]) {
        if table[i].peer != p {
          assert Kept(old(table), table, p, i);
          assert old(InUse(i, table[i]));
        }
      }
    }

    constructor ()
      ensures Valid() && table == map[] && peers == {}
    {
      table := map[];
      peers := {};
    }

    method AddPeer() returns (p: Peer)
      requires Valid()
      modifies this`peers
      ensures Valid() && fresh(p) && peers == old(peers) + {p}
      ensures p.state == Zeroed && p.localIndex == 0 && p.slots == Slots(null, null, null)
    {
      p := new Peer();
      peers := peers + {p};
    }

    // ------------------------------------------------------------ the index table

    /** Draws indices until one is free. */
    method NewIndexForHandshake(p: Peer, draws: seq<u32>) returns (index: u32)
      requires Drawable(draws, table)
      modifies this`table
      ensures index != 0 && index !in old(table) && index in draws
      ensures table == old(table)[index := HandshakeOf(p)]
    {
      var n := 0;
      while draws[n] in table
        invariant n < |draws| && forall j :: 0 <= j < n ==> draws[j] in table
        decreases |draws| - n
      {
        n := n + 1;
      }
      index := draws[n];
      table := table[index := HandshakeOf(p)];
    }

    method Delete(index: u32)
      modifies this`table
      ensures table == old(table) - {index}
    {
      table := table - {index};
    }

    /** Hands the entry of a handshake over to the keypair derived from it, if the entry still exists. */
    method SwapIndexForKeypair(index: u32, k: Keypair)
      modifies this`table
      ensures table == if index in old(table) then old(table)[index := KeypairOf(old(table)[index].peer, k)] else old(table)
    {
      if index in table {
        table := table[index := KeypairOf(table[index].peer, k)];
      }
    }

    method DeleteKeypair(k: Keypair?)
      modifies this`table
      ensures table == old(table) - Index(k)
    {
      if k != null {
        Delete(k.localIndex);
      }
    }

    // ------------------------------------------------------------ handshake messages

    /** Sends an initiation under a fresh index; a message that cannot be built leaves the index alone. */
    method CreateMessageInitiation(p: Peer, draws: seq<u32>, keyError: bool) returns (ok: bool)
      requires Valid() && p in peers && Drawable(draws, table - {p.localIndex})
      modifies this`table, p`localIndex, p`state
      ensures Valid() && ok == !keyError
      ensures !ok ==> table == old(table) && p.localIndex == old(p.localIndex) && p.state == old(p.state)
      ensures ok ==> p.state == InitiationCreated && p.localIndex !in old(table - {p.localIndex})
      ensures ok ==> table == old(table - {p.localIndex})[p.localIndex := HandshakeOf(p)]
    {
      if keyError {
        return false;
      }
      Delete(p.localIndex);
      var sender := NewIndexForHandshake(p, draws);
      p.localIndex := sender;
      p.state := InitiationCreated;
      assert old(Registered(p));
      OnePeer(p);
      ok := true;
    }

    /** Takes over the index of an authenticated initiation from the other side. */
    method ConsumeMessageInitiation(p: Peer, sender: u32, authentic: bool) returns (ok: bool)
      requires Valid() && p in peers
      modifies p`remoteIndex, p`state
      ensures Valid() && ok == authentic && table == old(table)
      ensures if ok then p.state == InitiationConsumed && p.remoteIndex == sender
              else p.state == old(p.state) && p.remoteIndex == old(p.remoteIndex)
    {
      if !authentic {
        return false;
      }
      p.remoteIndex := sender;
      p.state := InitiationConsumed;
      ok := true;
    }

    /** Answers a consumed initiation under a fresh index; a key error comes after the index was taken. */
    method CreateMessageResponse(p: Peer, draws: seq<u32>, keyError: bool) returns (ok: bool)
      requires Valid() && p in peers && Drawable(draws, table - {p.localIndex})
      modifies this`table, p`localIndex, p`state
      ensures Valid() && (ok <==> old(p.state) == InitiationConsumed && !keyError)
      ensures p.state == if ok then ResponseCreated else old(p.state)
      ensures if old(p.state) == InitiationConsumed
              then p.localIndex !in old(table - {p.localIndex}) && table == old(table - {p.localIndex})[p.localIndex := HandshakeOf(p)]
              else p.localIndex == old(p.localIndex) && table == old(table)
    {
      if p.state != InitiationConsumed {
        return false;
      }
      Delete(p.localIndex);
      var index := NewIndexForHandshake(p, draws);
      p.localIndex := index;
      assert old(Registered(p));
      if !keyError {
        p.state := ResponseCreated;
      }
      OnePeer(p);
      ok := !keyError;
    }

    /** Finds the handshake a response is addressed to and completes it if it was waiting for one. */
    method ConsumeMessageResponse(receiver: u32, sender: u32, authentic: bool) returns (p: Peer?)
      requires Valid()
      modifies peers`remoteIndex, peers`state
      ensures Valid() && table == old(table)
      ensures p != null <==> authentic && receiver in table && table[receiver].HandshakeOf? && old(table[receiver].peer.state) == InitiationCreated
      ensures p != null ==> p in peers && p == table[receiver].peer && p.localIndex == receiver
      ensures p != null ==> p.state == ResponseConsumed && p.remoteIndex == sender
      ensures forall q :: q in peers && q != p ==> q.state == old(q.state) && q.remoteIndex == old(q.remoteIndex)
    {
      if receiver !in table || !table[receiver].HandshakeOf? {
        return null;
      }
      var owner := table[receiver].peer;
      if owner.state != InitiationCreated || !authentic {
        return null;
      }
      assert InUse(receiver, table[receiver]);
      owner.remoteIndex := sender;
      owner.state := ResponseConsumed;
      p := owner;
    }

    // ------------------------------------------------------------ keypairs

    /** Turns a finished handshake into a keypair that inherits its index, and rotates the slots. */
    method BeginSymmetricSession(p: Peer) returns (k: Keypair?)
      requires Valid() && p in peers
      modifies this`table, p`state, p`localIndex, p`slots
      ensures Valid()
      ensures k != null <==> old(p.state) in {ResponseCreated, ResponseConsumed}
      ensures k == null ==> table == old(table) && p.state == old(p.state) && p.localIndex == old(p.localIndex) && p.slots == old(p.slots)
      ensures k != null ==> fresh(k) && p.state == Zeroed && p.localIndex == 0
      ensures k != null ==> k.localIndex == old(p.localIndex) && k.remoteIndex == p.remoteIndex
      ensures k != null ==> k.isInitiator == (old(p.state) == ResponseConsumed)
      ensures k != null ==> p.slots == Rotated(old(p.slots), k)
      ensures k != null ==> table.Keys == old(table.Keys) - Dropped(old(p.slots), k)
    {
      if p.state != ResponseConsumed && p.state != ResponseCreated {
        return null;
      }
      var isInitiator := p.state == ResponseConsumed;
      p.state := Zeroed;
      var keypair := new Keypair(p.localIndex, p.remoteIndex, isInitiator);
      SwapIndexForKeypair(p.localIndex, keypair);
      p.localIndex := 0;
      Rotate(p, keypair);
      hide Rotated, Dropped, Index;
      SessionBegun(p);
      k := keypair;
    }

    /** The slots rotate, and the indices of the keypairs that drop out leave the table. */
    method Rotate(p: Peer, keypair: Keypair)
      modifies this`table, p`slots
      ensures p.slots == Rotated(old(p.slots), keypair) && table == old(table) - Dropped(old(p.slots), keypair)
      ensures Begun(p, keypair.isInitiator) == keypair
    {
      var previous, current, next := p.slots.previous, p.slots.current, p.slots.next;
      if keypair.isInitiator {
        if next != null {
          p.slots := p.slots.(next := null, previous := next);
          DeleteKeypair(current);
        } else {
          p.slots := p.slots.(previous := current);
        }
        DeleteKeypair(previous);
        p.slots := p.slots.(current := keypair);
      } else {
        p.slots := p.slots.(next := keypair);
        DeleteKeypair(next);
        p.slots := p.slots.(previous := null);
        DeleteKeypair(previous);
      }
      MinusTwice(old(table), Index(current), Index(previous));
      MinusTwice(old(table), Index(next), Index(previous));
    }

    /** The keypair a session has just begun with. */
    ghost function Begun(p: Peer, initiator: bool): Keypair?
      reads p
    {
      if initiator then p.slots.current else p.slots.next
    }

    twostate lemma SessionBegun(p: Peer)
      requires old(Valid()) && p in old(peers) && peers == old(peers) && old(p.localIndex) != 0
      requires var k := Begun(p, old(p.state) == ResponseConsumed);
               && k != null && fresh(k) && k.localIndex == old(p.localIndex) && p.slots == Rotated(old(p.slots), k)
               && k.isInitiator == (old(p.state) == ResponseConsumed)
               && table == old(table)[k.localIndex := KeypairOf(p, k)] - Dropped(old(p.slots), k)
      requires p.localIndex == 0 && p.state == Zeroed
      requires forall q :: q in peers && q != p ==> unchanged(q)
      ensures Valid()
      ensures table.Keys == old(table.Keys) - Dropped(old(p.slots), Begun(p, old(p.state) == ResponseConsumed))
    {
      assert old(Registered(p));
      OnePeer(p);
    }

    /** The first message received under the next keypair confirms it. */
    method ReceivedWithKeypair(p: Peer, k: Keypair?) returns (confirmed: bool)
      requires Valid() && p in peers
      modifies this`table, p`slots
      ensures Valid() && confirmed == (k == old(p.slots.next))
      ensures p.slots == if confirmed then Confirmed(old(p.slots)) else old(p.slots)
      ensures table.Keys == if confirmed then old(table.Keys) - Index(old(p.slots.previous)) else old(table.Keys)
    {
      if p.slots.next != k {
        return false;
      }
      var old' := p.slots.previous;
      p.slots := p.slots.(previous := p.slots.current);
      DeleteKeypair(old');
      p.slots := p.slots.(current := p.slots.next);
      p.slots := p.slots.(next := null);
      assert old(Registered(p));
      OnePeer(p);
      confirmed := true;
    }

    /** Forgets everything a peer holds. */
    method ZeroAndFlushAll(p: Peer)
      requires Valid() && p in peers
      modifies this`table, p`state, p`localIndex, p`slots
      ensures Valid() && p.state == Zeroed && p.localIndex == 0 && p.slots == Slots(null, null, null)
      ensures table.Keys == old(table.Keys) - old(Live(p))
    {
      DeleteKeypair(p.slots.previous);
      DeleteKeypair(p.slots.current);
      DeleteKeypair(p.slots.next);
      p.slots := Slots(null, null, null);
      Delete(p.localIndex);
      p.localIndex := 0;
      p.state := Zeroed;
      MinusAll(old(table), old(p.slots), old(p.localIndex));
      Flushed(p);
    }

    twostate lemma Flushed(p: Peer)
      requires old(Valid()) && p in old(peers) && peers == old(peers) && table == old(table - Live(p))
      requires p.slots == Slots(null, null, null) && p.localIndex == 0 && p.state == Zeroed
      requires forall q :: q in peers && q != p ==> unchanged(q)
      ensures Valid()
    {
      assert old(Registered(p));
      OnePeer(p);
    }

    /** Abandons the handshake; the keypairs stay (their nonces are exhausted instead). */
    method ExpireCurrentKeypairs(p: Peer)
      requires Valid() && p in peers
      modifies this`table, p`state, p`localIndex
      ensures Valid() && p.state == Zeroed && p.localIndex == 0
      ensures table == old(table - {p.localIndex})
    {
      Delete(p.localIndex);
      p.localIndex := 0;
      p.state := Zeroed;
      assert old(Registered(p));
      OnePeer(p);
    }

    // ------------------------------------------------------------ what the invariant means

    /** The table holds exactly the live indices; those of different peers are disjoint, and each peer
        has one per thing it holds: its handshake and its filled slots, so at most four. */
    ghost predicate Exact()
      reads this, peers
    {
      && (forall i :: i in table ==> table[i].peer in peers && i in Live(table[i].peer))
      && (forall p, i :: p in peers && i in Live(p) ==> i in table && table[i].peer == p)
      && (forall p :: p in peers ==> |Live(p)| == Count(p) <= 4)
    }

    lemma TableIsExact()
      requires Valid()
      ensures Exact()
    {
      hide Valid, Live, Count;
      forall i | i in table ensures table[i].peer in peers && i in Live(table[i].peer) { LiveEntry(i); }
      forall p, i | p in peers && i in Live(p) ensures i in table && table[i].peer == p { LiveOwned(p, i); }
      forall p | p in peers ensures |Live(p)| == Count(p) <= 4 { LiveCount(p); }
    }

    lemma LiveEntry(i: u32)
      requires Valid() && i in table
      ensures table[i].peer in peers && i in Live(table[i].peer)
    {
      assert InUse(i, table[i]);
    }

    lemma LiveOwned(p: Peer, i: u32)
      requires Valid() && p in peers && i in Live(p)
      ensures i in table && table[i].peer == p
    {
      assert Registered(p);
    }

    lemma LiveCount(p: Peer)
      requires Valid() && p in peers
      ensures |Live(p)| == Count(p) <= 4
    {
      assert Registered(p);
      var s := p.slots;
      var a := if p.localIndex == 0 then {} else {p.localIndex};
      assert a !! Index(s.previous) && a + Index(s.previous) !! Index(s.current);
      assert a + Index(s.previous) + Index(s.current) !! Index(s.next);
    }

    /** The number of things a peer holds. */
    ghost function Count(p: Peer): nat
      reads p
    {
      (if p.localIndex == 0 then 0 else 1) + (if p.slots.previous == null then 0 else 1)
      + (if p.slots.current == null then 0 else 1) + (if p.slots.next == null then 0 else 1)
    }

    /** The indices under which the table has an entry for one of some peers. */
    ghost function EntriesOf(some: set<Peer>): set<u32>
      reads this
    {
      set i | i in table && table[i].peer in some
    }

    lemma {:induction false} TableSize(some: set<Peer>)
      requires Valid() && some <= peers
      ensures |EntriesOf(some)| <= 4 * |some|
      decreases |some|
    {
      if some == {} {
        assert EntriesOf(some) == {};
      } else {
        var p :| p in some;
        TableSize(some - {p});
        LiveCount(p);
        forall i | i in EntriesOf(some) ensures i in EntriesOf(some - {p}) + Live(p) { LiveEntry(i); }
        SubsetSize(EntriesOf(some), EntriesOf(some - {p}) + Live(p));
      }
    }

    /** Enough different nonzero draws always contain a free index. */
    lemma EnoughDraws(draws: seq<u32>, less: set<u32>)
      requires Valid() && Plenty(draws, |peers|)
      ensures Drawable(draws, table - less)
    {
      TableSize(peers);
      assert EntriesOf(peers) == table.Keys;
      if Elements(draws) <= table.Keys { SubsetSize(Elements(draws), table.Keys); }
      var d :| d in Elements(draws) && d !in table;
      var i :| 0 <= i < |draws| && draws[i] == d;
    }

    // ------------------------------------------------------------ whole runs

    method Perform(p: Peer, act: Act)
      requires Valid() && p in peers
      requires act.Initiate? || act.Respond? ==> Plenty(act.draws, |peers|)
      modifies this`table, peers
      ensures Valid()
    {
      match act {
        case Initiate(draws, err) =>
          EnoughDraws(draws, {p.localIndex});
          var _ := CreateMessageInitiation(p, draws, err);
        case ConsumeInitiation(sender, ok) => var _ := ConsumeMessageInitiation(p, sender, ok);
        case Respond(draws, err) =>
          EnoughDraws(draws, {p.localIndex});
          var _ := CreateMessageResponse(p, draws, err);
        case Begin => var _ := BeginSymmetricSession(p);
        case ReceiveCurrent => var _ := ReceivedWithKeypair(p, p.slots.current);
        case ReceiveNext => var _ := ReceivedWithKeypair(p, p.slots.next);
        case Flush => ZeroAndFlushAll(p);
        case Expire => ExpireCurrentKeypairs(p);
      }
    }

    /** Every run, in which peers come along too, keeps the table exact: nothing is leaked and nothing in use is lost. */
    method Run(steps: seq<Step>) returns (known: seq<Peer>)
      requires Valid() && peers == {}
      requires forall n :: 0 <= n < |steps| && steps[n].Do? && (steps[n].act.Initiate? || steps[n].act.Respond?) ==> Plenty(steps[n].act.draws, |steps|)
      modifies this`table, this`peers
      ensures Valid() && Exact() && peers == (set p | p in known) && fresh(peers)
    {
      known := [];
      for n := 0 to |steps|
        invariant Valid() && peers == (set p | p in known) && fresh(peers) && |peers| <= n
      {
        match steps[n] {
          case Add =>
            var p := AddPeer();
            known := known + [p];
          case Response(receiver, sender, ok) =>
            var _ := ConsumeMessageResponse(receiver, sender, ok);
          case Do(who, act) =>
            if who < |known| {
              Perform(known[who], act);
            }
        }
      }
      TableIsExact();
    }
  }

  lemma MinusTwice(m: map<u32, Entry>, a: set<u32>, b: set<u32>)
    ensures m - a - b == m - (a + b)
  {
  }

  lemma MinusAll(m: map<u32, Entry>, s: Slots, i: u32)
    requires 0 !in m
    ensures m - Index(s.previous) - Index(s.current) - Index(s.next) - {i} == m - Held(s, i)
  {
    var a, b, c := Index(s.previous), Index(s.current), Index(s.next);
    MinusTwice(m, a, b);
    MinusTwice(m, a + b, c);
    MinusTwice(m, a + b + c, {i});
    assert Held(s, i) == if i == 0 then a + b + c else a + b + c + {i};
  }

  /** An entry of a peer other than p is the same in both tables. */
  ghost predicate Kept(before: map<u32, Entry>, after: map<u32, Entry>, p: Peer, i: u32) {
    && (i in before && before[i].peer != p ==> i in after && after[i] == before[i])
    && (i in after && after[i].peer != p ==> i in before && after[i] == before[i])
  }

  ghost predicate OthersKept(before: map<u32, Entry>, after: map<u32, Entry>, p: Peer) {
    forall i: u32 {:trigger Kept(before, after, p, i)} :: Kept(before, after, p, i)
  }

  /** The indices a peer occupies: its handshake's, if it has one, and those of its keypairs. */
  ghost function Live(p: Peer): set<u32>
    reads p
  {
    Held(p.slots, p.localIndex)
  }

  function Held(s: Slots, i: u32): set<u32> {
    (if i == 0 then {} else {i}) + Index(s.previous) + Index(s.current) + Index(s.next)
  }

  /** What happens to a peer. */
  datatype Act =
    | Initiate(draws: seq<u32>, keyError: bool)
    | ConsumeInitiation(sender: u32, authentic: bool)
    | Respond(draws: seq<u32>, keyError: bool)
    | Begin
    | ReceiveCurrent
    | ReceiveNext
    | Flush
    | Expire

  /** A peer is added, a response arrives, or something happens to the peer that came as number who. */
  datatype Step = Add | Response(receiver: u32, sender: u32, authentic: bool) | Do(who: nat, act: Act)

  /** More different indices than n peers together can occupy. */
  ghost predicate Plenty(draws: seq<u32>, n: nat) {
    0 !in draws && |Elements(draws)| > 4 * n
  }

  function Elements(s: seq<u32>): set<u32> {
    set x | x in s
  }

  lemma {:induction false} SubsetSize<T>(a: set<T>, b: set<T>)
    requires a <= b
    ensures |a| <= |b|
    decreases |a|
  {
    if a != {} {
      var x :| x in a;
      SubsetSize(a - {x}, b - {x});
    }
  }

  /** The random source yields a free index eventually, and never 0, which stands for none. */
  ghost predicate Drawable(draws: seq<u32>, table: map<u32, Entry>) {
    && 0 !in draws
    && exists i :: 0 <= i < |draws| && draws[i] !in table
  }
}
