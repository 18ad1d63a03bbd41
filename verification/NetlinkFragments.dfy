/**
 Sending a configuration to the kernel in as many netlink messages as it takes.  A peer whose allowed
 IPs do not fit is continued in the next message, and the receiving side joins the fragments again.
 */
module NetlinkFragments {
  import opened FragmentJoin
  import opened Wrappers

  /** The endpoint attribute is an IPv4 or an IPv6 socket address, or absent. */
  datatype Endpoint = NoEndpoint | Endpoint4 | Endpoint6

  datatype Peer = Peer(key: Key, removeMe: bool, replaceIps: bool, hasPsk: bool, endpoint: Endpoint, hasKeepalive: bool, ips: seq<Ip>)

  /** The device attributes take up attrs bytes in the first message; every message has the interface name. */
  datatype Dev = Dev(base: nat, attrs: nat, peers: seq<Peer>)

  // ---------------------------------------------------------------- how far the sender got

  /** A whole peer, as the receiver should see it. */
  function Whole(p: Peer): Frag { Frag(p.key, p.removeMe, p.replaceIps, true, p.ips) }

  /** The first p peers, and of the next one, if it was begun, the first a allowed IPs. */
  ghost function Done(peers: seq<Peer>, p: nat, a: Option<nat>): seq<Frag>
    requires p <= |peers| && (a.Some? ==> p < |peers| && a.value <= |peers[p].ips|)
  {
    seq(p, i requires 0 <= i < p => Whole(peers[i])) +
    if a.Some? then [Whole(peers[p]).(ips := peers[p].ips[..a.value])] else []
  }

  /** No two neighbours in the configuration have the same key. */
  ghost predicate NeighboursDiffer(peers: seq<Peer>) {
    forall i {:trigger peers[i]} :: 0 < i < |peers| ==> peers[i - 1].key != peers[i].key
  }

  /** Only the first fragment of a peer has the peer's attributes and asks to replace; all ask to remove, or none. */
  ghost predicate HeadersOnce(all: seq<Frag>) {
    forall i {:trigger all[i]} :: 0 <= i < |all| ==> HeaderAt(all, i)
  }

  ghost predicate HeaderAt(all: seq<Frag>, i: nat)
    requires i < |all|
  {
    && (all[i].header <==> i == 0 || all[i - 1].key != all[i].key)
    && (!all[i].header ==> !all[i].replaceIps && (i > 0 ==> all[i].removeMe == all[i - 1].removeMe))
  }

  /** What was sent so far, joined, is the configuration up to the place the sender is at. */
  ghost predicate Sent(peers: seq<Peer>, all: seq<Frag>, p: nat, a: Option<nat>) {
    && p <= |peers| && (a.Some? ==> p < |peers| && a.value <= |peers[p].ips|)
    && Coalesce(all) == Done(peers, p, a)
    && HeadersOnce(all)
    && (all != [] ==> LastIs(peers, all[|all| - 1], p, a))
    && (all == [] ==> p == 0 && a == None)
  }

  /** The last fragment belongs to the peer being sent, or else to the one before. */
  ghost predicate LastIs(peers: seq<Peer>, f: Frag, p: nat, a: Option<nat>)
    requires p <= |peers| && (a.Some? ==> p < |peers|)
  {
    if a.Some? then f.key == peers[p].key && f.removeMe == peers[p].removeMe
    else p > 0 && f.key == peers[p - 1].key
  }

  /** A fragment of peer p with no allowed IPs yet. */
  function Begin(p: Peer, first: bool): Frag { Frag(p.key, p.removeMe, first && p.replaceIps, first, []) }

  lemma HeadersMore(all: seq<Frag>, f: Frag)
    requires HeadersOnce(all)
    requires f.header <==> all == [] || all[|all| - 1].key != f.key
    requires !f.header ==> !f.replaceIps && (all != [] ==> f.removeMe == all[|all| - 1].removeMe)
    ensures HeadersOnce(all + [f])
  {
    var b := all + [f];
    forall i | 0 <= i < |b| ensures HeaderAt(b, i) {
      if i < |all| {
        assert HeaderAt(all, i) && b[i] == all[i] && (i > 0 ==> b[i - 1] == all[i - 1]);
      }
    }
  }

  lemma SentHeader(peers: seq<Peer>, all: seq<Frag>, p: nat)
    requires NeighboursDiffer(peers) && Sent(peers, all, p, None) && p < |peers|
    ensures Sent(peers, all + [Begin(peers[p], true)], p, Some(0))
  {
    hide HeadersOnce, Coalesce;
    var f := Begin(peers[p], true);
    CoalesceMore(all, f);
    HeadersMore(all, f);
    assert p > 0 ==> peers[p - 1].key != peers[p].key;
    assert Push(Done(peers, p, None), f) == Done(peers, p, Some(0));
  }

  lemma SentContinue(peers: seq<Peer>, all: seq<Frag>, p: nat, k: nat)
    requires Sent(peers, all, p, Some(k))
    ensures Sent(peers, all + [Begin(peers[p], false)], p, Some(k))
  {
    hide HeadersOnce, Coalesce;
    var f := Begin(peers[p], false);
    CoalesceMore(all, f);
    HeadersMore(all, f);
    var d := Done(peers, p, Some(k));
    assert d[|d| - 1].ips + [] == d[|d| - 1].ips;
    assert Push(d, f) == d;
  }

  lemma SentIp(peers: seq<Peer>, all: seq<Frag>, f: Frag, p: nat, k: nat)
    requires Sent(peers, all + [f], p, Some(k)) && k < |peers[p].ips|
    ensures Sent(peers, all + [f.(ips := f.ips + [peers[p].ips[k]])], p, Some(k + 1))
  {
    hide HeadersOnce, Coalesce, Push;
    var ip := peers[p].ips[k];
    var f' := f.(ips := f.ips + [ip]);
    assert (all + [f])[|all|] == f && (all + [f'])[|all|] == f';
    CoalesceMore(all, f);
    CoalesceMore(all, f');
    PushIp(Coalesce(all), f, ip);
    assert peers[p].ips[..k + 1] == peers[p].ips[..k] + [ip];
    var d, d' := Done(peers, p, Some(k)), Done(peers, p, Some(k + 1));
    assert d' == d[|d| - 1 := d[|d| - 1].(ips := d[|d| - 1].ips + [ip])];
    HeadersSame(all, f, f');
  }

  lemma PushIp(r: seq<Frag>, f: Frag, ip: Ip)
    ensures var d := Push(r, f);
            |d| > 0 && Push(r, f.(ips := f.ips + [ip])) == d[|d| - 1 := d[|d| - 1].(ips := d[|d| - 1].ips + [ip])]
  {
    if r != [] && r[|r| - 1].key == f.key {
      assert r[|r| - 1].ips + (f.ips + [ip]) == r[|r| - 1].ips + f.ips + [ip];
    }
  }

  lemma HeadersSame(all: seq<Frag>, f: Frag, f': Frag)
    requires HeadersOnce(all + [f]) && f' == f.(ips := f'.ips)
    ensures HeadersOnce(all + [f'])
  {
    var b, b' := all + [f], all + [f'];
    forall i | 0 <= i < |b'| ensures HeaderAt(b', i) {
      assert HeaderAt(b, i) && b'[i] == b[i].(ips := b'[i].ips) && (i > 0 ==> b'[i - 1] == b[i - 1].(ips := b'[i - 1].ips));
    }
  }

  lemma SentPeer(peers: seq<Peer>, all: seq<Frag>, p: nat)
    requires p < |peers| && Sent(peers, all, p, Some(|peers[p].ips|))
    ensures Sent(peers, all, p + 1, None)
  {
    assert peers[p].ips[..|peers[p].ips|] == peers[p].ips;
    assert Done(peers, p, Some(|peers[p].ips|)) == Done(peers, p + 1, None);
  }

  // ---------------------------------------------------------------- room in a message

  const ATTR_HDRLEN := 4

  /** What an attribute of n bytes takes, rounded up to four. */
  function AttrSize(n: nat): nat { ATTR_HDRLEN + (n + 3) / 4 * 4 }

  lemma AttrSizes()
    ensures AttrSize(1) == AttrSize(2) == AttrSize(4) == 8 && AttrSize(16) == 20 && AttrSize(28) == 32 && AttrSize(32) == 36
  {
  }

  function EndpointSize(e: Endpoint): nat {
    match e case NoEndpoint => 0 case Endpoint4 => AttrSize(16) case Endpoint6 => AttrSize(28)
  }

  predicate HasFlags(p: Peer, first: bool) { p.removeMe || (first && p.replaceIps) }

  /** The part of a peer before its allowed IPs. */
  function HeaderSize(p: Peer, first: bool): nat {
    ATTR_HDRLEN + AttrSize(32)
    + (if first then (if p.hasPsk then AttrSize(32) else 0) + EndpointSize(p.endpoint) + (if p.hasKeepalive then AttrSize(2) else 0) else 0)
    + (if HasFlags(p, first) then AttrSize(4) else 0)
  }

  function IpSize(ip: Ip): nat {
    ATTR_HDRLEN + AttrSize(2) + (if ip.addrLen > 0 then AttrSize(ip.addrLen) else 0) + AttrSize(1) + (if ip.hasFlags then AttrSize(4) else 0)
  }

  /** A message under construction: attributes are added while they fit. */
  class Message {
    const bufLen: nat
    var len: nat

    constructor (bufLen: nat, len: nat)
      ensures this.bufLen == bufLen && this.len == len
    {
      this.bufLen, this.len := bufLen, len;
    }

    method NestStartCheck() returns (ok: bool)
      modifies this
      ensures ok <==> old(len) + ATTR_HDRLEN <= bufLen
      ensures len == if ok then old(len) + ATTR_HDRLEN else old(len)
    {
      ok := len + ATTR_HDRLEN <= bufLen;
      if ok {
        len := len + ATTR_HDRLEN;
      }
    }

    method PutCheck(n: nat) returns (ok: bool)
      modifies this
      ensures ok <==> old(len) + AttrSize(n) <= bufLen
      ensures len == if ok then old(len) + AttrSize(n) else old(len)
    {
      ok := len + AttrSize(n) <= bufLen;
      if ok {
        len := len + AttrSize(n);
      }
    }

    /** A peer up to its allowed IPs, all of it or nothing. */
    method PutHeader(p: Peer, first: bool) returns (ok: bool)
      modifies this
      ensures ok <==> old(len) + HeaderSize(p, first) <= bufLen
      ensures len == if ok then old(len) + HeaderSize(p, first) else old(len)
    {
      AttrSizes();
      hide AttrSize;
      var start := len;
      ok := NestStartCheck();
      if ok {
        ok := PutCheck(32);
      }
      if ok && first && p.hasPsk {
        ok := PutCheck(32);
      }
      if ok && first && p.endpoint.Endpoint4? {
        ok := PutCheck(16);
      } else if ok && first && p.endpoint.Endpoint6? {
        ok := PutCheck(28);
      }
      if ok && first && p.hasKeepalive {
        ok := PutCheck(2);
      }
      if ok && HasFlags(p, first) {
        ok := PutCheck(4);
      }
      if !ok {
        len := start;
      }
    }

    /** One allowed IP, all of it or nothing. */
    method PutIp(ip: Ip) returns (ok: bool)
      modifies this
      ensures ok <==> old(len) + IpSize(ip) <= bufLen
      ensures len == if ok then old(len) + IpSize(ip) else old(len)
    {
      AttrSizes();
      hide AttrSize;
      var start := len;
      ok := NestStartCheck();
      if ok {
        ok := PutCheck(2);
      }
      if ok && ip.addrLen > 0 {
        ok := PutCheck(ip.addrLen);
      }
      if ok {
        ok := PutCheck(1);
      }
      if ok && ip.hasFlags {
        ok := PutCheck(4);
      }
      if !ok {
        len := start;
      }
    }
  }

  // ---------------------------------------------------------------- progress

  ghost function Work(peers: seq<Peer>, p: nat): nat
    requires p <= |peers|
    decreases |peers| - p
  {
    if p == |peers| then 0 else |peers[p].ips| + 2 + Work(peers, p + 1)
  }

  /** What is left to send. */
  ghost function Left(peers: seq<Peer>, p: nat, a: Option<nat>): nat
    requires p <= |peers| && (a.Some? ==> p < |peers| && a.value <= |peers[p].ips|)
  {
    if a.Some? then |peers[p].ips| - a.value + 1 + Work(peers, p + 1) else Work(peers, p)
  }

  /** A message of its own has room for the next thing to send. */
  ghost predicate Fits(dev: Dev, bufLen: nat, p: nat, a: Option<nat>)
    requires p < |dev.peers| && (a.Some? ==> a.value < |dev.peers[p].ips|)
  {
    var header := dev.base + ATTR_HDRLEN + HeaderSize(dev.peers[p], a.None?);
    if a.None? then header <= bufLen else header + ATTR_HDRLEN + IpSize(dev.peers[p].ips[a.value]) <= bufLen
  }

  /** The sender's place: before a peer, or before an allowed IP of one. */
  ghost predicate Place(peers: seq<Peer>, p: nat, a: Option<nat>) {
    p <= |peers| && (a.Some? ==> p < |peers| && a.value < |peers[p].ips|)
  }

  /** The allowed IPs from k on that fit behind len bytes: where they end, and how long the message is then. */
  function IpsEnd(ips: seq<Ip>, bufLen: nat, len: nat, k: nat): (r: (nat, nat))
    requires k <= |ips|
    ensures k <= r.0 <= |ips| && (r.0 == k <==> k == |ips| || len + IpSize(ips[k]) > bufLen)
    decreases |ips| - k
  {
    if k < |ips| && len + IpSize(ips[k]) <= bufLen then IpsEnd(ips, bufLen, len + IpSize(ips[k]), k + 1) else (k, len)
  }

  /** The place a message stops at that has len bytes and goes on from (p, a). */
  function MessageEnd(peers: seq<Peer>, bufLen: nat, len: nat, p: nat, a: Option<nat>): (r: (nat, Option<nat>))
    requires Place(peers, p, a)
    ensures Place(peers, r.0, r.1)
    decreases |peers| - p
  {
    if p == |peers| || len + HeaderSize(peers[p], a.None?) > bufLen then (p, a)
    else
      var ips, len, k := peers[p].ips, len + HeaderSize(peers[p], a.None?), if a.Some? then a.value else 0;
      if ips == [] then MessageEnd(peers, bufLen, len, p + 1, None)
      else if len + ATTR_HDRLEN > bufLen then (p, Some(k))
      else
        var e := IpsEnd(ips, bufLen, len + ATTR_HDRLEN, k);
        if e.0 < |ips| then (p, Some(e.0)) else MessageEnd(peers, bufLen, e.1, p + 1, None)
  }

  lemma LeftMoves(peers: seq<Peer>, p: nat, a: Option<nat>)
    requires p < |peers| && Place(peers, p, a)
    ensures Left(peers, p + 1, None) < Left(peers, p, a)
    ensures forall k :: 0 <= k < |peers[p].ips| && (a.Some? ==> k > a.value) ==> Left(peers, p, Some(k)) < Left(peers, p, a)
  {
  }

  lemma {:induction false} EndNotBack(peers: seq<Peer>, bufLen: nat, len: nat, p: nat, a: Option<nat>)
    requires Place(peers, p, a)
    ensures var e := MessageEnd(peers, bufLen, len, p, a); Left(peers, e.0, e.1) <= Left(peers, p, a)
    decreases |peers| - p
  {
    hide Left, HeaderSize;
    if p < |peers| && len + HeaderSize(peers[p], a.None?) <= bufLen {
      LeftMoves(peers, p, a);
      var ips, len1, k := peers[p].ips, len + HeaderSize(peers[p], a.None?), if a.Some? then a.value else 0;
      if ips == [] {
        EndNotBack(peers, bufLen, len1, p + 1, None);
      } else if len1 + ATTR_HDRLEN <= bufLen {
        var e := IpsEnd(ips, bufLen, len1 + ATTR_HDRLEN, k);
        if e.0 == |ips| { EndNotBack(peers, bufLen, e.1, p + 1, None); }
      }
    }
  }

  /** A message of its own moves on exactly when it has room for the next thing; otherwise every further one is the same. */
  lemma EndMoves(dev: Dev, bufLen: nat, p: nat, a: Option<nat>)
    requires p < |dev.peers| && Place(dev.peers, p, a)
    ensures var e := MessageEnd(dev.peers, bufLen, dev.base + ATTR_HDRLEN, p, a);
            if Fits(dev, bufLen, p, a) then Left(dev.peers, e.0, e.1) < Left(dev.peers, p, a) else e == (p, a)
  {
    hide Left, HeaderSize;
    var len := dev.base + ATTR_HDRLEN + HeaderSize(dev.peers[p], a.None?);
    if len <= bufLen {
      LeftMoves(dev.peers, p, a);
      var ips, k := dev.peers[p].ips, if a.Some? then a.value else 0;
      if ips == [] {
        EndNotBack(dev.peers, bufLen, len, p + 1, None);
      } else if len + ATTR_HDRLEN <= bufLen {
        var e := IpsEnd(ips, bufLen, len + ATTR_HDRLEN, k);
        if e.0 == |ips| { EndNotBack(dev.peers, bufLen, e.1, p + 1, None); }
      }
    }
  }

  /** Wherever a message stops, from (p, a) on, a message of its own has room for what comes next. */
  ghost predicate Ends(dev: Dev, bufLen: nat, p: nat, a: Option<nat>)
    requires Place(dev.peers, p, a)
    decreases Left(dev.peers, p, a)
  {
    p < |dev.peers| ==>
      && Fits(dev, bufLen, p, a)
      && (EndMoves(dev, bufLen, p, a);
          var e := MessageEnd(dev.peers, bufLen, dev.base + ATTR_HDRLEN, p, a);
          Ends(dev, bufLen, e.0, e.1))
  }

  /** The first message has the device's own attributes too. */
  ghost predicate Completes(dev: Dev, bufLen: nat) {
    var e := MessageEnd(dev.peers, bufLen, dev.base + dev.attrs + ATTR_HDRLEN, 0, None);
    Ends(dev, bufLen, e.0, e.1)
  }

  /** A peer whose own attributes are more than a message holds: nothing of it is ever sent. */
  lemma StuckSender()
    ensures var peer := Peer(7, false, true, true, Endpoint6, true, []);
            var dev := Dev(40, 0, [peer]);
            dev.base + dev.attrs + ATTR_HDRLEN <= 160 && HeaderSize(peer, true) == 124 && !Completes(dev, 160) && Completes(dev, 168)
  {
    var peer := Peer(7, false, true, true, Endpoint6, true, []);
    var dev := Dev(40, 0, [peer]);
    assert HeaderSize(peer, true) == 124;
    assert MessageEnd(dev.peers, 160, 44, 0, None) == (0, None);
    assert !Fits(dev, 160, 0, None);
    assert MessageEnd(dev.peers, 168, 168, 1, None) == (1, None);
    assert MessageEnd(dev.peers, 168, 44, 0, None) == (1, None);
  }

  /** Whatever comes next fits in a message of its own, wherever the messages stop. */
  ghost predicate Enough(dev: Dev, bufLen: nat) {
    forall p: nat, a: Option<nat> {:trigger Place(dev.peers, p, a)} :: p < |dev.peers| && Place(dev.peers, p, a) ==> Fits(dev, bufLen, p, a)
  }

  lemma {:induction false} EnoughEnds(dev: Dev, bufLen: nat, p: nat, a: Option<nat>)
    requires Enough(dev, bufLen) && Place(dev.peers, p, a)
    ensures Ends(dev, bufLen, p, a)
    decreases Left(dev.peers, p, a)
  {
    hide Left, Fits, MessageEnd;
    if p < |dev.peers| {
      EndMoves(dev, bufLen, p, a);
      var e := MessageEnd(dev.peers, bufLen, dev.base + ATTR_HDRLEN, p, a);
      EnoughEnds(dev, bufLen, e.0, e.1);
    }
  }

  /** A message takes an interface name of up to 16 bytes, and the buffer is at least a page of 4096. */
  lemma PageIsEnough(dev: Dev, bufLen: nat)
    requires dev.base <= 16 + 4 + AttrSize(16) && bufLen >= 4096
    requires forall p, k :: 0 <= p < |dev.peers| && 0 <= k < |dev.peers[p].ips| ==> dev.peers[p].ips[k].addrLen <= 16
    ensures Completes(dev, bufLen)
  {
    forall p: nat, a: Option<nat> | p < |dev.peers| && Place(dev.peers, p, a) ensures Fits(dev, bufLen, p, a) {
      assert HeaderSize(dev.peers[p], a.None?) <= 124;
      if a.Some? { IpSizeBound(dev.peers[p].ips[a.value]); }
    }
    var e := MessageEnd(dev.peers, bufLen, dev.base + dev.attrs + ATTR_HDRLEN, 0, None);
    EnoughEnds(dev, bufLen, e.0, e.1);
  }

  lemma IpSizeBound(ip: Ip)
    requires ip.addrLen <= 16
    ensures IpSize(ip) <= 48
  {
  }

  // ---------------------------------------------------------------- filling messages

  datatype Outcome = HeaderTooBig | IpsTooBig(frag: Frag, next: nat) | PeerDone(frag: Frag)

  /** A fragment that goes on with a peer brings at least one allowed IP along. */
  ghost predicate Carries(f: Frag) { !f.header ==> f.ips != [] }

  ghost predicate AllCarry(fs: seq<Frag>) { forall f :: f in fs ==> Carries(f) }

  /** One peer of a message, from allowed IP a on: as much of it as fits. */
  method FillPeer(msg: Message, peers: seq<Peer>, p: nat, a: Option<nat>, ghost sent: seq<Frag>) returns (r: Outcome)
    requires NeighboursDiffer(peers) && p < |peers| && Place(peers, p, a) && Sent(peers, sent, p, a) && msg.len <= msg.bufLen
    modifies msg
    ensures msg.len <= msg.bufLen
    ensures r == HeaderTooBig ==> MessageEnd(peers, msg.bufLen, old(msg.len), p, a) == (p, a) && msg.len == old(msg.len)
    ensures r == HeaderTooBig ==> msg.len + HeaderSize(peers[p], a.None?) > msg.bufLen
    ensures r.IpsTooBig? ==> MessageEnd(peers, msg.bufLen, old(msg.len), p, a) == (p, Some(r.next))
    ensures r.IpsTooBig? ==> Place(peers, p, Some(r.next)) && Sent(peers, sent + [r.frag], p, Some(r.next))
    ensures r.IpsTooBig? && Some(r.next) != a ==> Carries(r.frag)
    ensures r.IpsTooBig? ==> msg.len + ATTR_HDRLEN + IpSize(peers[p].ips[r.next]) > msg.bufLen
    ensures r.PeerDone? ==> MessageEnd(peers, msg.bufLen, old(msg.len), p, a) == MessageEnd(peers, msg.bufLen, msg.len, p + 1, None)
    ensures r.PeerDone? ==> Sent(peers, sent + [r.frag], p + 1, None) && Carries(r.frag)
  {
    hide Sent, HeaderSize, IpSize, NeighboursDiffer;
    var peer := peers[p];
    var ok := msg.PutHeader(peer, a.None?);
    if !ok {
      return HeaderTooBig;
    }
    var frag := Begin(peer, a.None?);
    var k := 0;
    if a.None? {
      SentHeader(peers, sent, p);
    } else {
      k := a.value;
      SentContinue(peers, sent, p, k);
    }
    if peer.ips != [] {
      ghost var start, len0 := k, msg.len;
      ok := msg.NestStartCheck();
      while ok && k < |peer.ips|
        invariant start <= k <= |peer.ips| && msg.len <= msg.bufLen
        invariant Sent(peers, sent + [frag], p, Some(k)) && frag.header == a.None? && (k > start ==> frag.ips != [])
        invariant !ok ==> k == start && msg.len == len0 && len0 + ATTR_HDRLEN > msg.bufLen
        invariant ok ==> len0 + ATTR_HDRLEN <= msg.bufLen
        invariant ok ==> IpsEnd(peer.ips, msg.bufLen, len0 + ATTR_HDRLEN, start) == IpsEnd(peer.ips, msg.bufLen, msg.len, k)
        decreases |peer.ips| - k
      {
        ok := msg.PutIp(peer.ips[k]);
        if !ok {
          ok := true;
          break;
        }
        SentIp(peers, sent, frag, p, k);
        frag := frag.(ips := frag.ips + [peer.ips[k]]);
        k := k + 1;
      }
      if k < |peer.ips| {
        return IpsTooBig(frag, k);
      }
    }
    SentPeer(peers, sent + [frag], p);
    r := PeerDone(frag);
  }

  /** A message that stops short of the end has no room for what comes next. */
  ghost predicate Filled(peers: seq<Peer>, bufLen: nat, len: nat, p: nat, a: Option<nat>)
    requires Place(peers, p, a)
  {
    p < |peers| ==>
      || len + HeaderSize(peers[p], a.None?) > bufLen
      || (a.Some? && len + ATTR_HDRLEN + IpSize(peers[p].ips[a.value]) > bufLen)
  }

  /**
   One message.  It is never longer than the buffer, and as full as can be; it carries on exactly where the
   last one stopped; and if it gets anywhere, no fragment in it goes on with a peer for nothing.
   */
  method FillMessage(dev: Dev, bufLen: nat, p0: nat, a0: Option<nat>, first: bool, ghost all: seq<Frag>)
    returns (len: nat, frags: seq<Frag>, p: nat, a: Option<nat>)
    requires NeighboursDiffer(dev.peers) && Place(dev.peers, p0, a0) && Sent(dev.peers, all, p0, a0)
    requires dev.base + dev.attrs + ATTR_HDRLEN <= bufLen
    ensures len <= bufLen && Place(dev.peers, p, a) && Sent(dev.peers, all + frags, p, a)
    ensures Filled(dev.peers, bufLen, len, p, a)
    ensures (p, a) == MessageEnd(dev.peers, bufLen, dev.base + (if first then dev.attrs else 0) + ATTR_HDRLEN, p0, a0)
    ensures (p, a) != (p0, a0) || a0.None? ==> AllCarry(frags)
  {
    hide Sent, HeaderSize, IpSize, NeighboursDiffer, MessageEnd;
    var msg := new Message(bufLen, if first then dev.base + dev.attrs else dev.base);
    frags, p, a := [], p0, a0;
    assert all + frags == all;
    EndAtEnd(dev.peers, bufLen, msg.len + ATTR_HDRLEN);
    if dev.peers == [] {
      return msg.len, frags, p, a;
    }
    msg.len := msg.len + ATTR_HDRLEN;
    ghost var start := msg.len;
    while p < |dev.peers|
      invariant Place(dev.peers, p, a) && Sent(dev.peers, all + frags, p, a) && msg.bufLen == bufLen && msg.len <= bufLen && fresh(msg)
      invariant p0 <= p && (p == p0 ==> a == a0) && (p > p0 ==> a == None)
      invariant MessageEnd(dev.peers, bufLen, start, p0, a0) == MessageEnd(dev.peers, bufLen, msg.len, p, a)
      invariant AllCarry(frags)
      decreases |dev.peers| - p
    {
      var r := FillPeer(msg, dev.peers, p, a, all + frags);
      match r {
        case HeaderTooBig =>
          return msg.len, frags, p, a;
        case IpsTooBig(frag, k) =>
          assert all + (frags + [frag]) == all + frags + [frag];
          return msg.len, frags + [frag], p, Some(k);
        case PeerDone(frag) =>
          assert all + (frags + [frag]) == all + frags + [frag];
          frags := frags + [frag];
          p, a := p + 1, None;
      }
    }
    len := msg.len;
    EndAtEnd(dev.peers, bufLen, len);
  }

  lemma EndAtEnd(peers: seq<Peer>, bufLen: nat, len: nat)
    ensures MessageEnd(peers, bufLen, len, |peers|, None) == (|peers|, None)
  {
  }

  /** What has been sent can be walked over and joined, since no fragment goes on with a peer for nothing. */
  lemma SentIsSmooth(peers: seq<Peer>, all: seq<Frag>, p: nat, a: Option<nat>)
    requires Sent(peers, all, p, a) && AllCarry(all)
    ensures WalkOver(all).Walk? && WalkOver(all).peers == Done(peers, p, a)
  {
    hide Coalesce, WalkOver, Done, LastIs;
    forall i | 0 < i < |all| && all[i - 1].key == all[i].key ensures all[i].ips != [] {
      assert all[i] in all && Carries(all[i]);
    }
    ContinuedIsSmooth(all);
  }

  /**
   The whole configuration.  Messages are sent until the last peer is through; one that gets nowhere would be
   followed by the same one for ever, and is where this method gives up.  That happens exactly when some message
   stops at something that has no room in a message of its own.  Otherwise the messages all fit, the walk over
   their fragments gets through, and what it joins are the peers of the configuration: each once, in order,
   with all its allowed IPs.
   */
  method KernelSetDevice(dev: Dev, bufLen: nat) returns (ended: bool, lens: seq<nat>, all: seq<Frag>)
    requires NeighboursDiffer(dev.peers) && dev.base + dev.attrs + ATTR_HDRLEN <= bufLen
    ensures ended <==> Completes(dev, bufLen)
    ensures forall i :: 0 <= i < |lens| ==> lens[i] <= bufLen
    ensures ended ==> WalkOver(all).Walk? && WalkOver(all).peers == seq(|dev.peers|, i requires 0 <= i < |dev.peers| => Whole(dev.peers[i]))
    ensures ended ==> HeadersOnce(all) && AllCarry(all)
    ensures 1 <= |lens| <= 2 + Work(dev.peers, 0)
  {
    hide Sent, HeaderSize, IpSize, NeighboursDiffer, Fits, Left, MessageEnd;
    all := [];
    SentNothing(dev.peers);
    var len: nat, frags: seq<Frag>, p: nat, a: Option<nat> := FillMessage(dev, bufLen, 0, None, true, all);
    assert [] + frags == frags;
    lens, all := [len], frags;
    LeftAtStart(dev.peers);
    EndNotBack(dev.peers, bufLen, dev.base + dev.attrs + ATTR_HDRLEN, 0, None);
    while p < |dev.peers|
      invariant Place(dev.peers, p, a) && Sent(dev.peers, all, p, a) && AllCarry(all)
      invariant Ends(dev, bufLen, p, a) <==> Completes(dev, bufLen)
      invariant forall i :: 0 <= i < |lens| ==> lens[i] <= bufLen
      invariant 1 <= |lens| && |lens| + Left(dev.peers, p, a) <= 1 + Work(dev.peers, 0)
      decreases Left(dev.peers, p, a)
    {
      var p0, a0 := p, a;
      EndMoves(dev, bufLen, p, a);
      len, frags, p, a := FillMessage(dev, bufLen, p, a, false, all);
      lens := lens + [len];
      if p == p0 && a == a0 {
        return false, lens, all + frags;
      }
      all := all + frags;
    }
    ended := true;
    SentAll(dev.peers, all, p, a);
    SentIsSmooth(dev.peers, all, p, a);
  }

  lemma LeftAtStart(peers: seq<Peer>)
    ensures Left(peers, 0, None) == Work(peers, 0)
  {
  }

  lemma SentNothing(peers: seq<Peer>)
    ensures Sent(peers, [], 0, None)
  {
  }

  lemma SentAll(peers: seq<Peer>, all: seq<Frag>, p: nat, a: Option<nat>)
    requires p == |peers| && Sent(peers, all, p, a)
    ensures Done(peers, p, a) == seq(|peers|, i requires 0 <= i < |peers| => Whole(peers[i])) && HeadersOnce(all)
  {
  }

  /** Sent in fragments, parsed and joined in place: the list holds the peers of the configuration, exactly when the sender completes. */
  method SendAndReceive(dev: Dev, bufLen: nat) returns (ended: bool, ok: bool, first: PeerNode?, ghost l: Lists)
    requires NeighboursDiffer(dev.peers) && dev.base + dev.attrs + ATTR_HDRLEN <= bufLen
    ensures ended <==> Completes(dev, bufLen)
    ensures ended ==> ok && Linked(l) && first == FirstOf(l.peers) && Read(l) == seq(|dev.peers|, i requires 0 <= i < |dev.peers| => Whole(dev.peers[i]))
  {
    hide NeighboursDiffer, Completes, WalkOver, Linked, Read, Smooth, HeadersOnce, AllCarry;
    var lens, all;
    ended, lens, all := KernelSetDevice(dev, bufLen);
    if !ended {
      return false, false, null, Lists([], [], {});
    }
    WalkExactly(all);
    ok, first, l := Receive(all);
  }
}
