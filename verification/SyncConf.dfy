/**
 Synchronising a running interface with a configuration file: the plan that is sent to the device
 removes and updates single peers, so that sessions of peers that stay are kept.
 */
module SyncConf {
  import opened Wrappers

  type Key = nat
  type Prefix = nat

  /** A line of allowed IPs: added, or taken away. */
  datatype IpOp = IpOp(prefix: Prefix, remove: bool)

  /** A peer of a configuration: what is set is set, the rest is left alone. */
  datatype PeerConf = PeerConf(key: Key, removeMe: bool, replaceIps: bool, psk: Option<nat>, keepalive: Option<nat>, ips: seq<IpOp>)

  /** A peer as the running device reports it; a preshared key of zero is reported as none. */
  datatype RuntimePeer = RuntimePeer(key: Key, hasPsk: bool, keepalive: nat)

  /** What is sent to the device. */
  datatype Plan = Plan(replacePeers: bool, peers: seq<PeerConf>)

  // ---------------------------------------------------------------- the device

  datatype PeerState = PeerState(psk: nat, keepalive: nat)

  datatype Device = Device(own: Key, peers: map<Key, PeerState>, routes: map<Prefix, Key>)

  const NEW_PEER := PeerState(0, 0)

  function WithoutRoutes(routes: map<Prefix, Key>, key: Key): map<Prefix, Key> {
    map p | p in routes && routes[p] != key :: routes[p]
  }

  function RemovePeer(d: Device, key: Key): Device {
    Device(d.own, d.peers - {key}, WithoutRoutes(d.routes, key))
  }

  function ApplyIp(routes: map<Prefix, Key>, key: Key, op: IpOp): map<Prefix, Key> {
    if !op.remove then routes[op.prefix := key]
    else if op.prefix in routes && routes[op.prefix] == key then routes - {op.prefix}
    else routes
  }

  function ApplyIps(routes: map<Prefix, Key>, key: Key, ips: seq<IpOp>): map<Prefix, Key>
    decreases |ips|
  {
    if ips == [] then routes else ApplyIps(ApplyIp(routes, key, ips[0]), key, ips[1..])
  }

  function Updated(st: PeerState, p: PeerConf): PeerState {
    PeerState(if p.psk.Some? then p.psk.value else st.psk, if p.keepalive.Some? then p.keepalive.value else st.keepalive)
  }

  /** One peer's lines.  A peer with the device's own key is a placeholder that nothing is done for. */
  function ApplyPeer(d: Device, p: PeerConf): Device {
    if p.key == d.own then d
    else if p.removeMe then RemovePeer(d, p.key)
    else
      var st := if p.key in d.peers then d.peers[p.key] else NEW_PEER;
      var routes := if p.replaceIps then WithoutRoutes(d.routes, p.key) else d.routes;
      Device(d.own, d.peers[p.key := Updated(st, p)], ApplyIps(routes, p.key, p.ips))
  }

  function ApplyPeers(d: Device, ps: seq<PeerConf>): Device
    decreases |ps|
  {
    if ps == [] then d else ApplyPeers(ApplyPeer(d, ps[0]), ps[1..])
  }

  function Apply(d: Device, plan: Plan): Device {
    ApplyPeers(if plan.replacePeers then Device(d.own, map[], map[]) else d, plan.peers)
  }

  /** Every route belongs to a peer, and the device is not its own peer. */
  ghost predicate DeviceOk(d: Device) {
    && d.own !in d.peers
    && forall p {:trigger d.routes[p]} :: p in d.routes ==> d.routes[p] in d.peers
  }

  // ---------------------------------------------------------------- a full replacement and its short cut

  ghost predicate Distinct(ps: seq<PeerConf>) {
    forall i, j {:trigger ps[i], ps[j]} :: 0 <= i < j < |ps| ==> ps[i].key != ps[j].key
  }

  ghost predicate HasKey(ps: seq<PeerConf>, k: Key) {
    exists i :: 0 <= i < |ps| && ps[i].key == k
  }

  /** Peers as a configuration file gives them: none to be removed, each replacing its allowed IPs. */
  ghost predicate FromFile(ps: seq<PeerConf>) {
    forall i {:trigger ps[i]} :: 0 <= i < |ps| ==> !ps[i].removeMe && ps[i].replaceIps
  }

  /**
   The device being synchronised (s) and the device being rebuilt (t), with ps still to come: they agree
   on what has been done, and s has kept only what is still to come.
   */
  ghost predicate Agree(s: Device, t: Device, ps: seq<PeerConf>) {
    && s.own == t.own && s.own !in s.peers
    && (forall k {:trigger s.peers[k]} :: k in s.peers ==> k in t.peers || HasKey(ps, k))
    && (forall k {:trigger t.peers[k]} :: k in t.peers ==> k in s.peers && s.peers[k] == t.peers[k] && !HasKey(ps, k))
    && AgreeRoutes(s.routes, t.routes, t.peers.Keys, s.own, ps)
  }

  ghost predicate AgreeRoutes(s: map<Prefix, Key>, t: map<Prefix, Key>, done: set<Key>, own: Key, ps: seq<PeerConf>) {
    && (forall p {:trigger s[p]} :: p in s ==> s[p] != own)
    && (forall p {:trigger t[p]} :: p in t ==> p in s && s[p] == t[p] && t[p] in done)
    && (forall p {:trigger s[p]} :: p in s && p !in t ==> HasKey(ps, s[p]))
  }

  /** What the file says of a peer the device has is what it would say of a fresh one. */
  ghost predicate Resets(s: Device, p: PeerConf, q: PeerConf) {
    && q == p.(psk := q.psk, keepalive := q.keepalive)
    && Updated(if p.key in s.peers then s.peers[p.key] else NEW_PEER, q) == Updated(NEW_PEER, p)
  }

  lemma HasKeyTail(ps: seq<PeerConf>, k: Key)
    requires ps != []
    ensures HasKey(ps, k) <==> ps[0].key == k || HasKey(ps[1..], k)
  {
    if HasKey(ps, k) {
      var i :| 0 <= i < |ps| && ps[i].key == k;
      assert i > 0 ==> ps[1..][i - 1].key == k;
    }
    if HasKey(ps[1..], k) {
      var i :| 0 <= i < |ps| - 1 && ps[1..][i].key == k;
      assert ps[i + 1].key == k;
    }
    if ps[0].key == k {
      assert HasKey(ps, k);
    }
  }

  lemma DistinctTail(ps: seq<PeerConf>)
    requires ps != [] && Distinct(ps)
    ensures Distinct(ps[1..]) && !HasKey(ps[1..], ps[0].key)
  {
    assert forall i {:trigger ps[1..][i]} :: 0 <= i < |ps| - 1 ==> ps[1..][i] == ps[i + 1];
  }

  /** The allowed IPs of one peer, on both devices. */
  lemma {:induction false} IpsAgree(s: map<Prefix, Key>, t: map<Prefix, Key>, done: set<Key>, own: Key, key: Key, ips: seq<IpOp>, rest: seq<PeerConf>)
    requires AgreeRoutes(s, t, done, own, rest) && key in done && key != own && !HasKey(rest, key)
    ensures AgreeRoutes(ApplyIps(s, key, ips), ApplyIps(t, key, ips), done, own, rest)
    decreases |ips|
  {
    if ips != [] {
      IpsAgree(ApplyIp(s, key, ips[0]), ApplyIp(t, key, ips[0]), done, own, key, ips[1..], rest);
    }
  }

  /** Clearing the peer's routes leaves nothing of the old ones. */
  lemma ClearedAgree(s: map<Prefix, Key>, t: map<Prefix, Key>, done: set<Key>, own: Key, ps: seq<PeerConf>)
    requires ps != [] && Distinct(ps) && AgreeRoutes(s, t, done, own, ps) && ps[0].key !in done
    ensures AgreeRoutes(WithoutRoutes(s, ps[0].key), WithoutRoutes(t, ps[0].key), done + {ps[0].key}, own, ps[1..])
  {
    var k := ps[0].key;
    forall p | p in s && s[p] != k && p !in t ensures HasKey(ps[1..], s[p]) {
      HasKeyTail(ps, s[p]);
    }
  }

  /** The placeholder owns no route. */
  lemma OwnAgree(s: map<Prefix, Key>, t: map<Prefix, Key>, done: set<Key>, ps: seq<PeerConf>)
    requires ps != [] && AgreeRoutes(s, t, done, ps[0].key, ps)
    ensures AgreeRoutes(s, t, done, ps[0].key, ps[1..])
  {
    forall p | p in s && p !in t ensures HasKey(ps[1..], s[p]) {
      HasKeyTail(ps, s[p]);
    }
  }

  lemma PeerAgrees(s: Device, t: Device, ps: seq<PeerConf>, q: PeerConf)
    requires ps != [] && Distinct(ps) && FromFile(ps) && Agree(s, t, ps) && Resets(s, ps[0], q)
    ensures Agree(ApplyPeer(s, q), ApplyPeer(t, ps[0]), ps[1..])
  {
    hide AgreeRoutes, WithoutRoutes, ApplyIps, Updated, HasKey;
    var p := ps[0];
    DistinctTail(ps);
    assert HasKey(ps, p.key) by { HasKeyTail(ps, p.key); }
    forall k ensures HasKey(ps, k) <==> p.key == k || HasKey(ps[1..], k) {
      HasKeyTail(ps, k);
    }
    if p.key == s.own {
      OwnAgree(s.routes, t.routes, t.peers.Keys, ps);
    } else {
      ClearedAgree(s.routes, t.routes, t.peers.Keys, s.own, ps);
      var done := t.peers.Keys + {p.key};
      assert ApplyPeer(t, p).peers.Keys == done;
      IpsAgree(WithoutRoutes(s.routes, p.key), WithoutRoutes(t.routes, p.key), done, s.own, p.key, p.ips, ps[1..]);
    }
  }

  ghost predicate AllReset(s: Device, ps: seq<PeerConf>, qs: seq<PeerConf>) {
    |qs| == |ps| && forall i {:trigger qs[i]} :: 0 <= i < |qs| ==> Resets(s, ps[i], qs[i])
  }

  /** Peer by peer, to the end: the two devices are the same. */
  lemma {:induction false} AllAgree(s: Device, t: Device, ps: seq<PeerConf>, qs: seq<PeerConf>)
    requires Distinct(ps) && FromFile(ps) && Agree(s, t, ps) && AllReset(s, ps, qs)
    ensures ApplyPeers(s, qs) == ApplyPeers(t, ps)
    decreases |ps|
  {
    hide ApplyPeer, Updated;
    if ps == [] {
      NothingLeft(s, t);
    } else {
      assert Resets(s, ps[0], qs[0]);
      PeerAgrees(s, t, ps, qs[0]);
      DistinctTail(ps);
      StillReset(s, ps, qs);
      assert forall i {:trigger ps[1..][i]} :: 0 <= i < |ps| - 1 ==> ps[1..][i] == ps[i + 1];
      AllAgree(ApplyPeer(s, qs[0]), ApplyPeer(t, ps[0]), ps[1..], qs[1..]);
    }
  }

  lemma NothingLeft(s: Device, t: Device)
    requires Agree(s, t, [])
    ensures s == t
  {
    assert s.peers == t.peers && s.routes == t.routes;
  }

  /** Handling one peer leaves the state of the others alone. */
  lemma StillReset(s: Device, ps: seq<PeerConf>, qs: seq<PeerConf>)
    requires ps != [] && Distinct(ps) && AllReset(s, ps, qs)
    ensures AllReset(ApplyPeer(s, qs[0]), ps[1..], qs[1..])
  {
    hide ApplyIps, Updated, WithoutRoutes;
    var s' := ApplyPeer(s, qs[0]);
    assert Resets(s, ps[0], qs[0]);
    forall i | 0 <= i < |ps| - 1 ensures Resets(s', ps[1..][i], qs[1..][i]) {
      assert Resets(s, ps[i + 1], qs[i + 1]) && ps[0].key != ps[i + 1].key;
    }
  }

  // ---------------------------------------------------------------- the removals

  ghost predicate Removals(rs: seq<PeerConf>) {
    forall i {:trigger rs[i]} :: 0 <= i < |rs| ==> rs[i].removeMe
  }

  /** A list of removals takes away exactly its peers, and their routes. */
  lemma {:induction false} AfterRemovals(d: Device, rs: seq<PeerConf>)
    requires Removals(rs) && DeviceOk(d)
    ensures var e := ApplyPeers(d, rs);
            && e.own == d.own && DeviceOk(e)
            && (forall k :: k in e.peers <==> k in d.peers && !HasKey(rs, k))
            && (forall k :: k in e.peers ==> e.peers[k] == d.peers[k])
    decreases |rs|
  {
    if rs == [] {
      assert forall k :: !HasKey(rs, k);
    } else {
      var d' := ApplyPeer(d, rs[0]);
      assert rs[0].removeMe && Removals(rs[1..]);
      AfterRemovals(d', rs[1..]);
      forall k ensures HasKey(rs, k) <==> rs[0].key == k || HasKey(rs[1..], k) {
        HasKeyTail(rs, k);
      }
    }
  }

  lemma {:induction false} ApplyAppend(d: Device, ps: seq<PeerConf>, qs: seq<PeerConf>)
    ensures ApplyPeers(d, ps + qs) == ApplyPeers(ApplyPeers(d, ps), qs)
    decreases |ps|
  {
    hide ApplyPeer;
    if ps == [] {
      assert ps + qs == qs;
    } else {
      ApplyAppend(ApplyPeer(d, ps[0]), ps[1..], qs);
      assert (ps + qs)[1..] == ps[1..] + qs;
    }
  }

  // ---------------------------------------------------------------- what a right plan is

  /** The file's peer, told to forget what the running peer has and the file does not mention. */
  function Adjust(p: PeerConf, r: RuntimePeer): PeerConf {
    p.(psk := if r.hasPsk && p.psk.None? then Some(0) else p.psk,
       keepalive := if r.keepalive != 0 && p.keepalive.None? then Some(0) else p.keepalive)
  }

  function AdjustBy(p: PeerConf, m: map<Key, RuntimePeer>): PeerConf {
    if p.key in m then Adjust(p, m[p.key]) else p
  }

  function AdjustAll(file: seq<PeerConf>, m: map<Key, RuntimePeer>): seq<PeerConf> {
    seq(|file|, i requires 0 <= i < |file| => AdjustBy(file[i], m))
  }

  /**
   The running peers by key are what the device has, but for one that has the device's own key: it is
   reported before the private key is set, and gone afterwards.
   */
  ghost predicate Reports(m: map<Key, RuntimePeer>, d: Device) {
    && (forall k {:trigger m[k]} :: k in m ==> k in d.peers || k == d.own)
    && forall k {:trigger d.peers[k]} :: k in d.peers ==>
         k in m && m[k].keepalive == d.peers[k].keepalive && (m[k].hasPsk <==> d.peers[k].psk != 0)
  }

  /** The plan: the peers the file lacks are removed, the others adjusted. */
  ghost predicate PlanFor(peers: seq<PeerConf>, file: seq<PeerConf>, m: map<Key, RuntimePeer>) {
    exists n :: 0 <= n <= |peers| && PlanAt(peers, n, file, m)
  }

  ghost predicate PlanAt(peers: seq<PeerConf>, n: nat, file: seq<PeerConf>, m: map<Key, RuntimePeer>) {
    && n + |file| == |peers|
    && peers[n..] == AdjustAll(file, m)
    && Removals(peers[..n]) && Distinct(peers[..n])
    && (forall k :: HasKey(peers[..n], k) <==> k in m && !HasKey(file, k))
  }

  /** Synchronising gives the device a full replacement would give: the same peers, keys, keepalives and routes. */
  lemma SyncIsReplace(d: Device, file: seq<PeerConf>, m: map<Key, RuntimePeer>, peers: seq<PeerConf>)
    requires DeviceOk(d) && Reports(m, d) && Distinct(file) && FromFile(file) && PlanFor(peers, file, m)
    ensures Apply(d, Plan(false, peers)) == Apply(d, Plan(true, file))
  {
    hide ApplyPeers, Resets;
    var n :| 0 <= n <= |peers| && PlanAt(peers, n, file, m);
    var rs, qs := peers[..n], peers[n..];
    assert peers == rs + qs;
    ApplyAppend(d, rs, qs);
    AfterRemovals(d, rs);
    var s, t := ApplyPeers(d, rs), Device(d.own, map[], map[]);
    assert forall k :: k in s.peers ==> HasKey(file, k);
    PlanResets(s, d, file, m);
    hide AdjustAll;
    assert Agree(s, t, file);
    AllAgree(s, t, file, qs);
  }

  /** The adjusted peers set back what the file leaves unset. */
  lemma PlanResets(s: Device, d: Device, file: seq<PeerConf>, m: map<Key, RuntimePeer>)
    requires Reports(m, d) && forall k {:trigger s.peers[k]} :: k in s.peers ==> k in d.peers && s.peers[k] == d.peers[k]
    requires forall k :: k in d.peers && HasKey(file, k) ==> k in s.peers
    ensures AllReset(s, file, AdjustAll(file, m))
  {
    hide Resets, Reports;
    forall i | 0 <= i < |file| ensures Resets(s, file[i], AdjustAll(file, m)[i]) {
      assert HasKey(file, file[i].key);
      AdjustResets(s, d, file, i, m);
    }
  }

  lemma AdjustResets(s: Device, d: Device, file: seq<PeerConf>, i: nat, m: map<Key, RuntimePeer>)
    requires i < |file| && Reports(m, d)
    requires forall k {:trigger s.peers[k]} :: k in s.peers ==> k in d.peers && s.peers[k] == d.peers[k]
    requires file[i].key in d.peers ==> file[i].key in s.peers
    ensures Resets(s, file[i], AdjustBy(file[i], m))
  {
  }

  // ---------------------------------------------------------------- making the plan

  /** An entry of the list that is sorted: a peer of the file or of the running device. */
  datatype Origin = Origin(key: Key, fromFile: bool, index: nat)

  /** By key, and the running peer before the file's. */
  predicate Le(a: Origin, b: Origin) {
    a.key < b.key || (a.key == b.key && (!a.fromFile || b.fromFile))
  }

  ghost predicate Sorted(s: seq<Origin>) {
    forall i, j {:trigger s[i], s[j]} :: 0 <= i < j < |s| ==> Le(s[i], s[j])
  }

  /** Sorting, by whatever algorithm. */
  method QSort(a: seq<Origin>) returns (s: seq<Origin>)
    ensures Sorted(s) && multiset(s) == multiset(a)
  {
    hide Sorted;
    s := [];
    assert Sorted(s) by { SortedNone(); }
    var i := 0;
    while i < |a|
      invariant 0 <= i <= |a| && Sorted(s) && multiset(s) == multiset(a[..i])
    {
      var j := |s|;
      while j > 0 && !Le(s[j - 1], a[i])
        invariant 0 <= j <= |s|
        invariant forall k {:trigger s[k]} :: j <= k < |s| ==> Le(a[i], s[k])
      {
        j := j - 1;
      }
      assert a[..i + 1] == a[..i] + [a[i]];
      SortedInsert(s, j, a[i]);
      s := s[..j] + [a[i]] + s[j..];
      i := i + 1;
    }
    assert a[..i] == a;
  }

  lemma SortedNone()
    ensures Sorted([])
  {
  }

  lemma SortedInsert(s: seq<Origin>, j: nat, x: Origin)
    requires Sorted(s) && j <= |s| && (j > 0 ==> Le(s[j - 1], x))
    requires forall k {:trigger s[k]} :: j <= k < |s| ==> Le(x, s[k])
    ensures Sorted(s[..j] + [x] + s[j..]) && multiset(s[..j] + [x] + s[j..]) == multiset(s) + multiset{x}
  {
    assert s == s[..j] + s[j..];
    var t := s[..j] + [x] + s[j..];
    forall a, b | 0 <= a < b < |t| ensures Le(t[a], t[b]) {
      if a < j && b == j {
        assert a < j - 1 ==> Le(s[a], s[j - 1]);
      }
    }
  }

  ghost predicate DistinctRuntime(runtime: seq<RuntimePeer>) {
    forall i, j {:trigger runtime[i], runtime[j]} :: 0 <= i < j < |runtime| ==> runtime[i].key != runtime[j].key
  }

  /** The running peers by key. */
  ghost predicate ByKey(m: map<Key, RuntimePeer>, runtime: seq<RuntimePeer>) {
    && (forall i {:trigger runtime[i]} :: 0 <= i < |runtime| ==> runtime[i].key in m && m[runtime[i].key] == runtime[i])
    && (forall k {:trigger m[k]} :: k in m ==> exists i :: 0 <= i < |runtime| && runtime[i].key == k)
  }

  /** The unsorted list: the file's peers, then the running ones. */
  function Entries(file: seq<PeerConf>, runtime: seq<RuntimePeer>): seq<Origin> {
    seq(|file|, i requires 0 <= i < |file| => Origin(file[i].key, true, i)) +
    seq(|runtime|, i requires 0 <= i < |runtime| => Origin(runtime[i].key, false, i))
  }

  ghost predicate IsEntry(o: Origin, file: seq<PeerConf>, runtime: seq<RuntimePeer>) {
    if o.fromFile then o.index < |file| && file[o.index].key == o.key
    else o.index < |runtime| && runtime[o.index].key == o.key
  }

  /** A sorted list of all entries: no entry is lost, none comes twice. */
  ghost predicate Listing(s: seq<Origin>, file: seq<PeerConf>, runtime: seq<RuntimePeer>) {
    && Sorted(s)
    && (forall a {:trigger s[a]} :: 0 <= a < |s| ==> IsEntry(s[a], file, runtime))
    && (forall o {:trigger IsEntry(o, file, runtime)} :: IsEntry(o, file, runtime) ==> o in s)
    && (forall a, b {:trigger s[a], s[b]} :: 0 <= a < b < |s| ==> s[a] != s[b])
  }

  lemma SortedEntries(s: seq<Origin>, file: seq<PeerConf>, runtime: seq<RuntimePeer>)
    requires Sorted(s) && multiset(s) == multiset(Entries(file, runtime))
    ensures Listing(s, file, runtime)
  {
    var es := Entries(file, runtime);
    forall a | 0 <= a < |s| ensures IsEntry(s[a], file, runtime) {
      assert s[a] in multiset(s);
      assert s[a] in es;
    }
    forall o | IsEntry(o, file, runtime) ensures o in s {
      assert es[if o.fromFile then o.index else |file| + o.index] == o;
      assert o in multiset(es);
    }
    assert forall a, b :: 0 <= a < b < |es| ==> es[a] != es[b];
    forall a, b | 0 <= a < b < |s| ensures s[a] != s[b] {
      if s[a] == s[b] {
        CountTwice(s, a, b);
        CountOnce(es, s[a]);
      }
    }
  }

  lemma CountTwice(s: seq<Origin>, a: nat, b: nat)
    requires a < b < |s| && s[a] == s[b]
    ensures multiset(s)[s[a]] >= 2
  {
    assert s == s[..a] + [s[a]] + s[a + 1..b] + [s[b]] + s[b + 1..];
  }

  lemma {:induction false} CountOnce(s: seq<Origin>, x: Origin)
    requires forall a, b :: 0 <= a < b < |s| ==> s[a] != s[b]
    ensures multiset(s)[x] <= 1
    decreases |s|
  {
    if s != [] {
      assert s == [s[0]] + s[1..];
      CountOnce(s[1..], x);
      if s[0] == x {
        assert x !in s[1..];
      }
    }
  }

  predicate FollowedByFile(s: seq<Origin>, i: nat)
    requires i < |s|
  {
    i + 1 < |s| && s[i + 1].fromFile && s[i + 1].key == s[i].key
  }

  lemma LeAt(s: seq<Origin>, a: nat, b: nat)
    requires Sorted(s) && a < b < |s|
    ensures Le(s[a], s[b])
  {
  }

  lemma EntriesDiffer(s: seq<Origin>, file: seq<PeerConf>, runtime: seq<RuntimePeer>, a: nat, b: nat)
    requires Listing(s, file, runtime) && DistinctRuntime(runtime) && a < b < |s| && !s[a].fromFile && !s[b].fromFile
    ensures s[a].key != s[b].key
  {
    hide Sorted;
    assert IsEntry(s[a], file, runtime) && IsEntry(s[b], file, runtime) && s[a] != s[b];
  }

  /** In the sorted list a running peer is followed by the file's peer of the same key, if the file has one. */
  lemma NextMatches(s: seq<Origin>, file: seq<PeerConf>, runtime: seq<RuntimePeer>, i: nat)
    requires Listing(s, file, runtime) && DistinctRuntime(runtime) && i < |s| && !s[i].fromFile
    ensures FollowedByFile(s, i) <==> HasKey(file, s[i].key)
  {
    var k := s[i].key;
    if HasKey(file, k) {
      var j :| 0 <= j < |file| && file[j].key == k;
      assert IsEntry(Origin(k, true, j), file, runtime);
      var b: nat :| b < |s| && s[b] == Origin(k, true, j);
      if b < i {
        LeAt(s, b, i);
      }
      LeAt(s, i, i + 1);
      if i + 1 < b {
        LeAt(s, i + 1, b);
      }
      assert IsEntry(s[i], file, runtime) && IsEntry(s[i + 1], file, runtime);
      assert s[i] != s[i + 1];
    }
    if FollowedByFile(s, i) {
      assert IsEntry(s[i + 1], file, runtime);
      assert HasKey(file, k);
    }
  }

  function Removal(key: Key): PeerConf { PeerConf(key, true, false, None, None, []) }

  /** The entries up to i, by key. */
  ghost predicate Scanned(m: map<Key, RuntimePeer>, s: seq<Origin>, i: nat, runtime: seq<RuntimePeer>)
    requires i <= |s|
  {
    && (forall a {:trigger s[a]} :: 0 <= a < i && !s[a].fromFile ==> s[a].index < |runtime| && s[a].key in m && m[s[a].key] == runtime[s[a].index])
    && (forall k {:trigger m[k]} :: k in m ==> exists a :: 0 <= a < i && !s[a].fromFile && s[a].key == k)
  }

  lemma ScannedMore(m: map<Key, RuntimePeer>, s: seq<Origin>, i: nat, file: seq<PeerConf>, runtime: seq<RuntimePeer>)
    requires Listing(s, file, runtime) && DistinctRuntime(runtime) && i < |s| && Scanned(m, s, i, runtime)
    ensures s[i].fromFile ==> Scanned(m, s, i + 1, runtime)
    ensures !s[i].fromFile ==>
              s[i].key !in m && s[i].index < |runtime| && runtime[s[i].index].key == s[i].key && Scanned(m[s[i].key := runtime[s[i].index]], s, i + 1, runtime)
  {
    hide Listing, DistinctRuntime;
    EntryAt(s, file, runtime, i);
    if !s[i].fromFile {
      forall a | 0 <= a < i && !s[a].fromFile ensures s[a].key != s[i].key {
        EntriesDiffer(s, file, runtime, a, i);
      }
    }
  }

  /** Before the scan, during it and after it. */
  ghost predicate Planned(removals: seq<PeerConf>, cur: seq<PeerConf>, file: seq<PeerConf>, m: map<Key, RuntimePeer>) {
    && |cur| == |file| && Removals(removals) && Distinct(removals)
    && (forall k :: HasKey(removals, k) <==> k in m && !HasKey(file, k))
    && (forall j {:trigger cur[j]} :: 0 <= j < |file| ==> cur[j] == AdjustBy(file[j], m))
  }

  lemma PlannedRemoval(removals: seq<PeerConf>, cur: seq<PeerConf>, file: seq<PeerConf>, m: map<Key, RuntimePeer>, r: RuntimePeer)
    requires Planned(removals, cur, file, m) && r.key !in m && !HasKey(file, r.key)
    ensures Planned([Removal(r.key)] + removals, cur, file, m[r.key := r])
  {
    hide Adjust;
    var rs := [Removal(r.key)] + removals;
    assert rs[1..] == removals;
    forall k ensures HasKey(rs, k) <==> k == r.key || HasKey(removals, k) {
      HasKeyTail(rs, k);
    }
    forall i, j | 0 <= i < j < |rs| ensures rs[i].key != rs[j].key {
      if i == 0 {
        assert removals[j - 1].key == rs[j].key;
        assert HasKey(removals, rs[j].key);
      }
    }
    forall j | 0 <= j < |file| ensures cur[j] == AdjustBy(file[j], m[r.key := r]) {
      assert HasKey(file, file[j].key);
    }
  }

  lemma PlannedAdjust(removals: seq<PeerConf>, cur: seq<PeerConf>, file: seq<PeerConf>, m: map<Key, RuntimePeer>, r: RuntimePeer, j: nat)
    requires Planned(removals, cur, file, m) && r.key !in m && Distinct(file) && j < |file| && file[j].key == r.key
    ensures cur[j] == file[j] && Planned(removals, cur[j := Adjust(file[j], r)], file, m[r.key := r])
  {
    hide Adjust;
    assert HasKey(file, r.key);
    var cur' := cur[j := Adjust(file[j], r)];
    forall i | 0 <= i < |file| ensures cur'[i] == AdjustBy(file[i], m[r.key := r]) {
      if i < j {
        assert file[i].key != file[j].key;
      } else if j < i {
        assert file[j].key != file[i].key;
      }
    }
  }

  method SyncConf(file: seq<PeerConf>, runtime: seq<RuntimePeer>) returns (plan: Plan, ghost m: map<Key, RuntimePeer>)
    requires Distinct(file) && DistinctRuntime(runtime)
    ensures file == [] || runtime == [] ==> plan == Plan(true, file)
    ensures file != [] && runtime != [] ==> !plan.replacePeers && ByKey(m, runtime) && PlanFor(plan.peers, file, m)
  {
    hide Listing, Planned, Scanned, Distinct, DistinctRuntime, HasKey;
    m := map[];
    if file == [] || runtime == [] {
      return Plan(true, file), m;
    }
    var s := QSort(Entries(file, runtime));
    SortedEntries(s, file, runtime);
    var removals, cur := [], file;
    PlannedNone(file, s, runtime);
    var i := 0;
    while i < |s|
      invariant 0 <= i <= |s| && Planned(removals, cur, file, m) && Scanned(m, s, i, runtime)
    {
      ScannedMore(m, s, i, file, runtime);
      if !s[i].fromFile {
        NextMatches(s, file, runtime, i);
        var r := runtime[s[i].index];
        if !FollowedByFile(s, i) {
          PlannedRemoval(removals, cur, file, m, r);
          removals := [Removal(s[i].key)] + removals;
        } else {
          var j := s[i + 1].index;
          EntryAt(s, file, runtime, i + 1);
          PlannedAdjust(removals, cur, file, m, r, j);
          CurLength(removals, cur, file, m);
          ghost var before := cur;
          if r.hasPsk && cur[j].psk.None? {
            cur := cur[j := cur[j].(psk := Some(0))];
          }
          if r.keepalive != 0 && cur[j].keepalive.None? {
            cur := cur[j := cur[j].(keepalive := Some(0))];
          }
          assert cur == before[j := Adjust(file[j], r)];
        }
        m := m[r.key := r];
      }
      i := i + 1;
    }
    plan := Plan(false, removals + cur);
    ScannedAll(m, s, file, runtime);
    PlannedAll(removals, cur, file, m);
  }

  lemma CurLength(removals: seq<PeerConf>, cur: seq<PeerConf>, file: seq<PeerConf>, m: map<Key, RuntimePeer>)
    requires Planned(removals, cur, file, m)
    ensures |cur| == |file|
  {
  }

  lemma EntryAt(s: seq<Origin>, file: seq<PeerConf>, runtime: seq<RuntimePeer>, a: nat)
    requires Listing(s, file, runtime) && a < |s|
    ensures IsEntry(s[a], file, runtime)
  {
  }

  lemma PlannedNone(file: seq<PeerConf>, s: seq<Origin>, runtime: seq<RuntimePeer>)
    ensures Planned([], file, file, map[]) && Scanned(map[], s, 0, runtime)
  {
  }

  lemma ScannedAll(m: map<Key, RuntimePeer>, s: seq<Origin>, file: seq<PeerConf>, runtime: seq<RuntimePeer>)
    requires Listing(s, file, runtime) && Scanned(m, s, |s|, runtime)
    ensures ByKey(m, runtime)
  {
    forall i | 0 <= i < |runtime| ensures runtime[i].key in m && m[runtime[i].key] == runtime[i] {
      assert IsEntry(Origin(runtime[i].key, false, i), file, runtime);
      var a :| 0 <= a < |s| && s[a] == Origin(runtime[i].key, false, i);
    }
    forall k | k in m ensures exists i :: 0 <= i < |runtime| && runtime[i].key == k {
      var a :| 0 <= a < |s| && !s[a].fromFile && s[a].key == k;
      assert IsEntry(s[a], file, runtime);
    }
  }

  lemma PlannedAll(removals: seq<PeerConf>, cur: seq<PeerConf>, file: seq<PeerConf>, m: map<Key, RuntimePeer>)
    requires Planned(removals, cur, file, m)
    ensures PlanFor(removals + cur, file, m)
  {
    var peers := removals + cur;
    assert peers[..|removals|] == removals && peers[|removals|..] == cur;
    assert cur == AdjustAll(file, m);
    assert PlanAt(peers, |removals|, file, m);
  }

  /**
   The list of running peers is what the device has, each with its keepalive and whether it has a preshared key, but
   for one that has the device's own key: it is reported before the private key is set, and gone afterwards.
   */
  ghost predicate Lists(runtime: seq<RuntimePeer>, d: Device) {
    && (forall i {:trigger runtime[i]} :: 0 <= i < |runtime| ==> runtime[i].key in d.peers || runtime[i].key == d.own)
    && (forall i {:trigger runtime[i]} :: 0 <= i < |runtime| && runtime[i].key in d.peers ==>
          runtime[i].keepalive == d.peers[runtime[i].key].keepalive && (runtime[i].hasPsk <==> d.peers[runtime[i].key].psk != 0))
    && (forall k {:trigger d.peers[k]} :: k in d.peers ==> exists i :: 0 <= i < |runtime| && runtime[i].key == k)
  }

  lemma ListedReports(m: map<Key, RuntimePeer>, runtime: seq<RuntimePeer>, d: Device)
    requires ByKey(m, runtime) && Lists(runtime, d)
    ensures Reports(m, d)
  {
    forall k | k in m ensures k in d.peers || k == d.own {
      var i :| 0 <= i < |runtime| && runtime[i].key == k;
    }
    forall k | k in d.peers ensures k in m && m[k].keepalive == d.peers[k].keepalive && (m[k].hasPsk <==> d.peers[k].psk != 0) {
      var i :| 0 <= i < |runtime| && runtime[i].key == k;
      assert m[runtime[i].key] == runtime[i];
    }
  }

  /** Whatever plan was made from the list the device gives of itself, it ends as a full replacement would leave it. */
  lemma PlanIsReplace(d: Device, file: seq<PeerConf>, runtime: seq<RuntimePeer>, plan: Plan, m: map<Key, RuntimePeer>)
    requires DeviceOk(d) && Distinct(file) && FromFile(file) && Lists(runtime, d)
    requires file == [] || runtime == [] ==> plan == Plan(true, file)
    requires file != [] && runtime != [] ==> !plan.replacePeers && ByKey(m, runtime) && PlanFor(plan.peers, file, m)
    ensures Apply(d, plan) == Apply(d, Plan(true, file))
  {
    hide Apply, PlanFor, Lists, ByKey, Reports;
    if file != [] && runtime != [] {
      ListedReports(m, runtime, d);
      SyncIsReplace(d, file, m, plan.peers);
    }
  }

  /** Planning and carrying out: the device ends as if all its peers had been replaced by those of the file. */
  method SyncDevice(d: Device, file: seq<PeerConf>, runtime: seq<RuntimePeer>) returns (d': Device)
    requires DeviceOk(d) && Distinct(file) && FromFile(file) && DistinctRuntime(runtime) && Lists(runtime, d)
    ensures d' == Apply(d, Plan(true, file))
  {
    hide Apply, PlanFor, Lists, ByKey, Distinct, DistinctRuntime, FromFile, DeviceOk;
    var plan, m := SyncConf(file, runtime);
    PlanIsReplace(d, file, runtime, plan, m);
    d' := Apply(d, plan);
  }
}
