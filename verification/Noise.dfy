/**
 The Noise IKpsk2 handshake.  Cryptography is symbolic: every value is a term, hashes and MACs
 are free constructors, a Diffie-Hellman secret is the unordered pair of the two private keys,
 and a ciphertext opens only under the key, nonce and additional data it was sealed with.
 */
module Noise {
  import opened Wrappers

  type u32 = x: int | 0 <= x < 0x1_0000_0000

  // ---------------------------------------------------------------- terms

  datatype Term =
    | Construction                                              // the name of the Noise construction
    | Identifier                                                // the protocol identifier
    | Empty                                                     // the empty string
    | Zero                                                      // an all-zero value
    | Counter(n: nat)                                           // a one-byte counter of the key derivation
    | Public(sk: nat)                                           // the public key of a private key
    | LowOrder                                                  // a public key with no usable secret
    | Dh(low: nat, high: nat)                                   // a Diffie-Hellman secret
    | Psk(id: nat)                                              // a preshared key
    | Stamp(time: nat)                                          // a timestamp
    | Hash(h: Term, data: Term)
    | Hmac(key: Term, data: Term)
    | Hmac2(key: Term, data: Term, more: Term)
    | Sealed(key: Term, nonce: Term, plain: Term, ad: Term)

  const ZERO_NONCE := Zero

  /** The secret of a private and a public key; the zero secret is an error. */
  function SharedSecret(sk: nat, pk: Term): (ss: Option<Term>) {
    match pk
    case Public(other) => Some(if sk <= other then Dh(sk, other) else Dh(other, sk))
    case _ => None
  }

  function Open(key: Term, nonce: Term, cipher: Term, ad: Term): Option<Term> {
    if cipher.Sealed? && cipher.key == key && cipher.nonce == nonce && cipher.ad == ad then Some(cipher.plain) else None
  }

  // ---------------------------------------------------------------- key derivation

  function Kdf1(key: Term, input: Term): Term {
    Hmac(Hmac(key, input), Counter(1))
  }

  function Kdf2(key: Term, input: Term): (Term, Term) {
    var prk := Hmac(key, input);
    var t0 := Hmac(prk, Counter(1));
    (t0, Hmac2(prk, t0, Counter(2)))
  }

  function Kdf3(key: Term, input: Term): (Term, Term, Term) {
    var prk := Hmac(key, input);
    var t0 := Hmac(prk, Counter(1));
    var t1 := Hmac2(prk, t0, Counter(2));
    (t0, t1, Hmac2(prk, t1, Counter(3)))
  }

  const INITIAL_CHAIN_KEY := Hash(Empty, Construction)
  const INITIAL_HASH := Hash(INITIAL_CHAIN_KEY, Identifier)

  // ---------------------------------------------------------------- the handshake as a calculation

  /** The running hash and chaining key. */
  datatype Sym = Sym(hash: Term, chainKey: Term) {
    function MixHash(data: Term): Sym { this.(hash := Hash(hash, data)) }

    function MixKey(data: Term): Sym { this.(chainKey := Kdf1(chainKey, data)) }

    /** Derives a key from a secret, seals a plaintext to the transcript and adds the ciphertext to it. */
    function Encrypt(secret: Term, plain: Term): (Sym, Term) {
      var (ck, key) := Kdf2(chainKey, secret);
      var cipher := Sealed(key, ZERO_NONCE, plain, hash);
      (Sym(Hash(hash, cipher), ck), cipher)
    }
  }

  /** What both sides know before the first ciphertext of an initiation. */
  function Opening(responderStatic: Term, ephemeral: Term): Sym {
    Sym(INITIAL_HASH, INITIAL_CHAIN_KEY).MixHash(responderStatic).MixKey(ephemeral).MixHash(ephemeral)
  }

  datatype Initiation = Initiation(sender: u32, ephemeral: Term, sealedStatic: Term, sealedStamp: Term)

  datatype Response = Response(sender: u32, receiver: u32, ephemeral: Term, empty: Term)

  /** The first message: es and ss secrets, the initiator's static key and a timestamp. */
  function InitiationCalc(responderStatic: Term, ephemeral: Term, es: Term, initiatorStatic: Term, ss: Term, stamp: Term): (Sym, Term, Term) {
    var (s1, c1) := Opening(responderStatic, ephemeral).Encrypt(es, initiatorStatic);
    var (s2, c2) := s1.Encrypt(ss, stamp);
    (s2, c1, c2)
  }

  /** The second message up to the preshared key: the state it leaves, the key and the transcript it is sealed to. */
  function ResponseCalc(s: Sym, ephemeral: Term, ee: Term, se: Term, psk: Term): (Sym, Term) {
    var s1 := s.MixHash(ephemeral).MixKey(ephemeral).MixKey(ee).MixKey(se);
    var (ck, tau, key) := Kdf3(s1.chainKey, psk);
    (Sym(Hash(s1.hash, tau), ck), key)
  }

  function ResponseCipher(s: Sym, key: Term): Term {
    Sealed(key, ZERO_NONCE, Empty, s.hash)
  }

  // ---------------------------------------------------------------- the two sides

  datatype State = Zeroed | InitiationCreated | InitiationConsumed | ResponseCreated | ResponseConsumed

  class Handshake {
    var state: State
    var sym: Sym
    var presharedKey: Term
    var localEphemeral: nat
    var localIndex: u32
    var remoteIndex: u32
    const remoteStatic: Term
    var remoteEphemeral: Term
    var precomputedStaticStatic: Term
    var lastTimestamp: Option<nat>

    /** A peer of the device with private key sk, whose own public key is pk. */
    constructor (sk: nat, pk: Term, psk: Term)
      ensures state == Zeroed && remoteStatic == pk && presharedKey == psk && lastTimestamp == None
      ensures precomputedStaticStatic == StaticStatic(sk, pk)
    {
      state := Zeroed;
      sym := Sym(Zero, Zero);
      presharedKey := psk;
      localEphemeral := 0;
      localIndex := 0;
      remoteIndex := 0;
      remoteStatic := pk;
      remoteEphemeral := Zero;
      precomputedStaticStatic := StaticStatic(sk, pk);
      lastTimestamp := None;
    }

    method MixHash(data: Term)
      modifies this`sym
      ensures sym == old(sym).MixHash(data)
    {
      sym := Sym(Hash(sym.hash, data), sym.chainKey);
    }

    method MixKey(data: Term)
      modifies this`sym
      ensures sym == old(sym).MixKey(data)
    {
      sym := Sym(sym.hash, Kdf1(sym.chainKey, data));
    }
  }

  function StaticStatic(sk: nat, pk: Term): Term {
    var ss := SharedSecret(sk, pk);
    if ss.Some? then ss.value else Zero
  }

  class Device {
    const privateKey: nat
    var peers: map<Term, Handshake>

    constructor (sk: nat)
      ensures privateKey == sk && peers == map[]
    {
      privateKey := sk;
      peers := map[];
    }

    method CreateMessageInitiation(hs: Handshake, ephemeral: nat, now: nat, index: u32) returns (msg: Option<Initiation>)
      modifies hs`sym, hs`localEphemeral, hs`localIndex, hs`state
      ensures msg.Some? <==> hs.remoteStatic.Public? && hs.precomputedStaticStatic != Zero
      ensures msg.None? ==> hs.state == old(hs.state) && hs.localIndex == old(hs.localIndex)
      ensures msg.Some? ==> hs.state == InitiationCreated && hs.localIndex == index && hs.localEphemeral == ephemeral
      ensures msg.Some? ==>
                var (s, c1, c2) := InitiationCalc(hs.remoteStatic, Public(ephemeral), SharedSecret(ephemeral, hs.remoteStatic).value,
                                                  Public(privateKey), hs.precomputedStaticStatic, Stamp(now));
                hs.sym == s && msg.value == Initiation(index, Public(ephemeral), c1, c2)
    {
      hs.sym := Sym(INITIAL_HASH, INITIAL_CHAIN_KEY);
      hs.localEphemeral := ephemeral;
      hs.MixHash(hs.remoteStatic);
      hs.MixKey(Public(ephemeral));
      hs.MixHash(Public(ephemeral));
      var ss := SharedSecret(hs.localEphemeral, hs.remoteStatic);
      if ss.None? {
        return None;
      }
      var (ck, key) := Kdf2(hs.sym.chainKey, ss.value);
      hs.sym := hs.sym.(chainKey := ck);
      var sealedStatic := Sealed(key, ZERO_NONCE, Public(privateKey), hs.sym.hash);
      hs.MixHash(sealedStatic);
      if hs.precomputedStaticStatic == Zero {
        return None;
      }
      var (ck', key') := Kdf2(hs.sym.chainKey, hs.precomputedStaticStatic);
      hs.sym := hs.sym.(chainKey := ck');
      var sealedStamp := Sealed(key', ZERO_NONCE, Stamp(now), hs.sym.hash);
      hs.localIndex := index;
      hs.MixHash(sealedStamp);
      hs.state := InitiationCreated;
      msg := Some(Initiation(index, Public(ephemeral), sealedStatic, sealedStamp));
    }

    /** Every peer is filed under its own static key. */
    ghost predicate Valid()
      reads this, peers.Values
    {
      forall pk :: pk in peers ==> peers[pk].remoteStatic == pk
    }

    /** Opens an initiation: the one peer and the one timestamp it is genuine for, and the state it leads to. */
    method OpenInitiation(msg: Initiation, running: bool) returns (hs: Handshake?, ts: nat, s: Sym)
      requires Valid()
      ensures hs != null ==> running && hs in peers.Values && Genuine(privateKey, msg, Id(hs), ts)
      ensures hs != null ==> s == InitiationState(privateKey, msg.ephemeral, Id(hs), ts)
      ensures running ==> forall h, t :: h in peers.Values && Genuine(privateKey, msg, Id(h), t) ==> h == hs && t == ts
    {
      hs, ts := null, 0;
      s := Sym(Hash(INITIAL_HASH, Public(privateKey)), INITIAL_CHAIN_KEY);
      s := s.(hash := Hash(s.hash, msg.ephemeral));
      s := s.(chainKey := Kdf1(s.chainKey, msg.ephemeral));
      var ss := SharedSecret(privateKey, msg.ephemeral);
      if ss.None? {
        return;
      }
      var (ck, key) := Kdf2(s.chainKey, ss.value);
      var peerPK := Open(key, ZERO_NONCE, msg.sealedStatic, s.hash);
      if peerPK.None? {
        return;
      }
      s := Sym(Hash(s.hash, msg.sealedStatic), ck);
      if peerPK.value !in peers || !running {
        return;
      }
      var peer := peers[peerPK.value];
      if peer.precomputedStaticStatic == Zero {
        return;
      }
      var (ck', key') := Kdf2(s.chainKey, peer.precomputedStaticStatic);
      var stamp := Open(key', ZERO_NONCE, msg.sealedStamp, s.hash);
      if stamp.None? || !stamp.value.Stamp? {
        return;
      }
      s := Sym(Hash(s.hash, msg.sealedStamp), ck');
      hs, ts := peer, stamp.value.time;
    }

    /** Accepts an initiation from a running peer if it is genuine, newer than the last one and does not flood. */
    method ConsumeMessageInitiation(msg: Initiation, running: bool, flood: bool) returns (peer: Handshake?, ts: nat)
      requires Valid()
      modifies peers.Values
      ensures Valid()
      ensures peer != null ==> running && !flood && peer in peers.Values
      ensures peer != null ==>
                && old(Genuine(privateKey, msg, Id(peer), ts)) && old(Newer(ts, peer.lastTimestamp))
                && peer.sym == InitiationState(privateKey, msg.ephemeral, Id(peer), ts)
                && peer.state == InitiationConsumed && peer.remoteIndex == msg.sender
                && peer.remoteEphemeral == msg.ephemeral && peer.lastTimestamp == Some(ts)
                && Id(peer) == old(Id(peer)) && peer.localIndex == old(peer.localIndex)
      ensures peer == null && running && !flood ==>
                forall h, t :: h in peers.Values && old(Genuine(privateKey, msg, Id(h), t)) ==> !old(Newer(t, h.lastTimestamp))
      ensures forall h :: h in peers.Values && h != peer ==> unchanged(h)
    {
      hide InitiationState, Genuine;
      var hs, time, s := OpenInitiation(msg, running);
      assert forall h :: h in peers.Values ==> Id(h) == old(Id(h)) && h.lastTimestamp == old(h.lastTimestamp);
      peer, ts := null, 0;
      if hs == null || !Newer(time, hs.lastTimestamp) || flood {
        return;
      }
      hs.sym := s;
      hs.remoteIndex := msg.sender;
      hs.remoteEphemeral := msg.ephemeral;
      hs.lastTimestamp := Some(time);
      hs.state := InitiationConsumed;
      peer, ts := hs, time;
    }

    method CreateMessageResponse(hs: Handshake, ephemeral: nat, index: u32) returns (msg: Option<Response>)
      modifies hs`sym, hs`localEphemeral, hs`localIndex, hs`state
      ensures msg.Some? <==> old(hs.state) == InitiationConsumed && hs.remoteEphemeral.Public? && hs.remoteStatic.Public?
      ensures msg.None? ==> hs.state == old(hs.state)
      ensures msg.Some? ==>
                var (s, key) := ResponseCalc(old(hs.sym), Public(ephemeral), SharedSecret(ephemeral, hs.remoteEphemeral).value,
                                             SharedSecret(ephemeral, hs.remoteStatic).value, hs.presharedKey);
                && msg.value == Response(index, hs.remoteIndex, Public(ephemeral), ResponseCipher(s, key))
                && hs.sym == s.MixHash(ResponseCipher(s, key))
                && hs.state == ResponseCreated && hs.localIndex == index && hs.localEphemeral == ephemeral
    {
      if hs.state != InitiationConsumed {
        return None;
      }
      hs.localIndex := index;
      hs.localEphemeral := ephemeral;
      hs.MixHash(Public(ephemeral));
      hs.MixKey(Public(ephemeral));
      var ss := SharedSecret(hs.localEphemeral, hs.remoteEphemeral);
      if ss.None? {
        return None;
      }
      hs.MixKey(ss.value);
      ss := SharedSecret(hs.localEphemeral, hs.remoteStatic);
      if ss.None? {
        return None;
      }
      hs.MixKey(ss.value);
      var (ck, tau, key) := Kdf3(hs.sym.chainKey, hs.presharedKey);
      hs.sym := hs.sym.(chainKey := ck);
      hs.MixHash(tau);
      var empty := Sealed(key, ZERO_NONCE, Empty, hs.sym.hash);
      hs.MixHash(empty);
      hs.state := ResponseCreated;
      msg := Some(Response(index, hs.remoteIndex, Public(ephemeral), empty));
    }

    /** Completes the handshake a response is addressed to, if it waits for one and the response authenticates. */
    method ConsumeMessageResponse(msg: Response, lookup: Handshake?) returns (ok: bool)
      modifies (if lookup == null then {} else {lookup})`sym, (if lookup == null then {} else {lookup})`remoteIndex, (if lookup == null then {} else {lookup})`state
      ensures ok <==> lookup != null && old(lookup.state) == InitiationCreated && msg.ephemeral.Public?
                      && msg.empty == ResponseCipher(old(Awaited(privateKey, lookup, msg.ephemeral)).0, old(Awaited(privateKey, lookup, msg.ephemeral)).1)
      ensures !ok && lookup != null ==> lookup.sym == old(lookup.sym) && lookup.state == old(lookup.state)
      ensures ok ==> lookup.sym == old(Awaited(privateKey, lookup, msg.ephemeral)).0.MixHash(msg.empty)
      ensures ok ==> lookup.state == ResponseConsumed && lookup.remoteIndex == msg.sender
    {
      if lookup == null || lookup.state != InitiationCreated {
        return false;
      }
      var s := Sym(Hash(lookup.sym.hash, msg.ephemeral), Kdf1(lookup.sym.chainKey, msg.ephemeral));
      var ss := SharedSecret(lookup.localEphemeral, msg.ephemeral);
      if ss.None? {
        return false;
      }
      s := s.(chainKey := Kdf1(s.chainKey, ss.value));
      ss := SharedSecret(privateKey, msg.ephemeral);
      if ss.None? {
        return false;
      }
      s := s.(chainKey := Kdf1(s.chainKey, ss.value));
      var (ck, tau, key) := Kdf3(s.chainKey, lookup.presharedKey);
      s := Sym(Hash(s.hash, tau), ck);
      // The ciphertext is a bare tag, so the only plaintext it can have is the empty one.
      if Open(key, ZERO_NONCE, msg.empty, s.hash) != Some(Empty) {
        return false;
      }
      s := s.(hash := Hash(s.hash, msg.empty));
      lookup.sym := s;
      lookup.remoteIndex := msg.sender;
      lookup.state := ResponseConsumed;
      ok := true;
    }
  }

  /** The session keys of one side. */
  datatype Session = Session(send: Term, receive: Term, initiator: bool, localIndex: u32, remoteIndex: u32)

  /** Derives the session keys of a finished handshake and forgets the handshake's secrets. */
  method BeginSymmetricSession(hs: Handshake) returns (r: Option<Session>)
    modifies hs`sym, hs`localEphemeral, hs`state, hs`localIndex
    ensures r.Some? <==> old(hs.state) in {ResponseConsumed, ResponseCreated}
    ensures r.None? ==> hs.sym == old(hs.sym) && hs.state == old(hs.state)
    ensures r.Some? ==> hs.sym == Sym(Zero, Zero) && hs.localEphemeral == 0 && hs.state == Zeroed && hs.localIndex == 0
    ensures r.Some? ==>
              var (t0, t1) := Kdf2(old(hs.sym.chainKey), Empty);
              r.value == if old(hs.state) == ResponseConsumed then Session(t0, t1, true, old(hs.localIndex), hs.remoteIndex)
                         else Session(t1, t0, false, old(hs.localIndex), hs.remoteIndex)
  {
    var sendKey, recvKey, isInitiator;
    if hs.state == ResponseConsumed {
      var (t0, t1) := Kdf2(hs.sym.chainKey, Empty);
      sendKey, recvKey, isInitiator := t0, t1, true;
    } else if hs.state == ResponseCreated {
      var (t0, t1) := Kdf2(hs.sym.chainKey, Empty);
      recvKey, sendKey, isInitiator := t0, t1, false;
    } else {
      return None;
    }
    hs.sym := Sym(Zero, Zero);
    hs.localEphemeral := 0;
    hs.state := Zeroed;
    r := Some(Session(sendKey, recvKey, isInitiator, hs.localIndex, hs.remoteIndex));
    hs.localIndex := 0;
  }

  /** The state and key with which the initiator expects a response under this ephemeral key to be sealed. */
  ghost function Awaited(sk: nat, h: Handshake?, ephemeral: Term): (Sym, Term)
    reads h
  {
    if h == null then (Sym(Zero, Zero), Zero)
    else ResponseCalc(h.sym, ephemeral, StaticStatic(h.localEphemeral, ephemeral), StaticStatic(sk, ephemeral), h.presharedKey)
  }

  /** What identifies a peer in a handshake. */
  datatype Identity = Identity(staticKey: Term, staticStatic: Term, psk: Term)

  ghost function Id(h: Handshake): Identity
    reads h
  {
    Identity(h.remoteStatic, h.precomputedStaticStatic, h.presharedKey)
  }

  predicate Newer(ts: nat, last: Option<nat>) {
    last.None? || last.value < ts
  }

  ghost function InitiationState(sk: nat, ephemeral: Term, peer: Identity, ts: nat): Sym {
    var es := StaticStatic(sk, ephemeral);
    InitiationCalc(Public(sk), ephemeral, es, peer.staticKey, peer.staticStatic, Stamp(ts)).0
  }

  /** The ciphertexts are the ones a peer with this identity would send with this timestamp. */
  ghost predicate Genuine(sk: nat, msg: Initiation, peer: Identity, ts: nat) {
    && SharedSecret(sk, msg.ephemeral).Some? && peer.staticStatic != Zero
    && var (_, c1, c2) := InitiationCalc(Public(sk), msg.ephemeral, StaticStatic(sk, msg.ephemeral), peer.staticKey, peer.staticStatic, Stamp(ts));
    msg.sealedStatic == c1 && msg.sealedStamp == c2
  }

  // ---------------------------------------------------------------- agreement

  lemma DhCommutes(a: nat, b: nat)
    ensures SharedSecret(a, Public(b)) == SharedSecret(b, Public(a))
  {
  }

  /** Each side knows the other's static key and they share the static secret. */
  ghost predicate StaticMatch(a: Device, b: Device, ha: Handshake)
    reads a, b, ha, b.peers.Values
  {
    && ha.remoteStatic == Public(b.privateKey) && ha.precomputedStaticStatic != Zero
    && Public(a.privateKey) in b.peers
    && b.peers[Public(a.privateKey)].precomputedStaticStatic == ha.precomputedStaticStatic
  }

  /** The first message gets through exactly if the static keys match and the timestamp is new, and then
      both sides have the same hash and chaining key. */
  method FirstMessage(a: Device, b: Device, ha: Handshake, ea: nat, now: nat, i: u32) returns (hb: Handshake?)
    requires a != b && b.Valid() && ha !in b.peers.Values
    modifies ha`sym, ha`localEphemeral, ha`localIndex, ha`state, b.peers.Values
    ensures b.Valid()
    ensures hb != null <==> old(StaticMatch(a, b, ha) && Newer(now, b.peers[Public(a.privateKey)].lastTimestamp))
    ensures hb != null ==> Public(a.privateKey) in b.peers && hb == b.peers[Public(a.privateKey)] && hb.presharedKey == old(hb.presharedKey)
    ensures hb != null ==> ha.sym == hb.sym && ha.localEphemeral == ea && hb.remoteEphemeral == Public(ea)
    ensures hb != null ==> ha.state == InitiationCreated && hb.state == InitiationConsumed
    ensures hb != null ==> ha.localIndex == i && hb.remoteIndex == i
  {
    hb := null;
    var m1 := a.CreateMessageInitiation(ha, ea, now, i);
    if m1.None? { return; }
    ghost var ts;
    hb, ts := b.ConsumeMessageInitiation(m1.value, true, false);
    assert old(StaticMatch(a, b, ha)) ==> Genuine(b.privateKey, m1.value, old(Id(b.peers[Public(a.privateKey)])), now);
  }

  /** The second message gets through exactly if the preshared keys match, and then both sides have again
      the same hash and chaining key. */
  method SecondMessage(a: Device, b: Device, ha: Handshake, hb: Handshake, eb: nat, j: u32) returns (ok: bool)
    requires a != b && ha != hb && ha.sym == hb.sym && hb.remoteEphemeral == Public(ha.localEphemeral)
    requires hb.remoteStatic == Public(a.privateKey) && ha.state == InitiationCreated && hb.state == InitiationConsumed
    requires ha.localIndex == hb.remoteIndex
    modifies ha`sym, ha`remoteIndex, ha`state, hb`sym, hb`localEphemeral, hb`localIndex, hb`state
    ensures ok <==> ha.presharedKey == hb.presharedKey
    ensures ok ==> ha.sym == hb.sym && ha.state == ResponseConsumed && hb.state == ResponseCreated
    ensures ok ==> ha.remoteIndex == j && hb.localIndex == j
  {
    var m2 := b.CreateMessageResponse(hb, eb, j);
    ok := a.ConsumeMessageResponse(m2.value, if m2.value.receiver == ha.localIndex then ha else null);
  }

  /** A whole exchange between any two devices succeeds exactly if they know each other's static keys, share the
      static secret and the preshared key, and the timestamp is new; then their session keys and indices cross. */
  method Exchange(a: Device, b: Device, ha: Handshake, ea: nat, eb: nat, now: nat, i: u32, j: u32)
    returns (sa: Option<Session>, sb: Option<Session>)
    requires a != b && b.Valid() && ha !in b.peers.Values
    modifies ha, b.peers.Values
    ensures sa.Some? <==> old(&& StaticMatch(a, b, ha) && Newer(now, b.peers[Public(a.privateKey)].lastTimestamp)
                              && b.peers[Public(a.privateKey)].presharedKey == ha.presharedKey)
    ensures sa.Some? <==> sb.Some?
    ensures sa.Some? ==> sa.value.send == sb.value.receive && sa.value.receive == sb.value.send && sa.value.send != sa.value.receive
    ensures sa.Some? ==> sa.value.localIndex == i == sb.value.remoteIndex && sb.value.localIndex == j == sa.value.remoteIndex
    ensures sa.Some? ==> sa.value.initiator && !sb.value.initiator
  {
    sa, sb := None, None;
    var hb := FirstMessage(a, b, ha, ea, now, i);
    if hb == null { return; }
    var ok := SecondMessage(a, b, ha, hb, eb, j);
    if !ok { return; }
    sb := BeginSymmetricSession(hb);
    sa := BeginSymmetricSession(ha);
  }

  /** Two devices that were told about each other always complete the exchange, whatever their keys. */
  method HonestRun(skA: nat, skB: nat, psk: Term, ea: nat, eb: nat, now: nat, i: u32, j: u32) returns (sa: Session, sb: Session)
    ensures sa.send == sb.receive && sa.receive == sb.send && sa.send != sa.receive
    ensures sa.localIndex == i == sb.remoteIndex && sb.localIndex == j == sa.remoteIndex && sa.initiator && !sb.initiator
  {
    var a := new Device(skA);
    var b := new Device(skB);
    var ha := new Handshake(skA, Public(skB), psk);
    var hb := new Handshake(skB, Public(skA), psk);
    b.peers := map[Public(skA) := hb];
    DhCommutes(skA, skB);
    assert b.peers[Public(skA)] == hb;
    var ra, rb := Exchange(a, b, ha, ea, eb, now, i, j);
    sa, sb := ra.value, rb.value;
  }
}
