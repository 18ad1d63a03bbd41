/**
 Packets as generic receive offload sees them: which ones are candidates, which two may be merged,
 and what a merged packet carries.
 */
module GroPackets {
  import opened InternetChecksum
  import opened Segmentation

  const MAX_UINT16 := 0xffff
  const UDPH_LEN := 8
  const TCP_FLAG_ACK: u8 := 0x10
  const TCP_FLAG_PSH: u8 := 0x08

  /** A flow; acknowledgement numbers belong to the key, and are zero for UDP. */
  datatype FlowKey = FlowKey(tcp: bool, isV6: bool, src: seq<u8>, dst: seq<u8>, srcPort: u16, dstPort: u16, rxAck: nat)

  datatype Candidate = NotCandidate | Candidate(tcp: bool, isV6: bool)

  /** What is read from the headers of a packet that may be merged. */
  datatype Parsed = Unfit | Fit(iphLen: nat, thLen: nat, seqNum: nat, psh: bool)

  /** The bookkeeping of one packet being built up.  thLen is the TCP header length, or 8 for UDP. */
  datatype Item = Item(key: FlowKey, sentSeq: nat, bufsIndex: nat, numMerged: u16, gsoSize: u16, iphLen: u8, thLen: u8,
                       pshSet: bool, cSumKnownInvalid: bool)
  {
    function HeadersLen(): nat { iphLen + thLen }
  }

  datatype Can = Prepend | Unavailable | Append

  function PacketIsGroCandidate(b: seq<u8>, canUdpGro: bool): Candidate {
    if |b| < 28 then NotCandidate
    else if b[0] / 16 == 4 then
      if b[0] % 16 != 5 then NotCandidate
      else if b[9] == IPPROTO_TCP && |b| >= 40 then Candidate(true, false)
      else if b[9] == IPPROTO_UDP && canUdpGro then Candidate(false, false)
      else NotCandidate
    else if b[0] / 16 == 6 then
      if b[6] == IPPROTO_TCP && |b| >= 60 then Candidate(true, true)
      else if b[6] == IPPROTO_UDP && |b| >= 48 && canUdpGro then Candidate(false, true)
      else NotCandidate
    else NotCandidate
  }

  /** The checks that open tcpGRO and udpGRO, on a candidate of that kind. */
  function Parse(pkt: seq<u8>, tcp: bool, isV6: bool): Parsed
    requires |pkt| >= (if isV6 then 40 else 20) + (if tcp then 20 else 8)
    requires isV6 || pkt[0] % 16 == 5
  {
    var iphLen := if isV6 then 40 else pkt[0] % 16 * 4;
    if |pkt| > MAX_UINT16 then Unfit
    else if isV6 && Get16(pkt, 4) != |pkt| - iphLen then Unfit
    else if !isV6 && Get16(pkt, 2) != |pkt| then Unfit
    else
      var thLen := if tcp then pkt[iphLen + 12] / 16 * 4 else UDPH_LEN;
      if tcp && (thLen < 20 || thLen > 60) then Unfit
      else if |pkt| < iphLen + thLen then Unfit
      else if !isV6 && (pkt[6] % 64 != 0 || pkt[7] != 0) then Unfit
      else if tcp && pkt[iphLen + TCP_FLAGS_OFFSET] != TCP_FLAG_ACK && pkt[iphLen + TCP_FLAGS_OFFSET] != TCP_FLAG_ACK + TCP_FLAG_PSH then Unfit
      else if |pkt| - thLen - iphLen < 1 then Unfit
      else Fit(iphLen, thLen, if tcp then Get32(pkt, iphLen + 4) else 0, tcp && pkt[iphLen + TCP_FLAGS_OFFSET] != TCP_FLAG_ACK)
  }

  function NewFlowKey(pkt: seq<u8>, tcp: bool, isV6: bool): FlowKey
    requires |pkt| >= (if isV6 then 40 else 20) + (if tcp then 20 else 8)
  {
    var at, n, th := if isV6 then 8 else 12, if isV6 then 16 else 4, if isV6 then 40 else 20;
    FlowKey(tcp, isV6, pkt[at..at + n], pkt[at + n..at + 2 * n], Get16(pkt, th), Get16(pkt, th + 2), if tcp then Get32(pkt, th + 8) else 0)
  }

  /** The flow a packet belongs to, whatever the packet. */
  ghost predicate OfFlow(pkt: seq<u8>, key: FlowKey) {
    && |pkt| >= (if key.isV6 then 40 else 20) + (if key.tcp then 20 else 8)
    && pkt[0] / 16 == (if key.isV6 then 6 else 4) && pkt[if key.isV6 then 6 else 9] == ProtocolOf(key)
    && NewFlowKey(pkt, key.tcp, key.isV6) == key
  }

  function IpHeadersCanCoalesce(a: seq<u8>, b: seq<u8>): bool {
    if |a| < 9 || |b| < 9 then false
    else if a[0] / 16 == 6 then a[0] == b[0] && a[1] / 16 == b[1] / 16 && a[7] == b[7]
    else a[1] == b[1] && a[6] / 32 == b[6] / 32 && a[8] == b[8]
  }

  function UdpPacketsCanCoalesce(pkt: seq<u8>, p: Parsed, item: Item, target: seq<u8>): Can
    requires p.Fit? && |pkt| >= p.iphLen + p.thLen && |target| >= p.iphLen + UDPH_LEN && item.gsoSize > 0
  {
    if !IpHeadersCanCoalesce(pkt, target) then Unavailable
    else if (|target| - p.iphLen - UDPH_LEN) % item.gsoSize != 0 then Unavailable
    else if |pkt| - p.iphLen - p.thLen > item.gsoSize then Unavailable
    else Append
  }

  /** The length of the item's payload as sequence adjacency computes it, in 16 bits. */
  function LhsLen(item: Item): u16 {
    (item.gsoSize + item.numMerged * item.gsoSize % 0x1_0000) % 0x1_0000
  }

  /** The 16-bit length of an item's payload is the true one exactly when that is below 2^16; two packets of 2^15 bytes have none. */
  lemma LhsLenExact(item: Item)
    ensures LhsLen(item) == (item.numMerged + 1) * item.gsoSize <==> (item.numMerged + 1) * item.gsoSize < 0x1_0000
    ensures item.numMerged == 1 && item.gsoSize == 0x8000 ==> LhsLen(item) == 0
  {
    var n := item.numMerged * item.gsoSize;
    assert (item.numMerged + 1) * item.gsoSize == n + item.gsoSize;
    assert n >= 0;
  }

  function TcpPacketsCanCoalesce(pkt: seq<u8>, p: Parsed, item: Item, target: seq<u8>): Can
    requires p.Fit? && p.thLen >= 20 && |pkt| >= p.iphLen + p.thLen && item.iphLen == p.iphLen && item.gsoSize > 0
    requires |target| >= item.iphLen + item.thLen
  {
    var gsoSize := |pkt| - p.iphLen - p.thLen;
    if p.thLen != item.thLen then Unavailable
    else if p.thLen > 20 && pkt[p.iphLen + 20..p.iphLen + p.thLen] != target[item.iphLen + 20..p.iphLen + p.thLen] then Unavailable
    else if !IpHeadersCanCoalesce(pkt, target) then Unavailable
    else if p.seqNum == (item.sentSeq + LhsLen(item)) % 0x1_0000_0000 then
      if item.pshSet then Unavailable
      else if (|target| - p.iphLen - p.thLen) % item.gsoSize != 0 then Unavailable
      else if gsoSize > item.gsoSize then Unavailable
      else Append
    else if (p.seqNum + gsoSize) % 0x1_0000_0000 == item.sentSeq then
      if p.psh then Unavailable
      else if gsoSize < item.gsoSize then Unavailable
      else if gsoSize > item.gsoSize && item.numMerged > 0 then Unavailable
      else Prepend
    else Unavailable
  }

  // ---------------------------------------------------------------- what a merged packet carries

  /** Cutting the payload every g bytes gives exactly these pieces. */
  ghost predicate Cuts(payload: seq<u8>, g: nat, pieces: seq<seq<u8>>) {
    && |pieces| >= 1 && g >= 1
    && (|pieces| - 1) * g < |payload| <= |pieces| * g
    && forall k {:trigger pieces[k]} :: 0 <= k < |pieces| ==> IsPiece(payload, g, k, pieces[k])
  }

  ghost predicate IsPiece(payload: seq<u8>, g: nat, k: nat, piece: seq<u8>) {
    && k * g <= |payload|
    && piece == payload[k * g..if (k + 1) * g < |payload| then (k + 1) * g else |payload|]
  }

  /** Sequence numbers that follow each other g apart, modulo 2^32. */
  ghost predicate Follow(first: nat, g: nat, seqs: seq<nat>) {
    forall k {:trigger seqs[k]} :: 0 <= k < |seqs| ==> seqs[k] == (first + k * g) % 0x1_0000_0000
  }

  lemma PieceBounds(n: nat, g: nat, k: nat)
    requires k < n
    ensures k * g <= (n - 1) * g && (k + 1) * g <= n * g && (k + 1) * g == k * g + g && n * g == (n - 1) * g + g
  {
    assert (n - 1) * g == k * g + (n - 1 - k) * g;
  }

  lemma CutsAppend(payload: seq<u8>, g: nat, pieces: seq<seq<u8>>, more: seq<u8>)
    requires Cuts(payload, g, pieces) && |payload| == |pieces| * g && 1 <= |more| <= g
    ensures Cuts(payload + more, g, pieces + [more])
  {
    var n, all := |pieces|, pieces + [more];
    PieceBounds(n + 1, g, n);
    forall k | 0 <= k < |all| ensures IsPiece(payload + more, g, k, all[k]) {
      PieceBounds(n + 1, g, k);
      if k < n {
        PieceBounds(n, g, k);
        assert IsPiece(payload, g, k, pieces[k]);
      }
    }
  }

  lemma CutsPrepend(payload: seq<u8>, g: nat, pieces: seq<seq<u8>>, more: seq<u8>)
    requires Cuts(payload, g, pieces) && |more| == g
    ensures Cuts(more + payload, g, [more] + pieces)
  {
    var n, all := |pieces|, [more] + pieces;
    PieceBounds(n + 1, g, n);
    forall k | 0 <= k < |all| ensures IsPiece(more + payload, g, k, all[k]) {
      PieceBounds(n + 1, g, k);
      if k > 0 {
        PieceBounds(n, g, k - 1);
        assert IsPiece(payload, g, k - 1, pieces[k - 1]);
      }
    }
  }

  /** A larger packet in front of a single smaller one. */
  lemma CutsPrependLarger(payload: seq<u8>, g: nat, pieces: seq<seq<u8>>, more: seq<u8>)
    requires Cuts(payload, g, pieces) && |pieces| == 1 && |more| > g
    ensures Cuts(more + payload, |more|, [more] + pieces)
  {
    var all := [more] + pieces;
    assert IsPiece(payload, g, 0, pieces[0]);
    assert IsPiece(more + payload, |more|, 0, all[0]);
    assert IsPiece(more + payload, |more|, 1, all[1]);
  }

  lemma CutsOne(payload: seq<u8>)
    requires |payload| >= 1
    ensures Cuts(payload, |payload|, [payload])
  {
    assert IsPiece(payload, |payload|, 0, [payload][0]);
  }

  /** There are no more pieces than bytes, and a payload that g divides is cut without a remainder. */
  lemma CutsCount(payload: seq<u8>, g: nat, pieces: seq<seq<u8>>)
    requires Cuts(payload, g, pieces)
    ensures |pieces| <= |payload|
    ensures |payload| % g == 0 ==> |payload| == |pieces| * g
  {
    var n := |pieces|;
    PieceBounds(n, g, n - 1);
    if n - 1 > 0 {
      assert n - 1 <= (n - 1) * g;
    }
    if |payload| % g == 0 {
      var q := |payload| / g;
      if q <= n - 1 {
        PieceBounds(n, g, q);
      } else if q > n {
        PieceBounds(q, g, n);
      }
    }
  }

  lemma FollowAppend(first: nat, g: nat, seqs: seq<nat>, s: nat)
    requires Follow(first, g, seqs) && s == (first + |seqs| * g) % 0x1_0000_0000
    ensures Follow(first, g, seqs + [s])
  {
  }

  lemma FollowPrepend(first: nat, g: nat, seqs: seq<nat>, s: nat)
    requires Follow(first, g, seqs) && s < 0x1_0000_0000 && (s + g) % 0x1_0000_0000 == first
    ensures Follow(s, g, [s] + seqs)
  {
    var all := [s] + seqs;
    forall k | 0 <= k < |all| ensures all[k] == (s + k * g) % 0x1_0000_0000 {
      if k > 0 {
        PieceBounds(k, g, k - 1);
        assert seqs[k - 1] == (first + (k - 1) * g) % 0x1_0000_0000;
        ModShift(s + g, (k - 1) * g);
      }
    }
  }

  lemma ModShift(a: nat, b: nat)
    ensures (a % 0x1_0000_0000 + b) % 0x1_0000_0000 == (a + b) % 0x1_0000_0000
  {
  }

  /** One sequence number follows itself whatever the distance. */
  lemma FollowOne(first: nat, g: nat)
    requires first < 0x1_0000_0000
    ensures Follow(first, g, [first])
  {
  }

  // ---------------------------------------------------------------- items

  /** What packets must share to be merged, apart from their flow. */
  datatype Traits = Traits(first: nat, service: nat, fragment: nat, hops: nat, options: seq<u8>)

  ghost function TraitsOf(pkt: seq<u8>, isV6: bool, thLen: nat): Traits
    requires |pkt| >= (if isV6 then 40 else 20) + thLen
  {
    var options := if thLen > 20 then pkt[(if isV6 then 60 else 40)..(if isV6 then 40 else 20) + thLen] else [];
    if isV6 then Traits(pkt[0], pkt[1] / 16, 0, pkt[7], options) else Traits(0, pkt[1], pkt[6] / 32, pkt[8], options)
  }

  ghost predicate Kind(pkt: seq<u8>, key: FlowKey, thLen: nat, traits: Traits) {
    && OfFlow(pkt, key)
    && |pkt| > (if key.isV6 then 40 else 20) + thLen
    && TraitsOf(pkt, key.isV6, thLen) == traits
  }

  ghost function Bodies(pkts: seq<seq<u8>>, hdrLen: nat): seq<seq<u8>> {
    seq(|pkts|, k requires 0 <= k < |pkts| => Payload(pkts[k], hdrLen))
  }

  ghost function SeqNum(pkt: seq<u8>, iphLen: nat): nat {
    if |pkt| < iphLen + 8 then 0 else Get32(pkt, iphLen + 4)
  }

  ghost function SeqNums(pkts: seq<seq<u8>>, iphLen: nat): seq<nat> {
    seq(|pkts|, k requires 0 <= k < |pkts| => SeqNum(pkts[k], iphLen))
  }

  function ProtocolOf(key: FlowKey): u8 { if key.tcp then IPPROTO_TCP else IPPROTO_UDP }

  ghost predicate Checked(pkt: seq<u8>, key: FlowKey) {
    var iphLen := if key.isV6 then 40 else 20;
    |pkt| >= iphLen && Verifies(pkt, iphLen, ProtocolOf(key), key.isV6)
  }

  ghost predicate GoodLengths(item: Item) {
    && item.iphLen == (if item.key.isV6 then 40 else 20)
    && (if item.key.tcp then 20 <= item.thLen <= 60 else item.thLen == UDPH_LEN)
    && item.gsoSize > 0 && item.sentSeq < 0x1_0000_0000
  }

  /** The packet carries the payloads of the original packets, in this order, cut every gsoSize bytes, with their sequence numbers. */
  ghost predicate Carries(item: Item, head: seq<u8>, origs: seq<seq<u8>>) {
    && GoodLengths(item)
    && Kinds(item, head, origs)
    && Cuts(Payload(head, item.HeadersLen()), item.gsoSize, Bodies(origs, item.HeadersLen()))
    && (item.key.tcp ==> SeqNum(head, item.iphLen) == item.sentSeq && Follow(item.sentSeq, item.gsoSize, SeqNums(origs, item.iphLen)))
  }

  ghost predicate Kinds(item: Item, head: seq<u8>, origs: seq<seq<u8>>)
    requires GoodLengths(item)
  {
    && |head| > item.HeadersLen() && Kind(head, item.key, item.thLen, TraitsOf(head, item.key.isV6, item.thLen))
    && forall k {:trigger origs[k]} :: 0 <= k < |origs| ==> Kind(origs[k], item.key, item.thLen, TraitsOf(head, item.key.isV6, item.thLen))
  }

  /** The item describes the packet at its index; a packet is merged only once its checksum was found valid. */
  ghost predicate Holds(item: Item, head: seq<u8>, origs: seq<seq<u8>>) {
    && Carries(item, head, origs)
    && |head| <= MAX_UINT16
    && |origs| == item.numMerged + 1
    && (item.numMerged == 0 ==> head == origs[0])
    && (item.numMerged > 0 ==> AllChecked(origs, item.key))
  }

  function NewItem(pkt: seq<u8>, p: Parsed, key: FlowKey, bufsIndex: nat, cSumKnownInvalid: bool): Item
    requires p.Fit? && 0 <= |pkt| - p.iphLen - p.thLen <= MAX_UINT16 && p.iphLen <= 0xff && p.thLen <= 0xff
  {
    Item(key, p.seqNum, bufsIndex, 0, |pkt| - p.iphLen - p.thLen, p.iphLen, p.thLen, p.psh, cSumKnownInvalid)
  }

  /** The packet parses as one of the flow. */
  ghost predicate Parses(pkt: seq<u8>, p: Parsed, key: FlowKey) {
    && OfFlow(pkt, key) && (key.isV6 || pkt[0] % 16 == 5)
    && p == Parse(pkt, key.tcp, key.isV6) && p.Fit?
  }

  lemma ParsedLengths(pkt: seq<u8>, p: Parsed, key: FlowKey)
    requires Parses(pkt, p, key)
    ensures p.Fit? && p.iphLen == (if key.isV6 then 40 else 20) && (if key.tcp then 20 <= p.thLen <= 60 else p.thLen == UDPH_LEN)
    ensures p.iphLen + p.thLen < |pkt| <= MAX_UINT16
    ensures p.seqNum < 0x1_0000_0000 && (key.tcp ==> p.seqNum == SeqNum(pkt, p.iphLen))
    ensures Kind(pkt, key, p.thLen, TraitsOf(pkt, key.isV6, p.thLen))
  {
    hide NewFlowKey, TraitsOf;
  }

  lemma HoldsNew(pkt: seq<u8>, p: Parsed, key: FlowKey, bufsIndex: nat, bad: bool)
    requires Parses(pkt, p, key)
    ensures p.Fit? && p.iphLen + p.thLen < |pkt| <= MAX_UINT16 && p.iphLen <= 0xff && p.thLen <= 0xff
    ensures Holds(NewItem(pkt, p, key, bufsIndex, bad), pkt, [pkt])
  {
    hide Parses, Kind, TraitsOf, Cuts, Follow, SeqNum, Parse;
    ParsedLengths(pkt, p, key);
    var item := NewItem(pkt, p, key, bufsIndex, bad);
    CutsOne(Payload(pkt, item.HeadersLen()));
    assert Bodies([pkt], item.HeadersLen()) == [Payload(pkt, item.HeadersLen())];
    FollowOne(item.sentSeq, item.gsoSize);
    assert key.tcp ==> SeqNums([pkt], item.iphLen) == [item.sentSeq];
  }

  function SetPsh(flags: u8): u8 {
    if flags / 8 % 2 == 1 then flags else flags + TCP_FLAG_PSH
  }

  /** The item's packet with the payload of pkt at its end. */
  function Appended(item: Item, head: seq<u8>, pkt: seq<u8>, psh: bool): seq<u8>
    requires item.HeadersLen() <= |pkt| && (psh ==> item.iphLen + TCP_FLAGS_OFFSET < |head|)
  {
    (if psh then head[item.iphLen + TCP_FLAGS_OFFSET := SetPsh(head[item.iphLen + TCP_FLAGS_OFFSET])] else head) + pkt[item.HeadersLen()..]
  }

  /** The flags are not part of what packets must share, and neither is the payload. */
  lemma AppendedKind(item: Item, head: seq<u8>, pkt: seq<u8>, psh: bool)
    requires GoodLengths(item) && item.HeadersLen() < |head| && item.HeadersLen() < |pkt| && (psh ==> item.key.tcp)
    requires OfFlow(head, item.key)
    ensures var r := Appended(item, head, pkt, psh);
            && |r| == |head| + |pkt| - item.HeadersLen() && OfFlow(r, item.key)
            && TraitsOf(r, item.key.isV6, item.thLen) == TraitsOf(head, item.key.isV6, item.thLen)
            && SeqNum(r, item.iphLen) == SeqNum(head, item.iphLen)
            && Payload(r, item.HeadersLen()) == Payload(head, item.HeadersLen()) + Payload(pkt, item.HeadersLen())
  {
    hide SetPsh, OfFlow, SeqNum, TraitsOf;
    var r := Appended(item, head, pkt, psh);
    var iph := item.iphLen;
    var n := iph + if item.key.tcp then 13 else 8;
    assert r[..n] == head[..n];
    SameStart(r, head, n, item.key);
    SameTraits(r, head, item.key.isV6, item.thLen);
  }

  lemma SameTraits(a: seq<u8>, b: seq<u8>, isV6: bool, thLen: nat)
    requires var n := (if isV6 then 40 else 20) + thLen;
             n <= |a| && n <= |b| && forall k {:trigger a[k]} :: 0 <= k < n && k != (if isV6 then 53 else 33) ==> a[k] == b[k]
    ensures TraitsOf(a, isV6, thLen) == TraitsOf(b, isV6, thLen)
  {
    var iph := if isV6 then 40 else 20;
    if thLen > 20 {
      assert a[iph + 20..iph + thLen] == b[iph + 20..iph + thLen];
    }
  }

  /** A packet's flow is read from the start of its headers. */
  lemma SameStart(a: seq<u8>, b: seq<u8>, n: nat, key: FlowKey)
    requires n == (if key.isV6 then 40 else 20) + (if key.tcp then 13 else 8)
    requires n <= |a| && n <= |b| && a[..n] == b[..n] && OfFlow(b, key) && (key.tcp ==> |a| >= n + 7)
    ensures OfFlow(a, key) && SeqNum(a, if key.isV6 then 40 else 20) == SeqNum(b, if key.isV6 then 40 else 20)
  {
    hide Pair;
    assert forall k {:trigger a[k]} :: 0 <= k < n ==> a[k] == a[..n][k] == b[k];
    var at, w := if key.isV6 then 8 else 12, if key.isV6 then 16 else 4;
    assert a[at..at + w] == b[at..at + w] && a[at + w..at + 2 * w] == b[at + w..at + 2 * w];
  }

  /** Merging is only considered for packets alike. */
  lemma CanCoalesceAlike(pkt: seq<u8>, p: Parsed, item: Item, head: seq<u8>)
    requires Parses(pkt, p, item.key) && GoodLengths(item) && |head| > item.HeadersLen() && OfFlow(head, item.key)
    ensures p.Fit? && p.iphLen == item.iphLen && p.iphLen + p.thLen < |pkt|
    ensures (item.key.tcp && p.thLen >= 20 && TcpPacketsCanCoalesce(pkt, p, item, head) != Unavailable) ==>
              p.thLen == item.thLen && TraitsOf(pkt, item.key.isV6, item.thLen) == TraitsOf(head, item.key.isV6, item.thLen)
    ensures (!item.key.tcp && UdpPacketsCanCoalesce(pkt, p, item, head) != Unavailable) ==>
              p.thLen == item.thLen && TraitsOf(pkt, item.key.isV6, item.thLen) == TraitsOf(head, item.key.isV6, item.thLen)
  {
    hide Parse, LhsLen, NewFlowKey;
    ParsedLengths(pkt, p, item.key);
  }

  function AppendedItem(item: Item, psh: bool): Item
    requires item.numMerged < 0xffff
  {
    item.(pshSet := item.pshSet || psh, numMerged := item.numMerged + 1)
  }

  lemma BodiesMore(pkts: seq<seq<u8>>, pkt: seq<u8>, hdrLen: nat, iphLen: nat)
    ensures Bodies(pkts + [pkt], hdrLen) == Bodies(pkts, hdrLen) + [Payload(pkt, hdrLen)]
    ensures Bodies([pkt] + pkts, hdrLen) == [Payload(pkt, hdrLen)] + Bodies(pkts, hdrLen)
    ensures SeqNums(pkts + [pkt], iphLen) == SeqNums(pkts, iphLen) + [SeqNum(pkt, iphLen)]
    ensures SeqNums([pkt] + pkts, iphLen) == [SeqNum(pkt, iphLen)] + SeqNums(pkts, iphLen)
  {
    hide SeqNum, Payload;
  }

  /** An item that packets can still be appended to is full: its payload is numMerged + 1 times gsoSize, in 16 bits too. */
  lemma FullItem(item: Item, head: seq<u8>, origs: seq<seq<u8>>)
    requires Holds(item, head, origs)
    ensures item.numMerged + 1 < |head| && item.HeadersLen() < |head|
    ensures (|head| - item.HeadersLen()) % item.gsoSize == 0 ==>
              LhsLen(item) == |origs| * item.gsoSize == |head| - item.HeadersLen()
  {
    hide Kinds, Follow;
    var payload := Payload(head, item.HeadersLen());
    CutsCount(payload, item.gsoSize, Bodies(origs, item.HeadersLen()));
    PieceBounds(|origs|, item.gsoSize, item.numMerged);
  }

  /** Appending keeps what the item stands for. */
  lemma CarriesAppend(item: Item, head: seq<u8>, origs: seq<seq<u8>>, pkt: seq<u8>, psh: bool)
    requires Holds(item, head, origs) && (psh ==> item.key.tcp) && item.numMerged < 0xffff
    requires Kind(pkt, item.key, item.thLen, TraitsOf(head, item.key.isV6, item.thLen)) && |head| > item.HeadersLen()
    requires (|head| - item.HeadersLen()) % item.gsoSize == 0 && item.HeadersLen() < |pkt| <= item.HeadersLen() + item.gsoSize
    requires item.key.tcp ==> SeqNum(pkt, item.iphLen) == (item.sentSeq + LhsLen(item)) % 0x1_0000_0000
    ensures Carries(AppendedItem(item, psh), Appended(item, head, pkt, psh), origs + [pkt])
  {
    hide Kind, Cuts, Follow, SeqNum, TraitsOf, LhsLen, OfFlow, Payload, Appended;
    FullItem(item, head, origs);
    AppendedFlow(item, head, origs, pkt, psh);
    var h := item.HeadersLen();
    BodiesMore(origs, pkt, h, item.iphLen);
    assert |Payload(pkt, h)| == |pkt| - h && |Payload(head, h)| == |head| - h by { PayloadLength(pkt, h); PayloadLength(head, h); }
    CutsAppend(Payload(head, h), item.gsoSize, Bodies(origs, h), Payload(pkt, h));
    if item.key.tcp {
      FollowAppend(item.sentSeq, item.gsoSize, SeqNums(origs, item.iphLen), SeqNum(pkt, item.iphLen));
    }
  }

  lemma PayloadLength(pkt: seq<u8>, h: nat)
    requires h <= |pkt|
    ensures |Payload(pkt, h)| == |pkt| - h
  {
  }

  lemma AppendedFlow(item: Item, head: seq<u8>, origs: seq<seq<u8>>, pkt: seq<u8>, psh: bool)
    requires Holds(item, head, origs) && (psh ==> item.key.tcp) && item.numMerged < 0xffff
    requires Kind(pkt, item.key, item.thLen, TraitsOf(head, item.key.isV6, item.thLen)) && |head| > item.HeadersLen()
    ensures psh ==> item.iphLen + TCP_FLAGS_OFFSET < |head|
    ensures var r := Appended(item, head, pkt, psh);
            && |r| == |head| + |pkt| - item.HeadersLen() && Kinds(AppendedItem(item, psh), r, origs + [pkt])
            && SeqNum(r, item.iphLen) == SeqNum(head, item.iphLen)
            && Payload(r, item.HeadersLen()) == Payload(head, item.HeadersLen()) + Payload(pkt, item.HeadersLen())
  {
    hide Appended, TraitsOf, OfFlow, SeqNum, Payload, Cuts, Follow;
    AppendedKind(item, head, pkt, psh);
  }

  function PrependedItem(item: Item, seqNum: nat, gsoSize: u16): Item
    requires item.numMerged < 0xffff
  {
    item.(sentSeq := seqNum, gsoSize := if gsoSize > item.gsoSize then gsoSize else item.gsoSize, numMerged := item.numMerged + 1)
  }

  /** Prepending keeps what the item stands for. */
  lemma CarriesPrepend(item: Item, head: seq<u8>, origs: seq<seq<u8>>, pkt: seq<u8>)
    requires Holds(item, head, origs) && item.key.tcp && item.numMerged < 0xffff
    requires Kind(pkt, item.key, item.thLen, TraitsOf(head, item.key.isV6, item.thLen)) && |head| > item.HeadersLen()
    requires item.HeadersLen() + item.gsoSize <= |pkt| <= MAX_UINT16 && (item.numMerged > 0 ==> |pkt| == item.HeadersLen() + item.gsoSize)
    requires SeqNum(pkt, item.iphLen) < 0x1_0000_0000
    requires (SeqNum(pkt, item.iphLen) + (|pkt| - item.HeadersLen())) % 0x1_0000_0000 == item.sentSeq
    ensures Carries(PrependedItem(item, SeqNum(pkt, item.iphLen), |pkt| - item.HeadersLen()), pkt + head[item.HeadersLen()..], [pkt] + origs)
  {
    hide Kind, Cuts, Follow, SeqNum, TraitsOf, OfFlow, Payload;
    var h := item.HeadersLen();
    var item' := PrependedItem(item, SeqNum(pkt, item.iphLen), |pkt| - h);
    PrependedFlow(item, head, origs, pkt, item');
    BodiesMore(origs, pkt, h, item.iphLen);
    PayloadLength(pkt, h);
    if item'.gsoSize == item.gsoSize {
      CutsPrepend(Payload(head, h), item.gsoSize, Bodies(origs, h), Payload(pkt, h));
      FollowPrepend(item.sentSeq, item.gsoSize, SeqNums(origs, item.iphLen), item'.sentSeq);
    } else {
      CutsPrependLarger(Payload(head, h), item.gsoSize, Bodies(origs, h), Payload(pkt, h));
      FollowLone(item.sentSeq, item.gsoSize, item'.gsoSize, SeqNums(origs, item.iphLen));
      FollowPrepend(item.sentSeq, item'.gsoSize, SeqNums(origs, item.iphLen), item'.sentSeq);
    }
  }

  lemma FollowLone(first: nat, g: nat, g': nat, seqs: seq<nat>)
    requires |seqs| == 1 && Follow(first, g, seqs)
    ensures Follow(first, g', seqs)
  {
    assert seqs[0] == (first + 0 * g) % 0x1_0000_0000;
  }

  lemma PrependedFlow(item: Item, head: seq<u8>, origs: seq<seq<u8>>, pkt: seq<u8>, item': Item)
    requires Holds(item, head, origs) && item.key.tcp && GoodLengths(item')
    requires item'.key == item.key && item'.thLen == item.thLen
    requires Kind(pkt, item.key, item.thLen, TraitsOf(head, item.key.isV6, item.thLen)) && |head| > item.HeadersLen()
    ensures var r := pkt + head[item.HeadersLen()..];
            && Kinds(item', r, [pkt] + origs)
            && SeqNum(r, item.iphLen) == SeqNum(pkt, item.iphLen)
            && Payload(r, item.HeadersLen()) == Payload(pkt, item.HeadersLen()) + Payload(head, item.HeadersLen())
  {
    hide TraitsOf, OfFlow, SeqNum, Cuts, Follow;
    var r := pkt + head[item.HeadersLen()..];
    var n := item.iphLen + 13;
    assert r[..n] == pkt[..n];
    SameStart(r, pkt, n, item.key);
    SameTraits(r, pkt, item.key.isV6, item.thLen);
  }

  ghost predicate AllChecked(origs: seq<seq<u8>>, key: FlowKey) {
    forall k {:trigger origs[k]} :: 0 <= k < |origs| ==> Checked(origs[k], key)
  }

  /** Once the item's own packet and the new one are checked, all are. */
  lemma AllCheckedMore(item: Item, head: seq<u8>, origs: seq<seq<u8>>, pkt: seq<u8>)
    requires Holds(item, head, origs) && Checked(pkt, item.key) && (item.numMerged == 0 ==> Checked(head, item.key))
    ensures AllChecked(origs + [pkt], item.key) && AllChecked([pkt] + origs, item.key)
  {
    hide Carries, Checked;
  }

  /** A packet found fit to be appended is appended rightly. */
  lemma HoldsAppend(item: Item, head: seq<u8>, origs: seq<seq<u8>>, pkt: seq<u8>, p: Parsed)
    requires Holds(item, head, origs) && Parses(pkt, p, item.key)
    requires |head| > item.HeadersLen() && |pkt| > p.iphLen + p.thLen && p.iphLen == item.iphLen
    requires if item.key.tcp then p.thLen >= 20 && TcpPacketsCanCoalesce(pkt, p, item, head) == Append
             else UdpPacketsCanCoalesce(pkt, p, item, head) == Append
    requires Checked(pkt, item.key) && (item.numMerged == 0 ==> Checked(head, item.key))
    requires |head| + |pkt| - item.HeadersLen() <= MAX_UINT16
    ensures p.thLen == item.thLen && item.numMerged < 0xffff && (p.psh ==> item.key.tcp && item.iphLen + TCP_FLAGS_OFFSET < |head|)
    ensures Holds(AppendedItem(item, p.psh), Appended(item, head, pkt, p.psh), origs + [pkt])
  {
    hide Cuts, Follow, OfFlow, TraitsOf, SeqNum, LhsLen, Checked, Parse, Appended, IpHeadersCanCoalesce, Bodies, SeqNums, Payload;
    ParsedLengths(pkt, p, item.key);
    assert OfFlow(head, item.key);
    CanCoalesceAlike(pkt, p, item, head);
    FullItem(item, head, origs);
    OnlyTcpPushes(pkt, p, item.key);
    AllCheckedMore(item, head, origs, pkt);
    CarriesAppend(item, head, origs, pkt, p.psh);
    AppendedFlow(item, head, origs, pkt, p.psh);
  }

  lemma OnlyTcpPushes(pkt: seq<u8>, p: Parsed, key: FlowKey)
    requires Parses(pkt, p, key)
    ensures p.psh ==> key.tcp
  {
  }

  /** A packet found fit to be prepended is prepended rightly. */
  lemma HoldsPrepend(item: Item, head: seq<u8>, origs: seq<seq<u8>>, pkt: seq<u8>, p: Parsed)
    requires Holds(item, head, origs) && Parses(pkt, p, item.key)
    requires |head| > item.HeadersLen() && |pkt| > p.iphLen + p.thLen && p.iphLen == item.iphLen
    requires item.key.tcp && p.thLen >= 20 && TcpPacketsCanCoalesce(pkt, p, item, head) == Prepend
    requires Checked(pkt, item.key) && (item.numMerged == 0 ==> Checked(head, item.key))
    requires |head| + |pkt| - item.HeadersLen() <= MAX_UINT16
    ensures p.thLen == item.thLen && item.numMerged < 0xffff && |pkt| - item.HeadersLen() <= MAX_UINT16
    ensures Holds(PrependedItem(item, p.seqNum, |pkt| - item.HeadersLen()), pkt + head[item.HeadersLen()..], [pkt] + origs)
  {
    hide Cuts, Follow, OfFlow, TraitsOf, SeqNum, LhsLen, Checked, Parse, IpHeadersCanCoalesce, Bodies, SeqNums, Payload;
    ParsedLengths(pkt, p, item.key);
    assert OfFlow(head, item.key);
    CanCoalesceAlike(pkt, p, item, head);
    FullItem(item, head, origs);
    AllCheckedMore(item, head, origs, pkt);
    CarriesPrepend(item, head, origs, pkt);
  }

  // ---------------------------------------------------------------- headers of a merged packet

  /** The header bytes that depend on the length of the packet. */
  predicate LengthByte(item: Item, k: int) {
    || (if item.key.isV6 then 4 <= k < 6 else 2 <= k < 4 || 10 <= k < 12)
    || (if item.key.tcp then item.iphLen + 16 <= k < item.iphLen + 18 else item.iphLen + 4 <= k < item.iphLen + 8)
  }

  /** Headers that say how long the packet is, with the pseudo header's sum where the transport checksum goes. */
  ghost predicate Accounted(item: Item, out: seq<u8>)
    requires GoodLengths(item) && |out| > item.HeadersLen()
  {
    && (if item.key.isV6 then Get16(out, 4) == |out| - item.iphLen
        else Get16(out, 2) == |out| && Fold(Sum(out[..item.iphLen])) == 0xffff)
    && (!item.key.tcp ==> Get16(out, item.iphLen + 4) == |out| - item.iphLen)
    && Get16(out, item.iphLen + (if item.key.tcp then 16 else 6)) == Fold(PseudoSum(out, item.iphLen, ProtocolOf(item.key), item.key.isV6))
  }

  /** The IP header's own length and checksum. */
  method AccountIp(item: Item, ip: seq<u8>, len: u16, little: bool) returns (out: seq<u8>)
    requires GoodLengths(item) && |ip| == item.iphLen <= len
    ensures |out| == |ip| && (forall k {:trigger out[k]} :: 0 <= k < |ip| && !LengthByte(item, k) ==> out[k] == ip[k])
    ensures if item.key.isV6 then Get16(out, 4) == len - item.iphLen else Get16(out, 2) == len && Fold(Sum(out)) == 0xffff
  {
    hide Fold, Sum;
    if item.key.isV6 {
      out := Put16(ip, 4, len - item.iphLen);
    } else {
      out := ip[10 := 0][11 := 0];
      out := Put16(out, 2, len);
      var sum := Checksum(out, 0, little);
      ChecksumFieldFits(0, out, 10);
      out := Put16(out, 10, 0xffff - sum);
    }
  }

  /** The transport header's length, if it has one, and the pseudo header's sum. */
  method AccountTransport(item: Item, ip: seq<u8>, rest: seq<u8>, little: bool) returns (out: seq<u8>)
    requires GoodLengths(item) && |ip| == item.iphLen && |rest| > item.thLen && |ip| + |rest| <= MAX_UINT16
    ensures |out| == |rest| && (forall k {:trigger out[k]} :: 0 <= k < |rest| && !LengthByte(item, item.iphLen + k) ==> out[k] == rest[k])
    ensures !item.key.tcp ==> Get16(out, 4) == |rest|
    ensures Get16(out, if item.key.tcp then 16 else 6) == Fold(PseudoSum(ip + rest, item.iphLen, ProtocolOf(item.key), item.key.isV6))
  {
    hide Fold, Sum;
    out := rest;
    if !item.key.tcp {
      out := Put16(out, 4, |rest|);
    }
    var at, n := 12, 4;
    if item.key.isV6 {
      at, n := 8, 16;
    }
    var psum := PseudoHeaderChecksumNoFold(ProtocolOf(item.key), ip[at..at + n], ip[at + n..at + 2 * n], |rest|, little);
    var sum := Checksum([], psum, little);
    SumNone();
    assert (ip + rest)[at..at + n] == ip[at..at + n] && (ip + rest)[at + n..at + 2 * n] == ip[at + n..at + 2 * n];
    out := Put16(out, if item.key.tcp then 16 else 6, sum);
  }

  lemma SumNone()
    ensures Sum([]) == 0
  {
  }

  /** Brings the headers of a merged packet up to date with its length. */
  method Account(item: Item, pkt: seq<u8>, little: bool) returns (out: seq<u8>)
    requires GoodLengths(item) && item.HeadersLen() < |pkt| <= MAX_UINT16
    ensures |out| == |pkt| && Accounted(item, out)
    ensures forall k {:trigger out[k]} :: 0 <= k < |pkt| && !LengthByte(item, k) ==> out[k] == pkt[k]
  {
    hide Fold, Sum, PseudoSum;
    var ip := AccountIp(item, pkt[..item.iphLen], |pkt|, little);
    var rest := AccountTransport(item, ip, pkt[item.iphLen..], little);
    out := ip + rest;
    assert out[..item.iphLen] == ip;
    SamePseudo(ip, pkt[item.iphLen..], rest, ProtocolOf(item.key), item.key.isV6);
  }

  lemma SamePseudo(ip: seq<u8>, rest: seq<u8>, rest': seq<u8>, proto: u8, isV6: bool)
    requires |ip| >= (if isV6 then 40 else 20) && |rest| == |rest'|
    ensures PseudoSum(ip + rest, |ip|, proto, isV6) == PseudoSum(ip + rest', |ip|, proto, isV6)
  {
    hide Sum;
    var at, n := if isV6 then 8 else 12, if isV6 then 16 else 4;
    assert (ip + rest)[at..at + n] == ip[at..at + n] == (ip + rest')[at..at + n];
    assert (ip + rest)[at + n..at + 2 * n] == ip[at + n..at + 2 * n] == (ip + rest')[at + n..at + 2 * n];
  }

  /** The new lengths and checksums are none of what a merged packet is judged by. */
  lemma CarriesAccounted(item: Item, pkt: seq<u8>, out: seq<u8>, origs: seq<seq<u8>>)
    requires Carries(item, pkt, origs) && |out| == |pkt|
    requires forall k {:trigger out[k]} :: 0 <= k < |pkt| && !LengthByte(item, k) ==> out[k] == pkt[k]
    ensures Carries(item, out, origs)
  {
    hide Cuts, Follow, OfFlow, TraitsOf, SeqNum, Bodies, SeqNums;
    AccountedFlow(item, pkt, out);
    AccountedTraits(item, pkt, out);
    assert Payload(out, item.HeadersLen()) == Payload(pkt, item.HeadersLen());
  }

  lemma AccountedFlow(item: Item, pkt: seq<u8>, out: seq<u8>)
    requires GoodLengths(item) && |out| == |pkt| > item.HeadersLen() && OfFlow(pkt, item.key)
    requires forall k {:trigger out[k]} :: 0 <= k < |pkt| && !LengthByte(item, k) ==> out[k] == pkt[k]
    ensures OfFlow(out, item.key) && (item.key.tcp ==> SeqNum(out, item.iphLen) == SeqNum(pkt, item.iphLen))
  {
    hide Pair;
    var at, n := if item.key.isV6 then 8 else 12, if item.key.isV6 then 16 else 4;
    assert out[at..at + n] == pkt[at..at + n] && out[at + n..at + 2 * n] == pkt[at + n..at + 2 * n];
  }

  lemma AccountedTraits(item: Item, pkt: seq<u8>, out: seq<u8>)
    requires GoodLengths(item) && |out| == |pkt| > item.HeadersLen()
    requires forall k {:trigger out[k]} :: 0 <= k < |pkt| && !LengthByte(item, k) ==> out[k] == pkt[k]
    ensures TraitsOf(out, item.key.isV6, item.thLen) == TraitsOf(pkt, item.key.isV6, item.thLen)
  {
    if item.thLen > 20 {
      assert out[item.iphLen + 20..item.iphLen + item.thLen] == pkt[item.iphLen + 20..item.iphLen + item.thLen];
    }
  }

  // ---------------------------------------------------------------- cutting a merged packet again

  /** The virtio header written in front of a merged packet. */
  function HdrOf(item: Item): VirtioHdr {
    VirtioHdr(item.key.tcp, item.iphLen + item.thLen, item.gsoSize, item.iphLen, if item.key.tcp then 16 else 6)
  }

  lemma HdrFits(item: Item, head: seq<u8>, origs: seq<seq<u8>>)
    requires Carries(item, head, origs) && |head| <= MAX_UINT16
    ensures WellFormed(head, HdrOf(item), item.key.isV6)
  {
    hide Kind, Cuts, Follow;
  }

  lemma SameCount(len: nat, g: nat, n: nat, m: nat)
    requires m >= 1 && (m - 1) * g < len <= m * g && len <= n * g && (n > 0 ==> (n - 1) * g < len)
    ensures n == m
  {
    if n < m {
      PieceBounds(m, g, n);
    } else if m < n {
      PieceBounds(n, g, m);
    }
  }

  /** Segment k of a merged packet is packet k of those it was made from. */
  lemma SegmentIsOriginal(item: Item, head: seq<u8>, origs: seq<seq<u8>>, k: nat, seg: seq<u8>)
    requires Carries(item, head, origs) && |head| <= MAX_UINT16 && k < |origs|
    requires WellFormed(head, HdrOf(item), item.key.isV6)
    requires GoodSegment(head, HdrOf(item), item.key.isV6, k, SegmentStart(HdrOf(item), k), SegmentEnd(head, HdrOf(item), k), seg)
    ensures Payload(seg, item.HeadersLen()) == Payload(origs[k], item.HeadersLen())
    ensures item.key.tcp ==> SeqNum(seg, item.iphLen) == SeqNum(origs[k], item.iphLen)
  {
    hide Kinds, GoodSegment, SegmentStart, SegmentEnd, SeqNum, Cuts, Follow;
    var h := item.HeadersLen();
    var hdr := HdrOf(item);
    var start, end := SegmentStart(hdr, k), SegmentEnd(head, hdr, k);
    GoodPayload(head, hdr, item.key.isV6, k, start, end, seg);
    PieceAt(head, h, item.gsoSize, Bodies(origs, h), hdr, k);
    if item.key.tcp {
      SegmentSeqNum(head, hdr, item.key.isV6, k, start, end, seg);
      FollowAt(item.sentSeq, item.gsoSize, SeqNums(origs, item.iphLen), k);
    }
  }

  lemma FollowAt(first: nat, g: nat, seqs: seq<nat>, k: nat)
    requires Follow(first, g, seqs) && k < |seqs|
    ensures seqs[k] == (first + k * g) % 0x1_0000_0000
  {
  }

  lemma PieceAt(head: seq<u8>, h: nat, g: nat, pieces: seq<seq<u8>>, hdr: VirtioHdr, k: nat)
    requires h == hdr.hdrLen <= |head| && g == hdr.gsoSize && Cuts(Payload(head, h), g, pieces) && k < |pieces|
    ensures SegmentStart(hdr, k) <= SegmentEnd(head, hdr, k) <= |head| ==>
              pieces[k] == head[SegmentStart(hdr, k)..SegmentEnd(head, hdr, k)]
  {
    assert IsPiece(Payload(head, h), g, k, pieces[k]);
    if SegmentStart(hdr, k) <= SegmentEnd(head, hdr, k) <= |head| {
      SliceOfPayload(head, h, SegmentStart(hdr, k), SegmentEnd(head, hdr, k));
    }
  }

  lemma SliceOfPayload(head: seq<u8>, h: nat, start: nat, end: nat)
    requires h <= start <= end <= |head|
    ensures head[start..end] == Payload(head, h)[start - h..end - h]
  {
    var payload := Payload(head, h);
    assert forall i :: 0 <= i < end - start ==> head[start..end][i] == payload[start - h..end - h][i];
  }

  lemma SegmentSeqNum(head: seq<u8>, hdr: VirtioHdr, isV6: bool, k: nat, start: nat, end: nat, seg: seq<u8>)
    requires WellFormed(head, hdr, isV6) && hdr.tcp && GoodSegment(head, hdr, isV6, k, start, end, seg)
    ensures SeqNum(seg, hdr.csumStart) == (SeqNum(head, hdr.csumStart) + k * hdr.gsoSize) % 0x1_0000_0000
  {
    hide Verifies, GoodIpHeader, Pair;
    var th := seg[hdr.csumStart..hdr.hdrLen];
    assert Get32(th, 4) == Get32(seg, hdr.csumStart + 4);
  }

  /**
   Splitting a merged packet gives back the packets it was made from: as many, in the same order, with
   the same payloads and the same sequence numbers.
   */
  lemma SplitUndoesMerge(item: Item, head: seq<u8>, origs: seq<seq<u8>>, segs: seq<seq<u8>>)
    requires Carries(item, head, origs) && |head| <= MAX_UINT16
    requires WellFormed(head, HdrOf(item), item.key.isV6)
    requires GoodSegments(head, HdrOf(item), item.key.isV6, segs)
    requires |head| <= SegmentStart(HdrOf(item), |segs|) && (|segs| > 0 ==> SegmentStart(HdrOf(item), |segs| - 1) < |head|)
    ensures |segs| == |origs|
    ensures forall k {:trigger segs[k]} :: 0 <= k < |segs| ==>
              && Payload(segs[k], item.HeadersLen()) == Payload(origs[k], item.HeadersLen())
              && (item.key.tcp ==> SeqNum(segs[k], item.iphLen) == SeqNum(origs[k], item.iphLen))
  {
    hide Kinds, Follow, GoodSegment, SeqNum;
    SameCount(|head| - item.HeadersLen(), item.gsoSize, |segs|, |origs|);
    forall k | 0 <= k < |segs|
      ensures && Payload(segs[k], item.HeadersLen()) == Payload(origs[k], item.HeadersLen())
              && (item.key.tcp ==> SeqNum(segs[k], item.iphLen) == SeqNum(origs[k], item.iphLen))
    {
      SegmentIsOriginal(item, head, origs, k, segs[k]);
    }
  }

  lemma EnoughBuffers(item: Item, head: seq<u8>, origs: seq<seq<u8>>, nbufs: nat)
    requires Carries(item, head, origs)
    ensures |head| <= SegmentStart(HdrOf(item), nbufs) <==> |origs| <= nbufs
  {
    hide Kinds, Follow;
    if |origs| <= nbufs {
      PieceBounds(nbufs + 1, item.gsoSize, |origs|);
    } else {
      PieceBounds(|origs|, item.gsoSize, nbufs);
    }
  }
}
