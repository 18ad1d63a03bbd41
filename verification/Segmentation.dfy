/**
 Splitting a large offloaded packet into segments.  The packet arrives with one set of headers
 and a payload of up to 64 KiB; each segment gets a copy of the headers with the lengths, the
 IPv4 identification, the TCP sequence number and flags and both checksums brought up to date.
 */
module Segmentation {
  import opened InternetChecksum

  const IPPROTO_TCP: u8 := 6
  const IPPROTO_UDP: u8 := 17
  const TCP_FLAGS_OFFSET := 13

  /** The fields of the virtio header that splitting uses; gsoType only tells TCP from UDP. */
  datatype VirtioHdr = VirtioHdr(tcp: bool, hdrLen: u16, gsoSize: u16, csumStart: u16, csumOffset: u16)

  // ---------------------------------------------------------------- big-endian fields

  function Get16(s: seq<u8>, at: nat): u16
    requires at + 2 <= |s|
  {
    Pair(s[at], s[at + 1])
  }

  function Put16(s: seq<u8>, at: nat, v: u16): (r: seq<u8>)
    requires at + 2 <= |s|
    ensures |r| == |s| && Get16(r, at) == v
    ensures forall k {:trigger r[k]} :: 0 <= k < |s| && !(at <= k < at + 2) ==> r[k] == s[k]
  {
    s[at := v / 0x100][at + 1 := v % 0x100]
  }

  function Get32(s: seq<u8>, at: nat): nat
    requires at + 4 <= |s|
  {
    0x1_0000 * Get16(s, at) + Get16(s, at + 2)
  }

  function Put32(s: seq<u8>, at: nat, v: nat): (r: seq<u8>)
    requires at + 4 <= |s| && v < 0x1_0000_0000
    ensures |r| == |s| && Get32(r, at) == v
    ensures forall k {:trigger r[k]} :: 0 <= k < |s| && !(at <= k < at + 4) ==> r[k] == s[k]
  {
    Put16(Put16(s, at, v / 0x1_0000), at + 2, v % 0x1_0000)
  }

  // ---------------------------------------------------------------- checksums of packets

  /** Writing a word over two zero bytes at an even offset adds it to the sum. */
  lemma SumPut16(s: seq<u8>, at: nat, v: u16)
    requires at + 2 <= |s| && at % 2 == 0 && s[at] == 0 && s[at + 1] == 0
    ensures Sum(Put16(s, at, v)) == Sum(s) + v
  {
    var r := Put16(s, at, v);
    var mid: seq<u8>, zero: seq<u8> := [v / 0x100, v % 0x100], [0, 0];
    assert s == s[..at] + (zero + s[at + 2..]) && r == s[..at] + (mid + s[at + 2..]);
    SumAppend(s[..at], zero + s[at + 2..]);
    SumAppend(s[..at], mid + s[at + 2..]);
    SumAppend(zero, s[at + 2..]);
    SumAppend(mid, s[at + 2..]);
    SumPair(0, 0);
    SumPair(v / 0x100, v % 0x100);
  }

  /** Storing the complement of the sum in the zeroed field makes the whole sum to all ones. */
  lemma ChecksumFieldFits(base: nat, s: seq<u8>, at: nat)
    requires at + 2 <= |s| && at % 2 == 0 && s[at] == 0 && s[at + 1] == 0
    ensures Fold(base + Sum(Put16(s, at, 0xffff - Fold(base + Sum(s))))) == 0xffff
  {
    var f := Fold(base + Sum(s));
    SumPut16(s, at, 0xffff - f);
    FoldAdd(base + Sum(s), 0xffff - f);
    FoldSmall(0xffff - f);
  }

  /** The sum of a pseudo header as a packet's transport checksum covers it. */
  ghost function PseudoSum(pkt: seq<u8>, iphLen: nat, proto: u8, isV6: bool): nat
    requires |pkt| >= iphLen >= if isV6 then 40 else 20
  {
    var at, n := if isV6 then 8 else 12, if isV6 then 16 else 4;
    Sum(pkt[at..at + n]) + Sum(pkt[at + n..at + 2 * n]) + proto + (|pkt| - iphLen) % 0x1_0000
  }

  /** The transport checksum of a packet verifies. */
  ghost predicate Verifies(pkt: seq<u8>, iphLen: nat, proto: u8, isV6: bool)
    requires |pkt| >= iphLen >= if isV6 then 40 else 20
  {
    Fold(PseudoSum(pkt, iphLen, proto, isV6) + Sum(pkt[iphLen..])) == 0xffff
  }

  method ChecksumValid(pkt: seq<u8>, iphLen: u8, proto: u8, isV6: bool, little: bool) returns (valid: bool)
    requires |pkt| >= iphLen as int >= if isV6 then 40 else 20
    ensures valid <==> Verifies(pkt, iphLen, proto, isV6)
  {
    var srcAddrAt, addrSize := 12, 4;
    if isV6 {
      srcAddrAt, addrSize := 8, 16;
    }
    var lenForPseudo := (|pkt| - iphLen as int) % 0x1_0000;
    var cSum := PseudoHeaderChecksumNoFold(proto, pkt[srcAddrAt..srcAddrAt + addrSize],
                                           pkt[srcAddrAt + addrSize..srcAddrAt + addrSize * 2], lenForPseudo, little);
    var sum := Checksum(pkt[iphLen..], cSum, little);
    FoldChain(cSum, PseudoSum(pkt, iphLen, proto, isV6), Sum(pkt[iphLen..]));
    valid := 0xffff - sum == 0;
  }

  // ---------------------------------------------------------------- one segment

  /** A packet that can be split: its headers are all there and the whole is at most 65535 bytes. */
  ghost predicate WellFormed(input: seq<u8>, hdr: VirtioHdr, isV6: bool) {
    && hdr.csumStart >= (if isV6 then 40 else 20)
    && hdr.csumOffset == (if hdr.tcp then 16 else 6)
    && (if hdr.tcp then hdr.csumStart + 20 <= hdr.hdrLen else hdr.csumStart + 8 == hdr.hdrLen)
    && hdr.hdrLen <= |input| <= 0xffff
  }

  /** The checksum fields have been cleared. */
  ghost predicate ClearedInput(input: seq<u8>, hdr: VirtioHdr, isV6: bool)
    requires WellFormed(input, hdr, isV6)
  {
    && (!isV6 ==> input[10] == 0 && input[11] == 0)
    && input[hdr.csumStart + hdr.csumOffset] == 0 && input[hdr.csumStart + hdr.csumOffset + 1] == 0
  }

  /** The fields of an IP header that differ between segments. */
  predicate IpRewritten(k: int, isV6: bool) {
    if isV6 then 4 <= k < 6 else 2 <= k < 6 || 10 <= k < 12
  }

  /** A header agrees with the packet's but for those fields. */
  ghost predicate SameIp(input: seq<u8>, out: seq<u8>, isV6: bool)
    requires |out| <= |input|
  {
    forall k :: 0 <= k < |out| && !IpRewritten(k, isV6) ==> out[k] == input[k]
  }

  /** The fields of a transport header that differ between segments, as offsets into it. */
  predicate TransportRewritten(k: int, tcp: bool) {
    if tcp then 4 <= k < 8 || k == TCP_FLAGS_OFFSET || 16 <= k < 18 else 4 <= k < 8
  }

  function ClearFinPsh(flags: u8): u8 {
    flags - flags % 2 - (if flags / 8 % 2 == 1 then 8 else 0)
  }

  /** Where the payload of segment i starts. */
  function SegmentStart(hdr: VirtioHdr, i: nat): (r: nat) ensures r >= hdr.hdrLen { hdr.hdrLen + i * hdr.gsoSize }

  /** The IP header of segment i: its own length, identification and checksum, everything else kept. */
  ghost predicate GoodIpHeader(input: seq<u8>, hdr: VirtioHdr, isV6: bool, i: nat, totalLen: nat, out: seq<u8>)
    requires WellFormed(input, hdr, isV6)
  {
    && |out| == hdr.csumStart
    && SameIp(input, out, isV6)
    && (if isV6 then Get16(out, 4) == totalLen - hdr.csumStart
        else Get16(out, 2) == totalLen && Get16(out, 4) == (Get16(input, 4) + i) % 0x1_0000 && Fold(Sum(out)) == 0xffff)
  }

  /** The transport header of segment i: its own sequence number and flags, or length, everything else but the checksum kept. */
  ghost predicate GoodTransportHeader(input: seq<u8>, hdr: VirtioHdr, isV6: bool, i: nat, dataLen: nat, last: bool, out: seq<u8>)
    requires WellFormed(input, hdr, isV6)
  {
    && |out| == hdr.hdrLen - hdr.csumStart
    && (forall k :: 0 <= k < |out| && !TransportRewritten(k, hdr.tcp) ==> out[k] == input[hdr.csumStart + k])
    && (if hdr.tcp
        then && Get32(out, 4) == (Get32(input, hdr.csumStart + 4) + (SegmentStart(hdr, i) - hdr.hdrLen)) % 0x1_0000_0000
             && out[13] == (if last then input[hdr.csumStart + 13] else ClearFinPsh(input[hdr.csumStart + 13]))
        else Get16(out, 4) == 8 + dataLen)
  }

  /** The IP header of segment i, which is totalLen bytes long. */
  method IpHeader(input: seq<u8>, hdr: VirtioHdr, i: nat, totalLen: u16, isV6: bool, little: bool) returns (out: seq<u8>)
    requires WellFormed(input, hdr, isV6) && ClearedInput(input, hdr, isV6) && hdr.csumStart <= totalLen
    ensures GoodIpHeader(input, hdr, isV6, i, totalLen, out)
  {
    hide Fold, Sum, Put16, Pair;
    out := input[..hdr.csumStart];
    if isV6 {
      out := Put16(out, 4, totalLen - hdr.csumStart);
    } else {
      if i > 0 {
        out := Put16(out, 4, (Get16(out, 4) + i) % 0x1_0000);
      }
      out := Put16(out, 2, totalLen);
      var sum := Checksum(out, 0, little);
      ChecksumFieldFits(0, out, 10);
      out := Put16(out, 10, 0xffff - sum);
    }
  }

  /** The transport header of segment i, checksum still zero. */
  method TransportHeader(input: seq<u8>, hdr: VirtioHdr, i: nat, dataLen: nat, last: bool, isV6: bool) returns (out: seq<u8>)
    requires WellFormed(input, hdr, isV6) && ClearedInput(input, hdr, isV6)
    requires SegmentStart(hdr, i) + dataLen <= |input|
    ensures GoodTransportHeader(input, hdr, isV6, i, dataLen, last, out)
    ensures |out| == hdr.hdrLen - hdr.csumStart && out[hdr.csumOffset] == 0 && out[hdr.csumOffset + 1] == 0
  {
    hide SegmentStart, Offset16, ClearFinPsh, Put16, Put32, Pair;
    out := input[hdr.csumStart..hdr.hdrLen];
    if hdr.tcp {
      var first := Get32(input, hdr.csumStart + 4);
      NoOverflow(hdr, i);
      var offset := Offset16(hdr, i);
      out := Put32(out, 4, (first + offset) % 0x1_0000_0000);
      if !last {
        out := out[TCP_FLAGS_OFFSET := ClearFinPsh(out[TCP_FLAGS_OFFSET])];
      }
    } else {
      out := Put16(out, 4, (dataLen + (hdr.hdrLen - hdr.csumStart)) % 0x1_0000);
    }
  }

  /** The offset of a segment into the payload, as computed in 16 bits. */
  function Offset16(hdr: VirtioHdr, i: nat): u16 { hdr.gsoSize * (i % 0x1_0000) % 0x1_0000 }

  /** The offset of a segment is computed in 16 bits without loss. */
  lemma NoOverflow(hdr: VirtioHdr, i: nat)
    requires SegmentStart(hdr, i) <= 0xffff
    ensures Offset16(hdr, i) == SegmentStart(hdr, i) - hdr.hdrLen
  {
    if hdr.gsoSize > 0 {
      assert i <= i * hdr.gsoSize;
    } else {
      assert i * hdr.gsoSize == 0 && hdr.gsoSize * (i % 0x1_0000) == 0;
    }
  }

  function Protocol(hdr: VirtioHdr): u8 { if hdr.tcp then IPPROTO_TCP else IPPROTO_UDP }

  /** What a correct segment i of a packet looks like, given which bytes of the payload it carries. */
  ghost predicate GoodSegment(input: seq<u8>, hdr: VirtioHdr, isV6: bool, i: nat, start: nat, end: nat, out: seq<u8>)
    requires WellFormed(input, hdr, isV6)
  {
    && start <= end <= |input|
    && |out| == hdr.hdrLen + (end - start)
    && out[hdr.hdrLen..] == input[start..end]
    && GoodIpHeader(input, hdr, isV6, i, |out|, out[..hdr.csumStart])
    && GoodTransportHeader(input, hdr, isV6, i, end - start, end == |input|, out[hdr.csumStart..hdr.hdrLen])
    && Verifies(out, hdr.csumStart, Protocol(hdr), isV6)
  }

  /** Filling in the transport checksum makes the segment verify. */
  lemma TransportChecksumFits(ip: seq<u8>, tail: seq<u8>, at: nat, proto: u8, isV6: bool)
    requires |ip| >= (if isV6 then 40 else 20) && at + 2 <= |tail| && at % 2 == 0 && tail[at] == 0 && tail[at + 1] == 0
    ensures var c := 0xffff - Fold(PseudoSum(ip + tail, |ip|, proto, isV6) + Sum(tail));
            Verifies(ip + Put16(tail, at, c), |ip|, proto, isV6)
  {
    hide Fold, Sum, Put16;
    var base := PseudoSum(ip + tail, |ip|, proto, isV6);
    var c := 0xffff - Fold(base + Sum(tail));
    var filled := Put16(tail, at, c);
    ChecksumFieldFits(base, tail, at);
    var src, n := if isV6 then 8 else 12, if isV6 then 16 else 4;
    assert (ip + filled)[src..src + n] == (ip + tail)[src..src + n];
    assert (ip + filled)[src + n..src + 2 * n] == (ip + tail)[src + n..src + 2 * n];
    assert (ip + filled)[|ip|..] == filled;
  }

  /** The pseudo header is summed from the addresses of the packet being split, which are those of the segment. */
  lemma SamePseudoSum(input: seq<u8>, ip: seq<u8>, tail: seq<u8>, proto: u8, isV6: bool)
    requires (if isV6 then 40 else 20) <= |ip| <= |input| && SameIp(input, ip, isV6)
    ensures var at, n := if isV6 then 8 else 12, if isV6 then 16 else 4;
            PseudoSum(ip + tail, |ip|, proto, isV6) == Sum(input[at..at + n]) + Sum(input[at + n..at + 2 * n]) + proto + |tail| % 0x1_0000
  {
    hide Sum;
    var at, n := if isV6 then 8 else 12, if isV6 then 16 else 4;
    assert (ip + tail)[at..at + n] == input[at..at + n];
    assert (ip + tail)[at + n..at + 2 * n] == input[at + n..at + 2 * n];
  }

  /** The transport checksum of a segment, put in place. */
  method FillChecksum(input: seq<u8>, ip: seq<u8>, tail: seq<u8>, at: nat, proto: u8, isV6: bool, little: bool) returns (c: u16)
    requires (if isV6 then 40 else 20) <= |ip| <= |input| && SameIp(input, ip, isV6)
    requires at + 2 <= |tail| && at % 2 == 0 && tail[at] == 0 && tail[at + 1] == 0
    ensures Verifies(ip + Put16(tail, at, c), |ip|, proto, isV6)
  {
    hide Fold, Sum, Verifies, PseudoSum;
    var src, n := 12, 4;
    if isV6 {
      src, n := 8, 16;
    }
    var pseudo := PseudoHeaderChecksumNoFold(proto, input[src..src + n], input[src + n..src + 2 * n], |tail| % 0x1_0000, little);
    var sum := Checksum(tail, pseudo, little);
    SamePseudoSum(input, ip, tail, proto, isV6);
    FoldChain(pseudo, PseudoSum(ip + tail, |ip|, proto, isV6), Sum(tail));
    TransportChecksumFits(ip, tail, at, proto, isV6);
    c := 0xffff - sum;
  }

  method Segment(input: seq<u8>, hdr: VirtioHdr, i: nat, start: nat, end: nat, isV6: bool, little: bool) returns (out: seq<u8>)
    requires WellFormed(input, hdr, isV6) && ClearedInput(input, hdr, isV6)
    requires start == SegmentStart(hdr, i) && start <= end <= |input|
    ensures GoodSegment(input, hdr, isV6, i, start, end, out)
  {
    hide Fold, Sum, Verifies, SameIp, IpRewritten, GoodTransportHeader, SegmentStart;
    var ip := IpHeader(input, hdr, i, hdr.hdrLen + (end - start), isV6, little);
    var transport := TransportHeader(input, hdr, i, end - start, end == |input|, isV6);
    var tail := transport + input[start..end];
    var c := FillChecksum(input, ip, tail, hdr.csumOffset, Protocol(hdr), isV6, little);
    out := ip + Put16(tail, hdr.csumOffset, c);
    FilledTransport(input, hdr, isV6, i, end == |input|, transport, input[start..end], c);
    Joined(ip, Put16(tail, hdr.csumOffset, c), |transport|);
  }

  lemma Joined(ip: seq<u8>, rest: seq<u8>, n: nat)
    requires n <= |rest|
    ensures (ip + rest)[..|ip|] == ip && (ip + rest)[|ip|..|ip| + n] == rest[..n] && (ip + rest)[|ip| + n..] == rest[n..]
  {
  }

  /** The checksum leaves the rest of the transport header as it was. */
  lemma FilledTransport(input: seq<u8>, hdr: VirtioHdr, isV6: bool, i: nat, last: bool, transport: seq<u8>, data: seq<u8>, c: u16)
    requires WellFormed(input, hdr, isV6) && GoodTransportHeader(input, hdr, isV6, i, |data|, last, transport)
    ensures |transport| == hdr.hdrLen - hdr.csumStart
    ensures var filled := Put16(transport + data, hdr.csumOffset, c);
            filled[|transport|..] == data && GoodTransportHeader(input, hdr, isV6, i, |data|, last, filled[..|transport|])
  {
  }

  // ---------------------------------------------------------------- the whole packet

  /** Clearing the checksum fields, which every segment rewrites, changes nothing a segment is judged by. */
  lemma ClearedIsSame(input: seq<u8>, cleared: seq<u8>, hdr: VirtioHdr, isV6: bool, i: nat, start: nat, end: nat, out: seq<u8>)
    requires WellFormed(input, hdr, isV6) && |cleared| == |input| && hdr.hdrLen <= start
    requires forall k {:trigger cleared[k]} :: 0 <= k < |input| && !ChecksumByte(hdr, isV6, k) ==> cleared[k] == input[k]
    requires GoodSegment(cleared, hdr, isV6, i, start, end, out)
    ensures GoodSegment(input, hdr, isV6, i, start, end, out)
  {
    hide Fold, Sum, Verifies, SegmentStart;
    assert cleared[start..end] == input[start..end];
    ghost var ip, transport := out[..hdr.csumStart], out[hdr.csumStart..hdr.hdrLen];
    SameIpHeader(input, cleared, hdr, isV6, i, |out|, ip);
    SameTransportHeader(input, cleared, hdr, isV6, i, end - start, end == |input|, transport);
  }

  lemma SameIpHeader(input: seq<u8>, cleared: seq<u8>, hdr: VirtioHdr, isV6: bool, i: nat, totalLen: nat, out: seq<u8>)
    requires WellFormed(input, hdr, isV6) && |cleared| == |input|
    requires forall k {:trigger cleared[k]} :: 0 <= k < |input| && !ChecksumByte(hdr, isV6, k) ==> cleared[k] == input[k]
    requires GoodIpHeader(cleared, hdr, isV6, i, totalLen, out)
    ensures GoodIpHeader(input, hdr, isV6, i, totalLen, out)
  {
    hide Fold, Sum;
  }

  lemma SameTransportHeader(input: seq<u8>, cleared: seq<u8>, hdr: VirtioHdr, isV6: bool, i: nat, dataLen: nat, last: bool, out: seq<u8>)
    requires WellFormed(input, hdr, isV6) && |cleared| == |input|
    requires forall k {:trigger cleared[k]} :: 0 <= k < |input| && !ChecksumByte(hdr, isV6, k) ==> cleared[k] == input[k]
    requires GoodTransportHeader(cleared, hdr, isV6, i, dataLen, last, out)
    ensures GoodTransportHeader(input, hdr, isV6, i, dataLen, last, out)
  {
    hide SegmentStart;
  }

  predicate ChecksumByte(hdr: VirtioHdr, isV6: bool, k: int) {
    || (!isV6 && 10 <= k < 12)
    || hdr.csumStart + hdr.csumOffset <= k < hdr.csumStart + hdr.csumOffset + 2
  }

  method ClearChecksums(input: seq<u8>, hdr: VirtioHdr, isV6: bool) returns (r: seq<u8>)
    requires WellFormed(input, hdr, isV6)
    ensures |r| == |input| && ClearedInput(r, hdr, isV6)
    ensures forall k {:trigger r[k]} :: 0 <= k < |input| && !ChecksumByte(hdr, isV6, k) ==> r[k] == input[k]
  {
    r := input;
    if !isV6 {
      r := r[10 := 0][11 := 0];
    }
    var at := hdr.csumStart + hdr.csumOffset;
    r := r[at := 0][at + 1 := 0];
  }

  function SegmentEnd(input: seq<u8>, hdr: VirtioHdr, i: nat): nat {
    if SegmentStart(hdr, i + 1) > |input| then |input| else SegmentStart(hdr, i + 1)
  }

  /** The payloads of segments, one after the other. */
  ghost function Payloads(segs: seq<seq<u8>>, hdrLen: nat): seq<u8> {
    if segs == [] then [] else Payloads(segs[..|segs| - 1], hdrLen) + Payload(segs[|segs| - 1], hdrLen)
  }

  ghost function Payload(seg: seq<u8>, hdrLen: nat): seq<u8> {
    if |seg| < hdrLen then [] else seg[hdrLen..]
  }

  ghost predicate GoodSegments(input: seq<u8>, hdr: VirtioHdr, isV6: bool, segs: seq<seq<u8>>)
    requires WellFormed(input, hdr, isV6)
  {
    forall k {:trigger segs[k]} :: 0 <= k < |segs| ==>
      GoodSegment(input, hdr, isV6, k, SegmentStart(hdr, k), SegmentEnd(input, hdr, k), segs[k])
  }

  lemma GoodPayload(input: seq<u8>, hdr: VirtioHdr, isV6: bool, i: nat, start: nat, end: nat, seg: seq<u8>)
    requires WellFormed(input, hdr, isV6) && GoodSegment(input, hdr, isV6, i, start, end, seg)
    ensures start <= end <= |input| && Payload(seg, hdr.hdrLen) == input[start..end]
  {
    hide GoodIpHeader, GoodTransportHeader, Verifies, SegmentStart;
  }

  lemma PayloadsMore(segs: seq<seq<u8>>, seg: seq<u8>, hdrLen: nat)
    ensures Payloads(segs + [seg], hdrLen) == Payloads(segs, hdrLen) + Payload(seg, hdrLen)
  {
    assert (segs + [seg])[..|segs|] == segs;
  }

  lemma OneMore(input: seq<u8>, hdr: VirtioHdr, isV6: bool, segs: seq<seq<u8>>, seg: seq<u8>, next: nat, end: nat)
    requires WellFormed(input, hdr, isV6) && GoodSegments(input, hdr, isV6, segs)
    requires next == SegmentStart(hdr, |segs|) && end == SegmentEnd(input, hdr, |segs|) && next <= |input|
    requires Payloads(segs, hdr.hdrLen) == input[hdr.hdrLen..next]
    requires GoodSegment(input, hdr, isV6, |segs|, next, end, seg)
    ensures end <= |input| && GoodSegments(input, hdr, isV6, segs + [seg])
    ensures hdr.hdrLen <= end && Payloads(segs + [seg], hdr.hdrLen) == input[hdr.hdrLen..end]
  {
    hide GoodSegment, GoodSegments, SegmentStart, SegmentEnd, Payload, Payloads;
    GoodPayload(input, hdr, isV6, |segs|, next, end, seg);
    PayloadsMore(segs, seg, hdr.hdrLen);
    GoodMore(input, hdr, isV6, segs, seg);
    SlicesJoin(input, hdr.hdrLen, next, end);
  }

  lemma GoodMore(input: seq<u8>, hdr: VirtioHdr, isV6: bool, segs: seq<seq<u8>>, seg: seq<u8>)
    requires WellFormed(input, hdr, isV6) && GoodSegments(input, hdr, isV6, segs)
    requires GoodSegment(input, hdr, isV6, |segs|, SegmentStart(hdr, |segs|), SegmentEnd(input, hdr, |segs|), seg)
    ensures GoodSegments(input, hdr, isV6, segs + [seg])
  {
    hide GoodSegment, SegmentStart, SegmentEnd;
  }

  lemma SlicesJoin(s: seq<u8>, a: nat, b: nat, c: nat)
    requires a <= b <= c <= |s|
    ensures s[a..b] + s[b..c] == s[a..c]
  {
  }

  /**
   Splitting succeeds exactly when the buffers are enough for the payload, and then the segments carry
   the payload between them, every byte once and in order, each with correct headers of its own.
   */
  method GsoSplit(input: seq<u8>, hdr: VirtioHdr, nbufs: nat, isV6: bool, little: bool) returns (n: int, ok: bool, segs: seq<seq<u8>>)
    requires WellFormed(input, hdr, isV6)
    ensures ok <==> |input| <= SegmentStart(hdr, nbufs)
    ensures GoodSegments(input, hdr, isV6, segs) && |segs| <= nbufs
    ensures ok ==> n == |segs| && Payloads(segs, hdr.hdrLen) == input[hdr.hdrLen..]
    ensures ok ==> |input| <= SegmentStart(hdr, n) && (n > 0 ==> SegmentStart(hdr, n - 1) < |input|)
    ensures !ok ==> n == nbufs - 1 && |segs| == nbufs
  {
    hide GoodSegment, SegmentStart, GoodSegments, Payloads;
    var cleared := ClearChecksums(input, hdr, isV6);
    var next: nat := hdr.hdrLen;
    segs := [];
    NoneYet(input, hdr, isV6);
    ghost var done := next;
    while next < |cleared|
      invariant next == SegmentStart(hdr, |segs|) && |segs| <= nbufs
      invariant hdr.hdrLen <= done == (if next > |input| then |input| else next)
      invariant |segs| > 0 ==> SegmentStart(hdr, |segs| - 1) < |input|
      invariant GoodSegments(input, hdr, isV6, segs)
      invariant Payloads(segs, hdr.hdrLen) == input[hdr.hdrLen..done]
      decreases nbufs - |segs|
    {
      if |segs| == nbufs {
        return |segs| - 1, false, segs;
      }
      var end := next + hdr.gsoSize;
      StartsGrow(hdr, |segs|, nbufs);
      if end > |cleared| {
        end := |cleared|;
      }
      var seg := Segment(cleared, hdr, |segs|, next, end, isV6, little);
      ClearedIsSame(input, cleared, hdr, isV6, |segs|, next, end, seg);
      OneMore(input, hdr, isV6, segs, seg, next, end);
      done := end;
      next := next + hdr.gsoSize;
      segs := segs + [seg];
    }
    StartsGrow(hdr, |segs|, nbufs);
    return |segs|, true, segs;
  }

  lemma NoneYet(input: seq<u8>, hdr: VirtioHdr, isV6: bool)
    requires WellFormed(input, hdr, isV6)
    ensures SegmentStart(hdr, 0) == hdr.hdrLen && GoodSegments(input, hdr, isV6, []) && Payloads([], hdr.hdrLen) == []
  {
    hide GoodSegment;
  }

  lemma StartsGrow(hdr: VirtioHdr, i: nat, j: nat)
    requires i <= j
    ensures SegmentStart(hdr, i) <= SegmentStart(hdr, j) && SegmentStart(hdr, 0) == hdr.hdrLen
    ensures SegmentStart(hdr, i + 1) == SegmentStart(hdr, i) + hdr.gsoSize
  {
    assert i * hdr.gsoSize + (j - i) * hdr.gsoSize == j * hdr.gsoSize;
  }
}
