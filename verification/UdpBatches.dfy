/**
 Batches of UDP datagrams at the socket.  Sending merges datagrams into messages that the kernel
 cuts again; receiving cuts the merged messages the kernel hands over, in place.
 */
module UdpBatches {
  type u8 = x: int | 0 <= x < 0x100
  type Bytes = seq<u8>

  const MAX_IPV4_PAYLOAD_LEN := 65535 - 20 - 8
  const MAX_IPV6_PAYLOAD_LEN := 65535 - 8
  const UDP_SEGMENT_MAX_DATAGRAMS := 64
  const IDEAL_BATCH_SIZE := 128

  // ---------------------------------------------------------------- cutting

  /** What the kernel makes of a message: datagrams of g bytes, the last one perhaps shorter. */
  function Cut(data: Bytes, g: nat): seq<Bytes>
    requires g > 0
    decreases |data|
  {
    if |data| <= g then (if data == [] then [] else [data]) else [data[..g]] + Cut(data[g..], g)
  }

  function Flat(ds: seq<Bytes>): Bytes {
    if ds == [] then [] else ds[0] + Flat(ds[1..])
  }

  lemma {:induction false} FlatAppend(a: seq<Bytes>, b: seq<Bytes>)
    ensures Flat(a + b) == Flat(a) + Flat(b)
  {
    if a == [] {
      assert a + b == b;
    } else {
      FlatAppend(a[1..], b);
      assert (a + b)[1..] == a[1..] + b;
    }
  }

  lemma FlatOne(d: Bytes)
    ensures Flat([d]) == d
  {
  }

  /** Datagrams of one size, the last one no larger: what may share a message. */
  ghost predicate Even(ds: seq<Bytes>, g: nat) {
    && |ds| >= 1
    && (forall k {:trigger ds[k]} :: 0 <= k < |ds| - 1 ==> |ds[k]| == g)
    && |ds[|ds| - 1]| <= g
  }

  /** Cutting gives back what was merged, unless the last datagram was empty: then that one is gone. */
  lemma {:induction false} CutFlat(ds: seq<Bytes>, g: nat)
    requires g > 0 && Even(ds, g)
    ensures ds[|ds| - 1] != [] ==> Cut(Flat(ds), g) == ds
    ensures ds[|ds| - 1] == [] ==> Cut(Flat(ds), g) == ds[..|ds| - 1]
  {
    if |ds| == 1 {
      FlatOne(ds[0]);
      assert ds == [ds[0]];
    } else {
      var rest := ds[1..];
      assert |ds[0]| == g;
      CutFlat(rest, g);
      var data := Flat(ds);
      assert data == ds[0] + Flat(rest) && data[g..] == Flat(rest) && data[..g] == ds[0];
      if Flat(rest) == [] {
        CutNone(rest, g);
        assert ds == [ds[0]] + rest && Cut(data, g) == [data];
        assert data == ds[0];
        assert rest == [[]] && ds[..|ds| - 1] == [ds[0]];
      } else {
        assert ds == [ds[0]] + rest && ds[..|ds| - 1] == [ds[0]] + rest[..|rest| - 1];
      }
    }
  }

  /** Only a single empty datagram makes an empty message. */
  lemma CutNone(ds: seq<Bytes>, g: nat)
    requires g > 0 && Even(ds, g) && Flat(ds) == []
    ensures ds == [[]]
  {
    assert ds[0] == [];
  }

  /** The datagrams that have any bytes. */
  function NonEmpty(ds: seq<Bytes>): seq<Bytes> {
    if ds == [] then [] else if ds[0] == [] then NonEmpty(ds[1..]) else [ds[0]] + NonEmpty(ds[1..])
  }

  lemma {:induction false} NonEmptyAppend(a: seq<Bytes>, b: seq<Bytes>)
    ensures NonEmpty(a + b) == NonEmpty(a) + NonEmpty(b)
  {
    if a == [] {
      assert a + b == b;
    } else {
      var c := a + b;
      NonEmptyAppend(a[1..], b);
      assert c[1..] == a[1..] + b && c[0] == a[0];
      assert NonEmpty(c) == if a[0] == [] then NonEmpty(c[1..]) else [a[0]] + NonEmpty(c[1..]);
    }
  }

  /** Merging and cutting loses at most the empty datagram at the end. */
  lemma CutNonEmpty(ds: seq<Bytes>, g: nat)
    requires g > 0 && Even(ds, g)
    ensures NonEmpty(Cut(Flat(ds), g)) == NonEmpty(ds)
  {
    hide Cut, Flat;
    CutFlat(ds, g);
    var front, last := ds[..|ds| - 1], ds[|ds| - 1];
    if last == [] {
      assert ds == front + [last];
      NonEmptyAppend(front, [last]);
      assert NonEmpty([last]) == [];
    }
  }

  lemma {:induction false} AllEmpty(ds: seq<Bytes>)
    requires forall k {:trigger ds[k]} :: 0 <= k < |ds| ==> ds[k] == []
    ensures NonEmpty(ds) == [] && Flat(ds) == []
  {
    if ds != [] {
      AllEmpty(ds[1..]);
    }
  }

  // ---------------------------------------------------------------- sending

  /** A buffer to send; cap is the capacity behind its data. */
  datatype Buf = Buf(data: Bytes, cap: nat)

  datatype Control = Src | Gso(size: nat)

  /** An outgoing message with its control messages. */
  datatype OutMsg = OutMsg(data: Bytes, cap: nat, oob: seq<Control>)

  function Datas(bufs: seq<Buf>): seq<Bytes> {
    seq(|bufs|, k requires 0 <= k < |bufs| => bufs[k].data)
  }

  /** What the kernel puts on the wire for a message. */
  function Wire(msg: OutMsg): seq<Bytes> {
    if |msg.oob| == 2 && msg.oob[1].Gso? && msg.oob[1].size > 0 then Cut(msg.data, msg.oob[1].size) else [msg.data]
  }

  function MaxPayloadLen(is6: bool): nat { if is6 then MAX_IPV6_PAYLOAD_LEN else MAX_IPV4_PAYLOAD_LEN }

  /** Buffers from..to share a message; once closed, a message of several carries the segment size, exactly once. */
  ghost predicate GroupOk(bufs: seq<Buf>, from: nat, to: nat, msg: OutMsg, is6: bool, closed: bool) {
    && from < to <= |bufs|
    && var ds := Datas(bufs[from..to]);
    && msg.data == Flat(ds) && Even(ds, |ds[0]|) && msg.cap == bufs[from].cap
    && (|ds| > 1 ==> |msg.data| <= MaxPayloadLen(is6) && |msg.data| <= msg.cap && |ds| <= UDP_SEGMENT_MAX_DATAGRAMS)
    && msg.oob == if |ds| > 1 && closed then [Src, Gso(|ds[0]| % 0x1_0000)] else [Src]
  }

  /** The group ends in an empty datagram it merged. */
  predicate EmptyTail(bufs: seq<Buf>, from: nat, to: nat) {
    from + 1 < to <= |bufs| && bufs[to - 1].data == []
  }

  /**
   The wire carries the group as it was, unless it merged an empty datagram at its end: that one is lost.
   Every other datagram arrives, in order; of empty datagrams only, one arrives.
   */
  lemma GroupWire(bufs: seq<Buf>, from: nat, to: nat, msg: OutMsg, is6: bool)
    requires GroupOk(bufs, from, to, msg, is6, true)
    ensures var ds := Datas(bufs[from..to]);
            && Wire(msg) == (if !EmptyTail(bufs, from, to) then ds else if ds[0] == [] then [[]] else ds[..|ds| - 1])
            && NonEmpty(Wire(msg)) == NonEmpty(ds)
  {
    hide Cut, NonEmpty, Flat;
    var ds := Datas(bufs[from..to]);
    assert ds[|ds| - 1] == bufs[to - 1].data && ds[0] == bufs[from].data;
    if |ds| == 1 {
      FlatOne(ds[0]);
      assert ds == [ds[0]];
    } else {
      assert |ds[0]| <= |msg.data| by { FlatAppend([ds[0]], ds[1..]); FlatOne(ds[0]); assert ds == [ds[0]] + ds[1..]; }
      if |ds[0]| > 0 {
        CutFlat(ds, |ds[0]|);
        CutNonEmpty(ds, |ds[0]|);
      } else {
        AllEmpty(ds);
        AllEmpty([[]]);
      }
    }
  }

  /** A group of one. */
  lemma GroupStart(bufs: seq<Buf>, i: nat, is6: bool, closed: bool)
    requires i < |bufs|
    ensures GroupOk(bufs, i, i + 1, OutMsg(bufs[i].data, bufs[i].cap, [Src]), is6, closed)
  {
    assert Datas(bufs[i..i + 1]) == [bufs[i].data];
    FlatOne(bufs[i].data);
  }

  /** A group that is still even takes one more datagram. */
  lemma GroupMore(bufs: seq<Buf>, from: nat, i: nat, msg: OutMsg, is6: bool, last: bool)
    requires i < |bufs| && GroupOk(bufs, from, i, msg, is6, false)
    requires |bufs[i - 1].data| == |bufs[from].data| && i - from < UDP_SEGMENT_MAX_DATAGRAMS
    requires var d := bufs[i].data; |d| <= |bufs[from].data| && |msg.data| + |d| <= MaxPayloadLen(is6) && |msg.data| + |d| <= msg.cap
    ensures GroupOk(bufs, from, i + 1,
                    msg.(data := msg.data + bufs[i].data, oob := if last then msg.oob + [Gso(|bufs[from].data| % 0x1_0000)] else msg.oob), is6, last)
  {
    hide Cut, Flat;
    var ds, ds' := Datas(bufs[from..i]), Datas(bufs[from..i + 1]);
    assert ds' == ds + [bufs[i].data];
    FlatAppend(ds, [bufs[i].data]);
    FlatOne(bufs[i].data);
    assert ds[|ds| - 1] == bufs[i - 1].data && ds[0] == bufs[from].data;
  }

  /** Closing a group writes its segment size, if it is a group of several. */
  lemma GroupClose(bufs: seq<Buf>, from: nat, to: nat, msg: OutMsg, is6: bool)
    requires GroupOk(bufs, from, to, msg, is6, false)
    ensures GroupOk(bufs, from, to, if to - from > 1 then msg.(oob := msg.oob + [Gso(|bufs[from].data| % 0x1_0000)]) else msg, is6, true)
  {
  }

  function EndOf(starts: seq<nat>, b: nat, i: nat): nat {
    if b + 1 < |starts| then starts[b + 1] else i
  }

  /** The datagram at i may join the group that begins at from and has all up to i. */
  predicate Joins(bufs: seq<Buf>, from: nat, i: nat, is6: bool)
    requires from < i < |bufs|
  {
    var len, d, g := |Flat(Datas(bufs[from..i]))|, |bufs[i].data|, |bufs[from].data|;
    && len + d <= MaxPayloadLen(is6) && d <= g && len + d <= bufs[from].cap
    && i - from < UDP_SEGMENT_MAX_DATAGRAMS && |bufs[i - 1].data| == g
  }

  /** Where the group that begins at from ends, if it reaches as far as to. */
  function GroupEnd(bufs: seq<Buf>, is6: bool, from: nat, to: nat): (e: nat)
    requires from < to <= |bufs|
    ensures to <= e <= |bufs|
    decreases |bufs| - to
  {
    if to < |bufs| && Joins(bufs, from, to, is6) then GroupEnd(bufs, is6, from, to + 1) else to
  }

  /** The places where groups begin, from one of them on. */
  function Starts(bufs: seq<Buf>, is6: bool, from: nat): seq<nat>
    decreases |bufs| - from
  {
    if from >= |bufs| then [] else [from] + Starts(bufs, is6, GroupEnd(bufs, is6, from, from + 1))
  }

  /** Group b of those among the first i buffers: it is as long as can be, and closed unless it is the last. */
  ghost predicate GroupAt(bufs: seq<Buf>, i: nat, starts: seq<nat>, b: nat, msg: OutMsg, is6: bool, closed: bool)
    requires b < |starts|
  {
    && GroupOk(bufs, starts[b], EndOf(starts, b, i), msg, is6, closed || b + 1 < |starts|)
    && (b + 1 < |starts| ==> starts[b] < starts[b + 1] < |bufs| && !Joins(bufs, starts[b], starts[b + 1], is6))
  }

  /** The first i buffers are in messages, group after group. */
  ghost predicate Grouped(bufs: seq<Buf>, i: nat, starts: seq<nat>, ms: seq<OutMsg>, is6: bool, closed: bool) {
    && |starts| <= |ms| && (i > 0 ==> |starts| > 0) && (|starts| > 0 ==> starts[0] == 0)
    && forall b {:trigger starts[b]} {:trigger ms[b]} :: 0 <= b < |starts| ==> GroupAt(bufs, i, starts, b, ms[b], is6, closed)
  }

  /** Starting a group with buffer i. */
  lemma GroupedStart(bufs: seq<Buf>, i: nat, starts: seq<nat>, ms: seq<OutMsg>, ms': seq<OutMsg>, is6: bool)
    requires i < |bufs| && Grouped(bufs, i, starts, ms, is6, true) && |starts| < |ms'| && (i == 0 ==> starts == [])
    requires |ms'| == |ms| && forall b {:trigger ms'[b]} :: 0 <= b < |starts| ==> ms'[b] == ms[b]
    requires ms'[|starts|] == OutMsg(bufs[i].data, bufs[i].cap, [Src])
    requires |starts| > 0 ==> var b := |starts| - 1; starts[b] < i && !Joins(bufs, starts[b], i, is6)
    ensures Grouped(bufs, i + 1, starts + [i], ms', is6, i + 1 == |bufs|)
  {
    hide GroupAt;
    GroupStart(bufs, i, is6, i + 1 == |bufs|);
    var starts' := starts + [i];
    forall b | 0 <= b < |starts'| ensures GroupAt(bufs, i + 1, starts', b, ms'[b], is6, i + 1 == |bufs|) {
      if b < |starts| {
        assert GroupAt(bufs, i, starts, b, ms[b], is6, true);
      }
      GroupAtStart(bufs, i, starts, b, ms'[b], is6);
    }
  }

  lemma GroupAtStart(bufs: seq<Buf>, i: nat, starts: seq<nat>, b: nat, msg: OutMsg, is6: bool)
    requires i < |bufs| && b <= |starts|
    requires if b < |starts| then GroupAt(bufs, i, starts, b, msg, is6, true) else GroupOk(bufs, i, i + 1, msg, is6, i + 1 == |bufs|)
    requires b + 1 == |starts| ==> starts[b] < i && !Joins(bufs, starts[b], i, is6)
    ensures GroupAt(bufs, i + 1, starts + [i], b, msg, is6, i + 1 == |bufs|)
  {
    hide GroupOk, Joins;
  }

  /** Replacing the message of the last group. */
  lemma GroupedLast(bufs: seq<Buf>, i: nat, i': nat, starts: seq<nat>, ms: seq<OutMsg>, ms': seq<OutMsg>, is6: bool, closed: bool)
    requires Grouped(bufs, i, starts, ms, is6, false) && |starts| > 0 && |ms'| == |ms|
    requires forall b {:trigger ms'[b]} :: 0 <= b < |starts| - 1 ==> ms'[b] == ms[b]
    requires GroupOk(bufs, starts[|starts| - 1], i', ms'[|starts| - 1], is6, closed)
    ensures Grouped(bufs, i', starts, ms', is6, closed)
  {
    hide GroupAt;
    forall b | 0 <= b < |starts| ensures GroupAt(bufs, i', starts, b, ms'[b], is6, closed) {
      assert GroupAt(bufs, i, starts, b, ms[b], is6, false);
      GroupAtLast(bufs, i, i', starts, b, ms[b], ms'[b], is6, closed);
    }
  }

  lemma GroupAtLast(bufs: seq<Buf>, i: nat, i': nat, starts: seq<nat>, b: nat, msg: OutMsg, msg': OutMsg, is6: bool, closed: bool)
    requires b < |starts| && GroupAt(bufs, i, starts, b, msg, is6, false)
    requires if b + 1 < |starts| then msg' == msg else GroupOk(bufs, starts[b], i', msg', is6, closed)
    ensures GroupAt(bufs, i', starts, b, msg', is6, closed)
  {
    hide GroupOk, Joins;
  }

  lemma GroupedNone(bufs: seq<Buf>, ms: seq<OutMsg>, is6: bool)
    ensures Grouped(bufs, 0, [], ms, is6, false) && Grouped(bufs, 0, [], ms, is6, true)
  {
  }

  /**
   Each group is as long as can be and becomes one message.  All datagrams that have any bytes reach the wire in
   order, and all datagrams do exactly when no group of several ends in an empty one.
   */
  method CoalesceMessages(bufs: seq<Buf>, is6: bool, msgs: array<OutMsg>) returns (n: nat)
    requires |bufs| <= msgs.Length && forall k :: 0 <= k < msgs.Length ==> msgs[k].oob == []
    modifies msgs
    ensures n == |Starts(bufs, is6, 0)| <= |bufs|
    ensures Grouped(bufs, |bufs|, Starts(bufs, is6, 0), msgs[..n], is6, true)
    ensures NonEmpty(Concat(Wires(msgs[..n]))) == NonEmpty(Datas(bufs))
    ensures Concat(Wires(msgs[..n])) == Datas(bufs) <==> NoneLost(bufs, is6)
    ensures forall k :: n <= k < msgs.Length ==> msgs[k] == old(msgs[k])
  {
    hide GroupOk, Grouped, Joins, Starts, NonEmpty, Concat, Wires, NoneLost;
    GroupedNone(bufs, msgs[..], is6);
    var base := -1;
    var gsoSize, dgramCnt, endBatch := 0, 0, false;
    var maxPayloadLen := MaxPayloadLen(is6);
    ghost var starts: seq<nat> := [];
    var i := 0;
    while i < |bufs|
      invariant 0 <= i <= |bufs| && |starts| == base + 1 <= i
      invariant i == 0 ==> base == -1 && dgramCnt == 0
      invariant i > 0 ==> base >= 0 && starts[base] < i && gsoSize == |bufs[starts[base]].data| && dgramCnt == i - starts[base]
      invariant i > 0 ==> (endBatch <==> |bufs[i - 1].data| < gsoSize)
      invariant i > 0 ==> |bufs[i - 1].data| <= gsoSize
      invariant Grouped(bufs, i, starts, msgs[..], is6, i == |bufs|)
      invariant forall k :: base < k < msgs.Length ==> msgs[k] == old(msgs[k])
    {
      var buf := bufs[i];
      ghost var before := msgs[..];
      if i > 0 {
        var msgLen, baseLenBefore := |buf.data|, |msgs[base].data|;
        var freeBaseCap := msgs[base].cap - baseLenBefore;
        GroupKnown(bufs, i, starts, before, is6);
        JoinsIs(bufs, starts[base], i, msgs[base], is6);
        if && msgLen + baseLenBefore <= maxPayloadLen && msgLen <= gsoSize && msgLen <= freeBaseCap
           && dgramCnt < UDP_SEGMENT_MAX_DATAGRAMS && !endBatch {
          GroupMore(bufs, starts[base], i, msgs[base], is6, i == |bufs| - 1);
          msgs[base] := msgs[base].(data := msgs[base].data + buf.data);
          if i == |bufs| - 1 {
            msgs[base] := msgs[base].(oob := msgs[base].oob + [Gso(gsoSize % 0x1_0000)]);
          }
          GroupedLast(bufs, i, i + 1, starts, before, msgs[..], is6, i + 1 == |bufs|);
          dgramCnt := dgramCnt + 1;
          if msgLen < gsoSize {
            endBatch := true;
          }
          i := i + 1;
          continue;
        }
        GroupClose(bufs, starts[base], i, msgs[base], is6);
      }
      if dgramCnt > 1 {
        msgs[base] := msgs[base].(oob := msgs[base].oob + [Gso(gsoSize % 0x1_0000)]);
      }
      if i > 0 {
        GroupedLast(bufs, i, i, starts, before, msgs[..], is6, true);
      } else {
        GroupedNone(bufs, msgs[..], is6);
      }
      before := msgs[..];
      endBatch := false;
      base := base + 1;
      gsoSize := |buf.data|;
      msgs[base] := OutMsg(buf.data, buf.cap, msgs[base].oob + [Src]);
      assert msgs[base].oob == [Src];
      GroupedStart(bufs, i, starts, before, msgs[..], is6);
      starts := starts + [i];
      dgramCnt := 1;
      i := i + 1;
    }
    n := base + 1;
    GroupedFront(bufs, starts, msgs[..], is6);
    StartsUnique(bufs, starts, msgs[..n], is6);
    WireIsBufs(bufs, msgs[..n], is6);
  }

  lemma JoinsIs(bufs: seq<Buf>, from: nat, i: nat, msg: OutMsg, is6: bool)
    requires i < |bufs| && GroupOk(bufs, from, i, msg, is6, false)
    ensures Joins(bufs, from, i, is6) <==>
              && |msg.data| + |bufs[i].data| <= MaxPayloadLen(is6) && |bufs[i].data| <= |bufs[from].data| && |msg.data| + |bufs[i].data| <= msg.cap
              && i - from < UDP_SEGMENT_MAX_DATAGRAMS && |bufs[i - 1].data| == |bufs[from].data|
  {
  }

  lemma GroupedFront(bufs: seq<Buf>, starts: seq<nat>, ms: seq<OutMsg>, is6: bool)
    requires Grouped(bufs, |bufs|, starts, ms, is6, true)
    ensures |starts| <= |ms| && Grouped(bufs, |bufs|, starts, ms[..|starts|], is6, true)
  {
    hide GroupAt;
    forall b | 0 <= b < |starts| ensures GroupAt(bufs, |bufs|, starts, b, ms[..|starts|][b], is6, true) {
      assert GroupAt(bufs, |bufs|, starts, b, ms[b], is6, true);
    }
  }

  // ---------------------------------------------------------------- the groups are a matter of the buffers

  /** In a group that is in order, every datagram joined those before it. */
  lemma GroupJoined(bufs: seq<Buf>, from: nat, to: nat, msg: OutMsg, is6: bool, i: nat)
    requires GroupOk(bufs, from, to, msg, is6, true) && from < i < to
    ensures Joins(bufs, from, i, is6)
  {
    var ds, front, back := Datas(bufs[from..to]), Datas(bufs[from..i]), Datas(bufs[i + 1..to]);
    assert ds == front + [bufs[i].data] + back;
    FlatAppend(front + [bufs[i].data], back);
    FlatAppend(front, [bufs[i].data]);
    FlatOne(bufs[i].data);
    assert ds[i - from] == bufs[i].data && ds[i - 1 - from] == bufs[i - 1].data && ds[0] == bufs[from].data;
  }

  lemma {:induction false} GroupEndIs(bufs: seq<Buf>, from: nat, to: nat, msg: OutMsg, is6: bool, i: nat)
    requires GroupOk(bufs, from, to, msg, is6, true) && from < i <= to && (to == |bufs| || !Joins(bufs, from, to, is6))
    ensures GroupEnd(bufs, is6, from, i) == to
    decreases |bufs| - i
  {
    if i < to {
      hide Joins;
      GroupJoined(bufs, from, to, msg, is6, i);
      GroupEndIs(bufs, from, to, msg, is6, i + 1);
    }
  }

  lemma {:induction false} StartsFrom(bufs: seq<Buf>, starts: seq<nat>, ms: seq<OutMsg>, is6: bool, b: nat)
    requires Grouped(bufs, |bufs|, starts, ms, is6, true) && b < |starts|
    ensures starts[b..] == Starts(bufs, is6, starts[b])
    decreases |starts| - b
  {
    hide GroupOk, Joins, GroupEnd;
    assert GroupAt(bufs, |bufs|, starts, b, ms[b], is6, true);
    var to := EndOf(starts, b, |bufs|);
    assert starts[b] < to <= |bufs| by { GroupBounds(bufs, starts[b], to, ms[b], is6); }
    GroupEndIs(bufs, starts[b], to, ms[b], is6, starts[b] + 1);
    assert starts[b..] == [starts[b]] + starts[b + 1..];
    if b + 1 < |starts| {
      StartsFrom(bufs, starts, ms, is6, b + 1);
    }
  }

  lemma GroupBounds(bufs: seq<Buf>, from: nat, to: nat, msg: OutMsg, is6: bool)
    requires GroupOk(bufs, from, to, msg, is6, true)
    ensures from < to <= |bufs|
  {
  }

  /** Messages that are groups in order, each as long as can be, begin where Starts says. */
  lemma StartsUnique(bufs: seq<Buf>, starts: seq<nat>, ms: seq<OutMsg>, is6: bool)
    requires Grouped(bufs, |bufs|, starts, ms, is6, true) && (bufs == [] ==> starts == [])
    ensures starts == Starts(bufs, is6, 0)
  {
    hide GroupOk, Joins, GroupEnd;
    if starts != [] {
      StartsFrom(bufs, starts, ms, is6, 0);
      assert starts[0..] == starts;
    }
  }

  /** What is known of the group being filled. */
  lemma GroupKnown(bufs: seq<Buf>, i: nat, starts: seq<nat>, ms: seq<OutMsg>, is6: bool)
    requires Grouped(bufs, i, starts, ms, is6, false) && |starts| > 0
    ensures var b := |starts| - 1; GroupOk(bufs, starts[b], i, ms[b], is6, false) && ms[b].oob == [Src]
  {
    assert GroupAt(bufs, i, starts, |starts| - 1, ms[|starts| - 1], is6, false);
  }

  // ---------------------------------------------------------------- what reaches the wire

  function Concat<T>(ss: seq<seq<T>>): seq<T> {
    if ss == [] then [] else ss[0] + Concat(ss[1..])
  }

  lemma {:induction false} ConcatLength<T>(a: seq<seq<T>>, b: seq<seq<T>>)
    requires |a| == |b| && forall k :: 0 <= k < |a| ==> a[k] == b[k] || |a[k]| < |b[k]|
    ensures a == b || |Concat(a)| < |Concat(b)|
  {
    if a != [] {
      ConcatLength(a[1..], b[1..]);
      assert a == [a[0]] + a[1..] && b == [b[0]] + b[1..];
    }
  }

  ghost predicate Ordered(starts: seq<nat>, i: nat) {
    forall b {:trigger starts[b]} :: 0 <= b < |starts| ==> starts[b] < EndOf(starts, b, i) <= i
  }

  ghost function Group(bufs: seq<Buf>, from: nat, to: nat): seq<Bytes> {
    if from <= to <= |bufs| then Datas(bufs[from..to]) else []
  }

  ghost function Groups(bufs: seq<Buf>, starts: seq<nat>): seq<seq<Bytes>> {
    seq(|starts|, b requires 0 <= b < |starts| => Group(bufs, starts[b], EndOf(starts, b, |bufs|)))
  }

  lemma OrderedTail(starts: seq<nat>, i: nat)
    requires |starts| > 0 && Ordered(starts, i)
    ensures Ordered(starts[1..], i) && forall b {:trigger starts[1..][b]} :: 0 <= b < |starts| - 1 ==> EndOf(starts[1..], b, i) == EndOf(starts, b + 1, i)
  {
    var t := starts[1..];
    forall b | 0 <= b < |t| ensures t[b] < EndOf(t, b, i) <= i && EndOf(t, b, i) == EndOf(starts, b + 1, i) {
      assert t[b] == starts[b + 1];
    }
  }

  /** The groups, one after the other, are the buffers. */
  lemma {:induction false} GroupsAreBufs(bufs: seq<Buf>, starts: seq<nat>)
    requires |starts| > 0 && Ordered(starts, |bufs|)
    ensures starts[0] < |bufs| && Concat(Groups(bufs, starts)) == Datas(bufs[starts[0]..])
    decreases |starts|
  {
    hide Ordered, Datas;
    var gs := Groups(bufs, starts);
    assert starts[0] < EndOf(starts, 0, |bufs|) <= |bufs| by { OrderedAt(starts, |bufs|, 0); }
    OrderedTail(starts, |bufs|);
    assert gs[1..] == Groups(bufs, starts[1..]);
    if |starts| > 1 {
      GroupsAreBufs(bufs, starts[1..]);
      DatasAppend(bufs, starts[0], starts[1]);
    } else {
      assert bufs[starts[0]..|bufs|] == bufs[starts[0]..];
    }
  }

  lemma OrderedAt(starts: seq<nat>, i: nat, b: nat)
    requires Ordered(starts, i) && b < |starts|
    ensures starts[b] < EndOf(starts, b, i) <= i
  {
  }

  lemma DatasAppend(bufs: seq<Buf>, from: nat, mid: nat)
    requires from <= mid <= |bufs|
    ensures Datas(bufs[from..mid]) + Datas(bufs[mid..]) == Datas(bufs[from..])
  {
  }

  lemma GroupedOrdered(bufs: seq<Buf>, i: nat, starts: seq<nat>, ms: seq<OutMsg>, is6: bool)
    requires Grouped(bufs, i, starts, ms, is6, true) && i == |bufs|
    ensures Ordered(starts, i)
  {
    forall b | 0 <= b < |starts| ensures starts[b] < EndOf(starts, b, i) <= i {
      assert GroupAt(bufs, i, starts, b, ms[b], is6, true);
    }
  }

  function Wires(ms: seq<OutMsg>): seq<seq<Bytes>> {
    seq(|ms|, b requires 0 <= b < |ms| => Wire(ms[b]))
  }

  /** No group of several datagrams ends in an empty one. */
  predicate NoneLost(bufs: seq<Buf>, is6: bool) {
    var starts := Starts(bufs, is6, 0);
    forall b {:trigger starts[b]} :: 0 <= b < |starts| ==> !EmptyTail(bufs, starts[b], EndOf(starts, b, |bufs|))
  }

  /**
   Every datagram that has any bytes reaches the wire, in order.  What reaches the wire is exactly the buffers,
   one datagram each, if and only if no group of several ends in an empty one.
   */
  lemma WireIsBufs(bufs: seq<Buf>, ms: seq<OutMsg>, is6: bool)
    requires Grouped(bufs, |bufs|, Starts(bufs, is6, 0), ms, is6, true) && |Starts(bufs, is6, 0)| == |ms|
    ensures NonEmpty(Concat(Wires(ms))) == NonEmpty(Datas(bufs))
    ensures Concat(Wires(ms)) == Datas(bufs) <==> NoneLost(bufs, is6)
    ensures |Concat(Wires(ms))| <= |bufs|
  {
    hide Wire, Datas, GroupOk, Grouped, EmptyTail, Concat, NonEmpty, Starts, Groups;
    var starts := Starts(bufs, is6, 0);
    StartsNone(bufs, is6);
    var ws, gs := Wires(ms), Groups(bufs, starts);
    WiresAndGroups(bufs, starts, ms, is6);
    ConcatLength(ws, gs);
    ConcatNonEmpty(ws, gs);
    if b: nat :| b < |ms| && EmptyTail(bufs, starts[b], EndOf(starts, b, |bufs|)) {
      assert |ws[b]| < |gs[b]|;
    } else {
      assert ws == gs;
    }
  }

  lemma StartsNone(bufs: seq<Buf>, is6: bool)
    ensures bufs == [] ==> Starts(bufs, is6, 0) == []
  {
  }

  lemma {:induction false} ConcatNonEmpty(a: seq<seq<Bytes>>, b: seq<seq<Bytes>>)
    requires |a| == |b| && forall k {:trigger a[k]} :: 0 <= k < |a| ==> NonEmpty(a[k]) == NonEmpty(b[k])
    ensures NonEmpty(Concat(a)) == NonEmpty(Concat(b))
  {
    if a != [] {
      ConcatNonEmpty(a[1..], b[1..]);
      NonEmptyAppend(a[0], Concat(a[1..]));
      NonEmptyAppend(b[0], Concat(b[1..]));
    }
  }

  /** Message by message. */
  lemma WiresAndGroups(bufs: seq<Buf>, starts: seq<nat>, ms: seq<OutMsg>, is6: bool)
    requires Grouped(bufs, |bufs|, starts, ms, is6, true) && |starts| == |ms| && (bufs == [] ==> starts == [])
    ensures |Wires(ms)| == |Groups(bufs, starts)| == |ms|
    ensures forall b {:trigger starts[b]} {:trigger Wires(ms)[b]} :: 0 <= b < |ms| ==> WireAndGroup(bufs, starts, b, Wires(ms)[b], Groups(bufs, starts)[b])
    ensures Concat(Groups(bufs, starts)) == Datas(bufs) && |Datas(bufs)| == |bufs|
  {
    hide Wire, GroupOk, EmptyTail, NonEmpty, WireAndGroup;
    GroupedOrdered(bufs, |bufs|, starts, ms, is6);
    forall b | 0 <= b < |ms| ensures WireAndGroup(bufs, starts, b, Wires(ms)[b], Groups(bufs, starts)[b]) {
      assert GroupAt(bufs, |bufs|, starts, b, ms[b], is6, true);
      OneMessage(bufs, starts, ms[b], is6, b);
    }
    if starts != [] {
      GroupsAreBufs(bufs, starts);
      assert bufs[0..] == bufs;
    }
  }

  /** The wire carries the group b as it was, or has fewer datagrams; either way all that have any bytes. */
  ghost predicate WireAndGroup(bufs: seq<Buf>, starts: seq<nat>, b: nat, wire: seq<Bytes>, group: seq<Bytes>) {
    && b < |starts| && NonEmpty(wire) == NonEmpty(group)
    && if EmptyTail(bufs, starts[b], EndOf(starts, b, |bufs|)) then |wire| < |group| else wire == group
  }

  lemma OneMessage(bufs: seq<Buf>, starts: seq<nat>, msg: OutMsg, is6: bool, b: nat)
    requires b < |starts| && Ordered(starts, |bufs|) && GroupOk(bufs, starts[b], EndOf(starts, b, |bufs|), msg, is6, true)
    ensures WireAndGroup(bufs, starts, b, Wire(msg), Group(bufs, starts[b], EndOf(starts, b, |bufs|)))
  {
    hide Wire, GroupOk, NonEmpty;
    OrderedAt(starts, |bufs|, b);
    GroupWire(bufs, starts[b], EndOf(starts, b, |bufs|), msg, is6);
  }

  lemma LostGroups(x: u8, y: u8)
    ensures var bufs := [Buf([x], 2), Buf([], 2), Buf([y], 2)];
            Starts(bufs, false, 0) == [0, 2]
  {
    var bufs := [Buf([x], 2), Buf([], 2), Buf([y], 2)];
    assert Datas(bufs[0..1]) == [[x]];
    FlatOne([x]);
    assert Joins(bufs, 0, 1, false) && !Joins(bufs, 0, 2, false);
    assert GroupEnd(bufs, false, 0, 2) == 2 && GroupEnd(bufs, false, 0, 1) == 2 && GroupEnd(bufs, false, 2, 3) == 3;
    assert Starts(bufs, false, 3) == [] && Starts(bufs, false, 2) == [2];
  }

  lemma GroupsAt(bufs: seq<Buf>, starts: seq<nat>, ms: seq<OutMsg>, is6: bool)
    requires Grouped(bufs, |bufs|, starts, ms, is6, true)
    ensures |starts| <= |ms| && forall b {:trigger starts[b]} {:trigger ms[b]} :: 0 <= b < |starts| ==> GroupOk(bufs, starts[b], EndOf(starts, b, |bufs|), ms[b], is6, true)
  {
  }

  /** A datagram, an empty one and another make two groups, and the empty one never reaches the wire. */
  lemma EmptyDatagramLost(x: u8, y: u8, ms: seq<OutMsg>)
    requires var bufs := [Buf([x], 2), Buf([], 2), Buf([y], 2)];
             Grouped(bufs, 3, Starts(bufs, false, 0), ms, false, true) && |ms| == |Starts(bufs, false, 0)|
    ensures var bufs := [Buf([x], 2), Buf([], 2), Buf([y], 2)];
            Starts(bufs, false, 0) == [0, 2] && !NoneLost(bufs, false) && Concat(Wires(ms)) == [[x], [y]]
  {
    hide Grouped, GroupOk, Joins, Wire, Cut;
    var bufs := [Buf([x], 2), Buf([], 2), Buf([y], 2)];
    LostGroups(x, y);
    var starts := Starts(bufs, false, 0);
    GroupsAt(bufs, starts, ms, false);
    GroupWire(bufs, 0, 2, ms[0], false);
    GroupWire(bufs, 2, 3, ms[1], false);
    assert Datas(bufs[0..2]) == [[x], []] && [[x], []][..1] == [[x]] && Datas(bufs[2..3]) == [[y]];
    var ws: seq<seq<Bytes>> := Wires(ms);
    assert EmptyTail(bufs, starts[0], starts[1]);
    var rest: seq<seq<Bytes>> := ws[1..];
    assert rest == [ws[1]] && Concat(rest) == ws[1] + Concat(rest[1..]) && rest[1..] == [];
  }

  // ---------------------------------------------------------------- receiving

  /** The segment size read from a message's control data; zero when there is none. */
  datatype GsoResult = GsoSize(size: nat) | GsoError

  /** A slot for a received message: its buffer, the bytes received, the sender. */
  datatype InMsg = InMsg(buf: Bytes, n: nat, addr: nat, gso: GsoResult)

  datatype Received = Received(data: Bytes, addr: nat)

  function Pieces(m: InMsg): seq<Bytes>
    requires m.n <= |m.buf| && m.gso.GsoSize?
  {
    if m.gso.size > 0 then Cut(m.buf[..m.n], m.gso.size) else [m.buf[..m.n]]
  }

  /**
   The pieces as they are taken from the buffer.  The end of the first one is the segment size, even
   past the bytes received.
   */
  function Taken(m: InMsg): seq<Bytes>
    requires m.n <= |m.buf| && m.gso.GsoSize? && m.gso.size <= |m.buf|
  {
    if m.gso.size > m.n then [m.buf[..m.gso.size]] else Pieces(m)
  }

  /** Where piece j starts and ends. */
  lemma {:induction false} CutAt(data: Bytes, g: nat, j: nat)
    requires g > 0 && j < |Cut(data, g)|
    ensures j * g < |data|
    ensures Cut(data, g)[j] == data[j * g..if (j + 1) * g < |data| then (j + 1) * g else |data|]
    decreases j
  {
    if j > 0 {
      CutAt(data[g..], g, j - 1);
      assert j * g == (j - 1) * g + g && (j + 1) * g == j * g + g;
    }
  }

  lemma {:induction false} CutCount(data: Bytes, g: nat)
    requires g > 0
    ensures |Cut(data, g)| == (|data| + g - 1) / g
    decreases |data|
  {
    if |data| > g {
      CutCount(data[g..], g);
      DivStep(|data| - 1, g);
    } else if data != [] {
      DivStep(|data| - 1, g);
      SmallDiv(|data| - 1, g);
    } else {
      SmallDiv(g - 1, g);
    }
  }

  lemma DivStep(a: nat, g: nat)
    requires g > 0
    ensures (a + g) / g == a / g + 1
  {
    var q, r := a / g, a % g;
    assert a + g == g * (q + 1) + r;
    QuotientIs(a + g, g, q + 1, r);
  }

  lemma SmallDiv(a: nat, g: nat)
    requires a < g
    ensures a / g == 0
  {
    QuotientIs(a, g, 0, a);
  }

  lemma QuotientIs(a: nat, g: nat, q: nat, r: nat)
    requires a == g * q + r && r < g
    ensures a / g == q
  {
    var q', r' := a / g, a % g;
    assert a == g * q' + r';
    if q' > q {
      Grows(g, q, q');
    } else if q' < q {
      Grows(g, q', q);
    }
  }

  lemma {:induction false} Grows(g: nat, a: nat, b: nat)
    requires a < b
    ensures g * b >= g * a + g
    decreases b
  {
    if a + 1 < b {
      Grows(g, a, b - 1);
      assert g * b == g * (b - 1) + g;
    }
  }

  /** All buffers have one size, and no count or segment size exceeds it. */
  ghost predicate Sized(ms: seq<InMsg>, size: nat) {
    forall k {:trigger ms[k]} :: 0 <= k < |ms| ==> |ms[k].buf| == size && ms[k].n <= size && (ms[k].gso.GsoSize? ==> ms[k].gso.size <= size)
  }

  ghost predicate HoldsPiece(m: InMsg, piece: Bytes, addr: nat) {
    m.n == |piece| <= |m.buf| && m.buf[..m.n] == piece && m.addr == addr
  }

  function EndOfPiece(m: InMsg, start: nat): nat
    requires m.gso.GsoSize?
  {
    if m.gso.size == 0 then m.n else if m.gso.size > m.n then m.gso.size else if start + m.gso.size < m.n then start + m.gso.size else m.n
  }

  lemma PieceIs(m: InMsg, j: nat, start: nat)
    requires 0 < m.n <= |m.buf| && m.gso.GsoSize? && m.gso.size <= |m.buf| && j < |Taken(m)|
    requires start == j * m.gso.size
    ensures start <= EndOfPiece(m, start) <= |m.buf| && Taken(m)[j] == m.buf[start..EndOfPiece(m, start)]
    ensures m.gso.size == 0 ==> j == 0
    ensures j + 1 < |Taken(m)| ==> EndOfPiece(m, start) == start + m.gso.size == (j + 1) * m.gso.size <= m.n
  {
    hide Cut;
    var data, g := m.buf[..m.n], m.gso.size;
    if 0 < g <= m.n {
      CutAt(data, g, j);
      assert (j + 1) * g == j * g + g;
      SliceOfFront(m.buf, m.n, start, EndOfPiece(m, start));
      if j + 1 < |Taken(m)| {
        CutAt(data, g, j + 1);
      }
    } else {
      assert j == 0 && start == 0;
    }
  }

  lemma SliceOfFront(buf: Bytes, n: nat, start: nat, end: nat)
    requires start <= end <= n <= |buf|
    ensures buf[..n][start..end] == buf[start..end]
  {
  }

  lemma TakenCount(m: InMsg)
    requires 0 < m.n <= |m.buf| && m.gso.GsoSize? && m.gso.size <= |m.buf|
    ensures |Taken(m)| > 0
    ensures |Taken(m)| == if m.gso.size > 0 then (m.n + m.gso.size - 1) / m.gso.size else 1
  {
    hide Cut;
    if m.gso.size > 0 {
      CutCount(m.buf[..m.n], m.gso.size);
      DivStep(m.n - 1, m.gso.size);
      if m.gso.size > m.n {
        SmallDiv(m.n - 1, m.gso.size);
      }
    }
  }

  /**
   The pieces of message i go to the slots from n0 on.  They may reach slot i itself, but then it is the
   last piece that does, so no byte is overwritten before it was read.
   */
  method SplitOne(msgs: array<InMsg>, ghost size: nat, i: nat, n0: nat) returns (n: nat, ok: bool)
    requires n0 <= i < msgs.Length && Sized(msgs[..], size) && msgs[i].n > 0 && msgs[i].gso.GsoSize?
    modifies msgs
    ensures Sized(msgs[..], size)
    ensures old(msgs[i].n <= |msgs[i].buf| && msgs[i].gso.size <= |msgs[i].buf|)
    ensures var ps := Taken(old(msgs[i]));
            && (ok <==> n0 + |ps| <= i + 1)
            && (ok ==> n == n0 + |ps| && forall k {:trigger msgs[k]} :: n0 <= k < n ==> HoldsPiece(msgs[k], ps[k - n0], old(msgs[i].addr)))
            && |ps| > 0
    ensures forall k {:trigger msgs[k]} :: (0 <= k < n0 || i < k < msgs.Length) ==> msgs[k] == old(msgs[k])
    ensures ok ==> forall k {:trigger msgs[k]} :: n <= k <= i ==> msgs[k] == old(msgs[k])
  {
    hide Cut, Taken, EndOfPiece;
    ghost var m := msgs[i];
    assert |msgs[..][i].buf| == size;
    var gsoSize := msgs[i].gso.size;
    var start, end, numToSplit := 0, msgs[i].n, 1;
    ghost var ps := Taken(m);
    TakenCount(m);
    if gsoSize > 0 {
      numToSplit := (msgs[i].n + gsoSize - 1) / gsoSize;
      end := gsoSize;
    }
    FirstEnd(m);
    n := n0;
    var j := 0;
    while j < numToSplit
      invariant 0 <= j <= numToSplit == |ps| && n == n0 + j <= i + 1
      invariant Sized(msgs[..], size)
      invariant n <= i ==> msgs[i] == m
      invariant j < numToSplit && n <= i ==> start == j * gsoSize && end == EndOfPiece(m, start)
      invariant forall k {:trigger msgs[k]} :: n0 <= k < n ==> HoldsPiece(msgs[k], ps[k - n0], m.addr)
      invariant forall k {:trigger msgs[k]} :: (0 <= k < n0 || n <= k < msgs.Length) ==> msgs[k] == old(msgs[k])
    {
      if n > i {
        return n, false;
      }
      PieceIs(m, j, start);
      var piece := msgs[i].buf[start..end];
      PutPiece(msgs[..], size, n, piece, m.addr);
      msgs[n] := Put(msgs[n], piece, msgs[i].addr);
      start := end;
      end := end + gsoSize;
      if end > msgs[i].n {
        end := msgs[i].n;
      }
      NextEnd(m, start);
      n := n + 1;
      j := j + 1;
    }
    ok := true;
  }

  /** Copying a piece into a slot. */
  function Put(m: InMsg, piece: Bytes, addr: nat): InMsg
    requires |piece| <= |m.buf|
  {
    m.(buf := piece + m.buf[|piece|..], n := |piece|, addr := addr)
  }

  lemma PutPiece(ms: seq<InMsg>, size: nat, n: nat, piece: Bytes, addr: nat)
    requires n < |ms| && Sized(ms, size) && |piece| <= size
    ensures |ms[n].buf| == size && Sized(ms[n := Put(ms[n], piece, addr)], size) && HoldsPiece(Put(ms[n], piece, addr), piece, addr)
  {
  }

  lemma FirstEnd(m: InMsg)
    requires 0 < m.n && m.gso.GsoSize?
    ensures EndOfPiece(m, 0) == if m.gso.size > 0 then m.gso.size else m.n
  {
  }

  lemma NextEnd(m: InMsg, start: nat)
    requires m.gso.GsoSize?
    ensures 0 < m.gso.size <= m.n ==> EndOfPiece(m, start) == if start + m.gso.size > m.n then m.n else start + m.gso.size
  {
  }

  function Tagged(ps: seq<Bytes>, addr: nat): seq<Received> {
    seq(|ps|, k requires 0 <= k < |ps| => Received(ps[k], addr))
  }

  /** A message whose control data can be read. */
  predicate Readable(m: InMsg) {
    m.n <= |m.buf| && m.gso.GsoSize? && m.gso.size <= |m.buf|
  }

  /** The datagrams received in the messages from i on, up to the first empty one. */
  function Datagrams(ms: seq<InMsg>, i: nat): seq<Received>
    decreases |ms| - i
  {
    if i >= |ms| || ms[i].n == 0 || !Readable(ms[i]) then [] else Tagged(Pieces(ms[i]), ms[i].addr) + Datagrams(ms, i + 1)
  }

  /** What is taken for them. */
  function Expand(ms: seq<InMsg>, i: nat): seq<Received>
    decreases |ms| - i
  {
    if i >= |ms| || ms[i].n == 0 || !Readable(ms[i]) then [] else Tagged(Taken(ms[i]), ms[i].addr) + Expand(ms, i + 1)
  }

  /** No message from i on, up to the first empty one, has a segment size larger than itself. */
  predicate Within(ms: seq<InMsg>, i: nat)
    decreases |ms| - i
  {
    i >= |ms| || ms[i].n == 0 || !Readable(ms[i]) || (ms[i].gso.size <= ms[i].n && Within(ms, i + 1))
  }

  /** As many datagrams are taken as were received, and they are the same exactly when no segment size is larger than its message. */
  lemma {:induction false} TakenIsReceived(ms: seq<InMsg>, i: nat)
    ensures |Expand(ms, i)| == |Datagrams(ms, i)|
    ensures Expand(ms, i) == Datagrams(ms, i) <==> Within(ms, i)
    decreases |ms| - i
  {
    if i < |ms| && ms[i].n > 0 && Readable(ms[i]) {
      var m := ms[i];
      TakenIsReceived(ms, i + 1);
      var ts, ps := Tagged(Taken(m), m.addr), Tagged(Pieces(m), m.addr);
      assert |ts| == |ps|;
      if m.gso.size > m.n {
        assert |Expand(ms, i)[0].data| == m.gso.size && |Datagrams(ms, i)[0].data| == m.n;
      } else if Expand(ms, i) == Datagrams(ms, i) {
        assert Expand(ms, i)[|ts|..] == Expand(ms, i + 1) && Datagrams(ms, i)[|ps|..] == Datagrams(ms, i + 1);
      }
    }
  }

  /** One byte received with a segment size of two: a stale byte of the buffer comes along. */
  lemma StaleByteTaken(x: u8, stale: u8, addr: nat)
    ensures var ms := [InMsg([x, stale], 1, addr, GsoSize(2))];
            Datagrams(ms, 0) == [Received([x], addr)] && Expand(ms, 0) == [Received([x, stale], addr)] && !Within(ms, 0)
  {
    var m := InMsg([x, stale], 1, addr, GsoSize(2));
    assert m.buf[..1] == [x] && m.buf[..2] == [x, stale];
    assert Pieces(m) == [[x]] && Taken(m) == [[x, stale]];
    assert Expand([m], 1) == [] && Datagrams([m], 1) == [];
  }

  /** The slots can hold only one list of datagrams of a given length. */
  lemma SlotsHoldOne(ms: seq<InMsg>, got: seq<Received>, other: seq<Received>)
    requires |got| == |other| && Slots(ms, got) && Slots(ms, other)
    ensures got == other
  {
    forall k | 0 <= k < |got| ensures got[k] == other[k] {
      assert HoldsPiece(ms[k], got[k].data, got[k].addr) && HoldsPiece(ms[k], other[k].data, other[k].addr);
    }
  }

  /** Every message from i on, up to the first empty one, can be read, and the slots up to its own are enough for it. */
  predicate Room(ms: seq<InMsg>, i: nat, n: nat)
    decreases |ms| - i
  {
    i >= |ms| || ms[i].n == 0 || (Readable(ms[i]) && n + |Taken(ms[i])| <= i + 1 && Room(ms, i + 1, n + |Taken(ms[i])|))
  }

  ghost predicate Slots(ms: seq<InMsg>, got: seq<Received>) {
    |got| <= |ms| && forall k {:trigger ms[k]} :: 0 <= k < |got| ==> HoldsPiece(ms[k], got[k].data, got[k].addr)
  }

  /**
   Splitting succeeds exactly when there is room.  Then slot k holds the datagram k that was received, for all of
   them, exactly when no segment size is larger than its message; and the slots read but not refilled are empty.
   */
  method SplitCoalescedMessages(msgs: array<InMsg>, ghost size: nat, firstMsgAt: nat) returns (n: nat, ok: bool)
    requires Sized(msgs[..], size)
    modifies msgs
    ensures ok <==> Room(old(msgs[..]), firstMsgAt, 0)
    ensures ok ==> n == |Datagrams(old(msgs[..]), firstMsgAt)| && Slots(msgs[..], Expand(old(msgs[..]), firstMsgAt))
    ensures ok ==> (Slots(msgs[..], Datagrams(old(msgs[..]), firstMsgAt)) <==> Within(old(msgs[..]), firstMsgAt))
    ensures ok ==> forall k {:trigger msgs[k]} :: n <= k < msgs.Length ==> msgs[k].n == 0 || msgs[k] == old(msgs[k])
  {
    hide Taken, Expand, Datagrams, Within, Room, Slots, HoldsPiece;
    ghost var ms := msgs[..];
    TakenIsReceived(ms, firstMsgAt);
    ghost var got: seq<Received> := [];
    n := 0;
    SlotsNone(ms);
    var i := firstMsgAt;
    while i < msgs.Length
      invariant |got| == n <= i && firstMsgAt <= i && Sized(msgs[..], size)
      invariant Expand(ms, firstMsgAt) == got + Expand(ms, i) && (Room(ms, firstMsgAt, 0) <==> Room(ms, i, n))
      invariant Slots(msgs[..], got)
      invariant forall k {:trigger msgs[k]} :: i <= k < msgs.Length ==> msgs[k] == ms[k]
      invariant forall k {:trigger msgs[k]} :: n <= k < msgs.Length ==> msgs[k].n == 0 || msgs[k] == ms[k]
    {
      Unfold(ms, i, n);
      assert ms[i] == msgs[i] && got + [] == got;
      if msgs[i].n == 0 {
        SlotsExact(msgs[..], ms, firstMsgAt);
        return n, true;
      }
      if msgs[i].gso.GsoError? {
        return n, false;
      }
      assert Readable(msgs[..][i]);
      ghost var before, n0 := msgs[..], n;
      n, ok := SplitOne(msgs, size, i, n);
      if !ok {
        return;
      }
      if i != n - 1 {
        msgs[i] := msgs[i].(n := 0);
      }
      SlotsMore(before, msgs[..], got, n0, Taken(ms[i]), ms[i].addr);
      got := got + Tagged(Taken(ms[i]), ms[i].addr);
      i := i + 1;
    }
    Unfold(ms, i, n);
    assert got + [] == got;
    SlotsExact(msgs[..], ms, firstMsgAt);
    ok := true;
  }

  lemma SlotsExact(after: seq<InMsg>, ms: seq<InMsg>, i: nat)
    requires Slots(after, Expand(ms, i))
    ensures Slots(after, Datagrams(ms, i)) <==> Within(ms, i)
  {
    hide Slots, Expand, Datagrams, Within;
    TakenIsReceived(ms, i);
    if Slots(after, Datagrams(ms, i)) {
      SlotsHoldOne(after, Expand(ms, i), Datagrams(ms, i));
    }
  }

  lemma Unfold(ms: seq<InMsg>, i: nat, n: nat)
    ensures i >= |ms| || ms[i].n == 0 ==> Expand(ms, i) == [] && Room(ms, i, n)
    ensures i < |ms| && ms[i].n > 0 && !Readable(ms[i]) ==> !Room(ms, i, n)
    ensures i < |ms| && ms[i].n > 0 && Readable(ms[i]) ==>
              && Expand(ms, i) == Tagged(Taken(ms[i]), ms[i].addr) + Expand(ms, i + 1)
              && (Room(ms, i, n) <==> n + |Taken(ms[i])| <= i + 1 && Room(ms, i + 1, n + |Taken(ms[i])|))
  {
  }

  lemma SlotsNone(ms: seq<InMsg>)
    ensures Slots(ms, [])
  {
  }

  lemma SlotsMore(before: seq<InMsg>, after: seq<InMsg>, got: seq<Received>, n: nat, ps: seq<Bytes>, addr: nat)
    requires n == |got| && n + |ps| <= |after| == |before| && Slots(before, got)
    requires forall k {:trigger after[k]} :: 0 <= k < n ==> after[k] == before[k]
    requires forall k {:trigger after[k]} :: n <= k < n + |ps| ==> HoldsPiece(after[k], ps[k - n], addr)
    ensures Slots(after, got + Tagged(ps, addr))
  {
    hide HoldsPiece;
  }

  // ---------------------------------------------------------------- the batch is always large enough

  /** Where receiveIP has the kernel put merged messages. */
  const READ_AT := IDEAL_BATCH_SIZE - IDEAL_BATCH_SIZE / UDP_SEGMENT_MAX_DATAGRAMS

  /** With messages of at most 64 datagrams, the slots in front of those read into are always enough. */
  lemma ReadAtLeavesRoom(ms: seq<InMsg>)
    requires |ms| == IDEAL_BATCH_SIZE
    requires forall k {:trigger ms[k]} :: READ_AT <= k < |ms| ==> Readable(ms[k]) && |Taken(ms[k])| <= UDP_SEGMENT_MAX_DATAGRAMS
    ensures Room(ms, READ_AT, 0)
  {
    hide Taken;
    var c := |Taken(ms[126])|;
    Unfold(ms, 126, 0);
    Unfold(ms, 127, c);
    Unfold(ms, 128, c + |Taken(ms[127])|);
  }
}
