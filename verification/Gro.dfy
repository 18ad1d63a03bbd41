/**
 Generic receive offload over a batch of packets.  Packets of the same flow are merged in place in
 their buffers; the indices of the buffers to be written are collected as the batch is processed.
 */
module Gro {
  import opened InternetChecksum
  import opened Segmentation
  import opened GroPackets

  /** A buffer from the packet's first byte on: the packet, and the capacity behind it. */
  datatype Buf = Buf(data: seq<u8>, cap: nat)

  // ---------------------------------------------------------------- the ledger

  /** Who carries what: packet j's payload is in written packet owner[j]; parts lists the packets in a written one. */
  datatype Ledger = Ledger(owner: seq<nat>, parts: map<nat, seq<nat>>)

  ghost predicate NoDup(s: seq<nat>) {
    forall i, j :: 0 <= i < j < |s| ==> s[i] != s[j]
  }

  ghost predicate PartsOk(l: Ledger, w: nat)
    requires w in l.parts
  {
    && w < |l.owner| && l.owner[w] == w
    && NoDup(l.parts[w]) && |l.parts[w]| >= 1
    && forall k {:trigger l.parts[w][k]} :: 0 <= k < |l.parts[w]| ==> l.parts[w][k] < |l.owner| && l.owner[l.parts[w][k]] == w
  }

  ghost predicate LedgerOk(l: Ledger) {
    && (forall j {:trigger l.owner[j]} :: 0 <= j < |l.owner| ==> l.owner[j] in l.parts && j in l.parts[l.owner[j]])
    && (forall w {:trigger l.parts[w]} :: w in l.parts ==> PartsOk(l, w))
  }

  /** Every packet is carried by exactly one written packet, exactly once. */
  lemma CarriedOnce(l: Ledger, j: nat, w: nat, k: nat, w': nat, k': nat)
    requires LedgerOk(l) && j < |l.owner|
    ensures l.owner[j] in l.parts && j in l.parts[l.owner[j]]
    ensures (w in l.parts && k < |l.parts[w]| && l.parts[w][k] == j && w' in l.parts && k' < |l.parts[w']| && l.parts[w'][k'] == j) ==> w == w' && k == k'
  {
    if w in l.parts && k < |l.parts[w]| && l.parts[w][k] == j && w' in l.parts && k' < |l.parts[w']| && l.parts[w'][k'] == j {
      assert PartsOk(l, w) && PartsOk(l, w');
    }
  }

  function Own(l: Ledger): Ledger {
    Ledger(l.owner + [|l.owner|], l.parts[|l.owner| := [|l.owner|]])
  }

  function Join(l: Ledger, w: nat, parts: seq<nat>): Ledger {
    Ledger(l.owner + [w], l.parts[w := parts])
  }

  lemma OwnOk(l: Ledger)
    requires LedgerOk(l)
    ensures LedgerOk(Own(l)) && |l.owner| !in l.parts
  {
    var l', n := Own(l), |l.owner|;
    assert n in l.parts ==> PartsOk(l, n);
    forall j | 0 <= j < |l'.owner| ensures l'.owner[j] in l'.parts && j in l'.parts[l'.owner[j]] {
      if j < n {
        assert l.owner[j] in l.parts;
      }
    }
    forall w | w in l'.parts ensures PartsOk(l', w) {
      if w != n {
        assert PartsOk(l, w);
      }
    }
  }

  ghost predicate IsJoin(l: Ledger, w: nat, parts: seq<nat>)
    requires w in l.parts
  {
    parts == l.parts[w] + [|l.owner|] || parts == [|l.owner|] + l.parts[w]
  }

  lemma JoinOk(l: Ledger, w: nat, parts: seq<nat>)
    requires LedgerOk(l) && w in l.parts && IsJoin(l, w, parts)
    ensures LedgerOk(Join(l, w, parts))
  {
    var l', n := Join(l, w, parts), |l.owner|;
    assert PartsOk(l, w);
    forall j | 0 <= j < |l'.owner| ensures l'.owner[j] in l'.parts && j in l'.parts[l'.owner[j]] {
      if j < n {
        assert l.owner[j] in l.parts && j in l.parts[l.owner[j]];
        InJoin(l, w, parts, j);
      } else {
        InJoin(l, w, parts, j);
      }
    }
    forall v | v in l'.parts ensures PartsOk(l', v) {
      assert PartsOk(l, v);
    }
  }

  lemma InJoin(l: Ledger, w: nat, parts: seq<nat>, j: nat)
    requires w in l.parts && IsJoin(l, w, parts)
    ensures j in parts <==> j in l.parts[w] || j == |l.owner|
  {
  }

  // ---------------------------------------------------------------- the state of a batch

  /** The buffers, the items by flow, the indices to write, and the ledger. */
  datatype State = State(bs: seq<Buf>, items: map<FlowKey, seq<Item>>, toWrite: seq<nat>, ledger: Ledger)
  {
    /** The next packet. */
    ghost function Next(): nat { |ledger.owner| }
  }

  ghost function Originals(origs: seq<seq<u8>>, ps: seq<nat>): seq<seq<u8>> {
    seq(|ps|, k requires 0 <= k < |ps| => if ps[k] < |origs| then origs[ps[k]] else [])
  }

  ghost predicate ItemOk(st: State, origs: seq<seq<u8>>, key: FlowKey, item: Item) {
    && item.key == key
    && item.bufsIndex in st.ledger.parts && item.bufsIndex < |st.bs|
    && Holds(item, st.bs[item.bufsIndex].data, Originals(origs, st.ledger.parts[item.bufsIndex]))
  }

  ghost predicate Increasing(s: seq<nat>) {
    forall i, j :: 0 <= i < j < |s| ==> s[i] < s[j]
  }

  /** The packets an item stands for, in arrival order, all before the next item of the flow. */
  ghost predicate InOrder(l: Ledger, s: seq<Item>) {
    && (forall i {:trigger s[i]} :: 0 <= i < |s| && s[i].bufsIndex in l.parts ==> Increasing(l.parts[s[i].bufsIndex]))
    && (forall i, j {:trigger s[i], s[j]} :: 0 <= i < j < |s| && s[i].bufsIndex in l.parts && s[j].bufsIndex in l.parts ==>
          AllBefore(l.parts[s[i].bufsIndex], l.parts[s[j].bufsIndex]))
  }

  ghost predicate AllBefore(a: seq<nat>, b: seq<nat>) {
    forall i, j {:trigger a[i], b[j]} :: 0 <= i < |a| && 0 <= j < |b| ==> a[i] < b[j]
  }

  ghost predicate FlowOk(st: State, origs: seq<seq<u8>>, key: FlowKey, s: seq<Item>) {
    && (forall i {:trigger s[i]} :: 0 <= i < |s| ==> ItemOk(st, origs, key, s[i]))
    && (forall i, j {:trigger s[i], s[j]} :: 0 <= i < j < |s| ==> s[i].bufsIndex < s[j].bufsIndex)
    && (!key.tcp ==> InOrder(st.ledger, s))
  }

  ghost predicate InFlow(s: seq<Item>, w: nat) {
    exists i :: 0 <= i < |s| && s[i].bufsIndex == w
  }

  ghost predicate Tracked(items: map<FlowKey, seq<Item>>, w: nat) {
    exists key {:trigger items[key]} :: key in items && InFlow(items[key], w)
  }

  /** A written packet that is just the packet at its index. */
  ghost predicate Alone(st: State, origs: seq<seq<u8>>, w: nat)
    requires w in st.ledger.parts
  {
    st.ledger.parts[w] == [w] && w < |st.bs| && w < |origs| && st.bs[w].data == origs[w]
  }

  ghost predicate BufsOk(st: State, origs: seq<seq<u8>>) {
    && st.Next() <= |st.bs| == |origs| <= 0x1_0000
    && (forall j {:trigger st.bs[j]} :: st.Next() <= j < |st.bs| ==> st.bs[j].data == origs[j])
    && (forall j {:trigger st.bs[j]} :: 0 <= j < |st.bs| ==> st.bs[j].cap <= MAX_UINT16)
  }

  ghost predicate WritesOk(st: State, origs: seq<seq<u8>>) {
    && Increasing(st.toWrite)
    && (forall w :: w in st.toWrite <==> w in st.ledger.parts)
    && (forall w {:trigger st.ledger.parts[w]} :: w in st.ledger.parts ==> Alone(st, origs, w) || Tracked(st.items, w))
  }

  ghost predicate TableOk(st: State, origs: seq<seq<u8>>) {
    forall key {:trigger st.items[key]} :: key in st.items ==> FlowOk(st, origs, key, st.items[key])
  }

  ghost predicate Inv(st: State, origs: seq<seq<u8>>) {
    BufsOk(st, origs) && LedgerOk(st.ledger) && WritesOk(st, origs) && TableOk(st, origs)
  }

  // ---------------------------------------------------------------- what the steps keep

  /** Items whose buffer and parts stay as they are stay right. */
  lemma FlowFrame(st: State, st': State, origs: seq<seq<u8>>, key: FlowKey, s: seq<Item>)
    requires FlowOk(st, origs, key, s) && |st.bs| <= |st'.bs|
    requires forall i {:trigger s[i]} :: 0 <= i < |s| && s[i].bufsIndex in st.ledger.parts && s[i].bufsIndex < |st.bs| ==>
               && s[i].bufsIndex in st'.ledger.parts && st'.ledger.parts[s[i].bufsIndex] == st.ledger.parts[s[i].bufsIndex]
               && st'.bs[s[i].bufsIndex].data == st.bs[s[i].bufsIndex].data
    ensures FlowOk(st', origs, key, s)
  {
    hide Holds, Originals, AllBefore, Increasing;
    forall i | 0 <= i < |s| ensures ItemOk(st', origs, key, s[i]) {
      assert ItemOk(st, origs, key, s[i]);
    }
  }

  /** The packet goes out as it came: it is not a candidate, or its checksum is bad. */
  function Passed(st: State): State {
    st.(toWrite := st.toWrite + [|st.ledger.owner|], ledger := Own(st.ledger))
  }

  lemma PassedKeeps(st: State, origs: seq<seq<u8>>)
    requires Inv(st, origs) && st.Next() < |st.bs|
    ensures Inv(Passed(st), origs) && Alone(Passed(st), origs, st.Next())
  {
    hide FlowOk, Tracked, LedgerOk;
    var st', n := Passed(st), st.Next();
    OwnOk(st.ledger);
    WritesBefore(st, origs);
    forall key | key in st'.items ensures FlowOk(st', origs, key, st'.items[key]) {
      FlowOwned(st, origs, key);
    }
    MoreWrites(st.toWrite, n);
    assert WritesOk(st', origs) by {
      forall w | w in st'.ledger.parts ensures Alone(st', origs, w) || Tracked(st'.items, w) {
        if w != n {
          assert Alone(st, origs, w) || Tracked(st.items, w);
        }
      }
    }
  }

  lemma MoreWrites(toWrite: seq<nat>, n: nat)
    requires Increasing(toWrite) && forall w :: w in toWrite ==> w < n
    ensures Increasing(toWrite + [n]) && forall w :: w in toWrite + [n] <==> w in toWrite || w == n
  {
    assert forall i :: 0 <= i < |toWrite| ==> toWrite[i] in toWrite;
  }

  lemma WritesBefore(st: State, origs: seq<seq<u8>>)
    requires Inv(st, origs)
    ensures forall w :: w in st.toWrite ==> w < st.Next()
  {
    forall w | w in st.toWrite ensures w < st.Next() {
      assert PartsOk(st.ledger, w);
    }
  }

  lemma FlowOwned(st: State, origs: seq<seq<u8>>, key: FlowKey)
    requires Inv(st, origs) && key in st.items && st.Next() !in st.ledger.parts
    ensures FlowOk(Passed(st), origs, key, st.items[key])
  {
    hide Holds;
    FlowFrame(st, Passed(st), origs, key, st.items[key]);
  }

  function ItemsOf(items: map<FlowKey, seq<Item>>, key: FlowKey): seq<Item> {
    if key in items then items[key] else []
  }

  /** The packet goes out and is remembered in its flow. */
  function Inserted(st: State, key: FlowKey, item: Item): State {
    Passed(st).(items := st.items[key := ItemsOf(st.items, key) + [item]])
  }

  lemma InsertedKeeps(st: State, origs: seq<seq<u8>>, key: FlowKey, item: Item)
    requires Inv(st, origs) && st.Next() < |st.bs|
    requires item.key == key && item.bufsIndex == st.Next() && Holds(item, origs[st.Next()], [origs[st.Next()]])
    ensures Inv(Inserted(st, key, item), origs)
  {
    hide FlowOk, LedgerOk, Holds, Alone, InFlow, PartsOk;
    var mid, st' := Passed(st), Inserted(st, key, item);
    PassedKeeps(st, origs);
    InsertedFlow(st, origs, key, item);
    forall other | other in st'.items ensures FlowOk(st', origs, other, st'.items[other]) {
      if other != key {
        FlowSame(mid, st', origs, other, st.items[other]);
      }
    }
    assert WritesOk(st', origs) by {
      forall w | w in st'.ledger.parts ensures Alone(st', origs, w) || Tracked(st'.items, w) {
        assert Alone(mid, origs, w) || Tracked(mid.items, w);
        AloneSame(mid, st', origs, w);
        if Tracked(st.items, w) {
          StillTracked(st.items, key, item, w);
        }
      }
    }
  }

  lemma FlowSame(st: State, st': State, origs: seq<seq<u8>>, key: FlowKey, s: seq<Item>)
    requires FlowOk(st, origs, key, s) && st'.bs == st.bs && st'.ledger == st.ledger
    ensures FlowOk(st', origs, key, s)
  {
    hide Holds, InOrder;
    FlowFrame(st, st', origs, key, s);
  }

  lemma AloneSame(st: State, st': State, origs: seq<seq<u8>>, w: nat)
    requires w in st.ledger.parts && st'.bs == st.bs && st'.ledger == st.ledger
    ensures Alone(st', origs, w) == Alone(st, origs, w)
  {
  }

  lemma StillTracked(items: map<FlowKey, seq<Item>>, key: FlowKey, item: Item, w: nat)
    requires Tracked(items, w)
    ensures Tracked(items[key := ItemsOf(items, key) + [item]], w)
  {
    var items': map<FlowKey, seq<Item>> := items[key := ItemsOf(items, key) + [item]];
    var k: FlowKey :| k in items && InFlow(items[k], w);
    var i: nat :| i < |items[k]| && items[k][i].bufsIndex == w;
    assert items'[k][i].bufsIndex == w;
    assert InFlow(items'[k], w);
  }

  lemma InsertedFlow(st: State, origs: seq<seq<u8>>, key: FlowKey, item: Item)
    requires Inv(st, origs) && st.Next() < |st.bs|
    requires item.key == key && item.bufsIndex == st.Next() && Holds(item, origs[st.Next()], [origs[st.Next()]])
    ensures FlowOk(Inserted(st, key, item), origs, key, ItemsOf(st.items, key) + [item])
  {
    hide Holds, Originals, InOrder, LedgerOk, PartsOk, WritesOk, TableOk;
    var st', s, n := Inserted(st, key, item), ItemsOf(st.items, key), st.Next();
    OwnOk(st.ledger);
    FlowOfTable(st, origs, key);
    FlowFrame(st, st', origs, key, s);
    OneOriginal(origs, n);
    assert ItemOk(st', origs, key, item);
    AllEarlier(st, origs, key, s);
    if !key.tcp {
      InOrderMore(st.ledger, st'.ledger, s, item);
    }
  }

  lemma FlowOfTable(st: State, origs: seq<seq<u8>>, key: FlowKey)
    requires TableOk(st, origs)
    ensures FlowOk(st, origs, key, ItemsOf(st.items, key))
  {
    hide FlowOk;
    if key !in st.items {
      FlowNone(st, origs, key);
    }
  }

  lemma FlowNone(st: State, origs: seq<seq<u8>>, key: FlowKey)
    ensures FlowOk(st, origs, key, [])
  {
  }

  /** Everything an item stands for has been processed. */
  lemma AllEarlier(st: State, origs: seq<seq<u8>>, key: FlowKey, s: seq<Item>)
    requires LedgerOk(st.ledger) && FlowOk(st, origs, key, s)
    ensures forall i {:trigger s[i]} :: 0 <= i < |s| ==>
              && s[i].bufsIndex < st.Next() && s[i].bufsIndex in st.ledger.parts
              && AllBefore(st.ledger.parts[s[i].bufsIndex], [st.Next()])
  {
    hide Holds, InOrder;
    forall i | 0 <= i < |s|
      ensures && s[i].bufsIndex < st.Next() && s[i].bufsIndex in st.ledger.parts
              && AllBefore(st.ledger.parts[s[i].bufsIndex], [st.Next()])
    {
      assert ItemOk(st, origs, key, s[i]);
      assert PartsOk(st.ledger, s[i].bufsIndex);
    }
  }

  lemma InOrderMore(l: Ledger, l': Ledger, s: seq<Item>, item: Item)
    requires InOrder(l, s) && item.bufsIndex in l'.parts && l'.parts[item.bufsIndex] == [item.bufsIndex]
    requires forall i {:trigger s[i]} :: 0 <= i < |s| ==>
               && s[i].bufsIndex in l.parts && s[i].bufsIndex in l'.parts
               && l.parts[s[i].bufsIndex] == l'.parts[s[i].bufsIndex] && AllBefore(l.parts[s[i].bufsIndex], [item.bufsIndex])
    ensures InOrder(l', s + [item])
  {
  }

  lemma OneOriginal(origs: seq<seq<u8>>, n: nat)
    requires n < |origs|
    ensures Originals(origs, [n]) == [origs[n]]
  {
  }

  /** The packet is merged into item i of its flow; junk is what is left in its own buffer. */
  function Merged(st: State, key: FlowKey, i: nat, item: Item, buf: Buf, junk: Buf, parts: seq<nat>): State
    requires key in st.items && i < |st.items[key]| && item.bufsIndex < |st.bs| && |st.ledger.owner| < |st.bs|
  {
    State(st.bs[item.bufsIndex := buf][|st.ledger.owner| := junk], st.items[key := st.items[key][i := item]], st.toWrite,
          Join(st.ledger, item.bufsIndex, parts))
  }

  /** When a merge is right. */
  ghost predicate GoodMerge(st: State, origs: seq<seq<u8>>, key: FlowKey, i: nat, item: Item, buf: Buf, junk: Buf, parts: seq<nat>) {
    && st.Next() < |st.bs| && key in st.items && i < |st.items[key]|
    && item.key == key && item.bufsIndex == st.items[key][i].bufsIndex && item.bufsIndex in st.ledger.parts && item.bufsIndex < |st.bs|
    && IsJoin(st.ledger, item.bufsIndex, parts)
    && Holds(item, buf.data, Originals(origs, parts))
    && buf.cap <= MAX_UINT16 && junk.cap <= MAX_UINT16
    && (!key.tcp ==> i == |st.items[key]| - 1 && parts == st.ledger.parts[item.bufsIndex] + [st.Next()])
  }

  lemma KeyDetermined(pkt: seq<u8>, key: FlowKey, key': FlowKey)
    requires OfFlow(pkt, key) && OfFlow(pkt, key')
    ensures key == key'
  {
    hide NewFlowKey;
  }

  /** No two flows share a buffer. */
  lemma DistinctFlows(st: State, origs: seq<seq<u8>>, key: FlowKey, item: Item, key': FlowKey, item': Item)
    requires ItemOk(st, origs, key, item) && ItemOk(st, origs, key', item') && item.bufsIndex == item'.bufsIndex
    ensures key == key'
  {
    hide OfFlow, Cuts, Follow, TraitsOf;
    var first := Originals(origs, st.ledger.parts[item.bufsIndex])[0];
    assert Kind(first, key, item.thLen, TraitsOf(st.bs[item.bufsIndex].data, key.isV6, item.thLen));
    KeyDetermined(first, key, key');
  }

  lemma MergedKeeps(st: State, origs: seq<seq<u8>>, key: FlowKey, i: nat, item: Item, buf: Buf, junk: Buf, parts: seq<nat>)
    requires Inv(st, origs) && GoodMerge(st, origs, key, i, item, buf, junk, parts)
    ensures Inv(Merged(st, key, i, item, buf, junk, parts), origs)
  {
    hide FlowOk, LedgerOk, Holds, Alone, InFlow, PartsOk, Originals;
    var st', w, n := Merged(st, key, i, item, buf, junk, parts), item.bufsIndex, st.Next();
    JoinOk(st.ledger, w, parts);
    OwnOk(st.ledger);
    MergedFlow(st, origs, key, i, item, buf, junk, parts);
    forall other | other in st'.items ensures FlowOk(st', origs, other, st'.items[other]) {
      if other != key {
        OtherFlow(st, origs, key, i, item, buf, junk, parts, other);
      }
    }
    assert WritesOk(st', origs) by {
      forall v | v in st'.ledger.parts ensures Alone(st', origs, v) || Tracked(st'.items, v) {
        MergedWrites(st, origs, key, i, item, buf, junk, parts, v);
      }
    }
    PartBefore(st.ledger, w);
  }

  lemma PartBefore(l: Ledger, w: nat)
    requires LedgerOk(l) && w in l.parts
    ensures w < |l.owner|
  {
    assert PartsOk(l, w);
  }

  lemma OtherFlow(st: State, origs: seq<seq<u8>>, key: FlowKey, i: nat, item: Item, buf: Buf, junk: Buf, parts: seq<nat>, other: FlowKey)
    requires Inv(st, origs) && GoodMerge(st, origs, key, i, item, buf, junk, parts) && other in st.items && other != key
    ensures FlowOk(Merged(st, key, i, item, buf, junk, parts), origs, other, st.items[other])
  {
    hide Holds, Originals, InOrder, LedgerOk, PartsOk;
    var st', s := Merged(st, key, i, item, buf, junk, parts), st.items[other];
    OwnOk(st.ledger);
    assert FlowOk(st, origs, key, st.items[key]) && FlowOk(st, origs, other, s);
    forall j | 0 <= j < |s| ensures s[j].bufsIndex != item.bufsIndex {
      assert ItemOk(st, origs, other, s[j]) && ItemOk(st, origs, key, st.items[key][i]);
      if s[j].bufsIndex == item.bufsIndex {
        DistinctFlows(st, origs, other, s[j], key, st.items[key][i]);
      }
    }
    FlowFrame(st, st', origs, other, s);
  }

  lemma MergedFlow(st: State, origs: seq<seq<u8>>, key: FlowKey, i: nat, item: Item, buf: Buf, junk: Buf, parts: seq<nat>)
    requires Inv(st, origs) && GoodMerge(st, origs, key, i, item, buf, junk, parts)
    ensures FlowOk(Merged(st, key, i, item, buf, junk, parts), origs, key, st.items[key][i := item])
  {
    hide Holds, Originals, InOrder, LedgerOk, PartsOk;
    var st', s := Merged(st, key, i, item, buf, junk, parts), st.items[key];
    var s', n := s[i := item], st.Next();
    OwnOk(st.ledger);
    assert FlowOk(st, origs, key, s);
    AllEarlier(st, origs, key, s);
    forall j | 0 <= j < |s'| ensures ItemOk(st', origs, key, s'[j]) {
      assert ItemOk(st, origs, key, s[j]);
      if j < i {
        assert s[j].bufsIndex < s[i].bufsIndex;
      } else if i < j {
        assert s[i].bufsIndex < s[j].bufsIndex;
      }
    }
    if !key.tcp {
      InOrderJoin(st.ledger, s, item, n);
    }
  }

  lemma InOrderJoin(l: Ledger, s: seq<Item>, item: Item, n: nat)
    requires InOrder(l, s) && |s| > 0 && item.bufsIndex == s[|s| - 1].bufsIndex
    requires forall i, j {:trigger s[i], s[j]} :: 0 <= i < j < |s| ==> s[i].bufsIndex < s[j].bufsIndex
    requires forall i {:trigger s[i]} :: 0 <= i < |s| ==> s[i].bufsIndex in l.parts && AllBefore(l.parts[s[i].bufsIndex], [n])
    ensures InOrder(Join(l, item.bufsIndex, l.parts[item.bufsIndex] + [n]), s[|s| - 1 := item])
  {
    var w := item.bufsIndex;
    var l', s' := Join(l, w, l.parts[w] + [n]), s[|s| - 1 := item];
    assert AllBefore(l.parts[s[|s| - 1].bufsIndex], [n]);
    assert forall k {:trigger l.parts[w][k]} :: 0 <= k < |l.parts[w]| ==> l.parts[w][k] < [n][0];
    forall i | 0 <= i < |s'| ensures Increasing(l'.parts[s'[i].bufsIndex]) {
      assert Increasing(l.parts[s[i].bufsIndex]);
    }
    forall i, j | 0 <= i < j < |s'| ensures AllBefore(l'.parts[s'[i].bufsIndex], l'.parts[s'[j].bufsIndex]) {
      assert AllBefore(l.parts[s[i].bufsIndex], l.parts[s[j].bufsIndex]);
      BeforeMore(l.parts[s[i].bufsIndex], l.parts[s[j].bufsIndex], n);
    }
  }

  lemma BeforeMore(a: seq<nat>, b: seq<nat>, n: nat)
    requires AllBefore(a, b) && AllBefore(a, [n])
    ensures AllBefore(a, b + [n])
  {
    assert forall i {:trigger a[i]} :: 0 <= i < |a| ==> a[i] < [n][0];
  }

  lemma MergedWrites(st: State, origs: seq<seq<u8>>, key: FlowKey, i: nat, item: Item, buf: Buf, junk: Buf, parts: seq<nat>, v: nat)
    requires Inv(st, origs) && GoodMerge(st, origs, key, i, item, buf, junk, parts) && v in st.ledger.parts
    ensures var st' := Merged(st, key, i, item, buf, junk, parts); Alone(st', origs, v) || Tracked(st'.items, v)
  {
    hide Holds, Originals, FlowOk, LedgerOk, PartsOk;
    var st', w := Merged(st, key, i, item, buf, junk, parts), item.bufsIndex;
    OwnOk(st.ledger);
    if v == w {
      assert st'.items[key][i].bufsIndex == w;
      assert InFlow(st'.items[key], w);
    } else if !Alone(st, origs, v) {
      assert Tracked(st.items, v);
      ReplacedTracked(st.items, key, i, item, v);
    }
  }

  lemma ReplacedTracked(items: map<FlowKey, seq<Item>>, key: FlowKey, i: nat, item: Item, w: nat)
    requires key in items && i < |items[key]| && item.bufsIndex == items[key][i].bufsIndex && Tracked(items, w)
    ensures Tracked(items[key := items[key][i := item]], w)
  {
    var items': map<FlowKey, seq<Item>> := items[key := items[key][i := item]];
    var k: FlowKey :| k in items && InFlow(items[k], w);
    var j: nat :| j < |items[k]| && items[k][j].bufsIndex == w;
    assert items'[k][j].bufsIndex == w;
    assert InFlow(items'[k], w);
  }

  /** The item is forgotten, its packet still goes out. */
  function Forgotten(st: State, key: FlowKey, i: nat): State
    requires key in st.items && i < |st.items[key]|
  {
    st.(items := st.items[key := st.items[key][..i] + st.items[key][i + 1..]])
  }

  /** Only an item nothing was merged into may be forgotten. */
  lemma ForgottenKeeps(st: State, origs: seq<seq<u8>>, key: FlowKey, i: nat)
    requires Inv(st, origs) && key in st.items && i < |st.items[key]| && st.items[key][i].numMerged == 0
    ensures Inv(Forgotten(st, key, i), origs)
  {
    hide FlowOk, LedgerOk, Holds, Alone, InFlow, PartsOk, Originals;
    var st', w := Forgotten(st, key, i), st.items[key][i].bufsIndex;
    ForgottenFlow(st, origs, key, i);
    forall other | other in st'.items ensures FlowOk(st', origs, other, st'.items[other]) {
      if other != key {
        FlowSame(st, st', origs, other, st.items[other]);
      }
    }
    AloneItem(st, origs, key, i);
    assert WritesOk(st', origs) by {
      forall v | v in st'.ledger.parts ensures Alone(st', origs, v) || Tracked(st'.items, v) {
        assert Alone(st, origs, v) || Tracked(st.items, v);
        AloneSame(st, st', origs, v);
        if v != w && Tracked(st.items, v) {
          RemovedTracked(st.items, key, i, v);
        }
      }
    }
  }

  lemma AloneItem(st: State, origs: seq<seq<u8>>, key: FlowKey, i: nat)
    requires Inv(st, origs) && key in st.items && i < |st.items[key]| && st.items[key][i].numMerged == 0
    ensures st.items[key][i].bufsIndex in st.ledger.parts && Alone(st, origs, st.items[key][i].bufsIndex)
  {
    hide Carries, InOrder;
    var item := st.items[key][i];
    assert FlowOk(st, origs, key, st.items[key]);
    assert ItemOk(st, origs, key, item);
    var w, l := item.bufsIndex, st.ledger;
    assert PartsOk(l, w);
    assert l.owner[w] == w && w in l.parts[w];
    assert l.parts[w] == [w];
  }

  lemma RemovedTracked(items: map<FlowKey, seq<Item>>, key: FlowKey, i: nat, w: nat)
    requires key in items && i < |items[key]| && items[key][i].bufsIndex != w && Tracked(items, w)
    ensures Tracked(items[key := items[key][..i] + items[key][i + 1..]], w)
  {
    var items': map<FlowKey, seq<Item>> := items[key := items[key][..i] + items[key][i + 1..]];
    var k: FlowKey :| k in items && InFlow(items[k], w);
    var j: nat :| j < |items[k]| && items[k][j].bufsIndex == w;
    var j' := if k == key && j > i then j - 1 else j;
    assert items'[k][j'].bufsIndex == w;
    assert InFlow(items'[k], w);
  }

  lemma ForgottenFlow(st: State, origs: seq<seq<u8>>, key: FlowKey, i: nat)
    requires Inv(st, origs) && key in st.items && i < |st.items[key]|
    ensures FlowOk(Forgotten(st, key, i), origs, key, st.items[key][..i] + st.items[key][i + 1..])
  {
    hide Holds, Originals, AllBefore, Increasing, LedgerOk;
    var st', s := Forgotten(st, key, i), st.items[key];
    var s' := s[..i] + s[i + 1..];
    assert FlowOk(st, origs, key, s);
    assert forall j {:trigger s'[j]} :: 0 <= j < |s'| ==> s'[j] == s[if j < i then j else j + 1];
    forall j | 0 <= j < |s'| ensures ItemOk(st', origs, key, s'[j]) {
      assert ItemOk(st, origs, key, s[if j < i then j else j + 1]);
    }
  }

  lemma ItemAt(st: State, origs: seq<seq<u8>>, key: FlowKey, i: nat)
    requires Inv(st, origs) && key in st.items && i < |st.items[key]|
    ensures ItemOk(st, origs, key, st.items[key][i])
  {
    hide Holds, InOrder;
    assert FlowOk(st, origs, key, st.items[key]);
  }

  lemma OriginalsMore(origs: seq<seq<u8>>, ps: seq<nat>, n: nat)
    requires n < |origs|
    ensures Originals(origs, ps + [n]) == Originals(origs, ps) + [origs[n]]
    ensures Originals(origs, [n] + ps) == [origs[n]] + Originals(origs, ps)
  {
  }

  /** Only UDP remembers a checksum found invalid. */
  predicate KnownInvalid(item: Item) { !item.key.tcp && item.cSumKnownInvalid }

  /** The outcome of the can-coalesce check of the next packet against item i of its flow. */
  ghost predicate Decides(st: State, key: FlowKey, i: nat, p: Parsed, can: Can) {
    && st.Next() < |st.bs| && key in st.items && i < |st.items[key]|
    && var item, pkt := st.items[key][i], st.bs[st.Next()].data;
    && item.bufsIndex < |st.bs|
    && var head := st.bs[item.bufsIndex].data;
    && p.Fit? && |pkt| > p.iphLen + p.thLen && item.iphLen == p.iphLen && item.gsoSize > 0 && |head| > item.HeadersLen()
    && (if key.tcp then p.thLen >= 20 && TcpPacketsCanCoalesce(pkt, p, item, head) == can
        else item.thLen == UDPH_LEN && UdpPacketsCanCoalesce(pkt, p, item, head) == can)
  }

  /** The merged packet fits in the buffer it is to be built in. */
  ghost predicate HasRoom(st: State, key: FlowKey, i: nat, offset: nat, can: Can) {
    && st.Next() < |st.bs| && key in st.items && i < |st.items[key]|
    && var item, pkt := st.items[key][i], st.bs[st.Next()];
    && item.bufsIndex < |st.bs|
    && var head := st.bs[item.bufsIndex];
    |head.data| + |pkt.data| - item.HeadersLen() <= (if can == Prepend then pkt.cap else head.cap) - offset
  }

  /** Both checksums are good; the item's is looked at only before its first merge. */
  ghost predicate SumsGood(st: State, key: FlowKey, i: nat) {
    && st.Next() < |st.bs| && key in st.items && i < |st.items[key]|
    && var item := st.items[key][i];
    && item.bufsIndex < |st.bs|
    && Checked(st.bs[st.Next()].data, key)
    && (item.numMerged == 0 ==> !KnownInvalid(item) && Checked(st.bs[item.bufsIndex].data, key))
  }

  /** Item i of the flow can take the next packet, behind it or in front. */
  ghost predicate Takes(st: State, key: FlowKey, i: nat, p: Parsed, offset: nat) {
    && SumsGood(st, key, i)
    && (|| (Decides(st, key, i, p, Append) && HasRoom(st, key, i, offset, Append))
        || (Decides(st, key, i, p, Prepend) && HasRoom(st, key, i, offset, Prepend)))
  }

  /** A packet that is put in front carries no push flag. */
  lemma PrependedUnpushed(st: State, key: FlowKey, i: nat, p: Parsed)
    requires key.tcp && Decides(st, key, i, p, Prepend)
    ensures !p.psh
  {
  }

  /** Items and buffers that stay the same decide the same. */
  lemma TakesSame(st: State, st': State, key: FlowKey, i: nat, p: Parsed, offset: nat)
    requires st'.bs == st.bs && st'.ledger == st.ledger && key in st.items && key in st'.items
    requires i < |st.items[key]| && i < |st'.items[key]| && st'.items[key][i] == st.items[key][i]
    ensures Takes(st', key, i, p, offset) == Takes(st, key, i, p, offset)
  {
    hide TcpPacketsCanCoalesce, UdpPacketsCanCoalesce, Checked;
  }

  /** What is known of an item and the next packet, enough to look at both. */
  lemma Bounds(st: State, origs: seq<seq<u8>>, key: FlowKey, i: nat, p: Parsed)
    requires Inv(st, origs) && key in st.items && i < |st.items[key]|
    requires st.Next() < |st.bs| && Parses(st.bs[st.Next()].data, p, key)
    ensures var item := st.items[key][i];
            && item.bufsIndex < st.Next() && item.bufsIndex in st.ledger.parts && GoodLengths(item) && item.key == key
            && |st.bs[item.bufsIndex].data| > item.HeadersLen() && st.bs[item.bufsIndex].cap <= MAX_UINT16
    ensures st.bs[st.Next()].cap <= MAX_UINT16
    ensures p.Fit? && p.iphLen == (if key.isV6 then 40 else 20) && (if key.tcp then 20 <= p.thLen <= 60 else p.thLen == UDPH_LEN)
    ensures |st.bs[st.Next()].data| > p.iphLen + p.thLen
  {
    hide Kind, Cuts, Follow, Parses, InOrder, LedgerOk, PartsOk, WritesOk;
    ItemAt(st, origs, key, i);
    PartBefore(st.ledger, st.items[key][i].bufsIndex);
    ParsedLengths(st.bs[st.Next()].data, p, key);
  }

  lemma AppendIsGood(st: State, origs: seq<seq<u8>>, key: FlowKey, i: nat, p: Parsed)
    requires Inv(st, origs) && Decides(st, key, i, p, Append) && Parses(st.bs[st.Next()].data, p, key)
    requires !key.tcp ==> i == |st.items[key]| - 1
    requires var item, pkt := st.items[key][i], st.bs[st.Next()].data;
             && Checked(pkt, key) && (item.numMerged == 0 ==> Checked(st.bs[item.bufsIndex].data, key))
             && |st.bs[item.bufsIndex].data| + |pkt| - item.HeadersLen() <= MAX_UINT16
    ensures var item, pkt := st.items[key][i], st.bs[st.Next()].data;
            var head := st.bs[item.bufsIndex];
            && item.HeadersLen() <= |pkt| && item.numMerged < 0xffff && (p.psh ==> item.iphLen + TCP_FLAGS_OFFSET < |head.data|)
            && item.bufsIndex in st.ledger.parts
            && GoodMerge(st, origs, key, i, AppendedItem(item, p.psh), Buf(Appended(item, head.data, pkt, p.psh), head.cap),
                         st.bs[st.Next()], st.ledger.parts[item.bufsIndex] + [st.Next()])
  {
    hide Holds, Checked, Parses, Appended, WritesOk, TableOk, LedgerOk, Originals, UdpPacketsCanCoalesce, TcpPacketsCanCoalesce;
    var item, n := st.items[key][i], st.Next();
    ItemAt(st, origs, key, i);
    Bounds(st, origs, key, i, p);
    HoldsAppend(item, st.bs[item.bufsIndex].data, Originals(origs, st.ledger.parts[item.bufsIndex]), origs[n], p);
    OriginalsMore(origs, st.ledger.parts[item.bufsIndex], n);
  }

  lemma PrependIsGood(st: State, origs: seq<seq<u8>>, key: FlowKey, i: nat, p: Parsed)
    requires Inv(st, origs) && key.tcp && Decides(st, key, i, p, Prepend) && Parses(st.bs[st.Next()].data, p, key)
    requires var item, pkt := st.items[key][i], st.bs[st.Next()].data;
             && Checked(pkt, key) && (item.numMerged == 0 ==> Checked(st.bs[item.bufsIndex].data, key))
             && |st.bs[item.bufsIndex].data| + |pkt| - item.HeadersLen() <= MAX_UINT16
    ensures var item, pkt := st.items[key][i], st.bs[st.Next()];
            var head := st.bs[item.bufsIndex];
            && item.HeadersLen() <= |pkt.data| && |pkt.data| - item.HeadersLen() <= MAX_UINT16 && item.numMerged < 0xffff
            && item.bufsIndex in st.ledger.parts
            && GoodMerge(st, origs, key, i, PrependedItem(item, p.seqNum, |pkt.data| - item.HeadersLen()),
                         Buf(pkt.data + head.data[item.HeadersLen()..], pkt.cap), head, [st.Next()] + st.ledger.parts[item.bufsIndex])
  {
    hide Holds, Checked, Parses, WritesOk, TableOk, LedgerOk, Originals, TcpPacketsCanCoalesce;
    var item, n := st.items[key][i], st.Next();
    ItemAt(st, origs, key, i);
    Bounds(st, origs, key, i, p);
    HoldsPrepend(item, st.bs[item.bufsIndex].data, Originals(origs, st.ledger.parts[item.bufsIndex]), origs[n], p);
    OriginalsMore(origs, st.ledger.parts[item.bufsIndex], n);
  }

  lemma NextIsOriginal(st: State, origs: seq<seq<u8>>)
    requires Inv(st, origs) && st.Next() < |st.bs|
    ensures |origs| == |st.bs| && st.bs[st.Next()].data == origs[st.Next()]
  {
  }

  /** What a candidate parses to is of the flow its key names. */
  lemma CandidateParses(pkt: seq<u8>, tcp: bool, isV6: bool)
    requires PacketIsGroCandidate(pkt, true) == Candidate(tcp, isV6) && Parse(pkt, tcp, isV6).Fit?
    ensures Parses(pkt, Parse(pkt, tcp, isV6), NewFlowKey(pkt, tcp, isV6)) && NewFlowKey(pkt, tcp, isV6).tcp == tcp
  {
    hide Parse;
  }

  lemma CandidateAnyway(pkt: seq<u8>, canUdpGro: bool)
    ensures PacketIsGroCandidate(pkt, canUdpGro) != NotCandidate ==> PacketIsGroCandidate(pkt, true) == PacketIsGroCandidate(pkt, canUdpGro)
  {
  }

  const VIRTIO_NET_HDR_LEN := 10

  datatype CoalesceResult = InsufficientCap | PshEnding | ItemInvalidCSum | PktInvalidCSum | Success

  datatype Tried = Untaken | Taken | BadPacket

  datatype GroResult = Noop | TableInsert | Coalesced

  // ---------------------------------------------------------------- one batch

  class Batch {
    const bufs: array<Buf>
    const offset: nat
    var itemsByFlow: map<FlowKey, seq<Item>>
    var toWrite: seq<nat>
    /** The virtio headers of the merged packets; the others get one that is all zero. */
    var hdrs: map<nat, VirtioHdr>
    ghost var records: map<nat, Item>
    ghost const origs: seq<seq<u8>>
    ghost var ledger: Ledger

    constructor (bufs: array<Buf>, offset: nat)
      requires bufs.Length <= 0x1_0000 && forall j :: 0 <= j < bufs.Length ==> bufs[j].cap <= MAX_UINT16
      ensures this.bufs == bufs && this.offset == offset && Valid() && ledger.owner == [] && toWrite == []
      ensures |origs| == bufs.Length && forall j :: 0 <= j < bufs.Length ==> origs[j] == bufs[j].data
    {
      this.bufs, this.offset := bufs, offset;
      itemsByFlow, toWrite, hdrs, records := map[], [], map[], map[];
      ledger := Ledger([], map[]);
      origs := seq(bufs.Length, j requires 0 <= j < bufs.Length reads bufs => bufs[j].data);
    }

    ghost function St(): State
      reads this, bufs
    {
      State(bufs[..], itemsByFlow, toWrite, ledger)
    }

    ghost predicate Valid()
      reads this, bufs
    {
      Inv(St(), origs)
    }

    /** The packet at pktI is the next one, and belongs to the flow. */
    ghost predicate Ready(pktI: nat, p: Parsed, key: FlowKey)
      reads this, bufs
    {
      Valid() && pktI == |ledger.owner| < bufs.Length && Parses(bufs[pktI].data, p, key)
    }

    /** The checks that both kinds of merge start with. */
    method CheckSums(item: Item, pkt: seq<u8>, head: seq<u8>, little: bool) returns (result: CoalesceResult)
      requires GoodLengths(item) && |pkt| >= item.iphLen && |head| >= item.iphLen
      ensures result == Success <==> Checked(pkt, item.key) && (item.numMerged == 0 ==> !KnownInvalid(item) && Checked(head, item.key))
      ensures result in {Success, ItemInvalidCSum, PktInvalidCSum}
      ensures result == ItemInvalidCSum <==> item.numMerged == 0 && (KnownInvalid(item) || !Checked(head, item.key))
    {
      hide Verifies;
      if item.numMerged == 0 {
        if KnownInvalid(item) {
          return ItemInvalidCSum;
        }
        var headOk := ChecksumValid(head, item.iphLen, ProtocolOf(item.key), item.key.isV6, little);
        if !headOk {
          return ItemInvalidCSum;
        }
      }
      var pktOk := ChecksumValid(pkt, item.iphLen, ProtocolOf(item.key), item.key.isV6, little);
      result := if pktOk then Success else PktInvalidCSum;
    }

    /** Appends the packet at pktI to the item's packet. */
    method CoalesceAppend(key: FlowKey, i: nat, pktI: nat, p: Parsed, little: bool) returns (result: CoalesceResult, item: Item)
      requires Ready(pktI, p, key) && key in itemsByFlow && i < |itemsByFlow[key]|
      requires Decides(St(), key, i, p, Append) && (!key.tcp ==> i == |itemsByFlow[key]| - 1)
      modifies bufs, this`ledger
      ensures result != Success ==> bufs[..] == old(bufs[..]) && ledger == old(ledger)
      ensures result == Success <==> old(HasRoom(St(), key, i, offset, Append) && SumsGood(St(), key, i))
      ensures result == PktInvalidCSum ==> old(!Checked(bufs[pktI].data, key))
      ensures result == ItemInvalidCSum ==> itemsByFlow[key][i].numMerged == 0
      ensures result == Success ==>
                && |ledger.owner| == pktI + 1
                && Inv(St().(items := itemsByFlow[key := itemsByFlow[key][i := item]]), origs)
    {
      hide Inv, Holds, Parses, Checked, Appended, Decides;
      ghost var st := St();
      item := itemsByFlow[key][i];
      var w, pkt := item.bufsIndex, bufs[pktI].data;
      Bounds(st, origs, key, i, p);
      var head := bufs[w];
      var coalescedLen := |head.data| + |pkt| - item.HeadersLen();
      if head.cap - offset < coalescedLen {
        return InsufficientCap, item;
      }
      result := CheckSums(item, pkt, head.data, little);
      if result != Success {
        return;
      }
      AppendIsGood(st, origs, key, i, p);
      bufs[w] := Buf(Appended(item, head.data, pkt, p.psh), head.cap);
      item := AppendedItem(item, p.psh);
      ledger := Join(ledger, w, ledger.parts[w] + [pktI]);
      assert bufs[..] == st.bs[w := bufs[w]][pktI := st.bs[pktI]];
      MergedKeeps(st, origs, key, i, item, bufs[w], st.bs[pktI], ledger.parts[w]);
    }

    /** Puts the packet at pktI in front of the item's packet; their buffers change places. */
    method CoalescePrepend(key: FlowKey, i: nat, pktI: nat, p: Parsed, little: bool) returns (result: CoalesceResult, item: Item)
      requires Ready(pktI, p, key) && key.tcp && Decides(St(), key, i, p, Prepend)
      modifies bufs, this`ledger
      ensures result != Success ==> bufs[..] == old(bufs[..]) && ledger == old(ledger)
      ensures result == Success <==> old(HasRoom(St(), key, i, offset, Prepend) && SumsGood(St(), key, i))
      ensures result == PktInvalidCSum ==> old(!Checked(bufs[pktI].data, key))
      ensures result == ItemInvalidCSum ==> itemsByFlow[key][i].numMerged == 0
      ensures result == Success ==>
                && |ledger.owner| == pktI + 1
                && Inv(St().(items := itemsByFlow[key := itemsByFlow[key][i := item]]), origs)
    {
      hide Inv, Holds, Parses, Checked, TcpPacketsCanCoalesce, UdpPacketsCanCoalesce;
      ghost var st := St();
      item := itemsByFlow[key][i];
      var w, pkt := item.bufsIndex, bufs[pktI];
      Bounds(st, origs, key, i, p);
      var head := bufs[w];
      var coalescedLen := |head.data| + |pkt.data| - item.HeadersLen();
      if pkt.cap - offset < coalescedLen {
        return InsufficientCap, item;
      }
      if p.psh {
        PrependedUnpushed(st, key, i, p);
        return PshEnding, item;
      }
      result := CheckSums(item, pkt.data, head.data, little);
      if result != Success {
        return;
      }
      PrependIsGood(st, origs, key, i, p);
      bufs[pktI] := Buf(pkt.data + head.data[item.HeadersLen()..], pkt.cap);
      bufs[w], bufs[pktI] := bufs[pktI], bufs[w];
      item := PrependedItem(item, p.seqNum, |pkt.data| - item.HeadersLen());
      ledger := Join(ledger, w, [pktI] + ledger.parts[w]);
      assert bufs[..] == st.bs[w := bufs[w]][pktI := head];
      MergedKeeps(st, origs, key, i, item, bufs[w], head, ledger.parts[w]);
    }

    /** Remembers the packet at pktI in its flow. */
    method InsertItem(key: FlowKey, pktI: nat, p: Parsed, cSumKnownInvalid: bool)
      requires Ready(pktI, p, key)
      modifies this`itemsByFlow
      ensures Inv(Passed(St()), origs)
    {
      hide Inv, Holds, Parses;
      ghost var st := St();
      var pkt := bufs[pktI].data;
      HoldsNew(pkt, p, key, pktI, cSumKnownInvalid);
      var item := NewItem(pkt, p, key, pktI, cSumKnownInvalid);
      NextIsOriginal(st, origs);
      InsertedKeeps(st, origs, key, item);
      var items := if key in itemsByFlow then itemsByFlow[key] else [];
      itemsByFlow := itemsByFlow[key := items + [item]];
    }

    /** Merges the packet at pktI into item i of its flow if it can; an item with a bad checksum is forgotten. */
    method TryItem(key: FlowKey, i: nat, pktI: nat, p: Parsed, little: bool) returns (tried: Tried)
      requires Ready(pktI, p, key) && key.tcp && key in itemsByFlow && i < |itemsByFlow[key]|
      modifies bufs, this`itemsByFlow, this`ledger
      ensures Valid() && (tried == Taken <==> old(Takes(St(), key, i, p, offset)))
      ensures tried == Taken ==> |ledger.owner| == pktI + 1
      ensures tried != Taken ==> bufs[..] == old(bufs[..]) && ledger == old(ledger) && key in itemsByFlow
      ensures tried != Taken ==> i <= |itemsByFlow[key]| && itemsByFlow[key][..i] == old(itemsByFlow)[key][..i]
      ensures tried == BadPacket ==> old(!Checked(bufs[pktI].data, key))
    {
      hide Inv, TcpPacketsCanCoalesce, HasRoom, SumsGood, Checked, Parses;
      Bounds(St(), origs, key, i, p);
      var item := itemsByFlow[key][i];
      var can := TcpPacketsCanCoalesce(bufs[pktI].data, p, item, bufs[item.bufsIndex].data);
      tried := Untaken;
      if can != Unavailable {
        var outcome, item';
        if can == Prepend {
          outcome, item' := CoalescePrepend(key, i, pktI, p, little);
        } else {
          outcome, item' := CoalesceAppend(key, i, pktI, p, little);
        }
        if outcome == Success {
          itemsByFlow := itemsByFlow[key := itemsByFlow[key][i := item']];
          tried := Taken;
        } else if outcome == ItemInvalidCSum {
          ForgottenKeeps(St(), origs, key, i);
          itemsByFlow := itemsByFlow[key := itemsByFlow[key][..i] + itemsByFlow[key][i + 1..]];
        } else if outcome == PktInvalidCSum {
          tried := BadPacket;
        }
      }
    }

    method TcpGro(pktI: nat, isV6: bool, little: bool) returns (result: GroResult)
      requires Valid() && pktI == |ledger.owner| < bufs.Length
      requires PacketIsGroCandidate(bufs[pktI].data, true) == Candidate(true, isV6)
      modifies bufs, this`itemsByFlow, this`ledger
      ensures result == Noop ==> Valid() && ledger == old(ledger)
      ensures result == TableInsert ==> Inv(Passed(St()), origs) && ledger == old(ledger)
      ensures result == Coalesced ==> Valid() && |ledger.owner| == pktI + 1
      ensures var pkt := old(bufs[pktI].data);
              var p, key := Parse(pkt, true, isV6), NewFlowKey(pkt, true, isV6);
              && (result == Noop ==> p == Unfit || !Checked(pkt, key))
              && (result == TableInsert ==> p.Fit? && (key in old(itemsByFlow) ==> forall i :: 0 <= i < |old(itemsByFlow)[key]| ==> !Takes(old(St()), key, i, p, offset)))
              && (result == Coalesced ==> key in old(itemsByFlow) && exists i :: 0 <= i < |old(itemsByFlow)[key]| && Takes(old(St()), key, i, p, offset))
    {
      hide Inv, NewFlowKey, Parse, Takes, Checked;
      var pkt := bufs[pktI].data;
      var p := Parse(pkt, true, isV6);
      if p == Unfit {
        return Noop;
      }
      var key := NewFlowKey(pkt, true, isV6);
      CandidateParses(pkt, true, isV6);
      if key !in itemsByFlow {
        InsertItem(key, pktI, p, false);
        return TableInsert;
      }
      var i := |itemsByFlow[key]|;
      while i > 0
        invariant key in itemsByFlow && 0 <= i <= |itemsByFlow[key]|
        invariant Ready(pktI, p, key) && ledger == old(ledger) && bufs[..] == old(bufs[..])
        invariant key in old(itemsByFlow) && i <= |old(itemsByFlow)[key]| && itemsByFlow[key][..i] == old(itemsByFlow)[key][..i]
        invariant forall k :: i <= k < |old(itemsByFlow)[key]| ==> !Takes(old(St()), key, k, p, offset)
      {
        i := i - 1;
        assert itemsByFlow[key][i] == itemsByFlow[key][..i + 1][i];
        TakesSame(old(St()), St(), key, i, p, offset);
        var tried := TryItem(key, i, pktI, p, little);
        if tried == Taken {
          return Coalesced;
        } else if tried == BadPacket {
          return Noop;
        }
      }
      InsertItem(key, pktI, p, false);
      return TableInsert;
    }

    method UdpGro(pktI: nat, isV6: bool, little: bool) returns (result: GroResult)
      requires Valid() && pktI == |ledger.owner| < bufs.Length
      requires PacketIsGroCandidate(bufs[pktI].data, true) == Candidate(false, isV6)
      modifies bufs, this`itemsByFlow, this`ledger
      ensures result == Noop ==> Valid() && ledger == old(ledger)
      ensures result == TableInsert ==> Inv(Passed(St()), origs) && ledger == old(ledger)
      ensures result == Coalesced ==> Valid() && |ledger.owner| == pktI + 1
      ensures var pkt := old(bufs[pktI].data);
              var p, key := Parse(pkt, false, isV6), NewFlowKey(pkt, false, isV6);
              && (result == Noop <==> p == Unfit)
              && (result == Coalesced <==> p.Fit? && key in old(itemsByFlow) && |old(itemsByFlow)[key]| > 0
                                           && Takes(old(St()), key, |old(itemsByFlow)[key]| - 1, p, offset))
    {
      hide Inv, NewFlowKey, Parse;
      var pkt := bufs[pktI].data;
      var p := Parse(pkt, false, isV6);
      if p == Unfit {
        return Noop;
      }
      var key := NewFlowKey(pkt, false, isV6);
      CandidateParses(pkt, false, isV6);
      var cSumKnownInvalid := false;
      if key in itemsByFlow && |itemsByFlow[key]| > 0 {
        var i := |itemsByFlow[key]| - 1;
        Bounds(St(), origs, key, i, p);
        var item := itemsByFlow[key][i];
        var can := UdpPacketsCanCoalesce(pkt, p, item, bufs[item.bufsIndex].data);
        if can == Append {
          var outcome, item' := CoalesceAppend(key, i, pktI, p, little);
          if outcome == Success {
            itemsByFlow := itemsByFlow[key := itemsByFlow[key][i := item']];
            return Coalesced;
          } else if outcome == PktInvalidCSum {
            cSumKnownInvalid := true;
          }
        }
      }
      InsertItem(key, pktI, p, cSumKnownInvalid);
      return TableInsert;
    }

    /** The packets of a batch, one after the other. */
    method Evaluate(canUdpGro: bool, little: bool) returns (ok: bool)
      requires Valid() && ledger.owner == []
      modifies this, bufs
      ensures Valid()
      ensures ok <==> bufs.Length == 0 || (offset >= VIRTIO_NET_HDR_LEN && forall j :: 0 <= j < |origs| ==> |origs[j]| > 0)
      ensures ok ==> |ledger.owner| == bufs.Length
    {
      hide Inv, PacketIsGroCandidate;
      var i := 0;
      while i < bufs.Length
        invariant Valid() && |ledger.owner| == i <= bufs.Length
        invariant i > 0 ==> offset >= VIRTIO_NET_HDR_LEN
        invariant forall j :: 0 <= j < i ==> j < |origs| && |origs[j]| > 0
      {
        NextIsOriginal(St(), origs);
        if offset < VIRTIO_NET_HDR_LEN || |bufs[i].data| == 0 {
          return false;
        }
        CandidateAnyway(bufs[i].data, canUdpGro);
        var result := Noop;
        match PacketIsGroCandidate(bufs[i].data, canUdpGro) {
          case Candidate(tcp, isV6) =>
            if tcp {
              result := TcpGro(i, isV6, little);
            } else {
              result := UdpGro(i, isV6, little);
            }
          case NotCandidate =>
        }
        if result == Noop {
          PassedKeeps(St(), origs);
        }
        if result != Coalesced {
          toWrite := toWrite + [i];
          ledger := Own(ledger);
        }
        i := i + 1;
      }
      SameLengths(St(), origs);
      ok := true;
    }

    /** Writes the headers of one flow's packets. */
    method AccountFlow(key: FlowKey, ghost st: State, ghost done: set<nat>, little: bool) returns (ghost done': set<nat>)
      requires Inv(st, origs) && key in itemsByFlow && st.items == itemsByFlow && Progress(st, origs, bufs[..], hdrs, records, done)
      requires forall i {:trigger itemsByFlow[key][i]} :: 0 <= i < |itemsByFlow[key]| ==> itemsByFlow[key][i].bufsIndex !in done
      modifies bufs, this`hdrs, this`records
      ensures Progress(st, origs, bufs[..], hdrs, records, done')
      ensures forall w :: w in done' <==> w in done || InFlow(itemsByFlow[key], w)
    {
      hide Inv, Progress, Holds, InFlow, Accounted, LengthByte;
      var s := itemsByFlow[key];
      done' := done;
      InFlowNone(s);
      var j := 0;
      while j < |s|
        invariant 0 <= j <= |s|
        invariant Progress(st, origs, bufs[..], hdrs, records, done')
        invariant forall w :: w in done' <==> w in done || InFlow(s[..j], w)
        invariant forall i {:trigger s[i]} :: j <= i < |s| ==> s[i].bufsIndex !in done'
      {
        var item := s[j];
        ItemInPlace(st, origs, bufs[..], hdrs, records, done', key, j);
        ghost var bs, hs, rs := bufs[..], hdrs, records;
        if item.numMerged > 0 {
          var out := Account(item, bufs[item.bufsIndex].data, little);
          bufs[item.bufsIndex] := bufs[item.bufsIndex].(data := out);
          hdrs := hdrs[item.bufsIndex := HdrOf(item)];
          records := records[item.bufsIndex := item];
          assert bufs[..] == bs[item.bufsIndex := bufs[item.bufsIndex]];
          ProgressMerged(st, origs, bs, hs, rs, done', key, j, out);
        } else {
          ProgressAlone(st, origs, bs, hdrs, records, done', key, j);
        }
        InFlowMore(s, j);
        FlowDistinct(st, origs, key, j);
        done' := done' + {item.bufsIndex};
        j := j + 1;
      }
      assert s[..j] == s;
    }

    /** Writes the headers of all packets, flow by flow. */
    method ApplyCoalesceAccounting(little: bool)
      requires Valid()
      modifies bufs, this`hdrs, this`records
      ensures forall w :: w in ledger.parts ==> Delivered(ledger, origs, bufs[..], hdrs, records, w)
    {
      hide Inv, Progress, InFlow;
      ghost var st := St();
      hdrs, records := map[], map[];
      ghost var done: set<nat> := {};
      var keys := itemsByFlow.Keys;
      NothingDone(st, origs);
      while keys != {}
        invariant keys <= itemsByFlow.Keys && Progress(st, origs, bufs[..], hdrs, records, done)
        invariant forall key: FlowKey, w: nat {:trigger InFlow(itemsByFlow[key], w)} :: key in itemsByFlow && InFlow(itemsByFlow[key], w) ==>
                    (w in done <==> key !in keys)
        decreases keys
      {
        var key :| key in keys;
        FlowMembers(itemsByFlow[key]);
        FlowsDisjoint(st, origs, key);
        done := AccountFlow(key, st, done, little);
        keys := keys - {key};
      }
      AllDelivered(st, origs, bufs[..], hdrs, records, done);
    }

    /**
     A batch: every packet's payload goes out in exactly one written packet, and a merged packet
     carries the payloads of its packets, cut at the size its header records.
     */
    method HandleGro(canUdpGro: bool, little: bool) returns (ok: bool)
      requires Valid() && ledger.owner == []
      modifies this, bufs
      ensures ok <==> bufs.Length == 0 || (offset >= VIRTIO_NET_HDR_LEN && forall j :: 0 <= j < |origs| ==> |origs[j]| > 0)
      ensures ok ==> LedgerOk(ledger) && |ledger.owner| == bufs.Length == |origs|
      ensures ok ==> Increasing(toWrite) && forall w :: w in toWrite <==> w in ledger.parts
      ensures ok ==> forall w :: w in toWrite ==> Delivered(ledger, origs, bufs[..], hdrs, records, w)
      ensures ok ==> forall key {:trigger itemsByFlow[key]} :: key in itemsByFlow && !key.tcp ==> InOrder(ledger, itemsByFlow[key])
    {
      hide Delivered, LedgerOk, ItemOk, InOrder;
      ok := Evaluate(canUdpGro, little);
      if ok {
        assert forall key {:trigger itemsByFlow[key]} :: key in itemsByFlow ==> FlowOk(St(), origs, key, itemsByFlow[key]);
        ApplyCoalesceAccounting(little);
      }
    }
  }

  // ---------------------------------------------------------------- writing the headers

  /** What written packet w is in the end: merged and described by its header, or just the packet that came. */
  ghost predicate Delivered(l: Ledger, origs: seq<seq<u8>>, bs: seq<Buf>, hdrs: map<nat, VirtioHdr>, records: map<nat, Item>, w: nat) {
    && w in l.parts && w < |bs|
    && if w in hdrs
       then && w in records && hdrs[w] == HdrOf(records[w]) && |bs[w].data| <= MAX_UINT16
            && Carries(records[w], bs[w].data, Originals(origs, l.parts[w]))
            && AllChecked(Originals(origs, l.parts[w]), records[w].key)
            && |bs[w].data| > records[w].HeadersLen() && Accounted(records[w], bs[w].data)
       else l.parts[w] == [w] && w < |origs| && bs[w].data == origs[w]
  }

  ghost predicate Progress(st: State, origs: seq<seq<u8>>, bs: seq<Buf>, hdrs: map<nat, VirtioHdr>, records: map<nat, Item>, done: set<nat>) {
    && |bs| == |st.bs|
    && (forall w {:trigger bs[w]} :: 0 <= w < |bs| && w !in done ==> bs[w] == st.bs[w])
    && (forall w :: w in hdrs ==> w in done)
    && (forall w :: w in done ==> Delivered(st.ledger, origs, bs, hdrs, records, w))
  }

  lemma ItemInPlace(st: State, origs: seq<seq<u8>>, bs: seq<Buf>, hdrs: map<nat, VirtioHdr>, records: map<nat, Item>, done: set<nat>, key: FlowKey, j: nat)
    requires Inv(st, origs) && key in st.items && j < |st.items[key]| && Progress(st, origs, bs, hdrs, records, done)
    requires st.items[key][j].bufsIndex !in done
    ensures var item := st.items[key][j];
            && item.bufsIndex < |bs| && bs[item.bufsIndex] == st.bs[item.bufsIndex] && item.bufsIndex in st.ledger.parts
            && Holds(item, bs[item.bufsIndex].data, Originals(origs, st.ledger.parts[item.bufsIndex]))
            && GoodLengths(item) && item.HeadersLen() < |bs[item.bufsIndex].data| <= MAX_UINT16
  {
    hide Delivered, Kind, Cuts, Follow, TableOk, WritesOk, LedgerOk;
    ItemAt(st, origs, key, j);
  }

  lemma ProgressMerged(st: State, origs: seq<seq<u8>>, bs: seq<Buf>, hdrs: map<nat, VirtioHdr>, records: map<nat, Item>, done: set<nat>, key: FlowKey, j: nat, out: seq<u8>)
    requires Inv(st, origs) && key in st.items && j < |st.items[key]| && Progress(st, origs, bs, hdrs, records, done)
    requires var item := st.items[key][j];
             && item.bufsIndex !in done && item.numMerged > 0 && item.bufsIndex < |bs| && item.bufsIndex in st.ledger.parts
             && Holds(item, bs[item.bufsIndex].data, Originals(origs, st.ledger.parts[item.bufsIndex]))
             && |out| == |bs[item.bufsIndex].data| > item.HeadersLen() && GoodLengths(item) && Accounted(item, out)
             && forall k {:trigger out[k]} :: 0 <= k < |out| && !LengthByte(item, k) ==> out[k] == bs[item.bufsIndex].data[k]
    ensures var item := st.items[key][j];
            var w := item.bufsIndex;
            Progress(st, origs, bs[w := bs[w].(data := out)], hdrs[w := HdrOf(item)], records[w := item], done + {w})
  {
    hide Inv, Carries, Accounted, AllChecked, Originals, LengthByte;
    var item := st.items[key][j];
    var w := item.bufsIndex;
    var bs', hdrs', records' := bs[w := bs[w].(data := out)], hdrs[w := HdrOf(item)], records[w := item];
    CarriesAccounted(item, bs[w].data, out, Originals(origs, st.ledger.parts[w]));
    forall v | v in done + {w} ensures Delivered(st.ledger, origs, bs', hdrs', records', v) {
      if v != w {
        assert Delivered(st.ledger, origs, bs, hdrs, records, v);
      }
    }
  }

  lemma ProgressAlone(st: State, origs: seq<seq<u8>>, bs: seq<Buf>, hdrs: map<nat, VirtioHdr>, records: map<nat, Item>, done: set<nat>, key: FlowKey, j: nat)
    requires Inv(st, origs) && key in st.items && j < |st.items[key]| && Progress(st, origs, bs, hdrs, records, done)
    requires st.items[key][j].bufsIndex !in done && st.items[key][j].numMerged == 0
    ensures Progress(st, origs, bs, hdrs, records, done + {st.items[key][j].bufsIndex})
  {
    hide Inv, Carries, Accounted, AllChecked, Originals;
    var w := st.items[key][j].bufsIndex;
    AloneItem(st, origs, key, j);
    assert Delivered(st.ledger, origs, bs, hdrs, records, w);
  }

  lemma NothingDone(st: State, origs: seq<seq<u8>>)
    ensures Progress(st, origs, st.bs, map[], map[], {})
  {
  }

  lemma FlowMembers(s: seq<Item>)
    ensures forall i {:trigger s[i]} :: 0 <= i < |s| ==> InFlow(s, s[i].bufsIndex)
  {
  }

  lemma FlowsDisjoint(st: State, origs: seq<seq<u8>>, key: FlowKey)
    requires Inv(st, origs) && key in st.items
    ensures forall other: FlowKey, w: nat {:trigger InFlow(st.items[other], w)} :: other in st.items && other != key && InFlow(st.items[other], w) ==>
              !InFlow(st.items[key], w)
  {
    forall other: FlowKey, w: nat | other in st.items && other != key && InFlow(st.items[other], w) && InFlow(st.items[key], w) ensures false {
      var i: nat :| i < |st.items[key]| && st.items[key][i].bufsIndex == w;
      var j: nat :| j < |st.items[other]| && st.items[other][j].bufsIndex == w;
      ItemAt(st, origs, key, i);
      ItemAt(st, origs, other, j);
      DistinctFlows(st, origs, key, st.items[key][i], other, st.items[other][j]);
    }
  }

  lemma AllDelivered(st: State, origs: seq<seq<u8>>, bs: seq<Buf>, hdrs: map<nat, VirtioHdr>, records: map<nat, Item>, done: set<nat>)
    requires Inv(st, origs) && Progress(st, origs, bs, hdrs, records, done)
    requires forall key: FlowKey, w: nat {:trigger InFlow(st.items[key], w)} :: key in st.items && InFlow(st.items[key], w) ==> w in done
    ensures forall w :: w in st.ledger.parts ==> Delivered(st.ledger, origs, bs, hdrs, records, w)
  {
    hide InFlow, TableOk, LedgerOk;
    forall w | w in st.ledger.parts ensures Delivered(st.ledger, origs, bs, hdrs, records, w) {
      assert Alone(st, origs, w) || Tracked(st.items, w);
      if w !in done {
        assert bs[w] == st.bs[w];
      }
    }
  }

  lemma InFlowNone(s: seq<Item>)
    ensures forall w :: !InFlow(s[..0], w)
  {
  }

  lemma InFlowMore(s: seq<Item>, j: nat)
    requires j < |s|
    ensures forall w :: InFlow(s[..j + 1], w) <==> InFlow(s[..j], w) || w == s[j].bufsIndex
  {
    forall w ensures InFlow(s[..j + 1], w) <==> InFlow(s[..j], w) || w == s[j].bufsIndex {
      if w == s[j].bufsIndex {
        assert s[..j + 1][j].bufsIndex == w;
      }
      if InFlow(s[..j], w) {
        var i: nat :| i < j && s[..j][i].bufsIndex == w;
        assert s[..j + 1][i].bufsIndex == w;
      }
      if InFlow(s[..j + 1], w) && w != s[j].bufsIndex {
        var i: nat :| i < j + 1 && s[..j + 1][i].bufsIndex == w;
        assert s[..j][i].bufsIndex == w;
      }
    }
  }

  lemma FlowDistinct(st: State, origs: seq<seq<u8>>, key: FlowKey, j: nat)
    requires Inv(st, origs) && key in st.items && j < |st.items[key]|
    ensures forall i {:trigger st.items[key][i]} :: j < i < |st.items[key]| ==> st.items[key][i].bufsIndex != st.items[key][j].bufsIndex
  {
    hide ItemOk, InOrder;
    assert FlowOk(st, origs, key, st.items[key]);
  }

  lemma SameLengths(st: State, origs: seq<seq<u8>>)
    requires Inv(st, origs)
    ensures |origs| == |st.bs|
  {
  }

  // ---------------------------------------------------------------- and back

  /** Splitting a packet the batch merged gives back the packets that went into it. */
  method SplitAgain(ghost origs: seq<seq<u8>>, ghost parts: seq<nat>, ghost record: Item, pkt: seq<u8>, hdr: VirtioHdr, nbufs: nat, little: bool)
    returns (ok: bool, segs: seq<seq<u8>>)
    requires |pkt| <= MAX_UINT16 && hdr == HdrOf(record) && Carries(record, pkt, Originals(origs, parts))
    ensures ok <==> |parts| <= nbufs
    ensures ok ==> |segs| == |parts|
    ensures ok ==> forall k {:trigger segs[k]} :: 0 <= k < |segs| && parts[k] < |origs| ==>
              && Payload(segs[k], hdr.hdrLen) == Payload(origs[parts[k]], hdr.hdrLen)
              && (hdr.tcp ==> SeqNum(segs[k], hdr.csumStart) == SeqNum(origs[parts[k]], hdr.csumStart))
  {
    hide Follow, TraitsOf, GoodSegment, SegmentStart, Payloads;
    HdrFits(record, pkt, Originals(origs, parts));
    var isV6 := pkt[0] / 16 == 6;
    var n;
    n, ok, segs := GsoSplit(pkt, hdr, nbufs, isV6, little);
    EnoughBuffers(record, pkt, Originals(origs, parts), nbufs);
    if ok {
      SplitUndoesMerge(record, pkt, Originals(origs, parts), segs);
    }
  }
}
