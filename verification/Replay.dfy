/**
 The anti-replay filter: a ring of 128 blocks of 64 bits that slides forward with the highest
 counter seen.  A block is its 64 bits, least significant first.
 */
module Replay {

  type u64 = x: int | 0 <= x < 0x1_0000_0000_0000_0000

  const BLOCK_BITS := 64
  const RING_BLOCKS := 128
  const WINDOW_SIZE := (RING_BLOCKS - 1) * BLOCK_BITS

  type Block = b: seq<bool> | |b| == BLOCK_BITS witness seq(BLOCK_BITS, i => false)

  const EMPTY_BLOCK: Block := seq(BLOCK_BITS, i => false)

  // ---------------------------------------------------------------- the reference

  /** The highest counter accepted so far, 0 if there is none. */
  ghost function Highest(accepted: set<u64>): (h: u64)
    ensures h == 0 || h in accepted
    ensures forall c :: c in accepted ==> c <= h
  {
    if accepted == {} then 0
    else
      var c :| c in accepted;
      assert accepted == (accepted - {c}) + {c};
      var h := Highest(accepted - {c});
      if c > h then c else h
  }

  /** Below the limit, not seen before, and no more than a window behind the highest. */
  ghost predicate Acceptable(accepted: set<u64>, counter: u64, limit: u64) {
    counter < limit && counter !in accepted && Highest(accepted) - counter <= WINDOW_SIZE
  }

  // ---------------------------------------------------------------- the ring

  predicate InReach(c: u64, last: u64) {
    0 <= last / BLOCK_BITS - c / BLOCK_BITS < RING_BLOCKS
  }

  /** Within the ring's reach of last, a bit is set exactly for the accepted counters. */
  ghost predicate Tracks(ring: seq<Block>, last: u64, accepted: set<u64>, c: u64)
    requires |ring| == RING_BLOCKS
  {
    InReach(c, last) ==> (ring[c / BLOCK_BITS % RING_BLOCKS][c % BLOCK_BITS] <==> c in accepted)
  }

  /** The slot of a block is cleared when n consecutive blocks from lo on are. */
  predicate Cleared(slot: nat, lo: nat, n: nat) {
    (slot - lo) % RING_BLOCKS < n
  }

  lemma ClearedNext(j: nat, lo: nat, n: nat)
    requires j < RING_BLOCKS && n < RING_BLOCKS
    ensures Cleared(j, lo, n + 1) <==> Cleared(j, lo, n) || j == (lo + n) % RING_BLOCKS
  {
    SameResidue(lo + n, lo);
    if (j - lo) % RING_BLOCKS == n {
      var q := (j - lo) / RING_BLOCKS;
      assert j == (lo + n) + RING_BLOCKS * q;
    }
  }

  lemma ClearedNextAll(lo: nat, n: nat)
    requires n < RING_BLOCKS
    ensures forall j {:trigger Cleared(j, lo, n)} {:trigger Cleared(j, lo, n + 1)} :: 0 <= j < RING_BLOCKS ==>
              (Cleared(j, lo, n + 1) <==> Cleared(j, lo, n) || j == (lo + n) % RING_BLOCKS)
  {
    forall j {:trigger Cleared(j, lo, n)} | 0 <= j < RING_BLOCKS
      ensures Cleared(j, lo, n + 1) <==> Cleared(j, lo, n) || j == (lo + n) % RING_BLOCKS
    {
      ClearedNext(j, lo, n);
    }
  }

  /** Clearing the blocks between the old and the new highest counter, at most a whole ring of them,
      leaves a ring that tracks the accepted counters from the new position. */
  lemma WindowMoves(before: seq<Block>, after: seq<Block>, last: u64, counter: u64, accepted: set<u64>, c: u64)
    requires |before| == RING_BLOCKS && |after| == RING_BLOCKS && last < counter
    requires forall a :: a in accepted ==> a <= last
    requires Tracks(before, last, accepted, c)
    requires var lo, n := last / BLOCK_BITS + 1, counter / BLOCK_BITS - last / BLOCK_BITS;
             forall j :: 0 <= j < RING_BLOCKS ==>
               after[j] == if Cleared(j, lo, if n > RING_BLOCKS then RING_BLOCKS else n) then EMPTY_BLOCK else before[j]
    ensures Tracks(after, counter, accepted, c)
  {
    var k, slot := c / BLOCK_BITS, c / BLOCK_BITS % RING_BLOCKS;
    var lo := last / BLOCK_BITS + 1;
    if InReach(c, counter) {
      if k >= lo {
        assert (slot - lo) % RING_BLOCKS == (k - lo) % RING_BLOCKS by { SameResidue(k, lo); }
        assert c !in accepted;
      } else {
        assert (slot - lo) % RING_BLOCKS == (k - lo) % RING_BLOCKS by { SameResidue(k, lo); }
      }
    }
  }

  lemma SameResidue(k: nat, lo: nat)
    ensures (k % RING_BLOCKS - lo) % RING_BLOCKS == (k - lo) % RING_BLOCKS
  {
    var q := k / RING_BLOCKS;
    assert k - lo == (k % RING_BLOCKS - lo) + RING_BLOCKS * q;
  }

  /** Setting the bit of one counter in reach changes what is tracked by exactly that counter. */
  lemma BitSet(ring: seq<Block>, last: u64, accepted: set<u64>, counter: u64, c: u64)
    requires |ring| == RING_BLOCKS && InReach(counter, last) && Tracks(ring, last, accepted, c)
    ensures var slot := counter / BLOCK_BITS % RING_BLOCKS;
            var block: Block := ring[slot][counter % BLOCK_BITS := true];
            Tracks(ring[slot := block], last, accepted + {counter}, c)
  {
    if InReach(c, last) && c / BLOCK_BITS % RING_BLOCKS == counter / BLOCK_BITS % RING_BLOCKS {
      assert c / BLOCK_BITS == counter / BLOCK_BITS;
      assert c % BLOCK_BITS == counter % BLOCK_BITS ==> c == counter;
    }
  }

  // ---------------------------------------------------------------- the filter

  class Filter {
    var last: u64
    const ring: array<Block>
    ghost var accepted: set<u64>

    ghost predicate Valid()
      reads this, ring
    {
      && ring.Length == RING_BLOCKS
      && last == Highest(accepted)
      && forall c: u64 {:trigger Tracks(ring[..], last, accepted, c)} :: Tracks(ring[..], last, accepted, c)
    }

    constructor ()
      ensures Valid() && accepted == {} && fresh(ring)
    {
      last := 0;
      ring := new Block[RING_BLOCKS](i => EMPTY_BLOCK);
      accepted := {};
    }

    /** Makes a filter in any state, however dirty, behave as a new one. */
    method Reset()
      requires ring.Length == RING_BLOCKS
      modifies this, ring
      ensures Valid() && accepted == {}
    {
      last := 0;
      ring[0] := EMPTY_BLOCK;
      accepted := {};
    }

    /** Clears the slots of the diff blocks that follow the current one. */
    method ClearBlocks(current: nat, diff: nat)
      requires ring.Length == RING_BLOCKS && diff <= RING_BLOCKS
      modifies ring
      ensures forall j :: 0 <= j < RING_BLOCKS ==>
                ring[j] == if Cleared(j, current + 1, diff) then EMPTY_BLOCK else old(ring[j])
    {
      var i := current + 1;
      while i <= current + diff
        invariant current + 1 <= i <= current + diff + 1
        invariant forall j :: 0 <= j < RING_BLOCKS ==>
                    ring[j] == if Cleared(j, current + 1, i - (current + 1)) then EMPTY_BLOCK else old(ring[j])
      {
        ClearedNextAll(current + 1, i - (current + 1));
        ring[i % RING_BLOCKS] := EMPTY_BLOCK;
        i := i + 1;
      }
    }

    method ValidateCounter(counter: u64, limit: u64) returns (ok: bool)
      requires Valid()
      modifies this, ring
      ensures Valid()
      ensures ok <==> old(Acceptable(accepted, counter, limit))
      ensures accepted == if ok then old(accepted) + {counter} else old(accepted)
    {
      if counter >= limit {
        return false;
      }
      var indexBlock := counter / BLOCK_BITS;
      if counter > last {
        var current := last / BLOCK_BITS;
        var diff := indexBlock - current;
        if diff > RING_BLOCKS {
          diff := RING_BLOCKS;
        }
        ClearBlocks(current, diff);
        forall c: u64 ensures Tracks(ring[..], counter, accepted, c) {
          assert old(Tracks(ring[..], last, accepted, c));
          WindowMoves(old(ring[..]), ring[..], last, counter, accepted, c);
        }
        last := counter;
      } else if last - counter > WINDOW_SIZE {
        return false;
      }
      ghost var moved := ring[..];
      assert forall c: u64 :: Tracks(moved, last, accepted, c);
      assert InReach(counter, last) && Tracks(moved, last, accepted, counter);
      indexBlock := indexBlock % RING_BLOCKS;
      var indexBit := counter % BLOCK_BITS;
      var oldBlock := ring[indexBlock];
      var newBlock: Block := oldBlock[indexBit := true];
      ring[indexBlock] := newBlock;
      ok := oldBlock != newBlock;
      assert ring[..] == moved[indexBlock := newBlock];
      forall c: u64 ensures Tracks(ring[..], last, accepted + {counter}, c) {
        BitSet(moved, last, accepted, counter, c);
      }
      accepted := accepted + {counter};
    }
  }

  // ---------------------------------------------------------------- whole runs

  datatype Event = Check(counter: u64, limit: u64) | Clear

  /** The counters accepted since the last reset, by the reference. */
  ghost function Accepted(events: seq<Event>): set<u64> {
    if events == [] then {}
    else
      var before := Accepted(events[..|events| - 1]);
      match events[|events| - 1]
      case Clear => {}
      case Check(c, limit) => if Acceptable(before, c, limit) then before + {c} else before
  }

  /** The verdict of the reference on event i of a run. */
  ghost predicate Verdict(events: seq<Event>, i: nat)
    requires i < |events|
  {
    events[i].Check? && Acceptable(Accepted(events[..i]), events[i].counter, events[i].limit)
  }

  /** Over any run, even one that starts by resetting a dirty filter, the verdicts are the reference's. */
  method Run(f: Filter, events: seq<Event>) returns (verdicts: seq<bool>)
    requires f.ring.Length == RING_BLOCKS
    modifies f, f.ring
    ensures |verdicts| == |events|
    ensures forall i :: 0 <= i < |events| ==> (verdicts[i] <==> Verdict(events, i))
  {
    f.Reset();
    verdicts := [];
    for k := 0 to |events|
      invariant f.Valid() && f.accepted == Accepted(events[..k])
      invariant |verdicts| == k && forall i :: 0 <= i < k ==> (verdicts[i] <==> Verdict(events, i))
    {
      assert events[..k + 1][..k] == events[..k];
      match events[k] {
        case Clear =>
          f.Reset();
          verdicts := verdicts + [false];
        case Check(c, limit) =>
          var ok := f.ValidateCounter(c, limit);
          verdicts := verdicts + [ok];
      }
    }
  }

  lemma {:induction false} AcceptedStays(events: seq<Event>, i: nat, j: nat)
    requires i < j <= |events| && Verdict(events, i)
    requires forall k :: i < k < j ==> events[k].Check?
    ensures events[i].counter in Accepted(events[..j])
    decreases j
  {
    assert events[..j][..j - 1] == events[..j - 1];
    if i < j - 1 { AcceptedStays(events, i, j - 1); }
  }

  /** A counter is accepted at most once between two resets. */
  lemma NoReplay(events: seq<Event>, i: nat, j: nat)
    requires i < j < |events| && Verdict(events, i) && Verdict(events, j) && events[i].counter == events[j].counter
    ensures exists k :: i < k < j && events[k].Clear?
  {
    if forall k :: i < k < j ==> events[k].Check? { AcceptedStays(events, i, j); }
  }
}
