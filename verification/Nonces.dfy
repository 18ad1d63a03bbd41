/**
 Nonce allocation on one keypair.  Any number of senders draw nonces from a shared 64-bit
 counter with an atomic increment; one that draws at or past the limit stores the limit back
 and restages its packet, and expiry stores the limit at any time.  The steps of different
 senders interleave arbitrarily.
 */
module Nonces {

  const WORD := 0x1_0000_0000_0000_0000
  const REJECT_AFTER_MESSAGES := WORD - 0x2000 - 1

  /** The shared counter, the senders between a drawn nonce past the limit and storing the limit back,
      and the nonces handed to packets so far. */
  datatype State = State(counter: nat, pending: set<nat>, dispatched: seq<nat>)

  datatype Step = Draw(sender: nat) | StoreLimit(sender: nat) | Expire

  const INITIAL := State(0, {}, [])

  ghost predicate Enabled(s: State, step: Step, senders: nat) {
    match step
    case Draw(i) => i < senders && i !in s.pending
    case StoreLimit(i) => i in s.pending
    case Expire => true
  }

  function Next(s: State, step: Step): State {
    match step
    case Draw(i) =>
      var counter := (s.counter + 1) % WORD;
      var nonce := (counter - 1) % WORD;
      if nonce >= REJECT_AFTER_MESSAGES then s.(counter := counter, pending := s.pending + {i})
      else s.(counter := counter, dispatched := s.dispatched + [nonce])
    case StoreLimit(i) => s.(counter := REJECT_AFTER_MESSAGES, pending := s.pending - {i})
    case Expire => s.(counter := REJECT_AFTER_MESSAGES)
  }

  /** The state after a run, defined when every step was enabled. */
  ghost function After(steps: seq<Step>): State {
    if steps == [] then INITIAL else Next(After(steps[..|steps| - 1]), steps[|steps| - 1])
  }

  ghost predicate IsRun(steps: seq<Step>, senders: nat) {
    forall k {:trigger steps[k]} :: 0 <= k < |steps| ==> Enabled(After(steps[..k]), steps[k], senders)
  }

  predicate Unique(nonces: seq<nat>) {
    && (forall i :: 0 <= i < |nonces| ==> nonces[i] < REJECT_AFTER_MESSAGES)
    && (forall i, j :: 0 <= i < j < |nonces| ==> nonces[i] != nonces[j])
  }

  predicate Below(nonces: seq<nat>, counter: nat) {
    forall i :: 0 <= i < |nonces| ==> nonces[i] < counter
  }

  // ---------------------------------------------------------------- safety

  /** The counter has passed the limit by at most one for every sender that has yet to store it back,
      unless all of 2^13 + 1 senders are waiting and it has just wrapped. */
  ghost predicate Inv(s: State, senders: nat) {
    && Unique(s.dispatched)
    && (forall i :: i in s.pending ==> i < senders)
    && (|| (s.counter <= REJECT_AFTER_MESSAGES + |s.pending| && s.counter < WORD && Below(s.dispatched, s.counter))
        || (s.counter == 0 && |s.pending| == senders == 0x2001))
  }

  lemma {:induction false} PendingBound(pending: set<nat>, senders: nat)
    requires forall i :: i in pending ==> i < senders
    ensures |pending| <= senders
    ensures |pending| == senders ==> forall i :: 0 <= i < senders ==> i in pending
  {
    if senders > 0 {
      PendingBound(pending - {senders - 1}, senders - 1);
    } else {
      assert pending == {};
    }
  }

  /** What a draw does to the counter. */
  lemma Drawn(s: State, i: nat)
    requires s.counter < WORD
    ensures Next(s, Draw(i)) ==
              if s.counter < REJECT_AFTER_MESSAGES then s.(counter := s.counter + 1, dispatched := s.dispatched + [s.counter])
              else s.(counter := if s.counter + 1 == WORD then 0 else s.counter + 1, pending := s.pending + {i})
  {
  }

  lemma DispatchMore(nonces: seq<nat>, counter: nat)
    requires Unique(nonces) && Below(nonces, counter) && counter < REJECT_AFTER_MESSAGES
    ensures Unique(nonces + [counter]) && Below(nonces + [counter], counter + 1)
  {
  }

  lemma BelowLimit(nonces: seq<nat>)
    requires Unique(nonces)
    ensures forall counter: nat :: counter >= REJECT_AFTER_MESSAGES ==> Below(nonces, counter)
  {
  }

  lemma StepKeepsInv(s: State, step: Step, senders: nat)
    requires Inv(s, senders) && Enabled(s, step, senders) && senders <= 0x2001
    ensures Inv(Next(s, step), senders)
  {
    hide Unique, Below;
    PendingBound(s.pending, senders);
    BelowLimit(s.dispatched);
    match step {
      case Draw(i) =>
        OneMorePending(s, i, senders);
        Drawn(s, i);
        hide Next;
        if s.counter < REJECT_AFTER_MESSAGES { DispatchMore(s.dispatched, s.counter); }
      case StoreLimit(_) =>
      case Expire =>
    }
  }

  /** A sender that draws makes one more that is pending. */
  lemma OneMorePending(s: State, i: nat, senders: nat)
    requires Enabled(s, Draw(i), senders) && forall j :: j in s.pending ==> j < senders
    ensures |s.pending + {i}| == |s.pending| + 1 <= senders
  {
    PendingBound(s.pending + {i}, senders);
  }

  lemma {:induction false} RunKeepsInv(steps: seq<Step>, senders: nat)
    requires IsRun(steps, senders) && senders <= 0x2001
    ensures Inv(After(steps), senders)
  {
    if steps != [] {
      var init := steps[..|steps| - 1];
      assert forall k :: 0 <= k < |init| ==> init[k] == steps[k] && init[..k] == steps[..k];
      RunKeepsInv(init, senders);
      assert Enabled(After(init), steps[|steps| - 1], senders);
      StepKeepsInv(After(init), steps[|steps| - 1], senders);
    }
  }

  lemma RunPrefix(steps: seq<Step>, step: Step, senders: nat)
    requires IsRun(steps + [step], senders)
    ensures IsRun(steps, senders) && Enabled(After(steps), step, senders) && After(steps + [step]) == Next(After(steps), step)
  {
    hide Enabled, Next;
    var all := steps + [step];
    assert all[..|steps|] == steps;
    assert Enabled(After(all[..|steps|]), all[|steps|], senders);
    assert forall k :: 0 <= k < |steps| ==> steps[k] == all[k] && steps[..k] == all[..k];
  }

  lemma NoWrapHere(s: State, step: Step, senders: nat)
    requires Inv(s, senders) && Enabled(s, step, senders) && senders <= 0x2000
    ensures s.counter + 1 < WORD || !step.Draw?
    ensures s.counter >= REJECT_AFTER_MESSAGES ==> Next(s, step).counter >= REJECT_AFTER_MESSAGES
  {
    hide Unique;
    if step.Draw? {
      OneMorePending(s, step.sender, senders);
    }
  }

  /** With up to 2^13 senders the counter never wraps and never falls below the limit again. */
  lemma NeverWraps(steps: seq<Step>, senders: nat, step: Step)
    requires IsRun(steps + [step], senders) && senders <= 0x2000
    ensures After(steps).counter + 1 < WORD || !step.Draw?
    ensures After(steps).counter >= REJECT_AFTER_MESSAGES ==> After(steps + [step]).counter >= REJECT_AFTER_MESSAGES
  {
    hide After, IsRun, Inv, Enabled, Next;
    RunPrefix(steps, step, senders);
    RunKeepsInv(steps, senders);
    NoWrapHere(After(steps), step, senders);
  }

  // ---------------------------------------------------------------- the bound is exact

  /** The first sender uses nonce 0, the keypair expires, and k senders draw before any stores the limit back. */
  ghost function Crowd(k: nat): seq<Step> {
    if k == 0 then [Draw(0), Expire] else Crowd(k - 1) + [Draw(k - 1)]
  }

  ghost function FirstSenders(k: nat): (s: set<nat>)
    ensures forall i :: i in s <==> 0 <= i < k
  {
    if k == 0 then {} else FirstSenders(k - 1) + {k - 1}
  }

  lemma {:induction false} CrowdRuns(k: nat, senders: nat)
    requires k <= senders && 0 < senders && k <= 0x2001
    ensures IsRun(Crowd(k), senders)
    ensures After(Crowd(k)) == State((REJECT_AFTER_MESSAGES + k) % WORD, FirstSenders(k), [0])
  {
    hide After, IsRun, Next;
    if k == 0 {
      CrowdStarts(senders);
    } else {
      CrowdRuns(k - 1, senders);
      Extend(Crowd(k - 1), Draw(k - 1), senders);
      Drawn(After(Crowd(k - 1)), k - 1);
    }
  }

  lemma CrowdStarts(senders: nat)
    requires 0 < senders
    ensures IsRun([Draw(0), Expire], senders) && After([Draw(0), Expire]) == State(REJECT_AFTER_MESSAGES, {}, [0])
  {
    var one := [Draw(0)];
    assert one[..0] == [] && [Draw(0), Expire][..1] == one && [Draw(0), Expire][..0] == [];
    assert After(one) == Next(INITIAL, Draw(0));
  }

  lemma Extend(steps: seq<Step>, step: Step, senders: nat)
    requires IsRun(steps, senders) && Enabled(After(steps), step, senders)
    ensures IsRun(steps + [step], senders) && After(steps + [step]) == Next(After(steps), step)
  {
    var all := steps + [step];
    assert all[..|steps|] == steps;
    assert forall k :: 0 <= k < |steps| ==> steps[k] == all[k] && steps[..k] == all[..k];
  }

  /** One sender more than 2^13 can make the counter wrap: it reads 0 although nonce 0 is used. */
  lemma CrowdWraps(k: nat, senders: nat)
    requires k == WORD - REJECT_AFTER_MESSAGES <= senders
    ensures IsRun(Crowd(k), senders) && After(Crowd(k)).counter == 0 && 0 in After(Crowd(k)).dispatched
  {
    CrowdRuns(k, senders);
  }

  /** One more still, and nonce 0 is handed out twice. */
  lemma CrowdReuses(k: nat, senders: nat)
    requires k == WORD - REJECT_AFTER_MESSAGES < senders
    ensures IsRun(Crowd(k) + [Draw(k)], senders) && After(Crowd(k) + [Draw(k)]).dispatched == [0, 0]
  {
    hide After, IsRun, Crowd, Next;
    CrowdRuns(k, senders);
    Extend(Crowd(k), Draw(k), senders);
    Drawn(After(Crowd(k)), k);
  }

  ghost predicate AlwaysUnique(senders: nat) {
    forall steps :: IsRun(steps, senders) ==> Unique(After(steps).dispatched)
  }

  /** Nonces are used at most once, and below the limit, in every run exactly if there are at most 2^13 + 1 senders. */
  lemma UniqueExactly(k: nat, senders: nat)
    requires k == WORD - REJECT_AFTER_MESSAGES
    ensures AlwaysUnique(senders) <==> senders <= k == 0x2001
  {
    if senders <= k {
      forall steps | IsRun(steps, senders) ensures Unique(After(steps).dispatched) { RunKeepsInv(steps, senders); }
    } else {
      CrowdReuses(k, senders);
      assert [0, 0][0] == [0, 0][1];
    }
  }

  // ---------------------------------------------------------------- one sender's batch

  /** The packets that got a nonce below the limit, in order. */
  function Kept<T>(elems: seq<T>, nonces: seq<nat>): seq<T>
    requires |elems| == |nonces|
  {
    if elems == [] then []
    else
      var n := |elems| - 1;
      Kept(elems[..n], nonces[..n]) + if nonces[n] < REJECT_AFTER_MESSAGES then [elems[n]] else []
  }

  function Restaged<T>(elems: seq<T>, nonces: seq<nat>): seq<T>
    requires |elems| == |nonces|
  {
    if elems == [] then []
    else
      var n := |elems| - 1;
      Restaged(elems[..n], nonces[..n]) + if nonces[n] < REJECT_AFTER_MESSAGES then [] else [elems[n]]
  }

  /** Gives nonces to a staged batch, closing up the kept packets in place; the rest is restaged. */
  method AssignNonces<T>(elems: array<T>, nonces: seq<nat>) returns (i: nat, restaged: seq<T>)
    requires elems.Length == |nonces|
    modifies elems
    ensures i <= elems.Length && elems[..i] == Kept(old(elems[..]), nonces) && restaged == Restaged(old(elems[..]), nonces)
  {
    i, restaged := 0, [];
    for k := 0 to elems.Length
      invariant i <= k && elems[k..] == old(elems[k..])
      invariant elems[..i] == Kept(old(elems[..k]), nonces[..k])
      invariant restaged == Restaged(old(elems[..k]), nonces[..k])
    {
      var elem := elems[k];
      assert elem == old(elems[..])[k];
      assert old(elems[..k + 1])[..k] == old(elems[..k]) && nonces[..k + 1][..k] == nonces[..k];
      if nonces[k] >= REJECT_AFTER_MESSAGES {
        restaged := restaged + [elem];
      } else {
        elems[i] := elem;
        i := i + 1;
      }
    }
    assert old(elems[..elems.Length]) == old(elems[..]) && nonces[..|nonces|] == nonces;
  }

  /** Every packet of the batch is sent or restaged, exactly once. */
  lemma {:induction false} NothingLost<T>(elems: seq<T>, nonces: seq<nat>)
    requires |elems| == |nonces|
    ensures multiset(Kept(elems, nonces)) + multiset(Restaged(elems, nonces)) == multiset(elems)
  {
    if elems != [] {
      var n := |elems| - 1;
      var kept, restaged := Kept(elems[..n], nonces[..n]), Restaged(elems[..n], nonces[..n]);
      NothingLost(elems[..n], nonces[..n]);
      assert elems == elems[..n] + [elems[n]];
      assert Kept(elems, nonces) == kept + if nonces[n] < REJECT_AFTER_MESSAGES then [elems[n]] else [];
      assert Restaged(elems, nonces) == restaged + if nonces[n] < REJECT_AFTER_MESSAGES then [] else [elems[n]];
      hide Kept, Restaged;
    }
  }
}
