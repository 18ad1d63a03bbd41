/**
 The token bucket that limits handshakes per address.  Times are nanoseconds of a monotone clock;
 tokens are a signed 64-bit count of nanoseconds.
 */
module RateLimiter {
  const GARBAGE_COLLECT_TIME: int := 1_000_000_000
  const PACKET_COST: int := 50_000_000 // twenty packets a second
  const MAX_TOKENS: int := 250_000_000 // a burst of five
  const TWO63: int := 0x8000_0000_0000_0000

  type Addr = nat

  datatype Entry = Entry(lastTime: int, tokens: int)

  type Table = map<Addr, Entry>

  /** The difference of two times, at most the largest duration. */
  function Sub(now: int, last: int): int { if now - last >= TWO63 then TWO63 - 1 else now - last }

  /** A sum of 64-bit numbers, wrapped around once. */
  function Wrap(x: int): int { if x >= TWO63 then x - 2 * TWO63 else x }

  /** The tokens of an entry when a packet comes. */
  function Refilled(e: Entry, now: int): int {
    var t := Wrap(e.tokens + Sub(now, e.lastTime));
    if t > MAX_TOKENS then MAX_TOKENS else t
  }

  /** Whether a packet passes, and the entry afterwards. */
  function Decide(table: Table, ip: Addr, now: int): (bool, Entry) {
    if ip !in table then (true, Entry(now, MAX_TOKENS - PACKET_COST))
    else
      var t := Refilled(table[ip], now);
      if t > PACKET_COST then (true, Entry(now, t - PACKET_COST)) else (false, Entry(now, t))
  }

  class Ratelimiter {
    var table: Table

    method Allow(ip: Addr, now: int) returns (ok: bool)
      modifies this
      ensures (ok, table) == (Decide(old(table), ip, now).0, old(table)[ip := Decide(old(table), ip, now).1])
    {
      if ip !in table {
        table := table[ip := Entry(now, MAX_TOKENS - PACKET_COST)];
        return true;
      }
      var entry := table[ip];
      var tokens := Wrap(entry.tokens + Sub(now, entry.lastTime));
      if tokens > MAX_TOKENS {
        tokens := MAX_TOKENS;
      }
      if tokens > PACKET_COST {
        tokens := tokens - PACKET_COST;
        table := table[ip := Entry(now, tokens)];
        return true;
      }
      table := table[ip := Entry(now, tokens)];
      return false;
    }

    /** Entries not used for more than a second go, in whatever order they are looked at. */
    method Cleanup(now: int) returns (empty: bool)
      modifies this
      ensures table == Collected(old(table), now)
      ensures empty <==> forall ip :: ip in old(table) ==> Stale(old(table)[ip], now)
    {
      var keys := table.Keys;
      ghost var before := table;
      while keys != {}
        invariant keys <= before.Keys
        invariant forall ip :: ip in table <==> ip in before && (ip in keys || !Stale(before[ip], now))
        invariant forall ip :: ip in table ==> table[ip] == before[ip]
        decreases keys
      {
        var key :| key in keys;
        if Stale(table[key], now) {
          table := table - {key};
        }
        keys := keys - {key};
      }
      empty := |table| == 0;
      assert empty <==> table == map[];
      assert table == Collected(before, now);
      if exists ip :: ip in before && !Stale(before[ip], now) {
        var ip :| ip in before && !Stale(before[ip], now);
        assert ip in table;
      }
    }

    /**
     Packets and clean-ups in any order.  No address gets more through than its burst and what the time refills;
     and if no count wraps around, the answers are those of a limiter that never cleans up.
     */
    method Run(evs: seq<Event>, ghost from: int, ghost to: int) returns (answers: seq<bool>)
      requires table == map[] && Within(evs, from, to)
      modifies this
      ensures answers == Answers(map[], evs) && table == AfterAll(map[], evs)
      ensures forall ip :: Admitted(map[], evs, ip) <= (MAX_TOKENS + (to - from)) / PACKET_COST
      ensures NoWrap(map[], Uncollected(evs)) ==> answers == Answers(map[], Uncollected(evs))
    {
      answers := [];
      for i := 0 to |evs|
        invariant AfterAll(table, evs[i..]) == AfterAll(map[], evs) && answers + Answers(table, evs[i..]) == Answers(map[], evs)
      {
        assert evs[i..][0] == evs[i] && evs[i..][1..] == evs[i + 1..];
        match evs[i] {
          case Allow(ip, now) =>
            var ok := Allow(ip, now);
            answers := answers + [ok];
          case Cleanup(now) =>
            var _ := Cleanup(now);
        }
      }
      assert evs[|evs|..] == [];
      forall ip ensures Admitted(map[], evs, ip) <= (MAX_TOKENS + (to - from)) / PACKET_COST {
        AtMost(map[], evs, ip, from, to);
      }
      if NoWrap(map[], Uncollected(evs)) {
        GcInvisible(map[], map[], evs, from, to);
      }
    }
  }

  predicate Stale(e: Entry, now: int) { Sub(now, e.lastTime) > GARBAGE_COLLECT_TIME }

  function Collected(table: Table, now: int): Table {
    map ip | ip in table && !Stale(table[ip], now) :: table[ip]
  }

  // ---------------------------------------------------------------- runs

  datatype Event = Allow(ip: Addr, now: int) | Cleanup(now: int)

  function After(table: Table, ev: Event): Table {
    match ev
    case Allow(ip, now) => table[ip := Decide(table, ip, now).1]
    case Cleanup(now) => Collected(table, now)
  }

  function AfterAll(table: Table, evs: seq<Event>): Table
    decreases |evs|
  {
    if evs == [] then table else AfterAll(After(table, evs[0]), evs[1..])
  }

  /** How many packets of an address a run lets through. */
  function Admitted(table: Table, evs: seq<Event>, ip: Addr): nat
    decreases |evs|
  {
    if evs == [] then 0
    else (if evs[0].Allow? && evs[0].ip == ip && Decide(table, ip, evs[0].now).0 then 1 else 0) + Admitted(After(table, evs[0]), evs[1..], ip)
  }

  /** Times never go back, and stay within the interval. */
  ghost predicate Within(evs: seq<Event>, from: int, to: int) {
    if evs == [] then from <= to else from <= evs[0].now <= to && Within(evs[1..], evs[0].now, to)
  }

  /** Entries are no younger than now and hold no more than the bucket. */
  ghost predicate TableOk(table: Table, now: int) {
    forall ip {:trigger table[ip]} :: ip in table ==> table[ip].lastTime <= now && -TWO63 <= table[ip].tokens <= MAX_TOKENS
  }

  /** What an address could draw on at most at a time; a count that wrapped around is no debt. */
  ghost function Credit(table: Table, ip: Addr, now: int): int {
    if ip !in table then MAX_TOKENS
    else
      var t := (if table[ip].tokens < 0 then 0 else table[ip].tokens) + (now - table[ip].lastTime);
      if t > MAX_TOKENS then MAX_TOKENS else t
  }

  lemma CreditGrows(table: Table, ip: Addr, from: int, now: int)
    requires TableOk(table, from) && from <= now
    ensures 0 <= Credit(table, ip, now) <= Credit(table, ip, from) + (now - from)
  {
  }

  /** A packet let through costs; nothing else raises the credit, garbage collection included. */
  lemma StepPays(table: Table, ev: Event, ip: Addr)
    requires TableOk(table, ev.now)
    ensures TableOk(After(table, ev), ev.now)
    ensures Credit(After(table, ev), ip, ev.now) + (if ev.Allow? && ev.ip == ip && Decide(table, ip, ev.now).0 then PACKET_COST else 0)
            <= Credit(table, ip, ev.now)
  {
  }

  /** In any interval no more than the burst and what the time refills gets through. */
  lemma {:induction false} RateBound(table: Table, evs: seq<Event>, ip: Addr, from: int, to: int)
    requires TableOk(table, from) && Within(evs, from, to)
    ensures Admitted(table, evs, ip) * PACKET_COST <= Credit(table, ip, from) + (to - from)
    decreases |evs|
  {
    if evs == [] {
      CreditGrows(table, ip, from, to);
    } else {
      var ev := evs[0];
      CreditGrows(table, ip, from, ev.now);
      TableLater(table, from, ev.now);
      StepPays(table, ev, ip);
      RateBound(After(table, ev), evs[1..], ip, ev.now, to);
    }
  }

  lemma TableLater(table: Table, from: int, now: int)
    requires TableOk(table, from) && from <= now
    ensures TableOk(table, now)
  {
  }

  /** The bound of the whole interval, whatever the state it begins in. */
  lemma AtMost(table: Table, evs: seq<Event>, ip: Addr, from: int, to: int)
    requires TableOk(table, from) && Within(evs, from, to)
    ensures Admitted(table, evs, ip) <= (MAX_TOKENS + (to - from)) / PACKET_COST
  {
    RateBound(table, evs, ip, from, to);
    CreditGrows(table, ip, from, from);
  }

  // ---------------------------------------------------------------- garbage collection is not seen

  /** The answers a run gives, in order. */
  function Answers(table: Table, evs: seq<Event>): seq<bool>
    decreases |evs|
  {
    if evs == [] then []
    else (if evs[0].Allow? then [Decide(table, evs[0].ip, evs[0].now).0] else []) + Answers(After(table, evs[0]), evs[1..])
  }

  /** The same run without garbage collection. */
  function Uncollected(evs: seq<Event>): seq<Event>
    decreases |evs|
  {
    if evs == [] then [] else (if evs[0].Allow? then [evs[0]] else []) + Uncollected(evs[1..])
  }

  /** The collected table lacks only entries that are full again. */
  ghost predicate Lacks(collected: Table, whole: Table, now: int) {
    && (forall ip {:trigger collected[ip]} :: ip in collected ==> ip in whole && whole[ip] == collected[ip])
    && (forall ip {:trigger whole[ip]} :: ip in whole ==>
          && whole[ip].lastTime <= now && 0 <= whole[ip].tokens <= MAX_TOKENS
          && (ip !in collected ==> now - whole[ip].lastTime > GARBAGE_COLLECT_TIME))
  }

  /** The count of an entry would wrap around. */
  predicate Wraps(e: Entry, now: int) { e.tokens + Sub(now, e.lastTime) >= TWO63 }

  /** No entry of the run is left alone so long that its count would wrap around. */
  ghost predicate NoWrap(table: Table, evs: seq<Event>)
    decreases |evs|
  {
    evs == [] || (
      && (evs[0].Allow? && evs[0].ip in table ==> !Wraps(table[evs[0].ip], evs[0].now))
      && NoWrap(After(table, evs[0]), evs[1..]))
  }

  /** An entry idle for more than a second answers as a new one does, exactly when its count does not wrap around. */
  lemma IdleIsNew(e: Entry, ip: Addr, now: int)
    requires 0 <= e.tokens <= MAX_TOKENS && now - e.lastTime > GARBAGE_COLLECT_TIME
    ensures Decide(map[ip := e], ip, now) == Decide(map[], ip, now) <==> !Wraps(e, now)
    ensures !Decide(map[ip := e], ip, now).0 <==> Wraps(e, now)
  {
  }

  lemma StepSame(collected: Table, whole: Table, ev: Event, now: int)
    requires Lacks(collected, whole, now) && now <= ev.now
    requires ev.Allow? && ev.ip in whole ==> !Wraps(whole[ev.ip], ev.now)
    ensures ev.Cleanup? ==> Lacks(After(collected, ev), whole, ev.now)
    ensures ev.Allow? ==> Lacks(After(collected, ev), After(whole, ev), ev.now) && Decide(collected, ev.ip, ev.now).0 == Decide(whole, ev.ip, ev.now).0
  {
  }

  /** Collecting at whatever times changes no answer. */
  lemma {:induction false} GcInvisible(collected: Table, whole: Table, evs: seq<Event>, from: int, to: int)
    requires Lacks(collected, whole, from) && Within(evs, from, to) && NoWrap(whole, Uncollected(evs))
    ensures Answers(collected, evs) == Answers(whole, Uncollected(evs))
    decreases |evs|
  {
    hide Lacks, Decide, Collected;
    if evs != [] {
      var ev := evs[0];
      var rest := Uncollected(evs[1..]);
      if ev.Allow? {
        assert Uncollected(evs)[0] == ev && Uncollected(evs)[1..] == rest;
        StepSame(collected, whole, ev, from);
        GcInvisible(After(collected, ev), After(whole, ev), evs[1..], ev.now, to);
      } else {
        assert Uncollected(evs) == rest;
        StepSame(collected, whole, ev, from);
        GcInvisible(After(collected, ev), whole, evs[1..], ev.now, to);
      }
    }
  }

  /** Where some count wraps around, a clean-up right before the first packet that sees it changes an answer. */
  lemma {:induction false} WrapIsSeen(table: Table, evs: seq<Event>, from: int, to: int) returns (gs: seq<Event>)
    requires Within(evs, from, to) && !NoWrap(table, evs) && (forall ev :: ev in evs ==> ev.Allow?)
    requires forall ip {:trigger table[ip]} :: ip in table ==> table[ip].lastTime <= from && 0 <= table[ip].tokens <= MAX_TOKENS
    ensures Within(gs, from, to) && Uncollected(gs) == evs && Answers(table, gs) != Answers(table, evs)
    decreases |evs|
  {
    hide Decide, Wraps, Collected;
    var ev, rest := evs[0], evs[1..];
    assert ev in evs;
    OnlyAllow(evs);
    if ev.ip in table && Wraps(table[ev.ip], ev.now) {
      gs := [Cleanup(ev.now)] + evs;
      WrapAnswers(table, ev);
      CleanupFirst(table, ev.now, evs, from, to);
      hide Answers, Uncollected;
    } else {
      EntryKept(table, ev, from);
      var gs' := WrapIsSeen(After(table, ev), rest, ev.now, to);
      gs := [ev] + gs';
      assert gs[1..] == gs';
      AnswersDiffer(table, ev, gs', rest);
      assert evs == [ev] + rest;
    }
  }

  /** A run with a clean-up in front: its first answer is the one from the collected table. */
  lemma CleanupFirst(table: Table, now: int, evs: seq<Event>, from: int, to: int)
    requires evs != [] && evs[0].Allow? && evs[0].now == now && Within(evs, from, to)
    requires Decide(Collected(table, now), evs[0].ip, now).0 != Decide(table, evs[0].ip, now).0
    ensures var gs := [Cleanup(now)] + evs; Within(gs, from, to) && Uncollected(gs) == Uncollected(evs) && Answers(table, gs) != Answers(table, evs)
  {
    hide Decide, Collected;
    var gs := [Cleanup(now)] + evs;
    assert gs[0] == Cleanup(now) && gs[1..] == evs;
    var c := Collected(table, now);
    assert Answers(table, gs) == Answers(c, evs) && Uncollected(gs) == Uncollected(evs);
    FirstAnswer(c, evs);
    FirstAnswer(table, evs);
  }

  lemma FirstAnswer(table: Table, evs: seq<Event>)
    requires evs != [] && evs[0].Allow?
    ensures Answers(table, evs) != [] && Answers(table, evs)[0] == Decide(table, evs[0].ip, evs[0].now).0
  {
    hide Decide;
  }

  lemma AnswersDiffer(table: Table, ev: Event, a: seq<Event>, b: seq<Event>)
    requires Answers(After(table, ev), a) != Answers(After(table, ev), b) && ev.Allow?
    ensures Answers(table, [ev] + a) != Answers(table, [ev] + b)
  {
    hide Decide, After;
    var d := [Decide(table, ev.ip, ev.now).0];
    assert ([ev] + a)[1..] == a && ([ev] + b)[1..] == b;
    assert (d + Answers(After(table, ev), a))[1..] == Answers(After(table, ev), a) && (d + Answers(After(table, ev), b))[1..] == Answers(After(table, ev), b);
  }

  lemma EntryKept(table: Table, ev: Event, from: int)
    requires ev.Allow? && from <= ev.now && (ev.ip in table ==> !Wraps(table[ev.ip], ev.now))
    requires forall ip {:trigger table[ip]} :: ip in table ==> table[ip].lastTime <= from && 0 <= table[ip].tokens <= MAX_TOKENS
    ensures var t := After(table, ev); forall ip {:trigger t[ip]} :: ip in t ==> t[ip].lastTime <= ev.now && 0 <= t[ip].tokens <= MAX_TOKENS
  {
  }

  lemma {:induction false} OnlyAllow(evs: seq<Event>)
    requires forall ev :: ev in evs ==> ev.Allow?
    ensures Uncollected(evs) == evs
  {
    if evs != [] {
      assert evs[0] in evs;
      OnlyAllow(evs[1..]);
    }
  }

  /** With its entry collected the packet passes, without it does not. */
  lemma WrapAnswers(table: Table, ev: Event)
    requires ev.Allow? && ev.ip in table && Wraps(table[ev.ip], ev.now) && 0 <= table[ev.ip].tokens <= MAX_TOKENS
    ensures !Decide(table, ev.ip, ev.now).0 && Decide(Collected(table, ev.now), ev.ip, ev.now).0
  {
    assert Stale(table[ev.ip], ev.now);
  }

  /** For any run of packets: clean-ups go unnoticed, whenever they happen, exactly when no count wraps around. */
  lemma GcUnnoticedExactly(evs: seq<Event>, from: int, to: int)
    requires Within(evs, from, to) && forall ev :: ev in evs ==> ev.Allow?
    ensures (forall gs :: Within(gs, from, to) && Uncollected(gs) == evs ==> Answers(map[], gs) == Answers(map[], evs)) <==> NoWrap(map[], evs)
  {
    if NoWrap(map[], evs) {
      forall gs | Within(gs, from, to) && Uncollected(gs) == evs ensures Answers(map[], gs) == Answers(map[], evs) {
        GcInvisible(map[], map[], gs, from, to);
      }
    } else {
      var gs := WrapIsSeen(map[], evs, from, to);
    }
  }

  /** Two packets 292 years apart: with a clean-up between them both pass, without it the second does not. */
  lemma CleanupNoticed()
    ensures Answers(map[], [Allow(0, 0), Cleanup(TWO63), Allow(0, TWO63)]) == [true, true]
    ensures Answers(map[], [Allow(0, 0), Allow(0, TWO63)]) == [true, false]
    ensures !NoWrap(map[], [Allow(0, 0), Allow(0, TWO63)])
  {
    var one, two, three := Allow(0, 0), Cleanup(TWO63), Allow(0, TWO63);
    var t := After(map[], one);
    assert t == map[0 := Entry(0, MAX_TOKENS - PACKET_COST)];
    assert After(t, two) == map[];
    assert [one, two, three][1..] == [two, three] && [two, three][1..] == [three] && [three][1..] == [];
    assert [one, three][1..] == [three];
    assert Answers(map[], [three]) == [true] && Answers(t, [three]) == [false] && Answers(t, [two, three]) == [true];
  }

  /** Within 292 years no count wraps around. */
  lemma {:induction false} ShortRunsDoNotWrap(table: Table, evs: seq<Event>, from: int, now: int, to: int)
    requires Within(evs, now, to) && from <= now && to - from < TWO63 - MAX_TOKENS
    requires forall ip {:trigger table[ip]} :: ip in table ==> from <= table[ip].lastTime <= now && 0 <= table[ip].tokens <= MAX_TOKENS
    ensures NoWrap(table, evs)
    decreases |evs|
  {
    if evs != [] {
      WithinTo(evs, now, to);
      ShortRunsDoNotWrap(After(table, evs[0]), evs[1..], from, evs[0].now, to);
    }
  }

  lemma WithinTo(evs: seq<Event>, now: int, to: int)
    requires evs != [] && Within(evs, now, to)
    ensures now <= evs[0].now <= to && Within(evs[1..], evs[0].now, to)
  {
  }

  lemma {:induction false} UncollectedWithin(evs: seq<Event>, from: int, to: int)
    requires Within(evs, from, to)
    ensures Within(Uncollected(evs), from, to)
    decreases |evs|
  {
    if evs != [] {
      UncollectedWithin(evs[1..], evs[0].now, to);
      if evs[0].Allow? {
        assert Uncollected(evs)[1..] == Uncollected(evs[1..]);
      } else {
        assert Uncollected(evs) == Uncollected(evs[1..]);
        WithinEarlier(Uncollected(evs), from, evs[0].now, to);
      }
    }
  }

  lemma WithinEarlier(evs: seq<Event>, from: int, from': int, to: int)
    requires from <= from' && Within(evs, from', to)
    ensures Within(evs, from, to)
  {
  }

  /** From the start, for a run of less than 292 years: garbage collection at any times changes no answer. */
  lemma GcNeverMatters(evs: seq<Event>, from: int, to: int)
    requires Within(evs, from, to) && to - from < TWO63 - MAX_TOKENS
    ensures Answers(map[], evs) == Answers(map[], Uncollected(evs))
  {
    UncollectedWithin(evs, from, to);
    ShortRunsDoNotWrap(map[], Uncollected(evs), from, from, to);
    GcInvisible(map[], map[], evs, from, to);
  }
}
