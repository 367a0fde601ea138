/** The allocator does what BlkRun says, and between calls the heap holds exactly the blocks of the client
    and of the cache. */
module BlkSession {
  import opened BlkMemory
  import opened BlkCache
  import opened BlkRun

  predicate MayHold(m: Arrays, live: set<nat>, b: Blk) {
    b == EMPTY || b == ERROR || (b.data in live && Whole(m, b))
  }

  /** The blocks of a client: no two have the same array, and together they are the live ones. */
  ghost predicate Holds(m: Arrays, live: set<nat>, held: seq<Blk>) {
    && (forall k :: 0 <= k < |held| ==> MayHold(m, live, held[k]))
    && (forall i, j :: 0 <= i < j < |held| && held[i].data == held[j].data ==> held[i].data == 0)
    && (forall p :: p in live ==> p != 0 && p in Addresses(held))
  }

  /** Slot k changes hands while the other live arrays stay as they are. */
  lemma {:induction false} HoldsPut(m: Arrays, m': Arrays, live: set<nat>, live': set<nat>, held: seq<Blk>, k: nat,
                                    b: Blk)
    requires Holds(m, live, held) && k < |held| && MayHold(m', live', b)
    requires live' == live - {held[k].data} + if b.data == 0 then {} else {b.data}
    requires b.data in live ==> b.data == held[k].data
    requires forall p :: p in live && p != held[k].data ==> p in m' && m'[p] == m[p]
    ensures Holds(m', live', held[k := b])
  {
    var held' := held[k := b];
    forall i | 0 <= i < |held'| ensures MayHold(m', live', held'[i]) {
      if i != k {
        assert MayHold(m, live, held[i]);
      }
    }
    forall p | p in live' ensures p != 0 && p in Addresses(held') {
      if p == b.data {
        assert held'[k].data == p;
      } else {
        var i :| 0 <= i < |held| && held[i].data == p;
        assert held'[i].data == p;
      }
    }
  }

  lemma {:induction false} HoldsMore(m: Arrays, live: set<nat>, held: seq<Blk>)
    requires Holds(m, live, held)
    ensures Holds(m, live, held + [EMPTY])
  {
    var held' := held + [EMPTY];
    forall p | p in live ensures p in Addresses(held') {
      var i :| 0 <= i < |held| && held[i].data == p;
      assert held'[i].data == p;
    }
  }

  /** The state of the client: its blocks are exactly what the allocator has given out. */
  ghost predicate InSession(ctx: Ctx, held: seq<Blk>)
    reads ctx, ctx.mem, ctx.cache
  {
    ctx.Valid() && Holds(ctx.mem.arrays, ctx.live, held)
  }

  /** The allocator and the client are as d has it. */
  ghost predicate Pictures(ctx: Ctx, held: seq<Blk>, d: Desk)
    reads ctx, ctx.mem, ctx.cache
  {
    && InSession(ctx, held)
    && d.held == held && d.cached == ctx.Cached() && d.miss == ctx.nMiss && d.totals == ctx.mem.totals
  }

  /** The arrays are those of the cache and of the client. */
  lemma {:induction false} KeysAreTaken(m: Arrays, cached: seq<Blk>, live: set<nat>, held: seq<Blk>)
    requires Owned(m, cached, live) && Holds(m, live, held) && 0 !in m
    ensures m.Keys == Addresses(held) + Addresses(cached) - {0}
  {
    forall p | p in Addresses(held) && p != 0 ensures p in live {
      var k :| 0 <= k < |held| && held[k].data == p;
      assert MayHold(m, live, held[k]);
    }
  }

  /** One call; failed tells whether memory ran out. */
  method Step(ctx: Ctx, held: seq<Blk>, c: Call, ghost d: Desk)
    returns (held': seq<Blk>, failed: bool, ghost best: nat, ghost d': Desk)
    requires Pictures(ctx, held, d) && Sensible(c)
    modifies ctx, ctx.mem, ctx.cache
    ensures MayChoose(d, c, best) && d' == Stepped(d, c, best) && Pictures(ctx, held', d')
    ensures failed <==> Fails(d, c, best)
    ensures old(ctx.mem.log) <= ctx.mem.log
  {
    hide Owned, Holds, BestFit, AfterSearch, Whole, Extended, ExtendedTotals, Found, Evicted, Searched, Addresses;
    held', failed, best, d' := held, false, 0, d;
    match c {
      case Allocate(n, where) =>
        HoldsMore(ctx.mem.arrays, ctx.live, held);
        held', failed, best, d' := Replace(ctx, held + [EMPTY], |held|, n, where, d.(held := held + [EMPTY]));
        AllocateAsEnlarge(d, n, where, best);
      case Enlarge(k, n, where) =>
        if k < |held| {
          held', failed, best, d' := Replace(ctx, held, k, n, where, d);
        }
      case Release(k) =>
        if k < |held| {
          held', d' := Drop(ctx, held, k, d);
        }
      case Clear =>
        ctx.ClearCache();
        HoldsSame(old(ctx.mem.arrays), ctx.mem.arrays, ctx.live, held);
        d' := Stepped(d, c, 0);
    }
  }

  /** Allocating is enlarging an empty block in a new slot. */
  lemma AllocateAsEnlarge(d: Desk, n: nat, where: nat, best: nat)
    requires Searched(d.cached, n, best)
    ensures var k, more := |d.held|, d.(held := d.held + [EMPTY]);
            && more.held[k] == EMPTY
            && Stepped(d, Allocate(n, where), best) == Stepped(more, Enlarge(k, n, where), best)
            && (Fails(d, Allocate(n, where), best) <==> Stepped(more, Enlarge(k, n, where), best).held[k] == ERROR)
  {
    hide Addresses, Extended, ExtendedTotals, AfterSearch;
    var k, more := |d.held|, d.(held := d.held + [EMPTY]);
    TakenMore(d.held);
    assert more.Taken() == d.Taken() by {
      forall p ensures p in more.Taken() <==> p in d.Taken() {
        assert p in Addresses(more.held) - {0} <==> p in Addresses(d.held) - {0};
      }
    }
    var r := Allocated(d, n, where, best).0;
    assert more.held[k := r] == d.held + [r];
  }

  lemma TakenMore(held: seq<Blk>)
    ensures Addresses(held + [EMPTY]) - {0} == Addresses(held) - {0}
  {
    var held' := held + [EMPTY];
    forall p | p in Addresses(held) ensures p in Addresses(held') {
      var k :| 0 <= k < |held| && held[k].data == p;
      assert held'[k].data == p;
    }
  }

  lemma {:induction false} HoldsSame(m: Arrays, m': Arrays, live: set<nat>, held: seq<Blk>)
    requires Holds(m, live, held) && forall p :: p in live ==> p in m' && m'[p] == m[p]
    ensures Holds(m', live, held)
  {
    forall k | 0 <= k < |held| ensures MayHold(m', live, held[k]) {
      assert MayHold(m, live, held[k]);
    }
  }

  lemma {:induction false} HeldAt(m: Arrays, live: set<nat>, held: seq<Blk>, k: nat)
    requires Holds(m, live, held) && k < |held|
    ensures MayHold(m, live, held[k])
  {
  }

  /** The call that enlarges slot k, which is not an error block if memory is needed. */
  method Replace(ctx: Ctx, held: seq<Blk>, k: nat, n: nat, where: nat, ghost d: Desk)
    returns (held': seq<Blk>, failed: bool, ghost best: nat, ghost d': Desk)
    requires Pictures(ctx, held, d) && k < |held| && n <= INT_MAX
    modifies ctx, ctx.mem, ctx.cache
    ensures MayChoose(d, Enlarge(k, n, where), best) && d' == Stepped(d, Enlarge(k, n, where), best)
    ensures Pictures(ctx, held', d')
    ensures failed <==> d'.held[k] == ERROR
    ensures old(ctx.mem.log) <= ctx.mem.log
  {
    hide Owned, Holds, Whole, BestFit, AfterSearch, Extended, ExtendedTotals, Found, Evicted, Searched, Addresses;
    HeldAt(ctx.mem.arrays, ctx.live, held, k);
    KeysAreTaken(ctx.mem.arrays, ctx.Cached(), ctx.live, held);
    var b;
    b, best := ctx.ExtendBlock(held[k], n, where);
    held', failed := held[k := b], b == ERROR;
    d' := Stepped(d, Enlarge(k, n, where), best);
    HoldsPut(old(ctx.mem.arrays), ctx.mem.arrays, old(ctx.live), ctx.live, held, k, b);
  }

  method Drop(ctx: Ctx, held: seq<Blk>, k: nat, ghost d: Desk) returns (held': seq<Blk>, ghost d': Desk)
    requires Pictures(ctx, held, d) && k < |held|
    modifies ctx, ctx.mem, ctx.cache
    ensures d' == Stepped(d, Release(k), 0) && Pictures(ctx, held', d')
    ensures held' == held[k := EMPTY] && old(ctx.mem.log) <= ctx.mem.log
  {
    hide Owned, Holds, Whole, Addresses;
    HeldAt(ctx.mem.arrays, ctx.live, held, k);
    ctx.Free(held[k]);
    held' := held[k := EMPTY];
    d' := Stepped(d, Release(k), 0);
    HoldsPut(old(ctx.mem.arrays), ctx.mem.arrays, old(ctx.live), ctx.live, held, k, EMPTY);
  }

  lemma {:induction false} NothingHeld(m: Arrays, live: set<nat>, held: seq<Blk>)
    requires Holds(m, live, held) && forall k :: 0 <= k < |held| ==> held[k] == EMPTY
    ensures live == {}
  {
    assert forall p :: p in Addresses(held) ==> p == 0;
  }

  /** After the events of log the heap is as d has it: every array belongs to one block of the client or
      of the cache and is full of initialised elements, and d counts the events. */
  ghost predicate Explains(log: seq<Event>, d: Desk) {
    && Replay(log).Heap? && Tally(log) == d.totals
    && Replay(log).m.Keys == d.Taken()
    && exists live :: Owned(Replay(log).m, d.cached, live) && Holds(Replay(log).m, live, d.held)
  }

  lemma PicturesExplains(ctx: Ctx, held: seq<Blk>, d: Desk)
    requires Pictures(ctx, held, d)
    ensures Explains(ctx.mem.log, d)
  {
    KeysAreTaken(ctx.mem.arrays, ctx.Cached(), ctx.live, held);
  }

  /** Each moment of the session with the events up to it. */
  ghost predicate Logged(desks: seq<Desk>, logs: seq<seq<Event>>, log: seq<Event>) {
    && |logs| == |desks| > 0 && logs[|logs| - 1] <= log
    && (forall k :: 0 <= k < |desks| ==> Explains(logs[k], desks[k]))
    && (forall k :: 0 <= k < |logs| - 1 ==> logs[k] <= logs[k + 1])
  }

  lemma LoggedMore(desks: seq<Desk>, logs: seq<seq<Event>>, log: seq<Event>, d: Desk)
    requires Logged(desks, logs, log) && Explains(log, d)
    ensures Logged(desks + [d], logs + [log], log)
  {
    hide Explains;
  }

  /** Any run of a client, after which it gives back what it holds and the cache is cleared as in
      isl_ctx_free. The run is the session of BlkRun for these calls; the log tells what happened to
      each element of each array; and at the end no array is left. Giving back initialises and loses
      nothing, so all else was cleared. */
  method Run(calls: seq<Call>)
    returns (memory: Memory, failures: nat, ghost choices: seq<nat>, ghost desks: seq<Desk>, ghost logs: seq<seq<Event>>)
    requires forall k :: 0 <= k < |calls| ==> Sensible(calls[k])
    ensures IsSession(calls, choices, desks)
    ensures failures == Failures(calls, choices, desks, |calls|)
    ensures Logged(desks, logs, memory.log)
    ensures memory.arrays == map[] && Replay(memory.log) == Heap(map[])
    ensures var t, sum := Tally(memory.log), Tally(logs[|calls|]);
            t.inits == sum.inits && t.lost == sum.lost && t.inits == t.clears + t.lost
    ensures failures == 0 ==> Tally(memory.log).lost == 0
  {
    hide Owned, Holds, Whole, Stepped, MayChoose, Fails, Explains, Addresses, IsSession;
    memory := new Memory();
    var ctx := new Ctx(memory);
    var held: seq<Blk> := [];
    failures, choices, desks := 0, [], [START];
    HoldsNothing();
    PicturesExplains(ctx, held, START);
    logs := [memory.log];
    StartSession();
    for c := 0 to |calls|
      invariant ctx.mem == memory && fresh(ctx) && fresh(memory) && fresh(ctx.cache)
      invariant |desks| == c + 1 && Pictures(ctx, held, desks[c])
      invariant IsSession(calls[..c], choices, desks) && failures == Failures(calls[..c], choices, desks, c)
      invariant Logged(desks, logs, memory.log) && logs[c] == memory.log
    {
      var failed;
      ghost var best, d;
      held, failed, best, d := Step(ctx, held, calls[c], desks[c]);
      failures := failures + if failed then 1 else 0;
      assert calls[..c + 1] == calls[..c] + [calls[c]];
      FailuresMore(calls[..c], choices, desks, calls[c], best);
      PicturesExplains(ctx, held, d);
      LoggedMore(desks, logs, memory.log, d);
      choices, desks, logs := choices + [best], desks + [d], logs + [memory.log];
    }
    assert calls[..|calls|] == calls;
    LostInFailures(calls, choices, desks, |calls|);
    GiveBack(ctx, held, desks[|calls|]);
    Balance(memory.log);
  }

  /** The client gives back what it holds, and the cache is cleared. */
  method GiveBack(ctx: Ctx, held: seq<Blk>, ghost d: Desk)
    requires Pictures(ctx, held, d)
    modifies ctx, ctx.mem, ctx.cache
    ensures ctx.mem.Valid() && ctx.mem.arrays == map[] && old(ctx.mem.log) <= ctx.mem.log
    ensures ctx.mem.totals.inits == old(ctx.mem.totals.inits) && ctx.mem.totals.lost == old(ctx.mem.totals.lost)
  {
    hide Owned, Holds, Whole, Addresses;
    var held, i := held, 0;
    ghost var now := d;
    while i < |held|
      invariant Pictures(ctx, held, now)
      invariant 0 <= i <= |held| && forall k :: 0 <= k < i ==> held[k] == EMPTY
      invariant now.totals.inits == d.totals.inits && now.totals.lost == d.totals.lost
      invariant old(ctx.mem.log) <= ctx.mem.log
      decreases |held| - i
    {
      held, now := Drop(ctx, held, i, now);
      i := i + 1;
    }
    NothingHeld(ctx.mem.arrays, ctx.live, held);
    ctx.ClearCache();
    assert ctx.mem.arrays == map[];
  }

  lemma StartSession()
    ensures IsSession([], [], [START]) && Failures([], [], [START], 0) == 0
  {
  }

  lemma FailuresMore(calls: seq<Call>, choices: seq<nat>, desks: seq<Desk>, c: Call, best: nat)
    requires IsSession(calls, choices, desks) && MayChoose(desks[|calls|], c, best)
    ensures var calls', choices', desks' := calls + [c], choices + [best], desks + [Stepped(desks[|calls|], c, best)];
            && IsSession(calls', choices', desks')
            && Failures(calls', choices', desks', |calls'|)
               == Failures(calls, choices, desks, |calls|) + if Fails(desks[|calls|], c, best) then 1 else 0
  {
    hide Stepped, Fails, MayChoose;
    FailuresGoOn(calls, choices, desks, c, best, |calls|);
  }

  lemma {:induction false} HoldsNothing()
    ensures Holds(map[], {}, [])
  {
  }
}
