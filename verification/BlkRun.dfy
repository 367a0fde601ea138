/** What any client of isl's block allocator sees: the blocks it holds, the cache, and how many elements
    were initialised, cleared and lost, after each of its calls. */
module BlkRun {
  import opened BlkMemory
  import opened BlkCache

  /** What a client may do with the blocks it has asked for; `where` is the place that the system offers
      if memory is needed. Once released, a slot holds the empty block. */
  datatype Call =
    | Allocate(n: nat, where: nat)
    | Enlarge(slot: nat, n: nat, where: nat)
    | Release(slot: nat)
    | Clear

  predicate Sensible(c: Call) {
    (c.Allocate? || c.Enlarge?) ==> c.n <= INT_MAX
  }

  /** The client's blocks, the cache, the miss counter, and counts of what has happened. */
  datatype Desk = Desk(held: seq<Blk>, cached: seq<Blk>, miss: nat, totals: Totals, misses: nat, evictions: nat)
  {
    function Taken(): set<nat> {
      Addresses(held) + Addresses(cached) - {0}
    }
  }

  const START := Desk([], [], 0, Totals(0, 0, 0), 0, 0)

  /** Whether the call goes through isl_blk_alloc. */
  predicate Asks(d: Desk, c: Call) {
    c.Allocate? || (c.Enlarge? && c.slot < |d.held| && d.held[c.slot] == EMPTY)
  }

  /** best is a block that the search may end at, if there is a search. */
  predicate MayChoose(d: Desk, c: Call, best: nat) {
    Asks(d, c) ==> Searched(d.cached, c.n, best)
  }

  predicate Misses(d: Desk, n: nat, best: nat)
    requires Searched(d.cached, n, best)
  {
    n > 0 && d.cached != [] && d.cached[best].size >= 2 * n + 100
  }

  /** isl_blk_alloc: the new block, and everything else. */
  function Allocated(d: Desk, n: nat, where: nat, best: nat): (Blk, Desk)
    requires Searched(d.cached, n, best)
  {
    var found, gone := Found(d.cached, n, best), Evicted(d.cached, d.miss, n, best);
    var taken, after := d.Taken() - {gone.data}, AfterSearch(d.cached, d.miss, n, best);
    (Extended(found, n, where, taken),
     d.(cached := after.0, miss := after.1,
        totals := ExtendedTotals(d.totals.Plus(0, gone.size, 0), found, n, where, taken),
        misses := d.misses + if Misses(d, n, best) then 1 else 0,
        evictions := d.evictions + if gone != EMPTY then 1 else 0))
  }

  function Given(d: Desk, k: nat): Desk
    requires k < |d.held|
  {
    var b, d' := d.held[k], d.(held := d.held[k := EMPTY]);
    if b == EMPTY || b == ERROR then d'
    else if |d.cached| < BLK_CACHE_SIZE then d'.(cached := d.cached + [b])
    else d'.(totals := d.totals.Plus(0, b.size, 0))
  }

  /** After the call. */
  function Stepped(d: Desk, c: Call, best: nat): Desk
    requires MayChoose(d, c, best)
  {
    match c
    case Allocate(n, where) =>
      var (r, d') := Allocated(d, n, where, best);
      d'.(held := d.held + [r])
    case Enlarge(k, n, where) =>
      if k >= |d.held| then d
      else if d.held[k] == EMPTY then
        var (r, d') := Allocated(d, n, where, best);
        d'.(held := d.held[k := r])
      else
        d.(held := d.held[k := Extended(d.held[k], n, where, d.Taken())],
           totals := ExtendedTotals(d.totals, d.held[k], n, where, d.Taken()))
    case Release(k) => if k < |d.held| then Given(d, k) else d
    case Clear => d.(cached := [], totals := d.totals.Plus(0, Sizes(d.cached), 0))
  }

  /** The call has no block to give. */
  predicate Fails(d: Desk, c: Call, best: nat)
    requires MayChoose(d, c, best)
  {
    var d' := Stepped(d, c, best);
    match c
    case Allocate(_, _) => d'.held[|d.held|] == ERROR
    case Enlarge(k, _, _) => k < |d.held| && d'.held[k] == ERROR
    case Release(_) => false
    case Clear => false
  }

  // ----- What one call does -------------------------------------------------------------------------------

  lemma {:induction false} RemovedSizes(s: seq<Blk>, k: nat)
    requires k < |s|
    ensures Sizes(Removed(s, k)) == Sizes(s) - s[k].size && Sizes(s) >= s[k].size
  {
    var last := |s| - 1;
    SizesSplit(s, last);
    assert s[last..] == [s[last]];
    assert Sizes(s[last..]) == s[last].size + Sizes([]);
    if k < last {
      SizesPut(s[..last], k, s[last]);
    }
  }

  lemma {:induction false} SizesSplit(s: seq<Blk>, k: nat)
    requires k <= |s|
    ensures Sizes(s) == Sizes(s[..k]) + Sizes(s[k..])
  {
    if k == 0 {
      assert s[0..] == s;
    } else {
      SizesSplit(s[1..], k - 1);
      assert s[1..][..k - 1] == s[..k][1..] && s[1..][k - 1..] == s[k..];
    }
  }

  lemma {:induction false} SizesPut(s: seq<Blk>, k: nat, b: Blk)
    requires k < |s|
    ensures Sizes(s[k := b]) + s[k].size == Sizes(s) + b.size
  {
    if k > 0 {
      SizesPut(s[1..], k - 1, b);
      assert s[k := b][1..] == s[1..][k - 1 := b];
    } else {
      assert s[0 := b][1..] == s[1..];
    }
  }

  /** An error block has no elements. */
  function SizeOf(b: Blk): nat {
    if b == ERROR then 0 else b.size
  }

  /** The elements in the client's hands. */
  function HeldSizes(held: seq<Blk>): nat {
    if held == [] then 0 else SizeOf(held[0]) + HeldSizes(held[1..])
  }

  lemma {:induction false} HeldSizesPut(held: seq<Blk>, k: nat, b: Blk)
    requires k < |held|
    ensures HeldSizes(held[k := b]) + SizeOf(held[k]) == HeldSizes(held) + SizeOf(b)
  {
    if k > 0 {
      HeldSizesPut(held[1..], k - 1, b);
      assert held[k := b][1..] == held[1..][k - 1 := b];
    } else {
      assert held[0 := b][1..] == held[1..];
    }
  }

  lemma {:induction false} HeldSizesMore(held: seq<Blk>, b: Blk)
    ensures HeldSizes(held + [b]) == HeldSizes(held) + SizeOf(b)
  {
    if held == [] {
      assert [] + [b] == [b] && [b][1..] == [];
    } else {
      HeldSizesMore(held[1..], b);
      assert (held + [b])[1..] == held[1..] + [b];
    }
  }

  lemma {:induction false} SizesMore(s: seq<Blk>, b: Blk)
    ensures Sizes(s + [b]) == Sizes(s) + b.size
  {
    SizesSplit(s + [b], |s|);
    assert (s + [b])[..|s|] == s && (s + [b])[|s|..] == [b];
    assert Sizes([b]) == b.size + Sizes([]);
  }

  /** The promise of each call: allocation adds a slot that is empty, an error, or has n to 2n + 99
      elements; enlarging changes its slot only, to one of at least n elements or an error; releasing
      empties its slot; clearing empties the cache. */
  lemma CallEffect(d: Desk, c: Call, best: nat)
    requires MayChoose(d, c, best)
    ensures var d' := Stepped(d, c, best);
            match c
            case Allocate(n, _) =>
              && |d'.held| == |d.held| + 1 && d'.held[..|d.held|] == d.held
              && var b := d'.held[|d.held|];
                 if n == 0 then b == EMPTY else b == ERROR || n <= b.size < 2 * n + 100
            case Enlarge(k, n, _) =>
              && |d'.held| == |d.held|
              && (forall j :: 0 <= j < |d.held| && j != k ==> d'.held[j] == d.held[j])
              && (k < |d.held| ==> d'.held[k] == ERROR || d'.held[k].size >= n)
            case Release(k) =>
              && |d'.held| == |d.held| && d'.totals.inits == d.totals.inits && d'.totals.lost == d.totals.lost
              && (forall j :: 0 <= j < |d.held| && j != k ==> d'.held[j] == d.held[j])
              && (k < |d.held| ==> d'.held[k] == EMPTY)
            case Clear =>
              d'.held == d.held && d'.cached == [] && d'.totals == d.totals.Plus(0, Sizes(d.cached), 0)
  {
  }

  /** The elements that are lost when the call fails: those of the block to be enlarged, which for an
      allocation is the one found in the cache. */
  function Loss(d: Desk, c: Call, best: nat): nat
    requires MayChoose(d, c, best)
  {
    if !Fails(d, c, best) then 0
    else if Asks(d, c) then Found(d.cached, c.n, best).size
    else SizeOf(d.held[c.slot])
  }

  lemma LossOfCall(d: Desk, c: Call, best: nat)
    requires MayChoose(d, c, best) && Sensible(c) && forall k :: 0 <= k < |d.cached| ==> d.cached[k] != ERROR
    ensures Stepped(d, c, best).totals.lost == d.totals.lost + Loss(d, c, best)
  {
  }

  // ----- What the cache is for ----------------------------------------------------------------------------

  /** Where a call that asks for a block puts it. */
  function SlotOf(d: Desk, c: Call): nat
    requires Asks(d, c)
  {
    if c.Allocate? then |d.held| else c.slot
  }

  /** The memory at `where` is not in use. */
  predicate Offered(d: Desk, where: nat) {
    where != 0 && where !in d.Taken()
  }

  predicate Fits(b: Blk, n: nat) {
    n <= b.size < 2 * n + 100
  }

  /** Block k of the cache, and nothing else, has left it. */
  predicate Leaves(d: Desk, d': Desk, k: nat) {
    k < |d.cached| && multiset(d'.cached) == multiset(d.cached) - multiset{d.cached[k]}
  }

  lemma AskedFor(d: Desk, c: Call, best: nat)
    requires Asks(d, c) && MayChoose(d, c, best)
    ensures var d', k, (r, t) := Stepped(d, c, best), SlotOf(d, c), Allocated(d, c.n, c.where, best);
            && k < |d'.held| && d'.held[k] == r && d' == t.(held := d'.held)
            && forall j :: 0 <= j < |d.held| && j != k ==> d'.held[j] == d.held[j]
  {
    hide Allocated;
  }

  /** If a cached block is large enough, but not much larger than needed, a smallest such block is handed
      back, exactly that one leaves the cache, and nothing is initialised, cleared or lost. */
  lemma ReusesSmallestFit(d: Desk, c: Call, best: nat) returns (k: nat)
    requires Asks(d, c) && MayChoose(d, c, best) && c.n > 0
    requires exists j :: 0 <= j < |d.cached| && Fits(d.cached[j], c.n)
    ensures var d' := Stepped(d, c, best);
            && Leaves(d, d', k) && SlotOf(d, c) < |d'.held| && d'.held[SlotOf(d, c)] == d.cached[k]
            && Fits(d.cached[k], c.n)
            && (forall j :: 0 <= j < |d.cached| && d.cached[j].size >= c.n ==> d.cached[k].size <= d.cached[j].size)
            && d'.totals == d.totals
            && d'.miss == if k == 0 then 0 else d.miss
  {
    AskedFor(d, c, best);
    RemovedRest(d.cached, best);
    k := best;
  }

  /** If all cached blocks are smaller than needed, a largest one leaves the cache and is enlarged, so only
      what it lacks is initialised; without memory it is lost. */
  lemma EnlargesLargest(d: Desk, c: Call, best: nat) returns (k: nat)
    requires Asks(d, c) && MayChoose(d, c, best) && d.cached != []
    requires forall j :: 0 <= j < |d.cached| ==> d.cached[j].size < c.n
    ensures var d' := Stepped(d, c, best);
            && Leaves(d, d', k) && SlotOf(d, c) < |d'.held|
            && (forall j :: 0 <= j < |d.cached| ==> d.cached[j].size <= d.cached[k].size)
            && (if Offered(d, c.where) || (c.where != 0 && c.where == d.cached[k].data) then
                  && d'.held[SlotOf(d, c)] == Blk(c.n, c.where)
                  && d'.totals == d.totals.Plus(c.n - d.cached[k].size, 0, 0)
                else
                  d'.held[SlotOf(d, c)] == ERROR && d'.totals == d.totals.Plus(0, 0, d.cached[k].size))
            && d'.miss == if k == 0 then 0 else d.miss
  {
    hide Addresses;
    assert d.cached[0].size < c.n;
    AskedFor(d, c, best);
    RemovedRest(d.cached, best);
    k := best;
    assert d.Taken() - {0} == d.Taken();
  }

  lemma BestIsEnough(s: seq<Blk>, n: nat, best: nat)
    requires BestFit(s, n, best) && exists j :: 0 <= j < |s| && s[j].size >= n
    ensures best < |s| && s[best].size >= n
  {
  }

  /** If every block that is large enough is much too large, the miss is counted; after too many of them
      the first cached block is cleared instead. The new block is a new array in either case. */
  lemma CountsMiss(d: Desk, c: Call, best: nat)
    requires Asks(d, c) && MayChoose(d, c, best) && c.n > 0
    requires exists j :: 0 <= j < |d.cached| && d.cached[j].size >= c.n
    requires forall j :: 0 <= j < |d.cached| ==> !Fits(d.cached[j], c.n)
    ensures var d', first := Stepped(d, c, best), d.cached[0];
            var cleared := if d.miss < BLK_MAX_MISS then 0 else first.size;
            var offered := Offered(d, c.where) || (c.where != 0 && d.miss >= BLK_MAX_MISS && c.where == first.data);
            && (if d.miss < BLK_MAX_MISS then d'.cached == d.cached && d'.miss == d.miss + 1
                else Leaves(d, d', 0) && d'.miss == 0)
            && SlotOf(d, c) < |d'.held|
            && d'.held[SlotOf(d, c)] == (if offered then Blk(c.n, c.where) else ERROR)
            && d'.totals == d.totals.Plus(if offered then c.n else 0, cleared, 0)
  {
    hide Addresses, BestFit, Removed;
    AskedFor(d, c, best);
    RemovedRest(d.cached, 0);
    BestIsEnough(d.cached, c.n, best);
    assert d.Taken() - {0} == d.Taken();
    assert !Fits(d.cached[best], c.n);
  }

  /** Without cached blocks the new block is a new array, if there is memory. */
  lemma NothingCached(d: Desk, c: Call, best: nat)
    requires Asks(d, c) && MayChoose(d, c, best) && c.n > 0 && d.cached == []
    ensures var d' := Stepped(d, c, best);
            && SlotOf(d, c) < |d'.held| && d'.cached == [] && d'.miss == d.miss
            && d'.held[SlotOf(d, c)] == (if Offered(d, c.where) then Blk(c.n, c.where) else ERROR)
            && d'.totals == d.totals.Plus(if Offered(d, c.where) then c.n else 0, 0, 0)
  {
    AskedFor(d, c, best);
  }

  /** Enlarging a block that is there keeps it if it is large enough, and leaves the cache alone. */
  lemma EnlargesInPlace(d: Desk, k: nat, n: nat, where: nat, best: nat)
    requires k < |d.held| && d.held[k] != EMPTY
    ensures var d', b := Stepped(d, Enlarge(k, n, where), best), d.held[k];
            && |d'.held| == |d.held| && d'.cached == d.cached && d'.miss == d.miss
            && if b.size >= n then d' == d
               else if where != 0 && (where == b.data || where !in d.Taken()) then
                 d'.held[k] == Blk(n, where) && d'.totals == d.totals.Plus(n - b.size, 0, 0)
               else
                 d'.held[k] == ERROR && d'.totals == d.totals.Plus(0, 0, b.size)
  {
  }

  /** A released block is kept while there is room in the cache, and cleared otherwise. */
  lemma ReleaseKeeps(d: Desk, k: nat, best: nat)
    requires k < |d.held|
    ensures var d', b := Stepped(d, Release(k), best), d.held[k];
            && d'.held == d.held[k := EMPTY] && d'.miss == d.miss
            && if b == EMPTY || b == ERROR then d'.cached == d.cached && d'.totals == d.totals
               else if |d.cached| < 20 then d'.cached == d.cached + [b] && d'.totals == d.totals
               else d'.cached == d.cached && d'.totals == d.totals.Plus(0, b.size, 0)
  {
  }

  // ----- Sessions -------------------------------------------------------------------------------------------

  ghost predicate IsSession(calls: seq<Call>, choices: seq<nat>, desks: seq<Desk>) {
    && |choices| == |calls| && |desks| == |calls| + 1 && desks[0] == START
    && forall k :: 0 <= k < |calls| ==>
         MayChoose(desks[k], calls[k], choices[k]) && desks[k + 1] == Stepped(desks[k], calls[k], choices[k])
  }

  lemma SessionGoesOn(calls: seq<Call>, choices: seq<nat>, desks: seq<Desk>, c: Call, best: nat)
    requires IsSession(calls, choices, desks) && MayChoose(desks[|calls|], c, best)
    ensures IsSession(calls + [c], choices + [best], desks + [Stepped(desks[|calls|], c, best)])
  {
    hide MayChoose, Stepped;
  }

  /** Cached blocks are not error blocks, and the books balance: whatever was initialised was cleared, or
      lost, or is in a block of the cache or of the client. Blocks are evicted only after 100 misses that
      led to no eviction. */
  ghost predicate InOrder(d: Desk) {
    && (forall k :: 0 <= k < |d.cached| ==> d.cached[k] != ERROR)
    && d.totals.inits == d.totals.clears + d.totals.lost + Sizes(d.cached) + HeldSizes(d.held)
    && d.miss <= BLK_MAX_MISS
    && 101 * d.evictions + d.miss <= d.misses
  }

  lemma AllocatedInOrder(d: Desk, n: nat, where: nat, best: nat)
    requires InOrder(d) && n <= INT_MAX && Searched(d.cached, n, best)
    ensures var (r, d') := Allocated(d, n, where, best);
            && (forall k :: 0 <= k < |d'.cached| ==> d'.cached[k] != ERROR)
            && d'.totals.inits == d'.totals.clears + d'.totals.lost + Sizes(d'.cached) + HeldSizes(d.held) + SizeOf(r)
            && d'.miss <= BLK_MAX_MISS && 101 * d'.evictions + d'.miss <= d'.misses
            && d'.held == d.held
  {
    hide Sizes, HeldSizes;
    if n > 0 && d.cached != [] {
      RemovedSizes(d.cached, best);
      RemovedSizes(d.cached, 0);
    }
  }

  lemma StepInOrder(d: Desk, c: Call, best: nat)
    requires InOrder(d) && Sensible(c) && MayChoose(d, c, best)
    ensures InOrder(Stepped(d, c, best))
  {
    hide Allocated, HeldSizes;
    match c
    case Allocate(n, where) =>
      AllocatedInOrder(d, n, where, best);
      HeldSizesMore(d.held, Allocated(d, n, where, best).0);
    case Enlarge(k, n, where) =>
      if k < |d.held| {
        if d.held[k] == EMPTY {
          AllocatedInOrder(d, n, where, best);
          HeldSizesPut(d.held, k, Allocated(d, n, where, best).0);
        } else {
          HeldSizesPut(d.held, k, Extended(d.held[k], n, where, d.Taken()));
        }
      }
    case Release(k) =>
      if k < |d.held| {
        HeldSizesPut(d.held, k, EMPTY);
        SizesMore(d.cached, d.held[k]);
      }
    case Clear =>
  }

  /** After every call of every session the books balance, and at most one block was evicted per 101
      misses. */
  lemma {:induction false} SessionInOrder(calls: seq<Call>, choices: seq<nat>, desks: seq<Desk>, k: nat)
    requires IsSession(calls, choices, desks) && k <= |calls|
    requires forall j :: 0 <= j < |calls| ==> Sensible(calls[j])
    ensures InOrder(desks[k])
  {
    hide Stepped, MayChoose;
    if k > 0 {
      SessionInOrder(calls, choices, desks, k - 1);
      StepInOrder(desks[k - 1], calls[k - 1], choices[k - 1]);
    }
  }

  /** The calls among the first k that failed. */
  ghost function Failures(calls: seq<Call>, choices: seq<nat>, desks: seq<Desk>, k: nat): nat
    requires IsSession(calls, choices, desks) && k <= |calls|
  {
    if k == 0 then 0
    else Failures(calls, choices, desks, k - 1) + if Fails(desks[k - 1], calls[k - 1], choices[k - 1]) then 1 else 0
  }

  ghost function Losses(calls: seq<Call>, choices: seq<nat>, desks: seq<Desk>, k: nat): nat
    requires IsSession(calls, choices, desks) && k <= |calls|
  {
    if k == 0 then 0
    else Losses(calls, choices, desks, k - 1) + Loss(desks[k - 1], calls[k - 1], choices[k - 1])
  }

  /** What is lost is what the failed calls lost; without failures it is nothing. */
  lemma {:induction false} LostInFailures(calls: seq<Call>, choices: seq<nat>, desks: seq<Desk>, k: nat)
    requires IsSession(calls, choices, desks) && k <= |calls|
    requires forall j :: 0 <= j < |calls| ==> Sensible(calls[j])
    ensures desks[k].totals.lost == Losses(calls, choices, desks, k)
    ensures Failures(calls, choices, desks, k) == 0 ==> desks[k].totals.lost == 0
  {
    hide Stepped, Fails, MayChoose, Asks, Found;
    if k > 0 {
      LostInFailures(calls, choices, desks, k - 1);
      SessionInOrder(calls, choices, desks, k - 1);
      LossOfCall(desks[k - 1], calls[k - 1], choices[k - 1]);
    }
  }

  lemma {:induction false} FailuresGoOn(calls: seq<Call>, choices: seq<nat>, desks: seq<Desk>, c: Call, best: nat, k: nat)
    requires IsSession(calls, choices, desks) && MayChoose(desks[|calls|], c, best) && k <= |calls|
    ensures var desks' := desks + [Stepped(desks[|calls|], c, best)];
            && IsSession(calls + [c], choices + [best], desks')
            && Failures(calls + [c], choices + [best], desks', k) == Failures(calls, choices, desks, k)
  {
    hide Stepped, Fails, MayChoose;
    SessionGoesOn(calls, choices, desks, c, best);
    if k > 0 {
      FailuresGoOn(calls, choices, desks, c, best, k - 1);
    }
  }
}
