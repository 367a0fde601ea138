/** isl's allocator of coefficient blocks, with its cache of freed blocks. */
module BlkCache {
  import opened BlkMemory

  const BLK_CACHE_SIZE: nat := 20
  const BLK_MAX_MISS: nat := 100
  const SIZE_MAX: nat := 0xFFFF_FFFF_FFFF_FFFF

  /** The loops over a block count with an int. */
  const INT_MAX: nat := 0x7FFF_FFFF

  datatype Blk = Blk(size: nat, data: nat)

  /** `isl_blk_empty` */
  const EMPTY := Blk(0, 0)

  /** `isl_blk_error`: its size is (size_t) -1. */
  const ERROR := Blk(SIZE_MAX, 0)

  // ----- The choice of a cached block --------------------------------------------------------------------

  /** s[k] is a smallest block of at least n elements, or a largest one if there is none. */
  predicate BestFit(s: seq<Blk>, n: nat, k: nat) {
    && k < |s|
    && forall j :: 0 <= j < |s| ==>
         if s[k].size >= n then s[j].size >= n ==> s[k].size <= s[j].size
         else s[j].size <= s[k].size
  }

  /** Whatever the order of the cache, the search ends at a block of the same size. */
  lemma {:induction false} OrderDoesNotMatter(s: seq<Blk>, s': seq<Blk>, n: nat, k: nat, k': nat)
    requires multiset(s) == multiset(s') && BestFit(s, n, k) && BestFit(s', n, k')
    ensures s[k].size == s'[k'].size
  {
    assert s[k] in multiset(s') && s'[k'] in multiset(s);
    var j :| 0 <= j < |s'| && s'[j] == s[k];
    var j' :| 0 <= j' < |s| && s[j'] == s'[k'];
  }

  /** Slot k is filled with the last block. */
  function Removed(s: seq<Blk>, k: nat): (r: seq<Blk>)
    requires k < |s|
    ensures |r| == |s| - 1
  {
    if k == |s| - 1 then s[..|s| - 1] else s[..|s| - 1][k := s[|s| - 1]]
  }

  /** Nothing but s[k] leaves the cache. */
  lemma RemovedRest(s: seq<Blk>, k: nat)
    requires k < |s|
    ensures multiset(Removed(s, k)) == multiset(s) - multiset{s[k]}
  {
    var last := |s| - 1;
    assert s == s[..last] + [s[last]];
    if k < last {
      var init := s[..last];
      assert init == init[..k] + [s[k]] + init[k + 1..];
      assert Removed(s, k) == init[..k] + [s[last]] + init[k + 1..];
    }
  }

  /** No two blocks share an array. */
  predicate Apart(s: seq<Blk>) {
    forall i, j :: 0 <= i < j < |s| ==> s[i].data != s[j].data
  }

  function Addresses(s: seq<Blk>): set<nat> {
    set k | 0 <= k < |s| :: s[k].data
  }

  lemma RemovedApart(s: seq<Blk>, k: nat)
    requires k < |s| && Apart(s)
    ensures Apart(Removed(s, k)) && Addresses(Removed(s, k)) == Addresses(s) - {s[k].data}
  {
    var r := Removed(s, k);
    forall p | p in Addresses(s) - {s[k].data} ensures p in Addresses(r) {
      var j :| 0 <= j < |s| && s[j].data == p;
      assert r[if j == |s| - 1 then k else j].data == p;
    }
  }

  /** The search of lines 80-102 is made at all, and ends at best. */
  predicate Searched(s: seq<Blk>, n: nat, best: nat) {
    n > 0 && s != [] ==> BestFit(s, n, best)
  }

  /** The block that the search takes from the cache: it is large enough, or not much too small, or there
      is none. */
  function Found(s: seq<Blk>, n: nat, best: nat): Blk
    requires Searched(s, n, best)
  {
    if n > 0 && s != [] && s[best].size < 2 * n + 100 then s[best] else EMPTY
  }

  /** The block that goes for good after too many misses. */
  function Evicted(s: seq<Blk>, miss: nat, n: nat, best: nat): Blk
    requires Searched(s, n, best)
  {
    if n > 0 && s != [] && s[best].size >= 2 * n + 100 && miss >= BLK_MAX_MISS then s[0] else EMPTY
  }

  /** What the cache and the miss counter become. */
  function AfterSearch(s: seq<Blk>, miss: nat, n: nat, best: nat): (r: (seq<Blk>, nat))
    requires Searched(s, n, best)
    ensures miss <= BLK_MAX_MISS ==> r.1 <= BLK_MAX_MISS
  {
    if n == 0 || s == [] then (s, miss)
    else if s[best].size < 2 * n + 100 then (Removed(s, best), if best == 0 then 0 else miss)
    else if miss >= BLK_MAX_MISS then (Removed(s, 0), 0)
    else (s, miss + 1)
  }

  /** `extend`, when the arrays at `taken` exist and the system offers `where`. */
  function Extended(b: Blk, n: nat, where: nat, taken: set<nat>): Blk {
    if b.size >= n then b
    else if where != 0 && (where == b.data || where !in taken) then Blk(n, where)
    else ERROR
  }

  /** It initialises what is new, or loses what there was. */
  function ExtendedTotals(t: Totals, b: Blk, n: nat, where: nat, taken: set<nat>): Totals {
    if b.size >= n then t
    else if Extended(b, n, where, taken) == ERROR then t.Plus(0, 0, b.size)
    else t.Plus(n - b.size, 0, 0)
  }

  /** The elements of the blocks together. */
  function Sizes(s: seq<Blk>): nat {
    if s == [] then 0 else s[0].size + Sizes(s[1..])
  }

  lemma {:induction false} SizesFirst(s: seq<Blk>)
    ensures s != [] ==> Sizes(s) == s[0].size + Sizes(s[1..])
    ensures s == [] ==> Sizes(s) == 0
  {
  }

  // ----- Who owns which array ----------------------------------------------------------------------------

  /** b is a block of its full size with every element initialised. */
  predicate Whole(m: Arrays, b: Blk) {
    b.data in m && m[b.data] == Ready(b.size) && 0 < b.size <= INT_MAX
  }

  predicate WholeArray(m: Arrays, p: nat) {
    p in m && Whole(m, Blk(|m[p]|, p))
  }

  /** Every array belongs to one cached block or to one block in the hands of a caller, and all its
      elements are initialised. */
  ghost predicate Owned(m: Arrays, cached: seq<Blk>, live: set<nat>) {
    && Apart(cached)
    && (forall k :: 0 <= k < |cached| ==> Whole(m, cached[k]))
    && (forall p :: p in live ==> WholeArray(m, p))
    && Addresses(cached) !! live
    && m.Keys == Addresses(cached) + live
  }

  /** Live arrays p is replaced by a larger one at q, or dropped. */
  lemma {:induction false} OwnedRegrown(m: Arrays, cached: seq<Blk>, live: set<nat>, p: nat, q: nat, n: nat)
    requires Owned(m, cached, live) && (p in live || p !in m) && (q == p || q !in m) && 0 < n <= INT_MAX
    ensures Owned((m - {p})[q := Ready(n)], cached, live - {p} + {q})
  {
    var m' := (m - {p})[q := Ready(n)];
    assert forall k :: 0 <= k < |cached| ==> cached[k].data in Addresses(cached);
    assert forall k :: 0 <= k < |cached| ==> Whole(m, cached[k]) && cached[k].data != p && cached[k].data != q;
  }

  lemma {:induction false} OwnedDropped(m: Arrays, cached: seq<Blk>, live: set<nat>, p: nat)
    requires Owned(m, cached, live) && (p in live || p !in m)
    ensures Owned(m - {p}, cached, live - {p})
  {
    assert forall k :: 0 <= k < |cached| ==> cached[k].data in Addresses(cached);
  }

  lemma {:induction false} LiveIsAllocated(m: Arrays, cached: seq<Blk>, live: set<nat>, p: nat)
    requires Owned(m, cached, live)
    ensures forall q :: q in live ==> q in m
  {
  }

  /** A cached block goes to a caller. */
  lemma {:induction false} OwnedTaken(m: Arrays, cached: seq<Blk>, live: set<nat>, k: nat)
    requires Owned(m, cached, live) && k < |cached|
    ensures Owned(m, Removed(cached, k), live + {cached[k].data})
    ensures cached[k].data in m && cached[k].data !in live
  {
    RemovedApart(cached, k);
    assert cached[k].data in Addresses(cached);
  }

  /** A caller's block goes to the cache. */
  lemma {:induction false} OwnedGiven(m: Arrays, cached: seq<Blk>, live: set<nat>, b: Blk)
    requires Owned(m, cached, live) && b.data in live && Whole(m, b)
    ensures Owned(m, cached + [b], live - {b.data})
  {
    var cached' := cached + [b];
    assert forall k :: 0 <= k < |cached| ==> cached[k].data in Addresses(cached);
    forall p ensures p in Addresses(cached') <==> p in Addresses(cached) || p == b.data {
      if p in Addresses(cached) {
        var k :| 0 <= k < |cached| && cached[k].data == p;
        assert cached'[k].data == p;
      }
      assert cached'[|cached|].data == b.data;
    }
  }

  lemma {:induction false} OwnedWhole(m: Arrays, cached: seq<Blk>, live: set<nat>, k: nat)
    requires Owned(m, cached, live) && k < |cached|
    ensures Whole(m, cached[k])
  {
  }

  lemma {:induction false} LiveApart(m: Arrays, cached: seq<Blk>, live: set<nat>)
    requires Owned(m, cached, live)
    ensures forall p :: p in live ==> p in m
    ensures cached != [] ==> cached[0].data !in live
  {
    assert cached != [] ==> cached[0].data in Addresses(cached);
  }

  lemma {:induction false} InAndOut(live: set<nat>, p: nat, q: nat)
    requires p !in live
    ensures live - {p} == live + {p} - {p} == live
  {
  }

  lemma {:induction false} AddressesFirst(cached: seq<Blk>)
    requires cached != [] && Apart(cached)
    ensures Apart(cached[1..]) && cached[0].data !in Addresses(cached[1..])
    ensures Addresses(cached) == {cached[0].data} + Addresses(cached[1..])
  {
    var p, rest := cached[0].data, cached[1..];
    forall q ensures q in Addresses(cached) <==> q == p || q in Addresses(rest) {
      if q in Addresses(cached) && q != p {
        var k :| 0 <= k < |cached| && cached[k].data == q;
        assert rest[k - 1].data == q;
      }
      if q in Addresses(rest) {
        var k :| 0 <= k < |rest| && rest[k].data == q;
        assert cached[k + 1].data == q;
      }
    }
  }

  lemma {:induction false} OwnedFirst(m: Arrays, cached: seq<Blk>, live: set<nat>)
    requires Owned(m, cached, live) && cached != []
    ensures Whole(m, cached[0]) && cached[0].data !in live && Owned(m - {cached[0].data}, cached[1..], live)
  {
    var p, rest := cached[0].data, cached[1..];
    AddressesFirst(cached);
    forall k | 0 <= k < |rest| ensures Whole(m - {p}, rest[k]) {
      assert rest[k] == cached[k + 1] && rest[k].data in Addresses(rest);
    }
  }

  lemma {:induction false} NoneCached(m: Arrays, live: set<nat>)
    requires Owned(m, [], live)
    ensures m.Keys == live
  {
  }

  // ----- The context ---------------------------------------------------------------------------------------

  class Ctx {
    const mem: Memory
    const cache: array<Blk>
    var nCached: nat
    var nMiss: nat
    ghost var live: set<nat>       // the arrays of blocks in the hands of callers

    ghost function Cached(): seq<Blk>
      reads this, cache
      requires nCached <= cache.Length
    {
      cache[..nCached]
    }

    ghost predicate Live(b: Blk)
      reads this, mem
    {
      b.data in live && Whole(mem.arrays, b)
    }

    /** What callers may hold: the empty block, the error block, or a block of their own. */
    ghost predicate Held(b: Blk)
      reads this, mem
    {
      b == EMPTY || b == ERROR || Live(b)
    }

    ghost predicate Valid()
      reads this, mem, cache
    {
      && mem.Valid()
      && cache.Length == BLK_CACHE_SIZE && nCached <= BLK_CACHE_SIZE && nMiss <= BLK_MAX_MISS
      && Owned(mem.arrays, Cached(), live)
    }

    constructor (memory: Memory)
      requires memory.Valid() && memory.arrays == map[]
      ensures Valid() && fresh(cache) && mem == memory && Cached() == [] && nMiss == 0 && live == {}
    {
      mem, cache := memory, new Blk[BLK_CACHE_SIZE](_ => EMPTY);
      nCached, nMiss := 0, 0;
      live := {};
    }

    /** The search of lines 81-89, which stops early at an exact fit. */
    method FindBest(n: nat) returns (best: nat)
      requires 0 < nCached <= cache.Length
      ensures BestFit(cache[..nCached], n, best)
    {
      best := 0;
      var i := 1;
      while cache[best].size != n && i < nCached
        invariant best < i <= nCached
        invariant BestFit(cache[..i], n, best)
        decreases nCached - i
      {
        assert cache[..i + 1] == cache[..i] + [cache[i]];
        if cache[best].size < n {
          if cache[i].size > cache[best].size {
            best := i;
          }
        } else if cache[i].size >= n && cache[i].size < cache[best].size {
          best := i;
        }
        i := i + 1;
      }
    }

    /** `isl_blk_free_force` */
    method FreeForce(block: Blk)
      requires mem.Valid() && Whole(mem.arrays, block)
      modifies mem
      ensures mem.Valid() && mem.arrays == old(mem.arrays) - {block.data}
      ensures mem.totals == old(mem.totals).Plus(0, block.size, 0) && old(mem.log) <= mem.log
    {
      var i := 0;
      while i < block.size
        invariant 0 <= i <= block.size && mem.Valid()
        invariant mem.arrays == old(mem.arrays)[block.data := Span(i, block.size, block.size)]
        invariant mem.totals == old(mem.totals).Plus(0, i, 0) && old(mem.log) <= mem.log
      {
        mem.Clear(block.data, i);
        assert Span(i, block.size, block.size)[i := false] == Span(i + 1, block.size, block.size);
        i := i + 1;
      }
      CountSpan(i, i, i);
      mem.Free(block.data);
    }

    /** The loop of lines 58-59. */
    method InitRest(data: nat, from: nat, n: nat)
      requires mem.Valid() && from <= n && data in mem.arrays && mem.arrays[data] == Span(0, from, n)
      modifies mem
      ensures mem.Valid() && mem.arrays == old(mem.arrays)[data := Ready(n)]
      ensures mem.totals == old(mem.totals).Plus(n - from, 0, 0) && old(mem.log) <= mem.log
    {
      var i := from;
      while i < n
        invariant from <= i <= n && mem.Valid()
        invariant mem.arrays == old(mem.arrays)[data := Span(0, i, n)]
        invariant mem.totals == old(mem.totals).Plus(i - from, 0, 0) && old(mem.log) <= mem.log
      {
        mem.Init(data, i);
        assert Span(0, i, n)[i := true] == Span(0, i + 1, n);
        i := i + 1;
      }
    }

    /** Lines 48-62 of `extend`, on the heap: the block keeps its elements and gains fresh ones; if
        there is no memory the old array is freed and what it held is lost. */
    method Regrow(block: Blk, newN: nat, where: nat) returns (r: Blk)
      requires mem.Valid() && (block == EMPTY || Whole(mem.arrays, block)) && block.size < newN
      modifies mem
      ensures mem.Valid()
      ensures r == if old(mem.Grants(block.data, where)) then Blk(newN, where) else ERROR
      ensures r != ERROR ==> mem.arrays == (old(mem.arrays) - {block.data})[where := Ready(newN)]
      ensures r == ERROR ==> mem.arrays == old(mem.arrays) - {block.data}
      ensures mem.totals == if r == ERROR then old(mem.totals).Plus(0, 0, block.size)
                            else old(mem.totals).Plus(newN - block.size, 0, 0)
      ensures old(mem.log) <= mem.log
    {
      var data := mem.Realloc(block.data, newN, where);
      if data == 0 {
        CountSpan(0, block.size, block.size);
        mem.Free(block.data);
        return ERROR;
      }
      assert mem.arrays[data] == Span(0, block.size, newN);
      InitRest(data, block.size, newN);
      r := Blk(newN, data);
    }

    /** `extend`, on a block in the hands of a caller. */
    method Extend(block: Blk, newN: nat, where: nat) returns (r: Blk)
      requires Valid() && Held(block) && newN <= INT_MAX
      modifies this`live, mem
      ensures Valid() && Held(r)
      ensures r == Extended(block, newN, where, old(mem.arrays).Keys)
      ensures mem.totals == ExtendedTotals(old(mem.totals), block, newN, where, old(mem.arrays).Keys)
      ensures old(mem.log) <= mem.log
      ensures live == if block.size >= newN then old(live) else old(live) - {block.data} + if r == ERROR then {} else {where}
      ensures forall p :: p in old(live) && p != block.data ==> p in mem.arrays && mem.arrays[p] == old(mem.arrays[p])
    {
      if block.size >= newN {
        return block;
      }
      hide Owned;
      LiveIsAllocated(mem.arrays, Cached(), live, block.data);
      OwnedDropped(mem.arrays, Cached(), live, block.data);
      if mem.Grants(block.data, where) {
        OwnedRegrown(mem.arrays, Cached(), live, block.data, where, newN);
      }
      r := Regrow(block, newN, where);
      live := if r == ERROR then live - {block.data} else live - {block.data} + {where};
    }

    /** Fills slot k with the last block. */
    method Remove(k: nat)
      requires k < nCached <= cache.Length
      modifies this`nCached, cache
      ensures nCached == old(nCached) - 1 && Cached() == Removed(old(Cached()), k)
    {
      nCached := nCached - 1;
      if nCached != k {
        cache[k] := cache[nCached];
      }
    }

    /** Lines 91-95. */
    method Take(best: nat) returns (block: Blk)
      requires Valid() && best < nCached
      modifies this`nCached, this`nMiss, this`live, cache
      ensures Valid() && block == old(Cached())[best] && Live(block)
      ensures Cached() == Removed(old(Cached()), best) && nMiss == if best == 0 then 0 else old(nMiss)
      ensures live == old(live) + {block.data} && block.data !in old(live)
    {
      hide Owned;
      ghost var s := Cached();
      OwnedTaken(mem.arrays, s, live, best);
      OwnedWhole(mem.arrays, s, live, best);
      block := cache[best];
      Remove(best);
      live := live + {block.data};
      if best == 0 {
        nMiss := 0;
      }
    }

    /** Lines 97-100. */
    method Evict()
      requires Valid() && nCached > 0
      modifies this`nCached, this`nMiss, mem, cache
      ensures Valid() && Cached() == Removed(old(Cached()), 0) && nMiss == 0
      ensures mem.totals == old(mem.totals).Plus(0, old(Cached())[0].size, 0) && old(mem.log) <= mem.log
      ensures mem.arrays == old(mem.arrays) - {old(Cached())[0].data}
    {
      hide Owned;
      ghost var s := Cached();
      var block := cache[0];
      OwnedWhole(mem.arrays, s, live, 0);
      OwnedTaken(mem.arrays, s, live, 0);
      OwnedDropped(mem.arrays, Removed(s, 0), live + {block.data}, block.data);
      assert live + {block.data} - {block.data} == live;
      FreeForce(block);
      Remove(0);
      nMiss := 0;
    }

    /** Lines 80-102: a block from the cache, or the empty one. */
    method Search(n: nat) returns (block: Blk, ghost best: nat)
      requires Valid() && 0 < n <= INT_MAX && nCached > 0
      modifies this, mem, cache
      ensures Valid() && Searched(old(Cached()), n, best)
      ensures block == Found(old(Cached()), n, best)
      ensures (Cached(), nMiss) == AfterSearch(old(Cached()), old(nMiss), n, best)
      ensures var gone := Evicted(old(Cached()), old(nMiss), n, best);
              && mem.arrays == old(mem.arrays) - {gone.data}
              && mem.totals == old(mem.totals).Plus(0, gone.size, 0)
      ensures old(mem.log) <= mem.log
      ensures if block == EMPTY then live == old(live)
              else Live(block) && live == old(live) + {block.data} && block.data !in old(live)
      ensures forall p :: p in old(live) ==> p in mem.arrays && mem.arrays[p] == old(mem.arrays[p])
    {
      block := EMPTY;
      var k := FindBest(n);
      best := k;
      LiveApart(mem.arrays, Cached(), live);
      hide Owned;
      assert mem.arrays - {0} == mem.arrays;
      if cache[k].size < 2 * n + 100 {
        block := Take(k);
      } else if nMiss >= BLK_MAX_MISS {
        Evict();
      } else {
        nMiss := nMiss + 1;
      }
    }

    /** `isl_blk_alloc`: for n > 0 a fresh block of at least n and fewer than 2 * n + 100 elements. */
    method Alloc(n: nat, where: nat) returns (r: Blk, ghost best: nat)
      requires Valid() && n <= INT_MAX
      modifies this, mem, cache
      ensures Valid() && Held(r) && Searched(old(Cached()), n, best)
      ensures (Cached(), nMiss) == AfterSearch(old(Cached()), old(nMiss), n, best)
      ensures var found, gone := Found(old(Cached()), n, best), Evicted(old(Cached()), old(nMiss), n, best);
              var taken := old(mem.arrays).Keys - {gone.data};
              && r == Extended(found, n, where, taken)
              && mem.totals == ExtendedTotals(old(mem.totals).Plus(0, gone.size, 0), found, n, where, taken)
      ensures old(mem.log) <= mem.log
      ensures n == 0 ==> r == EMPTY
      ensures n > 0 && r != ERROR ==>
                && n <= r.size < 2 * n + 100
                && live == old(live) + {r.data} && r.data !in old(live)
      ensures n == 0 || r == ERROR ==> live == old(live)
      ensures forall p :: p in old(live) ==> p in mem.arrays && mem.arrays[p] == old(mem.arrays[p])
    {
      best := 0;
      LiveApart(mem.arrays, Cached(), live);
      LiveIsAllocated(mem.arrays, Cached(), live, 0);
      assert mem.arrays.Keys - {0} == mem.arrays.Keys;
      hide Owned, BestFit, AfterSearch, Whole, Removed, Apart, Addresses;
      var block := EMPTY;
      if n > 0 && nCached > 0 {
        block, best := Search(n);
      }
      InAndOut(old(live), block.data, where);
      r := Extend(block, n, where);
    }

    /** `isl_blk_extend` */
    method ExtendBlock(block: Blk, newN: nat, where: nat) returns (r: Blk, ghost best: nat)
      requires Valid() && Held(block) && newN <= INT_MAX
      modifies this, mem, cache
      ensures Valid() && Held(r)
      ensures block == EMPTY ==>
                Searched(old(Cached()), newN, best) &&
                var found, gone := Found(old(Cached()), newN, best), Evicted(old(Cached()), old(nMiss), newN, best);
                var taken := old(mem.arrays).Keys - {gone.data};
                && (Cached(), nMiss) == AfterSearch(old(Cached()), old(nMiss), newN, best)
                && r == Extended(found, newN, where, taken)
                && mem.totals == ExtendedTotals(old(mem.totals).Plus(0, gone.size, 0), found, newN, where, taken)
      ensures block != EMPTY ==>
                && Cached() == old(Cached()) && nMiss == old(nMiss)
                && r == Extended(block, newN, where, old(mem.arrays).Keys)
                && mem.totals == ExtendedTotals(old(mem.totals), block, newN, where, old(mem.arrays).Keys)
      ensures old(mem.log) <= mem.log
      ensures live == old(live) - {block.data} + if r.data == 0 then {} else {r.data}
      ensures r.data in old(live) ==> r.data == block.data
      ensures forall p :: p in old(live) && p != block.data ==> p in mem.arrays && mem.arrays[p] == old(mem.arrays[p])
    {
      LiveIsAllocated(mem.arrays, Cached(), live, 0);
      hide Owned, AfterSearch, Whole, Removed, Apart, Addresses, BestFit;
      InAndOut(old(live), 0, 0);
      if block == EMPTY {
        r, best := Alloc(newN, where);
      } else {
        best := 0;
        r := Extend(block, newN, where);
      }
    }

    /** `isl_blk_free` */
    method Free(block: Blk)
      requires Valid() && Held(block)
      modifies this`nCached, this`live, mem, cache
      ensures Valid() && live == old(live) - {block.data} && old(mem.log) <= mem.log
      ensures if block == EMPTY || block == ERROR then
                Cached() == old(Cached()) && mem.arrays == old(mem.arrays) && mem.totals == old(mem.totals)
              else if old(nCached) < BLK_CACHE_SIZE then
                Cached() == old(Cached()) + [block] && mem.arrays == old(mem.arrays) && mem.totals == old(mem.totals)
              else
                && Cached() == old(Cached()) && mem.arrays == old(mem.arrays) - {block.data}
                && mem.totals == old(mem.totals).Plus(0, block.size, 0)
      ensures forall p :: p in old(live) && p != block.data ==> p in mem.arrays && mem.arrays[p] == old(mem.arrays[p])
    {
      LiveIsAllocated(mem.arrays, Cached(), live, 0);
      hide Owned;
      if block == EMPTY || block == ERROR {
        InAndOut(live, 0, 0);
        return;
      }
      if nCached < BLK_CACHE_SIZE {
        OwnedGiven(mem.arrays, Cached(), live, block);
        cache[nCached] := block;
        nCached := nCached + 1;
        assert Cached() == old(Cached()) + [block];
      } else {
        OwnedDropped(mem.arrays, Cached(), live, block.data);
        FreeForce(block);
      }
      live := live - {block.data};
    }

    /** `isl_blk_clear_cache`: only the blocks of callers are left. */
    method ClearCache()
      requires Valid()
      modifies this`nCached, mem
      ensures Valid() && nCached == 0 && mem.arrays.Keys == live && old(mem.log) <= mem.log
      ensures mem.totals == old(mem.totals).Plus(0, Sizes(old(Cached())), 0)
      ensures forall p :: p in live ==> p in mem.arrays && mem.arrays[p] == old(mem.arrays[p])
    {
      LiveIsAllocated(mem.arrays, Cached(), live, 0);
      hide Owned, Whole, Apart, Addresses, Sizes;
      var i := 0;
      assert cache[0..nCached] == Cached();
      while i < nCached
        invariant 0 <= i <= nCached == old(nCached) && mem.Valid() && old(mem.log) <= mem.log
        invariant mem.totals.Plus(0, Sizes(cache[i..nCached]), 0) == old(mem.totals).Plus(0, Sizes(old(Cached())), 0)
        invariant Owned(mem.arrays, cache[i..nCached], live)
        invariant forall p :: p in live ==> p in mem.arrays && mem.arrays[p] == old(mem.arrays[p])
      {
        OwnedFirst(mem.arrays, cache[i..nCached], live);
        SizesFirst(cache[i..nCached]);
        assert cache[i..nCached][1..] == cache[i + 1..nCached];
        FreeForce(cache[i]);
        i := i + 1;
      }
      nCached := 0;
      SizesFirst([]);
      NoneCached(mem.arrays, live);
      assert cache[i..i] == [] == Cached();
    }
  }
}
