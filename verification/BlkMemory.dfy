/** The C heap as isl's block allocator uses it: arrays of isl_int, each element of which must be
    initialised once before use and cleared once before the array goes away. */
module BlkMemory {

  /** Whether each element of an array is initialised. */
  type Cells = seq<bool>

  /** n elements of which those between lo and hi are initialised. */
  function Span(lo: nat, hi: nat, n: nat): (c: Cells)
    ensures |c| == n && forall k :: 0 <= k < n ==> c[k] == (lo <= k < hi)
  {
    seq(n, k => lo <= k < hi)
  }

  function Ready(n: nat): Cells {
    Span(0, n, n)
  }

  /** The initialised elements of an array. */
  function Count(c: Cells): nat {
    if c == [] then 0 else Count(c[..|c| - 1]) + if c[|c| - 1] then 1 else 0
  }

  lemma {:induction false} CountSpan(lo: nat, hi: nat, n: nat)
    requires lo <= hi <= n
    ensures Count(Span(lo, hi, n)) == hi - lo
    decreases n
  {
    if n > 0 {
      assert Span(lo, hi, n)[..n - 1] == Span(if lo == n then n - 1 else lo, if hi == n then n - 1 else hi, n - 1);
      CountSpan(if lo == n then n - 1 else lo, if hi == n then n - 1 else hi, n - 1);
    }
  }

  lemma {:induction false} CountUpdate(c: Cells, k: nat, value: bool)
    requires k < |c| && c[k] != value
    ensures Count(c[k := value]) == if value then Count(c) + 1 else Count(c) - 1
    ensures !value ==> Count(c) > 0
    decreases |c|
  {
    var c' := c[k := value];
    if k == |c| - 1 {
      assert c'[..|c| - 1] == c[..|c| - 1];
    } else {
      assert c'[..|c| - 1] == c[..|c| - 1][k := value];
      CountUpdate(c[..|c| - 1], k, value);
    }
  }

  lemma {:induction false} CountGrown(c: Cells, more: nat)
    ensures Count(c + Span(0, 0, more)) == Count(c)
    decreases more
  {
    var c' := c + Span(0, 0, more);
    if more == 0 {
      assert c' == c;
    } else {
      assert c'[..|c'| - 1] == c + Span(0, 0, more - 1);
      CountGrown(c, more - 1);
    }
  }

  type Arrays = map<nat, Cells>

  /** The initialised elements of all arrays. */
  ghost function Total(m: Arrays): nat
    decreases |m|
  {
    if m == map[] then 0
    else
      var p :| p in m;
      Count(m[p]) + Total(m - {p})
  }

  /** The total may be taken apart at any array. */
  lemma {:induction false} TotalAt(m: Arrays, p: nat)
    requires p in m
    ensures Total(m) == Count(m[p]) + Total(m - {p})
    decreases |m|
  {
    var q :| q in m && Total(m) == Count(m[q]) + Total(m - {q});
    if p != q {
      TotalAt(m - {q}, p);
      TotalAt(m - {p}, q);
      assert m - {q} - {p} == m - {p} - {q};
    }
  }

  lemma {:induction false} TotalPut(m: Arrays, p: nat, c: Cells)
    ensures Total(m[p := c]) == Total(m - {p}) + Count(c)
  {
    TotalAt(m[p := c], p);
    assert m[p := c] - {p} == m - {p};
  }

  lemma {:induction false} TotalDrop(m: Arrays, p: nat)
    ensures Total(m - {p}) == Total(m) - if p in m then Count(m[p]) else 0
  {
    if p in m {
      TotalAt(m, p);
    } else {
      assert m - {p} == m;
    }
  }

  // ----- What happens to the heap ---------------------------------------------------------------------------

  /** Placed: array p (or a new one, for p = 0) now has n elements and is at q. */
  datatype Event = Placed(p: nat, n: nat, q: nat) | Inited(p: nat, k: nat) | Cleared(p: nat, k: nat) | Freed(p: nat)

  /** What C and GMP allow: no element is initialised twice, or cleared when it is not initialised, and
      only arrays that exist are moved or freed. */
  predicate Allowed(m: Arrays, e: Event) {
    match e
    case Placed(p, n, q) =>
      && (p == 0 || p in m) && q != 0 && (q == p || q !in m)
      && (p in m ==> |m[p]| <= n)
    case Inited(p, k) => p in m && k < |m[p]| && !m[p][k]
    case Cleared(p, k) => p in m && k < |m[p]| && m[p][k]
    case Freed(p) => p in m
  }

  function Grown(m: Arrays, p: nat, n: nat): Cells {
    var was := if p in m then m[p] else [];
    was + Span(0, 0, if |was| <= n then n - |was| else 0)
  }

  function After(m: Arrays, e: Event): Arrays
    requires Allowed(m, e)
  {
    match e
    case Placed(p, n, q) => (m - {p})[q := Grown(m, p, n)]
    case Inited(p, k) => m[p := m[p][k := true]]
    case Cleared(p, k) => m[p := m[p][k := false]]
    case Freed(p) => m - {p}
  }

  datatype Heap = Broken | Heap(m: Arrays)

  /** The heap after the events, unless one of them was not allowed. */
  function Replay(log: seq<Event>): Heap {
    if log == [] then Heap(map[])
    else
      var h, e := Replay(log[..|log| - 1]), log[|log| - 1];
      if h.Heap? && Allowed(h.m, e) then Heap(After(h.m, e)) else Broken
  }

  lemma ReplaySnoc(log: seq<Event>, e: Event)
    requires Replay(log).Heap? && Allowed(Replay(log).m, e)
    ensures Replay(log + [e]) == Heap(After(Replay(log).m, e))
  {
    assert (log + [e])[..|log|] == log;
  }

  /** The initialised elements that an event throws away. */
  function LostBy(h: Heap, e: Event): nat {
    if h.Heap? && e.Freed? && e.p in h.m then Count(h.m[e.p]) else 0
  }

  datatype Totals = Totals(inits: nat, clears: nat, lost: nat)
  {
    function Plus(moreInits: nat, moreClears: nat, moreLost: nat): Totals {
      Totals(inits + moreInits, clears + moreClears, lost + moreLost)
    }
  }

  function Tally(log: seq<Event>): Totals {
    if log == [] then Totals(0, 0, 0)
    else
      var t, e := Tally(log[..|log| - 1]), log[|log| - 1];
      t.Plus(if e.Inited? then 1 else 0, if e.Cleared? then 1 else 0, LostBy(Replay(log[..|log| - 1]), e))
  }

  lemma TallySnoc(log: seq<Event>, e: Event)
    ensures Tally(log + [e]) ==
            Tally(log).Plus(if e.Inited? then 1 else 0, if e.Cleared? then 1 else 0, LostBy(Replay(log), e))
  {
    assert (log + [e])[..|log|] == log;
  }

  lemma TotalAfter(m: Arrays, e: Event)
    requires Allowed(m, e)
    ensures Total(After(m, e)) ==
            Total(m) + (if e.Inited? then 1 else 0) - (if e.Cleared? then 1 else 0) - LostBy(Heap(m), e)
  {
    match e
    case Placed(p, n, q) =>
      assert m - {p} - {q} == m - {p};
      TotalPut(m - {p}, q, Grown(m, p, n));
      TotalDrop(m, p);
      CountGrown(if p in m then m[p] else [], if p in m then n - |m[p]| else n);
    case Inited(p, k) =>
      CountUpdate(m[p], k, true);
      TotalAt(m, p);
      TotalPut(m, p, m[p][k := true]);
    case Cleared(p, k) =>
      CountUpdate(m[p], k, false);
      TotalAt(m, p);
      TotalPut(m, p, m[p][k := false]);
    case Freed(p) =>
      TotalDrop(m, p);
  }

  /** Each element ever initialised was cleared, or lost with its array, or is still there. */
  lemma {:induction false} Balance(log: seq<Event>)
    requires Replay(log).Heap?
    ensures Tally(log).inits == Tally(log).clears + Tally(log).lost + Total(Replay(log).m)
  {
    if log != [] {
      var before, e := log[..|log| - 1], log[|log| - 1];
      Balance(before);
      TotalAfter(Replay(before).m, e);
    }
  }

  // ----- The life of one element -----------------------------------------------------------------------------

  datatype Place = Gone | At(p: nat)

  /** Where an element with index k that was at `place` is after the event. */
  function Moved(place: Place, k: nat, e: Event): Place {
    if place.Gone? then Gone
    else match e
      case Placed(p, _, q) => if p == place.p then At(q) else place
      case Inited(_, _) => place
      case Cleared(p, j) => if p == place.p && j == k then Gone else place
      case Freed(p) => if p == place.p then Gone else place
  }

  /** Where the element that event number i initialised is after the first n events. */
  function PlaceOf(log: seq<Event>, i: nat, n: nat): Place
    requires i < n <= |log| && log[i].Inited?
    decreases n
  {
    if n == i + 1 then At(log[i].p) else Moved(PlaceOf(log, i, n - 1), log[i].k, log[n - 1])
  }

  lemma {:induction false} ReplayUpTo(log: seq<Event>, n: nat)
    requires Replay(log).Heap? && n <= |log|
    ensures Replay(log[..n]).Heap?
    ensures n < |log| ==> Allowed(Replay(log[..n]).m, log[n]) && Replay(log[..n + 1]) == Heap(After(Replay(log[..n]).m, log[n]))
    decreases |log| - n
  {
    if n == |log| {
      assert log[..n] == log;
    } else {
      ReplayUpTo(log, n + 1);
      assert log[..n + 1][..n] == log[..n];
    }
  }

  lemma MovedIsThere(m: Arrays, place: Place, k: nat, e: Event)
    requires Allowed(m, e) && (place.At? ==> place.p in m && k < |m[place.p]| && m[place.p][k])
    ensures var to, m' := Moved(place, k, e), After(m, e);
            to.At? ==> to.p in m' && k < |m'[to.p]| && m'[to.p][k]
  {
  }

  lemma InitedIsThere(m: Arrays, p: nat, k: nat)
    requires Allowed(m, Inited(p, k))
    ensures var m' := After(m, Inited(p, k)); p in m' && k < |m'[p]| && m'[p][k]
  {
  }

  /** As long as it is neither cleared nor lost, it is there and initialised. */
  lemma {:induction false} StillThere(log: seq<Event>, i: nat, n: nat)
    requires Replay(log).Heap? && i < n <= |log| && log[i].Inited?
    ensures var place, h := PlaceOf(log, i, n), Replay(log[..n]);
            h.Heap? && (place.At? ==> place.p in h.m && log[i].k < |h.m[place.p]| && h.m[place.p][log[i].k])
    decreases n
  {
    hide Replay, After, Moved;
    ReplayUpTo(log, n - 1);
    if n == i + 1 {
      InitedIsThere(Replay(log[..i]).m, log[i].p, log[i].k);
    } else {
      StillThere(log, i, n - 1);
      MovedIsThere(Replay(log[..n - 1]).m, PlaceOf(log, i, n - 1), log[i].k, log[n - 1]);
    }
  }

  /** Event number e ends the life of the element that event number i initialised. */
  predicate Ends(log: seq<Event>, i: nat, e: nat)
    requires i < |log| && log[i].Inited?
  {
    i < e < |log| && PlaceOf(log, i, e).At? && PlaceOf(log, i, e + 1).Gone?
  }

  lemma {:induction false} GoneForGood(log: seq<Event>, i: nat, n: nat, n': nat)
    requires i < n <= n' <= |log| && log[i].Inited? && PlaceOf(log, i, n).Gone?
    ensures PlaceOf(log, i, n').Gone?
    decreases n'
  {
    if n < n' {
      GoneForGood(log, i, n, n' - 1);
    }
  }

  lemma {:induction false} FindEnd(log: seq<Event>, i: nat, n: nat) returns (e: nat)
    requires i < n <= |log| && log[i].Inited? && PlaceOf(log, i, n).Gone?
    ensures e < n && Ends(log, i, e)
    decreases n
  {
    if PlaceOf(log, i, n - 1).Gone? {
      e := FindEnd(log, i, n - 1);
    } else {
      e := n - 1;
    }
  }

  /** When no array is left, every element that was ever initialised has come to exactly one end: it was
      cleared, or its array was freed with the element in it. */
  lemma {:induction false} EveryElementEnds(log: seq<Event>, i: nat) returns (e: nat)
    requires Replay(log) == Heap(map[]) && i < |log| && log[i].Inited?
    ensures Ends(log, i, e)
    ensures forall e': nat :: Ends(log, i, e') ==> e' == e
    ensures log[e] == Cleared(PlaceOf(log, i, e).p, log[i].k) || log[e] == Freed(PlaceOf(log, i, e).p)
  {
    StillThere(log, i, |log|);
    assert log[..|log|] == log;
    e := FindEnd(log, i, |log|);
    forall e': nat | Ends(log, i, e') ensures e' == e {
      if e < e' {
        GoneForGood(log, i, e + 1, e');
      } else if e' < e {
        GoneForGood(log, i, e' + 1, e);
      }
    }
  }

  lemma {:induction false} NoNull(log: seq<Event>)
    requires Replay(log).Heap?
    ensures 0 !in Replay(log).m
  {
    if log != [] {
      NoNull(log[..|log| - 1]);
    }
  }

  /** Two elements are never at the same place at the same time, so no event clears both. */
  lemma {:induction false} ElementsApart(log: seq<Event>, i: nat, j: nat, n: nat)
    requires Replay(log).Heap? && i < j < n <= |log| && log[i].Inited? && log[j].Inited? && log[i].k == log[j].k
    requires PlaceOf(log, i, n).At?
    ensures PlaceOf(log, i, n) != PlaceOf(log, j, n)
    decreases n
  {
    hide Replay, After;
    ReplayUpTo(log, n - 1);
    StillThere(log, i, n - 1);
    if n > j + 1 {
      if PlaceOf(log, j, n).At? {
        StillThere(log, j, n - 1);
        ElementsApart(log, i, j, n - 1);
        NoNull(log[..n - 1]);
        MovedApart(Replay(log[..n - 1]).m, PlaceOf(log, i, n - 1), PlaceOf(log, j, n - 1), log[i].k, log[n - 1]);
      }
    }
  }

  lemma MovedApart(m: Arrays, a: Place, b: Place, k: nat, e: Event)
    requires Allowed(m, e) && a != b && a.At? && b.At? && a.p in m && b.p in m && 0 !in m
    requires Moved(a, k, e).At?
    ensures Moved(a, k, e) != Moved(b, k, e)
  {
  }

  class Memory {
    var arrays: Arrays
    ghost var log: seq<Event>   // all that has happened
    ghost var totals: Totals    // and how much of it

    /** Nothing forbidden has happened, and the totals count what has. */
    ghost predicate Valid()
      reads this
    {
      0 !in arrays && Replay(log) == Heap(arrays) && Tally(log) == totals
    }

    constructor ()
      ensures Valid() && arrays == map[] && totals == Totals(0, 0, 0) && log == []
    {
      arrays, log, totals := map[], [], Totals(0, 0, 0);
    }

    /** What realloc answers when the system would put the new array at `where`: a place that is taken
        stands for a failure. */
    predicate Grants(p: nat, where: nat)
      reads this
    {
      where != 0 && (where == p || where !in arrays)
    }

    /** `realloc`, to no fewer elements than before; null stands for no array. */
    method Realloc(p: nat, n: nat, where: nat) returns (q: nat)
      requires Valid() && (p in arrays ==> |arrays[p]| <= n)
      requires p == 0 || p in arrays
      modifies this`arrays, this`log
      ensures Valid()
      ensures q == if old(Grants(p, where)) then where else 0
      ensures q == 0 ==> arrays == old(arrays) && log == old(log)
      ensures q != 0 ==>
                var was := if p in old(arrays) then old(arrays)[p] else [];
                arrays == (old(arrays) - {p})[q := was + Span(0, 0, n - |was|)] && log == old(log) + [Placed(p, n, q)]
    {
      hide Replay, Tally, Span;
      if !Grants(p, where) {
        return 0;
      }
      q := where;
      assert Grown(arrays, p, n) == (if p in arrays then arrays[p] else []) + Span(0, 0, n - if p in arrays then |arrays[p]| else 0);
      ReplaySnoc(log, Placed(p, n, q));
      TallySnoc(log, Placed(p, n, q));
      var was := if p in arrays then arrays[p] else [];
      arrays := (arrays - {p})[q := was + Span(0, 0, n - |was|)];
      log := log + [Placed(p, n, q)];
    }

    /** `isl_int_init`: only on an element that is not initialised. */
    method Init(p: nat, k: nat)
      requires Valid() && p in arrays && k < |arrays[p]| && !arrays[p][k]
      modifies this`arrays, this`totals, this`log
      ensures Valid() && log == old(log) + [Inited(p, k)]
      ensures arrays == old(arrays)[p := old(arrays)[p][k := true]] && totals == old(totals).Plus(1, 0, 0)
    {
      ReplaySnoc(log, Inited(p, k));
      TallySnoc(log, Inited(p, k));
      arrays := arrays[p := arrays[p][k := true]];
      log, totals := log + [Inited(p, k)], totals.Plus(1, 0, 0);
    }

    /** `isl_int_clear`: only on an initialised element. */
    method Clear(p: nat, k: nat)
      requires Valid() && p in arrays && k < |arrays[p]| && arrays[p][k]
      modifies this`arrays, this`totals, this`log
      ensures Valid() && log == old(log) + [Cleared(p, k)]
      ensures arrays == old(arrays)[p := old(arrays)[p][k := false]] && totals == old(totals).Plus(0, 1, 0)
    {
      ReplaySnoc(log, Cleared(p, k));
      TallySnoc(log, Cleared(p, k));
      arrays := arrays[p := arrays[p][k := false]];
      log, totals := log + [Cleared(p, k)], totals.Plus(0, 1, 0);
    }

    /** `free`: what is still initialised in the array is lost. */
    method Free(p: nat)
      requires Valid() && (p == 0 || p in arrays)
      modifies this`arrays, this`totals, this`log
      ensures Valid() && arrays == old(arrays) - {p} && log == old(log) + if p == 0 then [] else [Freed(p)]
      ensures totals == old(totals).Plus(0, 0, if p in old(arrays) then Count(old(arrays)[p]) else 0)
    {
      if p != 0 {
        ReplaySnoc(log, Freed(p));
        TallySnoc(log, Freed(p));
        log, totals := log + [Freed(p)], totals.Plus(0, 0, Count(arrays[p]));
      }
      arrays := arrays - {p};
    }
  }
}
