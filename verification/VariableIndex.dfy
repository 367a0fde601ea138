/** From a byte offset into a variable to the index of one of its elements. */
module VariableIndex {

  datatype Kind = PrimitiveInt | PrimitiveFloat | PrimitiveDouble | Pointer

  /** `VariableType`; an array has one element type, a structure its members. */
  datatype VarType =
    | Primitive(kind: Kind, byteSize: int)
    | Array(element: VarType, numElements: nat)
    | Struct(members: seq<VarType>, numElements: nat)

  /** The search goes through as many members as the structure is said to have. */
  predicate Sound(t: VarType) {
    match t
    case Primitive(_, _) => true
    case Array(element, _) => Sound(element)
    case Struct(members, n) => n <= |members| && forall k :: 0 <= k < |members| ==> Sound(members[k])
  }

  predicate Complete(t: VarType) {
    match t
    case Primitive(_, _) => true
    case Array(element, _) => Complete(element)
    case Struct(members, n) => n == |members| && forall k :: 0 <= k < |members| ==> Complete(members[k])
  }

  // ----- Flattening --------------------------------------------------------------------------------------

  /** The byte sizes of the primitive elements, in the order in which they are stored. */
  function Flatten(t: VarType): seq<int>
    requires Sound(t)
    decreases t, 0
  {
    match t
    case Primitive(_, byteSize) => [byteSize]
    case Array(element, n) => Times(Flatten(element), n)
    case Struct(members, n) => FlattenAll(members, n)
  }

  function FlattenAll(ts: seq<VarType>, n: nat): seq<int>
    requires n <= |ts| && forall k :: 0 <= k < |ts| ==> Sound(ts[k])
    decreases ts, n
  {
    if n == 0 then [] else FlattenAll(ts, n - 1) + Flatten(ts[n - 1])
  }

  function Times(sizes: seq<int>, n: nat): seq<int> {
    if n == 0 then [] else Times(sizes, n - 1) + sizes
  }

  function Sum(sizes: seq<int>): int {
    if sizes == [] then 0 else Sum(sizes[..|sizes| - 1]) + sizes[|sizes| - 1]
  }

  lemma {:induction false} SumJoin(a: seq<int>, b: seq<int>)
    ensures Sum(a + b) == Sum(a) + Sum(b)
    decreases |b|
  {
    if b == [] {
      assert a + b == a;
    } else {
      SumJoin(a, b[..|b| - 1]);
      assert (a + b)[..|a + b| - 1] == a + b[..|b| - 1];
    }
  }

  // ----- Searching a flat list -----------------------------------------------------------------------------

  /** The first k elements are the shortest prefix of d bytes. */
  predicate FirstAt(sizes: seq<int>, d: int, k: nat) {
    k <= |sizes| && Sum(sizes[..k]) == d && forall j :: 0 <= j < k ==> Sum(sizes[..j]) != d
  }

  predicate Nowhere(sizes: seq<int>, d: int) {
    forall j :: 0 <= j <= |sizes| ==> Sum(sizes[..j]) != d
  }

  lemma {:induction false} PrefixOfJoin(a: seq<int>, b: seq<int>, j: nat)
    requires j <= |a| + |b|
    ensures Sum((a + b)[..j]) == if j <= |a| then Sum(a[..j]) else Sum(a) + Sum(b[..j - |a|])
  {
    if j <= |a| {
      assert (a + b)[..j] == a[..j];
    } else {
      assert (a + b)[..j] == a + b[..j - |a|];
      SumJoin(a, b[..j - |a|]);
    }
  }

  lemma {:induction false} NowhereJoin(a: seq<int>, b: seq<int>, d: int)
    requires Nowhere(a, d) && Nowhere(b, d - Sum(a))
    ensures Nowhere(a + b, d)
  {
    forall j | 0 <= j <= |a + b| ensures Sum((a + b)[..j]) != d {
      PrefixOfJoin(a, b, j);
    }
  }

  lemma {:induction false} FirstInJoin(a: seq<int>, b: seq<int>, d: int, k: nat)
    requires Nowhere(a, d) && FirstAt(b, d - Sum(a), k)
    ensures FirstAt(a + b, d, |a| + k)
  {
    assert a[..|a|] == a && b[..0] == [];
    PrefixOfJoin(a, b, |a| + k);
    forall j | 0 <= j < |a| + k ensures Sum((a + b)[..j]) != d {
      PrefixOfJoin(a, b, j);
    }
  }

  lemma {:induction false} FirstInPrefix(a: seq<int>, b: seq<int>, d: int, k: nat)
    requires FirstAt(a, d, k)
    ensures FirstAt(a + b, d, k)
  {
    forall j | 0 <= j <= k ensures Sum((a + b)[..j]) == Sum(a[..j]) {
      PrefixOfJoin(a, b, j);
    }
  }

  lemma {:induction false} TimesSplit(sizes: seq<int>, i: nat, n: nat)
    requires i <= n
    ensures Times(sizes, n) == Times(sizes, i) + Times(sizes, n - i)
    decreases n
  {
    if i < n {
      TimesSplit(sizes, i, n - 1);
      assert n - i > 0;
    }
  }

  lemma {:induction false} FlattenPrefix(ts: seq<VarType>, i: nat, n: nat)
    requires i <= n <= |ts| && forall k :: 0 <= k < |ts| ==> Sound(ts[k])
    ensures FlattenAll(ts, i) <= FlattenAll(ts, n)
    decreases n
  {
    if i < n {
      FlattenPrefix(ts, i, n - 1);
    }
  }

  // ----- The methods -----------------------------------------------------------------------------------------

  /** How a search for the target that started from (offset, index) may end. */
  ghost predicate Searched(sizes: seq<int>, offset: int, target: int, index: int, found: bool, offset': int, index': int) {
    if found then
      offset' == target && index' >= index && FirstAt(sizes, target - offset, index' - index)
    else
      offset' == offset + Sum(sizes) && index' == index + |sizes| && Nowhere(sizes, target - offset)
  }

  lemma {:induction false} StartsHere(sizes: seq<int>)
    ensures FirstAt(sizes, 0, 0)
  {
    assert sizes[..0] == [];
  }

  lemma {:induction false} OneElement(size: int, offset: int, target: int, index: int)
    requires offset != target
    ensures Searched([size], offset, target, index, offset + size == target, offset + size, index + 1)
  {
    assert [size][..0] == [] && [size][..1] == [size];
    assert Sum([size]) == Sum([]) + size;
  }

  lemma {:induction false} NothingSearched(offset: int, target: int, index: int)
    requires offset != target
    ensures Searched([], offset, target, index, false, offset, index)
  {
  }

  /** The search goes on in `part`, after `done` has been searched in vain. */
  lemma {:induction false} SearchedOn(done: seq<int>, part: seq<int>, rest: seq<int>, offset: int, target: int,
                                      index: int,
                                      found: bool, offset': int, index': int)
    requires Nowhere(done, target - offset)
    requires Searched(part, offset + Sum(done), target, index + |done|, found, offset', index')
    ensures found ==> Searched(done + part + rest, offset, target, index, true, offset', index')
    ensures !found ==> Searched(done + part, offset, target, index, false, offset', index')
  {
    var d := target - offset;
    if found {
      var k := index' - index - |done|;
      FirstInJoin(done, part, d, k);
      FirstInPrefix(done + part, rest, d, |done| + k);
    } else {
      NowhereJoin(done, part, d);
      SumJoin(done, part);
    }
  }

  /** Lines 239-249: an array of primitive elements. */
  method FindInFlat(element: VarType, n: nat, offset: int, target: int, index: int)
    returns (found: bool, offset': int, index': int)
    requires element.Primitive? && offset != target
    ensures Searched(Times(Flatten(element), n), offset, target, index, found, offset', index')
  {
    hide Searched, Nowhere, FirstAt, Sum, Flatten;
    offset', index' := offset, index;
    NothingSearched(offset, target, index);
    ghost var sizes := Flatten(element);
    assert sizes == [element.byteSize] by {
      FlatPrimitive(element);
    }
    var i := 0;
    while i < n
      invariant 0 <= i <= n && offset' != target
      invariant Searched(Times(sizes, i), offset, target, index, false, offset', index')
    {
      SearchedEnd(Times(sizes, i), offset, target, index, offset', index');
      OneElement(element.byteSize, offset', target, index');
      offset' := offset' + element.byteSize;
      index' := index' + 1;
      SearchedOn(Times(sizes, i), sizes, Times(sizes, n - i - 1), offset, target, index, offset' == target, offset', index');
      TimesSplit(sizes, i + 1, n);
      if offset' == target {
        return true, offset', index';
      }
      i := i + 1;
    }
    found := false;
  }

  lemma {:induction false} FlatPrimitive(t: VarType)
    requires t.Primitive?
    ensures Flatten(t) == [t.byteSize]
  {
  }

  lemma {:induction false} SearchedEnd(sizes: seq<int>, offset: int, target: int, index: int, offset': int, index': int)
    requires Searched(sizes, offset, target, index, false, offset', index')
    ensures offset' == offset + Sum(sizes) && index' == index + |sizes| && Nowhere(sizes, target - offset)
    ensures offset' != target
  {
    assert sizes[..|sizes|] == sizes;
  }

  /** Lines 251-254. */
  method FindInArray(element: VarType, n: nat, offset: int, target: int, index: int)
    returns (found: bool, offset': int, index': int)
    requires Sound(element) && offset != target
    ensures Searched(Times(Flatten(element), n), offset, target, index, found, offset', index')
    decreases element, 1
  {
    hide Searched, Nowhere, FirstAt, Sum, Flatten, Sound;
    found, offset', index' := false, offset, index;
    NothingSearched(offset, target, index);
    ghost var sizes := Flatten(element);
    var i := 0;
    while i < n
      invariant 0 <= i <= n
      invariant Searched(Times(sizes, i), offset, target, index, false, offset', index')
    {
      SearchedEnd(Times(sizes, i), offset, target, index, offset', index');
      found, offset', index' := FindIndex(element, offset', target, index');
      SearchedOn(Times(sizes, i), sizes, Times(sizes, n - i - 1), offset, target, index, found, offset', index');
      TimesSplit(sizes, i + 1, n);
      if found {
        return;
      }
      i := i + 1;
    }
  }

  /** Lines 259-262. */
  method FindInStruct(members: seq<VarType>, n: nat, offset: int, target: int, index: int)
    returns (found: bool, offset': int, index': int)
    requires n <= |members| && (forall k :: 0 <= k < |members| ==> Sound(members[k])) && offset != target
    ensures Searched(FlattenAll(members, n), offset, target, index, found, offset', index')
    decreases members, 1
  {
    hide Searched, Nowhere, FirstAt, Sum, Flatten, Sound;
    found, offset', index' := false, offset, index;
    NothingSearched(offset, target, index);
    var i := 0;
    while i < n
      invariant 0 <= i <= n
      invariant Searched(FlattenAll(members, i), offset, target, index, false, offset', index')
    {
      ghost var done, part, all := FlattenAll(members, i), Flatten(members[i]), FlattenAll(members, n);
      SearchedEnd(done, offset, target, index, offset', index');
      found, offset', index' := FindIndex(members[i], offset', target, index');
      FlattenPrefix(members, i + 1, n);
      SearchedOn(done, part, all[|done + part|..], offset, target, index, found, offset', index');
      assert done + part + all[|done + part|..] == all;
      if found {
        return;
      }
      i := i + 1;
    }
  }

  /** `findIndex`: both cursors come in and go out. */
  method FindIndex(t: VarType, currentByteOffset: int, targetByteOffset: int, varIndex: int)
    returns (found: bool, currentByteOffset': int, varIndex': int)
    requires Sound(t)
    ensures Searched(Flatten(t), currentByteOffset, targetByteOffset, varIndex, found, currentByteOffset', varIndex')
    decreases t, 0
  {
    currentByteOffset', varIndex' := currentByteOffset, varIndex;
    if currentByteOffset == targetByteOffset {
      StartsHere(Flatten(t));
      return true, currentByteOffset', varIndex';
    }
    match t
    case Primitive(_, byteSize) =>
      currentByteOffset' := currentByteOffset' + byteSize;
      varIndex' := varIndex' + 1;
      OneElement(byteSize, currentByteOffset, targetByteOffset, varIndex);
      found := currentByteOffset' == targetByteOffset;
    case Array(element, n) =>
      if element.Primitive? {
        found, currentByteOffset', varIndex' := FindInFlat(element, n, currentByteOffset, targetByteOffset, varIndex);
      } else {
        found, currentByteOffset', varIndex' := FindInArray(element, n, currentByteOffset, targetByteOffset, varIndex);
      }
    case Struct(members, n) =>
      found, currentByteOffset', varIndex' := FindInStruct(members, n, currentByteOffset, targetByteOffset, varIndex);
  }

  /** The number of primitive elements, counting all members of a structure. */
  function NumElements(t: VarType): nat
    decreases t, 0
  {
    match t
    case Primitive(_, _) => 1
    case Array(element, n) => NumElements(element) * n
    case Struct(members, _) => NumElementsOf(members, |members|)
  }

  function NumElementsOf(ts: seq<VarType>, n: nat): nat
    requires n <= |ts|
    decreases ts, n
  {
    if n == 0 then 0 else NumElementsOf(ts, n - 1) + NumElements(ts[n - 1])
  }

  /** `calculateNumElements` */
  method CalculateNumElements(t: VarType) returns (ret: nat)
    ensures ret == NumElements(t)
    decreases t
  {
    match t
    case Primitive(_, _) => ret := 1;
    case Array(element, n) =>
      ret := CalculateNumElements(element);
      ret := ret * n;
    case Struct(members, _) =>
      ret := 0;
      for i := 0 to |members|
        invariant ret == NumElementsOf(members, i)
      {
        var r := CalculateNumElements(members[i]);
        ret := ret + r;
      }
  }

  /** The count agrees with the flattened list if every structure is complete; otherwise it is never
      smaller. */
  lemma {:induction false} NumElementsIsLength(t: VarType)
    requires Sound(t)
    ensures |Flatten(t)| <= NumElements(t)
    ensures Complete(t) ==> |Flatten(t)| == NumElements(t)
    decreases t, 0
  {
    match t
    case Primitive(_, _) =>
    case Array(element, n) =>
      NumElementsIsLength(element);
      TimesLength(Flatten(element), n);
      FewerTimes(|Flatten(element)|, NumElements(element), n);
    case Struct(members, n) =>
      NumElementsOfMembers(members, n);
      MoreMembers(members, n, |members|);
  }

  lemma {:induction false} FewerTimes(a: nat, b: nat, n: nat)
    requires a <= b
    ensures a * n <= b * n
  {
  }

  lemma {:induction false} NumElementsOfMembers(ts: seq<VarType>, n: nat)
    requires n <= |ts| && forall k :: 0 <= k < |ts| ==> Sound(ts[k])
    ensures |FlattenAll(ts, n)| <= NumElementsOf(ts, n)
    ensures (forall k :: 0 <= k < |ts| ==> Complete(ts[k])) ==> |FlattenAll(ts, n)| == NumElementsOf(ts, n)
    decreases ts, n
  {
    if n > 0 {
      NumElementsOfMembers(ts, n - 1);
      NumElementsIsLength(ts[n - 1]);
    }
  }

  lemma {:induction false} MoreMembers(ts: seq<VarType>, n: nat, m: nat)
    requires n <= m <= |ts|
    ensures NumElementsOf(ts, n) <= NumElementsOf(ts, m)
    decreases m
  {
    if n < m {
      MoreMembers(ts, n, m - 1);
    }
  }

  lemma {:induction false} TimesLength(sizes: seq<int>, n: nat)
    ensures |Times(sizes, n)| == |sizes| * n
  {
    if n > 0 {
      TimesLength(sizes, n - 1);
    }
  }

  /** The number of elements in front of the offset, or all of them if no element starts or ends there. */
  ghost predicate IndexAt(t: VarType, byteOffset: int, varIndex: nat)
    requires Sound(t)
  {
    FirstAt(Flatten(t), byteOffset, varIndex) || (Nowhere(Flatten(t), byteOffset) && varIndex == |Flatten(t)|)
  }

  /** `getVarIndexByByteIndex` */
  method GetVarIndexByByteIndex(t: VarType, byteOffset: int) returns (varIndex: nat)
    requires Sound(t)
    ensures IndexAt(t, byteOffset, varIndex)
  {
    var found, _, index := FindIndex(t, 0, byteOffset, 0);
    varIndex := index;
  }

  // ----- Positive sizes --------------------------------------------------------------------------------------

  predicate Positive(sizes: seq<int>) {
    forall k :: 0 <= k < |sizes| ==> sizes[k] > 0
  }

  lemma {:induction false} SumGrows(sizes: seq<int>, i: nat, j: nat)
    requires Positive(sizes) && i < j <= |sizes|
    ensures Sum(sizes[..i]) < Sum(sizes[..j])
    decreases j
  {
    assert sizes[..j][..j - 1] == sizes[..j - 1];
    if i < j - 1 {
      SumGrows(sizes, i, j - 1);
    }
  }

  /** With positive sizes there is at most one place, so the search finds the one that there is. */
  lemma {:induction false} FirstIsOnly(sizes: seq<int>, d: int, k: nat)
    requires Positive(sizes)
    ensures FirstAt(sizes, d, k) <==> k <= |sizes| && Sum(sizes[..k]) == d
  {
    if k <= |sizes| {
      forall j | 0 <= j < k ensures Sum(sizes[..j]) < Sum(sizes[..k]) {
        SumGrows(sizes, j, k);
      }
    }
  }

  /** The offset at which element k starts leads to k, and so does the end of the variable to its number
      of elements; only these offsets lead to an element. */
  lemma {:induction false} IndexOfOffset(t: VarType, byteOffset: int, varIndex: nat)
    requires Sound(t) && Positive(Flatten(t)) && IndexAt(t, byteOffset, varIndex)
    ensures forall k :: 0 <= k <= |Flatten(t)| && Sum(Flatten(t)[..k]) == byteOffset ==> varIndex == k
    ensures varIndex < |Flatten(t)| ==> Sum(Flatten(t)[..varIndex]) == byteOffset
  {
    var sizes := Flatten(t);
    forall k | 0 <= k <= |sizes| && Sum(sizes[..k]) == byteOffset ensures varIndex == k {
      FirstIsOnly(sizes, byteOffset, k);
      FirstIsOnly(sizes, byteOffset, varIndex);
    }
  }

  // ----- Elements by their paths -----------------------------------------------------------------------------

  /** The indices that lead to a primitive element: of an array element or of a member, at each level. */
  predicate IsPath(t: VarType, path: seq<nat>) {
    match t
    case Primitive(_, _) => path == []
    case Array(element, n) => path != [] && path[0] < n && IsPath(element, path[1..])
    case Struct(members, n) => path != [] && path[0] < n && path[0] < |members| && IsPath(members[path[0]], path[1..])
  }

  /** The bytes of a variable: an array has its elements side by side, a structure its members. */
  function Bytes(t: VarType): int
    decreases t, 0
  {
    match t
    case Primitive(_, byteSize) => byteSize
    case Array(element, n) => n * Bytes(element)
    case Struct(members, n) => if n <= |members| then BytesBefore(members, n) else 0
  }

  /** The bytes of the first k members. */
  function BytesBefore(members: seq<VarType>, k: nat): int
    requires k <= |members|
    decreases members, k
  {
    if k == 0 then 0 else BytesBefore(members, k - 1) + Bytes(members[k - 1])
  }

  /** Where the element at the path starts. */
  function OffsetOf(t: VarType, path: seq<nat>): int
    requires IsPath(t, path)
  {
    match t
    case Primitive(_, _) => 0
    case Array(element, _) => path[0] * Bytes(element) + OffsetOf(element, path[1..])
    case Struct(members, _) => BytesBefore(members, path[0]) + OffsetOf(members[path[0]], path[1..])
  }

  /** Paths are in order as the indices on which they first differ are. */
  predicate Before(p: seq<nat>, q: seq<nat>) {
    p != [] && q != [] && (p[0] < q[0] || (p[0] == q[0] && Before(p[1..], q[1..])))
  }

  /** The size of the element at the path. */
  function ElementSize(t: VarType, path: seq<nat>): int
    requires IsPath(t, path)
  {
    match t
    case Primitive(_, byteSize) => byteSize
    case Array(element, _) => ElementSize(element, path[1..])
    case Struct(members, _) => ElementSize(members[path[0]], path[1..])
  }

  /** The number of the element at the path. */
  function Rank(t: VarType, path: seq<nat>): nat
    requires Sound(t) && IsPath(t, path)
  {
    match t
    case Primitive(_, _) => 0
    case Array(element, _) => path[0] * |Flatten(element)| + Rank(element, path[1..])
    case Struct(members, _) => |FlattenAll(members, path[0])| + Rank(members[path[0]], path[1..])
  }

  lemma {:induction false} SumTimes(sizes: seq<int>, n: nat)
    ensures Sum(Times(sizes, n)) == n * Sum(sizes)
  {
    if n > 0 {
      SumTimes(sizes, n - 1);
      SumJoin(Times(sizes, n - 1), sizes);
    }
  }

  lemma {:induction false} SumIsBytes(t: VarType)
    requires Sound(t)
    ensures Sum(Flatten(t)) == Bytes(t)
    decreases t, 0
  {
    match t
    case Primitive(_, byteSize) => assert [byteSize][..0] == [];
    case Array(element, n) =>
      SumIsBytes(element);
      SumTimes(Flatten(element), n);
    case Struct(members, n) => SumIsBytesBefore(members, n);
  }

  lemma {:induction false} SumIsBytesBefore(members: seq<VarType>, k: nat)
    requires k <= |members| && forall j :: 0 <= j < |members| ==> Sound(members[j])
    ensures Sum(FlattenAll(members, k)) == BytesBefore(members, k)
    decreases members, k
  {
    if k > 0 {
      SumIsBytesBefore(members, k - 1);
      SumIsBytes(members[k - 1]);
      SumJoin(FlattenAll(members, k - 1), Flatten(members[k - 1]));
    }
  }

  /** A part of a list: what stands in it at r stands in the whole behind what comes before the part. */
  lemma {:induction false} InPart(all: seq<int>, a: seq<int>, part: seq<int>, c: seq<int>, r: nat)
    requires all == a + part + c && r < |part|
    ensures |a| + r < |all| && all[|a| + r] == part[r] && Sum(all[..|a| + r]) == Sum(a) + Sum(part[..r])
  {
    assert all[..|a| + r] == a + part[..r];
    SumJoin(a, part[..r]);
  }

  lemma {:induction false} TimesPart(sizes: seq<int>, i: nat, n: nat) returns (c: seq<int>)
    requires i < n
    ensures Times(sizes, n) == Times(sizes, i) + sizes + c
  {
    TimesSplit(sizes, i + 1, n);
    c := Times(sizes, n - (i + 1));
  }

  lemma {:induction false} MembersPart(members: seq<VarType>, i: nat, n: nat) returns (c: seq<int>)
    requires i < n <= |members| && forall k :: 0 <= k < |members| ==> Sound(members[k])
    ensures FlattenAll(members, n) == FlattenAll(members, i) + Flatten(members[i]) + c
  {
    FlattenPrefix(members, i + 1, n);
    c := FlattenAll(members, n)[|FlattenAll(members, i + 1)|..];
  }

  /** The element at a path stands in the flat list at its rank, with its size, behind as many bytes as its
      offset says. */
  lemma {:induction false} PathInFlat(t: VarType, path: seq<nat>)
    requires Sound(t) && IsPath(t, path)
    ensures var sizes, r := Flatten(t), Rank(t, path);
            r < |sizes| && sizes[r] == ElementSize(t, path) && Sum(sizes[..r]) == OffsetOf(t, path)
    decreases t
  {
    match t
    case Primitive(_, byteSize) => assert [byteSize][..0] == [];
    case Array(element, n) =>
      var part := Flatten(element);
      PathInFlat(element, path[1..]);
      var c := TimesPart(part, path[0], n);
      InPart(Flatten(t), Times(part, path[0]), part, c, Rank(element, path[1..]));
      TimesLength(part, path[0]);
      SumTimes(part, path[0]);
      SumIsBytes(element);
    case Struct(members, n) =>
      var i := path[0];
      PathInFlat(members[i], path[1..]);
      var c := MembersPart(members, i, n);
      InPart(Flatten(t), FlattenAll(members, i), Flatten(members[i]), c, Rank(members[i], path[1..]));
      SumIsBytesBefore(members, i);
  }

  /** The rank of a path says how many paths come before it: ranks follow the order of paths. */
  lemma {:induction false} RankFollowsOrder(t: VarType, p: seq<nat>, q: seq<nat>)
    requires Sound(t) && IsPath(t, p) && IsPath(t, q) && Before(p, q)
    ensures Rank(t, p) < Rank(t, q)
    decreases t
  {
    match t
    case Primitive(_, _) =>
    case Array(element, _) =>
      if p[0] == q[0] {
        RankFollowsOrder(element, p[1..], q[1..]);
      } else {
        PathInFlat(element, p[1..]);
        MoreElements(p[0], q[0], |Flatten(element)|);
      }
    case Struct(members, _) =>
      if p[0] == q[0] {
        RankFollowsOrder(members[p[0]], p[1..], q[1..]);
      } else {
        PathInFlat(members[p[0]], p[1..]);
        FlattenPrefix(members, p[0] + 1, q[0]);
      }
  }

  lemma {:induction false} MoreElements(i: nat, j: nat, n: nat)
    requires i < j
    ensures i * n + n <= j * n
    decreases j
  {
    OneMore(j - 1, n);
    if i < j - 1 {
      MoreElements(i, j - 1, n);
    }
  }

  lemma OneMore(i: nat, n: nat)
    ensures (i + 1) * n == i * n + n
  {
  }

  /** Every element of the flat list is reached by a path, so ranks number the paths without a gap. */
  lemma {:induction false} EveryRankHasPath(t: VarType, r: nat) returns (path: seq<nat>)
    requires Sound(t) && r < |Flatten(t)|
    ensures IsPath(t, path) && Rank(t, path) == r
    decreases t, 0
  {
    match t
    case Primitive(_, _) => path := [];
    case Array(element, n) =>
      var m := |Flatten(element)|;
      TimesLength(Flatten(element), n);
      var i, j := Divided(r, m, n);
      var rest := EveryRankHasPath(element, j);
      path := [i] + rest;
      assert path[1..] == rest;
    case Struct(members, n) =>
      var i, j := MemberAt(members, n, r);
      var rest := EveryRankHasPath(members[i], j);
      path := [i] + rest;
      assert path[1..] == rest;
  }

  lemma Divided(r: nat, m: nat, n: nat) returns (i: nat, j: nat)
    requires r < m * n
    ensures i < n && j < m && r == i * m + j
  {
    i, j := r / m, r % m;
    assert r == i * m + j;
    if i > n {
      MoreElements(n, i, m);
    }
  }

  lemma {:induction false} MemberAt(members: seq<VarType>, n: nat, r: nat) returns (i: nat, j: nat)
    requires n <= |members| && (forall k :: 0 <= k < |members| ==> Sound(members[k])) && r < |FlattenAll(members, n)|
    ensures i < n && j < |Flatten(members[i])| && r == |FlattenAll(members, i)| + j
    decreases n
  {
    var before := |FlattenAll(members, n - 1)|;
    if r < before {
      i, j := MemberAt(members, n - 1, r);
    } else {
      i, j := n - 1, r - before;
    }
  }

  /** The search from the offset of an element finds its number. */
  lemma {:induction false} IndexOfPath(t: VarType, path: seq<nat>, varIndex: nat)
    requires Sound(t) && Positive(Flatten(t)) && IsPath(t, path) && IndexAt(t, OffsetOf(t, path), varIndex)
    ensures varIndex == Rank(t, path)
  {
    PathInFlat(t, path);
    IndexOfOffset(t, OffsetOf(t, path), varIndex);
  }
}
