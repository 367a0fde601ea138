/** rapidxml's memory pool: memory is handed out from the current block, front to back; each block that
    is allocated when the current one is full starts with a header that points to the one before. */
module MemoryPool {
  import opened Powers
  import opened PoolAlign

  datatype Range = Range(start: nat, size: nat) {
    function End(): nat {
      start + size
    }
  }

  predicate Disjoint(a: Range, b: Range) {
    a.End() <= b.start || b.End() <= a.start
  }

  /** Memory handed out from a block. */
  datatype Piece = Piece(block: nat, range: Range)

  /** The sizes the pool is compiled with; the alignment is 2^alignBits. */
  datatype Config = Config(alignBits: nat, headerSize: nat, dynamicSize: nat, staticMemory: Range) {
    predicate Sensible() {
      headerSize > 0 && staticMemory.size > 0
    }

    /** Lines 608-613: the size of a new block for a request. */
    function BlockSize(size: nat): nat {
      var poolSize := if dynamicSize < size then size else dynamicSize;
      headerSize + (2 * Pow2(alignBits) - 2) + poolSize
    }
  }

  // ----- Blocks and headers ------------------------------------------------------------------------------

  function HeaderOf(c: Config, block: Range): Range {
    Range(Align(block.start, c.alignBits), c.headerSize)
  }

  /** Where pieces of block i may start. */
  function Floor(c: Config, blocks: seq<Range>, i: nat): nat
    requires i < |blocks|
  {
    if i == 0 then blocks[0].start else HeaderOf(c, blocks[i]).End()
  }

  predicate Linked(c: Config, blocks: seq<Range>, headers: map<nat, nat>, i: nat)
    requires 0 < i < |blocks|
  {
    var header := HeaderOf(c, blocks[i]);
    header.End() <= blocks[i].End() && header.start in headers && headers[header.start] == blocks[i - 1].start
  }

  ghost predicate Chain(c: Config, blocks: seq<Range>, headers: map<nat, nat>) {
    && blocks != [] && blocks[0] == c.staticMemory
    && (forall i :: 0 <= i < |blocks| ==> blocks[i].size > 0)
    && (forall i, j :: 0 <= i < j < |blocks| ==> Disjoint(blocks[i], blocks[j]))
    && forall i :: 0 < i < |blocks| ==> Linked(c, blocks, headers, i)
  }

  predicate Inside(c: Config, blocks: seq<Range>, p: Piece) {
    && p.block < |blocks|
    && p.range.start % Pow2(c.alignBits) == 0
    && Floor(c, blocks, p.block) <= p.range.start && p.range.End() <= blocks[p.block].End()
  }

  ghost predicate Pieces(c: Config, blocks: seq<Range>, pieces: seq<Piece>) {
    && (forall i :: 0 <= i < |pieces| ==> Inside(c, blocks, pieces[i]))
    && forall i, j :: 0 <= i < j < |pieces| ==> Disjoint(pieces[i].range, pieces[j].range)
  }

  /** No piece overlaps a header. */
  lemma {:induction false} HeadersAreSafe(c: Config, blocks: seq<Range>, headers: map<nat, nat>, pieces: seq<Piece>,
                                          i: nat, j: nat)
    requires Chain(c, blocks, headers) && Pieces(c, blocks, pieces) && i < |pieces| && 0 < j < |blocks|
    ensures Disjoint(pieces[i].range, HeaderOf(c, blocks[j]))
  {
    var p := pieces[i];
    assert Inside(c, blocks, p) && Linked(c, blocks, headers, j);
    AlignIsLeast(blocks[j].start, c.alignBits);
    if p.block > 0 {
      AlignIsLeast(blocks[p.block].start, c.alignBits);
    }
    if p.block < j {
      assert Disjoint(blocks[p.block], blocks[j]);
    } else if j < p.block {
      assert Disjoint(blocks[j], blocks[p.block]);
    }
  }

  /** A block that overlaps no other is linked in. */
  lemma {:induction false} ChainGrows(c: Config, blocks: seq<Range>, headers: map<nat, nat>, block: Range)
    requires Chain(c, blocks, headers) && HeaderOf(c, block).End() <= block.End() && block.size > 0 && c.Sensible()
    requires forall i :: 0 <= i < |blocks| ==> Disjoint(blocks[i], block)
    ensures Chain(c, blocks + [block], headers[HeaderOf(c, block).start := blocks[|blocks| - 1].start])
  {
    var blocks', header := blocks + [block], HeaderOf(c, block).start;
    var headers' := headers[header := blocks[|blocks| - 1].start];
    AlignIsLeast(block.start, c.alignBits);
    forall i | 0 < i < |blocks'| ensures Linked(c, blocks', headers', i) {
      if i < |blocks| {
        assert Linked(c, blocks, headers, i) && Disjoint(blocks[i], block);
        AlignIsLeast(blocks[i].start, c.alignBits);
      }
    }
  }

  lemma {:induction false} PiecesStay(c: Config, blocks: seq<Range>, pieces: seq<Piece>, block: Range)
    requires Pieces(c, blocks, pieces)
    ensures Pieces(c, blocks + [block], pieces)
  {
    forall i | 0 <= i < |pieces| ensures Inside(c, blocks + [block], pieces[i]) {
      assert Inside(c, blocks, pieces[i]);
    }
  }

  /** A piece behind all pieces of the last block overlaps none. */
  lemma {:induction false} PiecesGrow(c: Config, blocks: seq<Range>, headers: map<nat, nat>, pieces: seq<Piece>,
                                      ptr: nat, range: Range)
    requires Chain(c, blocks, headers) && Pieces(c, blocks, pieces)
    requires Inside(c, blocks, Piece(|blocks| - 1, range)) && ptr <= range.start
    requires forall i :: 0 <= i < |pieces| && pieces[i].block == |blocks| - 1 ==> pieces[i].range.End() <= ptr
    ensures Pieces(c, blocks, pieces + [Piece(|blocks| - 1, range)])
  {
    var last := |blocks| - 1;
    forall i | 0 <= i < |pieces| ensures Disjoint(pieces[i].range, range) {
      var p := pieces[i];
      assert Inside(c, blocks, p);
      if p.block < last {
        assert Disjoint(blocks[p.block], blocks[last]);
        AlignIsLeast(blocks[p.block].start, c.alignBits);
        AlignIsLeast(blocks[last].start, c.alignBits);
      }
    }
  }

  /** However its start is aligned, a new block has room for its header and for the request. */
  lemma {:induction false} NewBlockFits(c: Config, where: nat, size: nat)
    requires c.Sensible()
    ensures var block := Range(where, c.BlockSize(size));
            && HeaderOf(c, block).End() <= block.End() && block.size > 0
            && Align(HeaderOf(c, block).End(), c.alignBits) + size <= block.End()
  {
    AlignIsLeast(where, c.alignBits);
    AlignIsLeast(HeaderOf(c, Range(where, c.BlockSize(size))).End(), c.alignBits);
  }

  lemma {:induction false} LastBlock(c: Config, blocks: seq<Range>, headers: map<nat, nat>, pieces: seq<Piece>)
    requires Chain(c, blocks, headers) && Pieces(c, blocks, pieces)
    ensures blocks != [] && forall i :: 0 <= i < |pieces| ==> pieces[i].block < |blocks|
  {
    forall i | 0 <= i < |pieces| ensures pieces[i].block < |blocks| {
      assert Inside(c, blocks, pieces[i]);
    }
  }

  lemma {:induction false} NewIsApart(c: Config, blocks: seq<Range>, pieces: seq<Piece>, piece: Piece)
    requires Pieces(c, blocks, pieces + [piece])
    ensures forall i :: 0 <= i < |pieces| ==> Disjoint(pieces[i].range, piece.range)
  {
    var pieces' := pieces + [piece];
    forall i | 0 <= i < |pieces| ensures Disjoint(pieces[i].range, piece.range) {
      assert Disjoint(pieces'[i].range, pieces'[|pieces|].range);
    }
  }

  /** No two blocks start at the same place, so no block is freed twice. */
  lemma {:induction false} StartsDiffer(c: Config, blocks: seq<Range>, headers: map<nat, nat>)
    requires Chain(c, blocks, headers)
    ensures forall i, j :: 0 <= i < j < |blocks| ==> blocks[i].start != blocks[j].start
  {
    forall i, j | 0 <= i < j < |blocks| ensures blocks[i].start != blocks[j].start {
      assert Disjoint(blocks[i], blocks[j]);
    }
  }

  /** Where the free memory of the last block starts: behind its last piece, else where it was first free. */
  function FreeFrom(c: Config, blocks: seq<Range>, pieces: seq<Piece>): nat
    requires blocks != []
  {
    var last := |blocks| - 1;
    if pieces != [] && pieces[|pieces| - 1].block == last then pieces[|pieces| - 1].range.End()
    else if last == 0 then Align(blocks[0].start, c.alignBits)
    else HeaderOf(c, blocks[last]).End()
  }

  /** Piece i starts at the first aligned place that was free in its block. */
  predicate PackedAt(c: Config, blocks: seq<Range>, pieces: seq<Piece>, i: nat)
    requires i < |pieces|
  {
    && pieces[i].block < |blocks|
    && pieces[i].range.start == Align(FreeFrom(c, blocks[..pieces[i].block + 1], pieces[..i]), c.alignBits)
  }

  ghost predicate Packed(c: Config, blocks: seq<Range>, pieces: seq<Piece>) {
    forall i :: 0 <= i < |pieces| ==> PackedAt(c, blocks, pieces, i)
  }

  lemma {:induction false} PackedMore(c: Config, blocks: seq<Range>, pieces: seq<Piece>, block: Range)
    requires Packed(c, blocks, pieces)
    ensures Packed(c, blocks + [block], pieces)
  {
    forall i | 0 <= i < |pieces| ensures PackedAt(c, blocks + [block], pieces, i) {
      assert PackedAt(c, blocks, pieces, i);
      assert (blocks + [block])[..pieces[i].block + 1] == blocks[..pieces[i].block + 1];
    }
  }

  lemma {:induction false} PackedGrows(c: Config, blocks: seq<Range>, pieces: seq<Piece>, piece: Piece)
    requires Packed(c, blocks, pieces) && blocks != [] && piece.block == |blocks| - 1
    requires piece.range.start == Align(FreeFrom(c, blocks, pieces), c.alignBits)
    ensures Packed(c, blocks, pieces + [piece])
  {
    var pieces' := pieces + [piece];
    assert blocks[..piece.block + 1] == blocks && pieces'[..|pieces|] == pieces;
    forall i | 0 <= i < |pieces'| ensures PackedAt(c, blocks, pieces', i) {
      if i < |pieces| {
        assert PackedAt(c, blocks, pieces, i);
        assert pieces'[..i] == pieces[..i];
      }
    }
  }

  /** Pieces that follow each other in one block leave a gap below the alignment, and the first piece of a
      block is as close to what comes before it. */
  lemma {:induction false} SmallGaps(c: Config, blocks: seq<Range>, pieces: seq<Piece>, i: nat)
    requires Packed(c, blocks, pieces) && 0 < i < |pieces| && pieces[i - 1].block == pieces[i].block
    ensures pieces[i - 1].range.End() <= pieces[i].range.start < pieces[i - 1].range.End() + Pow2(c.alignBits)
  {
    assert PackedAt(c, blocks, pieces, i);
    assert pieces[..i][i - 1] == pieces[i - 1];
    AlignIsLeast(pieces[i - 1].range.End(), c.alignBits);
  }

  lemma {:induction false} FreeBehind(c: Config, blocks: seq<Range>, pieces: seq<Piece>, piece: Piece)
    requires blocks != [] && piece.block == |blocks| - 1
    ensures FreeFrom(c, blocks, pieces + [piece]) == piece.range.End()
  {
  }

  /** A new block is free behind its header. */
  lemma {:induction false} LastPiece(c: Config, blocks: seq<Range>, headers: map<nat, nat>, pieces: seq<Piece>, block: Range)
    requires Chain(c, blocks, headers) && Pieces(c, blocks, pieces)
    ensures FreeFrom(c, blocks + [block], pieces) == HeaderOf(c, block).End()
  {
    if pieces != [] {
      assert Inside(c, blocks, pieces[|pieces| - 1]);
    }
  }

  // ----- The pool ----------------------------------------------------------------------------------------

  class Pool {
    const config: Config
    var begin: nat
    var ptr: nat
    var end: nat
    var headers: map<nat, nat>    // the header words in memory
    ghost var blocks: seq<Range>
    ghost var pieces: seq<Piece>

    ghost predicate Valid()
      reads this
    {
      && config.Sensible()
      && Chain(config, blocks, headers)
      && Pieces(config, blocks, pieces)
      && var last := |blocks| - 1;
         && begin == blocks[last].start && end == blocks[last].End()
         && Floor(config, blocks, last) <= ptr == FreeFrom(config, blocks, pieces)
         && Packed(config, blocks, pieces)
         && forall i :: 0 <= i < |pieces| && pieces[i].block == last ==> pieces[i].range.End() <= ptr
    }

    /** `init` */
    constructor (c: Config)
      requires c.Sensible()
      ensures Valid() && config == c && blocks == [c.staticMemory] && pieces == []
      ensures ptr == Align(c.staticMemory.start, c.alignBits) && end == c.staticMemory.End()
    {
      AlignIsLeast(c.staticMemory.start, c.alignBits);
      config, headers := c, map[];
      begin, ptr, end := c.staticMemory.start, Align(c.staticMemory.start, c.alignBits), c.staticMemory.End();
      blocks, pieces := [c.staticMemory], [];
    }

    /** Lines 614-625: the new block has room for its header and for the request, however its start is
        aligned. `where` is the place the allocation function has chosen. */
    method AddBlock(size: nat, where: nat)
      requires Valid() && forall i :: 0 <= i < |blocks| ==> Disjoint(blocks[i], Range(where, config.BlockSize(size)))
      modifies this
      ensures Valid() && blocks == old(blocks) + [Range(where, config.BlockSize(size))] && pieces == old(pieces)
      ensures ptr == Align(where, config.alignBits) + config.headerSize && end == where + config.BlockSize(size)
      ensures Align(ptr, config.alignBits) + size <= end
    {
      var allocSize := config.BlockSize(size);
      ghost var block := Range(where, allocSize);
      LastPiece(config, blocks, headers, pieces, block);
      hide Chain, Pieces, Align, Packed, FreeFrom;
      var pool := Align(where, config.alignBits);
      NewBlockFits(config, where, size);
      ChainGrows(config, blocks, headers, block);
      PiecesStay(config, blocks, pieces, block);
      PackedMore(config, blocks, pieces, block);
      LastBlock(config, blocks, headers, pieces);
      headers := headers[pool := begin];
      begin, ptr, end := where, pool + config.headerSize, where + allocSize;
      blocks := blocks + [block];
    }

    /** `allocate_aligned`: from the current block if the request fits behind its first free aligned
        place, else from a new block. */
    method AllocateAligned(size: nat, where: nat) returns (result: nat)
      requires Valid()
      requires Align(ptr, config.alignBits) + size > end ==>
                 forall i :: 0 <= i < |blocks| ==> Disjoint(blocks[i], Range(where, config.BlockSize(size)))
      modifies this
      ensures Valid()
      ensures if Align(old(ptr), config.alignBits) + size <= old(end) then
                && blocks == old(blocks) && end == old(end)
                && result == Align(old(ptr), config.alignBits)
              else
                var poolSize := if config.dynamicSize < size then size else config.dynamicSize;
                var block := Range(where, config.headerSize + (2 * Pow2(config.alignBits) - 2) + poolSize);
                && blocks == old(blocks) + [block] && end == block.End()
                && result == Align(Align(where, config.alignBits) + config.headerSize, config.alignBits)
      ensures ptr == result + size <= end
      ensures pieces == old(pieces) + [Piece(|blocks| - 1, Range(result, size))]
      ensures result % Pow2(config.alignBits) == 0
      ensures forall i :: 0 <= i < |old(pieces)| ==> Disjoint(old(pieces)[i].range, Range(result, size))
    {
      hide Chain, Pieces, Align, Packed, FreeFrom;
      if Align(ptr, config.alignBits) + size > end {
        AddBlock(size, where);
      }
      LastBlock(config, blocks, headers, pieces);
      result := Align(ptr, config.alignBits);
      AlignIsLeast(ptr, config.alignBits);
      ghost var piece := Piece(|blocks| - 1, Range(result, size));
      PiecesGrow(config, blocks, headers, pieces, ptr, piece.range);
      PackedGrows(config, blocks, pieces, piece);
      NewIsApart(config, blocks, pieces, piece);
      FreeBehind(config, blocks, pieces, piece);
      ptr := result + size;
      pieces := pieces + [piece];
    }

    /** `clear`: the dynamic blocks are freed, the newest first, each of them once. */
    method Clear() returns (freed: seq<nat>)
      requires Valid()
      modifies this
      ensures Valid() && blocks == [config.staticMemory] && pieces == []
      ensures ptr == Align(config.staticMemory.start, config.alignBits) && end == config.staticMemory.End()
      ensures |freed| == |old(blocks)| - 1
      ensures forall i :: 0 <= i < |freed| ==> freed[i] == old(blocks)[|old(blocks)| - 1 - i].start
    {
      freed := [];
      ghost var all, n := blocks, |blocks|;
      while begin != config.staticMemory.start
        invariant 0 < n <= |all| && all == old(blocks) && config.Sensible() && Chain(config, all, headers)
        invariant begin == all[n - 1].start
        invariant |freed| == |all| - n
        invariant forall i :: 0 <= i < |freed| ==> freed[i] == all[|all| - 1 - i].start
        decreases n
      {
        assert Linked(config, all, headers, n - 1);
        var previousBegin := headers[Align(begin, config.alignBits)];
        freed := freed + [begin];
        begin := previousBegin;
        n := n - 1;
      }
      StartsDiffer(config, all, headers);
      AlignIsLeast(config.staticMemory.start, config.alignBits);
      begin, end := config.staticMemory.start, config.staticMemory.End();
      ptr := Align(begin, config.alignBits);
      blocks, pieces := [config.staticMemory], [];
    }
  }
}
