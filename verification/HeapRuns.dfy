/** Every step of the allocator keeps the heap invariant, and what that means over whole runs. */
module HeapRuns {
  import opened Common
  import opened BitMath
  import opened Heap

  //
  // Replacing one block of the chain
  //

  lemma {:induction false} TilesPrepend(parts: seq<Block>, pos: nat, mid: nat, post: seq<Block>, end: nat, rest: seq<Region>)
    requires Tiles(parts, pos, mid, []) && mid <= end && Tiles(post, mid, end, rest)
    ensures Tiles(parts + post, pos, end, rest)
    decreases |parts|
  {
    if pos == mid {
      assert parts + post == post;
    } else {
      TilePosBound(parts[1..], pos + parts[0].size, mid, []);
      TilesPrepend(parts[1..], pos + parts[0].size, mid, post, end, rest);
      assert (parts + post)[1..] == parts[1..] + post;
    }
  }

  /** Blocks that tile the place of `b` may stand for it in a tiling. */
  lemma {:induction false} TilesSplice(pre: seq<Block>, b: Block, post: seq<Block>, parts: seq<Block>,
                                       pos: nat, end: nat, rest: seq<Region>)
    requires Tiles(pre + [b] + post, pos, end, rest) && Tiles(parts, b.addr, b.End(), [])
    ensures Tiles(pre + parts + post, pos, end, rest)
    decreases |pre| + |rest|
  {
    var chain := pre + [b] + post;
    if pos == end {
      TilesSplice(pre, b, post, parts, rest[0].start, rest[0].end, rest[1..]);
    } else if pre == [] {
      assert chain[0] == b && chain[1..] == post;
      TilePosBound(post, b.End(), end, rest);
      TilesPrepend(parts, pos, b.End(), post, end, rest);
      assert pre + parts + post == parts + post;
    } else {
      assert chain[1..] == pre[1..] + [b] + post;
      TilesSplice(pre[1..], b, post, parts, pos + pre[0].size, end, rest);
      assert (pre + parts + post)[1..] == pre[1..] + parts + post;
    }
  }

  /** The memories agree on all 32 addresses of a header. */
  ghost predicate SameHeader(m: Memory, m': Memory, a: nat) {
    forall x: nat :: a <= x < a + HEADER ==> SameAt(m, m', x)
  }

  ghost predicate SameHeads(m: Memory, m': Memory, chain: seq<Block>) {
    forall i :: 0 <= i < |chain| ==> SameHeader(m, m', chain[i].addr)
  }

  lemma HeaderStays(m: Memory, m': Memory, a: nat)
    requires HasHeader(m, a) && SameHeader(m, m', a)
    ensures HasHeader(m', a) && m'[a] == m[a]
  {
    assert SameAt(m, m', a);
    forall x: nat | a < x < a + HEADER ensures RestAt(m', x) {
      assert SameAt(m, m', x) && RestAt(m, x);
    }
  }

  lemma {:induction false} LinkedFrame(m: Memory, m': Memory, first: Option<nat>, chain: seq<Block>)
    requires Linked(m, first, chain) && SameHeads(m, m', chain)
    ensures Linked(m', first, chain)
    decreases |chain|
  {
    if chain != [] {
      assert SameHeader(m, m', chain[0].addr);
      HeaderStays(m, m', chain[0].addr);
      assert SameHeads(m, m', chain[1..]) by {
        forall i | 0 <= i < |chain[1..]| ensures chain[1..][i] == chain[i + 1] {}
      }
      LinkedFrame(m, m', m[chain[0].addr].next, chain[1..]);
    }
  }

  /** What the chain says about the header at position `|pre|`. */
  lemma {:induction false} LinkedAt(m: Memory, first: Option<nat>, pre: seq<Block>, b: Block, post: seq<Block>)
    requires Linked(m, first, pre + [b] + post)
    ensures HeadAt(m, b, NextOf(pre + [b] + post, |pre|))
    ensures Linked(m, m[b.addr].next, post)
    decreases |pre|
  {
    var chain := pre + [b] + post;
    if pre == [] {
      assert chain[1..] == post;
      assert post != [] ==> post[0] == chain[1];
    } else {
      assert chain[1..] == pre[1..] + [b] + post;
      LinkedAt(m, m[chain[0].addr].next, pre[1..], b, post);
      assert |pre| + 1 < |chain| ==> chain[1..][|pre|] == chain[|pre| + 1];
    }
  }

  /** If the headers before position `|pre|` are untouched, only the tail has to be relinked. */
  lemma {:induction false} LinkedSplice(m: Memory, m': Memory, first: Option<nat>, pre: seq<Block>, b: Block, post: seq<Block>, parts: seq<Block>)
    requires Linked(m, first, pre + [b] + post) && SameHeads(m, m', pre)
    requires Linked(m', Some(b.addr), parts)
    ensures Linked(m', first, pre + parts)
    decreases |pre|
  {
    var chain := pre + [b] + post;
    if pre == [] {
      assert pre + parts == parts;
    } else {
      assert chain[1..] == pre[1..] + [b] + post;
      assert SameHeader(m, m', pre[0].addr);
      HeaderStays(m, m', pre[0].addr);
      assert SameHeads(m, m', pre[1..]) by {
        forall i | 0 <= i < |pre[1..]| ensures pre[1..][i] == pre[i + 1] {}
      }
      LinkedSplice(m, m', m[chain[0].addr].next, pre[1..], b, post, parts);
      assert (pre + parts)[1..] == pre[1..] + parts;
    }
  }

  //
  // Carving
  //

  /** Normalized requests are multiples of the header size, and the sum tested by `can_provide`
      does not wrap. */
  lemma NormalizeShape(l: Layout)
    requires l.Valid()
    ensures Normalize(l).None? <==> l.size == 0
    ensures Normalize(l).Some? ==>
              var (size, align) := Normalize(l).value;
              && size % HEADER == 0 && align % HEADER == 0 && IsPow2(align)
              && Rounded(l.size, size) && align > 0 && align % l.align == 0
              && align == (if l.align < 32 then 32 else l.align)
              && size + HEADER * 3 + align < U64
  {
    RoundUpIsLeastPow2(l.size);
    Pow2Of64();
    var k: nat :| l.align == Pow2(k);
    if l.size > 0 {
      var p := RoundUpToNearestPow2(l.size).value;
      assert p <= Pow2(63);
      Pow2Injective(k, 63);
      Pow2Monotone(k, 62);
      assert Pow2(63) == 2 * Pow2(62);
      assert Pow2(5) == HEADER;
      if p >= HEADER { LargePow2IsMultiple(p, 5); }
      LeastIsRounded(l.size, p);
      assert IsPow2(32);
      if l.align >= HEADER {
        LargePow2IsMultiple(l.align, 5);
        MulMod(1, l.align);
      } else {
        if k > 5 { Pow2Monotone(5, k); }
        Pow2Monotone(k, 5);
      }
    }
  }

  lemma LeastIsRounded(n: nat, p: nat)
    requires n > 0 && IsPow2(p) && n <= p && forall k: nat :: n <= Pow2(k) ==> p <= Pow2(k)
    ensures p == 1 || p < 2 * n
  {
    var k: nat :| p == Pow2(k);
    if k > 0 {
      var j: nat := k - 1;
      assert Pow2(k) == 2 * Pow2(j);
      assert n <= Pow2(j) ==> p <= Pow2(j);
    }
  }

  /** There is only one rounded size. */
  lemma RoundedUnique(n: nat, a: nat, b: nat)
    requires Rounded(n, a) && Rounded(n, b)
    ensures a == b
  {
    if a < b {
      DoubleAbove(a, b);
    } else if b < a {
      DoubleAbove(b, a);
    }
  }

  lemma DoubleAbove(a: nat, b: nat)
    requires IsPow2(a) && IsPow2(b) && a < b
    ensures b >= 2 * a
  {
    var j: nat :| a == Pow2(j);
    var k: nat :| b == Pow2(k);
    Pow2Injective(j, k);
    Pow2Monotone(j + 1, k);
  }

  /** The pieces tile the carved block exactly. */
  lemma PiecesTile(b: Block, p: nat, size: nat)
    requires PayloadFits(b, p, size)
    ensures Tiles(Pieces(b, p, size), b.addr, b.End(), [])
  {
    var ps := Pieces(b, p, size);
    assert ps[1..][1..] == ps[2..];
    assert Tiles(ps[2..], p + size, b.End(), []);
    assert Tiles(ps[1..], p - HEADER, b.End(), []);
  }

  ghost predicate HeadAt(m: Memory, b: Block, next: Option<nat>) {
    HasHeader(m, b.addr) && m[b.addr] == Head(next, b.size, b.used)
  }

  lemma LinkedCons(m: Memory, b: Block, next: Option<nat>, rest: seq<Block>)
    requires HeadAt(m, b, next) && Linked(m, next, rest)
    ensures Linked(m, Some(b.addr), [b] + rest)
  {
    assert ([b] + rest)[1..] == rest;
  }

  /** The headers of two or three pieces, the last one leading to `next`. */
  ghost predicate PiecesWritten(m: Memory, ps: seq<Block>, next: Option<nat>) {
    && 2 <= |ps| <= 3
    && HeadAt(m, ps[0], Some(ps[1].addr))
    && HeadAt(m, ps[1], if |ps| == 3 then Some(ps[2].addr) else next)
    && (|ps| == 3 ==> HeadAt(m, ps[2], next))
  }

  lemma PiecesLinked(m: Memory, ps: seq<Block>, next: Option<nat>, post: seq<Block>)
    requires PiecesWritten(m, ps, next) && Linked(m, next, post)
    ensures Linked(m, Some(ps[0].addr), ps + post)
  {
    if |ps| == 3 {
      LinkedCons(m, ps[2], next, post);
      LinkedCons(m, ps[1], Some(ps[2].addr), [ps[2]] + post);
      LinkedCons(m, ps[0], Some(ps[1].addr), [ps[1]] + ([ps[2]] + post));
      assert ps + post == [ps[0]] + ([ps[1]] + ([ps[2]] + post));
    } else {
      LinkedCons(m, ps[1], next, post);
      LinkedCons(m, ps[0], Some(ps[1].addr), [ps[1]] + post);
      assert ps + post == [ps[0]] + ([ps[1]] + post);
    }
  }

  /** The memories agree outside block `b`. */
  ghost predicate SameOutside(m: Memory, m': Memory, b: Block) {
    forall x: nat :: !Covers(b, x) ==> SameAt(m, m', x)
  }

  /** A block of whole chunks holds its header. */
  lemma HeaderInside(b: Block, x: nat)
    requires ChunkAligned(b) && b.size > 0 && b.addr <= x < b.addr + HEADER
    ensures Covers(b, x)
  {
  }

  lemma PadHoldsHeader(b: Block, p: nat, size: nat)
    requires ChunkAligned(b) && PayloadFits(b, p, size) && size % HEADER == 0 && p % HEADER == 0
    ensures p + size == b.End() || p + size + HEADER <= b.End()
  {
    MultipleSum(p, size, HEADER);
    MultipleSum(b.addr, b.size, HEADER);
    MultipleDifference(b.End(), p + size, HEADER);
  }

  /** All 32 bytes of every header that is written lie in the carved block, and no header is written
      over another. */
  lemma CarveWritesShape(m: Memory, b: Block, next: Option<nat>, p: nat, size: nat)
    requires ChunkAligned(b) && HasHeader(m, b.addr)
    requires PayloadFits(b, p, size) && size > 0 && size % HEADER == 0 && p % HEADER == 0
    ensures PiecesWritten(CarveWrites(m, b, next, p, size), Pieces(b, p, size), next)
    ensures SameOutside(m, CarveWrites(m, b, next, p, size), b)
  {
    PadHoldsHeader(b, p, size);
    if p + size == b.End() {
      var m1 := TakeExact(m, b, next, p, size);
      ShrinkSelf(m, m1, b, next, p, size);
    } else {
      var m2 := TakePadded(m, b, next, p, size);
      ShrinkSelf(m, m2, b, next, p, size);
    }
  }

  lemma TakeExact(m: Memory, b: Block, next: Option<nat>, p: nat, size: nat) returns (m1: Memory)
    requires HasHeader(m, b.addr) && PayloadFits(b, p, size) && size >= HEADER
    ensures m1 == WriteHeader(m, p - HEADER, Head(next, size + HEADER, true))
    ensures SameOutside(m, m1, b) && HasHeader(m1, b.addr)
    ensures HeadAt(m1, Block(p - HEADER, size + HEADER, true), next)
  {
    var taken := Head(next, size + HEADER, true);
    m1 := WriteHeader(m, p - HEADER, taken);
    Wrote(m, p - HEADER, taken);
    WriteKeeps(m, p - HEADER, taken, b.addr);
    WriteInside(m, m, p - HEADER, taken, b);
  }

  lemma TakePadded(m: Memory, b: Block, next: Option<nat>, p: nat, size: nat) returns (m2: Memory)
    requires HasHeader(m, b.addr) && PayloadFits(b, p, size) && size >= HEADER && p + size + HEADER <= b.End()
    ensures m2 == WriteHeader(WriteHeader(m, p - HEADER, Head(Some(p + size), size + HEADER, true)), p + size, Head(next, b.End() - (p + size), false))
    ensures SameOutside(m, m2, b) && HasHeader(m2, b.addr)
    ensures HeadAt(m2, Block(p - HEADER, size + HEADER, true), Some(p + size)) && HeadAt(m2, Block(p + size, b.End() - (p + size), false), next)
  {
    var m1 := TakeExact(m, b, Some(p + size), p, size);
    var pad := Head(next, b.End() - (p + size), false);
    m2 := WriteHeader(m1, p + size, pad);
    Wrote(m1, p + size, pad);
    WriteKeeps(m1, p + size, pad, b.addr);
    WriteKeeps(m1, p + size, pad, p - HEADER);
    WriteInside(m, m1, p + size, pad, b);
  }

  lemma ShrinkSelf(m: Memory, m1: Memory, b: Block, next: Option<nat>, p: nat, size: nat)
    requires PayloadFits(b, p, size) && size >= HEADER && SameOutside(m, m1, b) && HasHeader(m1, b.addr)
    requires HeadAt(m1, Block(p - HEADER, size + HEADER, true), if p + size == b.End() then next else Some(p + size))
    requires p + size != b.End() ==> HeadAt(m1, Block(p + size, b.End() - (p + size), false), next)
    ensures var m' := m1[b.addr := Head(Some(p - HEADER), p - HEADER - b.addr, false)];
            PiecesWritten(m', Pieces(b, p, size), next) && SameOutside(m, m', b)
  {
    var left := Head(Some(p - HEADER), p - HEADER - b.addr, false);
    SetHeader(m, m1, b, left, p - HEADER);
    if p + size != b.End() {
      SetHeader(m, m1, b, left, p + size);
    }
  }

  /** What writing a header does, address by address. */
  lemma WriteHeaderAt(m: Memory, a: nat, h: Cell, x: nat)
    ensures a < x < a + HEADER ==> RestAt(WriteHeader(m, a, h), x)
    ensures x < a || a + HEADER <= x ==> SameAt(m, WriteHeader(m, a, h), x)
  {
    var m1 := FillRest(m, a + 1, HEADER - 1);
    assert a < x < a + HEADER ==> RestAt(m1, x);
    assert x < a || a + HEADER <= x ==> SameAt(m, m1, x);
  }

  /** A header that was written is there. */
  lemma Wrote(m: Memory, a: nat, h: Cell)
    requires h.Head?
    ensures HasHeader(WriteHeader(m, a, h), a) && WriteHeader(m, a, h)[a] == h
  {
    forall x: nat | a < x < a + HEADER ensures RestAt(WriteHeader(m, a, h), x) {
      WriteHeaderAt(m, a, h, x);
    }
  }

  /** Other headers stay. */
  lemma WriteKeeps(m: Memory, a: nat, h: Cell, c: nat)
    requires HasHeader(m, c) && (c + HEADER <= a || a + HEADER <= c)
    ensures HasHeader(WriteHeader(m, a, h), c) && WriteHeader(m, a, h)[c] == m[c]
  {
    forall x: nat | c <= x < c + HEADER ensures SameAt(m, WriteHeader(m, a, h), x) {
      WriteHeaderAt(m, a, h, x);
    }
    HeaderStays(m, WriteHeader(m, a, h), c);
  }

  /** A header written inside a block changes nothing outside it. */
  lemma WriteInside(m: Memory, m1: Memory, a: nat, h: Cell, b: Block)
    requires SameOutside(m, m1, b) && b.addr <= a && a + HEADER <= b.End()
    ensures SameOutside(m, WriteHeader(m1, a, h), b)
  {
    var m2 := WriteHeader(m1, a, h);
    forall x: nat | !Covers(b, x) ensures SameAt(m, m2, x) {
      assert SameAt(m, m1, x);
      WriteHeaderAt(m1, a, h, x);
    }
  }

  lemma UpdateHeader(m: Memory, a: nat, h: Cell)
    requires HasHeader(m, a) && h.Head?
    ensures HasHeader(m[a := h], a)
  {
    var m' := m[a := h];
    forall x: nat | a < x < a + HEADER ensures RestAt(m', x) {
      assert RestAt(m, x);
    }
  }

  /** Setting the fields of the block's own header. */
  lemma SetHeader(m: Memory, m1: Memory, b: Block, h: Cell, c: nat)
    requires SameOutside(m, m1, b) && b.size > 0 && h.Head? && HasHeader(m1, b.addr)
    requires HasHeader(m1, c) && (c + HEADER <= b.addr || b.addr + HEADER <= c)
    ensures SameOutside(m, m1[b.addr := h], b)
    ensures HasHeader(m1[b.addr := h], b.addr) && HasHeader(m1[b.addr := h], c) && m1[b.addr := h][c] == m1[c]
  {
    var m2 := m1[b.addr := h];
    forall x: nat | !Covers(b, x) ensures SameAt(m, m2, x) {
      assert SameAt(m, m1, x);
    }
    UpdateHeader(m1, b.addr, h);
    forall x: nat | c <= x < c + HEADER ensures SameAt(m1, m2, x) {}
    HeaderStays(m1, m2, c);
  }

  lemma SameOutsideHeads(m: Memory, m': Memory, b: Block, chain: seq<Block>)
    requires SameOutside(m, m', b)
    requires forall i :: 0 <= i < |chain| ==> HeaderApart(chain[i].addr, b)
    ensures SameHeads(m, m', chain)
  {
  }

  ghost predicate HeaderApart(a: nat, b: Block) {
    forall x: nat :: a <= x < a + HEADER ==> !Covers(b, x)
  }

  lemma SpliceLinked(m: Memory, m': Memory, first: Option<nat>, pre: seq<Block>, b: Block, post: seq<Block>, ps: seq<Block>)
    requires Linked(m, first, pre + [b] + post)
    requires SameHeads(m, m', pre) && SameHeads(m, m', post)
    requires PiecesWritten(m', ps, NextOf(pre + [b] + post, |pre|)) && ps[0].addr == b.addr
    ensures Linked(m', first, pre + ps + post)
  {
    var next := NextOf(pre + [b] + post, |pre|);
    LinkedAt(m, first, pre, b, post);
    LinkedFrame(m, m', next, post);
    PiecesLinked(m', ps, next, post);
    LinkedSplice(m, m', first, pre, b, post, ps + post);
    assert pre + (ps + post) == pre + ps + post;
  }

  //
  // Each operation keeps the invariant
  //

  /** Pieces `ps`, number `k` being the one allocation for `l`, in place of the unused block `b`
      add exactly that allocation. */
  lemma SpliceLive(pre: seq<Block>, b: Block, post: seq<Block>, ps: seq<Block>, live: map<nat, Layout>, k: nat, p: nat, l: Layout)
    requires LiveHaveBlocks(pre + [b] + post, live) && !b.used
    requires ServesAt(ps, k, p, l)
    ensures LiveHaveBlocks(pre + ps + post, live[p := l])
  {
    var chain, chain' := pre + [b] + post, pre + ps + post;
    var live' := live[p := l];
    forall q | q in live'
      ensures exists i :: ServesAt(chain', i, q, live'[q])
    {
      if q == p {
        assert ServesAt(chain', |pre| + k, p, l);
      } else {
        var i :| ServesAt(chain, i, q, live[q]);
        assert ServesAt(chain', if i < |pre| then i else i + |ps| - 1, q, live'[q]);
      }
    }
  }

  lemma SpliceUsed(pre: seq<Block>, b: Block, post: seq<Block>, ps: seq<Block>, live: map<nat, Layout>, k: nat, p: nat, l: Layout)
    requires UsedAreLive(pre + [b] + post, live)
    requires ServesAt(ps, k, p, l) && forall j {:trigger UsedAt(ps, j)} :: UsedAt(ps, j) ==> j == k
    ensures UsedAreLive(pre + ps + post, live[p := l])
  {
    var chain, chain' := pre + [b] + post, pre + ps + post;
    forall i | UsedAt(chain', i)
      ensures chain'[i].addr + HEADER in live[p := l]
    {
      if |pre| <= i < |pre| + |ps| {
        assert UsedAt(ps, i - |pre|);
      } else {
        assert UsedAt(chain, if i < |pre| then i else i - |ps| + 1);
      }
    }
  }

  /** Nothing of a block, header or payload, differs between the two memories. */
  ghost predicate Untouched(b: Block, m: Memory, m': Memory) {
    forall x: nat :: Covers(b, x) ==> SameAt(m, m', x)
  }

  /** No other block reaches into block number `i`. */
  lemma OthersOutside(s: State, i: nat)
    requires Inv(s) && i < |s.chain|
    ensures forall j :: 0 <= j < |s.chain| && j != i ==> s.chain[j].size > 0 && forall x: nat :: Covers(s.chain[j], x) ==> !Covers(s.chain[i], x)
  {
    InvPartition(s);
    forall j | 0 <= j < |s.chain|
      ensures s.chain[j].size > 0
    {
      assert s.chain[j] in s.chain;
    }
  }

  /** The header of one block never reaches into another block. */
  lemma HeadersApart(s: State, i: nat)
    requires Inv(s) && i < |s.chain|
    ensures forall j :: 0 <= j < |s.chain| && j != i ==> HeaderApart(s.chain[j].addr, s.chain[i])
  {
    OthersOutside(s, i);
    forall j | 0 <= j < |s.chain| && j != i ensures HeaderApart(s.chain[j].addr, s.chain[i]) {
      assert ChunkAligned(s.chain[j]);
      forall x: nat | s.chain[j].addr <= x < s.chain[j].addr + HEADER ensures !Covers(s.chain[i], x) {
        HeaderInside(s.chain[j], x);
      }
    }
  }

  /** Block number `i` of the chain is what its header in memory says. */
  lemma HeaderAt(s: State, i: nat)
    requires Inv(s) && i < |s.chain|
    ensures HeadAt(s.mem, s.chain[i], NextOf(s.chain, i)) && ChunkAligned(s.chain[i])
  {
    assert s.chain == s.chain[..i] + [s.chain[i]] + s.chain[i + 1..];
    LinkedAt(s.mem, s.first, s.chain[..i], s.chain[i], s.chain[i + 1..]);
    assert s.chain[i] in s.chain;
  }

  ghost predicate Carvable(s: State, i: nat, p: nat, size: nat) {
    && i < |s.chain| && !s.chain[i].used && PayloadFits(s.chain[i], p, size)
    && size > 0 && size % HEADER == 0 && p % HEADER == 0
  }

  lemma CarvedLinked(s: State, i: nat, p: nat, size: nat, l: Layout)
    requires Inv(s) && Carvable(s, i, p, size)
    ensures Linked(Carved(s, i, p, size, l).mem, s.first, Carved(s, i, p, size, l).chain)
  {
    var b, pre, post := s.chain[i], s.chain[..i], s.chain[i + 1..];
    var m' := CarveWrites(s.mem, b, NextOf(s.chain, i), p, size);
    assert s.chain == pre + [b] + post;
    HeaderAt(s, i);
    HeadersApart(s, i);
    CarveWritesShape(s.mem, b, NextOf(s.chain, i), p, size);
    SameOutsideHeads(s.mem, m', b, pre);
    SameOutsideHeads(s.mem, m', b, post);
    SpliceLinked(s.mem, m', s.first, pre, b, post, Pieces(b, p, size));
  }

  lemma PiecesAligned(b: Block, p: nat, size: nat)
    requires ChunkAligned(b) && PayloadFits(b, p, size) && size % HEADER == 0 && p % HEADER == 0
    ensures forall c :: c in Pieces(b, p, size) ==> ChunkAligned(c)
  {
    MultipleDifference(p, HEADER, HEADER);
    MultipleDifference(p - HEADER, b.addr, HEADER);
    MultipleSum(size, HEADER, HEADER);
    MultipleSum(p, size, HEADER);
    MultipleSum(b.addr, b.size, HEADER);
    MultipleDifference(b.End(), p + size, HEADER);
  }

  lemma CarvedAligned(s: State, i: nat, p: nat, size: nat, l: Layout)
    requires i < |s.chain| && PayloadFits(s.chain[i], p, size) && size % HEADER == 0 && p % HEADER == 0
    requires forall b :: b in s.chain ==> ChunkAligned(b)
    ensures forall b :: b in Carved(s, i, p, size, l).chain ==> ChunkAligned(b)
  {
    assert ChunkAligned(s.chain[i]);
    PiecesAligned(s.chain[i], p, size);
    forall b | b in Carved(s, i, p, size, l).chain ensures ChunkAligned(b) {
      assert b in s.chain[..i] || b in Pieces(s.chain[i], p, size) || b in s.chain[i + 1..];
    }
  }

  lemma CarvedLive(s: State, i: nat, p: nat, size: nat, l: Layout)
    requires LiveHaveBlocks(s.chain, s.live) && UsedAreLive(s.chain, s.live) && i < |s.chain| && !s.chain[i].used && PayloadFits(s.chain[i], p, size)
    requires Rounded(l.size, size)
    ensures LiveHaveBlocks(Carved(s, i, p, size, l).chain, s.live[p := l])
    ensures UsedAreLive(Carved(s, i, p, size, l).chain, s.live[p := l])
  {
    var b, ps := s.chain[i], Pieces(s.chain[i], p, size);
    assert s.chain == s.chain[..i] + [b] + s.chain[i + 1..];
    assert ServesAt(ps, 1, p, l);
    SpliceLive(s.chain[..i], b, s.chain[i + 1..], ps, s.live, 1, p, l);
    SpliceUsed(s.chain[..i], b, s.chain[i + 1..], ps, s.live, 1, p, l);
  }

  lemma CarvedKeeps(s: State, i: nat, p: nat, size: nat, l: Layout)
    requires Inv(s) && Carvable(s, i, p, size)
    requires l.align > 0 && p % l.align == 0 && Rounded(l.size, size)
    ensures Inv(Carved(s, i, p, size, l))
  {
    var b := s.chain[i];
    assert s.chain == s.chain[..i] + [b] + s.chain[i + 1..];
    PiecesTile(b, p, size);
    TilesSplice(s.chain[..i], b, s.chain[i + 1..], Pieces(b, p, size), 0, 0, s.regions);
    CarvedLinked(s, i, p, size, l);
    CarvedAligned(s, i, p, size, l);
    CarvedLive(s, i, p, size, l);
  }

  /** The part of an allocation that concerns its caller: null exactly when no block can
      provide; otherwise the first block that can is carved, the payload is aligned, large
      enough and overlaps nothing that was in use. */
  lemma AllocResult(s: State, l: Layout)
    requires Inv(s) && l.Valid()
    ensures var (s', r) := Alloc(s, l);
            && Inv(s')
            && (l.size == 0 ==> r.None?)
            && (r.None? ==> s' == s)
            && s'.regions == s.regions
    ensures l.size > 0 ==>
              && Normalize(l).Some?
              && var (s', r) := Alloc(s, l);
              var (size, align) := Normalize(l).value;
              && (r.None? <==> forall b :: b in s.chain ==> !CanProvide(b, size, align))
              && (r.Some? ==> && s'.live == s.live[r.value := l] && r.value !in s.live && r.value % l.align == 0
                              && exists i :: FirstAble(s.chain, i, size, align) && HighestFit(s.chain[i], r.value, size, align))
    ensures forall i {:trigger UsedAt(s.chain, i)} :: UsedAt(s.chain, i) ==> s.chain[i] in Alloc(s, l).0.chain && Untouched(s.chain[i], s.mem, Alloc(s, l).0.mem)
  {
    NormalizeShape(l);
    if l.size > 0 {
      var (size, align) := Normalize(l).value;
      var i := FirstFit(s.chain, size, align);
      if i < |s.chain| {
        var p := PayloadIn(s.chain[i], size, align);
        MultipleOfMultiple(p, align, HEADER);
        MultipleOfMultiple(p, align, l.align);
        CarvedKeeps(s, i, p, size, l);
        CarvedFrame(s, i, p, size, l);
        CarvedFresh(s, i, p, size);
        assert s.chain[i] in s.chain;
        assert FirstAble(s.chain, i, size, align);
      }
    }
  }

  /** The payload fits and no higher multiple of the alignment would. */
  ghost predicate HighestFit(b: Block, p: nat, size: nat, align: nat) {
    PayloadFits(b, p, size) && align > 0 && p % align == 0 && b.End() < p + align + size
  }

  ghost predicate FirstAble(chain: seq<Block>, i: int, size: nat, align: nat) {
    && 0 <= i < |chain| && CanProvide(chain[i], size, align)
    && forall j :: 0 <= j < i ==> !CanProvide(chain[j], size, align)
  }

  lemma CarvedFrame(s: State, i: nat, p: nat, size: nat, l: Layout)
    requires Inv(s) && Carvable(s, i, p, size)
    ensures forall j {:trigger UsedAt(s.chain, j)} :: UsedAt(s.chain, j) ==> s.chain[j] in Carved(s, i, p, size, l).chain && Untouched(s.chain[j], s.mem, Carved(s, i, p, size, l).mem)
  {
    var s' := Carved(s, i, p, size, l);
    OthersOutside(s, i);
    HeaderAt(s, i);
    CarveWritesShape(s.mem, s.chain[i], NextOf(s.chain, i), p, size);
    forall j | UsedAt(s.chain, j)
      ensures s.chain[j] in s'.chain && Untouched(s.chain[j], s.mem, s'.mem)
    {
      assert if j < i then s.chain[..i][j] == s.chain[j] else s.chain[i + 1..][j - i - 1] == s.chain[j];
    }
  }

  lemma CarvedFresh(s: State, i: nat, p: nat, size: nat)
    requires Inv(s) && i < |s.chain| && !s.chain[i].used && PayloadFits(s.chain[i], p, size) && size > 0
    ensures p !in s.live
  {
    if p in s.live {
      var j :| ServesAt(s.chain, j, p, s.live[p]);
      OthersOutside(s, i);
      assert Covers(s.chain[j], p - HEADER) && Covers(s.chain[i], p - HEADER);
      assert false;
    }
  }

  /** On the layout alone: a request is refused exactly when its size is zero or every block is in use
      or smaller than the rounded size, 96 bytes for three headers, and the alignment, which is at
      least 32. */
  lemma AllocNullExactly(s: State, l: Layout, size: nat, align: nat)
    requires Inv(s) && l.Valid() && align == (if l.align < 32 then 32 else l.align)
    requires Rounded(l.size, size)
    ensures Alloc(s, l).1.None? <==> l.size == 0 || forall b :: b in s.chain ==> b.used || b.size < size + 96 + align
  {
    NormalizeShape(l);
    AllocResult(s, l);
    if l.size > 0 {
      RoundedUnique(l.size, size, Normalize(l).value.0);
      if Alloc(s, l).1.None? {
        forall b | b in s.chain ensures b.used || b.size < size + 96 + align {
          assert !CanProvide(b, size, align);
        }
      } else {
        var i :| FirstAble(s.chain, i, size, align);
        assert s.chain[i] in s.chain;
      }
    }
  }

  /** An allocation takes its rounded size and one header out of the free bytes and nothing else. */
  lemma AllocConserves(s: State, l: Layout, size: nat)
    requires Inv(s) && l.Valid() && Rounded(l.size, size) && Alloc(s, l).1.Some?
    ensures FreeBytes(Alloc(s, l).0.chain) + size + 32 == FreeBytes(s.chain)
  {
    NormalizeShape(l);
    var (size', align) := Normalize(l).value;
    RoundedUnique(l.size, size, size');
    var i := FirstFit(s.chain, size', align);
    var b, p := s.chain[i], PayloadIn(s.chain[i], size', align);
    assert s.chain == s.chain[..i] + ([b] + s.chain[i + 1..]);
    FreeBytesSplice(s.chain[..i], b, s.chain[i + 1..], Pieces(b, p, size'));
    PiecesFree(b, p, size');
  }

  lemma FreeBytesSplice(pre: seq<Block>, b: Block, post: seq<Block>, ps: seq<Block>)
    ensures FreeBytes(pre + ps + post) + FreeBytes([b]) == FreeBytes(pre + ([b] + post)) + FreeBytes(ps)
  {
    FreeBytesConcat(pre + ps, post);
    FreeBytesConcat(pre, ps);
    FreeBytesConcat(pre, [b] + post);
    FreeBytesConcat([b], post);
  }

  lemma PiecesFree(b: Block, p: nat, size: nat)
    requires PayloadFits(b, p, size) && !b.used
    ensures FreeBytes(Pieces(b, p, size)) + size + 32 == FreeBytes([b])
  {
    var ps := Pieces(b, p, size);
    assert ps[1..][1..] == ps[2..];
    assert FreeBytes(ps[2..]) == b.End() - (p + size);
  }

  /** `dealloc` of a live pointer changes one flag: the block stays where it is. */
  lemma FreeKeeps(s: State, p: nat)
    requires Inv(s) && p in s.live
    ensures p >= HEADER && p - HEADER in s.mem && s.mem[p - HEADER].Head?
    ensures Inv(Free(s, p))
    ensures forall i {:trigger UsedAt(s.chain, i)} :: UsedAt(s.chain, i) && s.chain[i].addr + HEADER != p ==> s.chain[i] in Free(s, p).chain && Untouched(s.chain[i], s.mem, Free(s, p).mem)
  {
    var i :| ServesAt(s.chain, i, p, s.live[p]);
    FreedChain(s, i);
    FreedLinked(s, i);
    OtherAddrs(s, i);
    FreeLive(s.chain, i, s.live, p);
    FreeUsed(s.chain, i, s.live, p);
    FreeFrame(s, i, p);
  }

  /** The header of the block in front of `p`, in the chain and in memory, before and after. */
  ghost predicate Released(s: State, s': State, i: int, p: nat) {
    && 0 <= i < |s.chain| && |s'.chain| == |s.chain| && p >= 32
    && s.chain[i].addr == p - 32 && s.chain[i].used
    && s'.chain[i] == Block(p - 32, s.chain[i].size, false)
    && (forall j :: 0 <= j < |s.chain| && j != i ==> s'.chain[j] == s.chain[j])
    && HeadAt(s.mem, s.chain[i], NextOf(s.chain, i)) && HeadAt(s'.mem, s'.chain[i], NextOf(s.chain, i))
  }

  /** What `dealloc` does: `p` is no longer live and every other pointer is, with its layout; the block
      in front of `p` keeps address and size and is unused, in the chain and in its header in memory;
      no other byte of memory changes, and the free bytes grow by the block. */
  lemma FreeReleases(s: State, p: nat)
    requires Inv(s) && p in s.live
    ensures p >= HEADER && p - HEADER in s.mem && s.mem[p - HEADER].Head?
    ensures var s' := Free(s, p);
            && p !in s'.live && (forall q :: q != p ==> (q in s'.live <==> q in s.live) && (q in s.live ==> s'.live[q] == s.live[q]))
            && s'.first == s.first && s'.regions == s.regions
            && (exists i :: Released(s, s', i, p) && FreeBytes(s'.chain) == FreeBytes(s.chain) + s.chain[i].size)
            && forall x: nat :: x != p - 32 ==> SameAt(s.mem, s'.mem, x)
  {
    FreeKeeps(s, p);
    var i :| ServesAt(s.chain, i, p, s.live[p]);
    FreedBlock(s, p, i);
    FreedBytes(s, p, i);
  }

  lemma FreedBytes(s: State, p: nat, i: nat)
    requires Inv(s) && p in s.live && ServesAt(s.chain, i, p, s.live[p])
    ensures FreeBytes(ClearUsed(s.chain, p - HEADER)) == FreeBytes(s.chain) + s.chain[i].size
  {
    FreedChain(s, i);
    FreeBytesFlip(s.chain[..i], s.chain[i], s.chain[i + 1..]);
    assert s.chain == s.chain[..i] + [s.chain[i]] + s.chain[i + 1..];
  }

  lemma FreedBlock(s: State, p: nat, i: nat)
    requires Inv(s) && p in s.live && ServesAt(s.chain, i, p, s.live[p])
    requires p >= HEADER && p - HEADER in s.mem && s.mem[p - HEADER].Head? && Inv(Free(s, p))
    ensures Released(s, Free(s, p), i, p)
  {
    var s' := Free(s, p);
    OtherAddrs(s, i);
    SameNext(s.chain, s'.chain, i);
    HeaderAt(s, i);
    HeaderAt(s', i);
  }

  lemma FreeBytesFlip(pre: seq<Block>, c: Block, post: seq<Block>)
    requires c.used
    ensures FreeBytes(pre + [c.(used := false)] + post) == FreeBytes(pre + [c] + post) + c.size
  {
    FreeBytesConcat(pre + [c.(used := false)], post);
    FreeBytesConcat(pre, [c.(used := false)]);
    FreeBytesConcat(pre + [c], post);
    FreeBytesConcat(pre, [c]);
  }

  lemma SameNext(chain: seq<Block>, chain': seq<Block>, i: nat)
    requires i < |chain| == |chain'| && forall j :: 0 <= j < |chain| && j != i ==> chain'[j] == chain[j]
    ensures NextOf(chain', i) == NextOf(chain, i)
  {
  }

  /** A freed block serves again: a request that it is large enough for, and no block before it, gets
      a payload inside it. */
  lemma FreedIsReused(s: State, p: nat, l: Layout, size: nat, align: nat, i: nat)
    requires Inv(s) && p in s.live && l.Valid() && l.size > 0
    requires Rounded(l.size, size) && align == (if l.align < 32 then 32 else l.align)
    requires i < |s.chain| && s.chain[i].addr == p - 32 && s.chain[i].size >= size + 96 + align
    requires forall j :: 0 <= j < i ==> s.chain[j].used || s.chain[j].size < size + 96 + align
    ensures p >= HEADER && p - HEADER in s.mem && s.mem[p - HEADER].Head?
    ensures var r := Alloc(Free(s, p), l).1;
            r.Some? && p - 32 <= r.value - 32 && r.value + size <= p - 32 + s.chain[i].size
  {
    FreeReleases(s, p);
    var s' := Free(s, p);
    FreeKeeps(s, p);
    var k :| Released(s, s', k, p);
    OtherAddrs(s, k);
    assert k == i;
    NormalizeShape(l);
    RoundedUnique(l.size, size, Normalize(l).value.0);
    AllocResult(s', l);
    assert CanProvide(s'.chain[i], size, align) && s'.chain[i] in s'.chain;
    var m :| FirstAble(s'.chain, m, size, align) && HighestFit(s'.chain[m], Alloc(s', l).1.value, size, align);
    assert m <= i;
    assert forall j :: 0 <= j < i ==> !CanProvide(s'.chain[j], size, align);
  }

  lemma OtherAddrs(s: State, i: nat)
    requires Inv(s) && i < |s.chain|
    ensures s.chain[i].size > 0
    ensures forall j :: 0 <= j < |s.chain| && j != i ==> s.chain[j].addr != s.chain[i].addr
  {
    OthersOutside(s, i);
    TileInside(s.chain, 0, 0, s.regions, i);
    assert Covers(s.chain[i], s.chain[i].addr);
    forall j | 0 <= j < |s.chain| && j != i ensures s.chain[j].addr != s.chain[i].addr {
      assert Covers(s.chain[j], s.chain[j].addr);
    }
  }

  /** Clearing the flag of block `i` keeps the tiling and the alignment of all blocks. */
  lemma FreedChain(s: State, i: nat)
    requires Inv(s) && i < |s.chain|
    ensures ClearUsed(s.chain, s.chain[i].addr) == s.chain[..i] + [s.chain[i].(used := false)] + s.chain[i + 1..]
    ensures Tiles(ClearUsed(s.chain, s.chain[i].addr), 0, 0, s.regions)
    ensures forall b :: b in ClearUsed(s.chain, s.chain[i].addr) ==> ChunkAligned(b)
  {
    var c, pre, post := s.chain[i], s.chain[..i], s.chain[i + 1..];
    var c' := c.(used := false);
    OtherAddrs(s, i);
    assert ClearUsed(s.chain, c.addr) == pre + [c'] + post;
    assert s.chain == pre + [c] + post;
    assert Tiles([c'][1..], c.End(), c.End(), []);
    assert Tiles([c'], c.addr, c.End(), []);
    TilesSplice(pre, c, post, [c'], 0, 0, s.regions);
    forall b | b in pre + [c'] + post ensures ChunkAligned(b) {
      assert b in pre || b == c' || b in post;
      assert ChunkAligned(c);
    }
  }

  lemma FreedLinked(s: State, i: nat)
    requires Inv(s) && i < |s.chain|
    ensures s.chain[i].addr in s.mem && s.mem[s.chain[i].addr].Head?
    ensures Linked(s.mem[s.chain[i].addr := s.mem[s.chain[i].addr].(used := false)], s.first,
                   s.chain[..i] + [s.chain[i].(used := false)] + s.chain[i + 1..])
  {
    var c, pre, post := s.chain[i], s.chain[..i], s.chain[i + 1..];
    assert s.chain == pre + [c] + post;
    LinkedAt(s.mem, s.first, pre, c, post);
    HeadersApart(s, i);
    OtherAddrs(s, i);
    forall j | 0 <= j < |s.chain| && j != i ensures !InHeader(s.chain[j], c.addr) {
      assert HeaderApart(s.chain[j].addr, c);
      assert Covers(c, c.addr);
    }
    forall j | 0 <= j < |pre| ensures !InHeader(pre[j], c.addr) {
      assert pre[j] == s.chain[j];
    }
    forall j | 0 <= j < |post| ensures !InHeader(post[j], c.addr) {
      assert post[j] == s.chain[i + 1 + j];
    }
    FreeLinked(s.mem, s.mem[c.addr := s.mem[c.addr].(used := false)], s.first, pre, c, post);
  }

  ghost predicate InHeader(b: Block, x: nat) {
    b.addr <= x < b.addr + HEADER
  }

  lemma FreeLinked(m: Memory, m': Memory, first: Option<nat>, pre: seq<Block>, c: Block, post: seq<Block>)
    requires Linked(m, first, pre + [c] + post)
    requires c.addr in m && m[c.addr].Head? && m' == m[c.addr := m[c.addr].(used := false)]
    requires forall j :: 0 <= j < |pre| ==> !InHeader(pre[j], c.addr)
    requires forall j :: 0 <= j < |post| ==> !InHeader(post[j], c.addr)
    ensures Linked(m', first, pre + [c.(used := false)] + post)
  {
    var c' := c.(used := false);
    LinkedAt(m, first, pre, c, post);
    LinkedFrame(m, m', m[c.addr].next, post);
    UpdateHeader(m, c.addr, m[c.addr].(used := false));
    LinkedCons(m', c', m[c.addr].next, post);
    LinkedSplice(m, m', first, pre, c, post, [c'] + post);
    assert pre + ([c'] + post) == pre + [c'] + post;
  }

  lemma FreeLive(chain: seq<Block>, i: nat, live: map<nat, Layout>, p: nat)
    requires LiveHaveBlocks(chain, live) && i < |chain| && p == chain[i].addr + HEADER
    ensures LiveHaveBlocks(ClearUsed(chain, chain[i].addr), live - {p})
  {
    var chain', live' := ClearUsed(chain, chain[i].addr), live - {p};
    forall q | q in live'
      ensures exists j :: ServesAt(chain', j, q, live'[q])
    {
      var j :| ServesAt(chain, j, q, live[q]);
      assert ServesAt(chain', j, q, live'[q]);
    }
  }

  lemma FreeUsed(chain: seq<Block>, i: nat, live: map<nat, Layout>, p: nat)
    requires UsedAreLive(chain, live) && i < |chain| && p == chain[i].addr + HEADER
    ensures UsedAreLive(ClearUsed(chain, chain[i].addr), live - {p})
  {
    var chain', live' := ClearUsed(chain, chain[i].addr), live - {p};
    forall j | UsedAt(chain', j)
      ensures chain'[j].addr + HEADER in live'
    {
      assert UsedAt(chain, j);
    }
  }

  lemma FreeFrame(s: State, i: nat, p: nat)
    requires Inv(s) && i < |s.chain| && p == s.chain[i].addr + HEADER
    requires s.chain[i].addr in s.mem && s.mem[s.chain[i].addr].Head?
    ensures forall j {:trigger UsedAt(s.chain, j)} :: UsedAt(s.chain, j) && s.chain[j].addr + HEADER != p ==> s.chain[j] in Free(s, p).chain && Untouched(s.chain[j], s.mem, Free(s, p).mem)
  {
    OthersOutside(s, i);
    OtherAddrs(s, i);
    assert Covers(s.chain[i], s.chain[i].addr);
    forall j | UsedAt(s.chain, j) && s.chain[j].addr + HEADER != p
      ensures s.chain[j] in Free(s, p).chain && Untouched(s.chain[j], s.mem, Free(s, p).mem)
    {
      assert Free(s, p).chain[j] == s.chain[j];
    }
  }

  /** No block reaches into a region that is apart from all added ones. */
  lemma BlocksOutside(s: State, b: Block)
    requires Inv(s) && forall i :: 0 <= i < |s.regions| ==> Apart(Region(b.addr, b.End()), s.regions[i])
    ensures forall i :: 0 <= i < |s.chain| ==> s.chain[i].size > 0 && forall x: nat :: Covers(s.chain[i], x) ==> !Covers(b, x)
  {
    forall i | 0 <= i < |s.chain|
      ensures s.chain[i].size > 0 && forall x: nat :: Covers(s.chain[i], x) ==> !Covers(b, x)
    {
      TileInside(s.chain, 0, 0, s.regions, i);
      var r :| r in s.regions && Inside(s.chain[i], r);
      assert Apart(Region(b.addr, b.End()), r);
    }
  }

  lemma AddLinked(s: State, b: Block)
    requires Inv(s) && b.size >= HEADER && forall i :: 0 <= i < |s.regions| ==> Apart(Region(b.addr, b.End()), s.regions[i])
    ensures Linked(WriteHeader(s.mem, b.addr, Head(s.first, b.size, b.used)), Some(b.addr), [b] + s.chain)
  {
    var m' := WriteHeader(s.mem, b.addr, Head(s.first, b.size, b.used));
    BlocksOutside(s, b);
    forall i | 0 <= i < |s.chain| ensures HeaderApart(s.chain[i].addr, b) {
      assert ChunkAligned(s.chain[i]);
      forall x: nat | s.chain[i].addr <= x < s.chain[i].addr + HEADER ensures !Covers(b, x) {
        HeaderInside(s.chain[i], x);
      }
    }
    WriteInside(s.mem, s.mem, b.addr, Head(s.first, b.size, b.used), b);
    Wrote(s.mem, b.addr, Head(s.first, b.size, b.used));
    SameOutsideHeads(s.mem, m', b, s.chain);
    LinkedFrame(s.mem, m', s.first, s.chain);
    LinkedCons(m', b, s.first, s.chain);
  }

  lemma AddTiles(chain: seq<Block>, regions: seq<Region>, b: Block)
    requires Tiles(chain, 0, 0, regions) && b.size > 0
    ensures Tiles([b] + chain, 0, 0, [Region(b.addr, b.End())] + regions)
  {
    assert ([b] + chain)[1..] == chain && ([Region(b.addr, b.End())] + regions)[1..] == regions;
    assert Tiles(chain, b.End(), b.End(), regions);
    assert Tiles([b] + chain, b.addr, b.End(), regions);
  }

  lemma AddRegionsOk(rs: seq<Region>, r: Region)
    requires RegionsOk(rs) && 0 < r.start < r.end < U64 && r.start % PAGE == 0 && r.end % PAGE == 0
    requires forall i :: 0 <= i < |rs| ==> Apart(r, rs[i])
    ensures RegionsOk([r] + rs)
  {
  }

  /** A new region in front of the chain. */
  lemma AddKeeps(s: State, start: nat, pages: nat)
    requires Inv(s) && NewRegion(s, start, pages)
    ensures Inv(AddRegion(s, start, pages))
    ensures var s' := AddRegion(s, start, pages);
            && s'.regions == [Region(start, start + pages * 4096)] + s.regions
            && s'.chain == [Block(start, pages * 4096, false)] + s.chain
            && s'.live == s.live && FreeBytes(s'.chain) == FreeBytes(s.chain) + pages * 4096
    ensures forall i {:trigger UsedAt(s.chain, i)} :: UsedAt(s.chain, i) ==> Untouched(s.chain[i], s.mem, AddRegion(s, start, pages).mem)
  {
    var b := Block(start, pages * PAGE, false);
    PageArithmetic(start, pages);
    AddTiles(s.chain, s.regions, b);
    AddLinked(s, b);
    AddRegionsOk(s.regions, Region(start, b.End()));
    AddLive(s.chain, b, s.live);
    AddAligned(s.chain, b);
    AddFrame(s, b);
    FreeBytesConcat([b], s.chain);
  }

  lemma PageArithmetic(start: nat, pages: nat)
    requires start % PAGE == 0
    ensures (start + pages * PAGE) % PAGE == 0 && start % HEADER == 0 && (pages * PAGE) % HEADER == 0
  {
    MulMod(pages, PAGE);
    MultipleSum(start, pages * PAGE, PAGE);
    MultipleOfMultiple(start, PAGE, HEADER);
    MultipleOfMultiple(pages * PAGE, PAGE, HEADER);
  }

  lemma AddFrame(s: State, b: Block)
    requires Inv(s) && b.size >= HEADER && forall i :: 0 <= i < |s.regions| ==> Apart(Region(b.addr, b.End()), s.regions[i])
    ensures forall i {:trigger UsedAt(s.chain, i)} :: UsedAt(s.chain, i) ==> Untouched(s.chain[i], s.mem, WriteHeader(s.mem, b.addr, Head(s.first, b.size, b.used)))
  {
    BlocksOutside(s, b);
    WriteInside(s.mem, s.mem, b.addr, Head(s.first, b.size, b.used), b);
  }

  lemma AddAligned(chain: seq<Block>, b: Block)
    requires ChunkAligned(b) && forall c :: c in chain ==> ChunkAligned(c)
    ensures forall c :: c in [b] + chain ==> ChunkAligned(c)
  {
  }

  ghost predicate NewRegion(s: State, start: nat, pages: nat) {
    && 0 < start && 0 < pages && start % PAGE == 0 && start + pages * PAGE < U64
    && forall i :: 0 <= i < |s.regions| ==> Apart(Region(start, start + pages * PAGE), s.regions[i])
  }

  lemma AddLive(chain: seq<Block>, b: Block, live: map<nat, Layout>)
    requires LiveHaveBlocks(chain, live) && UsedAreLive(chain, live) && !b.used
    ensures LiveHaveBlocks([b] + chain, live) && UsedAreLive([b] + chain, live)
  {
    forall p | p in live
      ensures exists i :: ServesAt([b] + chain, i, p, live[p])
    {
      var i :| ServesAt(chain, i, p, live[p]);
      assert ServesAt([b] + chain, i + 1, p, live[p]);
    }
    forall i | UsedAt([b] + chain, i)
      ensures ([b] + chain)[i].addr + HEADER in live
    {
      assert UsedAt(chain, i - 1);
    }
  }

  /** A client writes one byte. */
  function Store(s: State, at: nat, value: int): State {
    s.(mem := s.mem[at := Data(value)])
  }

  ghost predicate InPayload(s: State, p: nat, at: nat) {
    p in s.live && p <= at < p + s.live[p].size
  }

  /** No byte of any header, of a used block or of a free one, lies in a live payload. */
  lemma HeadersClearOfPayloads(s: State, p: nat, j: nat, x: nat)
    requires Inv(s) && InPayload(s, p, x) && j < |s.chain|
    ensures !InHeader(s.chain[j], x)
  {
    var i :| ServesAt(s.chain, i, p, s.live[p]);
    HeadersApart(s, i);
    assert Covers(s.chain[i], x);
    assert j != i ==> HeaderApart(s.chain[j].addr, s.chain[i]);
  }

  /** A client that writes inside its own payload leaves all 32 bytes of every header alone. */
  lemma StoreKeeps(s: State, p: nat, at: nat, value: int)
    requires Inv(s) && InPayload(s, p, at)
    ensures Inv(Store(s, at, value)) && SameHeads(s.mem, Store(s, at, value).mem, s.chain)
  {
    forall j | 0 <= j < |s.chain| ensures SameHeader(s.mem, Store(s, at, value).mem, s.chain[j].addr) {
      HeadersClearOfPayloads(s, p, j, at);
    }
    LinkedFrame(s.mem, Store(s, at, value).mem, s.first, s.chain);
  }

  //
  // Runs
  //

  datatype Op =
    | AddOp(start: nat, pages: nat)
    | AllocOp(layout: Layout)
    | FreeOp(ptr: nat)
    | StoreOp(owner: nat, at: nat, value: int)

  /** What the allocator demands of its callers. */
  ghost predicate Legal(s: State, op: Op) {
    match op
    case AddOp(start, pages) => NewRegion(s, start, pages)
    case AllocOp(l) => l.Valid()
    case FreeOp(p) => p in s.live
    case StoreOp(p, at, _) => InPayload(s, p, at)
  }

  ghost function Step(s: State, op: Op): State
    requires Inv(s) && Legal(s, op)
  {
    match op
    case AddOp(start, pages) => AddRegion(s, start, pages)
    case AllocOp(l) => Alloc(s, l).0
    case FreeOp(p) => FreeKeeps(s, p); Free(s, p)
    case StoreOp(_, at, v) => Store(s, at, v)
  }

  lemma StepKeeps(s: State, op: Op)
    requires Inv(s) && Legal(s, op)
    ensures Inv(Step(s, op))
  {
    match op
    case AddOp(start, pages) => AddKeeps(s, start, pages);
    case AllocOp(l) => AllocResult(s, l);
    case FreeOp(p) => FreeKeeps(s, p);
    case StoreOp(p, at, v) => StoreKeeps(s, p, at, v);
  }

  ghost predicate LegalRun(s: State, ops: seq<Op>)
    requires Inv(s)
    decreases |ops|
  {
    ops == [] || (Legal(s, ops[0]) && (StepKeeps(s, ops[0]); LegalRun(Step(s, ops[0]), ops[1..])))
  }

  /** The state after a run; the invariant holds there, whatever the run was. */
  ghost function Run(s: State, ops: seq<Op>): (s': State)
    requires Inv(s) && LegalRun(s, ops)
    ensures Inv(s')
    decreases |ops|
  {
    if ops == [] then s else
      StepKeeps(s, ops[0]);
      Run(Step(s, ops[0]), ops[1..])
  }

  /** Two live allocations share no byte of header or payload. */
  lemma LivePayloadsDisjoint(s: State, p: nat, q: nat, x: nat)
    requires Inv(s) && p in s.live && q in s.live && p != q
    requires p - HEADER <= x < p + s.live[p].size
    ensures !(q - HEADER <= x < q + s.live[q].size)
  {
    var i :| ServesAt(s.chain, i, p, s.live[p]);
    var j :| ServesAt(s.chain, j, q, s.live[q]);
    OthersOutside(s, j);
    assert Covers(s.chain[i], x);
  }

  /** Freed by the run, or written by its own client during the run. */
  ghost predicate Mentions(op: Op, p: nat) {
    op == FreeOp(p) || (op.StoreOp? && op.owner == p)
  }

  ghost predicate PayloadSame(s: State, s': State, p: nat)
    requires p in s.live
  {
    forall x: nat :: p <= x < p + s.live[p].size ==> SameAt(s.mem, s'.mem, x)
  }

  lemma StepStable(s: State, op: Op, p: nat)
    requires Inv(s) && Legal(s, op) && p in s.live && !Mentions(op, p)
    ensures p in Step(s, op).live && Step(s, op).live[p] == s.live[p] && PayloadSame(s, Step(s, op), p)
  {
    var i :| ServesAt(s.chain, i, p, s.live[p]);
    assert UsedAt(s.chain, i);
    if op.StoreOp? {
      if p <= op.at < p + s.live[p].size {
        LivePayloadsDisjoint(s, p, op.owner, op.at);
        assert false;
      }
    } else {
      StepLeaves(s, op, i, p);
      UntouchedPayload(s, Step(s, op), i, p);
    }
  }

  /** No call touches a used block other than the one it frees. */
  lemma StepLeaves(s: State, op: Op, i: nat, p: nat)
    requires Inv(s) && Legal(s, op) && !op.StoreOp? && p in s.live && UsedAt(s.chain, i) && p == s.chain[i].addr + HEADER && op != FreeOp(p)
    ensures Untouched(s.chain[i], s.mem, Step(s, op).mem)
    ensures p in Step(s, op).live && Step(s, op).live[p] == s.live[p]
  {
    match op
    case AddOp(start, pages) => AddKeeps(s, start, pages);
    case AllocOp(l) => AllocLeaves(s, l, i, p);
    case FreeOp(q) => FreeKeeps(s, q);
  }

  lemma AllocLeaves(s: State, l: Layout, i: nat, p: nat)
    requires Inv(s) && l.Valid() && p in s.live && UsedAt(s.chain, i)
    ensures Untouched(s.chain[i], s.mem, Alloc(s, l).0.mem)
    ensures p in Alloc(s, l).0.live && Alloc(s, l).0.live[p] == s.live[p]
  {
    AllocResult(s, l);
  }

  lemma UntouchedPayload(s: State, s': State, i: nat, p: nat)
    requires p in s.live && ServesAt(s.chain, i, p, s.live[p]) && Untouched(s.chain[i], s.mem, s'.mem)
    ensures PayloadSame(s, s', p)
  {
    forall x: nat | p <= x < p + s.live[p].size ensures Covers(s.chain[i], x) {}
  }

  /** Over a whole run, an allocation that the run neither frees nor writes through its own
      pointer is still live with its layout, and its bytes are what they were. */
  lemma {:induction false} RunStable(s: State, ops: seq<Op>, p: nat)
    requires Inv(s) && LegalRun(s, ops) && p in s.live
    requires forall i :: 0 <= i < |ops| ==> !Mentions(ops[i], p)
    ensures p in Run(s, ops).live && Run(s, ops).live[p] == s.live[p] && PayloadSame(s, Run(s, ops), p)
    decreases |ops|
  {
    if ops != [] {
      StepKeeps(s, ops[0]);
      StepStable(s, ops[0], p);
      RunStable(Step(s, ops[0]), ops[1..], p);
      PayloadSameTrans(s, Step(s, ops[0]), Run(Step(s, ops[0]), ops[1..]), p);
    }
  }

  lemma PayloadSameTrans(s: State, s1: State, s2: State, p: nat)
    requires p in s.live && p in s1.live && s1.live[p] == s.live[p] && PayloadSame(s, s1, p) && PayloadSame(s1, s2, p)
    ensures PayloadSame(s, s2, p)
  {
    forall x: nat | p <= x < p + s.live[p].size ensures SameAt(s.mem, s2.mem, x) {
      assert SameAt(s.mem, s1.mem, x) && SameAt(s1.mem, s2.mem, x);
    }
  }

  /** The operation hands out `p`. */
  ghost predicate HandsOut(s: State, op: Op, p: nat)
    requires Inv(s) && Legal(s, op)
  {
    op.AllocOp? && Alloc(s, op.layout).1 == Some(p)
  }

  /** Whether `p` is in the hands of a client after a run, by what the run did with it last. */
  ghost predicate HeldAfter(s: State, ops: seq<Op>, p: nat, held: bool)
    requires Inv(s) && LegalRun(s, ops)
    decreases |ops|
  {
    if ops == [] then held else
      StepKeeps(s, ops[0]);
      HeldAfter(Step(s, ops[0]), ops[1..], p, HandsOut(s, ops[0], p) || (held && ops[0] != FreeOp(p)))
  }

  lemma StepLive(s: State, op: Op, p: nat)
    requires Inv(s) && Legal(s, op)
    ensures p in Step(s, op).live <==> HandsOut(s, op, p) || (p in s.live && op != FreeOp(p))
  {
    match op
    case AddOp(start, pages) => AddKeeps(s, start, pages);
    case AllocOp(l) => AllocResult(s, l);
    case FreeOp(q) => FreeReleases(s, q);
    case StoreOp(q, at, v) =>
  }

  /** Over every run a pointer is live exactly from the call that hands it out to the call that frees
      it: once freed it stays free until it is handed out again. */
  lemma {:induction false} RunLiveExactly(s: State, ops: seq<Op>, p: nat)
    requires Inv(s) && LegalRun(s, ops)
    ensures p in Run(s, ops).live <==> HeldAfter(s, ops, p, p in s.live)
    decreases |ops|
  {
    if ops != [] {
      StepKeeps(s, ops[0]);
      StepLive(s, ops[0], p);
      RunLiveExactly(Step(s, ops[0]), ops[1..], p);
    }
  }

  /** Every run from the empty heap ends in a partition of the regions it added into blocks whose
      sizes are positive multiples of 32 and whose ends are representable addresses. */
  lemma RunPartitions(ops: seq<Op>)
    requires LegalRun(EMPTY, ops)
    ensures var s := Run(EMPTY, ops);
            && (forall i, j :: 0 <= i < j < |s.chain| ==> s.chain[i].End() <= s.chain[j].addr || s.chain[j].End() <= s.chain[i].addr)
            && (forall x: nat, r :: r in s.regions && Contains(r, x) ==> exists b :: b in s.chain && Covers(b, x))
            && (forall b :: b in s.chain ==> 0 < b.size && b.size % HEADER == 0 && b.End() < U64)
            && SumSizes(s.chain) == SumRegions(s.regions)
  {
    InvPartition(Run(EMPTY, ops));
  }

  /** Where a run has left a live allocation, it is aligned, lies behind an intact header inside one
      added region, shares no byte of header or payload with any other, and its payload meets no
      byte of the header of any block, used or free. */
  lemma RunServes(ops: seq<Op>, p: nat)
    requires LegalRun(EMPTY, ops) && p in Run(EMPTY, ops).live
    ensures var s := Run(EMPTY, ops);
            && s.live[p].align > 0 && p % s.live[p].align == 0
            && (exists r :: r in s.regions && r.start <= p - HEADER && p + s.live[p].size <= r.end)
            && OwnHeader(s.mem, p, s.live[p])
            && (forall q, x: nat :: q in s.live && q != p && p - HEADER <= x < p + s.live[p].size ==> !InAllocation(s, q, x))
            && (forall j, x: nat :: 0 <= j < |s.chain| && p <= x < p + s.live[p].size ==> !InHeader(s.chain[j], x))
  {
    var s := Run(EMPTY, ops);
    var i :| ServesAt(s.chain, i, p, s.live[p]);
    TileInside(s.chain, 0, 0, s.regions, i);
    HeaderAt(s, i);
    OverlapsNothing(s, p);
  }

  lemma OverlapsNothing(s: State, p: nat)
    requires Inv(s) && p in s.live
    ensures forall q, x: nat :: q in s.live && q != p && p - HEADER <= x < p + s.live[p].size ==> !InAllocation(s, q, x)
    ensures forall j, x: nat :: 0 <= j < |s.chain| && p <= x < p + s.live[p].size ==> !InHeader(s.chain[j], x)
  {
    forall j, x: nat | 0 <= j < |s.chain| && p <= x < p + s.live[p].size ensures !InHeader(s.chain[j], x) {
      HeadersClearOfPayloads(s, p, j, x);
    }
    forall q, x: nat | q in s.live && q != p && p - HEADER <= x < p + s.live[p].size
      ensures !InAllocation(s, q, x)
    {
      LivePayloadsDisjoint(s, p, q, x);
    }
  }

  /** In front of `p` there is an intact header of a used block that holds the rounded size. */
  ghost predicate OwnHeader(m: Memory, p: nat, l: Layout) {
    && p >= 32 && HasHeader(m, p - 32) && m[p - 32].used
    && m[p - 32].size >= 32 && Rounded(l.size, m[p - 32].size - 32)
  }

  ghost predicate InAllocation(s: State, q: nat, x: nat) {
    q in s.live && q - HEADER <= x < q + s.live[q].size
  }
}
