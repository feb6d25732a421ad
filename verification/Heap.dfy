/** The first-fit heap of os/src/allocator.rs as a value: memory by address, the header chain
    threaded through it, and what the invariant of the allocator means. */
module Heap {
  import opened Common
  import opened BitMath

  const HEADER: nat := 32
  const PAGE: nat := 4096

  /** What is stored at an address. A header occupies 32 of them: its fields are kept at the first,
      and the other 31 are marked as its `Rest`. `Data` is a client's byte. */
  datatype Cell = Head(next: Option<nat>, size: nat, used: bool) | Rest | Data(value: int)

  type Memory = map<nat, Cell>

  /** The memories agree on what is stored at `x`. */
  predicate SameAt(m: Memory, m': Memory, x: nat) {
    (x in m <==> x in m') && (x in m ==> m[x] == m'[x])
  }

  predicate RestAt(m: Memory, x: nat) {
    x in m && m[x] == Rest
  }

  function FillRest(m: Memory, from: nat, n: nat): (m': Memory)
    ensures forall x: nat {:trigger RestAt(m', x)} :: from <= x < from + n ==> RestAt(m', x)
    ensures forall x: nat {:trigger SameAt(m, m', x)} :: x < from || from + n <= x ==> SameAt(m, m', x)
    decreases n
  {
    if n == 0 then m else
      FillRestStep(m, FillRest(m, from, n - 1), from, n);
      FillRest(m, from, n - 1)[from + n - 1 := Rest]
  }

  lemma FillRestStep(m: Memory, m1: Memory, from: nat, n: nat)
    requires n > 0
    requires forall x: nat {:trigger RestAt(m1, x)} :: from <= x < from + n - 1 ==> RestAt(m1, x)
    requires forall x: nat {:trigger SameAt(m, m1, x)} :: x < from || from + n - 1 <= x ==> SameAt(m, m1, x)
    ensures var m' := m1[from + n - 1 := Rest];
            && (forall x: nat {:trigger RestAt(m', x)} :: from <= x < from + n ==> RestAt(m', x))
            && (forall x: nat {:trigger SameAt(m, m', x)} :: x < from || from + n <= x ==> SameAt(m, m', x))
  {
    var m' := m1[from + n - 1 := Rest];
    forall x: nat | from <= x < from + n ensures RestAt(m', x) {
      assert x < from + n - 1 ==> RestAt(m1, x);
    }
    forall x: nat | x < from || from + n <= x ensures SameAt(m, m', x) {
      assert SameAt(m, m1, x);
    }
  }

  /** Writes a whole header, over whatever was stored at its 32 addresses. */
  function WriteHeader(m: Memory, a: nat, h: Cell): Memory {
    FillRest(m, a + 1, HEADER - 1)[a := h]
  }

  /** An intact header: nobody has written to any of its 32 addresses. */
  ghost predicate HasHeader(m: Memory, a: nat) {
    a in m && m[a].Head? && forall x: nat {:trigger RestAt(m, x)} :: a < x < a + HEADER ==> RestAt(m, x)
  }

  datatype Block = Block(addr: nat, size: nat, used: bool) {
    function End(): nat { addr + size }
  }

  datatype Region = Region(start: nat, end: nat)

  /** A Rust `Layout`: a power-of-two alignment, and a size that stays below 2^63 when rounded
      up to it. */
  datatype Layout = Layout(size: nat, align: nat) {
    ghost predicate Valid() {
      IsPow2(align) && size + align <= U64 / 2
    }
  }

  /** `first` and `mem` are the program's state. The added regions (latest first), the blocks in
      chain order and the pointers handed out and not yet freed record how it came about. */
  datatype State = State(
    first: Option<nat>,
    mem: Memory,
    regions: seq<Region>,
    chain: seq<Block>,
    live: map<nat, Layout>)

  const EMPTY := State(None, map[], [], [], map[])

  //
  // Operations
  //

  /** The size and alignment `provide` works with, or `None` if the size cannot be rounded. */
  function Normalize(l: Layout): Option<(nat, nat)>
    requires l.size < U64
  {
    match RoundUpToNearestPow2(l.size)
    case Err => None
    case Ok(p) => Some((if p < HEADER then HEADER else p, if l.align < HEADER then HEADER else l.align))
  }

  predicate CanProvide(b: Block, size: nat, align: nat) {
    !b.used && b.size >= size + HEADER * 3 + align
  }

  /** Address given to the client when `b` is carved from its high end. */
  function PayloadIn(b: Block, size: nat, align: nat): (p: nat)
    requires align > 0 && CanProvide(b, size, align)
    ensures p % align == 0 && PayloadFits(b, p, size)
  {
    AlignDown(b.End() - size, align)
  }

  /** Room for the header of `b`, the header of the allocation and its payload. */
  predicate PayloadFits(b: Block, p: nat, size: nat) {
    b.addr + 2 * HEADER <= p && p + size <= b.End()
  }

  /** The blocks that replace `b`: what is left of it, the allocation, and padding if any. */
  function Pieces(b: Block, p: nat, size: nat): seq<Block>
    requires PayloadFits(b, p, size)
  {
    var left := Block(b.addr, p - HEADER - b.addr, false);
    var taken := Block(p - HEADER, size + HEADER, true);
    var pad := b.End() - (p + size);
    if pad == 0 then [left, taken] else [left, taken, Block(p + size, pad, false)]
  }

  /** The header writes of `provide`; `next` is the successor of `b`. */
  function CarveWrites(m: Memory, b: Block, next: Option<nat>, p: nat, size: nat): Memory
    requires PayloadFits(b, p, size)
  {
    var pad := b.End() - (p + size);
    var m' := if pad == 0 then WriteHeader(m, p - HEADER, Head(next, size + HEADER, true))
              else WriteHeader(
                     WriteHeader(m, p - HEADER, Head(Some(p + size), size + HEADER, true)),
                     p + size, Head(next, pad, false));
    m'[b.addr := Head(Some(p - HEADER), p - HEADER - b.addr, false)]
  }

  /** Index of the first block that can provide, or the length of the chain. */
  function FirstFit(chain: seq<Block>, size: nat, align: nat): (i: nat)
    ensures i <= |chain|
    ensures i < |chain| ==> CanProvide(chain[i], size, align)
    ensures forall j :: 0 <= j < i ==> !CanProvide(chain[j], size, align)
  {
    if chain == [] then 0
    else if CanProvide(chain[0], size, align) then 0
    else 1 + FirstFit(chain[1..], size, align)
  }

  function NextOf(chain: seq<Block>, i: nat): Option<nat> {
    if i + 1 < |chain| then Some(chain[i + 1].addr) else None
  }

  /** The state after carving the payload `p` for `l` out of block number `i`. */
  function Carved(s: State, i: nat, p: nat, size: nat, l: Layout): State
    requires i < |s.chain| && PayloadFits(s.chain[i], p, size)
  {
    State(
      s.first,
      CarveWrites(s.mem, s.chain[i], NextOf(s.chain, i), p, size),
      s.regions,
      s.chain[..i] + Pieces(s.chain[i], p, size) + s.chain[i + 1..],
      s.live[p := l])
  }

  /** `alloc_with_options`: the new state and the pointer, `None` for null. */
  function Alloc(s: State, l: Layout): (State, Option<nat>)
    requires l.size < U64
  {
    match Normalize(l)
    case None => (s, None)
    case Some((size, align)) =>
      var i := FirstFit(s.chain, size, align);
      if i == |s.chain| then (s, None) else
        var p := PayloadIn(s.chain[i], size, align);
        (Carved(s, i, p, size, l), Some(p))
  }

  function ClearUsed(chain: seq<Block>, addr: nat): (r: seq<Block>)
    ensures |r| == |chain|
    ensures forall i :: 0 <= i < |chain| ==> r[i] == if chain[i].addr == addr then chain[i].(used := false) else chain[i]
  {
    seq(|chain|, i requires 0 <= i < |chain| =>
      if chain[i].addr == addr then chain[i].(used := false) else chain[i])
  }

  /** `dealloc`: clears the flag of the header in front of the payload. */
  function Free(s: State, p: nat): State
    requires p >= HEADER && p - HEADER in s.mem && s.mem[p - HEADER].Head?
  {
    var a := p - HEADER;
    s.(mem := s.mem[a := s.mem[a].(used := false)], chain := ClearUsed(s.chain, a), live := s.live - {p})
  }

  /** `add_free_from_descriptor`: the new region becomes the first block of the chain. */
  function AddRegion(s: State, start: nat, pages: nat): State {
    State(
      Some(start),
      WriteHeader(s.mem, start, Head(s.first, pages * PAGE, false)),
      [Region(start, start + pages * PAGE)] + s.regions,
      [Block(start, pages * PAGE, false)] + s.chain,
      s.live)
  }

  //
  // Invariant
  //

  /** `chain` is what following the headers from `first` reads, and each of them is intact. */
  ghost predicate Linked(m: Memory, first: Option<nat>, chain: seq<Block>)
    decreases |chain|
  {
    if chain == [] then first.None?
    else
      var b := chain[0];
      && first == Some(b.addr)
      && HasHeader(m, b.addr)
      && m[b.addr].size == b.size
      && m[b.addr].used == b.used
      && Linked(m, m[b.addr].next, chain[1..])
  }

  /** `chain` covers `[pos, end)` and then every region of `rest`, in order, without gap or
      overlap. */
  ghost predicate Tiles(chain: seq<Block>, pos: nat, end: nat, rest: seq<Region>)
    decreases |chain| + |rest|
  {
    if pos == end then
      if rest == [] then chain == [] else Tiles(chain, rest[0].start, rest[0].end, rest[1..])
    else
      && pos < end
      && chain != []
      && chain[0].addr == pos
      && chain[0].size > 0
      && Tiles(chain[1..], pos + chain[0].size, end, rest)
  }

  ghost predicate Apart(a: Region, b: Region) {
    a.end <= b.start || b.end <= a.start
  }

  ghost predicate Contains(r: Region, x: nat) {
    r.start <= x < r.end
  }

  ghost predicate RegionsOk(rs: seq<Region>) {
    && (forall i :: 0 <= i < |rs| ==> 0 < rs[i].start < rs[i].end < U64 && rs[i].start % PAGE == 0 && rs[i].end % PAGE == 0)
    && (forall i, j :: 0 <= i < j < |rs| ==> Apart(rs[i], rs[j]))
  }

  ghost predicate ChunkAligned(b: Block) {
    b.addr % HEADER == 0 && b.size % HEADER == 0
  }

  /** `size` is `n` bytes rounded up to a power of two, and to no less than 32. */
  ghost predicate Rounded(n: nat, size: nat) {
    IsPow2(size) && n <= size && 32 <= size && (size == 32 || size < 2 * n)
  }

  /** Block `b` holds the allocation at `p` with layout `l`: a header and the rounded size. */
  ghost predicate Serves(b: Block, p: nat, l: Layout) {
    && b.used
    && p == b.addr + HEADER
    && b.size >= HEADER && Rounded(l.size, b.size - HEADER)
  }

  ghost predicate LiveAligned(live: map<nat, Layout>) {
    forall p :: p in live ==> live[p].align > 0 && p % live[p].align == 0
  }

  ghost predicate ServesAt(chain: seq<Block>, i: int, p: nat, l: Layout) {
    0 <= i < |chain| && Serves(chain[i], p, l)
  }

  ghost predicate UsedAt(chain: seq<Block>, i: int) {
    0 <= i < |chain| && chain[i].used
  }

  ghost predicate LiveHaveBlocks(chain: seq<Block>, live: map<nat, Layout>) {
    forall p :: p in live ==> exists i :: ServesAt(chain, i, p, live[p])
  }

  ghost predicate UsedAreLive(chain: seq<Block>, live: map<nat, Layout>) {
    forall i {:trigger UsedAt(chain, i)} :: UsedAt(chain, i) ==> chain[i].addr + HEADER in live
  }

  ghost predicate Inv(s: State) {
    && Linked(s.mem, s.first, s.chain)
    && Tiles(s.chain, 0, 0, s.regions)
    && RegionsOk(s.regions)
    && (forall b :: b in s.chain ==> ChunkAligned(b))
    && LiveHaveBlocks(s.chain, s.live)
    && UsedAreLive(s.chain, s.live)
    && LiveAligned(s.live)
  }

  //
  // Consequences of tiling
  //

  ghost predicate Covers(b: Block, x: nat) {
    b.addr <= x < b.End()
  }

  ghost predicate Inside(b: Block, r: Region) {
    r.start <= b.addr && b.End() <= r.end
  }

  lemma {:induction false} TileInside(chain: seq<Block>, pos: nat, end: nat, rest: seq<Region>, i: nat)
    requires Tiles(chain, pos, end, rest) && i < |chain|
    ensures chain[i].size > 0
    ensures Inside(chain[i], Region(pos, end)) || exists r :: r in rest && Inside(chain[i], r)
    decreases |chain| + |rest|
  {
    if pos == end {
      TileInside(chain, rest[0].start, rest[0].end, rest[1..], i);
      if Inside(chain[i], Region(rest[0].start, rest[0].end)) {
        assert Region(rest[0].start, rest[0].end) == rest[0];
        assert rest[0] in rest;
      }
    } else {
      if i > 0 {
        TileInside(chain[1..], pos + chain[0].size, end, rest, i - 1);
        assert chain[i] == chain[1..][i - 1];
      } else {
        TilePosBound(chain[1..], pos + chain[0].size, end, rest);
      }
    }
  }

  lemma TilePosBound(chain: seq<Block>, pos: nat, end: nat, rest: seq<Region>)
    requires Tiles(chain, pos, end, rest)
    ensures pos <= end
  {
  }

  /** Blocks at different positions of a tiling do not overlap. */
  lemma {:induction false} TileDisjoint(chain: seq<Block>, pos: nat, end: nat, rest: seq<Region>, i: nat, j: nat)
    requires Tiles(chain, pos, end, rest) && i < j < |chain|
    requires RegionsOk(rest) && forall r :: r in rest ==> Apart(Region(pos, end), r)
    ensures chain[i].End() <= chain[j].addr || chain[j].End() <= chain[i].addr
    decreases |chain| + |rest|
  {
    if pos == end {
      assert forall r :: r in rest[1..] ==> exists k :: 1 <= k < |rest| && rest[k] == r;
      assert Region(rest[0].start, rest[0].end) == rest[0];
      assert RegionsOk(rest[1..]);
      TileDisjoint(chain, rest[0].start, rest[0].end, rest[1..], i, j);
    } else {
      var tail := chain[1..];
      var pos' := pos + chain[0].size;
      TilePosBound(tail, pos', end, rest);
      if i == 0 {
        TileInside(tail, pos', end, rest, j - 1);
        assert chain[j] == tail[j - 1];
      } else {
        TileDisjoint(tail, pos', end, rest, i - 1, j - 1);
      }
    }
  }

  /** Every address of a region lies in some block. */
  lemma {:induction false} TileCovers(chain: seq<Block>, pos: nat, end: nat, rest: seq<Region>, x: nat)
    requires Tiles(chain, pos, end, rest)
    requires pos <= x < end || exists r :: r in rest && Contains(r, x)
    ensures exists b :: b in chain && Covers(b, x)
    decreases |chain| + |rest|
  {
    if pos == end {
      var r :| r in rest && Contains(r, x);
      assert r == rest[0] || r in rest[1..];
      TileCovers(chain, rest[0].start, rest[0].end, rest[1..], x);
    } else if Covers(chain[0], x) {
    } else {
      TileCovers(chain[1..], pos + chain[0].size, end, rest, x);
      var b :| b in chain[1..] && Covers(b, x);
      assert b in chain;
    }
  }

  /** Bytes in blocks that are not in use, headers included. */
  function FreeBytes(chain: seq<Block>): nat {
    if chain == [] then 0 else (if chain[0].used then 0 else chain[0].size) + FreeBytes(chain[1..])
  }

  lemma {:induction false} FreeBytesConcat(a: seq<Block>, b: seq<Block>)
    ensures FreeBytes(a + b) == FreeBytes(a) + FreeBytes(b)
  {
    if a == [] {
      assert a + b == b;
    } else {
      FreeBytesConcat(a[1..], b);
      assert (a + b)[1..] == a[1..] + b;
    }
  }

  function SumSizes(chain: seq<Block>): nat {
    if chain == [] then 0 else chain[0].size + SumSizes(chain[1..])
  }

  function SumRegions(rs: seq<Region>): int {
    if rs == [] then 0 else rs[0].end - rs[0].start + SumRegions(rs[1..])
  }

  lemma {:induction false} TileSum(chain: seq<Block>, pos: nat, end: nat, rest: seq<Region>)
    requires Tiles(chain, pos, end, rest)
    ensures SumSizes(chain) == end - pos + SumRegions(rest)
    decreases |chain| + |rest|
  {
    if pos == end {
      if rest != [] {
        TileSum(chain, rest[0].start, rest[0].end, rest[1..]);
      }
    } else {
      TileSum(chain[1..], pos + chain[0].size, end, rest);
    }
  }

  /** In every state that satisfies the invariant the blocks partition the added memory. */
  lemma InvPartition(s: State)
    requires Inv(s)
    ensures forall i, j :: 0 <= i < j < |s.chain| ==>
              s.chain[i].End() <= s.chain[j].addr || s.chain[j].End() <= s.chain[i].addr
    ensures forall b :: b in s.chain ==> b.size > 0 && b.size % HEADER == 0 && exists r :: r in s.regions && Inside(b, r)
    ensures forall x: nat, r :: r in s.regions && Contains(r, x) ==> exists b :: b in s.chain && Covers(b, x)
    ensures SumSizes(s.chain) == SumRegions(s.regions)
  {
    forall i, j | 0 <= i < j < |s.chain|
      ensures s.chain[i].End() <= s.chain[j].addr || s.chain[j].End() <= s.chain[i].addr
    {
      TileDisjoint(s.chain, 0, 0, s.regions, i, j);
    }
    forall b | b in s.chain
      ensures b.size > 0 && b.size % HEADER == 0 && exists r :: r in s.regions && Inside(b, r)
    {
      var i :| 0 <= i < |s.chain| && s.chain[i] == b;
      assert ChunkAligned(b);
      TileInside(s.chain, 0, 0, s.regions, i);
    }
    forall x: nat, r | r in s.regions && Contains(r, x)
      ensures exists b :: b in s.chain && Covers(b, x)
    {
      TileCovers(s.chain, 0, 0, s.regions, x);
    }
    TileSum(s.chain, 0, 0, s.regions);
  }
}
