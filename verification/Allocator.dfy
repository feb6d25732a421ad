/** `FirstFitAllocator` of os/src/allocator.rs, working in place on the memory it manages. */
module Allocator {
  import opened Common
  import opened BitMath
  import opened Heap
  import opened HeapRuns

  ghost predicate Serviceable(b: Block, l: Layout)
    requires l.size < U64
  {
    match Normalize(l)
    case None => false
    case Some((size, align)) => CanProvide(b, size, align)
  }

  /** Once no block before `i` can serve and block `i` can, it is the one that is carved. */
  lemma AllocAt(s: State, l: Layout, i: nat)
    requires l.Valid() && i < |s.chain| && Serviceable(s.chain[i], l) && NoneBefore(s.chain, l, i)
    ensures var (size, align) := Normalize(l).value;
            align > 0 && Alloc(s, l) == (Carved(s, i, PayloadIn(s.chain[i], size, align), size, l), Some(PayloadIn(s.chain[i], size, align)))
  {
    NormalizeShape(l);
    var (size, align) := Normalize(l).value;
    var k := FirstFit(s.chain, size, align);
    assert k < i ==> !Serviceable(s.chain[k], l);
  }

  lemma AllocNone(s: State, l: Layout)
    requires l.Valid() && NoneBefore(s.chain, l, |s.chain|)
    ensures Alloc(s, l) == (s, None)
  {
    NormalizeShape(l);
    if l.size > 0 {
      var (size, align) := Normalize(l).value;
      var k := FirstFit(s.chain, size, align);
      assert k < |s.chain| ==> !Serviceable(s.chain[k], l);
    }
  }

  ghost predicate NoneBefore(chain: seq<Block>, l: Layout, i: nat)
    requires l.size < U64
  {
    forall j :: 0 <= j < i && j < |chain| ==> !Serviceable(chain[j], l)
  }

  lemma AllocInv(s: State, l: Layout)
    requires Inv(s) && l.Valid()
    ensures Inv(Alloc(s, l).0)
  {
    AllocResult(s, l);
  }

  class FirstFitAllocator {
    var first: Option<nat>
    var mem: Memory
    ghost var regions: seq<Region>
    ghost var chain: seq<Block>
    ghost var live: map<nat, Layout>

    ghost function View(): State
      reads this
    {
      State(first, mem, regions, chain, live)
    }

    ghost predicate Valid()
      reads this
    {
      Inv(View())
    }

    constructor ()
      ensures Valid() && View() == EMPTY
    {
      first, mem := None, map[];
      regions, chain, live := [], [], map[];
    }

    /** `Header::provide` on the header at `h`, block number `i` of the chain. */
    method Provide(h: nat, l: Layout, ghost i: nat) returns (r: Option<nat>)
      requires Valid() && l.Valid() && i < |chain| && chain[i].addr == h
      modifies this
      ensures r.None? ==> View() == old(View()) && !Serviceable(chain[i], l)
      ensures r.Some? ==>
                && Normalize(l).Some?
                && var (size, align) := Normalize(l).value;
                && CanProvide(old(chain[i]), size, align)
                && r.value == PayloadIn(old(chain[i]), size, align)
                && View() == Carved(old(View()), i, r.value, size, l)
    {
      HeaderAt(View(), i);
      NormalizeShape(l);
      var request := Normalize(l);
      if request.None? {
        return None;
      }
      var (size, align) := request.value;
      if mem[h].used || mem[h].size < size + HEADER * 3 + align {
        return None;
      }
      var payload := ClearBits(h + mem[h].size - size, align - 1);
      ghost var k: nat :| align == Pow2(k);
      ClearLowBits(h + mem[h].size - size, k);
      assert payload == PayloadIn(chain[i], size, align);
      MultipleOfMultiple(payload, align, HEADER);
      Carve(h, payload, size, l, i);
      r := Some(payload);
    }

    /** The second half of `provide`: headers for the allocation and for padding, and a smaller self. */
    method Carve(h: nat, payload: nat, size: nat, l: Layout, ghost i: nat)
      requires i < |chain| && chain[i].addr == h && HeadAt(mem, chain[i], NextOf(chain, i))
      requires ChunkAligned(chain[i]) && Carvable(View(), i, payload, size)
      modifies this
      ensures View() == Carved(old(View()), i, payload, size, l)
    {
      ghost var b := chain[i];
      PadHoldsHeader(b, payload, size);
      var self := mem[h];
      var end := h + self.size;
      var used := size + HEADER;
      WriteHeaderAt(mem, payload - HEADER, Head(self.next, size + HEADER, true), h);
      if payload + size == end {
        mem := WriteHeader(mem, payload - HEADER, Head(self.next, size + HEADER, true));
      } else {
        // Make a header for padding, which takes over the successor
        mem := WriteHeader(mem, payload - HEADER, Head(Some(payload + size), size + HEADER, true));
        WriteHeaderAt(old(mem), payload - HEADER, Head(Some(payload + size), size + HEADER, true), h);
        WriteHeaderAt(mem, payload + size, Head(self.next, end - (payload + size), false), h);
        mem := WriteHeader(mem, payload + size, Head(self.next, end - (payload + size), false));
        used := used + (end - (payload + size));
      }
      // Shrink self
      assert self.size >= used + HEADER;
      mem := mem[h := mem[h].(size := self.size - used, next := Some(payload - HEADER))];

      chain := chain[..i] + Pieces(b, payload, size) + chain[i + 1..];
      live := live[payload := l];
    }

    /** Walks the chain from the first header until one of them provides. */
    method AllocWithOptions(l: Layout) returns (p: Option<nat>)
      requires Valid() && l.Valid()
      modifies this
      ensures Valid()
      ensures (View(), p) == Alloc(old(View()), l)
    {
      AllocInv(View(), l);
      var header := first;
      ghost var i := 0;
      while header.Some?
        invariant View() == old(View()) && 0 <= i <= |chain|
        invariant header == if i < |chain| then Some(chain[i].addr) else None
        invariant NoneBefore(chain, l, i)
        decreases |chain| - i
      {
        HeaderAt(View(), i);
        ghost var s := View();
        var r := Provide(header.value, l, i);
        if r.Some? {
          AllocAt(s, l, i);
          return r;
        }
        header := mem[header.value].next;
        i := i + 1;
      }
      AllocNone(View(), l);
      p := None;
    }

    /** Marks the block in front of a live pointer as free. */
    method Dealloc(p: nat)
      requires Valid() && p in live
      modifies this
      ensures Valid()
      ensures p - HEADER in old(mem) && old(mem)[p - HEADER].Head? && View() == Free(old(View()), p)
    {
      FreeKeeps(View(), p);
      var region := p - HEADER;
      mem := mem[region := mem[region].(used := false)];
      chain := ClearUsed(chain, region);
      live := live - {p};
    }

    /** Makes the pages of a memory descriptor the first block of the chain. */
    method AddFreeFromDescriptor(start: nat, pages: nat)
      requires Valid() && NewRegion(View(), start, pages)
      modifies this
      ensures Valid()
      ensures View() == AddRegion(old(View()), start, pages)
    {
      AddKeeps(View(), start, pages);
      var prevLast := first;
      mem := WriteHeader(mem, start, Head(None, pages * PAGE, false));
      first := Some(start);
      mem := mem[start := mem[start].(next := prevLast)];
      regions := [Region(start, start + pages * PAGE)] + regions;
      chain := [Block(start, pages * PAGE, false)] + chain;
      assert View() == AddRegion(old(View()), start, pages);
    }
  }
}
