/** `create_mapping` and `translate` against a flat map from virtual page to physical page. */
module Mapping {
  import opened Common
  import opened PageTable
  import BitMath

  //
  // Operations
  //

  /** After `ensure_populated` the entry leads one level down; no last-level entry has changed. */
  lemma EnsureKeeps(s: State, t: nat, i: nat)
    requires Inv(s) && IsTable(s, t) && |s.place[t]| < 3 && i < ENTRIES
    requires NeedsTable(s, t, i) ==> s.pool != []
    ensures var s' := Populate(s, t, i);
            && Inv(s')
            && IsTable(s', Base(Entry(s', t, i)))
            && s'.place[Base(Entry(s', t, i))] == s.place[t] + [i]
            && |s'.pool| + 1 >= |s.pool|
    ensures forall v: nat :: Leaf(Populate(s, t, i), Indices(v)) == Leaf(s, Indices(v))
  {
    if NeedsTable(s, t, i) {
      PopulateKeeps(s, t, i);
      PopulateShape(s, t, i);
      NewEntry(s.pool[0]);
      forall v: nat ensures Leaf(Populate(s, t, i), Indices(v)) == Leaf(s, Indices(v)) {
        PopulateLeaf(s, t, i, Indices(v));
      }
    } else {
      assert LinkOk(s, t, i);
    }
  }

  ghost predicate CanDescend(s: State, t: nat, p: seq<nat>) {
    Inv(s) && IsTable(s, t) && |s.place[t]| + |p| == 3 && IsPath(p)
  }

  /** Walks down from table `t`, populating on the way; `None` if the allocator runs dry. */
  function Descend(s: State, t: nat, p: seq<nat>): Option<(State, nat)>
    requires CanDescend(s, t, p)
    decreases |p|
  {
    if p == [] then Some((s, t))
    else if NeedsTable(s, t, p[0]) && s.pool == [] then None
    else
      EnsureKeeps(s, t, p[0]);
      var s' := Populate(s, t, p[0]);
      Descend(s', Base(Entry(s', t, p[0])), p[1..])
  }

  lemma {:induction false} DescendKeeps(s: State, t: nat, p: seq<nat>)
    requires CanDescend(s, t, p)
    ensures |s.pool| >= |p| ==> Descend(s, t, p).Some?
    ensures Descend(s, t, p).Some? ==>
              var (s', t') := Descend(s, t, p).value;
              && Inv(s') && IsTable(s', t') && s'.place[t'] == s.place[t] + p
              && |s'.pool| + |p| >= |s.pool|
              && forall v: nat :: Leaf(s', Indices(v)) == Leaf(s, Indices(v))
    decreases |p|
  {
    if p == [] {
      assert s.place[t] + p == s.place[t];
    } else if NeedsTable(s, t, p[0]) && s.pool == [] {
    } else {
      EnsureKeeps(s, t, p[0]);
      var s' := Populate(s, t, p[0]);
      DescendKeeps(s', Base(Entry(s', t, p[0])), p[1..]);
      assert s.place[t] + [p[0]] + p[1..] == s.place[t] + p;
    }
  }

  /** One iteration of the loop in `create_mapping`. */
  function MapPage(s: State, addr: nat, phys: nat, attr: PageAttr): (State, Status)
    requires Inv(s)
  {
    match Descend(s, s.root, Indices(addr)[..3])
    case None => (s, OutOfMemory)
    case Some((s', t)) =>
      DescendKeeps(s, s.root, Indices(addr)[..3]);
      if phys % PAGE != 0 then (s', Failed)
      else (SetEntry(s', t, Indices(addr)[3], phys + attr.Bits()), Done)
  }

  lemma MapPageKeeps(s: State, addr: nat, phys: nat, attr: PageAttr)
    requires Inv(s)
    ensures var (s', status) := MapPage(s, addr, phys, attr);
            && Inv(s')
            && (|s.pool| >= 3 ==> status != OutOfMemory)
            && (status.Done? ==> phys % PAGE == 0 && |s'.pool| + 3 >= |s.pool|)
            && (phys % PAGE == 0 ==> !status.Failed?)
  {
    var p := Indices(addr);
    DescendKeeps(s, s.root, p[..3]);
    if Descend(s, s.root, p[..3]).Some? && phys % PAGE == 0 {
      var (s', t) := Descend(s, s.root, p[..3]).value;
      SetKeeps(s', t, p[3], phys + attr.Bits());
    }
  }

  /** Mapping a page sets its last-level entry and no other. */
  lemma MapPageLeaf(s: State, addr: nat, phys: nat, attr: PageAttr, v: nat)
    requires Inv(s) && MapPage(s, addr, phys, attr).1.Done?
    ensures Leaf(MapPage(s, addr, phys, attr).0, Indices(v)) == if Indices(v) == Indices(addr) then phys + attr.Bits() else Leaf(s, Indices(v))
  {
    var p := Indices(addr);
    DescendKeeps(s, s.root, p[..3]);
    var (s', t) := Descend(s, s.root, p[..3]).value;
    assert s'.place[t] + [p[3]] == p;
    SetLeaf(s', t, p[3], phys + attr.Bits(), Indices(v));
  }

  datatype Request = Request(start: nat, end: nat, phys: nat, attr: PageAttr)

  /** The rest of the loop from page `addr` on. */
  function MapFrom(s: State, r: Request, addr: nat): (State, Status)
    requires Inv(s) && r.start <= addr
    decreases r.end - addr
  {
    if addr >= r.end then (s, Done) else
      MapPageKeeps(s, addr, r.phys + addr - r.start, r.attr);
      var (s', status) := MapPage(s, addr, r.phys + addr - r.start, r.attr);
      if status != Done then (s', status) else MapFrom(s', r, addr + PAGE)
  }

  predicate Aligned(r: Request) {
    r.start % PAGE == 0 && r.end % PAGE == 0 && r.phys % PAGE == 0
  }

  function CreateMapping(s: State, r: Request): (State, Status)
    requires Inv(s)
  {
    if !Aligned(r) then (s, Failed) else MapFrom(s, r, r.start)
  }

  //
  // The flat map
  //

  datatype Mapped = Mapped(phys: nat, attr: PageAttr)

  /** The page an address names: bits 12 to 47. */
  function PageOf(v: nat): nat { v / PAGE % 0x10_0000_0000 }

  function FlatEntry(flat: map<nat, Mapped>, v: nat): nat {
    if PageOf(v) in flat then flat[PageOf(v)].phys + flat[PageOf(v)].attr.Bits() else 0
  }

  function FlatFrom(flat: map<nat, Mapped>, r: Request, addr: nat): map<nat, Mapped>
    requires r.start <= addr
    decreases r.end - addr
  {
    if addr >= r.end then flat
    else FlatFrom(flat[PageOf(addr) := Mapped(r.phys + addr - r.start, r.attr)], r, addr + PAGE)
  }

  function FlatMapping(flat: map<nat, Mapped>, r: Request): map<nat, Mapped> {
    if !Aligned(r) then flat else FlatFrom(flat, r, r.start)
  }

  function FlatTranslate(flat: map<nat, Mapped>, v: nat): Result<nat> {
    if PageOf(v) in flat && flat[PageOf(v)].attr != NotPresent then Ok(flat[PageOf(v)].phys) else Err
  }

  /** The four indices and the page determine each other. */
  lemma IndicesOfPage(a: nat, b: nat)
    ensures Indices(a) == Indices(b) <==> PageOf(a) == PageOf(b)
  {
    PageFromIndices(a);
    PageFromIndices(b);
    var p, q := Indices(a), Indices(b);
    if PageOf(a) == PageOf(b) {
      RadixUnique(p[0], p[1], p[2], p[3], q[0], q[1], q[2], q[3]);
      assert p == q;
    }
  }

  lemma PageFromIndices(a: nat)
    ensures var p := Indices(a); PageOf(a) == ((p[0] * 512 + p[1]) * 512 + p[2]) * 512 + p[3]
  {
    var n := a / PAGE;
    assert a / 0x20_0000 == n / 512;
    assert a / 0x4000_0000 == n / 512 / 512;
    assert a / 0x80_0000_0000 == n / 512 / 512 / 512;
  }

  lemma RadixUnique(a: nat, b: nat, c: nat, d: nat, a': nat, b': nat, c': nat, d': nat)
    requires b < 512 && c < 512 && d < 512 && b' < 512 && c' < 512 && d' < 512
    requires ((a * 512 + b) * 512 + c) * 512 + d == ((a' * 512 + b') * 512 + c') * 512 + d'
    ensures a == a' && b == b' && c == c' && d == d'
  {
  }

  //
  // Agreement
  //

  ghost predicate Agrees(s: State, flat: map<nat, Mapped>) {
    forall v: nat :: Leaf(s, Indices(v)) == FlatEntry(flat, v)
  }

  ghost predicate FlatAligned(flat: map<nat, Mapped>) {
    forall k :: k in flat ==> flat[k].phys % PAGE == 0
  }

  /** One turn of the loop on an aligned request. */
  lemma MapStep(s: State, flat: map<nat, Mapped>, r: Request, addr: nat) returns (s': State, status: Status)
    requires Inv(s) && Aligned(r) && r.start <= addr < r.end && addr % PAGE == 0
    ensures Inv(s') && !status.Failed? && (|s.pool| >= 3 ==> status.Done?)
    ensures MapFrom(s, r, addr) == if status.Done? then MapFrom(s', r, addr + PAGE) else (s', status)
    ensures status.Done? ==> |s'.pool| + 3 >= |s.pool|
    ensures status.Done? && Agrees(s, flat) ==> Agrees(s', flat[PageOf(addr) := Mapped(r.phys + addr - r.start, r.attr)])
  {
    var phys := r.phys + addr - r.start;
    AlignedOffset(r, addr);
    MapPageKeeps(s, addr, phys, r.attr);
    var step := MapPage(s, addr, phys, r.attr);
    s', status := step.0, step.1;
    if status.Done? && Agrees(s, flat) {
      MapPageAgrees(s, flat, addr, phys, r.attr);
    }
  }

  /** The loop keeps the two in step page by page, whatever happens to be mapped already. */
  lemma {:induction false} MapFromAgrees(s: State, flat: map<nat, Mapped>, r: Request, addr: nat)
    requires Inv(s) && Agrees(s, flat) && Aligned(r) && r.start <= addr && addr % PAGE == 0
    ensures !MapFrom(s, r, addr).1.Failed?
    ensures MapFrom(s, r, addr).1.Done? ==> Agrees(MapFrom(s, r, addr).0, FlatFrom(flat, r, addr))
    decreases r.end - addr
  {
    if addr < r.end {
      NextPage(addr);
      var s', status := MapStep(s, flat, r, addr);
      if status.Done? {
        MapFromAgrees(s', flat[PageOf(addr) := Mapped(r.phys + addr - r.start, r.attr)], r, addr + PAGE);
      }
    }
  }

  lemma {:induction false} MapFromFits(s: State, r: Request, addr: nat, pages: nat)
    requires Inv(s) && Aligned(r) && r.start <= addr && addr % PAGE == 0
    requires addr + PAGE * pages >= r.end && |s.pool| >= 3 * pages
    ensures MapFrom(s, r, addr).1.Done? && |MapFrom(s, r, addr).0.pool| + 3 * pages >= |s.pool|
    decreases r.end - addr
  {
    if addr < r.end {
      NextPage(addr);
      var s', status := MapStep(s, map[], r, addr);
      MapFromFits(s', r, addr + PAGE, pages - 1);
    }
  }

  lemma {:induction false} FlatFromAligned(flat: map<nat, Mapped>, r: Request, addr: nat)
    requires FlatAligned(flat) && Aligned(r) && r.start <= addr && addr % PAGE == 0
    ensures FlatAligned(FlatFrom(flat, r, addr))
    decreases r.end - addr
  {
    if addr < r.end {
      AlignedOffset(r, addr);
      NextPage(addr);
      FlatFromAligned(flat[PageOf(addr) := Mapped(r.phys + addr - r.start, r.attr)], r, addr + PAGE);
    }
  }

  lemma MapPageAgrees(s: State, flat: map<nat, Mapped>, addr: nat, phys: nat, attr: PageAttr)
    requires Inv(s) && Agrees(s, flat) && MapPage(s, addr, phys, attr).1.Done?
    ensures Agrees(MapPage(s, addr, phys, attr).0, flat[PageOf(addr) := Mapped(phys, attr)])
  {
    var s', flat' := MapPage(s, addr, phys, attr).0, flat[PageOf(addr) := Mapped(phys, attr)];
    forall v: nat ensures Leaf(s', Indices(v)) == FlatEntry(flat', v) {
      MapPageLeaf(s, addr, phys, attr, v);
      IndicesOfPage(v, addr);
    }
  }

  lemma AlignedOffset(r: Request, addr: nat)
    requires Aligned(r) && r.start <= addr && addr % PAGE == 0
    ensures (r.phys + addr - r.start) % PAGE == 0
  {
    BitMath.MultipleSum(r.phys, addr, PAGE);
    BitMath.MultipleDifference(r.phys + addr, r.start, PAGE);
  }

  lemma NextPage(addr: nat)
    requires addr % PAGE == 0
    ensures (addr + PAGE) % PAGE == 0
  {
    BitMath.ModAddSelf(addr, PAGE);
  }

  /** A call fails exactly on a misaligned argument, and then changes nothing; it can run out of
      memory only with fewer than three free pages per mapped page; otherwise the tables agree
      with the updated flat map. */
  lemma CreateMappingAgrees(s: State, flat: map<nat, Mapped>, r: Request)
    requires Inv(s) && Agrees(s, flat) && FlatAligned(flat)
    ensures CreateMapping(s, r).1.Failed? <==> r.start % 4096 != 0 || r.end % 4096 != 0 || r.phys % 4096 != 0
    ensures CreateMapping(s, r).1.Failed? ==> CreateMapping(s, r).0 == s
    ensures Inv(CreateMapping(s, r).0)
    ensures Aligned(r) && |s.pool| >= 3 * PageCount(r) ==> CreateMapping(s, r).1.Done?
    ensures !CreateMapping(s, r).1.OutOfMemory? ==>
              Agrees(CreateMapping(s, r).0, FlatMapping(flat, r)) && FlatAligned(FlatMapping(flat, r))
  {
    CreateMappingInv(s, r);
    if Aligned(r) {
      MapFromAgrees(s, flat, r, r.start);
      FlatFromAligned(flat, r, r.start);
      if |s.pool| >= 3 * PageCount(r) {
        MapFromFits(s, r, r.start, PageCount(r));
      }
    }
  }

  function PageCount(r: Request): nat {
    if r.end <= r.start then 0 else (r.end - r.start + PAGE - 1) / PAGE
  }

  lemma AgreesTranslate(s: State, flat: map<nat, Mapped>, v: nat)
    requires Agrees(s, flat) && FlatAligned(flat)
    ensures Translate(s, v) == FlatTranslate(flat, v)
  {
    assert Leaf(s, Indices(v)) == FlatEntry(flat, v);
    if PageOf(v) in flat {
      EntryDecodes(flat[PageOf(v)].phys, flat[PageOf(v)].attr);
    }
  }

  lemma EntryDecodes(phys: nat, attr: PageAttr)
    requires phys % PAGE == 0
    ensures Base(phys + attr.Bits()) == phys
    ensures Present(phys + attr.Bits()) <==> attr != NotPresent
    ensures Writable(phys + attr.Bits()) <==> attr != NotPresent
    ensures User(phys + attr.Bits()) <==> attr == ReadWriteUser
  {
    BitMath.LowBits(phys / PAGE, attr.Bits());
  }

  /** Cache control: both bits are set exactly for device memory, and no bit outside the attributes
      is. */
  lemma EntryCaching(phys: nat, attr: PageAttr)
    requires phys % PAGE == 0
    ensures WriteThrough(phys + attr.Bits()) <==> attr == ReadWriteIo
    ensures CacheDisable(phys + attr.Bits()) <==> attr == ReadWriteIo
    ensures OtherBits(phys + attr.Bits()) == 0
  {
    BitMath.LowBits(phys / PAGE, attr.Bits());
    BitMath.PageBit(phys / PAGE, attr.Bits(), 8, 256);
    BitMath.PageBit(phys / PAGE, attr.Bits(), 16, 128);
  }

  /** Address and attribute are determined by the entry. */
  lemma EntriesDiffer(phys: nat, attr: PageAttr, phys': nat, attr': PageAttr)
    requires phys % PAGE == 0 && phys' % PAGE == 0
    ensures phys + attr.Bits() == phys' + attr'.Bits() <==> phys == phys' && attr == attr'
  {
    EntryDecodes(phys, attr);
    EntryDecodes(phys', attr');
    EntryCaching(phys, attr);
    EntryCaching(phys', attr');
  }

  //
  // Runs
  //

  /** All calls in order; `None` once the allocator has run dry. */
  function Run(s: State, rs: seq<Request>): Option<State>
    requires Inv(s)
    decreases |rs|
  {
    if rs == [] then Some(s) else
      var (s', status) := CreateMapping(s, rs[0]);
      CreateMappingInv(s, rs[0]);
      if status == OutOfMemory then None else Run(s', rs[1..])
  }

  function FlatRun(flat: map<nat, Mapped>, rs: seq<Request>): map<nat, Mapped>
    decreases |rs|
  {
    if rs == [] then flat else FlatRun(FlatMapping(flat, rs[0]), rs[1..])
  }

  lemma {:induction false} MapFromInv(s: State, r: Request, addr: nat)
    requires Inv(s) && r.start <= addr
    ensures Inv(MapFrom(s, r, addr).0)
    decreases r.end - addr
  {
    if addr < r.end {
      MapPageKeeps(s, addr, r.phys + addr - r.start, r.attr);
      var (s', status) := MapPage(s, addr, r.phys + addr - r.start, r.attr);
      if status == Done {
        MapFromInv(s', r, addr + PAGE);
      }
    }
  }

  lemma CreateMappingInv(s: State, r: Request)
    requires Inv(s)
    ensures Inv(CreateMapping(s, r).0)
  {
    if Aligned(r) {
      MapFromInv(s, r, r.start);
    }
  }

  lemma {:induction false} RunKeepsAgreement(s: State, flat: map<nat, Mapped>, rs: seq<Request>)
    requires Inv(s) && Agrees(s, flat) && FlatAligned(flat) && Run(s, rs).Some?
    ensures Inv(Run(s, rs).value) && Agrees(Run(s, rs).value, FlatRun(flat, rs)) && FlatAligned(FlatRun(flat, rs))
    decreases |rs|
  {
    if rs != [] {
      CreateMappingAgrees(s, flat, rs[0]);
      RunKeepsAgreement(CreateMapping(s, rs[0]).0, FlatMapping(flat, rs[0]), rs[1..]);
    }
  }

  //
  // The flat map in closed form
  //

  ghost predicate InRequest(r: Request, page: nat) {
    page % PAGE == 0 && r.start <= page < r.end
  }

  /** A page of the rest of the loop gets its own entry and keeps it. */
  lemma {:induction false} FlatFromHit(flat: map<nat, Mapped>, r: Request, addr: nat, page: nat)
    requires Aligned(r) && r.start <= addr && addr % PAGE == 0 && r.end - addr <= SPAN
    requires InRequest(r, page) && addr <= page
    ensures PageOf(page) in FlatFrom(flat, r, addr)
    ensures FlatFrom(flat, r, addr)[PageOf(page)] == Mapped(r.phys + page - r.start, r.attr)
    decreases r.end - addr
  {
    var flat' := flat[PageOf(addr) := Mapped(r.phys + addr - r.start, r.attr)];
    NextPage(addr);
    if page == addr {
      forall other: nat | InRequest(r, other) && addr + PAGE <= other ensures PageOf(other) != PageOf(addr) {
        DistinctPages(addr, other);
      }
      FlatFromMiss(flat', r, addr + PAGE, addr);
    } else {
      DistinctPages(addr, page);
      FlatFromHit(flat', r, addr + PAGE, page);
    }
  }

  /** Any other page is left alone. */
  lemma {:induction false} FlatFromMiss(flat: map<nat, Mapped>, r: Request, addr: nat, v: nat)
    requires Aligned(r) && r.start <= addr && addr % PAGE == 0
    requires forall page: nat :: InRequest(r, page) && addr <= page ==> PageOf(page) != PageOf(v)
    ensures PageOf(v) in FlatFrom(flat, r, addr) <==> PageOf(v) in flat
    ensures PageOf(v) in flat ==> FlatFrom(flat, r, addr)[PageOf(v)] == flat[PageOf(v)]
    decreases r.end - addr
  {
    if addr < r.end {
      assert InRequest(r, addr);
      NextPage(addr);
      FlatFromMiss(flat[PageOf(addr) := Mapped(r.phys + addr - r.start, r.attr)], r, addr + PAGE, v);
    }
  }

  lemma DistinctPages(a: nat, b: nat)
    requires a % PAGE == 0 && b % PAGE == 0 && a < b && b - a < SPAN
    ensures a + PAGE <= b && PageOf(a) != PageOf(b)
  {
    var m, n := a / PAGE, b / PAGE;
    assert a == m * PAGE && b == n * PAGE;
    DistinctResidues(m, n);
  }

  lemma DistinctResidues(m: nat, n: nat)
    requires 0 < n - m < 0x10_0000_0000
    ensures m % 0x10_0000_0000 != n % 0x10_0000_0000
  {
  }

  /** A request inside one 48-bit span maps exactly its own pages, each to its own offset, and
      leaves every other page as it was. */
  lemma MappingClosed(flat: map<nat, Mapped>, r: Request, v: nat)
    requires Aligned(r) && r.end - r.start <= SPAN
    ensures forall page: nat :: InRequest(r, page) && PageOf(page) == PageOf(v) ==>
              FlatTranslate(FlatMapping(flat, r), v) == if r.attr == NotPresent then Err else Ok(r.phys + page - r.start)
    ensures (forall page: nat :: InRequest(r, page) ==> PageOf(page) != PageOf(v)) ==>
              FlatTranslate(FlatMapping(flat, r), v) == FlatTranslate(flat, v)
  {
    forall page: nat | InRequest(r, page) && PageOf(page) == PageOf(v)
      ensures FlatTranslate(FlatMapping(flat, r), v) == if r.attr == NotPresent then Err else Ok(r.phys + page - r.start)
    {
      FlatFromHit(flat, r, r.start, page);
    }
    if forall page: nat :: InRequest(r, page) ==> PageOf(page) != PageOf(v) {
      FlatFromMiss(flat, r, r.start, v);
    }
  }

  //
  // Access rights
  //

  /** The entry the processor reads at level `k` of the walk for `v`. */
  function EntryOnWalk(s: State, v: nat, k: nat): nat
    requires k < 4
  {
    match Walk(s, Indices(v)[..k])
    case None => 0
    case Some(t) => Entry(s, t, Indices(v)[k])
  }

  /** Rights are ANDed over all levels. */
  ghost predicate MayWrite(s: State, v: nat) {
    forall k: nat :: k < 4 ==> Present(EntryOnWalk(s, v, k)) && Writable(EntryOnWalk(s, v, k))
  }

  ghost predicate MayUse(s: State, v: nat) {
    forall k: nat :: k < 4 ==> Present(EntryOnWalk(s, v, k)) && User(EntryOnWalk(s, v, k))
  }

  lemma {:induction false} UpperLevelsOpen(s: State, v: nat, k: nat)
    requires Inv(s) && k < 3 && Walk(s, Indices(v)[..3]).Some?
    ensures Walk(s, Indices(v)[..k]).Some? && Walk(s, Indices(v)[..k + 1]).Some?
    ensures Present(EntryOnWalk(s, v, k)) && Writable(EntryOnWalk(s, v, k)) && User(EntryOnWalk(s, v, k))
    decreases 3 - k
  {
    var p := Indices(v);
    if k < 2 {
      UpperLevelsOpen(s, v, k + 1);
    }
    assert p[..k + 1][..k] == p[..k];
    WalkPlace(s, p[..k]);
    var t := Walk(s, p[..k]).value;
    assert LinkOk(s, t, p[k]);
    var n := Base(s.tables[t][p[k]]);
    EntryDecodes(n, ReadWriteUser);
  }

  /** The rights in force for a page are exactly those of the attribute it was mapped with. */
  lemma RightsAreTheLeafs(s: State, flat: map<nat, Mapped>, v: nat)
    requires Inv(s) && Agrees(s, flat) && FlatAligned(flat)
    ensures MayWrite(s, v) <==> PageOf(v) in flat && flat[PageOf(v)].attr != NotPresent
    ensures MayUse(s, v) <==> PageOf(v) in flat && flat[PageOf(v)].attr == ReadWriteUser
  {
    var e := EntryOnWalk(s, v, 3);
    assert e == Leaf(s, Indices(v)) == FlatEntry(flat, v);
    if PageOf(v) in flat {
      EntryDecodes(flat[PageOf(v)].phys, flat[PageOf(v)].attr);
    }
    if Walk(s, Indices(v)[..3]).Some? {
      forall k: nat | k < 3
        ensures Present(EntryOnWalk(s, v, k)) && Writable(EntryOnWalk(s, v, k)) && User(EntryOnWalk(s, v, k))
      {
        UpperLevelsOpen(s, v, k);
      }
    }
  }

  /** The last-level entry of a page: the cache control in force for it is that of device memory exactly
      if it was mapped so, and it has no other bit beside rights and address. */
  lemma CachingIsTheLeafs(s: State, flat: map<nat, Mapped>, v: nat)
    requires Agrees(s, flat) && FlatAligned(flat)
    ensures var e := EntryOnWalk(s, v, 3);
            && (WriteThrough(e) <==> PageOf(v) in flat && flat[PageOf(v)].attr == ReadWriteIo)
            && (CacheDisable(e) <==> PageOf(v) in flat && flat[PageOf(v)].attr == ReadWriteIo)
            && OtherBits(e) == 0
  {
    assert EntryOnWalk(s, v, 3) == Leaf(s, Indices(v)) == FlatEntry(flat, v);
    if PageOf(v) in flat {
      EntryCaching(flat[PageOf(v)].phys, flat[PageOf(v)].attr);
    }
  }

  /** Pages mapped by the requests that pass the alignment checks. */
  function PagesOf(rs: seq<Request>): nat {
    if rs == [] then 0 else (if Aligned(rs[0]) then PageCount(rs[0]) else 0) + PagesOf(rs[1..])
  }

  lemma CallFits(s: State, r: Request)
    requires Inv(s) && (Aligned(r) ==> |s.pool| >= 3 * PageCount(r))
    ensures !CreateMapping(s, r).1.OutOfMemory? && (Aligned(r) ==> CreateMapping(s, r).1.Done?)
    ensures |CreateMapping(s, r).0.pool| + (if Aligned(r) then 3 * PageCount(r) else 0) >= |s.pool|
  {
    if Aligned(r) {
      PageCountCovers(r);
      MapFromFits(s, r, r.start, PageCount(r));
    }
  }

  lemma PageCountCovers(r: Request)
    ensures r.start + PAGE * PageCount(r) >= r.end
  {
  }

  /** With three free pages for each page to be mapped, no call of the whole run fails for lack of
      memory. */
  lemma {:induction false} RunFits(s: State, rs: seq<Request>)
    requires Inv(s) && |s.pool| >= 3 * PagesOf(rs)
    ensures Run(s, rs).Some?
    decreases |rs|
  {
    if rs != [] {
      CallFits(s, rs[0]);
      CreateMappingInv(s, rs[0]);
      RunFits(CreateMapping(s, rs[0]).0, rs[1..]);
    }
  }

  function RunFresh(root: nat, pool: seq<nat>, rs: seq<Request>): Option<State>
    requires root % PAGE == 0 && PoolOk(Fresh(root, pool))
  {
    FreshInv(root, pool);
    Run(Fresh(root, pool), rs)
  }

  /** After any sequence of calls on a fresh table that finds memory, as every sequence does that has
      three free pages for each page to be mapped, the walk of the four levels
      is the flat map, the rights in force are those of the flat map, and no table is shared. */
  lemma RunRefinesFlatMap(root: nat, pool: seq<nat>, rs: seq<Request>, v: nat)
    requires root % PAGE == 0 && PoolOk(Fresh(root, pool)) && (|pool| >= 3 * PagesOf(rs) || RunFresh(root, pool, rs).Some?)
    ensures RunFresh(root, pool, rs).Some?
    ensures var s, flat := RunFresh(root, pool, rs).value, FlatRun(map[], rs);
            && Translate(s, v) == FlatTranslate(flat, v)
            && (MayWrite(s, v) <==> PageOf(v) in flat && flat[PageOf(v)].attr != NotPresent)
            && (MayUse(s, v) <==> PageOf(v) in flat && flat[PageOf(v)].attr == ReadWriteUser)
            && (WriteThrough(EntryOnWalk(s, v, 3)) <==> PageOf(v) in flat && flat[PageOf(v)].attr == ReadWriteIo)
            && (CacheDisable(EntryOnWalk(s, v, 3)) <==> PageOf(v) in flat && flat[PageOf(v)].attr == ReadWriteIo)
            && OtherBits(EntryOnWalk(s, v, 3)) == 0
            && forall p, q :: IsPath(p) && IsPath(q) && Walk(s, p).Some? && Walk(s, p) == Walk(s, q) ==> p == q
  {
    FreshInv(root, pool);
    if |pool| >= 3 * PagesOf(rs) {
      RunFits(Fresh(root, pool), rs);
    }
    var s, flat := RunFresh(root, pool, rs).value, FlatRun(map[], rs);
    RunKeepsAgreement(Fresh(root, pool), map[], rs);
    AgreesTranslate(s, flat, v);
    RightsAreTheLeafs(s, flat, v);
    CachingIsTheLeafs(s, flat, v);
    NoSharedTable(s);
  }
}
