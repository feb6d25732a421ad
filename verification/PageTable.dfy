/** The 4-level page table of os/src/x86_64/paging.rs as a value: 512-entry tables in physical
    memory, walked by the indices of an address (section 4.5 of the Intel SDM, volume 3A). */
module PageTable {
  import opened Common
  import BitMath

  const PAGE: nat := 4096
  const ENTRIES: nat := 512
  const SPAN: nat := 0x1_0000_0000_0000 // bytes named by the four indices: 2^48

  datatype PageAttr = NotPresent | ReadWriteKernel | ReadWriteUser | ReadWriteIo {
    function Bits(): nat {
      match this
      case NotPresent => 0
      case ReadWriteKernel => 3
      case ReadWriteUser => 7
      case ReadWriteIo => 27
    }
  }

  /** `is_present`, `is_writable`, `is_user`, the two bits of cache control, the bits that belong to
      no attribute, and the address part of an entry. */
  predicate Present(e: nat) { e % 2 == 1 }
  predicate Writable(e: nat) { e / 2 % 2 == 1 }
  predicate User(e: nat) { e / 4 % 2 == 1 }
  predicate WriteThrough(e: nat) { e / 8 % 2 == 1 }
  predicate CacheDisable(e: nat) { e / 16 % 2 == 1 }
  function OtherBits(e: nat): nat { e % PAGE / 32 }
  function Base(e: nat): nat { e - e % PAGE }

  /** `calc_index` at levels PML4, PDPT, PD and PT. */
  function Indices(addr: nat): (p: seq<nat>)
    ensures |p| == 4 && forall k :: 0 <= k < 4 ==> p[k] < ENTRIES
  {
    [addr / 0x80_0000_0000 % ENTRIES, addr / 0x4000_0000 % ENTRIES, addr / 0x20_0000 % ENTRIES, addr / PAGE % ENTRIES]
  }

  /** `tables` is physical memory as far as it holds tables, `pool` the pages the allocator will
      hand out next. `place` records the path of indices under which each table was linked. */
  datatype State = State(root: nat, tables: map<nat, seq<nat>>, pool: seq<nat>, place: map<nat, seq<nat>>)

  function ZeroedTable(): (z: seq<nat>)
    ensures |z| == ENTRIES && forall i :: 0 <= i < ENTRIES ==> z[i] == 0
  {
    seq(ENTRIES, _ => 0)
  }

  /** `PML4::new` */
  function Fresh(root: nat, pool: seq<nat>): State {
    State(root, map[root := ZeroedTable()], pool, map[root := []])
  }

  //
  // Operations
  //

  datatype Status = Done | Failed | OutOfMemory

  function Entry(s: State, t: nat, i: nat): nat {
    if t in s.tables && i < |s.tables[t]| then s.tables[t][i] else 0
  }

  predicate IsTable(s: State, t: nat) {
    t in s.tables && t in s.place && |s.tables[t]| == ENTRIES && |s.place[t]| <= 3 && t % PAGE == 0
  }

  function SetEntry(s: State, t: nat, i: nat, e: nat): State
    requires IsTable(s, t) && i < ENTRIES
  {
    var table: seq<nat> := s.tables[t][i := e];
    s.(tables := s.tables[t := table])
  }

  predicate NeedsTable(s: State, t: nat, i: nat) {
    !Present(Entry(s, t, i))
  }

  /** `ensure_populated`: links a zeroed table under an entry that is not present. */
  function Populate(s: State, t: nat, i: nat): State
    requires IsTable(s, t) && i < ENTRIES
    requires NeedsTable(s, t, i) ==> s.pool != []
  {
    if !NeedsTable(s, t, i) then s else
      var n := s.pool[0];
      var s1 := SetEntry(s, t, i, n + ReadWriteUser.Bits());
      State(s.root, s1.tables[n := ZeroedTable()], s.pool[1..], s.place[n := s.place[t] + [i]])
  }

  //
  // Walking
  //

  /** The table reached from the root by a path of at most three indices. */
  function Walk(s: State, p: seq<nat>): Option<nat> {
    if p == [] then Some(s.root) else
      match Walk(s, p[..|p| - 1])
      case None => None
      case Some(t) =>
        var e := Entry(s, t, p[|p| - 1]);
        if Present(e) then Some(Base(e)) else None
  }

  /** The last-level entry for a path of four indices, zero if a table is missing. */
  function Leaf(s: State, q: seq<nat>): nat
    requires |q| == 4
  {
    match Walk(s, q[..3])
    case None => 0
    case Some(t) => Entry(s, t, q[3])
  }

  /** `translate` */
  function Translate(s: State, virt: nat): Result<nat> {
    var e := Leaf(s, Indices(virt));
    if Present(e) then Ok(Base(e)) else Err
  }

  lemma WalkStep(s: State, q: seq<nat>, k: nat)
    requires k < |q|
    ensures Walk(s, q[..k + 1]) ==
            match Walk(s, q[..k])
            case None => None
            case Some(t) => if Entry(s, t, q[k]) % 2 == 1 then Some(Base(Entry(s, t, q[k]))) else None
  {
    assert q[..k + 1][..k] == q[..k];
  }

  /** Whatever the tables hold: an address is translated exactly if bit 0 of the entry is set at every
      level, each level being found at the page address of the entry before it. */
  lemma TranslateExactly(s: State, v: nat)
    ensures var e0 := Entry(s, s.root, v / 0x80_0000_0000 % 512);
            var e1 := Entry(s, e0 - e0 % 4096, v / 0x4000_0000 % 512);
            var e2 := Entry(s, e1 - e1 % 4096, v / 0x20_0000 % 512);
            var e3 := Entry(s, e2 - e2 % 4096, v / 4096 % 512);
            Translate(s, v) == if e0 % 2 == 1 && e1 % 2 == 1 && e2 % 2 == 1 && e3 % 2 == 1
                               then Ok(e3 - e3 % 4096) else Err
  {
    var q := Indices(v);
    assert q[..0] == [];
    WalkStep(s, q, 0);
    WalkStep(s, q, 1);
    WalkStep(s, q, 2);
  }

  //
  // Invariant
  //

  /** An entry above the last level is zero, or leads to the table linked at this place and leaves
      all access rights to the levels below. */
  ghost predicate LinkOk(s: State, t: nat, i: nat)
    requires IsTable(s, t) && i < ENTRIES
  {
    var e := s.tables[t][i];
    if Present(e) then
      Base(e) in s.tables && Base(e) in s.place && s.place[Base(e)] == s.place[t] + [i] && e == Base(e) + ReadWriteUser.Bits()
    else e == 0
  }

  ghost predicate PoolOk(s: State) {
    && (forall i :: 0 <= i < |s.pool| ==> s.pool[i] % PAGE == 0 && s.pool[i] !in s.tables)
    && (forall i, j :: 0 <= i < j < |s.pool| ==> s.pool[i] != s.pool[j])
  }

  ghost predicate Shape(s: State) {
    && s.root in s.tables
    && s.place.Keys == s.tables.Keys
    && s.place[s.root] == []
    && PoolOk(s)
    && (forall t {:trigger IsTable(s, t)} :: t in s.tables ==> IsTable(s, t))
    && (forall t, i: nat {:trigger LinkOk(s, t, i)} :: t in s.tables && |s.place[t]| < 3 && i < ENTRIES ==> IsTable(s, t) && LinkOk(s, t, i))
  }

  ghost predicate Reachable(s: State)
    requires s.place.Keys == s.tables.Keys
  {
    forall t {:trigger Walk(s, s.place[t])} :: t in s.tables ==> Walk(s, s.place[t]) == Some(t)
  }

  ghost predicate Inv(s: State) {
    Shape(s) && Reachable(s)
  }

  /** A walk ends at the table whose place is the path that was walked. */
  lemma {:induction false} WalkPlace(s: State, p: seq<nat>)
    requires Shape(s) && |p| <= 3 && (forall k :: 0 <= k < |p| ==> p[k] < ENTRIES) && Walk(s, p).Some?
    ensures IsTable(s, Walk(s, p).value) && s.place[Walk(s, p).value] == p
    decreases |p|
  {
    if p != [] {
      var q := p[..|p| - 1];
      WalkPlace(s, q);
      assert LinkOk(s, Walk(s, q).value, p[|p| - 1]);
      assert p == q + [p[|p| - 1]];
    }
  }

  ghost predicate IsPath(p: seq<nat>) {
    |p| <= 3 && forall k :: 0 <= k < |p| ==> p[k] < ENTRIES
  }

  /** The tables form a tree: no table is reached by two different paths, and every table is
      reached by one. */
  lemma NoSharedTable(s: State)
    requires Inv(s)
    ensures forall p, q :: IsPath(p) && IsPath(q) && Walk(s, p).Some? && Walk(s, p) == Walk(s, q) ==> p == q
    ensures forall t :: t in s.tables ==> Walk(s, s.place[t]) == Some(t)
  {
    forall p, q | IsPath(p) && IsPath(q) && Walk(s, p).Some? && Walk(s, p) == Walk(s, q)
      ensures p == q
    {
      WalkPlace(s, p);
      WalkPlace(s, q);
    }
  }

  lemma FreshInv(root: nat, pool: seq<nat>)
    requires root % PAGE == 0 && PoolOk(Fresh(root, pool))
    ensures Inv(Fresh(root, pool))
    ensures forall q :: |q| == 4 ==> Leaf(Fresh(root, pool), q) == 0
  {
    var s := Fresh(root, pool);
    forall q | |q| == 4
      ensures Leaf(s, q) == 0
    {
      FreshWalk(s, q[..3]);
    }
  }

  lemma FreshWalk(s: State, p: seq<nat>)
    requires s.tables == map[s.root := ZeroedTable()] && p != []
    ensures Walk(s, p).None?
    decreases |p|
  {
    var q := p[..|p| - 1];
    if q != [] {
      FreshWalk(s, q);
    }
  }

  //
  // Populating an entry
  //

  ghost predicate CanPopulate(s: State, t: nat, i: nat) {
    Shape(s) && IsTable(s, t) && |s.place[t]| < 3 && i < ENTRIES && NeedsTable(s, t, i) && s.pool != []
  }

  /** Tables that were reachable stay reachable by the same path. */
  lemma {:induction false} PopulateWalk(s: State, t: nat, i: nat, p: seq<nat>)
    requires CanPopulate(s, t, i) && IsPath(p) && Walk(s, p).Some?
    ensures Walk(Populate(s, t, i), p) == Walk(s, p)
    decreases |p|
  {
    if p != [] {
      var q := p[..|p| - 1];
      PopulateWalk(s, t, i, q);
      WalkPlace(s, q);
      assert Walk(s, q).value != s.pool[0];
    }
  }

  lemma NewEntry(n: nat)
    requires n % PAGE == 0
    ensures Present(n + 7) && Base(n + 7) == n
  {
    BitMath.LowBits(n / PAGE, 7);
  }

  lemma PopulateLink(s: State, t: nat, i: nat, u: nat, k: nat)
    requires CanPopulate(s, t, i) && u in Populate(s, t, i).tables && k < ENTRIES
    ensures IsTable(Populate(s, t, i), u)
    ensures |Populate(s, t, i).place[u]| < 3 ==> LinkOk(Populate(s, t, i), u, k)
  {
    NewEntry(s.pool[0]);
    if u != s.pool[0] {
      assert IsTable(s, u);
      if |s.place[u]| < 3 {
        assert LinkOk(s, u, k);
      }
    }
  }

  lemma PopulateShape(s: State, t: nat, i: nat)
    requires CanPopulate(s, t, i)
    ensures Shape(Populate(s, t, i)) && Entry(Populate(s, t, i), t, i) == s.pool[0] + 7
  {
    var s' := Populate(s, t, i);
    forall u, k: nat | u in s'.tables && k < ENTRIES
      ensures IsTable(s', u) && (|s'.place[u]| < 3 ==> LinkOk(s', u, k))
    {
      PopulateLink(s, t, i, u, k);
    }
    forall u | u in s'.tables ensures IsTable(s', u) {
      PopulateLink(s, t, i, u, 0);
    }
  }

  lemma PopulateReach(s: State, t: nat, i: nat, u: nat)
    requires CanPopulate(s, t, i) && u in Populate(s, t, i).tables && (u in s.tables ==> IsTable(s, u))
    requires u in s.tables ==> Walk(s, s.place[u]) == Some(u)
    requires Walk(s, s.place[t]) == Some(t)
    ensures u in Populate(s, t, i).place
    ensures Walk(Populate(s, t, i), Populate(s, t, i).place[u]) == Some(u)
  {
    var s', n := Populate(s, t, i), s.pool[0];
    if u == n {
      NewEntry(n);
      WalkIsPath(s, s.place[t]);
      PopulateWalk(s, t, i, s.place[t]);
      assert s'.place[n][..|s.place[t]|] == s.place[t];
    } else {
      WalkIsPath(s, s.place[u]);
      PopulateWalk(s, t, i, s.place[u]);
    }
  }

  lemma PopulateKeeps(s: State, t: nat, i: nat)
    requires CanPopulate(s, t, i) && Reachable(s) && Walk(s, s.place[t]) == Some(t)
    ensures Inv(Populate(s, t, i))
  {
    PopulateShape(s, t, i);
    forall u | u in Populate(s, t, i).tables
      ensures Walk(Populate(s, t, i), Populate(s, t, i).place[u]) == Some(u)
    {
      if u in s.tables {
        assert IsTable(s, u) && Walk(s, s.place[u]) == Some(u);
      }
      PopulateReach(s, t, i, u);
    }
  }

  /** Places are made of indices. */
  lemma PlaceIsPath(s: State, t: nat)
    requires Inv(s) && IsTable(s, t)
    ensures IsPath(s.place[t])
  {
    WalkIsPath(s, s.place[t]);
  }

  lemma {:induction false} WalkIsPath(s: State, p: seq<nat>)
    requires Shape(s) && |p| <= 3 && Walk(s, p).Some?
    ensures IsPath(p)
    decreases |p|
  {
    if p != [] {
      var q := p[..|p| - 1];
      WalkIsPath(s, q);
      WalkPlace(s, q);
      assert IsTable(s, Walk(s, q).value);
      assert p[|p| - 1] < ENTRIES;
    }
  }

  /** Linking an empty table changes no last-level entry. */
  lemma PopulateLeaf(s: State, t: nat, i: nat, q: seq<nat>)
    requires CanPopulate(s, t, i) && Reachable(s) && Walk(s, s.place[t]) == Some(t) && |q| == 4 && forall k :: 0 <= k < 4 ==> q[k] < ENTRIES
    ensures Leaf(Populate(s, t, i), q) == Leaf(s, q)
  {
    var s', p := Populate(s, t, i), q[..3];
    PopulateKeeps(s, t, i);
    if Walk(s, p).Some? {
      PopulateWalk(s, t, i, p);
      WalkPlace(s, p);
      assert Walk(s, p).value != s.pool[0];
    } else if Walk(s', p).Some? {
      WalkPlace(s', p);
      if Walk(s', p).value != s.pool[0] {
        assert false;
      }
    }
  }

  //
  // Setting a last-level entry
  //

  ghost predicate CanSet(s: State, t: nat, i: nat) {
    Shape(s) && IsTable(s, t) && |s.place[t]| == 3 && i < ENTRIES
  }

  lemma {:induction false} SetWalk(s: State, t: nat, i: nat, e: nat, p: seq<nat>)
    requires CanSet(s, t, i) && IsPath(p)
    ensures Walk(SetEntry(s, t, i, e), p) == Walk(s, p)
    decreases |p|
  {
    if p != [] {
      var q := p[..|p| - 1];
      SetWalk(s, t, i, e, q);
      if Walk(s, q).Some? {
        WalkPlace(s, q);
      }
    }
  }

  lemma SetLink(s: State, t: nat, i: nat, e: nat, u: nat, k: nat)
    requires CanSet(s, t, i) && u in s.tables && k < ENTRIES
    ensures IsTable(SetEntry(s, t, i, e), u)
    ensures |s.place[u]| < 3 ==> LinkOk(SetEntry(s, t, i, e), u, k)
  {
    assert IsTable(s, u);
    if |s.place[u]| < 3 {
      assert LinkOk(s, u, k);
    }
  }

  lemma SetShape(s: State, t: nat, i: nat, e: nat)
    requires CanSet(s, t, i)
    ensures Shape(SetEntry(s, t, i, e))
  {
    var s' := SetEntry(s, t, i, e);
    forall u, k: nat | u in s'.tables && k < ENTRIES
      ensures IsTable(s', u) && (|s'.place[u]| < 3 ==> LinkOk(s', u, k))
    {
      SetLink(s, t, i, e, u, k);
    }
    forall u | u in s'.tables ensures IsTable(s', u) {
      SetLink(s, t, i, e, u, 0);
    }
  }

  lemma SetKeeps(s: State, t: nat, i: nat, e: nat)
    requires CanSet(s, t, i) && Reachable(s)
    ensures Inv(SetEntry(s, t, i, e))
  {
    var s' := SetEntry(s, t, i, e);
    SetShape(s, t, i, e);
    forall u | u in s'.tables
      ensures Walk(s', s'.place[u]) == Some(u)
    {
      assert IsTable(s, u) && Walk(s, s.place[u]) == Some(u);
      PlaceIsPath(s, u);
      SetWalk(s, t, i, e, s.place[u]);
    }
  }

  lemma SetLeaf(s: State, t: nat, i: nat, e: nat, q: seq<nat>)
    requires CanSet(s, t, i) && Reachable(s) && |q| == 4 && forall k :: 0 <= k < 4 ==> q[k] < ENTRIES
    ensures Leaf(SetEntry(s, t, i, e), q) == if q == s.place[t] + [i] then e else Leaf(s, q)
  {
    SetWalk(s, t, i, e, q[..3]);
    assert q == q[..3] + [q[3]];
    if Walk(s, q[..3]).Some? {
      WalkPlace(s, q[..3]);
    }
    if q[..3] == s.place[t] {
      assert Walk(s, s.place[t]) == Some(t);
    }
  }
}
