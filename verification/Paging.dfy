/** The page table of os/src/x86_64/paging.rs, updated in place. */
module Paging {
  import opened Common
  import opened PageTable
  import opened Mapping

  class PML4 {
    const root: nat
    var tables: map<nat, seq<nat>>
    var pool: seq<nat>
    ghost var place: map<nat, seq<nat>>

    ghost function View(): State
      reads this
    {
      State(root, tables, pool, place)
    }

    ghost predicate Valid()
      reads this
    {
      Inv(View())
    }

    constructor (root: nat, pool: seq<nat>)
      requires root % PAGE == 0 && PoolOk(Fresh(root, pool))
      ensures Valid() && View() == Fresh(root, pool)
    {
      this.root, this.pool := root, pool;
      tables := map[root := ZeroedTable()];
      place := map[root := []];
      new;
      FreshInv(root, pool);
    }

    /** `ensure_populated` followed by `table_mut`: the table below entry `i` of table `t`, or
        `None` if there is no page for it. */
    method Below(t: nat, i: nat) returns (r: Option<nat>)
      requires Valid() && IsTable(View(), t) && |place[t]| < 3 && i < ENTRIES
      modifies this
      ensures Valid()
      ensures r.None? <==> NeedsTable(old(View()), t, i) && old(pool) == []
      ensures r.None? ==> View() == old(View())
      ensures r.Some? ==> View() == Populate(old(View()), t, i) && r.value == Base(Entry(View(), t, i))
    {
      var e := tables[t][i];
      if !Present(e) {
        if pool == [] {
          return None;
        }
        EnsureKeeps(View(), t, i);
        var next := pool[0];
        var table: seq<nat> := tables[t][i := next + ReadWriteUser.Bits()];
        tables := tables[t := table][next := ZeroedTable()];
        pool := pool[1..];
        place := place[next := place[t] + [i]];
        assert View() == Populate(old(View()), t, i);
      }
      r := Some(Base(tables[t][i]));
    }

    /** The last-level table for the indices `p`, linked in on the way where missing. */
    method LastTable(p: seq<nat>) returns (r: Option<nat>)
      requires Valid() && |p| == 3 && IsPath(p)
      modifies this
      ensures Valid()
      ensures r.None? <==> Descend(old(View()), root, p).None?
      ensures r.Some? ==> Descend(old(View()), root, p) == Some((View(), r.value))
    {
      ghost var s0 := View();
      var t := root;
      var k := 0;
      assert p[0..] == p;
      while k < 3
        invariant 0 <= k <= 3 && Valid() && CanDescend(View(), t, p[k..])
        invariant Descend(s0, root, p) == Descend(View(), t, p[k..])
        decreases 3 - k
      {
        assert p[k..][1..] == p[k + 1..];
        ghost var s := View();
        var below := Below(t, p[k]);
        if below.None? {
          return None;
        }
        EnsureKeeps(s, t, p[k]);
        t, k := below.value, k + 1;
      }
      r := Some(t);
    }

    /** One iteration of the loop in `create_mapping`. */
    method SetPage(addr: nat, phys: nat, attr: PageAttr) returns (status: Status)
      requires Valid()
      modifies this
      ensures Valid()
      ensures status == MapPage(old(View()), addr, phys, attr).1
      ensures status != OutOfMemory ==> View() == MapPage(old(View()), addr, phys, attr).0
    {
      var p := Indices(addr);
      DescendKeeps(View(), root, p[..3]);
      var t := LastTable(p[..3]);
      if t.None? {
        return OutOfMemory;
      }
      if phys % PAGE != 0 {
        return Failed;
      }
      StoreEntry(t.value, p[3], phys + attr.Bits());
      status := Done;
    }

    /** `set_page` on entry `i` of the last-level table `t`. */
    method StoreEntry(t: nat, i: nat, e: nat)
      requires Valid() && CanSet(View(), t, i)
      modifies this
      ensures Valid() && View() == SetEntry(old(View()), t, i, e)
    {
      SetKeeps(View(), t, i, e);
      var table: seq<nat> := tables[t][i := e];
      tables := tables[t := table];
    }

    method CreateMapping(r: Request) returns (status: Status)
      requires Valid()
      modifies this
      ensures Valid()
      ensures status == Mapping.CreateMapping(old(View()), r).1
      ensures status != OutOfMemory ==> View() == Mapping.CreateMapping(old(View()), r).0
    {
      ghost var s0 := View();
      if r.start % PAGE != 0 || r.end % PAGE != 0 || r.phys % PAGE != 0 {
        return Failed;
      }
      var addr := r.start;
      while addr < r.end
        invariant Valid() && r.start <= addr
        invariant MapFrom(s0, r, r.start) == MapFrom(View(), r, addr)
      {
        status := SetPage(addr, r.phys + addr - r.start, r.attr);
        if status != Done {
          return;
        }
        addr := addr + PAGE;
      }
      status := Done;
    }

    method Translate(virt: nat) returns (r: Result<nat>)
      requires Valid()
      ensures r == PageTable.Translate(View(), virt)
    {
      var t := root;
      var p := Indices(virt);
      var k := 0;
      while k < 3
        invariant 0 <= k <= 3 && Walk(View(), p[..k]) == Some(t) && IsTable(View(), t)
      {
        var e := tables[t][p[k]];
        assert p[..k + 1][..k] == p[..k];
        if !Present(e) {
          MissingBelow(View(), p, k + 1);
          return Err;
        }
        WalkPlace(View(), p[..k + 1]);
        t, k := Base(e), k + 1;
      }
      var e := tables[t][p[3]];
      return if Present(e) then Ok(Base(e)) else Err;
    }
  }

  /** Below a missing table everything is missing. */
  lemma MissingBelow(s: State, p: seq<nat>, k: nat)
    requires |p| == 4 && k <= 3 && Walk(s, p[..k]).None?
    ensures Walk(s, p[..3]).None?
    decreases 3 - k
  {
    if k < 3 {
      assert p[..k + 1][..k] == p[..k];
      MissingBelow(s, p, k + 1);
    }
  }
}
