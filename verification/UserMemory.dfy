/**
 * kern/pmap.c, user_mem_check, and kern/env.c, region_alloc: two walks over a range of
 * user addresses, in 32-bit arithmetic.
 */
module UserMemory {
  import opened Basics
  import opened Paging
  import opened Wrappers

  const ULIM := 0xef80_0000

  // ------------------------------------------------------------ user_mem_check

  /** A program may use page p: it is below ULIM, and its entry has the permissions. */
  predicate MayUse(mem: seq<Frame>, d: nat, p: nat, perm: Perm) {
    && p * 4096 < ULIM && p < ALL_PAGES
    && Translate(mem, d, p).Some? && perm + {P} <= Translate(mem, d, p).value.flags
  }

  /** Every page that the rounded range touches may be used. */
  ghost predicate RangeOk(mem: seq<Frame>, d: nat, va: nat, len: nat, perm: Perm) {
    forall p {:trigger MayUse(mem, d, p, perm)} | va / 4096 <= p < (va + len + 4095) / 4096 :: MayUse(mem, d, p, perm)
  }

  /** ROUNDUP of the end of the range, in 32 bits. */
  function EndOf(va: nat, len: nat): nat {
    (va + len + 4095) % 0x1_0000_0000 / 4096 * 4096
  }

  /** What the loop tests: the pages up to the end as computed. */
  ghost predicate Tested(mem: seq<Frame>, d: nat, va: nat, len: nat, perm: Perm) {
    forall p {:trigger MayUse(mem, d, p, perm)} | va / 4096 <= p < EndOf(va, len) / 4096 :: MayUse(mem, d, p, perm)
  }

  /**
   * When the end of the range does not wrap in 32 bits, or wraps so far that the first
   * page is tested all the same, and that page may not be used.
   */
  predicate EndSafe(mem: seq<Frame>, d: nat, va: nat, len: nat, perm: Perm) {
    || va + len + 4095 < 0x1_0000_0000
    || (va % 4096 + len > 0x1_0000_0000 && va < 0xffff_f000 && !MayUse(mem, d, va / 4096, perm))
  }

  /**
   * A range whose end wraps is never usable as a whole, and wraps to an end that is at
   * most one page past its start.
   */
  lemma WrappedRange(va: nat, len: nat)
    requires va < 0x1_0000_0000 && len < 0x1_0000_0000 && va + len + 4095 >= 0x1_0000_0000
    ensures va / 4096 <= 0xfffff < (va + len + 4095) / 4096
    ensures EndOf(va, len) / 4096 <= va / 4096 + 1
    ensures va / 4096 < EndOf(va, len) / 4096 <==> va % 4096 + len > 0x1_0000_0000 && va < 0xffff_f000
  {
  }

  /** The test of the computed range is the documented test of the whole range iff the end is safe. */
  lemma TestRightIff(mem: seq<Frame>, d: nat, va: nat, len: nat, perm: Perm)
    requires va < 0x1_0000_0000 && len < 0x1_0000_0000
    ensures (Tested(mem, d, va, len, perm) <==> RangeOk(mem, d, va, len, perm)) <==> EndSafe(mem, d, va, len, perm)
  {
    if va + len + 4095 < 0x1_0000_0000 {
      assert EndOf(va, len) / 4096 == (va + len + 4095) / 4096;
    } else {
      WrappedRange(va, len);
      assert !MayUse(mem, d, 0xfffff, perm);
    }
  }

  /** A range that wraps: nothing of it is tested, although it cannot all be used. */
  lemma WrapPasses(mem: seq<Frame>, d: nat, perm: Perm)
    ensures Tested(mem, d, 0x1000, 0xffff_f000, perm) && !RangeOk(mem, d, 0x1000, 0xffff_f000, perm)
  {
    assert EndOf(0x1000, 0xffff_f000) == 0;
    assert !MayUse(mem, d, 0xfffff, perm);
  }

  /** user_mem_check: the first address that may not be used, if there is one. */
  method UserMemCheck(pm: PhysMem, d: nat, va: nat, len: nat, perm: Perm) returns (bad: Option<nat>)
    requires pm.Valid() && d in pm.dirs && va < 0x1_0000_0000 && len < 0x1_0000_0000
    requires forall j | 0 <= j < NPTENTRIES && Present(pm.kern[j]) :: pm.kern[j].frame < pm.mem.Length
    ensures bad == None <==> Tested(pm.mem[..], d, va, len, perm)
    ensures bad.Some? ==>
              && va / 4096 <= bad.value / 4096
              && bad.value == (if bad.value / 4096 == va / 4096 then va else bad.value / 4096 * 4096)
              && !MayUse(pm.mem[..], d, bad.value / 4096, perm)
              && forall p {:trigger MayUse(pm.mem[..], d, p, perm)} | va / 4096 <= p < bad.value / 4096 :: MayUse(pm.mem[..], d, p, perm)
  {
    ghost var mem := pm.mem[..];
    var p, end := va / 4096, EndOf(va, len) / 4096;      // addr and end are at page boundaries
    while p < end
      invariant va / 4096 <= p
      invariant forall q {:trigger MayUse(mem, d, q, perm)} | va / 4096 <= q < p :: MayUse(mem, d, q, perm)
    {
      var ok := PageUsable(pm, d, p, perm);
      if !ok {
        BadAddress(va, p);
        return Some(if 4096 * p < va then va else 4096 * p);
      }
      p := p + 1;
    }
    return None;
  }

  lemma BadAddress(va: nat, p: nat)
    requires va / 4096 <= p
    ensures var bad := if 4096 * p < va then va else 4096 * p;
            bad / 4096 == p && bad == if p == va / 4096 then va else 4096 * p
  {
  }

  /** The tests on one page, in their order. */
  method PageUsable(pm: PhysMem, d: nat, p: nat, perm: Perm) returns (ok: bool)
    requires pm.Valid() && d in pm.dirs && p < ALL_PAGES
    requires forall j | 0 <= j < NPTENTRIES && Present(pm.kern[j]) :: pm.kern[j].frame < pm.mem.Length
    ensures ok == MayUse(pm.mem[..], d, p, perm)
    ensures ok <==> && p < 0xef800 && Translate(pm.mem[..], d, p).Some?
                    && P in Translate(pm.mem[..], d, p).value.flags && perm <= Translate(pm.mem[..], d, p).value.flags
  {
    assert DirAgrees(pm.mem[..][d], d, pm.kern, pm.tabs);
    var pde := pm.mem[d][Pdx(p)];
    if !Present(pde) {
      return false;
    }
    assert pde.frame < pm.mem.Length;
    var pte := pm.mem[pde.frame][Ptx(p)];
    if p * 4096 >= ULIM {
      return false;
    }
    return perm + {P} <= pte.flags;
  }

  // -------------------------------------------------------------- region_alloc

  /** A 32-bit address as the signed integer that region_alloc keeps it in. */
  function Signed(x: nat): int
    requires x < 0x1_0000_0000
  {
    if x < 0x8000_0000 then x else x - 0x1_0000_0000
  }

  /** Page p of d is writable by the program and has a frame that no other page has. */
  ghost predicate OwnFrame(maps: map<Key, Entry>, d: nat, p: nat) {
    (d, p) in maps && maps[(d, p)].flags == {W, U, P} && SoleMapping(maps, (d, p))
  }

  /** Pages lo to hi - 1 of d have been given new frames of their own; no other mapping has changed. */
  ghost predicate Allocated(maps: map<Key, Entry>, maps': map<Key, Entry>, d: nat, lo: nat, hi: nat) {
    && (forall k | k in maps' :: k in maps || (k.0 == d && lo <= k.1 < hi))
    && (forall k | k in maps && !(k.0 == d && lo <= k.1 < hi) :: k in maps' && maps'[k] == maps[k])
    && (forall p {:trigger OwnFrame(maps', d, p)} | lo <= p < hi :: OwnFrame(maps', d, p))
  }

  /** A new frame at a page that is next to be allocated, or was the last one allocated. */
  lemma AllocatedNext(maps0: map<Key, Entry>, maps: map<Key, Entry>, d: nat, lo: nat, hi: nat, v: nat, f: nat)
    requires Allocated(maps0, maps, d, lo, hi) && lo <= v <= hi && (forall k | k in maps :: maps[k].frame != f)
    ensures Allocated(maps0, maps[(d, v) := Entry(f, {W, U, P})], d, lo, if v == hi then hi + 1 else hi)
  {
    var maps' := maps[(d, v) := Entry(f, {W, U, P})];
    forall p | lo <= p < (if v == hi then hi + 1 else hi) ensures OwnFrame(maps', d, p) {
      if p != v {
        assert OwnFrame(maps, d, p);
      }
    }
  }

  ghost predicate HasTable(tabs: map<Key, nat>, d: nat, i: nat) { (d, i) in tabs }

  /** One more mapping: of the next page, or of the last one once more. */
  ghost predicate Turned(n: nat, tabs: map<Key, nat>, maps: map<Key, Entry>, f: nat,
                         n': nat, tabs': map<Key, nat>, maps': map<Key, Entry>, d: nat, p: nat)
  {
    && maps' == maps[(d, p) := Entry(f, {W, U, P})] && tabs'.Keys == tabs.Keys + {(d, Pdx(p))}
    && (forall k | k in maps :: maps[k].frame != f)
    && n' == n - 1 - (if HasTable(tabs, d, Pdx(p)) then 0 else 1) + if SoleMapping(maps, (d, p)) then 1 else 0
  }

  /** The page has no table, and so it is not mapped. */
  ghost predicate Tableless(tabs: map<Key, nat>, maps: map<Key, Entry>, d: nat, p: nat) {
    !HasTable(tabs, d, Pdx(p)) && (d, p) !in maps
  }

  /** One turn of the loop, for the page of byte b. */
  method AllocByte(pm: PhysMem, d: nat, b: nat) returns (ok: bool, ghost inserted: bool)
    requires pm.Valid() && pm.pins == multiset{} && (pm.held == {} || pm.free == []) && d in pm.dirs && b < UTOP
    modifies pm, pm.pages, pm.mem
    ensures pm.Valid() && pm.dirs == old(pm.dirs) && pm.pins == multiset{}
    ensures ok <==> old(pm.free) != []
    ensures !ok ==> !inserted
    ensures ok && inserted ==>
              && pm.held == {} && (d, Pdx(b / 4096)) in pm.tabs && old(pm.free) != []
              && Turned(|old(pm.free)|, old(pm.tabs), old(pm.maps), old(pm.free)[0],
                        |pm.free|, pm.tabs, pm.maps, d, b / 4096)
    ensures ok && !inserted ==>
              pm.free == [] && pm.held != {} && Tableless(old(pm.tabs), old(pm.maps), d, b / 4096) && |old(pm.free)| == 1
  {
    inserted := false;
    ghost var maps, page := pm.maps, (d, b / 4096);
    ghost var f0 := FirstFree(pm);
    var p := pm.PageAlloc(false);
    if p == None {
      return false, inserted;
    }
    var f := p.value;
    OldPage(pm, page);
    assert pm.held == {f} && f == f0;
    assert {W, U, P} + {P} == {W, U, P};
    var r := pm.PageInsert(d, f, b / 4096, {W, U, P});
    assert r != NoMem ==> pm.maps == maps[page := Entry(f, {W, U, P})];
    inserted := r == OK;
    ok := true;
  }

  lemma OldPage(pm: PhysMem, k: Key)
    requires pm.Valid() && pm.pins == multiset{}
    ensures forall rest {:trigger FreeAfterDrop(pm.pages[..], rest, pm.maps, k)} ::
              |FreeAfterDrop(pm.pages[..], rest, pm.maps, k)| == |rest| + if SoleMapping(pm.maps, k) then 1 else 0
  {
    if k in pm.maps {
      assert pm.maps[k].frame < pm.pages.Length;
      SoleIsLast(pm.pages[..], pm.free, pm.held, pm.reserved, pm.dirs, pm.tabs, pm.maps, k);
    }
  }

  /** Page p is the first of the region that falls into a table there was none of. */
  ghost predicate NeedsTable(tabs: map<Key, nat>, d: nat, lo: nat, p: nat) {
    !HasTable(tabs, d, Pdx(p)) && (p == lo || p == 0 || Pdx(p - 1) != Pdx(p))
  }

  /** Giving page p a new frame frees the old one: it was mapped there, and otherwise at most at earlier pages of the region. */
  ghost predicate FreesOld(maps: map<Key, Entry>, d: nat, lo: nat, p: nat) {
    && (d, p) in maps
    && forall k: Key | k in maps && maps[k].frame == maps[(d, p)].frame :: k.0 == d && lo <= k.1 <= p
  }

  /** The pages from lo to p - 1 that need a table. */
  ghost function NewTables(tabs: map<Key, nat>, d: nat, lo: nat, p: nat): set<nat> {
    set q: nat | lo <= q < p && NeedsTable(tabs, d, lo, q)
  }

  /** The pages from lo to p - 1 that give a frame back. */
  ghost function Freed(maps: map<Key, Entry>, d: nat, lo: nat, p: nat): set<nat> {
    set q: nat | lo <= q < p && FreesOld(maps, d, lo, q)
  }

  /** The free frames left of `free` when pages lo to p - 1 of d have been given new ones. */
  ghost function Left(free: nat, tabs: map<Key, nat>, maps: map<Key, Entry>, d: nat, lo: nat, p: nat): int {
    free - (p - lo) - |NewTables(tabs, d, lo, p)| + |Freed(maps, d, lo, p)|
  }

  lemma LeftNext(free: nat, tabs: map<Key, nat>, maps: map<Key, Entry>, d: nat, lo: nat, p: nat)
    requires lo <= p
    ensures Left(free, tabs, maps, d, lo, lo) == free
    ensures Left(free, tabs, maps, d, lo, p + 1) ==
            Left(free, tabs, maps, d, lo, p) - 1 - (if NeedsTable(tabs, d, lo, p) then 1 else 0)
            + if FreesOld(maps, d, lo, p) then 1 else 0
  {
    assert NewTables(tabs, d, lo, lo) == {} && Freed(maps, d, lo, lo) == {};
    NewTablesNext(tabs, d, lo, p);
    FreedNext(maps, d, lo, p);
  }

  lemma OneMore(now: set<nat>, next: set<nat>, p: nat, more: bool)
    requires p !in now && forall q: nat :: q in next <==> q in now || (q == p && more)
    ensures |next| == |now| + if more then 1 else 0
  {
    assert next == if more then now + {p} else now;
  }

  lemma NewTablesNext(tabs: map<Key, nat>, d: nat, lo: nat, p: nat)
    requires lo <= p
    ensures |NewTables(tabs, d, lo, p + 1)| == |NewTables(tabs, d, lo, p)| + if NeedsTable(tabs, d, lo, p) then 1 else 0
  {
    var now, next := NewTables(tabs, d, lo, p), NewTables(tabs, d, lo, p + 1);
    OneMore(now, next, p, NeedsTable(tabs, d, lo, p));
  }

  lemma FreedNext(maps: map<Key, Entry>, d: nat, lo: nat, p: nat)
    requires lo <= p
    ensures |Freed(maps, d, lo, p + 1)| == |Freed(maps, d, lo, p)| + if FreesOld(maps, d, lo, p) then 1 else 0
  {
    var now, next := Freed(maps, d, lo, p), Freed(maps, d, lo, p + 1);
    OneMore(now, next, p, FreesOld(maps, d, lo, p));
  }

  /** A frame is left after each page of the region: the page's later turns need one. */
  ghost predicate EnoughFor(free: nat, tabs: map<Key, nat>, maps: map<Key, Entry>, d: nat, lo: nat, hi: nat) {
    forall p: nat {:trigger FrameLeft(free, tabs, maps, d, lo, p)} | lo < p <= hi :: FrameLeft(free, tabs, maps, d, lo, p)
  }

  ghost predicate FrameLeft(free: nat, tabs: map<Key, nat>, maps: map<Key, Entry>, d: nat, lo: nat, p: nat) {
    Left(free, tabs, maps, d, lo, p) > 0
  }

  /**
   * Where nothing is mapped yet, it takes a frame for each page and each table that is
   * missing, and one to spare.
   */
  lemma EnoughWhenEmpty(free: nat, tabs: map<Key, nat>, maps: map<Key, Entry>, d: nat, lo: nat, hi: nat)
    requires lo < hi && forall q {:trigger (d, q)} | lo <= q < hi :: (d, q) !in maps
    ensures EnoughFor(free, tabs, maps, d, lo, hi) <==> free > (hi - lo) + |NewTables(tabs, d, lo, hi)|
  {
    forall p: nat | lo <= p <= hi
      ensures Left(free, tabs, maps, d, lo, p) == free - (p - lo) - |NewTables(tabs, d, lo, p)|
      ensures |NewTables(tabs, d, lo, p)| <= |NewTables(tabs, d, lo, hi)|
    {
      assert Freed(maps, d, lo, p) == {};
      var rest := NewTables(tabs, d, lo, hi) - NewTables(tabs, d, lo, p);
      assert NewTables(tabs, d, lo, hi) == NewTables(tabs, d, lo, p) + rest;
    }
    assert FrameLeft(free, tabs, maps, d, lo, hi) <==> free > (hi - lo) + |NewTables(tabs, d, lo, hi)|;
  }

  /** What region_alloc began with: the number of free frames, the tables and the mappings. */
  datatype Before = Before(free: nat, tabs: map<Key, nat>, maps: map<Key, Entry>)

  /** The tables there are when pages lo to p - 1 have been given frames. */
  ghost predicate TablesTo(tabs0: map<Key, nat>, tabs: map<Key, nat>, d: nat, lo: nat, p: nat) {
    forall i: nat {:trigger HasTable(tabs, d, i)} ::
      HasTable(tabs, d, i) <==> HasTable(tabs0, d, i) || (lo < p && Pdx(lo) <= i <= Pdx(p - 1))
  }

  /** Pages lo to p - 1 have been given their frames; n free ones are left. */
  ghost predicate PagesDone(n: nat, tabs: map<Key, nat>, maps: map<Key, Entry>, s: Before, d: nat, lo: nat, p: nat) {
    && Allocated(s.maps, maps, d, lo, p) && TablesTo(s.tabs, tabs, d, lo, p)
    && n == Left(s.free, s.tabs, s.maps, d, lo, p)
  }

  /** A byte of the region: the loop has had so many turns for its page. */
  datatype Place = Place(page: nat, turns: nat) {
    /** How many pages have been begun. */
    function Begun(): nat { if turns == 0 then page else page + 1 }

    function Byte(): nat { 4096 * page + turns }

    function Next(): Place { if turns >= 4095 then Place(page + 1, 0) else Place(page, turns + 1) }
  }

  /**
   * How far the loop is: all pages begun have their frames, or the last one could not have
   * a table and no frame is left.
   */
  ghost predicate Progress(n: nat, held: set<nat>, tabs: map<Key, nat>, maps: map<Key, Entry>, s: Before,
                           d: nat, lo: nat, at: Place)
  {
    && lo <= at.page
    && (if held == {} then PagesDone(n, tabs, maps, s, d, lo, at.Begun())
        else n == 0 && at.turns == 1 && Left(s.free, s.tabs, s.maps, d, lo, at.Begun()) <= 0)
    && EnoughFor(s.free, s.tabs, s.maps, d, lo, if at.turns == 1 then at.page else at.Begun())
  }

  /** The first turn of a page: what it takes and what it gives back. */
  lemma FirstTurn(s: Before, tabs: map<Key, nat>, maps: map<Key, Entry>, d: nat, lo: nat, p: nat)
    requires lo <= p && Allocated(s.maps, maps, d, lo, p) && TablesTo(s.tabs, tabs, d, lo, p)
    ensures HasTable(tabs, d, Pdx(p)) <==> !NeedsTable(s.tabs, d, lo, p)
    ensures SoleMapping(maps, (d, p)) <==> FreesOld(s.maps, d, lo, p)
  {
    assert (d, p) in maps <==> (d, p) in s.maps;
    if (d, p) in maps {
      assert maps[(d, p)] == s.maps[(d, p)];
      if !FreesOld(s.maps, d, lo, p) {
        var k: Key :| k in s.maps && s.maps[k].frame == s.maps[(d, p)].frame && !(k.0 == d && lo <= k.1 <= p);
        assert k in maps && maps[k] == s.maps[k];
      } else {
        forall k: Key | k in maps && maps[k].frame == maps[(d, p)].frame ensures k == (d, p) {
          if k.0 == d && lo <= k.1 < p {
            assert OwnFrame(maps, d, k.1);
          } else {
            assert k in s.maps && s.maps[k] == maps[k];
          }
        }
      }
    }
  }

  lemma TablesNext(tabs0: map<Key, nat>, tabs: map<Key, nat>, tabs': map<Key, nat>, d: nat, lo: nat, p: nat)
    requires lo <= p && TablesTo(tabs0, tabs, d, lo, p) && tabs'.Keys == tabs.Keys + {(d, Pdx(p))}
    ensures TablesTo(tabs0, tabs', d, lo, p + 1)
  {
    forall i: nat ensures HasTable(tabs', d, i) <==> HasTable(tabs0, d, i) || Pdx(lo) <= i <= Pdx(p) {
      assert HasTable(tabs', d, i) <==> HasTable(tabs, d, i) || i == Pdx(p);
      assert lo < p ==> Pdx(p) <= Pdx(p - 1) + 1;
    }
  }

  /** The region, rounded to pages, spans the middle of the address space. */
  predicate SpansMiddle(va: nat, len: nat) {
    va / 4096 < 0x8_0000 <= (va + len + 4095) / 4096
  }

  /**
   * region_alloc, for the pages that the region touches.  The loop takes one byte at a
   * time, so each page is replaced 4095 times by another new one, which takes one free
   * frame more than the region needs.  It ends well iff there is always a frame left
   * (EnoughWhenEmpty says how many that is for a region with nothing in it), and then every
   * page of the region has a new frame: although page_insert's result is not tested, a
   * table that cannot be had makes the next turn panic.  A region across the middle of the
   * address space is not allocated at all, because the addresses are compared as signed
   * integers.
   */
  method RegionAlloc(pm: PhysMem, d: nat, va: nat, len: nat) returns (ok: bool)
    requires pm.Quiet() && d in pm.dirs && va + len <= UTOP
    modifies pm, pm.pages, pm.mem
    ensures pm.Valid() && pm.dirs == old(pm.dirs)
    ensures ok ==> pm.Quiet()
    ensures !SpansMiddle(va, len) ==>
              (ok <==> EnoughFor(|old(pm.free)|, old(pm.tabs), old(pm.maps), d, va / 4096, (va + len + 4095) / 4096))
    ensures ok && !SpansMiddle(va, len) ==> Allocated(old(pm.maps), pm.maps, d, va / 4096, (va + len + 4095) / 4096)
    ensures SpansMiddle(va, len) ==> ok && pm.maps == old(pm.maps)
  {
    var init := va - va % 4096;
    var fin := EndOf(va, len);
    Rounded(va, len);
    ok := AllocPages(pm, d, init, fin);
  }

  lemma Rounded(va: nat, len: nat)
    requires va + len <= UTOP
    ensures var lo, hi := va - va % 4096, EndOf(va, len);
            && lo % 4096 == 0 && hi % 4096 == 0 && lo <= hi <= UTOP && lo / 4096 == va / 4096 && hi / 4096 == (va + len + 4095) / 4096
            && (SpansMiddle(va, len) <==> lo < 0x8000_0000 <= hi)
  {
  }

  /** region_alloc's loop, from address lo to address hi. */
  method AllocPages(pm: PhysMem, d: nat, lo: nat, hi: nat) returns (ok: bool)
    requires pm.Quiet() && d in pm.dirs && lo % 4096 == 0 && hi % 4096 == 0 && lo <= hi <= UTOP
    modifies pm, pm.pages, pm.mem
    ensures pm.Valid() && pm.dirs == old(pm.dirs)
    ensures ok ==> pm.Quiet()
    ensures !(lo < 0x8000_0000 <= hi) ==>
              (ok <==> EnoughFor(|old(pm.free)|, old(pm.tabs), old(pm.maps), d, lo / 4096, hi / 4096))
    ensures ok && !(lo < 0x8000_0000 <= hi) ==> Allocated(old(pm.maps), pm.maps, d, lo / 4096, hi / 4096)
    ensures lo < 0x8000_0000 <= hi ==> ok && pm.maps == old(pm.maps)
  {
    if Signed(lo) >= Signed(hi) {          // the loop is not entered
      return true;
    }
    var i, fin := Signed(lo), Signed(hi);
    ghost var s, at, first := Before(|pm.free|, pm.tabs, pm.maps), Place(lo / 4096, 0), lo / 4096;
    ProgressStart(pm, s, d, first);
    while i < fin
      invariant pm.Valid() && pm.pins == multiset{} && pm.dirs == old(pm.dirs)
      invariant at.turns < 4096 && lo <= at.Byte() <= hi && i == Signed(at.Byte())
      invariant Progress(|pm.free|, pm.held, pm.tabs, pm.maps, s, d, first, at)
    {
      NextByte(at, lo, hi);
      ok := AllocTurn(pm, s, d, first, i % 0x1_0000_0000, at);
      if !ok {
        NotEnough(s, d, first, at, hi);
        return;
      }
      i, at := i + 1, at.Next();
    }
    LastByte(at, hi);
    return true;
  }

  lemma ProgressStart(pm: PhysMem, s: Before, d: nat, lo: nat)
    requires pm.held == {} && s == Before(|pm.free|, pm.tabs, pm.maps)
    ensures Progress(|pm.free|, pm.held, pm.tabs, pm.maps, s, d, lo, Place(lo, 0))
  {
    LeftNext(s.free, s.tabs, s.maps, d, lo, lo);
  }

  lemma NextByte(at: Place, lo: nat, hi: nat)
    requires at.turns < 4096 && lo <= at.Byte() < hi <= UTOP && !(lo < 0x8000_0000 <= hi)
    ensures at.Next().Byte() == at.Byte() + 1 && at.Byte() / 4096 == at.page
    ensures Signed(at.Next().Byte()) == Signed(at.Byte()) + 1 && Signed(at.Byte()) % 0x1_0000_0000 == at.Byte()
  {
  }

  lemma LastByte(at: Place, hi: nat)
    requires hi % 4096 == 0 && at.turns < 4096 && at.Byte() == hi
    ensures at == Place(hi / 4096, 0)
  {
  }

  lemma NotEnough(s: Before, d: nat, lo: nat, at: Place, hi: nat)
    requires at.Byte() < hi && hi % 4096 == 0 && !EnoughFor(s.free, s.tabs, s.maps, d, lo, at.page + 1)
    ensures !EnoughFor(s.free, s.tabs, s.maps, d, lo, hi / 4096)
  {
    assert at.page + 1 <= hi / 4096;
  }

  /** One turn, with what it does for the whole region. */
  method AllocTurn(pm: PhysMem, ghost s: Before, d: nat, ghost lo: nat, va: nat, ghost at: Place) returns (ok: bool)
    requires pm.Valid() && pm.pins == multiset{} && d in pm.dirs && va < UTOP && va / 4096 == at.page
    requires Progress(|pm.free|, pm.held, pm.tabs, pm.maps, s, d, lo, at)
    modifies pm, pm.pages, pm.mem
    ensures pm.Valid() && pm.dirs == old(pm.dirs) && pm.pins == multiset{}
    ensures ok ==> Progress(|pm.free|, pm.held, pm.tabs, pm.maps, s, d, lo, at.Next())
    ensures !ok ==> !EnoughFor(s.free, s.tabs, s.maps, d, lo, at.page + 1)
  {
    ghost var free, held, tabs, maps := pm.free, pm.held, pm.tabs, pm.maps;
    ghost var inserted;
    ok, inserted := AllocByte(pm, d, va);
    if !ok {
      OutOfFrames(held, tabs, maps, s, d, lo, at);
    } else if inserted {
      TurnDone(|free|, tabs, maps, free[0], |pm.free|, pm.tabs, pm.maps, s, d, lo, at);
    } else {
      TableMissed(pm.held, tabs, maps, s, d, lo, at);
    }
  }

  lemma OutOfFrames(held: set<nat>, tabs: map<Key, nat>, maps: map<Key, Entry>, s: Before, d: nat, lo: nat, at: Place)
    requires Progress(0, held, tabs, maps, s, d, lo, at)
    ensures !EnoughFor(s.free, s.tabs, s.maps, d, lo, at.page + 1)
  {
    var p := at.page;
    LeftNext(s.free, s.tabs, s.maps, d, lo, p);
    assert at.turns == 0 && p > lo ==> FrameLeft(s.free, s.tabs, s.maps, d, lo, p);
    assert !FrameLeft(s.free, s.tabs, s.maps, d, lo, p + 1);
  }

  lemma TurnDone(n: nat, tabs: map<Key, nat>, maps: map<Key, Entry>, f: nat, n': nat, tabs': map<Key, nat>,
                 maps': map<Key, Entry>, s: Before, d: nat, lo: nat, at: Place)
    requires Progress(n, {}, tabs, maps, s, d, lo, at) && n > 0 && Turned(n, tabs, maps, f, n', tabs', maps', d, at.page)
    ensures Progress(n', {}, tabs', maps', s, d, lo, at.Next())
  {
    assert at.Next().Begun() == at.page + 1;
    if at.turns == 0 {
      FirstTurnDone(n, tabs, maps, f, n', tabs', maps', s, d, lo, at.page);
    } else {
      LaterTurnDone(n, tabs, maps, f, n', tabs', maps', s, d, lo, at.page);
      EnoughNext(s, d, lo, at);
    }
  }

  lemma FirstTurnDone(n: nat, tabs: map<Key, nat>, maps: map<Key, Entry>, f: nat, n': nat, tabs': map<Key, nat>,
                      maps': map<Key, Entry>, s: Before, d: nat, lo: nat, p: nat)
    requires lo <= p && PagesDone(n, tabs, maps, s, d, lo, p) && Turned(n, tabs, maps, f, n', tabs', maps', d, p)
    ensures PagesDone(n', tabs', maps', s, d, lo, p + 1)
  {
    AllocatedNext(s.maps, maps, d, lo, p, p, f);
    FirstTurn(s, tabs, maps, d, lo, p);
    LeftNext(s.free, s.tabs, s.maps, d, lo, p);
    TablesNext(s.tabs, tabs, tabs', d, lo, p);
  }

  lemma LaterTurnDone(n: nat, tabs: map<Key, nat>, maps: map<Key, Entry>, f: nat, n': nat, tabs': map<Key, nat>,
                      maps': map<Key, Entry>, s: Before, d: nat, lo: nat, p: nat)
    requires lo <= p && PagesDone(n, tabs, maps, s, d, lo, p + 1) && Turned(n, tabs, maps, f, n', tabs', maps', d, p)
    ensures PagesDone(n', tabs', maps', s, d, lo, p + 1) && n' == n
  {
    AllocatedNext(s.maps, maps, d, lo, p + 1, p, f);
    LaterTurn(s, tabs, tabs', maps, d, lo, p);
  }

  lemma EnoughNext(s: Before, d: nat, lo: nat, at: Place)
    requires lo <= at.page && Left(s.free, s.tabs, s.maps, d, lo, at.page + 1) > 0
    requires EnoughFor(s.free, s.tabs, s.maps, d, lo, if at.turns == 1 then at.page else at.page + 1)
    ensures EnoughFor(s.free, s.tabs, s.maps, d, lo, at.page + 1)
  {
  }

  /** The page has its own frame and a table already. */
  lemma LaterTurn(s: Before, tabs: map<Key, nat>, tabs': map<Key, nat>, maps: map<Key, Entry>, d: nat, lo: nat, p: nat)
    requires lo <= p && Allocated(s.maps, maps, d, lo, p + 1) && TablesTo(s.tabs, tabs, d, lo, p + 1)
    ensures HasTable(tabs, d, Pdx(p)) && SoleMapping(maps, (d, p))
    ensures tabs'.Keys == tabs.Keys + {(d, Pdx(p))} ==> TablesTo(s.tabs, tabs', d, lo, p + 1)
  {
    assert OwnFrame(maps, d, p);
    assert HasTable(tabs, d, Pdx(p));
    if tabs'.Keys == tabs.Keys + {(d, Pdx(p))} {
      assert tabs'.Keys == tabs.Keys;
      forall i: nat ensures HasTable(tabs', d, i) <==> HasTable(tabs, d, i) {
      }
    }
  }

  lemma TableMissed(held: set<nat>, tabs: map<Key, nat>, maps: map<Key, Entry>, s: Before, d: nat, lo: nat, at: Place)
    requires Progress(1, {}, tabs, maps, s, d, lo, at) && Tableless(tabs, maps, d, at.page) && held != {}
    ensures Progress(0, held, tabs, maps, s, d, lo, at.Next())
  {
    if at.turns == 0 {
      FirstTurn(s, tabs, maps, d, lo, at.page);
      LeftNext(s.free, s.tabs, s.maps, d, lo, at.page);
      assert !FreesOld(s.maps, d, lo, at.page);
    } else {
      LaterTurn(s, tabs, tabs, maps, d, lo, at.page);
      assert false;
    }
  }
}
