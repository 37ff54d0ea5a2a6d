/**
 * kern/pmap.c: physical pages with reference counts on a linked free list, and
 * two-level page tables allocated on demand.
 *
 * The concrete state is what the kernel stores: `pages[]`, `page_free_list` and
 * the contents of the frames that serve as directories and tables.  The ghost
 * state is what it stands for: the free list as a sequence, and every user
 * mapping of every directory as one finite map.
 */
module Paging {
  import opened Basics
  import opened Wrappers

  datatype PageInfo = PageInfo(link: Option<nat>, ref: nat)

  type Frame = s: seq<Entry> | |s| == NPTENTRIES witness seq(NPTENTRIES, _ => EMPTY)

  const ZERO_FRAME: Frame := seq(NPTENTRIES, _ => EMPTY)

  const MAX_REF := 65535        // pp_ref is a uint16_t

  /** (directory, index): an entry of a directory, or a user page of its address space. */
  type Key = (nat, nat)

  /** PDX, PTX and PGNUM on page numbers. */
  function Pdx(vpn: nat): nat { vpn / 1024 }
  function Ptx(vpn: nat): nat { vpn % 1024 }
  function PageNum(i: nat, j: nat): nat { i * 1024 + j }

  const ALL_PAGES := 1024 * 1024

  // ---------------------------------------------------------------- counting

  /** The user mappings that name frame f. */
  ghost function Mappings(maps: map<Key, Entry>, f: nat): set<Key> {
    set k | k in maps && maps[k].frame == f
  }

  /** The directory entries that name frame f as a page table. */
  ghost function TableUses(tabs: map<Key, nat>, f: nat): set<Key> {
    set k | k in tabs && tabs[k] == f
  }

  /** How often frame f is named: by mappings, by directory entries, and by an env_pgdir. */
  ghost function Uses(dirs: set<nat>, tabs: map<Key, nat>, maps: map<Key, Entry>, f: nat): nat {
    |Mappings(maps, f)| + |TableUses(tabs, f)| + if f in dirs then 1 else 0
  }

  /** Installing a mapping moves exactly one use from the frame it replaces to the new frame. */
  lemma MappingsOfUpdate(maps: map<Key, Entry>, k: Key, e: Entry, f: nat)
    ensures |Mappings(maps[k := e], f)| ==
            |Mappings(maps, f)| - (if k in maps && maps[k].frame == f then 1 else 0)
            + if e.frame == f then 1 else 0
  {
    var before, after := Mappings(maps, f), Mappings(maps[k := e], f);
    assert forall x | x != k :: x in after <==> x in before;
    DifferInOne(before, after, k);
  }

  lemma DifferInOne(before: set<Key>, after: set<Key>, k: Key)
    requires forall x | x != k :: x in after <==> x in before
    ensures |after| == |before| - (if k in before then 1 else 0) + if k in after then 1 else 0
  {
    assert after - {k} == before - {k};
    assert |before - {k}| == |before| - if k in before then 1 else 0;
    assert |after - {k}| == |after| - if k in after then 1 else 0;
  }

  lemma ReplaceIsUpdate(maps: map<Key, Entry>, k: Key, e: Entry)
    ensures (maps - {k})[k := e] == maps[k := e]
  {
  }

  lemma MappingsOfRemove(maps: map<Key, Entry>, k: Key, f: nat)
    ensures |Mappings(maps - {k}, f)| ==
            |Mappings(maps, f)| - if k in maps && maps[k].frame == f then 1 else 0
  {
    var before, after := Mappings(maps, f), Mappings(maps - {k}, f);
    assert after == before - {k};
  }

  lemma TableUsesOfUpdate(tabs: map<Key, nat>, k: Key, t: nat, f: nat)
    requires k !in tabs
    ensures |TableUses(tabs[k := t], f)| == |TableUses(tabs, f)| + if t == f then 1 else 0
  {
    var before, after := TableUses(tabs, f), TableUses(tabs[k := t], f);
    assert after == if t == f then before + {k} else before;
  }

  lemma TableUsesOfRemove(tabs: map<Key, nat>, k: Key, f: nat)
    ensures |TableUses(tabs - {k}, f)| ==
            |TableUses(tabs, f)| - if k in tabs && tabs[k] == f then 1 else 0
  {
    var before, after := TableUses(tabs, f), TableUses(tabs - {k}, f);
    assert after == before - {k};
  }

  // -------------------------------------------------------------- invariants

  function Nth(s: seq<nat>, i: nat): Option<nat> {
    if i < |s| then Some(s[i]) else None
  }

  ghost predicate LinkOk(pages: seq<PageInfo>, free: seq<nat>, i: nat)
    requires i < |free|
  {
    free[i] < |pages| && pages[free[i]].link == Nth(free, i + 1)
  }

  /** The chain of pp_link pointers from page_free_list is exactly `free`: acyclic, no duplicates. */
  ghost predicate FreeListOk(pages: seq<PageInfo>, head: Option<nat>, free: seq<nat>) {
    && (forall i, j | 0 <= i < j < |free| :: free[i] != free[j])
    && head == Nth(free, 0)
    && (forall i | 0 <= i < |free| :: LinkOk(pages, free, i))
    && (forall f | 0 <= f < |pages| && f !in free :: pages[f].link == None)
  }

  /** What a frame's pp_ref must be, given the kernel references that are not in a table yet. */
  ghost predicate CountOk(info: PageInfo, uses: nat, pins: nat, reserved: bool) {
    info.ref <= MAX_REF && info.ref == uses + pins + if reserved then 1 else 0
  }

  /** Every pp_ref is exact, and the free list holds exactly the unreferenced frames nobody holds. */
  ghost predicate CountsOk(pages: seq<PageInfo>, free: seq<nat>, held: set<nat>, reserved: set<nat>,
                           pins: multiset<nat>, dirs: set<nat>, tabs: map<Key, nat>, maps: map<Key, Entry>)
  {
    && (forall f {:trigger Uses(dirs, tabs, maps, f)} | 0 <= f < |pages| ::
          CountOk(pages[f], Uses(dirs, tabs, maps, f), pins[f], f in reserved))
    && (forall f | 0 <= f < |pages| :: f in free <==> pages[f].ref == 0 && f !in held)
    && (forall f | f in held :: f < |pages| && pages[f].ref == 0)
  }

  ghost predicate DataFrame(f: nat, n: nat, reserved: set<nat>, dirs: set<nat>, tabs: map<Key, nat>) {
    f < n && f !in dirs && f !in reserved && f !in tabs.Values
  }

  /** A frame is a directory, a table or data, never two of them; no table is shared. */
  ghost predicate RolesOk(n: nat, reserved: set<nat>, dirs: set<nat>, tabs: map<Key, nat>, maps: map<Key, Entry>) {
    && (forall d | d in dirs :: d < n && d !in reserved)
    && (forall k | k in tabs :: k.0 in dirs && k.1 < USER_PDES && tabs[k] < n && tabs[k] !in dirs && tabs[k] !in reserved)
    && (forall k, k' | k in tabs && k' in tabs && k != k' :: tabs[k] != tabs[k'])
    && (forall m | m in maps :: m.1 < USER_PAGES && (m.0, Pdx(m.1)) in tabs)
    && (forall m | m in maps :: DataFrame(maps[m].frame, n, reserved, dirs, tabs))
  }

  /** Directory frame contents: user entries as in `tabs`, kernel entries copied from kern_pgdir. */
  ghost predicate DirAgrees(dir: Frame, d: nat, kern: Frame, tabs: map<Key, nat>) {
    && (forall i | 0 <= i < USER_PDES :: Present(dir[i]) <==> (d, i) in tabs)
    && (forall i | 0 <= i < USER_PDES && (d, i) in tabs ::
          dir[i].frame == tabs[(d, i)] && {P, W, U} <= dir[i].flags)
    && (forall i | USER_PDES <= i < NPTENTRIES ::
          dir[i] == if i == UVPT_PDX then Entry(d, {P, U}) else kern[i])
  }

  /** Table frame contents: slot j holds the mapping of page PageNum(i, j). */
  ghost predicate TableAgrees(table: Frame, d: nat, i: nat, maps: map<Key, Entry>) {
    && (forall j | 0 <= j < NPTENTRIES :: Present(table[j]) <==> (d, PageNum(i, j)) in maps)
    && (forall j | 0 <= j < NPTENTRIES && (d, PageNum(i, j)) in maps :: table[j] == maps[(d, PageNum(i, j))])
  }

  ghost predicate TablesOk(mem: seq<Frame>, kern: Frame, dirs: set<nat>, tabs: map<Key, nat>, maps: map<Key, Entry>) {
    && (forall d {:trigger DirAgrees(mem[d], d, kern, tabs)} | d in dirs :: d < |mem| && DirAgrees(mem[d], d, kern, tabs))
    && (forall k {:trigger TableAgrees(mem[tabs[k]], k.0, k.1, maps)} | k in tabs ::
          tabs[k] < |mem| && TableAgrees(mem[tabs[k]], k.0, k.1, maps))
  }

  // ------------------------------------------------------- hardware's view

  /** The walk the paging hardware makes from directory d for page vpn (Intel SDM Volume 3A, section 4.3). */
  function Translate(mem: seq<Frame>, d: nat, vpn: nat): Option<Entry>
    requires vpn < ALL_PAGES
  {
    if d >= |mem| then None
    else
      var pde := mem[d][Pdx(vpn)];
      if !Present(pde) || pde.frame >= |mem| then None
      else
        var pte := mem[pde.frame][Ptx(vpn)];
        if Present(pte) then Some(pte) else None
  }

  /** Page tables refine a finite map: for every directory, the hardware walk is map lookup. */
  lemma TranslateIsLookup(mem: seq<Frame>, kern: Frame, reserved: set<nat>, dirs: set<nat>, tabs: map<Key, nat>, maps: map<Key, Entry>,
                          d: nat, vpn: nat)
    requires RolesOk(|mem|, reserved, dirs, tabs, maps) && TablesOk(mem, kern, dirs, tabs, maps)
    requires d in dirs && vpn < USER_PAGES
    ensures Translate(mem, d, vpn) == if (d, vpn) in maps then Some(maps[(d, vpn)]) else None
  {
    var i, j := Pdx(vpn), Ptx(vpn);
    assert DirAgrees(mem[d], d, kern, tabs);
    if (d, i) in tabs {
      assert TableAgrees(mem[tabs[(d, i)]], d, i, maps);
    }
  }

  // ------------------------------------------------- what each step preserves

  lemma UnusedFrame(dirs: set<nat>, tabs: map<Key, nat>, maps: map<Key, Entry>, f: nat)
    requires Uses(dirs, tabs, maps, f) == 0
    ensures f !in dirs
    ensures forall k | k in tabs :: tabs[k] != f
    ensures forall m | m in maps :: maps[m].frame != f
  {
    assert TableUses(tabs, f) == {} && Mappings(maps, f) == {};
    assert forall k | k in tabs :: tabs[k] == f ==> k in TableUses(tabs, f);
    assert forall m | m in maps :: maps[m].frame == f ==> m in Mappings(maps, f);
  }

  /** A mapped frame has a positive count, so it is neither free nor held. */
  lemma MappedFrame(pages: seq<PageInfo>, free: seq<nat>, held: set<nat>, reserved: set<nat>,
                    pins: multiset<nat>, dirs: set<nat>, tabs: map<Key, nat>, maps: map<Key, Entry>, m: Key)
    requires CountsOk(pages, free, held, reserved, pins, dirs, tabs, maps)
    requires m in maps && maps[m].frame < |pages|
    ensures maps[m].frame !in free && maps[m].frame !in held && pages[maps[m].frame].ref > 0
  {
    var f := maps[m].frame;
    assert m in Mappings(maps, f);
    assert CountOk(pages[f], Uses(dirs, tabs, maps, f), pins[f], f in reserved);
  }

  /** The free list once the mapping at k is dropped: its frame joins it if that was the last use. */
  ghost function FreeAfterDrop(pages: seq<PageInfo>, free: seq<nat>, maps: map<Key, Entry>, k: Key): seq<nat> {
    if k in maps && maps[k].frame < |pages| && pages[maps[k].frame].ref == 1 then [maps[k].frame] + free else free
  }

  /** No other page has the frame that is mapped at k. */
  ghost predicate SoleMapping(maps: map<Key, Entry>, k: Key) {
    k in maps && forall k' | k' in maps && maps[k'].frame == maps[k].frame :: k' == k
  }

  /** A data frame has a count of 1 iff it is mapped once. */
  lemma SoleIsLast(pages: seq<PageInfo>, free: seq<nat>, held: set<nat>, reserved: set<nat>, dirs: set<nat>,
                   tabs: map<Key, nat>, maps: map<Key, Entry>, k: Key)
    requires CountsOk(pages, free, held, reserved, multiset{}, dirs, tabs, maps) && RolesOk(|pages|, reserved, dirs, tabs, maps)
    requires k in maps && maps[k].frame < |pages|
    ensures pages[maps[k].frame].ref == 1 <==> SoleMapping(maps, k)
  {
    var f := maps[k].frame;
    assert CountOk(pages[f], Uses(dirs, tabs, maps, f), 0, f in reserved);
    assert DataFrame(f, |pages|, reserved, dirs, tabs);
    assert TableUses(tabs, f) == {};
    var ms := Mappings(maps, f);
    assert ms == {k} + (ms - {k});
    if k' :| k' in maps && maps[k'].frame == f && k' != k {
      assert k' in ms - {k};
    }
  }

  /** What page_insert may be given: a frame just allocated, or one that some page already maps. */
  ghost predicate Insertable(held: set<nat>, maps: map<Key, Entry>, f: nat) {
    f in held || exists m | m in maps :: maps[m].frame == f
  }

  lemma InsertableFrame(pages: seq<PageInfo>, free: seq<nat>, held: set<nat>, reserved: set<nat>,
                        pins: multiset<nat>, dirs: set<nat>, tabs: map<Key, nat>, maps: map<Key, Entry>, f: nat)
    requires CountsOk(pages, free, held, reserved, pins, dirs, tabs, maps)
    requires RolesOk(|pages|, reserved, dirs, tabs, maps)
    requires f < |pages| && Insertable(held, maps, f)
    ensures f !in free && DataFrame(f, |pages|, reserved, dirs, tabs)
  {
    if f in held {
      assert CountOk(pages[f], Uses(dirs, tabs, maps, f), pins[f], f in reserved);
      UnusedFrame(dirs, tabs, maps, f);
    } else {
      var m :| m in maps && maps[m].frame == f;
      MappedFrame(pages, free, held, reserved, pins, dirs, tabs, maps, m);
    }
  }

  lemma PopFree(pages: seq<PageInfo>, free: seq<nat>, f: nat)
    requires FreeListOk(pages, Some(f), free)
    ensures free != [] && f == free[0] && f < |pages| && f !in free[1..]
    ensures FreeListOk(pages[f := pages[f].(link := None)], pages[f].link, free[1..])
  {
    assert LinkOk(pages, free, 0);
    var pages', rest := pages[f := pages[f].(link := None)], free[1..];
    forall i | 0 <= i < |rest| ensures LinkOk(pages', rest, i) {
      assert LinkOk(pages, free, i + 1);
    }
    assert free == [f] + rest;
  }

  lemma PushFree(pages: seq<PageInfo>, head: Option<nat>, free: seq<nat>, f: nat)
    requires FreeListOk(pages, head, free) && f < |pages| && f !in free
    ensures FreeListOk(pages[f := pages[f].(link := head)], Some(f), [f] + free)
  {
    var pages', all := pages[f := pages[f].(link := head)], [f] + free;
    forall i | 0 <= i < |all| ensures LinkOk(pages', all, i) {
      if i > 0 { assert LinkOk(pages, free, i - 1); }
    }
  }

  lemma SetRef(pages: seq<PageInfo>, head: Option<nat>, free: seq<nat>, f: nat, ref: nat)
    requires FreeListOk(pages, head, free) && f < |pages|
    ensures FreeListOk(pages[f := pages[f].(ref := ref)], head, free)
  {
    var pages' := pages[f := pages[f].(ref := ref)];
    forall i | 0 <= i < |free| ensures LinkOk(pages', free, i) {
      assert LinkOk(pages, free, i);
    }
  }

  /** Same reference counts everywhere but at f. */
  ghost predicate SameRefsBut(pages: seq<PageInfo>, pages': seq<PageInfo>, f: nat) {
    |pages| == |pages'| && forall g | 0 <= g < |pages| && g != f :: pages'[g].ref == pages[g].ref
  }

  /** Dropping a pinned reference keeps every count exact; the frame is free iff it was the last. */
  lemma DropPin(pages: seq<PageInfo>, pages': seq<PageInfo>, free: seq<nat>, held: set<nat>, reserved: set<nat>,
                pins: multiset<nat>, dirs: set<nat>, tabs: map<Key, nat>, maps: map<Key, Entry>, f: nat)
    requires CountsOk(pages, free, held, reserved, pins, dirs, tabs, maps)
    requires f < |pages| && f in pins && f !in held && SameRefsBut(pages, pages', f)
    requires pages'[f].ref == pages[f].ref - 1
    ensures f !in free
    ensures CountsOk(pages', if pages[f].ref == 1 then [f] + free else free, held, reserved, pins - multiset{f}, dirs, tabs, maps)
  {
    assert CountOk(pages[f], Uses(dirs, tabs, maps, f), pins[f], f in reserved);
    var pins' := pins - multiset{f};
    forall g | 0 <= g < |pages|
      ensures CountOk(pages'[g], Uses(dirs, tabs, maps, g), pins'[g], g in reserved)
    {
      assert CountOk(pages[g], Uses(dirs, tabs, maps, g), pins[g], g in reserved);
    }
  }

  /** Taking a new counted reference to a frame that is not free. */
  lemma AddPin(pages: seq<PageInfo>, pages': seq<PageInfo>, free: seq<nat>, held: set<nat>, reserved: set<nat>,
               pins: multiset<nat>, dirs: set<nat>, tabs: map<Key, nat>, maps: map<Key, Entry>, f: nat)
    requires CountsOk(pages, free, held, reserved, pins, dirs, tabs, maps)
    requires f < |pages| && f !in free && SameRefsBut(pages, pages', f)
    requires pages'[f].ref == pages[f].ref + 1 <= MAX_REF
    ensures CountsOk(pages', free, held - {f}, reserved, pins + multiset{f}, dirs, tabs, maps)
  {
    var pins' := pins + multiset{f};
    forall g | 0 <= g < |pages|
      ensures CountOk(pages'[g], Uses(dirs, tabs, maps, g), pins'[g], g in reserved)
    {
      assert CountOk(pages[g], Uses(dirs, tabs, maps, g), pins[g], g in reserved);
    }
  }

  /** Moving references between tables and the kernel's hands keeps every count exact. */
  lemma Transfer(pages: seq<PageInfo>, free: seq<nat>, held: set<nat>, reserved: set<nat>,
                 pins: multiset<nat>, dirs: set<nat>, tabs: map<Key, nat>, maps: map<Key, Entry>,
                 pins': multiset<nat>, dirs': set<nat>, tabs': map<Key, nat>, maps': map<Key, Entry>)
    requires CountsOk(pages, free, held, reserved, pins, dirs, tabs, maps)
    requires forall g: nat :: Uses(dirs', tabs', maps', g) + pins'[g] == Uses(dirs, tabs, maps, g) + pins[g]
    ensures CountsOk(pages, free, held, reserved, pins', dirs', tabs', maps')
  {
    forall g | 0 <= g < |pages|
      ensures CountOk(pages[g], Uses(dirs', tabs', maps', g), pins'[g], g in reserved)
    {
      assert CountOk(pages[g], Uses(dirs, tabs, maps, g), pins[g], g in reserved);
    }
  }

  lemma TransferToMap(pages: seq<PageInfo>, free: seq<nat>, held: set<nat>, reserved: set<nat>,
                      pins: multiset<nat>, dirs: set<nat>, tabs: map<Key, nat>, maps: map<Key, Entry>, k: Key, e: Entry)
    requires CountsOk(pages, free, held, reserved, pins, dirs, tabs, maps)
    requires k !in maps && e.frame in pins
    ensures CountsOk(pages, free, held, reserved, pins - multiset{e.frame}, dirs, tabs, maps[k := e])
  {
    forall g: nat ensures Uses(dirs, tabs, maps[k := e], g) + (pins - multiset{e.frame})[g] == Uses(dirs, tabs, maps, g) + pins[g] {
      MappingsOfUpdate(maps, k, e, g);
    }
    Transfer(pages, free, held, reserved, pins, dirs, tabs, maps, pins - multiset{e.frame}, dirs, tabs, maps[k := e]);
  }

  lemma TransferFromMap(pages: seq<PageInfo>, free: seq<nat>, held: set<nat>, reserved: set<nat>,
                        pins: multiset<nat>, dirs: set<nat>, tabs: map<Key, nat>, maps: map<Key, Entry>, k: Key)
    requires CountsOk(pages, free, held, reserved, pins, dirs, tabs, maps)
    requires k in maps
    ensures CountsOk(pages, free, held, reserved, pins + multiset{maps[k].frame}, dirs, tabs, maps - {k})
  {
    var pins' := pins + multiset{maps[k].frame};
    forall g: nat ensures Uses(dirs, tabs, maps - {k}, g) + pins'[g] == Uses(dirs, tabs, maps, g) + pins[g] {
      MappingsOfRemove(maps, k, g);
    }
    Transfer(pages, free, held, reserved, pins, dirs, tabs, maps, pins', dirs, tabs, maps - {k});
  }

  lemma TransferToTables(pages: seq<PageInfo>, free: seq<nat>, held: set<nat>, reserved: set<nat>,
                         pins: multiset<nat>, dirs: set<nat>, tabs: map<Key, nat>, maps: map<Key, Entry>, k: Key, t: nat)
    requires CountsOk(pages, free, held, reserved, pins, dirs, tabs, maps)
    requires k !in tabs && t in pins
    ensures CountsOk(pages, free, held, reserved, pins - multiset{t}, dirs, tabs[k := t], maps)
  {
    forall g: nat ensures Uses(dirs, tabs[k := t], maps, g) + (pins - multiset{t})[g] == Uses(dirs, tabs, maps, g) + pins[g] {
      TableUsesOfUpdate(tabs, k, t, g);
    }
    Transfer(pages, free, held, reserved, pins, dirs, tabs, maps, pins - multiset{t}, dirs, tabs[k := t], maps);
  }

  lemma TransferFromTables(pages: seq<PageInfo>, free: seq<nat>, held: set<nat>, reserved: set<nat>,
                           pins: multiset<nat>, dirs: set<nat>, tabs: map<Key, nat>, maps: map<Key, Entry>, k: Key)
    requires CountsOk(pages, free, held, reserved, pins, dirs, tabs, maps)
    requires k in tabs
    ensures CountsOk(pages, free, held, reserved, pins + multiset{tabs[k]}, dirs, tabs - {k}, maps)
  {
    var pins' := pins + multiset{tabs[k]};
    forall g: nat ensures Uses(dirs, tabs - {k}, maps, g) + pins'[g] == Uses(dirs, tabs, maps, g) + pins[g] {
      TableUsesOfRemove(tabs, k, g);
    }
    Transfer(pages, free, held, reserved, pins, dirs, tabs, maps, pins', dirs, tabs - {k}, maps);
  }

  lemma AddTableRoles(n: nat, reserved: set<nat>, dirs: set<nat>, tabs: map<Key, nat>, maps: map<Key, Entry>, d: nat, i: nat, f: nat)
    requires RolesOk(n, reserved, dirs, tabs, maps) && d in dirs && i < USER_PDES && (d, i) !in tabs
    requires f < n && f !in reserved && Uses(dirs, tabs, maps, f) == 0
    ensures RolesOk(n, reserved, dirs, tabs[(d, i) := f], maps)
  {
    UnusedFrame(dirs, tabs, maps, f);
  }

  /** Pointing an empty directory entry at an unused, zeroed frame adds a table with no mappings. */
  lemma AddTable(mem: seq<Frame>, kern: Frame, reserved: set<nat>, dirs: set<nat>, tabs: map<Key, nat>,
                 maps: map<Key, Entry>, d: nat, i: nat, f: nat)
    requires RolesOk(|mem|, reserved, dirs, tabs, maps) && TablesOk(mem, kern, dirs, tabs, maps)
    requires d in dirs && i < USER_PDES && (d, i) !in tabs
    requires f < |mem| && f !in reserved && mem[f] == ZERO_FRAME && Uses(dirs, tabs, maps, f) == 0
    ensures RolesOk(|mem|, reserved, dirs, tabs[(d, i) := f], maps)
    ensures TablesOk(mem[d := mem[d][i := Entry(f, {P, U, W})]], kern, dirs, tabs[(d, i) := f], maps)
  {
    UnusedFrame(dirs, tabs, maps, f);
    AddTableRoles(|mem|, reserved, dirs, tabs, maps, d, i, f);
    var mem', tabs' := mem[d := mem[d][i := Entry(f, {P, U, W})]], tabs[(d, i) := f];
    forall d' | d' in dirs ensures DirAgrees(mem'[d'], d', kern, tabs') {
      assert DirAgrees(mem[d'], d', kern, tabs);
    }
    forall k | k in tabs' ensures TableAgrees(mem'[tabs'[k]], k.0, k.1, maps) {
      if k != (d, i) {
        assert TableAgrees(mem[tabs[k]], k.0, k.1, maps);
        assert tabs[k] != d;
      } else {
        assert f != d;
        forall j | 0 <= j < NPTENTRIES ensures (d, PageNum(i, j)) !in maps {
          assert Pdx(PageNum(i, j)) == i;
        }
      }
    }
  }

  /** Storing an entry in slot Ptx(vpn) of its table, present or empty, changes one mapping. */
  lemma StoreEntry(mem: seq<Frame>, kern: Frame, reserved: set<nat>, dirs: set<nat>, tabs: map<Key, nat>,
                   maps: map<Key, Entry>, d: nat, vpn: nat, e: Entry, maps': map<Key, Entry>)
    requires RolesOk(|mem|, reserved, dirs, tabs, maps)
    requires d in dirs && vpn < USER_PAGES && (d, Pdx(vpn)) in tabs
    requires forall d' | d' in dirs :: DirAgrees(mem[d'], d', kern, tabs)
    requires forall k | k in tabs && k != (d, Pdx(vpn)) :: TableAgrees(mem[tabs[k]], k.0, k.1, maps)
    requires forall j | 0 <= j < NPTENTRIES && j != Ptx(vpn) ::
               var m := (d, PageNum(Pdx(vpn), j));
               (Present(mem[tabs[(d, Pdx(vpn))]][j]) <==> m in maps) && (m in maps ==> mem[tabs[(d, Pdx(vpn))]][j] == maps[m])
    requires maps' == if Present(e) then maps[(d, vpn) := e] else maps - {(d, vpn)}
    ensures var t := tabs[(d, Pdx(vpn))];
            TablesOk(mem[t := mem[t][Ptx(vpn) := e]], kern, dirs, tabs, maps')
  {
    var i, j := Pdx(vpn), Ptx(vpn);
    var t := tabs[(d, i)];
    var mem' := mem[t := mem[t][j := e]];
    assert vpn == PageNum(i, j);
    forall k | k in tabs ensures TableAgrees(mem'[tabs[k]], k.0, k.1, maps') {
      if k != (d, i) {
        assert TableAgrees(mem[tabs[k]], k.0, k.1, maps);
        assert tabs[k] != t;
        OtherTable(mem[tabs[k]], k.0, k.1, maps, d, vpn, e);
      } else {
        forall j' | 0 <= j' < NPTENTRIES && j' != j ensures PageNum(i, j') != vpn {
          assert Ptx(PageNum(i, j')) == j';
        }
      }
    }
  }

  lemma OtherTable(table: Frame, d: nat, i: nat, maps: map<Key, Entry>, d': nat, vpn: nat, e: Entry)
    requires TableAgrees(table, d, i, maps) && (d, i) != (d', Pdx(vpn))
    ensures TableAgrees(table, d, i, if Present(e) then maps[(d', vpn) := e] else maps - {(d', vpn)})
  {
    forall j | 0 <= j < NPTENTRIES ensures (d, PageNum(i, j)) != (d', vpn) {
      assert Pdx(PageNum(i, j)) == i;
    }
  }

  /** The entry for a page is present exactly when the page is mapped. */
  lemma EntryIsMapping(mem: seq<Frame>, kern: Frame, dirs: set<nat>, tabs: map<Key, nat>, maps: map<Key, Entry>,
                       d: nat, vpn: nat)
    requires TablesOk(mem, kern, dirs, tabs, maps)
    requires vpn < USER_PAGES && (d, Pdx(vpn)) in tabs
    ensures tabs[(d, Pdx(vpn))] < |mem|
    ensures Present(mem[tabs[(d, Pdx(vpn))]][Ptx(vpn)]) <==> (d, vpn) in maps
    ensures (d, vpn) in maps ==> mem[tabs[(d, Pdx(vpn))]][Ptx(vpn)] == maps[(d, vpn)]
  {
    assert vpn == PageNum(Pdx(vpn), Ptx(vpn));
    assert TableAgrees(mem[tabs[(d, Pdx(vpn))]], d, Pdx(vpn), maps);
  }

  lemma ClearEntry(mem: seq<Frame>, kern: Frame, reserved: set<nat>, dirs: set<nat>, tabs: map<Key, nat>,
                   maps: map<Key, Entry>, d: nat, vpn: nat)
    requires RolesOk(|mem|, reserved, dirs, tabs, maps) && TablesOk(mem, kern, dirs, tabs, maps)
    requires d in dirs && (d, vpn) in maps
    ensures var t := tabs[(d, Pdx(vpn))];
            && RolesOk(|mem|, reserved, dirs, tabs, maps - {(d, vpn)})
            && TablesOk(mem[t := mem[t][Ptx(vpn) := EMPTY]], kern, dirs, tabs, maps - {(d, vpn)})
  {
    assert TableAgrees(mem[tabs[(d, Pdx(vpn))]], d, Pdx(vpn), maps);
    StoreEntry(mem, kern, reserved, dirs, tabs, maps, d, vpn, EMPTY, maps - {(d, vpn)});
  }

  lemma SetEntry(mem: seq<Frame>, kern: Frame, reserved: set<nat>, dirs: set<nat>, tabs: map<Key, nat>,
                 maps: map<Key, Entry>, d: nat, vpn: nat, e: Entry)
    requires RolesOk(|mem|, reserved, dirs, tabs, maps) && TablesOk(mem, kern, dirs, tabs, maps)
    requires d in dirs && vpn < USER_PAGES && (d, Pdx(vpn)) in tabs && Present(e)
    requires DataFrame(e.frame, |mem|, reserved, dirs, tabs)
    ensures var t := tabs[(d, Pdx(vpn))];
            && RolesOk(|mem|, reserved, dirs, tabs, maps[(d, vpn) := e])
            && TablesOk(mem[t := mem[t][Ptx(vpn) := e]], kern, dirs, tabs, maps[(d, vpn) := e])
  {
    assert TableAgrees(mem[tabs[(d, Pdx(vpn))]], d, Pdx(vpn), maps);
    StoreEntry(mem, kern, reserved, dirs, tabs, maps, d, vpn, e, maps[(d, vpn) := e]);
  }

  /** Adding flag bits to a present directory entry changes no translation. */
  lemma WidenPde(mem: seq<Frame>, kern: Frame, reserved: set<nat>, dirs: set<nat>, tabs: map<Key, nat>,
                 maps: map<Key, Entry>, d: nat, i: nat, perm: Perm)
    requires RolesOk(|mem|, reserved, dirs, tabs, maps) && TablesOk(mem, kern, dirs, tabs, maps)
    requires d in dirs && i < USER_PDES && (d, i) in tabs
    ensures TablesOk(mem[d := mem[d][i := Entry(mem[d][i].frame, mem[d][i].flags + perm)]], kern, dirs, tabs, maps)
  {
    var mem' := mem[d := mem[d][i := Entry(mem[d][i].frame, mem[d][i].flags + perm)]];
    forall d' | d' in dirs ensures DirAgrees(mem'[d'], d', kern, tabs) {
      assert DirAgrees(mem[d'], d', kern, tabs);
    }
    forall k | k in tabs ensures TableAgrees(mem'[tabs[k]], k.0, k.1, maps) {
      assert TableAgrees(mem[tabs[k]], k.0, k.1, maps);
      assert tabs[k] != d;
    }
  }

  // ------------------------------------------------------ address-space teardown

  /** What is left of the mappings once pages below `bound` of directory d are unmapped. */
  ghost function UnmapBelow(maps: map<Key, Entry>, d: nat, bound: nat): map<Key, Entry> {
    map m | m in maps && !(m.0 == d && m.1 < bound) :: maps[m]
  }

  ghost function DropTablesBelow(tabs: map<Key, nat>, d: nat, bound: nat): map<Key, nat> {
    map k | k in tabs && !(k.0 == d && k.1 < bound) :: tabs[k]
  }

  /** Everything that is not directory d's. */
  ghost function WithoutDir<V>(m: map<Key, V>, d: nat): map<Key, V> {
    map k | k in m && k.0 != d :: m[k]
  }

  lemma UnmapNext(maps: map<Key, Entry>, d: nat, i: nat, j: nat)
    ensures UnmapBelow(maps, d, PageNum(i, j)) - {(d, PageNum(i, j))} == UnmapBelow(maps, d, PageNum(i, j + 1))
  {
  }

  lemma DropNextTable(tabs: map<Key, nat>, d: nat, bound: nat)
    ensures DropTablesBelow(tabs, d, bound) - {(d, bound)} == DropTablesBelow(tabs, d, bound + 1)
  {
  }

  lemma UnmapNone(maps: map<Key, Entry>, d: nat, bound: nat)
    requires forall m | m in maps && m.0 == d :: m.1 >= bound
    ensures UnmapBelow(maps, d, bound) == maps
  {
  }

  lemma UnmapMore(maps: map<Key, Entry>, d: nat, a: nat, b: nat)
    requires a <= b
    ensures UnmapBelow(UnmapBelow(maps, d, a), d, b) == UnmapBelow(maps, d, b)
  {
  }

  lemma UnmapAll(n: nat, reserved: set<nat>, dirs: set<nat>, tabs: map<Key, nat>, maps: map<Key, Entry>, d: nat)
    requires RolesOk(n, reserved, dirs, tabs, maps)
    ensures UnmapBelow(maps, d, PageNum(USER_PDES, 0)) == WithoutDir(maps, d)
    ensures DropTablesBelow(tabs, d, USER_PDES) == WithoutDir(tabs, d)
  {
    assert forall m | m in maps :: m.1 < PageNum(USER_PDES, 0);
    assert forall k | k in tabs :: k.1 < USER_PDES;
  }

  /** Clearing the directory entry of a table that maps nothing removes that table. */
  lemma RemoveTable(mem: seq<Frame>, kern: Frame, reserved: set<nat>, dirs: set<nat>, tabs: map<Key, nat>,
                    maps: map<Key, Entry>, d: nat, i: nat)
    requires RolesOk(|mem|, reserved, dirs, tabs, maps) && TablesOk(mem, kern, dirs, tabs, maps)
    requires d in dirs && i < USER_PDES && (d, i) in tabs
    requires forall m | m in maps :: !(m.0 == d && Pdx(m.1) == i)
    ensures RolesOk(|mem|, reserved, dirs, tabs - {(d, i)}, maps)
    ensures TablesOk(mem[d := mem[d][i := EMPTY]], kern, dirs, tabs - {(d, i)}, maps)
  {
    RemoveTableRoles(|mem|, reserved, dirs, tabs, maps, d, i);
    var mem', tabs' := mem[d := mem[d][i := EMPTY]], tabs - {(d, i)};
    forall d' | d' in dirs ensures DirAgrees(mem'[d'], d', kern, tabs') {
      assert DirAgrees(mem[d'], d', kern, tabs);
    }
    forall k | k in tabs' ensures TableAgrees(mem'[tabs'[k]], k.0, k.1, maps) {
      assert TableAgrees(mem[tabs[k]], k.0, k.1, maps);
      assert tabs[k] != d;
    }
  }

  lemma RemoveTableRoles(n: nat, reserved: set<nat>, dirs: set<nat>, tabs: map<Key, nat>, maps: map<Key, Entry>, d: nat, i: nat)
    requires RolesOk(n, reserved, dirs, tabs, maps) && (d, i) in tabs
    requires forall m | m in maps :: !(m.0 == d && Pdx(m.1) == i)
    ensures RolesOk(n, reserved, dirs, tabs - {(d, i)}, maps)
  {
    assert (tabs - {(d, i)}).Values <= tabs.Values;
  }

  /** The number of mappings of frame f inside directory d. */
  ghost function MappingsIn(maps: map<Key, Entry>, d: nat, f: nat): set<Key> {
    set k | k in maps && maps[k].frame == f && k.0 == d
  }

  lemma MappingsOfWithoutDir(maps: map<Key, Entry>, d: nat, f: nat)
    ensures |Mappings(WithoutDir(maps, d), f)| == |Mappings(maps, f)| - |MappingsIn(maps, d, f)|
  {
    assert Mappings(maps, f) == Mappings(WithoutDir(maps, d), f) + MappingsIn(maps, d, f);
  }

  /** Frame f is directory d, one of its tables, or a data frame all of whose mappings are in d. */
  ghost predicate OwnedBy(tabs: map<Key, nat>, maps: map<Key, Entry>, d: nat, f: nat) {
    || f == d
    || (exists i :: (d, i) in tabs && tabs[(d, i)] == f)
    || (Mappings(maps, f) != {} && forall k | k in maps && maps[k].frame == f :: k.0 == d)
  }

  lemma UsesOfDirectory(n: nat, reserved: set<nat>, dirs: set<nat>, tabs: map<Key, nat>, maps: map<Key, Entry>, d: nat)
    requires RolesOk(n, reserved, dirs, tabs, maps) && d in dirs
    ensures Uses(dirs - {d}, WithoutDir(tabs, d), WithoutDir(maps, d), d) == 0
  {
    assert TableUses(WithoutDir(tabs, d), d) == {} && Mappings(WithoutDir(maps, d), d) == {};
  }

  lemma UsesOfTable(n: nat, reserved: set<nat>, dirs: set<nat>, tabs: map<Key, nat>, maps: map<Key, Entry>, d: nat, i: nat)
    requires RolesOk(n, reserved, dirs, tabs, maps) && (d, i) in tabs
    ensures Uses(dirs - {d}, WithoutDir(tabs, d), WithoutDir(maps, d), tabs[(d, i)]) == 0
  {
    var t := tabs[(d, i)];
    assert TableUses(WithoutDir(tabs, d), t) == {} && Mappings(WithoutDir(maps, d), t) == {};
  }

  lemma UsesOfOther(dirs: set<nat>, tabs: map<Key, nat>, maps: map<Key, Entry>, d: nat, f: nat)
    requires f != d && forall i | (d, i) in tabs :: tabs[(d, i)] != f
    ensures Uses(dirs - {d}, WithoutDir(tabs, d), WithoutDir(maps, d), f) == Uses(dirs, tabs, maps, f) - |MappingsIn(maps, d, f)|
  {
    MappingsOfWithoutDir(maps, d, f);
    assert TableUses(WithoutDir(tabs, d), f) == TableUses(tabs, f);
  }

  /** A data frame is released by dropping directory d exactly when all its mappings are in d. */
  lemma AllMappingsIn(maps: map<Key, Entry>, d: nat, f: nat)
    ensures |MappingsIn(maps, d, f)| <= |Mappings(maps, f)|
    ensures |MappingsIn(maps, d, f)| == |Mappings(maps, f)| <==> forall k | k in maps && maps[k].frame == f :: k.0 == d
  {
    MappingsOfWithoutDir(maps, d, f);
    if forall k | k in maps && maps[k].frame == f :: k.0 == d {
      assert MappingsIn(maps, d, f) == Mappings(maps, f);
    } else {
      var k :| k in maps && maps[k].frame == f && k.0 != d;
      assert k in Mappings(WithoutDir(maps, d), f);
    }
  }

  /**
   * env_free gives back exactly what the directory owned: the free list gains the
   * directory, its tables, and the data frames all of whose mappings were in it;
   * every other frame's count drops by its number of mappings there.
   */
  lemma ReleasedExactly(pages: seq<PageInfo>, free: seq<nat>, pages': seq<PageInfo>, free': seq<nat>, reserved: set<nat>,
                        dirs: set<nat>, tabs: map<Key, nat>, maps: map<Key, Entry>, d: nat, f: nat)
    requires RolesOk(|pages|, reserved, dirs, tabs, maps) && |pages'| == |pages|
    requires CountsOk(pages, free, {}, reserved, multiset{}, dirs, tabs, maps)
    requires CountsOk(pages', free', {}, reserved, multiset{}, dirs - {d}, WithoutDir(tabs, d), WithoutDir(maps, d))
    requires d in dirs && f < |pages|
    ensures f in free' <==> f in free || OwnedBy(tabs, maps, d, f)
    ensures f != d && (forall i | (d, i) in tabs :: tabs[(d, i)] != f) ==>
            pages'[f].ref == pages[f].ref - |MappingsIn(maps, d, f)|
  {
    assert CountOk(pages[f], Uses(dirs, tabs, maps, f), 0, f in reserved);
    assert CountOk(pages'[f], Uses(dirs - {d}, WithoutDir(tabs, d), WithoutDir(maps, d), f), 0, f in reserved);
    if f == d {
      UsesOfDirectory(|pages|, reserved, dirs, tabs, maps, d);
    } else if i :| (d, i) in tabs && tabs[(d, i)] == f {
      UsesOfTable(|pages|, reserved, dirs, tabs, maps, d, i);
    } else {
      UsesOfOther(dirs, tabs, maps, d, f);
      AllMappingsIn(maps, d, f);
      if m :| m in Mappings(maps, f) {
        assert DataFrame(maps[m].frame, |pages|, reserved, dirs, tabs);
        assert TableUses(tabs, f) == {};
      }
    }
  }

  /** A frame that holds only the kernel's entries becomes the directory of an empty address space. */
  lemma AddDirectory(mem: seq<Frame>, dir: Frame, kern: Frame, reserved: set<nat>, dirs: set<nat>, tabs: map<Key, nat>,
                     maps: map<Key, Entry>, d: nat)
    requires RolesOk(|mem|, reserved, dirs, tabs, maps) && TablesOk(mem, kern, dirs, tabs, maps)
    requires d < |mem| && d !in reserved && Uses(dirs, tabs, maps, d) == 0
    requires forall j | 0 <= j < NPTENTRIES ::
               dir[j] == if j < USER_PDES then EMPTY else if j == UVPT_PDX then Entry(d, {P, U}) else kern[j]
    ensures RolesOk(|mem|, reserved, dirs + {d}, tabs, maps)
    ensures TablesOk(mem[d := dir], kern, dirs + {d}, tabs, maps)
  {
    UnusedFrame(dirs, tabs, maps, d);
    var mem' := mem[d := dir];
    forall d' | d' in dirs + {d} ensures DirAgrees(mem'[d'], d', kern, tabs) {
      if d' != d {
        assert DirAgrees(mem[d'], d', kern, tabs);
      } else {
        assert forall i | (d, i) in tabs :: (d, i).0 in dirs;
      }
    }
    forall k | k in tabs ensures TableAgrees(mem'[tabs[k]], k.0, k.1, maps) {
      assert TableAgrees(mem[tabs[k]], k.0, k.1, maps);
    }
  }

  lemma RemoveDirectory(mem: seq<Frame>, kern: Frame, reserved: set<nat>, dirs: set<nat>, tabs: map<Key, nat>,
                        maps: map<Key, Entry>, d: nat)
    requires RolesOk(|mem|, reserved, dirs, tabs, maps) && TablesOk(mem, kern, dirs, tabs, maps)
    requires forall k | k in tabs :: k.0 != d
    ensures RolesOk(|mem|, reserved, dirs - {d}, tabs, maps)
    ensures TablesOk(mem, kern, dirs - {d}, tabs, maps)
  {
    forall d' | d' in dirs - {d} ensures DirAgrees(mem[d'], d', kern, tabs) {
      assert d' in dirs && DirAgrees(mem[d'], d', kern, tabs);
    }
    forall k | k in tabs ensures TableAgrees(mem[tabs[k]], k.0, k.1, maps) {
      assert TableAgrees(mem[tabs[k]], k.0, k.1, maps);
    }
  }

  lemma TransferToDirs(pages: seq<PageInfo>, free: seq<nat>, held: set<nat>, reserved: set<nat>,
                       pins: multiset<nat>, dirs: set<nat>, tabs: map<Key, nat>, maps: map<Key, Entry>, d: nat)
    requires CountsOk(pages, free, held, reserved, pins, dirs, tabs, maps)
    requires d !in dirs && d in pins
    ensures CountsOk(pages, free, held, reserved, pins - multiset{d}, dirs + {d}, tabs, maps)
  {
    forall g: nat ensures Uses(dirs + {d}, tabs, maps, g) + (pins - multiset{d})[g] == Uses(dirs, tabs, maps, g) + pins[g] {
    }
    Transfer(pages, free, held, reserved, pins, dirs, tabs, maps, pins - multiset{d}, dirs + {d}, tabs, maps);
  }

  lemma TransferFromDirs(pages: seq<PageInfo>, free: seq<nat>, held: set<nat>, reserved: set<nat>,
                         pins: multiset<nat>, dirs: set<nat>, tabs: map<Key, nat>, maps: map<Key, Entry>, d: nat)
    requires CountsOk(pages, free, held, reserved, pins, dirs, tabs, maps)
    requires d in dirs
    ensures CountsOk(pages, free, held, reserved, pins + multiset{d}, dirs - {d}, tabs, maps)
  {
    var pins' := pins + multiset{d};
    forall g: nat ensures Uses(dirs - {d}, tabs, maps, g) + pins'[g] == Uses(dirs, tabs, maps, g) + pins[g] {
    }
    Transfer(pages, free, held, reserved, pins, dirs, tabs, maps, pins', dirs - {d}, tabs, maps);
  }

  /** The frames page_init never puts on the free list. */
  predicate Reserved(f: nat, baseMem: nat, bootPages: nat) {
    || f == 0
    || f == 7                                        // PGNUM(MPENTRY_PADDR)
    || baseMem <= f < baseMem + 96                   // the I/O hole
    || baseMem + 96 <= f < baseMem + 96 + bootPages  // handed out by boot_alloc
  }

  function InitialFree(n: nat, baseMem: nat, bootPages: nat): seq<nat> {
    if n == 0 then []
    else if Reserved(n - 1, baseMem, bootPages) then InitialFree(n - 1, baseMem, bootPages)
    else [n - 1] + InitialFree(n - 1, baseMem, bootPages)
  }

  /** The free list of page_init: every frame but these, each once, the highest first. */
  lemma {:induction false} InitialFreePages(n: nat, baseMem: nat, bootPages: nat)
    ensures forall f: nat :: f in InitialFree(n, baseMem, bootPages) <==> 0 < f < n && f != 7 && !(baseMem <= f < baseMem + 96 + bootPages)
    ensures forall i, j | 0 <= i < j < |InitialFree(n, baseMem, bootPages)| ::
              InitialFree(n, baseMem, bootPages)[i] > InitialFree(n, baseMem, bootPages)[j]
  {
    if n == 0 {
      assert InitialFree(n, baseMem, bootPages) == [];
    } else {
      InitialFreePages(n - 1, baseMem, bootPages);
      var rest, free := InitialFree(n - 1, baseMem, bootPages), InitialFree(n, baseMem, bootPages);
      assert free == if Reserved(n - 1, baseMem, bootPages) then rest else [n - 1] + rest;
      forall f: nat ensures f in free <==> 0 < f < n && f != 7 && !(baseMem <= f < baseMem + 96 + bootPages) {
        assert f in free <==> f in rest || (f == n - 1 && !Reserved(f, baseMem, bootPages));
      }
      forall i, j | 0 <= i < j < |free| ensures free[i] > free[j] {
        if !Reserved(n - 1, baseMem, bootPages) {
          assert free[j] == rest[j - 1] && rest[j - 1] in rest;
          assert i > 0 ==> free[i] == rest[i - 1];
        }
      }
    }
  }

  // ------------------------------------------------------------ the machine

  class PhysMem {
    // What the kernel stores.
    const pages: array<PageInfo>
    const mem: array<Frame>
    const kern: Frame               // kern_pgdir
    var freeList: Option<nat>       // page_free_list

    // What it stands for.
    ghost var free: seq<nat>
    ghost var held: set<nat>        // returned by page_alloc, not referenced yet
    ghost var pins: multiset<nat>   // counted references that are in no table at the moment
    ghost const reserved: set<nat>  // frames page_init keeps off the list
    ghost var dirs: set<nat>
    ghost var tabs: map<Key, nat>
    ghost var maps: map<Key, Entry>

    /**
     * page_init: frame 0, the AP startup frame, the I/O hole and the frames the boot
     * allocator handed out are marked in use; every other frame is free.
     */
    constructor (npages: nat, baseMem: nat, bootPages: nat, kern: Frame)
      ensures Quiet() && fresh(pages) && fresh(mem) && pages.Length == npages && this.kern == kern
      ensures free == InitialFree(npages, baseMem, bootPages)
      ensures dirs == {} && tabs == map[] && maps == map[]
    {
      this.kern := kern;
      pages := new PageInfo[npages](_ => PageInfo(None, 0));
      mem := new Frame[npages](_ => ZERO_FRAME);
      freeList, free, held, pins := None, [], {}, multiset{};
      reserved := set f | 0 <= f < npages && Reserved(f, baseMem, bootPages);
      dirs, tabs, maps := {}, map[], map[];
      new;
      PageInit(baseMem, bootPages);
    }

    method PageInit(baseMem: nat, bootPages: nat)
      requires pages.Length == mem.Length && reserved == set f | 0 <= f < pages.Length && Reserved(f, baseMem, bootPages)
      requires forall f | 0 <= f < pages.Length :: pages[f].link == None
      requires held == {} && pins == multiset{} && dirs == {} && tabs == map[] && maps == map[]
      modifies this`freeList, this`free, pages
      ensures Quiet() && free == InitialFree(pages.Length, baseMem, bootPages)
      ensures forall f: nat {:trigger f in free} ::
                f in free <==> 0 < f < pages.Length && f != 7 && !(baseMem <= f < baseMem + 96 + bootPages)
      ensures forall i, j | 0 <= i < j < |free| :: free[i] > free[j]
      ensures forall f | 0 <= f < pages.Length :: pages[f].ref == if f in free then 0 else 1
    {
      InitialFreePages(pages.Length, baseMem, bootPages);
      freeList, free := None, [];
      for i := 0 to pages.Length
        invariant free == InitialFree(i, baseMem, bootPages)
        invariant forall f | f in free :: f < i
        invariant FreeListOk(pages[..], freeList, free)
        invariant forall f | 0 <= f < i :: pages[f].ref == if f in reserved then 1 else 0
        invariant forall f | 0 <= f < i :: f in free <==> f !in reserved
      {
        ghost var pages0 := pages[..];
        if Reserved(i, baseMem, bootPages) {
          SetRef(pages0, freeList, free, i, 1);
          pages[i] := PageInfo(None, 1);
          assert pages[..] == pages0[i := pages0[i].(ref := 1)];
        } else {
          SetRef(pages0, freeList, free, i, 0);
          PushFree(pages0[i := pages0[i].(ref := 0)], freeList, free, i);
          pages[i] := PageInfo(freeList, 0);
          ghost var cleared := pages0[i := pages0[i].(ref := 0)];
          assert pages[..] == cleared[i := cleared[i].(link := freeList)];
          freeList := Some(i);
          free := [i] + free;
        }
      }
      assert CountsOk(pages[..], free, held, reserved, pins, dirs, tabs, maps) by {
        forall f: nat ensures Uses(dirs, tabs, maps, f) == 0 {
          assert Mappings(maps, f) == {} && TableUses(tabs, f) == {};
        }
      }
    }

    ghost predicate Counted()
      reads this, pages
    {
      && FreeListOk(pages[..], freeList, free)
      && CountsOk(pages[..], free, held, reserved, pins, dirs, tabs, maps)
    }

    ghost predicate Valid()
      reads this, pages, mem
    {
      && pages.Length == mem.Length
      && Counted()
      && RolesOk(mem.Length, reserved, dirs, tabs, maps)
      && TablesOk(mem[..], kern, dirs, tabs, maps)
    }

    /** Between operations no reference is in flight. */
    ghost predicate Quiet()
      reads this, pages, mem
    {
      Valid() && held == {} && pins == multiset{}
    }

    /**
     * Takes the first free frame off the list, zeroed on request.  It is not
     * referenced yet; None exactly when the list is empty.
     */
    method PageAlloc(zero: bool) returns (r: Option<nat>)
      requires Valid()
      modifies this`freeList, this`free, this`held, pages, mem
      ensures Valid()
      ensures old(free) == [] ==> r == None && free == [] && held == old(held) && mem[..] == old(mem[..])
      ensures old(free) != [] ==>
                && r == Some(old(free)[0]) && free == old(free)[1..] && held == old(held) + {r.value}
                && r.value < mem.Length && r.value !in old(held)
                && (zero ==> mem[r.value] == ZERO_FRAME)
      ensures forall f | 0 <= f < pages.Length :: pages[f].ref == old(pages[f].ref)
    {
      r := freeList;
      match r
      case None =>
      case Some(f) =>
        PopFree(pages[..], free, f);
        assert f in free && CountOk(pages[..][f], Uses(dirs, tabs, maps, f), pins[f], f in reserved);
        UnusedFrame(dirs, tabs, maps, f);
        freeList := pages[f].link;
        pages[f] := pages[f].(link := None);
        if zero {
          mem[f] := ZERO_FRAME;
        }
        free, held := free[1..], held + {f};
        assert pages[..] == old(pages[..])[f := pages[f]];
        assert old(free) == [f] + free;
        assert mem[..] == if zero then old(mem[..])[f := ZERO_FRAME] else old(mem[..]);
    }

    /**
     * Puts an unreferenced frame back on the list.  The two panics of the later
     * version, on a referenced page and on a linked page, cannot fire.
     */
    method PageFree(f: nat)
      requires Valid() && f in held
      modifies this`freeList, this`free, this`held, pages
      ensures Valid() && free == [f] + old(free) && held == old(held) - {f}
      ensures forall g | 0 <= g < pages.Length :: pages[g].ref == old(pages[g].ref)
    {
      assert pages[..][f] == pages[f];
      assert pages[f].ref == 0 && pages[f].link == None;
      PushFree(pages[..], freeList, free, f);
      pages[f] := pages[f].(link := freeList);
      assert pages[..] == old(pages[..])[f := pages[f]];
      freeList := Some(f);
      free, held := [f] + free, held - {f};
    }

    /** Drops a reference that is in no table any more; the last one frees the frame. */
    method PageDecref(f: nat)
      requires Counted() && f < pages.Length && f in pins && f !in held
      modifies this`freeList, this`free, this`pins, pages
      ensures Counted() && pins == old(pins) - multiset{f}
      ensures free == if old(pages[f].ref) == 1 then [f] + old(free) else old(free)
      ensures forall g | 0 <= g < pages.Length && g != f :: pages[g].ref == old(pages[g].ref)
      ensures pages[f].ref == old(pages[f].ref) - 1
    {
      ghost var pages0 := pages[..];
      assert CountOk(pages0[f], Uses(dirs, tabs, maps, f), pins[f], f in reserved);
      SetRef(pages[..], freeList, free, f, pages[f].ref - 1);
      pages[f] := pages[f].(ref := pages[f].ref - 1);
      assert pages[..] == old(pages[..])[f := pages[f]];
      pins := pins - multiset{f};
      if pages[f].ref == 0 {
        assert pages[f].link == None;          // page_free's panics cannot fire here either
        PushFree(pages[..], freeList, free, f);
        ghost var before := pages[..];
        pages[f] := pages[f].(link := freeList);
        freeList := Some(f);
        free := [f] + free;
        assert pages[..] == before[f := pages[f]];
      }
      DropPin(pages0, pages[..], old(free), held, reserved, old(pins), dirs, tabs, maps, f);
    }

    /**
     * Takes a counted reference (`pp->pp_ref += 1`) to a frame that is held or
     * already referenced.
     */
    method Pin(f: nat)
      requires Counted() && f < pages.Length && f !in free && pages[f].ref < MAX_REF
      modifies this`held, this`pins, pages
      ensures Counted() && held == old(held) - {f} && pins == old(pins) + multiset{f}
      ensures forall g | 0 <= g < pages.Length && g != f :: pages[g].ref == old(pages[g].ref)
      ensures pages[f].ref == old(pages[f].ref) + 1
    {
      ghost var pages0 := pages[..];
      SetRef(pages0, freeList, free, f, pages[f].ref + 1);
      pages[f] := pages[f].(ref := pages[f].ref + 1);
      assert pages[..] == pages0[f := pages[f]];
      held, pins := held - {f}, pins + multiset{f};
      AddPin(pages0, pages[..], free, old(held), reserved, old(pins), dirs, tabs, maps, f);
    }

    /**
     * The table frame for page vpn of directory d; the entry is slot Ptx(vpn) of it.
     * Without a table: None if `create` is false or no frame is free, changing nothing.
     */
    method PgdirWalk(d: nat, vpn: nat, create: bool) returns (t: Option<nat>)
      requires Valid() && d in dirs && vpn < USER_PAGES
      modifies this`freeList, this`free, this`held, this`pins, this`tabs, pages, mem
      ensures Valid() && held == old(held) && pins == old(pins)
      ensures (d, Pdx(vpn)) in old(tabs) || t == None ==> tabs == old(tabs) && free == old(free)
      ensures t == None <==> (d, Pdx(vpn)) !in old(tabs) && (!create || old(free) == [])
      ensures t != None ==> (d, Pdx(vpn)) in tabs && t.value == tabs[(d, Pdx(vpn))]
      ensures t != None && (d, Pdx(vpn)) !in old(tabs) ==>
                && free == old(free)[1..] && tabs == old(tabs)[(d, Pdx(vpn)) := old(free)[0]]
      ensures forall f | 0 <= f < pages.Length && f !in old(free) :: pages[f].ref == old(pages[f].ref)
    {
      var i := Pdx(vpn);
      assert DirAgrees(mem[..][d], d, kern, tabs);
      if !Present(mem[d][i]) {
        if !create {
          return None;
        }
        t := PageAlloc(true);
        if t != None {
          var f := t.value;
          InstallTable(d, i, f);
        }
      } else {
        t := Some(mem[d][i].frame);
      }
    }

    /** The part of pgdir_walk that points directory entry i of d at the fresh, zeroed frame f. */
    method InstallTable(d: nat, i: nat, f: nat)
      requires Valid() && d in dirs && i < USER_PDES && (d, i) !in tabs
      requires f in held && mem[f] == ZERO_FRAME
      modifies this`held, this`pins, this`tabs, pages, mem
      ensures Valid() && held == old(held) - {f} && pins == old(pins) && tabs == old(tabs)[(d, i) := f]
      ensures forall g | 0 <= g < pages.Length && g != f :: pages[g].ref == old(pages[g].ref)
    {
      assert CountOk(pages[..][f], Uses(dirs, tabs, maps, f), pins[f], f in reserved);
      UnusedFrame(dirs, tabs, maps, f);
      Pin(f);
      ghost var mem0 := mem[..];
      mem[d] := mem[d][i := Entry(f, {P, U, W})];
      assert mem[..] == mem0[d := mem0[d][i := Entry(f, {P, U, W})]];
      AddTable(mem0, kern, reserved, dirs, tabs, maps, d, i, f);
      TransferToTables(pages[..], free, held, reserved, pins, dirs, tabs, maps, (d, i), f);
      tabs, pins := tabs[(d, i) := f], pins - multiset{f};
    }

    /**
     * The frame mapped at page vpn of directory d and the table that maps it;
     * None exactly when nothing is mapped there.
     */
    method PageLookup(d: nat, vpn: nat) returns (pp: Option<nat>, t: nat)
      requires Valid() && d in dirs && vpn < USER_PAGES
      ensures (d, vpn) !in maps ==> pp == None
      ensures (d, vpn) in maps ==>
                && pp == Some(maps[(d, vpn)].frame) && (d, Pdx(vpn)) in tabs && t == tabs[(d, Pdx(vpn))]
                && t < mem.Length && mem[t][Ptx(vpn)] == maps[(d, vpn)] && pp.value < pages.Length
    {
      t := 0;
      var i, j := Pdx(vpn), Ptx(vpn);
      assert DirAgrees(mem[..][d], d, kern, tabs);
      if !Present(mem[d][i]) {
        return None, t;
      }
      t := mem[d][i].frame;
      EntryIsMapping(mem[..], kern, dirs, tabs, maps, d, vpn);
      if !Present(mem[t][j]) {
        return None, t;
      }
      pp := Some(mem[t][j].frame);
    }

    /** Unmaps page vpn of d, if mapped: deletes that mapping and no other, and frees the frame on its last use. */
    method PageRemove(d: nat, vpn: nat)
      requires Valid() && d in dirs && vpn < USER_PAGES
      modifies this`freeList, this`free, this`pins, this`maps, pages, mem
      ensures Valid() && pins == old(pins) && maps == old(maps) - {(d, vpn)}
      ensures (d, vpn) in old(maps) ==>
                var f := old(maps)[(d, vpn)].frame;
                && f < pages.Length && pages[f].ref == old(pages[f].ref) - 1
                && free == if old(pages[f].ref) == 1 then [f] + old(free) else old(free)
      ensures (d, vpn) !in old(maps) ==> free == old(free)
      ensures forall g | 0 <= g < pages.Length && !((d, vpn) in old(maps) && g == old(maps)[(d, vpn)].frame) ::
                pages[g].ref == old(pages[g].ref)
    {
      var pp, t := PageLookup(d, vpn);
      if pp == None {
        assert maps - {(d, vpn)} == maps;
        return;
      }
      var f := pp.value;
      ghost var maps0, mem0 := maps, mem[..];
      MappedFrame(pages[..], free, held, reserved, pins, dirs, tabs, maps, (d, vpn));
      TransferFromMap(pages[..], free, held, reserved, pins, dirs, tabs, maps, (d, vpn));
      maps, pins := maps - {(d, vpn)}, pins + multiset{f};
      PageDecref(f);
      assert pins == old(pins);
      assert vpn == PageNum(Pdx(vpn), Ptx(vpn));
      ClearEntry(mem0, kern, reserved, dirs, tabs, maps0, d, vpn);
      mem[t] := mem[t][Ptx(vpn) := EMPTY];
      assert mem[..] == mem0[t := mem0[t][Ptx(vpn) := EMPTY]];
    }

    /** The part of page_insert that stores the entry and widens the directory entry. */
    method SetPte(d: nat, f: nat, vpn: nat, t: nat, perm: Perm)
      requires Valid() && d in dirs && vpn < USER_PAGES && (d, vpn) !in maps
      requires (d, Pdx(vpn)) in tabs && t == tabs[(d, Pdx(vpn))]
      requires f in pins && DataFrame(f, mem.Length, reserved, dirs, tabs)
      modifies this`pins, this`maps, mem
      ensures Valid() && pins == old(pins) - multiset{f}
      ensures maps == old(maps)[(d, vpn) := Entry(f, perm + {P})]
    {
      ghost var mem0 := mem[..];
      var e := Entry(f, perm + {P});
      mem[t] := mem[t][Ptx(vpn) := e];
      assert mem[..] == mem0[t := mem0[t][Ptx(vpn) := e]];
      SetEntry(mem0, kern, reserved, dirs, tabs, maps, d, vpn, e);
      TransferToMap(pages[..], free, held, reserved, pins, dirs, tabs, maps, (d, vpn), e);
      maps, pins := maps[(d, vpn) := e], pins - multiset{f};
      ghost var mem1 := mem[..];
      var i := Pdx(vpn);
      WidenPde(mem1, kern, reserved, dirs, tabs, maps, d, i, perm);
      mem[d] := mem[d][i := Entry(mem[d][i].frame, mem[d][i].flags + perm)];
      assert mem[..] == mem1[d := mem1[d][i := Entry(mem1[d][i].frame, mem1[d][i].flags + perm)]];
    }

    /**
     * The part of page_insert after the walk: takes the new reference before it
     * drops the old one, so a frame re-inserted at its only page is never freed.
     */
    method ReplacePte(d: nat, f: nat, vpn: nat, t: nat, perm: Perm)
      requires Valid() && d in dirs && vpn < USER_PAGES
      requires (d, Pdx(vpn)) in tabs && t == tabs[(d, Pdx(vpn))]
      requires f !in free && DataFrame(f, mem.Length, reserved, dirs, tabs) && pages[f].ref < MAX_REF
      modifies this`freeList, this`free, this`held, this`pins, this`maps, pages, mem
      ensures Valid() && pins == old(pins) && held == old(held) - {f}
      ensures maps == old(maps)[(d, vpn) := Entry(f, perm + {P})]
      ensures free == if (d, vpn) in old(maps) && old(maps)[(d, vpn)].frame == f then old(free)
                      else FreeAfterDrop(old(pages[..]), old(free), old(maps), (d, vpn))
    {
      if (d, vpn) in maps {
        MappedFrame(pages[..], free, held, reserved, pins, dirs, tabs, maps, (d, vpn));
      }
      Pin(f);
      DropOldPage(d, vpn, t);
      ReplaceIsUpdate(old(maps), (d, vpn), Entry(f, perm + {P}));
      SetPte(d, f, vpn, t, perm);
    }

    /** page_insert's removal of the page that was mapped there, if any. */
    method DropOldPage(d: nat, vpn: nat, t: nat)
      requires Valid() && d in dirs && vpn < USER_PAGES && (d, Pdx(vpn)) in tabs && t == tabs[(d, Pdx(vpn))]
      modifies this`freeList, this`free, this`pins, this`maps, pages, mem
      ensures Valid() && pins == old(pins) && maps == old(maps) - {(d, vpn)}
      ensures free == FreeAfterDrop(old(pages[..]), old(free), old(maps), (d, vpn))
    {
      EntryIsMapping(mem[..], kern, dirs, tabs, maps, d, vpn);
      if Present(mem[t][Ptx(vpn)]) {
        PageRemove(d, vpn);
      } else {
        assert maps - {(d, vpn)} == maps;
      }
    }

    /**
     * Maps frame f at page vpn of d with permissions perm and P, replacing what was
     * there; the same frame may be re-inserted at the same page.  Fails exactly when
     * a table is needed and no frame is free, and then changes nothing.
     */
    method PageInsert(d: nat, f: nat, vpn: nat, perm: Perm) returns (r: Error)
      requires Valid() && d in dirs && vpn < USER_PAGES
      requires Insertable(held, maps, f)
      requires f < pages.Length && pages[f].ref < MAX_REF
      modifies this`freeList, this`free, this`held, this`pins, this`tabs, this`maps, pages, mem
      ensures Valid() && pins == old(pins)
      ensures r == NoMem <==> (d, Pdx(vpn)) !in old(tabs) && old(free) == []
      ensures r == NoMem ==> maps == old(maps) && tabs == old(tabs) && held == old(held) && free == old(free)
      ensures r != NoMem ==>
                && r == OK && held == old(held) - {f}
                && maps == old(maps)[(d, vpn) := Entry(f, perm + {P})]
                && (d, Pdx(vpn)) in tabs
                && tabs == if (d, Pdx(vpn)) in old(tabs) then old(tabs) else old(tabs)[(d, Pdx(vpn)) := old(free)[0]]
      ensures r != NoMem ==>
                var rest := if (d, Pdx(vpn)) in old(tabs) then old(free) else old(free)[1..];
                free == if (d, vpn) in old(maps) && old(maps)[(d, vpn)].frame == f then rest
                        else FreeAfterDrop(old(pages[..]), rest, old(maps), (d, vpn))
    {
      ghost var pages0, maps0 := pages[..], maps;
      if (d, vpn) in maps {
        MappedFrame(pages[..], free, held, reserved, pins, dirs, tabs, maps, (d, vpn));
      }
      InsertableFrame(pages[..], free, held, reserved, pins, dirs, tabs, maps, f);
      var t := PgdirWalk(d, vpn, true);
      assert maps == maps0 && FreeAfterDrop(pages[..], free, maps0, (d, vpn)) == FreeAfterDrop(pages0, free, maps0, (d, vpn));
      if t == None {
        return NoMem;
      }
      InsertableFrame(pages[..], free, held, reserved, pins, dirs, tabs, maps, f);
      ReplacePte(d, f, vpn, t.value, perm);
      return OK;
    }

    /** env_setup_vm: a fresh directory with no user mappings and the kernel's entries above UTOP. */
    method NewDirectory() returns (r: Option<nat>)
      requires Valid()
      modifies this`freeList, this`free, this`held, this`pins, this`dirs, pages, mem
      ensures Valid() && held == old(held) && pins == old(pins)
      ensures r == None <==> old(free) == []
      ensures r == None ==> dirs == old(dirs) && free == old(free)
      ensures r != None ==> r.value !in old(dirs) && dirs == old(dirs) + {r.value} && free == old(free)[1..]
    {
      r := PageAlloc(true);
      if r == None {
        return;
      }
      var d := r.value;
      assert CountOk(pages[..][d], Uses(dirs, tabs, maps, d), pins[d], d in reserved);
      FillDirectory(d);
    }

    method CopyKernelEntries(d: nat)
      requires d < mem.Length && mem[d] == ZERO_FRAME
      modifies mem
      ensures forall g | 0 <= g < mem.Length && g != d :: mem[g] == old(mem[g])
      ensures forall j | 0 <= j < NPTENTRIES ::
                mem[d][j] == if j < USER_PDES then EMPTY else if j == UVPT_PDX then Entry(d, {P, U}) else kern[j]
    {
      for i := USER_PDES to NPTENTRIES
        invariant forall g | 0 <= g < mem.Length && g != d :: mem[g] == old(mem[g])
        invariant forall j | 0 <= j < NPTENTRIES :: mem[d][j] == if USER_PDES <= j < i then kern[j] else EMPTY
      {
        mem[d] := mem[d][i := kern[i]];
      }
      mem[d] := mem[d][UVPT_PDX := Entry(d, {P, U})];
    }

    /** The rest of env_setup_vm: counts frame d and copies the kernel's entries into it. */
    method FillDirectory(d: nat)
      requires Valid() && d in held && mem[d] == ZERO_FRAME && d !in reserved && Uses(dirs, tabs, maps, d) == 0
      modifies this`held, this`pins, this`dirs, pages, mem
      ensures Valid() && held == old(held) - {d} && pins == old(pins) && dirs == old(dirs) + {d}
    {
      ghost var mem0 := mem[..];
      Pin(d);
      CopyKernelEntries(d);
      assert mem[..] == mem0[d := mem[d]];
      AddDirectory(mem0, mem[d], kern, reserved, dirs, tabs, maps, d);
      UnusedFrame(dirs, tabs, maps, d);
      TransferToDirs(pages[..], free, held, reserved, pins, dirs, tabs, maps, d);
      dirs, pins := dirs + {d}, pins - multiset{d};
    }

    /** One turn of env_free's inner loop. */
    method UnmapSlot(d: nat, i: nat, j: nat)
      requires Valid() && d in dirs && i < USER_PDES && (d, i) in tabs && j < NPTENTRIES
      modifies this`freeList, this`free, this`pins, this`maps, pages, mem
      ensures Valid() && pins == old(pins) && maps == old(maps) - {(d, PageNum(i, j))}
    {
      var vpn := PageNum(i, j);
      assert Pdx(vpn) == i && Ptx(vpn) == j;
      EntryIsMapping(mem[..], kern, dirs, tabs, maps, d, vpn);
      assert DirAgrees(mem[..][d], d, kern, tabs);
      if Present(mem[mem[d][i].frame][j]) {
        PageRemove(d, vpn);
      } else {
        assert maps - {(d, vpn)} == maps;
      }
    }

    /** The inner loop of env_free: unmaps every page of table i of directory d. */
    method UnmapTable(d: nat, i: nat)
      requires Valid() && d in dirs && i < USER_PDES && (d, i) in tabs
      requires forall m | m in maps && m.0 == d :: m.1 >= PageNum(i, 0)
      modifies this`freeList, this`free, this`pins, this`maps, pages, mem
      ensures Valid() && pins == old(pins) && maps == UnmapBelow(old(maps), d, PageNum(i + 1, 0))
    {
      UnmapNone(maps, d, PageNum(i, 0));
      for j := 0 to NPTENTRIES
        invariant Valid() && pins == old(pins) && maps == UnmapBelow(old(maps), d, PageNum(i, j))
      {
        UnmapNext(old(maps), d, i, j);
        UnmapSlot(d, i, j);
      }
      assert PageNum(i, NPTENTRIES) == PageNum(i + 1, 0);
    }

    /** Clears directory entry i of d, whose table maps nothing any more, and frees the table. */
    method FreeTable(d: nat, i: nat)
      requires Valid() && d in dirs && i < USER_PDES && (d, i) in tabs && held == {}
      requires forall m | m in maps && m.0 == d :: m.1 >= PageNum(i + 1, 0)
      modifies this`freeList, this`free, this`pins, this`tabs, pages, mem
      ensures Valid() && pins == old(pins) && tabs == old(tabs) - {(d, i)}
    {
      assert DirAgrees(mem[..][d], d, kern, tabs);
      var t := mem[d][i].frame;
      forall m | m in maps && m.0 == d ensures Pdx(m.1) != i {
        assert m.1 >= PageNum(i + 1, 0);
      }
      ghost var mem0 := mem[..];
      RemoveTable(mem0, kern, reserved, dirs, tabs, maps, d, i);
      mem[d] := mem[d][i := EMPTY];
      assert mem[..] == mem0[d := mem0[d][i := EMPTY]];
      TransferFromTables(pages[..], free, held, reserved, pins, dirs, tabs, maps, (d, i));
      tabs, pins := tabs - {(d, i)}, pins + multiset{t};
      PageDecref(t);
    }

    /** One turn of env_free's outer loop: unmaps and frees the table of directory entry i, if any. */
    method ReleaseTable(d: nat, i: nat)
      requires Valid() && d in dirs && i < USER_PDES && held == {}
      requires forall m | m in maps && m.0 == d :: m.1 >= PageNum(i, 0)
      modifies this`freeList, this`free, this`pins, this`tabs, this`maps, pages, mem
      ensures Valid() && pins == old(pins)
      ensures tabs == old(tabs) - {(d, i)} && maps == UnmapBelow(old(maps), d, PageNum(i + 1, 0))
    {
      assert DirAgrees(mem[..][d], d, kern, tabs);
      if !Present(mem[d][i]) {
        assert old(tabs) - {(d, i)} == old(tabs);
        assert maps == UnmapBelow(maps, d, PageNum(i + 1, 0));
        return;
      }
      UnmapTable(d, i);
      FreeTable(d, i);
    }

    /** The outer loop of env_free: releases every table of directory d and everything mapped in it. */
    method FreeTables(d: nat)
      requires Valid() && d in dirs && held == {}
      modifies this`freeList, this`free, this`pins, this`tabs, this`maps, pages, mem
      ensures Valid() && pins == old(pins)
      ensures maps == UnmapBelow(old(maps), d, PageNum(USER_PDES, 0)) && tabs == DropTablesBelow(old(tabs), d, USER_PDES)
    {
      UnmapNone(maps, d, 0);
      assert tabs == DropTablesBelow(tabs, d, 0);
      for i := 0 to USER_PDES
        invariant Valid() && pins == old(pins)
        invariant maps == UnmapBelow(old(maps), d, PageNum(i, 0)) && tabs == DropTablesBelow(old(tabs), d, i)
      {
        DropNextTable(old(tabs), d, i);
        UnmapMore(old(maps), d, PageNum(i, 0), PageNum(i + 1, 0));
        ReleaseTable(d, i);
      }
    }

    /** The end of env_free: drops the last reference to a directory that names nothing. */
    method ReleaseDirectory(d: nat)
      requires Valid() && d in dirs && held == {}
      requires (forall k | k in tabs :: k.0 != d) && (forall m | m in maps :: m.0 != d)
      modifies this`freeList, this`free, this`pins, this`dirs, pages
      ensures Valid() && pins == old(pins) && dirs == old(dirs) - {d}
    {
      RemoveDirectory(mem[..], kern, reserved, dirs, tabs, maps, d);
      TransferFromDirs(pages[..], free, held, reserved, pins, dirs, tabs, maps, d);
      pins, dirs := pins + multiset{d}, dirs - {d};
      PageDecref(d);
    }

    /** The memory part of env_free: releases every table, then the directory itself. */
    method FreeAddressSpace(d: nat)
      requires Quiet() && d in dirs
      modifies this`freeList, this`free, this`pins, this`dirs, this`tabs, this`maps, pages, mem
      ensures Quiet() && dirs == old(dirs) - {d}
      ensures maps == WithoutDir(old(maps), d) && tabs == WithoutDir(old(tabs), d)
      ensures forall f | 0 <= f < pages.Length :: f in free <==> f in old(free) || OwnedBy(old(tabs), old(maps), d, f)
      ensures forall f | 0 <= f < pages.Length && !OwnedBy(old(tabs), old(maps), d, f) ::
                pages[f].ref == old(pages[f].ref) - |MappingsIn(old(maps), d, f)|
    {
      UnmapAll(mem.Length, reserved, dirs, tabs, maps, d);
      ghost var pages0, free0, dirs0, tabs0, maps0 := pages[..], free, dirs, tabs, maps;
      FreeTables(d);
      ReleaseDirectory(d);
      assert Quiet();
      forall f | 0 <= f < pages.Length
        ensures f in free <==> f in free0 || OwnedBy(tabs0, maps0, d, f)
        ensures !OwnedBy(tabs0, maps0, d, f) ==> pages[f].ref == pages0[f].ref - |MappingsIn(maps0, d, f)|
      {
        ReleasedExactly(pages0, free0, pages[..], free, reserved, dirs0, tabs0, maps0, d, f);
      }
    }
  }

  /** The frame that the next allocation takes: nothing has it. */
  lemma FirstFree(pm: PhysMem) returns (f: nat)
    requires pm.Valid()
    ensures pm.free != [] ==>
              && f == pm.free[0] < pm.pages.Length && pm.pages[f].ref == 0
              && forall k | k in pm.maps :: pm.maps[k].frame != f
  {
    f := 0;
    if pm.free != [] {
      f := pm.free[0];
      assert LinkOk(pm.pages[..], pm.free, 0);
      assert f in pm.free;
      assert CountOk(pm.pages[..][f], Uses(pm.dirs, pm.tabs, pm.maps, f), pm.pins[f], f in pm.reserved);
      UnusedFrame(pm.dirs, pm.tabs, pm.maps, f);
    }
  }
}
