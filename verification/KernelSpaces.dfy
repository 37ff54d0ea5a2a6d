/**
 * The kernel of module Environments, seen as the one map of all address spaces on which
 * module CowFork builds: the page calls of kern/syscall.c do to that map what the calls
 * of CowFork.AddressSpaces do.
 */
module KernelSpaces {
  import opened Basics
  import opened EnvIds
  import opened Environments
  import opened Paging
  import CowFork

  ghost function Row(e: nat): (r: set<Key>)
    ensures forall k: Key :: k in r <==> k.0 == e && k.1 < USER_PAGES
  {
    set v: nat | v < USER_PAGES :: (e, v)
  }

  /** All the pages that n environments can have. */
  ghost function Pages(n: nat): (r: set<Key>)
    ensures forall k: Key :: k in r <==> k.0 < n && k.1 < USER_PAGES
  {
    if n == 0 then {} else Pages(n - 1) + Row(n - 1)
  }

  /** Where the page tables have what environment k.0 sees at page k.1. */
  ghost function Place(envs: seq<Env>, k: Key): Key
    requires k.0 < |envs|
  {
    (envs[k.0].pgdir, k.1)
  }

  ghost predicate Mapped(maps: map<Key, Entry>, envs: seq<Env>, k: Key) {
    k.0 < |envs| && envs[k.0].status != Free && Place(envs, k) in maps
  }

  /** The mappings of the live environments, by environment and page instead of directory and page. */
  ghost function SpaceOf(maps: map<Key, Entry>, envs: seq<Env>): map<Key, Entry> {
    map k: Key | k in Pages(|envs|) && Mapped(maps, envs, k) :: maps[Place(envs, k)]
  }

  ghost function Space(k: Kernel): map<Key, Entry>
    reads k, k.envs, k.pm
  {
    SpaceOf(k.pm.maps, k.envs[..])
  }

  /** Different pages of live environments are at different places. */
  lemma PlacesDiffer(envs: seq<Env>, dirs: set<nat>, owner: map<nat, nat>, k: Key, k': Key)
    requires DirsOk(envs, dirs, owner) && k.0 < |envs| && k'.0 < |envs| && envs[k.0].status != Free && envs[k'.0].status != Free
    ensures Place(envs, k) == Place(envs, k') <==> k == k'
  {
  }

  lemma SpaceUpdate(maps: map<Key, Entry>, envs: seq<Env>, dirs: set<nat>, owner: map<nat, nat>, k: Key, x: Entry)
    requires DirsOk(envs, dirs, owner) && k in Pages(|envs|) && envs[k.0].status != Free
    ensures SpaceOf(maps[Place(envs, k) := x], envs) == SpaceOf(maps, envs)[k := x]
  {
    var maps' := maps[Place(envs, k) := x];
    forall k': Key | k' in Pages(|envs|) && envs[k'.0].status != Free
      ensures Mapped(maps', envs, k') <==> k' == k || Mapped(maps, envs, k')
      ensures Mapped(maps', envs, k') ==> maps'[Place(envs, k')] == if k' == k then x else maps[Place(envs, k')]
    {
      PlacesDiffer(envs, dirs, owner, k, k');
    }
  }

  lemma SpaceRemove(maps: map<Key, Entry>, envs: seq<Env>, dirs: set<nat>, owner: map<nat, nat>, k: Key)
    requires DirsOk(envs, dirs, owner) && k in Pages(|envs|) && envs[k.0].status != Free
    ensures SpaceOf(maps - {Place(envs, k)}, envs) == SpaceOf(maps, envs) - {k}
  {
    var maps' := maps - {Place(envs, k)};
    forall k': Key | k' in Pages(|envs|) && envs[k'.0].status != Free
      ensures Mapped(maps', envs, k') <==> k' != k && Mapped(maps, envs, k')
    {
      PlacesDiffer(envs, dirs, owner, k, k');
    }
  }

  lemma SeenIffMapped(maps: map<Key, Entry>, envs: seq<Env>, k: Key)
    requires k.0 < |envs| && k.1 < USER_PAGES && envs[k.0].status != Free
    ensures k in SpaceOf(maps, envs) <==> Place(envs, k) in maps
    ensures k in SpaceOf(maps, envs) ==> SpaceOf(maps, envs)[k] == maps[Place(envs, k)]
  {
  }

  lemma AllocSeen(maps: map<Key, Entry>, r: Error, maps': map<Key, Entry>, envs: seq<Env>, dirs: set<nat>, owner: map<nat, nat>,
                  k: Key, f: nat, perm: Perm)
    requires DirsOk(envs, dirs, owner) && k.0 < |envs| && (r == OK ==> envs[k.0].status != Free)
    requires r == Inval <==> k.1 >= USER_PAGES || !PermOk(perm)
    requires (r == OK || r == Inval || r == NoMem) && (r != OK ==> maps' == maps)
    requires r == OK ==> maps' == maps[Place(envs, k) := Entry(f, perm)] && forall m | m in maps :: maps[m].frame != f
    ensures CowFork.AllocOutcome(SpaceOf(maps, envs), r, SpaceOf(maps', envs), k.0, k.1, perm)
  {
    if r == OK {
      SpaceUpdate(maps, envs, dirs, owner, k, Entry(f, perm));
    }
  }

  lemma MapSeen(maps: map<Key, Entry>, r: Error, maps': map<Key, Entry>, envs: seq<Env>, dirs: set<nat>, owner: map<nat, nat>,
                src: Key, dst: Key, perm: Perm)
    requires DirsOk(envs, dirs, owner) && src.0 < |envs| && dst.0 < |envs|
    requires envs[src.0].status != Free && envs[dst.0].status != Free
    requires var bad := || src.1 >= USER_PAGES || dst.1 >= USER_PAGES || !PermOk(perm) || Place(envs, src) !in maps
                        || (W in perm && W !in maps[Place(envs, src)].flags);
             && (r == Inval <==> bad) && (r == OK || r == Inval || r == NoMem) && (r != OK ==> maps' == maps)
             && (r == OK ==> maps' == maps[Place(envs, dst) := Entry(maps[Place(envs, src)].frame, perm)])
    ensures CowFork.MapOutcome(SpaceOf(maps, envs), r, SpaceOf(maps', envs), src, dst, perm)
  {
    if src.1 < USER_PAGES {
      SeenIffMapped(maps, envs, src);
    }
    if r == OK {
      SpaceUpdate(maps, envs, dirs, owner, dst, Entry(maps[Place(envs, src)].frame, perm));
    }
  }

  /** The environment that an id stands for, if it stands for one, and the page of an address. */
  function Spot(k: Kernel, envid: int, va: nat): Key
    reads k`curenv
  {
    (if envid == 0 then k.Cur() else envid % NENV, PageOf(va))
  }

  predicate Aligned(va: nat) { va % 4096 == 0 }

  /** The count of the page's frame does not wrap if it is mapped once more. */
  ghost predicate MayMap(k: Kernel, envid: int, va: nat)
    reads k, k.envs, k.pm, k.pm.pages
  {
    k.envs.Length == NENV && k.Cur() < NENV && k.Resolves(envid, true) ==> k.PageFits(k.Slot(envid), va)
  }

  /** sys_page_alloc does to the map of all spaces what CowFork takes it to do. */
  method PageAlloc(k: Kernel, envid: int, va: nat, perm: Perm) returns (r: Error)
    requires Aligned(va) && k.Ready()
    modifies k.pm, k.pm.pages, k.pm.mem
    ensures k.Valid()
    ensures if r == BadEnv then Space(k) == old(Space(k))
            else CowFork.AllocOutcome(old(Space(k)), r, Space(k), Spot(k, envid, va).0, Spot(k, envid, va).1, perm)
  {
    ghost var maps, envs := k.pm.maps, k.envs[..];
    ghost var f := FirstFree(k.pm);
    assert VaOk(va) <==> PageOf(va) < USER_PAGES;
    r := k.SysPageAlloc(envid, va, perm);
    assert k.envs[..] == envs && k.TableOk();
    if r != BadEnv {
      AllocSeen(maps, r, k.pm.maps, envs, k.pm.dirs, k.owner, Spot(k, envid, va), f, perm);
    }
  }

  /** sys_page_map does. */
  method PageMap(k: Kernel, srcid: int, srcva: nat, dstid: int, dstva: nat, perm: Perm) returns (r: Error)
    requires Aligned(srcva) && Aligned(dstva) && k.Ready() && MayMap(k, srcid, srcva)
    modifies k.pm, k.pm.pages, k.pm.mem
    ensures k.Valid()
    ensures if r == BadEnv then Space(k) == old(Space(k))
            else CowFork.MapOutcome(old(Space(k)), r, Space(k), Spot(k, srcid, srcva), Spot(k, dstid, dstva), perm)
  {
    ghost var maps, envs := k.pm.maps, k.envs[..];
    r := k.SysPageMap(srcid, srcva, dstid, dstva, perm);
    assert k.Valid();
    assert k.envs[..] == envs;
    if r != BadEnv {
      MapSeen(maps, r, k.pm.maps, envs, k.pm.dirs, k.owner, Spot(k, srcid, srcva), Spot(k, dstid, dstva), perm);
    }
  }

  /** sys_page_unmap does. */
  method PageUnmap(k: Kernel, envid: int, va: nat) returns (r: Error)
    requires Aligned(va) && k.Ready()
    modifies k.pm, k.pm.pages, k.pm.mem
    ensures k.Valid()
    ensures if r == BadEnv then Space(k) == old(Space(k))
            else CowFork.UnmapOutcome(old(Space(k)), r, Space(k), Spot(k, envid, va).0, Spot(k, envid, va).1)
  {
    ghost var maps, envs := k.pm.maps, k.envs[..];
    r := k.SysPageUnmap(envid, va);
    assert k.envs[..] == envs && k.TableOk();
    if r == OK {
      SpaceRemove(maps, envs, k.pm.dirs, k.owner, Spot(k, envid, va));
    }
  }
}
