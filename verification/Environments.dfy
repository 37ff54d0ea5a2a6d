/**
 * kern/env.c and the page and IPC calls of kern/syscall.c: the table of
 * environments over the paging module.
 */
module Environments {
  import opened Basics
  import opened Wrappers
  import opened Paging
  import opened EnvIds
  import Scheduler

  datatype Env = Env(
    status: Status, id: int, parent: int, pgdir: nat, link: Option<nat>,
    recving: bool, dstva: nat, value: int, from: int, perm: Perm)

  const KERNBASE := 0xf000_0000

  /** A receiver's slot once a message has arrived. */
  function Received(env: Env, value: int, from: int, perm: Perm): Env {
    env.(recving := false, value := value, from := from, perm := perm, status := Runnable)
  }

  /** The table once environment e runs and `cur`, if it was another one and RUNNING, waits for its turn. */
  function SwitchedTo(envs: seq<Env>, cur: Option<nat>, e: nat): seq<Env>
    requires e < |envs|
  {
    if cur == Some(e) then envs
    else
      var was := if cur.Some? && cur.value < |envs| && envs[cur.value].status == Running
                 then envs[cur.value := envs[cur.value].(status := Runnable)] else envs;
      was[e := was[e].(status := Running)]
  }

  /** The environment runs; the one switched away from is RUNNABLE if it was RUNNING; no other changes. */
  lemma SwitchedSlots(envs: seq<Env>, cur: Option<nat>, e: nat)
    requires e < |envs| && (cur.Some? ==> cur.value < |envs|)
    ensures cur == Some(e) ==> SwitchedTo(envs, cur, e) == envs
    ensures cur != Some(e) ==> SwitchedTo(envs, cur, e)[e] == envs[e].(status := Running)
    ensures |SwitchedTo(envs, cur, e)| == |envs|
    ensures forall x | 0 <= x < |envs| && x != e ::
              SwitchedTo(envs, cur, e)[x] == if cur == Some(x) && envs[x].status == Running then envs[x].(status := Runnable) else envs[x]
  {
  }

  /** The page number of a virtual address. */
  function PageOf(va: nat): nat { va / 4096 }

  predicate VaOk(va: nat) { va < UTOP && va % 4096 == 0 }

  predicate PermOk(perm: Perm) { {U, P} <= perm <= PTE_SYSCALL }

  /** What a message does to the mappings: the page at src appears at dst too, if one is shared. */
  predicate Sent(maps: map<Key, Entry>, maps': map<Key, Entry>, src: Key, dst: Key, shared: bool, perm: Perm) {
    if shared then src in maps && maps' == maps[dst := Entry(maps[src].frame, perm)] else maps' == maps
  }

  // -------------------------------------------------------------- invariants

  ghost predicate EnvLinkOk(envs: seq<Env>, freeEnvs: seq<nat>, i: nat)
    requires i < |freeEnvs|
  {
    freeEnvs[i] < |envs| && envs[freeEnvs[i]].link == Nth(freeEnvs, i + 1)
  }

  /** The list from env_free_list holds exactly the ENV_FREE slots, once each. */
  ghost predicate EnvListOk(envs: seq<Env>, head: Option<nat>, freeEnvs: seq<nat>) {
    && (forall i, j | 0 <= i < j < |freeEnvs| :: freeEnvs[i] != freeEnvs[j])
    && head == Nth(freeEnvs, 0)
    && (forall i | 0 <= i < |freeEnvs| :: EnvLinkOk(envs, freeEnvs, i))
    && (forall e | 0 <= e < |envs| :: e in freeEnvs <==> envs[e].status == Free)
  }

  /** Slot e carries the id of its allocs[e]-th allocation. */
  ghost predicate IdOk(env: Env, e: nat, allocations: nat) {
    env.id == NthId(e, allocations) && (env.status != Free ==> allocations > 0)
  }

  ghost predicate IdsOk(envs: seq<Env>, allocs: seq<nat>) {
    |allocs| == |envs| && forall e {:trigger IdOk(envs[e], e, allocs[e])} | 0 <= e < |envs| :: IdOk(envs[e], e, allocs[e])
  }

  /** `owner` is a bijection between the directories and the live environments. */
  ghost predicate DirsOk(envs: seq<Env>, dirs: set<nat>, owner: map<nat, nat>) {
    && owner.Keys == dirs
    && (forall d | d in owner :: owner[d] < |envs| && envs[owner[d]].status != Free && envs[owner[d]].pgdir == d)
    && (forall e | 0 <= e < |envs| && envs[e].status != Free :: envs[e].pgdir in owner && owner[envs[e].pgdir] == e)
  }

  lemma PopEnv(envs: seq<Env>, freeEnvs: seq<nat>, e: nat, env: Env)
    requires EnvListOk(envs, Some(e), freeEnvs) && e < |envs| && env.status != Free
    ensures freeEnvs != [] && freeEnvs[0] == e && envs[e].status == Free
    ensures EnvListOk(envs[e := env], envs[e].link, freeEnvs[1..])
  {
    assert EnvLinkOk(envs, freeEnvs, 0);
    var envs', rest := envs[e := env], freeEnvs[1..];
    forall i | 0 <= i < |rest| ensures EnvLinkOk(envs', rest, i) {
      assert EnvLinkOk(envs, freeEnvs, i + 1);
    }
    assert freeEnvs == [e] + rest;
  }

  lemma PushEnv(envs: seq<Env>, head: Option<nat>, freeEnvs: seq<nat>, e: nat)
    requires EnvListOk(envs, head, freeEnvs) && e < |envs| && envs[e].status != Free
    ensures EnvListOk(envs[e := envs[e].(status := Free, link := head)], Some(e), [e] + freeEnvs)
  {
    var envs', all := envs[e := envs[e].(status := Free, link := head)], [e] + freeEnvs;
    forall i | 0 <= i < |all| ensures EnvLinkOk(envs', all, i) {
      if i > 0 { assert EnvLinkOk(envs, freeEnvs, i - 1); }
    }
  }

  /** Changing fields that the list, the ids and the directories do not depend on. */
  ghost predicate SameIdentity(a: Env, b: Env) {
    a.id == b.id && a.pgdir == b.pgdir && a.link == b.link && (a.status == Free <==> b.status == Free)
  }

  lemma KeepList(envs: seq<Env>, head: Option<nat>, freeEnvs: seq<nat>, e: nat, env: Env)
    requires EnvListOk(envs, head, freeEnvs) && e < |envs| && SameIdentity(envs[e], env)
    ensures EnvListOk(envs[e := env], head, freeEnvs)
  {
    var envs' := envs[e := env];
    forall i | 0 <= i < |freeEnvs| ensures EnvLinkOk(envs', freeEnvs, i) {
      assert EnvLinkOk(envs, freeEnvs, i);
    }
  }

  lemma KeepIds(envs: seq<Env>, allocs: seq<nat>, e: nat, env: Env)
    requires IdsOk(envs, allocs) && e < |envs| && SameIdentity(envs[e], env)
    ensures IdsOk(envs[e := env], allocs)
  {
    var envs' := envs[e := env];
    forall x | 0 <= x < |envs| ensures IdOk(envs'[x], x, allocs[x]) {
      assert IdOk(envs[x], x, allocs[x]);
    }
  }

  lemma AddEnv(envs: seq<Env>, allocs: seq<nat>, dirs: set<nat>, owner: map<nat, nat>, e: nat, env: Env)
    requires IdsOk(envs, allocs) && DirsOk(envs, dirs, owner)
    requires e < |envs| && envs[e].status == Free && env.status != Free
    requires env.id == NextId(envs[e].id, e) && env.pgdir !in dirs
    ensures IdsOk(envs[e := env], allocs[e := allocs[e] + 1])
    ensures DirsOk(envs[e := env], dirs + {env.pgdir}, owner[env.pgdir := e])
  {
    var envs', allocs' := envs[e := env], allocs[e := allocs[e] + 1];
    forall x | 0 <= x < |envs| ensures IdOk(envs'[x], x, allocs'[x]) {
      assert IdOk(envs[x], x, allocs[x]);
    }
  }

  lemma RemoveEnv(envs: seq<Env>, allocs: seq<nat>, dirs: set<nat>, owner: map<nat, nat>, e: nat, link: Option<nat>)
    requires IdsOk(envs, allocs) && DirsOk(envs, dirs, owner)
    requires e < |envs| && envs[e].status != Free
    ensures IdsOk(envs[e := envs[e].(status := Free, link := link)], allocs)
    ensures DirsOk(envs[e := envs[e].(status := Free, link := link)], dirs - {envs[e].pgdir}, owner - {envs[e].pgdir})
  {
    var envs' := envs[e := envs[e].(status := Free, link := link)];
    forall x | 0 <= x < |envs| ensures IdOk(envs'[x], x, allocs[x]) {
      assert IdOk(envs[x], x, allocs[x]);
    }
  }

  /** Live environments have distinct ids. */
  lemma LiveIdsDistinct(envs: seq<Env>, allocs: seq<nat>, e: nat, e': nat)
    requires IdsOk(envs, allocs) && |envs| == NENV && e < NENV && e' < NENV && e != e'
    requires envs[e].status != Free && envs[e'].status != Free
    ensures 0 < envs[e].id != envs[e'].id
  {
    assert IdOk(envs[e], e, allocs[e]) && IdOk(envs[e'], e', allocs[e']);
    IssuedIdIsWellFormed(e, allocs[e]);
    IdsOfSlotsDiffer(e, allocs[e], e', allocs[e']);
  }

  // ------------------------------------------------------------- the kernel

  /** One step of a run: a system call of the current environment, the creation of a program, or a yield or timer tick. */
  datatype Op =
    | PageAllocOp(envid: int, va: nat, perm: Perm)
    | PageMapOp(srcid: int, srcva: nat, dstid: int, dstva: nat, perm: Perm)
    | PageUnmapOp(envid: int, va: nat)
    | ExoforkOp
    | DestroyOp(envid: int)
    | SetStatusOp(envid: int, status: Status)
    | SendOp(envid: int, value: int, srcva: nat, perm: Perm)
    | RecvOp(dstva: nat)
    | CreateOp
    | YieldOp

  class Kernel {
    const pm: PhysMem
    const envs: array<Env>
    var freeEnv: Option<nat>      // env_free_list
    var curenv: Option<nat>       // the slot of curenv

    ghost var freeEnvs: seq<nat>
    ghost var allocs: seq<nat>         // allocations of each slot so far
    ghost var owner: map<nat, nat>     // the environment each directory belongs to

    /** The slot of curenv, where there is one. */
    function Cur(): nat
      reads `curenv
    {
      if curenv.Some? then curenv.value else 0
    }

    ghost predicate TableOk()
      reads this, envs, pm`dirs
    {
      && envs.Length == NENV && Cur() < NENV
      && EnvListOk(envs[..], freeEnv, freeEnvs)
      && IdsOk(envs[..], allocs)
      && DirsOk(envs[..], pm.dirs, owner)
    }

    ghost predicate Valid()
      reads this, envs, pm, pm.pages, pm.mem
    {
      TableOk() && pm.Quiet()
    }

    /** envid names a live environment that the caller may use. */
    predicate Resolves(envid: int, checkperm: bool)
      requires envs.Length == NENV && Cur() < NENV
      reads `curenv, envs
    {
      || envid == 0
      || (var e := envid % NENV;
          && envs[e].status != Free && envs[e].id == envid
          && (checkperm ==> e == Cur() || envs[e].parent == envs[Cur()].id))
    }

    function Slot(envid: int): (e: nat)
      requires Cur() < NENV
      reads `curenv
      ensures e < NENV
    {
      if envid == 0 then Cur() else envid % NENV
    }

    /** What an error return of a page call guarantees. */
    twostate predicate MemoryUnchanged()
      reads pm
    {
      pm.maps == old(pm.maps) && pm.tabs == old(pm.tabs) && pm.dirs == old(pm.dirs) && pm.free == old(pm.free)
    }

    /** One more reference to the frame mapped there, if any, does not wrap its 16-bit count. */
    ghost predicate RefFits(d: nat, vpn: nat)
      reads pm, pm.pages
    {
      (d, vpn) in pm.maps ==>
        pm.maps[(d, vpn)].frame < pm.pages.Length && pm.pages[pm.maps[(d, vpn)].frame].ref < MAX_REF
    }

    /** The same for the page at a user address of an environment. */
    ghost predicate PageFits(e: nat, va: nat)
      requires e < envs.Length
      reads envs, pm, pm.pages
    {
      VaOk(va) ==> RefFits(envs[e].pgdir, PageOf(va))
    }

    /** curenv is an environment that exists, or there is none. */
    ghost predicate CurLive()
      reads `curenv, envs
    {
      curenv.Some? ==> curenv.value < envs.Length && envs[curenv.value].status != Free
    }

    /** The state a system call starts in: a valid kernel with a current environment. */
    ghost predicate Ready()
      reads this, envs, pm, pm.pages, pm.mem
    {
      Valid() && CurLive() && curenv.Some?
    }

    /** env_init: every slot free, in order, with id 0. */
    constructor (npages: nat, baseMem: nat, bootPages: nat, kern: Frame)
      ensures Valid() && fresh(pm) && fresh(envs) && fresh(pm.pages) && fresh(pm.mem)
      ensures freeEnvs == seq(NENV, i => i) && pm.maps == map[] && curenv == None && |allocs| == NENV && allocs[0] == 0
      ensures envs.Length == NENV && forall e | 0 <= e < NENV :: envs[e].status == Free
      ensures pm.free == InitialFree(npages, baseMem, bootPages)
    {
      pm := new PhysMem(npages, baseMem, bootPages, kern);
      envs := new Env[NENV](i => Env(Free, 0, 0, 0, None, false, 0, 0, 0, {}));
      freeEnv, curenv := None, None;
      freeEnvs, allocs, owner := [], seq(NENV, i => 0), map[];
      new;
      EnvInit();
    }

    method EnvInit()
      requires envs.Length == NENV && allocs == seq(NENV, i => 0) && owner == map[]
      modifies this`freeEnv, this`freeEnvs, envs
      ensures EnvListOk(envs[..], freeEnv, freeEnvs) && IdsOk(envs[..], allocs) && DirsOk(envs[..], {}, owner)
      ensures freeEnvs == seq(NENV, i => i)
    {
      for i := 0 to NENV
        invariant forall e | 0 <= e < i :: envs[e].status == Free && envs[e].id == 0 && envs[e].link == Some(e + 1)
      {
        envs[i] := envs[i].(status := Free, id := 0, link := Some(i + 1));
      }
      envs[NENV - 1] := envs[NENV - 1].(link := None);
      freeEnv := Some(0);
      freeEnvs := seq(NENV, i => i);
      forall i | 0 <= i < NENV ensures EnvLinkOk(envs[..], freeEnvs, i) {
      }
      forall e | 0 <= e < NENV ensures IdOk(envs[..][e], e, allocs[e]) && e in freeEnvs {
        assert freeEnvs[e] == e;
      }
    }

    /**
     * The environment with the given id: 0 is the caller.  With checkperm, only the
     * caller and its immediate children are found.
     */
    method Envid2Env(envid: int, checkperm: bool) returns (r: Error, e: nat)
      requires TableOk()
      ensures r == if Resolves(envid, checkperm) then OK else BadEnv
      ensures e == Slot(envid)
      ensures envid == 0 ==> r == OK && e == Cur()
      ensures envid != 0 ==>
                (r == OK <==> exists x: nat {:trigger envs[x]} ::
                  && x < NENV && envs[x].status != Free && envs[x].id == envid
                  && (checkperm ==> x == Cur() || envs[x].parent == envs[Cur()].id))
      ensures envid != 0 && r == OK ==>
                && envs[e].id == envid
                && forall x: nat {:trigger envs[x]} | x < NENV && envs[x].status != Free && envs[x].id == envid :: x == e
    {
      if envid == 0 {
        return OK, Cur();
      }
      forall x: nat | x < NENV && envs[x].status != Free && envs[x].id == envid ensures x == envid % NENV {
        assert envs[..][x] == envs[x] && IdOk(envs[..][x], x, allocs[x]);
        IssuedIdIsWellFormed(x, allocs[x]);
      }
      e := envid % NENV;
      if envs[e].status == Free || envs[e].id != envid {
        return BadEnv, e;
      }
      if checkperm && e != Cur() && envs[e].parent != envs[Cur()].id {
        return BadEnv, e;
      }
      return OK, e;
    }

    /** The same, as far as the system calls need it. */
    method Find(envid: int, checkperm: bool) returns (r: Error, e: nat)
      requires TableOk()
      ensures r == (if Resolves(envid, checkperm) then OK else BadEnv) && e == Slot(envid)
    {
      r, e := Envid2Env(envid, checkperm);
    }

    /**
     * envid2env and stale ids: the id of the n-th allocation of a slot is resolved exactly
     * while the slot's environment exists and the number of allocations since then is a
     * multiple of 2^19 - 1.
     */
    method LookUpOldId(e: nat, n: nat) returns (r: Error, x: nat)
      requires TableOk() && e < NENV && 0 < n <= allocs[e]
      ensures r == OK <==> envs[e].status != Free && (allocs[e] - n) % 524287 == 0
      ensures r == OK ==> x == e
      ensures NthId(e, n) % NENV == e
    {
      assert envs[..][e] == envs[e] && IdOk(envs[..][e], e, allocs[e]);
      IdReusedIff(e, n, allocs[e]);
      IssuedIdIsWellFormed(e, n);
      r, x := Envid2Env(NthId(e, n), false);
    }

    /** A new environment with an empty address space; on error nothing changes. */
    method EnvAlloc(parent: int) returns (r: Error, e: nat)
      requires Valid()
      modifies this`freeEnv, this`freeEnvs, this`allocs, this`owner, envs, pm, pm.pages, pm.mem
      ensures Valid() && pm.maps == old(pm.maps) && pm.tabs == old(pm.tabs)
      ensures r == NoFreeEnv <==> old(freeEnvs) == []
      ensures r == NoMem <==> old(freeEnvs) != [] && old(pm.free) == []
      ensures r != OK ==> (r == NoFreeEnv || r == NoMem) && envs[..] == old(envs[..]) && pm.dirs == old(pm.dirs) && pm.free == old(pm.free)
      ensures r == OK ==>
                && old(freeEnvs) != [] && e == old(freeEnvs)[0] && e < NENV && freeEnvs == old(freeEnvs)[1..]
                && envs[e].status == Runnable && !envs[e].recving && envs[e].parent == parent
                && allocs == old(allocs)[e := old(allocs)[e] + 1] && envs[e].id == NthId(e, allocs[e])
                && envs[e].pgdir !in old(pm.dirs) && pm.dirs == old(pm.dirs) + {envs[e].pgdir}
                && envs[..] == old(envs[..])[e := envs[e]]
    {
      e := 0;
      if freeEnv == None {
        return NoFreeEnv, e;
      }
      e := freeEnv.value;
      assert EnvLinkOk(envs[..], freeEnvs, 0);
      var d := SetupVm();
      if d == None {
        return NoMem, e;
      }
      CommitEnv(e, d.value, parent);
      assert Valid();
      return OK, e;
    }

    /** env_setup_vm: the directory is nobody's yet. */
    method SetupVm() returns (d: Option<nat>)
      requires Valid()
      modifies pm, pm.pages, pm.mem
      ensures pm.Quiet() && pm.maps == old(pm.maps) && pm.tabs == old(pm.tabs)
      ensures d == None <==> old(pm.free) == []
      ensures d == None ==> pm.dirs == old(pm.dirs) && pm.free == old(pm.free)
      ensures d != None ==> d.value !in old(pm.dirs) && pm.dirs == old(pm.dirs) + {d.value} && pm.dirs - {d.value} == old(pm.dirs)
    {
      d := pm.NewDirectory();
    }

    /** The end of env_alloc: the id, the status variables, and the slot off the free list. */
    method CommitEnv(e: nat, d: nat, parent: int)
      requires envs.Length == NENV && e < NENV && freeEnv == Some(e)
      requires EnvListOk(envs[..], freeEnv, freeEnvs) && IdsOk(envs[..], allocs) && DirsOk(envs[..], pm.dirs - {d}, owner)
      requires d in pm.dirs
      modifies this`freeEnv, this`freeEnvs, this`allocs, this`owner, envs
      ensures EnvListOk(envs[..], freeEnv, freeEnvs) && IdsOk(envs[..], allocs) && DirsOk(envs[..], pm.dirs, owner)
      ensures old(freeEnvs) != [] && old(freeEnvs)[0] == e && freeEnvs == old(freeEnvs)[1..]
      ensures allocs == old(allocs)[e := old(allocs)[e] + 1] && envs[e].id == NthId(e, allocs[e])
      ensures envs[e].status == Runnable && !envs[e].recving && envs[e].parent == parent && envs[e].pgdir == d
      ensures envs[..] == old(envs[..])[e := envs[e]]
    {
      ghost var envs0 := envs[..];
      var env := envs[e].(id := NextId(envs[e].id, e), parent := parent, status := Runnable, pgdir := d, recving := false);
      PopEnv(envs0, freeEnvs, e, env);
      AddEnv(envs0, allocs, pm.dirs - {d}, owner, e, env);
      assert pm.dirs - {d} + {d} == pm.dirs;
      assert IdOk(envs0[e], e, allocs[e]);
      freeEnv := envs[e].link;
      envs[e] := env;
      assert envs[..] == envs0[e := env];
      freeEnvs, allocs, owner := freeEnvs[1..], allocs[e := allocs[e] + 1], owner[d := e];
    }

    /** Frees environment e and everything only it maps; no other address space changes. */
    method EnvFree(e: nat)
      requires Valid() && e < NENV && envs[e].status != Free
      modifies this`freeEnv, this`freeEnvs, this`owner, envs, pm, pm.pages, pm.mem
      ensures Valid() && freeEnvs == [e] + old(freeEnvs)
      ensures envs[..] == old(envs[..])[e := old(envs[e]).(status := Free, link := old(freeEnv))]
      ensures pm.dirs == old(pm.dirs) - {old(envs[e].pgdir)}
      ensures pm.maps == WithoutDir(old(pm.maps), old(envs[e].pgdir))
      ensures pm.tabs == WithoutDir(old(pm.tabs), old(envs[e].pgdir))
      ensures forall f | 0 <= f < pm.pages.Length ::
                f in pm.free <==> f in old(pm.free) || OwnedBy(old(pm.tabs), old(pm.maps), old(envs[e].pgdir), f)
      ensures forall f | 0 <= f < pm.pages.Length && !OwnedBy(old(pm.tabs), old(pm.maps), old(envs[e].pgdir), f) ::
                pm.pages[f].ref == old(pm.pages[f].ref) - |MappingsIn(old(pm.maps), old(envs[e].pgdir), f)|
    {
      assert envs[..][e] == envs[e];
      pm.FreeAddressSpace(envs[e].pgdir);
      assert pm.dirs + {envs[e].pgdir} == old(pm.dirs);
      RetireSlot(e);
      assert Valid();
    }

    /** The end of env_free: the slot goes back on the free list. */
    method RetireSlot(e: nat)
      requires envs.Length == NENV && Cur() < NENV && e < NENV && envs[e].status != Free && envs[e].pgdir !in pm.dirs
      requires EnvListOk(envs[..], freeEnv, freeEnvs) && IdsOk(envs[..], allocs)
      requires DirsOk(envs[..], pm.dirs + {envs[e].pgdir}, owner)
      modifies this`freeEnv, this`freeEnvs, this`owner, envs
      ensures TableOk() && freeEnvs == [e] + old(freeEnvs)
      ensures envs[..] == old(envs[..])[e := old(envs[e]).(status := Free, link := old(freeEnv))]
    {
      ghost var envs0 := envs[..];
      PushEnv(envs0, freeEnv, freeEnvs, e);
      RemoveEnv(envs0, allocs, pm.dirs + {envs[e].pgdir}, owner, e, freeEnv);
      assert pm.dirs + {envs[e].pgdir} - {envs[e].pgdir} == pm.dirs;
      envs[e] := envs[e].(status := Free);
      envs[e] := envs[e].(link := freeEnv);
      assert envs[..] == envs0[e := envs0[e].(status := Free, link := freeEnv)];
      freeEnv := Some(e);
      freeEnvs, owner := [e] + freeEnvs, owner - {envs0[e].pgdir};
    }

    /** A page-table entry for frame f; needs one more free frame if page vpn has no table yet. */
    ghost predicate NeedsTable(e: nat, vpn: nat)
      requires e < envs.Length
      reads envs, pm
    {
      (envs[e].pgdir, Pdx(vpn)) !in pm.tabs
    }

    /** sys_page_alloc: a fresh frame at va; every error leaves the memory as it was. */
    method SysPageAlloc(envid: int, va: nat, perm: Perm) returns (r: Error)
      requires Ready()
      modifies pm, pm.pages, pm.mem
      ensures Valid()
      ensures r == Inval <==> !({U, P} <= perm <= PTE_SYSCALL) || va >= UTOP || va % 4096 != 0
      ensures r == BadEnv <==> r != Inval && !Resolves(envid, true)
      ensures r == NoMem <==>
                && r != Inval && Resolves(envid, true)
                && (old(pm.free) == [] || (old(NeedsTable(Slot(envid), PageOf(va))) && |old(pm.free)| == 1))
      ensures r == OK || r == Inval || r == BadEnv || r == NoMem
      ensures r != OK ==> MemoryUnchanged()
      ensures r == OK ==>
                && pm.dirs == old(pm.dirs)
                && pm.maps == old(pm.maps)[(envs[Slot(envid)].pgdir, PageOf(va)) := Entry(old(pm.free)[0], perm)]
    {
      if !({U, P} <= perm) || !(perm <= PTE_SYSCALL) {
        return Inval;
      }
      if va >= UTOP || va % 4096 != 0 {
        return Inval;
      }
      var x, e := Find(envid, true);
      if x != OK {
        return BadEnv;
      }
      assert envs[..][e] == envs[e];
      r := AllocAt(envs[e].pgdir, PageOf(va), perm);
    }

    /** page_alloc then page_insert, giving the frame back when the insert fails. */
    method AllocAt(d: nat, vpn: nat, perm: Perm) returns (r: Error)
      requires pm.Quiet() && d in pm.dirs && vpn < USER_PAGES && P in perm
      modifies pm, pm.pages, pm.mem
      ensures pm.Quiet() && pm.dirs == old(pm.dirs)
      ensures r == NoMem <==> old(pm.free) == [] || ((d, Pdx(vpn)) !in old(pm.tabs) && |old(pm.free)| == 1)
      ensures r == OK || r == NoMem
      ensures r == NoMem ==> MemoryUnchanged()
      ensures r == OK ==> pm.maps == old(pm.maps)[(d, vpn) := Entry(old(pm.free)[0], perm)]
    {
      var f := pm.PageAlloc(true);
      if f == None {
        return NoMem;
      }
      assert pm.held == {f.value} && perm + {P} == perm;
      assert |pm.free| == |old(pm.free)| - 1;
      r := pm.PageInsert(d, f.value, vpn, perm);
      if r != OK {
        pm.PageFree(f.value);
        assert pm.free == old(pm.free);
      }
    }

    /** page_lookup, the write-permission test, and page_insert, as sys_page_map and sys_ipc_try_send do them. */
    method SharePage(sd: nat, svpn: nat, dd: nat, dvpn: nat, perm: Perm) returns (r: Error)
      requires pm.Quiet() && sd in pm.dirs && dd in pm.dirs && svpn < USER_PAGES && dvpn < USER_PAGES
      requires P in perm && RefFits(sd, svpn)
      modifies pm, pm.pages, pm.mem
      ensures pm.Quiet() && pm.dirs == old(pm.dirs)
      ensures r == OK || r == Inval || r == NoMem
      ensures r == Inval <==> (sd, svpn) !in old(pm.maps) || (W in perm && W !in old(pm.maps)[(sd, svpn)].flags)
      ensures r == NoMem <==> r != Inval && (dd, Pdx(dvpn)) !in old(pm.tabs) && old(pm.free) == []
      ensures r != OK ==> MemoryUnchanged()
      ensures r == OK ==>
                && (sd, svpn) in old(pm.maps)
                && pm.maps == old(pm.maps)[(dd, dvpn) := Entry(old(pm.maps)[(sd, svpn)].frame, perm)]
    {
      var pp, t := pm.PageLookup(sd, svpn);
      if pp == None {
        return Inval;
      }
      if W in perm && W !in pm.mem[t][Ptx(svpn)].flags {
        return Inval;
      }
      assert Insertable(pm.held, pm.maps, pp.value);
      assert perm + {P} == perm;
      r := pm.PageInsert(dd, pp.value, dvpn, perm);
    }

    /** sys_page_map: the frame at srcva appears at dstva too, and nothing else changes. */
    method SysPageMap(srcid: int, srcva: nat, dstid: int, dstva: nat, perm: Perm) returns (r: Error)
      requires Ready() && (Resolves(srcid, true) ==> PageFits(Slot(srcid), srcva))
      modifies pm, pm.pages, pm.mem
      ensures Valid()
      ensures r == BadEnv <==> !Resolves(srcid, true) || !Resolves(dstid, true)
      ensures var src, dst := (envs[Slot(srcid)].pgdir, PageOf(srcva)), (envs[Slot(dstid)].pgdir, PageOf(dstva));
              var bad := || srcva >= UTOP || srcva % 4096 != 0 || dstva >= UTOP || dstva % 4096 != 0
                         || !({U, P} <= perm <= PTE_SYSCALL)
                         || src !in old(pm.maps) || (W in perm && W !in old(pm.maps)[src].flags);
              && (r == Inval <==> r != BadEnv && bad)
              && (r == NoMem <==> r != BadEnv && !bad && old(NeedsTable(Slot(dstid), PageOf(dstva))) && old(pm.free) == [])
              && (r == OK ==> src in old(pm.maps) && pm.maps == old(pm.maps)[dst := Entry(old(pm.maps)[src].frame, perm)])
      ensures r == OK || r == Inval || r == BadEnv || r == NoMem
      ensures r != OK ==> MemoryUnchanged()
      ensures pm.dirs == old(pm.dirs)
    {
      var x, src := Find(srcid, true);
      if x != OK {
        return BadEnv;
      }
      var y, dst := Find(dstid, true);
      if y != OK {
        return BadEnv;
      }
      r := MapPage(src, srcva, dst, dstva, perm);
    }

    /** sys_page_map once both environments are found. */
    method MapPage(src: nat, srcva: nat, dst: nat, dstva: nat, perm: Perm) returns (r: Error)
      requires Valid() && src < NENV && dst < NENV && envs[src].status != Free && envs[dst].status != Free && PageFits(src, srcva)
      modifies pm, pm.pages, pm.mem
      ensures Valid() && pm.dirs == old(pm.dirs)
      ensures var from, to := (envs[src].pgdir, PageOf(srcva)), (envs[dst].pgdir, PageOf(dstva));
              var bad := || srcva >= UTOP || srcva % 4096 != 0 || dstva >= UTOP || dstva % 4096 != 0
                         || !({U, P} <= perm <= PTE_SYSCALL)
                         || from !in old(pm.maps) || (W in perm && W !in old(pm.maps)[from].flags);
              && (r == Inval <==> bad)
              && (r == NoMem <==> !bad && old(NeedsTable(dst, PageOf(dstva))) && old(pm.free) == [])
              && (r == OK ==> from in old(pm.maps) && pm.maps == old(pm.maps)[to := Entry(old(pm.maps)[from].frame, perm)])
      ensures r == OK || r == Inval || r == NoMem
      ensures r != OK ==> MemoryUnchanged()
    {
      if srcva >= UTOP || srcva % 4096 != 0 {
        return Inval;
      }
      if dstva >= UTOP || dstva % 4096 != 0 {
        return Inval;
      }
      if !({U, P} <= perm) {
        return Inval;
      }
      if !(perm <= PTE_SYSCALL) {
        return Inval;
      }
      assert envs[..][src] == envs[src] && envs[..][dst] == envs[dst];
      r := SharePage(envs[src].pgdir, PageOf(srcva), envs[dst].pgdir, PageOf(dstva), perm);
      assert Valid();
    }

    /** sys_page_unmap: deletes the mapping at va, if there is one, and no other. */
    method SysPageUnmap(envid: int, va: nat) returns (r: Error)
      requires Ready()
      modifies pm, pm.pages, pm.mem
      ensures Valid()
      ensures r == BadEnv <==> !Resolves(envid, true)
      ensures r == Inval <==> Resolves(envid, true) && (va >= UTOP || va % 4096 != 0)
      ensures r != OK ==> (r == BadEnv || r == Inval) && MemoryUnchanged()
      ensures r == OK ==> pm.maps == old(pm.maps) - {(envs[Slot(envid)].pgdir, PageOf(va))}
      ensures pm.dirs == old(pm.dirs)
    {
      var x, e := Find(envid, true);
      if x != OK {
        return BadEnv;
      }
      if va >= UTOP || va % 4096 != 0 {
        return Inval;
      }
      assert envs[..][e] == envs[e];
      pm.PageRemove(envs[e].pgdir, PageOf(va));
      return OK;
    }

    /** Why a send to slot t fails, in the order sys_ipc_try_send tests it; OK if it does not. */
    ghost function SendError(envid: int, srcva: nat, perm: Perm): Error
      requires envs.Length == NENV && Cur() < NENV
      reads this, envs, pm
    {
      var t := Slot(envid);
      if !Resolves(envid, false) then BadEnv
      else if !envs[t].recving then IpcNotRecv
      else if srcva < UTOP && !MaySend(t, srcva, perm) then Inval
      else OK
    }

    /**
     * sys_ipc_try_send.  A failed send changes no state at all, also when mapping the
     * page runs out of memory (which returns the code of an invalid argument).
     */
    method SysIpcTrySend(envid: int, value: int, srcva: nat, perm: Perm) returns (r: Error)
      requires Ready() && PageFits(Cur(), srcva)
      modifies envs, pm, pm.pages, pm.mem
      ensures Valid() && pm.dirs == old(pm.dirs)
      ensures r == BadEnv <==> !Resolves(envid, false)
      ensures r == IpcNotRecv <==> r != BadEnv && !old(envs[Slot(envid)].recving)
      ensures var t, src := Slot(envid), (old(envs[Cur()].pgdir), PageOf(srcva));
              r == Inval <==>
                && r != BadEnv && r != IpcNotRecv && srcva < UTOP
                && (|| srcva % 4096 != 0 || !({U, P} <= perm <= PTE_SYSCALL)
                    || src !in old(pm.maps) || (W in perm && W !in old(pm.maps)[src].flags)
                    || (old(envs[t].dstva) < UTOP && old(NeedsTable(t, PageOf(envs[t].dstva))) && old(pm.free) == []))
      ensures r == OK || r == BadEnv || r == IpcNotRecv || r == Inval
      ensures r != OK ==> MemoryUnchanged() && envs[..] == old(envs[..])
      ensures r == OK ==>
                var t, was := Slot(envid), old(envs[..])[Slot(envid)];
                var shared := srcva < UTOP && was.dstva < UTOP;
                && envs[..] == old(envs[..])[t := envs[t]]
                && !envs[t].recving && envs[t].status == Runnable
                && envs[t].value == value && envs[t].from == old(envs[Cur()].id) && envs[t].perm == (if shared then perm else {})
                && envs[t].id == was.id && envs[t].parent == was.parent && envs[t].pgdir == was.pgdir
                && envs[t].link == was.link && envs[t].dstva == was.dstva
                && (if !shared then pm.maps == old(pm.maps)
                    else var src := (old(envs[Cur()].pgdir), PageOf(srcva));
                         && src in old(pm.maps)
                         && pm.maps == old(pm.maps)[(was.pgdir, PageOf(was.dstva)) := Entry(old(pm.maps)[src].frame, perm)])
    {
      ghost var envs0 := envs[..];
      var t, sent;
      r, t, sent := PrepareSend(envid, srcva, perm);
      if r != OK {
        return;
      }
      assert envs[..] == envs0;
      assert pm.Quiet();
      Deliver(t, value, sent);
      assert pm.Quiet();
    }

    /** sys_ipc_try_send up to the point where the page, if any, is mapped. */
    method PrepareSend(envid: int, srcva: nat, perm: Perm) returns (r: Error, t: nat, sent: Perm)
      requires Ready() && PageFits(Cur(), srcva)
      modifies pm, pm.pages, pm.mem
      ensures Valid() && pm.dirs == old(pm.dirs) && t == Slot(envid)
      ensures r == old(SendError(envid, srcva, perm))
      ensures r != OK ==> MemoryUnchanged()
      ensures r == OK ==>
                var shared := srcva < UTOP && envs[t].dstva < UTOP;
                && envs[t].status != Free
                && sent == (if shared then perm else {})
                && Sent(old(pm.maps), pm.maps, (envs[Cur()].pgdir, PageOf(srcva)),
                        (envs[t].pgdir, PageOf(envs[t].dstva)), shared, perm)
    {
      sent := {};
      r, t := Find(envid, false);
      if r != OK {
        return;
      }
      if !envs[t].recving {
        r := IpcNotRecv;
        return;
      }
      assert envs[..][Cur()] == envs[Cur()] && envs[..][t] == envs[t];
      if srcva < UTOP {
        r := OfferPage(t, srcva, perm);
        assert Valid();
        if r != OK {
          r := Inval;
          return;
        }
        if envs[t].dstva < UTOP {
          sent := perm;
        }
      }
      assert Valid();
    }

    /** Whether the page at srcva may be sent to slot t, and the memory afterwards if it is. */
    ghost predicate MaySend(t: nat, srcva: nat, perm: Perm)
      requires t < envs.Length && Cur() < envs.Length
      reads this, envs, pm
    {
      var src, dst := (envs[Cur()].pgdir, PageOf(srcva)), (envs[t].pgdir, PageOf(envs[t].dstva));
      && srcva % 4096 == 0 && PermOk(perm) && src in pm.maps && (W in perm ==> W in pm.maps[src].flags)
      && !(envs[t].dstva < UTOP && (dst.0, Pdx(dst.1)) !in pm.tabs && pm.free == [])
    }

    /** The page part of a send to t: checked always, mapped only if t asks for a page. */
    method OfferPage(t: nat, srcva: nat, perm: Perm) returns (r: Error)
      requires pm.Quiet() && envs.Length == NENV && t < NENV && Cur() < NENV && srcva < UTOP
      requires envs[t].pgdir in pm.dirs && envs[Cur()].pgdir in pm.dirs && PageFits(Cur(), srcva)
      modifies pm, pm.pages, pm.mem
      ensures pm.Quiet() && pm.dirs == old(pm.dirs)
      ensures r == OK <==> old(MaySend(t, srcva, perm))
      ensures r == OK ==> Sent(old(pm.maps), pm.maps, (envs[Cur()].pgdir, PageOf(srcva)),
                               (envs[t].pgdir, PageOf(envs[t].dstva)), envs[t].dstva < UTOP, perm)
      ensures r != OK ==> MemoryUnchanged()
    {
      if srcva % 4096 != 0 {
        return Inval;
      }
      if !({U, P} <= perm) {
        return Inval;
      }
      if !(perm <= PTE_SYSCALL) {
        return Inval;
      }
      var svpn := PageOf(srcva);
      if envs[t].dstva < UTOP {
        r := SharePage(envs[Cur()].pgdir, svpn, envs[t].pgdir, PageOf(envs[t].dstva), perm);
        return;
      }
      var pp, table := pm.PageLookup(envs[Cur()].pgdir, svpn);
      if pp == None {
        return Inval;
      }
      if W in perm && W !in pm.mem[table][Ptx(svpn)].flags {
        return Inval;
      }
      return OK;
    }

    /** The end of a successful send: the message fields of t, and t runnable again. */
    method Deliver(t: nat, value: int, perm: Perm)
      requires TableOk() && t < NENV && envs[t].status != Free
      modifies envs
      ensures TableOk()
      ensures envs[..] == old(envs[..])[t := Received(old(envs[..])[t], value, old(envs[..])[Cur()].id, perm)]
    {
      ghost var envs0 := envs[..];
      var env := Received(envs[t], value, envs[Cur()].id, perm);
      KeepList(envs0, freeEnv, freeEnvs, t, env);
      KeepIds(envs0, allocs, t, env);
      envs[t] := env;
      assert envs[..] == envs0[t := env];
    }

    /** sys_ipc_recv up to the yield: the caller waits for a message. */
    method SysIpcRecv(dstva: nat) returns (r: Error)
      requires Ready()
      modifies envs
      ensures Valid()
      ensures r == Inval <==> dstva < UTOP && dstva % 4096 != 0
      ensures r != OK ==> r == Inval && envs[..] == old(envs[..])
      ensures r == OK ==> envs[..] == old(envs[..])[Cur() := old(envs[Cur()]).(
                recving := true, status := NotRunnable, dstva := if dstva >= UTOP then KERNBASE else dstva)]
    {
      var target := KERNBASE;
      if dstva < UTOP {
        if dstva % 4096 != 0 {
          return Inval;
        }
        target := dstva;
      }
      ghost var envs0 := envs[..];
      var env := envs[Cur()].(recving := true, status := NotRunnable, dstva := target);
      KeepList(envs0, freeEnv, freeEnvs, Cur(), env);
      KeepIds(envs0, allocs, Cur(), env);
      envs[Cur()] := env;
      assert envs[..] == envs0[Cur() := env];
      return OK;
    }

    /** sys_exofork: a child of the caller with an empty address space, not runnable yet. */
    method SysExofork() returns (r: Error, id: int)
      requires Valid()
      modifies this`freeEnv, this`freeEnvs, this`allocs, this`owner, envs, pm, pm.pages, pm.mem
      ensures Valid() && pm.maps == old(pm.maps) && pm.tabs == old(pm.tabs)
      ensures r == if old(freeEnvs) == [] then NoFreeEnv else if old(pm.free) == [] then NoMem else OK
      ensures r != OK ==> MemoryUnchanged() && envs[..] == old(envs[..])
      ensures r == OK ==>
                var e := old(freeEnvs)[0];
                && e < NENV && id == envs[e].id == NthId(e, allocs[e])
                && envs[e].status == NotRunnable && envs[e].parent == old(envs[..])[Cur()].id && !envs[e].recving
                && envs[..] == old(envs[..])[e := envs[e]]
                && envs[e].pgdir !in old(pm.dirs) && pm.dirs == old(pm.dirs) + {envs[e].pgdir}
    {
      var e;
      id := 0;
      ghost var envs0 := envs[..];
      r, e := EnvAlloc(envs[Cur()].id);
      if r != OK {
        return;
      }
      ghost var envs1 := envs[..];
      assert envs1 == envs0[e := envs1[e]];
      var env := envs[e].(status := NotRunnable);
      KeepList(envs1, freeEnv, freeEnvs, e, env);
      KeepIds(envs1, allocs, e, env);
      envs[e] := env;
      assert envs[..] == envs1[e := env];
      id := envs[e].id;
      assert Valid();
    }

    /** What holds of physical memory and of every address space between any two operations. */
    ghost predicate Consistent()
      requires Valid()
      reads this, envs, pm, pm.pages, pm.mem
    {
      && (forall f | 0 <= f < pm.pages.Length ::
            pm.pages[f].ref == Uses(pm.dirs, pm.tabs, pm.maps, f) + if f in pm.reserved then 1 else 0)
      && (forall f | 0 <= f < pm.pages.Length :: f in pm.free <==> pm.pages[f].ref == 0)
      && (forall e, vpn | 0 <= e < NENV && envs[e].status != Free && 0 <= vpn < USER_PAGES ::
            Translate(pm.mem[..], envs[e].pgdir, vpn) ==
            if (envs[e].pgdir, vpn) in pm.maps then Some(pm.maps[(envs[e].pgdir, vpn)]) else None)
    }

    lemma ValidIsConsistent()
      requires Valid()
      ensures Consistent()
    {
      forall f | 0 <= f < pm.pages.Length
        ensures pm.pages[f].ref == Uses(pm.dirs, pm.tabs, pm.maps, f) + if f in pm.reserved then 1 else 0
      {
        assert CountOk(pm.pages[..][f], Uses(pm.dirs, pm.tabs, pm.maps, f), pm.pins[f], f in pm.reserved);
      }
      forall f | 0 <= f < pm.pages.Length ensures f in pm.free <==> pm.pages[f].ref == 0 {
        assert pm.pages[..][f] == pm.pages[f];
      }
      forall e, vpn | 0 <= e < NENV && envs[e].status != Free && 0 <= vpn < USER_PAGES
        ensures Translate(pm.mem[..], envs[e].pgdir, vpn) ==
                if (envs[e].pgdir, vpn) in pm.maps then Some(pm.maps[(envs[e].pgdir, vpn)]) else None
      {
        assert envs[..][e] == envs[e];
        TranslateIsLookup(pm.mem[..], pm.kern, pm.reserved, pm.dirs, pm.tabs, pm.maps, envs[e].pgdir, vpn);
      }
    }

    // ------------------------------------------------------------- scheduling

    /** env_run. */
    method EnvRun(e: nat)
      requires Valid() && CurLive() && e < NENV && envs[e].status != Free
      modifies `curenv, envs
      ensures Valid() && CurLive() && curenv == Some(e)
      ensures envs[..] == SwitchedTo(old(envs[..]), old(curenv), e)
      ensures old(curenv) == Some(e) ==> envs[..] == old(envs[..])
      ensures old(curenv) != Some(e) ==> envs[..][e] == old(envs[..])[e].(status := Running)
      ensures forall x | 0 <= x < NENV && x != e ::
                envs[..][x] == if old(curenv) == Some(x) && old(envs[..])[x].status == Running
                               then old(envs[..])[x].(status := Runnable) else old(envs[..])[x]
    {
      ghost var envs0, cur := envs[..], curenv;
      if curenv.Some? && curenv != Some(e) {
        LiveIdsDistinct(envs[..], allocs, Cur(), e);
      }
      if curenv == None || envs[Cur()].id != envs[e].id {
        if curenv.Some? && envs[Cur()].status == Running {
          SetStatus(Cur(), Runnable);
        }
        curenv := Some(e);
        SetStatus(e, Running);
      }
      assert envs[..] == SwitchedTo(envs0, cur, e);
      SwitchedSlots(envs0, cur, e);
    }

    /** Storing a status that is not ENV_FREE in a slot that is not free. */
    method SetStatus(e: nat, status: Status)
      requires Valid() && e < NENV && envs[e].status != Free && status != Free
      modifies envs
      ensures Valid() && envs[..] == old(envs[..])[e := old(envs[e]).(status := status)]
    {
      ghost var envs0 := envs[..];
      var env := envs[e].(status := status);
      KeepList(envs0, freeEnv, freeEnvs, e, env);
      KeepIds(envs0, allocs, e, env);
      envs[e] := env;
      assert envs[..] == envs0[e := env];
      assert Valid();
    }

    function Statuses(): (t: Scheduler.Table)
      requires envs.Length == NENV
      reads envs
      ensures forall e | 0 <= e < NENV :: t[e] == envs[e].status
    {
      seq(1024, e requires 0 <= e < 1024 && envs.Length == NENV reads envs => envs[e].status)
    }

    /**
     * sched_yield.  Where it would halt, there is no current environment until some
     * interrupt makes it look again.
     */
    method SchedYield()
      requires Valid() && CurLive()
      modifies `curenv, envs
      ensures Valid() && CurLive()
      ensures var j := old(Scheduler.Choose(Statuses(), Cur()));
              && (j >= 0 ==> curenv == Some(j) && envs[..] == SwitchedTo(old(envs[..]), old(curenv), j))
              && (j < 0 ==> envs[..] == old(envs[..]) &&
                            curenv == if old(curenv.Some? && envs[Cur()].status == Running) then old(curenv) else None)
      ensures (exists x :: 0 <= x < NENV && old(envs[x].status) == Runnable) ==>
                && curenv.Some? && old(envs[..])[Cur()].status == Runnable && (curenv != old(curenv) ==> envs[Cur()].status == Running)
                && (old(curenv.Some? && envs[Cur()].status == Running) ==> curenv != old(curenv) && envs[old(Cur())].status == Runnable)
    {
      var j := Scheduler.SchedYield(Statuses(), if curenv.Some? then curenv.value else -1);
      if j >= 0 {
        EnvRun(j);
      } else if !(curenv.Some? && envs[Cur()].status == Running) {
        curenv := None;
      }
    }

    /** The end of trap: back to the current environment if that makes sense. */
    method Resume()
      requires Valid() && CurLive()
      modifies `curenv, envs
      ensures Valid() && CurLive()
      ensures old(curenv.Some? && envs[Cur()].status == Running) ==> curenv == old(curenv) && envs[..] == old(envs[..])
    {
      if !(curenv.Some? && envs[Cur()].status == Running) {
        SchedYield();
      }
    }

    /** env_destroy. */
    method EnvDestroy(e: nat)
      requires Ready() && e < NENV && envs[e].status != Free
      modifies this, envs, pm, pm.pages, pm.mem
      ensures Valid() && CurLive()
      ensures old(envs[e].status == Running && curenv != Some(e)) ==>
                pm.maps == old(pm.maps) && curenv == old(curenv) && envs[..] == old(envs[..])[e := old(envs[e]).(status := Dying)]
      ensures !old(envs[e].status == Running && curenv != Some(e)) ==>
                && pm.maps == WithoutDir(old(pm.maps), old(envs[e].pgdir)) && pm.dirs == old(pm.dirs) - {old(envs[e].pgdir)}
                && envs[e].status == Free && curenv != Some(e)
      ensures !old(envs[e].status == Running && curenv != Some(e)) ==>
                && (old(curenv) != Some(e) ==> curenv == old(curenv))
                && forall x | 0 <= x < NENV && x != e ::
                     envs[x] == if curenv != old(curenv) && curenv == Some(x) then old(envs[x]).(status := Running) else old(envs[x])
    {
      if envs[e].status == Running && curenv != Some(e) {
        SetStatus(e, Dying);
        return;
      }
      EnvFree(e);
      if curenv == Some(e) {
        LeaveSlot(e);
      }
    }

    /** The end of env_destroy, if the environment was the current one. */
    method LeaveSlot(e: nat)
      requires Valid() && curenv == Some(e) && envs[e].status == Free
      modifies `curenv, envs
      ensures Valid() && CurLive() && envs[e].status == Free && curenv != Some(e)
      ensures forall x | 0 <= x < NENV ::
                envs[x] == if curenv == Some(x) then old(envs[x]).(status := Running) else old(envs[x])
    {
      curenv := None;
      assert Valid();
      SchedYield();
    }

    /** sys_env_destroy. */
    method SysEnvDestroy(envid: int) returns (r: Error)
      requires Ready()
      modifies this, envs, pm, pm.pages, pm.mem
      ensures Valid() && CurLive()
      ensures r == if old(Resolves(envid, true)) then OK else BadEnv
      ensures r != OK ==> envs[..] == old(envs[..]) && MemoryUnchanged() && curenv == old(curenv)
      ensures r == OK ==>
                var e := old(Slot(envid));
                if old(envs[e].status == Running && curenv != Some(e)) then envs[..] == old(envs[..])[e := old(envs[e]).(status := Dying)]
                else envs[e].status == Free && curenv != Some(e) && pm.dirs == old(pm.dirs) - {old(envs[e].pgdir)}
    {
      var e;
      r, e := Find(envid, true);
      if r == OK {
        EnvDestroy(e);
      }
    }

    /** sys_env_set_status. */
    method SysEnvSetStatus(envid: int, status: Status) returns (r: Error)
      requires Ready()
      modifies envs
      ensures Valid() && CurLive()
      ensures r == if status !in {Runnable, NotRunnable} then Inval else if !old(Resolves(envid, true)) then BadEnv else OK
      ensures envs[..] == if r == OK then old(envs[..])[Slot(envid) := old(envs[Slot(envid)]).(status := status)]
                          else old(envs[..])
    {
      if status != Runnable && status != NotRunnable {
        return Inval;
      }
      var x, e := Find(envid, true);
      if x != OK {
        return BadEnv;
      }
      SetStatus(e, status);
      return OK;
    }

    // -------------------------------------------------------------------- runs

    /** The one thing that a caller must see to: that a page about to be mapped once more has room in its count. */
    ghost predicate Fits(op: Op)
      requires TableOk()
      reads this, envs, pm, pm.pages
    {
      match op
      case PageMapOp(srcid, srcva, _, _, _) => Resolves(srcid, true) ==> PageFits(Slot(srcid), srcva)
      case SendOp(_, _, srcva, _) => PageFits(Cur(), srcva)
      case _ => true
    }

    /** Whether the page at va of environment e has room in its count. */
    method CheckFits(e: nat, va: nat) returns (ok: bool)
      requires Valid() && e < NENV && envs[e].status != Free
      ensures ok == PageFits(e, va)
    {
      if !VaOk(va) {
        return true;
      }
      assert envs[..][e] == envs[e];
      var pp, t := pm.PageLookup(envs[e].pgdir, PageOf(va));
      return pp == None || pm.pages[pp.value].ref < MAX_REF;
    }

    /** The page system calls. */
    method PageSyscall(op: Op)
      requires Ready() && Fits(op) && (op.PageAllocOp? || op.PageMapOp? || op.PageUnmapOp?)
      modifies pm, pm.pages, pm.mem
      ensures Valid() && CurLive()
    {
      match op
      case PageAllocOp(envid, va, perm) => var r := SysPageAlloc(envid, va, perm);
      case PageMapOp(srcid, srcva, dstid, dstva, perm) => var r := SysPageMap(srcid, srcva, dstid, dstva, perm);
      case PageUnmapOp(envid, va) => var r := SysPageUnmap(envid, va);
    }

    /** The system calls about environments. */
    method EnvSyscall(op: Op)
      requires Ready() && (op.ExoforkOp? || op.SetStatusOp? || op.DestroyOp?)
      modifies this, envs, pm, pm.pages, pm.mem
      ensures Valid() && CurLive()
    {
      match op
      case ExoforkOp => var r, id := SysExofork();
      case SetStatusOp(envid, status) => var r := SysEnvSetStatus(envid, status);
      case DestroyOp(envid) => var r := SysEnvDestroy(envid);
    }

    /** The system calls about messages. */
    method MessageSyscall(op: Op)
      requires Ready() && Fits(op) && (op.SendOp? || op.RecvOp?)
      modifies envs, pm, pm.pages, pm.mem
      ensures Valid() && CurLive()
    {
      assert envs[..][Cur()].status != Free;
      match op
      case SendOp(envid, value, srcva, perm) =>
        var r := SysIpcTrySend(envid, value, srcva, perm);
        assert envs[..][Cur()].status != Free;
      case RecvOp(dstva) =>
        var r := SysIpcRecv(dstva);
        assert envs[..][Cur()].status != Free;
    }

    /** A system call of the current environment. */
    method Syscall(op: Op)
      requires Ready() && Fits(op)
      modifies this, envs, pm, pm.pages, pm.mem
      ensures Valid() && CurLive()
    {
      match op
      case PageAllocOp(_, _, _) => PageSyscall(op);
      case PageMapOp(_, _, _, _, _) => PageSyscall(op);
      case PageUnmapOp(_, _) => PageSyscall(op);
      case ExoforkOp => EnvSyscall(op);
      case SetStatusOp(_, _) => EnvSyscall(op);
      case DestroyOp(_) => EnvSyscall(op);
      case SendOp(_, _, _, _) => MessageSyscall(op);
      case RecvOp(_) => MessageSyscall(op);
      case CreateOp => var r, e := EnvAlloc(0);
      case YieldOp => SchedYield();
    }

    /** Any one kernel entry: a system call if there is an environment to make it, a timer tick, or the making of a program. */
    method Step(op: Op)
      requires Valid() && CurLive() && (curenv.Some? ==> Fits(op))
      modifies this, envs, pm, pm.pages, pm.mem
      ensures Valid() && CurLive()
    {
      if curenv.Some? {
        Syscall(op);
        Resume();
      } else if op.CreateOp? {
        var r, e := EnvAlloc(0);
      } else if op.YieldOp? {
        SchedYield();
      }
    }

    /**
     * Any run: counts stay exact, the free list holds exactly the unreferenced frames,
     * and every address space is a map.  System calls are passed over while no
     * environment is current; the run stops only where a 16-bit count would wrap.
     */
    method Run(ops: seq<Op>) returns (done: nat)
      requires Valid() && CurLive()
      modifies this, envs, pm, pm.pages, pm.mem
      ensures Valid() && CurLive() && Consistent() && done <= |ops|
      ensures done < |ops| ==> curenv.Some? && !Fits(ops[done])
    {
      done := 0;
      while done < |ops|
        invariant Valid() && CurLive() && done <= |ops|
      {
        var ok := true;
        if curenv.Some? {
          ok := RoomFor(ops[done]);
        }
        if !ok {
          break;
        }
        Step(ops[done]);
        done := done + 1;
      }
      ValidIsConsistent();
    }

    method RoomFor(op: Op) returns (ok: bool)
      requires Ready()
      ensures ok == Fits(op)
    {
      match op
      case PageMapOp(srcid, srcva, _, _, _) =>
        var r, e := Find(srcid, true);
        ok := true;
        if r == OK {
          ok := CheckFits(e, srcva);
        }
      case SendOp(_, _, srcva, _) => ok := CheckFits(Cur(), srcva);
      case _ => ok := true;
    }

    /** With one RUNNABLE environment and none current, a yield runs it. */
    method YieldTo(e: nat)
      requires Valid() && curenv == None && e < NENV && envs[e].status == Runnable
      requires forall x | 0 <= x < NENV && x != e :: envs[x].status != Runnable
      modifies `curenv, envs
      ensures Ready() && curenv == Some(e) && envs[e].status == Running && envs[e].id == old(envs[e].id)
    {
      Scheduler.OnlyChoice(Statuses(), 0, e);
      SchedYield();
    }

    /** i386_init: with a page for its directory, the first program is current after one creation and one yield. */
    method StartFirst()
      requires Valid() && curenv == None && freeEnvs == seq(NENV, i => i) && pm.free != [] && allocs[0] == 0
      requires forall e | 0 <= e < NENV :: envs[e].status == Free
      modifies this, envs, pm, pm.pages, pm.mem
      ensures Ready() && curenv == Some(0) && envs[0].status == Running && envs[0].id == 4096
    {
      ghost var envs0 := envs[..];
      NthIdClosed(0, 1);
      var r, e := EnvAlloc(0);
      forall x | 0 < x < NENV ensures envs[x].status == Free {
        assert envs[..][x] == envs0[x];
      }
      YieldTo(0);
    }
  }
}
