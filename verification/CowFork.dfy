/**
 * Working/lab/lib/fork.c: copy-on-write fork and its page-fault handler, proved to be
 * one that copies every page, whatever the environments do between each other's system
 * calls.
 *
 * The kernel underneath is what module Environments proves of it (KernelSpaces): one map
 * from (environment, page) to frame and permissions, which the page calls update at one
 * key, and an allocator that returns frames no page maps.  A step of the machine is what
 * one environment does up to its next system call, so forks of several environments,
 * their page faults, stores and page calls interleave in any way.
 */
module CowFork {
  import opened Basics
  import opened Wrappers

  const PFTEMP := 0x7ff          // page number of PFTEMP
  const UXSTACK := 0xeebff       // page number of the user exception stack

  type Byte = b: int | 0 <= b < 256
  type Page = s: seq<Byte> | |s| == PGSIZE witness seq(PGSIZE, _ => 0)
  function ZeroPage(): (p: Page)
    ensures forall i | 0 <= i < PGSIZE :: p[i] == 0
  {
    seq(PGSIZE, _ => 0)
  }

  /** (environment, page number). */
  type Key = (nat, nat)

  const RW: Perm := {P, U, W}
  const RO: Perm := {P, U}
  const CW: Perm := {P, U, COW}

  // ------------------------------------------------------- the specification

  /** Memory with eager copying: every page has its own bytes, and some pages may be stored to. */
  datatype Eager = Eager(bytes: map<Key, Page>, mutable: set<Key>)

  /** What a step does to the memory that programs see. */
  datatype Event =
    | Quiet
    | Stored(e: nat, v: nat, off: nat, byte: Byte)
    | Copied(parent: nat, child: nat, v: nat)
    | Fresh(e: nat, v: nat)
    | Dropped(e: nat, v: nat)
    | Gone(e: nat)

  /** m with page c added, a copy of page p. */
  function WithCopy(m: Eager, p: Key, c: Key): Eager
    requires p in m.bytes
  {
    Eager(m.bytes[c := m.bytes[p]], if p in m.mutable then m.mutable + {c} else m.mutable)
  }

  function Apply(m: Eager, ev: Event): Eager {
    match ev
    case Quiet => m
    case Stored(e, v, off, byte) =>
      if (e, v) in m.mutable && (e, v) in m.bytes && off < PGSIZE
      then m.(bytes := m.bytes[(e, v) := m.bytes[(e, v)][off := byte]]) else m
    case Copied(parent, child, v) =>
      if (parent, v) in m.bytes then WithCopy(m, (parent, v), (child, v)) else m
    case Fresh(e, v) => Eager(m.bytes[(e, v) := ZeroPage()], m.mutable + {(e, v)})
    case Dropped(e, v) => Eager(m.bytes - {(e, v)}, m.mutable - {(e, v)})
    case Gone(e) => Eager(map k | k in m.bytes && k.0 != e :: m.bytes[k], set k | k in m.mutable && k.0 != e)
  }

  /** A new page reads as zeros and may be stored to; no other page changes. */
  lemma FreshIsZero(m: Eager, e: nat, v: nat)
    ensures var m' := Apply(m, Fresh(e, v));
            && (e, v) in m'.bytes && (e, v) in m'.mutable && (forall i | 0 <= i < PGSIZE :: m'.bytes[(e, v)][i] == 0)
            && (forall k | k in m.bytes && k != (e, v) :: k in m'.bytes && m'.bytes[k] == m.bytes[k])
  {
  }

  /** A store changes that byte of that page. */
  lemma StoreChangesByte(m: Eager, e: nat, v: nat, off: nat, byte: Byte)
    requires (e, v) in m.mutable && (e, v) in m.bytes && off < PGSIZE
    ensures Apply(m, Stored(e, v, off, byte)) == Eager(m.bytes[(e, v) := m.bytes[(e, v)][off := byte]], m.mutable)
  {
  }

  /** Where fork is with page pn: at the head of its loop, or past it; in duppage before its first or second call; done but for starting the child. */
  datatype Spot = Look | Dup(cow: bool) | Mark(linked: bool) | Start

  datatype Forking = Forking(child: nat, pn: nat, spot: Spot)

  /** Which call the page-fault handler makes next, for page v; Fill is its memmove. */
  datatype Stage = GetPage | Fill | MapPage | Unmap

  datatype Faulting = Faulting(v: nat, stage: Stage)

  /**
   * The environments, where those in fork and in the page-fault handler are, and who is
   * making the environments that do not run yet.
   */
  datatype Lib = Lib(envs: set<nat>, forks: map<nat, Forking>, maker: map<nat, nat>, faults: map<nat, Faulting>)

  /** What an environment may do; Go is the next step of the library code that it is in. */
  datatype Act = Store(v: nat, off: nat, byte: Byte) | Fork(child: nat) | Alloc(v: nat) | Drop(v: nat) | Exit | Go

  /** A step of environment e; `short` says that its system call, if it needs memory, gets none. */
  datatype Move = Move(e: nat, act: Act, short: bool)

  /** e runs its program, and is neither in fork nor in the page-fault handler. */
  predicate AtEase(lib: Lib, e: nat) {
    e !in lib.forks && e !in lib.faults
  }

  /**
   * The moves there are.  An environment that is being made does not run; one in the
   * page-fault handler does nothing else; one in fork also stores, to its stack if nothing else.
   */
  predicate May(lib: Lib, mv: Move) {
    && mv.e in lib.envs && mv.e !in lib.maker
    && match mv.act
       case Store(_, _, _) => mv.e !in lib.faults
       case Fork(child) => AtEase(lib, mv.e) && child !in lib.envs
       case Alloc(v) => AtEase(lib, mv.e) && v < USER_PAGES && v != PFTEMP
       case Drop(v) => AtEase(lib, mv.e) && v < USER_PAGES
       case Exit => AtEase(lib, mv.e)
       case Go => !AtEase(lib, mv.e)
  }

  /** A program that runs may store, fork, take and drop pages of its own, and exit; library code always goes on. */
  lemma MovesThereAre(lib: Lib, e: nat, short: bool)
    requires e in lib.envs && e !in lib.maker
    ensures e in lib.forks || e in lib.faults ==> May(lib, Move(e, Go, short))
    ensures e !in lib.faults ==> forall v: nat, off: nat, byte: Byte {:trigger Store(v, off, byte)} :: May(lib, Move(e, Store(v, off, byte), short))
    ensures e !in lib.forks && e !in lib.faults ==>
              && May(lib, Move(e, Exit, short))
              && (forall v: nat {:trigger Alloc(v)} | v < USER_PAGES && v != PFTEMP :: May(lib, Move(e, Alloc(v), short)))
              && (forall v: nat {:trigger Drop(v)} | v < USER_PAGES :: May(lib, Move(e, Drop(v), short)))
              && (forall c: nat {:trigger Fork(c)} | c !in lib.envs :: May(lib, Move(e, Fork(c), short)))
  {
  }

  /** Where the handler is after its next step; None if it has returned. */
  function NextStage(stage: Stage): Option<Stage> {
    match stage
    case GetPage => Some(Fill)
    case Fill => Some(MapPage)
    case MapPage => Some(Unmap)
    case Unmap => None
  }

  function SetFault(lib: Lib, e: nat, v: nat, stage: Option<Stage>): Lib {
    lib.(faults := if stage == None then lib.faults - {e} else lib.faults[e := Faulting(v, stage.value)])
  }

  function SetFork(lib: Lib, e: nat, f: Forking): Lib {
    lib.(forks := lib.forks[e := f])
  }

  function NextPage(f: Forking): Forking { Forking(f.child, f.pn + 1, Look) }

  /**
   * A fork that copies every page, one page at one instant inside that page's duppage: what
   * a step of fork may do, seen from outside.  The instant is the first call or the second.
   */
  ghost predicate ForkSpec(m: Eager, lib: Lib, e: nat, ev: Event, lib': Lib)
    requires e in lib.forks
  {
    var f := lib.forks[e];
    var copied := Copied(e, f.child, f.pn);
    match f.spot
    case Look =>
      if f.pn >= USER_PAGES then ev == Fresh(f.child, UXSTACK) && lib' == SetFork(lib, e, f.(spot := Start))
      else if (e, f.pn) !in m.bytes || f.pn == UXSTACK then ev == Quiet && lib' == SetFork(lib, e, NextPage(f))
      else ev == Quiet && lib' == SetFork(lib, e, f.(spot := Dup((e, f.pn) in m.mutable)))
    case Dup(cow) =>
      if !cow then ev == copied && lib' == SetFork(lib, e, NextPage(f))
      else
        || (ev == copied && lib' == SetFork(lib, e, f.(spot := Mark(false))))
        || (ev == Quiet && lib' == SetFork(lib, e, f.(spot := Mark(true))))
    case Mark(linked) => ev == (if linked then copied else Quiet) && lib' == SetFork(lib, e, NextPage(f))
    case Start => ev == Quiet && lib' == lib.(forks := lib.forks - {e}, maker := lib.maker - {f.child})
  }

  /** What a move may do, seen from outside: stores happen, perhaps after a page fault that nobody sees. */
  ghost predicate Spec(m: Eager, lib: Lib, mv: Move, ev: Event, lib': Lib) {
    var e := mv.e;
    if !May(lib, mv) then ev == Quiet && lib' == lib
    else match mv.act
      case Store(v, off, byte) =>
        || (ev == Stored(e, v, off, byte) && lib' == lib)
        || (ev == Quiet && (e, v) in m.mutable && lib' == SetFault(lib, e, v, Some(GetPage)))
      case Fork(child) =>
        && ev == Quiet
        && lib' == SetFork(lib, e, Forking(child, 0, Look)).(envs := lib.envs + {child}, maker := lib.maker[child := e])
      case Alloc(v) => ev == Fresh(e, v) && lib' == lib
      case Drop(v) => ev == Dropped(e, v) && lib' == lib
      case Exit => ev == Gone(e) && lib' == lib.(envs := lib.envs - {e})
      case Go =>
        if e in lib.faults
        then ev == Quiet && lib' == SetFault(lib, e, lib.faults[e].v, NextStage(lib.faults[e].stage))
        else ForkSpec(m, lib, e, ev, lib')
  }

  /** A run: the memory that programs see and where everybody is, before and after each move. */
  datatype Trace = Trace(ms: seq<Eager>, libs: seq<Lib>, moves: seq<Move>, events: seq<Event>)

  /** e, in fork, is its child's maker, and its place in the loop makes sense. */
  ghost predicate ForkOk(lib: Lib, e: nat)
    requires e in lib.forks
  {
    var f := lib.forks[e];
    && e in lib.envs && e !in lib.maker && f.child in lib.maker && lib.maker[f.child] == e && f.pn <= USER_PAGES
    && (f.spot.Start? ==> f.pn == USER_PAGES)
    && (f.spot.Dup? || f.spot.Mark? ==> f.pn < USER_PAGES && f.pn != UXSTACK)
  }

  /** Child c is being made by an environment in fork. */
  ghost predicate MakerOk(lib: Lib, c: nat)
    requires c in lib.maker
  {
    c in lib.envs && lib.maker[c] in lib.forks && lib.forks[lib.maker[c]].child == c
  }

  /** Who makes whom, and who may be in fork or in the handler. */
  ghost predicate LibOk(lib: Lib) {
    && (forall e {:trigger ForkOk(lib, e)} | e in lib.forks :: ForkOk(lib, e))
    && (forall c {:trigger MakerOk(lib, c)} | c in lib.maker :: MakerOk(lib, c))
    && (forall e | e in lib.faults :: e in lib.envs && e !in lib.maker)
  }

  /** Only environments there are have pages, and only user pages. */
  ghost predicate MemOk(m: Eager, lib: Lib) {
    m.mutable <= m.bytes.Keys && forall k | k in m.bytes :: k.0 in lib.envs && k.1 < USER_PAGES
  }

  ghost predicate StepAt(t: Trace, k: nat) {
    && k < |t.moves| == |t.events| && |t.ms| == |t.libs| == |t.moves| + 1
    && Spec(t.ms[k], t.libs[k], t.moves[k], t.events[k], t.libs[k + 1])
    && t.ms[k + 1] == Apply(t.ms[k], t.events[k])
  }

  ghost predicate IsRun(t: Trace) {
    && |t.ms| == |t.libs| == |t.moves| + 1 == |t.events| + 1
    && LibOk(t.libs[0]) && MemOk(t.ms[0], t.libs[0])
    && forall k: nat {:trigger StepAt(t, k)} | k < |t.moves| :: StepAt(t, k)
  }

  lemma ForkKeepsLib(m: Eager, lib: Lib, e: nat, ev: Event, lib': Lib)
    requires LibOk(lib) && e in lib.forks && ForkSpec(m, lib, e, ev, lib')
    ensures LibOk(lib')
  {
    assert ForkOk(lib, e);
    forall x | x in lib'.forks ensures ForkOk(lib', x) {
      assert ForkOk(lib, x);
    }
    forall c | c in lib'.maker ensures MakerOk(lib', c) {
      assert MakerOk(lib, c);
    }
  }

  lemma SpecKeepsLib(m: Eager, lib: Lib, mv: Move, ev: Event, lib': Lib)
    requires LibOk(lib) && Spec(m, lib, mv, ev, lib')
    ensures LibOk(lib')
  {
    if May(lib, mv) && mv.act.Go? && mv.e !in lib.faults {
      ForkKeepsLib(m, lib, mv.e, ev, lib');
    } else {
      forall x | x in lib'.forks ensures ForkOk(lib', x) {
        assert x in lib.forks ==> ForkOk(lib, x) && MakerOk(lib, lib.forks[x].child);
      }
      forall c | c in lib'.maker ensures MakerOk(lib', c) {
        assert c in lib.maker ==> MakerOk(lib, c);
      }
    }
  }

  /** Who makes a child is the only one that can change its pages. */
  predicate About(ev: Event, e: nat) {
    match ev
    case Quiet => false
    case Stored(x, _, _, _) => x == e
    case Copied(_, child, _) => child == e
    case Fresh(x, _) => x == e
    case Dropped(x, _) => x == e
    case Gone(x) => x == e
  }

  /** An event is about one environment: the pages of the others stay. */
  lemma OthersStay(m: Eager, ev: Event, k: Key)
    requires !About(ev, k.0)
    ensures k in Apply(m, ev).bytes <==> k in m.bytes
    ensures k in Apply(m, ev).mutable <==> k in m.mutable
    ensures k in m.bytes ==> Apply(m, ev).bytes[k] == m.bytes[k]
  {
  }

  /** An environment changes only its own pages and those of the child it is making. */
  lemma EventOwner(m: Eager, lib: Lib, mv: Move, ev: Event, lib': Lib, e: nat)
    requires LibOk(lib) && Spec(m, lib, mv, ev, lib') && About(ev, e)
    ensures mv.e == e || (mv.e in lib.forks && lib.forks[mv.e].child == e)
  {
  }

  lemma SpecKeepsMem(m: Eager, lib: Lib, mv: Move, ev: Event, lib': Lib)
    requires LibOk(lib) && MemOk(m, lib) && Spec(m, lib, mv, ev, lib')
    ensures MemOk(Apply(m, ev), lib')
  {
    assert mv.e in lib.forks ==> ForkOk(lib, mv.e) && MakerOk(lib, lib.forks[mv.e].child);
  }

  lemma {:induction false} RunOk(t: Trace, k: nat)
    requires IsRun(t) && k < |t.ms|
    ensures LibOk(t.libs[k]) && MemOk(t.ms[k], t.libs[k])
  {
    if k > 0 {
      RunOk(t, k - 1);
      assert StepAt(t, k - 1);
      SpecKeepsLib(t.ms[k - 1], t.libs[k - 1], t.moves[k - 1], t.events[k - 1], t.libs[k]);
      SpecKeepsMem(t.ms[k - 1], t.libs[k - 1], t.moves[k - 1], t.events[k - 1], t.libs[k]);
    }
  }

  // ------------------------------------------------- forks are eager copies

  /** After move k of the run, e is in the fork that makes this child. */
  ghost predicate InFork(t: Trace, k: nat, e: nat, child: nat) {
    k < |t.libs| && e in t.libs[k].forks && t.libs[k].forks[e].child == child
  }

  /** Move i begins e's fork of the child, and the fork is not over after the first j moves. */
  ghost predicate ForkFrom(t: Trace, i: nat, j: nat, e: nat, child: nat) {
    && i < j < |t.libs| == |t.moves| + 1 && t.moves[i].e == e && t.moves[i].act == Fork(child) && May(t.libs[i], t.moves[i])
    && forall k: nat {:trigger InFork(t, k, e, child)} | i < k <= j :: InFork(t, k, e, child)
  }

  /** State k is inside duppage of page v, and `copy` is what the parent's page holds in it. */
  ghost predicate CopiedAt(t: Trace, i: nat, j: nat, e: nat, child: nat, v: nat, k: nat, copy: Page) {
    && i < k <= j && InFork(t, k, e, child) && k < |t.ms|
    && t.libs[k].forks[e].pn == v && (t.libs[k].forks[e].spot.Dup? || t.libs[k].forks[e].spot.Mark?)
    && (e, v) in t.ms[k].bytes && t.ms[k].bytes[(e, v)] == copy
  }

  /** Page v of the child holds what the parent's page held at an instant inside v's duppage. */
  ghost predicate CopyOf(t: Trace, i: nat, j: nat, e: nat, child: nat, v: nat, copy: Page) {
    exists k: nat {:trigger CopiedAt(t, i, j, e, child, v, k, copy)} :: CopiedAt(t, i, j, e, child, v, k, copy)
  }

  /** The pages of the parent that the fork has copied. */
  predicate Passed(f: Forking, v: nat) {
    v != UXSTACK && (v < f.pn || (v == f.pn && f.spot == Mark(false)))
  }

  /** The parent has the same pages as when the fork began, with the same right to store. */
  ghost predicate ParentSame(m0: Eager, m: Eager, e: nat) {
    forall v: nat {:trigger (e, v)} ::
      ((e, v) in m.bytes <==> (e, v) in m0.bytes) && ((e, v) in m.mutable <==> (e, v) in m0.mutable)
  }

  /** The child has exactly copies of the pages passed, and its exception stack once that is there. */
  ghost predicate ChildSoFar(t: Trace, i: nat, j: nat, e: nat, child: nat)
    requires i < j < |t.ms| && InFork(t, j, e, child)
  {
    var f, m0, m := t.libs[j].forks[e], t.ms[i], t.ms[j];
    && (forall v: nat {:trigger (child, v)} ::
          && ((child, v) in m.bytes <==> (Passed(f, v) && (e, v) in m0.bytes) || (f.spot.Start? && v == UXSTACK))
          && ((child, v) in m.bytes && v != UXSTACK ==>
                ((child, v) in m.mutable <==> (e, v) in m0.mutable) && CopyOf(t, i, j, e, child, v, m.bytes[(child, v)])))
    && (f.spot.Start? ==> (child, UXSTACK) in m.mutable && m.bytes[(child, UXSTACK)] == ZeroPage())
  }

  /**
   * What fork promises when it is over but for starting the child: the child has each of the
   * parent's pages as it was at an instant inside that page's duppage, with the parent's
   * right to store, and a zeroed exception stack.
   */
  ghost predicate EagerForked(t: Trace, i: nat, j: nat, e: nat, child: nat)
    requires i < j < |t.ms|
  {
    var m0, m := t.ms[i], t.ms[j];
    && (forall v: nat {:trigger (child, v)} ::
          (child, v) in m.bytes <==> v == UXSTACK || (v < USER_PAGES && (e, v) in m0.bytes))
    && (forall v: nat {:trigger (child, v)} | v != UXSTACK && (child, v) in m.bytes ::
          ((child, v) in m.mutable <==> (e, v) in m0.mutable) && CopyOf(t, i, j, e, child, v, m.bytes[(child, v)]))
    && (child, UXSTACK) in m.mutable && (forall b | 0 <= b < PGSIZE :: m.bytes[(child, UXSTACK)][b] == 0)
    && ParentSame(m0, m, e)
  }

  lemma CopyStays(t: Trace, i: nat, j: nat, e: nat, child: nat, v: nat, copy: Page)
    requires CopyOf(t, i, j, e, child, v, copy)
    ensures CopyOf(t, i, j + 1, e, child, v, copy)
  {
    var k: nat :| CopiedAt(t, i, j, e, child, v, k, copy);
    assert CopiedAt(t, i, j + 1, e, child, v, k, copy);
  }

  /** A move of somebody else leaves the parent, its fork and the child alone. */
  lemma ForkUndisturbed(m: Eager, lib: Lib, mv: Move, ev: Event, lib': Lib, e: nat)
    requires LibOk(lib) && Spec(m, lib, mv, ev, lib') && e in lib.forks && mv.e != e
    ensures e in lib'.forks && lib'.forks[e] == lib.forks[e] && !About(ev, e) && !About(ev, lib.forks[e].child)
  {
    assert ForkOk(lib, e) && MakerOk(lib, lib.forks[e].child);
    if mv.e in lib.forks {
      assert ForkOk(lib, mv.e) && MakerOk(lib, lib.forks[mv.e].child);
    }
  }

  /** A move of the parent that is not a step of its fork: at most one of its own pages changes, and only its bytes. */
  lemma ParentStores(m: Eager, lib: Lib, mv: Move, ev: Event, lib': Lib, e: nat)
    requires LibOk(lib) && Spec(m, lib, mv, ev, lib') && e in lib.forks && mv.e == e && !(mv.act.Go? && e !in lib.faults)
    ensures e in lib'.forks && lib'.forks[e] == lib.forks[e] && !About(ev, lib.forks[e].child)
    ensures Apply(m, ev).bytes.Keys == m.bytes.Keys && Apply(m, ev).mutable == m.mutable
  {
    assert ForkOk(lib, e) && MakerOk(lib, lib.forks[e].child);
  }

  /** The steps of a fork copy what the parent has now, and change nothing of the parent's. */
  lemma ForkCopies(m: Eager, lib: Lib, e: nat, ev: Event, lib': Lib, m0: Eager)
    requires LibOk(lib) && e in lib.forks && ForkSpec(m, lib, e, ev, lib') && e in lib'.forks && ParentSame(m0, m, e)
    requires m.mutable <= m.bytes.Keys
    ensures ParentSame(m0, Apply(m, ev), e) && lib'.forks[e].child == lib.forks[e].child
    ensures forall v: nat {:trigger (e, v)} | (e, v) in m.bytes :: Apply(m, ev).bytes[(e, v)] == m.bytes[(e, v)]
  {
    assert ForkOk(lib, e);
  }

  /** One page more: what the child gains in a step of its fork. */
  lemma ForkGains(m: Eager, lib: Lib, e: nat, ev: Event, lib': Lib, m0: Eager, v: nat)
    requires LibOk(lib) && e in lib.forks && ForkSpec(m, lib, e, ev, lib') && e in lib'.forks && ParentSame(m0, m, e)
    requires m.mutable <= m.bytes.Keys
    requires var f, c := lib.forks[e], (lib.forks[e].child, v);
             && (f.spot.Dup? || f.spot.Mark? ==> (e, f.pn) in m.bytes)
             && (c in m.bytes <==> (Passed(f, v) && (e, v) in m0.bytes) || (f.spot.Start? && v == UXSTACK))
             && (forall x: nat | (e, x) in m0.bytes :: x < USER_PAGES)
    ensures var f', c, m' := lib'.forks[e], (lib.forks[e].child, v), Apply(m, ev);
            && (f'.spot.Dup? || f'.spot.Mark? ==> (e, f'.pn) in m'.bytes)
            && (c in m'.bytes <==> (Passed(f', v) && (e, v) in m0.bytes) || (f'.spot.Start? && v == UXSTACK))
            && (c in m'.bytes && v != UXSTACK ==>
                  if Passed(lib.forks[e], v)
                  then c in m.bytes && m'.bytes[c] == m.bytes[c] && (c in m'.mutable <==> c in m.mutable)
                  else && v == lib.forks[e].pn && (lib.forks[e].spot.Dup? || lib.forks[e].spot.Mark?)
                       && (e, v) in m.bytes && m'.bytes[c] == m.bytes[(e, v)] && (c in m'.mutable <==> (e, v) in m0.mutable))
  {
    assert ForkOk(lib, e);
  }

  /** The fork so far: the parent's pages, the child's, and that the page at hand is there. */
  ghost predicate ForkSoFar(t: Trace, i: nat, j: nat, e: nat, child: nat) {
    && i < j < |t.ms| && InFork(t, j, e, child) && ParentSame(t.ms[i], t.ms[j], e) && ChildSoFar(t, i, j, e, child)
    && (t.libs[j].forks[e].spot.Dup? || t.libs[j].forks[e].spot.Mark? ==> (e, t.libs[j].forks[e].pn) in t.ms[j].bytes)
  }

  /** A step that is not one of the fork's own. */
  lemma ForkWaits(t: Trace, i: nat, j: nat, e: nat, child: nat)
    requires IsRun(t) && ForkSoFar(t, i, j, e, child) && j < |t.moves|
    requires t.moves[j].e != e || !(t.moves[j].act.Go? && e !in t.libs[j].faults)
    ensures ForkSoFar(t, i, j + 1, e, child)
  {
    RunOk(t, j);
    assert StepAt(t, j);
    var m, m', ev := t.ms[j], t.ms[j + 1], t.events[j];
    if t.moves[j].e != e {
      ForkUndisturbed(m, t.libs[j], t.moves[j], ev, t.libs[j + 1], e);
      forall v: nat ensures (e, v) in m'.bytes <==> (e, v) in m.bytes ensures (e, v) in m'.mutable <==> (e, v) in m.mutable {
        OthersStay(m, ev, (e, v));
      }
    } else {
      ParentStores(m, t.libs[j], t.moves[j], ev, t.libs[j + 1], e);
    }
    ChildWaits(t, i, j, e, child);
  }

  lemma ChildWaits(t: Trace, i: nat, j: nat, e: nat, child: nat)
    requires StepAt(t, j) && i < j && InFork(t, j, e, child) && InFork(t, j + 1, e, child) && ChildSoFar(t, i, j, e, child)
    requires !About(t.events[j], child) && t.libs[j + 1].forks[e] == t.libs[j].forks[e]
    ensures ChildSoFar(t, i, j + 1, e, child)
  {
    var m, m', ev := t.ms[j], t.ms[j + 1], t.events[j];
    forall v: nat
      ensures (child, v) in m'.bytes <==> (child, v) in m.bytes
      ensures (child, v) in m'.bytes && v != UXSTACK ==> CopyOf(t, i, j + 1, e, child, v, m'.bytes[(child, v)])
      ensures (child, v) in m'.mutable <==> (child, v) in m.mutable
    {
      OthersStay(m, ev, (child, v));
      if (child, v) in m.bytes && v != UXSTACK {
        CopyStays(t, i, j, e, child, v, m.bytes[(child, v)]);
      }
    }
    OthersStay(m, ev, (child, UXSTACK));
  }

  /** A step of the fork itself. */
  lemma ForkGoes(t: Trace, i: nat, j: nat, e: nat, child: nat)
    requires IsRun(t) && ForkSoFar(t, i, j, e, child) && j < |t.moves| && InFork(t, j + 1, e, child)
    requires t.moves[j].e == e && t.moves[j].act.Go? && e !in t.libs[j].faults
    ensures ForkSoFar(t, i, j + 1, e, child)
  {
    RunOk(t, i);
    RunOk(t, j);
    assert StepAt(t, j);
    var m, m', ev, lib, lib' := t.ms[j], t.ms[j + 1], t.events[j], t.libs[j], t.libs[j + 1];
    assert ForkOk(lib, e);
    ForkCopies(m, lib, e, ev, lib', t.ms[i]);
    forall v: nat
      ensures (child, v) in m'.bytes <==> (Passed(lib'.forks[e], v) && (e, v) in t.ms[i].bytes) || (lib'.forks[e].spot.Start? && v == UXSTACK)
      ensures (child, v) in m'.bytes && v != UXSTACK ==>
                ((child, v) in m'.mutable <==> (e, v) in t.ms[i].mutable) && CopyOf(t, i, j + 1, e, child, v, m'.bytes[(child, v)])
      ensures lib'.forks[e].spot.Dup? || lib'.forks[e].spot.Mark? ==> (e, lib'.forks[e].pn) in m'.bytes
    {
      ForkGains(m, lib, e, ev, lib', t.ms[i], v);
      if v != UXSTACK && (child, v) in m'.bytes {
        GainIsCopy(t, i, j, e, child, v);
      }
    }
    if lib'.forks[e].spot.Start? {
      StackZeroed(m, lib, e, ev, lib');
    }
  }

  lemma GainIsCopy(t: Trace, i: nat, j: nat, e: nat, child: nat, v: nat)
    requires i < j < |t.ms| && InFork(t, j, e, child) && j + 1 < |t.ms| && v != UXSTACK && (child, v) in t.ms[j + 1].bytes
    requires var f, m, m', c := t.libs[j].forks[e], t.ms[j], t.ms[j + 1], (child, v);
             if Passed(f, v) then c in m.bytes && m'.bytes[c] == m.bytes[c] && CopyOf(t, i, j, e, child, v, m.bytes[c])
             else v == f.pn && (f.spot.Dup? || f.spot.Mark?) && (e, v) in m.bytes && m'.bytes[c] == m.bytes[(e, v)]
    ensures CopyOf(t, i, j + 1, e, child, v, t.ms[j + 1].bytes[(child, v)])
  {
    var copy := t.ms[j + 1].bytes[(child, v)];
    if Passed(t.libs[j].forks[e], v) {
      CopyStays(t, i, j, e, child, v, copy);
    } else {
      assert CopiedAt(t, i, j + 1, e, child, v, j, copy);
    }
  }

  lemma StackZeroed(m: Eager, lib: Lib, e: nat, ev: Event, lib': Lib)
    requires LibOk(lib) && e in lib.forks && ForkSpec(m, lib, e, ev, lib') && e in lib'.forks && lib'.forks[e].spot.Start?
    ensures var c := (lib.forks[e].child, UXSTACK); c in Apply(m, ev).mutable && c in Apply(m, ev).bytes && Apply(m, ev).bytes[c] == ZeroPage()
  {
    assert ForkOk(lib, e);
  }

  /** The move that begins a fork. */
  lemma ForkBegins(t: Trace, i: nat, e: nat, child: nat)
    requires IsRun(t) && ForkFrom(t, i, i + 1, e, child)
    ensures ForkSoFar(t, i, i + 1, e, child)
  {
    RunOk(t, i);
    assert StepAt(t, i) && InFork(t, i + 1, e, child);
  }

  lemma {:induction false} ForkProgress(t: Trace, i: nat, j: nat, e: nat, child: nat)
    requires IsRun(t) && ForkFrom(t, i, j, e, child)
    ensures ForkSoFar(t, i, j, e, child)
    decreases j
  {
    if j == i + 1 {
      ForkBegins(t, i, e, child);
    } else {
      assert InFork(t, j, e, child) && InFork(t, j - 1, e, child);
      ForkProgress(t, i, j - 1, e, child);
      if t.moves[j - 1].e == e && t.moves[j - 1].act.Go? && e !in t.libs[j - 1].faults {
        ForkGoes(t, i, j - 1, e, child);
      } else {
        ForkWaits(t, i, j - 1, e, child);
      }
    }
  }

  /**
   * fork is eager: in any run, whatever the others do meanwhile, a fork that has come to
   * starting the child has copied every page of the parent, each at an instant inside its
   * own duppage.
   */
  lemma ForkIsEager(t: Trace, i: nat, j: nat, e: nat, child: nat)
    requires IsRun(t) && ForkFrom(t, i, j, e, child)
    requires InFork(t, j, e, child) && t.libs[j].forks[e].spot.Start?
    ensures EagerForked(t, i, j, e, child)
  {
    ForkProgress(t, i, j, e, child);
    RunOk(t, i);
    RunOk(t, j);
    assert ForkOk(t.libs[j], e);
  }

  /** If the parent's pages are not stored to meanwhile, the child is an exact copy of the parent as it was. */
  lemma QuietForkIsCopy(t: Trace, i: nat, j: nat, e: nat, child: nat)
    requires IsRun(t) && ForkFrom(t, i, j, e, child)
    requires InFork(t, j, e, child) && t.libs[j].forks[e].spot.Start?
    requires forall k | i <= k < j :: !(t.events[k].Stored? && t.events[k].e == e)
    ensures forall v: nat {:trigger (child, v)} | v != UXSTACK && (e, v) in t.ms[i].bytes ::
              (child, v) in t.ms[j].bytes && t.ms[j].bytes[(child, v)] == t.ms[i].bytes[(e, v)]
  {
    ForkIsEager(t, i, j, e, child);
    RunOk(t, i);
    forall v: nat | v != UXSTACK && (e, v) in t.ms[i].bytes
      ensures (child, v) in t.ms[j].bytes && t.ms[j].bytes[(child, v)] == t.ms[i].bytes[(e, v)]
    {
      assert (child, v) in t.ms[j].bytes;
      var k: nat :| CopiedAt(t, i, j, e, child, v, k, t.ms[j].bytes[(child, v)]);
      ParentQuiet(t, i, k, e, child, v);
    }
  }

  lemma {:induction false} ParentQuiet(t: Trace, i: nat, k: nat, e: nat, child: nat, v: nat)
    requires IsRun(t) && ForkFrom(t, i, k, e, child) && (e, v) in t.ms[i].bytes
    requires forall x | i <= x < k :: !(t.events[x].Stored? && t.events[x].e == e)
    ensures (e, v) in t.ms[k].bytes && t.ms[k].bytes[(e, v)] == t.ms[i].bytes[(e, v)]
    decreases k
  {
    RunOk(t, k - 1);
    assert StepAt(t, k - 1);
    if k > i + 1 {
      assert InFork(t, k, e, child) && InFork(t, k - 1, e, child);
      ParentQuiet(t, i, k - 1, e, child, v);
      QuietStep(t.ms[k - 1], t.libs[k - 1], t.moves[k - 1], t.events[k - 1], t.libs[k], e, v);
    }
  }

  lemma QuietStep(m: Eager, lib: Lib, mv: Move, ev: Event, lib': Lib, e: nat, v: nat)
    requires LibOk(lib) && Spec(m, lib, mv, ev, lib') && e in lib.forks && e in lib'.forks && (e, v) in m.bytes
    requires !(ev.Stored? && ev.e == e)
    ensures (e, v) in Apply(m, ev).bytes && Apply(m, ev).bytes[(e, v)] == m.bytes[(e, v)]
  {
    assert ForkOk(lib, e);
    if mv.e != e {
      ForkUndisturbed(m, lib, mv, ev, lib', e);
      OthersStay(m, ev, (e, v));
    }
  }

  // --------------------------------------------------------- the page tables

  /** What the page tables say, the contents of the frames, and where everybody is. */
  datatype Machine = Machine(maps: map<Key, Entry>, frames: map<nat, Page>, lib: Lib)

  /**
   * The page whose writable frame page k has for the moment, if any: the parent's, between
   * the two calls of duppage; and the faulting page, between the last two calls of the
   * handler, of which k is then the page at PFTEMP.
   */
  function LinkOf(lib: Lib, k: Key): Option<Key> {
    if k.1 == PFTEMP then
      if k.0 in lib.faults && lib.faults[k.0].stage == Unmap then Some((k.0, lib.faults[k.0].v)) else None
    else if k.0 in lib.maker && lib.maker[k.0] in lib.forks
            && lib.forks[lib.maker[k.0]].spot == Mark(true) && lib.forks[lib.maker[k.0]].pn == k.1
    then Some((lib.maker[k.0], k.1)) else None
  }

  /** Pages that programs do not see yet: the handler's page, and a child's that is still its parent's. */
  predicate Hidden(lib: Lib, k: Key) {
    k.1 == PFTEMP || LinkOf(lib, k) != None
  }

  /** Page k may be stored to in place, and k' would change with it. */
  predicate Shares(maps: map<Key, Entry>, k: Key, k': Key) {
    k in maps && k' in maps && k != k' && W in maps[k].flags && maps[k].frame == maps[k'].frame
  }

  /** A frame that some page may be stored to is mapped nowhere else, except where the library code has just linked two pages. */
  ghost predicate Exclusive(maps: map<Key, Entry>, lib: Lib) {
    forall k, k' {:trigger Shares(maps, k, k')} | Shares(maps, k, k') :: LinkOf(lib, k') == Some(k) || LinkOf(lib, k) == Some(k')
  }

  /** Page k has a frame with contents, and it is a page that its environment may have. */
  ghost predicate PageOk(s: Machine, k: Key)
    requires k in s.maps
  {
    && s.maps[k].frame in s.frames && k.1 < USER_PAGES && k.0 in s.lib.envs
    && (k.1 == PFTEMP ==> k.0 in s.lib.faults && s.lib.faults[k.0].stage != GetPage)
    && (k.0 in s.lib.maker && s.lib.maker[k.0] in s.lib.forks ==>
          var f := s.lib.forks[s.lib.maker[k.0]];
          k.1 < f.pn || (f.spot.Mark? && k.1 == f.pn) || f.spot.Start?)
  }

  /** What the page tables say at the place where e's fork is. */
  ghost predicate SpotOk(s: Machine, e: nat)
    requires e in s.lib.forks
  {
    var f := s.lib.forks[e];
    var p, c := (e, f.pn), (f.child, f.pn);
    && f.pn <= USER_PAGES
    && (f.spot.Dup? || f.spot.Mark? ==> p in s.maps && f.pn != PFTEMP)
    && (f.spot.Dup? ==> (f.spot.cow <==> W in s.maps[p].flags || COW in s.maps[p].flags))
    && (f.spot.Mark? ==> c in s.maps && s.maps[c].flags == CW && (W in s.maps[p].flags || COW in s.maps[p].flags))
    && (f.spot == Mark(true) ==> s.maps[p].frame == s.maps[c].frame && W in s.maps[p].flags)
  }

  /** What the page tables say while e is in the page-fault handler. */
  ghost predicate HandlerOk(s: Machine, e: nat)
    requires e in s.lib.faults
  {
    var f := s.lib.faults[e];
    var k, temp := (e, f.v), (e, PFTEMP);
    && f.v != PFTEMP && k in s.maps && (f.stage != GetPage ==> temp in s.maps && s.maps[temp].flags == RW)
    && (if f.stage == Unmap then s.maps[k].frame == s.maps[temp].frame && W in s.maps[k].flags
        else W !in s.maps[k].flags && COW in s.maps[k].flags)
    && (f.stage == MapPage ==>
          s.maps[temp].frame in s.frames && s.maps[k].frame in s.frames && s.frames[s.maps[temp].frame] == s.frames[s.maps[k].frame])
  }

  ghost predicate Good(s: Machine) {
    && LibOk(s.lib) && Exclusive(s.maps, s.lib)
    && (forall k {:trigger PageOk(s, k)} | k in s.maps :: PageOk(s, k))
    && (forall e {:trigger SpotOk(s, e)} | e in s.lib.forks :: SpotOk(s, e))
    && (forall e {:trigger HandlerOk(s, e)} | e in s.lib.faults :: HandlerOk(s, e))
  }

  /** The memory that programs see. */
  ghost function Abs(s: Machine): Eager {
    Eager(map k | k in s.maps && !Hidden(s.lib, k) && s.maps[k].frame in s.frames :: s.frames[s.maps[k].frame],
          set k | k in s.maps && !Hidden(s.lib, k) && (W in s.maps[k].flags || COW in s.maps[k].flags))
  }

  // -------------------------------------------- what each step does to the machine

  /** A running environment's own pages are not linked to others', nor hidden. */
  lemma RunnerSees(s: Machine, e: nat, v: nat)
    requires Good(s) && e in s.lib.envs && e !in s.lib.maker && v != PFTEMP
    ensures !Hidden(s.lib, (e, v))
  {
  }

  /** A store to a page that is writable in place: seen at that page and nowhere else. */
  lemma StoreInPlace(s: Machine, e: nat, v: nat, off: nat, byte: Byte)
    requires Good(s) && e in s.lib.envs && e !in s.lib.maker && e !in s.lib.faults && off < PGSIZE
    requires (e, v) in s.maps && W in s.maps[(e, v)].flags && s.maps[(e, v)].frame in s.frames
    ensures var f := s.maps[(e, v)].frame;
            var s' := s.(frames := s.frames[f := s.frames[f][off := byte]]);
            Good(s') && Abs(s') == Apply(Abs(s), Stored(e, v, off, byte))
  {
    var f := s.maps[(e, v)].frame;
    var s' := s.(frames := s.frames[f := s.frames[f][off := byte]]);
    assert PageOk(s, (e, v));
    forall k | k in s.maps ensures PageOk(s', k) {
      assert PageOk(s, k);
    }
    forall x | x in s.lib.forks ensures SpotOk(s', x) {
      assert SpotOk(s, x);
    }
    forall x | x in s.lib.faults ensures HandlerOk(s', x) {
      assert HandlerOk(s, x);
      FaultingFrames(s, x, (e, v));
    }
    forall k | k in s.maps && k != (e, v) && s.maps[k].frame == f ensures Hidden(s.lib, k) {
      assert Shares(s.maps, (e, v), k);
    }
  }

  /** While the handler copies, nobody can store to either of its frames. */
  lemma FaultingFrames(s: Machine, x: nat, k: Key)
    requires Good(s) && x in s.lib.faults && k.0 !in s.lib.maker && k.0 !in s.lib.faults && k in s.maps && W in s.maps[k].flags
    ensures HandlerOk(s, x)
    ensures s.lib.faults[x].stage != Unmap ==> s.maps[k].frame != s.maps[(x, s.lib.faults[x].v)].frame
    ensures s.lib.faults[x].stage in {Fill, MapPage} ==> s.maps[k].frame != s.maps[(x, PFTEMP)].frame
  {
    assert HandlerOk(s, x);
    var p, temp := (x, s.lib.faults[x].v), (x, PFTEMP);
    assert W in s.maps[p].flags <==> s.lib.faults[x].stage == Unmap;
    assert !Shares(s.maps, k, p) || LinkOf(s.lib, p) == Some(k) || LinkOf(s.lib, k) == Some(p);
    assert !Shares(s.maps, k, temp) || LinkOf(s.lib, temp) == Some(k) || LinkOf(s.lib, k) == Some(temp);
  }

  /** A frame that no page has. */
  ghost predicate Unused(s: Machine, f: nat) {
    forall k | k in s.maps :: s.maps[k].frame != f
  }

  /** A page-fault handler that goes on, or is entered, with the tables as they are. */
  ghost predicate Handling(s: Machine, s': Machine, e: nat, v: nat, stage: Stage) {
    && e in s.lib.envs && e !in s.lib.maker && s'.lib == SetFault(s.lib, e, v, Some(stage))
    && (e in s.lib.faults ==> s.lib.faults[e].v == v)
  }

  lemma HandlingKeeps(s: Machine, s': Machine, e: nat, v: nat, stage: Stage)
    requires Good(s) && Handling(s, s', e, v, stage)
    ensures LibOk(s'.lib)
    ensures forall k: Key {:trigger LinkOf(s'.lib, k)} | k != (e, PFTEMP) :: LinkOf(s'.lib, k) == LinkOf(s.lib, k)
    ensures LinkOf(s'.lib, (e, PFTEMP)) == if stage == Unmap then Some((e, v)) else None
  {
    forall x | x in s'.lib.forks ensures ForkOk(s'.lib, x) {
      assert ForkOk(s.lib, x);
    }
    forall c | c in s'.lib.maker ensures MakerOk(s'.lib, c) {
      assert MakerOk(s.lib, c);
    }
  }

  /** A store that faults: the handler is entered. */
  lemma FaultBegins(s: Machine, e: nat, v: nat)
    requires Good(s) && e in s.lib.envs && e !in s.lib.maker && e !in s.lib.faults
    requires (e, v) in s.maps && W !in s.maps[(e, v)].flags && COW in s.maps[(e, v)].flags
    ensures var s' := s.(lib := SetFault(s.lib, e, v, Some(GetPage)));
            Good(s') && Abs(s') == Abs(s) && (e, v) in Abs(s).mutable
  {
    var s' := s.(lib := SetFault(s.lib, e, v, Some(GetPage)));
    assert PageOk(s, (e, v));
    HandlingKeeps(s, s', e, v, GetPage);
    forall k | k in s'.maps ensures PageOk(s', k) { assert PageOk(s, k); }
    forall x | x in s'.lib.forks ensures SpotOk(s', x) { assert SpotOk(s, x); }
    forall x | x in s'.lib.faults ensures HandlerOk(s', x) { assert x != e ==> HandlerOk(s, x); }
  }

  /** The handler's four steps, for environment e that is in it. */
  function TempGiven(s: Machine, e: nat, f: nat): Machine
    requires e in s.lib.faults
  {
    Machine(s.maps[(e, PFTEMP) := Entry(f, RW)], s.frames[f := ZeroPage()], SetFault(s.lib, e, s.lib.faults[e].v, Some(Fill)))
  }

  function TempFilled(s: Machine, e: nat): Machine
    requires e in s.lib.faults
  {
    var k, temp := (e, s.lib.faults[e].v), (e, PFTEMP);
    var frames := if k in s.maps && temp in s.maps && s.maps[k].frame in s.frames
                  then s.frames[s.maps[temp].frame := s.frames[s.maps[k].frame]] else s.frames;
    Machine(s.maps, frames, SetFault(s.lib, e, k.1, Some(MapPage)))
  }

  function PageReplaced(s: Machine, e: nat): Machine
    requires e in s.lib.faults
  {
    var k, temp := (e, s.lib.faults[e].v), (e, PFTEMP);
    var maps := if temp in s.maps then s.maps[k := Entry(s.maps[temp].frame, RW)] else s.maps;
    Machine(maps, s.frames, SetFault(s.lib, e, k.1, Some(Unmap)))
  }

  function TempDropped(s: Machine, e: nat): Machine
    requires e in s.lib.faults
  {
    Machine(s.maps - {(e, PFTEMP)}, s.frames, SetFault(s.lib, e, s.lib.faults[e].v, None))
  }

  lemma TempGivenGood(s: Machine, e: nat, f: nat)
    requires Good(s) && e in s.lib.faults && s.lib.faults[e].stage == GetPage && Unused(s, f)
    ensures Good(TempGiven(s, e, f))
  {
    var s' := TempGiven(s, e, f);
    HandlingKeeps(s, s', e, s.lib.faults[e].v, Fill);
    forall k | k in s'.maps ensures PageOk(s', k) { assert k != (e, PFTEMP) ==> PageOk(s, k); }
    forall x | x in s'.lib.forks ensures SpotOk(s', x) { assert SpotOk(s, x); }
    forall x | x in s'.lib.faults ensures HandlerOk(s', x) { assert HandlerOk(s, x); }
    forall k, k' | Shares(s'.maps, k, k') ensures LinkOf(s'.lib, k') == Some(k) || LinkOf(s'.lib, k) == Some(k') {
      assert Shares(s.maps, k, k');
    }
  }

  lemma TempGivenUnseen(s: Machine, e: nat, f: nat)
    requires Good(s) && e in s.lib.faults && s.lib.faults[e].stage == GetPage && Unused(s, f)
    ensures Abs(TempGiven(s, e, f)) == Abs(s)
  {
    var s' := TempGiven(s, e, f);
    HandlingKeeps(s, s', e, s.lib.faults[e].v, Fill);
    forall k | k in s.maps ensures k != (e, PFTEMP) && s'.maps[k] == s.maps[k] && s.maps[k].frame in s.frames {
      assert PageOk(s, k);
    }
    forall k: Key ensures Hidden(s'.lib, k) == Hidden(s.lib, k) {
    }
    SameSeen(s, s');
  }

  /** The same visible pages with the same contents and permissions. */
  lemma SameSeen(s: Machine, s': Machine)
    requires forall k {:trigger s.maps[k]} | k in s.maps && !Hidden(s.lib, k) ::
               && k in s'.maps && s'.maps[k] == s.maps[k] && !Hidden(s'.lib, k) && s.maps[k].frame in s.frames
               && s.maps[k].frame in s'.frames && s'.frames[s.maps[k].frame] == s.frames[s.maps[k].frame]
    requires forall k {:trigger s'.maps[k]} | k in s'.maps && !Hidden(s'.lib, k) :: k in s.maps && !Hidden(s.lib, k)
    ensures Abs(s') == Abs(s)
  {
    var m, m' := Abs(s), Abs(s');
    forall k: Key ensures k in m'.bytes <==> k in m.bytes ensures k in m'.mutable <==> k in m.mutable {
    }
    assert forall k | k in m.bytes :: m'.bytes[k] == m.bytes[k];
  }

  /** Nobody else has the frame of the handler's page until it is mapped a second time. */
  lemma TempIsOwn(s: Machine, e: nat, k: Key)
    requires Good(s) && e in s.lib.faults && s.lib.faults[e].stage in {Fill, MapPage} && k in s.maps && k != (e, PFTEMP)
    ensures (e, PFTEMP) in s.maps && s.maps[k].frame != s.maps[(e, PFTEMP)].frame
  {
    var temp := (e, PFTEMP);
    assert HandlerOk(s, e);
    assert LinkOf(s.lib, k) != Some(temp) by {
      if k.0 in s.lib.faults { assert HandlerOk(s, k.0); }
      if k.0 in s.lib.maker && s.lib.maker[k.0] in s.lib.forks { assert SpotOk(s, s.lib.maker[k.0]); }
    }
    assert !Shares(s.maps, temp, k) || LinkOf(s.lib, k) == Some(temp) || LinkOf(s.lib, temp) == Some(k);
  }

  /** The handler's memmove: its page gets the bytes of the faulting page. */
  lemma TempFilledGood(s: Machine, e: nat)
    requires Good(s) && e in s.lib.faults && s.lib.faults[e].stage == Fill
    ensures Good(TempFilled(s, e))
  {
    assert HandlerOk(s, e);
    var k, temp := (e, s.lib.faults[e].v), (e, PFTEMP);
    assert PageOk(s, k) && PageOk(s, temp);
    var s' := TempFilled(s, e);
    HandlingKeeps(s, s', e, s.lib.faults[e].v, MapPage);
    forall x | x in s'.maps ensures PageOk(s', x) && (x != temp ==> s.maps[x].frame != s.maps[temp].frame) {
      assert PageOk(s, x);
      if x != temp { TempIsOwn(s, e, x); }
    }
    forall x | x in s'.lib.forks ensures SpotOk(s', x) { assert SpotOk(s, x); }
    forall x | x in s'.lib.faults ensures HandlerOk(s', x) { assert HandlerOk(s, x); }
    forall x, y | Shares(s'.maps, x, y) ensures LinkOf(s'.lib, y) == Some(x) || LinkOf(s'.lib, x) == Some(y) {
      assert Shares(s.maps, x, y);
    }
  }

  lemma TempFilledUnseen(s: Machine, e: nat)
    requires Good(s) && e in s.lib.faults && s.lib.faults[e].stage == Fill
    ensures Abs(TempFilled(s, e)) == Abs(s)
  {
    assert HandlerOk(s, e);
    var s' := TempFilled(s, e);
    HandlingKeeps(s, s', e, s.lib.faults[e].v, MapPage);
    forall x | x in s.maps && x != (e, PFTEMP) ensures s.maps[x].frame in s.frames && s'.frames[s.maps[x].frame] == s.frames[s.maps[x].frame] {
      assert PageOk(s, x);
      TempIsOwn(s, e, x);
    }
  }

  /** The handler's second call: the page is replaced by its private copy. */
  lemma PageReplacedGood(s: Machine, e: nat)
    requires Good(s) && e in s.lib.faults && s.lib.faults[e].stage == MapPage
    ensures Good(PageReplaced(s, e))
  {
    assert HandlerOk(s, e);
    var k, temp := (e, s.lib.faults[e].v), (e, PFTEMP);
    var s' := PageReplaced(s, e);
    HandlingKeeps(s, s', e, k.1, Unmap);
    forall x | x in s'.maps ensures PageOk(s', x) && (x != k && x != temp ==> s'.maps[x].frame != s.maps[temp].frame) {
      assert PageOk(s, x);
      if x != temp { TempIsOwn(s, e, x); }
    }
    forall x | x in s'.lib.forks ensures SpotOk(s', x) {
      assert SpotOk(s, x) && ForkOk(s.lib, x) && MakerOk(s.lib, s.lib.forks[x].child);
    }
    forall x | x in s'.lib.faults ensures HandlerOk(s', x) { assert HandlerOk(s, x); }
    forall x, y | Shares(s'.maps, x, y) ensures LinkOf(s'.lib, y) == Some(x) || LinkOf(s'.lib, x) == Some(y) {
      if x != k && y != k {
        assert Shares(s.maps, x, y);
      }
    }
  }

  /** Nobody sees it: the copy has the same bytes, and the page could be stored to before. */
  lemma PageReplacedUnseen(s: Machine, e: nat)
    requires Good(s) && e in s.lib.faults && s.lib.faults[e].stage == MapPage
    ensures Abs(PageReplaced(s, e)) == Abs(s)
  {
    assert HandlerOk(s, e);
    var k := (e, s.lib.faults[e].v);
    HandlingKeeps(s, PageReplaced(s, e), e, k.1, Unmap);
    assert PageOk(s, k);
  }

  /** The handler returns. */
  lemma TempDroppedGood(s: Machine, e: nat)
    requires Good(s) && e in s.lib.faults && s.lib.faults[e].stage == Unmap
    ensures Good(TempDropped(s, e))
  {
    assert HandlerOk(s, e);
    var s' := TempDropped(s, e);
    forall x | x in s'.lib.forks ensures ForkOk(s'.lib, x) { assert ForkOk(s.lib, x); }
    forall c | c in s'.lib.maker ensures MakerOk(s'.lib, c) { assert MakerOk(s.lib, c); }
    forall k | k in s'.maps ensures PageOk(s', k) { assert PageOk(s, k); }
    forall x | x in s'.lib.forks ensures SpotOk(s', x) { assert SpotOk(s, x); }
    forall x | x in s'.lib.faults ensures HandlerOk(s', x) { assert HandlerOk(s, x); }
    forall x, y | Shares(s'.maps, x, y) ensures LinkOf(s'.lib, y) == Some(x) || LinkOf(s'.lib, x) == Some(y) {
      assert Shares(s.maps, x, y);
    }
  }

  lemma TempDroppedUnseen(s: Machine, e: nat)
    requires Good(s) && e in s.lib.faults && s.lib.faults[e].stage == Unmap
    ensures Abs(TempDropped(s, e)) == Abs(s)
  {
    var s' := TempDropped(s, e);
    forall k: Key ensures Hidden(s'.lib, k) == Hidden(s.lib, k) {
    }
    forall k | k in s.maps ensures s.maps[k].frame in s.frames {
      assert PageOk(s, k);
    }
    SameSeen(s, s');
  }

  // ------------------------------------------------------- the steps of fork

  /** A step of e's fork that ends with its loop at the next page, or at another spot of the same page. */
  ghost predicate Forked(s: Machine, s': Machine, e: nat, f': Forking) {
    && e in s.lib.forks && s'.lib == SetFork(s.lib, e, f') && f'.child == s.lib.forks[e].child
  }

  lemma ForkedKeeps(s: Machine, s': Machine, e: nat, f': Forking)
    requires Good(s) && Forked(s, s', e, f') && f'.pn <= USER_PAGES && (f'.spot.Start? ==> f'.pn == USER_PAGES)
    requires f'.spot.Dup? || f'.spot.Mark? ==> f'.pn < USER_PAGES && f'.pn != UXSTACK
    ensures LibOk(s'.lib)
    ensures forall k: Key {:trigger LinkOf(s'.lib, k)} | k.0 != f'.child || k.1 == PFTEMP :: LinkOf(s'.lib, k) == LinkOf(s.lib, k)
    ensures forall v: nat {:trigger LinkOf(s'.lib, (f'.child, v))} | v != PFTEMP ::
              LinkOf(s'.lib, (f'.child, v)) == if f'.spot == Mark(true) && v == f'.pn then Some((e, v)) else None
  {
    assert ForkOk(s.lib, e) && MakerOk(s.lib, f'.child);
    forall x | x in s'.lib.forks ensures ForkOk(s'.lib, x) { assert ForkOk(s.lib, x); }
    forall c | c in s'.lib.maker ensures MakerOk(s'.lib, c) { assert MakerOk(s.lib, c); }
  }

  /** The loop passes over a page that is not there, or reads the entry of one that is. */
  lemma LoopLooks(s: Machine, e: nat, f': Forking)
    requires Good(s) && e in s.lib.forks && e !in s.lib.faults && s.lib.forks[e].spot == Look && s.lib.forks[e].pn < USER_PAGES
    requires var f := s.lib.forks[e];
             var p := (e, f.pn);
             f' == if p !in s.maps || f.pn == UXSTACK then NextPage(f)
                   else f.(spot := Dup(W in s.maps[p].flags || COW in s.maps[p].flags))
    ensures var s' := s.(lib := SetFork(s.lib, e, f')); Good(s') && Abs(s') == Abs(s)
  {
    var s' := s.(lib := SetFork(s.lib, e, f'));
    ForkedKeeps(s, s', e, f');
    forall k | k in s'.maps ensures PageOk(s', k) { assert PageOk(s, k); }
    forall x | x in s'.lib.forks ensures SpotOk(s', x) { assert SpotOk(s, x); }
    forall x | x in s'.lib.faults ensures HandlerOk(s', x) { assert HandlerOk(s, x); }
    SameSeen(s, s');
  }

  /** A running environment that is not in the handler: its pages are linked to none but, at the second call of duppage, its child's. */
  lemma RunnerUnlinked(s: Machine, e: nat, v: nat, k: Key)
    requires Good(s) && e in s.lib.envs && e !in s.lib.maker && e !in s.lib.faults && (e, v) in s.maps
    ensures v != PFTEMP && LinkOf(s.lib, (e, v)) == None
    ensures LinkOf(s.lib, k) == Some((e, v)) ==>
              e in s.lib.forks && k == (s.lib.forks[e].child, v) && s.lib.forks[e].spot == Mark(true) && s.lib.forks[e].pn == v
  {
    assert PageOk(s, (e, v));
    if k.0 in s.lib.maker { assert MakerOk(s.lib, k.0); }
  }

  /** duppage's first call, for environment e that is about to make it. */
  function ChildMapped(s: Machine, e: nat): Machine
    requires e in s.lib.forks && s.lib.forks[e].spot.Dup? && (e, s.lib.forks[e].pn) in s.maps
  {
    var f := s.lib.forks[e];
    var entry := s.maps[(e, f.pn)];
    var f' := if f.spot.cow then f.(spot := Mark(W in entry.flags)) else NextPage(f);
    s.(maps := s.maps[(f.child, f.pn) := Entry(entry.frame, if f.spot.cow then CW else RO)], lib := SetFork(s.lib, e, f'))
  }

  /** The child has only pages that the loop has passed. */
  lemma ChildLacks(s: Machine, e: nat, v: nat)
    requires Good(s) && e in s.lib.forks && (s.lib.forks[e].child, v) in s.maps
    ensures var f := s.lib.forks[e]; v < f.pn || (f.spot.Mark? && v == f.pn) || f.spot.Start?
  {
    assert ForkOk(s.lib, e) && PageOk(s, (s.lib.forks[e].child, v));
  }

  lemma ChildMappedGood(s: Machine, e: nat)
    requires Good(s) && e in s.lib.forks && e !in s.lib.faults && s.lib.forks[e].spot.Dup?
    ensures SpotOk(s, e) && Good(ChildMapped(s, e)) && (s.lib.forks[e].child, s.lib.forks[e].pn) !in s.maps
  {
    assert SpotOk(s, e) && ForkOk(s.lib, e);
    var f, s' := s.lib.forks[e], ChildMapped(s, e);
    var p, c := (e, f.pn), (f.child, f.pn);
    ForkedKeeps(s, s', e, s'.lib.forks[e]);
    if c in s.maps {
      ChildLacks(s, e, f.pn);
      assert false;
    }
    assert PageOk(s, p) && MakerOk(s.lib, f.child);
    forall k | k in s'.maps ensures PageOk(s', k) { assert k != c ==> PageOk(s, k); }
    forall x | x in s'.lib.forks ensures SpotOk(s', x) { assert SpotOk(s, x) && ForkOk(s.lib, x); }
    forall x | x in s'.lib.faults ensures HandlerOk(s', x) { assert HandlerOk(s, x); }
    ChildMappedExclusive(s, e);
  }

  /** The child's page can only be linked to the parent's, and is iff that can be stored to in place. */
  lemma ChildMappedExclusive(s: Machine, e: nat)
    requires Good(s) && e in s.lib.forks && e !in s.lib.faults && s.lib.forks[e].spot.Dup? && SpotOk(s, e) && ForkOk(s.lib, e)
    requires (s.lib.forks[e].child, s.lib.forks[e].pn) !in s.maps
    ensures Exclusive(ChildMapped(s, e).maps, ChildMapped(s, e).lib)
  {
    var f, s' := s.lib.forks[e], ChildMapped(s, e);
    var p, c := (e, f.pn), (f.child, f.pn);
    ForkedKeeps(s, s', e, s'.lib.forks[e]);
    forall x, y | Shares(s'.maps, x, y) ensures LinkOf(s'.lib, y) == Some(x) || LinkOf(s'.lib, x) == Some(y) {
      if y == c {
        RunnerUnlinked(s, e, f.pn, x);
        assert x != p ==> Shares(s.maps, x, p);
      } else {
        assert Shares(s.maps, x, y);
      }
    }
  }

  /** What is seen of it: the child gains a copy, unless its page is still the parent's, which can be stored to in place. */
  lemma ChildMappedSeen(s: Machine, e: nat)
    requires Good(s) && e in s.lib.forks && e !in s.lib.faults && s.lib.forks[e].spot.Dup? && SpotOk(s, e)
    ensures var f, s' := s.lib.forks[e], ChildMapped(s, e);
            Abs(s') == if s'.lib.forks[e].spot == Mark(true) then Abs(s) else Apply(Abs(s), Copied(e, f.child, f.pn))
  {
    ChildMappedGood(s, e);
    assert ForkOk(s.lib, e);
    var f, s' := s.lib.forks[e], ChildMapped(s, e);
    var p, c := (e, f.pn), (f.child, f.pn);
    ForkedKeeps(s, s', e, s'.lib.forks[e]);
    assert PageOk(s, p);
    RunnerSees(s, e, f.pn);
    forall k: Key | k != c ensures Hidden(s'.lib, k) == Hidden(s.lib, k) {
    }
    if s'.lib.forks[e].spot == Mark(true) {
      forall k | k in s.maps ensures s.maps[k].frame in s.frames { assert PageOk(s, k); }
      SameSeen(s, s');
    } else {
      GainsCopy(s, s', p, c);
    }
  }

  /** One visible page more, with the frame of another one and its right to store. */
  lemma GainsCopy(s: Machine, s': Machine, p: Key, c: Key)
    requires p in s.maps && s.maps[p].frame in s.frames && !Hidden(s.lib, p) && c in s'.maps && !Hidden(s'.lib, c) && s'.frames == s.frames
    requires s'.maps[c].frame == s.maps[p].frame && (c in s.maps ==> Hidden(s.lib, c))
    requires W in s'.maps[c].flags || COW in s'.maps[c].flags <==> W in s.maps[p].flags || COW in s.maps[p].flags
    requires forall k {:trigger s.maps[k]} {:trigger k in s.maps} | k in s.maps && k != c ::
               && k in s'.maps && s'.maps[k].frame == s.maps[k].frame && Hidden(s'.lib, k) == Hidden(s.lib, k)
               && (W in s'.maps[k].flags || COW in s'.maps[k].flags <==> W in s.maps[k].flags || COW in s.maps[k].flags)
    requires forall k | k in s'.maps && k != c :: k in s.maps
    ensures Abs(s') == WithCopy(Abs(s), p, c)
  {
    var m, m' := Abs(s), Abs(s');
    forall k: Key
      ensures k in m'.bytes <==> k in m.bytes || k == c
      ensures k in m'.mutable <==> k in m.mutable || (k == c && p in m.mutable)
      ensures k in m'.bytes ==> m'.bytes[k] == if k == c then m.bytes[p] else m.bytes[k]
    {
    }
  }

  /** duppage's second call. */
  function ParentMarked(s: Machine, e: nat): Machine
    requires e in s.lib.forks && (e, s.lib.forks[e].pn) in s.maps
  {
    var p := (e, s.lib.forks[e].pn);
    s.(maps := s.maps[p := Entry(s.maps[p].frame, CW)], lib := SetFork(s.lib, e, NextPage(s.lib.forks[e])))
  }

  lemma ParentMarkedGood(s: Machine, e: nat)
    requires Good(s) && e in s.lib.forks && e !in s.lib.faults && s.lib.forks[e].spot.Mark?
    ensures SpotOk(s, e) && Good(ParentMarked(s, e))
  {
    assert SpotOk(s, e) && ForkOk(s.lib, e);
    var f, s' := s.lib.forks[e], ParentMarked(s, e);
    var p := (e, f.pn);
    ForkedKeeps(s, s', e, s'.lib.forks[e]);
    forall k | k in s'.maps ensures PageOk(s', k) { assert PageOk(s, k); }
    forall x | x in s'.lib.forks ensures SpotOk(s', x) { assert SpotOk(s, x) && ForkOk(s.lib, x) && MakerOk(s.lib, s.lib.forks[x].child); }
    forall x | x in s'.lib.faults ensures HandlerOk(s', x) { assert HandlerOk(s, x); }
    ParentMarkedExclusive(s, e);
  }

  /** Re-marking the parent's page ends the link. */
  lemma ParentMarkedExclusive(s: Machine, e: nat)
    requires Good(s) && e in s.lib.forks && e !in s.lib.faults && s.lib.forks[e].spot.Mark? && SpotOk(s, e) && ForkOk(s.lib, e)
    ensures Exclusive(ParentMarked(s, e).maps, ParentMarked(s, e).lib)
  {
    var f, s' := s.lib.forks[e], ParentMarked(s, e);
    var p := (e, f.pn);
    ForkedKeeps(s, s', e, s'.lib.forks[e]);
    forall x, y | Shares(s'.maps, x, y) ensures LinkOf(s'.lib, y) == Some(x) || LinkOf(s'.lib, x) == Some(y) {
      assert Shares(s.maps, x, y);
      RunnerUnlinked(s, e, f.pn, x);
    }
  }

  /** What is seen of it: if the child's page was still the parent's, the child gains a copy now; otherwise nothing. */
  lemma ParentMarkedSeen(s: Machine, e: nat)
    requires Good(s) && e in s.lib.forks && e !in s.lib.faults && s.lib.forks[e].spot.Mark? && SpotOk(s, e)
    ensures var f := s.lib.forks[e];
            Abs(ParentMarked(s, e)) == if f.spot.linked then Apply(Abs(s), Copied(e, f.child, f.pn)) else Abs(s)
  {
    assert ForkOk(s.lib, e);
    var f, s' := s.lib.forks[e], ParentMarked(s, e);
    var p, c := (e, f.pn), (f.child, f.pn);
    ForkedKeeps(s, s', e, s'.lib.forks[e]);
    assert PageOk(s, p);
    RunnerSees(s, e, f.pn);
    forall k: Key | k != c ensures Hidden(s'.lib, k) == Hidden(s.lib, k) {
    }
    if f.spot.linked {
      GainsCopy(s, s', p, c);
    } else {
      SameRights(s, s');
    }
  }

  /** The same visible pages with the same frames and rights to store. */
  lemma SameRights(s: Machine, s': Machine)
    requires s'.frames == s.frames && s'.maps.Keys == s.maps.Keys
    requires forall k {:trigger s'.maps[k]} | k in s.maps ::
               && s'.maps[k].frame == s.maps[k].frame && Hidden(s'.lib, k) == Hidden(s.lib, k)
               && (W in s'.maps[k].flags || COW in s'.maps[k].flags <==> W in s.maps[k].flags || COW in s.maps[k].flags)
    ensures Abs(s') == Abs(s)
  {
    var m, m' := Abs(s), Abs(s');
    forall k: Key ensures k in m'.bytes <==> k in m.bytes ensures k in m'.mutable <==> k in m.mutable {
    }
  }

  // ------------------------------------- pages given and dropped, beginnings and ends

  /** A new page of a new frame, in the place of whatever was there. */
  function PageGiven(s: Machine, k: Key, f: nat, lib': Lib): Machine {
    Machine(s.maps[k := Entry(f, RW)], s.frames[f := ZeroPage()], lib')
  }

  lemma PageGivenSeen(s: Machine, k: Key, f: nat, lib': Lib)
    requires Good(s) && Unused(s, f) && !Hidden(s.lib, k) && forall x: Key {:trigger Hidden(lib', x)} :: Hidden(lib', x) == Hidden(s.lib, x)
    ensures Abs(PageGiven(s, k, f, lib')) == Apply(Abs(s), Fresh(k.0, k.1))
  {
    var s' := PageGiven(s, k, f, lib');
    var m, m' := Abs(s), Abs(s');
    forall x: Key | x in s.maps ensures s.maps[x].frame in s.frames && s'.frames[s.maps[x].frame] == s.frames[s.maps[x].frame] {
      assert PageOk(s, x);
    }
    assert !Hidden(s'.lib, k) && s'.frames[f] == ZeroPage();
    assert m'.mutable == m.mutable + {k} by {
      forall x: Key ensures x in m'.mutable <==> x in m.mutable || x == k { assert Hidden(s'.lib, x) == Hidden(s.lib, x); }
    }
    forall x: Key
      ensures x in m'.bytes <==> x in m.bytes || x == k
      ensures x in m'.bytes ==> m'.bytes[x] == if x == k then ZeroPage() else m.bytes[x]
    {
      assert Hidden(s'.lib, x) == Hidden(s.lib, x);
    }
  }

  /** The new page is not shared, and no link is to a page whose environment is at ease. */
  lemma PageGivenExclusive(s: Machine, k: Key, f: nat, lib': Lib)
    requires Good(s) && Unused(s, f)
    requires forall x: Key {:trigger LinkOf(lib', x)} :: LinkOf(lib', x) == LinkOf(s.lib, x)
    ensures Exclusive(PageGiven(s, k, f, lib').maps, lib')
  {
    var s' := PageGiven(s, k, f, lib');
    forall x, y | Shares(s'.maps, x, y) ensures LinkOf(lib', y) == Some(x) || LinkOf(lib', x) == Some(y) {
      assert Shares(s.maps, x, y);
    }
  }

  /** sys_page_alloc by an environment for itself. */
  lemma OwnPageGiven(s: Machine, e: nat, v: nat, f: nat)
    requires Good(s) && e in s.lib.envs && e !in s.lib.maker && AtEase(s.lib, e) && v < USER_PAGES && v != PFTEMP && Unused(s, f)
    ensures Good(PageGiven(s, (e, v), f, s.lib))
  {
    var s' := PageGiven(s, (e, v), f, s.lib);
    PageGivenExclusive(s, (e, v), f, s.lib);
    forall k | k in s'.maps ensures PageOk(s', k) { assert k != (e, v) ==> PageOk(s, k); }
    forall x | x in s'.lib.forks ensures SpotOk(s', x) { assert SpotOk(s, x) && ForkOk(s.lib, x) && MakerOk(s.lib, s.lib.forks[x].child); }
    forall x | x in s'.lib.faults ensures HandlerOk(s', x) { assert HandlerOk(s, x); }
  }

  /** The child's exception stack, after the loop. */
  function StackGiven(s: Machine, e: nat, f: nat): Machine
    requires e in s.lib.forks
  {
    var g := s.lib.forks[e];
    PageGiven(s, (g.child, UXSTACK), f, SetFork(s.lib, e, g.(spot := Start)))
  }

  lemma StackLinks(s: Machine, e: nat, f: nat)
    requires Good(s) && e in s.lib.forks && s.lib.forks[e].spot == Look && s.lib.forks[e].pn >= USER_PAGES
    ensures LibOk(StackGiven(s, e, f).lib) && s.lib.forks[e].child in s.lib.envs && !Hidden(s.lib, (s.lib.forks[e].child, UXSTACK))
    ensures forall x: Key {:trigger LinkOf(StackGiven(s, e, f).lib, x)} :: LinkOf(StackGiven(s, e, f).lib, x) == LinkOf(s.lib, x)
  {
    var g, s' := s.lib.forks[e], StackGiven(s, e, f);
    assert ForkOk(s.lib, e) && MakerOk(s.lib, g.child);
    ForkedKeeps(s, s', e, g.(spot := Start));
    forall x: Key ensures LinkOf(s'.lib, x) == LinkOf(s.lib, x) {
    }
  }

  lemma StackGivenGood(s: Machine, e: nat, f: nat)
    requires Good(s) && e in s.lib.forks && e !in s.lib.faults && s.lib.forks[e].spot == Look && s.lib.forks[e].pn >= USER_PAGES && Unused(s, f)
    ensures Good(StackGiven(s, e, f))
  {
    var s', c := StackGiven(s, e, f), (s.lib.forks[e].child, UXSTACK);
    StackLinks(s, e, f);
    assert ForkOk(s.lib, e) && MakerOk(s.lib, c.0);
    PageGivenExclusive(s, c, f, s'.lib);
    forall k | k in s'.maps ensures PageOk(s', k) { assert k != c ==> PageOk(s, k); }
    forall x | x in s'.lib.forks ensures SpotOk(s', x) { assert SpotOk(s, x) && ForkOk(s.lib, x) && MakerOk(s.lib, s.lib.forks[x].child); }
    forall x | x in s'.lib.faults ensures HandlerOk(s', x) { assert HandlerOk(s, x); }
  }

  lemma StackGivenSeen(s: Machine, e: nat, f: nat)
    requires Good(s) && e in s.lib.forks && s.lib.forks[e].spot == Look && s.lib.forks[e].pn >= USER_PAGES && Unused(s, f)
    ensures Abs(StackGiven(s, e, f)) == Apply(Abs(s), Fresh(s.lib.forks[e].child, UXSTACK))
  {
    var s' := StackGiven(s, e, f);
    StackLinks(s, e, f);
    forall x: Key ensures Hidden(s'.lib, x) == Hidden(s.lib, x) {
      assert LinkOf(s'.lib, x) == LinkOf(s.lib, x);
    }
    PageGivenSeen(s, (s.lib.forks[e].child, UXSTACK), f, s'.lib);
  }

  /** The beginning of a fork: a new environment with no pages, which does not run yet. */
  function Begun(lib: Lib, e: nat, child: nat): Lib {
    SetFork(lib, e, Forking(child, 0, Look)).(envs := lib.envs + {child}, maker := lib.maker[child := e])
  }

  lemma LibBegun(lib: Lib, e: nat, child: nat)
    requires LibOk(lib) && e in lib.envs && e !in lib.maker && AtEase(lib, e) && child !in lib.envs
    ensures LibOk(Begun(lib, e, child)) && forall k: Key :: LinkOf(Begun(lib, e, child), k) == LinkOf(lib, k)
  {
    var lib' := Begun(lib, e, child);
    forall x | x in lib'.forks ensures ForkOk(lib', x) { assert x != e ==> ForkOk(lib, x) && MakerOk(lib, lib.forks[x].child); }
    forall c | c in lib'.maker ensures MakerOk(lib', c) { assert c != child ==> MakerOk(lib, c); }
    forall k: Key ensures LinkOf(lib', k) == LinkOf(lib, k) {
      assert k.0 in lib.maker ==> MakerOk(lib, k.0);
    }
  }

  lemma ForkBegun(s: Machine, e: nat, child: nat)
    requires Good(s) && e in s.lib.envs && e !in s.lib.maker && AtEase(s.lib, e) && child !in s.lib.envs
    ensures var s' := s.(lib := Begun(s.lib, e, child)); Good(s') && Abs(s') == Abs(s)
  {
    var s' := s.(lib := Begun(s.lib, e, child));
    LibBegun(s.lib, e, child);
    forall k | k in s'.maps ensures PageOk(s', k) && s.maps[k].frame in s.frames {
      assert PageOk(s, k) && (k.0 in s.lib.maker ==> MakerOk(s.lib, k.0));
    }
    forall x | x in s'.lib.forks ensures SpotOk(s', x) { assert x != e ==> SpotOk(s, x); }
    forall x | x in s'.lib.faults ensures HandlerOk(s', x) { assert HandlerOk(s, x); }
    SameSeen(s, s');
  }

  /** The end of a fork: the child runs. */
  function Started(lib: Lib, e: nat): Lib
    requires e in lib.forks
  {
    lib.(forks := lib.forks - {e}, maker := lib.maker - {lib.forks[e].child})
  }

  lemma ChildStarted(s: Machine, e: nat)
    requires Good(s) && e in s.lib.forks && s.lib.forks[e].spot.Start?
    ensures var s' := s.(lib := Started(s.lib, e)); Good(s') && Abs(s') == Abs(s)
  {
    assert ForkOk(s.lib, e);
    var s' := s.(lib := Started(s.lib, e));
    forall x | x in s'.lib.forks ensures ForkOk(s'.lib, x) { assert ForkOk(s.lib, x); }
    forall c | c in s'.lib.maker ensures MakerOk(s'.lib, c) { assert MakerOk(s.lib, c); }
    forall k: Key ensures LinkOf(s'.lib, k) == LinkOf(s.lib, k) {
      assert k.0 in s.lib.maker ==> MakerOk(s.lib, k.0);
    }
    forall k | k in s'.maps ensures PageOk(s', k) && s.maps[k].frame in s.frames { assert PageOk(s, k); }
    forall x | x in s'.lib.forks ensures SpotOk(s', x) { assert SpotOk(s, x); }
    forall x | x in s'.lib.faults ensures HandlerOk(s', x) { assert HandlerOk(s, x); }
    SameSeen(s, s');
  }

  /** Fewer pages, all of them of an environment that is at ease: nothing else is seen to go. */
  lemma PagesGone(s: Machine, s': Machine, e: nat)
    requires Good(s) && e in s.lib.envs && e !in s.lib.maker && AtEase(s.lib, e) && s'.frames == s.frames
    requires s'.lib == s.lib || s'.lib == s.lib.(envs := s.lib.envs - {e})
    requires forall k {:trigger s'.maps[k]} {:trigger k in s'.maps} | k in s'.maps ::
               k in s.maps && s'.maps[k] == s.maps[k] && (s'.lib != s.lib ==> k.0 != e)
    requires forall k {:trigger s.maps[k]} | k in s.maps && k.0 != e :: k in s'.maps
    ensures Good(s')
  {
    forall x | x in s'.lib.forks ensures ForkOk(s'.lib, x) { assert ForkOk(s.lib, x); }
    forall c | c in s'.lib.maker ensures MakerOk(s'.lib, c) { assert MakerOk(s.lib, c); }
    forall k | k in s'.maps ensures PageOk(s', k) { assert PageOk(s, k); }
    forall x | x in s'.lib.forks ensures SpotOk(s', x) { assert SpotOk(s, x) && ForkOk(s.lib, x) && MakerOk(s.lib, s.lib.forks[x].child); }
    forall x | x in s'.lib.faults ensures HandlerOk(s', x) { assert HandlerOk(s, x); }
    forall x, y | Shares(s'.maps, x, y) ensures LinkOf(s'.lib, y) == Some(x) || LinkOf(s'.lib, x) == Some(y) {
      assert Shares(s.maps, x, y);
    }
  }

  /** sys_page_unmap of an environment's own page. */
  lemma OwnPageDropped(s: Machine, e: nat, v: nat)
    requires Good(s) && e in s.lib.envs && e !in s.lib.maker && AtEase(s.lib, e)
    ensures var s' := s.(maps := s.maps - {(e, v)}); Good(s') && Abs(s') == Apply(Abs(s), Dropped(e, v))
  {
    PagesGone(s, s.(maps := s.maps - {(e, v)}), e);
  }

  /** All the pages of e are given back. */
  function Ended(s: Machine, e: nat): Machine {
    s.(maps := map k | k in s.maps && k.0 != e :: s.maps[k], lib := s.lib.(envs := s.lib.envs - {e}))
  }

  lemma EnvEnded(s: Machine, e: nat)
    requires Good(s) && e in s.lib.envs && e !in s.lib.maker && AtEase(s.lib, e)
    ensures Good(Ended(s, e)) && Abs(Ended(s, e)) == Apply(Abs(s), Gone(e))
  {
    PagesGone(s, Ended(s, e), e);
    forall k: Key ensures Hidden(Ended(s, e).lib, k) == Hidden(s.lib, k) {
    }
  }

  // -------------------------------------------------------- what this is for

  /**
   * Two environments share no frame that either can store to, except a parent and the child
   * it is making, at the one page at which it is between the two calls of duppage.
   */
  lemma SharedPagesAreReadOnly(s: Machine, a: Key, b: Key)
    requires Good(s) && a in s.maps && b in s.maps && a.0 != b.0 && s.maps[a].frame == s.maps[b].frame && W in s.maps[a].flags
    ensures a.0 in s.lib.forks && s.lib.forks[a.0] == Forking(b.0, a.1, Mark(true)) && b.1 == a.1
  {
    assert Shares(s.maps, a, b);
    LinkedIsReadOnly(s, a);
    assert b.0 in s.lib.maker && MakerOk(s.lib, b.0);
  }

  lemma LinkedIsReadOnly(s: Machine, k: Key)
    requires Good(s) && k in s.maps
    ensures k.1 != PFTEMP && LinkOf(s.lib, k) != None ==> W !in s.maps[k].flags
  {
    if k.0 in s.lib.maker {
      assert MakerOk(s.lib, k.0) && SpotOk(s, s.lib.maker[k.0]);
    }
  }

  /**
   * Why the child is mapped first: had duppage re-marked the parent's page before
   * mapping the child's, one store by the parent in between would leave the two
   * sharing a frame that the parent can store to.
   */
  lemma ReversedOrderShares(maps: map<Key, Entry>, p: Key, c: Key, unused: nat)
    requires p in maps && c !in maps && p != c && forall k | k in maps :: maps[k].frame != unused
    ensures var remarked := maps[p := Entry(maps[p].frame, CW)];
            var faulted := remarked[p := Entry(unused, RW)];          // what pgfault makes of the parent's page
            var mapped := faulted[c := Entry(faulted[p].frame, CW)];
            Shares(mapped, p, c)
  {
  }

  // ------------------------------------------------------------- the machine

  // What the page calls of the kernel do to one map of all address spaces.  The calls of
  // AddressSpaces below do this, and module KernelSpaces shows it of the kernel's own.

  ghost predicate AllocOutcome(maps: map<Key, Entry>, r: Error, maps': map<Key, Entry>, e: nat, v: nat, perm: Perm) {
    && (r == Inval <==> v >= USER_PAGES || !({U, P} <= perm <= PTE_SYSCALL))
    && (r == OK || r == Inval || r == NoMem) && (r != OK ==> maps' == maps)
    && (r == OK ==> exists f: nat {:trigger Entry(f, perm)} ::
          (forall k | k in maps :: maps[k].frame != f) && maps' == maps[(e, v) := Entry(f, perm)])
  }

  ghost predicate MapOutcome(maps: map<Key, Entry>, r: Error, maps': map<Key, Entry>, src: Key, dst: Key, perm: Perm) {
    && (r == Inval <==>
          || src.1 >= USER_PAGES || dst.1 >= USER_PAGES || !({U, P} <= perm <= PTE_SYSCALL)
          || src !in maps || (W in perm && W !in maps[src].flags))
    && (r == OK || r == Inval || r == NoMem) && (r != OK ==> maps' == maps)
    && (r == OK ==> src in maps && maps' == maps[dst := Entry(maps[src].frame, perm)])
  }

  ghost predicate UnmapOutcome(maps: map<Key, Entry>, r: Error, maps': map<Key, Entry>, e: nat, v: nat) {
    && r == (if v >= USER_PAGES then Inval else OK)
    && maps' == if r == OK then maps - {(e, v)} else maps
  }

  /** Where fork is about to make a system call that needs memory. */
  predicate CallsKernel(f: Forking) {
    f.spot.Dup? || f.spot.Mark? || (f.spot == Look && f.pn >= USER_PAGES)
  }

  /** The move makes a system call that needs memory, for a page or for a table. */
  predicate NeedsMemory(lib: Lib, mv: Move) {
    || mv.act.Alloc?
    || (mv.act.Go? && if mv.e in lib.faults then lib.faults[mv.e].stage in {GetPage, MapPage}
                      else mv.e in lib.forks && CallsKernel(lib.forks[mv.e]))
  }

  /** One move more. */
  function Longer(t: Trace, m: Eager, lib: Lib, mv: Move, ev: Event): Trace {
    Trace(t.ms + [m], t.libs + [lib], t.moves + [mv], t.events + [ev])
  }

  lemma LongerIsRun(t: Trace, m: Eager, lib: Lib, mv: Move, ev: Event)
    requires IsRun(t) && Spec(t.ms[|t.moves|], t.libs[|t.moves|], mv, ev, lib) && m == Apply(t.ms[|t.moves|], ev)
    ensures IsRun(Longer(t, m, lib, mv, ev))
  {
    var t' := Longer(t, m, lib, mv, ev);
    forall k: nat | k < |t'.moves| ensures StepAt(t', k) {
      if k < |t.moves| {
        assert StepAt(t, k);
      }
    }
  }

  class AddressSpaces {
    var maps: map<Key, Entry>          // what the page tables say
    var frames: map<nat, Page>         // the contents of the frames
    var lib: Lib                       // the environments, and where each is in the library code
    ghost var t: Trace                 // the run so far

    /** One environment, with nothing mapped. */
    constructor (e: nat)
      ensures Valid() && maps == map[] && lib == Lib({e}, map[], map[], map[])
    {
      maps, frames, lib := map[], map[], Lib({e}, map[], map[], map[]);
      t := Trace([Eager(map[], {})], [Lib({e}, map[], map[], map[])], [], []);
      new;
      assert Seen() == Eager(map[], {});
    }

    function State(): Machine
      reads this
    {
      Machine(maps, frames, lib)
    }

    ghost function Seen(): Eager
      reads this
    {
      Abs(State())
    }

    ghost predicate Valid()
      reads this
    {
      Good(State()) && IsRun(t) && t.ms[|t.moves|] == Seen() && t.libs[|t.moves|] == lib
    }

    // ------------------------------------------------------- the system calls

    /** A frame that no page maps. */
    method FreshFrame() returns (f: nat)
      ensures Unused(State(), f)
    {
      f := 0;
      var used := set k | k in maps :: maps[k].frame;
      ghost var rest := used;
      while f in used
        invariant forall g | g in used && g >= f :: g in rest
        decreases rest
      {
        rest := rest - {f};
        f := f + 1;
      }
      assert forall k | k in maps :: maps[k].frame in used;
    }

    /** sys_page_alloc: fails only for a bad argument or for want of memory, for the page or for a table. */
    method SysPageAlloc(e: nat, v: nat, perm: Perm, short: bool) returns (r: Error, ghost f: nat)
      modifies `maps, `frames
      ensures AllocOutcome(old(maps), r, maps, e, v, perm)
      ensures r == NoMem <==> r != Inval && short
      ensures r != OK ==> frames == old(frames)
      ensures r == OK ==> old(Unused(State(), f)) && maps == old(maps)[(e, v) := Entry(f, perm)] && frames == old(frames)[f := ZeroPage()]
      ensures r == OK ==> f in frames && forall i | 0 <= i < PGSIZE :: frames[f][i] == 0
    {
      f := 0;
      if v >= USER_PAGES || !({U, P} <= perm <= PTE_SYSCALL) {
        return Inval, f;
      }
      if short {
        return NoMem, f;
      }
      var g := FreshFrame();
      f := g;
      maps, frames := maps[(e, v) := Entry(g, perm)], frames[g := ZeroPage()];
      return OK, f;
    }

    /** sys_page_map: fails only for a bad argument, a missing or read-only source, or for want of a table. */
    method SysPageMap(srcenv: nat, srcv: nat, dstenv: nat, dstv: nat, perm: Perm, short: bool) returns (r: Error)
      modifies `maps
      ensures MapOutcome(old(maps), r, maps, (srcenv, srcv), (dstenv, dstv), perm)
      ensures r == NoMem <==> r != Inval && short
    {
      if srcv >= USER_PAGES || dstv >= USER_PAGES || !({U, P} <= perm <= PTE_SYSCALL) {
        return Inval;
      }
      if (srcenv, srcv) !in maps {
        return Inval;
      }
      if W in perm && W !in maps[(srcenv, srcv)].flags {
        return Inval;
      }
      if short {
        return NoMem;
      }
      maps := maps[(dstenv, dstv) := Entry(maps[(srcenv, srcv)].frame, perm)];
      return OK;
    }

    /** sys_page_unmap. */
    method SysPageUnmap(e: nat, v: nat) returns (r: Error)
      modifies `maps
      ensures UnmapOutcome(old(maps), r, maps, e, v)
    {
      if v >= USER_PAGES {
        return Inval;
      }
      maps := maps - {(e, v)};
      return OK;
    }

    // ---------------------------------------------------------- the library

    /**
     * A program's store.  If the page is copy-on-write the page-fault handler is entered; a
     * store to a page that is not the program's to change ends that program and has no effect.
     */
    method StoreByte(e: nat, v: nat, off: nat, byte: Byte) returns (ghost ev: Event)
      requires Good(State()) && e in lib.envs && e !in lib.maker && e !in lib.faults
      modifies `frames, `lib
      ensures Good(State()) && Seen() == Apply(old(Seen()), ev)
      ensures var faults := off < PGSIZE && (e, v) in maps && W !in maps[(e, v)].flags && COW in maps[(e, v)].flags;
              && (faults ==> ev == Quiet && (e, v) in old(Seen()).mutable && lib == SetFault(old(lib), e, v, Some(GetPage)))
              && (!faults ==> ev == Stored(e, v, off, byte) && lib == old(lib))
    {
      if off >= PGSIZE || (e, v) !in maps {
        return Stored(e, v, off, byte);
      }
      if W in maps[(e, v)].flags {
        assert PageOk(State(), (e, v));
        StoreInPlace(State(), e, v, off, byte);
        var f := maps[(e, v)].frame;
        frames := frames[f := frames[f][off := byte]];
        return Stored(e, v, off, byte);
      }
      if COW in maps[(e, v)].flags {
        FaultBegins(State(), e, v);
        lib := SetFault(lib, e, v, Some(GetPage));
        return Quiet;
      }
      return Stored(e, v, off, byte);
    }

    /**
     * The next step of the page-fault handler: its three system calls, and the memmove after
     * the first.  Nobody sees any of them, and only want of memory stops them.
     */
    method HandlerStep(e: nat, short: bool) returns (ok: bool)
      requires Good(State()) && e in lib.faults
      modifies `maps, `frames, `lib
      ensures ok <==> !(short && old(lib).faults[e].stage in {GetPage, MapPage})
      ensures !ok ==> State() == old(State())
      ensures Good(State()) && Seen() == old(Seen())
      ensures ok ==> lib == SetFault(old(lib), e, old(lib).faults[e].v, NextStage(old(lib).faults[e].stage))
      ensures ok && e !in lib.faults ==>
                (e, old(lib).faults[e].v) in maps && W in maps[(e, old(lib).faults[e].v)].flags
    {
      ghost var s := State();
      assert HandlerOk(s, e);
      var v := lib.faults[e].v;
      ok := true;
      match lib.faults[e].stage
      case GetPage => ok := TakePage(e, v, short);
      case Fill => CopyPage(e, v);
      case MapPage => ok := ReplacePage(e, v, short);
      case Unmap =>
        var r := SysPageUnmap(e, PFTEMP);
        lib := SetFault(lib, e, v, None);
        TempDroppedGood(s, e);
        TempDroppedUnseen(s, e);
    }

    /** The handler's first call. */
    method TakePage(e: nat, v: nat, short: bool) returns (ok: bool)
      requires Good(State()) && e in lib.faults && lib.faults[e] == Faulting(v, GetPage)
      modifies `maps, `frames, `lib
      ensures ok <==> !short
      ensures !ok ==> State() == old(State())
      ensures Good(State()) && Seen() == old(Seen())
      ensures ok ==> lib == SetFault(old(lib), e, v, Some(Fill))
    {
      ghost var s := State();
      var r;
      ghost var f;
      r, f := SysPageAlloc(e, PFTEMP, RW, short);
      ok := r == OK;
      if ok {
        lib := SetFault(lib, e, v, Some(Fill));
        TempGivenGood(s, e, f);
        TempGivenUnseen(s, e, f);
      }
    }

    /** The handler's memmove. */
    method CopyPage(e: nat, v: nat)
      requires Good(State()) && e in lib.faults && lib.faults[e] == Faulting(v, Fill)
      modifies `frames, `lib
      ensures Good(State()) && Seen() == old(Seen()) && lib == SetFault(old(lib), e, v, Some(MapPage))
    {
      ghost var s := State();
      assert HandlerOk(s, e) && PageOk(s, (e, v));
      frames := frames[maps[(e, PFTEMP)].frame := frames[maps[(e, v)].frame]];
      lib := SetFault(lib, e, v, Some(MapPage));
      assert State() == TempFilled(s, e);
      TempFilledGood(s, e);
      TempFilledUnseen(s, e);
    }

    /** The handler's second call. */
    method ReplacePage(e: nat, v: nat, short: bool) returns (ok: bool)
      requires Good(State()) && e in lib.faults && lib.faults[e] == Faulting(v, MapPage)
      modifies `maps, `lib
      ensures ok <==> !short
      ensures !ok ==> State() == old(State())
      ensures Good(State()) && Seen() == old(Seen())
      ensures ok ==> lib == SetFault(old(lib), e, v, Some(Unmap))
    {
      ghost var s := State();
      assert HandlerOk(s, e) && PageOk(s, (e, v));
      var r := SysPageMap(e, PFTEMP, e, v, RW, short);
      ok := r == OK;
      if ok {
        lib := SetFault(lib, e, v, Some(Unmap));
        PageReplacedGood(s, e);
        PageReplacedUnseen(s, e);
      }
    }

    /** duppage's first call: the child's page, copy-on-write if the parent's may be stored to. */
    method DupChild(e: nat, short: bool) returns (ok: bool, ghost ev: Event)
      requires Good(State()) && e in lib.forks && e !in lib.faults && lib.forks[e].spot.Dup?
      modifies `maps, `lib
      ensures ok <==> !short
      ensures !ok ==> State() == old(State())
      ensures Good(State()) && (ok ==> ForkSpec(old(Seen()), old(lib), e, ev, lib) && Seen() == Apply(old(Seen()), ev))
    {
      ghost var s := State();
      var f := lib.forks[e];
      ev := Quiet;
      ChildMappedGood(s, e);
      ChildMappedSeen(s, e);
      assert ForkOk(lib, e);
      var pte := maps[(e, f.pn)];
      var r := SysPageMap(e, f.pn, f.child, f.pn, if f.spot.cow then CW else RO, short);
      ok := r == OK;
      if ok {
        lib := SetFork(lib, e, if f.spot.cow then f.(spot := Mark(W in pte.flags)) else NextPage(f));
        ev := if lib.forks[e].spot == Mark(true) then Quiet else Copied(e, f.child, f.pn);
      }
    }

    /** duppage's second call: the parent's page becomes copy-on-write, too. */
    method DupParent(e: nat, short: bool) returns (ok: bool, ghost ev: Event)
      requires Good(State()) && e in lib.forks && e !in lib.faults && lib.forks[e].spot.Mark?
      modifies `maps, `lib
      ensures ok <==> !short
      ensures !ok ==> State() == old(State())
      ensures Good(State()) && (ok ==> ForkSpec(old(Seen()), old(lib), e, ev, lib) && Seen() == Apply(old(Seen()), ev))
    {
      ghost var s := State();
      var f := lib.forks[e];
      ev := Quiet;
      assert SpotOk(s, e) && ForkOk(lib, e);
      assert f.pn < USER_PAGES by { assert PageOk(s, (e, f.pn)); }
      var r := SysPageMap(e, f.pn, e, f.pn, CW, short);
      ok := r == OK;
      if !ok {
        assert State() == s;
        return;
      }
      lib := SetFork(lib, e, NextPage(f));
      ev := if f.spot.linked then Copied(e, f.child, f.pn) else Quiet;
      assert State() == ParentMarked(s, e);
      ParentMarkedGood(s, e);
      ParentMarkedSeen(s, e);
    }

    /** The head of fork's loop: a page that is not there, or is the exception stack, is passed over. */
    method LoopHead(e: nat)
      requires Good(State()) && e in lib.forks && e !in lib.faults && lib.forks[e].spot == Look && lib.forks[e].pn < USER_PAGES
      modifies `lib
      ensures Good(State()) && Seen() == old(Seen()) && ForkSpec(old(Seen()), old(lib), e, Quiet, lib)
    {
      var f := lib.forks[e];
      var p := (e, f.pn);
      ghost var s := State();
      assert ForkOk(lib, e);
      if p in maps {
        assert PageOk(s, p);
        RunnerSees(s, e, f.pn);
      }
      var f' := if p !in maps || f.pn == UXSTACK then NextPage(f) else f.(spot := Dup(W in maps[p].flags || COW in maps[p].flags));
      LoopLooks(s, e, f');
      lib := SetFork(lib, e, f');
    }

    /** After the loop: the child's exception stack. */
    method GiveStack(e: nat, short: bool) returns (ok: bool)
      requires Good(State()) && e in lib.forks && e !in lib.faults && lib.forks[e].spot == Look && lib.forks[e].pn >= USER_PAGES
      modifies `maps, `frames, `lib
      ensures ok <==> !short
      ensures !ok ==> State() == old(State())
      ensures Good(State())
      ensures ok ==> var ev := Fresh(old(lib).forks[e].child, UXSTACK);
                     ForkSpec(old(Seen()), old(lib), e, ev, lib) && Seen() == Apply(old(Seen()), ev)
      ensures ok ==> var k := (old(lib).forks[e].child, UXSTACK);
                     k in Seen().mutable && k in Seen().bytes && forall i | 0 <= i < PGSIZE :: Seen().bytes[k][i] == 0
    {
      ghost var s := State();
      var g := lib.forks[e];
      var r;
      ghost var f;
      r, f := SysPageAlloc(g.child, UXSTACK, RW, short);
      ok := r == OK;
      if ok {
        lib := SetFork(lib, e, g.(spot := Start));
        assert State() == StackGiven(s, e, f);
        StackGivenGood(s, e, f);
        StackGivenSeen(s, e, f);
      }
    }

    /** The next step of fork. */
    method ForkStep(e: nat, short: bool) returns (ok: bool, ghost ev: Event)
      requires Good(State()) && e in lib.forks && e !in lib.faults
      modifies `maps, `frames, `lib
      ensures ok <==> !(short && CallsKernel(old(lib).forks[e]))
      ensures !ok ==> State() == old(State())
      ensures Good(State()) && (ok ==> ForkSpec(old(Seen()), old(lib), e, ev, lib) && Seen() == Apply(old(Seen()), ev))
    {
      var f := lib.forks[e];
      ok, ev := true, Quiet;
      match f.spot
      case Look =>
        if f.pn < USER_PAGES {
          LoopHead(e);
        } else {
          ok := GiveStack(e, short);
          ev := Fresh(f.child, UXSTACK);
        }
      case Dup(_) => ok, ev := DupChild(e, short);
      case Mark(_) => ok, ev := DupParent(e, short);
      case Start =>
        ChildStarted(State(), e);
        lib := Started(lib, e);
    }

    /** sys_page_alloc by a program for itself. */
    method AllocPage(e: nat, v: nat, short: bool) returns (ok: bool)
      requires Good(State()) && e in lib.envs && e !in lib.maker && AtEase(lib, e) && v < USER_PAGES && v != PFTEMP
      modifies `maps, `frames
      ensures ok <==> !short
      ensures !ok ==> State() == old(State())
      ensures Good(State()) && (ok ==> Seen() == Apply(old(Seen()), Fresh(e, v)))
      ensures ok ==> (e, v) in Seen().mutable && (e, v) in Seen().bytes && forall i | 0 <= i < PGSIZE :: Seen().bytes[(e, v)][i] == 0
    {
      ghost var s := State();
      var r;
      ghost var f;
      r, f := SysPageAlloc(e, v, RW, short);
      ok := r == OK;
      if ok {
        OwnPageGiven(s, e, v, f);
        RunnerSees(s, e, v);
        PageGivenSeen(s, (e, v), f, lib);
      }
    }

    /** Any one move that is not a step of the library code. */
    method OwnMove(mv: Move) returns (ok: bool, ghost ev: Event)
      requires Good(State()) && May(lib, mv) && !mv.act.Go?
      modifies `maps, `frames, `lib
      ensures ok <==> !(mv.short && NeedsMemory(old(lib), mv))
      ensures !ok ==> State() == old(State())
      ensures Good(State()) && (ok ==> Spec(old(Seen()), old(lib), mv, ev, lib) && Seen() == Apply(old(Seen()), ev))
      ensures mv.act.Store? ==> ev == if Faults(old(State()), mv) then Quiet else Stored(mv.e, mv.act.v, mv.act.off, mv.act.byte)
    {
      ok, ev := true, Quiet;
      var e := mv.e;
      match mv.act
      case Store(v, off, byte) => ev := StoreByte(e, v, off, byte);
      case Fork(child) =>
        ForkBegun(State(), e, child);
        lib := Begun(lib, e, child);
      case Alloc(v) =>
        ok := AllocPage(e, v, mv.short);
        ev := Fresh(e, v);
      case Drop(v) =>
        OwnPageDropped(State(), e, v);
        var r := SysPageUnmap(e, v);
        ev := Dropped(e, v);
      case Exit =>
        EnvEnded(State(), e);
        maps, lib := map k | k in maps && k.0 != e :: maps[k], lib.(envs := lib.envs - {e});
        ev := Gone(e);
    }

    /** Any one move, recorded; one that cannot be made is passed over.  It fails only for want of memory. */
    method Step(mv: Move) returns (ok: bool, ghost ev: Event)
      requires Valid()
      modifies this
      ensures ok <==> !(May(old(lib), mv) && mv.short && NeedsMemory(old(lib), mv))
      ensures Valid() && (!ok ==> State() == old(State()) && t == old(t))
      ensures ok ==> Spec(old(Seen()), old(lib), mv, ev, lib) && Seen() == Apply(old(Seen()), ev)
      ensures ok ==> t == Longer(old(t), Seen(), lib, mv, ev)
      ensures May(old(lib), mv) && mv.act.Store? ==>
                ev == if Faults(old(State()), mv) then Quiet else Stored(mv.e, mv.act.v, mv.act.off, mv.act.byte)
      ensures ok && mv.act.Go? && mv.e in old(lib).faults && mv.e !in lib.faults ==>
                (mv.e, old(lib).faults[mv.e].v) in maps && W in maps[(mv.e, old(lib).faults[mv.e].v)].flags
    {
      ok, ev := true, Quiet;
      if May(lib, mv) {
        if !mv.act.Go? {
          ok, ev := OwnMove(mv);
        } else if mv.e in lib.faults {
          ok := HandlerStep(mv.e, mv.short);
        } else {
          ok, ev := ForkStep(mv.e, mv.short);
        }
      }
      if ok {
        LongerIsRun(t, Seen(), lib, mv, ev);
        t := Longer(t, Seen(), lib, mv, ev);
      }
    }

    /**
     * Any run of a tree of programs, at the granularity of their system calls: it is a run
     * of the specification in which fork copies every page, so what ForkIsEager says of such
     * runs holds of it.  It ends early only at a call that needs memory and gets none.
     */
    method Run(moves: seq<Move>) returns (done: nat)
      requires Valid()
      modifies this
      ensures Valid() && done <= |moves| && t.moves == old(t).moves + moves[..done]
      ensures old(t).ms <= t.ms && old(t).libs <= t.libs && old(t).events <= t.events
      ensures done < |moves| ==> May(lib, moves[done]) && moves[done].short && NeedsMemory(lib, moves[done])
    {
      done := 0;
      while done < |moves|
        invariant Valid() && done <= |moves| && t.moves == old(t).moves + moves[..done]
        invariant old(t).ms <= t.ms && old(t).libs <= t.libs && old(t).events <= t.events
      {
        var ok;
        ghost var ev;
        ok, ev := Step(moves[done]);
        if !ok {
          return;
        }
        assert moves[..done + 1] == moves[..done] + [moves[done]];
        done := done + 1;
      }
    }

    /**
     * A store and whatever it takes, if nobody else moves: the fault, the handler's steps,
     * and the store again.  It is seen exactly, and fails iff the handler gets no memory.
     */
    method StoreAlone(e: nat, v: nat, off: nat, byte: Byte, short: bool) returns (ok: bool)
      requires Valid() && e in lib.envs && e !in lib.maker && e !in lib.faults
      modifies this
      ensures Valid()
      ensures ok <==> !(short && Faults(old(State()), Move(e, Store(v, off, byte), short)))
      ensures ok ==> Seen() == Apply(old(Seen()), Stored(e, v, off, byte)) && lib == old(lib)
      ensures ok && (e, v) in old(Seen()).mutable && off < PGSIZE ==>
                (e, v) in Seen().bytes && Seen().bytes == old(Seen()).bytes[(e, v) := old(Seen()).bytes[(e, v)][off := byte]]
    {
      RunOk(t, |t.moves|);
      if (e, v) in Seen().mutable && off < PGSIZE {
        StoreChangesByte(Seen(), e, v, off, byte);
      }
      ok := StoreTwice(e, v, off, byte, short);
    }

    /** The store, and if it faults the handler's steps and the store again. */
    method StoreTwice(e: nat, v: nat, off: nat, byte: Byte, short: bool) returns (ok: bool)
      requires Valid() && e in lib.envs && e !in lib.maker && e !in lib.faults
      modifies this
      ensures Valid()
      ensures ok <==> !(short && Faults(old(State()), Move(e, Store(v, off, byte), short)))
      ensures ok ==> Seen() == Apply(old(Seen()), Stored(e, v, off, byte)) && lib == old(lib)
    {
      var store := Move(e, Store(v, off, byte), short);
      ghost var ev;
      ok, ev := Step(store);
      if e in lib.faults {
        ok := FinishFault(old(lib), e, v, short);
        if ok {
          ok, ev := Step(store);
        }
      }
    }

    /**
     * fork, if nobody else moves and there is memory: the child runs, and is an exact copy
     * of the parent but for its exception stack, which reads as zeros.  Nothing of anybody
     * else has changed.
     */
    method ForkAlone(e: nat, child: nat)
      requires Valid() && e in lib.envs && e !in lib.maker && e !in lib.forks && e !in lib.faults && child !in lib.envs
      modifies this
      ensures Valid() && lib == old(lib).(envs := old(lib).envs + {child})
      ensures forall v: nat {:trigger (child, v)} | v != UXSTACK ::
                && ((child, v) in Seen().bytes <==> (e, v) in old(Seen()).bytes)
                && ((child, v) in Seen().mutable <==> (e, v) in old(Seen()).mutable)
                && ((child, v) in Seen().bytes ==> Seen().bytes[(child, v)] == old(Seen()).bytes[(e, v)])
      ensures (child, UXSTACK) in Seen().mutable && (child, UXSTACK) in Seen().bytes
      ensures forall i | 0 <= i < PGSIZE :: Seen().bytes[(child, UXSTACK)][i] == 0
      ensures OnlyPagesOf(old(Seen()), Seen(), child)
    {
      ghost var i, m0, lib0, t1 := |t.moves|, Seen(), lib, t;
      assert child !in lib0.maker by { assert child in lib0.maker ==> MakerOk(lib0, child); }
      var ok;
      ghost var ev;
      ok, ev := Step(Move(e, Fork(child), false));
      AloneBegins(t1, t, Seen(), lib, ev, e, child);
      while !lib.forks[e].spot.Start?
        invariant Valid() && AloneSoFar(t, i, m0, lib0, e, child)
        decreases StepsLeft(lib.forks[e])
      {
        ghost var t0 := t;
        ok, ev := Step(Move(e, Go, false));
        AloneNext(t0, t, Seen(), lib, ev, i, m0, lib0, e, child);
      }
      AloneEnds(t, i, m0, lib0, e, child);
      ghost var m1, lib1 := Seen(), lib;
      ok, ev := Step(Move(e, Go, false));
      ChildStarts(m1, lib1, ev, lib, e, child);
      assert Seen() == m1;
    }

    /** The handler's steps, one after the other. */
    method FinishFault(ghost lib0: Lib, e: nat, v: nat, short: bool) returns (ok: bool)
      requires Valid() && InHandler(lib, lib0, e, v) && lib.faults[e].stage == GetPage
      modifies this
      ensures Valid() && (ok <==> !short)
      ensures ok ==> lib == lib0 && Seen() == old(Seen()) && (e, v) in maps && W in maps[(e, v)].flags
    {
      ok := true;
      while e in lib.faults
        invariant Valid() && ok && Seen() == old(Seen())
        invariant if e in lib.faults then InHandler(lib, lib0, e, v) else lib == lib0 && (e, v) in maps && W in maps[(e, v)].flags
        invariant e !in lib.faults || lib.faults[e].stage != GetPage ==> !short
        decreases StagesLeft(lib, e)
      {
        ok := FaultTurn(lib0, e, v, short);
        if !ok {
          return;
        }
      }
    }

    method FaultTurn(ghost lib0: Lib, e: nat, v: nat, short: bool) returns (ok: bool)
      requires Valid() && InHandler(lib, lib0, e, v)
      modifies this
      ensures Valid() && (ok <==> !(short && old(lib).faults[e].stage in {GetPage, MapPage}))
      ensures ok ==> Seen() == old(Seen()) && StagesLeft(lib, e) < StagesLeft(old(lib), e)
      ensures ok ==> if e in lib.faults then InHandler(lib, lib0, e, v) && lib.faults[e].stage != GetPage
                     else lib == lib0 && (e, v) in maps && W in maps[(e, v)].flags
    {
      ghost var stage := lib.faults[e].stage;
      ghost var ev;
      ok, ev := Step(Move(e, Go, short));
      NextOf(lib0, e, v, stage);
    }
  }

  /** From m to m' only pages of this environment have changed. */
  ghost predicate OnlyPagesOf(m: Eager, m': Eager, child: nat) {
    forall k: Key {:trigger k in m'.bytes} {:trigger k in m'.mutable} | k.0 != child ::
      && (k in m'.bytes <==> k in m.bytes) && (k in m'.mutable <==> k in m.mutable)
      && (k in m.bytes ==> m'.bytes[k] == m.bytes[k])
  }

  /** e is in the handler for page v, and otherwise everybody is as in lib0. */
  ghost predicate InHandler(lib: Lib, lib0: Lib, e: nat, v: nat) {
    && e !in lib0.faults && e in lib0.envs && e !in lib0.maker && e in lib.faults
    && lib == SetFault(lib0, e, v, Some(lib.faults[e].stage))
  }

  lemma NextOf(lib0: Lib, e: nat, v: nat, stage: Stage)
    requires e !in lib0.faults
    ensures SetFault(SetFault(lib0, e, v, Some(stage)), e, v, NextStage(stage)) ==
            if stage == Unmap then lib0 else SetFault(lib0, e, v, NextStage(stage))
  {
    var lib := SetFault(lib0, e, v, Some(stage));
    assert SetFault(lib, e, v, None).faults == lib0.faults;
    if stage != Unmap {
      assert lib.faults[e := Faulting(v, NextStage(stage).value)] == lib0.faults[e := Faulting(v, NextStage(stage).value)];
    }
  }

  function StagesLeft(lib: Lib, e: nat): nat {
    if e !in lib.faults then 0
    else match lib.faults[e].stage
      case GetPage => 4
      case Fill => 3
      case MapPage => 2
      case Unmap => 1
  }

  /** The store enters the page-fault handler. */
  predicate Faults(s: Machine, mv: Move) {
    && mv.act.Store? && mv.act.off < PGSIZE && (mv.e, mv.act.v) in s.maps
    && W !in s.maps[(mv.e, mv.act.v)].flags && COW in s.maps[(mv.e, mv.act.v)].flags
  }

  // ------------------------------------------------------------- forks end

  /** How many of its own steps a fork has before it, at most. */
  function StepsLeft(f: Forking): int {
    3 * (USER_PAGES - f.pn) + match f.spot
                              case Look => 2
                              case Dup(_) => 1
                              case Mark(_) => 0
                              case Start => 1
  }

  /** How many of the moves i to j - 1 are steps of e's fork. */
  ghost function OwnSteps(t: Trace, e: nat, i: nat, j: nat): nat
    requires i <= j <= |t.moves| && |t.libs| == |t.moves| + 1
  {
    if i == j then 0
    else OwnSteps(t, e, i, j - 1) +
         if t.moves[j - 1].e == e && t.moves[j - 1].act.Go? && e !in t.libs[j - 1].faults then 1 else 0
  }

  /** A fork ends after fewer than 3 * (USER_PAGES + 1) steps of its own, whatever runs between them. */
  lemma {:induction false} ForkEnds(t: Trace, i: nat, j: nat, e: nat, child: nat)
    requires IsRun(t) && ForkFrom(t, i, j, e, child)
    ensures InFork(t, j, e, child) && OwnSteps(t, e, i + 1, j) + StepsLeft(t.libs[j].forks[e]) <= 3 * USER_PAGES + 2
    ensures StepsLeft(t.libs[j].forks[e]) > 0
    decreases j
  {
    assert InFork(t, j, e, child) && StepAt(t, j - 1);
    RunOk(t, j);
    RunOk(t, j - 1);
    assert ForkOk(t.libs[j], e);
    if j > i + 1 {
      assert InFork(t, j - 1, e, child);
      ForkEnds(t, i, j - 1, e, child);
      StepTaken(t.ms[j - 1], t.libs[j - 1], t.moves[j - 1], t.events[j - 1], t.libs[j], e);
    }
  }

  lemma StepTaken(m: Eager, lib: Lib, mv: Move, ev: Event, lib': Lib, e: nat)
    requires LibOk(lib) && Spec(m, lib, mv, ev, lib') && e in lib.forks && e in lib'.forks
    ensures if mv.e == e && mv.act.Go? && e !in lib.faults then StepsLeft(lib'.forks[e]) < StepsLeft(lib.forks[e])
            else lib'.forks[e] == lib.forks[e]
  {
    assert ForkOk(lib, e);
    if mv.e != e {
      ForkUndisturbed(m, lib, mv, ev, lib', e);
    }
  }

  /** Nothing but e's fork of the child has happened since m0 and lib0. */
  ghost predicate OnlyForks(m0: Eager, lib0: Lib, m: Eager, lib: Lib, e: nat, child: nat) {
    && e in lib.forks && lib.forks[e].child == child && e !in lib.faults && OnlyPagesOf(m0, m, child)
    && lib == lib0.(envs := lib0.envs + {child}, maker := lib0.maker[child := e], forks := lib0.forks[e := lib.forks[e]])
  }

  lemma OnlyForksNext(m0: Eager, lib0: Lib, m: Eager, lib: Lib, ev: Event, lib': Lib, e: nat, child: nat)
    requires LibOk(lib) && OnlyForks(m0, lib0, m, lib, e, child) && !lib.forks[e].spot.Start?
    requires Spec(m, lib, Move(e, Go, false), ev, lib')
    ensures OnlyForks(m0, lib0, Apply(m, ev), lib', e, child) && !ev.Stored?
    ensures 0 <= StepsLeft(lib'.forks[e]) < StepsLeft(lib.forks[e])
  {
    assert ForkOk(lib, e);
    assert ForkSpec(m, lib, e, ev, lib');
    ForkKeepsLib(m, lib, e, ev, lib');
    assert ForkOk(lib', e);
    forall k: Key | k.0 != child
      ensures k in Apply(m, ev).bytes <==> k in m0.bytes
      ensures k in Apply(m, ev).mutable <==> k in m0.mutable
      ensures k in m0.bytes ==> Apply(m, ev).bytes[k] == m0.bytes[k]
    {
      OthersStay(m, ev, k);
    }
  }

  /** From move i on, only e has moved: it is in the fork of the child. */
  ghost predicate AloneSoFar(t: Trace, i: nat, m0: Eager, lib0: Lib, e: nat, child: nat) {
    && IsRun(t) && i < |t.moves| && t.ms[i] == m0 && t.libs[i] == lib0 && ForkFrom(t, i, |t.moves|, e, child)
    && (forall k {:trigger t.events[k]} | i <= k < |t.moves| :: !t.events[k].Stored?)
    && OnlyForks(m0, lib0, t.ms[|t.moves|], t.libs[|t.moves|], e, child)
  }

  lemma AloneBegins(t: Trace, t': Trace, m: Eager, lib: Lib, ev: Event, e: nat, child: nat)
    requires IsRun(t) && IsRun(t') && t' == Longer(t, m, lib, Move(e, Fork(child), false), ev)
    requires var lib0 := t.libs[|t.moves|]; e in lib0.envs && e !in lib0.maker && AtEase(lib0, e) && child !in lib0.envs
    ensures AloneSoFar(t', |t.moves|, t.ms[|t.moves|], t.libs[|t.moves|], e, child)
  {
    var i := |t.moves|;
    assert StepAt(t', i);
    assert InFork(t', i + 1, e, child);
  }

  lemma AloneNext(t: Trace, t': Trace, m: Eager, lib: Lib, ev: Event, i: nat, m0: Eager, lib0: Lib, e: nat, child: nat)
    requires AloneSoFar(t, i, m0, lib0, e, child) && IsRun(t') && t' == Longer(t, m, lib, Move(e, Go, false), ev)
    requires !t.libs[|t.moves|].forks[e].spot.Start?
    ensures AloneSoFar(t', i, m0, lib0, e, child)
    ensures 0 <= StepsLeft(lib.forks[e]) < StepsLeft(t.libs[|t.moves|].forks[e])
  {
    var j := |t.moves|;
    RunOk(t, j);
    assert StepAt(t', j);
    OnlyForksNext(m0, lib0, t.ms[j], t.libs[j], ev, lib, e, child);
    forall k: nat | i < k <= j + 1 ensures InFork(t', k, e, child) {
      if k <= j {
        assert InFork(t, k, e, child) && t'.libs[k] == t.libs[k];
      }
    }
  }

  lemma ChildStarts(m: Eager, lib: Lib, ev: Event, lib': Lib, e: nat, child: nat)
    requires LibOk(lib) && e in lib.forks && lib.forks[e].child == child && lib.forks[e].spot.Start? && e !in lib.faults
    requires Spec(m, lib, Move(e, Go, false), ev, lib')
    ensures Apply(m, ev) == m && lib' == lib.(forks := lib.forks - {e}, maker := lib.maker - {child})
  {
    assert ForkOk(lib, e);
  }

  /** The fork is over: the child starts. */
  lemma AloneEnds(t: Trace, i: nat, m0: Eager, lib0: Lib, e: nat, child: nat)
    requires AloneSoFar(t, i, m0, lib0, e, child) && t.libs[|t.moves|].forks[e].spot.Start? && child !in lib0.maker && e !in lib0.forks
    ensures EagerForked(t, i, |t.moves|, e, child)
    ensures var lib, m := t.libs[|t.moves|], t.ms[|t.moves|];
            && lib.(forks := lib.forks - {e}, maker := lib.maker - {child}) == lib0.(envs := lib0.envs + {child})
            && forall v: nat {:trigger (child, v)} | v != UXSTACK ::
                 && ((child, v) in m.bytes <==> (e, v) in m0.bytes) && ((child, v) in m.mutable <==> (e, v) in m0.mutable)
                 && ((child, v) in m.bytes ==> m.bytes[(child, v)] == m0.bytes[(e, v)])
  {
    var j := |t.moves|;
    RunOk(t, i);
    RunOk(t, j);
    ForkIsEager(t, i, j, e, child);
    QuietForkIsCopy(t, i, j, e, child);
    assert (lib0.forks[e := t.libs[j].forks[e]]) - {e} == lib0.forks;
    assert (lib0.maker[child := e]) - {child} == lib0.maker;
  }
}
