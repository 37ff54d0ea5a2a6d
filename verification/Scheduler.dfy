/**
 * kern/sched.c: the round-robin choice of sched_yield, for one CPU.
 */
module Scheduler {
  import opened Basics

  type Table = t: seq<Status> | |t| == 1024 witness seq(1024, _ => Free)

  /** The first RUNNABLE slot of the n slots from id on, in circular order. */
  function Scan(t: Table, id: nat, n: nat): (r: int)
    requires id < 1024
    ensures -1 <= r < 1024 && (r >= 0 ==> t[r] == Runnable)
    decreases n
  {
    if n == 0 then -1
    else if t[id] == Runnable then id
    else Scan(t, (id + 1) % 1024, n - 1)
  }

  /** What sched_yield's search finds, starting just after slot cur; -1 if nothing is RUNNABLE. */
  function Choose(t: Table, cur: nat): int
    requires cur < 1024
  {
    Scan(t, (cur + 1) % 1024, 1024)
  }

  /** How many slots the search passes on its way from just after cur to e. */
  function Distance(cur: nat, e: nat): nat
    requires cur < 1024 && e < 1024
  {
    (e + 1023 - cur) % 1024
  }

  /** How many slots the search passes on its way from id to e. */
  function Ahead(id: nat, e: nat): nat
    requires id < 1024 && e < 1024
  {
    (e + 1024 - id) % 1024
  }

  lemma AheadNext(id: nat, e: nat)
    requires id < 1024 && e < 1024
    ensures Ahead(id, e) == if Ahead((id + 1) % 1024, e) == 1023 then 0 else Ahead((id + 1) % 1024, e) + 1
    ensures e == id <==> Ahead(id, e) == 0
  {
  }

  lemma {:induction false} ScanFirst(t: Table, id: nat, n: nat, e: nat)
    requires id < 1024 && e < 1024 && t[e] == Runnable && Ahead(id, e) < n
    ensures var r := Scan(t, id, n); r >= 0 && Ahead(id, r) <= Ahead(id, e)
    decreases n
  {
    AheadNext(id, e);
    if t[id] != Runnable {
      ScanFirst(t, (id + 1) % 1024, n - 1, e);
      AheadNext(id, Scan(t, (id + 1) % 1024, n - 1));
    } else {
      AheadNext(id, id);
    }
  }

  lemma FromNext(cur: nat, e: nat)
    requires cur < 1024 && e < 1024
    ensures Ahead((cur + 1) % 1024, e) == Distance(cur, e)
  {
  }

  lemma Nearer(cur: nat, j: nat, e: nat)
    requires cur < 1024 && j < 1024 && e < 1024 && Distance(cur, j) <= Distance(cur, e) && j != e
    ensures Distance(j, e) < Distance(cur, e)
  {
  }

  /**
   * While e is RUNNABLE, the search finds e or a RUNNABLE slot nearer than e; from there,
   * e is nearer than it was.
   */
  lemma CloserEachTime(t: Table, cur: nat, e: nat)
    requires cur < 1024 && e < 1024 && t[e] == Runnable
    ensures var j := Choose(t, cur);
            j >= 0 && t[j] == Runnable && Distance(cur, j) <= Distance(cur, e)
            && (j != e ==> Distance(j, e) < Distance(cur, e))
  {
    ScanFirst(t, (cur + 1) % 1024, 1024, e);
    var j := Choose(t, cur);
    FromNext(cur, e);
    FromNext(cur, j);
    if j != e {
      Nearer(cur, j, e);
    }
  }

  /** The search finds nothing iff nothing is RUNNABLE. */
  lemma NothingIffNone(t: Table, cur: nat)
    requires cur < 1024
    ensures Choose(t, cur) < 0 <==> forall e | 0 <= e < 1024 :: t[e] != Runnable
  {
    if e :| 0 <= e < 1024 && t[e] == Runnable {
      CloserEachTime(t, cur, e);
    }
  }

  lemma DistanceTells(cur: nat, i: nat, j: nat)
    requires cur < 1024 && i < 1024 && j < 1024 && Distance(cur, i) == Distance(cur, j)
    ensures i == j
  {
  }

  /** Making the slot that the search starts after RUNNABLE does not change the choice, if there is another one. */
  lemma OwnIsLast(t: Table, cur: nat, e: nat)
    requires cur < 1024 && e < 1024 && e != cur && t[e] == Runnable && t[cur] != Runnable
    ensures Choose(t[cur := Runnable], cur) == Choose(t, cur)
  {
    var t1: Table := t[cur := Runnable];
    CloserEachTime(t, cur, e);
    CloserEachTime(t1, cur, e);
    var j, j1 := Choose(t, cur), Choose(t1, cur);
    assert Distance(cur, cur) == 1023;
    if j1 == cur {
      DistanceTells(cur, e, cur);
    }
    CloserEachTime(t, cur, j1);
    CloserEachTime(t1, cur, j);
    DistanceTells(cur, j, j1);
  }

  /** A single RUNNABLE slot is the one chosen. */
  lemma OnlyChoice(t: Table, cur: nat, e: nat)
    requires cur < 1024 && e < 1024 && t[e] == Runnable && forall x | 0 <= x < 1024 && x != e :: t[x] != Runnable
    ensures Choose(t, cur) == e
  {
    CloserEachTime(t, cur, e);
  }

  /** Successive choices of one CPU; other CPUs may change the table in between. */
  ghost predicate Choices(tables: seq<Table>, curs: seq<int>) {
    && |curs| == |tables| + 1
    && (forall k | 0 <= k < |curs| :: 0 <= curs[k] < 1024)
    && forall k {:trigger tables[k]} | 0 <= k < |tables| :: curs[k + 1] == Choose(tables[k], curs[k])
  }

  /**
   * Round robin: an environment that stays RUNNABLE is chosen after fewer than NENV other
   * choices, whatever happens to the other environments.
   */
  lemma {:induction false} ChosenInTime(tables: seq<Table>, curs: seq<int>, e: nat)
    requires Choices(tables, curs) && e < 1024 && (forall k | 0 <= k < |tables| :: tables[k][e] == Runnable)
    requires |tables| > Distance(curs[0], e)
    ensures exists k :: 0 < k <= Distance(curs[0], e) + 1 && curs[k] == e
    decreases Distance(curs[0], e)
  {
    CloserEachTime(tables[0], curs[0], e);
    if curs[1] == e {
    } else {
      forall k | 0 <= k < |tables[1..]| ensures curs[1..][k + 1] == Choose(tables[1..][k], curs[1..][k]) {
        assert tables[1..][k] == tables[k + 1];
      }
      ChosenInTime(tables[1..], curs[1..], e);
      var k :| 0 < k <= Distance(curs[1], e) + 1 && curs[1..][k] == e;
      assert curs[k + 1] == e;
    }
  }

  /** The loop of sched_yield. */
  method SchedYield(t: Table, curenv: int) returns (chosen: int)
    requires -1 <= curenv < 1024
    ensures chosen == Choose(t, if curenv >= 0 then curenv else 0)
    ensures chosen < 0 <==> forall e | 0 <= e < 1024 :: t[e] != Runnable
  {
    var current := if curenv >= 0 then curenv else 0;
    NothingIffNone(t, current);
    var id := (current + 1) % 1024;
    for i := 0 to 1024
      invariant 0 <= id < 1024 && Choose(t, current) == Scan(t, id, 1024 - i)
    {
      if t[id] == Runnable {
        return id;
      }
      id := id + 1;
      id := id % 1024;
    }
    return -1;
  }
}
