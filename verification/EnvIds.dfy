/** kern/env.c, env_alloc: how the ids of one slot of envs[] follow each other. */
module EnvIds {
  const NENV := 1024
  const ID_LIMIT := 0x8000_0000      // envid_t is a signed 32-bit integer

  /** Position of generation n in the cycle of 2^19 - 1 generations before the wrap. */
  function InCycle(n: nat): nat { n % 524287 }

  /** The value of a 32-bit signed integer after wrap-around. */
  function Wrap32(x: int): int {
    (x + 0x8000_0000) % 0x1_0000_0000 - 0x8000_0000
  }

  /** The id env_alloc gives slot e, whose last id was `id`. */
  function NextId(id: int, e: nat): int {
    var bumped := Wrap32(id + 4096);
    var generation := bumped - bumped % 1024;
    (if generation <= 0 then 4096 else generation) + e
  }

  /** The id of slot e after its n-th allocation since env_init. */
  function NthId(e: nat, n: nat): int {
    if n == 0 then 0 else NextId(NthId(e, n - 1), e)
  }

  lemma NextIdInCycle(k: nat, e: nat)
    requires k < 524287 && e < NENV
    ensures NextId(4096 * (1 + k) + e, e) == 4096 * (1 + if k == 524286 then 0 else k + 1) + e
  {
    var bumped := 4096 * (2 + k) + e;
    if k == 524286 {
      assert Wrap32(bumped) == bumped - 0x1_0000_0000 <= 0;
    } else {
      assert Wrap32(bumped) == bumped && bumped % 1024 == e;
    }
  }

  lemma NextInCycle(n: nat)
    ensures InCycle(n + 1) == if InCycle(n) == 524286 then 0 else InCycle(n) + 1
  {
  }

  /** Ids of a slot run through 2^19 - 1 multiples of 4096, in order, over and over. */
  lemma {:induction false} NthIdClosed(e: nat, n: nat)
    requires e < NENV && n > 0
    ensures NthId(e, n) == 4096 * (1 + InCycle(n - 1)) + e
  {
    if n > 1 {
      NthIdClosed(e, n - 1);
      NextIdInCycle(InCycle(n - 2), e);
      NextInCycle(n - 2);
    } else {
      assert NthId(e, 0) == 0 && Wrap32(4096) == 4096;
    }
  }

  /** Every issued id is positive, fits in envid_t, and carries its slot in the low ten bits. */
  lemma IssuedIdIsWellFormed(e: nat, n: nat)
    requires e < NENV && n > 0
    ensures 0 < NthId(e, n) < ID_LIMIT && NthId(e, n) % NENV == e
  {
    NthIdClosed(e, n);
  }

  lemma SamePositionIff(x: nat, y: nat)
    requires x <= y
    ensures InCycle(x) == InCycle(y) <==> InCycle(y - x) == 0
  {
    var qx, qy, q := x / 524287, y / 524287, (y - x) / 524287;
    assert x == 524287 * qx + InCycle(x) && y == 524287 * qy + InCycle(y);
    assert y - x == 524287 * q + InCycle(y - x);
  }

  /** An id of a slot comes back exactly after a multiple of 2^19 - 1 further allocations of that slot. */
  lemma IdReusedIff(e: nat, n: nat, m: nat)
    requires e < NENV && 0 < n <= m
    ensures NthId(e, n) == NthId(e, m) <==> InCycle(m - n) == 0
  {
    NthIdClosed(e, n);
    NthIdClosed(e, m);
    SamePositionIff(n - 1, m - 1);
  }

  /** Two slots never share an id. */
  lemma IdsOfSlotsDiffer(e: nat, n: nat, e': nat, m: nat)
    requires e < NENV && e' < NENV && 0 < n && 0 < m && e != e'
    ensures NthId(e, n) != NthId(e', m)
  {
    IssuedIdIsWellFormed(e, n);
    IssuedIdIsWellFormed(e', m);
  }
}
