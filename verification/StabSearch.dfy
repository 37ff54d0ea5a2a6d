/**
 * kern/kdebug.c: stab_binsearch, a binary search over a table in which entries of
 * several types are interleaved and only those of one type are in order.
 */
module StabSearch {
  const WORD := 0x1_0000_0000

  type Address = a: int | 0 <= a < 0x1_0000_0000

  datatype Stab = Stab(kind: int, value: Address)

  // ------------------------------------------------------------ specification

  predicate Entry(s: seq<Stab>, t: int, i: int) {
    0 <= i < |s| && s[i].kind == t
  }

  /** Entries of the wanted type are in strictly increasing order in [lo, hi]. */
  ghost predicate Increasing(s: seq<Stab>, t: int, lo: int, hi: int) {
    forall i, j {:trigger Entry(s, t, i), Entry(s, t, j)} |
      lo <= i < j <= hi && Entry(s, t, i) && Entry(s, t, j) :: s[i].value < s[j].value
  }

  ghost predicate NoneIn(s: seq<Stab>, t: int, lo: int, hi: int) {
    forall i {:trigger Entry(s, t, i)} | lo <= i <= hi :: !Entry(s, t, i)
  }

  /** i is the last entry of the type in [lo, hi] with a value at most addr. */
  ghost predicate IsMatch(s: seq<Stab>, t: int, addr: int, lo: int, hi: int, i: int) {
    && lo <= i <= hi && Entry(s, t, i) && s[i].value <= addr
    && forall j {:trigger Entry(s, t, j)} | i < j <= hi && Entry(s, t, j) :: s[j].value > addr
  }

  /** i is just before the first entry of the type in [lo, hi] with a value above addr; hi if there is none. */
  ghost predicate IsBound(s: seq<Stab>, t: int, addr: int, lo: int, hi: int, i: int) {
    && lo - 1 <= i <= hi
    && (forall j {:trigger Entry(s, t, j)} | lo <= j <= i && Entry(s, t, j) :: s[j].value <= addr)
    && (i < hi ==> Entry(s, t, i + 1) && s[i + 1].value > addr)
  }

  /**
   * What the search returns.  With a match, the bracket of the address.  With no entry
   * of the type, an empty bracket.  With entries that are all above the address, a
   * bracket that is not empty, although the comment in the source says it would be.
   */
  ghost predicate Right(s: seq<Stab>, t: int, addr: int, lo: int, hi: int, left: int, right: int) {
    if NoneIn(s, t, lo, hi) then left == lo && right == lo - 1
    else
      && IsBound(s, t, addr, lo, hi, right)
      && (if exists i :: IsMatch(s, t, addr, lo, hi, i) then IsMatch(s, t, addr, lo, hi, left)
          else left == (if right < lo then right else lo))
  }

  /** No entry of the type is at addr + 1 when one is at addr; addr + 1 does not wrap then. */
  ghost predicate NoClash(s: seq<Stab>, t: int, addr: int, lo: int, hi: int) {
    forall i, j {:trigger Entry(s, t, i), Entry(s, t, j)} |
      lo <= i <= hi && lo <= j <= hi && Entry(s, t, i) && Entry(s, t, j) && s[i].value == addr ::
        s[j].value != addr + 1 && addr + 1 < 0x1_0000_0000
  }

  // ---------------------------------------------------------------- the search

  /** The last entry of the type in [l, m]; l - 1 if there is none. */
  function Down(s: seq<Stab>, t: int, l: int, m: int): (r: int)
    requires 0 <= l <= m + 1 <= |s|
    ensures l - 1 <= r <= m && (r >= l ==> Entry(s, t, r)) && NoneIn(s, t, r + 1, m)
    decreases m - l + 1
  {
    if m < l || s[m].kind == t then m else Down(s, t, l, m - 1)
  }

  datatype Search = Search(l: int, r: int, left: int, right: int, any: bool, addr: Address)

  predicate InTable(s: seq<Stab>, q: Search) { 0 <= q.l <= q.r + 1 <= |s| }

  function Probe(s: seq<Stab>, t: int, q: Search): int
    requires InTable(s, q) && q.l <= q.r
  {
    Down(s, t, q.l, (q.l + q.r) / 2)
  }

  /** One turn of the main loop. */
  function Turn(s: seq<Stab>, t: int, q: Search): (q': Search)
    requires InTable(s, q) && q.l <= q.r
    ensures InTable(s, q')
  {
    var mid := (q.l + q.r) / 2;
    var m := Probe(s, t, q);
    if m < q.l then q.(l := mid + 1)
    else if s[m].value < q.addr then q.(any := true, left := m, l := mid + 1)
    else if s[m].value > q.addr then q.(any := true, right := m - 1, r := m - 1)
    else q.(any := true, left := m, l := m, addr := (q.addr + 1) % 0x1_0000_0000)
  }

  /** The next probe hits the address exactly. */
  predicate Exact(s: seq<Stab>, t: int, q: Search)
    requires InTable(s, q)
  {
    q.l <= q.r && Probe(s, t, q) >= q.l && s[Probe(s, t, q)].value == q.addr
  }

  /**
   * Why the loop ends: an exact match may leave the interval as it is, but then the same
   * probe is no longer exact.
   */
  lemma TurnDecreases(s: seq<Stab>, t: int, q: Search)
    requires InTable(s, q) && q.l <= q.r
    ensures var q' := Turn(s, t, q);
            || q'.r - q'.l < q.r - q.l
            || (q'.r - q'.l == q.r - q.l && Exact(s, t, q) && !Exact(s, t, q'))
  {
  }

  /** The whole loop. */
  function Loop(s: seq<Stab>, t: int, q: Search): Search
    requires InTable(s, q)
    decreases q.r - q.l + 1, if Exact(s, t, q) then 1 else 0
  {
    if q.l > q.r then q
    else
      TurnDecreases(s, t, q);
      Loop(s, t, Turn(s, t, q))
  }

  /** The whole search, with the last loop that walks left from the right bound. */
  function Result(s: seq<Stab>, t: int, lo: int, hi: int, addr: Address): (int, int)
    requires 0 <= lo <= hi + 1 <= |s|
  {
    var q := Loop(s, t, Search(lo, hi, lo, hi, false, addr));
    Finish(s, t, q)
  }

  function Finish(s: seq<Stab>, t: int, q: Search): (int, int) {
    if !q.any then (q.left, q.left - 1)
    else (if 0 <= q.left <= q.right < |s| then LastOf(s, t, q.left, q.right) else q.right, q.right)
  }

  function LastOf(s: seq<Stab>, t: int, left: int, right: int): (i: int)
    requires 0 <= left <= right < |s|
    ensures left <= i <= right && (i > left ==> Entry(s, t, i)) && NoneIn(s, t, i + 1, right)
    decreases right - left
  {
    if right == left || s[right].kind == t then right else LastOf(s, t, left, right - 1)
  }

  // --------------------------------------------------------------- correctness

  /** What the loop keeps: everything before l is at most addr, everything after r above it. */
  ghost predicate Keeps(s: seq<Stab>, t: int, addr: int, lo: int, hi: int, q: Search) {
    && 0 <= lo <= q.l <= q.r + 1 <= hi + 1 <= |s| && q.right == q.r
    && (forall j {:trigger Entry(s, t, j)} | lo <= j < q.l && Entry(s, t, j) :: s[j].value <= addr)
    && (q.r < hi ==> Entry(s, t, q.r + 1) && s[q.r + 1].value > addr && q.any)
    && (if q.any then !NoneIn(s, t, lo, hi) else q.left == lo && NoneIn(s, t, lo, q.l - 1))
    && (q.left == lo || (lo <= q.left <= hi && Entry(s, t, q.left) && s[q.left].value <= addr))
    && (q.addr == addr || (q.addr == addr + 1 && exists e :: lo <= e <= hi && Entry(s, t, e) && s[e].value == addr))
  }

  lemma TurnKeeps(s: seq<Stab>, t: int, addr: int, lo: int, hi: int, q: Search)
    requires Increasing(s, t, lo, hi) && Keeps(s, t, addr, lo, hi, q) && q.l <= q.r
    requires Exact(s, t, q) ==> q.addr == addr && addr + 1 < 0x1_0000_0000
    ensures Keeps(s, t, addr, lo, hi, Turn(s, t, q))
  {
    var m := Probe(s, t, q);
    if m >= q.l {
      assert Entry(s, t, m);
    }
  }

  lemma {:induction false} LoopKeeps(s: seq<Stab>, t: int, addr: int, lo: int, hi: int, q: Search)
    requires Increasing(s, t, lo, hi) && NoClash(s, t, addr, lo, hi) && Keeps(s, t, addr, lo, hi, q)
    ensures Keeps(s, t, addr, lo, hi, Loop(s, t, q)) && Loop(s, t, q).l == Loop(s, t, q).r + 1
    decreases q.r - q.l + 1, if Exact(s, t, q) then 1 else 0
  {
    if q.l <= q.r {
      if Exact(s, t, q) { assert Entry(s, t, Probe(s, t, q)); }
      TurnKeeps(s, t, addr, lo, hi, q);
      TurnDecreases(s, t, q);
      LoopKeeps(s, t, addr, lo, hi, Turn(s, t, q));
    }
  }

  lemma FinishRight(s: seq<Stab>, t: int, addr: int, lo: int, hi: int, q: Search)
    requires Keeps(s, t, addr, lo, hi, q) && q.l == q.r + 1 && Increasing(s, t, lo, hi)
    ensures Right(s, t, addr, lo, hi, Finish(s, t, q).0, Finish(s, t, q).1)
  {
    if q.any {
      assert IsBound(s, t, addr, lo, hi, q.r);
      var left := Finish(s, t, q).0;
      if i :| IsMatch(s, t, addr, lo, hi, i) {
        MatchFound(s, t, addr, lo, hi, q, i);
      } else if q.left != lo {
        MatchExists(s, t, addr, lo, hi, q);
        assert false;
      } else if q.right >= lo && left != lo {
        assert Entry(s, t, left) && s[left].value <= addr;
        assert IsMatch(s, t, addr, lo, hi, left);
      }
    } else {
      assert NoneIn(s, t, lo, hi);
    }
  }

  /** Where there is a match, the walk left from the bound ends at it. */
  lemma MatchFound(s: seq<Stab>, t: int, addr: int, lo: int, hi: int, q: Search, i: int)
    requires Keeps(s, t, addr, lo, hi, q) && q.l == q.r + 1 && Increasing(s, t, lo, hi) && q.any
    requires IsMatch(s, t, addr, lo, hi, i)
    ensures Finish(s, t, q).0 == i
  {
    assert i <= q.r;
    assert q.left <= i;
    var left := LastOf(s, t, q.left, q.right);
  }

  lemma MatchExists(s: seq<Stab>, t: int, addr: int, lo: int, hi: int, q: Search)
    requires Keeps(s, t, addr, lo, hi, q) && q.l == q.r + 1 && Increasing(s, t, lo, hi) && q.any && q.left != lo
    ensures exists i :: IsMatch(s, t, addr, lo, hi, i)
  {
    assert q.left <= q.r;
    var i := LastOf(s, t, q.left, q.right);
    assert Entry(s, t, i);
    forall j | i < j <= hi && Entry(s, t, j) ensures s[j].value > addr {
    }
    assert IsMatch(s, t, addr, lo, hi, i);
  }

  /** With no clash in the window, the search is right. */
  lemma SearchRight(s: seq<Stab>, t: int, lo: int, hi: int, addr: Address)
    requires 0 <= lo <= hi + 1 <= |s| && Increasing(s, t, lo, hi) && NoClash(s, t, addr, lo, hi)
    ensures var r := Result(s, t, lo, hi, addr); Right(s, t, addr, lo, hi, r.0, r.1)
    ensures (forall i | lo <= i <= hi :: s[i].kind != t) ==> Result(s, t, lo, hi, addr) == (lo, lo - 1)
    ensures (exists i :: lo <= i <= hi && s[i].kind == t) ==>
              var (left, right) := Result(s, t, lo, hi, addr);
              && lo - 1 <= right <= hi && (right < hi ==> s[right + 1].kind == t && s[right + 1].value > addr)
              && (forall j | lo <= j <= right && s[j].kind == t :: s[j].value <= addr)
    ensures (exists i :: lo <= i <= hi && s[i].kind == t && s[i].value <= addr) ==>
              var (left, right) := Result(s, t, lo, hi, addr);
              && lo <= left <= hi && s[left].kind == t && s[left].value <= addr
              && (forall j | left < j <= hi && s[j].kind == t :: s[j].value > addr)
  {
    SearchRightAt(s, t, lo, hi, addr);
    var r := Result(s, t, lo, hi, addr);
    if i :| lo <= i <= hi && s[i].kind == t {
      assert Entry(s, t, i);
      assert IsBound(s, t, addr, lo, hi, r.1);
      forall j | lo <= j <= r.1 && s[j].kind == t ensures s[j].value <= addr {
        assert Entry(s, t, j);
      }
    }
    if i :| lo <= i <= hi && s[i].kind == t && s[i].value <= addr {
      LastBelow(s, t, lo, hi, addr, i);
      forall j | r.0 < j <= hi && s[j].kind == t ensures s[j].value > addr {
        assert Entry(s, t, j);
      }
    }
    if forall i | lo <= i <= hi :: s[i].kind != t {
      assert NoneIn(s, t, lo, hi);
    }
  }

  /** Where an entry is not above the address, there is a last such entry. */
  lemma {:induction false} LastBelow(s: seq<Stab>, t: int, lo: int, hi: int, addr: Address, i: int)
    requires 0 <= lo <= i <= hi < |s| && s[i].kind == t && s[i].value <= addr && Increasing(s, t, lo, hi)
    ensures exists m :: IsMatch(s, t, addr, lo, hi, m)
    decreases hi - i
  {
    assert Entry(s, t, i);
    if j :| i < j <= hi && Entry(s, t, j) && s[j].value <= addr {
      LastBelow(s, t, lo, hi, addr, j);
    } else {
      assert IsMatch(s, t, addr, lo, hi, i);
    }
  }

  lemma SearchRightAt(s: seq<Stab>, t: int, lo: int, hi: int, addr: Address)
    requires 0 <= lo <= hi + 1 <= |s| && Increasing(s, t, lo, hi) && NoClash(s, t, addr, lo, hi)
    ensures var r := Result(s, t, lo, hi, addr); Right(s, t, addr, lo, hi, r.0, r.1)
  {
    var q := Search(lo, hi, lo, hi, false, addr);
    LoopKeeps(s, t, addr, lo, hi, q);
    FinishRight(s, t, addr, lo, hi, Loop(s, t, q));
  }

  // ------------------------------------------------------- when it is not right

  ghost predicate RightAt(s: seq<Stab>, t: int, addr: Address, lo: int, hi: int)
    requires 0 <= lo <= hi + 1 <= |s|
  {
    var r := Result(s, t, lo, hi, addr);
    Right(s, t, addr, lo, hi, r.0, r.1)
  }

  /** Two entries at the last two addresses, next to each other, do not mislead the search. */
  ghost predicate LastPair(s: seq<Stab>, t: int, addr: Address) {
    addr == 0xFFFF_FFFE && exists i {:trigger Entry(s, t, i)} ::
      Entry(s, t, i) && s[i].value == addr && Entry(s, t, i + 1) && s[i + 1].value == addr + 1
  }

  /**
   * The search is right on every window of a table iff no entry is at addr + 1 when one
   * is at addr; at the last address, where addr + 1 wraps, iff no entry is at it.  The
   * one exception is a last pair.
   */
  lemma RightIffNoClash(s: seq<Stab>, t: int, addr: Address)
    requires Increasing(s, t, 0, |s| - 1)
    ensures (forall lo, hi {:trigger RightAt(s, t, addr, lo, hi)} | 0 <= lo <= hi + 1 <= |s| :: RightAt(s, t, addr, lo, hi))
            <==> NoClash(s, t, addr, 0, |s| - 1) || LastPair(s, t, addr)
  {
    if NoClash(s, t, addr, 0, |s| - 1) {
      forall lo, hi | 0 <= lo <= hi + 1 <= |s| ensures RightAt(s, t, addr, lo, hi) {
        SearchRight(s, t, lo, hi, addr);
      }
    } else if LastPair(s, t, addr) {
      forall lo, hi | 0 <= lo <= hi + 1 <= |s| ensures RightAt(s, t, addr, lo, hi) {
        LastPairRight(s, t, addr, lo, hi);
      }
    } else {
      var i, j :| 0 <= i < |s| && 0 <= j < |s| && Entry(s, t, i) && Entry(s, t, j) && s[i].value == addr
                  && (s[j].value == addr + 1 || addr + 1 >= 0x1_0000_0000);
      if addr + 1 >= 0x1_0000_0000 {
        WrapFails(s, t, addr, i);
      } else {
        NeighbourFails(s, t, addr, i, j);
      }
    }
  }

  /** An exact match e at the last address wraps the address to 0, and so ends up before e. */
  lemma WrapTurns(s: seq<Stab>, t: int, q: Search, e: int)
    requires InTable(s, q) && Exact(s, t, q) && Probe(s, t, q) == e && q.addr == 0xFFFF_FFFF && NoneIn(s, t, e + 1, q.r)
    ensures Loop(s, t, q) == Search(e, e - 1, e, e - 1, true, 0)
  {
    var q1 := Turn(s, t, q);
    assert Entry(s, t, e) && Probe(s, t, q1) == e;
    assert Turn(s, t, q1) == Search(e, e - 1, e, e - 1, true, 0);
    assert Loop(s, t, Turn(s, t, q1)) == Turn(s, t, q1);
    assert Loop(s, t, q1) == Turn(s, t, q1);
  }

  /** A search for the last address, if an entry e is at it, ends up before e. */
  lemma {:induction false} LastAddress(s: seq<Stab>, t: int, lo: int, hi: int, q: Search, e: int)
    requires Increasing(s, t, lo, hi) && Keeps(s, t, 0xFFFF_FFFF, lo, hi, q) && q.addr == 0xFFFF_FFFF
    requires q.l <= e <= q.r && Entry(s, t, e) && s[e].value == 0xFFFF_FFFF
    ensures Loop(s, t, q) == Search(e, e - 1, e, e - 1, true, 0)
    decreases q.r - q.l + 1
  {
    var m := Probe(s, t, q);
    if Exact(s, t, q) {
      assert Entry(s, t, m);
      WrapTurns(s, t, q, e);
    } else {
      TurnKeeps(s, t, 0xFFFF_FFFF, lo, hi, q);
      if m >= q.l { assert Entry(s, t, m); }
      LastAddress(s, t, lo, hi, Turn(s, t, q), e);
    }
  }

  lemma WrapFails(s: seq<Stab>, t: int, addr: Address, i: int)
    requires Increasing(s, t, 0, |s| - 1) && Entry(s, t, i) && s[i].value == addr == 0xFFFF_FFFF
    ensures !RightAt(s, t, addr, i, i)
  {
    LastAddress(s, t, i, i, Search(i, i, i, i, false, addr), i);
    assert IsMatch(s, t, addr, i, i, i);
  }

  /** From an entry at addr to one at addr + 1, the first turn makes it a search for addr + 1. */
  lemma NeighbourTurn(s: seq<Stab>, t: int, addr: Address, i: int, j: int)
    requires Increasing(s, t, 0, |s| - 1) && Entry(s, t, i) && Entry(s, t, j)
    requires s[i].value == addr && s[j].value == addr + 1
    ensures i < j && NoneIn(s, t, i + 1, j - 1)
    ensures var q1 := Search(i, j, i, j, true, addr + 1);
            Loop(s, t, Search(i, j, i, j, false, addr)) == Loop(s, t, q1)
  {
    assert i < j;
    var q := Search(i, j, i, j, false, addr);
    assert Probe(s, t, q) == i;
    assert Turn(s, t, q) == Search(i, j, i, j, true, addr + 1);
  }

  /** In the window from an entry at addr to one at addr + 1, the search does not return the first. */
  lemma NeighbourFails(s: seq<Stab>, t: int, addr: Address, i: int, j: int)
    requires Increasing(s, t, 0, |s| - 1) && Entry(s, t, i) && Entry(s, t, j) && !LastPair(s, t, addr)
    requires s[i].value == addr && s[j].value == addr + 1
    ensures i < j && !RightAt(s, t, addr, i, j)
  {
    NeighbourTurn(s, t, addr, i, j);
    var q1 := Search(i, j, i, j, true, addr + 1);
    var left := Finish(s, t, Loop(s, t, q1)).0;
    if addr + 1 == 0xFFFF_FFFF {
      LastAddress(s, t, i, j, q1, j);
      assert left == j - 1 != i;
    } else {
      SecondFound(s, t, addr, i, j, q1);
    }
    assert IsMatch(s, t, addr, i, j, i);
  }

  /** The smallest such table: two functions at 100 and 101, and a search for 100. */
  lemma TwoNeighboursFail()
    ensures var s := [Stab(36, 100), Stab(36, 101)];
            Increasing(s, 36, 0, 1) && IsMatch(s, 36, 100, 0, 1, 0) && Result(s, 36, 0, 1, 100) == (1, 1)
  {
    var s := [Stab(36, 100), Stab(36, 101)];
    var q := Search(0, 1, 0, 1, false, 100);
    var q1 := Turn(s, 36, q);
    assert q1 == Search(0, 1, 0, 1, true, 101);
    var q2 := Turn(s, 36, q1);
    assert q2 == Search(1, 1, 0, 1, true, 101);
    var q3 := Turn(s, 36, q2);
    assert q3 == Search(1, 1, 1, 1, true, 102);
    var q4 := Turn(s, 36, q3);
    assert q4 == Search(2, 1, 1, 1, true, 102);
    assert Loop(s, 36, q) == Loop(s, 36, q1) == Loop(s, 36, q2) == Loop(s, 36, q3) == Loop(s, 36, q4) == q4;
  }

  lemma SecondFound(s: seq<Stab>, t: int, addr: Address, i: int, j: int, q1: Search)
    requires Increasing(s, t, 0, |s| - 1) && Entry(s, t, i) && Entry(s, t, j) && i < j && NoneIn(s, t, i + 1, j - 1)
    requires s[i].value == addr && s[j].value == addr + 1 < 0xFFFF_FFFF && q1 == Search(i, j, i, j, true, addr + 1)
    ensures Finish(s, t, Loop(s, t, q1)).0 == j
  {
    LoopKeeps(s, t, addr + 1, i, j, q1);
    assert IsMatch(s, t, addr + 1, i, j, j);
    MatchFound(s, t, addr + 1, i, j, Loop(s, t, q1), j);
  }

  lemma LastPairRight(s: seq<Stab>, t: int, addr: Address, lo: int, hi: int)
    requires 0 <= lo <= hi + 1 <= |s| && Increasing(s, t, 0, |s| - 1) && LastPair(s, t, addr)
    ensures RightAt(s, t, addr, lo, hi)
  {
    var e :| Entry(s, t, e) && s[e].value == addr && Entry(s, t, e + 1) && s[e + 1].value == addr + 1;
    if NoClash(s, t, addr, lo, hi) {
      SearchRight(s, t, lo, hi, addr);
    } else {
      LastPairLoop(s, t, lo, hi, Search(lo, hi, lo, hi, false, addr), e);
    }
  }

  lemma LastPairWrap(s: seq<Stab>, t: int, lo: int, hi: int, q: Search, e: int)
    requires Increasing(s, t, lo, hi) && Keeps(s, t, 0xFFFF_FFFE, lo, hi, q) && lo <= e < hi
    requires Entry(s, t, e) && s[e].value == 0xFFFF_FFFE && Entry(s, t, e + 1) && s[e + 1].value == 0xFFFF_FFFF
    requires Exact(s, t, q) && q.addr == 0xFFFF_FFFF
    ensures var r := Finish(s, t, Loop(s, t, q)); Right(s, t, 0xFFFF_FFFE, lo, hi, r.0, r.1)
  {
    assert Entry(s, t, Probe(s, t, q));
    WrapTurns(s, t, q, e + 1);
    assert IsMatch(s, t, 0xFFFF_FFFE, lo, hi, e);
  }

  lemma {:induction false} LastPairLoop(s: seq<Stab>, t: int, lo: int, hi: int, q: Search, e: int)
    requires Increasing(s, t, lo, hi) && Keeps(s, t, 0xFFFF_FFFE, lo, hi, q) && lo <= e < hi
    requires Entry(s, t, e) && s[e].value == 0xFFFF_FFFE && Entry(s, t, e + 1) && s[e + 1].value == 0xFFFF_FFFF
    ensures var r := Finish(s, t, Loop(s, t, q)); Right(s, t, 0xFFFF_FFFE, lo, hi, r.0, r.1)
    decreases q.r - q.l + 1, if Exact(s, t, q) then 1 else 0
  {
    if q.l > q.r {
      FinishRight(s, t, 0xFFFF_FFFE, lo, hi, q);
    } else if Exact(s, t, q) && q.addr == 0xFFFF_FFFF {
      LastPairWrap(s, t, lo, hi, q, e);
    } else {
      TurnKeeps(s, t, 0xFFFF_FFFE, lo, hi, q);
      TurnDecreases(s, t, q);
      LastPairLoop(s, t, lo, hi, Turn(s, t, q), e);
    }
  }

  /** The loop has met an entry of the type, or there is none before l. */
  ghost predicate MetSome(s: seq<Stab>, t: int, lo: int, hi: int, q: Search) {
    && InTable(s, q) && 0 <= lo <= q.l && q.r <= hi < |s|
    && if q.any then !NoneIn(s, t, lo, hi) else q.r == hi && NoneIn(s, t, lo, q.l - 1)
  }

  lemma {:induction false} MeetsEntries(s: seq<Stab>, t: int, lo: int, hi: int, q: Search)
    requires MetSome(s, t, lo, hi, q)
    ensures Loop(s, t, q).any <==> !NoneIn(s, t, lo, hi)
    decreases q.r - q.l + 1, if Exact(s, t, q) then 1 else 0
  {
    if q.l <= q.r {
      var m := Probe(s, t, q);
      assert m >= q.l ==> Entry(s, t, m);
      TurnDecreases(s, t, q);
      MeetsEntries(s, t, lo, hi, Turn(s, t, q));
    }
  }

  /**
   * The comment in the source says that the bracket is empty if nothing matches.  It is
   * empty iff the window has no entry of the type at all, in whatever order the table is.
   */
  lemma EmptyIffNoEntry(s: seq<Stab>, t: int, lo: int, hi: int, addr: Address)
    requires 0 <= lo <= hi + 1 <= |s|
    ensures var r := Result(s, t, lo, hi, addr); r.0 > r.1 <==> NoneIn(s, t, lo, hi)
  {
    MeetsEntries(s, t, lo, hi, Search(lo, hi, lo, hi, false, addr));
  }

  // --------------------------------------------------------------- the function

  /** The inner loop: the earliest index down to l - 1 with the right type. */
  method FindDown(s: seq<Stab>, t: int, l: int, mid: int) returns (m: int)
    requires 0 <= l <= mid + 1 <= |s|
    ensures m == Down(s, t, l, mid)
  {
    m := mid;
    while m >= l && s[m].kind != t
      invariant l - 1 <= m <= mid && Down(s, t, l, m) == Down(s, t, l, mid)
    {
      m := m - 1;
    }
  }

  /** The body of the main loop. */
  method SearchTurn(s: seq<Stab>, t: int, q: Search) returns (q': Search)
    requires InTable(s, q) && q.l <= q.r
    ensures q' == Turn(s, t, q)
  {
    var mid := (q.l + q.r) / 2;
    var m := FindDown(s, t, q.l, mid);
    if m < q.l {
      return q.(l := mid + 1);
    }
    q' := q.(any := true);
    if s[m].value < q.addr {
      q' := q'.(left := m, l := mid + 1);
    } else if s[m].value > q.addr {
      q' := q'.(right := m - 1, r := m - 1);
    } else {
      q' := q'.(left := m, l := m, addr := (q.addr + 1) % 0x1_0000_0000);
    }
  }

  /** The last loop: from the right bound down to the rightmost region containing the address. */
  method WalkLeft(s: seq<Stab>, t: int, left: int, right: int) returns (l: int)
    requires 0 <= left && right < |s|
    ensures l == if left <= right then LastOf(s, t, left, right) else right
  {
    l := right;
    while l > left && s[l].kind != t
      invariant l <= right && (left > right ==> l == right)
      invariant left <= right ==> left <= l && LastOf(s, t, left, l) == LastOf(s, t, left, right)
    {
      l := l - 1;
    }
  }

  /** stab_binsearch: the new values of the two bounds. */
  method StabBinsearch(s: seq<Stab>, lo: int, hi: int, t: int, addr: Address) returns (left: int, right: int)
    requires 0 <= lo <= hi + 1 <= |s|
    ensures (left, right) == Result(s, t, lo, hi, addr)
    ensures Increasing(s, t, lo, hi) && NoClash(s, t, addr, lo, hi) ==> Right(s, t, addr, lo, hi, left, right)
  {
    var q := Search(lo, hi, lo, hi, false, addr);
    while q.l <= q.r
      invariant InTable(s, q) && 0 <= q.left && q.right < |s|
      invariant Loop(s, t, q) == Loop(s, t, Search(lo, hi, lo, hi, false, addr))
      decreases q.r - q.l + 1, if Exact(s, t, q) then 1 else 0
    {
      TurnDecreases(s, t, q);
      q := SearchTurn(s, t, q);
    }
    left, right := q.left, q.right;
    if !q.any {
      right := left - 1;
    } else {
      left := WalkLeft(s, t, left, right);
    }
    if Increasing(s, t, lo, hi) && NoClash(s, t, addr, lo, hi) {
      SearchRight(s, t, lo, hi, addr);
    }
  }
}
