/**
 * Working/lab/fs/bc.c: the demand-paged, write-back block cache, and fs_sync.
 *
 * The disk is an array of sectors.  What programs see is the view: the cached page of
 * a block if there is one, otherwise the block's eight sectors.
 */
module BlockCache {
  import opened Wrappers
  import FS = FileSystem

  type Sector = s: seq<FS.Byte> | |s| == 512 witness seq(512, _ => 0)

  /** A page of the cache, with its PTE_D bit. */
  datatype Page = Page(bytes: FS.Bytes, dirty: bool)

  const E_NO_DISK := 9

  /** A conversion to uint32_t. */
  function Unsigned(x: int): nat { x % 0x1_0000_0000 }

  // ------------------------------------------------------ blocks and sectors

  function Gather(ss: seq<Sector>): (r: seq<FS.Byte>)
    ensures |r| == 512 * |ss|
  {
    if ss == [] then [] else ss[0] + Gather(ss[1..])
  }

  lemma {:induction false} GatherSnoc(ss: seq<Sector>, x: Sector)
    ensures Gather(ss + [x]) == Gather(ss) + x
  {
    if ss == [] {
      assert [x][1..] == [];
      assert ss + [x] == [x];
    } else {
      assert (ss + [x])[1..] == ss[1..] + [x];
      GatherSnoc(ss[1..], x);
    }
  }

  /** Sector i of a gathered run of sectors. */
  lemma {:induction false} GatherSlice(ss: seq<Sector>, i: nat)
    requires i < |ss|
    ensures Gather(ss)[512 * i..512 * i + 512] == ss[i]
  {
    if i > 0 {
      GatherSlice(ss[1..], i - 1);
      assert Gather(ss)[512..] == Gather(ss[1..]);
      assert Gather(ss)[512 * i..512 * i + 512] == Gather(ss)[512..][512 * (i - 1)..512 * (i - 1) + 512];
    }
  }

  /** Block b of the disk. */
  function DiskBlock(disk: seq<Sector>, b: nat): FS.Bytes
    requires 8 * b + 8 <= |disk|
  {
    Gather(disk[8 * b..8 * b + 8])
  }

  // --------------------------------------------------------------- the bitmap

  function Pow2(k: nat): nat { if k == 0 then 1 else 2 * Pow2(k - 1) }

  /** Little-endian word i of a block. */
  function Word(bytes: FS.Bytes, i: nat): nat
    requires i < 1024
  {
    bytes[4 * i] + 256 * (bytes[4 * i + 1] as int) + 65536 * (bytes[4 * i + 2] as int) + 16777216 * (bytes[4 * i + 3] as int)
  }

  predicate Bit(w: nat, k: nat) {
    assert Pow2(k) > 0 by { Pow2Positive(k); }
    w / Pow2(k) % 2 == 1
  }

  lemma Pow2Positive(k: nat)
    ensures Pow2(k) > 0
  {
  }

  /** The bitmap block that has the bit of block b. */
  function BitmapBlock(b: nat): nat { 2 + b / 32768 }

  /** The bitmap in the view marks block b free. */
  predicate MarkedFree(view: seq<FS.Bytes>, b: nat)
    requires b < |view| && 2 < |view| <= 786432
  {
    Bit(Word(view[BitmapBlock(b)], b % 32768 / 32), b % 32)
  }

  /** Bit r of a byte, the lowest first. */
  predicate BitOfByte(x: FS.Byte, r: nat)
    requires r < 8
  {
    x as int / [1, 2, 4, 8, 16, 32, 64, 128][r] % 2 == 1
  }

  lemma Pow2Byte(k: nat)
    ensures Pow2(k + 8) == 256 * Pow2(k)
  {
    assert Pow2(k + 2) == 2 * Pow2(k + 1) && Pow2(k + 4) == 2 * Pow2(k + 3);
    assert Pow2(k + 6) == 2 * Pow2(k + 5) && Pow2(k + 8) == 2 * Pow2(k + 7);
    assert Pow2(k + 1) == 2 * Pow2(k) && Pow2(k + 3) == 2 * Pow2(k + 2);
    assert Pow2(k + 5) == 2 * Pow2(k + 4) && Pow2(k + 7) == 2 * Pow2(k + 6);
  }

  lemma Pow2Small(r: nat)
    requires r < 8
    ensures Pow2(r) == [1, 2, 4, 8, 16, 32, 64, 128][r]
  {
    assert Pow2(3) == 8 && Pow2(6) == 8 * Pow2(3);
  }

  lemma Multiple(p: int, d: int)
    requires p >= 0
    ensures d >= 1 ==> p * d >= p
    ensures d <= -1 ==> p * d <= -p
  {
    if d >= 1 {
      assert p * d == p * (d - 1) + p;
    } else if d <= -1 {
      assert p * d == -(p * (-d - 1)) - p;
    }
  }

  lemma DivideIs(w: nat, p: nat, q: nat)
    requires p * q <= w < p * q + p
    ensures p > 0 && w / p == q && w % p == w - p * q
  {
    assert w == p * (w / p) + w % p;
    assert p * (w / p - q) == p * (w / p) - p * q;
    Multiple(p, w / p - q);
  }

  lemma Scaled(p: nat, half: nat, rest: nat)
    requires half * p == 128
    ensures p * (half * rest) == 128 * rest
  {
    assert p * (half * rest) == (half * p) * rest;
  }

  lemma LowBits(x: FS.Byte, rest: nat, p: nat, half: nat)
    requires p > 0 && half * p == 128
    ensures (x as int + 256 * rest) / p % 2 == x as int / p % 2
  {
    var q, more := x as int / p, half * rest;
    assert x as int == p * q + x as int % p;
    Scaled(p, half, rest);
    assert p * (q + 2 * more) == p * q + 2 * (p * more);
    DivideIs(x as int + 256 * rest, p, q + 2 * more);
  }

  /** Bit r of the lowest byte. */
  lemma LowByte(x: FS.Byte, rest: nat, r: nat)
    requires r < 8
    ensures Bit(x as int + 256 * rest, r) == BitOfByte(x, r)
  {
    Pow2Small(r);
    assert [128, 64, 32, 16, 8, 4, 2, 1][r] * [1, 2, 4, 8, 16, 32, 64, 128][r] == 128;
    LowBits(x, rest, [1, 2, 4, 8, 16, 32, 64, 128][r], [128, 64, 32, 16, 8, 4, 2, 1][r]);
  }

  /** Dropping the lowest byte moves every bit down by eight. */
  lemma HigherBytes(x: FS.Byte, rest: nat, k: nat)
    ensures Bit(x as int + 256 * rest, k + 8) == Bit(rest, k)
  {
    Pow2Byte(k);
    Pow2Positive(k);
    var p, q := Pow2(k), rest / Pow2(k);
    assert rest == p * q + rest % p;
    assert 256 * p * q == 256 * (p * q);
    DivideIs(x as int + 256 * rest, 256 * p, q);
  }

  /** The lowest byte of w is x, and rest is what is left: a bit of rest is a bit of w, eight higher. */
  lemma {:induction false} BitFrom(w: nat, x: FS.Byte, rest: nat, k: nat, bit: bool)
    requires w == x as int + 256 * rest && Bit(rest, k) == bit
    ensures Bit(w, k + 8) == bit
  {
    HigherBytes(x, rest, k);
  }

  /** Bit 8 * q + r of a little-endian word is bit r of its byte q. */
  lemma WordBit(bytes: FS.Bytes, i: nat, q: nat, r: nat)
    requires i < 1024 && q < 4 && r < 8
    ensures Bit(Word(bytes, i), 8 * q + r) == BitOfByte(bytes[4 * i + q], r)
  {
    var x0, x1, x2, x3 := bytes[4 * i], bytes[4 * i + 1], bytes[4 * i + 2], bytes[4 * i + 3];
    var w2: nat := x2 as int + 256 * (x3 as int);
    var w1: nat := x1 as int + 256 * w2;
    var w := Word(bytes, i);
    assert w == x0 as int + 256 * w1;
    var bit := BitOfByte(bytes[4 * i + q], r);
    if q == 0 {
      LowByte(x0, w1, r);
    } else if q == 1 {
      LowByte(x1, w2, r);
      BitFrom(w, x0, w1, r, bit);
    } else if q == 2 {
      LowByte(x2, x3 as int, r);
      BitFrom(w1, x1, w2, r, bit);
      BitFrom(w, x0, w1, r + 8, bit);
    } else {
      LowByte(x3, 0, r);
      BitFrom(w2, x2, x3 as int, r, bit);
      BitFrom(w1, x1, w2, r + 8, bit);
      BitFrom(w, x0, w1, r + 16, bit);
    }
  }

  lemma BitPlace(b: nat)
    ensures b / 32768 == b / 8 / 4096 && b % 32768 / 32 < 1024 && 4 * (b % 32768 / 32) + b % 32 / 8 == b / 8 % 4096 && b % 32 % 8 == b % 8
  {
    var top, i, k := b / 32768, b % 32768 / 32, b % 32768 % 32;
    assert b == 32768 * top + 32 * i + k && i < 1024 && k < 32;
    DivideIs(b, 32, 1024 * top + i);
    DivideIs(b, 8, 4096 * top + 4 * i + k / 8);
    DivideIs(b / 8, 4096, top);
  }

  /** The bit of block b: bit b % 8 of byte b / 8 of the bitmap, counting bits from the lowest; 1 means free. */
  lemma MarkedFreeIsBit(view: seq<FS.Bytes>, b: nat)
    requires b < |view| && 2 < |view| <= 786432
    ensures 2 + b / 8 / 4096 < |view|
    ensures MarkedFree(view, b) <==> view[2 + b / 8 / 4096][b / 8 % 4096] as int / [1, 2, 4, 8, 16, 32, 64, 128][b % 8] % 2 == 1
  {
    BitPlace(b);
    WordBit(view[BitmapBlock(b)], b % 32768 / 32, b % 32 / 8, b % 8);
    assert b % 32 == 8 * (b % 32 / 8) + b % 8;
  }

  /** How many nested faults the bitmap check of a fault on block b can lead to. */
  function Depth(b: nat): nat { if b == 2 then 0 else if 2 < b < 27 then 1 else 2 }

  /** What check_bitmap asserts at startup: the reserved blocks are in use. */
  predicate ReservedInUse(view: seq<FS.Bytes>)
    requires 2 < |view| <= 786432
  {
    forall b | 0 <= b < FS.FirstData(|view|) && b < |view| :: !MarkedFree(view, b)
  }

  // ----------------------------------------------------------------- the view

  /** What a program sees: one array of blocks. */
  function ViewOf(disk: seq<Sector>, pages: map<nat, Page>, n: nat): (v: seq<FS.Bytes>)
    requires |disk| == 8 * n
    ensures |v| == n && forall b | 0 <= b < n :: v[b] == if b in pages then pages[b].bytes else DiskBlock(disk, b)
  {
    seq(n, b requires 0 <= b < n => if b in pages then pages[b].bytes else DiskBlock(disk, b))
  }

  /** Cached pages are of blocks the disk has, and a clean one equals the disk. */
  ghost predicate PageOk(disk: seq<Sector>, pages: map<nat, Page>, n: nat, b: nat)
    requires |disk| == 8 * n
  {
    b in pages ==> 0 < b < n && (!pages[b].dirty ==> pages[b].bytes == DiskBlock(disk, b))
  }

  ghost predicate PagesOk(disk: seq<Sector>, pages: map<nat, Page>, n: nat)
    requires |disk| == 8 * n
  {
    forall b: nat {:trigger PageOk(disk, pages, n, b)} :: PageOk(disk, pages, n, b)
  }

  /** Loading a block that is not cached, clean, changes nothing a program can see. */
  lemma LoadKeeps(disk: seq<Sector>, pages: map<nat, Page>, n: nat, b: nat)
    requires |disk| == 8 * n && PagesOk(disk, pages, n) && 0 < b < n && b !in pages
    ensures var pages' := pages[b := Page(DiskBlock(disk, b), false)];
            PagesOk(disk, pages', n) && ViewOf(disk, pages', n) == ViewOf(disk, pages, n)
  {
    var pages' := pages[b := Page(DiskBlock(disk, b), false)];
    forall c: nat ensures PageOk(disk, pages', n, c) {
      assert PageOk(disk, pages, n, c);
    }
  }

  /** Changing the bytes of a cached page changes that block of the view. */
  lemma StoreKeeps(disk: seq<Sector>, pages: map<nat, Page>, n: nat, b: nat, bytes: FS.Bytes)
    requires |disk| == 8 * n && PagesOk(disk, pages, n) && b in pages
    ensures b < n
    ensures var pages' := pages[b := Page(bytes, true)];
            PagesOk(disk, pages', n) && ViewOf(disk, pages', n) == ViewOf(disk, pages, n)[b := bytes]
  {
    assert PageOk(disk, pages, n, b);
    var pages' := pages[b := Page(bytes, true)];
    forall c: nat ensures PageOk(disk, pages', n, c) {
      assert PageOk(disk, pages, n, c);
    }
  }

  /** Dropping a clean page changes nothing a program can see; dropping a dirty one does unless it equals the disk. */
  lemma EvictKeepsIff(disk: seq<Sector>, pages: map<nat, Page>, n: nat, b: nat)
    requires |disk| == 8 * n && PagesOk(disk, pages, n) && b in pages
    ensures b < n && PagesOk(disk, pages - {b}, n)
    ensures ViewOf(disk, pages - {b}, n) == ViewOf(disk, pages, n) <==> pages[b].bytes == DiskBlock(disk, b)
    ensures !pages[b].dirty ==> pages[b].bytes == DiskBlock(disk, b)
  {
    assert PageOk(disk, pages, n, b);
    forall c: nat ensures PageOk(disk, pages - {b}, n, c) {
      assert PageOk(disk, pages, n, c);
    }
    assert ViewOf(disk, pages - {b}, n)[b] == DiskBlock(disk, b);
  }

  /** The disk with block b's sectors replaced. */
  ghost predicate Wrote(disk: seq<Sector>, disk': seq<Sector>, b: nat, bytes: FS.Bytes) {
    && |disk'| == |disk| && 8 * b + 8 <= |disk|
    && (forall i | 0 <= i < |disk| && !(8 * b <= i < 8 * b + 8) :: disk'[i] == disk[i])
    && DiskBlock(disk', b) == bytes
  }

  lemma OtherBlock(disk: seq<Sector>, disk': seq<Sector>, b: nat, bytes: FS.Bytes, c: nat)
    requires Wrote(disk, disk', b, bytes) && c != b && 8 * c + 8 <= |disk|
    ensures DiskBlock(disk', c) == DiskBlock(disk, c)
  {
    assert disk'[8 * c..8 * c + 8] == disk[8 * c..8 * c + 8];
  }

  /** Each block of the view, one at a time. */
  ghost predicate SameBlock(disk: seq<Sector>, disk': seq<Sector>, pages: map<nat, Page>, pages': map<nat, Page>, n: nat, c: nat)
    requires |disk| == |disk'| == 8 * n
  {
    c < n ==>
      && (c in pages' <==> c in pages)
      && (if c in pages && c in pages' then pages'[c].bytes == pages[c].bytes else DiskBlock(disk', c) == DiskBlock(disk, c))
  }

  lemma SameView(disk: seq<Sector>, disk': seq<Sector>, pages: map<nat, Page>, pages': map<nat, Page>, n: nat)
    requires |disk| == |disk'| == 8 * n
    requires forall c: nat {:trigger SameBlock(disk, disk', pages, pages', n, c)} :: SameBlock(disk, disk', pages, pages', n, c)
    ensures ViewOf(disk', pages', n) == ViewOf(disk, pages, n)
  {
    forall c: nat | c < n ensures ViewOf(disk', pages', n)[c] == ViewOf(disk, pages, n)[c] {
      assert SameBlock(disk, disk', pages, pages', n, c);
    }
  }

  /** Writing a page back and marking it clean changes nothing a program can see. */
  lemma FlushKeeps(disk: seq<Sector>, disk': seq<Sector>, pages: map<nat, Page>, n: nat, b: nat)
    requires |disk| == 8 * n && PagesOk(disk, pages, n) && b in pages && Wrote(disk, disk', b, pages[b].bytes)
    ensures var pages' := pages[b := Page(pages[b].bytes, false)];
            PagesOk(disk', pages', n) && ViewOf(disk', pages', n) == ViewOf(disk, pages, n)
  {
    var pages' := pages[b := Page(pages[b].bytes, false)];
    forall c: nat ensures PageOk(disk', pages', n, c) && SameBlock(disk, disk', pages, pages', n, c) {
      assert PageOk(disk, pages, n, c) && PageOk(disk, pages, n, b);
      if c != b && c < n {
        OtherBlock(disk, disk', b, pages[b].bytes, c);
      }
    }
    SameView(disk, disk', pages, pages', n);
  }

  // ---------------------------------------------------------------- the cache

  /** What a program does with the cache. */
  datatype Op = Read(b: nat, off: nat) | Write(b: nat, off: nat, v: FS.Byte) | Flush(b: nat) | Sync

  /** The same on a plain array of blocks. */
  function PlainStep(v: seq<FS.Bytes>, op: Op): (r: (seq<FS.Bytes>, Option<FS.Byte>))
    ensures |r.0| == |v|
  {
    match op
    case Read(b, off) => (v, if b < |v| && off < 4096 then Some(v[b][off]) else None)
    case Write(b, off, x) => (if b < |v| && off < 4096 then v[b := v[b][off := x]] else v, None)
    case Flush(_) => (v, None)
    case Sync => (v, None)
  }

  function PlainRun(v: seq<FS.Bytes>, ops: seq<Op>): (r: (seq<FS.Bytes>, seq<Option<FS.Byte>>))
    ensures |r.0| == |v| && |r.1| == |ops|
  {
    if ops == [] then (v, [])
    else
      var r := PlainRun(v, ops[..|ops| - 1]);
      var s := PlainStep(r.0, ops[|ops| - 1]);
      (s.0, r.1 + [s.1])
  }

  class Cache {
    const disk: array<Sector>
    const nblocks: nat
    var pages: map<nat, Page>
    var mounted: bool        // super and bitmap are set

    function View(): seq<FS.Bytes>
      requires disk.Length == 8 * nblocks
      reads this, disk
    {
      ViewOf(disk[..], pages, nblocks)
    }

    /** The disk is big enough for its bitmap, and once mounted the superblock stays cached. */
    ghost predicate Valid()
      reads this, disk
    {
      && disk.Length == 8 * nblocks && 2 < nblocks <= 786432
      && PagesOk(disk[..], pages, nblocks)
      && (mounted ==> 1 in pages)
    }

    /** A server that starts on a disk: nothing is cached, and what it sees is the disk. */
    constructor (d: seq<Sector>, n: nat)
      requires |d| == 8 * n && 2 < n <= 786432
      ensures Valid() && nblocks == n && disk[..] == d && fresh(disk) && pages == map[] && !mounted
      ensures forall b | 0 <= b < n :: View()[b] == DiskBlock(d, b)
    {
      disk := new Sector[|d|](i requires 0 <= i < |d| => d[i]);
      nblocks := n;
      pages, mounted := map[], false;
      new;
      assert disk[..] == d;
      assert forall b: nat {:trigger PageOk(disk[..], pages, nblocks, b)} :: PageOk(disk[..], pages, nblocks, b);
    }

    /** The rest of fs_init: the superblock is read, and super and bitmap are set. */
    method Mount()
      requires Valid()
      modifies this
      ensures Valid() && mounted && View() == old(View())
      ensures forall b | b in old(pages) :: b in pages && pages[b] == old(pages)[b]
    {
      if 1 !in pages {
        Load(1);
      }
      mounted := true;
    }

    /** diskaddr's check: the block number is one that may be used. */
    predicate DiskAddr(b: nat) {
      0 < b < nblocks
    }

    /**
     * alloc_block's error on a full disk, kept in an unsigned variable by its callers: it
     * is never below 0, so they go on, and diskaddr refuses it whatever the disk's size.
     */
    lemma FullDiskPanics()
      requires Valid()
      ensures Unsigned(-E_NO_DISK) >= 0 && !DiskAddr(Unsigned(-E_NO_DISK))
    {
    }

    /** ide_read of one block. */
    method IdeRead(b: nat) returns (bytes: FS.Bytes)
      requires disk.Length == 8 * nblocks && b < nblocks
      ensures bytes == DiskBlock(disk[..], b)
    {
      var got: seq<FS.Byte> := [];
      for i := 0 to 8
        invariant got == Gather(disk[8 * b..8 * b + i])
      {
        GatherSnoc(disk[8 * b..8 * b + i], disk[8 * b + i]);
        assert disk[8 * b..8 * b + i + 1] == disk[8 * b..8 * b + i] + [disk[8 * b + i]];
        got := got + disk[8 * b + i];
      }
      assert disk[8 * b..8 * b + 8] == disk[..][8 * b..8 * b + 8];
      bytes := got;
    }

    /** ide_write of one block. */
    method IdeWrite(b: nat, bytes: FS.Bytes)
      requires disk.Length == 8 * nblocks && b < nblocks
      modifies disk
      ensures Wrote(old(disk[..]), disk[..], b, bytes)
    {
      for i := 0 to 8
        invariant forall k | 0 <= k < disk.Length && !(8 * b <= k < 8 * b + i) :: disk[k] == old(disk[k])
        invariant Gather(disk[8 * b..8 * b + i]) == bytes[..512 * i]
      {
        ghost var before := disk[8 * b..8 * b + i];
        disk[8 * b + i] := bytes[512 * i..512 * i + 512];
        assert disk[8 * b..8 * b + i] == before;
        GatherSnoc(before, disk[8 * b + i]);
        assert disk[8 * b..8 * b + i + 1] == before + [disk[8 * b + i]];
        assert bytes[..512 * (i + 1)] == bytes[..512 * i] + bytes[512 * i..512 * i + 512];
      }
      assert disk[8 * b..8 * b + 8] == disk[..][8 * b..8 * b + 8];
      assert bytes[..4096] == bytes;
    }

    /** bc_pgfault's load: reading into the new page makes it dirty, mapping it again makes it clean. */
    method Load(b: nat)
      requires Valid() && 0 < b < nblocks && b !in pages
      modifies this`pages
      ensures Valid() && View() == old(View())
      ensures b in pages && forall c | c in old(pages) :: c in pages && pages[c] == old(pages)[c]
    {
      var bytes := IdeRead(b);
      LoadKeeps(disk[..], pages, nblocks, b);
      var page := Page(bytes, true);
      page := page.(dirty := false);
      pages := pages[b := page];
    }

    /**
     * bc_pgfault: loads the block, marks the page clean, and panics (ok == false) on a
     * block that the bitmap marks free.  That last check reads the bitmap through the
     * cache, so it may fault in turn.
     */
    method PgFault(b: nat) returns (ok: bool)
      requires Valid() && 0 < b < nblocks && b !in pages
      modifies this
      ensures Valid() && View() == old(View()) && mounted == old(mounted)
      ensures b in pages && forall c | c in old(pages) :: c in pages && pages[c] == old(pages)[c]
      ensures ReservedInUse(View()) ==> (ok <==> !(mounted && MarkedFree(View(), b)))
      decreases Depth(b), 1
    {
      Load(b);
      ok := true;
      if mounted {
        var free;
        ok, free := BlockIsFree(b);
        ok := ok && !free;
      }
    }

    /** block_is_free, once the file system is mounted; reading the bitmap may fault. */
    method BlockIsFree(b: nat) returns (ok: bool, free: bool)
      requires Valid() && mounted && b < nblocks && b in pages
      modifies this
      ensures Valid() && View() == old(View()) && mounted
      ensures forall c | c in old(pages) :: c in pages && pages[c] == old(pages)[c]
      ensures ok ==> free == MarkedFree(View(), b)
      ensures ReservedInUse(View()) ==> ok
      decreases Depth(b), 0
    {
      ok := true;
      free := false;
      var bb := BitmapBlock(b);
      if bb !in pages {
        ok := PgFault(bb);
        if !ok {
          return;
        }
      }
      free := Bit(Word(pages[bb].bytes, b % 32768 / 32), b % 32);
    }

    /** A byte read through the cache. */
    method ReadByte(b: nat, off: nat) returns (ok: bool, v: FS.Byte)
      requires Valid() && off < 4096
      modifies this
      ensures Valid() && View() == old(View()) && mounted == old(mounted)
      ensures ok ==> b < nblocks && v == View()[b][off] && b in pages
      ensures ReservedInUse(View()) ==> (ok <==> DiskAddr(b) && (b in old(pages) || !(mounted && MarkedFree(View(), b))))
    {
      v := 0;
      ok := DiskAddr(b);
      if ok && b !in pages {
        ok := PgFault(b);
      }
      if ok {
        v := pages[b].bytes[off];
      }
    }

    /** A byte written through the cache; the hardware marks the page dirty. */
    method WriteByte(b: nat, off: nat, v: FS.Byte) returns (ok: bool)
      requires Valid() && off < 4096
      modifies this
      ensures Valid() && mounted == old(mounted)
      ensures ok ==> b < nblocks && View() == old(View())[b := old(View())[b][off := v]]
      ensures ok ==> b in pages && pages[b].dirty
      ensures !ok ==> View() == old(View())
      ensures old(ReservedInUse(View())) ==>
                (ok <==> DiskAddr(b) && (b in old(pages) || !(mounted && old(MarkedFree(View(), b)))))
    {
      ok := DiskAddr(b);
      if ok && b !in pages {
        ok := PgFault(b);
      }
      if ok {
        StoreKeeps(disk[..], pages, nblocks, b, pages[b].bytes[off := v]);
        pages := pages[b := Page(pages[b].bytes[off := v], true)];
      }
    }

    /** flush_block: the disk gets the block if the cache has a newer one; nothing a program sees changes. */
    method FlushBlock(b: nat)
      requires Valid() && b < nblocks
      modifies this, disk
      ensures Valid() && View() == old(View()) && mounted == old(mounted)
      ensures DiskBlock(disk[..], b) == View()[b]
      ensures forall c: nat | c < nblocks && c != b :: DiskBlock(disk[..], c) == old(DiskBlock(disk[..], c))
      ensures pages.Keys == old(pages).Keys && (b in pages ==> !pages[b].dirty)
    {
      assert PageOk(disk[..], pages, nblocks, b);
      if b !in pages || !pages[b].dirty {
        return;
      }
      ghost var d := disk[..];
      IdeWrite(b, pages[b].bytes);
      FlushKeeps(d, disk[..], pages, nblocks, b);
      forall c: nat | c < nblocks && c != b ensures DiskBlock(disk[..], c) == DiskBlock(d, c) {
        OtherBlock(d, disk[..], b, pages[b].bytes, c);
      }
      pages := pages[b := Page(pages[b].bytes, false)];
    }

    /** fs_sync: afterwards the disk agrees with the view on every block but block 0, which is never cached. */
    method FsSync()
      requires Valid()
      modifies this, disk
      ensures Valid() && View() == old(View()) && mounted == old(mounted)
      ensures forall c: nat | 0 < c < nblocks :: DiskBlock(disk[..], c) == View()[c]
      ensures pages.Keys == old(pages).Keys
    {
      for i := 1 to nblocks
        invariant Valid() && View() == old(View()) && mounted == old(mounted) && pages.Keys == old(pages).Keys
        invariant forall c: nat | 0 < c < i :: DiskBlock(disk[..], c) == View()[c]
      {
        FlushBlock(i);
      }
    }

    /** After fs_sync, a server that starts from the same disk sees what this one saw. */
    method SyncThenRestart() returns (next: Cache)
      requires Valid()
      modifies this, disk
      ensures Valid() && View() == old(View())
      ensures fresh(next) && next.Valid() && next.mounted && next.disk[..] == disk[..] && next.View() == old(View())
    {
      FsSync();
      assert PageOk(disk[..], pages, nblocks, 0);
      next := new Cache(disk[..], nblocks);
      assert next.View() == View();
      next.Mount();
    }

    /**
     * From boot: a server that has just started on any disk behaves, once it has mounted
     * it, as one plain array of the disk's blocks.
     */
    static method BootAndRun(d: seq<Sector>, n: nat, ops: seq<Op>)
      returns (done: nat, outs: seq<Option<FS.Byte>>, view: seq<FS.Bytes>)
      requires |d| == 8 * n && 2 < n <= 786432
      ensures done <= |ops| && (view, outs) == PlainRun(seq(n, b requires 0 <= b < n => DiskBlock(d, b)), ops[..done])
      ensures done < |ops| && ReservedInUse(view) ==>
                !ops[done].Sync? && (ops[done].b == 0 || ops[done].b >= n || (!ops[done].Flush? && MarkedFree(view, ops[done].b)))
    {
      var c := new Cache(d, n);
      assert c.View() == seq(n, b requires 0 <= b < n => DiskBlock(d, b));
      c.Mount();
      done, outs := c.Run(ops);
      view := c.View();
    }

    /** Any one access. */
    method Step(op: Op) returns (ok: bool, out: Option<FS.Byte>)
      requires Valid()
      modifies this, disk
      ensures Valid()
      ensures ok ==> (View(), out) == PlainStep(old(View()), op)
      ensures !ok ==> View() == old(View())
      ensures !ok && ReservedInUse(View()) ==>
                !op.Sync? && (op.b == 0 || op.b >= nblocks || (!op.Flush? && MarkedFree(View(), op.b)))
    {
      ok, out := true, None;
      match op
      case Read(b, off) =>
        if off < 4096 {
          var v;
          ok, v := ReadByte(b, off);
          out := if ok then Some(v) else None;
        }
      case Write(b, off, v) =>
        if off < 4096 {
          ok := WriteByte(b, off, v);
        }
      case Flush(b) =>
        ok := DiskAddr(b);
        if ok {
          FlushBlock(b);
        }
      case Sync => FsSync();
    }

    /** Any run of accesses, flushes and syncs behaves as one plain array of blocks; a panic stops it. */
    method Run(ops: seq<Op>) returns (done: nat, outs: seq<Option<FS.Byte>>)
      requires Valid()
      modifies this, disk
      ensures Valid() && done <= |ops|
      ensures (View(), outs) == PlainRun(old(View()), ops[..done])
      ensures done < |ops| && ReservedInUse(View()) ==>
                !ops[done].Sync? && (ops[done].b == 0 || ops[done].b >= nblocks || (!ops[done].Flush? && MarkedFree(View(), ops[done].b)))
    {
      done, outs := 0, [];
      while done < |ops|
        invariant Valid() && done <= |ops|
        invariant (View(), outs) == PlainRun(old(View()), ops[..done])
      {
        var ok, out := Step(ops[done]);
        if !ok {
          return;
        }
        assert ops[..done + 1][..done] == ops[..done];
        outs := outs + [out];
        done := done + 1;
      }
    }
  }
}
