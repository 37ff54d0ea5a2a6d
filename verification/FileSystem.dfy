/**
 * Working/lab/fs/fs.c: the block bitmap, the direct and indirect block map of a
 * file, reading, writing, truncation and removal.
 *
 * Blocks are what the block cache shows (module BlockCache).  File records live
 * in the blocks of their directories; here they are a map from the place of a
 * record to the record.
 */
module FileSystem {
  import opened Wrappers

  const BLKSIZE := 4096
  const NDIRECT := 10
  const NINDIRECT := 1024
  const NSLOTS := 1034             // NDIRECT + NINDIRECT
  const MAXFILESIZE := 1034 * 4096

  type Byte = b: int | 0 <= b < 256
  type Bytes = s: seq<Byte> | |s| == BLKSIZE witness seq(BLKSIZE, _ => 0)
  type Entries = s: seq<nat> | |s| == NINDIRECT witness seq(NINDIRECT, _ => 0)
  type Direct = s: seq<nat> | |s| == NDIRECT witness seq(NDIRECT, _ => 0)

  function ZeroEntries(): Entries { seq(NINDIRECT, _ => 0) }

  /** A block read as file data, or as an indirect block. */
  datatype Block = Data(bytes: Bytes) | Ind(entries: Entries)

  datatype FileType = Regular | Directory

  datatype File = File(name: string, size: nat, ftype: FileType, direct: Direct, indirect: nat)

  /** Where a file record is: in the superblock, or in a directory block. */
  datatype Loc = Root | At(block: nat, index: nat)

  /** A place that can name a block: block n of a file, or its indirect pointer. */
  datatype Slot = Blk(loc: Loc, n: nat) | Ptr(loc: Loc)

  /** A disk: the bitmap (true is free, as in the file system), the records and the blocks. */
  datatype Disk = Disk(free: seq<bool>, files: map<Loc, File>, blocks: seq<Block>)

  /** The number of blocks of a file of the given size. */
  function NBlocks(size: nat): nat { (size + 4095) / 4096 }

  // ------------------------------------------------------------ the block map

  /** The disk block that holds block n of a file; 0 if there is none. */
  function BlockNo(d: Disk, loc: Loc, n: nat): nat
    requires loc in d.files && n < NSLOTS
  {
    var f := d.files[loc];
    if n < NDIRECT then f.direct[n]
    else if f.indirect == 0 || f.indirect >= |d.blocks| || !d.blocks[f.indirect].Ind? then 0
    else d.blocks[f.indirect].entries[n - NDIRECT]
  }

  predicate IsSlot(d: Disk, s: Slot) {
    s.loc in d.files && (s.Blk? ==> s.n < NSLOTS)
  }

  /** The block a slot names. */
  function SlotVal(d: Disk, s: Slot): nat
    requires IsSlot(d, s)
  {
    match s
    case Blk(loc, n) => BlockNo(d, loc, n)
    case Ptr(loc) => d.files[loc].indirect
  }

  /** The blocks 0, 1 and the bitmap's own are reserved. */
  function FirstData(nblocks: nat): nat { 2 + (nblocks + 32767) / 32768 }

  ghost predicate OwnedBlock(d: Disk, s: Slot, b: nat) {
    && IsSlot(d, s) && SlotVal(d, s) == b
    && FirstData(|d.blocks|) <= b < |d.blocks|
    && (if s.Ptr? then d.blocks[b].Ind? else d.blocks[b].Data?)
  }

  /**
   * Block ownership.  `owner` is a bijection between the blocks that slots name and
   * the slots that name one, and a block is in use iff it is reserved or owned.
   */
  ghost predicate Owned(d: Disk, owner: map<nat, Slot>) {
    && |d.free| == |d.blocks|
    && (forall b {:trigger OwnedBlock(d, owner[b], b)} | b in owner :: OwnedBlock(d, owner[b], b))
    && (forall s {:trigger SlotVal(d, s)} | IsSlot(d, s) && SlotVal(d, s) != 0 ::
          SlotVal(d, s) in owner && owner[SlotVal(d, s)] == s)
    && (forall b | 0 <= b < |d.free| :: d.free[b] <==> b >= FirstData(|d.blocks|) && b !in owner)
  }

  /**
   * Nothing is allocated past the end of a file.  (A file of exactly NDIRECT blocks may
   * have an indirect block that names nothing: fsformat makes such files, and truncating
   * one frees it.)
   */
  ghost predicate TailOk(d: Disk, loc: Loc)
    requires loc in d.files
  {
    && (forall n | NBlocks(d.files[loc].size) <= n < NSLOTS :: BlockNo(d, loc, n) == 0)
    && (NBlocks(d.files[loc].size) < NDIRECT ==> d.files[loc].indirect == 0)
    && d.files[loc].size <= MAXFILESIZE
  }

  ghost predicate TailsOk(d: Disk) {
    forall loc {:trigger TailOk(d, loc)} | loc in d.files :: TailOk(d, loc)
  }

  /** A well-formed image. */
  ghost predicate Inv(d: Disk, owner: map<nat, Slot>) {
    Owned(d, owner) && TailsOk(d)
  }

  /** In a well-formed image a block is marked in use iff it is reserved or named by exactly one slot. */
  lemma InUseIffNamedOnce(d: Disk, owner: map<nat, Slot>, b: nat)
    requires Owned(d, owner) && b < |d.blocks|
    ensures !d.free[b] <==> b < FirstData(|d.blocks|) || exists s :: IsSlot(d, s) && SlotVal(d, s) == b
    ensures forall s, t | IsSlot(d, s) && IsSlot(d, t) && SlotVal(d, s) == b && SlotVal(d, t) == b && b != 0 :: s == t
    ensures b < FirstData(|d.blocks|) && b != 0 ==> forall s | IsSlot(d, s) :: SlotVal(d, s) != b
  {
    if b in owner {
      assert OwnedBlock(d, owner[b], b);
    }
    if s :| IsSlot(d, s) && SlotVal(d, s) == b && b != 0 {
      assert OwnedBlock(d, owner[b], b);
    }
  }

  // ------------------------------------------------------------ file contents

  /** The bytes of block n of a file, if it has that block. */
  function Cell(d: Disk, loc: Loc, n: nat): Option<Bytes>
    requires loc in d.files && n < NSLOTS
  {
    var b := BlockNo(d, loc, n);
    if b == 0 || b >= |d.blocks| || !d.blocks[b].Data? then None else Some(d.blocks[b].bytes)
  }

  /** The name, size and type of a record. */
  function Meta(f: File): (string, nat, FileType) { (f.name, f.size, f.ftype) }

  /** Same records up to their block slots. */
  ghost predicate SameMeta(d: Disk, d': Disk) {
    d'.files.Keys == d.files.Keys && forall l | l in d.files :: Meta(d'.files[l]) == Meta(d.files[l])
  }

  /** The byte at position pos of a file, if the file has a block there. */
  function ByteAt(d: Disk, loc: Loc, pos: nat): Option<Byte>
    requires loc in d.files && pos < MAXFILESIZE
  {
    match Cell(d, loc, pos / 4096)
    case None => None
    case Some(bytes) => Some(bytes[pos % 4096])
  }

  /** The slots of other files are unchanged. */
  ghost predicate SlotsElsewhere(d: Disk, d': Disk, loc: Loc) {
    forall t {:trigger SlotVal(d', t)} {:trigger SlotVal(d, t)} | IsSlot(d, t) && IsSlot(d', t) && t.loc != loc ::
      SlotVal(d', t) == SlotVal(d, t)
  }

  /** Other files' contents are unchanged, and file loc keeps every block it had. */
  ghost predicate CellsKept(d: Disk, d': Disk, loc: Loc) {
    && d'.files.Keys == d.files.Keys && SlotsElsewhere(d, d', loc)
    && forall l, m: nat {:trigger Cell(d', l, m)} | l in d.files && m < NSLOTS && (l != loc || Cell(d, l, m) != None) ::
         Cell(d', l, m) == Cell(d, l, m)
  }

  /** Other files' contents are unchanged. */
  ghost predicate OthersKept(d: Disk, d': Disk, loc: Loc) {
    && d'.files.Keys == d.files.Keys && SlotsElsewhere(d, d', loc)
    && forall l, m: nat {:trigger Cell(d', l, m)} | l in d.files && m < NSLOTS && l != loc :: Cell(d', l, m) == Cell(d, l, m)
  }

  /** How many bytes a read of count bytes at offset returns. */
  function ReadLen(size: nat, count: nat, offset: nat): nat {
    if offset >= size then 0 else if count < size - offset then count else size - offset
  }

  /** The bytes of the file from offset on are buf. */
  ghost predicate Holds(d: Disk, loc: Loc, offset: nat, buf: seq<Byte>)
    requires loc in d.files
  {
    && offset + |buf| <= MAXFILESIZE
    && forall p {:trigger ByteAt(d, loc, p)} | offset <= p < offset + |buf| :: ByteAt(d, loc, p) == Some(buf[p - offset])
  }

  /** Every byte outside [lo, hi) that the file had is unchanged. */
  ghost predicate KeptOutside(d: Disk, d': Disk, loc: Loc, lo: nat, hi: nat)
    requires loc in d.files && loc in d'.files
  {
    forall p: nat {:trigger ByteAt(d', loc, p)} | p < MAXFILESIZE && !(lo <= p < hi) && ByteAt(d, loc, p) != None ::
      ByteAt(d', loc, p) == ByteAt(d, loc, p)
  }

  // ----------------------------------------------- what each update preserves

  /** Storing b in the slot of block n of a file. */
  function SetBlockNo(d: Disk, loc: Loc, n: nat, b: nat): Disk
    requires loc in d.files && n < NSLOTS
    requires n >= NDIRECT ==> d.files[loc].indirect < |d.blocks| && d.blocks[d.files[loc].indirect].Ind?
  {
    var f := d.files[loc];
    if n < NDIRECT then d.(files := d.files[loc := f.(direct := f.direct[n := b])])
    else d.(blocks := d.blocks[f.indirect := Ind(d.blocks[f.indirect].entries[n - NDIRECT := b])])
  }

  /** Every slot but one keeps its value. */
  ghost predicate SlotsBut(d: Disk, d': Disk, s: Slot, v: nat) {
    && d'.files.Keys == d.files.Keys && |d'.blocks| == |d.blocks|
    && IsSlot(d, s)
    && forall t {:trigger SlotVal(d, t)} {:trigger SlotVal(d', t)} | IsSlot(d, t) ::
         SlotVal(d', t) == if t == s then v else SlotVal(d, t)
  }

  /** Every file keeps its blocks' contents, except for block n of file loc. */
  ghost predicate CellsBut(d: Disk, d': Disk, loc: Loc, n: nat) {
    && d'.files.Keys == d.files.Keys && SlotsElsewhere(d, d', loc)
    && forall l, m: nat {:trigger Cell(d', l, m)} | l in d.files && m < NSLOTS && (l != loc || m != n) ::
         Cell(d', l, m) == Cell(d, l, m)
  }

  /** A file has the bytes of a block iff the block's slot names one. */
  lemma CellIffNamed(d: Disk, owner: map<nat, Slot>, loc: Loc, n: nat)
    requires Owned(d, owner) && IsSlot(d, Blk(loc, n))
    ensures Cell(d, loc, n) == None <==> BlockNo(d, loc, n) == 0
    ensures n >= NDIRECT && Cell(d, loc, n) != None ==> d.files[loc].indirect != 0
  {
    if BlockNo(d, loc, n) != 0 {
      NamedBlock(d, owner, Blk(loc, n));
      assert SlotVal(d, Blk(loc, n)) == BlockNo(d, loc, n);
    }
  }

  /** A named block is owned, in range and of the right kind. */
  lemma NamedBlock(d: Disk, owner: map<nat, Slot>, s: Slot)
    requires Owned(d, owner) && IsSlot(d, s) && SlotVal(d, s) != 0
    ensures var b := SlotVal(d, s);
            && b in owner && owner[b] == s && FirstData(|d.blocks|) <= b < |d.blocks| && !d.free[b]
            && (if s.Ptr? then d.blocks[b].Ind? else d.blocks[b].Data?)
  {
    assert OwnedBlock(d, owner[SlotVal(d, s)], SlotVal(d, s));
  }

  lemma SetBlockNoSlots(d: Disk, owner: map<nat, Slot>, loc: Loc, n: nat, b: nat)
    requires Owned(d, owner) && IsSlot(d, Blk(loc, n)) && (n >= NDIRECT ==> d.files[loc].indirect != 0)
    ensures n >= NDIRECT ==> d.files[loc].indirect < |d.blocks| && d.blocks[d.files[loc].indirect].Ind?
    ensures SlotsBut(d, SetBlockNo(d, loc, n, b), Blk(loc, n), b)
  {
    if n >= NDIRECT {
      NamedBlock(d, owner, Ptr(loc));
    }
    var d' := SetBlockNo(d, loc, n, b);
    forall t | IsSlot(d, t) ensures SlotVal(d', t) == if t == Blk(loc, n) then b else SlotVal(d, t) {
      if t.Blk? && t.n >= NDIRECT && n >= NDIRECT && t.loc != loc && SlotVal(d, Ptr(t.loc)) != 0 {
        NamedBlock(d, owner, Ptr(t.loc));
      }
    }
  }

  /** Contents of every block but `b` of data, and every kind, are unchanged. */
  ghost predicate BlocksBut(d: Disk, d': Disk, b: nat) {
    && |d'.blocks| == |d.blocks|
    && forall c | 0 <= c < |d.blocks| && c != b ::
         d'.blocks[c].Ind? == d.blocks[c].Ind? && (d.blocks[c].Data? ==> d'.blocks[c] == d.blocks[c])
  }

  /** A free block given to an empty slot: ownership is kept. */
  lemma Grant(d: Disk, d': Disk, owner: map<nat, Slot>, s: Slot, b: nat)
    requires Owned(d, owner) && IsSlot(d, s) && SlotVal(d, s) == 0
    requires b < |d.free| && d.free[b] && d'.free == d.free[b := false]
    requires SlotsBut(d, d', s, b) && BlocksBut(d, d', b)
    requires if s.Ptr? then d'.blocks[b].Ind? else d'.blocks[b].Data?
    ensures Owned(d', owner[b := s])
  {
    var owner' := owner[b := s];
    forall c | c in owner' ensures OwnedBlock(d', owner'[c], c) {
      if c != b {
        assert OwnedBlock(d, owner[c], c);
        assert SlotVal(d, owner[c]) == c;
      } else {
        assert SlotVal(d, s) == 0;
      }
    }
    forall t | IsSlot(d', t) && SlotVal(d', t) != 0
      ensures SlotVal(d', t) in owner' && owner'[SlotVal(d', t)] == t
    {
      assert IsSlot(d, t);
      if t != s {
        assert SlotVal(d', t) == SlotVal(d, t);
        NamedBlock(d, owner, t);
      }
    }
  }

  /** A slot cleared and its block marked free: ownership is kept. */
  lemma Release(d: Disk, d': Disk, owner: map<nat, Slot>, s: Slot)
    requires Owned(d, owner) && IsSlot(d, s) && SlotVal(d, s) != 0
    requires SlotVal(d, s) < |d.free| && d'.free == d.free[SlotVal(d, s) := true]
    requires SlotsBut(d, d', s, 0) && BlocksBut(d, d', SlotVal(d, s))
    ensures Owned(d', owner - {SlotVal(d, s)})
  {
    var b := SlotVal(d, s);
    var owner' := owner - {b};
    NamedBlock(d, owner, s);
    forall c | c in owner' ensures OwnedBlock(d', owner'[c], c) {
      assert OwnedBlock(d, owner[c], c);
      assert SlotVal(d, owner[c]) == c;
    }
    forall t | IsSlot(d', t) && SlotVal(d', t) != 0
      ensures SlotVal(d', t) in owner' && owner'[SlotVal(d', t)] == t
    {
      assert IsSlot(d, t);
      assert SlotVal(d', t) == SlotVal(d, t);
      NamedBlock(d, owner, t);
    }
  }

  /** Ownership does not depend on the metadata or on the bytes of data blocks. */
  lemma SameSlots(d: Disk, d': Disk, owner: map<nat, Slot>)
    requires Owned(d, owner) && d'.free == d.free && d'.files.Keys == d.files.Keys
    requires |d'.blocks| == |d.blocks| && forall c | 0 <= c < |d.blocks| :: d'.blocks[c].Ind? == d.blocks[c].Ind?
    requires forall t {:trigger SlotVal(d, t)} {:trigger SlotVal(d', t)} | IsSlot(d, t) :: SlotVal(d', t) == SlotVal(d, t)
    ensures Owned(d', owner)
  {
    forall c | c in owner ensures OwnedBlock(d', owner[c], c) {
      assert OwnedBlock(d, owner[c], c);
      assert SlotVal(d, owner[c]) == c;
    }
    forall t | IsSlot(d', t) && SlotVal(d', t) != 0
      ensures SlotVal(d', t) in owner && owner[SlotVal(d', t)] == t
    {
      assert IsSlot(d, t);
      assert SlotVal(d', t) == SlotVal(d, t);
    }
  }

  /** If one slot changes, only the file block of that slot may change its contents. */
  lemma CellsFollowSlots(d: Disk, d': Disk, owner: map<nat, Slot>, s: Slot, v: nat, b: nat)
    requires Owned(d, owner) && SlotsBut(d, d', s, v) && BlocksBut(d, d', b)
    requires b !in owner || owner[b] == s
    ensures forall l, m: nat | l in d.files && m < NSLOTS && s != Blk(l, m) :: Cell(d', l, m) == Cell(d, l, m)
  {
    forall l, m: nat | l in d.files && m < NSLOTS && s != Blk(l, m)
      ensures Cell(d', l, m) == Cell(d, l, m)
    {
      assert SlotVal(d', Blk(l, m)) == SlotVal(d, Blk(l, m));
      if SlotVal(d, Blk(l, m)) != 0 {
        NamedBlock(d, owner, Blk(l, m));
      }
    }
  }

  /** A block gained inside the file keeps every tail empty; one past its end does not. */
  lemma GrantTails(d: Disk, d': Disk, loc: Loc, n: nat, b: nat)
    requires SlotsBut(d, d', Blk(loc, n), b) && SameMeta(d, d') && b != 0 && TailsOk(d)
    requires n >= NDIRECT ==> d.files[loc].indirect != 0
    ensures TailsOk(d') <==> n < NBlocks(d.files[loc].size)
  {
    if n < NBlocks(d.files[loc].size) {
      forall l | l in d'.files ensures TailOk(d', l) {
        assert TailOk(d, l) && Meta(d'.files[l]) == Meta(d.files[l]);
        assert SlotVal(d', Ptr(l)) == SlotVal(d, Ptr(l));
        forall m: nat | NBlocks(d'.files[l].size) <= m < NSLOTS ensures BlockNo(d', l, m) == 0 {
          assert SlotVal(d', Blk(l, m)) == SlotVal(d, Blk(l, m));
        }
      }
    } else {
      assert SlotVal(d', Blk(loc, n)) == b;
      assert Meta(d'.files[loc]) == Meta(d.files[loc]);
      assert !TailOk(d', loc);
    }
  }

  lemma GrantPtrTails(d: Disk, d': Disk, loc: Loc, b: nat)
    requires SlotsBut(d, d', Ptr(loc), b) && SameMeta(d, d') && TailsOk(d)
    requires NBlocks(d.files[loc].size) > NDIRECT
    ensures TailsOk(d')
  {
    forall l | l in d'.files ensures TailOk(d', l) {
      assert TailOk(d, l) && Meta(d'.files[l]) == Meta(d.files[l]);
      assert l != loc ==> SlotVal(d', Ptr(l)) == SlotVal(d, Ptr(l));
      forall m: nat | NBlocks(d'.files[l].size) <= m < NSLOTS ensures BlockNo(d', l, m) == 0 {
        assert SlotVal(d', Blk(l, m)) == SlotVal(d, Blk(l, m));
      }
    }
  }

  /** No block that alloc_block may hand out is free. */
  ghost predicate Exhausted(free: seq<bool>) {
    forall b | 0 <= b < 32 * (|free| / 32) && b < |free| :: !free[b]
  }

  /** How many blocks alloc_block can still hand out, of the first n. */
  function FreeBelow(free: seq<bool>, n: nat): nat
    requires n <= |free|
  {
    if n == 0 then 0 else FreeBelow(free, n - 1) + if free[n - 1] then 1 else 0
  }

  function Available(free: seq<bool>): nat {
    FreeBelow(free, 32 * (|free| / 32))
  }

  lemma {:induction false} TakeOne(free: seq<bool>, n: nat, b: nat)
    requires n <= |free| && b < |free| && free[b]
    ensures FreeBelow(free[b := false], n) == FreeBelow(free, n) - if b < n then 1 else 0
  {
    if n > 0 {
      TakeOne(free, n - 1, b);
    }
  }

  lemma {:induction false} NoneBelow(free: seq<bool>, n: nat)
    requires n <= |free|
    ensures FreeBelow(free, n) == 0 <==> forall b | 0 <= b < n :: !free[b]
  {
    if n > 0 {
      NoneBelow(free, n - 1);
    }
  }

  /** How many blocks it takes to have blocks n to hi - 1 of a file: the missing ones, and an indirect block. */
  function MissingCells(d: Disk, loc: Loc, n: nat, hi: nat): nat
    requires loc in d.files && n <= hi <= NSLOTS
    decreases hi - n
  {
    if n == hi then 0 else (if Cell(d, loc, n) == None then 1 else 0) + MissingCells(d, loc, n + 1, hi)
  }

  lemma {:induction false} AllMissing(d: Disk, loc: Loc, n: nat, hi: nat)
    requires loc in d.files && n <= hi <= NSLOTS && forall m: nat {:trigger BlockNo(d, loc, m)} | n <= m < hi :: BlockNo(d, loc, m) == 0
    ensures MissingCells(d, loc, n, hi) == hi - n
    decreases hi - n
  {
    if n < hi {
      assert BlockNo(d, loc, n) == 0;
      AllMissing(d, loc, n + 1, hi);
    }
  }

  function Missing(d: Disk, loc: Loc, n: nat, hi: nat): nat
    requires loc in d.files && n <= hi <= NSLOTS
  {
    MissingCells(d, loc, n, hi) + if n < hi && hi > NDIRECT && d.files[loc].indirect == 0 then 1 else 0
  }

  /** What it takes to have block n alone. */
  function Needed(d: Disk, loc: Loc, n: nat): nat
    requires loc in d.files
  {
    if n >= NSLOTS then 0
    else (if Cell(d, loc, n) == None then 1 else 0) + if n >= NDIRECT && d.files[loc].indirect == 0 then 1 else 0
  }

  lemma {:induction false} SameMissing(d: Disk, d': Disk, loc: Loc, n: nat, hi: nat)
    requires loc in d.files && loc in d'.files && n <= hi <= NSLOTS
    requires forall m: nat {:trigger Cell(d', loc, m)} | n <= m < hi :: Cell(d', loc, m) == Cell(d, loc, m)
    ensures MissingCells(d', loc, n, hi) == MissingCells(d, loc, n, hi)
    decreases hi - n
  {
    if n < hi {
      assert Cell(d', loc, n) == Cell(d, loc, n);
      SameMissing(d, d', loc, n + 1, hi);
    }
  }

  /** Block n of a file has been had, for what that takes. */
  ghost predicate GotBlock(d: Disk, d': Disk, loc: Loc, n: nat) {
    && loc in d.files && loc in d'.files && n < NSLOTS && CellsBut(d, d', loc, n) && Cell(d', loc, n) != None
    && Available(d'.free) == Available(d.free) - Needed(d, loc, n)
    && if n < NDIRECT then d'.files[loc].indirect == d.files[loc].indirect else d'.files[loc].indirect != 0
  }

  /** The blocks that a range of positions [pos, end) needs and has not got. */
  function RangeMissing(d: Disk, loc: Loc, pos: nat, end: nat): nat
    requires loc in d.files
  {
    if pos >= end || end > MAXFILESIZE then 0 else Missing(d, loc, pos / 4096, NBlocks(end))
  }

  /** What is to spare after the rest of a range has been had. */
  function Spare(d: Disk, loc: Loc, pos: nat, end: nat): int
    requires loc in d.files
  {
    Available(d.free) - RangeMissing(d, loc, pos, end)
  }

  lemma ChunkEnd(pos: nat, end: nat, next: nat)
    requires pos < end && next == if 4096 - pos % 4096 < end - pos then pos + (4096 - pos % 4096) else end
    ensures pos < next <= end
    ensures next < end ==> next / 4096 == pos / 4096 + 1
    ensures next == end ==> NBlocks(end) == pos / 4096 + 1
  {
  }

  /** One turn of a loop over a range spends what its block takes. */
  lemma SpareNext(d: Disk, d': Disk, loc: Loc, pos: nat, end: nat, next: nat)
    requires GotBlock(d, d', loc, pos / 4096) && pos < end <= MAXFILESIZE
    requires next == if 4096 - pos % 4096 < end - pos then pos + (4096 - pos % 4096) else end
    ensures Spare(d', loc, next, end) == Spare(d, loc, pos, end)
  {
    ChunkEnd(pos, end, next);
    MissingNext(d, d', loc, pos / 4096, NBlocks(end));
  }

  /** A turn that cannot have its block leaves the range without a chance. */
  lemma SpareShort(d: Disk, loc: Loc, pos: nat, end: nat)
    requires loc in d.files && pos < end <= MAXFILESIZE && Needed(d, loc, pos / 4096) > Available(d.free)
    ensures Spare(d, loc, pos, end) < 0
  {
    assert pos / 4096 < NBlocks(end);
  }

  /** After block n has been had, this much is left to do. */
  lemma MissingNext(d: Disk, d': Disk, loc: Loc, n: nat, hi: nat)
    requires loc in d.files && n < hi <= NSLOTS && CellsBut(d, d', loc, n) && Cell(d', loc, n) != None
    requires if n < NDIRECT then d'.files[loc].indirect == d.files[loc].indirect else d'.files[loc].indirect != 0
    ensures Missing(d', loc, n + 1, hi) == Missing(d, loc, n, hi) - Needed(d, loc, n)
  {
    SameMissing(d, d', loc, n + 1, hi);
  }

  // ---------------------------------------------------------- the file system

  /** The operations of a run. */
  datatype Op =
    | GetBlock(loc: Loc, n: nat)
    | Read(loc: Loc, count: nat, offset: nat)
    | Write(loc: Loc, data: seq<Byte>, offset: nat)
    | SetSize(loc: Loc, size: nat)
    | Remove(loc: Loc)

  /** The operation is on a regular file there is, and inside the largest file. */
  predicate CanDo(files: map<Loc, File>, op: Op) {
    && op.loc in files && files[op.loc].ftype == Regular
    && (op.GetBlock? ==> op.n < NSLOTS && op.n < NBlocks(files[op.loc].size))
    && (op.Write? ==> op.offset + |op.data| <= MAXFILESIZE)
    && (op.SetSize? ==> op.size <= MAXFILESIZE)
  }

  /** The free blocks that an operation takes: with fewer it fails. */
  function Cost(d: Disk, op: Op): nat
    requires op.loc in d.files
  {
    match op
    case GetBlock(loc, n) => Needed(d, loc, n)
    case Read(loc, count, offset) => RangeMissing(d, loc, offset, offset + ReadLen(d.files[loc].size, count, offset))
    case Write(loc, data, offset) => RangeMissing(d, loc, offset, offset + |data|)
    case SetSize(_, _) => 0
    case Remove(_) => 0
  }

  /** What a file is to those who use it.  A directory is its records, and has no bytes here. */
  datatype Contents = Contents(ftype: FileType, size: nat, cells: Cells)

  type Cells = s: seq<Option<Bytes>> | |s| == NSLOTS witness seq(NSLOTS, _ => None)

  function ContentsOf(d: Disk, loc: Loc): Contents
    requires loc in d.files
  {
    var f := d.files[loc];
    Contents(f.ftype, f.size, seq(NSLOTS, n requires 0 <= n < NSLOTS => if f.ftype == Regular then Cell(d, loc, n) else None))
  }

  function ByteIn(c: Contents, p: nat): Option<Byte>
    requires p < MAXFILESIZE
  {
    if c.cells[p / 4096] == None then None else Some(c.cells[p / 4096].value[p % 4096])
  }

  ghost predicate HasBytes(c: Contents, offset: nat, buf: seq<Byte>) {
    && offset + |buf| <= MAXFILESIZE
    && forall p {:trigger ByteIn(c, p)} | offset <= p < offset + |buf| :: ByteIn(c, p) == Some(buf[p - offset])
  }

  ghost predicate KeepsCells(c: Contents, c': Contents) {
    forall m {:trigger c'.cells[m]} | 0 <= m < NSLOTS && c.cells[m] != None :: c'.cells[m] == c.cells[m]
  }

  /** What an operation does to a file with contents c; buf is what a read returns. */
  ghost predicate OpDone(c: Contents, op: Op, buf: seq<Byte>, c': Contents) {
    && c'.ftype == c.ftype
    && match op
       case GetBlock(_, n) => c'.size == c.size && KeepsCells(c, c') && n < NSLOTS && c'.cells[n] != None
       case Read(_, count, offset) =>
         && c'.size == c.size && KeepsCells(c, c')
         && |buf| == ReadLen(c.size, count, offset) && (buf != [] ==> HasBytes(c', offset, buf))
       case Write(_, data, offset) =>
         && c'.size == (if offset + |data| > c.size then offset + |data| else c.size) && HasBytes(c', offset, data)
         && forall p: nat {:trigger ByteIn(c', p)} | p < MAXFILESIZE && !(offset <= p < offset + |data|) && ByteIn(c, p) != None ::
              ByteIn(c', p) == ByteIn(c, p)
       case SetSize(_, size) =>
         && c'.size == size
         && forall m {:trigger c'.cells[m]} | 0 <= m < NSLOTS ::
              c'.cells[m] == if size < c.size && m >= NBlocks(size) then None else c.cells[m]
       case Remove(_) => c'.size == 0 && forall m {:trigger c'.cells[m]} | 0 <= m < NSLOTS :: c'.cells[m] == None
  }

  lemma BytesOfContents(d: Disk, loc: Loc, p: nat)
    requires loc in d.files && p < MAXFILESIZE && d.files[loc].ftype == Regular
    ensures ByteIn(ContentsOf(d, loc), p) == ByteAt(d, loc, p)
  {
  }

  lemma ContentsHave(d: Disk, loc: Loc, offset: nat, buf: seq<Byte>)
    requires loc in d.files && Holds(d, loc, offset, buf) && d.files[loc].ftype == Regular
    ensures HasBytes(ContentsOf(d, loc), offset, buf)
  {
    forall p | offset <= p < offset + |buf| ensures ByteIn(ContentsOf(d, loc), p) == Some(buf[p - offset]) {
      BytesOfContents(d, loc, p);
      assert ByteAt(d, loc, p) == Some(buf[p - offset]);
    }
  }

  lemma GetBlockDone(d: Disk, d': Disk, loc: Loc, n: nat)
    requires loc in d.files && d.files[loc].ftype == Regular && loc in d'.files && n < NSLOTS && SameMeta(d, d') && CellsBut(d, d', loc, n)
    requires Cell(d', loc, n) != None && (Cell(d, loc, n) != None ==> Cell(d', loc, n) == Cell(d, loc, n))
    ensures OpDone(ContentsOf(d, loc), GetBlock(loc, n), [], ContentsOf(d', loc))
  {
    assert Meta(d'.files[loc]) == Meta(d.files[loc]);
    forall m | 0 <= m < NSLOTS && m != n ensures ContentsOf(d', loc).cells[m] == ContentsOf(d, loc).cells[m] {
      assert Cell(d', loc, m) == Cell(d, loc, m);
    }
  }

  lemma ReadDone(d: Disk, d': Disk, loc: Loc, count: nat, offset: nat, buf: seq<Byte>)
    requires loc in d.files && d.files[loc].ftype == Regular && loc in d'.files && SameMeta(d, d') && CellsKept(d, d', loc)
    requires |buf| == ReadLen(d.files[loc].size, count, offset) && (buf != [] ==> Holds(d', loc, offset, buf))
    ensures OpDone(ContentsOf(d, loc), Read(loc, count, offset), buf, ContentsOf(d', loc))
  {
    assert Meta(d'.files[loc]) == Meta(d.files[loc]);
    forall m: nat | m < NSLOTS && Cell(d, loc, m) != None
      ensures ContentsOf(d', loc).cells[m] == ContentsOf(d, loc).cells[m]
    {
      assert Cell(d', loc, m) == Cell(d, loc, m);
    }
    if buf != [] {
      ContentsHave(d', loc, offset, buf);
    }
  }

  lemma WriteDone(d: Disk, d': Disk, loc: Loc, data: seq<Byte>, offset: nat)
    requires loc in d.files && d.files[loc].ftype == Regular && loc in d'.files && Holds(d', loc, offset, data)
    requires KeptOutside(d, d', loc, offset, offset + |data|)
    requires Meta(d'.files[loc]) == Meta(d.files[loc].(size :=
               if offset + |data| > d.files[loc].size then offset + |data| else d.files[loc].size))
    ensures OpDone(ContentsOf(d, loc), Write(loc, data, offset), [], ContentsOf(d', loc))
  {
    var c, c' := ContentsOf(d, loc), ContentsOf(d', loc);
    ContentsHave(d', loc, offset, data);
    forall p: nat | p < MAXFILESIZE && !(offset <= p < offset + |data|) && ByteIn(c, p) != None
      ensures ByteIn(c', p) == ByteIn(c, p)
    {
      BytesOfContents(d, loc, p);
      BytesOfContents(d', loc, p);
      assert ByteAt(d', loc, p) == ByteAt(d, loc, p);
    }
  }

  lemma SetSizeDone(d: Disk, d': Disk, loc: Loc, size: nat)
    requires loc in d.files && d.files[loc].ftype == Regular && loc in d'.files && Meta(d'.files[loc]) == Meta(d.files[loc].(size := size))
    requires forall m: nat | m < NSLOTS ::
               Cell(d', loc, m) == if size < d.files[loc].size && m >= NBlocks(size) then None else Cell(d, loc, m)
    ensures OpDone(ContentsOf(d, loc), SetSize(loc, size), [], ContentsOf(d', loc))
  {
  }

  lemma RemoveDone(d: Disk, d': Disk, loc: Loc)
    requires loc in d.files && loc in d'.files && Meta(d'.files[loc]) == ("", 0, d.files[loc].ftype)
    requires forall s | IsSlot(d', s) && s.loc == loc :: SlotVal(d', s) == 0
    ensures OpDone(ContentsOf(d, loc), Remove(loc), [], ContentsOf(d', loc))
  {
    forall m: nat | m < NSLOTS ensures Cell(d', loc, m) == None {
      assert SlotVal(d', Blk(loc, m)) == 0;
    }
  }

  /** Regular files that no operation names keep their contents. */
  ghost predicate Untouched(d: Disk, d': Disk, ops: seq<Op>) {
    && d'.files.Keys == d.files.Keys
    && forall l, m: nat {:trigger Cell(d', l, m)} |
         l in d.files && d.files[l].ftype == Regular && m < NSLOTS && (forall op | op in ops :: op.loc != l) ::
           Cell(d', l, m) == Cell(d, l, m)
  }

  lemma UntouchedMore(d: Disk, d1: Disk, d2: Disk, ops: seq<Op>, op: Op)
    requires Untouched(d, d1, ops) && OthersKept(d1, d2, op.loc)
    ensures Untouched(d, d2, ops + [op])
  {
    forall l, m: nat | l in d.files && d.files[l].ftype == Regular && m < NSLOTS && (forall o | o in ops + [op] :: o.loc != l)
      ensures Cell(d2, l, m) == Cell(d, l, m)
    {
      assert op in ops + [op];
      assert forall o | o in ops :: o in ops + [op];
      assert Cell(d1, l, m) == Cell(d, l, m);
    }
  }

  datatype Walk = Present | NotFound | Stopped

  class FileServer {
    const bitmap: array<bool>
    const blocks: array<Block>
    var files: map<Loc, File>
    ghost var owner: map<nat, Slot>

    /** The file server once it has found the disk (fs_init): it works on the image that is there. */
    constructor (d: Disk, ghost o: map<nat, Slot>)
      ensures State() == d && owner == o && fresh(bitmap) && fresh(blocks)
    {
      bitmap := new bool[|d.free|](i requires 0 <= i < |d.free| => d.free[i]);
      blocks := new Block[|d.blocks|](i requires 0 <= i < |d.blocks| => d.blocks[i]);
      files := d.files;
      owner := o;
      new;
      assert bitmap[..] == d.free && blocks[..] == d.blocks;
    }

    function State(): Disk
      reads this, bitmap, blocks
    {
      Disk(bitmap[..], files, blocks[..])
    }

    ghost predicate Valid()
      reads this, bitmap, blocks
    {
      Owned(State(), owner)
    }

    predicate BlockIsFree(b: nat)
      reads bitmap
    {
      b < bitmap.Length && bitmap[b]
    }

    method FreeBlock(b: nat)
      requires 0 < b < bitmap.Length
      modifies bitmap
      ensures bitmap[..] == old(bitmap[..])[b := true]
    {
      bitmap[b] := true;
    }

    /**
     * The lowest free block below 32 * (nblocks / 32), marked in use.  The caller of
     * a failing search ends in diskaddr's panic, because it tests an unsigned result
     * for being negative.
     */
    method AllocBlock() returns (r: Option<nat>)
      modifies bitmap
      ensures r == None <==> old(Available(bitmap[..])) == 0
      ensures r == None ==> Exhausted(bitmap[..]) && bitmap[..] == old(bitmap[..])
      ensures r.Some? ==> Available(bitmap[..]) == old(Available(bitmap[..])) - 1
      ensures r.Some? ==>
                && r.value < 32 * (bitmap.Length / 32) && r.value < bitmap.Length && old(bitmap[..])[r.value]
                && (forall b | 0 <= b < r.value :: !old(bitmap[..])[b])
                && bitmap[..] == old(bitmap[..])[r.value := false]
    {
      for i := 0 to bitmap.Length / 32
        invariant bitmap[..] == old(bitmap[..])
        invariant forall b | 0 <= b < 32 * i :: !bitmap[b]
      {
        for j := 0 to 32
          invariant bitmap[..] == old(bitmap[..])
          invariant forall b | 0 <= b < 32 * i + j :: !bitmap[b]
        {
          if bitmap[32 * i + j] {
            NoneBelow(bitmap[..], 32 * (bitmap.Length / 32));
            TakeOne(bitmap[..], 32 * (bitmap.Length / 32), 32 * i + j);
            bitmap[32 * i + j] := false;
            return Some(32 * i + j);
          }
        }
      }
      NoneBelow(bitmap[..], 32 * (bitmap.Length / 32));
      return None;
    }

    /** file_block_walk's allocation of an indirect block, cleared. */
    method GrantIndirect(loc: Loc) returns (ok: bool)
      requires Valid() && loc in files && files[loc].indirect == 0
      modifies this, bitmap, blocks
      ensures Valid()
      ensures ok <==> old(Available(bitmap[..])) > 0
      ensures ok ==> Available(bitmap[..]) == old(Available(bitmap[..])) - 1
      ensures !ok ==> State() == old(State()) && owner == old(owner) && Exhausted(bitmap[..])
      ensures ok ==> loc in files && files[loc].indirect != 0 && SameMeta(old(State()), State())
      ensures ok ==> SlotsBut(old(State()), State(), Ptr(loc), files[loc].indirect)
      ensures forall l, m: nat | l in files && m < NSLOTS :: Cell(State(), l, m) == Cell(old(State()), l, m)
    {
      ghost var d := State();
      var r := AllocBlock();
      if r == None {
        return false;
      }
      var b := r.value;
      files := files[loc := files[loc].(indirect := b)];
      blocks[b] := Ind(ZeroEntries());
      ghost var d' := State();
      assert d'.blocks == d.blocks[b := Ind(ZeroEntries())];
      GrantIndirectSlots(d, owner, loc, b);
      CellsFollowSlots(d, d', owner, Ptr(loc), b, b);
      Grant(d, d', owner, Ptr(loc), b);
      owner := owner[b := Ptr(loc)];
      ok := true;
    }

    /** file_get_block's allocation of a data block; its bytes are whatever the block held. */
    method GrantData(loc: Loc, n: nat) returns (ok: bool)
      requires Valid() && IsSlot(State(), Blk(loc, n)) && BlockNo(State(), loc, n) == 0
      requires n >= NDIRECT ==> files[loc].indirect != 0
      modifies this, bitmap, blocks
      ensures Valid()
      ensures ok <==> old(Available(bitmap[..])) > 0
      ensures ok ==> Available(bitmap[..]) == old(Available(bitmap[..])) - 1
      ensures ok ==> loc in files && files[loc].indirect == old(files)[loc].indirect
      ensures !ok ==> State() == old(State()) && Exhausted(bitmap[..])
      ensures ok ==> SameMeta(old(State()), State()) && CellsBut(old(State()), State(), loc, n)
      ensures ok ==> Cell(State(), loc, n) != None
      ensures ok ==> BlockNo(State(), loc, n) != 0 && SlotsBut(old(State()), State(), Blk(loc, n), BlockNo(State(), loc, n))
    {
      ghost var d := State();
      var r := AllocBlock();
      if r == None {
        return false;
      }
      var b := r.value;
      SetBlockNoSlots(d, owner, loc, n, b);
      if n < NDIRECT {
        files := files[loc := files[loc].(direct := files[loc].direct[n := b])];
      } else {
        blocks[files[loc].indirect] := Ind(blocks[files[loc].indirect].entries[n - NDIRECT := b]);
      }
      ghost var d1 := State();
      assert d1 == SetBlockNo(d, loc, n, b).(free := d.free[b := false]);
      var garbage: Bytes := *;
      blocks[b] := Data(garbage);
      ghost var d2 := State();
      assert d2 == d1.(blocks := d1.blocks[b := Data(garbage)]);
      GrantDataSlots(d, d2, owner, loc, n, b, garbage);
      CellsFollowSlots(d, d2, owner, Blk(loc, n), b, b);
      Grant(d, d2, owner, Blk(loc, n), b);
      owner := owner[b := Blk(loc, n)];
      ok := true;
    }

    /**
     * file_block_walk: afterwards the slot of block n exists, unless an indirect block
     * is missing and may not be allocated, or cannot be.
     */
    method FileBlockWalk(loc: Loc, n: nat, alloc: bool) returns (r: Walk)
      requires Valid() && IsSlot(State(), Blk(loc, n))
      modifies this, bitmap, blocks
      ensures Valid() && SameMeta(old(State()), State())
      ensures forall l, m: nat | l in files && m < NSLOTS :: Cell(State(), l, m) == Cell(old(State()), l, m)
      ensures r == NotFound <==> n >= NDIRECT && old(files)[loc].indirect == 0 && !alloc
      ensures r == Stopped ==> alloc && Exhausted(bitmap[..]) && n >= NDIRECT && old(files)[loc].indirect == 0
      ensures r == Present ==> (n >= NDIRECT ==> files[loc].indirect != 0)
      ensures n < NDIRECT || !alloc || old(files)[loc].indirect != 0 || r == Stopped ==> State() == old(State()) && owner == old(owner)
      ensures WalkOk(old(State()), State(), loc, n)
      ensures r == Stopped <==>
                alloc && n >= NDIRECT && old(files)[loc].indirect == 0 && old(Available(bitmap[..])) == 0
      ensures r == Present ==>
                Available(bitmap[..]) == old(Available(bitmap[..])) -
                                         if n >= NDIRECT && old(files)[loc].indirect == 0 then 1 else 0
    {
      if n < NDIRECT {
        return Present;
      }
      if files[loc].indirect == 0 {
        if !alloc {
          return NotFound;
        }
        var ok := GrantIndirect(loc);
        if !ok {
          return Stopped;
        }
      }
      return Present;
    }

    /**
     * file_get_block: the disk block of block n of the file, allocated if need be.  No
     * other block of any file changes.  The tail of the file stays empty exactly when
     * n is inside the file.
     */
    method FileGetBlock(loc: Loc, n: nat) returns (ok: bool, b: nat)
      requires Valid() && IsSlot(State(), Blk(loc, n))
      modifies this, bitmap, blocks
      ensures Valid() && SameMeta(old(State()), State()) && CellsBut(old(State()), State(), loc, n)
      ensures !ok ==> Exhausted(bitmap[..]) && Cell(State(), loc, n) == Cell(old(State()), loc, n)
      ensures ok ==> b == BlockNo(State(), loc, n) && 0 < b < blocks.Length && Cell(State(), loc, n) != None
      ensures BlockNo(old(State()), loc, n) != 0 ==> ok && State() == old(State()) && owner == old(owner)
      ensures old(TailsOk(State())) && n < NBlocks(old(files)[loc].size) ==> TailsOk(State())
      ensures ok && old(TailsOk(State())) && TailsOk(State()) ==> n < NBlocks(files[loc].size)
      ensures ok <==> old(Needed(State(), loc, n)) <= old(Available(bitmap[..]))
      ensures ok ==> GotBlock(old(State()), State(), loc, n)
    {
      b := 0;
      ghost var d := State();
      CellIffNamed(d, owner, loc, n);
      var r := FileBlockWalk(loc, n, true);
      ghost var d1 := State();
      WalkFrame(d, d1, owner, loc, n);
      if r == Stopped {
        return false, b;
      }
      ok, b := GetSlotBlock(loc, n);
      CellsButTrans(d, d1, State(), loc, n);
      if ok && TailsOk(State()) {
        assert TailOk(State(), loc);
      }
    }

    /** The end of file_get_block: the block the slot names, or a new one. */
    method GetSlotBlock(loc: Loc, n: nat) returns (ok: bool, b: nat)
      requires Valid() && IsSlot(State(), Blk(loc, n)) && (n >= NDIRECT ==> files[loc].indirect != 0)
      modifies this, bitmap, blocks
      ensures Valid() && SameMeta(old(State()), State()) && CellsBut(old(State()), State(), loc, n)
      ensures !ok ==> Exhausted(bitmap[..]) && Cell(State(), loc, n) == Cell(old(State()), loc, n)
      ensures ok ==> b == BlockNo(State(), loc, n) && 0 < b < blocks.Length && Cell(State(), loc, n) != None
      ensures BlockNo(old(State()), loc, n) != 0 ==> ok && State() == old(State()) && owner == old(owner)
      ensures old(TailsOk(State())) && n < NBlocks(old(files)[loc].size) ==> TailsOk(State())
      ensures ok <==> old(Cell(State(), loc, n)) != None || old(Available(bitmap[..])) > 0
      ensures ok ==> files[loc].indirect == old(files)[loc].indirect
      ensures ok ==> Available(bitmap[..]) == old(Available(bitmap[..])) - if old(Cell(State(), loc, n)) == None then 1 else 0
    {
      ghost var d := State();
      CellIffNamed(d, owner, loc, n);
      b := if n < NDIRECT then files[loc].direct[n] else IndirectEntry(loc, n);
      if b == 0 {
        ok := GrantData(loc, n);
        if !ok {
          return;
        }
        if TailsOk(d) {
          GrantTails(d, State(), loc, n, BlockNo(State(), loc, n));
        }
        b := if n < NDIRECT then files[loc].direct[n] else IndirectEntry(loc, n);
      }
      ok := true;
      NamedBlock(State(), owner, Blk(loc, n));
    }

    function IndirectEntry(loc: Loc, n: nat): (b: nat)
      requires Valid() && loc in files && NDIRECT <= n < NSLOTS && files[loc].indirect != 0
      reads this, bitmap, blocks
      ensures b == BlockNo(State(), loc, n)
    {
      NamedBlock(State(), owner, Ptr(loc));
      blocks[files[loc].indirect].entries[n - NDIRECT]
    }

    /** One turn of file_read's loop: the bytes from pos to the end of its block or of the range. */
    method ReadChunk(loc: Loc, pos: nat, end: nat) returns (ok: bool, chunk: seq<Byte>)
      requires Inv(State(), owner) && loc in files && pos < end <= files[loc].size
      modifies this, bitmap, blocks
      ensures Inv(State(), owner) && SameMeta(old(State()), State()) && CellsKept(old(State()), State(), loc)
      ensures !ok ==> Exhausted(bitmap[..])
      ensures ok <==> old(Needed(State(), loc, pos / 4096)) <= old(Available(bitmap[..]))
      ensures ok ==> GotBlock(old(State()), State(), loc, pos / 4096)
      ensures ok ==> |chunk| == (if 4096 - pos % 4096 < end - pos then 4096 - pos % 4096 else end - pos)
      ensures ok ==> Holds(State(), loc, pos, chunk)
    {
      assert TailOk(State(), loc);
      chunk := [];
      var b;
      ok, b := FileGetBlock(loc, pos / 4096);
      if !ok {
        return;
      }
      var bn := if 4096 - pos % 4096 < end - pos then 4096 - pos % 4096 else end - pos;
      chunk := blocks[b].bytes[pos % 4096..pos % 4096 + bn];
    }

    /**
     * file_read: the bytes from offset on, at most count of them and none past the end
     * of the file.  Reading allocates the blocks of a hole, and changes nothing else.  It
     * succeeds iff there are enough free blocks for the holes in the range.
     */
    method FileRead(loc: Loc, count: nat, offset: nat) returns (ok: bool, buf: seq<Byte>)
      requires Inv(State(), owner) && loc in files
      modifies this, bitmap, blocks
      ensures Inv(State(), owner) && SameMeta(old(State()), State()) && CellsKept(old(State()), State(), loc)
      ensures !ok ==> Exhausted(bitmap[..])
      ensures ok <==> old(RangeMissing(State(), loc, offset, offset + ReadLen(files[loc].size, count, offset))
                          <= Available(bitmap[..]))
      ensures ok ==> |buf| == ReadLen(files[loc].size, count, offset)
      ensures ok && buf != [] ==> Holds(State(), loc, offset, buf)
      ensures ok && offset >= files[loc].size ==> buf == []
      ensures ok && offset < files[loc].size ==>
                || (|buf| == count && offset + count <= files[loc].size)
                || (|buf| < count && offset + |buf| == files[loc].size)
    {
      buf := [];
      assert TailOk(State(), loc);
      if offset >= files[loc].size {
        return true, buf;
      }
      var n := if count < files[loc].size - offset then count else files[loc].size - offset;
      assert n == ReadLen(files[loc].size, count, offset);
      ok, buf := ReadData(loc, offset, offset + n);
    }

    /**
     * Reading a file to its end, at most count bytes at a time: the first empty read comes
     * when exactly the file's bytes have been read.
     */
    method ReadToEnd(loc: Loc, count: nat) returns (ok: bool, all: seq<Byte>)
      requires Inv(State(), owner) && loc in files && count > 0
      modifies this, bitmap, blocks
      ensures Inv(State(), owner) && SameMeta(old(State()), State()) && CellsKept(old(State()), State(), loc)
      ensures !ok ==> Exhausted(bitmap[..])
      ensures ok ==> |all| == files[loc].size
      ensures ok ==> forall p | 0 <= p < files[loc].size :: p < MAXFILESIZE && ByteAt(State(), loc, p) == Some(all[p])
    {
      all := [];
      ghost var d0 := State();
      assert TailOk(d0, loc);
      while true
        invariant Inv(State(), owner) && SameMeta(d0, State()) && CellsKept(d0, State(), loc)
        invariant loc in files && |all| <= d0.files[loc].size <= MAXFILESIZE && Holds(State(), loc, 0, all)
        decreases d0.files[loc].size - |all|
      {
        ghost var d := State();
        assert Meta(d.files[loc]) == Meta(d0.files[loc]);
        var buf;
        ok, buf := FileRead(loc, count, |all|);
        CellsKeptTrans(d0, d, State(), loc);
        assert Meta(files[loc]) == Meta(d.files[loc]);
        if !ok {
          return;
        }
        if buf == [] {
          CellsHold(d, State(), loc, 0, all);
          return;
        }
        HoldsAppend(d, State(), loc, 0, all, buf);
        all := all + buf;
      }
    }

    /** file_read's loop: the bytes from offset to end, which is inside the file. */
    method ReadData(loc: Loc, offset: nat, end: nat) returns (ok: bool, buf: seq<Byte>)
      requires Inv(State(), owner) && loc in files && offset <= end <= files[loc].size
      modifies this, bitmap, blocks
      ensures Inv(State(), owner) && SameMeta(old(State()), State()) && CellsKept(old(State()), State(), loc)
      ensures !ok ==> Exhausted(bitmap[..])
      ensures ok <==> old(RangeMissing(State(), loc, offset, end) <= Available(bitmap[..]))
      ensures ok ==> |buf| == end - offset && Holds(State(), loc, offset, buf)
    {
      var pos := offset;
      buf := [];
      ghost var d0 := State();
      assert TailOk(d0, loc);
      while pos < end
        invariant Inv(State(), owner) && offset <= pos <= end && |buf| == pos - offset
        invariant Reading(d0, State(), loc, offset, end, buf)
      {
        ok, buf := ReadTurn(d0, loc, offset, end, buf);
        if !ok {
          return;
        }
        pos := offset + |buf|;
      }
      return true, buf;
    }

    /** One turn of file_read's loop, with what it does for the whole range. */
    method ReadTurn(ghost d0: Disk, loc: Loc, offset: nat, end: nat, buf: seq<Byte>) returns (ok: bool, buf': seq<Byte>)
      requires Inv(State(), owner) && Reading(d0, State(), loc, offset, end, buf)
      requires offset + |buf| < end <= d0.files[loc].size <= MAXFILESIZE
      modifies this, bitmap, blocks
      ensures Inv(State(), owner) && SameMeta(d0, State()) && CellsKept(d0, State(), loc)
      ensures !ok ==> Exhausted(bitmap[..]) && Spare(d0, loc, offset, end) < 0
      ensures ok ==> |buf| < |buf'| <= end - offset && Reading(d0, State(), loc, offset, end, buf')
    {
      ghost var d, pos := State(), offset + |buf|;
      assert Meta(d.files[loc]) == Meta(d0.files[loc]);
      var chunk;
      ok, chunk := ReadChunk(loc, offset + |buf|, end);
      CellsKeptTrans(d0, d, State(), loc);
      buf' := buf + chunk;
      if ok {
        SpareNext(d, State(), loc, pos, end, pos + |chunk|);
        ChunkEnd(pos, end, pos + |chunk|);
        HoldsAppend(d, State(), loc, offset, buf, chunk);
      } else {
        SpareShort(d, loc, pos, end);
      }
    }

    /** One turn of file_write's loop: the data that falls into the block of pos. */
    method WriteChunk(loc: Loc, pos: nat, data: seq<Byte>) returns (ok: bool, bn: nat)
      requires Inv(State(), owner) && loc in files && data != [] && pos + |data| <= files[loc].size
      modifies this, bitmap, blocks
      ensures Inv(State(), owner) && SameMeta(old(State()), State()) && OthersKept(old(State()), State(), loc)
      ensures !ok ==> Exhausted(bitmap[..])
      ensures ok <==> old(Needed(State(), loc, pos / 4096)) <= old(Available(bitmap[..]))
      ensures ok ==> GotBlock(old(State()), State(), loc, pos / 4096)
      ensures ok ==> bn == (if 4096 - pos % 4096 < |data| then 4096 - pos % 4096 else |data|)
      ensures ok ==> Holds(State(), loc, pos, data[..bn]) && KeptOutside(old(State()), State(), loc, pos, pos + bn)
    {
      assert TailOk(State(), loc);
      bn := 0;
      var b;
      ok, b := FileGetBlock(loc, pos / 4096);
      if !ok {
        return;
      }
      var o := pos % 4096;
      bn := if 4096 - o < |data| then 4096 - o else |data|;
      ghost var d := State();
      NamedBlock(d, owner, Blk(loc, pos / 4096));
      var bytes := blocks[b].bytes[..o] + data[..bn] + blocks[b].bytes[o + bn..];
      SetBytes(d, owner, loc, pos / 4096, bytes);
      blocks[b] := Data(bytes);
      assert State() == d.(blocks := d.blocks[b := Data(bytes)]);
      PatchedBlock(old(State()), d, State(), loc, pos, data[..bn], bytes);
      CellsButTrans(old(State()), d, State(), loc, pos / 4096);
    }

    /** file_write's loop: the data goes to [offset, offset + |data|), which is inside the file. */
    method WriteData(loc: Loc, data: seq<Byte>, offset: nat) returns (ok: bool)
      requires Inv(State(), owner) && loc in files && offset + |data| <= files[loc].size
      modifies this, bitmap, blocks
      ensures Inv(State(), owner) && SameMeta(old(State()), State()) && OthersKept(old(State()), State(), loc)
      ensures !ok ==> Exhausted(bitmap[..])
      ensures ok <==> old(RangeMissing(State(), loc, offset, offset + |data|) <= Available(bitmap[..]))
      ensures ok ==> Holds(State(), loc, offset, data)
      ensures ok ==> KeptOutside(old(State()), State(), loc, offset, offset + |data|)
    {
      assert TailOk(State(), loc);
      var pos, k := offset, 0;
      ghost var d0 := State();
      while pos < offset + |data|
        invariant Inv(State(), owner) && pos == offset + k && k <= |data|
        invariant Writing(d0, State(), loc, offset, data, k)
      {
        var bn;
        ok, bn := WriteTurn(d0, loc, offset, data, k);
        if !ok {
          return;
        }
        pos := pos + bn;
        k := k + bn;
      }
      assert data[..|data|] == data;
      return true;
    }

    /** One turn of file_write's loop, with what it does for the whole range. */
    method WriteTurn(ghost d0: Disk, loc: Loc, offset: nat, data: seq<Byte>, k: nat) returns (ok: bool, bn: nat)
      requires Inv(State(), owner) && Writing(d0, State(), loc, offset, data, k)
      requires k < |data| && offset + |data| <= d0.files[loc].size <= MAXFILESIZE
      modifies this, bitmap, blocks
      ensures Inv(State(), owner) && SameMeta(d0, State()) && OthersKept(d0, State(), loc)
      ensures !ok ==> Exhausted(bitmap[..]) && Spare(d0, loc, offset, offset + |data|) < 0
      ensures ok ==> 0 < bn <= |data| - k && Writing(d0, State(), loc, offset, data, k + bn)
    {
      ghost var d := State();
      assert Meta(d.files[loc]) == Meta(d0.files[loc]);
      ok, bn := WriteChunk(loc, offset + k, data[k..]);
      OthersKeptTrans(d0, d, State(), loc);
      if ok {
        WriteTurned(d0, d, State(), loc, offset, data, k, bn);
      } else {
        SpareShort(d, loc, offset + k, offset + |data|);
      }
    }

    /** file_free_block: block n of the file, if it has one, becomes free. */
    method FileFreeBlock(loc: Loc, n: nat) returns (r: Walk)
      requires Valid() && IsSlot(State(), Blk(loc, n))
      modifies this, bitmap, blocks
      ensures Valid() && SameMeta(old(State()), State())
      ensures SlotsBut(old(State()), State(), Blk(loc, n), 0) && CellsBut(old(State()), State(), loc, n)
    {
      ghost var d := State();
      r := FileBlockWalk(loc, n, false);
      if r == NotFound {
        return;
      }
      var b := if n < NDIRECT then files[loc].direct[n] else IndirectEntry(loc, n);
      if b != 0 {
        NamedBlock(d, owner, Blk(loc, n));
        SetBlockNoSlots(d, owner, loc, n, 0);
        FreeBlock(b);
        if n < NDIRECT {
          files := files[loc := files[loc].(direct := files[loc].direct[n := 0])];
        } else {
          blocks[files[loc].indirect] := Ind(blocks[files[loc].indirect].entries[n - NDIRECT := 0]);
        }
        ghost var d' := State();
        assert d' == SetBlockNo(d, loc, n, 0).(free := d.free[b := true]);
        FreedSlots(d, d', SetBlockNo(d, loc, n, 0), Blk(loc, n), b);
        CellsFollowSlots(d, d', owner, Blk(loc, n), 0, b);
        Release(d, d', owner, Blk(loc, n));
        owner := owner - {b};
      }
    }

    /** The end of file_truncate_blocks: gives back an indirect block that names nothing. */
    method FreeIndirect(loc: Loc)
      requires Valid() && loc in files && files[loc].indirect != 0
      requires forall n | NDIRECT <= n < NSLOTS :: BlockNo(State(), loc, n) == 0
      modifies this, bitmap
      ensures Valid() && SameMeta(old(State()), State())
      ensures SlotsBut(old(State()), State(), Ptr(loc), 0)
      ensures forall l, m: nat | l in files && m < NSLOTS :: Cell(State(), l, m) == Cell(old(State()), l, m)
    {
      ghost var d, b := State(), files[loc].indirect;
      NamedBlock(d, owner, Ptr(loc));
      FreeBlock(files[loc].indirect);
      files := files[loc := files[loc].(indirect := 0)];
      ghost var d' := State();
      assert d' == Disk(d.free[b := true], d.files[loc := d.files[loc].(indirect := 0)], d.blocks);
      FreedIndirect(d, d', loc);
      CellsFollowSlots(d, d', owner, Ptr(loc), 0, b);
      Release(d, d', owner, Ptr(loc));
      owner := owner - {b};
    }

    /** file_truncate_blocks: frees every block past the new end, and the indirect block once unneeded. */
    method FileTruncateBlocks(loc: Loc, newsize: nat)
      requires Inv(State(), owner) && loc in files && newsize <= files[loc].size
      modifies this, bitmap, blocks
      ensures Valid() && SameMeta(old(State()), State())
      ensures Truncated(old(State()), State(), loc, NBlocks(newsize))
      ensures forall m: nat | m < NSLOTS :: BlockNo(State(), loc, m) == if m >= NBlocks(newsize) then 0 else BlockNo(old(State()), loc, m)
      ensures files[loc].indirect == if NBlocks(newsize) <= NDIRECT then 0 else old(files)[loc].indirect
    {
      ghost var d := State();
      assert TailOk(d, loc);
      var oldBlocks, newBlocks := NBlocks(files[loc].size), NBlocks(newsize);
      for bno := newBlocks to oldBlocks
        invariant Valid() && SameMeta(d, State())
        invariant Cleared(d, State(), loc, newBlocks, bno)
      {
        ghost var d1 := State();
        var r := FileFreeBlock(loc, bno);
        ClearedNext(d, d1, State(), loc, newBlocks, bno);
      }
      ghost var d1 := State();
      ClearedAll(d, d1, loc, newBlocks, oldBlocks);
      if newBlocks <= NDIRECT && files[loc].indirect != 0 {
        FreeIndirect(loc);
      }
      TruncatedAtEnd(d, d1, State(), loc, newBlocks);
      TruncatedSlots(d, State(), loc, newBlocks);
    }

    /** file_set_size: contents up to the shorter of the two sizes are kept, and the image stays well formed. */
    method FileSetSize(loc: Loc, newsize: nat)
      requires Inv(State(), owner) && loc in files && newsize <= MAXFILESIZE
      modifies this, bitmap, blocks
      ensures Inv(State(), owner) && OthersKept(old(State()), State(), loc)
      ensures files.Keys == old(files).Keys && (forall l | l in files && l != loc :: Meta(files[l]) == Meta(old(files)[l]))
      ensures Meta(files[loc]) == Meta(old(files)[loc].(size := newsize))
      ensures forall m: nat | m < NSLOTS ::
                Cell(State(), loc, m) ==
                if newsize < old(files)[loc].size && m >= NBlocks(newsize) then None else Cell(old(State()), loc, m)
      ensures newsize >= old(files)[loc].size ==>
                State() == SetMeta(old(State()), loc, old(files)[loc].name, newsize)
    {
      ghost var d := State();
      assert TailOk(d, loc);
      if files[loc].size > newsize {
        FileTruncateBlocks(loc, newsize);
        ghost var d1 := State();
        ResizeTruncated(d, d1, owner, loc, d.files[loc].name, newsize);
        assert Meta(d1.files[loc]) == Meta(d.files[loc]);
      } else {
        ResizeGrown(d, owner, loc, newsize);
      }
      files := files[loc := files[loc].(size := newsize)];
    }

    /**
     * file_write: afterwards the range holds the data, the size is the larger of the old
     * size and the end of the range, and every other byte of the file and of every other
     * file is as it was.  It succeeds iff there are enough free blocks for what is missing.
     */
    method FileWrite(loc: Loc, data: seq<Byte>, offset: nat) returns (ok: bool)
      requires Inv(State(), owner) && loc in files && offset + |data| <= MAXFILESIZE
      modifies this, bitmap, blocks
      ensures Inv(State(), owner) && OthersKept(old(State()), State(), loc)
      ensures files.Keys == old(files).Keys && (forall l | l in files && l != loc :: Meta(files[l]) == Meta(old(files)[l]))
      ensures Meta(files[loc]) == Meta(old(files)[loc].(size :=
                if offset + |data| > old(files)[loc].size then offset + |data| else old(files)[loc].size))
      ensures !ok ==> Exhausted(bitmap[..])
      ensures ok <==> old(RangeMissing(State(), loc, offset, offset + |data|) <= Available(bitmap[..]))
      ensures ok ==> Holds(State(), loc, offset, data)
      ensures ok ==> KeptOutside(old(State()), State(), loc, offset, offset + |data|)
    {
      ghost var d := State();
      assert TailOk(d, loc);
      MetaKeepsMissing(d, owner, loc, offset, offset + |data|);
      if offset + |data| > files[loc].size {
        FileSetSize(loc, offset + |data|);
      }
      ghost var d1 := State();
      ok := WriteData(loc, data, offset);
      WriteAfterGrow(d, d1, State(), loc, offset, data, ok);
    }

    /** The end of file_remove, once the path has been resolved: all blocks freed, the name and size cleared. */
    method RemoveFile(loc: Loc)
      requires Inv(State(), owner) && loc in files
      modifies this, bitmap, blocks
      ensures Inv(State(), owner) && OthersKept(old(State()), State(), loc)
      ensures files.Keys == old(files).Keys && (forall l | l in files && l != loc :: Meta(files[l]) == Meta(old(files)[l]))
      ensures Meta(files[loc]) == ("", 0, old(files)[loc].ftype)
      ensures forall s | IsSlot(State(), s) && s.loc == loc :: SlotVal(State(), s) == 0
    {
      ghost var d := State();
      FileTruncateBlocks(loc, 0);
      ghost var d1 := State();
      ResizeTruncated(d, d1, owner, loc, "", 0);
      files := files[loc := files[loc].(name := "")];
      files := files[loc := files[loc].(size := 0)];
      assert State() == SetMeta(d1, loc, "", 0);
      assert forall l | l in files && l != loc :: Meta(files[l]) == Meta(d1.files[l]);
    }

    /**
     * Any one operation.  It succeeds iff there are as many free blocks as it takes, and
     * then does to its file what it should; the image stays well formed and other files
     * are not touched.
     */
    method Step(op: Op) returns (ok: bool, buf: seq<Byte>)
      requires Inv(State(), owner) && CanDo(files, op)
      modifies this, bitmap, blocks
      ensures Inv(State(), owner) && OthersKept(old(State()), State(), op.loc)
      ensures forall l | l in files && l != op.loc :: Meta(files[l]) == Meta(old(files)[l])
      ensures files[op.loc].ftype == old(files)[op.loc].ftype && (!op.Remove? ==> files[op.loc].name == old(files)[op.loc].name)
      ensures ok <==> old(Cost(State(), op) <= Available(bitmap[..]))
      ensures ok ==> OpDone(old(ContentsOf(State(), op.loc)), op, buf, ContentsOf(State(), op.loc))
      ensures !ok ==> Exhausted(bitmap[..])
    {
      ok, buf := true, [];
      ghost var d := State();
      match op {
      case GetBlock(loc, n) =>
        var b;
        ok, b := FileGetBlock(loc, n);
        assert ok <==> Needed(d, loc, n) <= Available(d.free);
        if ok { GetBlockDone(d, State(), loc, n); }
      case Read(loc, count, offset) =>
        ok, buf := FileRead(loc, count, offset);
        assert ok <==> Cost(d, op) <= Available(d.free);
        if ok { ReadDone(d, State(), loc, count, offset, buf); }
      case Write(loc, data, offset) =>
        ok := FileWrite(loc, data, offset);
        assert ok <==> Cost(d, op) <= Available(d.free);
        if ok { WriteDone(d, State(), loc, data, offset); }
      case SetSize(loc, size) =>
        FileSetSize(loc, size);
        SetSizeDone(d, State(), loc, size);
      case Remove(loc) =>
        RemoveFile(loc);
        RemoveDone(d, State(), loc);
      }
      assert Meta(files[op.loc]).2 == Meta(d.files[op.loc]).2;
      assert !op.Remove? ==> Meta(files[op.loc]).0 == Meta(d.files[op.loc]).0;
    }

    /**
     * Any run: block ownership holds throughout, so a block is in use iff it is reserved
     * or named by exactly one slot (InUseIffNamedOnce), and files that the run does not
     * name keep their contents.  Operations that ask for something the callers never do
     * are passed over; a full disk stops the run.
     */
    method Run(ops: seq<Op>) returns (done: nat)
      requires Inv(State(), owner)
      modifies this, bitmap, blocks
      ensures done <= |ops| && (done < |ops| ==> Exhausted(bitmap[..]))
      ensures Inv(State(), owner) && Untouched(old(State()), State(), ops)
    {
      done := 0;
      while done < |ops|
        invariant done <= |ops|
        invariant Inv(State(), owner) && Untouched(old(State()), State(), ops[..done])
      {
        ghost var d := State();
        if CanDo(files, ops[done]) {
          var ok, buf := Step(ops[done]);
          UntouchedMore(old(State()), d, State(), ops[..done], ops[done]);
          assert ops[..done + 1] == ops[..done] + [ops[done]];
          if !ok {
            return;
          }
        }
        done := done + 1;
      }
    }

    /**
     * With enough free blocks for what is missing in the range, and only then, writing and
     * then reading it gives back the data.
     */
    method WriteThenRead(loc: Loc, data: seq<Byte>, offset: nat) returns (ok: bool, buf: seq<Byte>)
      requires Inv(State(), owner) && loc in files && offset + |data| <= MAXFILESIZE
      modifies this, bitmap, blocks
      ensures Inv(State(), owner)
      ensures ok <==> old(RangeMissing(State(), loc, offset, offset + |data|) <= Available(bitmap[..]))
      ensures ok ==> buf == data
      ensures !ok ==> Exhausted(bitmap[..])
    {
      buf := [];
      ok := FileWrite(loc, data, offset);
      if !ok {
        return;
      }
      ghost var d := State();
      HeldMissesNothing(d, owner, loc, offset, data);
      ok, buf := FileRead(loc, |data|, offset);
      assert Meta(files[loc]) == Meta(d.files[loc]);
      assert |buf| == |data|;
      forall i | 0 <= i < |data| ensures buf[i] == data[i] {
        assert ByteAt(d, loc, offset + i) == Some(data[offset + i - offset]);
        assert Cell(State(), loc, (offset + i) / 4096) == Cell(d, loc, (offset + i) / 4096);
        assert ByteAt(State(), loc, offset + i) == Some(buf[offset + i - offset]);
      }
    }
  }

  lemma GrantIndirectSlots(d: Disk, owner: map<nat, Slot>, loc: Loc, b: nat)
    requires Owned(d, owner) && loc in d.files && d.files[loc].indirect == 0
    requires b < |d.free| && d.free[b]
    ensures var d' := Disk(d.free[b := false], d.files[loc := d.files[loc].(indirect := b)], d.blocks[b := Ind(ZeroEntries())]);
            SlotsBut(d, d', Ptr(loc), b) && BlocksBut(d, d', b) && b != 0
  {
    var d' := Disk(d.free[b := false], d.files[loc := d.files[loc].(indirect := b)], d.blocks[b := Ind(ZeroEntries())]);
    forall t | IsSlot(d, t) ensures SlotVal(d', t) == if t == Ptr(loc) then b else SlotVal(d, t) {
      if t.Blk? && t.loc != loc && SlotVal(d, Ptr(t.loc)) != 0 {
        NamedBlock(d, owner, Ptr(t.loc));
      }
    }
  }

  lemma GrantDataSlots(d: Disk, d': Disk, owner: map<nat, Slot>, loc: Loc, n: nat, b: nat, bytes: Bytes)
    requires Owned(d, owner) && IsSlot(d, Blk(loc, n)) && (n >= NDIRECT ==> d.files[loc].indirect != 0)
    requires BlockNo(d, loc, n) == 0 && b < |d.free| && d.free[b]
    requires n >= NDIRECT ==> d.files[loc].indirect < |d.blocks| && d.blocks[d.files[loc].indirect].Ind?
    requires var e := SetBlockNo(d, loc, n, b);
             d' == Disk(d.free[b := false], e.files, e.blocks[b := Data(bytes)])
    ensures SlotsBut(d, d', Blk(loc, n), b) && BlocksBut(d, d', b) && SameMeta(d, d') && b != 0
  {
    SetBlockNoSlots(d, owner, loc, n, b);
    var e := SetBlockNo(d, loc, n, b);
    forall l | l in d.files && d.files[l].indirect != 0 ensures d.files[l].indirect != b {
      NamedBlock(d, owner, Ptr(l));
      assert SlotVal(d, Ptr(l)) == d.files[l].indirect;
    }
    forall t | IsSlot(d, t) ensures SlotVal(d', t) == if t == Blk(loc, n) then b else SlotVal(d, t) {
      assert SlotVal(e, t) == if t == Blk(loc, n) then b else SlotVal(d, t);
    }
  }

  /** Walking to block n of a file changes nothing but, at most, an indirect pointer that was missing. */
  ghost predicate WalkOk(d: Disk, d': Disk, loc: Loc, n: nat) {
    || d' == d
    || (&& loc in d.files && loc in d'.files && n >= NDIRECT && d.files[loc].indirect == 0
        && SlotsBut(d, d', Ptr(loc), d'.files[loc].indirect))
  }

  lemma WalkFrame(d: Disk, d': Disk, owner: map<nat, Slot>, loc: Loc, n: nat)
    requires SameMeta(d, d') && IsSlot(d, Blk(loc, n)) && WalkOk(d, d', loc, n)
    requires forall l, m: nat | l in d.files && m < NSLOTS :: Cell(d', l, m) == Cell(d, l, m)
    ensures CellsBut(d, d', loc, n) && Cell(d', loc, n) == Cell(d, loc, n)
    ensures TailsOk(d) && n < NBlocks(d.files[loc].size) ==> TailsOk(d')
    ensures d'.files[loc].size == d.files[loc].size
  {
    assert Meta(d'.files[loc]) == Meta(d.files[loc]);
    if TailsOk(d) && n < NBlocks(d.files[loc].size) {
      WalkTails(d, d', loc, n);
    }
  }

  lemma CellsButTrans(d: Disk, d': Disk, d'': Disk, loc: Loc, n: nat)
    requires CellsBut(d, d', loc, n) && CellsBut(d', d'', loc, n)
    ensures CellsBut(d, d'', loc, n)
  {
    forall l, m: nat | l in d.files && m < NSLOTS && (l != loc || m != n) ensures Cell(d'', l, m) == Cell(d, l, m) {
      assert Cell(d', l, m) == Cell(d, l, m);
    }
  }

  lemma WalkTails(d: Disk, d': Disk, loc: Loc, n: nat)
    requires SameMeta(d, d') && loc in d.files && n < NBlocks(d.files[loc].size) && WalkOk(d, d', loc, n) && TailsOk(d)
    ensures TailsOk(d')
  {
    if d' != d {
      GrantPtrTails(d, d', loc, d'.files[loc].indirect);
    }
  }

  lemma CellsKeptTrans(d: Disk, d': Disk, d'': Disk, loc: Loc)
    requires CellsKept(d, d', loc) && CellsKept(d', d'', loc)
    ensures CellsKept(d, d'', loc)
  {
    forall l, m: nat | l in d.files && m < NSLOTS && (l != loc || Cell(d, l, m) != None)
      ensures Cell(d'', l, m) == Cell(d, l, m)
    {
      assert Cell(d', l, m) == Cell(d, l, m);
    }
  }

  lemma CellsHold(d: Disk, d': Disk, loc: Loc, offset: nat, buf: seq<Byte>)
    requires loc in d.files && loc in d'.files && Holds(d, loc, offset, buf) && CellsKept(d, d', loc)
    ensures Holds(d', loc, offset, buf)
  {
    assert Holds(d', loc, offset + |buf|, []);
    HoldsAppend(d, d', loc, offset, buf, []);
    assert buf + [] == buf;
  }

  lemma HoldsAppend(d: Disk, d': Disk, loc: Loc, offset: nat, buf: seq<Byte>, chunk: seq<Byte>)
    requires loc in d.files && loc in d'.files && Holds(d, loc, offset, buf) && Holds(d', loc, offset + |buf|, chunk)
    requires CellsKept(d, d', loc)
    ensures Holds(d', loc, offset, buf + chunk)
  {
    forall p | offset <= p < offset + |buf + chunk| ensures ByteAt(d', loc, p) == Some((buf + chunk)[p - offset]) {
      if p < offset + |buf| {
        assert ByteAt(d, loc, p) == Some(buf[p - offset]);
        assert Cell(d', loc, p / 4096) == Cell(d, loc, p / 4096);
      }
    }
  }

  lemma OthersKeptTrans(d: Disk, d': Disk, d'': Disk, loc: Loc)
    requires OthersKept(d, d', loc) && OthersKept(d', d'', loc)
    ensures OthersKept(d, d'', loc)
  {
    forall l, m: nat | l in d.files && m < NSLOTS && l != loc ensures Cell(d'', l, m) == Cell(d, l, m) {
      assert Cell(d', l, m) == Cell(d, l, m);
    }
  }

  /** Replacing the bytes of one block of a file changes that block of that file and nothing else. */
  lemma SetBytes(d: Disk, owner: map<nat, Slot>, loc: Loc, n: nat, bytes: Bytes)
    requires Inv(d, owner) && IsSlot(d, Blk(loc, n)) && BlockNo(d, loc, n) != 0
    ensures BlockNo(d, loc, n) < |d.blocks|
    ensures var d' := d.(blocks := d.blocks[BlockNo(d, loc, n) := Data(bytes)]);
            Inv(d', owner) && CellsBut(d, d', loc, n) && Cell(d', loc, n) == Some(bytes)
  {
    NamedBlock(d, owner, Blk(loc, n));
    var b := BlockNo(d, loc, n);
    var d' := d.(blocks := d.blocks[b := Data(bytes)]);
    forall t | IsSlot(d, t) ensures SlotVal(d', t) == SlotVal(d, t) {
    }
    SameSlots(d, d', owner);
    forall l | l in d'.files ensures TailOk(d', l) {
      assert TailOk(d, l);
      forall m: nat | NBlocks(d'.files[l].size) <= m < NSLOTS ensures BlockNo(d', l, m) == 0 {
        assert SlotVal(d', Blk(l, m)) == SlotVal(d, Blk(l, m));
      }
    }
    forall l, m: nat | l in d.files && m < NSLOTS && (l != loc || m != n) ensures Cell(d', l, m) == Cell(d, l, m) {
      assert SlotVal(d', Blk(l, m)) == SlotVal(d, Blk(l, m));
      if SlotVal(d, Blk(l, m)) != 0 {
        NamedBlock(d, owner, Blk(l, m));
      }
    }
    assert SlotVal(d', Blk(loc, n)) == SlotVal(d, Blk(loc, n));
  }

  /** The effect of one chunk on the bytes of the file: d0 to d allocates, d to d' patches the block. */
  lemma PatchedBlock(d0: Disk, d: Disk, d': Disk, loc: Loc, pos: nat, data: seq<Byte>, bytes: Bytes)
    requires loc in d.files && pos + |data| <= MAXFILESIZE && pos % 4096 + |data| <= 4096
    requires d0.files.Keys == d.files.Keys == d'.files.Keys
    requires CellsBut(d0, d, loc, pos / 4096) && CellsBut(d, d', loc, pos / 4096)
    requires pos / 4096 < NSLOTS && Cell(d, loc, pos / 4096) != None && Cell(d', loc, pos / 4096) == Some(bytes)
    requires Cell(d0, loc, pos / 4096) != None ==> Cell(d, loc, pos / 4096) == Cell(d0, loc, pos / 4096)
    requires var o, was := pos % 4096, Cell(d, loc, pos / 4096).value;
             bytes == was[..o] + data + was[o + |data|..]
    ensures OthersKept(d0, d', loc) && Holds(d', loc, pos, data) && KeptOutside(d0, d', loc, pos, pos + |data|)
  {
    var n, o, was := pos / 4096, pos % 4096, Cell(d, loc, pos / 4096).value;
    forall l, m: nat | l in d0.files && m < NSLOTS && l != loc ensures Cell(d', l, m) == Cell(d0, l, m) {
      assert Cell(d, l, m) == Cell(d0, l, m);
    }
    forall p | pos <= p < pos + |data| ensures ByteAt(d', loc, p) == Some(data[p - pos]) {
      assert p / 4096 == n && p % 4096 == o + (p - pos);
    }
    forall p: nat | p < MAXFILESIZE && !(pos <= p < pos + |data|) && ByteAt(d0, loc, p) != None
      ensures ByteAt(d', loc, p) == ByteAt(d0, loc, p)
    {
      if p / 4096 == n {
        assert Cell(d, loc, n) == Cell(d0, loc, n);
        assert p % 4096 < o || p % 4096 >= o + |data|;
      } else {
        assert Cell(d, loc, p / 4096) == Cell(d0, loc, p / 4096);
      }
    }
  }

  /** A read of [offset, end) that began on d0 has got as far as buf. */
  ghost predicate Reading(d0: Disk, d: Disk, loc: Loc, offset: nat, end: nat, buf: seq<Byte>) {
    && loc in d0.files && loc in d.files && SameMeta(d0, d) && CellsKept(d0, d, loc) && Holds(d, loc, offset, buf)
    && Spare(d, loc, offset + |buf|, end) == Spare(d0, loc, offset, end)
  }

  /** A write of data at offset that began on d0 has done the first k bytes. */
  ghost predicate Writing(d0: Disk, d: Disk, loc: Loc, offset: nat, data: seq<Byte>, k: nat) {
    && loc in d0.files && loc in d.files && k <= |data| && SameMeta(d0, d) && OthersKept(d0, d, loc)
    && Holds(d, loc, offset, data[..k]) && KeptOutside(d0, d, loc, offset, offset + k)
    && Spare(d, loc, offset + k, offset + |data|) == Spare(d0, loc, offset, offset + |data|)
  }

  lemma WroteMore(d0: Disk, d: Disk, d': Disk, loc: Loc, offset: nat, data: seq<Byte>, k: nat, bn: nat)
    requires loc in d0.files && loc in d.files && loc in d'.files && k + bn <= |data| && offset + |data| <= MAXFILESIZE
    requires OthersKept(d0, d, loc) && OthersKept(d, d', loc)
    requires Holds(d, loc, offset, data[..k]) && KeptOutside(d0, d, loc, offset, offset + k)
    requires Holds(d', loc, offset + k, data[k..][..bn]) && KeptOutside(d, d', loc, offset + k, offset + k + bn)
    ensures OthersKept(d0, d', loc)
    ensures Holds(d', loc, offset, data[..k + bn]) && KeptOutside(d0, d', loc, offset, offset + k + bn)
  {
    OthersKeptTrans(d0, d, d', loc);
    forall p | offset <= p < offset + k + bn ensures ByteAt(d', loc, p) == Some(data[..k + bn][p - offset]) {
      if p < offset + k {
        assert ByteAt(d, loc, p) == Some(data[..k][p - offset]);
      } else {
        assert ByteAt(d', loc, p) == Some(data[k..][..bn][p - (offset + k)]);
      }
    }
    forall p: nat | p < MAXFILESIZE && !(offset <= p < offset + k + bn) && ByteAt(d0, loc, p) != None
      ensures ByteAt(d', loc, p) == ByteAt(d0, loc, p)
    {
      assert ByteAt(d, loc, p) == ByteAt(d0, loc, p);
    }
  }

  lemma WriteTurned(d0: Disk, d: Disk, d': Disk, loc: Loc, offset: nat, data: seq<Byte>, k: nat, bn: nat)
    requires Writing(d0, d, loc, offset, data, k) && k < |data| && offset + |data| <= MAXFILESIZE
    requires SameMeta(d, d') && OthersKept(d, d', loc) && GotBlock(d, d', loc, (offset + k) / 4096)
    requires bn == if 4096 - (offset + k) % 4096 < |data| - k then 4096 - (offset + k) % 4096 else |data| - k
    requires Holds(d', loc, offset + k, data[k..][..bn]) && KeptOutside(d, d', loc, offset + k, offset + k + bn)
    ensures 0 < bn <= |data| - k && Writing(d0, d', loc, offset, data, k + bn)
  {
    ChunkEnd(offset + k, offset + |data|, offset + k + bn);
    SpareNext(d, d', loc, offset + k, offset + |data|, offset + k + bn);
    WroteMore(d0, d, d', loc, offset, data, k, bn);
  }

  // -------------------------------------------------------------- truncation

  /** Blocks lo to hi-1 of the file are gone, and nothing else has changed. */
  ghost predicate Cleared(d: Disk, d': Disk, loc: Loc, lo: nat, hi: nat) {
    && loc in d.files && d'.files.Keys == d.files.Keys && |d'.blocks| == |d.blocks|
    && (forall t {:trigger SlotVal(d', t)} | IsSlot(d, t) ::
          SlotVal(d', t) == if t.Blk? && t.loc == loc && lo <= t.n < hi then 0 else SlotVal(d, t))
    && (forall l, m: nat {:trigger Cell(d', l, m)} | l in d.files && m < NSLOTS && !(l == loc && lo <= m < hi) ::
          Cell(d', l, m) == Cell(d, l, m))
  }

  /** The file has kept its first n blocks and lost every other slot it does not need for them. */
  ghost predicate Truncated(d: Disk, d': Disk, loc: Loc, n: nat) {
    && loc in d.files && d'.files.Keys == d.files.Keys && |d'.blocks| == |d.blocks|
    && (forall t {:trigger SlotVal(d', t)} | IsSlot(d, t) ::
          SlotVal(d', t) ==
          if t.loc == loc && (if t.Blk? then t.n >= n else n <= NDIRECT) then 0 else SlotVal(d, t))
    && (forall l, m: nat {:trigger Cell(d', l, m)} | l in d.files && m < NSLOTS ::
          Cell(d', l, m) == if l == loc && m >= n then None else Cell(d, l, m))
  }

  lemma FreedSlots(d: Disk, d': Disk, e: Disk, s: Slot, b: nat)
    requires SlotsBut(d, e, s, 0) && d'.files == e.files && d'.blocks == e.blocks
    ensures SlotsBut(d, d', s, 0)
  {
    forall t | IsSlot(d, t) ensures SlotVal(d', t) == if t == s then 0 else SlotVal(d, t) {
      assert SlotVal(e, t) == if t == s then 0 else SlotVal(d, t);
    }
  }

  lemma FreedIndirect(d: Disk, d': Disk, loc: Loc)
    requires loc in d.files && d'.files == d.files[loc := d.files[loc].(indirect := 0)] && d'.blocks == d.blocks
    requires forall n | NDIRECT <= n < NSLOTS :: BlockNo(d, loc, n) == 0
    ensures SlotsBut(d, d', Ptr(loc), 0)
  {
    forall t | IsSlot(d, t) ensures SlotVal(d', t) == if t == Ptr(loc) then 0 else SlotVal(d, t) {
    }
  }

  lemma ClearedNext(d: Disk, d1: Disk, d2: Disk, loc: Loc, lo: nat, bno: nat)
    requires Cleared(d, d1, loc, lo, bno) && lo <= bno
    requires SlotsBut(d1, d2, Blk(loc, bno), 0) && CellsBut(d1, d2, loc, bno)
    ensures Cleared(d, d2, loc, lo, bno + 1)
  {
    forall t | IsSlot(d, t)
      ensures SlotVal(d2, t) == if t.Blk? && t.loc == loc && lo <= t.n < bno + 1 then 0 else SlotVal(d, t)
    {
      assert SlotVal(d1, t) == if t.Blk? && t.loc == loc && lo <= t.n < bno then 0 else SlotVal(d, t);
    }
    forall l, m: nat | l in d.files && m < NSLOTS && !(l == loc && lo <= m < bno + 1)
      ensures Cell(d2, l, m) == Cell(d, l, m)
    {
      assert Cell(d1, l, m) == Cell(d, l, m);
    }
  }

  lemma ClearedAll(d: Disk, d': Disk, loc: Loc, lo: nat, hi: nat)
    requires Cleared(d, d', loc, lo, hi) && TailOk(d, loc) && hi == NBlocks(d.files[loc].size)
    ensures forall n: nat | lo <= n < NSLOTS :: BlockNo(d', loc, n) == 0 && Cell(d', loc, n) == None
  {
    forall n: nat | lo <= n < NSLOTS ensures BlockNo(d', loc, n) == 0 {
      assert SlotVal(d', Blk(loc, n)) == if lo <= n < hi then 0 else SlotVal(d, Blk(loc, n));
    }
  }

  lemma TruncatedSlots(d: Disk, d': Disk, loc: Loc, n: nat)
    requires Truncated(d, d', loc, n)
    ensures forall m: nat {:trigger BlockNo(d', loc, m)} | m < NSLOTS :: BlockNo(d', loc, m) == if m >= n then 0 else BlockNo(d, loc, m)
    ensures d'.files[loc].indirect == if n <= NDIRECT then 0 else d.files[loc].indirect
  {
    forall m: nat | m < NSLOTS ensures BlockNo(d', loc, m) == if m >= n then 0 else BlockNo(d, loc, m) {
      assert SlotVal(d', Blk(loc, m)) == if m >= n then 0 else SlotVal(d, Blk(loc, m));
    }
    assert SlotVal(d', Ptr(loc)) == if n <= NDIRECT then 0 else SlotVal(d, Ptr(loc));
  }

  lemma TruncatedAtEnd(d: Disk, d1: Disk, d2: Disk, loc: Loc, n: nat)
    requires loc in d.files && TailOk(d, loc) && Cleared(d, d1, loc, n, NBlocks(d.files[loc].size)) && n <= NBlocks(d.files[loc].size)
    requires forall m: nat | n <= m < NSLOTS :: BlockNo(d1, loc, m) == 0 && Cell(d1, loc, m) == None
    requires if n <= NDIRECT && d1.files[loc].indirect != 0
             then SlotsBut(d1, d2, Ptr(loc), 0)
                  && (forall l, m: nat | l in d1.files && m < NSLOTS :: Cell(d2, l, m) == Cell(d1, l, m))
             else d2 == d1
    ensures Truncated(d, d2, loc, n)
  {
    forall t | IsSlot(d, t)
      ensures SlotVal(d2, t) ==
              if t.loc == loc && (if t.Blk? then t.n >= n else n <= NDIRECT) then 0 else SlotVal(d, t)
    {
      assert SlotVal(d1, t) ==
             if t.Blk? && t.loc == loc && n <= t.n < NBlocks(d.files[loc].size) then 0 else SlotVal(d, t);
      if t.Blk? && t.loc == loc && t.n >= n { assert BlockNo(d1, loc, t.n) == 0; }
    }
    forall l, m: nat | l in d.files && m < NSLOTS
      ensures Cell(d2, l, m) == if l == loc && m >= n then None else Cell(d, l, m)
    {
      if l == loc && m >= n { assert Cell(d1, loc, m) == None; }
    }
  }

  function SetMeta(d: Disk, loc: Loc, name: string, size: nat): Disk
    requires loc in d.files
  {
    d.(files := d.files[loc := d.files[loc].(name := name, size := size)])
  }

  ghost predicate SlotsSame(d: Disk, d': Disk) {
    forall t {:trigger SlotVal(d', t)} | IsSlot(d', t) :: IsSlot(d, t) && SlotVal(d', t) == SlotVal(d, t)
  }

  /** Ownership and contents do not depend on a file's name and size. */
  lemma MetaKeepsSlots(d: Disk, owner: map<nat, Slot>, loc: Loc, name: string, size: nat)
    requires Owned(d, owner) && loc in d.files
    ensures var d' := SetMeta(d, loc, name, size);
            && Owned(d', owner) && d'.files.Keys == d.files.Keys
            && SlotsSame(d, d')
            && (forall l, m: nat {:trigger Cell(d', l, m)} | l in d.files && m < NSLOTS :: Cell(d', l, m) == Cell(d, l, m))
  {
    var d' := SetMeta(d, loc, name, size);
    assert d'.files.Keys == d.files.Keys;
    forall t | IsSlot(d', t) ensures IsSlot(d, t) && SlotVal(d', t) == SlotVal(d, t) {
    }
    SameSlots(d, d', owner);
    forall l, m: nat | l in d.files && m < NSLOTS ensures Cell(d', l, m) == Cell(d, l, m) {
      assert SlotVal(d', Blk(l, m)) == SlotVal(d, Blk(l, m));
    }
  }

  lemma TruncatedTails(d: Disk, d1: Disk, owner: map<nat, Slot>, loc: Loc, name: string, newsize: nat)
    requires TailsOk(d) && Owned(d1, owner) && SameMeta(d, d1) && loc in d.files && newsize <= d.files[loc].size
    requires Truncated(d, d1, loc, NBlocks(newsize))
    ensures TailsOk(SetMeta(d1, loc, name, newsize))
  {
    var d' := SetMeta(d1, loc, name, newsize);
    MetaKeepsSlots(d1, owner, loc, name, newsize);
    forall l | l in d'.files ensures TailOk(d', l) {
      assert TailOk(d, l) && Meta(d1.files[l]) == Meta(d.files[l]);
      assert SlotVal(d', Ptr(l)) == SlotVal(d1, Ptr(l));
      forall m: nat | NBlocks(d'.files[l].size) <= m < NSLOTS ensures BlockNo(d', l, m) == 0 {
        assert SlotVal(d', Blk(l, m)) == SlotVal(d1, Blk(l, m));
        assert SlotVal(d, Blk(l, m)) == BlockNo(d, l, m);
      }
    }
  }

  /** A truncated file with its new name and size: the image is well formed and no other file has changed. */
  lemma ResizeTruncated(d: Disk, d1: Disk, owner: map<nat, Slot>, loc: Loc, name: string, newsize: nat)
    requires TailsOk(d) && Owned(d1, owner) && SameMeta(d, d1) && loc in d.files && newsize <= d.files[loc].size
    requires Truncated(d, d1, loc, NBlocks(newsize))
    ensures var d' := SetMeta(d1, loc, name, newsize);
            && Inv(d', owner) && OthersKept(d, d', loc)
            && (forall s {:trigger SlotVal(d', s)} | IsSlot(d', s) && s.loc == loc && newsize == 0 :: SlotVal(d', s) == 0)
            && (forall m: nat | m < NSLOTS :: Cell(d', loc, m) == if m >= NBlocks(newsize) then None else Cell(d, loc, m))
  {
    var d' := SetMeta(d1, loc, name, newsize);
    MetaKeepsSlots(d1, owner, loc, name, newsize);
    TruncatedTails(d, d1, owner, loc, name, newsize);
    forall s | IsSlot(d', s) && s.loc == loc && newsize == 0 ensures SlotVal(d', s) == 0 {
      assert SlotVal(d', s) == SlotVal(d1, s);
    }
    forall l, m: nat | l in d.files && m < NSLOTS && l != loc ensures Cell(d', l, m) == Cell(d, l, m) {
      assert Cell(d1, l, m) == Cell(d, l, m);
    }
    forall t | IsSlot(d, t) && t.loc != loc ensures SlotVal(d', t) == SlotVal(d, t) {
      assert SlotVal(d1, t) == SlotVal(d, t);
    }
    forall m: nat | m < NSLOTS
      ensures Cell(d', loc, m) == if m >= NBlocks(newsize) then None else Cell(d, loc, m)
    {
      assert Cell(d', loc, m) == Cell(d1, loc, m);
    }
  }

  /** A write after the size has been set: what it keeps of the file as it was. */
  lemma WriteAfterGrow(d: Disk, d1: Disk, d2: Disk, loc: Loc, offset: nat, data: seq<Byte>, ok: bool)
    requires OthersKept(d, d1, loc) && OthersKept(d1, d2, loc) && SameMeta(d1, d2) && loc in d.files
    requires forall m: nat | m < NSLOTS :: Cell(d1, loc, m) == Cell(d, loc, m)
    requires forall l | l in d.files && l != loc :: Meta(d1.files[l]) == Meta(d.files[l])
    requires ok ==> KeptOutside(d1, d2, loc, offset, offset + |data|)
    ensures OthersKept(d, d2, loc)
    ensures forall l | l in d.files && l != loc :: Meta(d2.files[l]) == Meta(d.files[l])
    ensures Meta(d2.files[loc]) == Meta(d1.files[loc])
    ensures ok ==> KeptOutside(d, d2, loc, offset, offset + |data|)
  {
    OthersKeptTrans(d, d1, d2, loc);
    forall l | l in d.files && l != loc ensures Meta(d2.files[l]) == Meta(d.files[l]) {
      assert Meta(d2.files[l]) == Meta(d1.files[l]);
    }
    if ok {
      forall p: nat | p < MAXFILESIZE && !(offset <= p < offset + |data|) && ByteAt(d, loc, p) != None
        ensures ByteAt(d2, loc, p) == ByteAt(d, loc, p)
      {
        assert Cell(d1, loc, p / 4096) == Cell(d, loc, p / 4096);
        assert ByteAt(d1, loc, p) == ByteAt(d, loc, p);
      }
    }
  }

  /** A new size does not change which blocks are missing. */
  lemma MetaKeepsMissing(d: Disk, owner: map<nat, Slot>, loc: Loc, pos: nat, end: nat)
    requires Owned(d, owner) && loc in d.files
    ensures RangeMissing(SetMeta(d, loc, d.files[loc].name, end), loc, pos, end) == RangeMissing(d, loc, pos, end)
  {
    var d' := SetMeta(d, loc, d.files[loc].name, end);
    MetaKeepsSlots(d, owner, loc, d.files[loc].name, end);
    if pos < end <= MAXFILESIZE {
      SameMissing(d, d', loc, pos / 4096, NBlocks(end));
    }
  }

  lemma {:induction false} NoneMissing(d: Disk, loc: Loc, n: nat, hi: nat)
    requires loc in d.files && n <= hi <= NSLOTS
    requires forall m: nat {:trigger Cell(d, loc, m)} | n <= m < hi :: Cell(d, loc, m) != None
    ensures MissingCells(d, loc, n, hi) == 0
    decreases hi - n
  {
    if n < hi {
      assert Cell(d, loc, n) != None;
      NoneMissing(d, loc, n + 1, hi);
    }
  }

  /** A range that holds bytes misses no block. */
  lemma HeldMissesNothing(d: Disk, owner: map<nat, Slot>, loc: Loc, offset: nat, data: seq<Byte>)
    requires Owned(d, owner) && loc in d.files && Holds(d, loc, offset, data)
    ensures RangeMissing(d, loc, offset, offset + |data|) == 0
  {
    if data != [] {
      var hi := NBlocks(offset + |data|);
      forall m: nat | offset / 4096 <= m < hi ensures Cell(d, loc, m) != None {
        var p := if 4096 * m < offset then offset else 4096 * m;
        assert p / 4096 == m;
        assert ByteAt(d, loc, p) == Some(data[p - offset]);
      }
      NoneMissing(d, loc, offset / 4096, hi);
      CellIffNamed(d, owner, loc, hi - 1);
    }
  }

  lemma ResizeGrown(d: Disk, owner: map<nat, Slot>, loc: Loc, newsize: nat)
    requires Inv(d, owner) && loc in d.files && d.files[loc].size <= newsize <= MAXFILESIZE
    ensures var d' := SetMeta(d, loc, d.files[loc].name, newsize);
            && Inv(d', owner) && OthersKept(d, d', loc)
            && (forall m: nat | m < NSLOTS :: Cell(d', loc, m) == Cell(d, loc, m))
  {
    var name := d.files[loc].name;
    var d' := SetMeta(d, loc, name, newsize);
    MetaKeepsSlots(d, owner, loc, name, newsize);
    forall l | l in d'.files ensures TailOk(d', l) {
      assert TailOk(d, l);
      forall m: nat | NBlocks(d'.files[l].size) <= m < NSLOTS ensures BlockNo(d', l, m) == 0 {
        assert SlotVal(d', Blk(l, m)) == SlotVal(d, Blk(l, m));
      }
    }
  }
}
