/**
 * Working/lab/fs/fsformat.c: the initial image, with a root directory and some files.
 *
 * Blocks are handed out in order by moving diskpos, which is always on a block
 * boundary; here `pos` is its block number.
 */
module Format {
  import opened FileSystem
  import opened Wrappers
  import Paths

  /** The name of a file on the host: bytes, at most NAME_MAX of them. */
  type HostName = s: string | 0 < |s| <= 255 && forall i | 0 <= i < |s| :: 0 < s[i] as int < 256 && s[i] != '/' witness "a"

  datatype HostFile = HostFile(name: HostName, bytes: seq<Byte>)

  function ZeroDirect(): Direct { seq(NDIRECT, _ => 0) }

  function ZeroBytes(): Bytes { seq(BLKSIZE, _ => 0) }

  /** What f_name, which has room for MAXNAMELEN characters, has of a name. */
  function FieldName(name: string): string {
    if |name| < Paths.MAXNAMELEN then name else name[..Paths.MAXNAMELEN]
  }

  function NewFile(name: string): File { File(FieldName(name), 0, Regular, ZeroDirect(), 0) }

  // A record is 256 bytes: f_name, at 0; f_size, at 128; f_type, at 132; f_direct, at 136;
  // f_indirect, at 176; and padding.  diradd copies a name there whatever its length, and
  // finishfile then stores the size, the type and the slots of the blocks that the file has.

  function ByteOfName(name: HostName, k: nat): nat {
    if k < |name| then name[k] as int else 0
  }

  /** The 32-bit word that strcpy leaves at byte `at` of a zeroed record. */
  function WordOfName(name: HostName, at: nat): nat {
    ByteOfName(name, at) + 256 * ByteOfName(name, at + 1) + 65536 * ByteOfName(name, at + 2) + 16777216 * ByteOfName(name, at + 3)
  }

  lemma WordZero(name: HostName, at: nat)
    ensures WordOfName(name, at) == 0 <==> |name| <= at
  {
  }

  /** The record on the disk: the slots that finishfile has stored, and what strcpy has left in the others. */
  function Residue(f: File, name: HostName): File {
    f.(direct := seq(NDIRECT, i requires 0 <= i < NDIRECT => if f.direct[i] != 0 then f.direct[i] else WordOfName(name, 136 + 4 * i)),
       indirect := if f.indirect != 0 then f.indirect else WordOfName(name, 176))
  }

  /** The copy of the name ends before the slots that finishfile does not store. */
  predicate NameFits(f: HostFile) {
    NBlocks(|f.bytes|) >= NDIRECT || |f.name| <= 136 + 4 * NBlocks(|f.bytes|)
  }

  /** The records on the disk, with what is left of the names in those that have one. */
  function Stained(files: map<Loc, File>, start: nat, names: seq<HostName>): map<Loc, File> {
    map l | l in files ::
      if l.At? && l.block >= start && RecordNo(start, l) < |names| then Residue(files[l], names[RecordNo(start, l)]) else files[l]
  }

  /** The place of record k while it is in the buffer of struct Dir, in no block yet. */
  function Buffered(k: nat): Loc { At(0, k) }

  /** Block i of a file's contents, padded with the zeros of the fresh disk. */
  function Chunk(bytes: seq<Byte>, i: nat): (r: Bytes) {
    seq(BLKSIZE, k requires 0 <= k < BLKSIZE => if 4096 * i + k < |bytes| then bytes[4096 * i + k] else 0)
  }

  function Names(inputs: seq<HostFile>): seq<HostName> {
    seq(|inputs|, i requires 0 <= i < |inputs| => inputs[i].name)
  }

  /** The blocks of a file of the given size, with the indirect block that finishfile gives it. */
  function FileBlocks(size: nat): nat { NBlocks(size) + if NBlocks(size) >= NDIRECT then 1 else 0 }

  function AllBlocks(inputs: seq<HostFile>): nat {
    if inputs == [] then 0
    else AllBlocks(inputs[..|inputs| - 1]) + FileBlocks(|inputs[|inputs| - 1].bytes|)
  }

  /** The files can be named, are small enough, and fit on the disk with their directory. */
  predicate ImageFits(nblocks: nat, inputs: seq<HostFile>) {
    && 4 <= nblocks <= 1024 && |inputs| <= 128
    && (forall i | 0 <= i < |inputs| :: |inputs[i].bytes| < MAXFILESIZE)
    && 3 + AllBlocks(inputs) + (|inputs| + 15) / 16 < nblocks
  }

  lemma {:induction false} BlocksOfPrefix(inputs: seq<HostFile>, i: nat)
    requires i <= |inputs|
    ensures AllBlocks(inputs[..i]) <= AllBlocks(inputs)
    ensures i < |inputs| ==> AllBlocks(inputs[..i + 1]) == AllBlocks(inputs[..i]) + FileBlocks(|inputs[i].bytes|)
    decreases |inputs|
  {
    if i < |inputs| {
      assert inputs[..i + 1][..i] == inputs[..i];
      BlocksOfPrefix(inputs[..|inputs| - 1], i);
      assert inputs[..|inputs| - 1][..i] == inputs[..i];
    } else {
      assert inputs[..i] == inputs;
    }
  }

  /** Everything about the other files stays, and new records may appear. */
  ghost predicate Kept(d: Disk, d': Disk, loc: Loc) {
    && d.files.Keys <= d'.files.Keys && SlotsElsewhere(d, d', loc)
    && (forall l | l in d.files && l != loc :: d'.files[l] == d.files[l])
    && (forall l, m: nat {:trigger Cell(d', l, m)} | l in d.files && l in d'.files && m < NSLOTS && l != loc ::
          Cell(d', l, m) == Cell(d, l, m))
  }

  /** The file is there with these contents. */
  ghost predicate HasFile(d: Disk, loc: Loc, f: HostFile) {
    && loc in d.files && Meta(d.files[loc]) == (FieldName(f.name), |f.bytes|, Regular) && |f.bytes| < MAXFILESIZE
    && (NBlocks(|f.bytes|) >= NDIRECT ==> d.files[loc].indirect != 0)
    && forall m: nat {:trigger Cell(d, loc, m)} | m < NBlocks(|f.bytes|) :: Cell(d, loc, m) == Some(Chunk(f.bytes, m))
  }

  /** What finishfile has stored is the file. */
  lemma FileStored(d: Disk, d': Disk, pos: nat, loc: Loc, start: nat, f: HostFile)
    requires |f.bytes| < MAXFILESIZE && Filling(d, d', pos, loc, start, NBlocks(|f.bytes|), NBlocks(|f.bytes|))
    requires Meta(d'.files[loc]) == (FieldName(f.name), |f.bytes|, Regular)
    requires NBlocks(|f.bytes|) >= NDIRECT ==> d'.files[loc].indirect != 0
    requires forall b {:trigger d.blocks[b]} | start <= b < start + NBlocks(|f.bytes|) :: d.blocks[b] == Data(Chunk(f.bytes, b - start))
    ensures HasFile(d', loc, f)
  {
    forall m: nat | m < NBlocks(|f.bytes|) ensures Cell(d', loc, m) == Some(Chunk(f.bytes, m)) {
      assert Stored(d, d', loc, start, m);
      assert d.blocks[start + m] == Data(Chunk(f.bytes, m));
    }
  }

  /** The bytes of a file's blocks: its own, and zeros after them. */
  lemma FileBytes(d: Disk, loc: Loc, f: HostFile)
    requires HasFile(d, loc, f)
    ensures forall p: nat {:trigger ByteAt(d, loc, p)} | p < 4096 * NBlocks(|f.bytes|) ::
              p < MAXFILESIZE && ByteAt(d, loc, p) == Some(if p < |f.bytes| then f.bytes[p] else 0)
  {
    forall p: nat | p < 4096 * NBlocks(|f.bytes|)
      ensures p < MAXFILESIZE && ByteAt(d, loc, p) == Some(if p < |f.bytes| then f.bytes[p] else 0)
    {
      assert p / 4096 < NBlocks(|f.bytes|) && p == 4096 * (p / 4096) + p % 4096;
      assert Cell(d, loc, p / 4096) == Some(Chunk(f.bytes, p / 4096));
    }
  }

  lemma KeptTrans(d: Disk, d': Disk, d'': Disk, loc: Loc)
    requires Kept(d, d', loc) && Kept(d', d'', loc)
    ensures Kept(d, d'', loc)
  {
    forall l, m: nat | l in d.files && m < NSLOTS && l != loc ensures Cell(d'', l, m) == Cell(d, l, m) {
      assert Cell(d', l, m) == Cell(d, l, m);
    }
  }

  /** If only loc has changed, the tails of the others are still empty. */
  lemma KeptTails(d: Disk, d': Disk, loc: Loc)
    requires TailsOk(d) && Kept(d, d', loc) && d'.files.Keys <= d.files.Keys + {loc} && loc in d'.files && TailOk(d', loc)
    ensures TailsOk(d')
  {
    forall l | l in d'.files ensures TailOk(d', l) {
      if l != loc {
        assert TailOk(d, l);
        forall m: nat | NBlocks(d'.files[l].size) <= m < NSLOTS ensures BlockNo(d', l, m) == 0 {
          assert SlotVal(d', Blk(l, m)) == SlotVal(d, Blk(l, m));
        }
      }
    }
  }

  /** A record with no blocks may be added. */
  lemma AddRecord(d: Disk, owner: map<nat, Slot>, loc: Loc, f: File)
    requires Owned(d, owner) && loc !in d.files && f.direct == ZeroDirect() && f.indirect == 0
    ensures var d' := d.(files := d.files[loc := f]);
            Owned(d', owner) && Kept(d, d', loc)
  {
    var d' := d.(files := d.files[loc := f]);
    forall b | b in owner ensures OwnedBlock(d', owner[b], b) {
      assert OwnedBlock(d, owner[b], b);
    }
    forall s | IsSlot(d', s) && SlotVal(d', s) != 0 ensures SlotVal(d', s) in owner && owner[SlotVal(d', s)] == s {
      assert s.loc != loc;
      assert IsSlot(d, s) && SlotVal(d', s) == SlotVal(d, s);
    }
  }

  /** A free block may be filled with data. */
  lemma FillFree(d: Disk, owner: map<nat, Slot>, b: nat, bytes: Bytes)
    requires Owned(d, owner) && b < |d.free| && d.free[b] && d.blocks[b].Data?
    ensures var d' := d.(blocks := d.blocks[b := Data(bytes)]);
            Owned(d', owner) && SlotsSame(d, d') && (TailsOk(d) ==> TailsOk(d'))
            && (forall l, m: nat {:trigger Cell(d', l, m)} | l in d.files && m < NSLOTS :: Cell(d', l, m) == Cell(d, l, m))
  {
    var d' := d.(blocks := d.blocks[b := Data(bytes)]);
    forall s | IsSlot(d', s) ensures IsSlot(d, s) && SlotVal(d', s) == SlotVal(d, s) {
    }
    SameSlots(d, d', owner);
    forall l, m: nat | l in d.files && m < NSLOTS ensures Cell(d', l, m) == Cell(d, l, m) {
      assert SlotVal(d', Blk(l, m)) == SlotVal(d, Blk(l, m));
      if SlotVal(d, Blk(l, m)) != 0 {
        NamedBlock(d, owner, Blk(l, m));
      }
    }
    if TailsOk(d) {
      forall l | l in d'.files ensures TailOk(d', l) {
        assert TailOk(d, l);
        forall m: nat | NBlocks(d'.files[l].size) <= m < NSLOTS ensures BlockNo(d', l, m) == 0 {
          assert SlotVal(d', Blk(l, m)) == SlotVal(d, Blk(l, m));
        }
      }
    }
  }

  lemma SlotsSameTrans(d: Disk, d': Disk, d'': Disk)
    requires SlotsSame(d, d') && SlotsSame(d', d'')
    ensures SlotsSame(d, d'')
  {
    forall s | IsSlot(d'', s) ensures IsSlot(d, s) && SlotVal(d'', s) == SlotVal(d, s) {
      var v := SlotVal(d'', s);
      assert v == SlotVal(d', s) == SlotVal(d, s);
    }
  }

  // ------------------------------------------------- the directory's own blocks

  /** Where record k goes when the directory's blocks start at `start`. */
  function Home(start: nat, k: nat): Loc { At(start + k / 16, k % 16) }

  function Homes(start: nat, nb: nat): set<Loc> {
    set k: nat | k < 16 * nb :: Home(start, k)
  }

  /** Which record a place is for. */
  function RecordNo(start: nat, l: Loc): nat
    requires l.At? && l.block >= start
  {
    (l.block - start) * 16 + l.index
  }

  lemma RecordNoHome(start: nat, k: nat)
    ensures Home(start, k).block >= start && RecordNo(start, Home(start, k)) == k
  {
  }

  /** memmove of the buffer to the directory's blocks; the rest of the last block is zeros. */
  function Moved(files: map<Loc, File>, start: nat, nb: nat, n: nat): map<Loc, File>
    requires Root in files && forall k: nat | k < n :: Buffered(k) in files
  {
    (map l | l in Homes(start, nb) ::
       if l.block >= start && RecordNo(start, l) < n then files[Buffered(RecordNo(start, l))] else NewFile(""))
    [Root := files[Root]]
  }

  /** The slot of a record after the move, and before it. */
  function MoveSlot(s: Slot, start: nat): Slot {
    if s.loc == Root then s else s.(loc := Home(start, s.loc.index))
  }

  function UnmoveSlot(s: Slot, start: nat): Slot {
    if s.loc == Root || s.loc.block < start then s else s.(loc := Buffered(RecordNo(start, s.loc)))
  }

  /** The root and the first n records of the buffer are all the records. */
  ghost predicate OnlyBuffered(files: map<Loc, File>, n: nat) {
    && Root in files && (forall k: nat {:trigger Buffered(k)} | k < n :: Buffered(k) in files)
    && forall l | l in files :: l == Root || (l.block == 0 && l.index < n)
  }

  lemma MovedRecord(files: map<Loc, File>, start: nat, nb: nat, n: nat, k: nat)
    requires OnlyBuffered(files, n) && start > 0 && n <= 16 * nb && k < 16 * nb
    ensures Home(start, k) in Moved(files, start, nb, n)
    ensures Moved(files, start, nb, n)[Home(start, k)] == if k < n then files[Buffered(k)] else NewFile("")
  {
    RecordNoHome(start, k);
    assert Home(start, k) in Homes(start, nb);
  }

  lemma MovedSlot(d: Disk, start: nat, nb: nat, n: nat, s: Slot)
    requires OnlyBuffered(d.files, n) && start > 0 && n <= 16 * nb && IsSlot(d, s)
    ensures var d' := d.(files := Moved(d.files, start, nb, n));
            IsSlot(d', MoveSlot(s, start)) && SlotVal(d', MoveSlot(s, start)) == SlotVal(d, s)
  {
    if s.loc != Root {
      assert s.loc == Buffered(s.loc.index);
      MovedRecord(d.files, start, nb, n, s.loc.index);
    }
  }

  lemma UnmovedSlot(d: Disk, start: nat, nb: nat, n: nat, s: Slot)
    requires OnlyBuffered(d.files, n) && start > 0 && n <= 16 * nb
    requires IsSlot(d.(files := Moved(d.files, start, nb, n)), s) && SlotVal(d.(files := Moved(d.files, start, nb, n)), s) != 0
    ensures var t := UnmoveSlot(s, start);
            IsSlot(d, t) && MoveSlot(t, start) == s && SlotVal(d, t) == SlotVal(d.(files := Moved(d.files, start, nb, n)), s)
  {
    if s.loc != Root {
      assert s.loc in Homes(start, nb);
      var k: nat :| k < 16 * nb && s.loc == Home(start, k);
      RecordNoHome(start, k);
      MovedRecord(d.files, start, nb, n, k);
    }
  }

  /** Moving the records moves the ownership of their blocks with them. */
  lemma MoveOwned(d: Disk, owner: map<nat, Slot>, start: nat, nb: nat, n: nat)
    requires Owned(d, owner) && OnlyBuffered(d.files, n) && start > 0 && n <= 16 * nb
    ensures Owned(d.(files := Moved(d.files, start, nb, n)), map b | b in owner :: MoveSlot(owner[b], start))
  {
    var d', owner' := d.(files := Moved(d.files, start, nb, n)), map b | b in owner :: MoveSlot(owner[b], start);
    forall b | b in owner' ensures OwnedBlock(d', owner'[b], b) {
      assert OwnedBlock(d, owner[b], b);
      MovedSlot(d, start, nb, n, owner[b]);
    }
    forall s | IsSlot(d', s) && SlotVal(d', s) != 0 ensures SlotVal(d', s) in owner' && owner'[SlotVal(d', s)] == s {
      UnmovedSlot(d, start, nb, n, s);
    }
  }

  lemma MovedTails(d: Disk, start: nat, nb: nat, n: nat)
    requires TailsOk(d) && OnlyBuffered(d.files, n) && start > 0 && n <= 16 * nb
    ensures TailsOk(d.(files := Moved(d.files, start, nb, n)))
  {
    var d' := d.(files := Moved(d.files, start, nb, n));
    forall l | l in d'.files ensures TailOk(d', l) {
      if l == Root {
        assert TailOk(d, Root);
        assert forall m: nat | m < NSLOTS :: BlockNo(d', Root, m) == BlockNo(d, Root, m);
      } else {
        assert l in Homes(start, nb);
        var k: nat :| k < 16 * nb && l == Home(start, k);
        MovedRecord(d.files, start, nb, n, k);
        if k < n {
          assert TailOk(d, Buffered(k));
          assert forall m: nat | m < NSLOTS :: BlockNo(d', l, m) == BlockNo(d, Buffered(k), m);
        }
      }
    }
  }

  lemma MovedFile(d: Disk, start: nat, nb: nat, n: nat, k: nat, f: HostFile)
    requires OnlyBuffered(d.files, n) && start > 0 && n <= 16 * nb && k < n && HasFile(d, Buffered(k), f)
    ensures HasFile(d.(files := Moved(d.files, start, nb, n)), Home(start, k), f)
  {
    var d' := d.(files := Moved(d.files, start, nb, n));
    MovedRecord(d.files, start, nb, n, k);
    forall m: nat | m < NBlocks(|f.bytes|) ensures Cell(d', Home(start, k), m) == Some(Chunk(f.bytes, m)) {
      assert Cell(d, Buffered(k), m) == Some(Chunk(f.bytes, m));
    }
  }

  class Image {
    const blocks: array<Block>
    const bitmap: array<bool>
    var files: map<Loc, File>       // the records, with the slots that have been stored in them
    var names: seq<HostName>        // what has been copied into them
    var pos: nat
    ghost var free: seq<bool>       // the blocks that no slot names yet
    ghost var owner: map<nat, Slot>

    ghost function Built(): Disk
      reads this, blocks
    {
      Disk(free, files, blocks[..])
    }

    /** What is built so far is owned block by block; the disk from pos on is fresh. */
    ghost predicate Valid()
      reads this, blocks
    {
      && Owned(Built(), owner) && FirstData(blocks.Length) <= pos <= blocks.Length && bitmap.Length == blocks.Length
      && (forall b | pos <= b < blocks.Length :: free[b] && blocks[b] == Data(ZeroBytes()))
    }

    /** alloc: the next blocks, or a panic if that reaches the end of the disk. */
    method Alloc(n: nat) returns (ok: bool, start: nat)
      requires pos <= blocks.Length
      modifies this`pos
      ensures start == old(pos)
      ensures ok <==> old(pos) + n < blocks.Length
      ensures pos == if ok then old(pos) + n else old(pos)
    {
      start := pos;
      ok := pos + n < blocks.Length;
      if ok {
        pos := pos + n;
      }
    }

    /** One turn of finishfile's loops: block n of the file is disk block b. */
    method GiveBlock(loc: Loc, n: nat, b: nat)
      requires Valid() && IsSlot(Built(), Blk(loc, n)) && BlockNo(Built(), loc, n) == 0
      requires n >= NDIRECT ==> files[loc].indirect != 0
      requires b < pos && free[b] && blocks[b].Data?
      modifies this`files, this`free, this`owner, blocks
      ensures Valid() && free == old(free)[b := false]
      ensures SameMeta(old(Built()), Built()) && Kept(old(Built()), Built(), loc)
      ensures SlotsBut(old(Built()), Built(), Blk(loc, n), b)
      ensures CellsBut(old(Built()), Built(), loc, n) && Cell(Built(), loc, n) == Some(old(blocks[b]).bytes)
      ensures DataKept(old(Built()), Built())
    {
      ghost var d, bytes := Built(), blocks[b].bytes;
      SetBlockNoSlots(d, owner, loc, n, b);
      if n < NDIRECT {
        files := files[loc := files[loc].(direct := files[loc].direct[n := b])];
      } else {
        blocks[files[loc].indirect] := Ind(blocks[files[loc].indirect].entries[n - NDIRECT := b]);
      }
      free := free[b := false];
      ghost var d' := Built();
      assert d' == SetBlockNo(d, loc, n, b).(free := d.free[b := false]);
      assert d'.blocks == d'.blocks[b := Data(bytes)];
      GrantDataSlots(d, d', owner, loc, n, b, bytes);
      CellsFollowSlots(d, d', owner, Blk(loc, n), b, b);
      Grant(d, d', owner, Blk(loc, n), b);
      owner := owner[b := Blk(loc, n)];
    }

    /** finishfile's indirect block, from the fresh end of the disk. */
    method GiveIndirect(loc: Loc) returns (ok: bool)
      requires Valid() && loc in files && files[loc].indirect == 0
      modifies `files, `pos, `free, `owner, blocks
      ensures ok <==> old(pos) + 1 < blocks.Length
      ensures ok ==> Valid() && pos == old(pos) + 1 && free == old(free)[old(pos) := false]
      ensures ok ==> SameMeta(old(Built()), Built()) && Kept(old(Built()), Built(), loc)
      ensures ok ==> files[loc].indirect != 0 && SlotsBut(old(Built()), Built(), Ptr(loc), files[loc].indirect)
      ensures ok ==> forall m: nat | m < NSLOTS :: Cell(Built(), loc, m) == Cell(old(Built()), loc, m)
      ensures ok ==> forall c | 0 <= c < blocks.Length && c != old(pos) :: blocks[c] == old(blocks[c])
    {
      ghost var d := Built();
      var b;
      ok, b := Alloc(1);
      if !ok {
        return;
      }
      files := files[loc := files[loc].(indirect := b)];
      blocks[b] := Ind(ZeroEntries());
      free := free[b := false];
      ghost var d' := Built();
      assert d'.blocks == d.blocks[b := Ind(ZeroEntries())];
      GrantIndirectSlots(d, owner, loc, b);
      CellsFollowSlots(d, d', owner, Ptr(loc), b, b);
      Grant(d, d', owner, Ptr(loc), b);
      owner := owner[b := Ptr(loc)];
    }
  
    /** One turn of finishfile's loops, for the i-th of the file's blocks. */
    method FillNext(ghost d0: Disk, loc: Loc, start: nat, ghost nb: nat, i: nat)
      requires Valid() && Filling(d0, Built(), pos, loc, start, nb, i) && i < nb && (i >= NDIRECT ==> files[loc].indirect != 0)
      modifies this`files, this`free, this`owner, blocks
      ensures Valid() && Filling(d0, Built(), pos, loc, start, nb, i + 1)
      ensures files[loc].indirect == old(files)[loc].indirect && Meta(files[loc]) == Meta(old(files)[loc])
    {
      ghost var d := Built();
      assert BlockNo(d, loc, i) == 0 && d.blocks[start + i] == blocks[start + i] && free[start + i];
      GiveBlock(loc, i, start + i);
      assert SlotVal(Built(), Ptr(loc)) == SlotVal(d, Ptr(loc));
      FillStep(d0, d, Built(), pos, loc, start, nb, i);
    }
  
    /**
     * finishfile: the file gets its size, the nb blocks from start and, if it has NDIRECT
     * blocks or more, an indirect block.  It fails iff there is no block left for that.
     */
    method FinishFile(loc: Loc, start: nat, len: nat, nb: nat) returns (ok: bool)
      requires Valid() && TailsOk(Built()) && loc in files && files[loc].direct == ZeroDirect() && files[loc].indirect == 0
      requires nb == NBlocks(len) && len <= MAXFILESIZE && start + nb == pos
      requires forall b | 0 <= b < blocks.Length :: free[b] <==> b >= start
      requires forall b | start <= b < pos :: blocks[b].Data?
      modifies `files, `pos, `free, `owner, blocks
      ensures ok <==> nb < NDIRECT || old(pos) + 1 < blocks.Length
      ensures ok ==> pos == old(pos) + if nb >= NDIRECT then 1 else 0
      ensures ok ==> Valid() && TailsOk(Built()) && Filling(old(Built()), Built(), pos, loc, start, nb, nb)
      ensures ok ==> Meta(files[loc]) == Meta(old(files)[loc].(size := len)) && (nb >= NDIRECT ==> files[loc].indirect != 0)
    {
      ghost var d0 := Built();
      MetaKeepsSlots(d0, owner, loc, files[loc].name, len);
      files := files[loc := files[loc].(size := len)];
      assert Built() == SetMeta(d0, loc, files[loc].name, len);
      FillStart(d0, Built(), pos, loc, start, nb);
      var i := FillDirect(d0, loc, start, nb);
      ok := true;
      if i == NDIRECT {
        ok := FillIndirect(d0, loc, start, nb);
      }
      if ok {
        FillEnd(d0, Built(), pos, loc, start, nb);
      }
    }

    /** finishfile's first loop, over the direct blocks. */
    method FillDirect(ghost d0: Disk, loc: Loc, start: nat, nb: nat) returns (i: nat)
      requires Valid() && Filling(d0, Built(), pos, loc, start, nb, 0) && files[loc].indirect == 0
      modifies this`files, this`free, this`owner, blocks
      ensures Valid() && i == (if nb < NDIRECT then nb else NDIRECT) && Filling(d0, Built(), pos, loc, start, nb, i)
      ensures files[loc].indirect == 0 && Meta(files[loc]) == Meta(old(files)[loc])
    {
      i := 0;
      while i < nb && i < NDIRECT
        invariant Valid() && i <= NDIRECT && Filling(d0, Built(), pos, loc, start, nb, i) && files[loc].indirect == 0
        invariant Meta(files[loc]) == Meta(old(files)[loc])
      {
        FillNext(d0, loc, start, nb, i);
        i := i + 1;
      }
    }

    /** finishfile's indirect block and second loop. */
    method FillIndirect(ghost d0: Disk, loc: Loc, start: nat, nb: nat) returns (ok: bool)
      requires Valid() && nb >= NDIRECT && Filling(d0, Built(), pos, loc, start, nb, NDIRECT) && files[loc].indirect == 0
      modifies `files, `pos, `free, `owner, blocks
      ensures ok <==> old(pos) + 1 < blocks.Length
      ensures ok ==> pos == old(pos) + 1
      ensures ok ==> Valid() && Filling(d0, Built(), pos, loc, start, nb, nb)
      ensures ok ==> Meta(files[loc]) == Meta(old(files)[loc]) && files[loc].indirect != 0
    {
      ghost var d, p := Built(), pos;
      ok := GiveIndirect(loc);
      if !ok {
        return;
      }
      FillPast(d0, d, Built(), p, loc, start, nb, NDIRECT);
      var i := NDIRECT;
      while i < nb
        invariant Valid() && NDIRECT <= i && pos == p + 1 && Filling(d0, Built(), pos, loc, start, nb, i) && files[loc].indirect != 0
        invariant Meta(files[loc]) == Meta(old(files)[loc])
      {
        FillNext(d0, loc, start, nb, i);
        i := i + 1;
      }
    }
  
    /** Between two files: exactly the blocks from pos on are free. */
    ghost predicate Resting()
      reads this, blocks
    {
      Valid() && TailsOk(Built()) && forall b {:trigger free[b]} | 0 <= b < blocks.Length :: free[b] <==> b >= pos
    }

    /** opendisk. */
    constructor (nblocks: nat)
      requires 4 <= nblocks <= 1024
      ensures Resting() && blocks.Length == nblocks && pos == 3 && fresh(blocks) && fresh(bitmap)
      ensures files == map[Root := File("/", 0, Directory, ZeroDirect(), 0)] && names == []
      ensures forall b | 0 <= b < nblocks :: bitmap[b]
    {
      blocks := new Block[nblocks](_ => Data(ZeroBytes()));
      bitmap := new bool[nblocks](_ => true);
      files := map[Root := File("/", 0, Directory, ZeroDirect(), 0)];
      pos, names := 3, [];
      free := seq(nblocks, b => b >= 3);
      owner := map[];
      new;
      assert forall s | IsSlot(Built(), s) :: SlotVal(Built(), s) == 0;
      assert TailOk(Built(), Root);
    }

    /** readn into the blocks from start on. */
    method FillBlocks(bytes: seq<Byte>, start: nat, ghost loc: Loc)
      requires Valid() && TailsOk(Built()) && start + NBlocks(|bytes|) == pos
      requires forall b {:trigger free[b]} | 0 <= b < blocks.Length :: free[b] <==> b >= start
      requires forall b | start <= b < blocks.Length :: blocks[b].Data?
      modifies blocks
      ensures Valid() && TailsOk(Built()) && Kept(old(Built()), Built(), loc)
      ensures forall b {:trigger blocks[b]} | start <= b < pos :: blocks[b] == Data(Chunk(bytes, b - start))
      ensures loc in files ==> forall m: nat | m < NSLOTS :: Cell(Built(), loc, m) == Cell(old(Built()), loc, m)
    {
      ghost var d0 := Built();
      for i := 0 to NBlocks(|bytes|)
        invariant Valid() && TailsOk(Built()) && SlotsSame(d0, Built())
        invariant forall b | start <= b < blocks.Length :: blocks[b].Data?
        invariant forall b {:trigger blocks[b]} | start <= b < start + i :: blocks[b] == Data(Chunk(bytes, b - start))
        invariant forall l, m: nat {:trigger Cell(Built(), l, m)} | l in files && m < NSLOTS :: Cell(Built(), l, m) == Cell(d0, l, m)
      {
        ghost var d := Built();
        assert free[start + i];
        FillFree(d, owner, start + i, Chunk(bytes, i));
        blocks[start + i] := Data(Chunk(bytes, i));
        assert Built() == d.(blocks := d.blocks[start + i := Data(Chunk(bytes, i))]);
        SlotsSameTrans(d0, d, Built());
      }
    }

    /** writefile: the k-th file of the directory, unless it is too large or the disk is full. */
    method WriteFile(k: nat, f: HostFile) returns (ok: bool)
      requires Resting() && Buffered(k) !in files
      modifies this, blocks
      ensures ok ==> names == old(names) + [f.name]
      ensures ok <==> |f.bytes| < MAXFILESIZE && old(pos) + FileBlocks(|f.bytes|) < blocks.Length
      ensures ok ==> pos == old(pos) + FileBlocks(|f.bytes|)
      ensures ok ==> Resting() && files.Keys == old(files).Keys + {Buffered(k)}
      ensures ok ==> HasFile(Built(), Buffered(k), f) && Kept(old(Built()), Built(), Buffered(k))
      ensures ok ==> Buffered(k) in files && forall p: nat {:trigger ByteAt(Built(), Buffered(k), p)} | p < 4096 * NBlocks(|f.bytes|) ::
                p < MAXFILESIZE && ByteAt(Built(), Buffered(k), p) == Some(if p < |f.bytes| then f.bytes[p] else 0)
    {
      if |f.bytes| >= MAXFILESIZE {
        return false;
      }
      var loc := Buffered(k);
      ghost var d0 := Built();
      AddRecord(d0, owner, loc, NewFile(f.name));
      files, names := files[loc := NewFile(f.name)], names + [f.name];
      assert Built() == d0.(files := d0.files[loc := NewFile(f.name)]);
      assert TailOk(Built(), loc);
      KeptTails(d0, Built(), loc);
      ghost var d1 := Built();
      var start;
      ok, start := Alloc(NBlocks(|f.bytes|));
      if !ok {
        return;
      }
      FillBlocks(f.bytes, start, loc);
      ghost var d2 := Built();
      assert forall b {:trigger d2.blocks[b]} | start <= b < pos :: d2.blocks[b] == blocks[b];
      ok := FinishFile(loc, start, |f.bytes|, NBlocks(|f.bytes|));
      if ok {
        KeptTrans(d0, d1, d2, loc);
        KeptTrans(d0, d2, Built(), loc);
        FileStored(d2, Built(), pos, loc, start, f);
        FileBytes(Built(), loc, f);
      }
    }
  
    /** finishdir, for a directory of n > 0 files: the records move to blocks of their own. */
    method FinishDir(n: nat, ghost inputs: seq<HostFile>) returns (ok: bool, start: nat)
      requires Resting() && OnlyBuffered(files, n) && 0 < n == |inputs| <= 128
      requires files[Root] == File("/", 0, Directory, ZeroDirect(), 0)
      requires forall k: nat {:trigger Buffered(k)} | k < n :: HasFile(Built(), Buffered(k), inputs[k])
      modifies `files, `pos, `free, `owner, blocks
      ensures ok <==> old(pos) + (n + 15) / 16 < blocks.Length
      ensures ok ==> Resting() && start > 0 && Finished(Built(), start, (n + 15) / 16, inputs)
    {
      var nb := (n + 15) / 16;
      ok, start := Alloc(nb);
      if !ok {
        return;
      }
      var at := start;
      ghost var d := Built();
      MoveOwned(d, owner, at, nb, n);
      MovedTails(d, at, nb, n);
      forall k: nat | k < n ensures HasFile(d.(files := Moved(d.files, at, nb, n)), Home(at, k), inputs[k]) {
        assert HasFile(d, Buffered(k), inputs[k]);
        MovedFile(d, at, nb, n, k, inputs[k]);
      }
      files := Moved(files, at, nb, n);
      owner := map b | b in owner :: MoveSlot(owner[b], at);
      ghost var d1 := Built();
      assert d1 == d.(files := Moved(d.files, at, nb, n));
      ok := FinishFile(Root, at, nb * 4096, nb);
      if ok {
        DirFinished(d, d1, Built(), pos, at, nb, inputs);
      }
    }

    /**
     * finishdir, for a directory of no files.  alloc(0) sets no block aside, but ROUNDUP of
     * a signed 0 is a whole block, so finishfile gives the root the block at pos.
     */
    method FinishEmptyDir()
      requires Resting() && files == map[Root := File("/", 0, Directory, ZeroDirect(), 0)]
      modifies this`files
      ensures Root in files && files[Root].direct[0] == pos && files[Root].size == 4096
      ensures blocks.Length == |free| && (forall b | 0 <= b < blocks.Length :: free[b] <==> b >= pos)
    {
      files := files[Root := files[Root].(size := 4096, direct := files[Root].direct[0 := pos])];
    }

    /** finishdisk: the blocks before pos are in use. */
    method FinishDisk()
      requires pos <= bitmap.Length && forall b | 0 <= b < bitmap.Length :: bitmap[b]
      modifies bitmap
      ensures forall b | 0 <= b < bitmap.Length :: bitmap[b] <==> b >= pos
    {
      for i := 0 to pos
        invariant forall b | 0 <= b < bitmap.Length :: bitmap[b] <==> b >= i
      {
        bitmap[i] := false;
      }
    }
  }

  // ------------------------------------------------------------------ the image

  /** The directory's records are in blocks start to start + nb - 1, the files' first and then unused ones. */
  ghost predicate Finished(d: Disk, start: nat, nb: nat, inputs: seq<HostFile>) {
    && |inputs| <= 16 * nb && nb < NDIRECT && Root in d.files
    && Meta(d.files[Root]) == ("/", nb * 4096, Directory)
    && (forall m: nat | m < nb :: BlockNo(d, Root, m) == start + m)
    && (forall l | l in d.files :: l == Root || l in Homes(start, nb))
    && (forall k: nat {:trigger Home(start, k)} | k < 16 * nb ::
          if k < |inputs| then HasFile(d, Home(start, k), inputs[k])
          else Home(start, k) in d.files && d.files[Home(start, k)] == NewFile(""))
  }

  lemma DirFinished(d: Disk, d1: Disk, d2: Disk, pos: nat, start: nat, nb: nat, inputs: seq<HostFile>)
    requires OnlyBuffered(d.files, |inputs|) && start > 0 && |inputs| <= 16 * nb && nb < NDIRECT
    requires d1 == d.(files := Moved(d.files, start, nb, |inputs|))
    requires forall k: nat {:trigger Home(start, k)} | k < |inputs| :: HasFile(d1, Home(start, k), inputs[k])
    requires Filling(d1, d2, pos, Root, start, nb, nb) && Meta(d2.files[Root]) == ("/", nb * 4096, Directory)
    ensures Finished(d2, start, nb, inputs)
  {
    forall k: nat | k < 16 * nb
      ensures if k < |inputs| then HasFile(d2, Home(start, k), inputs[k])
              else Home(start, k) in d2.files && d2.files[Home(start, k)] == NewFile("")
    {
      MovedRecord(d.files, start, nb, |inputs|, k);
      var l := Home(start, k);
      assert d2.files[l] == d1.files[l];
      if k < |inputs| {
        assert HasFile(d1, l, inputs[k]);
        forall m: nat | m < NBlocks(|inputs[k].bytes|) ensures Cell(d2, l, m) == Some(Chunk(inputs[k].bytes, m)) {
          assert Cell(d2, l, m) == Cell(d1, l, m);
        }
      }
    }
  }

  /** Names that the file system can tell apart and look up. */
  ghost predicate NamesOk(inputs: seq<HostFile>) {
    && (forall k | 0 <= k < |inputs| :: |inputs[k].name| < Paths.MAXNAMELEN)
    && (forall j, k | 0 <= j < k < |inputs| :: inputs[j].name != inputs[k].name)
  }

  /** The directory tree of a finished image is well formed. */
  lemma FinishedTree(d: Disk, owner: map<nat, Slot>, start: nat, nb: nat, inputs: seq<HostFile>)
    requires Inv(d, owner) && Finished(d, start, nb, inputs) && NamesOk(inputs) && start > 0
    ensures Paths.TreeOk(d, owner)
  {
    forall k: nat | k < 16 * nb ensures Paths.RecordOk(d, owner, Root, k) && Paths.RecordAt(d, Root, k) == Home(start, k) {
      assert BlockNo(d, Root, k / 16) == start + k / 16;
      NamedBlock(d, owner, Blk(Root, k / 16));
      assert Home(start, k) in d.files;
    }
    forall dir | Paths.IsDir(d, dir) ensures dir == Root {
      if dir != Root {
        OneRecord(d, start, nb, inputs, dir);
      }
    }
    assert Paths.NRecords(d, Root) == 16 * nb;
    forall l | l in d.files ensures Paths.UnusedOk(d, l) {
      if l != Root {
        OneRecord(d, start, nb, inputs, l);
      }
    }
    assert Paths.DirOk(d, owner, Root);
    RootNames(d, owner, start, nb, inputs);
  }

  lemma RootNames(d: Disk, owner: map<nat, Slot>, start: nat, nb: nat, inputs: seq<HostFile>)
    requires Finished(d, start, nb, inputs) && NamesOk(inputs) && Paths.DirOk(d, owner, Root)
    ensures Paths.NamesDiffer(d, owner, Root)
  {
    forall j: nat, k: nat | j < k < 16 * nb && d.files[Home(start, j)].name != ""
      ensures d.files[Home(start, j)].name != d.files[Home(start, k)].name
    {
    }
    forall k: nat | k < 16 * nb ensures Paths.RecordAt(d, Root, k) == Home(start, k) {
      assert BlockNo(d, Root, k / 16) == start + k / 16;
    }
  }

  /** A record that is not the root is a file's, or unused. */
  lemma OneRecord(d: Disk, start: nat, nb: nat, inputs: seq<HostFile>, l: Loc)
    requires Finished(d, start, nb, inputs) && l in d.files && l != Root
    ensures d.files[l].ftype == Regular
    ensures d.files[l].name == "" && NamesOk(inputs) ==> d.files[l].size == 0
  {
    assert l in Homes(start, nb);
    var k: nat :| k < 16 * nb && l == Home(start, k);
    if k < |inputs| {
      assert HasFile(d, Home(start, k), inputs[k]);
    }
  }

  lemma OneComponent(name: string)
    requires name != "" && '/' !in name
    ensures Paths.Components("/" + name) == [name]
  {
    Paths.SlashSkipped("/" + name);
    assert ("/" + name)[1..] == name;
    Paths.FirstComponent(name, "");
    assert name + "" == name && Paths.Components("") == [];
  }

  /** Each file is found by its name. */
  lemma FileFound(d: Disk, owner: map<nat, Slot>, start: nat, nb: nat, inputs: seq<HostFile>, k: nat)
    requires Inv(d, owner) && Finished(d, start, nb, inputs) && NamesOk(inputs) && start > 0 && k < |inputs|
    ensures Paths.ResolvePath(d, "/" + inputs[k].name) == Paths.Found(Some(Root), Home(start, k))
  {
    var name := inputs[k].name;
    assert HasFile(d, Home(start, k), inputs[k]);
    FinishedTree(d, owner, start, nb, inputs);
    OneComponent(name);
    assert BlockNo(d, Root, k / 16) == start + k / 16;
    assert Paths.RecordAt(d, Root, k) == Home(start, k);
    Paths.NameLeadsTo(d, owner, Root, k);
    Paths.ResolveOne(d, None, Root, name);
  }

  /** A disk on which a slot names a free block is not well formed, whoever owns what. */
  lemma NamesFreeBlock(d: Disk, b: nat)
    requires Root in d.files && d.files[Root].direct[0] == b && 0 < b < |d.free| && d.free[b]
    ensures forall owner :: !Inv(d, owner)
  {
    forall owner ensures !Inv(d, owner) {
      assert SlotVal(d, Blk(Root, 0)) == b;
    }
  }

  /** After the first i files: they are in the buffer, and have taken their blocks from `from` on. */
  ghost predicate Written(img: Image, inputs: seq<HostFile>, from: nat, i: nat)
    reads img, img.blocks
  {
    && i <= |inputs| && i <= 128 && img.Resting() && OnlyBuffered(img.files, i)
    && img.files[Root] == File("/", 0, Directory, ZeroDirect(), 0)
    && img.pos == from + AllBlocks(inputs[..i]) < img.blocks.Length && img.names == Names(inputs)[..i]
    && (forall k: nat {:trigger Buffered(k)} | k < i :: HasFile(img.Built(), Buffered(k), inputs[k]))
  }

  /** The loop of main over the files: it ends iff all of them fit. */
  method WriteFiles(img: Image, inputs: seq<HostFile>) returns (ok: bool)
    requires img.Resting() && img.files == map[Root := File("/", 0, Directory, ZeroDirect(), 0)]
    requires img.pos < img.blocks.Length && img.names == []
    modifies img, img.blocks
    ensures ok <==> && |inputs| <= 128 && (forall i | 0 <= i < |inputs| :: |inputs[i].bytes| < MAXFILESIZE)
                    && old(img.pos) + AllBlocks(inputs) < img.blocks.Length
    ensures ok ==> Written(img, inputs, old(img.pos), |inputs|) && img.pos == old(img.pos) + AllBlocks(inputs)
    ensures ok && inputs == [] ==> img.files == old(img.files) && img.pos == old(img.pos)
  {
    ghost var from := img.pos;
    for i := 0 to |inputs|
      invariant Written(img, inputs, from, i)
      invariant forall j | 0 <= j < i :: |inputs[j].bytes| < MAXFILESIZE
      invariant i == 0 ==> img.files == old(img.files)
    {
      ok := WriteNext(img, inputs, from, i);
      if !ok {
        BlocksOfPrefix(inputs, i + 1);
        return;
      }
    }
    assert inputs[..|inputs|] == inputs;
    return true;
  }

  /** One turn of the loop. */
  method WriteNext(img: Image, inputs: seq<HostFile>, ghost from: nat, i: nat) returns (ok: bool)
    requires Written(img, inputs, from, i) && i < |inputs|
    modifies img, img.blocks
    ensures ok <==> && i < 128 && |inputs[i].bytes| < MAXFILESIZE
                    && from + AllBlocks(inputs[..i + 1]) < img.blocks.Length
    ensures ok ==> Written(img, inputs, from, i + 1)
  {
    if i >= 128 {
      return false;
    }
    ghost var d := img.Built();
    BlocksOfPrefix(inputs, i);
    ok := img.WriteFile(i, inputs[i]);
    if !ok {
      return;
    }
    forall k: nat | k < i ensures HasFile(img.Built(), Buffered(k), inputs[k]) {
      assert HasFile(d, Buffered(k), inputs[k]);
      StillHas(d, img.Built(), Buffered(i), Buffered(k), inputs[k]);
    }
  }

  lemma StillHas(d: Disk, d': Disk, loc: Loc, l: Loc, f: HostFile)
    requires Kept(d, d', loc) && HasFile(d, l, f) && l != loc
    ensures HasFile(d', l, f)
  {
    forall m: nat | m < NBlocks(|f.bytes|) ensures Cell(d', l, m) == Some(Chunk(f.bytes, m)) {
      assert Cell(d, l, m) == Some(Chunk(f.bytes, m));
    }
  }

  /** What strcpy leaves is stored over, or is zero, in the record of a file whose name fits. */
  lemma NoResidue(d: Disk, loc: Loc, f: HostFile)
    requires HasFile(d, loc, f) && TailOk(d, loc) && NameFits(f)
    ensures Residue(d.files[loc], f.name) == d.files[loc]
  {
    var r, nb := Residue(d.files[loc], f.name), NBlocks(|f.bytes|);
    forall i: nat | i < NDIRECT ensures r.direct[i] == d.files[loc].direct[i] {
      WordZero(f.name, 136 + 4 * i);
      assert i < nb ==> Cell(d, loc, i) != None;
    }
    assert r.direct == d.files[loc].direct;
    WordZero(f.name, 176);
  }

  /** A name that does not fit leaves a slot past the end of the file set. */
  lemma ResidueSpoils(d: Disk, d': Disk, loc: Loc, f: HostFile)
    requires HasFile(d, loc, f) && TailOk(d, loc) && !NameFits(f)
    requires loc in d'.files && d'.files[loc] == Residue(d.files[loc], f.name)
    ensures !TailOk(d', loc)
  {
    var nb := NBlocks(|f.bytes|);
    WordZero(f.name, 136 + 4 * nb);
    assert BlockNo(d, loc, nb) == 0 && BlockNo(d', loc, nb) == WordOfName(f.name, 136 + 4 * nb);
  }

  /** The records as they are on the disk. */
  function OnDisk(d: Disk, start: nat, inputs: seq<HostFile>): Disk {
    d.(files := Stained(d.files, start, Names(inputs)))
  }

  /** The disk is what has been built, if all names fit; otherwise it is not well formed, whoever owns what. */
  lemma NamesDecide(d: Disk, owner: map<nat, Slot>, start: nat, nb: nat, inputs: seq<HostFile>)
    requires Inv(d, owner) && Finished(d, start, nb, inputs) && start > 0
    ensures (forall k | 0 <= k < |inputs| :: NameFits(inputs[k])) ==> OnDisk(d, start, inputs) == d
    ensures !(forall k | 0 <= k < |inputs| :: NameFits(inputs[k])) ==> forall o :: !Inv(OnDisk(d, start, inputs), o)
  {
    var d' := OnDisk(d, start, inputs);
    forall k: nat | k < |inputs|
      ensures Home(start, k) in d'.files && d'.files[Home(start, k)] == Residue(d.files[Home(start, k)], inputs[k].name)
      ensures HasFile(d, Home(start, k), inputs[k]) && TailOk(d, Home(start, k))
    {
      RecordNoHome(start, k);
      assert HasFile(d, Home(start, k), inputs[k]);
    }
    if forall k | 0 <= k < |inputs| :: NameFits(inputs[k]) {
      forall l | l in d.files ensures d'.files[l] == d.files[l] {
        if l.At? && l.block >= start && RecordNo(start, l) < |inputs| {
          UnmovedRecord(d, start, nb, inputs, l);
          NoResidue(d, l, inputs[RecordNo(start, l)]);
        }
      }
      assert d'.files == d.files;
    } else {
      var k: nat :| k < |inputs| && !NameFits(inputs[k]);
      ResidueSpoils(d, d', Home(start, k), inputs[k]);
      assert !TailsOk(d');
    }
  }

  lemma UnmovedRecord(d: Disk, start: nat, nb: nat, inputs: seq<HostFile>, l: Loc)
    requires Finished(d, start, nb, inputs) && l in d.files && l.At? && l.block >= start
    ensures l == Home(start, RecordNo(start, l))
  {
    var k: nat :| k < 16 * nb && l == Home(start, k);
    RecordNoHome(start, k);
  }

  /**
   * The smallest trouble: an empty file with a name of 137 characters, which reach into its
   * first slot.  The image fits any disk that has room for a directory.
   */
  lemma LongNameSpills(name: HostName)
    requires |name| == 137
    ensures var f := HostFile(name, []);
            ImageFits(5, [f]) && !NameFits(f) && Residue(NewFile(name), name).direct[0] == name[136] as int
  {
    var f := HostFile(name, []);
    assert [f][..0] == [] && AllBlocks([f]) == AllBlocks([]) + FileBlocks(0);
  }

  /**
   * fsformat: None stands for its panics and its usage message, and it comes back iff the
   * files do not fit.  The image is well formed iff there is a file and no name reaches into
   * slots that its file does not use; then it has all the files.  Given no files, fsformat
   * makes a root directory that names a block that the bitmap says is free.
   */
  method MakeImage(nblocks: nat, inputs: seq<HostFile>) returns (r: Option<Disk>, ghost owner: map<nat, Slot>, ghost start: nat)
    ensures r.Some? <==> ImageFits(nblocks, inputs)
    ensures r.Some? <==> && 4 <= nblocks <= 1024 && |inputs| <= 128 && (forall i | 0 <= i < |inputs| :: |inputs[i].bytes| < MAXFILESIZE)
                         && 3 + AllBlocks(inputs) + (|inputs| + 15) / 16 < nblocks
    ensures r.Some? ==> |r.value.free| == nblocks
    ensures r.Some? && WellMade(inputs) ==>
              start > 0 && Inv(r.value, owner) && Finished(r.value, start, (|inputs| + 15) / 16, inputs)
    ensures r.Some? && !WellMade(inputs) ==> forall o :: !Inv(r.value, o)
    ensures r.Some? && inputs != [] && NamesOk(inputs) ==> WellMade(inputs) && Paths.TreeOk(r.value, owner)
  {
    r, owner, start := None, map[], 0;
    if nblocks < 4 || nblocks > 1024 {
      return;
    }
    var img := new Image(nblocks);
    var ok := WriteFiles(img, inputs);
    if ok {
      assert Names(inputs)[..|inputs|] == Names(inputs);
      r, start := FinishImage(img, inputs);
      owner := img.owner;
    }
  }

  /** finishdir and finishdisk. */
  method FinishImage(img: Image, inputs: seq<HostFile>) returns (r: Option<Disk>, ghost start: nat)
    requires Written(img, inputs, 3, |inputs|) && img.names == Names(inputs)
    requires inputs == [] ==> img.files == map[Root := File("/", 0, Directory, ZeroDirect(), 0)]
    requires forall b | 0 <= b < img.bitmap.Length :: img.bitmap[b]
    modifies img, img.blocks, img.bitmap
    ensures r.Some? <==> old(img.pos) + (|inputs| + 15) / 16 < img.blocks.Length
    ensures r.Some? ==> |r.value.free| == img.blocks.Length
    ensures r.Some? && WellMade(inputs) ==>
              start > 0 && Inv(r.value, img.owner) && Finished(r.value, start, (|inputs| + 15) / 16, inputs)
    ensures r.Some? && !WellMade(inputs) ==> forall o :: !Inv(r.value, o)
    ensures r.Some? && inputs != [] && NamesOk(inputs) ==> WellMade(inputs) && Paths.TreeOk(r.value, img.owner)
  {
    var ok, at := true, 0;
    start := 0;
    if inputs == [] {
      img.FinishEmptyDir();
    } else {
      ok, at := img.FinishDir(|inputs|, inputs);
      if !ok {
        return None, start;
      }
    }
    img.FinishDisk();
    var d := Disk(img.bitmap[..], Stained(img.files, at, img.names), img.blocks[..]);
    start := at;
    if inputs == [] {
      NamesFreeBlock(d, img.pos);
    } else {
      assert d == OnDisk(img.Built(), at, inputs);
      MadeFrom(img.Built(), img.owner, at, inputs, d);
    }
    r := Some(d);
  }

  /** There is a file, and no name reaches into slots that its file does not use. */
  predicate WellMade(inputs: seq<HostFile>) {
    inputs != [] && forall k | 0 <= k < |inputs| :: NameFits(inputs[k])
  }

  lemma MadeFrom(built: Disk, owner: map<nat, Slot>, start: nat, inputs: seq<HostFile>, d: Disk)
    requires Inv(built, owner) && Finished(built, start, (|inputs| + 15) / 16, inputs) && start > 0 && inputs != []
    requires d == OnDisk(built, start, inputs)
    ensures WellMade(inputs) ==> Inv(d, owner) && Finished(d, start, (|inputs| + 15) / 16, inputs)
    ensures !WellMade(inputs) ==> forall o :: !Inv(d, o)
    ensures NamesOk(inputs) ==> WellMade(inputs) && Paths.TreeOk(d, owner)
  {
    NamesDecide(built, owner, start, (|inputs| + 15) / 16, inputs);
    if NamesOk(inputs) {
      FinishedTree(built, owner, start, (|inputs| + 15) / 16, inputs);
    }
  }

  /** A file of the image, as users see it. */
  lemma InputSeen(d: Disk, owner: map<nat, Slot>, start: nat, nb: nat, inputs: seq<HostFile>, k: nat)
    requires Inv(d, owner) && Finished(d, start, nb, inputs) && NamesOk(inputs) && start > 0 && k < |inputs|
    ensures var c, bytes := Paths.Seen(d, [inputs[k].name]), inputs[k].bytes;
            c.Some? && c.value.ftype == Regular && c.value.size == |bytes| && HasBytes(c.value, 0, bytes)
  {
    var f, loc := inputs[k], Home(start, k);
    FileFound(d, owner, start, nb, inputs, k);
    OneComponent(f.name);
    assert HasFile(d, loc, f);
    FileBytes(d, loc, f);
    ContentsHave(d, loc, 0, f.bytes);
  }

  /**
   * From the format program to the file server: if the files fit, the server finds all of
   * them on the image, and serves any run of requests as Paths.ServeAll says.
   */
  method FormatAndServe(nblocks: nat, inputs: seq<HostFile>, qs: seq<Paths.Request>)
    returns (fs: Option<FileServer>, done: nat, replies: seq<seq<Byte>>, ghost ds: seq<Disk>)
    requires inputs != [] && (forall k | 0 <= k < |inputs| :: |inputs[k].name| < 128)
    requires forall j, k | 0 <= j < k < |inputs| :: inputs[j].name != inputs[k].name
    ensures fs.Some? <==> ImageFits(nblocks, inputs)
    ensures fs.Some? ==> fresh(fs.value) && Inv(fs.value.State(), fs.value.owner) && Paths.TreeOk(fs.value.State(), fs.value.owner)
    ensures fs.Some? ==> done <= |qs| && Paths.IsRun(ds, qs[..done], replies)
    ensures fs.Some? ==> forall k | 0 <= k < |inputs| ::
              var c, bytes := Paths.Seen(ds[0], [inputs[k].name]), inputs[k].bytes;
              c.Some? && c.value.ftype == Regular && c.value.size == |bytes| && HasBytes(c.value, 0, bytes)
    ensures fs.Some? && done == |qs| ==> ds[done] == fs.value.State()
    ensures fs.Some? && done < |qs| ==> Paths.CanServe(ds[done], qs[done]) && Paths.NoSpace(ds[done], qs[done])
  {
    fs, done, replies, ds := None, 0, [], [];
    var r;
    ghost var owner, start;
    r, owner, start := MakeImage(nblocks, inputs);
    if r.Some? {
      forall k | 0 <= k < |inputs|
        ensures var c, bytes := Paths.Seen(r.value, [inputs[k].name]), inputs[k].bytes;
                c.Some? && c.value.ftype == Regular && c.value.size == |bytes| && HasBytes(c.value, 0, bytes)
      {
        InputSeen(r.value, owner, start, (|inputs| + 15) / 16, inputs, k);
      }
      var server := new FileServer(r.value, owner);
      done, replies, ds := Paths.ServeAll(server, qs);
      fs := Some(server);
    }
  }

  lemma FillStart(d0: Disk, d: Disk, pos: nat, loc: Loc, start: nat, nb: nat)
    requires loc in d0.files && loc in d.files && d == SetMeta(d0, loc, d0.files[loc].name, d.files[loc].size) && |d.free| == |d.blocks|
    requires d0.files[loc].direct == ZeroDirect() && d0.files[loc].indirect == 0
    requires start + nb == pos <= |d.blocks| && nb <= NSLOTS
    requires forall b | 0 <= b < |d.free| :: d.free[b] <==> b >= start
    requires forall b | start <= b < pos :: d.blocks[b].Data?
    ensures Filling(d0, d, pos, loc, start, nb, 0)
  {
    forall t | IsSlot(d0, t) && t.loc != loc ensures SlotVal(d, t) == SlotVal(d0, t) {
    }
    forall l, m: nat | l in d0.files && m < NSLOTS && l != loc ensures Cell(d, l, m) == Cell(d0, l, m) {
      assert SlotVal(d, Blk(l, m)) == SlotVal(d0, Blk(l, m));
    }
  }

  lemma FillPast(d0: Disk, d: Disk, d': Disk, pos: nat, loc: Loc, start: nat, nb: nat, i: nat)
    requires Filling(d0, d, pos, loc, start, nb, i) && Kept(d, d', loc) && SameMeta(d, d')
    requires loc in d'.files && SlotsBut(d, d', Ptr(loc), d'.files[loc].indirect)
    requires forall m: nat | m < NSLOTS :: Cell(d', loc, m) == Cell(d, loc, m)
    requires pos < |d.free| && d'.free == d.free[pos := false]
    requires forall c | 0 <= c < |d.blocks| && c != pos :: d'.blocks[c] == d.blocks[c]
    ensures Filling(d0, d', pos + 1, loc, start, nb, i)
  {
    KeptTrans(d0, d, d', loc);
    forall n: nat | n < NSLOTS ensures BlockNo(d', loc, n) == if n < i then start + n else 0 {
      assert SlotVal(d', Blk(loc, n)) == SlotVal(d, Blk(loc, n));
    }
    forall n: nat | n < i ensures Stored(d0, d', loc, start, n) {
      assert Stored(d0, d, loc, start, n) && Cell(d', loc, n) == Cell(d, loc, n);
    }
    forall b | start + i <= b < start + nb ensures d'.blocks[b].Data? && d'.blocks[b] == d0.blocks[b] {
      assert d.blocks[b].Data?;
    }
  }

  lemma FillEnd(d0: Disk, d: Disk, pos: nat, loc: Loc, start: nat, nb: nat)
    requires TailsOk(d0) && Filling(d0, d, pos, loc, start, nb, nb)
    requires nb == NBlocks(d.files[loc].size) && d.files[loc].size <= MAXFILESIZE
    requires nb < NDIRECT ==> d.files[loc].indirect == 0
    ensures TailsOk(d)
  {
    KeptTails(d0, d, loc);
  }

  /** Block n of the file has the bytes that its disk block had. */
  ghost predicate Stored(d0: Disk, d: Disk, loc: Loc, start: nat, n: nat) {
    && loc in d.files && n < NSLOTS && start + n < |d0.blocks| && d0.blocks[start + n].Data?
    && Cell(d, loc, n) == Some(d0.blocks[start + n].bytes)
  }

  /** The blocks of bytes are what they were. */
  ghost predicate DataKept(d: Disk, d': Disk) {
    |d'.blocks| == |d.blocks| && forall c {:trigger d'.blocks[c]} | 0 <= c < |d.blocks| && d.blocks[c].Data? :: d'.blocks[c] == d.blocks[c]
  }

  /** finishfile has stored blocks 0 to i-1 of the nb blocks from start; d0 is the disk it began with. */
  ghost predicate Filling(d0: Disk, d: Disk, pos: nat, loc: Loc, start: nat, nb: nat, i: nat) {
    && |d0.blocks| == |d.blocks| == |d.free| && loc in d.files && d.files.Keys == d0.files.Keys
    && i <= nb <= NSLOTS && start + nb <= pos <= |d.blocks| && Kept(d0, d, loc)
    && (forall n: nat {:trigger BlockNo(d, loc, n)} | n < NSLOTS :: BlockNo(d, loc, n) == if n < i then start + n else 0)
    && (forall n: nat {:trigger Stored(d0, d, loc, start, n)} | n < i :: Stored(d0, d, loc, start, n))
    && (forall b {:trigger d.blocks[b]} | start + i <= b < start + nb :: d.blocks[b].Data? && d.blocks[b] == d0.blocks[b])
    && (forall b {:trigger d.free[b]} | 0 <= b < |d.free| :: d.free[b] <==> b >= pos || start + i <= b < start + nb)
  }

  lemma FillStep(d0: Disk, d: Disk, d': Disk, pos: nat, loc: Loc, start: nat, nb: nat, i: nat)
    requires Filling(d0, d, pos, loc, start, nb, i) && i < nb && Kept(d, d', loc) && SameMeta(d, d')
    requires SlotsBut(d, d', Blk(loc, i), start + i) && CellsBut(d, d', loc, i)
    requires start + i < |d.free| && d.blocks[start + i].Data? && Cell(d', loc, i) == Some(d.blocks[start + i].bytes)
    requires d'.free == d.free[start + i := false]
    requires DataKept(d, d')
    ensures Filling(d0, d', pos, loc, start, nb, i + 1)
  {
    KeptTrans(d0, d, d', loc);
    FilledSlots(d, d', loc, start, i);
    forall n: nat | n < i + 1 ensures Stored(d0, d', loc, start, n) {
      if n < i {
        assert Stored(d0, d, loc, start, n) && Cell(d', loc, n) == Cell(d, loc, n);
      } else {
        assert d.blocks[start + i] == d0.blocks[start + i];
      }
    }
    forall b | start + i + 1 <= b < start + nb ensures d'.blocks[b].Data? && d'.blocks[b] == d0.blocks[b] {
      assert d.blocks[b].Data?;
    }
  }

  lemma FilledSlots(d: Disk, d': Disk, loc: Loc, start: nat, i: nat)
    requires loc in d.files && loc in d'.files && SlotsBut(d, d', Blk(loc, i), start + i) && CellsBut(d, d', loc, i)
    requires forall n: nat {:trigger BlockNo(d, loc, n)} | n < NSLOTS :: BlockNo(d, loc, n) == if n < i then start + n else 0
    ensures forall n: nat {:trigger BlockNo(d', loc, n)} | n < NSLOTS :: BlockNo(d', loc, n) == if n < i + 1 then start + n else 0
    ensures forall n: nat {:trigger Cell(d', loc, n)} | n < i && n < NSLOTS :: Cell(d', loc, n) == Cell(d, loc, n)
  {
    forall n: nat | n < NSLOTS ensures BlockNo(d', loc, n) == if n < i + 1 then start + n else 0 {
      assert SlotVal(d', Blk(loc, n)) == if n == i then start + i else SlotVal(d, Blk(loc, n));
    }
  }
}
