/**
 * Working/lab/fs/fs.c above Working/lab/fs/bc.c: the accesses of file_read and file_write
 * to a file's blocks, made through the block cache.  They never panic, and they read and
 * change what module FileSystem says, also across a restart.
 */
module CachedFiles {
  import opened FileSystem
  import opened Wrappers
  import BC = BlockCache

  /** Block b of the view is block b of the disk. */
  ghost predicate ShowsBlock(view: seq<Bytes>, d: Disk, b: nat)
    requires b < |view| == |d.blocks|
  {
    match d.blocks[b]
    case Data(bytes) => view[b] == bytes
    case Ind(entries) => forall i: nat {:trigger entries[i]} | i < NINDIRECT :: BC.Word(view[b], i) == entries[i]
  }

  /** The block belongs to a regular file. */
  ghost predicate OfFile(d: Disk, owner: map<nat, Slot>, b: nat) {
    b in owner && owner[b].loc in d.files && d.files[owner[b].loc].ftype == Regular
  }

  /** What the cache shows is the disk: its bitmap, and the blocks of its regular files. */
  ghost predicate Shows(view: seq<Bytes>, d: Disk, owner: map<nat, Slot>) {
    && 2 < |view| <= 786432 && |view| == |d.blocks| == |d.free|
    && (forall b: nat {:trigger d.free[b]} {:trigger BC.MarkedFree(view, b)} | b < |view| :: d.free[b] <==> BC.MarkedFree(view, b))
    && (forall b: nat {:trigger OfFile(d, owner, b)} | b < |view| && OfFile(d, owner, b) :: ShowsBlock(view, d, b))
  }

  /** No access to a block that a slot names panics, and no check of the bitmap does. */
  lemma NamedMayBeUsed(view: seq<Bytes>, d: Disk, owner: map<nat, Slot>, s: Slot)
    requires Owned(d, owner) && Shows(view, d, owner) && IsSlot(d, s) && SlotVal(d, s) != 0
    ensures BC.ReservedInUse(view) && 2 < SlotVal(d, s) < |view| && !BC.MarkedFree(view, SlotVal(d, s))
    ensures d.files[s.loc].ftype == Regular ==> ShowsBlock(view, d, SlotVal(d, s))
    ensures if s.Ptr? then d.blocks[SlotVal(d, s)].Ind? else d.blocks[SlotVal(d, s)].Data?
  {
    NamedBlock(d, owner, s);
    assert d.files[s.loc].ftype == Regular ==> OfFile(d, owner, SlotVal(d, s));
    forall b: nat | b < FirstData(|view|) && b < |view| ensures !BC.MarkedFree(view, b) {
      assert !d.free[b];
    }
  }

  /** A changed byte of a file's block is that change of the disk. */
  lemma ByteChanged(view: seq<Bytes>, d: Disk, owner: map<nat, Slot>, b: nat, off: nat, x: Byte)
    requires Owned(d, owner) && Shows(view, d, owner) && OfFile(d, owner, b) && b < |view| && d.blocks[b].Data? && off < 4096
    ensures Shows(view[b := view[b][off := x]], d.(blocks := d.blocks[b := Data(d.blocks[b].bytes[off := x])]), owner)
  {
    var view', d' := view[b := view[b][off := x]], d.(blocks := d.blocks[b := Data(d.blocks[b].bytes[off := x])]);
    assert OwnedBlock(d, owner[b], b);
    assert ShowsBlock(view, d, b);
    forall c: nat | c < |view| ensures d'.free[c] <==> BC.MarkedFree(view', c) {
      assert BC.BitmapBlock(c) < FirstData(|view|) <= b;
    }
    forall c: nat | c < |view| && OfFile(d', owner, c) ensures ShowsBlock(view', d', c) {
      assert OfFile(d, owner, c);
    }
  }

  /** block_is_free, of a block in the cache, says what the disk's bitmap says. */
  method BlockIsFree(c: BC.Cache, ghost d: Disk, ghost owner: map<nat, Slot>, b: nat) returns (ok: bool, free: bool)
    requires c.Valid() && c.mounted && Owned(d, owner) && Shows(c.View(), d, owner) && b < c.nblocks && b in c.pages
    modifies c
    ensures c.Valid() && c.View() == old(c.View()) && ok && free == d.free[b]
  {
    forall x: nat | x < FirstData(c.nblocks) && x < c.nblocks ensures !BC.MarkedFree(c.View(), x) {
      assert !d.free[x];
    }
    ok, free := c.BlockIsFree(b);
  }

  /** A word read through the cache. */
  method ReadWord(c: BC.Cache, b: nat, i: nat) returns (ok: bool, w: nat)
    requires c.Valid() && i < 1024 && 0 < b < c.nblocks && BC.ReservedInUse(c.View()) && !BC.MarkedFree(c.View(), b)
    modifies c
    ensures c.Valid() && c.View() == old(c.View()) && ok && w == BC.Word(c.View()[b], i)
  {
    var w0, w1, w2, w3;
    ok, w0 := c.ReadByte(b, 4 * i);
    ok, w1 := c.ReadByte(b, 4 * i + 1);
    ok, w2 := c.ReadByte(b, 4 * i + 2);
    ok, w3 := c.ReadByte(b, 4 * i + 3);
    w := w0 + 256 * (w1 as int) + 65536 * (w2 as int) + 16777216 * (w3 as int);
  }

  /** The block that holds block n of a file, found through the cache. */
  method FindBlock(c: BC.Cache, ghost d: Disk, ghost owner: map<nat, Slot>, ghost loc: Loc, f: File, n: nat) returns (ok: bool, b: nat)
    requires c.Valid() && Inv(d, owner) && Shows(c.View(), d, owner) && f.ftype == Regular
    requires loc in d.files && d.files[loc] == f && n < NSLOTS && BlockNo(d, loc, n) != 0
    modifies c
    ensures c.Valid() && c.View() == old(c.View()) && ok && b == BlockNo(d, loc, n)
  {
    if n < NDIRECT {
      return true, f.direct[n];
    }
    NamedMayBeUsed(c.View(), d, owner, Ptr(loc));
    ok, b := ReadWord(c, f.indirect, n - NDIRECT);
    assert b == d.blocks[f.indirect].entries[n - NDIRECT];
  }

  /** A byte of a file that has a block there. */
  method ReadByte(c: BC.Cache, ghost d: Disk, ghost owner: map<nat, Slot>, ghost loc: Loc, f: File, pos: nat) returns (ok: bool, x: Byte)
    requires c.Valid() && Inv(d, owner) && Shows(c.View(), d, owner) && f.ftype == Regular
    requires loc in d.files && d.files[loc] == f && pos < MAXFILESIZE && ByteAt(d, loc, pos) != None
    modifies c
    ensures c.Valid() && c.View() == old(c.View()) && ok && ByteAt(d, loc, pos) == Some(x)
  {
    var b;
    ok, b := FindBlock(c, d, owner, loc, f, pos / 4096);
    NamedMayBeUsed(c.View(), d, owner, Blk(loc, pos / 4096));
    ok, x := c.ReadByte(b, pos % 4096);
  }

  /** The disk with byte pos of the file changed. */
  ghost function Patched(d: Disk, loc: Loc, pos: nat, x: Byte): Disk
    requires loc in d.files && pos < MAXFILESIZE && ByteAt(d, loc, pos) != None
  {
    var b := BlockNo(d, loc, pos / 4096);
    d.(blocks := d.blocks[b := Data(d.blocks[b].bytes[pos % 4096 := x])])
  }

  lemma PatchedByte(d: Disk, owner: map<nat, Slot>, loc: Loc, pos: nat, x: Byte)
    requires Inv(d, owner) && loc in d.files && pos < MAXFILESIZE && ByteAt(d, loc, pos) != None
    ensures var d' := Patched(d, loc, pos, x);
            Inv(d', owner) && OthersKept(d, d', loc) && Holds(d', loc, pos, [x]) && KeptOutside(d, d', loc, pos, pos + 1)
  {
    var n, o, d' := pos / 4096, pos % 4096, Patched(d, loc, pos, x);
    var was := Cell(d, loc, n).value;
    SetBytes(d, owner, loc, n, was[o := x]);
    assert was[o := x] == was[..o] + [x] + was[o + 1..];
    PatchedBlock(d, d, d', loc, pos, [x], was[o := x]);
  }

  /** A byte written there. */
  method WriteByte(c: BC.Cache, ghost d: Disk, ghost owner: map<nat, Slot>, ghost loc: Loc, f: File, pos: nat, x: Byte) returns (ok: bool)
    requires c.Valid() && Inv(d, owner) && Shows(c.View(), d, owner) && f.ftype == Regular
    requires loc in d.files && d.files[loc] == f && pos < MAXFILESIZE && ByteAt(d, loc, pos) != None
    modifies c
    ensures c.Valid() && ok && Shows(c.View(), Patched(d, loc, pos, x), owner)
  {
    var b;
    ok, b := FindBlock(c, d, owner, loc, f, pos / 4096);
    NamedBlock(d, owner, Blk(loc, pos / 4096));
    NamedMayBeUsed(c.View(), d, owner, Blk(loc, pos / 4096));
    ByteChanged(c.View(), d, owner, b, pos % 4096, x);
    ok := c.WriteByte(b, pos % 4096, x);
  }

  /** The file has a block at each of these positions. */
  ghost predicate NoHoles(d: Disk, loc: Loc, lo: nat, hi: nat) {
    && loc in d.files && lo <= hi <= MAXFILESIZE
    && forall p {:trigger ByteAt(d, loc, p)} | lo <= p < hi :: ByteAt(d, loc, p) != None
  }

  /** The bytes from offset to end, read through the cache. */
  method ReadRange(c: BC.Cache, ghost d: Disk, ghost owner: map<nat, Slot>, ghost loc: Loc, f: File, offset: nat, end: nat)
    returns (ok: bool, buf: seq<Byte>)
    requires c.Valid() && Inv(d, owner) && Shows(c.View(), d, owner) && f.ftype == Regular
    requires NoHoles(d, loc, offset, end) && d.files[loc] == f
    modifies c
    ensures c.Valid() && c.View() == old(c.View())
    ensures ok && |buf| == end - offset && Holds(d, loc, offset, buf)
  {
    ok, buf := true, [];
    for pos := offset to end
      invariant c.Valid() && c.View() == old(c.View()) && ok && |buf| == pos - offset && Holds(d, loc, offset, buf)
    {
      var x;
      assert ByteAt(d, loc, pos) != None;
      ok, x := ReadByte(c, d, owner, loc, f, pos);
      HoldsOneMore(d, loc, offset, pos, buf, x);
      buf := buf + [x];
    }
  }

  lemma HoldsOneMore(d: Disk, loc: Loc, offset: nat, pos: nat, buf: seq<Byte>, x: Byte)
    requires loc in d.files && Holds(d, loc, offset, buf) && pos == offset + |buf| < MAXFILESIZE && ByteAt(d, loc, pos) == Some(x)
    ensures Holds(d, loc, offset, buf + [x])
  {
    forall p | offset <= p < offset + |buf + [x]| ensures ByteAt(d, loc, p) == Some((buf + [x])[p - offset]) {
      if p < offset + |buf| {
        assert ByteAt(d, loc, p) == Some(buf[p - offset]);
      }
    }
  }

  /** From d to d' the first k bytes of data have been written at offset, over bytes the file had. */
  ghost predicate Wrote(d: Disk, d': Disk, owner: map<nat, Slot>, loc: Loc, offset: nat, data: seq<Byte>, k: nat) {
    && NoHoles(d, loc, offset, offset + |data|) && k <= |data| && Inv(d', owner) && d'.files == d.files
    && OthersKept(d, d', loc) && Holds(d', loc, offset, data[..k]) && KeptOutside(d, d', loc, offset, offset + k)
  }

  lemma WroteOne(d: Disk, d': Disk, owner: map<nat, Slot>, loc: Loc, offset: nat, data: seq<Byte>, k: nat, pos: nat, x: Byte)
    requires Wrote(d, d', owner, loc, offset, data, k) && k < |data| && pos == offset + k && x == data[k]
    ensures ByteAt(d', loc, pos) != None && Wrote(d, Patched(d', loc, pos, x), owner, loc, offset, data, k + 1)
  {
    assert ByteAt(d, loc, pos) != None;
    PatchedByte(d', owner, loc, pos, x);
    assert data[k..][..1] == [x];
    WroteMore(d, d', Patched(d', loc, pos, x), loc, offset, data, k, 1);
  }

  /** Data written through the cache over bytes the file has. */
  method WriteRange(c: BC.Cache, ghost d: Disk, ghost owner: map<nat, Slot>, ghost loc: Loc, f: File, offset: nat, data: seq<Byte>)
    returns (ok: bool, ghost d': Disk)
    requires c.Valid() && Inv(d, owner) && Shows(c.View(), d, owner) && f.ftype == Regular
    requires NoHoles(d, loc, offset, offset + |data|) && d.files[loc] == f
    modifies c
    ensures c.Valid() && ok && Inv(d', owner) && Shows(c.View(), d', owner) && d'.files == d.files
    ensures OthersKept(d, d', loc) && Holds(d', loc, offset, data) && KeptOutside(d, d', loc, offset, offset + |data|)
  {
    ok, d' := true, d;
    for k := 0 to |data|
      invariant c.Valid() && ok && Shows(c.View(), d', owner) && Wrote(d, d', owner, loc, offset, data, k)
    {
      var pos, x := offset + k, data[k];
      WroteOne(d, d', owner, loc, offset, data, k, pos, x);
      ghost var next := Patched(d', loc, pos, x);
      ok := WriteByte(c, d', owner, loc, f, pos, x);
      d' := next;
    }
    assert data[..|data|] == data;
  }

  /** What is written to a file is read back by a server that starts after fs_sync. */
  method WriteRestartRead(c: BC.Cache, ghost d: Disk, ghost owner: map<nat, Slot>, ghost loc: Loc, f: File, offset: nat, data: seq<Byte>)
    returns (ok: bool, buf: seq<Byte>)
    requires c.Valid() && Inv(d, owner) && Shows(c.View(), d, owner) && f.ftype == Regular
    requires NoHoles(d, loc, offset, offset + |data|) && d.files[loc] == f
    modifies c, c.disk
    ensures ok && buf == data
  {
    ghost var d';
    ok, d' := WriteRange(c, d, owner, loc, f, offset, data);
    var next := c.SyncThenRestart();
    forall p | offset <= p < offset + |data| ensures ByteAt(d', loc, p) != None && ByteAt(d', loc, p) == Some(data[p - offset]) {
    }
    ok, buf := ReadRange(next, d', owner, loc, f, offset, offset + |data|);
    forall k | 0 <= k < |data| ensures buf[k] == data[k] {
      assert ByteAt(d', loc, offset + k) == Some(data[k]);
    }
  }
}
