/**
 * Working/lab/fs/fs.c: directories and path names.
 *
 * A directory's blocks hold file records; record j of the directory's block i is the
 * record at place At(b, j), b the disk block that holds block i.
 */
module Paths {
  import opened FileSystem
  import opened Wrappers

  const MAXNAMELEN := 128

  // --------------------------------------------------------------- path names

  /** The pieces between slashes; some may be empty. */
  function Split(s: string): (r: seq<string>)
    ensures |r| >= 1
    ensures forall c | c in r :: '/' !in c
  {
    if s == "" then [""]
    else if s[0] == '/' then [""] + Split(s[1..])
    else var r := Split(s[1..]); [[s[0]] + r[0]] + r[1..]
  }

  function NonEmpty(ss: seq<string>): (r: seq<string>)
    ensures forall c | c in r :: c != "" && c in ss
  {
    if ss == [] then [] else (if ss[0] == "" then [] else [ss[0]]) + NonEmpty(ss[1..])
  }

  /** The components of a path: repeated, leading and trailing slashes count for nothing. */
  function Components(s: string): (r: seq<string>)
    ensures forall c | c in r :: c != "" && '/' !in c
  {
    NonEmpty(Split(s))
  }

  lemma {:induction false} SlashThenRest(w: string, rest: string)
    requires '/' !in w && (rest == "" || rest[0] == '/')
    ensures Split(w + rest)[0] == w && NonEmpty(Split(w + rest)[1..]) == Components(rest)
  {
    if w == "" {
      assert w + rest == rest;
    } else {
      assert (w + rest)[1..] == w[1..] + rest;
      SlashThenRest(w[1..], rest);
      assert w == [w[0]] + w[1..];
    }
  }

  /** What walk_path takes off the front of a path is its first component. */
  lemma FirstComponent(w: string, rest: string)
    requires w != "" && '/' !in w && (rest == "" || rest[0] == '/')
    ensures Components(w + rest) == [w] + Components(rest)
  {
    SlashThenRest(w, rest);
    var s := Split(w + rest);
    assert s == [w] + s[1..];
  }

  lemma SlashSkipped(s: string)
    requires s != "" && s[0] == '/'
    ensures Components(s) == Components(s[1..])
  {
    assert Split(s)[1..] == Split(s[1..]);
  }

  function Join(cs: seq<string>): string {
    if cs == [] then "" else "/" + cs[0] + Join(cs[1..])
  }

  /** Components undoes Join. */
  lemma {:induction false} ComponentsOfJoin(cs: seq<string>)
    requires forall c | c in cs :: c != "" && '/' !in c
    ensures Components(Join(cs)) == cs
  {
    if cs != [] {
      assert forall c | c in cs[1..] :: c in cs;
      ComponentsOfJoin(cs[1..]);
      var s := Join(cs);
      assert cs[0] in cs;
      assert cs[1..] != [] ==> Join(cs[1..])[0] == '/';
      assert s[1..] == cs[0] + Join(cs[1..]);
      SlashSkipped(s);
      FirstComponent(cs[0], Join(cs[1..]));
    }
  }

  // -------------------------------------------------------------- directories

  predicate IsDir(d: Disk, loc: Loc) { loc in d.files && d.files[loc].ftype == Directory }

  function NRecords(d: Disk, dir: Loc): (n: nat)
    requires dir in d.files
    ensures forall k: nat | k < n :: k / 16 < d.files[dir].size / 4096
  {
    d.files[dir].size / 4096 * 16
  }

  /** The place of record k of a directory. */
  function RecordAt(d: Disk, dir: Loc, k: nat): Loc
    requires dir in d.files && k / 16 < NSLOTS
  {
    At(BlockNo(d, dir, k / 16), k % 16)
  }

  /** Record k of a directory exists and is in one of the directory's own blocks. */
  ghost predicate RecordOk(d: Disk, owner: map<nat, Slot>, dir: Loc, k: nat) {
    && dir in d.files && k / 16 < NSLOTS && RecordAt(d, dir, k) in d.files
    && BlockNo(d, dir, k / 16) in owner && owner[BlockNo(d, dir, k / 16)] == Blk(dir, k / 16)
  }

  ghost predicate DirOk(d: Disk, owner: map<nat, Slot>, dir: Loc) {
    && IsDir(d, dir) && d.files[dir].size % 4096 == 0 && d.files[dir].size <= MAXFILESIZE
    && forall k: nat {:trigger RecordOk(d, owner, dir, k)} | k < NRecords(d, dir) :: RecordOk(d, owner, dir, k)
  }

  /** A record with no name is unused: it has no blocks. */
  ghost predicate UnusedOk(d: Disk, loc: Loc)
    requires loc in d.files
  {
    d.files[loc].name == "" && loc != Root ==> d.files[loc].size == 0
  }

  /** No two records of a directory have the same name. */
  ghost predicate NamesDiffer(d: Disk, owner: map<nat, Slot>, dir: Loc)
    requires DirOk(d, owner, dir)
  {
    forall j: nat, k: nat {:trigger RecordOk(d, owner, dir, j), RecordOk(d, owner, dir, k)} |
      j < k < NRecords(d, dir) && RecordOk(d, owner, dir, j) && RecordOk(d, owner, dir, k) ::
        d.files[RecordAt(d, dir, j)].name != "" ==>
        d.files[RecordAt(d, dir, j)].name != d.files[RecordAt(d, dir, k)].name
  }

  /** A well-formed directory tree. */
  ghost predicate TreeOk(d: Disk, owner: map<nat, Slot>) {
    && IsDir(d, Root)
    && (forall dir {:trigger DirOk(d, owner, dir)} | IsDir(d, dir) :: DirOk(d, owner, dir) && NamesDiffer(d, owner, dir))
    && (forall loc {:trigger UnusedOk(d, loc)} | loc in d.files :: UnusedOk(d, loc))
  }

  /** The first record of a directory, from k on, that has the name. */
  function Lookup(d: Disk, dir: Loc, name: string, k: nat): (r: Option<Loc>)
    requires TailsOk(d) && dir in d.files && k <= NRecords(d, dir)
    ensures r.Some? ==> r.value in d.files && d.files[r.value].name == name
    decreases NRecords(d, dir) - k
  {
    if k == NRecords(d, dir) then None
    else
      assert TailOk(d, dir);
      var l := RecordAt(d, dir, k);
      if l in d.files && d.files[l].name == name then Some(l) else Lookup(d, dir, name, k + 1)
  }

  datatype Walked =
    | Found(dir: Option<Loc>, file: Loc)
    | Missing(in_: Option<Loc>, last: string)
    | BadPath

  /** Component-wise resolution from loc, which was found in parent. */
  function Resolve(d: Disk, parent: Option<Loc>, loc: Loc, cs: seq<string>): (r: Walked)
    requires TailsOk(d) && loc in d.files
    ensures r.Found? ==> r.file in d.files
    decreases |cs|
  {
    if cs == [] then Found(parent, loc)
    else if |cs[0]| >= MAXNAMELEN then BadPath
    else if d.files[loc].ftype != Directory then Missing(None, "")
    else match Lookup(d, loc, cs[0], 0)
      case None => if |cs| == 1 then Missing(Some(loc), cs[0]) else Missing(None, "")
      case Some(l) => Resolve(d, Some(loc), l, cs[1..])
  }

  function ResolvePath(d: Disk, path: string): Walked
    requires TailsOk(d) && Root in d.files
  {
    Resolve(d, None, Root, Components(path))
  }

  // --------------------------------------------------------- lemmas on lookup

  /** What Lookup means: the record it returns is the first with the name. */
  lemma {:induction false} LookupFirst(d: Disk, dir: Loc, name: string, k: nat)
    requires TailsOk(d) && dir in d.files && k <= NRecords(d, dir)
    ensures Lookup(d, dir, name, k) == None ==>
              forall j: nat {:trigger RecordAt(d, dir, j)} | k <= j < NRecords(d, dir) && j / 16 < NSLOTS ::
                RecordAt(d, dir, j) in d.files ==> d.files[RecordAt(d, dir, j)].name != name
    ensures Lookup(d, dir, name, k).Some? ==>
              exists j: nat {:trigger RecordAt(d, dir, j)} :: k <= j < NRecords(d, dir) && j / 16 < NSLOTS
                && RecordAt(d, dir, j) == Lookup(d, dir, name, k).value
    decreases NRecords(d, dir) - k
  {
    assert TailOk(d, dir);
    if k < NRecords(d, dir) {
      LookupFirst(d, dir, name, k + 1);
    }
  }

  /** A directory's records are in its own blocks, so a record tells its directory. */
  lemma RecordTellsDirectory(d: Disk, owner: map<nat, Slot>, dir: Loc, dir': Loc, name: string, name': string)
    requires TailsOk(d) && TreeOk(d, owner) && IsDir(d, dir) && IsDir(d, dir')
    requires Lookup(d, dir, name, 0).Some? && Lookup(d, dir, name, 0) == Lookup(d, dir', name', 0)
    ensures dir == dir' && name == name'
  {
    LookupFirst(d, dir, name, 0);
    LookupFirst(d, dir', name', 0);
    var l := Lookup(d, dir, name, 0).value;
    var j: nat :| j < NRecords(d, dir) && j / 16 < NSLOTS && RecordAt(d, dir, j) == l;
    var k: nat :| k < NRecords(d, dir') && k / 16 < NSLOTS && RecordAt(d, dir', k) == l;
    assert DirOk(d, owner, dir) && DirOk(d, owner, dir');
    assert RecordOk(d, owner, dir, j) && RecordOk(d, owner, dir', k);
  }

  /** Resolution, one component more. */
  lemma {:induction false} ResolveSnoc(d: Disk, parent: Option<Loc>, loc: Loc, cs: seq<string>, x: string)
    requires TailsOk(d) && loc in d.files
    ensures Resolve(d, parent, loc, cs + [x]) ==
            match Resolve(d, parent, loc, cs)
            case Found(_, f) => Resolve(d, parent, f, [x])
            case Missing(_, _) => Missing(None, "")
            case BadPath => BadPath
    decreases |cs|
  {
    if cs == [] {
      assert cs + [x] == [x];
    } else {
      assert (cs + [x])[1..] == cs[1..] + [x];
      if |cs[0]| < MAXNAMELEN && d.files[loc].ftype == Directory {
        var l := Lookup(d, loc, cs[0], 0);
        if l.Some? {
          ResolveSnoc(d, Some(loc), l.value, cs[1..], x);
          var r := Resolve(d, Some(loc), l.value, cs[1..]);
          if r.Found? { OneStep(d, Some(loc), parent, r.file, x); }
        }
      }
    }
  }

  lemma OneStep(d: Disk, parent: Option<Loc>, parent': Option<Loc>, loc: Loc, x: string)
    requires TailsOk(d) && loc in d.files
    ensures Resolve(d, parent, loc, [x]) == Resolve(d, parent', loc, [x])
  {
  }

  /** No two paths lead to the same record. */
  lemma {:induction false} PathsUnique(d: Disk, owner: map<nat, Slot>, cs: seq<string>, cs': seq<string>)
    requires TailsOk(d) && TreeOk(d, owner)
    requires Resolve(d, None, Root, cs).Found? && Resolve(d, None, Root, cs').Found?
    requires Resolve(d, None, Root, cs).file == Resolve(d, None, Root, cs').file
    ensures cs == cs'
    decreases |cs|
  {
    if cs == [] && cs' == [] {
    } else if cs == [] {
      LastStep(d, owner, cs');
    } else if cs' == [] {
      LastStep(d, owner, cs);
    } else {
      LastStep(d, owner, cs);
      LastStep(d, owner, cs');
      var i, i' := cs[..|cs| - 1], cs'[..|cs'| - 1];
      var p, p' := Resolve(d, None, Root, i).file, Resolve(d, None, Root, i').file;
      RecordTellsDirectory(d, owner, p, p', cs[|cs| - 1], cs'[|cs'| - 1]);
      PathsUnique(d, owner, i, i');
      assert cs == i + [cs[|cs| - 1]] && cs' == i' + [cs'[|cs'| - 1]];
    }
  }

  /** A path that is found is found in the directory its front leads to; that is not the root. */
  lemma LastStep(d: Disk, owner: map<nat, Slot>, cs: seq<string>)
    requires TailsOk(d) && TreeOk(d, owner) && cs != [] && Resolve(d, None, Root, cs).Found?
    ensures var r := Resolve(d, None, Root, cs[..|cs| - 1]);
            && r.Found? && IsDir(d, r.file) && Resolve(d, None, Root, cs).dir == Some(r.file)
            && Lookup(d, r.file, cs[|cs| - 1], 0) == Some(Resolve(d, None, Root, cs).file)
    ensures Resolve(d, None, Root, cs).file != Root
  {
    var i, x := cs[..|cs| - 1], cs[|cs| - 1];
    assert cs == i + [x];
    ResolveSnoc(d, None, Root, i, x);
    var p := Resolve(d, None, Root, i).file;
    LookupFirst(d, p, x, 0);
  }

  // ------------------------------------------ what create and remove do to paths

  /** d' differs from d at most in the name and size of record f. */
  ghost predicate Renamed(d: Disk, d': Disk, f: Loc) {
    && f in d.files && d'.files.Keys == d.files.Keys
    && (forall l | l in d.files && l != f :: Meta(d'.files[l]) == Meta(d.files[l]))
    && d'.files[f].ftype == d.files[f].ftype
    && SlotsElsewhere(d, d', f)
  }

  /** Looking up x in dir gives the same record, if f is not involved. */
  lemma {:induction false} LookupKept(d: Disk, d': Disk, owner: map<nat, Slot>, f: Loc, dir: Loc, x: string, k: nat)
    requires TailsOk(d) && TailsOk(d') && TreeOk(d, owner) && Renamed(d, d', f) && IsDir(d, dir) && dir != f
    requires k <= NRecords(d, dir)
    requires forall j: nat {:trigger RecordAt(d, dir, j)} | j < NRecords(d, dir) && j / 16 < NSLOTS && RecordAt(d, dir, j) == f ::
               (d.files[f].name == x <==> d'.files[f].name == x)
    ensures NRecords(d', dir) == NRecords(d, dir) && Lookup(d', dir, x, k) == Lookup(d, dir, x, k)
    decreases NRecords(d, dir) - k
  {
    assert TailOk(d, dir) && Meta(d'.files[dir]) == Meta(d.files[dir]);
    if k < NRecords(d, dir) {
      LookupKept(d, d', owner, f, dir, x, k + 1);
      RecordKept(d, d', f, dir, k);
    }
  }

  lemma RecordKept(d: Disk, d': Disk, f: Loc, dir: Loc, k: nat)
    requires TailsOk(d) && TailsOk(d') && Renamed(d, d', f) && dir in d.files && dir != f && k < NRecords(d, dir)
    ensures k / 16 < NSLOTS && NRecords(d', dir) == NRecords(d, dir) && RecordAt(d', dir, k) == RecordAt(d, dir, k)
  {
    assert TailOk(d, dir) && Meta(d'.files[dir]) == Meta(d.files[dir]);
    assert SlotVal(d', Blk(dir, k / 16)) == SlotVal(d, Blk(dir, k / 16));
  }

  predicate Named(cs: seq<string>) { forall x | x in cs :: x != "" }

  /** f is one of the records of directory dir. */
  ghost predicate RecordOf(d: Disk, dir: Loc, f: Loc) {
    IsDir(d, dir) && exists j: nat {:trigger RecordAt(d, dir, j)} ::
      j < NRecords(d, dir) && j / 16 < NSLOTS && RecordAt(d, dir, j) == f
  }

  lemma RecordOfOne(d: Disk, owner: map<nat, Slot>, dir: Loc, dir': Loc, f: Loc)
    requires TreeOk(d, owner) && RecordOf(d, dir, f) && RecordOf(d, dir', f)
    ensures dir == dir'
  {
    var j: nat :| j < NRecords(d, dir) && j / 16 < NSLOTS && RecordAt(d, dir, j) == f;
    var k: nat :| k < NRecords(d, dir') && k / 16 < NSLOTS && RecordAt(d, dir', k) == f;
    assert DirOk(d, owner, dir) && DirOk(d, owner, dir');
    assert RecordOk(d, owner, dir, j) && RecordOk(d, owner, dir', k);
  }

  /** f, in directory dir, is the record that path front + [name] leads to, or gains or loses that name. */
  ghost predicate Edit(d: Disk, d': Disk, owner: map<nat, Slot>, f: Loc, dir: Loc, front: seq<string>, name: string) {
    && TailsOk(d) && TailsOk(d') && TreeOk(d, owner) && Renamed(d, d', f) && RecordOf(d, dir, f)
    && Resolve(d, None, Root, front).Found? && Resolve(d, None, Root, front).file == dir
    && name != "" && f != Root
    && d.files[f].name in {"", name} && d'.files[f].name in {"", name}
    && (d.files[f].name == "" || Resolve(d, None, Root, front + [name]) == Found(Some(dir), f))
  }

  /** A path that does not go through front + [name] does not lead to f. */
  lemma NotThere(d: Disk, d': Disk, owner: map<nat, Slot>, f: Loc, dir: Loc, front: seq<string>, name: string, cs: seq<string>)
    requires Edit(d, d', owner, f, dir, front, name) && Named(cs) && cs != front + [name]
    requires Resolve(d, None, Root, cs).Found?
    ensures Resolve(d, None, Root, cs).file != f
  {
    if Resolve(d, None, Root, cs).file == f {
      if cs != [] {
        LastStep(d, owner, cs);
        assert cs[|cs| - 1] in cs;
        PathsUnique(d, owner, cs, front + [name]);
      }
    }
  }

  /** Walking on from loc, which pre leads to, is not affected by the edit unless the walk takes the edited path. */
  lemma {:induction false} WalkKept(d: Disk, d': Disk, owner: map<nat, Slot>, f: Loc, dir: Loc, front: seq<string>, name: string,
      pre: seq<string>, parent: Option<Loc>, loc: Loc, cs: seq<string>)
    requires Edit(d, d', owner, f, dir, front, name) && Named(pre) && Named(cs)
    requires Resolve(d, None, Root, pre).Found? && Resolve(d, None, Root, pre).file == loc
    requires !(front + [name] <= pre + cs)
    ensures Resolve(d', parent, loc, cs) == Resolve(d, parent, loc, cs)
    decreases |cs|
  {
    assert pre == front + [name] ==> pre <= pre + cs;
    NotThere(d, d', owner, f, dir, front, name, pre);
    assert Meta(d'.files[loc]) == Meta(d.files[loc]);
    if cs != [] && |cs[0]| < MAXNAMELEN && IsDir(d, loc) {
      var x := cs[0];
      assert x in cs;
      StepKept(d, d', owner, f, dir, front, name, pre, loc, x, cs);
      var r := Lookup(d, loc, x, 0);
      if r.Some? {
        assert pre + cs == (pre + [x]) + cs[1..];
        assert forall y | y in cs[1..] :: y in cs;
        NextStep(d, pre, loc, x);
        WalkKept(d, d', owner, f, dir, front, name, pre + [x], Some(loc), r.value, cs[1..]);
      }
    }
  }

  lemma NextStep(d: Disk, pre: seq<string>, loc: Loc, x: string)
    requires TailsOk(d) && Root in d.files && Resolve(d, None, Root, pre).Found? && Resolve(d, None, Root, pre).file == loc
    requires |x| < MAXNAMELEN && IsDir(d, loc) && Lookup(d, loc, x, 0).Some?
    ensures Resolve(d, None, Root, pre + [x]).Found? && Resolve(d, None, Root, pre + [x]).file == Lookup(d, loc, x, 0).value
  {
    ResolveSnoc(d, None, Root, pre, x);
    OneStep(d, None, Resolve(d, None, Root, pre).dir, loc, x);
  }

  lemma StepKept(d: Disk, d': Disk, owner: map<nat, Slot>, f: Loc, dir: Loc, front: seq<string>, name: string,
      pre: seq<string>, loc: Loc, x: string, cs: seq<string>)
    requires Edit(d, d', owner, f, dir, front, name) && x != "" && cs != [] && cs[0] == x && loc != f && IsDir(d, loc)
    requires Resolve(d, None, Root, pre).Found? && Resolve(d, None, Root, pre).file == loc
    requires !(front + [name] <= pre + cs)
    ensures Lookup(d', loc, x, 0) == Lookup(d, loc, x, 0)
  {
    if RecordOf(d, loc, f) && x == name {
      RecordOfOne(d, owner, dir, loc, f);
      PathsUnique(d, owner, pre, front);
      assert false;
    }
    LookupKept(d, d', owner, f, loc, x, 0);
  }

  /** Every path that does not go through c leads where it did, and those that go on past c lead nowhere. */
  ghost predicate PathsKept(d: Disk, d': Disk, c: seq<string>)
    requires TailsOk(d) && TailsOk(d') && Root in d.files && Root in d'.files
  {
    && (forall cs {:trigger Resolve(d', None, Root, cs)} | Named(cs) && !(c <= cs) ::
          Resolve(d', None, Root, cs) == Resolve(d, None, Root, cs))
    && (forall cs {:trigger Resolve(d', None, Root, cs)} | c < cs ::
          !Resolve(d', None, Root, cs).Found? && !Resolve(d, None, Root, cs).Found?)
  }

  /** A path past one that leads nowhere, or to something with no records, leads nowhere. */
  lemma {:induction false} PastDeadEnd(d: Disk, c: seq<string>, ds: seq<string>)
    requires TailsOk(d) && Root in d.files && ds != []
    requires var r := Resolve(d, None, Root, c);
             r.Found? ==> d.files[r.file].ftype != Directory || d.files[r.file].size == 0
    ensures !Resolve(d, None, Root, c + ds).Found?
    decreases |ds|
  {
    var i, x := ds[..|ds| - 1], ds[|ds| - 1];
    assert c + ds == (c + i) + [x];
    ResolveSnoc(d, None, Root, c + i, x);
    if i == [] {
      assert c + i == c;
    } else {
      PastDeadEnd(d, c, i);
    }
  }

  lemma EditKeepsPaths(d: Disk, d': Disk, owner: map<nat, Slot>, f: Loc, dir: Loc, front: seq<string>, name: string)
    requires Edit(d, d', owner, f, dir, front, name)
    requires DeadEnd(d, front + [name]) && DeadEnd(d', front + [name])
    ensures PathsKept(d, d', front + [name])
  {
    var c := front + [name];
    forall cs | Named(cs) && !(c <= cs) ensures Resolve(d', None, Root, cs) == Resolve(d, None, Root, cs) {
      assert [] + cs == cs;
      WalkKept(d, d', owner, f, dir, front, name, [], None, Root, cs);
    }
    forall cs | c < cs ensures !Resolve(d', None, Root, cs).Found? && !Resolve(d, None, Root, cs).Found? {
      assert cs == c + cs[|c|..];
      PastDeadEnd(d, c, cs[|c|..]);
      PastDeadEnd(d', c, cs[|c|..]);
    }
  }

  ghost predicate DeadEnd(d: Disk, c: seq<string>)
    requires TailsOk(d) && Root in d.files
  {
    var r := Resolve(d, None, Root, c);
    r.Found? ==> d.files[r.file].ftype != Directory || d.files[r.file].size == 0
  }

  // --------------------------------------------------- the tree stays well formed

  /** A new name, if any, is one that no record of the directory has. */
  ghost predicate NameFits(d: Disk, d': Disk, f: Loc)
    requires TailsOk(d) && f in d.files && f in d'.files
  {
    || d'.files[f].name == "" || d'.files[f].name == d.files[f].name
    || forall dir | RecordOf(d, dir, f) :: Lookup(d, dir, d'.files[f].name, 0) == None
  }

  lemma RecordsStay(d: Disk, owner: map<nat, Slot>, d': Disk, owner': map<nat, Slot>, f: Loc, dir: Loc)
    requires Inv(d, owner) && Inv(d', owner') && DirOk(d, owner, dir) && Renamed(d, d', f) && dir != f
    ensures DirOk(d', owner', dir) && NRecords(d', dir) == NRecords(d, dir)
    ensures forall k: nat {:trigger RecordOk(d', owner', dir, k)} | k < NRecords(d, dir) ::
              k / 16 < NSLOTS && RecordOk(d, owner, dir, k) && RecordAt(d', dir, k) == RecordAt(d, dir, k)
  {
    assert TailOk(d, dir) && Meta(d'.files[dir]) == Meta(d.files[dir]);
    forall k: nat | k < NRecords(d, dir)
      ensures k / 16 < NSLOTS && RecordOk(d', owner', dir, k) && RecordOk(d, owner, dir, k) && RecordAt(d', dir, k) == RecordAt(d, dir, k)
    {
      assert RecordOk(d, owner, dir, k);
      var s := Blk(dir, k / 16);
      assert OwnedBlock(d, owner[BlockNo(d, dir, k / 16)], BlockNo(d, dir, k / 16));
      assert SlotVal(d', s) == SlotVal(d, s);
      NamedBlock(d', owner', s);
    }
  }

  lemma NamesStay(d: Disk, owner: map<nat, Slot>, d': Disk, owner': map<nat, Slot>, f: Loc, dir: Loc)
    requires Inv(d, owner) && Inv(d', owner') && TreeOk(d, owner) && Renamed(d, d', f) && dir != f && IsDir(d, dir)
    requires NameFits(d, d', f)
    ensures DirOk(d', owner', dir) && NamesDiffer(d', owner', dir)
  {
    assert DirOk(d, owner, dir);
    RecordsStay(d, owner, d', owner', f, dir);
    forall j: nat, k: nat | j < k < NRecords(d', dir) && RecordOk(d', owner', dir, j) && RecordOk(d', owner', dir, k)
      ensures d'.files[RecordAt(d', dir, j)].name != "" ==>
              d'.files[RecordAt(d', dir, j)].name != d'.files[RecordAt(d', dir, k)].name
    {
      assert RecordOk(d, owner, dir, j) && RecordOk(d, owner, dir, k);
      var a, b := RecordAt(d, dir, j), RecordAt(d, dir, k);
      assert a != b;
      assert a != f ==> Meta(d'.files[a]) == Meta(d.files[a]);
      assert b != f ==> Meta(d'.files[b]) == Meta(d.files[b]);
      if a == f || b == f {
        assert RecordOf(d, dir, f);
        LookupFirst(d, dir, d'.files[f].name, 0);
      }
    }
  }

  lemma TreeStays(d: Disk, owner: map<nat, Slot>, d': Disk, owner': map<nat, Slot>, f: Loc)
    requires Inv(d, owner) && Inv(d', owner') && TreeOk(d, owner) && Renamed(d, d', f) && NameFits(d, d', f)
    requires IsDir(d, f) ==> f != Root && d'.files[f].size == 0
    requires d'.files[f].name == "" && f != Root ==> d'.files[f].size == 0
    ensures TreeOk(d', owner')
  {
    assert Root != f ==> Meta(d'.files[Root]) == Meta(d.files[Root]);
    forall dir | IsDir(d', dir) ensures DirOk(d', owner', dir) && NamesDiffer(d', owner', dir) {
      if dir != f {
        assert Meta(d'.files[dir]) == Meta(d.files[dir]);
        NamesStay(d, owner, d', owner', f, dir);
      }
    }
    forall loc | loc in d'.files ensures UnusedOk(d', loc) {
      assert UnusedOk(d, loc);
      assert loc != f ==> Meta(d'.files[loc]) == Meta(d.files[loc]);
    }
  }

  /** Changing the blocks and size of a regular file does not change where any path leads. */
  lemma {:induction false} RegularKeepsPaths(d: Disk, d': Disk, owner: map<nat, Slot>, f: Loc,
      parent: Option<Loc>, loc: Loc, cs: seq<string>)
    requires TailsOk(d) && TailsOk(d') && TreeOk(d, owner) && Renamed(d, d', f)
    requires d'.files[f].name == d.files[f].name && !IsDir(d, f) && loc in d.files
    ensures Resolve(d', parent, loc, cs) == Resolve(d, parent, loc, cs)
    decreases |cs|
  {
    assert loc != f ==> Meta(d'.files[loc]) == Meta(d.files[loc]);
    if cs != [] && |cs[0]| < MAXNAMELEN && IsDir(d, loc) {
      LookupKept(d, d', owner, f, loc, cs[0], 0);
      var r := Lookup(d, loc, cs[0], 0);
      if r.Some? {
        RegularKeepsPaths(d, d', owner, f, Some(loc), r.value, cs[1..]);
      }
    }
  }

  // ---------------------------------------------------------- the two theorems

  /** The empty path is not missing. */
  lemma MissingHasLast(d: Disk, cs: seq<string>)
    requires TailsOk(d) && Root in d.files && Resolve(d, None, Root, cs).Missing?
    ensures cs != []
  {
  }

  /** A path missing from a directory there is: its front leads to the directory, which has no such name. */
  lemma LastMissing(d: Disk, i: seq<string>, x: string, dir: Loc, last: string)
    requires TailsOk(d) && Root in d.files && Resolve(d, None, Root, i + [x]) == Missing(Some(dir), last)
    ensures last == x && |x| < MAXNAMELEN && dir in d.files
    ensures var r := Resolve(d, None, Root, i);
            r.Found? && r.file == dir && IsDir(d, dir) && Lookup(d, dir, last, 0) == None
  {
    ResolveSnoc(d, None, Root, i, x);
    match Resolve(d, None, Root, i)
    case Found(_, f) => OneMissing(d, f, x, dir, last);
    case Missing(_, _) =>
    case BadPath =>
  }

  /** Resolving a single component. */
  lemma ResolveOne(d: Disk, parent: Option<Loc>, loc: Loc, x: string)
    requires TailsOk(d) && loc in d.files
    ensures Resolve(d, parent, loc, [x]) ==
            if |x| >= MAXNAMELEN then BadPath
            else if d.files[loc].ftype != Directory then Missing(None, "")
            else match Lookup(d, loc, x, 0)
              case None => Missing(Some(loc), x)
              case Some(l) => Found(Some(loc), l)
  {
    assert [x][1..] == [];
  }

  lemma OneMissing(d: Disk, loc: Loc, x: string, dir: Loc, last: string)
    requires TailsOk(d) && loc in d.files && Resolve(d, None, loc, [x]) == Missing(Some(dir), last)
    ensures loc == dir && x == last && |x| < MAXNAMELEN && IsDir(d, dir) && Lookup(d, dir, x, 0) == None
  {
    ResolveOne(d, None, loc, x);
  }

  /** The edited directory is still where it was, and is not the record itself. */
  lemma EditFront(d: Disk, d': Disk, owner: map<nat, Slot>, f: Loc, dir: Loc, front: seq<string>, name: string)
    requires Edit(d, d', owner, f, dir, front, name) && Named(front)
    ensures dir != f && Resolve(d', None, Root, front + [name]) == Resolve(d', None, dir, [name])
    ensures IsDir(d', dir)
  {
    assert !(front + [name] <= front) && [] + front == front;
    WalkKept(d, d', owner, f, dir, front, name, [], None, Root, front);
    ResolveSnoc(d', None, Root, front, name);
    NotThere(d, d', owner, f, dir, front, name, front);
    assert Meta(d'.files[dir]) == Meta(d.files[dir]);
  }

  lemma RenamedTails(d: Disk, owner: map<nat, Slot>, f: Loc, name: string)
    requires Inv(d, owner) && f in d.files
    ensures TailsOk(SetMeta(d, f, name, d.files[f].size))
  {
    var d' := SetMeta(d, f, name, d.files[f].size);
    MetaKeepsSlots(d, owner, f, name, d.files[f].size);
    forall l | l in d'.files ensures TailOk(d', l) {
      assert TailOk(d, l);
      forall m: nat | NBlocks(d'.files[l].size) <= m < NSLOTS ensures BlockNo(d', l, m) == 0 {
        assert SlotVal(d', Blk(l, m)) == SlotVal(d, Blk(l, m));
      }
    }
  }

  lemma SameRecords(d: Disk, d': Disk, f: Loc, dir: Loc, j: nat)
    requires Renamed(d, d', f) && IsDir(d, dir) && dir != f && j / 16 < NSLOTS
    ensures NRecords(d', dir) == NRecords(d, dir) && RecordAt(d', dir, j) == RecordAt(d, dir, j)
  {
    assert Meta(d'.files[dir]) == Meta(d.files[dir]);
    assert SlotVal(d', Blk(dir, j / 16)) == SlotVal(d, Blk(dir, j / 16));
  }

  lemma NamesKept(d: Disk, d': Disk, f: Loc)
    requires Renamed(d, d', f)
    ensures forall l {:trigger d'.files[l]} | l in d.files && l != f :: d'.files[l].name == d.files[l].name
  {
    forall l | l in d.files && l != f ensures d'.files[l].name == d.files[l].name {
      assert Meta(d'.files[l]) == Meta(d.files[l]);
    }
  }

  lemma NowFound(d: Disk, d': Disk, owner: map<nat, Slot>, f: Loc, dir: Loc, name: string)
    requires TailsOk(d) && TailsOk(d') && Renamed(d, d', f) && RecordOf(d, dir, f) && dir != f
    requires Lookup(d, dir, name, 0) == None && d'.files[f].name == name
    ensures Lookup(d', dir, name, 0) == Some(f)
  {
    NamesKept(d, d', f);
    LookupFirst(d, dir, name, 0);
    LookupFirst(d', dir, name, 0);
    var j: nat :| j < NRecords(d, dir) && j / 16 < NSLOTS && RecordAt(d, dir, j) == f;
    SameRecords(d, d', f, dir, j);
    var r := Lookup(d', dir, name, 0);
    var k: nat :| k < NRecords(d', dir) && k / 16 < NSLOTS && RecordAt(d', dir, k) == r.value;
    SameRecords(d, d', f, dir, k);
  }

  lemma NowGone(d: Disk, d': Disk, owner: map<nat, Slot>, f: Loc, dir: Loc, name: string)
    requires TailsOk(d) && TailsOk(d') && Renamed(d, d', f) && IsDir(d, dir) && dir != f && TreeOk(d, owner)
    requires Lookup(d, dir, name, 0) == Some(f) && name != "" && d'.files[f].name == ""
    ensures Lookup(d', dir, name, 0) == None
  {
    LookupFirst(d, dir, name, 0);
    LookupFirst(d', dir, name, 0);
    var r := Lookup(d', dir, name, 0);
    if r.Some? {
      var j: nat :| j < NRecords(d, dir) && j / 16 < NSLOTS && RecordAt(d, dir, j) == f;
      var k: nat :| k < NRecords(d', dir) && k / 16 < NSLOTS && RecordAt(d', dir, k) == r.value;
      SameRecords(d, d', f, dir, k);
      NamesKept(d, d', f);
      NameOnce(d, owner, dir, j, k);
    }
  }

  lemma NameOnce(d: Disk, owner: map<nat, Slot>, dir: Loc, j: nat, k: nat)
    requires TreeOk(d, owner) && IsDir(d, dir)
    requires j < NRecords(d, dir) && k < NRecords(d, dir) && j / 16 < NSLOTS && k / 16 < NSLOTS
    requires RecordAt(d, dir, j) in d.files && RecordAt(d, dir, k) in d.files
    requires d.files[RecordAt(d, dir, j)].name == d.files[RecordAt(d, dir, k)].name != ""
    ensures j == k
  {
    assert DirOk(d, owner, dir) && NamesDiffer(d, owner, dir);
    assert RecordOk(d, owner, dir, j) && RecordOk(d, owner, dir, k);
  }

  /** A lookup by name leads to the one record that has it. */
  lemma NameLeadsTo(d: Disk, owner: map<nat, Slot>, dir: Loc, k: nat)
    requires TailsOk(d) && TreeOk(d, owner) && IsDir(d, dir) && k < NRecords(d, dir) && k / 16 < NSLOTS
    requires RecordAt(d, dir, k) in d.files && d.files[RecordAt(d, dir, k)].name != ""
    ensures Lookup(d, dir, d.files[RecordAt(d, dir, k)].name, 0) == Some(RecordAt(d, dir, k))
  {
    var name := d.files[RecordAt(d, dir, k)].name;
    LookupFirst(d, dir, name, 0);
    var l := Lookup(d, dir, name, 0).value;
    var j: nat :| j < NRecords(d, dir) && j / 16 < NSLOTS && RecordAt(d, dir, j) == l;
    NameOnce(d, owner, dir, j, k);
  }

  lemma CreatedTree(d: Disk, owner: map<nat, Slot>, dir: Loc, last: string, f: Loc)
    requires Inv(d, owner) && TreeOk(d, owner) && IsDir(d, dir) && Lookup(d, dir, last, 0) == None && last != ""
    requires RecordOf(d, dir, f) && f in d.files && d.files[f].name == "" && f != Root
    ensures var d' := SetMeta(d, f, last, d.files[f].size);
            Inv(d', owner) && TreeOk(d', owner) && Renamed(d, d', f)
    ensures d.files[f].size == 0
  {
    var d' := SetMeta(d, f, last, d.files[f].size);
    MetaKeepsSlots(d, owner, f, last, d.files[f].size);
    RenamedTails(d, owner, f, last);
    forall dir' | RecordOf(d, dir', f) ensures Lookup(d, dir', last, 0) == None {
      RecordOfOne(d, owner, dir, dir', f);
    }
    assert UnusedOk(d, f);
    TreeStays(d, owner, d', owner, f);
  }

  /** The record f of dir, unused, takes the last component of the path as its name. */
  lemma RoomForNew(d: Disk, owner: map<nat, Slot>, cs: seq<string>, dir: Loc, last: string)
    requires TailsOk(d) && TreeOk(d, owner) && Named(cs) && Resolve(d, None, Root, cs) == Missing(Some(dir), last)
    ensures IsDir(d, dir)
    ensures Lookup(d, dir, "", 0).Some? ==>
              var f := Lookup(d, dir, "", 0).value; RecordOf(d, dir, f) && f != Root && d.files[f].size == 0
  {
    MissingHasLast(d, cs);
    assert cs == cs[..|cs| - 1] + [cs[|cs| - 1]];
    LastMissing(d, cs[..|cs| - 1], cs[|cs| - 1], dir, last);
    LookupFirst(d, dir, "", 0);
    if Lookup(d, dir, "", 0).Some? {
      assert UnusedOk(d, Lookup(d, dir, "", 0).value);
    }
  }

  lemma Created(d: Disk, owner: map<nat, Slot>, cs: seq<string>, dir: Loc, last: string, f: Loc)
    requires Inv(d, owner) && TreeOk(d, owner) && Named(cs) && Resolve(d, None, Root, cs) == Missing(Some(dir), last)
    requires RecordOf(d, dir, f) && f in d.files && d.files[f].name == "" && f != Root
    ensures var d' := SetMeta(d, f, last, d.files[f].size);
            && Inv(d', owner) && TreeOk(d', owner)
            && Resolve(d', None, Root, cs) == Found(Some(dir), f)
            && PathsKept(d, d', cs)
  {
    var d' := SetMeta(d, f, last, d.files[f].size);
    MissingHasLast(d, cs);
    var front := cs[..|cs| - 1];
    assert cs == front + [cs[|cs| - 1]];
    LastMissing(d, front, cs[|cs| - 1], dir, last);
    assert cs == front + [last] && last in cs;
    assert forall x | x in front :: x in cs;
    CreatedTree(d, owner, dir, last, f);
    EditFront(d, d', owner, f, dir, front, last);
    NowFound(d, d', owner, f, dir, last);
    EditKeepsPaths(d, d', owner, f, dir, front, last);
  }

  /** The regular file that the path leads to loses its name, size and blocks. */
  lemma Removed(d: Disk, owner: map<nat, Slot>, d': Disk, owner': map<nat, Slot>, cs: seq<string>, f: Loc)
    requires Inv(d, owner) && TreeOk(d, owner) && Named(cs) && Inv(d', owner') && Renamed(d, d', f)
    requires Resolve(d, None, Root, cs).Found? && Resolve(d, None, Root, cs).file == f && !IsDir(d, f)
    requires d'.files[f].name == "" && d'.files[f].size == 0
    ensures TreeOk(d', owner') && PathsKept(d, d', cs)
    ensures Resolve(d', None, Root, cs).Missing? && Resolve(d', None, Root, cs).in_ != None
  {
    LastStep(d, owner, cs);
    var front, last := cs[..|cs| - 1], cs[|cs| - 1];
    var dir := Resolve(d, None, Root, front).file;
    assert cs == front + [last] && last in cs;
    assert forall x | x in front :: x in cs;
    LookupFirst(d, dir, last, 0);
    TreeStays(d, owner, d', owner', f);
    LookupShort(d, front, last);
    EditFront(d, d', owner, f, dir, front, last);
    NowGone(d, d', owner, f, dir, last);
    EditKeepsPaths(d, d', owner, f, dir, front, last);
  }

  lemma LookupShort(d: Disk, front: seq<string>, last: string)
    requires TailsOk(d) && Root in d.files && Resolve(d, None, Root, front + [last]).Found?
    ensures |last| < MAXNAMELEN
  {
    ResolveSnoc(d, None, Root, front, last);
  }

  // --------------------------------------------------------------- operations

  method SkipSlash(path: string, p: nat) returns (q: nat)
    requires p <= |path|
    ensures p <= q <= |path| && (q < |path| ==> path[q] != '/')
    ensures Components(path[q..]) == Components(path[p..])
  {
    q := p;
    while q < |path| && path[q] == '/'
      invariant p <= q <= |path| && Components(path[q..]) == Components(path[p..])
    {
      SlashSkipped(path[q..]);
      assert path[q..][1..] == path[q + 1..];
      q := q + 1;
    }
  }

  /** walk_path's scan of one path element. */
  method TakeName(path: string, p: nat) returns (q: nat)
    requires p < |path| && path[p] != '/'
    ensures p < q <= |path| && Components(path[p..]) == [path[p..q]] + Components(path[q..])
    ensures path[p..q] != ""
  {
    q := p;
    while q < |path| && path[q] != '/'
      invariant p <= q <= |path| && '/' !in path[p..q] && (q == p ==> path[q] != '/')
    {
      q := q + 1;
    }
    FirstComponent(path[p..q], path[q..]);
    assert path[p..] == path[p..q] + path[q..];
  }

  /** One step of a lookup, in block i of the directory. */
  lemma LookupOne(d: Disk, owner: map<nat, Slot>, dir: Loc, name: string, i: nat, j: nat)
    requires Inv(d, owner) && TreeOk(d, owner) && IsDir(d, dir) && i < d.files[dir].size / 4096 && i < NSLOTS && j < 16
    ensures var k, at := i * 16 + j, At(BlockNo(d, dir, i), j);
            && k < NRecords(d, dir) && at in d.files
            && Lookup(d, dir, name, k) == if d.files[at].name == name then Some(at) else Lookup(d, dir, name, k + 1)
  {
    assert DirOk(d, owner, dir);
    assert RecordOk(d, owner, dir, i * 16 + j);
    assert RecordAt(d, dir, i * 16 + j) == At(BlockNo(d, dir, i), j);
  }

  /** The inner loop of dir_lookup and of dir_alloc_file: the records of block i of the directory, in disk block b. */
  method ScanBlock(fs: FileServer, dir: Loc, name: string, i: nat) returns (r: Option<Loc>)
    requires Inv(fs.State(), fs.owner) && TreeOk(fs.State(), fs.owner) && IsDir(fs.State(), dir)
    requires i < fs.files[dir].size / 4096
    modifies fs, fs.bitmap, fs.blocks
    ensures fs.State() == old(fs.State()) && fs.owner == old(fs.owner)
    ensures Lookup(fs.State(), dir, name, i * 16) == if r.Some? then r else Lookup(fs.State(), dir, name, (i + 1) * 16)
  {
    ghost var d := fs.State();
    assert TailOk(d, dir) && DirOk(d, fs.owner, dir);
    assert RecordOk(d, fs.owner, dir, i * 16);
    assert OwnedBlock(d, fs.owner[BlockNo(d, dir, i)], BlockNo(d, dir, i));
    var ok, b := fs.FileGetBlock(dir, i);
    r := ScanRecords(fs, dir, name, i, b);
  }

  method ScanRecords(fs: FileServer, dir: Loc, name: string, i: nat, b: nat) returns (r: Option<Loc>)
    requires Inv(fs.State(), fs.owner) && TreeOk(fs.State(), fs.owner) && IsDir(fs.State(), dir)
    requires i < fs.files[dir].size / 4096 && i < NSLOTS && b == BlockNo(fs.State(), dir, i)
    ensures Lookup(fs.State(), dir, name, i * 16) == if r.Some? then r else Lookup(fs.State(), dir, name, (i + 1) * 16)
  {
    ghost var d := fs.State();
    assert DirOk(d, fs.owner, dir);
    for j := 0 to 16
      invariant Lookup(d, dir, name, i * 16) == Lookup(d, dir, name, i * 16 + j)
    {
      LookupOne(d, fs.owner, dir, name, i, j);
      if fs.files[At(b, j)].name == name {
        return Some(At(b, j));
      }
    }
    return None;
  }

  /**
   * dir_lookup; with the empty name, the search for an unused record in
   * dir_alloc_file.  The blocks of a directory are all there, so nothing is allocated.
   */
  method DirLookup(fs: FileServer, dir: Loc, name: string) returns (r: Option<Loc>)
    requires Inv(fs.State(), fs.owner) && TreeOk(fs.State(), fs.owner) && IsDir(fs.State(), dir)
    modifies fs, fs.bitmap, fs.blocks
    ensures fs.State() == old(fs.State()) && fs.owner == old(fs.owner)
    ensures r == Lookup(fs.State(), dir, name, 0)
  {
    ghost var d := fs.State();
    var nblock := fs.files[dir].size / 4096;
    for i := 0 to nblock
      invariant fs.State() == d && fs.owner == old(fs.owner)
      invariant Lookup(d, dir, name, 0) == Lookup(d, dir, name, i * 16)
    {
      r := ScanBlock(fs, dir, name, i);
      if r.Some? {
        return r;
      }
    }
    return None;
  }

  /** walk_path: component-wise resolution from the root. */
  method WalkPath(fs: FileServer, path: string) returns (r: Walked)
    requires Inv(fs.State(), fs.owner) && TreeOk(fs.State(), fs.owner)
    modifies fs, fs.bitmap, fs.blocks
    ensures fs.State() == old(fs.State()) && fs.owner == old(fs.owner)
    ensures r == ResolvePath(fs.State(), path)
  {
    ghost var d := fs.State();
    var p := SkipSlash(path, 0);
    assert path[0..] == path;
    var dir: Option<Loc>, f := None, Root;
    while p < |path|
      invariant fs.State() == d && fs.owner == old(fs.owner)
      invariant p <= |path| && (p < |path| ==> path[p] != '/') && f in d.files
      invariant ResolvePath(d, path) == Resolve(d, dir, f, Components(path[p..]))
      decreases |path| - p
    {
      var q := TakeName(path, p);
      var name := path[p..q];
      assert Components(path[p..])[1..] == Components(path[q..]);
      if |name| >= MAXNAMELEN {
        return BadPath;
      }
      var next := SkipSlash(path, q);
      if fs.files[f].ftype != Directory {
        return Missing(None, "");
      }
      LastOrNot(path, next);
      var l := DirLookup(fs, f, name);
      if l == None {
        return if next == |path| then Missing(Some(f), name) else Missing(None, "");
      }
      dir, f, p := Some(f), l.value, next;
    }
    return Found(dir, f);
  }

  lemma LastOrNot(path: string, p: nat)
    requires p <= |path| && (p < |path| ==> path[p] != '/')
    ensures Components(path[p..]) == [] <==> p == |path|
  {
    if p < |path| {
      assert path[p..] != "" && path[p..][0] != '/';
      assert Split(path[p..])[0] != "";
    }
  }

  /** What the file operations return: the record, or one of the source's errors. */
  datatype Outcome = Done(file: Loc) | Exists | NoSuchFile | BadName

  /** What file_open makes of a walk. */
  function Opened(w: Walked): Outcome {
    match w
    case Found(_, f) => Done(f)
    case Missing(_, _) => NoSuchFile
    case BadPath => BadName
  }

  /** file_open. */
  method FileOpen(fs: FileServer, path: string) returns (r: Outcome)
    requires Inv(fs.State(), fs.owner) && TreeOk(fs.State(), fs.owner)
    modifies fs, fs.bitmap, fs.blocks
    ensures fs.State() == old(fs.State()) && fs.owner == old(fs.owner)
    ensures r == Opened(ResolvePath(fs.State(), path))
    ensures match ResolvePath(fs.State(), path)
            case Found(_, f) => r == Done(f)
            case Missing(_, _) => r == NoSuchFile
            case BadPath => r == BadName
  {
    var w := WalkPath(fs, path);
    r := Opened(w);
  }

  /** Where file_create would put the new record there is an unused one. */
  predicate HasRoom(d: Disk, path: string)
    requires TailsOk(d) && Root in d.files
  {
    var w := ResolvePath(d, path);
    w.Missing? && w.in_.Some? && w.in_.value in d.files ==> Lookup(d, w.in_.value, "", 0) != None
  }

  /**
   * file_create: succeeds iff the directory is there and the file is not.  Then the path
   * leads to the new record, which is empty, and all other paths lead where they did.
   */
  method FileCreate(fs: FileServer, path: string) returns (r: Outcome)
    requires Inv(fs.State(), fs.owner) && TreeOk(fs.State(), fs.owner) && HasRoom(fs.State(), path)
    modifies fs
    modifies fs.bitmap, fs.blocks
    ensures Inv(fs.State(), fs.owner) && TreeOk(fs.State(), fs.owner)
    ensures var w := old(ResolvePath(fs.State(), path));
            && (r.Done? <==> w.Missing? && w.in_.Some?)
            && (r == Exists <==> w.Found?)
            && (r == BadName <==> w.BadPath?)
    ensures !r.Done? ==> fs.State() == old(fs.State())
    ensures fs.bitmap[..] == old(fs.bitmap[..])
    ensures r.Done? ==> Opened(ResolvePath(fs.State(), path)) == r && fs.files[r.file].size == 0
    ensures r.Done? ==>
              var dir := old(ResolvePath(fs.State(), path)).in_.value;
              && dir in old(fs.files) && Lookup(old(fs.State()), dir, "", 0) == Some(r.file)
              && fs.files[r.file].ftype == old(fs.files)[r.file].ftype
    ensures r.Done? ==> PathsKept(old(fs.State()), fs.State(), Components(path))
    ensures r.Done? ==> OthersKept(old(fs.State()), fs.State(), r.file) && r.file != Root
    ensures r.Done? ==> r.file in old(fs.files) && old(fs.files)[r.file].name == ""
    ensures r.Done? ==> forall l | l in old(fs.files) && l != r.file :: Meta(fs.files[l]) == Meta(old(fs.files)[l])
  {
    ghost var d := fs.State();
    var w := WalkPath(fs, path);
    if w.Found? {
      return Exists;
    }
    if !w.Missing? || w.in_ == None {
      return Opened(w);
    }
    var dir := w.in_.value;
    RoomForNew(d, fs.owner, Components(path), dir, w.last);
    var found := DirLookup(fs, dir, "");
    var f := found.value;
    Created(d, fs.owner, Components(path), dir, w.last, f);
    MetaKeepsSlots(d, fs.owner, f, w.last, d.files[f].size);
    fs.files := fs.files[f := fs.files[f].(name := w.last)];
    assert fs.State() == SetMeta(d, f, w.last, d.files[f].size);
    return Done(f);
  }

  /**
   * file_remove of a regular file: afterwards the path leads nowhere, all other paths
   * lead where they did, and no other file's contents have changed.
   */
  method FileRemove(fs: FileServer, path: string) returns (r: Outcome)
    requires Inv(fs.State(), fs.owner) && TreeOk(fs.State(), fs.owner)
    requires ResolvePath(fs.State(), path).Found? ==> !IsDir(fs.State(), ResolvePath(fs.State(), path).file)
    modifies fs, fs.bitmap, fs.blocks
    ensures Inv(fs.State(), fs.owner) && TreeOk(fs.State(), fs.owner)
    ensures r == old(Opened(ResolvePath(fs.State(), path)))
    ensures !r.Done? ==> fs.State() == old(fs.State())
    ensures r.Done? ==> Opened(ResolvePath(fs.State(), path)) == NoSuchFile && !ResolvePath(fs.State(), path).Found?
    ensures r.Done? ==> r.file in fs.files && fs.files[r.file].name == "" && fs.files[r.file].size == 0
    ensures r.Done? ==> PathsKept(old(fs.State()), fs.State(), Components(path))
    ensures r.Done? ==> OthersKept(old(fs.State()), fs.State(), r.file)
    ensures r.Done? ==> forall l | l in old(fs.files) && l != r.file :: Meta(fs.files[l]) == Meta(old(fs.files)[l])
  {
    ghost var d, owner := fs.State(), fs.owner;
    var w := WalkPath(fs, path);
    if w.Found? {
      fs.RemoveFile(w.file);
      Removed(d, owner, fs.State(), fs.owner, Components(path), w.file);
    }
    return Opened(w);
  }

  // --------------------------------------------------------------------- runs

  /** A request to the file server: the operation of Use is on the file that the path leads to. */
  datatype Request = Create(path: string) | Delete(path: string) | Use(path: string, op: Op)

  /** The request is one the theorems cover: room for a new name, no removal or writing of directories. */
  predicate CanServe(d: Disk, q: Request)
    requires TailsOk(d) && Root in d.files
  {
    var w := ResolvePath(d, q.path);
    match q
    case Create(path) => HasRoom(d, path)
    case Delete(path) => w.Found? ==> !IsDir(d, w.file)
    case Use(path, op) => w.Found? ==> !IsDir(d, w.file) && !op.Remove? && CanDo(d.files, op.(loc := w.file))
  }

  /** The request does not add or remove anything on the way to cs. */
  ghost predicate OffPath(q: Request, cs: seq<string>) {
    q.Use? || !(Components(q.path) <= cs)
  }

  ghost predicate PathsOffKept(d: Disk, d': Disk, qs: seq<Request>)
    requires TailsOk(d) && TailsOk(d') && Root in d.files && Root in d'.files
  {
    forall cs {:trigger Resolve(d', None, Root, cs)} | Named(cs) && (forall q | q in qs :: OffPath(q, cs)) ::
      Resolve(d', None, Root, cs) == Resolve(d, None, Root, cs)
  }

  /** The file system as its users see it: what there is at each path.  Of a directory, that is its type and size. */
  function Seen(d: Disk, cs: seq<string>): Option<Contents>
    requires TailsOk(d) && Root in d.files
  {
    match Resolve(d, None, Root, cs)
    case Found(_, f) => Some(ContentsOf(d, f))
    case _ => None
  }

  /** Nothing is seen to change, except possibly at c. */
  ghost predicate SeenBut(d: Disk, d': Disk, c: seq<string>)
    requires TailsOk(d) && TailsOk(d') && Root in d.files && Root in d'.files
  {
    forall cs {:trigger Seen(d', cs)} | Named(cs) && cs != c :: Seen(d', cs) == Seen(d, cs)
  }

  /** A file with no blocks. */
  ghost predicate IsEmpty(c: Contents) {
    c.size == 0 && forall m {:trigger c.cells[m]} | 0 <= m < NSLOTS :: c.cells[m] == None
  }

  /**
   * What a request does to the file system as its users see it: one path gains an empty
   * file, loses its file, or has the operation done to its file; buf is what a read returns.
   */
  ghost predicate Served(d: Disk, q: Request, buf: seq<Byte>, d': Disk)
    requires TailsOk(d) && TailsOk(d') && Root in d.files && Root in d'.files
  {
    var c := Components(q.path);
    var w := Resolve(d, None, Root, c);
    && SeenBut(d, d', c)
    && match q
       case Create(_) =>
         if w.Missing? && w.in_.Some? then Seen(d', c).Some? && IsEmpty(Seen(d', c).value)
         else Seen(d', c) == Seen(d, c)
       case Delete(_) => Seen(d', c) == None
       case Use(_, op) =>
         if w.Found? then Seen(d', c).Some? && OpDone(Seen(d, c).value, op, buf, Seen(d', c).value)
         else Seen(d', c) == None
  }

  /** The request takes more free blocks than there are. */
  predicate NoSpace(d: Disk, q: Request)
    requires TailsOk(d) && Root in d.files
  {
    var w := ResolvePath(d, q.path);
    q.Use? && w.Found? && Cost(d, q.op.(loc := w.file)) > Available(d.free)
  }

  /** Two disks on which paths lead to the same places, and only file f differs. */
  lemma SeenElsewhere(d: Disk, d': Disk, owner: map<nat, Slot>, f: Loc, c: seq<string>, cs: seq<string>)
    requires Inv(d, owner) && TreeOk(d, owner) && TailsOk(d') && Root in d'.files && cs != c
    requires Resolve(d', None, Root, cs) == Resolve(d, None, Root, cs)
    requires OthersKept(d, d', f) && forall l | l in d.files && l != f :: Meta(d'.files[l]) == Meta(d.files[l])
    requires Resolve(d, None, Root, cs).Found? && Resolve(d, None, Root, cs).file == f ==>
               Resolve(d, None, Root, c).Found? && Resolve(d, None, Root, c).file == f
    ensures Seen(d', cs) == Seen(d, cs)
  {
    var r := Resolve(d, None, Root, cs);
    if r.Found? {
      if r.file == f {
        PathsUnique(d, owner, cs, c);
      }
      assert Meta(d'.files[r.file]) == Meta(d.files[r.file]);
      forall m: nat | m < NSLOTS ensures Cell(d', r.file, m) == Cell(d, r.file, m) {
      }
      assert ContentsOf(d', r.file).cells == ContentsOf(d, r.file).cells;
    }
  }

  /** An edit of record f, which only c leads to, is seen at c only. */
  lemma SeenButFromPaths(d: Disk, d': Disk, owner: map<nat, Slot>, f: Loc, c: seq<string>)
    requires Inv(d, owner) && TreeOk(d, owner) && TailsOk(d') && Root in d'.files && PathsKept(d, d', c)
    requires OthersKept(d, d', f) && forall l | l in d.files && l != f :: Meta(d'.files[l]) == Meta(d.files[l])
    requires f in d.files && f != Root
    requires d.files[f].name == "" || (Resolve(d, None, Root, c).Found? && Resolve(d, None, Root, c).file == f)
    ensures SeenBut(d, d', c)
  {
    forall cs | Named(cs) && cs != c ensures Seen(d', cs) == Seen(d, cs) {
      if c <= cs {
        assert c < cs;
      } else {
        if Resolve(d, None, Root, cs).Found? && Resolve(d, None, Root, cs).file == f {
          FoundHasName(d, owner, cs);
        }
        SeenElsewhere(d, d', owner, f, c, cs);
      }
    }
  }

  /** A regular file used in place. */
  lemma SeenButUsed(d: Disk, d': Disk, owner: map<nat, Slot>, f: Loc, c: seq<string>)
    requires Inv(d, owner) && TreeOk(d, owner) && TailsOk(d') && Renamed(d, d', f) && OthersKept(d, d', f)
    requires d'.files[f].name == d.files[f].name && !IsDir(d, f)
    requires Resolve(d, None, Root, c).Found? && Resolve(d, None, Root, c).file == f
    ensures SeenBut(d, d', c) && Seen(d', c) == Some(ContentsOf(d', f))
    ensures forall cs :: Resolve(d', None, Root, cs) == Resolve(d, None, Root, cs)
  {
    forall cs ensures Resolve(d', None, Root, cs) == Resolve(d, None, Root, cs) {
      RegularKeepsPaths(d, d', owner, f, None, Root, cs);
    }
    forall cs | Named(cs) && cs != c ensures Seen(d', cs) == Seen(d, cs) {
      SeenElsewhere(d, d', owner, f, c, cs);
    }
  }

  /**
   * Any one request: it does what it should to the file system as its users see it,
   * unless it takes more blocks than are free, and keeps the tree well formed and all
   * paths it is not about.
   */
  method Serve(fs: FileServer, q: Request) returns (ok: bool, buf: seq<Byte>)
    requires Inv(fs.State(), fs.owner) && TreeOk(fs.State(), fs.owner) && CanServe(fs.State(), q)
    modifies fs, fs.bitmap, fs.blocks
    ensures Inv(fs.State(), fs.owner) && TreeOk(fs.State(), fs.owner)
    ensures PathsOffKept(old(fs.State()), fs.State(), [q])
    ensures ok <==> !old(NoSpace(fs.State(), q))
    ensures ok ==> Served(old(fs.State()), q, buf, fs.State())
    ensures !ok ==> SeenBut(old(fs.State()), fs.State(), Components(q.path)) && Exhausted(fs.bitmap[..])
  {
    ghost var d, owner := fs.State(), fs.owner;
    ok, buf := true, [];
    match q
    case Create(path) =>
      var r := FileCreate(fs, path);
      CreateServed(d, owner, fs.State(), path, r);
      assert q in [q];
    case Delete(path) =>
      var r := FileRemove(fs, path);
      DeleteServed(d, owner, fs.State(), path, r);
      assert q in [q];
    case Use(path, op) =>
      ok, buf := ServeUse(fs, path, op);
  }

  method ServeUse(fs: FileServer, path: string, op: Op) returns (ok: bool, buf: seq<Byte>)
    requires Inv(fs.State(), fs.owner) && TreeOk(fs.State(), fs.owner) && CanServe(fs.State(), Use(path, op))
    modifies fs, fs.bitmap, fs.blocks
    ensures Inv(fs.State(), fs.owner) && TreeOk(fs.State(), fs.owner)
    ensures PathsOffKept(old(fs.State()), fs.State(), [Use(path, op)])
    ensures ok <==> !old(NoSpace(fs.State(), Use(path, op)))
    ensures ok ==> Served(old(fs.State()), Use(path, op), buf, fs.State())
    ensures !ok ==> SeenBut(old(fs.State()), fs.State(), Components(path)) && Exhausted(fs.bitmap[..])
    ensures old(ResolvePath(fs.State(), path)).Found? ==>
              OthersKept(old(fs.State()), fs.State(), old(ResolvePath(fs.State(), path)).file)
  {
    ghost var d, owner := fs.State(), fs.owner;
    ok, buf := true, [];
    var r := FileOpen(fs, path);
    if r.Done? {
      ok, buf := fs.Step(op.(loc := r.file));
      UseServed(d, owner, fs.State(), fs.owner, path, op, ok, buf, r.file);
    }
  }

  /** What Use does once its file is found. */
  lemma UseServed(d: Disk, owner: map<nat, Slot>, d': Disk, owner': map<nat, Slot>, path: string, op: Op, ok: bool, buf: seq<Byte>, f: Loc)
    requires Inv(d, owner) && TreeOk(d, owner) && Inv(d', owner') && CanServe(d, Use(path, op))
    requires ResolvePath(d, path).Found? && ResolvePath(d, path).file == f
    requires OthersKept(d, d', f) && forall l | l in d.files && l != f :: Meta(d'.files[l]) == Meta(d.files[l])
    requires d'.files[f].ftype == d.files[f].ftype && d'.files[f].name == d.files[f].name
    requires ok ==> OpDone(ContentsOf(d, f), op.(loc := f), buf, ContentsOf(d', f))
    ensures TreeOk(d', owner') && PathsOffKept(d, d', [Use(path, op)]) && SeenBut(d, d', Components(path))
    ensures ok ==> Served(d, Use(path, op), buf, d')
  {
    FoundHasName(d, owner, Components(path));
    RegularTree(d, owner, d', owner', f);
    SeenButUsed(d, d', owner, f, Components(path));
  }

  lemma CreateServed(d: Disk, owner: map<nat, Slot>, d': Disk, path: string, r: Outcome)
    requires Inv(d, owner) && TreeOk(d, owner) && TailsOk(d') && Root in d'.files
    requires var w := ResolvePath(d, path); r.Done? <==> w.Missing? && w.in_.Some?
    requires !r.Done? ==> d' == d
    requires r.Done? ==> Opened(ResolvePath(d', path)) == r && d'.files[r.file].size == 0
    requires r.Done? ==> PathsKept(d, d', Components(path)) && OthersKept(d, d', r.file)
    requires r.Done? ==> r.file in d.files && r.file != Root && d.files[r.file].name == ""
    requires r.Done? ==> forall l | l in d.files && l != r.file :: Meta(d'.files[l]) == Meta(d.files[l])
    ensures Served(d, Create(path), [], d')
  {
    if r.Done? {
      SeenButFromPaths(d, d', owner, r.file, Components(path));
      assert TailOk(d', r.file);
    }
  }

  lemma DeleteServed(d: Disk, owner: map<nat, Slot>, d': Disk, path: string, r: Outcome)
    requires Inv(d, owner) && TreeOk(d, owner) && TailsOk(d') && Root in d'.files
    requires r == Opened(ResolvePath(d, path)) && (r.Done? ==> !IsDir(d, r.file))
    requires !r.Done? ==> d' == d
    requires r.Done? ==> Opened(ResolvePath(d', path)) == NoSuchFile
    requires r.Done? ==> PathsKept(d, d', Components(path)) && OthersKept(d, d', r.file)
    requires r.Done? ==> forall l | l in d.files && l != r.file :: Meta(d'.files[l]) == Meta(d.files[l])
    ensures Served(d, Delete(path), [], d')
  {
    if r.Done? {
      SeenButFromPaths(d, d', owner, r.file, Components(path));
    }
  }

  lemma FoundHasName(d: Disk, owner: map<nat, Slot>, cs: seq<string>)
    requires TailsOk(d) && TreeOk(d, owner) && Named(cs) && Resolve(d, None, Root, cs).Found?
    requires Resolve(d, None, Root, cs).file != Root
    ensures d.files[Resolve(d, None, Root, cs).file].name != ""
  {
    LastStep(d, owner, cs);
    assert cs[|cs| - 1] in cs;
  }

  lemma RegularTree(d: Disk, owner: map<nat, Slot>, d': Disk, owner': map<nat, Slot>, f: Loc)
    requires Inv(d, owner) && Inv(d', owner') && TreeOk(d, owner) && Renamed(d, d', f)
    requires !IsDir(d, f) && d'.files[f].name == d.files[f].name != ""
    ensures TreeOk(d', owner')
  {
    TreeStays(d, owner, d', owner', f);
  }

  lemma PathsOffMore(d: Disk, d1: Disk, d2: Disk, qs: seq<Request>, q: Request)
    requires TailsOk(d) && TailsOk(d1) && TailsOk(d2) && Root in d.files && Root in d1.files && Root in d2.files
    requires PathsOffKept(d, d1, qs) && PathsOffKept(d1, d2, [q])
    ensures PathsOffKept(d, d2, qs + [q])
  {
    forall cs | Named(cs) && (forall r | r in qs + [q] :: OffPath(r, cs))
      ensures Resolve(d2, None, Root, cs) == Resolve(d, None, Root, cs)
    {
      assert q in qs + [q];
      assert forall r | r in qs :: r in qs + [q];
      assert Resolve(d1, None, Root, cs) == Resolve(d, None, Root, cs);
    }
  }

  lemma PathsOffWeaken(d: Disk, d': Disk, qs: seq<Request>, n: nat)
    requires TailsOk(d) && TailsOk(d') && Root in d.files && Root in d'.files
    requires n <= |qs| && PathsOffKept(d, d', qs[..n])
    ensures PathsOffKept(d, d', qs)
  {
    assert forall q | q in qs[..n] :: q in qs;
  }

  /** ds is a run: each request that the theorems cover is served, and the others are passed over. */
  ghost predicate IsRun(ds: seq<Disk>, qs: seq<Request>, replies: seq<seq<Byte>>) {
    && |ds| == |qs| + 1 && |replies| == |qs|
    && (forall i {:trigger ds[i]} | 0 <= i < |ds| :: TailsOk(ds[i]) && Root in ds[i].files)
    && (forall i {:trigger qs[i]} | 0 <= i < |qs| ::
          if CanServe(ds[i], qs[i]) then Served(ds[i], qs[i], replies[i], ds[i + 1]) else ds[i + 1] == ds[i])
  }

  /** What is at a path stays over a stretch of a run with no request for it. */
  lemma {:induction false} SeenOverRun(ds: seq<Disk>, qs: seq<Request>, replies: seq<seq<Byte>>, c: seq<string>, i: nat, j: nat)
    requires IsRun(ds, qs, replies) && i <= j <= |qs| && Named(c)
    requires forall k | i <= k < j :: Components(qs[k].path) != c
    ensures Seen(ds[j], c) == Seen(ds[i], c)
    decreases j - i
  {
    if i < j {
      SeenOverRun(ds, qs, replies, c, i, j - 1);
      assert qs[j - 1] in qs && Root in ds[j].files;
    }
  }

  /** In a run, a read returns what was last written at its path. */
  lemma ReadsLastWrite(ds: seq<Disk>, qs: seq<Request>, replies: seq<seq<Byte>>, i: nat, j: nat)
    requires IsRun(ds, qs, replies) && i < j < |qs| && CanServe(ds[i], qs[i]) && CanServe(ds[j], qs[j])
    requires qs[i].Use? && qs[i].op.Write? && qs[j].Use? && qs[j].op.Read?
    requires qs[j].op.count == |qs[i].op.data| && qs[j].op.offset == qs[i].op.offset
    requires Components(qs[j].path) == Components(qs[i].path) && Seen(ds[i], Components(qs[i].path)).Some?
    requires forall k | i < k < j :: Components(qs[k].path) != Components(qs[i].path)
    ensures replies[j] == qs[i].op.data
  {
    var c, data, offset, buf := Components(qs[i].path), qs[i].op.data, qs[i].op.offset, replies[j];
    SeenOverRun(ds, qs, replies, c, i + 1, j);
    assert Served(ds[i], qs[i], replies[i], ds[i + 1]) && Served(ds[j], qs[j], buf, ds[j + 1]);
    var f, f' := Seen(ds[j], c).value, Seen(ds[j + 1], c).value;
    assert OpDone(f, qs[j].op, buf, f') && HasBytes(f, offset, data);
    assert |buf| == |data|;
    forall k | 0 <= k < |data| ensures buf[k] == data[k] {
      var p := offset + k;
      assert ByteIn(f, p) == Some(data[p - offset]);
      assert f'.cells[p / 4096] == f.cells[p / 4096];
      assert ByteIn(f', p) == Some(buf[p - offset]);
    }
  }

  lemma RunMore(ds: seq<Disk>, qs: seq<Request>, replies: seq<seq<Byte>>, d: Disk, q: Request, buf: seq<Byte>)
    requires IsRun(ds, qs, replies) && TailsOk(d) && Root in d.files
    requires var last := ds[|qs|];
             if CanServe(last, q) then Served(last, q, buf, d) else d == last
    ensures IsRun(ds + [d], qs + [q], replies + [buf])
  {
  }

  /**
   * Any run of requests: each does what it should to the file system as its users see it;
   * block ownership, the directory tree and the uniqueness of names are kept, and a path
   * leads where it did unless the run creates or removes something on it.  Requests outside
   * the theorems are passed over; the run stops only at one that takes more blocks than are
   * free, and that is not seen to change anything else.
   */
  method ServeAll(fs: FileServer, qs: seq<Request>)
    returns (done: nat, replies: seq<seq<Byte>>, ghost ds: seq<Disk>)
    requires Inv(fs.State(), fs.owner) && TreeOk(fs.State(), fs.owner)
    modifies fs, fs.bitmap, fs.blocks
    ensures Inv(fs.State(), fs.owner) && TreeOk(fs.State(), fs.owner)
    ensures done <= |qs| && IsRun(ds, qs[..done], replies) && ds[0] == old(fs.State())
    ensures done == |qs| ==> ds[done] == fs.State()
    ensures done < |qs| ==> CanServe(ds[done], qs[done]) && NoSpace(ds[done], qs[done])
                            && SeenBut(ds[done], fs.State(), Components(qs[done].path))
    ensures PathsOffKept(old(fs.State()), fs.State(), qs)
  {
    done, replies := 0, [];
    ghost var d := fs.State();
    ds := [d];
    assert qs[..|qs|] == qs;
    while done < |qs|
      invariant done <= |qs| && IsRun(ds, qs[..done], replies) && ds[0] == d && ds[done] == fs.State()
      invariant Inv(fs.State(), fs.owner) && TreeOk(fs.State(), fs.owner)
      invariant PathsOffKept(d, fs.State(), qs[..done])
    {
      ghost var d1 := fs.State();
      var ok, buf := ServeOrPass(fs, qs[done]);
      assert qs[..done + 1] == qs[..done] + [qs[done]];
      PathsOffMore(d, d1, fs.State(), qs[..done], qs[done]);
      if !ok {
        PathsOffWeaken(d, fs.State(), qs, done + 1);
        return;
      }
      RunMore(ds, qs[..done], replies, fs.State(), qs[done], buf);
      ds, replies, done := ds + [fs.State()], replies + [buf], done + 1;
    }
  }

  /** One turn of a run. */
  method ServeOrPass(fs: FileServer, q: Request) returns (ok: bool, buf: seq<Byte>)
    requires Inv(fs.State(), fs.owner) && TreeOk(fs.State(), fs.owner)
    modifies fs, fs.bitmap, fs.blocks
    ensures Inv(fs.State(), fs.owner) && TreeOk(fs.State(), fs.owner)
    ensures PathsOffKept(old(fs.State()), fs.State(), [q])
    ensures ok <==> !(old(CanServe(fs.State(), q)) && old(NoSpace(fs.State(), q)))
    ensures ok ==> if old(CanServe(fs.State(), q)) then Served(old(fs.State()), q, buf, fs.State())
                   else fs.State() == old(fs.State())
    ensures !ok ==> SeenBut(old(fs.State()), fs.State(), Components(q.path))
  {
    if CanServe(fs.State(), q) {
      ok, buf := Serve(fs, q);
    } else {
      return true, [];
    }
  }

  // ------------------------------------------------------ the life of a file

  /** A write to a file with nothing in it takes a block for each 4096 bytes, and an indirect block beyond ten. */
  lemma EmptyNeeds(d: Disk, loc: Loc, n: nat)
    requires TailsOk(d) && loc in d.files && d.files[loc].size == 0 && n <= MAXFILESIZE
    ensures RangeMissing(d, loc, 0, n) == NBlocks(n) + if n > 40960 then 1 else 0
  {
    assert TailOk(d, loc);
    AllMissing(d, loc, 0, NBlocks(n));
  }

  /** Only slots of f differ, and f has none that names a block: the same blocks are free. */
  lemma SameFree(d: Disk, owner: map<nat, Slot>, d': Disk, owner': map<nat, Slot>, f: Loc)
    requires Inv(d, owner) && Inv(d', owner') && |d'.blocks| == |d.blocks| && OthersKept(d, d', f) && f in d.files
    requires d.files[f].size == 0 && d'.files[f].size == 0
    ensures d'.free == d.free
  {
    assert TailOk(d, f) && TailOk(d', f);
    forall b: nat | b < |d.free| ensures b in owner <==> b in owner' {
      if b in owner {
        assert OwnedBlock(d, owner[b], b);
        assert SlotVal(d', owner[b]) == b;
      }
      if b in owner' {
        assert OwnedBlock(d', owner'[b], b);
        assert SlotVal(d, owner'[b]) == b;
      }
    }
  }

  /**
   * The life of a file: created at a free path of a directory there is, written, read back
   * by path, and removed.  It takes a block for each 4096 bytes, and one more beyond ten of
   * them; the read gives what was written; and in the end exactly the blocks are free that
   * were free before.
   */
  method FileLife(fs: FileServer, path: string, data: seq<Byte>) returns (ok: bool, buf: seq<Byte>)
    requires Inv(fs.State(), fs.owner) && TreeOk(fs.State(), fs.owner) && |data| <= MAXFILESIZE
    requires var w, d := ResolvePath(fs.State(), path), fs.State();
             && w.Missing? && w.in_.Some? && w.in_.value in d.files
             && Lookup(d, w.in_.value, "", 0).Some? && d.files[Lookup(d, w.in_.value, "", 0).value].ftype == Regular
    modifies fs, fs.bitmap, fs.blocks
    ensures Inv(fs.State(), fs.owner) && TreeOk(fs.State(), fs.owner)
    ensures ok <==> NBlocks(|data|) + (if |data| > 40960 then 1 else 0) <= old(Available(fs.bitmap[..]))
    ensures ok ==> buf == data && fs.bitmap[..] == old(fs.bitmap[..]) && !ResolvePath(fs.State(), path).Found?
  {
    var r := FileCreate(fs, path);
    ghost var d1, owner1 := fs.State(), fs.owner;
    ok, buf := WriteAndRead(fs, path, data, r.file);
    if ok {
      ghost var d2 := fs.State();
      var gone := FileRemove(fs, path);
      OthersKeptTrans(d1, d2, fs.State(), r.file);
      SameFree(d1, owner1, fs.State(), fs.owner, r.file);
    }
  }

  method WriteAndRead(fs: FileServer, path: string, data: seq<Byte>, ghost f: Loc) returns (ok: bool, buf: seq<Byte>)
    requires Inv(fs.State(), fs.owner) && TreeOk(fs.State(), fs.owner) && |data| <= MAXFILESIZE
    requires var w := ResolvePath(fs.State(), path);
             w.Found? && w.file == f && fs.files[f].ftype == Regular && fs.files[f].size == 0
    modifies fs, fs.bitmap, fs.blocks
    ensures Inv(fs.State(), fs.owner) && TreeOk(fs.State(), fs.owner)
    ensures ok <==> NBlocks(|data|) + (if |data| > 40960 then 1 else 0) <= old(Available(fs.bitmap[..]))
    ensures OthersKept(old(fs.State()), fs.State(), f)
    ensures ok ==> buf == data && var w := ResolvePath(fs.State(), path); w.Found? && w.file == f && fs.files[f].ftype == Regular
  {
    ghost var d1, w := fs.State(), Use(path, Write(Root, data, 0));
    EmptyNeeds(d1, f, |data|);
    assert CanServe(d1, w);
    assert NoSpace(d1, w) <==> RangeMissing(d1, f, 0, |data|) > Available(d1.free);
    ok, buf := ServeUse(fs, path, Write(Root, data, 0));
    if ok {
      ghost var d2, reply := fs.State(), buf;
      WrittenHolds(d1, d2, fs.owner, path, data, buf);
      StaysFound(d1, d2, path, w, f);
      ok, buf := ServeUse(fs, path, Read(Root, |data|, 0));
      StaysFound(d2, fs.State(), path, Use(path, Read(Root, |data|, 0)), f);
      WrittenIsRead(d1, d2, fs.State(), path, data, reply, buf);
      OthersKeptTrans(d1, d2, fs.State(), f);
    }
  }

  /** A path leads where it did after its file is used. */
  lemma StaysFound(d: Disk, d': Disk, path: string, q: Request, f: Loc)
    requires TailsOk(d) && TailsOk(d') && Root in d.files && Root in d'.files && q.Use? && PathsOffKept(d, d', [q])
    requires ResolvePath(d, path).Found? && ResolvePath(d, path).file == f
    ensures ResolvePath(d', path) == ResolvePath(d, path)
  {
    assert OffPath(q, Components(path));
  }

  lemma WrittenIsRead(d1: Disk, d2: Disk, d3: Disk, path: string, data: seq<Byte>, reply: seq<Byte>, buf: seq<Byte>)
    requires TailsOk(d1) && TailsOk(d2) && TailsOk(d3) && Root in d1.files && Root in d2.files && Root in d3.files
    requires var w, r := Use(path, Write(Root, data, 0)), Use(path, Read(Root, |data|, 0));
             CanServe(d1, w) && Served(d1, w, reply, d2) && CanServe(d2, r) && Served(d2, r, buf, d3)
    requires ResolvePath(d1, path).Found?
    ensures buf == data
  {
    var qs, ds := [Use(path, Write(Root, data, 0)), Use(path, Read(Root, |data|, 0))], [d1, d2, d3];
    assert IsRun(ds, qs, [reply, buf]);
    ReadsLastWrite(ds, qs, [reply, buf], 0, 1);
  }

  /** After the write the file is there with its size, and a read of the data needs no block. */
  lemma WrittenHolds(d1: Disk, d2: Disk, owner: map<nat, Slot>, path: string, data: seq<Byte>, reply: seq<Byte>)
    requires TailsOk(d1) && Root in d1.files && Inv(d2, owner) && Root in d2.files && |data| <= MAXFILESIZE
    requires CanServe(d1, Use(path, Write(Root, data, 0))) && Served(d1, Use(path, Write(Root, data, 0)), reply, d2)
    requires ResolvePath(d1, path).Found? && d1.files[ResolvePath(d1, path).file].size == 0
    ensures CanServe(d2, Use(path, Read(Root, |data|, 0))) && !NoSpace(d2, Use(path, Read(Root, |data|, 0)))
  {
    var c := Components(path);
    var f := Resolve(d2, None, Root, c).file;
    var was, now := Seen(d1, c).value, Seen(d2, c).value;
    assert OpDone(was, Write(Root, data, 0), reply, now);
    assert now.size == |data| && d2.files[f].ftype == Regular;
    forall p | 0 <= p < |data| ensures ByteAt(d2, f, p) == Some(data[p]) {
      assert ByteIn(now, p) == Some(data[p]);
    }
    HeldMissesNothing(d2, owner, f, 0, data);
  }
}
