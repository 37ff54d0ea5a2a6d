/**
 * Working/lab/lib/spawn.c: init_stack, which builds the first stack page of a new
 * program from its arguments, and map_segment, which loads an ELF segment.
 */
module SpawnImage {
  import Basics

  const UTEMP := 0x40_0000
  const TOP := 0x40_1000          // UTEMP + PGSIZE
  const CHILD := 0xeebf_d000      // USTACKTOP - PGSIZE

  type Byte = b: int | 0 <= b < 256
  type Page = s: seq<Byte> | |s| == 4096 witness seq(4096, _ => 0)

  /** A C string, without its terminating zero. */
  type CString = s: seq<Byte> | forall i | 0 <= i < |s| :: s[i] != 0

  // ------------------------------------------------------------------- layout

  /** Room for the strings, each with its zero. */
  function StringSize(args: seq<CString>): nat {
    if args == [] then 0 else StringSize(args[..|args| - 1]) + |args[|args| - 1]| + 1
  }

  function RoundUp4(n: nat): nat { (n + 3) / 4 * 4 }

  /** Room for the strings, the aligned pointer array with its null, and two words. */
  function Need(args: seq<CString>): nat {
    RoundUp4(StringSize(args)) + 4 * (|args| + 1) + 8
  }

  /** Offset in the page of the pointer array. */
  function ArgvAt(args: seq<CString>): int { 4096 - Need(args) + 8 }

  /** Offset in the page of string i. */
  function StringAt(args: seq<CString>, i: nat): int
    requires i <= |args|
  {
    4096 - StringSize(args) + StringSize(args[..i])
  }

  lemma {:induction false} PrefixSize(args: seq<CString>, i: nat)
    requires i <= |args|
    ensures StringSize(args[..i]) <= StringSize(args)
    ensures i < |args| ==> StringSize(args[..i + 1]) == StringSize(args[..i]) + |args[i]| + 1
  {
    if i < |args| {
      assert args[..i + 1][..i] == args[..i];
    }
    if i < |args| - 1 {
      PrefixSize(args[..|args| - 1], i);
      assert args[..|args| - 1][..i] == args[..i];
    } else {
      assert i == |args| ==> args[..i] == args;
    }
  }

  // ------------------------------------------------------- words and strings

  /** Little-endian word at an offset of the page. */
  function Word(page: Page, o: int): nat
    requires 0 <= o <= 4092
  {
    page[o] + 256 * (page[o + 1] as int) + 65536 * (page[o + 2] as int) + 16777216 * (page[o + 3] as int)
  }

  lemma WordBytes(w: int)
    requires 0 <= w < 0x1_0000_0000
    ensures w % 256 + 256 * (w / 256 % 256) + 65536 * (w / 65536 % 256) + 16777216 * (w / 16777216) == w
    ensures 0 <= w / 16777216 < 256
  {
  }

  /** A word is stored with its lowest byte first. */
  lemma BytesOfWord(page: Page, o: int, w: nat)
    requires 0 <= o <= 4092 && Word(page, o) == w
    ensures page[o] as int == w % 256 && page[o + 1] as int == w / 256 % 256
    ensures page[o + 2] as int == w / 65536 % 256 && page[o + 3] as int == w / 16777216
  {
    var b0, b1, b2, b3 := page[o] as int, page[o + 1] as int, page[o + 2] as int, page[o + 3] as int;
    assert w == b0 + 256 * (b1 + 256 * (b2 + 256 * b3));
    assert w / 256 == b1 + 256 * (b2 + 256 * b3);
    assert w / 65536 == b2 + 256 * b3;
  }

  /** s, with its zero, is at offset p. */
  ghost predicate Holds(page: Page, p: int, s: CString) {
    0 <= p && p + |s| < 4096 && page[p..p + |s|] == s && page[p + |s|] == 0
  }

  // ----------------------------------------------------------------- decoding

  /** The C string at an offset. */
  function StringFrom(page: Page, o: int): seq<Byte>
    decreases 4096 - o
  {
    if 0 <= o < 4096 && page[o] != 0 then [page[o]] + StringFrom(page, o + 1) else []
  }

  /** The word at an address of the child, if it is on the stack page. */
  function Load(page: Page, addr: int): nat {
    if CHILD <= addr <= CHILD + 4092 then Word(page, addr - CHILD) else 0
  }

  /** The arguments that the child finds: argc at its stack pointer, argv above it. */
  function Arguments(page: Page, esp: int): seq<seq<Byte>> {
    var argc, argv := Load(page, esp), Load(page, esp + 4);
    seq(argc, i => StringFrom(page, Load(page, argv + 4 * i) - CHILD))
  }

  lemma {:induction false} HeldString(page: Page, p: int, s: CString)
    requires Holds(page, p, s)
    ensures StringFrom(page, p) == s
    decreases |s|
  {
    if s != [] {
      assert page[p] == page[p..p + |s|][0];
      assert page[p + 1..p + |s|] == page[p..p + |s|][1..];
      HeldString(page, p + 1, s[1..]);
    }
  }

  /** The first i pointers and strings are in place. */
  ghost predicate Placed(page: Page, args: seq<CString>, i: nat) {
    && i <= |args| && Need(args) <= 4096
    && forall j {:trigger StringAt(args, j)} | 0 <= j < i ::
         Word(page, ArgvAt(args) + 4 * j) == CHILD + StringAt(args, j) && Holds(page, StringAt(args, j), args[j])
  }

  /** The finished stack page. */
  ghost predicate Stacked(page: Page, args: seq<CString>) {
    && Placed(page, args, |args|)
    && Word(page, ArgvAt(args) + 4 * |args|) == 0
    && Word(page, ArgvAt(args) - 4) == CHILD + ArgvAt(args)
    && Word(page, ArgvAt(args) - 8) == |args|
  }

  /** The child finds its arguments. */
  lemma ChildFindsArguments(page: Page, args: seq<CString>)
    requires Stacked(page, args)
    ensures Arguments(page, CHILD + ArgvAt(args) - 8) == args
  {
    var a := ArgvAt(args);
    var found := Arguments(page, CHILD + a - 8);
    forall i | 0 <= i < |args| ensures found[i] == args[i] {
      assert StringAt(args, i) >= 0;
      HeldString(page, StringAt(args, i), args[i]);
    }
  }

  /** The first eight bytes at the stack pointer. */
  lemma StackBytes(page: Page, args: seq<CString>, esp: int)
    requires Stacked(page, args) && esp == CHILD + ArgvAt(args) - 8
    ensures var o := esp - CHILD;
            && 0 <= o <= 4088
            && page[o..o + 4] == [|args| % 256, |args| / 256, 0, 0]
            && page[o + 4..o + 8] == [(esp + 8) % 256, (esp + 8) / 256 % 256, (esp + 8) / 65536 % 256, (esp + 8) / 16777216]
  {
    var o := esp - CHILD;
    assert 0 <= o <= 4088 && |args| <= 1024;
    BytesOfWord(page, o, |args|);
    BytesOfWord(page, o + 4, esp + 8);
    assert |args| / 256 % 256 == |args| / 256 && |args| / 65536 == 0;
  }

  // ------------------------------------------------------------ the fit check

  /** The check: the address of the two words, computed in 32 bits, is below UTEMP. */
  predicate TooBig(args: seq<CString>) {
    (TOP - Need(args)) % 0x1_0000_0000 < UTEMP
  }

  /** The check is right iff the address does not wrap below 0. */
  lemma CheckRightIff(args: seq<CString>)
    requires Need(args) < 0x1_0000_0000
    ensures (TooBig(args) <==> Need(args) > 4096) <==> Need(args) <= TOP
  {
    var a := TOP - Need(args);
    if a < 0 {
      assert a % 0x1_0000_0000 == a + 0x1_0000_0000;
    }
  }

  /** One argument of four megabytes passes the check, though it does not fit in a page. */
  lemma HugeArgumentPasses()
    ensures exists args: seq<CString> :: Need(args) > 4096 && !TooBig(args)
  {
    var s: CString := seq(0x40_1000, _ => 1);
    var args: seq<CString> := [s];
    assert args[..0] == [];
    assert StringSize(args) == 0x40_1001;
    assert Need(args) == 0x40_1004 + 8 + 8;
    CheckRightIff(args);
  }

  // ------------------------------------------------------------- init_stack

  /** Two pages agree on the part of the stack page that i arguments fill. */
  ghost predicate SameFilled(page: Page, page': Page, args: seq<CString>, i: nat)
    requires i <= |args|
  {
    forall k | 0 <= k < 4096 && (ArgvAt(args) <= k < ArgvAt(args) + 4 * i || 4096 - StringSize(args) <= k < StringAt(args, i)) ::
      page'[k] == page[k]
  }

  lemma PlacedFrame(page: Page, page': Page, args: seq<CString>, i: nat)
    requires Placed(page, args, i) && SameFilled(page, page', args, i)
    ensures Placed(page', args, i)
  {
    forall j: nat | j < i
      ensures Word(page', ArgvAt(args) + 4 * j) == CHILD + StringAt(args, j) && Holds(page', StringAt(args, j), args[j])
    {
      PrefixOrder(args, j, i);
      var p := StringAt(args, j);
      assert Holds(page, p, args[j]);
      assert page'[p..p + |args[j]|] == page[p..p + |args[j]|];
    }
  }

  /** Strings are laid out in order: string j ends where string j + 1 starts. */
  lemma {:induction false} PrefixOrder(args: seq<CString>, j: nat, i: nat)
    requires j < i <= |args|
    ensures StringAt(args, j) + |args[j]| + 1 <= StringAt(args, i) <= 4096
    ensures StringAt(args, j) >= 4096 - StringSize(args)
  {
    PrefixSize(args, i);
    PrefixSize(args, j);
    if j < i - 1 {
      PrefixOrder(args, j, i - 1);
      PrefixSize(args, i - 1);
    }
  }

  /** The two words, the pointers and the strings are disjoint and fill the top of the page. */
  lemma RegionsDisjoint(args: seq<CString>, j: nat, i: nat)
    requires Need(args) <= 4096 && j < i <= |args|
    ensures 0 <= ArgvAt(args) - 8 && ArgvAt(args) + 4 * (|args| + 1) <= StringAt(args, j)
    ensures StringAt(args, j) + |args[j]| + 1 <= StringAt(args, i) <= StringAt(args, |args|) == 4096
  {
    PrefixOrder(args, j, i);
    if i < |args| {
      PrefixOrder(args, i, |args|);
    }
    assert args[..|args|] == args;
  }

  method PutWord(page: array<Byte>, o: int, w: int)
    requires page.Length == 4096 && 0 <= o <= 4092 && 0 <= w < 0x1_0000_0000
    modifies page
    ensures Word(page[..], o) == w
    ensures forall k | 0 <= k < 4096 && !(o <= k < o + 4) :: page[k] == old(page[k])
  {
    WordBytes(w);
    page[o], page[o + 1], page[o + 2], page[o + 3] := w % 256, w / 256 % 256, w / 65536 % 256, w / 16777216;
  }

  method StrCpy(page: array<Byte>, p: int, s: CString)
    requires page.Length == 4096 && 0 <= p && p + |s| < 4096
    modifies page
    ensures Holds(page[..], p, s)
    ensures forall k | 0 <= k < 4096 && !(p <= k <= p + |s|) :: page[k] == old(page[k])
  {
    for i := 0 to |s|
      invariant page[p..p + i] == s[..i]
      invariant forall k | 0 <= k < 4096 && !(p <= k < p + i) :: page[k] == old(page[k])
    {
      page[p + i] := s[i];
    }
    page[p + |s|] := 0;
    assert page[..][p..p + |s|] == page[p..p + |s|] == s;
  }

  /** argc, and the total size of the strings in 32 bits. */
  method Measure(args: seq<CString>) returns (argc: nat, size: nat)
    ensures argc == |args| && size == StringSize(args) % 0x1_0000_0000
  {
    argc, size := 0, 0;
    assert args[..0] == [];
    while argc < |args|
      invariant argc <= |args| && size == StringSize(args[..argc]) % 0x1_0000_0000
    {
      PrefixSize(args, argc);
      size := (size + |args[argc]| + 1) % 0x1_0000_0000;
      argc := argc + 1;
    }
    assert args[..argc] == args;
  }

  /** One turn of the loop that stores pointers and copies strings; at is string_store as an offset. */
  method PlaceOne(page: array<Byte>, args: seq<CString>, i: nat, at: int)
    requires page.Length == 4096 && i < |args| && Placed(page[..], args, i) && at == StringAt(args, i)
    modifies page
    ensures Placed(page[..], args, i + 1)
    ensures at + |args[i]| + 1 == StringAt(args, i + 1)
  {
    PrefixSize(args, i);
    PrefixSize(args, i + 1);
    ghost var p0 := page[..];
    PutWord(page, ArgvAt(args) + 4 * i, CHILD + at);
    ghost var p1 := page[..];
    PlacedFrame(p0, p1, args, i);
    StrCpy(page, at, args[i]);
    PlacedFrame(p1, page[..], args, i);
  }

  /** The null pointer after the array, and the two words below it. */
  method PushWords(page: array<Byte>, args: seq<CString>, o: int)
    requires page.Length == 4096 && Placed(page[..], args, |args|) && o == ArgvAt(args)
    modifies page
    ensures Stacked(page[..], args)
  {
    ghost var p := page[..];
    PutWord(page, o + 4 * |args|, 0);
    PutWord(page, o - 4, CHILD + o);
    PutWord(page, o - 8, |args|);
    PlacedFrame(p, page[..], args, |args|);
  }

  datatype StackResult = NoMem | SysFailed | Stray | Ready(esp: int)

  /** The beginning of init_stack: where the strings and the pointers go, and the check that they fit. */
  method StackPlaces(args: seq<CString>) returns (tooBig: bool, argvStore: int, stringStore: int)
    requires Need(args) < 0x1_0000_0000
    ensures tooBig <==> TooBig(args)
    ensures tooBig <==> 4096 < Need(args) <= TOP
    ensures Need(args) > TOP ==> argvStore >= TOP || argvStore < UTEMP
    ensures Need(args) <= 4096 ==> argvStore == UTEMP + ArgvAt(args) && stringStore == UTEMP + StringAt(args, 0)
    ensures Need(args) <= 4096 ==> UTEMP <= argvStore < TOP
  {
    var argc, size := Measure(args);
    stringStore := (TOP - size) % 0x1_0000_0000;
    argvStore := (stringStore - stringStore % 4 - 4 * (argc + 1)) % 0x1_0000_0000;
    AddressOfArgv(args, stringStore, argvStore);
    CheckMeans(args, argvStore);
    tooBig := (argvStore - 8) % 0x1_0000_0000 < UTEMP;
  }

  /**
   * init_stack, up to the system calls that move the page to the child.  `fails` says
   * whether sys_page_alloc fails.  Stray is a check that passes although the arguments
   * do not fit, so that the stores leave the page.
   */
  method InitStack(args: seq<CString>, page: array<Byte>, fails: bool) returns (r: StackResult)
    requires page.Length == 4096 && Need(args) < 0x1_0000_0000
    modifies page
    ensures r == NoMem <==> TooBig(args)
    ensures r == Stray ==> Need(args) > TOP
    ensures Need(args) <= 4096 ==> r == (if fails then SysFailed else Ready(CHILD + ArgvAt(args) - 8))
    ensures r.Ready? ==> Need(args) <= 4096 && Stacked(page[..], args) && Arguments(page[..], r.esp) == args
  {
    var tooBig, argvStore, stringStore := StackPlaces(args);
    if tooBig {
      return NoMem;
    }
    if fails {
      return SysFailed;
    }
    if argvStore >= TOP || argvStore < UTEMP {
      return Stray;
    }
    forall k | 0 <= k < 4096 { page[k] := 0; }
    var esp := Fill(args, page, argvStore - UTEMP, stringStore - UTEMP);
    r := Ready(esp);
  }

  /**
   * The rest of init_stack: o and start are argv_store and string_store as offsets in the
   * page.  argc and argv are at the stack pointer, lowest byte first.
   */
  method Fill(args: seq<CString>, page: array<Byte>, o: int, start: int) returns (esp: int)
    requires page.Length == 4096 && Need(args) <= 4096 && o == ArgvAt(args) && start == StringAt(args, 0)
    modifies page
    ensures Stacked(page[..], args) && esp == CHILD + ArgvAt(args) - 8 && Arguments(page[..], esp) == args
    ensures var o := esp - CHILD;
            && 0 <= o <= 4088
            && page[..][o..o + 4] == [|args| % 256, |args| / 256, 0, 0]
            && page[..][o + 4..o + 8] == [(esp + 8) % 256, (esp + 8) / 256 % 256, (esp + 8) / 65536 % 256, (esp + 8) / 16777216]
  {
    var argc, at, i := |args|, start, 0;
    while i < argc
      invariant i <= argc && Placed(page[..], args, i) && at == StringAt(args, i)
    {
      PlaceOne(page, args, i, at);
      at := at + |args[i]| + 1;
      i := i + 1;
    }
    PushWords(page, args, o);
    esp := CHILD + o - 8;
    ChildFindsArguments(page[..], args);
    StackBytes(page[..], args, esp);
  }

  lemma AddressOfArgv(args: seq<CString>, stringStore: int, argvStore: int)
    requires Need(args) < 0x1_0000_0000 && stringStore == (TOP - StringSize(args)) % 0x1_0000_0000
    requires argvStore == (stringStore - stringStore % 4 - 4 * (|args| + 1)) % 0x1_0000_0000
    ensures argvStore == (UTEMP + ArgvAt(args)) % 0x1_0000_0000
    ensures Need(args) <= 4096 ==> stringStore == UTEMP + StringAt(args, 0)
  {
    assert args[..0] == [];
    var n, c := StringSize(args), 4 * (|args| + 1);
    StoreAddress(n, c, stringStore);
    assert UTEMP + ArgvAt(args) == TOP - RoundUp4(n) - c;
    if Need(args) <= 4096 {
      assert n <= 4096;
    }
  }

  lemma StoreAddress(n: nat, c: nat, store: int)
    requires n < 0x1_0000_0000 && store == (TOP - n) % 0x1_0000_0000
    ensures (store - store % 4 - c) % 0x1_0000_0000 == (TOP - RoundUp4(n) - c) % 0x1_0000_0000
    ensures n <= TOP ==> store == TOP - n
  {
    if n <= TOP {
      RoundDown4(TOP, n);
    } else {
      RoundDown4(TOP + 0x1_0000_0000, n);
      Wrap(TOP - n);
      assert store == TOP + 0x1_0000_0000 - n;
      Wrap(TOP - RoundUp4(n) - c);
    }
  }

  lemma Wrap(x: int)
    ensures (x + 0x1_0000_0000) % 0x1_0000_0000 == x % 0x1_0000_0000
    ensures -0x1_0000_0000 <= x < 0 ==> x % 0x1_0000_0000 == x + 0x1_0000_0000
  {
  }

  lemma RoundDown4(x: int, n: nat)
    requires x % 4 == 0 && n <= x
    ensures (x - n) - (x - n) % 4 == x - RoundUp4(n)
  {
    var r := RoundUp4(n);
    assert n <= r < n + 4 && r % 4 == 0;
  }

  /** What the check tests, and where the pointer array is when it passes. */
  lemma CheckMeans(args: seq<CString>, argvStore: int)
    requires Need(args) < 0x1_0000_0000 && argvStore == (UTEMP + ArgvAt(args)) % 0x1_0000_0000
    ensures (argvStore - 8) % 0x1_0000_0000 < UTEMP <==> TooBig(args)
    ensures TooBig(args) <==> 4096 < Need(args) <= TOP
    ensures Need(args) > TOP ==> argvStore >= TOP || argvStore < UTEMP
    ensures Need(args) <= 4096 ==> argvStore == UTEMP + ArgvAt(args)
  {
    var t := TOP - Need(args) + 8;
    if t < 0 { Wrap(t); }
    if t < 8 { Wrap(t - 8); }
  }

  // ------------------------------------------------------------- map_segment

  datatype Mapping = Mapping(page: Page, writable: bool)

  /** What readn puts in the page at UTEMP, which was all zeros: at most n bytes of the file from offset on. */
  function ReadPage(file: seq<Byte>, offset: nat, n: nat): (p: Page)
    requires n <= 4096
  {
    seq(4096, k requires 0 <= k < 4096 => if k < n && offset + k < |file| then file[offset + k] else 0)
  }

  /** The ELF rule: the first filesz bytes come from the file, the others are zero. */
  function Loaded(file: seq<Byte>, offset: int, filesz: nat, k: int): Byte {
    if 0 <= k < filesz && 0 <= offset + k < |file| then file[offset + k] else 0
  }

  /** The byte at an address, if its page is mapped. */
  function ByteAt(mem: map<nat, Mapping>, addr: nat): int {
    if addr / 4096 in mem then mem[addr / 4096].page[addr % 4096] else -1
  }

  /** Page n of the segment is loaded; the segment starts at page first, and byte 0 of it is at offset of the file. */
  ghost predicate PageLoaded(mem: map<nat, Mapping>, first: nat, n: nat, file: seq<Byte>, filesz: nat, offset: int, writable: bool) {
    && first + n in mem && mem[first + n].writable == writable
    && PageHas(mem[first + n].page, 4096 * n, file, filesz, offset)
  }

  /** The page has the segment's bytes from i on. */
  ghost predicate PageHas(page: Page, i: nat, file: seq<Byte>, filesz: nat, offset: int) {
    forall k {:trigger page[k]} | 0 <= k < 4096 :: page[k] == Loaded(file, offset, filesz, i + k)
  }

  /** Byte j of loaded pages. */
  lemma ByteLoaded(mem: map<nat, Mapping>, first: nat, j: nat, file: seq<Byte>, filesz: nat, offset: int, writable: bool)
    requires PageLoaded(mem, first, j / 4096, file, filesz, offset, writable)
    ensures ByteAt(mem, 4096 * first + j) == Loaded(file, offset, filesz, j)
    ensures (4096 * first + j) / 4096 == first + j / 4096
  {
    assert mem[first + j / 4096].page[j % 4096] == Loaded(file, offset, filesz, 4096 * (j / 4096) + j % 4096);
  }

  datatype SegmentResult = Done | Error | Panicked

  /** The turns at which a page, a read of the file or a page table cannot be had. */
  datatype Failures = Failures(noPage: set<nat>, noRead: set<nat>, noTable: set<nat>)

  /** Nothing goes wrong at page n of a segment: it is below UTOP, and what its turn needs can be had. */
  predicate PageFits(first: nat, n: nat, filesz: nat, f: Failures) {
    4096 * (first + n) < Basics.UTOP && n !in f.noPage && n !in f.noTable && (4096 * n < filesz ==> n !in f.noRead)
  }

  /** The page comes from the file, has been read, and cannot be mapped in the child. */
  predicate PagePanics(first: nat, n: nat, filesz: nat, f: Failures) {
    && 4096 * n < filesz && n !in f.noPage && n !in f.noRead
    && (n in f.noTable || 4096 * (first + n) >= Basics.UTOP)
  }

  /** Nothing goes wrong at any page of the segment of memsz bytes that starts o bytes into page first. */
  ghost predicate SegmentFits(first: nat, o: nat, memsz: nat, filesz: nat, f: Failures) {
    forall n: nat {:trigger PageFits(first, n, filesz + o, f)} | 4096 * n < memsz + o :: PageFits(first, n, filesz + o, f)
  }

  /** The first page at which something goes wrong is one that cannot be mapped. */
  ghost predicate SegmentPanics(first: nat, o: nat, memsz: nat, filesz: nat, f: Failures) {
    exists n: nat {:trigger PagePanics(first, n, filesz + o, f)} ::
      && 4096 * n < memsz + o && PagePanics(first, n, filesz + o, f)
      && forall j: nat {:trigger PageFits(first, j, filesz + o, f)} | j < n :: PageFits(first, j, filesz + o, f)
  }

  class Child {
    var mem: map<nat, Mapping>

    /** A child with nothing mapped. */
    constructor ()
      ensures mem == map[]
    {
      mem := map[];
    }

    /** The loop body of map_segment for page n of the segment.  Addresses from UTOP on are refused. */
    method MapPage(first: nat, n: nat, file: seq<Byte>, filesz: nat, offset: nat, writable: bool, f: Failures)
      returns (r: SegmentResult)
      modifies this
      ensures r == Done <==> PageFits(first, n, filesz, f)
      ensures r == Panicked <==> PagePanics(first, n, filesz, f)
      ensures r == Done <==>
                4096 * (first + n) < Basics.UTOP && n !in f.noPage && n !in f.noTable && !(n in f.noRead && 4096 * n < filesz)
      ensures r == Panicked <==>
                && 4096 * n < filesz && n !in f.noPage && n !in f.noRead
                && (n in f.noTable || 4096 * (first + n) >= Basics.UTOP)
      ensures r != Done ==> mem == old(mem)
      ensures r == Done ==> PageLoaded(mem, first, n, file, filesz, offset, writable)
      ensures mem.Keys <= old(mem).Keys + {first + n} && forall p | p in old(mem) && p != first + n :: p in mem && mem[p] == old(mem)[p]
    {
      var i := 4096 * n;
      if i >= filesz {
        if n in f.noPage || n in f.noTable || 4096 * first + i >= Basics.UTOP {
          return Error;
        }
        var zero: Page := seq(4096, _ => 0);
        assert PageHas(zero, i, file, filesz, offset);
        mem := mem[first + n := Mapping(zero, writable)];
      } else {
        if n in f.noPage {
          return Error;
        }
        if n in f.noRead {
          return Error;
        }
        var count := if filesz - i < 4096 then filesz - i else 4096;
        var utemp := ReadPage(file, offset + i, count);
        if n in f.noTable || 4096 * first + i >= Basics.UTOP {
          return Panicked;
        }
        assert PageHas(utemp, i, file, filesz, offset);
        mem := mem[first + n := Mapping(utemp, writable)];
      }
      return Done;
    }

    /**
     * map_segment: it is done iff nothing goes wrong at any of the segment's pages, and
     * otherwise the first page at which something does decides the result.  Then for every
     * k below memsz, the child's byte va + k is byte offset + k of the file if k is below
     * filesz and the file is that long, and 0 otherwise.  Pages that the segment does not
     * touch keep their contents.
     */
    method MapSegment(va: nat, memsz: nat, file: seq<Byte>, filesz: nat, offset: nat, writable: bool, f: Failures)
      returns (r: SegmentResult)
      requires va + memsz < 0x1_0000_0000 && filesz <= memsz && va % 4096 <= offset
      modifies this
      ensures r == Done <==> SegmentFits(va / 4096, va % 4096, memsz, filesz, f)
      ensures r == Panicked <==> SegmentPanics(va / 4096, va % 4096, memsz, filesz, f)
      ensures r == Done ==> forall a: nat {:trigger ByteAt(mem, a)} | va <= a < va + memsz ::
                var k := a - va; ByteAt(mem, a) == if k < filesz && offset + k < |file| then file[offset + k] else 0
      ensures r == Done ==> forall p: nat | va / 4096 <= p && 4096 * p < va + memsz :: p in mem && mem[p].writable == writable
      ensures forall p: nat | p < va / 4096 || 4096 * p >= va + memsz ::
                (p in mem <==> p in old(mem)) && (p in mem ==> mem[p] == old(mem)[p])
    {
      var o, first, n := va % 4096, va / 4096, 0;
      var end, start := filesz + o, offset - o;
      while 4096 * n < memsz + o
        invariant forall j: nat {:trigger PageLoaded(mem, first, j, file, end, start, writable)} | j < n ::
                    PageLoaded(mem, first, j, file, end, start, writable)
        invariant forall j: nat {:trigger PageFits(first, j, end, f)} | j < n :: PageFits(first, j, end, f)
        invariant forall p: nat | p < first || p >= first + n ::
                    (p in mem <==> p in old(mem)) && (p in mem ==> mem[p] == old(mem)[p])
        invariant n > 0 ==> 4096 * (n - 1) < memsz + o
        decreases memsz + o - 4096 * n
      {
        ghost var m := mem;
        r := MapPage(first, n, file, end, start, writable, f);
        if r != Done {
          FirstFailure(first, o, memsz, filesz, n, f);
          return;
        }
        forall j: nat | j < n ensures PageLoaded(mem, first, j, file, end, start, writable) {
          assert PageLoaded(m, first, j, file, end, start, writable);
        }
        n := n + 1;
      }
      forall a: nat | va <= a < va + memsz ensures ByteAt(mem, a) == Loaded(file, offset, filesz, a - va) {
        ByteLoaded(mem, first, o + (a - va), file, end, start, writable);
        assert 4096 * first + (o + (a - va)) == a;
      }
      forall p: nat | first <= p && 4096 * p < va + memsz ensures p in mem && mem[p].writable == writable {
        assert PageLoaded(mem, first, p - first, file, end, start, writable);
      }
      NoFailure(first, o, memsz, filesz, f);
      return Done;
    }
  }

  /** The first page that does not fit is the one that decides. */
  lemma FirstFailure(first: nat, o: nat, memsz: nat, filesz: nat, n: nat, f: Failures)
    requires 4096 * n < memsz + o && !PageFits(first, n, filesz + o, f)
    requires forall j: nat {:trigger PageFits(first, j, filesz + o, f)} | j < n :: PageFits(first, j, filesz + o, f)
    ensures !SegmentFits(first, o, memsz, filesz, f)
    ensures SegmentPanics(first, o, memsz, filesz, f) <==> PagePanics(first, n, filesz + o, f)
  {
    if m: nat :| 4096 * m < memsz + o && PagePanics(first, m, filesz + o, f)
                 && forall j: nat {:trigger PageFits(first, j, filesz + o, f)} | j < m :: PageFits(first, j, filesz + o, f)
    {
      assert !PageFits(first, m, filesz + o, f) && !PageFits(first, n, filesz + o, f);
      assert m == n;
    }
  }

  lemma NoFailure(first: nat, o: nat, memsz: nat, filesz: nat, f: Failures)
    requires SegmentFits(first, o, memsz, filesz, f)
    ensures !SegmentPanics(first, o, memsz, filesz, f)
  {
    forall n: nat | 4096 * n < memsz + o ensures !PagePanics(first, n, filesz + o, f) {
      assert PageFits(first, n, filesz + o, f);
    }
  }
}
