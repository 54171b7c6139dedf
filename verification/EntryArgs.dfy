/** The stack image with which a new process starts: argc, the argv pointers and their strings. */
module EntryArgs {
  import opened AddressSpaces
  import opened Processes
  import opened Regions
  import opened Sequences

  // ---------------------------------------------------------------- memory

  /** The low n bytes of v, lowest first. */
  function LittleEndian(v: nat, n: nat): (s: Bytes)
    ensures |s| == n
    decreases n
  {
    if n == 0 then [] else [v % 256] + LittleEndian(v / 256, n - 1)
  }

  function Decode(s: Bytes): nat {
    if s == [] then 0 else s[0] as nat + 256 * Decode(s[1..])
  }

  function Limit(n: nat): nat {
    if n == 0 then 1 else 256 * Limit(n - 1)
  }

  lemma {:induction false} DecodeEncoded(v: nat, n: nat)
    requires v < Limit(n)
    ensures Decode(LittleEndian(v, n)) == v
    decreases n
  {
    if n > 0 {
      DecodeEncoded(v / 256, n - 1);
      assert LittleEndian(v, n)[1..] == LittleEndian(v / 256, n - 1);
    }
  }

  function Patched(m: Bytes, at: nat, s: Bytes): (r: Bytes)
    requires at + |s| <= |m|
    ensures |r| == |m|
  {
    m[..at] + s + m[at + |s|..]
  }

  ghost predicate Holds(m: Bytes, at: nat, s: Bytes) {
    at + |s| <= |m| && m[at..at + |s|] == s
  }

  lemma PatchedHolds(m: Bytes, at: nat, s: Bytes)
    requires at + |s| <= |m|
    ensures Holds(Patched(m, at, s), at, s)
  {
  }

  lemma PatchedElsewhere(m: Bytes, at: nat, s: Bytes, p: nat, t: Bytes)
    requires at + |s| <= |m| && Holds(m, p, t) && (p + |t| <= at || at + |s| <= p)
    ensures Holds(Patched(m, at, s), p, t)
  {
    var r := Patched(m, at, s)[p..p + |t|];
    assert forall k | 0 <= k < |t| :: r[k] == m[p..p + |t|][k];
  }

  // ---------------------------------------------------------------- layout

  /** Bytes of the strings with their NULs. */
  function StringBytes(argv: seq<Bytes>): nat {
    if argv == [] then 0 else StringBytes(argv[..|argv| - 1]) + |argv[|argv| - 1]| + 1
  }

  function StringSection(argc: nat): nat {
    argc * 8 + 8
  }

  function Aligned(n: nat): nat {
    (n + 15) / 16 * 16
  }

  function ArgvLength(argv: seq<Bytes>): nat {
    Aligned(StringSection(|argv|) + StringBytes(argv))
  }

  /** The strings lie one after the other behind the pointers, inside the image. */
  lemma {:induction false} StringsApart(argv: seq<Bytes>, i: nat, j: nat)
    requires i < j <= |argv|
    ensures StringBytes(argv[..i]) + |argv[i]| + 1 <= StringBytes(argv[..j])
    decreases j
  {
    assert argv[..j][..j - 1] == argv[..j - 1];
    if i < j - 1 {
      StringsApart(argv, i, j - 1);
    }
  }

  lemma ImageFits(argv: seq<Bytes>, i: nat)
    requires i < |argv|
    ensures StringSection(|argv|) + StringBytes(argv[..i]) + |argv[i]| + 1 <= ArgvLength(argv)
    ensures 8 * (i + 1) + 8 <= StringSection(|argv|)
  {
    StringsApart(argv, i, |argv|);
    assert argv[..|argv|] == argv;
  }

  /** The user address of a string. */
  function StringAddress(argv: seq<Bytes>, sp: nat, i: nat): nat
    requires i <= |argv|
  {
    sp + StringSection(|argv|) + StringBytes(argv[..i])
  }

  /** Word i + 1 and the string it points to. */
  ghost predicate ArgReady(m: Bytes, base: int, sp: nat, argv: seq<Bytes>, i: nat)
    requires i < |argv| && base <= sp
  {
    && Holds(m, sp - base + 8 * (i + 1), LittleEndian(StringAddress(argv, sp, i), 8))
    && Holds(m, StringAddress(argv, sp, i) - base, argv[i] + [0])
  }

  lemma ArgWritten(m: Bytes, base: int, sp: nat, argv: seq<Bytes>, i: nat)
    requires i < |argv| && base <= sp && sp - base + ArgvLength(argv) <= |m|
    ensures sp - base + 8 * (i + 1) + 8 <= |m| && StringAddress(argv, sp, i) - base + |argv[i]| + 1 <= |m|
    ensures ArgReady(Patched(Patched(m, sp - base + 8 * (i + 1), LittleEndian(StringAddress(argv, sp, i), 8)),
      StringAddress(argv, sp, i) - base, argv[i] + [0]), base, sp, argv, i)
  {
    hide Patched, Holds, LittleEndian;
    ImageFits(argv, i);
    var word, text := LittleEndian(StringAddress(argv, sp, i), 8), argv[i] + [0];
    var m1 := Patched(m, sp - base + 8 * (i + 1), word);
    PatchedHolds(m, sp - base + 8 * (i + 1), word);
    PatchedHolds(m1, StringAddress(argv, sp, i) - base, text);
    HoldsFits(m1, sp - base + 8 * (i + 1), word);
    PatchedElsewhere(m1, StringAddress(argv, sp, i) - base, text, sp - base + 8 * (i + 1), word);
  }

  lemma HoldsFits(m: Bytes, at: nat, s: Bytes)
    requires Holds(m, at, s)
    ensures at + |s| <= |m|
  {
  }

  /** Writing the i-th argument leaves an earlier one in place. */
  lemma EarlierStays(m: Bytes, base: int, sp: nat, argv: seq<Bytes>, i: nat, k: nat)
    requires k < i < |argv| && base <= sp && sp - base + ArgvLength(argv) <= |m| && ArgReady(m, base, sp, argv, k)
    requires sp - base + 8 * (i + 1) + 8 <= |m| && StringAddress(argv, sp, i) - base + |argv[i]| + 1 <= |m|
    ensures ArgReady(Patched(Patched(m, sp - base + 8 * (i + 1), LittleEndian(StringAddress(argv, sp, i), 8)),
      StringAddress(argv, sp, i) - base, argv[i] + [0]), base, sp, argv, k)
  {
    hide Patched, Holds, LittleEndian;
    ImageFits(argv, i);
    ImageFits(argv, k);
    StringsApart(argv, k, i);
    var word, text, m1 := LittleEndian(StringAddress(argv, sp, k), 8), argv[k] + [0],
      Patched(m, sp - base + 8 * (i + 1), LittleEndian(StringAddress(argv, sp, i), 8));
    PatchedElsewhere(m, sp - base + 8 * (i + 1), LittleEndian(StringAddress(argv, sp, i), 8), sp - base + 8 * (k + 1),
      word);
    PatchedElsewhere(m, sp - base + 8 * (i + 1), LittleEndian(StringAddress(argv, sp, i), 8),
      StringAddress(argv, sp, k) - base, text);
    PatchedElsewhere(m1, StringAddress(argv, sp, i) - base, argv[i] + [0], sp - base + 8 * (k + 1), word);
    PatchedElsewhere(m1, StringAddress(argv, sp, i) - base, argv[i] + [0], StringAddress(argv, sp, k) - base, text);
  }

  // ---------------------------------------------------------------- writing the image

  /** Nothing outside of [lo, hi) differs. */
  ghost predicate SameOutside(m: Bytes, n: Bytes, lo: nat, hi: nat) {
    |m| == |n| && forall k | 0 <= k < |m| && !(lo <= k < hi) :: m[k] == n[k]
  }

  lemma PatchedOutside(m: Bytes, n: Bytes, at: nat, s: Bytes, lo: nat, hi: nat)
    requires SameOutside(m, n, lo, hi) && lo <= at && at + |s| <= hi && at + |s| <= |n|
    ensures SameOutside(m, Patched(n, at, s), lo, hi)
  {
  }

  /** memcpy to the stack */
  method CopyBytes(image: array<Byte>, at: nat, s: Bytes)
    requires at + |s| <= image.Length
    modifies image
    ensures image[..] == Patched(old(image[..]), at, s)
  {
    var i := 0;
    while i < |s|
      invariant i <= |s|
      invariant forall k | 0 <= k < image.Length :: image[k] == if at <= k < at + i then s[k - at] else old(image[k])
    {
      image[at + i] := s[i];
      i := i + 1;
    }
    ghost var want := Patched(old(image[..]), at, s);
    assert forall k | 0 <= k < image.Length :: image[..][k] == want[k];
  }

  class UserThread {
    var sp: nat
    /** registers[0] and registers[1], the arguments of main */
    var argc: nat
    var argv: nat

    constructor (sp: nat)
      ensures this.sp == sp && argc == 0 && argv == 0
    {
      this.sp, argc, argv := sp, 0, 0;
    }
  }

  /** argc is in word 0, and the first n arguments are in place. */
  ghost predicate ImageReady(m: Bytes, base: int, sp: nat, argv: seq<Bytes>, n: nat) {
    && base <= sp && n <= |argv| && Holds(m, sp - base, LittleEndian(|argv|, 8))
    && forall k | 0 <= k < n :: ArgReady(m, base, sp, argv, k)
  }

  lemma ArgcWritten(m: Bytes, base: int, sp: nat, argv: seq<Bytes>)
    requires base <= sp && sp - base + ArgvLength(argv) <= |m|
    ensures sp - base + 8 <= |m| && ImageReady(Patched(m, sp - base, LittleEndian(|argv|, 8)), base, sp, argv, 0)
    ensures SameOutside(m, Patched(m, sp - base, LittleEndian(|argv|, 8)), sp - base, sp - base + ArgvLength(argv))
  {
    PatchedHolds(m, sp - base, LittleEndian(|argv|, 8));
    PatchedOutside(m, m, sp - base, LittleEndian(|argv|, 8), sp - base, sp - base + ArgvLength(argv));
  }

  /** The image after one more argument. */
  ghost function WithArg(m: Bytes, base: int, sp: nat, argv: seq<Bytes>, i: nat): Bytes
    requires i < |argv| && base <= sp && sp - base + ArgvLength(argv) <= |m|
  {
    ArgWritten(m, base, sp, argv, i);
    Patched(Patched(m, sp - base + 8 * (i + 1), LittleEndian(StringAddress(argv, sp, i), 8)),
      StringAddress(argv, sp, i) - base, argv[i] + [0])
  }

  lemma NextArg(m: Bytes, base: int, sp: nat, argv: seq<Bytes>, i: nat)
    requires i < |argv| && sp - base + ArgvLength(argv) <= |m| && ImageReady(m, base, sp, argv, i)
    ensures ImageReady(WithArg(m, base, sp, argv, i), base, sp, argv, i + 1)
  {
    hide Patched, Holds, LittleEndian, ArgReady, ArgvLength, StringBytes;
    ArgWritten(m, base, sp, argv, i);
    forall k | 0 <= k < i
      ensures ArgReady(WithArg(m, base, sp, argv, i), base, sp, argv, k)
    {
      EarlierStays(m, base, sp, argv, i, k);
    }
    ArgcStays(m, base, sp, argv, i);
  }

  lemma ArgcStays(m: Bytes, base: int, sp: nat, argv: seq<Bytes>, i: nat)
    requires i < |argv| && base <= sp && sp - base + ArgvLength(argv) <= |m|
      && Holds(m, sp - base, LittleEndian(|argv|, 8))
    ensures Holds(WithArg(m, base, sp, argv, i), sp - base, LittleEndian(|argv|, 8))
  {
    hide Patched, Holds, LittleEndian, StringBytes;
    ArgWritten(m, base, sp, argv, i);
    var word := LittleEndian(StringAddress(argv, sp, i), 8);
    PatchedElsewhere(m, sp - base + 8 * (i + 1), word, sp - base, LittleEndian(|argv|, 8));
    PatchedElsewhere(Patched(m, sp - base + 8 * (i + 1), word), StringAddress(argv, sp, i) - base, argv[i] + [0],
      sp - base,
      LittleEndian(|argv|, 8));
  }

  lemma ArgOutside(m: Bytes, n: Bytes, base: int, sp: nat, argv: seq<Bytes>, i: nat)
    requires i < |argv| && base <= sp && sp - base + ArgvLength(argv) <= |n|
    requires SameOutside(m, n, sp - base, sp - base + ArgvLength(argv))
    ensures SameOutside(m, WithArg(n, base, sp, argv, i), sp - base, sp - base + ArgvLength(argv))
  {
    hide Patched, LittleEndian, SameOutside;
    ImageFits(argv, i);
    ArgWritten(n, base, sp, argv, i);
    var word := LittleEndian(StringAddress(argv, sp, i), 8);
    PatchedOutside(m, n, sp - base + 8 * (i + 1), word, sp - base, sp - base + ArgvLength(argv));
    PatchedOutside(m, Patched(n, sp - base + 8 * (i + 1), word), StringAddress(argv, sp, i) - base, argv[i] + [0],
      sp - base,
      sp - base + ArgvLength(argv));
  }

  /** The writing pass. */
  method WriteImage(image: array<Byte>, base: int, sp: nat, argv: seq<Bytes>)
    requires base <= sp && sp - base + ArgvLength(argv) <= image.Length
    modifies image
    ensures ImageReady(image[..], base, sp, argv, |argv|)
    ensures SameOutside(old(image[..]), image[..], sp - base, sp - base + ArgvLength(argv))
  {
    hide Patched, LittleEndian, ImageReady, SameOutside, StringBytes, ArgvLength;
    ghost var m0 := image[..];
    ArgcWritten(m0, base, sp, argv);
    var stackAddress, stringSectionStart := sp - base, |argv| * 8 + 8;
    CopyBytes(image, stackAddress, LittleEndian(|argv|, 8));
    var currentStrOffset := 0;
    NoStrings(argv);
    var i := 0;
    while i < |argv|
      invariant i <= |argv| && currentStrOffset == StringBytes(argv[..i])
      invariant ImageReady(image[..], base, sp, argv, i)
      invariant SameOutside(m0, image[..], sp - base, sp - base + ArgvLength(argv))
    {
      ghost var m := image[..];
      ArgWritten(m, base, sp, argv, i);
      NextArg(m, base, sp, argv, i);
      ArgOutside(m0, m, base, sp, argv, i);
      NextString(argv, i);
      CopyBytes(image, stackAddress + 8 * (i + 1), LittleEndian(sp + stringSectionStart + currentStrOffset, 8));
      CopyBytes(image, stackAddress + stringSectionStart + currentStrOffset, argv[i] + [0]);
      currentStrOffset := currentStrOffset + |argv[i]| + 1;
      i := i + 1;
    }
  }

  /** The 64-bit word at a place of the image. */
  function WordAt(m: Bytes, at: nat): nat
    requires at + 8 <= |m|
  {
    Decode(m[at..at + 8])
  }

  /** What main finds: argc, and for each argument a pointer to its string. */
  ghost predicate MainSees(m: Bytes, base: int, sp: nat, argv: seq<Bytes>) {
    && base <= sp && sp - base + ArgvLength(argv) <= |m| && ArgvLength(argv) >= 8 * |argv| + 8
    && WordAt(m, sp - base) == |argv|
    && forall i | 0 <= i < |argv| :: PointsTo(m, base, WordAt(m, sp - base + 8 * (i + 1)), argv[i])
  }

  /** The string with its NUL can be read at the user address. */
  ghost predicate PointsTo(m: Bytes, base: int, address: nat, s: Bytes) {
    base <= address && Holds(m, address - base, s + [0])
  }

  lemma WordHeld(m: Bytes, at: nat, v: nat)
    requires v < 0x1_0000_0000_0000_0000 && Holds(m, at, LittleEndian(v, 8))
    ensures at + 8 <= |m| && WordAt(m, at) == v
  {
    assert Limit(4) == 0x1_0000_0000 && Limit(8) == 0x1_0000_0000_0000_0000;
    DecodeEncoded(v, 8);
  }

  lemma ReadyIsSeen(m: Bytes, base: int, sp: nat, argv: seq<Bytes>)
    requires ImageReady(m, base, sp, argv, |argv|) && sp - base + ArgvLength(argv) <= |m| && |argv| < 0x8000_0000
    requires sp + ArgvLength(argv) < 0x1_0000_0000_0000
    ensures MainSees(m, base, sp, argv)
  {
    hide LittleEndian, Holds, WordAt;
    WordHeld(m, sp - base, |argv|);
    forall i | 0 <= i < |argv|
      ensures PointsTo(m, base, WordAt(m, sp - base + 8 * (i + 1)), argv[i])
    {
      ImageFits(argv, i);
      assert ArgReady(m, base, sp, argv, i);
      WordHeld(m, sp - base + 8 * (i + 1), StringAddress(argv, sp, i));
    }
  }

  /** The new stack pointer is translated to its place in the stack's memory, unless the image fills the stack: at the
      first byte of a region the lookup gives 0, so a full image goes to the start of physical memory instead. */
  lemma StackIsTranslated(rs: seq<Region>, k: nat, sp: nat)
    requires AllApart(rs) && k < |rs| && Contains(rs[k], sp)
    ensures FirstInside(rs, sp) == (if sp == rs[k].va then 0 else rs[k].pa + (sp - rs[k].va))
    ensures FirstInside(rs, sp) == rs[k].pa + (sp - rs[k].va) <==> sp != rs[k].va || rs[k].pa == 0
  {
    InsideIsTranslated(rs, k, sp);
  }

  /** The bytes of all strings, each with its NUL. */
  ghost function TextBytes(argv: seq<Bytes>): nat {
    if argv == [] then 0 else |argv[0]| + 1 + TextBytes(argv[1..])
  }

  lemma {:induction false} TextIsStrings(argv: seq<Bytes>, n: nat)
    requires n <= |argv|
    ensures StringBytes(argv) == StringBytes(argv[..n]) + TextBytes(argv[n..])
    decreases |argv| - n
  {
    if n < |argv| {
      NextString(argv, n);
      assert argv[n..][1..] == argv[n + 1..];
      TextIsStrings(argv, n + 1);
    } else {
      AllStrings(argv);
    }
  }

  lemma AlignedUp(n: nat)
    ensures Aligned(n) % 16 == 0 && n <= Aligned(n) < n + 16
  {
  }

  /** The image has the words and the strings, and less than 16 bytes more. */
  lemma ImageSize(argv: seq<Bytes>)
    ensures ArgvLength(argv) % 16 == 0
    ensures 8 * |argv| + 8 + TextBytes(argv) <= ArgvLength(argv) < 8 * |argv| + 24 + TextBytes(argv)
  {
    hide StringBytes, TextBytes, Aligned;
    TextIsStrings(argv, 0);
    NoStrings(argv);
    assert argv[0..] == argv;
    AlignedUp(StringSection(|argv|) + StringBytes(argv));
  }

  /** process_entry_point_args. The memory is the physical memory from address 0 on; the image goes where the address
      space takes the new stack pointer. For a process whose stack is larger than the image that is the stack, and main
      finds its arguments there. The image has the words and the strings and less than 16 bytes more. */
  method ProcessEntryPointArgs(p: Process, thread: UserThread, memory: array<Byte>, argv: seq<Bytes>) returns (err: int)
    requires p.addrSpace.Valid()
    requires ArgvLength(argv) <= thread.sp < 0x1_0000_0000_0000 && |argv| < 0x8000_0000
      && ArgvLength(argv) < 0x1_0000_0000
    requires FirstInside(p.addrSpace.Regions(), thread.sp - ArgvLength(argv)) + ArgvLength(argv) <= memory.Length
    modifies thread, memory
    ensures err == (if p.state == New then 0 else 1)
    ensures err != 0 ==> unchanged(thread) && memory[..] == old(memory[..])
    ensures err == 0 ==>
      thread.sp == old(thread.sp) - ArgvLength(argv) && (old(thread.sp) % 16 == 0 ==> thread.sp % 16 == 0)
    ensures err == 0 ==> thread.argc == |argv| && thread.argv == thread.sp
    ensures err == 0 ==> var at := FirstInside(p.addrSpace.Regions(), thread.sp);
      MainSees(memory[..], thread.sp - at, thread.sp, argv)
        && SameOutside(old(memory[..]), memory[..], at, at + ArgvLength(argv))
    ensures err == 0 ==> var rs := p.addrSpace.Regions();
      forall k: nat | AllApart(rs) && k < |rs| && rs[k].va < thread.sp < rs[k].End() ::
        MainSees(memory[..], rs[k].va - rs[k].pa, thread.sp, argv)
    ensures err == 0 ==> var size := old(thread.sp) - thread.sp;
      size % 16 == 0 && 8 * |argv| + 8 + TextBytes(argv) <= size < 8 * |argv| + 24 + TextBytes(argv)
    ensures err == 0 ==> var rs := p.addrSpace.Regions();
      forall k: nat | AllApart(rs) && k < |rs| && rs[k].End() == old(thread.sp)
          && 8 * |argv| + 24 + TextBytes(argv) <= rs[k].size ::
        MainSees(memory[..], rs[k].va - rs[k].pa, thread.sp, argv)
  {
    hide SameOutside, MainSees, ImageReady, StringBytes, AddressSpace.Valid, TextBytes;
    ImageSize(argv);
    if p.state != New {
      return 1;
    }
    var argc := |argv|;
    var stringSectionStart := argc * 8 + 8;
    var argvLen := stringSectionStart;
    var i := 0;
    NoStrings(argv);
    while i < argc
      invariant i <= argc && argvLen == stringSectionStart + StringBytes(argv[..i])
      invariant unchanged(thread) && unchanged(memory)
    {
      argvLen := argvLen + |argv[i]| + 1;
      NextString(argv, i);
      i := i + 1;
    }
    AllStrings(argv);
    assert argvLen == StringSection(argc) + StringBytes(argv);
    argvLen := Aligned(argvLen);
    thread.sp := thread.sp - argvLen;
    var stackAddress := p.addrSpace.VirtualToPhysical(thread.sp);
    assert memory[..] == old(memory[..]);
    WriteImage(memory, thread.sp - stackAddress, thread.sp, argv);
    ReadyIsSeen(memory[..], thread.sp - stackAddress, thread.sp, argv);
    thread.argc := argc;
    thread.argv := thread.sp;
    ghost var rs := p.addrSpace.Regions();
    forall k: nat | AllApart(rs) && k < |rs| && rs[k].va < thread.sp < rs[k].End()
      ensures MainSees(memory[..], rs[k].va - rs[k].pa, thread.sp, argv)
    {
      StackIsTranslated(rs, k, thread.sp);
    }
    return 0;
  }

  lemma NoStrings(argv: seq<Bytes>)
    ensures StringBytes(argv[..0]) == 0
  {
  }

  lemma AllStrings(argv: seq<Bytes>)
    ensures StringBytes(argv[..|argv|]) == StringBytes(argv)
  {
    assert argv[..|argv|] == argv;
  }

  lemma NextString(argv: seq<Bytes>, i: nat)
    requires i < |argv|
    ensures StringBytes(argv[..i + 1]) == StringBytes(argv[..i]) + |argv[i]| + 1
  {
    assert argv[..i + 1][..i] == argv[..i];
  }
}
