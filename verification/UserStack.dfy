/** The initial stack of a user process (kernel/src/elf_loader.h:209-310).

    The loader pushes the environment and argument strings, then the envp and argv pointer
    arrays and argc, downward on a four-page stack.  The process's C runtime reads that block
    upward from the final stack pointer (System V ABI, AMD64 supplement, section 3.4.1).
    `Parse` is that reader; the main result is that it recovers the strings that were passed. */
module UserStack {
  import opened Basics
  import opened Bytes

  const STACK_SIZE: nat := 4 * PAGE_SIZE

  type Str = seq<byte>

  // ------------------------------------------------------- the reader's side

  /** Memory from address `base` upward. */
  datatype View = View(base: nat, bytes: seq<byte>)

  function ReadWord(v: View, a: nat): Option<nat> {
    if v.base <= a && a + 8 <= v.base + |v.bytes|
    then Some(Decode(v.bytes[a - v.base..a - v.base + 8]))
    else None
  }

  /** The NUL-terminated string at index `i`. */
  function ReadString(m: seq<byte>, i: nat): Option<Str>
    decreases |m| - i
  {
    if i >= |m| then None
    else if m[i] == 0 then Some([])
    else match ReadString(m, i + 1)
      case None => None
      case Some(rest) => Some([m[i]] + rest)
  }

  function ReadStrings(v: View, ptrs: seq<nat>): Option<seq<Str>> {
    if ptrs == [] then Some([])
    else if ptrs[0] < v.base then None
    else match (ReadString(v.bytes, ptrs[0] - v.base), ReadStrings(v, ptrs[1..]))
      case (Some(s), Some(rest)) => Some([s] + rest)
      case _ => None
  }

  /** `n` consecutive pointers. */
  function ReadPointers(v: View, a: nat, n: nat): Option<seq<nat>>
    decreases n
  {
    if n == 0 then Some([])
    else match (ReadWord(v, a), ReadPointers(v, a + 8, n - 1))
      case (Some(p), Some(rest)) => Some([p] + rest)
      case _ => None
  }

  /** Pointers up to a NULL. */
  function ReadUntilNull(v: View, a: nat): Option<seq<nat>>
    decreases v.base + |v.bytes| - a
  {
    match ReadWord(v, a)
    case None => None
    case Some(p) =>
      if p == 0 then Some([])
      else match ReadUntilNull(v, a + 8)
        case None => None
        case Some(rest) => Some([p] + rest)
  }

  datatype Image = Image(args: seq<Str>, env: seq<Str>)

  /** What the C runtime finds at stack pointer `sp`: argc, argv[0..argc], NULL, envp.., NULL. */
  function Parse(v: View, sp: nat): Option<Image> {
    match ReadWord(v, sp)
    case None => None
    case Some(argc) =>
      match (ReadPointers(v, sp + 8, argc), ReadWord(v, sp + 8 + 8 * argc), ReadUntilNull(v, sp + 16 + 8 * argc))
      case (Some(argv), Some(nul), Some(envp)) =>
        (if nul != 0 then None else
         match (ReadStrings(v, argv), ReadStrings(v, envp))
         case (Some(args), Some(env)) => Some(Image(args, env))
         case _ => None)
      case _ => None
  }

  /** A C reader sees a string only up to its first NUL byte. */
  function UpToNul(s: Str): Str {
    if s == [] || s[0] == 0 then [] else [s[0]] + UpToNul(s[1..])
  }

  function Visible(ss: seq<Str>): seq<Str> {
    seq(|ss|, i requires 0 <= i < |ss| => UpToNul(ss[i]))
  }

  // ------------------------------------------------------- the loader's side

  /** Bytes a string of length `n` takes: with its NUL, rounded up past the next multiple of 16. */
  function Padded(n: nat): (p: nat)
    ensures n + 1 < p && p % 16 == 0
  {
    n + 1 + (16 - (n + 1) % 16)
  }

  function StringsNeed(ss: seq<Str>): nat {
    if ss == [] then 0 else StringsNeed(ss[..|ss| - 1]) + Padded(|ss[|ss| - 1]|)
  }

  /** envp and argv with their NULLs, argc, and a word to keep the total even. */
  function VectorsNeed(argc: nat, envc: nat): nat {
    var slots := envc + 1 + argc + 1 + 1;
    8 * slots + AlignmentWord(slots)
  }

  function AlignmentWord(slots: nat): nat {
    if slots % 2 != 0 then 8 else 0
  }

  /** The address behind envp's NULL, where the ABI puts the auxiliary vector. */
  function BehindVectors(sp: nat, argc: nat, envc: nat): nat {
    sp + 8 * (envc + 1 + argc + 1 + 1)
  }

  lemma SlotParity(argc: nat, envc: nat)
    ensures (envc + 1 + argc + 1 + 1) % 2 != 0 <==> (argc + envc) % 2 == 0
    ensures AlignmentWord(envc + 1 + argc + 1 + 1) == if (argc + envc) % 2 == 0 then 8 else 0
  {}

  function Need(args: seq<Str>, env: seq<Str>): nat {
    StringsNeed(env) + StringsNeed(args) + VectorsNeed(|args|, |env|)
  }

  ghost predicate StringAt(v: View, a: nat, s: Str) {
    && v.base <= a && a + |s| < v.base + |v.bytes|
    && v.bytes[a - v.base..a - v.base + |s|] == s
    && v.bytes[a - v.base + |s|] == 0
  }

  ghost predicate WordAt(v: View, a: nat, w: nat) {
    && v.base <= a && a + 8 <= v.base + |v.bytes|
    && v.bytes[a - v.base..a - v.base + 8] == Encode(w, 8)
  }

  ghost predicate StringsAt(v: View, low: nat, addrs: seq<nat>, ss: seq<Str>) {
    |addrs| == |ss| && forall i :: 0 <= i < |ss| ==> low <= addrs[i] && StringAt(v, addrs[i], ss[i])
  }

  ghost predicate PointersAt(v: View, a: nat, ptrs: seq<nat>) {
    forall i :: 0 <= i < |ptrs| ==> WordAt(v, a + 8 * i, ptrs[i])
  }

  /** Pointers and the NULL after them. */
  ghost predicate TerminatedAt(v: View, a: nat, ptrs: seq<nat>) {
    PointersAt(v, a, ptrs) && WordAt(v, a + 8 * |ptrs|, 0)
  }

  /** argc, argv, NULL, envp, NULL from `sp` upward. */
  ghost predicate VectorsAt(v: View, sp: nat, argv: seq<nat>, envp: seq<nat>) {
    && WordAt(v, sp, |argv|)
    && TerminatedAt(v, sp + 8, argv)
    && TerminatedAt(v, sp + 16 + 8 * |argv|, envp)
  }

  /** `w` holds what `v` held from address `a` up. */
  ghost predicate SameFrom(v: View, w: View, a: nat) {
    && v.base == w.base <= a <= v.base + |v.bytes| && |v.bytes| == |w.bytes|
    && forall i :: a - v.base <= i < |v.bytes| ==> v.bytes[i] == w.bytes[i]
  }

  /** ... and below address `a`. */
  ghost predicate SameBelow(v: View, w: View, a: nat) {
    && v.base == w.base <= a <= v.base + |v.bytes| && |v.bytes| == |w.bytes|
    && forall i :: 0 <= i < a - v.base ==> v.bytes[i] == w.bytes[i]
  }

  lemma StringStays(v: View, w: View, low: nat, a: nat, s: Str)
    requires StringAt(v, a, s) && SameFrom(v, w, low) && low <= a
    ensures StringAt(w, a, s)
  {
    SliceStays(v, w, low, a - v.base, |s| + 1);
    var m := v.bytes[a - v.base..a - v.base + |s| + 1];
    SliceParts(v.bytes, a - v.base, |s|, m);
    SliceParts(w.bytes, a - v.base, |s|, m);
  }

  lemma SliceStays(v: View, w: View, low: nat, i: nat, n: nat)
    requires SameFrom(v, w, low) && low - v.base <= i && i + n <= |v.bytes|
    ensures v.bytes[i..i + n] == w.bytes[i..i + n]
  {
    var x, y := v.bytes[i..i + n], w.bytes[i..i + n];
    forall k | 0 <= k < n ensures x[k] == y[k] {
      assert v.bytes[i + k] == w.bytes[i + k];
    }
  }

  lemma SliceParts(b: seq<byte>, i: nat, n: nat, m: seq<byte>)
    requires i + n + 1 <= |b| && m == b[i..i + n + 1]
    ensures b[i..i + n] == m[..n] && b[i + n] == m[n]
  {}

  lemma WordStays(v: View, w: View, low: nat, a: nat, x: nat)
    requires WordAt(v, a, x) && SameFrom(v, w, low) && low <= a
    ensures WordAt(w, a, x)
  {
    SliceStays(v, w, low, a - v.base, 8);
  }

  lemma Unchanged(v: View, a: nat)
    requires v.base <= a <= v.base + |v.bytes|
    ensures SameFrom(v, v, a) && SameBelow(v, v, a)
  {}

  lemma SameFromTransitive(u: View, v: View, w: View, a: nat, b: nat)
    requires SameFrom(u, v, a) && SameFrom(v, w, b) && b <= a
    ensures SameFrom(u, w, a)
  {}

  lemma SameBelowTransitive(u: View, v: View, w: View, a: nat, b: nat)
    requires SameBelow(u, v, a) && SameBelow(v, w, b) && b <= a
    ensures SameBelow(u, w, b)
  {}

  /** The four stack pages, based at the address the page allocator returned. */
  class Stack {
    const base: nat
    const mem: array<byte>

    constructor (base: nat, mem: array<byte>)
      ensures this.base == base && this.mem == mem
    {
      this.base := base;
      this.mem := mem;
    }

    ghost function Now(): View
      reads mem
    {
      View(base, mem[..])
    }

    /** One string: the loop body of lines 232-239 and 243-250. */
    method PushString(top: nat, s: Str) returns (t: nat)
      requires base + Padded(|s|) <= top <= base + mem.Length
      modifies mem
      ensures t == top - Padded(|s|)
      ensures StringAt(Now(), t, s)
      ensures SameFrom(old(Now()), Now(), top) && SameBelow(old(Now()), Now(), t)
    {
      var size := |s| + 1;
      size := size + (16 - size % 16);
      t := top - size;
      Copy(mem, t - base, s);
      ghost var m := mem[..];
      mem[t - base + |s|] := 0;
      assert mem[..] == m[t - base + |s| := 0];
    }

    /** *reinterpret_cast<u64*>(top -= 8) = w */
    method PushWord(top: nat, w: nat) returns (t: nat)
      requires base + 8 <= top <= base + mem.Length
      modifies mem
      ensures t == top - 8
      ensures WordAt(Now(), t, w)
      ensures SameFrom(old(Now()), Now(), top) && SameBelow(old(Now()), Now(), t)
    {
      t := top - 8;
      Copy(mem, t - base, Encode(w, 8));
    }

    /** A vector of strings, keeping track of their addresses. */
    method PushStrings(top: nat, ss: seq<Str>) returns (t: nat, addrs: seq<nat>)
      requires base + StringsNeed(ss) <= top <= base + mem.Length
      modifies mem
      ensures t == top - StringsNeed(ss) && |addrs| == |ss|
      ensures StringsAt(Now(), t, addrs, ss) && (ss != [] ==> addrs[|ss| - 1] == t)
      ensures SameFrom(old(Now()), Now(), top) && SameBelow(old(Now()), Now(), t)
    {
      hide StringsAt, StringAt, SameFrom, SameBelow, Padded;
      t, addrs := top, [];
      Unchanged(Now(), top);
      var k := 0;
      assert ss[..0] == [];
      NoStrings(Now(), top);
      while k < |ss|
        invariant 0 <= k <= |ss| && |addrs| == k
        invariant t == top - StringsNeed(ss[..k])
        invariant StringsNeed(ss[..k]) <= StringsNeed(ss)
        invariant StringsAt(Now(), t, addrs, ss[..k]) && (k > 0 ==> addrs[k - 1] == t)
        invariant SameFrom(old(Now()), Now(), top) && SameBelow(old(Now()), Now(), t)
      {
        assert ss[..k + 1][..k] == ss[..k];
        NeedMonotone(ss, k + 1);
        ghost var before, t0 := Now(), t;
        t := PushString(t, ss[k]);
        SameFromTransitive(old(Now()), before, Now(), top, t0);
        SameBelowTransitive(old(Now()), before, Now(), t0, t);
        OneStringMore(before, Now(), t0, t, addrs, ss, k);
        addrs := addrs + [t];
        k := k + 1;
      }
      assert ss[..k] == ss;
    }

    /** Pointers in reverse order of their vector, so that they read upward in order. */
    method PushPointers(top: nat, ptrs: seq<nat>) returns (t: nat)
      requires base + 8 * |ptrs| <= top <= base + mem.Length
      modifies mem
      ensures t == top - 8 * |ptrs|
      ensures PointersAt(Now(), t, ptrs)
      ensures SameFrom(old(Now()), Now(), top) && SameBelow(old(Now()), Now(), t)
    {
      hide WordAt, PointersAt, SameFrom, SameBelow;
      t := top;
      Unchanged(Now(), top);
      NoPointers(Now(), top);
      var k := |ptrs|;
      assert ptrs[k..] == [];
      while k > 0
        invariant 0 <= k <= |ptrs|
        invariant t == top - 8 * (|ptrs| - k)
        invariant PointersAt(Now(), t, ptrs[k..])
        invariant SameFrom(old(Now()), Now(), top) && SameBelow(old(Now()), Now(), t)
      {
        k := k - 1;
        ghost var before, t0 := Now(), t;
        t := PushWord(t, ptrs[k]);
        SameFromTransitive(old(Now()), before, Now(), top, t0);
        SameBelowTransitive(old(Now()), before, Now(), t0, t);
        PointersStay(before, Now(), t0, t0, ptrs[k + 1..]);
        OnePointerMore(Now(), t, ptrs[k], ptrs[k + 1..]);
        assert ptrs[k..] == [ptrs[k]] + ptrs[k + 1..];
      }
      assert ptrs[0..] == ptrs;
    }

    /** A NULL and, below it, the pointers it terminates. */
    method PushTerminated(top: nat, ptrs: seq<nat>) returns (t: nat)
      requires base + 8 * |ptrs| + 8 <= top <= base + mem.Length
      modifies mem
      ensures t == top - 8 * |ptrs| - 8
      ensures TerminatedAt(Now(), t, ptrs)
      ensures SameFrom(old(Now()), Now(), top) && SameBelow(old(Now()), Now(), t)
    {
      hide WordAt, PointersAt, SameFrom, SameBelow;
      ghost var v0 := Now();
      var t1 := PushWord(top, 0);
      ghost var v1 := Now();
      t := PushPointers(t1, ptrs);
      ghost var v := Now();
      SameFromTransitive(v0, v1, v, top, t1);
      SameBelowTransitive(v0, v1, v, t1, t);
      WordStays(v1, v, t1, t1, 0);
    }

    /** Lines 255-258. */
    method PushAlignment(top: nat, slots: nat) returns (t: nat)
      requires base + AlignmentWord(slots) <= top <= base + mem.Length
      modifies mem
      ensures t == top - AlignmentWord(slots) && (slots % 2 != 0 ==> WordAt(Now(), t, 0))
      ensures SameFrom(old(Now()), Now(), top) && SameBelow(old(Now()), Now(), t)
    {
      t := top;
      if slots % 2 != 0 {
        t := PushWord(top, 0);
      }
    }

    /** Lines 252-285: the alignment word, then envp, argv and argc. */
    method PushVectors(top: nat, argv: seq<nat>, envp: seq<nat>) returns (sp: nat)
      requires base + VectorsNeed(|argv|, |envp|) <= top <= base + mem.Length
      modifies mem
      ensures sp == top - VectorsNeed(|argv|, |envp|)
      ensures VectorsAt(Now(), sp, argv, envp)
      ensures (|argv| + |envp|) % 2 == 0 ==> WordAt(Now(), BehindVectors(sp, |argv|, |envp|), 0)
      ensures (|argv| + |envp|) % 2 != 0 ==> BehindVectors(sp, |argv|, |envp|) == top
      ensures SameFrom(old(Now()), Now(), top) && SameBelow(old(Now()), Now(), sp)
    {
      hide WordAt, TerminatedAt, SameFrom, SameBelow, AlignmentWord;
      SlotParity(|argv|, |envp|);
      ghost var v0 := Now();
      var t1 := PushAlignment(top, |envp| + 1 + |argv| + 1 + 1);
      ghost var v1 := Now();
      var t2 := PushTerminated(t1, envp);
      ghost var v2 := Now();
      var t3 := PushTerminated(t2, argv);
      ghost var v3 := Now();
      sp := PushWord(t3, |argv|);
      ghost var v := Now();

      SameFromTransitive(v2, v3, v, t2, t3);
      SameFromTransitive(v1, v2, v, t1, t2);
      SameFromTransitive(v0, v1, v, top, t1);
      SameBelowTransitive(v0, v1, v2, t1, t2);
      SameBelowTransitive(v0, v2, v3, t2, t3);
      SameBelowTransitive(v0, v3, v, t3, sp);
      TerminatedStays(v2, v, t2, t2, envp);
      TerminatedStays(v3, v, t3, t3, argv);
      if (|argv| + |envp|) % 2 == 0 {
        WordStays(v1, v, t1, t1, 0);
      }
    }

    /** Lines 217-310.  `Parse` at the final stack pointer recovers the arguments and the
        environment, the pointer is 16-byte aligned (so neither panic is reachable), and nothing
        below it was written.  The source never checks that the block fits; the caller must. */
    method Build(args: seq<Str>, env: seq<Str>) returns (sp: nat)
      requires base > 0 && base % PAGE_SIZE == 0 && mem.Length == STACK_SIZE
      requires base + STACK_SIZE <= TWO_TO_THE_64
      requires Need(args, env) <= STACK_SIZE
      modifies mem
      ensures sp == base + STACK_SIZE - Need(args, env) && sp % 16 == 0
      ensures Parse(Now(), sp) == Some(Image(Visible(args), Visible(env)))
      ensures SameBelow(old(Now()), Now(), sp)
      ensures NoAuxiliary(Now(), BehindVectors(sp, |args|, |env|), args, env)
    {
      hide NoAuxiliary, BehindVectors, WordAt, StringsAt, VectorsAt, SameFrom;
      hide SameBelow, StringsNeed, VectorsNeed, Parse, Visible;
      ghost var v0 := Now();
      var t1, envp := PushStrings(base + STACK_SIZE, env);
      ghost var v1 := Now();
      var t2, argv := PushStrings(t1, args);
      ghost var v2 := Now();
      sp := PushVectors(t2, argv, envp);
      ghost var v := Now();

      SameFromTransitive(v1, v2, v, t1, t2);
      StringsStay(v1, v, t1, envp, env);
      StringsStay(v2, v, t2, argv, args);
      SameBelowTransitive(v0, v1, v2, t1, t2);
      SameBelowTransitive(v0, v2, v, t2, sp);
      ParseLaid(v, sp, args, env, argv, envp);
      Aligned(base, args, env);
      NothingNeeded();
      Behind(v, sp, t1, t2, argv, envp, args, env);
    }
  }

  lemma {:induction false} NeedMonotone(ss: seq<Str>, k: nat)
    requires k <= |ss|
    ensures StringsNeed(ss[..k]) <= StringsNeed(ss)
    decreases |ss| - k
  {
    if k < |ss| {
      assert ss[..k + 1][..k] == ss[..k];
      NeedMonotone(ss, k + 1);
    } else {
      assert ss[..k] == ss;
    }
  }

  lemma {:induction false} NeedAligned(ss: seq<Str>)
    ensures StringsNeed(ss) % 16 == 0
  {
    hide Padded;
    if ss != [] {
      NeedAligned(ss[..|ss| - 1]);
      SumAligned(StringsNeed(ss[..|ss| - 1]), Padded(|ss[|ss| - 1]|));
    }
  }

  lemma VectorsAligned(argc: nat, envc: nat)
    ensures VectorsNeed(argc, envc) % 16 == 0
  {}

  lemma SumAligned(a: nat, b: nat)
    requires a % 16 == 0 && b % 16 == 0
    ensures (a + b) % 16 == 0
  {}

  lemma Sixteens(x: int)
    ensures (16 * x) % 16 == 0
  {}

  lemma DifferenceAligned(a: nat, b: nat, c: nat, d: nat)
    requires a % 16 == 0 && b % 16 == 0 && c % 16 == 0 && d % 16 == 0
    ensures (a - (b + c + d)) % 16 == 0
  {
    var q := a / 16 - (b / 16 + c / 16 + d / 16);
    assert a == 16 * (a / 16) && b == 16 * (b / 16) && c == 16 * (c / 16) && d == 16 * (d / 16);
    Sixteens(q);
  }

  lemma PageAligned(base: nat)
    requires base % PAGE_SIZE == 0
    ensures (base + STACK_SIZE) % 16 == 0
  {
    var q := base / PAGE_SIZE;
    assert base == 4096 * q;
    Sixteens(256 * q + 1024);
  }

  lemma Aligned(base: nat, args: seq<Str>, env: seq<Str>)
    requires base % PAGE_SIZE == 0 && Need(args, env) <= base + STACK_SIZE
    ensures (base + STACK_SIZE - Need(args, env)) % 16 == 0
  {
    hide StringsNeed, VectorsNeed;
    NeedAligned(env);
    NeedAligned(args);
    VectorsAligned(|args|, |env|);
    PageAligned(base);
    DifferenceAligned(base + STACK_SIZE, StringsNeed(env), StringsNeed(args), VectorsNeed(|args|, |env|));
  }

  // ------------------------------------------------- what the reader recovers

  lemma OneOfStrings(v: View, low: nat, addrs: seq<nat>, ss: seq<Str>, i: nat)
    requires StringsAt(v, low, addrs, ss) && i < |ss|
    ensures |addrs| == |ss| && StringAt(v, addrs[i], ss[i])
  {}

  /** Where a string with a visible character stands, a reader of words finds something other than zero. */
  lemma StringIsNoTerminator(v: View, a: nat, s: Str)
    requires StringAt(v, a, s) && s != [] && s[0] != 0
    ensures ReadWord(v, a) != Some(0)
  {
    var i := a - v.base;
    assert v.bytes[i] == v.bytes[i..i + |s|][0];
    if ReadWord(v, a) == Some(0) {
      ZeroWord(v.bytes[i..i + 8]);
      assert false;
    }
  }

  lemma NothingNeeded()
    ensures StringsNeed([]) == 0
  {}

  /** The loader writes no auxiliary vector.  Where it would begin, at `a`, stand its terminator if the number of
      strings is even and the last string that was pushed if it is odd. */
  ghost predicate NoAuxiliary(v: View, a: nat, args: seq<Str>, env: seq<Str>) {
    if (|args| + |env|) % 2 == 0 then ReadWord(v, a) == Some(0)
    else StringAt(v, a, if args != [] then args[|args| - 1] else env[|env| - 1])
  }

  lemma Behind(v: View, sp: nat, t1: nat, t2: nat, argv: seq<nat>, envp: seq<nat>, args: seq<Str>, env: seq<Str>)
    requires StringsAt(v, v.base, argv, args) && StringsAt(v, v.base, envp, env)
    requires (args != [] ==> argv[|args| - 1] == t2) && (env != [] ==> envp[|env| - 1] == t1)
    requires args == [] ==> t2 == t1
    requires var a := BehindVectors(sp, |args|, |env|);
             if (|args| + |env|) % 2 == 0 then WordAt(v, a, 0) else a == t2
    ensures NoAuxiliary(v, BehindVectors(sp, |args|, |env|), args, env)
  {
    hide BehindVectors, WordAt, ReadWord, StringAt;
    if (|args| + |env|) % 2 == 0 {
      ReadWordAt(v, BehindVectors(sp, |args|, |env|), 0);
    } else if args != [] {
      OneOfStrings(v, v.base, argv, args, |args| - 1);
    } else {
      OneOfStrings(v, v.base, envp, env, |env| - 1);
    }
  }

  lemma NoStrings(v: View, low: nat)
    ensures StringsAt(v, low, [], [])
  {}

  lemma OneStringMore(v: View, w: View, low: nat, t: nat, addrs: seq<nat>, ss: seq<Str>, k: nat)
    requires k < |ss| && StringsAt(v, low, addrs, ss[..k]) && SameFrom(v, w, low)
    requires t <= low && StringAt(w, t, ss[k])
    ensures StringsAt(w, t, addrs + [t], ss[..k + 1])
  {
    hide StringAt, SameFrom;
    forall i | 0 <= i < k ensures StringAt(w, addrs[i], ss[i]) {
      assert ss[..k][i] == ss[i];
      StringStays(v, w, low, addrs[i], ss[i]);
    }
  }

  lemma StringsStay(v: View, w: View, low: nat, addrs: seq<nat>, ss: seq<Str>)
    requires StringsAt(v, low, addrs, ss) && SameFrom(v, w, low)
    ensures StringsAt(w, w.base, addrs, ss)
  {
    assert w.base <= low;
    hide StringAt, SameFrom;
    forall i | 0 <= i < |ss| ensures StringAt(w, addrs[i], ss[i]) {
      StringStays(v, w, low, addrs[i], ss[i]);
    }
  }

  lemma PointersStay(v: View, w: View, low: nat, a: nat, ptrs: seq<nat>)
    requires PointersAt(v, a, ptrs) && SameFrom(v, w, low) && low <= a
    ensures PointersAt(w, a, ptrs)
  {
    hide WordAt, SameFrom;
    forall i | 0 <= i < |ptrs| ensures WordAt(w, a + 8 * i, ptrs[i]) {
      WordStays(v, w, low, a + 8 * i, ptrs[i]);
    }
  }

  lemma TerminatedStays(v: View, w: View, low: nat, a: nat, ptrs: seq<nat>)
    requires TerminatedAt(v, a, ptrs) && SameFrom(v, w, low) && low <= a
    ensures TerminatedAt(w, a, ptrs)
  {
    hide WordAt, SameFrom, PointersAt;
    PointersStay(v, w, low, a, ptrs);
    WordStays(v, w, low, a + 8 * |ptrs|, 0);
  }

  lemma NoPointers(v: View, a: nat)
    ensures PointersAt(v, a, [])
  {}

  lemma OnePointerMore(v: View, a: nat, p: nat, rest: seq<nat>)
    requires WordAt(v, a, p) && PointersAt(v, a + 8, rest)
    ensures PointersAt(v, a, [p] + rest)
  {
    hide WordAt;
    var ptrs := [p] + rest;
    forall i | 0 <= i < |ptrs| ensures WordAt(v, a + 8 * i, ptrs[i]) {
      if i > 0 {
        assert WordAt(v, a + 8 + 8 * (i - 1), rest[i - 1]);
      }
    }
  }

  lemma ReadWordAt(v: View, a: nat, x: nat)
    requires WordAt(v, a, x) && x < TWO_TO_THE_64
    ensures ReadWord(v, a) == Some(x)
  {
    Word64(x);
  }

  lemma {:induction false} ReadStringAt(m: seq<byte>, i: nat, s: Str)
    requires i + |s| < |m| && m[i..i + |s|] == s && m[i + |s|] == 0
    ensures ReadString(m, i) == Some(UpToNul(s))
    decreases |s|
  {
    if s != [] {
      assert m[i] == s[0];
      assert m[i + 1..i + 1 + |s[1..]|] == m[i..i + |s|][1..];
      if s[0] != 0 {
        ReadStringAt(m, i + 1, s[1..]);
      }
    }
  }

  lemma {:induction false} ReadStringsAt(v: View, low: nat, addrs: seq<nat>, ss: seq<Str>)
    requires StringsAt(v, low, addrs, ss)
    ensures ReadStrings(v, addrs) == Some(Visible(ss))
    decreases |ss|
  {
    if ss == [] {
      assert Visible(ss) == [];
    } else {
      assert StringAt(v, addrs[0], ss[0]);
      ReadStringAt(v.bytes, addrs[0] - v.base, ss[0]);
      assert forall i :: 0 <= i < |ss[1..]| ==> StringAt(v, addrs[1..][i], ss[1..][i]);
      ReadStringsAt(v, low, addrs[1..], ss[1..]);
      assert Visible(ss) == [UpToNul(ss[0])] + Visible(ss[1..]);
    }
  }

  lemma {:induction false} ReadPointersAt(v: View, a: nat, ptrs: seq<nat>)
    requires PointersAt(v, a, ptrs)
    requires forall i :: 0 <= i < |ptrs| ==> ptrs[i] < TWO_TO_THE_64
    ensures ReadPointers(v, a, |ptrs|) == Some(ptrs)
    decreases |ptrs|
  {
    hide WordAt, ReadWord;
    if ptrs != [] {
      assert WordAt(v, a + 8 * 0, ptrs[0]);
      ReadWordAt(v, a, ptrs[0]);
      forall i | 0 <= i < |ptrs[1..]| ensures WordAt(v, a + 8 + 8 * i, ptrs[1..][i]) {
        assert WordAt(v, a + 8 * (i + 1), ptrs[i + 1]);
      }
      ReadPointersAt(v, a + 8, ptrs[1..]);
      assert ptrs == [ptrs[0]] + ptrs[1..];
    }
  }

  lemma {:induction false} ReadUntilNullAt(v: View, a: nat, ptrs: seq<nat>)
    requires PointersAt(v, a, ptrs) && WordAt(v, a + 8 * |ptrs|, 0)
    requires forall i :: 0 <= i < |ptrs| ==> 0 < ptrs[i] < TWO_TO_THE_64
    ensures ReadUntilNull(v, a) == Some(ptrs)
    decreases |ptrs|
  {
    hide WordAt, ReadWord;
    if ptrs == [] {
      ReadWordAt(v, a, 0);
    } else {
      assert WordAt(v, a + 8 * 0, ptrs[0]);
      ReadWordAt(v, a, ptrs[0]);
      forall i | 0 <= i < |ptrs[1..]| ensures WordAt(v, a + 8 + 8 * i, ptrs[1..][i]) {
        assert WordAt(v, a + 8 * (i + 1), ptrs[i + 1]);
      }
      ReadUntilNullAt(v, a + 8, ptrs[1..]);
      assert ptrs == [ptrs[0]] + ptrs[1..];
    }
  }

  /** The ABI's layout is read back. */
  lemma ParseLaid(v: View, sp: nat, args: seq<Str>, env: seq<Str>, argv: seq<nat>, envp: seq<nat>)
    requires 0 < v.base && v.base + |v.bytes| <= TWO_TO_THE_64
    requires VectorsAt(v, sp, argv, envp)
    requires StringsAt(v, v.base, argv, args) && StringsAt(v, v.base, envp, env)
    ensures Parse(v, sp) == Some(Image(Visible(args), Visible(env)))
  {
    hide WordAt, StringsAt, PointersAt, ReadWord, ReadPointers, ReadStrings, ReadUntilNull, Visible;
    AddressesFit(v, v.base, argv, args);
    AddressesFit(v, v.base, envp, env);
    PointersFit(v, sp + 8, argv);
    ReadWordAt(v, sp, |args|);
    ReadPointersAt(v, sp + 8, argv);
    ReadWordAt(v, sp + 8 + 8 * |args|, 0);
    ReadUntilNullAt(v, sp + 16 + 8 * |args|, envp);
    ReadStringsAt(v, v.base, argv, args);
    ReadStringsAt(v, v.base, envp, env);
  }

  lemma AddressesFit(v: View, low: nat, addrs: seq<nat>, ss: seq<Str>)
    requires StringsAt(v, low, addrs, ss)
    ensures |addrs| == |ss|
    ensures forall i :: 0 <= i < |addrs| ==> v.base <= addrs[i] < v.base + |v.bytes|
  {
    forall i | 0 <= i < |addrs| ensures v.base <= addrs[i] < v.base + |v.bytes| {
      assert StringAt(v, addrs[i], ss[i]);
    }
  }

  lemma PointersFit(v: View, a: nat, ptrs: seq<nat>)
    requires PointersAt(v, a, ptrs)
    ensures 8 * |ptrs| <= v.base + |v.bytes|
  {
    if ptrs != [] {
      assert WordAt(v, a + 8 * (|ptrs| - 1), ptrs[|ptrs| - 1]);
    }
  }

  /** A string reaches the process unchanged exactly when it holds no NUL byte. */
  lemma {:induction false} VisibleInFull(s: Str)
    ensures UpToNul(s) == s <==> 0 !in s
  {
    if s != [] {
      VisibleInFull(s[1..]);
      assert s == [s[0]] + s[1..];
      if s[0] == 0 {
        assert |UpToNul(s)| != |s|;
      }
    }
  }

  lemma {:induction false} ReadPointersLength(v: View, a: nat, n: nat)
    ensures ReadPointers(v, a, n).Some? ==> |ReadPointers(v, a, n).value| == n
    decreases n
  {
    if n > 0 {
      ReadPointersLength(v, a + 8, n - 1);
    }
  }

  lemma {:induction false} ReadStringsLength(v: View, ptrs: seq<nat>)
    ensures ReadStrings(v, ptrs).Some? ==> |ReadStrings(v, ptrs).value| == |ptrs|
  {
    if ptrs != [] {
      ReadStringsLength(v, ptrs[1..]);
    }
  }

  /** The reader takes argc for the number of arguments. */
  lemma ParseArgc(v: View, sp: nat)
    requires Parse(v, sp).Some?
    ensures ReadWord(v, sp) == Some(|Parse(v, sp).value.args|)
  {
    hide ReadWord, ReadPointers, ReadUntilNull, ReadStrings;
    var argc := ReadWord(v, sp).value;
    ReadPointersLength(v, sp + 8, argc);
    ReadStringsLength(v, ReadPointers(v, sp + 8, argc).value);
  }

  /** The byte at the stack pointer of a process without arguments. */
  lemma ArgcByte(v: View, sp: nat, image: Image)
    requires Parse(v, sp) == Some(image) && image.args == []
    ensures v.base <= sp < v.base + |v.bytes| && v.bytes[sp - v.base] == 0
  {
    hide Parse;
    ParseArgc(v, sp);
    var w := v.bytes[sp - v.base..sp - v.base + 8];
    ZeroWord(w);
    assert v.bytes[sp - v.base] == w[0];
  }

  lemma ZeroWord(w: seq<byte>)
    requires |w| == 8 && Decode(w) == 0
    ensures w[0] == 0
  {}
}
