/** The two self-relocators (gnu-efi/gnuefi/reloc_x86_64.c:43-98, gnu-efi/gnuefi/reloc_aarch64.c:42-97).

    Both scan the dynamic section for a relocation table and walk it.  For a RELATIVE entry the x86_64 one adds
    the load address to the word it names; the aarch64 one stores load address plus addend there. */
module Relocate {
  import opened Basics
  import opened Bytes

  datatype Status = Success | LoadError

  datatype Arch = X86 | Aarch64

  const DT_NULL := 0
  const DT_RELA := 7
  const DT_RELASZ := 8
  const DT_RELAENT := 9

  /** The type of a RELATIVE entry. */
  function RelativeType(arch: Arch): nat {
    if arch.X86? then 8 else 1027
  }

  /** How much of an entry is looked at: offset, info and, on aarch64, addend. */
  function EntrySize(arch: Arch): nat {
    if arch.X86? then 16 else 24
  }

  function Add64(a: nat, b: nat): nat {
    (a + b) % TWO_TO_THE_64
  }

  /** An unsigned 64-bit value in a `long`. */
  function Signed(v: nat): int {
    if v < 0x8000_0000_0000_0000 then v else v - TWO_TO_THE_64
  }

  function Word(mem: seq<byte>, a: nat): nat
    requires a + 8 <= |mem|
  {
    Decode(mem[a..a + 8])
  }

  // ------------------------------------------------------ the dynamic section

  datatype Dyn = Dyn(tag: nat, val: nat)

  /** The value of the last of the first `n` entries with the given tag. */
  function LastOf(dyn: seq<Dyn>, n: nat, tag: nat, default: nat): nat
    requires n <= |dyn|
  {
    if n == 0 then default
    else if dyn[n - 1].tag == tag then dyn[n - 1].val
    else LastOf(dyn, n - 1, tag, default)
  }

  lemma {:induction false} LastMeaning(dyn: seq<Dyn>, n: nat, tag: nat, default: nat, i: nat)
    requires i < n <= |dyn| && dyn[i].tag == tag && forall j :: i < j < n ==> dyn[j].tag != tag
    ensures LastOf(dyn, n, tag, default) == dyn[i].val
    decreases n
  {
    if i < n - 1 {
      LastMeaning(dyn, n - 1, tag, default, i);
    }
  }

  /** The number of entries before the terminator. */
  function Terminator(dyn: seq<Dyn>): (n: nat)
    requires exists i :: 0 <= i < |dyn| && dyn[i].tag == DT_NULL
    ensures n < |dyn| && dyn[n].tag == DT_NULL && forall i :: 0 <= i < n ==> dyn[i].tag != DT_NULL
  {
    if dyn[0].tag == DT_NULL then 0 else
      assert exists i :: 0 <= i < |dyn[1..]| && dyn[1..][i].tag == DT_NULL by {
        var i :| 0 <= i < |dyn| && dyn[i].tag == DT_NULL;
        assert dyn[1..][i - 1].tag == DT_NULL;
      }
      1 + Terminator(dyn[1..])
  }

  /** What the scan finds: where the table is, its size, and the size of an entry; 0 for what is missing. */
  datatype Table = Table(rel: nat, size: int, stride: int)

  function Found(dyn: seq<Dyn>, base: nat): Table
    requires exists i :: 0 <= i < |dyn| && dyn[i].tag == DT_NULL
  {
    var n := Terminator(dyn);
    Table(if exists i :: 0 <= i < n && dyn[i].tag == DT_RELA then Add64(LastOf(dyn, n, DT_RELA, 0), base) else 0,
          Signed(LastOf(dyn, n, DT_RELASZ, 0)), Signed(LastOf(dyn, n, DT_RELAENT, 0)))
  }

  method ScanDynamic(base: nat, dyn: seq<Dyn>) returns (t: Table)
    requires exists i :: 0 <= i < |dyn| && dyn[i].tag == DT_NULL
    ensures t == Found(dyn, base)
  {
    hide Signed, Add64;
    ghost var n := Terminator(dyn);
    var rel, relsz, relent := 0, Signed(0), Signed(0);
    var i := 0;
    while dyn[i].tag != DT_NULL
      invariant 0 <= i <= n
      invariant rel ==
                if exists j :: 0 <= j < i && dyn[j].tag == DT_RELA then Add64(LastOf(dyn, i, DT_RELA, 0), base) else 0
      invariant relsz == Signed(LastOf(dyn, i, DT_RELASZ, 0)) && relent == Signed(LastOf(dyn, i, DT_RELAENT, 0))
      decreases n - i
    {
      if dyn[i].tag == DT_RELA {
        rel := Add64(dyn[i].val, base);
      } else if dyn[i].tag == DT_RELASZ {
        relsz := Signed(dyn[i].val);
      } else if dyn[i].tag == DT_RELAENT {
        relent := Signed(dyn[i].val);
      }
      i := i + 1;
    }
    t := Table(rel, relsz, relent);
  }

  // --------------------------------------------------------- what the table asks

  /** One entry: whether it is RELATIVE, the word it names, and what that word should become. */
  datatype Fixup = Fixup(applies: bool, target: nat, value: nat)

  /** An entry as the table holds it; x86_64 does not look at the addend. */
  datatype Entry = Entry(offset: nat, info: nat, addend: nat)

  function EntryAt(mem: seq<byte>, arch: Arch, at: nat): Entry
    requires at + EntrySize(arch) <= |mem|
  {
    Entry(Word(mem, at), Word(mem, at + 8), if arch.Aarch64? then Word(mem, at + 16) else 0)
  }

  function FixupOf(mem: seq<byte>, base: nat, arch: Arch, e: Entry): Fixup {
    if e.info % 0x1_0000_0000 != RelativeType(arch) then Fixup(false, 0, 0)
    else
      var target := Add64(base, e.offset);
      Fixup(true, target,
            if arch.Aarch64? then Add64(base, e.addend)
            else if target + 8 <= |mem| then Add64(Word(mem, target), base) else 0)
  }

  function FixupAt(mem: seq<byte>, base: nat, arch: Arch, at: nat): Fixup
    requires at + EntrySize(arch) <= |mem|
  {
    FixupOf(mem, base, arch, EntryAt(mem, arch, at))
  }

  /** The table lies in memory. */
  predicate Fits(length: nat, arch: Arch, at: nat, size: int, stride: nat)
    requires stride > 0
    decreases if size > 0 then size else 0
  {
    size <= 0 || (at + EntrySize(arch) <= length && Fits(length, arch, at + stride, size - stride, stride))
  }

  /** The entries of the table, in order. */
  function Fixups(mem: seq<byte>, base: nat, arch: Arch, at: nat, size: int, stride: nat): seq<Fixup>
    requires stride > 0 && Fits(|mem|, arch, at, size, stride)
    decreases if size > 0 then size else 0
  {
    if size <= 0 then []
    else [FixupAt(mem, base, arch, at)] + Fixups(mem, base, arch, at + stride, size - stride, stride)
  }

  /** The word at `target` is no part of the table. */
  predicate OutsideTable(target: nat, arch: Arch, at: nat, size: int, stride: nat)
    requires stride > 0
    decreases if size > 0 then size else 0
  {
    || size <= 0
    || (&& (target + 8 <= at || at + EntrySize(arch) <= target)
        && OutsideTable(target, arch, at + stride, size - stride, stride))
  }

  /** Byte `p` belongs to the word that `f` changes. */
  predicate Touches(f: Fixup, p: int) {
    f.applies && f.target <= p < f.target + 8
  }

  /** The words the entries name lie in memory and do not overlap. */
  ghost predicate Separate(length: nat, fs: seq<Fixup>) {
    && (forall j :: 0 <= j < |fs| && fs[j].applies ==> fs[j].target + 8 <= length)
    && (forall i, j :: 0 <= i < j < |fs| && fs[i].applies && fs[j].applies ==>
          fs[i].target + 8 <= fs[j].target || fs[j].target + 8 <= fs[i].target)
  }

  /** The specification: every word an entry names holds its value, and nothing else has changed. */
  ghost predicate Relocated(now: seq<byte>, was: seq<byte>, fs: seq<Fixup>) {
    && |now| == |was|
    && (forall j :: 0 <= j < |fs| && fs[j].applies ==>
          fs[j].target + 8 <= |now| && Word(now, fs[j].target) == fs[j].value)
    && (forall p :: 0 <= p < |now| && Untouched(fs, p) ==> now[p] == was[p])
  }

  ghost predicate Untouched(fs: seq<Fixup>, p: int) {
    forall j :: 0 <= j < |fs| ==> !Touches(fs[j], p)
  }

  // ---------------------------------------------------------------- one store

  function Store(mem: seq<byte>, a: nat, v: nat): (r: seq<byte>)
    requires a + 8 <= |mem|
    ensures |r| == |mem|
  {
    mem[..a] + Encode(v, 8) + mem[a + 8..]
  }

  lemma StoreWord(mem: seq<byte>, a: nat, v: nat)
    requires a + 8 <= |mem| && v < TWO_TO_THE_64
    ensures Word(Store(mem, a, v), a) == v
  {
    hide Encode, Decode;
    assert Store(mem, a, v)[a..a + 8] == Encode(v, 8);
    Word64(v);
  }

  lemma StoreElsewhere(mem: seq<byte>, a: nat, v: nat, b: nat)
    requires a + 8 <= |mem| && b + 8 <= |mem| && (a + 8 <= b || b + 8 <= a)
    ensures Word(Store(mem, a, v), b) == Word(mem, b)
  {
    hide Decode;
    var m := Store(mem, a, v);
    var x, y := m[b..b + 8], mem[b..b + 8];
    forall i | 0 <= i < 8 ensures x[i] == y[i] {
      StoreByte(mem, a, v, b + i);
    }
    assert x == y;
  }

  /** One more entry carried out. */
  lemma RelocateNext(now: seq<byte>, was: seq<byte>, fs: seq<Fixup>, n: nat)
    requires n < |fs| && Separate(|was|, fs) && Relocated(now, was, fs[..n]) && fs[n].value < TWO_TO_THE_64
    ensures Relocated(if fs[n].applies then Store(now, fs[n].target, fs[n].value) else now, was, fs[..n + 1])
  {
    hide Store, Word;
    var next := if fs[n].applies then Store(now, fs[n].target, fs[n].value) else now;
    var done := fs[..n + 1];
    forall j | 0 <= j < |done| && done[j].applies
      ensures done[j].target + 8 <= |next| && Word(next, done[j].target) == done[j].value
    {
      NextWord(now, was, fs, n, j);
    }
    forall p | 0 <= p < |next| && Untouched(done, p) ensures next[p] == was[p] {
      NextByte(now, was, fs, n, p);
    }
  }

  lemma NextWord(now: seq<byte>, was: seq<byte>, fs: seq<Fixup>, n: nat, j: nat)
    requires j <= n < |fs| && Separate(|was|, fs) && Relocated(now, was, fs[..n]) && fs[n].value < TWO_TO_THE_64
    requires fs[j].applies
    ensures fs[j].target + 8 <= |was|
    ensures Word(if fs[n].applies then Store(now, fs[n].target, fs[n].value) else now, fs[j].target) == fs[j].value
  {
    hide Store, Word, Untouched;
    if j < n {
      assert fs[..n][j] == fs[j];
      if fs[n].applies {
        StoreElsewhere(now, fs[n].target, fs[n].value, fs[j].target);
      }
    } else {
      StoreWord(now, fs[n].target, fs[n].value);
    }
  }

  lemma NextByte(now: seq<byte>, was: seq<byte>, fs: seq<Fixup>, n: nat, p: nat)
    requires n < |fs| && Separate(|was|, fs) && Relocated(now, was, fs[..n])
    requires p < |was| && Untouched(fs[..n + 1], p)
    ensures (if fs[n].applies then Store(now, fs[n].target, fs[n].value) else now)[p] == was[p]
  {
    hide Store, Word;
    var done := fs[..n + 1];
    assert done[n] == fs[n] && !Touches(done[n], p);
    forall j | 0 <= j < n ensures !Touches(fs[..n][j], p) {
      assert fs[..n][j] == done[j];
    }
    assert Untouched(fs[..n], p);
    if fs[n].applies {
      StoreByte(now, fs[n].target, fs[n].value, p);
    }
  }

  lemma StoreByte(mem: seq<byte>, a: nat, v: nat, p: nat)
    requires a + 8 <= |mem| && p < |mem| && !(a <= p < a + 8)
    ensures Store(mem, a, v)[p] == mem[p]
  {
    hide Encode;
  }

  /** Words that no entry names still hold what they held. */
  lemma WordKept(now: seq<byte>, was: seq<byte>, fs: seq<Fixup>, a: nat)
    requires Relocated(now, was, fs) && a + 8 <= |was|
    requires forall j :: 0 <= j < |fs| && fs[j].applies ==> fs[j].target + 8 <= a || a + 8 <= fs[j].target
    ensures Word(now, a) == Word(was, a)
  {
    hide Decode;
    var x, y := now[a..a + 8], was[a..a + 8];
    forall i | 0 <= i < 8 ensures x[i] == y[i] {
      assert Untouched(fs, a + i);
    }
    assert x == y;
  }

  /** An entry that no word named so far overlaps reads as it did at first. */
  lemma EntryKept(now: seq<byte>, was: seq<byte>, fs: seq<Fixup>, n: nat, base: nat, arch: Arch, at: nat)
    requires n < |fs| && Separate(|was|, fs) && Relocated(now, was, fs[..n]) && at + EntrySize(arch) <= |was|
    requires forall j :: 0 <= j < |fs| && fs[j].applies ==>
               fs[j].target + 8 <= at || at + EntrySize(arch) <= fs[j].target
    requires fs[n] == FixupAt(was, base, arch, at)
    ensures Word(now, at) == Word(was, at) && Word(now, at + 8) == Word(was, at + 8)
    ensures arch.Aarch64? ==> Word(now, at + 16) == Word(was, at + 16)
    ensures fs[n].applies ==> Word(now, fs[n].target) == Word(was, fs[n].target)
    ensures fs[n].value < TWO_TO_THE_64
  {
    WordKept(now, was, fs[..n], at);
    WordKept(now, was, fs[..n], at + 8);
    if arch.Aarch64? {
      WordKept(now, was, fs[..n], at + 16);
    }
    if fs[n].applies {
      WordKept(now, was, fs[..n], fs[n].target);
    }
  }

  // ------------------------------------------------------------- the relocators

  /** The iteration of lines 80-97 for x86_64: the addend is the word itself. */
  method StepX86(memory: array<byte>, base: nat, at: nat, ghost was: seq<byte>, ghost fs: seq<Fixup>, ghost n: nat)
    requires n < |fs| && Separate(|was|, fs) && Relocated(memory[..], was, fs[..n])
    requires at + EntrySize(X86) <= memory.Length == |was| && fs[n] == FixupAt(was, base, X86, at)
    requires forall j :: 0 <= j < |fs| && fs[j].applies ==>
               fs[j].target + 8 <= at || at + EntrySize(X86) <= fs[j].target
    modifies memory
    ensures Relocated(memory[..], was, fs[..n + 1])
  {
    hide Add64, Relocated, Separate, Decode, Encode;
    ghost var now := memory[..];
    SeparateAt(was, fs, n);
    EntryKept(now, was, fs, n, base, X86, at);
    RelocateNext(now, was, fs, n);
    SameWord(memory, at);
    SameWord(memory, at + 8);
    if Decode(memory[at + 8..at + 16]) % 0x1_0000_0000 == RelativeType(X86) {
      var addr := Add64(base, Decode(memory[at..at + 8]));
      SameWord(memory, addr);
      var v := Add64(Decode(memory[addr..addr + 8]), base);
      Copy(memory, addr, Encode(v, 8));
    }
  }

  /** The same iteration for aarch64: the addend is in the table. */
  method StepAarch64(memory: array<byte>, base: nat, at: nat, ghost was: seq<byte>, ghost fs: seq<Fixup>, ghost n: nat)
    requires n < |fs| && Separate(|was|, fs) && Relocated(memory[..], was, fs[..n])
    requires at + EntrySize(Aarch64) <= memory.Length == |was| && fs[n] == FixupAt(was, base, Aarch64, at)
    requires forall j :: 0 <= j < |fs| && fs[j].applies ==>
               fs[j].target + 8 <= at || at + EntrySize(Aarch64) <= fs[j].target
    modifies memory
    ensures Relocated(memory[..], was, fs[..n + 1])
  {
    hide Add64, Relocated, Separate, Decode, Encode;
    ghost var now := memory[..];
    SeparateAt(was, fs, n);
    EntryKept(now, was, fs, n, base, Aarch64, at);
    RelocateNext(now, was, fs, n);
    SameWord(memory, at);
    SameWord(memory, at + 8);
    SameWord(memory, at + 16);
    if Decode(memory[at + 8..at + 16]) % 0x1_0000_0000 == RelativeType(Aarch64) {
      var addr := Add64(base, Decode(memory[at..at + 8]));
      var v := Add64(base, Decode(memory[at + 16..at + 24]));
      Copy(memory, addr, Encode(v, 8));
    }
  }

  lemma SeparateAt(was: seq<byte>, fs: seq<Fixup>, n: nat)
    requires n < |fs| && Separate(|was|, fs)
    ensures fs[n].applies ==> fs[n].target + 8 <= |was|
  {}

  lemma SameWord(memory: array<byte>, a: nat)
    requires a + 8 <= memory.Length
    ensures memory[..][a..a + 8] == memory[a..a + 8]
  {}

  /** What the table found asks for; nothing, when there is none. */
  function Asked(mem: seq<byte>, base: nat, arch: Arch, t: Table): seq<Fixup>
    requires WellFormed(|mem|, arch, t)
  {
    if t.rel == 0 || t.stride == 0 || t.size <= 0 then [] else Fixups(mem, base, arch, t.rel, t.size, t.stride)
  }

  predicate WellFormed(length: nat, arch: Arch, t: Table) {
    t.rel != 0 && t.stride != 0 && t.size > 0 ==> t.stride > 0 && Fits(length, arch, t.rel, t.size, t.stride)
  }

  /** The words named do not overlap each other or the table. */
  ghost predicate Disjoint(mem: seq<byte>, base: nat, arch: Arch, t: Table)
    requires WellFormed(|mem|, arch, t)
  {
    var fs := Asked(mem, base, arch, t);
    && Separate(|mem|, fs)
    && (fs != [] ==> Clear(fs, arch, t.rel, t.size, t.stride))
  }

  ghost predicate Clear(fs: seq<Fixup>, arch: Arch, at: nat, size: int, stride: int) {
    forall j :: 0 <= j < |fs| && fs[j].applies ==> stride > 0 && OutsideTable(fs[j].target, arch, at, size, stride)
  }

  /** A table without an entry size, or the reverse, is an error. */
  function StatusOf(t: Table): Status {
    if (t.rel == 0) == (t.stride == 0) then Success else LoadError
  }

  method RelocateX86(memory: array<byte>, base: nat, dyn: seq<Dyn>) returns (status: Status)
    requires exists i :: 0 <= i < |dyn| && dyn[i].tag == DT_NULL
    requires WellFormed(memory.Length, X86, Found(dyn, base)) && Disjoint(memory[..], base, X86, Found(dyn, base))
    modifies memory
    ensures status == StatusOf(Found(dyn, base))
    ensures Relocated(memory[..], old(memory[..]), Asked(old(memory[..]), base, X86, Found(dyn, base)))
    ensures AddedX86(memory[..], old(memory[..]), base, Found(dyn, base))
  {
    hide Found, Terminator, Add64, Relocated, Separate, FixupAt, AddedX86;
    var t := ScanDynamic(base, dyn);
    ghost var was := memory[..];
    RelocateNone(was);
    if t.rel == 0 && t.stride == 0 {
      WrittenOutX86(was, was, base, t);
      return Success;
    }
    if t.rel == 0 || t.stride == 0 {
      WrittenOutX86(was, was, base, t);
      return LoadError;
    }
    ghost var fs := Asked(was, base, X86, t);
    var rel, relsz := t.rel, t.size;
    ghost var n := 0;
    while relsz > 0
      invariant 0 <= n <= |fs| && 0 <= rel && Relocated(memory[..], was, fs[..n])
      invariant relsz > 0 ==>
                  t.stride > 0 && Fits(|was|, X86, rel, relsz, t.stride) && Clear(fs, X86, rel, relsz, t.stride)
      invariant relsz > 0 ==> fs[n..] == Fixups(was, base, X86, rel, relsz, t.stride)
      invariant relsz <= 0 ==> n == |fs|
    {
      TableStep(was, base, X86, rel, relsz, t.stride, fs, n);
      StepX86(memory, base, rel, was, fs, n);
      rel := rel + t.stride;
      relsz := relsz - t.stride;
      n := n + 1;
    }
    assert fs[..n] == fs;
    WrittenOutX86(memory[..], was, base, t);
    return Success;
  }

  method RelocateAarch64(memory: array<byte>, base: nat, dyn: seq<Dyn>) returns (status: Status)
    requires exists i :: 0 <= i < |dyn| && dyn[i].tag == DT_NULL
    requires WellFormed(memory.Length, Aarch64, Found(dyn, base))
    requires Disjoint(memory[..], base, Aarch64, Found(dyn, base))
    modifies memory
    ensures status == StatusOf(Found(dyn, base))
    ensures Relocated(memory[..], old(memory[..]), Asked(old(memory[..]), base, Aarch64, Found(dyn, base)))
    ensures StoredAarch64(memory[..], old(memory[..]), base, Found(dyn, base))
  {
    hide Found, Terminator, Add64, Relocated, Separate, FixupAt, StoredAarch64;
    var t := ScanDynamic(base, dyn);
    ghost var was := memory[..];
    RelocateNone(was);
    if t.rel == 0 && t.stride == 0 {
      WrittenOutAarch64(was, was, base, t);
      return Success;
    }
    if t.rel == 0 || t.stride == 0 {
      WrittenOutAarch64(was, was, base, t);
      return LoadError;
    }
    ghost var fs := Asked(was, base, Aarch64, t);
    var rel, relsz := t.rel, t.size;
    ghost var n := 0;
    while relsz > 0
      invariant 0 <= n <= |fs| && 0 <= rel && Relocated(memory[..], was, fs[..n])
      invariant relsz > 0 ==> t.stride > 0 && Fits(|was|, Aarch64, rel, relsz, t.stride)
      invariant relsz > 0 ==> Clear(fs, Aarch64, rel, relsz, t.stride)
      invariant relsz > 0 ==> fs[n..] == Fixups(was, base, Aarch64, rel, relsz, t.stride)
      invariant relsz <= 0 ==> n == |fs|
    {
      TableStep(was, base, Aarch64, rel, relsz, t.stride, fs, n);
      StepAarch64(memory, base, rel, was, fs, n);
      rel := rel + t.stride;
      relsz := relsz - t.stride;
      n := n + 1;
    }
    assert fs[..n] == fs;
    WrittenOutAarch64(memory[..], was, base, t);
    return Success;
  }

  lemma RelocateNone(was: seq<byte>)
    ensures Relocated(was, was, [])
  {
    forall p | 0 <= p < |was| ensures Untouched([], p) {}
  }

  lemma TableStep(was: seq<byte>, base: nat, arch: Arch, at: nat, size: int, stride: int, fs: seq<Fixup>, n: nat)
    requires stride > 0 && size > 0 && Fits(|was|, arch, at, size, stride) && Clear(fs, arch, at, size, stride)
    requires n <= |fs| && fs[n..] == Fixups(was, base, arch, at, size, stride)
    ensures n < |fs| && at + EntrySize(arch) <= |was| && fs[n] == FixupAt(was, base, arch, at)
    ensures Fits(|was|, arch, at + stride, size - stride, stride) && Clear(fs, arch, at + stride, size - stride, stride)
    ensures fs[n + 1..] == Fixups(was, base, arch, at + stride, size - stride, stride)
    ensures size - stride <= 0 ==> n + 1 == |fs|
    ensures forall j :: 0 <= j < |fs| && fs[j].applies ==>
              fs[j].target + 8 <= at || at + EntrySize(arch) <= fs[j].target
  {
    hide FixupAt;
    assert fs[n] == fs[n..][0];
    assert fs[n + 1..] == fs[n..][1..];
  }

  // ------------------------------------------------------------ what it amounts to

  lemma SameBytes(a: seq<byte>, b: seq<byte>, t: nat, p: nat)
    requires t + 8 <= |a| && t + 8 <= |b| && t <= p < t + 8 && Word(a, t) == Word(b, t)
    ensures a[p] == b[p]
  {
    EncodeDecode(a[t..t + 8]);
    EncodeDecode(b[t..t + 8]);
    assert a[p] == a[t..t + 8][p - t] && b[p] == b[t..t + 8][p - t];
  }

  /** The table as the memory holds it. */
  function Entries(mem: seq<byte>, arch: Arch, at: nat, size: int, stride: nat): seq<Entry>
    requires stride > 0 && Fits(|mem|, arch, at, size, stride)
    decreases if size > 0 then size else 0
  {
    if size <= 0 then [] else [EntryAt(mem, arch, at)] + Entries(mem, arch, at + stride, size - stride, stride)
  }

  lemma {:induction false} FixupsOfEntries(mem: seq<byte>, base: nat, arch: Arch, at: nat, size: int, stride: nat)
    requires stride > 0 && Fits(|mem|, arch, at, size, stride)
    ensures var es, fs := Entries(mem, arch, at, size, stride), Fixups(mem, base, arch, at, size, stride);
            |es| == |fs| && forall j :: 0 <= j < |es| ==> fs[j] == FixupOf(mem, base, arch, es[j])
    decreases if size > 0 then size else 0
  {
    hide EntryAt, FixupOf;
    if size > 0 {
      FixupsOfEntries(mem, base, arch, at + stride, size - stride, stride);
    }
  }

  /** Byte `p` belongs to the table. */
  predicate InTable(p: nat, arch: Arch, at: nat, size: int, stride: nat)
    requires stride > 0
    decreases if size > 0 then size else 0
  {
    size > 0 && (at <= p < at + EntrySize(arch) || InTable(p, arch, at + stride, size - stride, stride))
  }

  lemma {:induction false} OutsideBytes(target: nat, p: nat, arch: Arch, at: nat, size: int, stride: nat)
    requires stride > 0 && OutsideTable(target, arch, at, size, stride) && target <= p < target + 8
    ensures !InTable(p, arch, at, size, stride)
    decreases if size > 0 then size else 0
  {
    if size > 0 {
      OutsideBytes(target, p, arch, at + stride, size - stride, stride);
    }
  }

  /** Two images that agree but for their tables, which have the same entries in whatever order. */
  ghost predicate Reordered(m: seq<byte>, o: seq<byte>, arch: Arch, t: Table)
    requires WellFormed(|m|, arch, t) && |m| == |o|
  {
    t.rel != 0 && t.stride != 0 && t.size > 0 ==>
      && (forall e ::
            e in Entries(m, arch, t.rel, t.size, t.stride) <==> e in Entries(o, arch, t.rel, t.size, t.stride))
      && (forall p :: 0 <= p < |m| && !InTable(p, arch, t.rel, t.size, t.stride) ==> m[p] == o[p])
  }

  /** A fixup of one image is a fixup of the other: its word lies outside the table, so it holds the same. */
  lemma SameFixup(m: seq<byte>, o: seq<byte>, base: nat, arch: Arch, t: Table, f: Fixup)
    requires |m| == |o| && WellFormed(|m|, arch, t) && Reordered(m, o, arch, t) && Disjoint(m, base, arch, t)
    requires t.rel != 0 && t.stride != 0 && t.size > 0 && f in Asked(m, base, arch, t)
    ensures f in Asked(o, base, arch, t)
  {
    hide Fixups, Entries, Separate, Fits, InTable, OutsideTable, FixupOf;
    var es, fs := Entries(m, arch, t.rel, t.size, t.stride), Asked(m, base, arch, t);
    var ds, gs := Entries(o, arch, t.rel, t.size, t.stride), Asked(o, base, arch, t);
    FixupsOfEntries(m, base, arch, t.rel, t.size, t.stride);
    FixupsOfEntries(o, base, arch, t.rel, t.size, t.stride);
    var j :| 0 <= j < |fs| && fs[j] == f;
    assert es[j] in ds;
    var i :| 0 <= i < |ds| && ds[i] == es[j];
    SameTarget(m, o, base, arch, t, es[j]);
    assert gs[i] == f;
  }

  lemma SameTarget(m: seq<byte>, o: seq<byte>, base: nat, arch: Arch, t: Table, e: Entry)
    requires |m| == |o| && t.stride > 0
    requires var f := FixupOf(m, base, arch, e); f.applies ==> OutsideTable(f.target, arch, t.rel, t.size, t.stride)
    requires forall p :: 0 <= p < |m| && !InTable(p, arch, t.rel, t.size, t.stride) ==> m[p] == o[p]
    ensures FixupOf(m, base, arch, e) == FixupOf(o, base, arch, e)
  {
    hide Decode, Add64, InTable, OutsideTable;
    var f := FixupOf(m, base, arch, e);
    if f.applies && f.target + 8 <= |m| {
      var x, y := m[f.target..f.target + 8], o[f.target..f.target + 8];
      forall i | 0 <= i < 8 ensures x[i] == y[i] {
        OutsideBytes(f.target, f.target + i, arch, t.rel, t.size, t.stride);
      }
      assert x == y;
    }
  }

  /** The order of the table plays no part: reorder it in place, and the relocated images agree wherever the
      table is not. */
  lemma OrderDoesNotMatter(m: seq<byte>, o: seq<byte>, now: seq<byte>, other: seq<byte>,
                           base: nat, arch: Arch, t: Table, p: nat)
    requires |m| == |o| && WellFormed(|m|, arch, t) && Reordered(m, o, arch, t) && p < |m|
    requires Disjoint(m, base, arch, t) && Disjoint(o, base, arch, t)
    requires Relocated(now, m, Asked(m, base, arch, t)) && Relocated(other, o, Asked(o, base, arch, t))
    requires t.rel != 0 && t.stride != 0 && t.size > 0 && !InTable(p, arch, t.rel, t.size, t.stride)
    ensures now[p] == other[p]
  {
    hide Relocated, Disjoint, Asked, Entries, Fits, InTable;
    var fs, gs := Asked(m, base, arch, t), Asked(o, base, arch, t);
    forall f ensures f in fs <==> f in gs {
      if f in fs {
        SameFixup(m, o, base, arch, t, f);
      }
      if f in gs {
        SameFixup(o, m, base, arch, t, f);
      }
    }
    SameAt(now, other, m, o, fs, gs, p);
  }

  /** Byte by byte: two memories relocated by the same entries agree where they agreed before or an entry
      has written. */
  lemma SameAt(now: seq<byte>, other: seq<byte>, was: seq<byte>, wasOther: seq<byte>, fs: seq<Fixup>, gs: seq<Fixup>,
               p: nat)
    requires Relocated(now, was, fs) && Relocated(other, wasOther, gs) && |was| == |wasOther| && p < |was|
    requires forall f :: f in fs <==> f in gs
    requires was[p] == wasOther[p] || !Untouched(fs, p)
    ensures now[p] == other[p]
  {
    if Untouched(fs, p) {
      forall j | 0 <= j < |gs| ensures !Touches(gs[j], p) {
        assert gs[j] in fs;
        var i :| 0 <= i < |fs| && fs[i] == gs[j];
      }
      assert Untouched(gs, p);
    } else {
      var j :| 0 <= j < |fs| && Touches(fs[j], p);
      assert fs[j] in gs;
      var i :| 0 <= i < |gs| && gs[i] == fs[j];
      SameBytes(now, other, fs[j].target, p);
    }
  }

  /** An x86_64 image and an aarch64 image with the same relocations: entry by entry the same offset and
      addend and the same use, the addend standing at the target on x86_64. */
  predicate Corresponds(x: seq<byte>, a: seq<byte>, base: nat, at: nat, size: int, stride: nat)
    requires stride > 0 && Fits(|x|, X86, at, size, stride) && Fits(|a|, Aarch64, at, size, stride)
    decreases if size > 0 then size else 0
  {
    size <= 0 ||
    (&& (Word(x, at + 8) % 0x1_0000_0000 == RelativeType(X86) <==>
         Word(a, at + 8) % 0x1_0000_0000 == RelativeType(Aarch64))
     && (Word(x, at + 8) % 0x1_0000_0000 == RelativeType(X86) ==>
           && Word(x, at) == Word(a, at)
           && Add64(base, Word(x, at)) + 8 <= |x|
           && Word(x, Add64(base, Word(x, at))) == Word(a, at + 16))
     && Corresponds(x, a, base, at + stride, size - stride, stride))
  }

  /** The two relocators are asked for the same fixups. */
  lemma {:induction false} SameFixups(x: seq<byte>, a: seq<byte>, base: nat, at: nat, size: int, stride: nat)
    requires stride > 0 && Fits(|x|, X86, at, size, stride) && Fits(|a|, Aarch64, at, size, stride)
    requires Corresponds(x, a, base, at, size, stride)
    ensures Fixups(x, base, X86, at, size, stride) == Fixups(a, base, Aarch64, at, size, stride)
    decreases if size > 0 then size else 0
  {
    hide Word, Add64;
    if size > 0 {
      Commutes(base, Word(a, at + 16));
      SameFixups(x, a, base, at + stride, size - stride, stride);
    }
  }

  lemma Commutes(a: nat, b: nat)
    ensures Add64(a, b) == Add64(b, a)
  {}

  /** The x86_64 and the aarch64 relocator agree: whatever their images shared, and every word an entry
      names, is the same afterwards. */
  lemma RelocatorsAgree(x: seq<byte>, a: seq<byte>, xNow: seq<byte>, aNow: seq<byte>, base: nat, t: Table, p: nat)
    requires |x| == |a| && WellFormed(|x|, X86, t) && WellFormed(|a|, Aarch64, t) && p < |x|
    requires t.rel != 0 && t.stride > 0 && t.size > 0 ==> Corresponds(x, a, base, t.rel, t.size, t.stride)
    requires Relocated(xNow, x, Asked(x, base, X86, t)) && Relocated(aNow, a, Asked(a, base, Aarch64, t))
    requires x[p] == a[p] || !Untouched(Asked(x, base, X86, t), p)
    ensures xNow[p] == aNow[p]
  {
    hide Relocated, Corresponds, Fixups, Fits, Word, Untouched;
    if t.rel != 0 && t.stride != 0 && t.size > 0 {
      SameFixups(x, a, base, t.rel, t.size, t.stride);
    }
    SameAt(xNow, aNow, x, a, Asked(x, base, X86, t), Asked(a, base, Aarch64, t), p);
  }

  /** The entries are those that begin within the size of the table, a stride apart. */
  lemma {:induction false} EntryMeaning(mem: seq<byte>, base: nat, arch: Arch, at: nat, size: int, stride: nat, j: nat)
    requires stride > 0 && Fits(|mem|, arch, at, size, stride)
    ensures j < |Fixups(mem, base, arch, at, size, stride)| <==> j * stride < size
    ensures j * stride < size ==>
              && at + j * stride + EntrySize(arch) <= |mem|
              && Fixups(mem, base, arch, at, size, stride)[j] == FixupAt(mem, base, arch, at + j * stride)
    decreases j
  {
    hide Word, FixupAt;
    if j > 0 && size > 0 {
      EntryMeaning(mem, base, arch, at + stride, size - stride, stride, j - 1);
      assert (j - 1) * stride == j * stride - stride;
    }
  }

  // ------------------------------------------------------ the changes, written out

  /** Entry `i` is the last of the first `n` with this tag. */
  predicate IsLast(dyn: seq<Dyn>, n: nat, tag: nat, i: nat)
    requires n <= |dyn|
  {
    i < n && dyn[i].tag == tag && forall j :: i < j < n ==> dyn[j].tag != tag
  }

  /** The tags looked for are 7, 8 and 9, up to the first 0; sizes are read as signed. */
  lemma FoundMeaning(dyn: seq<Dyn>, base: nat, n: nat, tag: nat, i: nat)
    requires n < |dyn| && dyn[n].tag == 0 && forall j :: 0 <= j < n ==> dyn[j].tag != 0
    requires IsLast(dyn, n, tag, i)
    ensures tag == 7 ==> Found(dyn, base).rel == (base + dyn[i].val) % 0x1_0000_0000_0000_0000
    ensures tag == 8 ==>
              Found(dyn, base).size ==
              dyn[i].val - if dyn[i].val < 0x8000_0000_0000_0000 then 0 else 0x1_0000_0000_0000_0000
    ensures tag == 9 ==>
              Found(dyn, base).stride ==
              dyn[i].val - if dyn[i].val < 0x8000_0000_0000_0000 then 0 else 0x1_0000_0000_0000_0000
  {
    hide LastOf;
    assert Terminator(dyn) == n;
    LastMeaning(dyn, n, tag, 0, i);
  }

  /** A tag that is missing leaves its field zero. */
  lemma {:induction false} FoundNothing(dyn: seq<Dyn>, base: nat, n: nat, tag: nat)
    requires n < |dyn| && dyn[n].tag == 0 && forall j :: 0 <= j < n ==> dyn[j].tag != 0 && dyn[j].tag != tag
    ensures tag == 7 ==> Found(dyn, base).rel == 0
    ensures tag == 8 ==> Found(dyn, base).size == 0
    ensures tag == 9 ==> Found(dyn, base).stride == 0
  {
    assert Terminator(dyn) == n;
    NoneFound(dyn, n, tag);
  }

  lemma {:induction false} NoneFound(dyn: seq<Dyn>, n: nat, tag: nat)
    requires n <= |dyn| && forall j :: 0 <= j < n ==> dyn[j].tag != tag
    ensures LastOf(dyn, n, tag, 0) == 0
    decreases n
  {
    if n > 0 {
      NoneFound(dyn, n - 1, tag);
    }
  }

  /** Where entry `j` of a table begins. */
  function Place(t: Table, j: nat): int {
    t.rel + j * t.stride
  }

  /** The table has a place, an entry size and an entry `j`. */
  predicate Listed(t: Table, j: nat) {
    t.rel != 0 && t.stride != 0 && j * t.stride < t.size && t.size > 0
  }

  lemma ListedFits(mem: seq<byte>, base: nat, arch: Arch, t: Table, j: nat)
    requires WellFormed(|mem|, arch, t) && Listed(t, j)
    ensures 0 <= Place(t, j) && Place(t, j) + (if arch.X86? then 16 else 24) <= |mem|
    ensures j < |Asked(mem, base, arch, t)| && Asked(mem, base, arch, t)[j] == FixupAt(mem, base, arch, Place(t, j))
  {
    hide Fixups, Fits, FixupAt;
    EntryMeaning(mem, base, arch, t.rel, t.size, t.stride, j);
  }

  predicate AddedAt(now: seq<byte>, was: seq<byte>, base: nat, at: int) {
    && 0 <= at && at + 16 <= |was| == |now|
    && (Word(was, at + 8) % 0x1_0000_0000 == 8 ==>
          var a := (base + Word(was, at)) % 0x1_0000_0000_0000_0000;
          a + 8 <= |was| && Word(now, a) == (Word(was, a) + base) % 0x1_0000_0000_0000_0000)
  }

  predicate StoredAt(now: seq<byte>, was: seq<byte>, base: nat, at: int) {
    && 0 <= at && at + 24 <= |was| == |now|
    && (Word(was, at + 8) % 0x1_0000_0000 == 1027 ==>
          var a := (base + Word(was, at)) % 0x1_0000_0000_0000_0000;
          a + 8 <= |was| && Word(now, a) == (base + Word(was, at + 16)) % 0x1_0000_0000_0000_0000)
  }

  /** On x86_64, a RELATIVE entry has the load address added to the word it names. */
  lemma X86Word(now: seq<byte>, was: seq<byte>, base: nat, t: Table, j: nat)
    requires WellFormed(|was|, X86, t) && Relocated(now, was, Asked(was, base, X86, t)) && Listed(t, j)
    ensures AddedAt(now, was, base, Place(t, j))
  {
    ListedFits(was, base, X86, t, j);
    hide Asked, Word, Place, WellFormed, Untouched;
  }

  /** On aarch64, it has the load address and its own addend stored there. */
  lemma Aarch64Word(now: seq<byte>, was: seq<byte>, base: nat, t: Table, j: nat)
    requires WellFormed(|was|, Aarch64, t) && Relocated(now, was, Asked(was, base, Aarch64, t)) && Listed(t, j)
    ensures StoredAt(now, was, base, Place(t, j))
  {
    ListedFits(was, base, Aarch64, t, j);
    hide Asked, Word, Place, WellFormed, Untouched;
  }

  /** Entry `j` has the given type, and byte `p` lies in the word it names. */
  predicate Names(was: seq<byte>, base: nat, t: Table, j: nat, relative: nat, p: nat) {
    && 0 <= Place(t, j) && Place(t, j) + 16 <= |was|
    && Word(was, Place(t, j) + 8) % 0x1_0000_0000 == relative
    && var a := (base + Word(was, Place(t, j))) % 0x1_0000_0000_0000_0000;
       a <= p < a + 8
  }

  /** No entry of the given type names the word that byte `p` is in. */
  ghost predicate Unnamed(was: seq<byte>, base: nat, t: Table, relative: nat, p: nat) {
    forall j: nat :: Listed(t, j) ==> !Names(was, base, t, j, relative, p)
  }

  /** Every byte that lies in no such word is unchanged. */
  lemma OtherBytes(now: seq<byte>, was: seq<byte>, base: nat, arch: Arch, t: Table, p: nat)
    requires WellFormed(|was|, arch, t) && Relocated(now, was, Asked(was, base, arch, t)) && p < |was|
    requires Unnamed(was, base, t, if arch.X86? then 8 else 1027, p)
    ensures |now| == |was| && now[p] == was[p]
  {
    hide Fixups, Fits, Word, Place;
    var fs := Asked(was, base, arch, t);
    forall j | 0 <= j < |fs| ensures !Touches(fs[j], p) {
      EntryMeaning(was, base, arch, t.rel, t.size, t.stride, j);
      ListedFits(was, base, arch, t, j);
    }
    assert Untouched(fs, p);
  }

  /** All that an x86_64 relocation does: every word a RELATIVE entry names has the load address added, and no other
      byte changes. */
  ghost predicate AddedX86(now: seq<byte>, was: seq<byte>, base: nat, t: Table) {
    && |now| == |was|
    && (forall j: nat :: Listed(t, j) ==> AddedAt(now, was, base, Place(t, j)))
    && (forall p :: 0 <= p < |was| && Unnamed(was, base, t, 8, p) ==> now[p] == was[p])
  }

  /** All that an aarch64 relocation does: these words become the load address plus the entry's addend. */
  ghost predicate StoredAarch64(now: seq<byte>, was: seq<byte>, base: nat, t: Table) {
    && |now| == |was|
    && (forall j: nat :: Listed(t, j) ==> StoredAt(now, was, base, Place(t, j)))
    && (forall p :: 0 <= p < |was| && Unnamed(was, base, t, 1027, p) ==> now[p] == was[p])
  }

  lemma WrittenOutX86(now: seq<byte>, was: seq<byte>, base: nat, t: Table)
    requires WellFormed(|was|, X86, t) && Relocated(now, was, Asked(was, base, X86, t))
    ensures AddedX86(now, was, base, t)
  {
    assert |now| == |was|;
    hide Relocated, WellFormed, Asked, Listed, Place, AddedAt, Unnamed;
    forall j: nat | Listed(t, j) ensures AddedAt(now, was, base, Place(t, j)) {
      X86Word(now, was, base, t, j);
    }
    forall p | 0 <= p < |was| && Unnamed(was, base, t, 8, p) ensures now[p] == was[p] {
      OtherBytes(now, was, base, X86, t, p);
    }
  }

  lemma WrittenOutAarch64(now: seq<byte>, was: seq<byte>, base: nat, t: Table)
    requires WellFormed(|was|, Aarch64, t) && Relocated(now, was, Asked(was, base, Aarch64, t))
    ensures StoredAarch64(now, was, base, t)
  {
    assert |now| == |was|;
    hide Relocated, WellFormed, Asked, Listed, Place, StoredAt, Unnamed;
    forall j: nat | Listed(t, j) ensures StoredAt(now, was, base, Place(t, j)) {
      Aarch64Word(now, was, base, t, j);
    }
    forall p | 0 <= p < |was| && Unnamed(was, base, t, 1027, p) ensures now[p] == was[p] {
      OtherBytes(now, was, base, Aarch64, t, p);
    }
  }
}
