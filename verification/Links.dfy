/** The intrusive circular lists of gnu-efi/inc/efilink.h.

    A list is a ring of entries that starts at its head.  Each macro is a method that performs
    the same pointer assignments in the same order; the ghost sequence is the ring they act on. */
module Links {

  class Entry {
    var Flink: Entry
    var Blink: Entry

    /** Memory for an entry; its links are not yet meaningful. */
    constructor ()
      ensures fresh(this)
    {
      Flink := this;
      Blink := this;
    }
  }

  ghost predicate Distinct(r: seq<Entry>) {
    forall i, j :: 0 <= i < j < |r| ==> r[i] != r[j]
  }

  /** Both links of every neighbouring pair agree. */
  ghost predicate Linked(a: Entry, b: Entry)
    reads a, b
  {
    a.Flink == b && b.Blink == a
  }

  ghost predicate Ring(r: seq<Entry>)
    reads r
  {
    && |r| > 0 && Distinct(r)
    && (forall i :: 0 < i < |r| ==> Linked(r[i - 1], r[i]))
    && Linked(r[|r| - 1], r[0])
  }

  // ------------------------------------------------------------- operations

  method InitializeListHead(head: Entry)
    modifies head
    ensures Ring([head])
  {
    head.Flink := head;
    head.Blink := head;
  }

  method IsListEmpty(head: Entry, ghost r: seq<Entry>) returns (empty: bool)
    requires Ring(r) && r[0] == head
    ensures empty <==> |r| == 1
  {
    if |r| > 1 {
      assert Linked(r[0], r[1]);
    }
    empty := head.Flink == head;
  }

  method InsertTailList(head: Entry, entry: Entry, ghost r: seq<Entry>)
    requires Ring(r) && r[0] == head && entry !in r
    modifies head, head.Blink, entry
    ensures Ring(r + [entry])
  {
    var blink := head.Blink;
    entry.Flink := head;
    entry.Blink := blink;
    blink.Flink := entry;
    head.Blink := entry;
  }

  method InsertHeadList(head: Entry, entry: Entry, ghost r: seq<Entry>)
    requires Ring(r) && r[0] == head && entry !in r
    modifies head, head.Flink, entry
    ensures Ring([head, entry] + r[1..])
  {
    var flink := head.Flink;
    if |r| > 1 {
      assert Linked(r[0], r[1]);
    }
    entry.Flink := flink;
    entry.Blink := head;
    flink.Blink := entry;
    head.Flink := entry;
    assert r[..1] + [entry] + r[1..] == [head, entry] + r[1..];
    ghost var s := [head, entry] + r[1..];
    assert forall i :: 2 <= i < |s| ==> s[i] == r[i - 1];
    forall i | 2 < i < |s| ensures Linked(s[i - 1], s[i]) {
      assert Linked(r[i - 1 - 1], r[i - 1]);
    }
  }

  function Without<T>(r: seq<T>, k: nat): seq<T>
    requires k < |r|
  {
    r[..k] + r[k + 1..]
  }

  function Before(k: nat, n: nat): nat
    requires k < n
  {
    if k == 0 then n - 1 else k - 1
  }

  function After(k: nat, n: nat): nat
    requires k < n
  {
    if k == n - 1 then 0 else k + 1
  }

  lemma Neighbours(r: seq<Entry>, k: nat)
    requires Ring(r) && k < |r|
    ensures r[k].Flink == r[After(k, |r|)] && r[k].Blink == r[Before(k, |r|)]
    ensures r[k].Flink.Blink == r[k] && r[k].Blink.Flink == r[k]
  {
    if k > 0 {
      assert Linked(r[k - 1], r[k]);
    }
    if k < |r| - 1 {
      assert Linked(r[k], r[k + 1]);
    }
  }

  /** Where the entries of a ring without its k-th come from. */
  lemma WithoutAt<T>(r: seq<T>, k: nat, i: nat)
    requires k < |r| && i < |r| - 1
    ensures |Without(r, k)| == |r| - 1 && Without(r, k)[i] == if i < k then r[i] else r[i + 1]
  {}

  lemma WithoutDistinct(r: seq<Entry>, k: nat)
    requires Distinct(r) && k < |r|
    ensures Distinct(Without(r, k))
  {
    var s := Without(r, k);
    hide Without;
    forall i, j | 0 <= i < j < |s| ensures s[i] != s[j] {
      WithoutLength(r, k);
      WithoutAt(r, k, i);
      WithoutAt(r, k, j);
    }
  }

  lemma WithoutLength<T>(r: seq<T>, k: nat)
    requires k < |r|
    ensures |Without(r, k)| == |r| - 1
  {}

  /** A ring can be read from any of its entries. */
  function Rotated<T>(r: seq<T>, k: nat): seq<T>
    requires k <= |r|
  {
    r[k..] + r[..k]
  }

  ghost function Flinks(r: seq<Entry>): (f: seq<Entry>)
    reads r
    ensures |f| == |r| && forall i :: 0 <= i < |r| ==> f[i] == r[i].Flink
  {
    seq(|r|, i requires 0 <= i < |r| reads r => r[i].Flink)
  }

  ghost function Blinks(r: seq<Entry>): (b: seq<Entry>)
    reads r
    ensures |b| == |r| && forall i :: 0 <= i < |r| ==> b[i] == r[i].Blink
  {
    seq(|r|, i requires 0 <= i < |r| reads r => r[i].Blink)
  }

  lemma RotatedAt<T>(r: seq<T>, i: nat)
    requires i < |r|
    ensures |Rotated(r, 1)| == |Rotated(r, |r| - 1)| == |r|
    ensures Rotated(r, 1)[i] == r[After(i, |r|)] && Rotated(r, |r| - 1)[i] == r[Before(i, |r|)]
  {}

  lemma RingLinks(r: seq<Entry>)
    requires Ring(r)
    ensures Flinks(r) == Rotated(r, 1) && Blinks(r) == Rotated(r, |r| - 1)
  {
    hide Rotated;
    RotatedAt(r, 0);
    forall i | 0 <= i < |r| ensures Flinks(r)[i] == Rotated(r, 1)[i] && Blinks(r)[i] == Rotated(r, |r| - 1)[i] {
      Neighbours(r, i);
      RotatedAt(r, i);
    }
  }

  /** _RemoveEntryList.  An entry that is alone in its ring stays alone in it. */
  method RemoveEntryList(entry: Entry, ghost r: seq<Entry>, ghost k: nat)
    requires Ring(r) && k < |r| && r[k] == entry
    modifies entry.Flink, entry.Blink
    ensures Ring(if |r| == 1 then r else Without(r, k))
  {
    hide Rotated, Without;
    ghost var b, f := Before(k, |r|), After(k, |r|);
    Neighbours(r, k);
    RingLinks(r);
    ghost var fl, bl := Flinks(r), Blinks(r);
    var flink, blink := entry.Flink, entry.Blink;
    blink.Flink := flink;
    flink.Blink := blink;
    forall i | 0 <= i < |r| ensures Flinks(r)[i] == fl[b := flink][i] && Blinks(r)[i] == bl[f := blink][i] {
      assert i != b ==> r[i] != r[b];
      assert i != f ==> r[i] != r[f];
    }
    UnlinkedRing(r, k);
  }

  /** The place in the ring of the i-th entry that remains. */
  function Place(i: nat, k: nat): nat {
    if i < k then i else i + 1
  }

  lemma PlacesLinked(n: nat, k: nat, i: nat)
    requires k < n && i < n - 1
    ensures var a, c := Place(Before(i, n - 1), k), Place(i, k);
            && a < n && c < n
            && (a == Before(k, n) <==> c == After(k, n))
            && (a != Before(k, n) ==> c == After(a, n) && a == Before(c, n))
  {}

  /** Joining the neighbours of an entry leaves the ring without it. */
  lemma UnlinkedRing(r: seq<Entry>, k: nat)
    requires Distinct(r) && k < |r|
    requires |Rotated(r, 1)| == |Rotated(r, |r| - 1)| == |r|
    requires Flinks(r) == Rotated(r, 1)[Before(k, |r|) := r[After(k, |r|)]]
    requires Blinks(r) == Rotated(r, |r| - 1)[After(k, |r|) := r[Before(k, |r|)]]
    ensures Ring(if |r| == 1 then r else Without(r, k))
  {
    hide Rotated, Without;
    if |r| > 1 {
      var s, n := Without(r, k), |r|;
      WithoutDistinct(r, k);
      WithoutLength(r, k);
      hide Distinct;
      forall i | 0 <= i < n - 1 ensures Linked(s[Before(i, n - 1)], s[i]) {
        UnlinkedAt(r, k, i);
      }
      assert Linked(s[Before(0, n - 1)], s[0]);
      forall i | 0 < i < |s| ensures Linked(s[i - 1], s[i]) {
        assert Linked(s[Before(i, n - 1)], s[i]);
      }
    }
  }

  lemma UnlinkedAt(r: seq<Entry>, k: nat, i: nat)
    requires k < |r| && i < |r| - 1
    requires |Rotated(r, 1)| == |Rotated(r, |r| - 1)| == |r|
    requires Flinks(r) == Rotated(r, 1)[Before(k, |r|) := r[After(k, |r|)]]
    requires Blinks(r) == Rotated(r, |r| - 1)[After(k, |r|) := r[Before(k, |r|)]]
    ensures |Without(r, k)| == |r| - 1 && Linked(Without(r, k)[Before(i, |r| - 1)], Without(r, k)[i])
  {
    hide Rotated, Without;
    var n := |r|;
    var a, c := Place(Before(i, n - 1), k), Place(i, k);
    PlacesLinked(n, k, i);
    WithoutAt(r, k, i);
    WithoutAt(r, k, Before(i, n - 1));
    RotatedAt(r, a);
    RotatedAt(r, c);
    assert r[a].Flink == Flinks(r)[a] && r[c].Blink == Blinks(r)[c];
    hide Before, After;
  }

  lemma RotatedRing(r: seq<Entry>, k: nat)
    requires Ring(r) && k <= |r|
    ensures Ring(Rotated(r, k))
  {
    var s, n := Rotated(r, k), |r|;
    assert forall i :: 0 <= i < n - k ==> s[i] == r[k + i];
    assert forall i :: n - k <= i < n ==> s[i] == r[i - (n - k)];
    forall i | 0 < i < n ensures Linked(s[i - 1], s[i]) {
      if i < n - k {
        assert Linked(r[k + i - 1], r[k + i]);
      } else if i > n - k {
        assert Linked(r[i - (n - k) - 1], r[i - (n - k)]);
      }
    }
    if 0 < k < n {
      assert Linked(r[k - 1], r[k]);
    }
  }

  /** An entry that a neighbour does not point back to is in no ring. */
  lemma NotInRing(e: Entry, s: seq<Entry>)
    requires e.Flink.Blink != e || e.Blink.Flink != e
    ensures e in s ==> !Ring(s)
  {
    if e in s && Ring(s) {
      var k :| 0 <= k < |s| && s[k] == e;
      Neighbours(s, k);
      assert false;
    }
  }

  /** The links after the swap, entry by entry: the ring with entry j moved to its end. */
  lemma SwappedRing(r: seq<Entry>, j: nat)
    requires Distinct(r) && 0 < j < |r| - 1
    requires |Rotated(r, 1)| == |Rotated(r, |r| - 1)| == |r|
    requires Flinks(r) == Rotated(r, 1)[j - 1 := r[j + 1]][j := r[0]][|r| - 1 := r[j]]
    requires Blinks(r) == Rotated(r, |r| - 1)[j + 1 := r[j - 1]][j := r[|r| - 1]][0 := r[j]]
    ensures Ring(Without(r, j) + [r[j]])
  {
    hide Rotated, Without;
    var s, n := Without(r, j) + [r[j]], |r|;
    WithoutLength(r, j);
    forall i, k | 0 <= i < k < n ensures s[i] != s[k] {
      MovedPlace(r, j, i);
      MovedPlace(r, j, k);
    }
    forall i | 0 <= i < n ensures Linked(s[Before(i, n)], s[i]) {
      SwappedAt(r, j, i);
    }
    hide Distinct;
    assert Linked(s[Before(0, n)], s[0]);
    forall i | 0 < i < n ensures Linked(s[i - 1], s[i]) {
      assert Linked(s[Before(i, n)], s[i]);
    }
    assert forall i, k :: 0 <= i < k < |s| ==> s[i] != s[k];
  }

  function MovedIndex(n: nat, j: nat, i: nat): nat {
    if i < j then i else if i + 1 < n then i + 1 else j
  }

  lemma MovedPlace(r: seq<Entry>, j: nat, i: nat)
    requires j < |r| && i < |r|
    ensures |Without(r, j)| == |r| - 1 && MovedIndex(|r|, j, i) < |r|
    ensures (Without(r, j) + [r[j]])[i] == r[MovedIndex(|r|, j, i)]
  {
    hide Without;
    WithoutLength(r, j);
    if i < |r| - 1 {
      WithoutAt(r, j, i);
    }
  }

  lemma SwappedAt(r: seq<Entry>, j: nat, i: nat)
    requires 0 < j < |r| - 1 && i < |r|
    requires |Rotated(r, 1)| == |Rotated(r, |r| - 1)| == |r|
    requires Flinks(r) == Rotated(r, 1)[j - 1 := r[j + 1]][j := r[0]][|r| - 1 := r[j]]
    requires Blinks(r) == Rotated(r, |r| - 1)[j + 1 := r[j - 1]][j := r[|r| - 1]][0 := r[j]]
    ensures |Without(r, j)| == |r| - 1
    ensures Linked((Without(r, j) + [r[j]])[Before(i, |r|)], (Without(r, j) + [r[j]])[i])
  {
    hide Rotated, Without;
    var n := |r|;
    var a, c := MovedIndex(n, j, Before(i, n)), MovedIndex(n, j, i);
    MovedPlace(r, j, i);
    MovedPlace(r, j, Before(i, n));
    RotatedAt(r, a);
    RotatedAt(r, c);
    assert r[a].Flink == Flinks(r)[a] && r[c].Blink == Blinks(r)[c];
  }

  /** SwapListEntries, with the ring read from Entry1.  It moves Entry2 to just before Entry1 (the far end) when Entry2
      is neither there already nor Entry1 itself, and does nothing to an entry that is alone.  In the two other cases
      it breaks the ring: afterwards no ring holds Entry1, or the entry before it. */
  method SwapListEntries(entry1: Entry, entry2: Entry, ghost r: seq<Entry>, ghost j: nat)
    requires Ring(r) && j < |r| && r[0] == entry1 && r[j] == entry2
    modifies entry1, entry2, entry1.Blink, entry2.Flink, entry2.Blink
    ensures 0 < j < |r| - 1 ==> Ring(Without(r, j) + [entry2])
    ensures j == 0 && |r| == 1 ==> Ring(r)
    ensures 0 < j == |r| - 1 ==> forall s: seq<Entry> :: entry1 in s ==> !Ring(s)
    ensures j == 0 && |r| > 1 ==> forall s: seq<Entry> :: r[|r| - 1] in s ==> !Ring(s)
  {
    hide Rotated, Without;
    Neighbours(r, 0);
    Neighbours(r, j);
    RingLinks(r);
    ghost var fl, bl := Flinks(r), Blinks(r);
    var entry2Flink, entry2Blink := entry2.Flink, entry2.Blink;
    var entry1Blink := entry1.Blink;
    entry2Blink.Flink := entry2Flink;
    entry2Flink.Blink := entry2Blink;
    entry2.Flink := entry1;
    entry2.Blink := entry1Blink;
    entry1Blink.Flink := entry2;
    entry1.Blink := entry2;
    if 0 < j < |r| - 1 {
      forall i | 0 <= i < |r| ensures Flinks(r)[i] == fl[j - 1 := r[j + 1]][j := r[0]][|r| - 1 := r[j]][i] {
        assert i != j - 1 && i != j && i != |r| - 1 ==> r[i] != r[j - 1] && r[i] != r[j] && r[i] != r[|r| - 1];
      }
      forall i | 0 <= i < |r| ensures Blinks(r)[i] == bl[j + 1 := r[j - 1]][j := r[|r| - 1]][0 := r[j]][i] {
        assert i != j + 1 && i != j && i != 0 ==> r[i] != r[j + 1] && r[i] != r[j] && r[i] != r[0];
      }
      SwappedRing(r, j);
    } else if j > 0 {
      forall s: seq<Entry> ensures entry1 in s ==> !Ring(s) {
        NotInRing(entry1, s);
      }
    } else if |r| > 1 {
      forall s: seq<Entry> ensures r[|r| - 1] in s ==> !Ring(s) {
        NotInRing(r[|r| - 1], s);
      }
    }
  }

  // -------------------------------------------------------------- traversal

  function Reversed<T>(s: seq<T>): seq<T> {
    if s == [] then [] else Reversed(s[1..]) + [s[0]]
  }

  /** Following Flink from the head visits the list in order. */
  method Forward(head: Entry, ghost r: seq<Entry>) returns (items: seq<Entry>)
    requires Ring(r) && r[0] == head
    ensures items == r[1..]
  {
    items := [];
    Neighbours(r, 0);
    var p := head.Flink;
    while p != head
      invariant |items| < |r| && items == r[1..|items| + 1]
      invariant p == r[After(|items|, |r|)]
      decreases |r| - |items|
    {
      Neighbours(r, |items| + 1);
      items := items + [p];
      p := p.Flink;
    }
  }

  /** Following Blink visits it in reverse. */
  method Backward(head: Entry, ghost r: seq<Entry>) returns (items: seq<Entry>)
    requires Ring(r) && r[0] == head
    ensures items == Reversed(r[1..])
  {
    items := [];
    Neighbours(r, 0);
    var p := head.Blink;
    ghost var k := |r|;
    assert r[k..] == [];
    while p != head
      invariant 1 <= k <= |r| && items == Reversed(r[k..])
      invariant p == r[k - 1]
      decreases k
    {
      k := k - 1;
      Neighbours(r, k);
      assert r[k..][1..] == r[k + 1..];
      items := items + [p];
      p := p.Blink;
    }
  }

  // ---------------------------------------------------------------- whole runs

  datatype Op =
    | Initialize
    | InsertHead(entry: Entry)
    | InsertTail(entry: Entry)
    | Remove(entry: Entry)
    | Swap(entry1: Entry, entry2: Entry)

  function IndexOf(items: seq<Entry>, e: Entry): (k: nat)
    requires e in items
    ensures k < |items| && items[k] == e
  {
    if items[0] == e then 0 else 1 + IndexOf(items[1..], e)
  }

  /** What callers must respect: new entries are new, others are in the list, and Entry2 of a swap is
      neither Entry1 nor already in front of it. */
  predicate Allowed(head: Entry, items: seq<Entry>, op: Op) {
    match op
    case Initialize => true
    case InsertHead(e) => e != head && e !in items
    case InsertTail(e) => e != head && e !in items
    case Remove(e) => e in items
    case Swap(e1, e2) =>
      && e1 in items && e2 in items && e1 != e2
      && IndexOf(items, e2) + 1 != IndexOf(items, e1)
  }

  /** The effect of an operation on the abstract list. */
  function Apply(head: Entry, items: seq<Entry>, op: Op): seq<Entry>
    requires Allowed(head, items, op)
  {
    match op
    case Initialize => []
    case InsertHead(e) => [e] + items
    case InsertTail(e) => items + [e]
    case Remove(e) => Without(items, IndexOf(items, e))
    case Swap(e1, e2) => Moved(items, IndexOf(items, e1), IndexOf(items, e2))
  }

  function Entries(op: Op): set<Entry> {
    match op
    case Initialize => {}
    case InsertHead(e) => {e}
    case InsertTail(e) => {e}
    case Remove(e) => {e}
    case Swap(e1, e2) => {e1, e2}
  }

  /** One operation on the list at `head`. */
  method Perform(head: Entry, op: Op, ghost items: seq<Entry>)
    requires Ring([head] + items) && Allowed(head, items, op)
    modifies head, items, Entries(op)
    ensures Ring([head] + Apply(head, items, op))
  {
    hide Ring, Moved, IndexOf, Without, Distinct;
    ghost var r := [head] + items;
    Neighbours(r, 0);
    match op {
      case Initialize =>
        InitializeListHead(head);
        assert [head] + [] == [head];
      case InsertHead(e) =>
        InsertHeadList(head, e, r);
        assert r[1..] == items;
        assert [head, e] + items == [head] + ([e] + items);
      case InsertTail(e) =>
        InsertTailList(head, e, r);
        assert r + [e] == [head] + (items + [e]);
      case Remove(e) =>
        ghost var k := IndexOf(items, e) + 1;
        Neighbours(r, k);
        RemoveEntryList(e, r, k);
        WithoutTail(head, items, k - 1);
      case Swap(e1, e2) =>
        PerformSwap(e1, e2, r, IndexOf(items, e1) + 1, IndexOf(items, e2) + 1);
        MovedTail(head, items, IndexOf(items, e1), IndexOf(items, e2));
    }
  }

  lemma WithoutTail<T>(h: T, items: seq<T>, k: nat)
    requires k < |items|
    ensures Without([h] + items, k + 1) == [h] + Without(items, k)
  {
    var r := [h] + items;
    assert r[..k + 1] == [h] + items[..k] && r[k + 2..] == items[k + 1..];
  }

  /** Entry j moved to just before entry i. */
  function Moved<T>(r: seq<T>, i: nat, j: nat): seq<T>
    requires i < |r| && j < |r| && i != j
  {
    if j < i then r[..j] + r[j + 1..i] + [r[j]] + r[i..]
    else r[..i] + [r[j]] + r[i..j] + r[j + 1..]
  }

  lemma MovedTail<T>(h: T, items: seq<T>, i: nat, j: nat)
    requires i < |items| && j < |items| && i != j
    ensures Moved([h] + items, i + 1, j + 1) == [h] + Moved(items, i, j)
  {
    hide Moved;
    if j < i {
      var a, y, b, x, c := items[..j], items[j], items[j + 1..i], items[i], items[i + 1..];
      assert items == a + [y] + b + [x] + c;
      MovedEarlier(a, y, b, x, c);
      MovedEarlier([h] + a, y, b, x, c);
      Push(h, a, [y], b, [x], c);
      Push(h, a, b, [y], [x], c);
    } else {
      var a, x, b, y, c := items[..i], items[i], items[i + 1..j], items[j], items[j + 1..];
      assert items == a + [x] + b + [y] + c;
      MovedLater(a, x, b, y, c);
      MovedLater([h] + a, x, b, y, c);
      Push(h, a, [x], b, [y], c);
      Push(h, a, [y], [x], b, c);
    }
  }

  lemma Push<T>(h: T, a: seq<T>, b: seq<T>, c: seq<T>, d: seq<T>, e: seq<T>)
    ensures ([h] + a) + b + c + d + e == [h] + (a + b + c + d + e)
  {}

  /** A swap inside a ring that is read from some other entry. */
  method PerformSwap(e1: Entry, e2: Entry, ghost r: seq<Entry>, ghost i: nat, ghost j: nat)
    requires Ring(r) && i < |r| && j < |r| && i != j && r[i] == e1 && r[j] == e2
    requires 0 < i && 0 < j && j + 1 != i
    modifies r
    ensures Ring(Moved(r, i, j))
  {
    hide Ring, Rotated, Without;
    ghost var n := |r|;
    ghost var turned := Rotated(r, i);
    ghost var k := if j > i then j - i else n - i + j;
    RotatedRing(r, i);
    Turned(r, i, j);
    Neighbours(r, i);
    Neighbours(r, j);
    SwapListEntries(e1, e2, turned, k);
    ghost var s := Without(turned, k) + [e2];
    ghost var back := if j < i then n - i else n - i - 1;
    TurnedBack(r, i, j);
    RotatedRing(s, back);
  }

  lemma Turned<T>(r: seq<T>, i: nat, j: nat)
    requires 0 < i < |r| && 0 < j < |r| && i != j && j + 1 != i
    ensures var k := if j > i then j - i else |r| - i + j;
            && |Rotated(r, i)| == |r| && 0 < k < |r| - 1
            && Rotated(r, i)[0] == r[i] && Rotated(r, i)[k] == r[j]
  {}

  lemma TurnedBack<T>(r: seq<T>, i: nat, j: nat)
    requires 0 < i < |r| && 0 < j < |r| && i != j && j + 1 != i
    ensures var k := if j > i then j - i else |r| - i + j;
            var back := if j < i then |r| - i else |r| - i - 1;
            && |Rotated(r, i)| == |r|
            && back <= |Without(Rotated(r, i), k) + [r[j]]| == |r|
            && Rotated(Without(Rotated(r, i), k) + [r[j]], back) == Moved(r, i, j)
  {
    hide Rotated, Without, Moved;
    if j > i {
      var a, b, c := r[..i], r[i + 1..j], r[j + 1..];
      assert r == a + [r[i]] + b + [r[j]] + c;
      FromLater(a, r[i], b, r[j], c);
    } else {
      var a, b, c := r[..j], r[j + 1..i], r[i + 1..];
      assert r == a + [r[j]] + b + [r[i]] + c;
      FromEarlier(a, r[j], b, r[i], c);
    }
  }

  /** Entry2 (y) stands behind Entry1 (x). */
  lemma FromLater<T>(a: seq<T>, x: T, b: seq<T>, y: T, c: seq<T>)
    ensures var r := a + [x] + b + [y] + c;
            && Rotated(r, |a|) == [x] + b + [y] + c + a
            && Without([x] + b + [y] + c + a, |b| + 1) == [x] + b + c + a
            && Rotated([x] + b + c + a + [y], 1 + |b| + |c|) == a + [y] + [x] + b + c
            && Moved(r, |a|, |a| + 1 + |b|) == a + [y] + [x] + b + c
  {
    hide Rotated, Without, Moved;
    RotatedPieces(a, [x] + b + [y] + c);
    assert a + ([x] + b + [y] + c) == a + [x] + b + [y] + c;
    WithoutPieces([x] + b, y, c + a);
    assert [x] + b + [y] + (c + a) == [x] + b + [y] + c + a && [x] + b + (c + a) == [x] + b + c + a;
    RotatedPieces([x] + b + c, a + [y]);
    assert [x] + b + c + (a + [y]) == [x] + b + c + a + [y];
    assert a + [y] + ([x] + b + c) == a + [y] + [x] + b + c;
    MovedLater(a, x, b, y, c);
  }

  lemma RotatedPieces<T>(a: seq<T>, b: seq<T>)
    ensures Rotated(a + b, |a|) == b + a
  {}

  lemma WithoutPieces<T>(a: seq<T>, y: T, b: seq<T>)
    ensures Without(a + [y] + b, |a|) == a + b
  {}

  /** The parts of a sequence made of three. */
  lemma Cuts<T>(p: seq<T>, q: seq<T>, t: seq<T>)
    ensures (p + q + t)[..|p|] == p && (p + q + t)[|p|..|p| + |q|] == q && (p + q + t)[|p| + |q|..] == t
  {}

  lemma MovedLater<T>(a: seq<T>, x: T, b: seq<T>, y: T, c: seq<T>)
    ensures Moved(a + [x] + b + [y] + c, |a|, |a| + 1 + |b|) == a + [y] + [x] + b + c
  {
    var r, xb := a + [x] + b + [y] + c, [x] + b;
    assert r == a + xb + ([y] + c);
    Cuts(a, xb, [y] + c);
    assert r == a + xb + [y] + c;
    Cuts(a + xb, [y], c);
    assert r[|a| + 1 + |b|] == y;
    assert a + [y] + xb + c == a + [y] + [x] + b + c;
  }

  lemma MovedEarlier<T>(a: seq<T>, y: T, b: seq<T>, x: T, c: seq<T>)
    ensures Moved(a + [y] + b + [x] + c, |a| + 1 + |b|, |a|) == a + b + [y] + [x] + c
  {
    var r, xc := a + [y] + b + [x] + c, [x] + c;
    assert r == a + [y] + (b + xc);
    Cuts(a, [y], b + xc);
    assert r == (a + [y]) + b + xc;
    Cuts(a + [y], b, xc);
    assert r[|a|] == y;
    assert a + b + [y] + xc == a + b + [y] + [x] + c;
  }

  /** Entry2 (y) stands in front of Entry1 (x), not directly. */
  lemma FromEarlier<T>(a: seq<T>, y: T, b: seq<T>, x: T, c: seq<T>)
    ensures var r := a + [y] + b + [x] + c;
            && Rotated(r, |a| + 1 + |b|) == [x] + c + a + [y] + b
            && Without([x] + c + a + [y] + b, 1 + |c| + |a|) == [x] + c + a + b
            && Rotated([x] + c + a + b + [y], 1 + |c|) == a + b + [y] + [x] + c
            && Moved(r, |a| + 1 + |b|, |a|) == a + b + [y] + [x] + c
  {
    hide Rotated, Without, Moved;
    RotatedPieces(a + [y] + b, [x] + c);
    assert a + [y] + b + ([x] + c) == a + [y] + b + [x] + c;
    assert [x] + c + (a + [y] + b) == [x] + c + a + [y] + b;
    WithoutPieces([x] + c + a, y, b);
    RotatedPieces([x] + c, a + b + [y]);
    assert [x] + c + (a + b + [y]) == [x] + c + a + b + [y];
    assert a + b + [y] + ([x] + c) == a + b + [y] + [x] + c;
    MovedEarlier(a, y, b, x, c);
  }

  predicate AllAllowed(head: Entry, items: seq<Entry>, ops: seq<Op>)
    decreases |ops|
  {
    ops == [] || (Allowed(head, items, ops[0]) && AllAllowed(head, Apply(head, items, ops[0]), ops[1..]))
  }

  function ApplyAll(head: Entry, items: seq<Entry>, ops: seq<Op>): seq<Entry>
    requires AllAllowed(head, items, ops)
    decreases |ops|
  {
    if ops == [] then items else ApplyAll(head, Apply(head, items, ops[0]), ops[1..])
  }

  function AllEntries(ops: seq<Op>): set<Entry> {
    if ops == [] then {} else Entries(ops[0]) + AllEntries(ops[1..])
  }

  /** Whatever is done to a fresh list, the ring represents the abstract list. */
  method Run(head: Entry, ops: seq<Op>)
    requires AllAllowed(head, [], ops)
    modifies head, AllEntries(ops)
    ensures Ring([head] + ApplyAll(head, [], ops))
  {
    InitializeListHead(head);
    assert [head] + [] == [head];
    RunFrom(head, ops, []);
  }

  method RunFrom(head: Entry, ops: seq<Op>, ghost items: seq<Entry>)
    requires Ring([head] + items) && AllAllowed(head, items, ops)
    modifies head, items, AllEntries(ops)
    ensures Ring([head] + ApplyAll(head, items, ops))
    decreases |ops|
  {
    hide Ring, Allowed, Apply, Entries;
    if ops != [] {
      Perform(head, ops[0], items);
      ApplyKeeps(head, items, ops[0]);
      RunFrom(head, ops[1..], Apply(head, items, ops[0]));
    }
  }

  lemma ApplyKeeps(head: Entry, items: seq<Entry>, op: Op)
    requires Allowed(head, items, op)
    ensures forall e :: e in Apply(head, items, op) ==> e in items || e in Entries(op)
  {}

  /** Swapping the two entries of a ring of two breaks it. */
  method SwapInPair() returns (a: Entry, b: Entry)
    ensures fresh(a) && fresh(b)
    ensures forall s: seq<Entry> :: a in s ==> !Ring(s)
  {
    a := new Entry();
    b := new Entry();
    InitializeListHead(a);
    InsertTailList(a, b, [a]);
    assert [a] + [b] == [a, b];
    SwapListEntries(a, b, [a, b], 1);
  }

  /** Swapping an entry of such a ring with itself breaks it too. */
  method SwapWithItself() returns (a: Entry, b: Entry)
    ensures fresh(a) && fresh(b)
    ensures forall s: seq<Entry> :: b in s ==> !Ring(s)
  {
    a := new Entry();
    b := new Entry();
    InitializeListHead(a);
    InsertTailList(a, b, [a]);
    assert [a] + [b] == [a, b];
    SwapListEntries(a, a, [a, b], 0);
  }
}
