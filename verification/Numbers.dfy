/** Numbers to text and back (gnu-efi/lib/print.c:1257-1334, gnu-efi/lib/str.c:267-323). */
module Numbers {
  import opened Basics

  // ------------------------------------------------------------------ digits

  /** STATIC CHAR8 Hex[] */
  function DigitChar(d: nat): char
    requires d < 16
  {
    if d < 10 then ('0' as int + d) as char else ('A' as int + (d - 10)) as char
  }

  /** The digits of `v` in the given base, most significant first; "0" for zero. */
  function Text(v: nat, base: nat): (s: string)
    requires 2 <= base <= 16
    ensures |s| > 0
    decreases v
  {
    if v < base then [DigitChar(v)] else Text(v / base, base) + [DigitChar(v % base)]
  }

  function Pow(b: nat, n: nat): nat {
    if n == 0 then 1 else b * Pow(b, n - 1)
  }

  /** Fewer than b^n: at most n digits. */
  lemma {:induction false} DigitCount(v: nat, base: nat, n: nat)
    requires 2 <= base <= 16 && n > 0 && v < Pow(base, n)
    ensures |Text(v, base)| <= n
    decreases n
  {
    if v >= base {
      assert Pow(base, 1) == base * Pow(base, 0);
      assert n != 1;
      DivisionShrinks(v, base, Pow(base, n - 1));
      DigitCount(v / base, base, n - 1);
    }
  }

  lemma DivisionShrinks(v: nat, base: nat, p: nat)
    requires base > 0 && v < base * p
    ensures v / base < p
  {}

  lemma SixteenHexDigits(v: nat)
    requires v < TWO_TO_THE_64
    ensures |Text(v, 16)| <= 16
  {
    assert Pow(16, 4) == 0x1_0000;
    assert Pow(16, 8) == 0x1_0000_0000;
    assert Pow(16, 12) == 0x1_0000_0000_0000;
    assert Pow(16, 16) == TWO_TO_THE_64;
    DigitCount(v, 16, 16);
  }

  lemma TwentyDecimalDigits(v: nat)
    requires v < TWO_TO_THE_64
    ensures |Text(v, 10)| <= 20
  {
    assert Pow(10, 5) == 100000;
    assert Pow(10, 10) == 10000000000;
    assert Pow(10, 15) == 1000000000000000;
    assert Pow(10, 20) == 100000000000000000000;
    DigitCount(v, 10, 20);
  }

  // --------------------------------------------------------- number to text

  /** A C string of `s` at the start of the buffer, the rest untouched. */
  ghost predicate Holds(buffer: seq<char>, before: seq<char>, s: string) {
    && |s| < |buffer| == |before|
    && buffer[..|s|] == s && buffer[|s|] == '\0' && buffer[|s| + 1..] == before[|s| + 1..]
  }

  /** *p2 = 0 */
  method Terminate(buffer: array<char>, at: nat, ghost before: seq<char>, ghost s: string)
    requires at == |s| < buffer.Length == |before|
    requires buffer[..at] == s && buffer[at..] == before[at..]
    modifies buffer
    ensures Holds(buffer[..], before, s)
  {
    ghost var was := buffer[..];
    buffer[at] := '\0';
    assert buffer[..] == was[at := '\0'];
    assert buffer[at + 1..] == was[at..][1..];
    assert before[at + 1..] == before[at..][1..];
  }

  /** ValueToHex */
  method ValueToHex(buffer: array<char>, value: nat)
    requires value < TWO_TO_THE_64 && buffer.Length >= 17
    modifies buffer
    ensures Holds(buffer[..], old(buffer[..]), Text(value, 16))
  {
    SixteenHexDigits(value);
    if value == 0 {
      buffer[0] := '0';
      buffer[1] := '\0';
      return;
    }
    var str := new char[30];
    var p1 := StackDigits(str, value, 16);
    var p2 := 0;
    ghost var digits := Text(value, 16);
    while p1 != 0
      invariant 0 <= p1 <= |digits| && p2 == |digits| - p1
      invariant forall i :: 0 <= i < |digits| ==> str[i] == digits[|digits| - 1 - i]
      invariant buffer[..p2] == digits[..p2] && buffer[p2..] == old(buffer[p2..])
    {
      p1 := p1 - 1;
      buffer[p2] := str[p1];
      p2 := p2 + 1;
    }
    Terminate(buffer, p2, old(buffer[..]), digits);
  }

  /** The digit loop of both conversions: least significant digit first. */
  method StackDigits(str: array<char>, value: nat, base: nat) returns (p1: nat)
    requires 2 <= base <= 16 && value > 0 && |Text(value, base)| <= str.Length
    modifies str
    ensures p1 == |Text(value, base)|
    ensures forall i :: 0 <= i < p1 ==> str[i] == Text(value, base)[p1 - 1 - i]
  {
    hide Text;
    ghost var digits := Text(value, base);
    var v: nat := value;
    p1 := 0;
    while v != 0
      invariant 0 <= p1 <= |digits|
      invariant if v == 0 then p1 == |digits| else Text(v, base) == digits[..|digits| - p1]
      invariant forall i :: 0 <= i < p1 ==> str[i] == digits[|digits| - 1 - i]
      decreases v
    {
      TextStep(v, base);
      ghost var t := Text(v, base);
      assert t[|t| - 1] == digits[|digits| - 1 - p1];
      str[p1] := DigitChar(v % base);
      v := v / base;
      p1 := p1 + 1;
    }
  }

  lemma TextStep(v: nat, base: nat)
    requires 2 <= base <= 16 && v > 0
    ensures v / base < v && v % base < base
    ensures var t := Text(v, base);
            && t[|t| - 1] == DigitChar(v % base)
            && (if v / base == 0 then |t| == 1 else Text(v / base, base) == t[..|t| - 1])
  {
    if v < base {
      SmallQuotient(v, base);
    } else {
      LargeQuotient(v, base);
    }
  }

  lemma SmallQuotient(v: nat, base: nat)
    requires v < base
    ensures v / base == 0 && v % base == v
  {}

  lemma LargeQuotient(v: nat, base: nat)
    requires 2 <= base <= v
    ensures 0 < v / base < v
  {}

  /** Digits in groups of three counted from the right. */
  function Grouped(ds: string): string {
    if |ds| <= 3 then ds else Grouped(ds[..|ds| - 3]) + "," + ds[|ds| - 3..]
  }

  /** A comma stands before digit `j` of `n`. */
  predicate CommaDue(n: nat, comma: bool, j: nat) {
    comma && j > 0 && (n - j) % 3 == 0
  }

  function Piece(comma: bool, digit: char): string {
    (if comma then "," else "") + [digit]
  }

  /** What the output loop has written of `ds` after `j` digits. */
  function GroupedTo(ds: string, comma: bool, j: nat): string
    requires j <= |ds|
  {
    if j == 0 then ""
    else GroupedTo(ds, comma, j - 1) + Piece(CommaDue(|ds|, comma, j - 1), ds[j - 1])
  }

  lemma {:induction false} GroupedToPrefix(ds: string, j: nat)
    requires |ds| >= 3 && j <= |ds| - 3
    ensures GroupedTo(ds, true, j) == GroupedTo(ds[..|ds| - 3], true, j)
  {
    if j > 0 {
      DueAgain(|ds| - 3, j - 1);
      hide CommaDue, Piece;
      GroupedToPrefix(ds, j - 1);
      assert ds[..|ds| - 3][j - 1] == ds[j - 1];
    }
  }

  lemma DueAgain(n: nat, j: nat)
    ensures CommaDue(n + 3, true, j) == CommaDue(n, true, j)
  {}

  lemma {:induction false} GroupedToIsGrouped(ds: string)
    ensures GroupedTo(ds, true, |ds|) == Grouped(ds)
    ensures GroupedTo(ds, false, |ds|) == ds
  {
    PlainIsCopy(ds, |ds|);
    var n := |ds|;
    if n <= 3 {
      FewDigits(ds, n);
    } else {
      GroupedToPrefix(ds, n - 3);
      GroupedToIsGrouped(ds[..n - 3]);
      LastGroup(ds);
    }
  }

  lemma {:induction false} FewDigits(ds: string, j: nat)
    requires j <= |ds| <= 3
    ensures GroupedTo(ds, true, j) == ds[..j]
  {
    if j > 0 {
      FewDigits(ds, j - 1);
    }
  }

  lemma LastGroup(ds: string)
    requires |ds| > 3
    ensures GroupedTo(ds, true, |ds|) == GroupedTo(ds, true, |ds| - 3) + "," + ds[|ds| - 3..]
  {
    hide GroupedTo;
    var k := |ds| - 3;
    GroupStep(ds, k);
    GroupStep(ds, k + 1);
    GroupStep(ds, k + 2);
    assert k + 1 + 1 == k + 2 && k + 2 + 1 == |ds|;
    FourMore(ds, k, GroupedTo(ds, true, k), GroupedTo(ds, true, k + 1), GroupedTo(ds, true, k + 2),
             GroupedTo(ds, true, |ds|));
  }

  lemma FourMore(ds: string, k: nat, g0: string, g1: string, g2: string, g3: string)
    requires k + 3 == |ds|
    requires g1 == g0 + "," + [ds[k]] && g2 == g1 + [ds[k + 1]] && g3 == g2 + [ds[k + 2]]
    ensures g3 == g0 + "," + ds[k..]
  {}

  lemma GroupStep(ds: string, j: nat)
    requires 0 < j < |ds| <= j + 3
    ensures |ds| == j + 3 ==> GroupedTo(ds, true, j + 1) == GroupedTo(ds, true, j) + "," + [ds[j]]
    ensures |ds| < j + 3 ==> GroupedTo(ds, true, j + 1) == GroupedTo(ds, true, j) + [ds[j]]
  {}

  lemma {:induction false} PlainIsCopy(ds: string, j: nat)
    requires j <= |ds|
    ensures GroupedTo(ds, false, j) == ds[..j]
  {
    if j > 0 {
      PlainIsCopy(ds, j - 1);
    }
  }

  /** Commas stand exactly at every fourth place from the right, never first. */
  lemma {:induction false} CommaPlaces(ds: string, i: nat)
    requires ',' !in ds && i < |Grouped(ds)|
    ensures Grouped(ds)[i] == ',' <==> (|Grouped(ds)| - i) % 4 == 0
    ensures |Grouped(ds)| % 4 == 0 ==> ds == ""
  {
    GroupedParts(ds);
    hide Grouped;
    var n := |ds|;
    if n > 3 {
      var h := Grouped(ds[..n - 3]);
      CommaPlaces(ds[..n - 3], if i < |h| then i else 0);
      EveryFourth(|h|, i);
    }
  }

  lemma GroupedParts(ds: string)
    ensures |ds| <= 3 ==> Grouped(ds) == ds
    ensures |ds| > 3 ==> Grouped(ds) == Grouped(ds[..|ds| - 3]) + "," + ds[|ds| - 3..] && |Grouped(ds[..|ds| - 3])| > 0
  {}

  lemma EveryFourth(n: nat, i: nat)
    requires i < n + 4
    ensures (n + 4) % 4 == n % 4 && (n + 4 - i) % 4 == if i < n then (n - i) % 4 else (n + 4 - i) % 4
    ensures i >= n ==> ((n + 4 - i) % 4 == 0 <==> i == n)
  {}

  function WithoutCommas(s: string): string {
    if s == "" then "" else (if s[0] == ',' then "" else [s[0]]) + WithoutCommas(s[1..])
  }

  lemma {:induction false} WithoutCommasAppend(a: string, b: string)
    ensures WithoutCommas(a + b) == WithoutCommas(a) + WithoutCommas(b)
  {
    if a == "" {
      assert a + b == b;
    } else {
      assert (a + b)[1..] == a[1..] + b;
      WithoutCommasAppend(a[1..], b);
    }
  }

  lemma {:induction false} NoCommas(s: string)
    requires ',' !in s
    ensures WithoutCommas(s) == s
  {
    if s != "" {
      NoCommas(s[1..]);
    }
  }

  lemma CommaGone()
    ensures WithoutCommas(",") == ""
  {
    assert ","[1..] == "";
  }

  /** Grouping inserts nothing but commas. */
  lemma {:induction false} GroupingOnlyAddsCommas(ds: string)
    requires ',' !in ds
    ensures WithoutCommas(Grouped(ds)) == ds
  {
    hide Grouped, WithoutCommas;
    GroupedParts(ds);
    CommaGone();
    var n := |ds|;
    if n <= 3 {
      NoCommas(ds);
    } else {
      var a, b := ds[..n - 3], ds[n - 3..];
      GroupingOnlyAddsCommas(a);
      WithoutCommasAppend(Grouped(a) + ",", b);
      WithoutCommasAppend(Grouped(a), ",");
      NoCommas(b);
      assert ds == a + b;
    }
  }

  // ------------------------------------------------------ ValueToString

  /** Two's complement negation and reinterpretation of a 64-bit value: v = -v; (UINT64) v. */
  function Negated(v: int): int {
    if v == -(TWO_TO_THE_63 as int) then v else -v
  }

  function Unsigned(v: int): nat
    requires -(TWO_TO_THE_63 as int) <= v < TWO_TO_THE_63
  {
    if v < 0 then v + TWO_TO_THE_64 else v
  }

  /** What ValueToString promises: sign, decimal digits, grouped on request. */
  function DecimalText(v: int, comma: bool): string {
    (if v < 0 then "-" else "") + Magnitude(if v < 0 then -v else v, comma)
  }

  /** The counter at the start (line 1322, with the table `ca`). */
  function StartCounter(n: nat, comma: bool): int {
    (if comma then [3, 1, 2][n % 3] else 999) + 1
  }

  /** The counter `c` before digit `j` of `n`: it reaches zero where a comma is due. */
  function Counter(n: nat, comma: bool, j: nat): int {
    if !comma then 1000 - j
    else if j == 0 then 1 + (if n % 3 == 0 then 3 else n % 3)
    else 1 + (n - j) % 3
  }

  lemma CounterStep(n: nat, comma: bool, j: nat)
    requires j < n <= 20
    ensures (Counter(n, comma, j) - 1 == 0) == CommaDue(n, comma, j)
    ensures Counter(n, comma, j + 1) ==
            if Counter(n, comma, j) - 1 == 0 then 3 else Counter(n, comma, j) - 1
  {
    if comma {
      var r := n - j - 1;
      assert n - j == r + 1;
    }
  }

  lemma {:induction false} GroupedToLength(ds: string, comma: bool, j: nat)
    requires j <= |ds|
    ensures |GroupedTo(ds, comma, j)| <= 2 * j
  {
    if j > 0 {
      GroupedToLength(ds, comma, j - 1);
    }
  }

  /** ValueToString, for every 64-bit signed value. */
  method ValueToString(buffer: array<char>, comma: bool, value: int)
    requires -(TWO_TO_THE_63 as int) <= value < TWO_TO_THE_63 && buffer.Length >= 42
    modifies buffer
    ensures Holds(buffer[..], old(buffer[..]), DecimalText(value, comma))
  {
    if value == 0 {
      buffer[0] := '0';
      buffer[1] := '\0';
      return;
    }
    var p2 := 0;
    var v := value;
    if v < 0 {
      buffer[0] := '-';
      p2 := 1;
      v := Negated(v);
    }
    ghost var sign := if value < 0 then "-" else "";
    assert buffer[..p2] == sign;
    MagnitudeOf(value);
    hide Text, Grouped, Unsigned, Negated;
    var end := EmitMagnitude(buffer, p2, comma, Unsigned(v));
    Terminate(buffer, end, old(buffer[..]), DecimalText(value, comma));
  }

  lemma MagnitudeOf(value: int)
    requires -(TWO_TO_THE_63 as int) <= value < TWO_TO_THE_63
    ensures Unsigned(if value < 0 then Negated(value) else value) == (if value < 0 then -value else value)
  {}

  /** Digits of the magnitude, grouped on request. */
  function Magnitude(m: nat, comma: bool): string {
    if comma then Grouped(Text(m, 10)) else Text(m, 10)
  }

  /** Lines 1317-1332. */
  method EmitMagnitude(buffer: array<char>, at: nat, comma: bool, magnitude: nat) returns (p2: nat)
    requires 0 < magnitude < TWO_TO_THE_64 && at <= 1 && buffer.Length >= 42
    modifies buffer
    ensures p2 == at + |Magnitude(magnitude, comma)| < buffer.Length
    ensures buffer[..p2] == old(buffer[..at]) + Magnitude(magnitude, comma)
    ensures buffer[p2..] == old(buffer[p2..])
  {
    hide Text, Grouped, GroupedTo, Written;
    TwentyDecimalDigits(magnitude);
    var str := new char[40];
    var p1 := StackDigits(str, magnitude, 10);
    ghost var digits := Text(magnitude, 10);
    GroupedToIsGrouped(digits);
    assert Mirrored(str[..p1], digits);
    ghost var was := buffer[..];
    p2 := EmitDigits(buffer, str, p1, at, comma, digits);
    WrittenParts(buffer, was, at, GroupedTo(digits, comma, p1));
  }

  /** `text` has been written over `was` from `at` on. */
  predicate Written(now: string, was: string, at: nat, text: string) {
    at + |text| <= |was| && now == was[..at] + text + was[at + |text|..]
  }

  lemma WrittenOn(now: string, mid: string, was: string, at: nat, a: string, b: string)
    requires Written(mid, was, at, a) && Written(now, mid, at + |a|, b)
    ensures Written(now, was, at, a + b)
  {
    assert mid[..at + |a|] == was[..at] + a;
    assert mid[at + |a| + |b|..] == was[at + |a| + |b|..];
  }

  lemma NothingEmitted(was: string, at: nat, digits: string, comma: bool)
    requires at <= |was|
    ensures Emitted(was, was, at, digits, comma, 0, at, StartCounter(|digits|, comma))
  {
    hide Written, Counter, StartCounter;
    CounterStart(|digits|, comma);
    GroupedStart(digits, comma);
    NothingWritten(was, at);
  }

  lemma AllEmitted(now: string, was: string, at: nat, digits: string, comma: bool, p2: int, c: int)
    requires Emitted(now, was, at, digits, comma, |digits|, p2, c) && |digits| <= 20 && at <= 1 && |was| >= 42
    ensures p2 == at + |GroupedTo(digits, comma, |digits|)| < |was|
    ensures Written(now, was, at, GroupedTo(digits, comma, |digits|))
  {
    hide Written, Counter, GroupedTo;
    GroupedToLength(digits, comma, |digits|);
  }

  lemma NothingWritten(was: string, at: nat)
    requires at <= |was|
    ensures Written(was, was, at, "")
  {}

  lemma WrittenParts(now: array<char>, was: string, at: nat, text: string)
    requires Written(now[..], was, at, text)
    ensures at + |text| <= now.Length == |was|
    ensures now[..at + |text|] == was[..at] + text && now[at + |text|..] == was[at + |text|..]
  {
    assert now[..at + |text|] == now[..][..at + |text|] && now[at + |text|..] == now[..][at + |text|..];
  }

  /** The output loop, lines 1322-1332. */
  method EmitDigits(buffer: array<char>, str: array<char>, count: nat, at: nat, comma: bool, ghost digits: string)
    returns (p2: nat)
    requires buffer != str && count == |digits| <= 20 && count <= str.Length && at <= 1 && buffer.Length >= 42
    requires Mirrored(str[..count], digits)
    modifies buffer
    ensures p2 == at + |GroupedTo(digits, comma, count)| < buffer.Length
    ensures Written(buffer[..], old(buffer[..]), at, GroupedTo(digits, comma, count))
  {
    hide GroupedTo, Counter, StartCounter, Written, Mirrored, Emitted;
    ghost var was := buffer[..];
    var p1 := count;
    p2 := at;
    var c := StartCounter(count, comma);
    NothingEmitted(was, at, digits, comma);
    while p1 != 0
      invariant 0 <= p1 <= count && |buffer[..]| == |was|
      invariant Emitted(buffer[..], was, at, digits, comma, count - p1, p2, c)
    {
      ghost var j := count - p1;
      p1 := p1 - 1;
      MirroredAt(str[..count], digits, p1);
      p2, c := EmitNext(buffer, p2, c, str[p1], was, at, digits, comma, j);
    }
    AllEmitted(buffer[..], was, at, digits, comma, p2, c);
  }

  /** Where the output loop stands after `j` digits. */
  ghost predicate Emitted(now: string, was: string, at: nat, digits: string, comma: bool, j: nat, p2: int, c: int) {
    && j <= |digits|
    && c == Counter(|digits|, comma, j)
    && p2 == at + |GroupedTo(digits, comma, j)|
    && Written(now, was, at, GroupedTo(digits, comma, j))
  }

  /** One round of the output loop. */
  method EmitNext(buffer: array<char>, at: nat, counter: int, digit: char,
                  ghost was: string, ghost start: nat, ghost digits: string, ghost comma: bool, ghost j: nat)
    returns (p2: nat, c: int)
    requires Emitted(buffer[..], was, start, digits, comma, j, at, counter)
    requires j < |digits| <= 20 && digit == digits[j] && start <= 1 && buffer.Length == |was| >= 42
    modifies buffer
    ensures Emitted(buffer[..], was, start, digits, comma, j + 1, p2, c)
  {
    hide GroupedTo, Counter, CommaDue, Piece, Written;
    ghost var mid := buffer[..];
    CounterStep(|digits|, comma, j);
    GroupedToLength(digits, comma, j);
    GroupedNext(digits, comma, j);
    c := counter - 1;
    var due := c == 0;
    if due {
      c := 3;
    }
    p2 := EmitDigit(buffer, at, due, digit);
    WrittenOn(buffer[..], mid, was, start, GroupedTo(digits, comma, j), Piece(due, digit));
  }

  /** The digits are stacked, the last one lowest. */
  predicate Mirrored(s: string, digits: string) {
    |s| == |digits| && forall i :: 0 <= i < |s| ==> s[i] == digits[|s| - 1 - i]
  }

  lemma MirroredAt(s: string, digits: string, i: nat)
    requires Mirrored(s, digits) && i < |s|
    ensures s[i] == digits[|digits| - 1 - i]
  {}

  /** A comma when one is due, and the digit. */
  method EmitDigit(buffer: array<char>, at: nat, comma: bool, digit: char) returns (p2: nat)
    requires at + 2 <= buffer.Length
    modifies buffer
    ensures p2 == at + |Piece(comma, digit)|
    ensures Written(buffer[..], old(buffer[..]), at, Piece(comma, digit))
  {
    p2 := at;
    if comma {
      buffer[p2] := ',';
      p2 := p2 + 1;
    }
    buffer[p2] := digit;
    p2 := p2 + 1;
  }

  lemma CounterStart(n: nat, comma: bool)
    ensures Counter(n, comma, 0) == StartCounter(n, comma)
  {
    if n % 3 == 1 {
    } else if n % 3 == 2 {
    }
  }

  lemma GroupedStart(ds: string, comma: bool)
    ensures GroupedTo(ds, comma, 0) == ""
  {}

  lemma GroupedNext(ds: string, comma: bool, j: nat)
    requires j < |ds|
    ensures GroupedTo(ds, comma, j + 1) ==
            GroupedTo(ds, comma, j) + Piece(CommaDue(|ds|, comma, j), ds[j])
  {}

  // --------------------------------------------------------- text to number

  function DigitValue(c: char, base: nat): int {
    if '0' <= c <= '9' then c as int - '0' as int
    else if base == 16 && 'A' <= c <= 'F' then c as int - 'A' as int + 10
    else if base == 16 && 'a' <= c <= 'f' then c as int - 'a' as int + 10
    else -1
  }

  /** Digits read onto `u`, up to the first character that is not one. */
  function ReadDigits(u: nat, s: string, base: nat): nat
    requires base == 10 || base == 16
    decreases |s|
  {
    if s == "" || DigitValue(s[0], base) < 0 then u
    else ReadDigits(u * base + DigitValue(s[0], base), s[1..], base)
  }

  function SkipSpaces(s: string): string {
    if s != "" && s[0] == ' ' then SkipSpaces(s[1..]) else s
  }

  /** A UINTN keeps the low 64 bits. */
  function Wrap(u: nat): nat {
    u % TWO_TO_THE_64
  }

  lemma WrapSteps(u: nat, d: nat)
    ensures Wrap(Wrap(u) * 16 + d) == Wrap(u * 16 + d)
    ensures Wrap(Wrap(u) * 10 + d) == Wrap(u * 10 + d)
  {
    var q, r := u / TWO_TO_THE_64, u % TWO_TO_THE_64;
    assert u == q * TWO_TO_THE_64 + r;
    WrapAdds(r * 16 + d, q * 16);
    WrapAdds(r * 10 + d, q * 10);
  }

  lemma WrapAdds(x: nat, k: nat)
    ensures Wrap(x + k * TWO_TO_THE_64) == Wrap(x)
  {}

  lemma {:induction false} ReadDigitsWraps(u: nat, s: string, base: nat)
    requires base == 10 || base == 16
    ensures Wrap(ReadDigits(Wrap(u), s, base)) == Wrap(ReadDigits(u, s, base))
    decreases |s|
  {
    hide Wrap;
    if s == "" || DigitValue(s[0], base) < 0 {
      WrapTwice(u);
    } else {
      var d := DigitValue(s[0], base);
      hide DigitValue;
      WrapSteps(u, d);
      ReadDigitsWraps(u * base + d, s[1..], base);
      ReadDigitsWraps(Wrap(u) * base + d, s[1..], base);
    }
  }

  lemma WrapTwice(u: nat)
    ensures Wrap(Wrap(u)) == Wrap(u)
  {}

  lemma WrapSmall(u: nat)
    requires u < TWO_TO_THE_64
    ensures Wrap(u) == u
  {}

  /** u << 4 leaves room for one digit: (u << 4) | d. */
  lemma ShiftIn(u: nat, d: nat)
    requires d < 16
    ensures Wrap(u * 16) + d == Wrap(u * 16 + d)
  {
    var q, r := u / 0x1000_0000_0000_0000, u % 0x1000_0000_0000_0000;
    assert u * 16 == q * TWO_TO_THE_64 + r * 16;
    WrapAdds(r * 16, q);
    WrapAdds(r * 16 + d, q);
    WrapSmall(r * 16);
    WrapSmall(r * 16 + d);
    hide Wrap;
  }

  lemma ReadStep(u: nat, str: string, i: nat, base: nat)
    requires (base == 10 || base == 16) && i < |str|
    ensures var d := DigitValue(str[i], base);
            if d < 0 then ReadDigits(u, str[i..], base) == u
            else Wrap(ReadDigits(u, str[i..], base)) == Wrap(ReadDigits(Wrap(u * base + d), str[i + 1..], base))
  {
    var d := DigitValue(str[i], base);
    if d >= 0 {
      assert str[i..][1..] == str[i + 1..];
      ReadDigitsWraps(u * base + d, str[i + 1..], base);
    }
  }

  /** xtoi, on a 64-bit UINTN */
  method Xtoi(str: string) returns (u: nat)
    requires '\0' !in str
    ensures u == Wrap(ReadDigits(0, SkipSpaces(str), 16))
  {
    hide Wrap, ReadDigits;
    var i := SkipLeading(str);
    u := 0;
    ghost var all := ReadDigits(0, str[i..], 16);
    WrapSmall(0);
    while i < |str|
      invariant 0 <= i <= |str| && Wrap(u) == u
      invariant Wrap(ReadDigits(u, str[i..], 16)) == Wrap(all)
    {
      ReadStep(u, str, i, 16);
      var c := str[i];
      i := i + 1;
      if 'a' <= c <= 'f' {
        c := (c as int - ('a' as int - 'A' as int)) as char;
      }
      if '0' <= c <= '9' || 'A' <= c <= 'F' {
        var d := c as int - (if c >= 'A' then 'A' as int - 10 else '0' as int);
        ShiftIn(u, d);
        WrapTwice(u * 16 + d);
        u := Wrap(u * 16) + d;
      } else {
        return;
      }
    }
    ReadNothing(u, str, 16);
  }

  lemma ReadNothing(u: nat, str: string, base: nat)
    requires base == 10 || base == 16
    ensures ReadDigits(u, str[|str|..], base) == u
  {}

  method SkipLeading(str: string) returns (i: nat)
    ensures i <= |str| && str[i..] == SkipSpaces(str)
  {
    i := 0;
    assert str[0..] == str;
    while i < |str| && str[i] == ' '
      invariant 0 <= i <= |str| && SkipSpaces(str[i..]) == SkipSpaces(str)
    {
      assert str[i..][1..] == str[i + 1..];
      i := i + 1;
    }
  }

  /** Atoi, on a 64-bit UINTN */
  method Atoi(str: string) returns (u: nat)
    requires '\0' !in str
    ensures u == Wrap(ReadDigits(0, SkipSpaces(str), 10))
  {
    hide Wrap, ReadDigits;
    var i := SkipLeading(str);
    u := 0;
    ghost var all := ReadDigits(0, str[i..], 10);
    WrapSmall(0);
    while i < |str|
      invariant 0 <= i <= |str| && Wrap(u) == u
      invariant Wrap(ReadDigits(u, str[i..], 10)) == Wrap(all)
    {
      ReadStep(u, str, i, 10);
      var c := str[i];
      i := i + 1;
      if '0' <= c <= '9' {
        WrapTwice(u * 10 + (c as int - '0' as int));
        u := Wrap(u * 10 + (c as int - '0' as int));
      } else {
        return;
      }
    }
    ReadNothing(u, str, 10);
  }

  // ------------------------------------------------------------ round trips

  ghost predicate AllDigits(s: string, base: nat) {
    forall i :: 0 <= i < |s| ==> DigitValue(s[i], base) >= 0
  }

  lemma {:induction false} ReadDigitsAppend(u: nat, s: string, c: char, base: nat)
    requires base == 10 || base == 16
    requires AllDigits(s, base) && DigitValue(c, base) >= 0
    ensures ReadDigits(u, s + [c], base) == ReadDigits(u, s, base) * base + DigitValue(c, base)
    decreases |s|
  {
    if s == "" {
      assert (s + [c])[1..] == "";
    } else {
      assert (s + [c])[1..] == s[1..] + [c];
      ReadDigitsAppend(u * base + DigitValue(s[0], base), s[1..], c, base);
    }
  }

  lemma DigitRoundTrip(d: nat, base: nat)
    requires (base == 10 || base == 16) && d < base
    ensures DigitChar(d) == "0123456789ABCDEF"[d]
    ensures DigitValue(DigitChar(d), base) == d && DigitChar(d) != ' ' && DigitChar(d) != ','
  {}

  lemma {:induction false} ReadText(v: nat, base: nat)
    requires base == 10 || base == 16
    ensures AllDigits(Text(v, base), base) && ReadDigits(0, Text(v, base), base) == v
    ensures Text(v, base)[0] != ' ' && ',' !in Text(v, base)
    decreases v
  {
    hide DigitChar, DigitValue, ReadDigits;
    if v < base {
      DigitRoundTrip(v, base);
      ReadOne(DigitChar(v), base);
    } else {
      Quotient(v, base);
      ReadText(v / base, base);
      DigitRoundTrip(v % base, base);
      ReadDigitsAppend(0, Text(v / base, base), DigitChar(v % base), base);
    }
  }

  lemma ReadOne(c: char, base: nat)
    requires (base == 10 || base == 16) && DigitValue(c, base) >= 0
    ensures ReadDigits(0, [c], base) == DigitValue(c, base)
  {
    assert [c][1..] == "";
  }

  lemma Quotient(v: nat, base: nat)
    requires base == 10 || base == 16
    ensures v == v / base * base + v % base && v % base < base
  {
    if base == 10 {
    } else {
    }
  }

  /** xtoi undoes ValueToHex for every 64-bit value; Atoi undoes ValueToString without commas. */
  lemma RoundTrips(v: nat)
    requires v < TWO_TO_THE_64
    ensures Wrap(ReadDigits(0, SkipSpaces(Text(v, 16)), 16)) == v
    ensures Wrap(ReadDigits(0, SkipSpaces(DecimalText(v, false)), 10)) == v
  {
    ReadText(v, 16);
    ReadText(v, 10);
    WrapSmall(v);
    hide Wrap, ReadDigits, Text;
    assert DecimalText(v, false) == Text(v, 10);
  }

  // ------------------------------------------------- numerals as people write them

  /** The same digit, whichever the case of its letter. */
  predicate SameDigit(c: char, d: char) {
    c == d || exists i :: 0 <= i < 6 && c == "abcdef"[i] && d == "ABCDEF"[i]
  }

  predicate SameDigits(s: string, t: string) {
    |s| == |t| && forall i :: 0 <= i < |s| ==> SameDigit(s[i], t[i])
  }

  predicate Ends(tail: string, digits: string) {
    tail == "" || tail[0] !in digits
  }

  lemma SameValue(c: char, d: char, base: nat)
    requires (if base == 10 then c == d else SameDigit(c, d)) && DigitValue(d, base) >= 0
    ensures DigitValue(c, base) == DigitValue(d, base)
  {}

  lemma EndOfDigits(tail: string, base: nat)
    requires base == 10 || base == 16
    requires Ends(tail, if base == 10 then "0123456789" else "0123456789abcdefABCDEF")
    ensures tail == "" || DigitValue(tail[0], base) < 0
  {
    hide DigitValue;
    if tail != "" && DigitValue(tail[0], base) >= 0 {
      DigitListed(tail[0], base);
    }
  }

  lemma DigitListed(c: char, base: nat)
    requires (base == 10 || base == 16) && DigitValue(c, base) >= 0
    ensures c in if base == 10 then "0123456789" else "0123456789abcdefABCDEF"
  {
    var i := if '0' <= c <= '9' then c as int - '0' as int
             else if 'a' <= c <= 'f' then 10 + (c as int - 'a' as int) else 16 + (c as int - 'A' as int);
    assert (if base == 10 then "0123456789" else "0123456789abcdefABCDEF")[i] == c;
  }

  /** Reading stops at the first character that is no digit, and the case of letters makes no difference. */
  lemma {:induction false} ReadAlike(u: nat, s: string, t: string, tail: string, base: nat)
    requires base == 10 || base == 16
    requires if base == 10 then s == t else SameDigits(s, t)
    requires AllDigits(t, base)
    requires tail == "" || DigitValue(tail[0], base) < 0
    ensures ReadDigits(u, s + tail, base) == ReadDigits(u, t, base)
    decreases |s|
  {
    hide DigitValue, SameDigit;
    if s == "" {
      assert s + tail == tail;
    } else {
      SameValue(s[0], t[0], base);
      assert (s + tail)[1..] == s[1..] + tail;
      ReadAlike(u * base + DigitValue(t[0], base), s[1..], t[1..], tail, base);
    }
  }

  lemma {:induction false} ZerosRead(zeros: string, t: string, base: nat)
    requires (base == 10 || base == 16) && forall i :: 0 <= i < |zeros| ==> zeros[i] == '0'
    ensures ReadDigits(0, zeros + t, base) == ReadDigits(0, t, base)
  {
    if zeros == "" {
      assert zeros + t == t;
    } else {
      assert (zeros + t)[1..] == zeros[1..] + t;
      ZerosRead(zeros[1..], t, base);
    }
  }

  lemma {:induction false} SpacesSkipped(spaces: string, t: string)
    requires (forall i :: 0 <= i < |spaces| ==> spaces[i] == ' ') && (t == "" || t[0] != ' ')
    ensures SkipSpaces(spaces + t) == t
  {
    if spaces == "" {
      assert spaces + t == t;
    } else {
      assert (spaces + t)[1..] == spaces[1..] + t;
      SpacesSkipped(spaces[1..], t);
    }
  }

  /** xtoi and Atoi read a numeral behind spaces and leading zeros, in letters of either case, up to whatever follows,
      modulo 2^64. */
  lemma NumeralRead(spaces: string, zeros: string, s: string, tail: string, v: nat, base: nat)
    requires base == 10 || base == 16
    requires forall i :: 0 <= i < |spaces| ==> spaces[i] == ' '
    requires forall i :: 0 <= i < |zeros| ==> zeros[i] == '0'
    requires if base == 10 then s == Text(v, 10) else SameDigits(s, Text(v, 16))
    requires Ends(tail, if base == 10 then "0123456789" else "0123456789abcdefABCDEF")
    ensures Wrap(ReadDigits(0, SkipSpaces(spaces + (zeros + (s + tail))), base)) == v % 0x1_0000_0000_0000_0000
  {
    hide Text, ReadDigits, DigitValue, SkipSpaces;
    ReadText(v, base);
    var numeral := zeros + (s + tail);
    assert s[0] != ' ' by {
      assert base == 16 ==> SameDigit(s[0], Text(v, 16)[0]);
    }
    SpacesSkipped(spaces, numeral);
    ZerosRead(zeros, s + tail, base);
    EndOfDigits(tail, base);
    ReadAlike(0, s, Text(v, base), tail, base);
  }

  /** Without a digit behind the spaces, both give zero. */
  lemma NoNumeral(spaces: string, tail: string, base: nat)
    requires (base == 10 || base == 16) && forall i :: 0 <= i < |spaces| ==> spaces[i] == ' '
    requires Ends(tail, if base == 10 then "0123456789 " else "0123456789abcdefABCDEF ")
    ensures Wrap(ReadDigits(0, SkipSpaces(spaces + tail), base)) == 0
  {
    SpacesSkipped(spaces, tail);
  }
}
