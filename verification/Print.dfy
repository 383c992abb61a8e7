/** The print engine (gnu-efi/lib/print.c:313-463, 845-1255): characters collect in a
    200-character chunk that is flushed into a string of fixed or growing size.  Wherever the
    flushes fall, the string holds what module PrintFormat says the format prints. */
module Print {
  import opened Basics
  import opened Numbers
  import opened PrintFormat

  const PRINT_STRING_LEN: nat := 200
  const PRINT_ITEM_BUFFER_LEN: nat := 100

  /** A C string: `s` and a NUL at the start of the array. */
  ghost predicate CString(a: seq<char>, s: string) {
    |s| < |a| && NoNul(s) && a[..|s|] == s && a[|s|] == '\0'
  }

  method StrLen(a: array<char>, ghost s: string) returns (n: nat)
    requires CString(a[..], s)
    ensures n == |s|
  {
    n := 0;
    while a[n] != '\0'
      invariant 0 <= n <= |s| < a.Length
      invariant CString(a[..], s)
      decreases |s| - n
    {
      assert a[..][..|s|][n] == a[n];
      n := n + 1;
    }
  }

  function Take(s: string, n: nat): string {
    if |s| <= n then s else s[..n]
  }

  /** Truncating as the text arrives is truncating it at the end. */
  lemma TakeTwice(all: string, s: string, n: nat)
    ensures Take(Take(all, n) + s, n) == Take(all + s, n)
  {}

  lemma TakeSome(before: string, s: string, maxlen: nat, n: nat)
    requires |before| <= maxlen && n <= |s| && n == if |before| + |s| > maxlen then maxlen - |before| else |s|
    ensures Take(before + s, maxlen) == before + s[..n]
  {}

  lemma PoolText(all: string, s: string, lost: nat, maxlen: nat)
    requires lost <= |all| && |all| - lost + |s| < maxlen
    ensures Take(all[lost..] + s, maxlen) == (all + s)[lost..]
  {}

  /** A chunk that was flushed, and the number of the allocation it asked for, if it asked for one. */
  datatype Chunk = Chunk(text: string, tried: Option<nat>)

  predicate Stored(alloc: nat -> bool, c: Chunk) {
    c.tried.None? || alloc(c.tried.value)
  }

  function Flat(cs: seq<Chunk>): string {
    if cs == [] then "" else Flat(cs[..|cs| - 1]) + cs[|cs| - 1].text
  }

  /** Everything up to the end of the last chunk whose allocation failed. */
  function LostTo(alloc: nat -> bool, start: string, cs: seq<Chunk>): nat {
    if cs == [] then 0
    else if Stored(alloc, cs[|cs| - 1]) then LostTo(alloc, start, cs[..|cs| - 1])
    else |start| + |Flat(cs)|
  }

  lemma LostStep(alloc: nat -> bool, start: string, cs: seq<Chunk>, c: Chunk)
    ensures Flat(cs + [c]) == Flat(cs) + c.text
    ensures LostTo(alloc, start, cs + [c]) ==
            if Stored(alloc, c) then LostTo(alloc, start, cs) else |start| + |Flat(cs)| + |c.text|
  {
    assert (cs + [c])[..|cs|] == cs;
  }

  /** What `LostTo` means: chunk `i` is the last one that was not stored. */
  lemma {:induction false} LostMeaning(alloc: nat -> bool, start: string, cs: seq<Chunk>, i: nat)
    requires i < |cs| && !Stored(alloc, cs[i]) && forall j :: i < j < |cs| ==> Stored(alloc, cs[j])
    ensures LostTo(alloc, start, cs) == |start| + |Flat(cs[..i + 1])|
    decreases |cs|
  {
    if i < |cs| - 1 {
      LostMeaning(alloc, start, cs[..|cs| - 1], i);
      assert cs[..|cs| - 1][..i + 1] == cs[..i + 1];
    } else {
      assert cs[..i + 1] == cs;
    }
  }

  /** The chunks given to a pool that held `start`: together they are all that was sent, each asked for at most one of
      the allocations since..tries, and `lost` goes to the last failure. */
  ghost predicate History(alloc: nat -> bool, start: string, cs: seq<Chunk>, lost: nat, since: nat, tries: nat,
                          all: string)
  {
    && all == start + Flat(cs) && lost == LostTo(alloc, start, cs)
    && forall i :: 0 <= i < |cs| ==>
         |cs[i].text| < PRINT_STRING_LEN && (cs[i].tried.Some? ==> since <= cs[i].tried.value < tries)
  }

  lemma HistoryGrows(alloc: nat -> bool, start: string, cs: seq<Chunk>, lost: nat, since: nat, tries: nat, all: string,
                     s: string, tried: Option<nat>, later: nat)
    requires History(alloc, start, cs, lost, since, tries, all) && |s| < PRINT_STRING_LEN && since <= tries
    requires tried == if later == tries then None else Some(tries)
    requires tries <= later
    ensures History(alloc, start, cs + [Chunk(s, tried)], if Stored(alloc, Chunk(s, tried)) then lost else |all| + |s|,
                    since, later, all + s)
  {
    hide Flat, LostTo;
    LostStep(alloc, start, cs, Chunk(s, tried));
    assert start + (Flat(cs) + s) == start + Flat(cs) + s;
  }

  /** POOL_PRINT: a string, the length in use and the length allowed.  `grows` tells the pool
      printer from the bounded one; `alloc(k)` says whether the k-th allocation succeeds. */
  class Sink {
    var str: array?<char>
    var len: nat
    var maxlen: nat
    const grows: bool
    const alloc: nat -> bool
    var tries: nat
    /** How much of everything sent was dropped by failed allocations, and the first try counted. */
    ghost var lost: nat
    ghost var since: nat
    /** What the pool held at first, and the chunks it has been given since. */
    ghost var start: string
    ghost var chunks: seq<Chunk>
    /** What the bounded string's array held at the start. */
    ghost var orig: seq<char>

    constructor Bounded(str: array<char>, maxlen: nat)
      ensures this.str == str && len == 0 && this.maxlen == maxlen && !grows
      ensures Valid() && Untouched() && orig == str[..]
    {
      this.str, this.len, this.maxlen := str, 0, maxlen;
      orig := str[..];
      grows := false;
      alloc := _ => false;
      tries, lost, since, start, chunks := 0, 0, 0, "", [];
    }

    constructor Pool(alloc: nat -> bool)
      ensures str == null && len == 0 && maxlen == 0 && grows && this.alloc == alloc && tries == 0
      ensures Valid()
    {
      str, len, maxlen, orig := null, 0, 0, [];
      grows := true;
      this.alloc := alloc;
      tries, lost, since, start, chunks := 0, 0, 0, "", [];
    }

    ghost predicate Valid()
      reads this
    {
      if grows
      then (str == null ==> len == 0 && maxlen == 0) && (str != null ==> len < maxlen <= str.Length)
      else str != null && len <= maxlen && len <= str.Length
    }

    /** A bounded string can take `total` characters without running off its array. */
    ghost predicate Room(total: nat)
      reads this
    {
      !grows ==> str != null && (maxlen < str.Length || total < str.Length)
    }

    ghost function Text(): string
      reads this, str
      requires Valid()
    {
      if str == null then "" else str[..len]
    }

    ghost predicate Terminated()
      reads this, str
      requires Valid()
    {
      str != null && len < str.Length && str[len] == '\0'
    }

    /** No counted allocation has failed. */
    ghost predicate Lucky()
      reads this`since, this`tries
    {
      forall k :: since <= k < tries ==> alloc(k)
    }

    /** The string holds what it should of everything sent: the longest prefix that fits, or, when
        it grows, all of it but what failed allocations dropped. */
    ghost predicate Reflects(all: string)
      reads this, str
      requires Valid()
    {
      && (grows ==> lost <= |all| && Text() == all[lost..] && (Lucky() ==> lost == 0))
      && (grows ==> History(alloc, start, chunks, lost, since, tries, all))
      && (!grows ==> Text() == Take(all, maxlen) && Untouched())
    }

    /** Nothing past the terminator has been written, and nothing at all when no character fits. */
    ghost predicate Untouched()
      reads this, str
    {
      && str != null && |orig| == str.Length
      && (forall i :: len < i < str.Length ==> str[i] == orig[i])
      && (maxlen == 0 ==> str[..] == orig)
    }

    ghost function Frame(): set<object>
      reads this
    {
      {this} + if str == null then {} else {str}
    }

    /** _SPrint: append as much as fits, then terminate. */
    method Append(buffer: array<char>, ghost s: string)
      requires Valid() && str != null && buffer != str && CString(buffer[..], s) && Room(len + |s|)
      requires grows ==> len + |s| < maxlen
      modifies this`len, str
      ensures Valid() && str == old(str)
      ensures old(Untouched()) ==> Untouched()
      ensures Text() == Take(old(Text()) + s, maxlen)
      ensures maxlen > 0 ==> Terminated()
    {
      hide Take;
      var n := StrLen(buffer, s);
      if len + n > maxlen {
        n := maxlen - len;
      }
      ghost var before := Text();
      TakeSome(before, s, maxlen, n);
      ghost var text := before + s[..n];
      assert s[..n] == buffer[..n];
      CopyChars(str, len, buffer, n);
      len := len + n;
      NulTerminate(text);
    }

    /** Lines 345-349. */
    method NulTerminate(ghost text: string)
      requires Placed() && str[..len] == text
      modifies str
      ensures str[..len] == text
      ensures forall i :: 0 <= i < str.Length && (i > len || maxlen == 0) ==> str[i] == old(str[i])
      ensures maxlen > 0 ==> str[len] == '\0'
    {
      if len < maxlen {
        str[len] := '\0';
      } else if maxlen != 0 {
        str[maxlen] := '\0';
      }
    }

    ghost predicate Placed()
      reads this
    {
      str != null && len <= maxlen && len <= str.Length && (maxlen > 0 ==> len < str.Length)
    }

    /** _PoolPrint's growing half: room for `n` more characters and a NUL, or no string at all. */
    method Grow(n: nat) returns (ghost tried: Option<nat>)
      requires Valid() && grows
      modifies this`str, this`len, this`maxlen, this`tries
      ensures Valid() && (str == null || str == old(str) || fresh(str))
      ensures str != null ==> Text() == old(Text()) && len + n < maxlen
      ensures str == null <==> tried.Some? && !alloc(tried.value)
      ensures tried == (if tries == old(tries) then None else Some(old(tries))) && old(tries) <= tries <= old(tries) + 1
    {
      tried := None;
      var newlen := len + n + 1;
      if newlen > maxlen {
        newlen := newlen + PRINT_STRING_LEN;
        maxlen := newlen;
        if alloc(tries) {
          var bigger := new char[maxlen];
          if str != null {
            CopyChars(bigger, 0, str, len);
          }
          str := bigger;
        } else {
          str, len, maxlen := null, 0, 0;
        }
        tried := Some(tries);
        tries := tries + 1;
      }
    }

    /** _PoolPrint */
    method OutputPool(buffer: array<char>, ghost all: string, ghost s: string)
      requires Valid() && grows && buffer != str && CString(buffer[..], s) && Reflects(all) && since <= tries
      requires |s| < PRINT_STRING_LEN
      modifies this`str, this`len, this`maxlen, this`tries, this`lost, this`chunks, str
      ensures Valid() && (str == null || str == old(str) || fresh(str)) && since == old(since) <= tries
      ensures Reflects(all + s)
      ensures str != null ==> Terminated()
    {
      hide CString, Take, NoNul, History, Lucky, Stored;
      var n := StrLen(buffer, s);
      GrowFor(n, all, s);
      if str != null {
        PoolText(all, s, lost, maxlen);
        Append(buffer, s);
      }
    }

    /** Its first half, with the books kept: without a string everything is lost, and _SPrint then stores nothing. */
    method GrowFor(n: nat, ghost all: string, ghost s: string)
      requires Valid() && grows && Reflects(all) && since <= tries && n == |s| < PRINT_STRING_LEN
      modifies this`str, this`len, this`maxlen, this`tries, this`lost, this`chunks
      ensures Valid() && (str == null || str == old(str) || fresh(str)) && since <= tries
      ensures lost <= |all + s| && (Lucky() ==> lost == 0) && History(alloc, start, chunks, lost, since, tries, all + s)
      ensures str == null ==> lost == |all + s|
      ensures str != null ==> lost <= |all| && Text() == all[lost..] && len + n < maxlen
    {
      hide History;
      ghost var tried := Grow(n);
      HistoryGrows(alloc, start, chunks, lost, since, old(tries), all, s, tried, tries);
      chunks := chunks + [Chunk(s, tried)];
      if str == null {
        lost := |all| + |s|;
        assert !alloc(tries - 1);
      } else {
        assert Lucky() ==> old(Lucky());
      }
    }

    /** One flushed chunk: _PoolPrint or _SPrint. */
    method Output(buffer: array<char>, ghost all: string, ghost s: string)
      requires Valid() && buffer != str && CString(buffer[..], s) && Reflects(all) && Room(|all| + |s|)
      requires since <= tries && |s| < PRINT_STRING_LEN
      modifies this, str
      ensures Valid() && (str == null || str == old(str) || fresh(str)) && since == old(since) <= tries
      ensures Reflects(all + s)
      ensures orig == old(orig) && start == old(start) && (!grows ==> maxlen == old(maxlen) && str == old(str))
      ensures (if grows then str != null else maxlen > 0) ==> Terminated()
    {
      if grows {
        OutputPool(buffer, all, s);
      } else {
        TakeTwice(all, s, maxlen);
        Append(buffer, s);
      }
    }

    static method CopyChars(dst: array<char>, at: nat, src: array<char>, n: nat)
      requires dst != src && at + n <= dst.Length && n <= src.Length
      modifies dst
      ensures dst[..at + n] == old(dst[..at]) + src[..n]
      ensures forall i :: at + n <= i < dst.Length ==> dst[i] == old(dst[i])
    {
      var i := 0;
      while i < n
        invariant 0 <= i <= n
        invariant dst[..at + i] == old(dst[..at]) + src[..i]
        invariant forall j :: at + i <= j < dst.Length ==> dst[j] == old(dst[j])
      {
        dst[at + i] := src[i];
        i := i + 1;
      }
    }
  }

  /** PRINT_STATE and the buffers of _Print. */
  class State {
    const fmt: string
    var index: nat
    var args: seq<Arg>
    const buffer: array<char>
    const scratch: array<char>
    var pos: nat
    var len: nat
    const sink: Sink
    /** What the sink held before, and what has been flushed into it since. */
    ghost const initial: string
    ghost var sent: string

    /** Lines 1030-1036. */
    constructor (fmt: string, args: seq<Arg>, sink: Sink)
      requires sink.Valid() && (!sink.grows ==> sink.len == 0 && sink.Untouched())
      modifies sink`lost, sink`since, sink`start, sink`chunks
      ensures this.fmt == fmt && this.args == args && this.sink == sink && index == 0
      ensures initial == old(sink.Text()) && Valid() && Out() == ""
      ensures sink.since == sink.tries && fresh(buffer) && fresh(scratch)
    {
      this.fmt, this.args, this.sink := fmt, args, sink;
      buffer := new char[PRINT_STRING_LEN];
      scratch := new char[PRINT_ITEM_BUFFER_LEN];
      index, pos, len := 0, 0, 0;
      initial, sent := sink.Text(), "";
      new;
      sink.lost, sink.since := 0, sink.tries;
      sink.start, sink.chunks := initial, [];
      assert initial + sent == initial == initial + Flat([]);
    }

    /** Between characters the chunk is never full. */
    ghost predicate Valid()
      reads this`pos, this`len, this`sent, buffer, sink, sink.str
    {
      Flushable() && pos < PRINT_STRING_LEN - 1
    }

    ghost predicate Flushable()
      reads this`pos, this`len, this`sent, buffer, sink, sink.str
    {
      && buffer.Length == PRINT_STRING_LEN && scratch.Length == PRINT_ITEM_BUFFER_LEN && buffer != scratch
      && pos <= PRINT_STRING_LEN - 1 && NoNul(buffer[..pos])
      && sink.Valid() && sink.str != buffer && sink.str != scratch && sink.since <= sink.tries
      && sink.Reflects(initial + sent) && sink.start == initial
      && len == |sent| + pos
    }

    /** Everything printed so far. */
    ghost function Out(): string
      reads this`pos, this`sent, buffer
    {
      if pos <= buffer.Length then sent + buffer[..pos] else sent
    }

    lemma Counted()
      requires Valid()
      ensures len == |Out()|
      ensures scratch.Length == PRINT_ITEM_BUFFER_LEN && buffer != scratch && sink.str != scratch
    {}

    /** What the pool holds of everything sent. */
    lemma PoolReflects()
      requires Valid() && sink.grows
      ensures sink.Valid() && sink.since <= sink.tries && sink.lost <= |initial + sent|
      ensures sink.Text() == (initial + sent)[sink.lost..] && (sink.Lucky() ==> sink.lost == 0)
      ensures History(sink.alloc, initial, sink.chunks, sink.lost, sink.since, sink.tries, initial + sent)
    {
      hide History;
    }

    ghost function Frame(): set<object>
      reads this, sink
    {
      {this, buffer, sink} + if sink.str == null then {} else {sink.str}
    }

    /** The sink can take everything printed so far and `more` characters. */
    ghost predicate Room(more: nat)
      reads this, sink
    {
      sink.Room(|initial| + len + more)
    }

    /** What the printing steps leave alone. */
    twostate predicate Kept()
      reads this, sink
    {
      index == old(index) && args == old(args) && SinkKept()
    }

    twostate predicate SinkKept()
      reads this, sink
    {
      && (sink.str == null || sink.str == old(sink.str) || fresh(sink.str))
      && (!sink.grows ==> sink.maxlen == old(sink.maxlen) && sink.str == old(sink.str))
      && sink.since == old(sink.since) && sink.orig == old(sink.orig)
    }

    /** PFLUSH */
    method Flush()
      requires Flushable() && Room(0)
      modifies Frame()
      ensures Valid() && Kept() && Out() == old(Out()) == sent
      ensures (if sink.grows then sink.str != null else sink.maxlen > 0) ==> sink.Terminated()
    {
      hide Take, Sink.Reflects, Sink.Valid;
      ghost var chunk := buffer[..pos];
      buffer[pos] := '\0';
      assert buffer[..pos] == chunk;
      sink.Output(buffer, initial + sent, chunk);
      assert initial + sent + chunk == initial + (sent + chunk);
      sent := sent + chunk;
      pos := 0;
    }

    /** PSETATTR without a console: only the flush. */
    method SetAttribute()
      requires Valid() && Room(0)
      modifies Frame()
      ensures Valid() && Kept() && Out() == old(Out())
    {
      Flush();
    }

    /** PPUTC */
    method PutChar(c: char)
      requires Valid() && c != '\0' && Room(|Put(c)|)
      modifies Frame()
      ensures Valid() && Kept() && Out() == old(Out()) + Put(c)
      decreases c == '\n'
    {
      hide Valid, Flushable;
      Counted();
      if c == '\n' {
        PutChar('\r');
        Counted();
      }
      Store(c);
    }

    /** The rest of PPUTC: store the character, flush a full chunk. */
    method Store(c: char)
      requires Valid() && c != '\0' && Room(1)
      modifies Frame()
      ensures Valid() && Kept() && Out() == old(Out()) + [c]
    {
      hide Sink.Reflects, Sink.Valid;
      ghost var before := buffer[..pos];
      buffer[pos] := c;
      pos := pos + 1;
      len := len + 1;
      assert buffer[..pos] == before + [c];
      assert sent + buffer[..pos] == sent + before + [c];
      if pos >= PRINT_STRING_LEN - 1 {
        Flush();
      }
    }

    /** for (i = from; i < to; i++) PPUTC(ps, c) */
    method PutRepeat(c: char, from: nat, to: nat)
      requires Valid() && c != '\0' && c != '\n' && Room(|Repeat(c, to - from)|)
      modifies Frame()
      ensures Valid() && Kept() && Out() == old(Out()) + Repeat(c, to - from)
    {
      hide Valid, Flushable, Out, Repeat;
      ghost var o := Out();
      Counted();
      NoRepeat(o, c, to - from);
      var i := from;
      while i < to
        invariant if from <= to then from <= i <= to else i == from
        invariant Valid() && Kept() && len == |Out()|
        invariant sink.Room(|initial| + |o| + |Repeat(c, to - from)|)
        invariant Out() == o + Repeat(c, i - from)
      {
        PutChar(c);
        Counted();
        OneMore(o, c, i - from);
        i := i + 1;
      }
    }

    /** Spaces up to the field width, on the side that is asked for. */
    method PutSpaces(here: bool, from: nat, to: nat)
      requires Valid() && Room(|if here then Repeat(' ', to - from) else ""|)
      modifies Frame()
      ensures Valid() && Kept() && Out() == old(Out()) + (if here then Repeat(' ', to - from) else "")
    {
      if here {
        PutRepeat(' ', from, to);
      }
    }

    /** Putting out the item itself, lines 960-963. */
    method PutText(s: string)
      requires Valid() && NoNul(s) && Room(|PutAll(s)|)
      modifies Frame()
      ensures Valid() && Kept() && Out() == old(Out()) + PutAll(s)
    {
      hide PutAll, Valid, Flushable;
      Counted();
      var k := 0;
      assert s[..0] == "";
      PutAllEmpty();
      while k < |s|
        invariant 0 <= k <= |s|
        invariant Valid() && Kept() && len == |Out()|
        invariant sink.Room(|initial| + |old(Out())| + |PutAll(s)|)
        invariant Out() == old(Out()) + PutAll(s[..k])
      {
        PutAllStep(s, k);
        PutAllPrefix(s, k + 1);
        PutChar(s[k]);
        Counted();
        k := k + 1;
      }
      assert s[..k] == s;
    }

    /** PITEM */
    method PutItem(item: Item, text: string)
      requires Valid() && NoNul(text) && (item.pad == ' ' || item.pad == '0')
      requires Room(|PutAll(Layout(item, text))|)
      modifies Frame()
      ensures Valid() && Kept() && Out() == old(Out()) + PutAll(Layout(item, text))
    {
      hide PutAll, Repeat, Layout, Valid, Flushable, Pieces;
      Counted();
      // As much of the text as the field can show.
      var length := 0;
      while length < item.fieldWidth && length < |text|
        invariant 0 <= length <= Min(|text|, item.fieldWidth)
      {
        length := length + 1;
      }
      var fieldWidth := if item.fieldWidth == UNSET then length else item.fieldWidth;
      var width := if length > item.width then length else item.width;
      assert NoNul(text[..length]);
      LayoutPieces(item, text, length, width, fieldWidth);
      PutPieces(item.padBefore, item.pad, length, width, fieldWidth, text[..length]);
    }

    ghost function Pieces(before: bool, pad: char, length: nat, width: nat, field: nat, shown: string): string {
      (if before then Repeat(' ', field - width) else "") + Repeat(pad, width - length) + PutAll(shown)
      + (if !before then Repeat(' ', field - width) else "")
    }

    lemma LayoutPieces(item: Item, text: string, length: nat, width: nat, field: nat)
      requires item.pad != '\n' && length == Min(|text|, item.fieldWidth) && width == Max(item.width, length)
      requires field == if item.fieldWidth == UNSET then length else item.fieldWidth
      ensures PutAll(Layout(item, text)) == Pieces(item.padBefore, item.pad, length, width, field, text[..length])
    {
      hide PutAll, Repeat, Layout;
      PutLayout(item, text);
    }

    /** Lines 947-970. */
    method PutPieces(before: bool, pad: char, length: nat, width: nat, field: nat, shown: string)
      requires Valid() && NoNul(shown) && (pad == ' ' || pad == '0')
      requires Room(|Pieces(before, pad, length, width, field, shown)|)
      modifies Frame()
      ensures Valid() && Kept() && Out() == old(Out()) + Pieces(before, pad, length, width, field, shown)
    {
      hide PutAll, Repeat, Valid, Flushable, NoNul, Out;
      Counted();
      ghost var o := Out();
      ghost var a := if before then Repeat(' ', field - width) else "";
      ghost var b, c := Repeat(pad, width - length), PutAll(shown);
      ghost var d := if !before then Repeat(' ', field - width) else "";
      Join(o, a, b, c, d);
      PutSpaces(before, width, field);
      Counted();
      PutRepeat(pad, length, width);
      Counted();
      PutText(shown);
      Counted();
      PutSpaces(!before, width, field);
    }

    /** PGETC on the format: NUL at its end. */
    method GetC() returns (c: char)
      requires index <= |fmt|
      modifies this`index
      ensures index == old(index) + 1
      ensures c == if old(index) < |fmt| then fmt[old(index)] else '\0'
    {
      c := if index < |fmt| then fmt[index] else '\0';
      index := index + 1;
    }

    /** Lines 1099-1104: `c` is the first digit, already read. */
    method ReadWidth(first: char) returns (w: nat)
      requires 0 < index <= |fmt| && fmt[index - 1] == first && IsDigit(first) && NoNul(fmt)
      modifies this`index
      ensures old(index) - 1 < index <= |fmt|
      ensures TakeWidth(0, fmt[old(index) - 1..]) == (w, fmt[index..])
    {
      hide Wrap;
      ghost var start := index - 1;
      var c := first;
      w := 0;
      assert fmt[index - 1..] == fmt[start..];
      while true
        invariant start < index <= |fmt| && c == fmt[index - 1] && IsDigit(c)
        invariant TakeWidth(w, fmt[index - 1..]) == TakeWidth(0, fmt[start..])
        decreases |fmt| - index
      {
        assert fmt[index - 1..][1..] == fmt[index..];
        w := Wrap(w * 10 + (c as int - '0' as int));
        c := GetC();
        if !('0' <= c <= '9') {
          break;
        }
      }
      index := index - 1;
    }

    /** The text an argument converts to, through the scratch buffer where the source uses it. */
    method Convert(c: char, item: Item, arg: Arg) returns (text: string)
      requires Consumes(c) && ArgFits(c, item, arg) && scratch.Length == PRINT_ITEM_BUFFER_LEN
      modifies scratch
      ensures text == ArgText(c, item, arg) && NoNul(text)
    {
      ArgTextHasNoNul(c, item, arg);
      match c {
        case 'a' => text := if arg.NullStr? then "(null)" else arg.s;
        case 's' => text := if arg.NullStr? then "(null)" else arg.s;
        case 'c' =>
          scratch[0], scratch[1] := arg.c, '\0';
          text := Scratched(ArgText(c, item, arg));
        case 'x' =>
          ValueToHex(scratch, arg.v);
          text := Scratched(ArgText(c, item, arg));
        case 'X' =>
          ValueToHex(scratch, arg.v);
          text := Scratched(ArgText(c, item, arg));
        case 'u' =>
          ValueToString(scratch, item.comma, AsInt64(arg.v));
          text := Scratched(ArgText(c, item, arg));
        case 'd' =>
          ValueToString(scratch, item.comma, arg.v);
          text := Scratched(ArgText(c, item, arg));
        case _ => text := arg.text;
      }
    }

    method Scratched(ghost s: string) returns (text: string)
      requires CString(scratch[..], s)
      ensures text == s
    {
      var n := StrLen(scratch, s);
      text := scratch[..n];
      assert text == scratch[..][..n];
    }

    method PutArgument(c: char, item: Item, arg: Arg)
      requires Valid() && Consumes(c) && ArgFits(c, item, arg) && (item.pad == ' ' || item.pad == '0')
      requires Room(|PutAll(Layout(ConversionItem(c, item), ArgText(c, item, arg)))|)
      modifies Frame(), scratch
      ensures Valid() && Kept()
      ensures Out() == old(Out()) + PutAll(Layout(ConversionItem(c, item), ArgText(c, item, arg)))
    {
      hide Valid, Flushable, Layout, PutAll, ArgText, ArgFits, NoNul;
      Counted();
      var text := Convert(c, item, arg);
      PutItem(ConversionItem(c, item), text);
    }

    /** Printing to memory: what is out, and what is still to come, is `whole`. */
    ghost predicate InDirective(item: Item, at: nat, whole: string)
      reads this`pos, this`len, this`sent, this`args, buffer, sink, sink.str
    {
      && Valid() && at <= |fmt| && NoNul(fmt) && (item.pad == ' ' || item.pad == '0')
      && WellFormedItem(fmt[at..], args, item)
      && Out() + RenderItem(fmt[at..], args, item) == whole && sink.Room(|initial| + |whole|)
    }

    ghost predicate BetweenDirectives(whole: string)
      reads this, buffer, sink, sink.str
    {
      && Valid() && index <= |fmt| && NoNul(fmt)
      && WellFormed(fmt[index..], args)
      && Out() + Render(fmt[index..], args) == whole && sink.Room(|initial| + |whole|)
    }

    /** Flags, widths and attributes: the cases of the switch that set no item.  `c` is at index - 1. */
    method Parse(c: char, item: Item, ghost whole: string) returns (next: Item)
      requires 0 < index <= |fmt| && c == fmt[index - 1] && InDirective(item, index - 1, whole)
      requires IsFlag(c) || c == '*' || '1' <= c <= '9'
      modifies Frame()
      ensures old(index) <= index && SinkKept() && InDirective(next, index, whole)
    {
      hide Valid, Flushable, Out, RenderItem, WellFormedItem, NoNul, TakeWidth, ApplyFlag;
      ghost var f := fmt[index - 1..];
      assert f[1..] == fmt[index..];
      if IsFlag(c) {
        RenderFlag(f, args, item);
        FlagPad(c, item);
        next := ApplyFlag(c, item);
        if c in "nhe" {
          Counted();
          SetAttribute();
        }
      } else if c == '*' {
        RenderStar(f, args, item);
        next := item.SetWidth(args[0].v);
        args := args[1..];
      } else {
        RenderWidth(f, args, item);
        DigitIsDigit(c);
        var w := ReadWidth(c);
        next := item.SetWidth(w);
      }
    }

    /** The cases that produce an item, and PITEM. */
    method Finish(c: char, item: Item, ghost whole: string)
      requires 0 < index <= |fmt| && c == fmt[index - 1] && InDirective(item, index - 1, whole)
      requires !(IsFlag(c) || c == '*' || '1' <= c <= '9')
      modifies Frame(), scratch
      ensures index == old(index) && SinkKept() && BetweenDirectives(whole)
    {
      hide Valid, Flushable, Out, RenderItem, Render, WellFormed, WellFormedItem;
      hide NoNul, Layout, PutAll, ArgText, ArgFits;
      ghost var f := fmt[index - 1..];
      assert f[1..] == fmt[index..];
      Counted();
      if Consumes(c) {
        RenderArgument(f, args, item);
        var arg := args[0];
        args := args[1..];
        PutArgument(c, item, arg);
      } else {
        ZeroIsFlag(c);
        RenderPlain(f, args, item);
        PlainHasNoNul(c);
        PutItem(item, PlainText(c));
      }
    }

    /** One directive, from behind its `%`: lines 1044-1250 when printing to memory, where all the
        attributes are zero and setting one only flushes. */
    method Directive(ghost whole: string)
      requires index <= |fmt| && InDirective(NEW_ITEM, index, whole)
      modifies Frame(), scratch
      ensures old(index) < index && SinkKept() && BetweenDirectives(whole)
    {
      hide InDirective, BetweenDirectives;
      var item := NEW_ITEM;
      while true
        invariant old(index) <= index <= |fmt|
        invariant SinkKept() && InDirective(item, index, whole)
        decreases |fmt| - index
      {
        NotAtEnd(item, whole);
        var c := GetC();
        if IsFlag(c) || c == '*' || '1' <= c <= '9' {
          item := Parse(c, item, whole);
          InBounds(item, whole);
        } else {
          Finish(c, item, whole);
          return;
        }
      }
    }

    /** _Print.  The count it returns is the length of what the format prints. */
    method Run(ghost whole: string) returns (count: nat)
      requires BetweenDirectives(whole)
      modifies Frame(), scratch
      ensures Valid() && SinkKept() && Out() == sent == whole && count == |whole|
      ensures (if sink.grows then sink.str != null else sink.maxlen > 0) ==> sink.Terminated()
    {
      hide Valid, Flushable, Out, Render, WellFormed, NoNul, RenderItem, WellFormedItem;
      while true
        invariant SinkKept() && BetweenDirectives(whole)
        decreases |fmt| - index
      {
        ghost var f := fmt[index..];
        var c := NextChar();
        if c == '\0' {
          break;
        }
        assert f[1..] == fmt[index..];
        if c != '%' {
          RenderLiteral(f, args);
          Counted();
          PutChar(c);
          continue;
        }
        RenderDirective(f, args);
        Directive(whole);
      }
      RenderNothing(args);
      FinalFlush();
      Counted();
      count := len;
    }

    /** PGETC in the outer loop; the model stays at the end of the format. */
    method NextChar() returns (c: char)
      requires index <= |fmt| && NoNul(fmt)
      modifies this`index
      ensures old(index) == |fmt| ==> c == '\0' && index == old(index)
      ensures old(index) < |fmt| ==> c == fmt[old(index)] != '\0' && index == old(index) + 1
    {
      c := '\0';
      if index < |fmt| {
        c := GetC();
      }
    }

    method FinalFlush()
      requires Valid() && sink.Room(|initial| + |Out()|)
      modifies Frame()
      ensures Valid() && Kept() && Out() == old(Out()) == sent
      ensures (if sink.grows then sink.str != null else sink.maxlen > 0) ==> sink.Terminated()
    {
      Counted();
      Flush();
    }

    lemma NotAtEnd(item: Item, whole: string)
      requires InDirective(item, index, whole)
      ensures index < |fmt|
    {}

    lemma InBounds(item: Item, whole: string)
      requires InDirective(item, index, whole)
      ensures index <= |fmt|
    {}
  }

  lemma RenderNothing(args: seq<Arg>)
    ensures WellFormed("", args) && Render("", args) == ""
  {}

  lemma FlagPad(c: char, item: Item)
    requires item.pad == ' ' || item.pad == '0'
    ensures ApplyFlag(c, item).pad == ' ' || ApplyFlag(c, item).pad == '0'
  {}

  lemma DigitIsDigit(c: char)
    requires '1' <= c <= '9'
    ensures IsDigit(c)
  {}

  lemma ZeroIsFlag(c: char)
    ensures IsDigit(c) ==> IsFlag(c) || '1' <= c <= '9'
  {}

  lemma PlainHasNoNul(c: char)
    ensures NoNul(PlainText(c))
  {}

  lemma Join(o: string, a: string, b: string, c: string, d: string)
    ensures o + a + b + c + d == o + (a + b + c + d)
  {}

  lemma NoRepeat(o: string, c: char, n: int)
    ensures o + Repeat(c, 0) == o && (n <= 0 ==> Repeat(c, n) == Repeat(c, 0))
  {}

  lemma OneMore(o: string, c: char, n: nat)
    requires c != '\n'
    ensures o + Repeat(c, n) + Put(c) == o + Repeat(c, n + 1)
  {}

  lemma PutAllEmpty()
    ensures PutAll("") == ""
  {}

  // ------------------------------------------------------------ entry points

  /** StrSize / sizeof(CHAR16) - 1, in a 64-bit UINTN: sizes 0 and 1 both wrap to "no limit". */
  function MaxLength(strSize: nat): nat {
    if strSize / 2 == 0 then TWO_TO_THE_64 - 1 else strSize / 2 - 1
  }

  lemma LimitMeaning(strSize: nat)
    ensures strSize < 2 ==> MaxLength(strSize) == 0xFFFF_FFFF_FFFF_FFFF
    ensures strSize >= 2 ==> 2 * MaxLength(strSize) + 2 <= strSize < 2 * MaxLength(strSize) + 4
  {}

  /** VSPrint: the longest prefix of the text that fits, whatever the chunks were; terminated unless
      the size leaves no room for any character, in which case nothing at all is written. */
  method VSPrint(str: array<char>, strSize: nat, fmt: string, args: seq<Arg>) returns (n: nat)
    requires NoNul(fmt) && WellFormed(fmt, args)
    requires MaxLength(strSize) < str.Length || |Render(fmt, args)| < str.Length
    modifies str
    ensures n == Min(|Render(fmt, args)|, MaxLength(strSize)) <= str.Length
    ensures strSize < 2 ==> n == Min(|Render(fmt, args)|, 0xFFFF_FFFF_FFFF_FFFF)
    ensures strSize >= 2 ==> 2 * n + 2 <= strSize && (n < |Render(fmt, args)| ==> strSize < 2 * n + 4)
    ensures str[..n] == Render(fmt, args)[..n]
    ensures MaxLength(strSize) > 0 ==> n < str.Length && str[n] == '\0'
    ensures MaxLength(strSize) == 0 ==> str[..] == old(str[..])
    ensures forall i :: n < i < str.Length ==> str[i] == old(str[i])
  {
    LimitMeaning(strSize);
    hide Render, WellFormed, NoNul, MaxLength;
    var sink := new Sink.Bounded(str, MaxLength(strSize));
    var state := new State(fmt, args, sink);
    assert fmt[0..] == fmt;
    var count := state.Run(Render(fmt, args));
    assert state.initial + state.sent == Render(fmt, args);
    n := sink.len;
  }

  /** CatPrint: the pool's text grows by what the format prints.  It arrives in chunks; if the allocation for one of
      them fails, that chunk and everything before it is dropped, and later chunks still arrive. */
  method CatPrint(pool: Sink, fmt: string, args: seq<Arg>) returns (ghost chunks: seq<Chunk>)
    requires pool.Valid() && pool.grows && NoNul(fmt) && WellFormed(fmt, args)
    modifies pool, pool.str
    ensures pool.Valid() && old(pool.tries) <= pool.tries
    ensures Flat(chunks) == Render(fmt, args)
    ensures forall i :: 0 <= i < |chunks| ==>
              && |chunks[i].text| < PRINT_STRING_LEN
              && (chunks[i].tried.Some? ==> old(pool.tries) <= chunks[i].tried.value < pool.tries)
    ensures var dropped := LostTo(pool.alloc, old(pool.Text()), chunks);
            && dropped <= |old(pool.Text()) + Render(fmt, args)|
            && pool.Text() == (old(pool.Text()) + Render(fmt, args))[dropped..]
    ensures (forall k :: old(pool.tries) <= k < pool.tries ==> pool.alloc(k)) ==>
              pool.Text() == old(pool.Text()) + Render(fmt, args)
    ensures pool.str != null ==> pool.Terminated()
  {
    hide Render, WellFormed, NoNul, Flat, LostTo, History, State.Flushable, State.Out, Sink.Reflects;
    var state := new State(fmt, args, pool);
    assert fmt[0..] == fmt;
    StartsEmpty(state);
    var count := state.Run(Render(fmt, args));
    chunks := pool.chunks;
    state.PoolReflects();
    HistoryMeans(pool.alloc, state.initial, chunks, pool.lost, pool.since, pool.tries, Render(fmt, args));
  }

  lemma StartsEmpty(state: State)
    requires state.Valid() && state.Out() == ""
    ensures state.sent == "" && state.len == 0
  {}

  lemma HistoryMeans(alloc: nat -> bool, start: string, cs: seq<Chunk>, lost: nat, since: nat, tries: nat, text: string)
    requires History(alloc, start, cs, lost, since, tries, start + text)
    ensures Flat(cs) == text && lost == LostTo(alloc, start, cs)
    ensures forall i :: 0 <= i < |cs| ==>
              |cs[i].text| < PRINT_STRING_LEN && (cs[i].tried.Some? ==> since <= cs[i].tried.value < tries)
  {
    hide Flat, LostTo;
    SameTail(start, text, Flat(cs));
  }

  lemma SameTail(a: string, b: string, c: string)
    requires a + b == a + c
    ensures b == c
  {
    assert b == (a + b)[|a|..] && c == (a + c)[|a|..];
  }

  /** A size of two bytes: the array keeps what it held, and there is no terminator. */
  method NoRoomForNul() returns (str: array<char>, n: nat)
    ensures n == 0 && str[..] == "x"
  {
    str := new char[1](_ => 'x');
    assert str[..] == "x";
    n := VSPrint(str, 2, "a", []);
  }
}
