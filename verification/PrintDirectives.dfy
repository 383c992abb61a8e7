/** What the parts of a directive do to the text it prints (the table at gnu-efi/lib/print.c:982-1014, and the cases of
    lines 1057-1242), said of Render itself and not of the record the parser keeps. */
module PrintDirectives {
  import opened Basics
  import opened Numbers
  import opened PrintFormat

  /** What may stand between `%` and the conversion: a letter, a number in digits, or `*` with the number its argument
      gives. */
  datatype Part = Flag(c: char) | Number(n: nat) | Star(n: nat)

  predicate InRange(p: Part) {
    match p
    case Flag(c) => c in "0-,.lnheNHE"
    case Number(n) => 0 < n < 0x1_0000_0000_0000_0000
    case Star(n) => n < 0x1_0000_0000_0000_0000
  }

  /** No number runs into the digits of the next part. */
  predicate Proper(parts: seq<Part>) {
    && (forall i :: 0 <= i < |parts| ==> InRange(parts[i]))
    && (forall i :: 0 < i < |parts| && parts[i - 1].Number? ==> !parts[i].Number? && parts[i] != Flag('0'))
  }

  function Spell(p: Part): string {
    match p
    case Flag(c) => [c]
    case Number(n) => Text(n, 10)
    case Star(_) => "*"
  }

  function Spelled(parts: seq<Part>): string {
    if parts == [] then "" else Spell(parts[0]) + Spelled(parts[1..])
  }

  function StarOf(p: Part): seq<Arg> {
    if p.Star? then [Num(p.n)] else []
  }

  /** The arguments the stars read, in order. */
  function Stars(parts: seq<Part>): seq<Arg> {
    if parts == [] then []
    else StarOf(parts[0]) + Stars(parts[1..])
  }

  /** The field width that stands for none. */
  const NO_FIELD: nat := 0xFFFF_FFFF_FFFF_FFFF

  /** The last number among the parts. */
  function LastNumber(parts: seq<Part>, otherwise: nat): nat {
    if parts == [] then otherwise
    else if parts[|parts| - 1].Flag? then LastNumber(parts[..|parts| - 1], otherwise)
    else parts[|parts| - 1].n
  }

  /** Where the first dot stands. */
  function Dot(parts: seq<Part>): (d: nat)
    ensures d <= |parts|
  {
    if parts == [] || parts[0] == Flag('.') then 0 else 1 + Dot(parts[1..])
  }

  /** The width is the last number before the first dot, the field width the last one behind it. */
  function WidthOf(parts: seq<Part>): nat {
    LastNumber(parts[..Dot(parts)], 0)
  }

  function FieldOf(parts: seq<Part>): nat {
    LastNumber(parts[Dot(parts)..], NO_FIELD)
  }

  function PadOf(parts: seq<Part>): char {
    if Flag('0') in parts then '0' else ' '
  }

  /** A text as a directive shows it, place by place: at most `field` characters of it, in a width filled from the left
      with `pad`, in a field filled with spaces on the other side. */
  function Shown(text: string, width: nat, field: nat, pad: char, left: bool): string {
    var length := Min(|text|, field);
    var inner := Max(width, length);
    var total := if field == NO_FIELD then inner else Max(inner, field);
    var first := if left then inner - length else total - length;
    seq(total, i requires 0 <= i < total =>
      if first <= i < first + length then text[i - first]
      else if first - (inner - length) <= i < first then pad
      else ' ')
  }

  /** What the conversion is told about its argument. */
  function Told(parts: seq<Part>): Item {
    NEW_ITEM.(comma := Flag(',') in parts, long := Flag('l') in parts)
  }

  // --------------------------------------------------- what the parser remembers

  /** The record after these parts. */
  function ItemOf(parts: seq<Part>): Item {
    Item(WidthOf(parts), FieldOf(parts), Flag('.') in parts, PadOf(parts), Flag('-') !in parts, Flag(',') in parts,
         Flag('l') in parts)
  }

  lemma {:induction false} DotFound(parts: seq<Part>)
    ensures Dot(parts) < |parts| <==> Flag('.') in parts
  {
    if parts != [] && parts[0] != Flag('.') {
      DotFound(parts[1..]);
      assert parts == [parts[0]] + parts[1..];
    }
  }

  lemma {:induction false} DotKept(parts: seq<Part>, p: Part)
    ensures Dot(parts + [p]) == if Flag('.') in parts || p == Flag('.') then Dot(parts) else Dot(parts) + 1
  {
    if parts == [] {
      assert (parts + [p])[1..] == [];
    } else if parts[0] != Flag('.') {
      assert (parts + [p])[1..] == parts[1..] + [p];
      assert parts == [parts[0]] + parts[1..];
      DotKept(parts[1..], p);
    }
  }

  lemma LastNumberGrows(parts: seq<Part>, p: Part, otherwise: nat)
    ensures LastNumber(parts + [p], otherwise) == if p.Flag? then LastNumber(parts, otherwise) else p.n
  {
    assert (parts + [p])[..|parts|] == parts;
  }

  lemma NumbersGrow(parts: seq<Part>, p: Part)
    ensures WidthOf(parts + [p]) == if p.Flag? || Flag('.') in parts then WidthOf(parts) else p.n
    ensures FieldOf(parts + [p]) == if p.Flag? || Flag('.') !in parts then FieldOf(parts) else p.n
  {
    hide LastNumber, Dot;
    var d, all := Dot(parts), parts + [p];
    DotFound(parts);
    DotKept(parts, p);
    if Flag('.') in parts {
      assert all[..d] == parts[..d] && all[d..] == parts[d..] + [p];
      LastNumberGrows(parts[d..], p, NO_FIELD);
    } else if p == Flag('.') {
      assert all[..d] == parts[..d] && all[d..] == [] + [p] && parts[d..] == [];
      LastNumberGrows([], p, NO_FIELD);
    } else {
      assert all[..d + 1] == parts[..d] + [p] && all[d + 1..] == [] == parts[d..];
      LastNumberGrows(parts[..d], p, 0);
    }
  }

  lemma ItemGrows(parts: seq<Part>, p: Part)
    ensures ItemOf(parts + [p]) == if p.Flag? then ApplyFlag(p.c, ItemOf(parts)) else ItemOf(parts).SetWidth(p.n)
  {
    hide WidthOf, FieldOf;
    NumbersGrow(parts, p);
  }

  // ----------------------------------------------------------- the parser's way

  lemma {:induction false} LeadingDigit(n: nat)
    requires n > 0
    ensures '1' <= Text(n, 10)[0] <= '9'
  {
    if n >= 10 {
      LeadingDigit(n / 10);
    }
  }

  /** Digits up to the first character that is not one give their number. */
  lemma {:induction false} WidthTaken(u: nat, ds: string, tail: string)
    requires AllDigits(ds, 10) && (tail == "" || !IsDigit(tail[0]))
    ensures TakeWidth(Wrap(u), ds + tail) == (Wrap(ReadDigits(u, ds, 10)), tail)
    decreases |ds|
  {
    hide Wrap;
    if ds == "" {
      assert ds + tail == tail;
    } else {
      var d := ds[0] as int - '0' as int;
      assert (ds + tail)[1..] == ds[1..] + tail;
      WrapSteps(u, d);
      WidthTaken(u * 10 + d, ds[1..], tail);
    }
  }

  lemma NumberTaken(n: nat, tail: string)
    requires n < TWO_TO_THE_64 && (tail == "" || !IsDigit(tail[0]))
    ensures TakeWidth(0, Text(n, 10) + tail) == (n, tail)
  {
    hide Text, TakeWidth, ReadDigits, Wrap;
    ReadText(n, 10);
    WrapSmall(0);
    WrapSmall(n);
    WidthTaken(0, Text(n, 10), tail);
  }

  /** What follows a number in a directive is no digit. */
  lemma NoDigitNext(parts: seq<Part>, tail: string)
    requires Proper(parts) && (parts == [] || (!parts[0].Number? && parts[0] != Flag('0')))
    requires tail != "" && !IsDigit(tail[0])
    ensures var f := Spelled(parts) + tail; f != "" && !IsDigit(f[0])
  {}

  /** Two places inside directives from which the same is printed, if anything. */
  ghost predicate Alike(f: string, args: seq<Arg>, item: Item, f': string, args': seq<Arg>, item': Item) {
    && (WellFormedItem(f, args, item) <==> WellFormedItem(f', args', item'))
    && (WellFormedItem(f, args, item) ==> RenderItem(f, args, item) == RenderItem(f', args', item'))
  }

  lemma AlikeTwice(f: string, args: seq<Arg>, item: Item, f': string, args': seq<Arg>, item': Item, f'': string,
                   args'': seq<Arg>, item'': Item)
    requires Alike(f, args, item, f', args', item') && Alike(f', args', item', f'', args'', item'')
    ensures Alike(f, args, item, f'', args'', item'')
  {
    hide WellFormedItem, RenderItem;
  }

  lemma FlagRead(c: char, item: Item, f: string, args: seq<Arg>)
    requires c in "0-,.lnheNHE"
    ensures Alike([c] + f, args, item, f, args, ApplyFlag(c, item))
  {
    hide WellFormed, Render, TakeWidth, ApplyFlag;
    assert ([c] + f)[1..] == f && IsFlag(c);
  }

  lemma StarRead(n: nat, item: Item, f: string, args: seq<Arg>)
    requires n < TWO_TO_THE_64
    ensures Alike("*" + f, [Num(n)] + args, item, f, args, item.SetWidth(n))
  {
    hide WellFormed, Render, TakeWidth, ApplyFlag;
    assert ("*" + f)[1..] == f && ([Num(n)] + args)[1..] == args && !IsFlag('*');
  }

  lemma NumberRead(n: nat, item: Item, f: string, args: seq<Arg>)
    requires 0 < n < TWO_TO_THE_64 && (f == "" || !IsDigit(f[0]))
    ensures Alike(Text(n, 10) + f, args, item, f, args, item.SetWidth(n))
  {
    hide WellFormed, Render, TakeWidth, Text, ApplyFlag;
    NumberTaken(n, f);
    LeadingDigit(n);
    assert (Text(n, 10) + f)[0] == Text(n, 10)[0];
  }

  /** One part is read off the front of the format. */
  lemma PartRead(p: Part, parts: seq<Part>, f: string, args: seq<Arg>)
    requires InRange(p) && (p.Number? ==> f == "" || !IsDigit(f[0]))
    ensures Alike(Spell(p) + f, StarOf(p) + args, ItemOf(parts), f, args, ItemOf(parts + [p]))
  {
    hide ItemOf, Alike, Text, ApplyFlag, IsDigit;
    ItemGrows(parts, p);
    var none: seq<Arg> := [];
    assert none + args == args;
    match p {
      case Flag(c) => FlagRead(c, ItemOf(parts), f, args);
      case Star(n) => StarRead(n, ItemOf(parts), f, args);
      case Number(n) => NumberRead(n, ItemOf(parts), f, args);
    }
  }

  lemma {:induction false} PartsRead(done: seq<Part>, todo: seq<Part>, tail: string, args: seq<Arg>)
    requires Proper(todo) && tail != "" && !IsDigit(tail[0])
    ensures Alike(Spelled(todo) + tail, Stars(todo) + args, ItemOf(done), tail, args, ItemOf(done + todo))
    decreases |todo|
  {
    hide ItemOf, Alike, Spell, StarOf, IsDigit, InRange;
    if todo == [] {
      assert Spelled(todo) + tail == tail && Stars(todo) + args == args && done + todo == done;
      AlikeItself(tail, args, ItemOf(done));
    } else {
      var p, others := todo[0], todo[1..];
      var f, rest := Spelled(others) + tail, Stars(others) + args;
      if p.Number? {
        NoDigitNext(others, tail);
      }
      PartRead(p, done, f, rest);
      PartsRead(done + [p], others, tail, args);
      assert done + [p] + others == done + todo;
      AlikeTwice(Spell(p) + f, StarOf(p) + rest, ItemOf(done), f, rest, ItemOf(done + [p]), tail, args,
                 ItemOf(done + todo));
      assert Spelled(todo) + tail == Spell(p) + f && Stars(todo) + args == StarOf(p) + rest;
    }
  }

  lemma AlikeItself(f: string, args: seq<Arg>, item: Item)
    ensures Alike(f, args, item, f, args, item)
  {
    hide WellFormedItem, RenderItem;
  }

  lemma NothingRead()
    ensures ItemOf([]) == NEW_ITEM
  {}

  lemma DirectiveRead(parts: seq<Part>, c: char, args: seq<Arg>, rest: string)
    requires Proper(parts) && !IsDigit(c)
    ensures var f, all := "%" + Spelled(parts) + [c] + rest, Stars(parts) + args;
            && (WellFormed(f, all) <==> WellFormedItem([c] + rest, args, ItemOf(parts)))
            && (WellFormed(f, all) ==> Render(f, all) == RenderItem([c] + rest, args, ItemOf(parts)))
  {
    hide ItemOf, WellFormedItem, RenderItem, Spelled, Stars, Proper, IsDigit;
    var f, tail := "%" + Spelled(parts) + [c] + rest, [c] + rest;
    assert !IsDigit(tail[0]);
    PartsRead([], parts, tail, args);
    NothingRead();
    assert f[1..] == Spelled(parts) + tail && [] + parts == parts;
  }

  lemma RepeatAt(c: char, n: int, i: nat)
    requires i < n
    ensures Repeat(c, n)[i] == c
  {}

  /** Spaces, padding and text, or padding, text and spaces, place by place. */
  lemma PiecesAt(spaces: int, pad: char, pads: nat, text: string, left: bool, i: nat)
    requires i < Max(spaces, 0) + pads + |text|
    ensures var body := Repeat(pad, pads) + text;
            var laid := if left then body + Repeat(' ', spaces) else Repeat(' ', spaces) + body;
            var first := if left then pads else Max(spaces, 0) + pads;
            laid[i] == if first <= i < first + |text| then text[i - first]
                       else if first - pads <= i < first then pad else ' '
  {
    hide Repeat;
    var before := if left then 0 else Max(spaces, 0);
    if before <= i < before + pads {
      RepeatAt(pad, pads, i - before);
    } else if i < before {
      RepeatAt(' ', spaces, i);
    } else if left && pads + |text| <= i {
      RepeatAt(' ', spaces, i - pads - |text|);
    }
  }

  /** The layout PITEM builds from its pieces, place by place. */
  lemma LayoutIsShown(item: Item, text: string)
    ensures Layout(item, text) == Shown(text, item.width, item.fieldWidth, item.pad, !item.padBefore)
  {
    var shown, laid := Shown(text, item.width, item.fieldWidth, item.pad, !item.padBefore), Layout(item, text);
    hide Repeat;
    var length := Min(|text|, item.fieldWidth);
    var field := if item.fieldWidth == NO_FIELD then length else item.fieldWidth;
    var width := Max(item.width, length);
    assert |laid| == |shown|;
    forall i | 0 <= i < |laid| ensures laid[i] == shown[i] {
      PiecesAt(field - width, item.pad, width - length, text[..length], !item.padBefore, i);
    }
  }

  lemma ArgumentRead(c: char, item: Item, arg: Arg, rest: string, more: seq<Arg>)
    requires c in "ascxXudgtrDf"
    ensures var f, args := [c] + rest, [arg] + more;
            && (WellFormedItem(f, args, item) <==> ArgFits(c, item, arg) && WellFormed(rest, more))
            && (WellFormedItem(f, args, item) ==>
                  RenderItem(f, args, item) ==
                  PutAll(Layout(ConversionItem(c, item), ArgText(c, item, arg))) + Render(rest, more))
  {
    hide ArgFits, ArgText, Layout, ConversionItem, Render, PutAll, TakeWidth, ApplyFlag;
    var f, args := [c] + rest, [arg] + more;
    assert f[1..] == rest && args[1..] == more;
  }

  /** A directive that reads an argument prints it as its parts say, and nothing else of them matters.  %X has a width
      and a padding of its own. */
  lemma DirectiveMeaning(parts: seq<Part>, c: char, arg: Arg, rest: string, more: seq<Arg>)
    requires Proper(parts) && c in "ascxXudgtrDf"
    ensures var f, args := "%" + Spelled(parts) + [c] + rest, Stars(parts) + ([arg] + more);
            var width := if c != 'X' then WidthOf(parts) else if Flag('l') in parts then 16 else 8;
            var pad := if c != 'X' then PadOf(parts) else '0';
            && (WellFormed(f, args) <==> ArgFits(c, Told(parts), arg) && WellFormed(rest, more))
            && (WellFormed(f, args) ==>
                  Render(f, args) ==
                  PutAll(Shown(ArgText(c, Told(parts), arg), width, FieldOf(parts), pad, Flag('-') in parts))
                  + Render(rest, more))
  {
    hide Spelled, Stars, WellFormed, Render, WellFormedItem, RenderItem, Shown, Layout, Proper, ArgText, WidthOf;
    hide FieldOf, PadOf, PutAll;
    var item := ItemOf(parts);
    DirectiveRead(parts, c, [arg] + more, rest);
    ArgumentRead(c, item, arg, rest, more);
    if ArgFits(c, item, arg) {
      LayoutIsShown(ConversionItem(c, item), ArgText(c, item, arg));
      OnlyToldMatters(c, item, Told(parts), arg);
    }
  }

  lemma OnlyToldMatters(c: char, a: Item, b: Item, arg: Arg)
    requires a.comma == b.comma && a.long == b.long
    ensures ArgFits(c, a, arg) <==> ArgFits(c, b, arg)
    ensures ArgFits(c, a, arg) ==> ArgText(c, a, arg) == ArgText(c, b, arg)
  {
    hide Text, DecimalText;
  }

  /** A directive that ends in any other character prints a percent sign or a question mark. */
  lemma PlainMeaning(parts: seq<Part>, c: char, rest: string, more: seq<Arg>)
    requires Proper(parts) && c !in "0123456789-,.*lnheNHEascxXudgtrDf"
    ensures var f, args := "%" + Spelled(parts) + [c] + rest, Stars(parts) + more;
            && (WellFormed(f, args) <==> WellFormed(rest, more))
            && (WellFormed(f, args) ==>
                  Render(f, args) ==
                  PutAll(Shown(if c == '%' then "%" else "?", WidthOf(parts), FieldOf(parts), PadOf(parts),
                               Flag('-') in parts))
                  + Render(rest, more))
  {
    hide Spelled, Stars, WellFormed, Render, WellFormedItem, RenderItem, Shown, Layout, Proper, WidthOf, FieldOf, PadOf;
    hide PutAll;
    DirectiveRead(parts, c, more, rest);
    PlainRead(c, ItemOf(parts), rest, more);
    LayoutIsShown(ItemOf(parts), PlainText(c));
  }

  lemma PlainRead(c: char, item: Item, rest: string, args: seq<Arg>)
    requires c !in "0123456789-,.*lnheNHEascxXudgtrDf"
    ensures var f := [c] + rest;
            && (WellFormedItem(f, args, item) <==> WellFormed(rest, args))
            && (WellFormedItem(f, args, item) ==>
                  RenderItem(f, args, item) == PutAll(Layout(item, PlainText(c))) + Render(rest, args))
  {
    hide Layout, Render, PutAll, TakeWidth, ApplyFlag, PlainText;
    var f := [c] + rest;
    assert f[1..] == rest && !IsFlag(f[0]) && !IsDigit(f[0]) && !Consumes(f[0]) && f[0] != '*';
  }

  /** What is not part of a directive is printed as it stands. */
  lemma {:induction false} LiteralMeaning(s: string, rest: string, args: seq<Arg>)
    requires '%' !in s
    ensures WellFormed(s + rest, args) <==> WellFormed(rest, args)
    ensures WellFormed(rest, args) ==> Render(s + rest, args) == PutAll(s) + Render(rest, args)
  {
    hide WellFormed, Render, PutAll, Put;
    if s == "" {
      assert s + rest == rest;
      NewlinesExpanded("", "");
    } else {
      LiteralMeaning(s[1..], rest, args);
      LiteralStep(s[0], s[1..] + rest, args);
      PutAllFront(s[0], s[1..]);
      assert s == [s[0]] + s[1..] && s + rest == [s[0]] + (s[1..] + rest);
    }
  }

  lemma LiteralStep(c: char, f: string, args: seq<Arg>)
    requires c != '%'
    ensures WellFormed([c] + f, args) <==> WellFormed(f, args)
    ensures WellFormed(f, args) ==> Render([c] + f, args) == Put(c) + Render(f, args)
  {
    hide WellFormedItem, RenderItem;
    assert ([c] + f)[1..] == f;
  }

  lemma PutAllFront(c: char, s: string)
    ensures PutAll([c] + s) == Put(c) + PutAll(s)
  {
    PutAllAppend([c], s);
    assert PutAll("") == "" && [c][..0] == "";
  }

  /** Every newline is printed as CR LF, and nothing else changes. */
  lemma NewlinesExpanded(s: string, t: string)
    requires '\n' !in s
    ensures PutAll(s) == s
    ensures PutAll(s + "\n" + t) == s + "\r\n" + PutAll(t)
  {
    hide PutAll;
    NoNewline(s);
    PutAllAppend(s + "\n", t);
    PutAllSnoc(s, '\n');
  }

  lemma {:induction false} NoNewline(s: string)
    requires '\n' !in s
    ensures PutAll(s) == s
  {
    if s == "" {
    } else {
      NoNewline(s[..|s| - 1]);
      assert s == s[..|s| - 1] + [s[|s| - 1]];
    }
  }

  // ------------------------------------------------------ the usual directives

  function Fill(c: char, n: nat): string {
    seq(n, _ => c)
  }

  lemma {:induction false} SpelledGrows(parts: seq<Part>, p: Part)
    ensures Spelled(parts + [p]) == Spelled(parts) + Spell(p) && Stars(parts + [p]) == Stars(parts) + StarOf(p)
  {
    hide Spell, StarOf;
    if parts == [] {
      assert (parts + [p])[1..] == [];
    } else {
      SpelledGrows(parts[1..], p);
      assert (parts + [p])[1..] == parts[1..] + [p];
    }
  }

  /** One directive with its argument and nothing more, for a text without newlines. */
  lemma Alone(parts: seq<Part>, c: char, arg: Arg, text: string)
    requires Proper(parts) && c in "ascxXudgtrDf" && ArgFits(c, Told(parts), arg) && Stars(parts) == []
    requires text == ArgText(c, Told(parts), arg) && '\n' !in text
    ensures var f := "%" + Spelled(parts) + [c];
            var width := if c != 'X' then WidthOf(parts) else if Flag('l') in parts then 16 else 8;
            var pad := if c != 'X' then PadOf(parts) else '0';
            && WellFormed(f, [arg])
            && Render(f, [arg]) == Shown(text, width, FieldOf(parts), pad, Flag('-') in parts)
  {
    hide Spelled, Stars, Proper, ArgText, ArgFits, WidthOf, FieldOf, PutAll, Told;
    DirectiveMeaning(parts, c, arg, "", []);
    assert Stars(parts) + ([arg] + []) == [arg];
    var f := "%" + Spelled(parts) + [c];
    assert f + "" == f;
    EmptyFormat();
    var width := if c != 'X' then WidthOf(parts) else if Flag('l') in parts then 16 else 8;
    var pad := if c != 'X' then PadOf(parts) else '0';
    NewlinesExpanded(Shown(text, width, FieldOf(parts), pad, Flag('-') in parts), "");
  }

  lemma EmptyFormat()
    ensures WellFormed("", []) && Render("", []) == ""
  {}

  lemma NumeralPlain(v: nat, base: nat)
    requires base == 10 || base == 16
    ensures '\n' !in Text(v, base)
  {
    hide Text;
    ReadText(v, base);
  }

  lemma NoParts()
    ensures Proper([]) && Spelled([]) == "" && Stars([]) == []
    ensures WidthOf([]) == 0 && FieldOf([]) == NO_FIELD && PadOf([]) == ' '
  {}

  lemma InWidth(text: string, w: nat, pad: char)
    requires |text| < NO_FIELD
    ensures Shown(text, w, NO_FIELD, pad, false) == Fill(pad, Max(w - |text|, 0)) + text
  {}

  /** These parts read no argument; how they are spelled and what numbers they give. */
  ghost predicate Reads(parts: seq<Part>, spelled: string, width: nat, field: nat) {
    && Proper(parts) && Spelled(parts) == spelled && Stars(parts) == []
    && WidthOf(parts) == width && FieldOf(parts) == field
  }

  lemma ReadsNone()
    ensures Reads([], "", 0, NO_FIELD)
  {}

  lemma ReadsFlag(parts: seq<Part>, c: char, spelled: string, all: seq<Part>, text: string)
    requires Reads(parts, spelled, 0, NO_FIELD) && c in "0-,.lnheNHE"
    requires all == parts + [Flag(c)] && text == spelled + [c]
    requires parts == [] || !parts[|parts| - 1].Number?
    ensures Reads(all, text, 0, NO_FIELD)
  {
    hide Spelled, Stars, WidthOf, FieldOf;
    SpelledGrows(parts, Flag(c));
    NumbersGrow(parts, Flag(c));
  }

  lemma ReadsNumber(parts: seq<Part>, n: nat, spelled: string, all: seq<Part>, text: string)
    requires Reads(parts, spelled, 0, NO_FIELD) && 0 < n < TWO_TO_THE_64
    requires all == parts + [Number(n)] && text == spelled + Text(n, 10)
    requires parts == [] || !parts[|parts| - 1].Number?
    ensures if Flag('.') in parts then Reads(all, text, 0, n) else Reads(all, text, n, NO_FIELD)
  {
    hide Spelled, Stars, WidthOf, FieldOf, Text;
    SpelledGrows(parts, Number(n));
    NumbersGrow(parts, Number(n));
  }

  lemma WidthParts(w: nat, zero: bool) returns (parts: seq<Part>)
    requires 0 < w < TWO_TO_THE_64
    ensures Reads(parts, (if zero then "0" else "") + Text(w, 10), w, NO_FIELD)
    ensures PadOf(parts) == (if zero then '0' else ' ') && Told(parts) == NEW_ITEM && Flag('-') !in parts
  {
    hide Reads, Text;
    ReadsNone();
    var before := if zero then [Flag('0')] else [];
    if zero {
      ReadsFlag([], '0', "", before, "0");
    }
    parts := before + [Number(w)];
    ReadsNumber(before, w, if zero then "0" else "", parts, (if zero then "0" else "") + Text(w, 10));
  }

  /** %0wx fills its width with zeros, %wx with spaces. */
  lemma HexInWidth(v: nat, w: nat, zero: bool)
    requires v < 0x1_0000_0000 && 0 < w < TWO_TO_THE_64
    ensures var f := (if zero then "%0" else "%") + Text(w, 10) + "x";
            && WellFormed(f, [Num(v)])
            && Render(f, [Num(v)]) == Fill(if zero then '0' else ' ', Max(w - |Text(v, 16)|, 0)) + Text(v, 16)
  {
    hide Text, Render, WellFormed, Spelled, Stars, WidthOf, FieldOf, Shown, Proper, PadOf, Told;
    NumeralPlain(v, 16);
    SixteenHexDigits(v);
    var parts := WidthParts(w, zero);
    Alone(parts, 'x', Num(v), Text(v, 16));
    InWidth(Text(v, 16), w, PadOf(parts));
    assert "%" + Spelled(parts) + "x" == (if zero then "%0" else "%") + Text(w, 10) + "x";
  }

  lemma DotParts(left: bool) returns (parts: seq<Part>)
    ensures Reads(parts, if left then "-." else ".", 0, NO_FIELD)
    ensures Flag('.') in parts && parts[|parts| - 1] == Flag('.')
    ensures PadOf(parts) == ' ' && Told(parts) == NEW_ITEM && (Flag('-') in parts <==> left)
  {
    hide Reads;
    ReadsNone();
    if left {
      ReadsFlag([], '-', "", [Flag('-')], "-");
      parts := [Flag('-'), Flag('.')];
      ReadsFlag([Flag('-')], '.', "-", parts, "-.");
    } else {
      parts := [Flag('.')];
      ReadsFlag([], '.', "", parts, ".");
    }
  }

  lemma FieldParts(n: nat, left: bool) returns (parts: seq<Part>)
    requires 0 < n < TWO_TO_THE_64
    ensures Reads(parts, (if left then "-." else ".") + Text(n, 10), 0, n)
    ensures PadOf(parts) == ' ' && Told(parts) == NEW_ITEM && (Flag('-') in parts <==> left)
  {
    hide Reads, Text;
    var before := DotParts(left);
    var spelled := if left then "-." else ".";
    parts := before + [Number(n)];
    ReadsNumber(before, n, spelled, parts, spelled + Text(n, 10));
  }

  /** A text in a field of n places. */
  function InField(text: string, n: nat, left: bool): string {
    if n <= |text| then text[..n]
    else if left then text + Fill(' ', n - |text|)
    else Fill(' ', n - |text|) + text
  }

  /** %.ns cuts a string to its field or puts spaces before it, %-.ns behind it. */
  lemma StringInField(s: string, n: nat, left: bool)
    requires NoNul(s) && '\n' !in s && 0 < n < NO_FIELD
    ensures var f := (if left then "%-." else "%.") + Text(n, 10) + "s";
            WellFormed(f, [Str(s)]) && Render(f, [Str(s)]) == InField(s, n, left)
  {
    hide Text, Render, WellFormed, Spelled, Stars, WidthOf, FieldOf, Proper, PadOf, Told;
    var parts := FieldParts(n, left);
    Alone(parts, 's', Str(s), s);
    assert "%" + Spelled(parts) + "s" == (if left then "%-." else "%.") + Text(n, 10) + "s";
    assert Shown(s, 0, n, ' ', left) == InField(s, n, left);
  }

  function Flags(comma: bool, long: bool): string {
    (if comma then "," else "") + (if long then "l" else "")
  }

  lemma FlagParts(comma: bool, long: bool) returns (parts: seq<Part>)
    ensures Reads(parts, Flags(comma, long), 0, NO_FIELD) && PadOf(parts) == ' '
    ensures (Flag(',') in parts <==> comma) && (Flag('l') in parts <==> long) && Flag('-') !in parts
  {
    hide Reads;
    ReadsNone();
    parts := if comma then [Flag(',')] else [];
    if comma {
      ReadsFlag([], ',', "", parts, Flags(true, false));
    }
    if long {
      assert Flags(false, false) == "";
      ReadsFlag(parts, 'l', Flags(comma, false), parts + [Flag('l')], Flags(comma, true));
      parts := parts + [Flag('l')];
    }
  }

  /** %d prints an INT32 and %ld an INT64 in decimal, with commas between groups of three on request. */
  lemma DecimalPrinted(v: int, comma: bool, long: bool)
    requires if long then -0x8000_0000_0000_0000 <= v < 0x8000_0000_0000_0000 else -0x8000_0000 <= v < 0x8000_0000
    ensures var f := "%" + Flags(comma, long) + "d";
            var digits := Text(if v < 0 then -v else v, 10);
            && WellFormed(f, [Num(v)])
            && Render(f, [Num(v)]) == (if v < 0 then "-" else "") + if comma then Grouped(digits) else digits
  {
    hide Text, Grouped, Render, WellFormed, Spelled, Stars, WidthOf, FieldOf, Proper, PadOf, Shown, Flags;
    var parts := FlagParts(comma, long);
    DecimalPlain(v, comma);
    Alone(parts, 'd', Num(v), DecimalText(v, comma));
    InWidth(DecimalText(v, comma), 0, ' ');
  }

  lemma DecimalPlain(v: int, comma: bool)
    requires -0x8000_0000_0000_0000 <= v < 0x1_0000_0000_0000_0000
    ensures '\n' !in DecimalText(v, comma) && |DecimalText(v, comma)| <= 41
  {
    hide Text, Grouped;
    var m := if v < 0 then -v else v;
    var ds := Text(m, 10);
    NumeralPlain(m, 10);
    TwentyDecimalDigits(m);
    GroupedToIsGrouped(ds);
    GroupedToLength(ds, true, |ds|);
    GroupedPlain(ds);
  }

  lemma {:induction false} GroupedPlain(ds: string)
    requires '\n' !in ds
    ensures '\n' !in Grouped(ds)
  {
    if |ds| > 3 {
      GroupedPlain(ds[..|ds| - 3]);
    }
  }

  /** %u prints a UINT32, and %lu a UINT64 below 2^63, in decimal. */
  lemma UnsignedPrinted(v: nat, comma: bool, long: bool)
    requires v < if long then 0x8000_0000_0000_0000 else 0x1_0000_0000
    ensures var f := "%" + Flags(comma, long) + "u";
            && WellFormed(f, [Num(v)])
            && Render(f, [Num(v)]) == if comma then Grouped(Text(v, 10)) else Text(v, 10)
  {
    hide Text, Grouped, Render, WellFormed, Spelled, Stars, WidthOf, FieldOf, Proper, PadOf, Shown, Flags;
    var parts := FlagParts(comma, long);
    DecimalPlain(v, comma);
    Alone(parts, 'u', Num(v), DecimalText(v, comma));
    InWidth(DecimalText(v, comma), 0, ' ');
  }

  lemma EightHexDigits(v: nat)
    requires v < 0x1_0000_0000
    ensures |Text(v, 16)| <= 8
  {
    assert Pow(16, 4) == 0x1_0000;
    assert Pow(16, 8) == 0x1_0000_0000;
    DigitCount(v, 16, 8);
  }

  /** %x prints the hexadecimal digits there are, %X always 8 of them and %lX always 16. */
  lemma HexPrinted(v: nat, long: bool, fixed: bool)
    requires v < if long then 0x1_0000_0000_0000_0000 else 0x1_0000_0000
    ensures var f, places := "%" + Flags(false, long) + [if fixed then 'X' else 'x'], if long then 16 else 8;
            && WellFormed(f, [Num(v)]) && |Text(v, 16)| <= places
            && Render(f, [Num(v)]) == (if fixed then Fill('0', places - |Text(v, 16)|) else "") + Text(v, 16)
  {
    hide Text, Render, WellFormed, Spelled, Stars, WidthOf, FieldOf, Proper, PadOf, Shown, Flags;
    var parts := FlagParts(false, long);
    var places := if long then 16 else 8;
    var c := if fixed then 'X' else 'x';
    NumeralPlain(v, 16);
    SixteenHexDigits(v);
    if !long {
      EightHexDigits(v);
    }
    Alone(parts, c, Num(v), Text(v, 16));
    InWidth(Text(v, 16), 0, ' ');
    InWidth(Text(v, 16), places, '0');
  }

  /** %s and %a print a string, or that there is none; %c prints a character, and %% a percent sign. */
  lemma TextPrinted(s: string, c: char)
    requires NoNul(s) && '\n' !in s && |s| < NO_FIELD && c != '\0' && c != '\n'
    ensures WellFormed("%s", [Str(s)]) && Render("%s", [Str(s)]) == s
    ensures WellFormed("%a", [Str(s)]) && Render("%a", [Str(s)]) == s
    ensures WellFormed("%s", [NullStr]) && Render("%s", [NullStr]) == "(null)"
    ensures WellFormed("%a", [NullStr]) && Render("%a", [NullStr]) == "(null)"
    ensures WellFormed("%c", [Char(c)]) && Render("%c", [Char(c)]) == [c]
    ensures WellFormed("%%", []) && Render("%%", []) == "%"
  {
    hide WellFormed, Render;
    Bare('s', Str(s), s);
    Bare('a', Str(s), s);
    Bare('s', NullStr, "(null)");
    Bare('a', NullStr, "(null)");
    Bare('c', Char(c), [c]);
    Percent();
  }

  lemma Bare(c: char, arg: Arg, text: string)
    requires c in "asc" && ArgFits(c, NEW_ITEM, arg) && text == ArgText(c, NEW_ITEM, arg)
    requires '\n' !in text && |text| < NO_FIELD
    ensures WellFormed(['%', c], [arg]) && Render(['%', c], [arg]) == text
  {
    hide WellFormed, Render, Spelled, Stars, WidthOf, FieldOf, ArgText, ArgFits, Shown;
    NoParts();
    InWidth(text, 0, ' ');
    Alone([], c, arg, text);
    assert "%" + "" + [c] == ['%', c] && Fill(' ', 0) == "";
  }

  lemma Percent()
    ensures WellFormed("%%", []) && Render("%%", []) == "%"
  {
    hide WellFormed, Render, Spelled, Stars, WidthOf, FieldOf, Shown, PutAll, Proper, PadOf;
    NoParts();
    PercentShown();
    PlainAlone([], '%');
    assert "%" + Spelled([]) + ['%'] == "%%";
  }

  lemma PercentShown()
    ensures PutAll(Shown("%", 0, NO_FIELD, ' ', false)) == "%"
  {
    hide PutAll, Shown;
    InWidth("%", 0, ' ');
    NewlinesExpanded("%", "");
    assert Fill(' ', 0) + "%" == "%";
  }

  lemma PlainAlone(parts: seq<Part>, c: char)
    requires Proper(parts) && Stars(parts) == [] && c !in "0123456789-,.*lnheNHEascxXudgtrDf"
    ensures var f := "%" + Spelled(parts) + [c];
            && WellFormed(f, [])
            && Render(f, []) ==
               PutAll(Shown(if c == '%' then "%" else "?", WidthOf(parts), FieldOf(parts), PadOf(parts),
                            Flag('-') in parts))
  {
    hide WellFormed, Render, Spelled, Stars, WidthOf, FieldOf, Shown, PutAll, Proper, PadOf;
    PlainMeaning(parts, c, "", []);
    EmptyFormat();
    var f: string, none: seq<Arg> := "%" + Spelled(parts) + [c], [];
    assert f + "" == f && Stars(parts) + none == none;
  }
}
