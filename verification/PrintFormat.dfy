/** What a format string and its arguments print (gnu-efi/lib/print.c:914-1255), without buffers:
    the reference the buffered implementation in module Print is proved against. */
module PrintFormat {
  import opened Basics
  import opened Numbers

  /** One variadic argument, by the type the directive reads it as.  Preformatted stands for the
      arguments of %g %t %r %D %f: the text their conversion routine leaves in the scratch buffer. */
  datatype Arg =
    | Num(v: int)
    | Char(c: char)
    | Str(s: string)
    | NullStr
    | Preformatted(text: string)

  /** (UINTN) -1: no field width given. */
  const UNSET: nat := TWO_TO_THE_64 - 1

  /** PRINT_ITEM, while its directive is being parsed. */
  datatype Item = Item(
    width: nat, fieldWidth: nat, parseField: bool, pad: char, padBefore: bool, comma: bool, long: bool)
  {
    /** *Item.WidthParse = w */
    function SetWidth(w: nat): Item {
      if parseField then this.(fieldWidth := w) else this.(width := w)
    }
  }

  const NEW_ITEM := Item(0, UNSET, false, ' ', true, false, false)

  // --------------------------------------------------------------- one item

  function Repeat(c: char, n: int): (s: string)
    ensures |s| == if n <= 0 then 0 else n
  {
    if n <= 0 then "" else Repeat(c, n - 1) + [c]
  }

  function Min(a: int, b: int): int {
    if a < b then a else b
  }

  function Max(a: int, b: int): int {
    if a < b then b else a
  }

  /** PITEM: at most the field width of the text, padded to the width, then with spaces to the
      field width on the chosen side. */
  function Layout(item: Item, text: string): string {
    var length := Min(|text|, item.fieldWidth);
    var field := if item.fieldWidth == UNSET then length else item.fieldWidth;
    var width := Max(item.width, length);
    var spaces := Repeat(' ', field - width);
    var body := Repeat(item.pad, width - length) + text[..length];
    if item.padBefore then spaces + body else body + spaces
  }

  /** PPUTC: a newline is preceded by a carriage return. */
  function Put(c: char): string {
    if c == '\n' then "\r\n" else [c]
  }

  function PutAll(s: string): string {
    if s == "" then "" else PutAll(s[..|s| - 1]) + Put(s[|s| - 1])
  }

  // ----------------------------------------------------------- the directives

  predicate IsDigit(c: char) {
    '0' <= c <= '9'
  }

  /** The remaining flags of a directive; the attribute letters only flush when printing to memory. */
  predicate IsFlag(c: char) {
    c in "0-,.lnheNHE"
  }

  function ApplyFlag(c: char, item: Item): Item {
    match c
    case '0' => item.(pad := '0')
    case '-' => item.(padBefore := false)
    case ',' => item.(comma := true)
    case '.' => item.(parseField := true)
    case 'l' => item.(long := true)
    case _ => item
  }

  /** Conversions that read an argument. */
  predicate Consumes(c: char) {
    c in "ascxXudgtrDf"
  }

  predicate ArgFits(c: char, item: Item, arg: Arg) {
    match c
    case 'a' => arg.NullStr? || (arg.Str? && NoNul(arg.s))
    case 's' => arg.NullStr? || (arg.Str? && NoNul(arg.s))
    case 'c' => arg.Char?
    case 'x' => arg.Num? && 0 <= arg.v < if item.long then TWO_TO_THE_64 else 0x1_0000_0000
    case 'X' => arg.Num? && 0 <= arg.v < if item.long then TWO_TO_THE_64 else 0x1_0000_0000
    case 'u' => arg.Num? && 0 <= arg.v < if item.long then TWO_TO_THE_64 else 0x1_0000_0000
    case 'd' => arg.Num? && (if item.long then -(TWO_TO_THE_63 as int) <= arg.v < TWO_TO_THE_63
                             else -0x8000_0000 <= arg.v < 0x8000_0000)
    case _ => arg.Preformatted? && NoNul(arg.text) && |arg.text| < 100
  }

  /** An unsigned 64-bit value passed as INT64. */
  function AsInt64(v: int): int {
    if v < TWO_TO_THE_63 then v else v - TWO_TO_THE_64
  }

  function ArgText(c: char, item: Item, arg: Arg): string
    requires ArgFits(c, item, arg)
  {
    match c
    case 'a' => if arg.NullStr? then "(null)" else arg.s
    case 's' => if arg.NullStr? then "(null)" else arg.s
    case 'c' => if arg.c == '\0' then "" else [arg.c]
    case 'x' => Text(arg.v, 16)
    case 'X' => Text(arg.v, 16)
    case 'u' => DecimalText(AsInt64(arg.v), item.comma)
    case 'd' => DecimalText(arg.v, item.comma)
    case _ => arg.text
  }

  /** %X fixes width and padding before it converts. */
  function ConversionItem(c: char, item: Item): Item {
    if c == 'X' then item.(width := if item.long then 16 else 8, pad := '0') else item
  }

  function PlainText(c: char): string {
    if c == '%' then "%" else "?"
  }

  /** A decimal width; the rest of the format. */
  function TakeWidth(u: nat, f: string): (r: (nat, string))
    ensures |r.1| <= |f|
    ensures f != "" && IsDigit(f[0]) ==> |r.1| < |f|
    decreases |f|
  {
    if f == "" || !IsDigit(f[0]) then (u, f)
    else TakeWidth(Wrap(u * 10 + (f[0] as int - '0' as int)), f[1..])
  }

  // ------------------------------------------------------ formats and meaning

  /** Every `%` reaches a conversion and every argument read is there and of its type. */
  predicate WellFormed(f: string, args: seq<Arg>)
    decreases |f|
  {
    if f == "" then true
    else if f[0] == '%' then WellFormedItem(f[1..], args, NEW_ITEM)
    else WellFormed(f[1..], args)
  }

  predicate WellFormedItem(f: string, args: seq<Arg>, item: Item)
    decreases |f|
  {
    && f != ""
    && (if IsFlag(f[0]) then WellFormedItem(f[1..], args, ApplyFlag(f[0], item))
        else if f[0] == '*' then
          args != [] && args[0].Num? && 0 <= args[0].v < TWO_TO_THE_64 &&
          WellFormedItem(f[1..], args[1..], item.SetWidth(args[0].v))
        else if IsDigit(f[0]) then
          var (w, rest) := TakeWidth(0, f);
          WellFormedItem(rest, args, item.SetWidth(w))
        else if Consumes(f[0]) then
          args != [] && ArgFits(f[0], item, args[0]) && WellFormed(f[1..], args[1..])
        else WellFormed(f[1..], args))
  }

  /** The text a format prints. */
  function Render(f: string, args: seq<Arg>): string
    requires WellFormed(f, args)
    decreases |f|
  {
    if f == "" then ""
    else if f[0] == '%' then RenderItem(f[1..], args, NEW_ITEM)
    else Put(f[0]) + Render(f[1..], args)
  }

  /** ... from inside a directive. */
  function RenderItem(f: string, args: seq<Arg>, item: Item): string
    requires WellFormedItem(f, args, item)
    decreases |f|
  {
    if IsFlag(f[0]) then RenderItem(f[1..], args, ApplyFlag(f[0], item))
    else if f[0] == '*' then RenderItem(f[1..], args[1..], item.SetWidth(args[0].v))
    else if IsDigit(f[0]) then
      var (w, rest) := TakeWidth(0, f);
      RenderItem(rest, args, item.SetWidth(w))
    else if Consumes(f[0]) then
      PutAll(Layout(ConversionItem(f[0], item), ArgText(f[0], item, args[0]))) + Render(f[1..], args[1..])
    else
      PutAll(Layout(item, PlainText(f[0]))) + Render(f[1..], args)
  }

  // ------------------------------------------------------------ laws of Put

  lemma {:induction false} PutAllAppend(a: string, b: string)
    ensures PutAll(a + b) == PutAll(a) + PutAll(b)
  {
    if b == "" {
      assert a + b == a;
    } else {
      var n := |b| - 1;
      assert (a + b)[..|a + b| - 1] == a + b[..n];
      PutAllAppend(a, b[..n]);
    }
  }

  lemma PutAllSnoc(s: string, c: char)
    ensures PutAll(s + [c]) == PutAll(s) + Put(c)
  {
    assert (s + [c])[..|s|] == s;
  }

  lemma {:induction false} PutAllRepeat(c: char, n: int)
    requires c != '\n'
    ensures PutAll(Repeat(c, n)) == Repeat(c, n)
  {
    if n <= 0 {
      assert PutAll("") == "";
    } else {
      hide PutAll;
      PutAllRepeat(c, n - 1);
      var r := Repeat(c, n - 1);
      PutAllSnoc(r, c);
      assert Repeat(c, n) == r + [c];
      assert Put(c) == [c];
    }
  }

  lemma {:induction false} PutAllPrefix(s: string, k: nat)
    requires k <= |s|
    ensures |PutAll(s[..k])| <= |PutAll(s)|
  {
    assert s == s[..k] + s[k..];
    PutAllAppend(s[..k], s[k..]);
  }

  lemma PutAllStep(s: string, k: nat)
    requires k < |s|
    ensures PutAll(s[..k + 1]) == PutAll(s[..k]) + Put(s[k])
  {
    assert s[..k + 1][..k] == s[..k];
  }

  /** The pieces PITEM puts out one after the other. */
  lemma PutLayout(item: Item, text: string)
    requires item.pad != '\n'
    ensures var length := Min(|text|, item.fieldWidth);
            var field := if item.fieldWidth == UNSET then length else item.fieldWidth;
            var width := Max(item.width, length);
            PutAll(Layout(item, text)) ==
            (if item.padBefore then Repeat(' ', field - width) else "")
            + Repeat(item.pad, width - length) + PutAll(text[..length])
            + (if item.padBefore then "" else Repeat(' ', field - width))
  {
    hide Repeat, PutAll;
    var length := Min(|text|, item.fieldWidth);
    var field := if item.fieldWidth == UNSET then length else item.fieldWidth;
    var width := Max(item.width, length);
    var spaces, pads, t := Repeat(' ', field - width), Repeat(item.pad, width - length), text[..length];
    PutAllRepeat(' ', field - width);
    PutAllRepeat(item.pad, width - length);
    PutAllAppend(pads, t);
    PutAllAppend(spaces, pads + t);
    PutAllAppend(pads + t, spaces);
    assert spaces + PutAll(pads + t) == spaces + pads + PutAll(t) + "";
    assert PutAll(pads + t) + spaces == "" + pads + PutAll(t) + spaces;
  }

  /** An item takes exactly the larger of its width, its field width and what is shown of its text. */
  lemma LayoutLength(item: Item, text: string)
    ensures var length := Min(|text|, item.fieldWidth);
            |Layout(item, text)| ==
            Max(Max(item.width, length), if item.fieldWidth == UNSET then length else item.fieldWidth)
    ensures exists i :: 0 <= i <= |Layout(item, text)| &&
              text[..Min(|text|, item.fieldWidth)] <= Layout(item, text)[i..]
  {
    var length := Min(|text|, item.fieldWidth);
    var field := if item.fieldWidth == UNSET then length else item.fieldWidth;
    var width := Max(item.width, length);
    var spaces, pads, t := Repeat(' ', field - width), Repeat(item.pad, width - length), text[..length];
    var i := |pads| + if item.padBefore then |spaces| else 0;
    assert t <= Layout(item, text)[i..];
  }

  // ---------------------------------------------- the meaning, step by step

  lemma RenderLiteral(f: string, args: seq<Arg>)
    requires f != "" && f[0] != '%' && WellFormed(f, args)
    ensures WellFormed(f[1..], args) && Render(f, args) == Put(f[0]) + Render(f[1..], args)
  {}

  lemma RenderDirective(f: string, args: seq<Arg>)
    requires f != "" && f[0] == '%' && WellFormed(f, args)
    ensures WellFormedItem(f[1..], args, NEW_ITEM) && Render(f, args) == RenderItem(f[1..], args, NEW_ITEM)
  {}

  lemma RenderFlag(f: string, args: seq<Arg>, item: Item)
    requires WellFormedItem(f, args, item) && IsFlag(f[0])
    ensures WellFormedItem(f[1..], args, ApplyFlag(f[0], item))
    ensures RenderItem(f, args, item) == RenderItem(f[1..], args, ApplyFlag(f[0], item))
  {}

  lemma RenderStar(f: string, args: seq<Arg>, item: Item)
    requires WellFormedItem(f, args, item) && f[0] == '*'
    ensures args != [] && args[0].Num? && 0 <= args[0].v
    ensures WellFormedItem(f[1..], args[1..], item.SetWidth(args[0].v))
    ensures RenderItem(f, args, item) == RenderItem(f[1..], args[1..], item.SetWidth(args[0].v))
  {}

  lemma RenderWidth(f: string, args: seq<Arg>, item: Item)
    requires WellFormedItem(f, args, item) && '1' <= f[0] <= '9'
    ensures var (w, rest) := TakeWidth(0, f);
            && WellFormedItem(rest, args, item.SetWidth(w))
            && RenderItem(f, args, item) == RenderItem(rest, args, item.SetWidth(w))
  {
    assert !IsFlag(f[0]) && IsDigit(f[0]) && f[0] != '*';
  }

  lemma RenderArgument(f: string, args: seq<Arg>, item: Item)
    requires WellFormedItem(f, args, item) && Consumes(f[0])
    ensures args != [] && ArgFits(f[0], item, args[0]) && WellFormed(f[1..], args[1..])
    ensures RenderItem(f, args, item) ==
            PutAll(Layout(ConversionItem(f[0], item), ArgText(f[0], item, args[0]))) + Render(f[1..], args[1..])
  {
    hide Layout, ArgText, ConversionItem, PutAll, Render, ArgFits, ApplyFlag, TakeWidth, WellFormed, IsFlag, IsDigit;
    ConsumesOnly(f[0]);
  }

  lemma ConsumesOnly(c: char)
    requires Consumes(c)
    ensures !IsFlag(c) && !IsDigit(c) && c != '*'
  {}

  lemma RenderPlain(f: string, args: seq<Arg>, item: Item)
    requires WellFormedItem(f, args, item) && !IsFlag(f[0]) && f[0] != '*' && !IsDigit(f[0]) && !Consumes(f[0])
    ensures WellFormed(f[1..], args)
    ensures RenderItem(f, args, item) == PutAll(Layout(item, PlainText(f[0]))) + Render(f[1..], args)
  {
    hide Layout, PutAll, Render;
  }

  // --------------------------------------------------- no NUL in what is shown

  lemma {:induction false} TextHasNoNul(v: nat, base: nat)
    requires base == 10 || base == 16
    ensures NoNul(Text(v, base))
    decreases v
  {
    if v >= base {
      Quotient(v, base);
      TextHasNoNul(v / base, base);
    }
  }

  lemma {:induction false} GroupedHasNoNul(ds: string)
    requires NoNul(ds)
    ensures NoNul(Grouped(ds))
  {
    if |ds| > 3 {
      GroupedHasNoNul(ds[..|ds| - 3]);
    }
  }

  lemma ArgTextHasNoNul(c: char, item: Item, arg: Arg)
    requires Consumes(c) && ArgFits(c, item, arg)
    ensures NoNul(ArgText(c, item, arg))
  {
    hide Text, Grouped;
    match c {
      case 'x' => TextHasNoNul(arg.v, 16);
      case 'X' => TextHasNoNul(arg.v, 16);
      case 'u' =>
        var v := AsInt64(arg.v);
        TextHasNoNul(if v < 0 then -v else v, 10);
        GroupedHasNoNul(Text(if v < 0 then -v else v, 10));
      case 'd' =>
        TextHasNoNul(if arg.v < 0 then -arg.v else arg.v, 10);
        GroupedHasNoNul(Text(if arg.v < 0 then -arg.v else arg.v, 10));
      case _ =>
    }
  }

  lemma {:induction false} GroupedStartsAlike(ds: string)
    requires ds != ""
    ensures Grouped(ds) != "" && Grouped(ds)[0] == ds[0]
  {
    if |ds| > 3 {
      GroupedStartsAlike(ds[..|ds| - 3]);
    }
  }

  /** %lu prints its value as unsigned decimal exactly when it is below 2^63; from there on the
      value reaches ValueToString as a negative INT64. */
  lemma UnsignedDecimal(item: Item, v: nat)
    requires item.long && v < TWO_TO_THE_64
    ensures ArgText('u', item, Num(v)) == DecimalText(v, item.comma) <==> v < TWO_TO_THE_63
  {
    if v >= TWO_TO_THE_63 {
      assert ArgText('u', item, Num(v))[0] == '-';
      var ds := Text(v, 10);
      ReadText(v, 10);
      assert DigitValue(ds[0], 10) >= 0;
      GroupedStartsAlike(ds);
      assert DecimalText(v, item.comma)[0] == ds[0];
    }
  }

  /** 2^63 itself prints with a sign. */
  lemma SignedPowerOfTwo(item: Item)
    requires item.long && !item.comma
    ensures ArgText('u', item, Num(TWO_TO_THE_63)) == "-" + Text(TWO_TO_THE_63, 10) != Text(TWO_TO_THE_63, 10)
  {
    UnsignedDecimal(item, TWO_TO_THE_63);
  }
}
