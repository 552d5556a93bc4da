/** What well-formed formats mean: the reader of Formats recovers every directive as it was written,
    formats compose, and printed numbers read back. */
module FormatLaws {
  import opened Arithmetic
  import opened Machine
  import opened Digits
  import opened Conversions
  import opened Formats

  // --- Directives as they are written ---

  datatype Width = NoWidth | Fixed(digits: string) | Star
  datatype Precision = NoPrecision | Dot(digits: string) | DotStar

  datatype Modifier = NoModifier | L | LL | H | HH | T | J | Z

  datatype Item =
    | Plain(c: char)
    | Spec(flags: string, width: Width, precision: Precision, size: Modifier, conv: char)

  predicate AllDigits(s: string) {
    forall k :: 0 <= k < |s| ==> IsDigit(s[k])
  }

  predicate AllFlags(s: string) {
    forall k :: 0 <= k < |s| ==> IsFlag(s[k])
  }

  predicate IsSizeLetter(c: char) {
    c == 'l' || c == 'h' || c == 't' || c == 'j' || c == 'z'
  }

  function WidthText(w: Width): string {
    match w
    case NoWidth => ""
    case Fixed(digits) => digits
    case Star => "*"
  }

  function PrecisionText(p: Precision): string {
    match p
    case NoPrecision => ""
    case Dot(digits) => "." + digits
    case DotStar => ".*"
  }

  function ModifierText(m: Modifier): string {
    match m
    case NoModifier => ""
    case L => "l"
    case LL => "ll"
    case H => "h"
    case HH => "hh"
    case T => "t"
    case J => "j"
    case Z => "z"
  }

  /** A directive up to its conversion specifier, without the percent sign. */
  function Head(item: Item, tail: string): string
    requires item.Spec?
  {
    item.flags + (WidthText(item.width) + (PrecisionText(item.precision) + (ModifierText(item.size) + tail)))
  }

  function Written(item: Item): string {
    match item
    case Plain(c) => [c]
    case Spec(_, _, _, _, conv) => "%" + Head(item, [conv])
  }

  /** c, coming next, is not read as more of the width, the precision or the length modifier. */
  predicate EndsWidth(w: Width, c: char) {
    match w
    case NoWidth => !IsDigit(c) && c != '*'
    case Fixed(_) => !IsDigit(c)
    case Star => true
  }

  predicate EndsPrecision(p: Precision, c: char) {
    match p
    case NoPrecision => c != '.'
    case Dot(digits) => !IsDigit(c) && (digits == "" ==> c != '*')
    case DotStar => true
  }

  predicate EndsModifier(m: Modifier, c: char) {
    match m
    case NoModifier => !IsSizeLetter(c)
    case L => c != 'l'
    case H => c != 'h'
    case LL | HH | T | J | Z => true
  }

  /** Nothing in the head of a directive with this tail can be taken for more of the part before. */
  predicate Ends(item: Item, tail: string)
    requires item.Spec?
  {
    var z := ModifierText(item.size) + tail;
    var y := PrecisionText(item.precision) + z;
    var x := WidthText(item.width) + y;
    && (tail != "" ==> EndsModifier(item.size, tail[0]))
    && (z != "" ==> EndsPrecision(item.precision, z[0]))
    && (y != "" ==> EndsWidth(item.width, y[0]))
    && (x != "" ==> !IsFlag(x[0]))
  }

  predicate WidthFormed(w: Width) {
    w.Fixed? ==> w.digits != "" && AllDigits(w.digits)
  }

  predicate PrecisionFormed(p: Precision) {
    p.Dot? ==> AllDigits(p.digits)
  }

  predicate HeadFormed(item: Item) {
    item.Spec? && AllFlags(item.flags) && WidthFormed(item.width) && PrecisionFormed(item.precision)
  }

  /** The specifier may be any character that ends the head, known to the code or not. */
  predicate WellFormed(item: Item) {
    match item
    case Plain(c) => c != '%'
    case Spec(_, _, _, _, conv) => HeadFormed(item) && Ends(item, [conv])
  }

  lemma EndsFirst(item: Item, c: char, rest: string)
    requires item.Spec? && Ends(item, [c])
    ensures Ends(item, [c] + rest)
  {
    var z, zz := ModifierText(item.size) + [c], ModifierText(item.size) + ([c] + rest);
    assert zz[0] == z[0];
    var y, yy := PrecisionText(item.precision) + z, PrecisionText(item.precision) + zz;
    assert yy[0] == y[0];
    var x, xx := WidthText(item.width) + y, WidthText(item.width) + yy;
    assert xx[0] == x[0];
  }

  // --- Their meaning ---

  function FlagsOf(s: string): Flags {
    Flags('0' in s, '-' in s, '+' in s, ' ' in s, '#' in s, false, false)
  }

  /** long, intmax_t, size_t and ptrdiff_t are all 64 bits wide. */
  function SizeOf(m: Modifier): Size {
    match m
    case NoModifier => Int
    case L => Long
    case LL => LongLong
    case H => Short
    case HH => Char
    case T | J | Z => Long
  }

  /** The arguments an asterisk width and an asterisk precision take, one each. */
  function StarCount(item: Item): nat
    requires item.Spec?
  {
    (if item.width.Star? then 1 else 0) + (if item.precision.DotStar? then 1 else 0)
  }

  predicate TakesArg(conv: char) {
    IsInteger(conv) || conv == 'c' || conv == 's' || conv == 'p'
  }

  /** The arguments of one directive: ints for the asterisks, then what the specifier wants. */
  predicate Fits(item: Item, args: seq<Arg>) {
    match item
    case Plain(_) => args == []
    case Spec(_, _, _, _, conv) =>
      var n := StarCount(item);
      && |args| == n + (if TakesArg(conv) then 1 else 0)
      && (forall k :: 0 <= k < n ==> args[k].Word?)
      && (TakesArg(conv) ==> if conv == 's' then args[n].Str? else args[n].Word?)
  }

  function WidthOf(item: Item, args: seq<Arg>): u32
    requires item.Spec? && Fits(item, args)
  {
    match item.width
    case NoWidth => 0
    case Fixed(ds) => Wrap32(Value(ds, 10))
    case Star => var w := SignedArg(args[0].w, Int); Wrap32(if w < 0 then -w else w)
  }

  function PrecisionOf(item: Item, args: seq<Arg>): u32
    requires item.Spec? && Fits(item, args)
  {
    match item.precision
    case NoPrecision => 0
    case Dot(ds) => Wrap32(Value(ds, 10))
    case DotStar => var p := SignedArg(args[StarCount(item) - 1].w, Int); if p > 0 then p else 0
  }

  /** Width, precision, flags and size a directive stands for, its asterisks filled in. */
  function Meaning(item: Item, args: seq<Arg>): Directive
    requires item.Spec? && Fits(item, args)
  {
    var w := if item.width.Star? then SignedArg(args[0].w, Int) else 0;
    var flags := FlagsOf(item.flags);
    Directive(
      flags.(left := flags.left || w < 0, precision := !item.precision.NoPrecision?),
      WidthOf(item, args), PrecisionOf(item, args), SizeOf(item.size), "", args[StarCount(item)..])
  }

  /** The text of one directive with fitting arguments. */
  function ItemText(item: Item, args: seq<Arg>): string {
    match item
    case Plain(c) => [c]
    case Spec(_, _, _, _, conv) =>
      if !Fits(item, args) then "" else
      var d := Meaning(item, args);
      if IsInteger(conv) then IntegerText(conv, d.args[0].w, d)
      else if conv == 'c' then CharText(d.args[0].w, d.width, d.flags.left)
      else if conv == 's' then StringText(d.args[0].s, d.precision, d.width, d.flags)
      else if conv == 'p' then PointerText(d.args[0].w, d)
      else [conv]
  }

  // --- The reader recovers what was written ---

  function AddFlags(f: Flags, s: string): Flags {
    f.(zeropad := f.zeropad || '0' in s, left := f.left || '-' in s, plus := f.plus || '+' in s,
       space := f.space || ' ' in s, hash := f.hash || '#' in s)
  }

  lemma AddFirstFlag(f: Flags, s: string)
    requires s != "" && IsFlag(s[0])
    ensures AddFlags(f, s) == AddFlags(SetFlag(s[0], f), s[1..])
  {
    assert s == [s[0]] + s[1..];
    assert forall c :: c in s <==> c == s[0] || c in s[1..];
  }

  lemma {:induction false} FlagsRead(s: string, tail: string, f: Flags)
    requires AllFlags(s) && (tail == "" || !IsFlag(tail[0]))
    ensures TakeFlags(s + tail, f) == (AddFlags(f, s), tail)
    decreases |s|
  {
    if s == "" {
      assert s + tail == tail;
    } else {
      assert (s + tail)[1..] == s[1..] + tail;
      AddFirstFlag(f, s);
      FlagsRead(s[1..], tail, SetFlag(s[0], f));
    }
  }

  lemma WrapPush(v: nat, d: nat)
    ensures Wrap32(Wrap32(v) * 10 + d) == Wrap32(10 * v + d)
  {
    var q := v / 0x1_0000_0000;
    assert 10 * v + d == (Wrap32(v) * 10 + d) + 0x1_0000_0000 * (10 * q);
    ModPlusMultiple(Wrap32(v) * 10 + d, 0x1_0000_0000, 10 * q);
  }

  /** Digits read from the left in 32 bits give their value modulo 2^32. */
  lemma {:induction false} NumberRead(before: string, s: string, tail: string)
    requires AllDigits(s) && (tail == "" || !IsDigit(tail[0]))
    ensures TakeNumber(s + tail, Wrap32(Value(before, 10))) == (Wrap32(Value(before + s, 10)), tail)
    decreases |s|
  {
    if s == "" {
      assert s + tail == tail && before + s == before;
    } else {
      assert (s + tail)[0] == s[0] && (s + tail)[1..] == s[1..] + tail;
      ValuePush(before, s[0], 10);
      WrapPush(Value(before, 10), DigitValue(s[0]));
      assert before + s == before + [s[0]] + s[1..];
      NumberRead(before + [s[0]], s[1..], tail);
    }
  }

  lemma DigitsRead(s: string, tail: string)
    requires AllDigits(s) && (tail == "" || !IsDigit(tail[0]))
    ensures TakeNumber(s + tail, 0) == (Wrap32(Value(s, 10)), tail)
  {
    NumberRead("", s, tail);
    assert "" + s == s;
  }

  lemma WidthRead(f: Flags, item: Item, tail: string, args: seq<Arg>, more: seq<Arg>)
    requires HeadFormed(item) && Fits(item, args) && (tail == "" || EndsWidth(item.width, tail[0]))
    ensures TakeWidth(f, WidthText(item.width) + tail, args + more) ==
      var w := if item.width.Star? then SignedArg(args[0].w, Int) else 0;
      Read(Directive(if w < 0 then f.(left := true) else f, WidthOf(item, args), 0, Int, tail,
        if item.width.Star? then (args + more)[1..] else args + more))
  {
    var s := WidthText(item.width) + tail;
    match item.width
    case NoWidth => assert s == tail;
    case Fixed(ds) =>
      assert s[0] == ds[0];
      DigitsRead(ds, tail);
    case Star => assert s[0] == '*' && s[1..] == tail;
  }

  lemma DotRead(d: Directive, ds: string, tail: string)
    requires AllDigits(ds) && d.rest == "." + ds + tail && d.precision == 0
    requires tail == "" || EndsPrecision(Dot(ds), tail[0])
    ensures TakePrecision(d)
         == Read(d.(flags := d.flags.(precision := true), precision := Wrap32(Value(ds, 10)), rest := tail))
  {
    assert d.rest[1..] == ds + tail;
    DigitsRead(ds, tail);
    if ds == "" {
      assert ds + tail == tail;
    }
  }

  lemma DotStarRead(d: Directive, tail: string)
    requires HasWord(d.args) && d.rest == ".*" + tail
    ensures var p := SignedArg(d.args[0].w, Int);
      TakePrecision(d) == Read(d.(flags := d.flags.(precision := true), precision := if p > 0 then p else 0,
                                  rest := tail, args := d.args[1..]))
  {
    assert d.rest[1] == '*' && d.rest[1..][1..] == tail;
  }

  lemma PrecisionRead(d: Directive, item: Item, tail: string, args: seq<Arg>)
    requires HeadFormed(item) && d.precision == 0
    requires d.rest == PrecisionText(item.precision) + tail && d.args == args
    requires item.precision.DotStar? ==> HasWord(args)
    requires tail == "" || EndsPrecision(item.precision, tail[0])
    ensures TakePrecision(d) == Read(d.(
      flags := if item.precision.NoPrecision? then d.flags else d.flags.(precision := true),
      precision := match item.precision {
        case NoPrecision => 0
        case Dot(ds) => Wrap32(Value(ds, 10))
        case DotStar => var p := SignedArg(args[0].w, Int); if p > 0 then p else 0 },
      rest := tail, args := if item.precision.DotStar? then args[1..] else args))
  {
    match item.precision
    case NoPrecision => assert d.rest == tail;
    case Dot(ds) => DotRead(d, ds, tail);
    case DotStar => DotStarRead(d, tail);
  }

  lemma SizeRead(d: Directive, m: Modifier, tail: string)
    requires d.rest == ModifierText(m) + tail && d.size == Int
    requires tail == "" || EndsModifier(m, tail[0])
    ensures TakeSize(d) == d.(size := SizeOf(m), rest := tail)
  {
    var text := ModifierText(m);
    if |text| == 2 {
      assert d.rest[2..] == tail && d.rest[0] == text[0] && d.rest[1] == text[1];
    } else if |text| == 1 {
      assert d.rest[1..] == tail && d.rest[0] == text[0] && (tail != "" ==> d.rest[1] == tail[0]);
    } else {
      assert d.rest == tail;
    }
  }

  lemma ArgsSplit(args: seq<Arg>, more: seq<Arg>, n: nat)
    requires n <= |args|
    ensures (args + more)[n..] == args[n..] + more
  {
  }

  lemma StagesCompose(s: string, args: seq<Arg>, flags: Flags, x: string, d: Directive, e: Directive)
    requires TakeFlags(s, NO_FLAGS) == (flags, x) && TakeWidth(flags, x, args) == Read(d)
    requires TakePrecision(d) == Read(e)
    ensures TakeDirective(s, args) == Read(TakeSize(e))
  {
  }

  /** The directive once its width has been read, and once its precision has. */
  function AfterWidth(item: Item, args: seq<Arg>, rest: string, more: seq<Arg>): Directive
    requires item.Spec? && Fits(item, args)
  {
    var w := if item.width.Star? then SignedArg(args[0].w, Int) else 0;
    var flags := FlagsOf(item.flags);
    Directive(flags.(left := flags.left || w < 0), WidthOf(item, args), 0, Int, rest,
      (if item.width.Star? then args[1..] else args) + more)
  }

  function AfterPrecision(item: Item, args: seq<Arg>, rest: string, more: seq<Arg>): Directive
    requires item.Spec? && Fits(item, args)
  {
    Meaning(item, args).(size := Int, rest := rest, args := args[StarCount(item)..] + more)
  }

  lemma WidthStage(item: Item, y: string, args: seq<Arg>, more: seq<Arg>)
    requires HeadFormed(item) && Fits(item, args) && (y == "" || EndsWidth(item.width, y[0]))
    ensures TakeWidth(FlagsOf(item.flags), WidthText(item.width) + y, args + more) == Read(AfterWidth(item, args, y, more))
  {
    WidthRead(FlagsOf(item.flags), item, y, args, more);
    if item.width.Star? {
      ArgsSplit(args, more, 1);
    }
  }

  /** The arguments the precision finds, and those it leaves. */
  lemma PrecisionArgs(item: Item, args: seq<Arg>, more: seq<Arg>)
    requires item.Spec? && Fits(item, args)
    ensures var found := AfterWidth(item, args, "", more).args; var left := args[StarCount(item)..] + more;
      if item.precision.DotStar? then
        found != [] && found[0] == args[StarCount(item) - 1] && found[0].Word? && found[1..] == left
      else found == left
  {
    var n := if item.width.Star? then 1 else 0;
    var found := AfterWidth(item, args, "", more).args;
    assert found == args[n..] + more;
    if item.precision.DotStar? {
      assert found[0] == args[n] && found[1..] == args[n + 1..] + more;
    }
  }

  lemma PrecisionStage(item: Item, z: string, args: seq<Arg>, more: seq<Arg>)
    requires HeadFormed(item) && Fits(item, args) && (z == "" || EndsPrecision(item.precision, z[0]))
    ensures TakePrecision(AfterWidth(item, args, PrecisionText(item.precision) + z, more))
         == Read(AfterPrecision(item, args, z, more))
  {
    var d := AfterWidth(item, args, PrecisionText(item.precision) + z, more);
    PrecisionArgs(item, args, more);
    PrecisionRead(d, item, z, d.args);
  }

  /** The reader recovers a directive from the way it is written. */
  lemma HeadRead(item: Item, tail: string, args: seq<Arg>, more: seq<Arg>)
    requires HeadFormed(item) && Ends(item, tail) && Fits(item, args)
    ensures TakeDirective(Head(item, tail), args + more)
         == Read(Meaning(item, args).(rest := tail, args := args[StarCount(item)..] + more))
  {
    var z := ModifierText(item.size) + tail;
    var y := PrecisionText(item.precision) + z;
    var x := WidthText(item.width) + y;
    FlagsRead(item.flags, x, NO_FLAGS);
    assert AddFlags(NO_FLAGS, item.flags) == FlagsOf(item.flags);
    WidthStage(item, y, args, more);
    PrecisionStage(item, z, args, more);
    var e := AfterPrecision(item, args, z, more);
    StagesCompose(Head(item, tail), args + more, FlagsOf(item.flags), x, AfterWidth(item, args, y, more), e);
    SizeRead(e, item.size, tail);
  }

  // --- Whole formats ---

  /** The specifier of a directive prints the directive's text and takes its arguments. */
  lemma SpecifierConverts(item: Item, rest: string, args: seq<Arg>, more: seq<Arg>)
    requires item.Spec? && Fits(item, args)
    ensures Convert(item.conv, Meaning(item, args).(rest := rest, args := args[StarCount(item)..] + more))
         == Conversion(ItemText(item, args), more)
  {
    var n := StarCount(item);
    if !TakesArg(item.conv) {
      assert args[n..] + more == more;
    } else {
      assert (args[n..] + more)[0] == args[n] && (args[n..] + more)[1..] == more;
    }
  }

  lemma SpecTurn(convert: Converter, s: string, args: seq<Arg>, d: Directive, text: string, left: seq<Arg>)
    requires s != "" && s[0] == '%' && TakeDirective(s[1..], args) == Read(d)
    requires d.rest != "" && convert(d.rest[0], d) == Conversion(text, left)
    ensures TurnWith(convert, s, args) == Printed(text, d.rest[1..], left)
  {
  }

  lemma SpecWritten(item: Item, rest: string)
    requires item.Spec?
    ensures var s := Written(item) + rest; s != "" && s[0] == '%' && s[1..] == Head(item, [item.conv] + rest)
  {
  }

  /** A directive is one turn: it prints its own text and leaves the rest of the format the rest of
      the arguments. */
  lemma ItemTurn(convert: Converter, item: Item, rest: string, args: seq<Arg>, more: seq<Arg>, text: string)
    requires WellFormed(item) && Fits(item, args)
    requires item.Plain? ==> text == [item.c]
    requires item.Spec? ==>
      convert(item.conv, Meaning(item, args).(rest := [item.conv] + rest, args := args[StarCount(item)..] + more))
        == Conversion(text, more)
    ensures TurnWith(convert, Written(item) + rest, args + more) == Printed(text, rest, more)
  {
    match item
    case Plain(c) =>
      assert ([c] + rest)[1..] == rest && args + more == more;
    case Spec(_, _, _, _, conv) =>
      var tail := [conv] + rest;
      var d := Meaning(item, args).(rest := tail, args := args[StarCount(item)..] + more);
      SpecWritten(item, rest);
      EndsFirst(item, conv, rest);
      HeadRead(item, tail, args, more);
      assert tail[1..] == rest;
      SpecTurn(convert, Written(item) + rest, args + more, d, text, more);
  }

  lemma ItemPrints(item: Item, rest: string, args: seq<Arg>, more: seq<Arg>)
    requires WellFormed(item) && Fits(item, args)
    ensures TURN(Written(item) + rest, args + more) == Printed(ItemText(item, args), rest, more)
  {
    if item.Spec? {
      SpecifierConverts(item, [item.conv] + rest, args, more);
    }
    ItemTurn(CONVERT, item, rest, args, more, ItemText(item, args));
  }

  type Format = seq<Item>

  predicate AllWellFormed(f: Format) {
    forall k :: 0 <= k < |f| ==> WellFormed(f[k])
  }

  function Concat(parts: seq<string>): string {
    if parts == [] then "" else parts[0] + Concat(parts[1..])
  }

  function FormatString(f: Format): string {
    Concat(seq(|f|, k requires 0 <= k < |f| => Written(f[k])))
  }

  /** The arguments of a format, directive by directive. */
  predicate AllFit(f: Format, args: seq<seq<Arg>>) {
    |args| == |f| && forall k :: 0 <= k < |f| ==> Fits(f[k], args[k])
  }

  function Flatten(args: seq<seq<Arg>>): seq<Arg> {
    if args == [] then [] else args[0] + Flatten(args[1..])
  }

  function FormatText(f: Format, args: seq<seq<Arg>>): string
    requires |args| == |f|
  {
    Concat(seq(|f|, k requires 0 <= k < |f| => ItemText(f[k], args[k])))
  }

  ghost predicate IsTurn(turn: Turner, part: string, args: seq<Arg>, text: string) {
    part != "" && forall rest, more :: turn(part + rest, args + more) == Printed(text, rest, more)
  }

  lemma ItemIsTurn(item: Item, args: seq<Arg>)
    requires WellFormed(item) && Fits(item, args)
    ensures IsTurn(TURN, Written(item), args, ItemText(item, args))
  {
    forall rest, more ensures TURN(Written(item) + rest, args + more) == Printed(ItemText(item, args), rest, more) {
      ItemPrints(item, rest, args, more);
    }
  }

  /** A loop each of whose turns takes one part of the format and prints one text. */
  lemma {:induction false} LoopPrints(
    turn: Turner, parts: seq<string>, texts: seq<string>, rest: string, args: seq<seq<Arg>>, more: seq<Arg>)
    requires |parts| == |texts| == |args|
    requires forall k :: 0 <= k < |parts| ==> IsTurn(turn, parts[k], args[k], texts[k])
    ensures LoopWith(turn, Concat(parts) + rest, Flatten(args) + more) == Then(Concat(texts), LoopWith(turn, rest, more))
    decreases |parts|
  {
    if parts == [] {
      assert Concat(parts) + rest == rest && Flatten(args) + more == more;
      ThenNothing(LoopWith(turn, rest, more));
    } else {
      var tail, left := Concat(parts[1..]) + rest, Flatten(args[1..]) + more;
      assert Concat(parts) + rest == parts[0] + tail;
      assert Flatten(args) + more == args[0] + left;
      assert IsTurn(turn, parts[0], args[0], texts[0]);
      assert turn(parts[0] + tail, args[0] + left) == Printed(texts[0], tail, left);
      LoopPrints(turn, parts[1..], texts[1..], rest, args[1..], more);
      ThenThen(texts[0], Concat(texts[1..]), LoopWith(turn, rest, more));
    }
  }

  /** A well-formed format with fitting arguments prints the texts of its directives, in order, and
      the reader stops exactly at the terminator; surplus arguments do not matter. */
  lemma FormatPrints(f: Format, rest: string, args: seq<seq<Arg>>, more: seq<Arg>)
    requires AllWellFormed(f) && AllFit(f, args)
    ensures Output(FormatString(f) + rest, Flatten(args) + more) == Then(FormatText(f, args), Output(rest, more))
  {
    var parts := seq(|f|, k requires 0 <= k < |f| => Written(f[k]));
    var texts := seq(|f|, k requires 0 <= k < |f| => ItemText(f[k], args[k]));
    forall k | 0 <= k < |f| ensures IsTurn(TURN, parts[k], args[k], texts[k]) {
      ItemIsTurn(f[k], args[k]);
    }
    LoopPrints(TURN, parts, texts, rest, args, more);
  }

  /** Concatenated formats with concatenated arguments print the concatenated outputs. */
  lemma FormatsCompose(f: Format, g: Format, a: seq<seq<Arg>>, b: seq<seq<Arg>>)
    requires AllWellFormed(f) && AllFit(f, a) && AllWellFormed(g) && AllFit(g, b)
    ensures Output(FormatString(f), Flatten(a)) == Text(FormatText(f, a))
    ensures Output(FormatString(g), Flatten(b)) == Text(FormatText(g, b))
    ensures Output(FormatString(f) + FormatString(g), Flatten(a) + Flatten(b))
         == Text(FormatText(f, a) + FormatText(g, b))
  {
    FormatPrintsAll(f, a);
    FormatPrintsAll(g, b);
    FormatPrints(f, FormatString(g), a, Flatten(b));
  }

  lemma FormatPrintsAll(f: Format, args: seq<seq<Arg>>)
    requires AllWellFormed(f) && AllFit(f, args)
    ensures Output(FormatString(f), Flatten(args)) == Text(FormatText(f, args))
  {
    FormatPrints(f, "", args, []);
    assert FormatString(f) + "" == FormatString(f) && Flatten(args) + [] == Flatten(args);
    assert FormatText(f, args) + "" == FormatText(f, args);
  }

  /** A directive that breaks off before its specifier takes the reader past the terminator. */
  lemma UnfinishedFaults(f: Format, item: Item, args: seq<seq<Arg>>, last: seq<Arg>)
    requires AllWellFormed(f) && AllFit(f, args) && HeadFormed(item) && Ends(item, "") && Fits(item, last)
    ensures Output(FormatString(f) + ("%" + Head(item, "")), Flatten(args) + last) == Faulty(PastFormat)
  {
    FormatPrints(f, "%" + Head(item, ""), args, last);
    UnfinishedTurn(item, last);
  }

  lemma UnfinishedTurn(item: Item, args: seq<Arg>)
    requires HeadFormed(item) && Ends(item, "") && Fits(item, args)
    ensures TURN("%" + Head(item, ""), args) == Stopped(PastFormat)
  {
    assert ("%" + Head(item, ""))[1..] == Head(item, "");
    assert args + [] == args;
    HeadRead(item, "", args, []);
  }

  function DoublePercents(s: string): string {
    if s == "" then "" else (if s[0] == '%' then "%%" else [s[0]]) + DoublePercents(s[1..])
  }

  /** The directive a character becomes when percent signs are doubled. */
  function DoubledItem(c: char): Item {
    if c == '%' then Spec("", NoWidth, NoPrecision, NoModifier, '%') else Plain(c)
  }

  function DoubledPart(c: char): string {
    if c == '%' then "%%" else [c]
  }

  lemma DoubledTurn(c: char)
    ensures IsTurn(TURN, DoubledPart(c), [], [c])
  {
    assert Written(DoubledItem(c)) == DoubledPart(c);
    ItemIsTurn(DoubledItem(c), []);
  }

  function DoubledParts(s: string): seq<string> {
    seq(|s|, k requires 0 <= k < |s| => DoubledPart(s[k]))
  }

  function Letters(s: string): seq<string> {
    seq(|s|, k requires 0 <= k < |s| => [s[k]])
  }

  function NoArgs(s: string): seq<seq<Arg>> {
    seq(|s|, _ => [])
  }

  lemma {:induction false} DoubledConcat(s: string)
    ensures Concat(DoubledParts(s)) == DoublePercents(s) && Concat(Letters(s)) == s && Flatten(NoArgs(s)) == []
    decreases |s|
  {
    if s != "" {
      DoubledConcat(s[1..]);
      assert DoubledParts(s)[1..] == DoubledParts(s[1..]);
      assert Letters(s)[1..] == Letters(s[1..]);
      assert NoArgs(s)[1..] == NoArgs(s[1..]);
      assert [s[0]] + s[1..] == s;
    }
  }

  /** Any string with its percent signs doubled prints as itself. */
  lemma DoubledPrintsItself(s: string, args: seq<Arg>)
    ensures Output(DoublePercents(s), args) == Text(s)
  {
    forall k | 0 <= k < |s| ensures IsTurn(TURN, DoubledParts(s)[k], NoArgs(s)[k], Letters(s)[k]) {
      DoubledTurn(s[k]);
    }
    LoopPrints(TURN, DoubledParts(s), Letters(s), "", NoArgs(s), args);
    DoubledConcat(s);
    assert DoublePercents(s) + "" == DoublePercents(s) && [] + args == args && s + "" == s;
  }

  // --- Conversions and the standard; numbers read back ---

  /** The bits of the integer a modifier announces: a char, a short, an int, or a longer one. */
  function Bits(m: Modifier): nat {
    match m
    case HH => 8
    case H => 16
    case NoModifier => 32
    case L | LL | T | J | Z => 64
  }

  /** v is what an argument word stands for as an integer of b bits: the number in range that differs
      from it by a multiple of 2^b. */
  ghost predicate StandsFor(v: int, w: u64, b: nat, signed: bool)
    requires b > 0
  {
    var half: int, whole: int := Pow2(b - 1), Pow2(b);
    && (if signed then -half <= v < half else 0 <= v < whole)
    && whole > 0 && (v - w) % whole == 0
  }

  /** The value a directive converts. */
  function Converted(conv: char, w: u64, size: Size): int {
    if IsSigned(conv) then SignedArg(w, size) else UnsignedArg(w, size)
  }

  lemma WordMagnitude(w: u64, size: Size)
    ensures var v := SignedArg(w, size); Magnitude(v, size) == (if v < 0 then -v else v)
    ensures -0x8000_0000_0000_0000 <= SignedArg(w, size) < 0x8000_0000_0000_0000
  {
  }

  /** The magnitude is the absolute value, for the least value of every size too. */
  lemma MagnitudeIsAbsolute(conv: char, w: u64, size: Size)
    ensures var v := Converted(conv, w, size);
      && IntegerNegative(conv, w, size) == (v < 0) && -0x8000_0000_0000_0000 <= v < 0x1_0000_0000_0000_0000
      && IntegerMagnitude(conv, w, size) == (if v < 0 then -v else v)
  {
    WordMagnitude(w, size);
  }

  /** A converted integer of section 7.19.6.1: plus and space only for d and i, # not in base 10. */
  function C99Conversion(conv: char, v: int, prec: nat, width: nat, f: Flags): string {
    C99Integer(if v < 0 then -v else v, v < 0, Base(conv), prec, width, C99Flags(conv, f))
  }

  lemma ZeropadIgnored(v: nat, negative: bool, base: nat, prec: nat, width: nat, f: Flags)
    requires Numeric(base) && f.precision
    ensures C99Integer(v, negative, base, prec, width, f) == C99Integer(v, negative, base, prec, width, f.(zeropad := false))
  {
  }

  /** The flags the standard gives a meaning for this specifier. */
  function C99Flags(conv: char, f: Flags): Flags {
    f.(plus := f.plus && IsSigned(conv), space := f.space && IsSigned(conv), hash := f.hash && Base(conv) != 10,
       uppercase := conv == 'X')
  }

  lemma FlagsPassed(conv: char, f: Flags)
    requires IsInteger(conv) && !f.uppercase
    ensures IntegerFlags(conv, f)
         == if f.precision then C99Flags(conv, f).(zeropad := false) else C99Flags(conv, f)
  {
  }

  /** What the code does to the flags changes nothing about the field the standard describes. */
  lemma FlagsMeanTheSame(conv: char, v: int, prec: nat, width: nat, f: Flags)
    requires IsInteger(conv) && !f.uppercase
    ensures C99Conversion(conv, v, prec, width, f)
         == C99Integer(if v < 0 then -v else v, v < 0, Base(conv), prec, width, IntegerFlags(conv, f))
  {
    FlagsPassed(conv, f);
    if f.precision {
      ZeropadIgnored(if v < 0 then -v else v, v < 0, Base(conv), prec, width, C99Flags(conv, f));
    }
  }

  lemma NtoaMeetsC99Exactly(conv: char, v: int, prec: nat, width: nat, f: Flags, code: string)
    requires IsInteger(conv) && conv != 'b' && -0x8000_0000_0000_0000 <= v < 0x1_0000_0000_0000_0000
    requires !f.uppercase && (!f.precision ==> prec == 0) && (v < 0 ==> IsSigned(conv))
    requires code == Ntoa(if v < 0 then -v else v, v < 0, Base(conv), prec, width, IntegerFlags(conv, f))
    ensures code == C99Conversion(conv, v, prec, width, f)
      <==> Agrees(if v < 0 then -v else v, v < 0, Base(conv), prec, width, IntegerFlags(conv, f))
  {
    FlagsMeanTheSame(conv, v, prec, width, f);
    MeetsC99Exactly(if v < 0 then -v else v, v < 0, Base(conv), prec, width, IntegerFlags(conv, f));
  }

  lemma IntegerTextIs(conv: char, w: u64, d: Directive)
    requires IsInteger(conv)
    ensures var v := Converted(conv, w, d.size);
      && -0x8000_0000_0000_0000 <= v < 0x1_0000_0000_0000_0000 && (v < 0 ==> IsSigned(conv))
      && IntegerText(conv, w, d)
           == Ntoa(if v < 0 then -v else v, v < 0, Base(conv), d.precision, d.width, IntegerFlags(conv, d.flags))
  {
    MagnitudeIsAbsolute(conv, w, d.size);
  }

  /** For d, i, u, x, X and o, the text of a directive is the field of the standard exactly when
      Agrees holds of the flags that reach the conversion. */
  lemma IntegerMeetsC99Exactly(conv: char, w: u64, d: Directive)
    requires IsInteger(conv) && conv != 'b'
    requires !d.flags.uppercase && (!d.flags.precision ==> d.precision == 0)
    ensures var v := Converted(conv, w, d.size);
      IntegerText(conv, w, d) == C99Conversion(conv, v, d.precision, d.width, d.flags)
      <==> Agrees(if v < 0 then -v else v, v < 0, Base(conv), d.precision, d.width, IntegerFlags(conv, d.flags))
  {
    var code := IntegerText(conv, w, d);
    IntegerTextIs(conv, w, d);
    NtoaMeetsC99Exactly(conv, Converted(conv, w, d.size), d.precision, d.width, d.flags, code);
  }

  /** %s pads to the width as the standard says unless the 32-bit length of a string of 4 GB or more
      asks for padding the string does not need. */
  lemma StringMeetsC99Exactly(p: string, precision: u32, width: nat, flags: Flags)
    requires !flags.precision ==> precision == 0
    ensures var shown := Shown(p, precision, flags);
      var pad := Repeat(' ', AtLeast(|shown|, width));
      StringText(p, precision, width, flags) == (if flags.left then shown + pad else pad + shown)
      <==> flags.precision || |p| < 0x1_0000_0000 || width <= |p| % 0x1_0000_0000
  {
    var shown := Shown(p, precision, flags);
    var pad := Repeat(' ', AtLeast(|shown|, width));
    var code := StringText(p, precision, width, flags);
    if flags.precision {
      assert StringLength(p, precision, flags) == |shown|;
    } else if |p| >= 0x1_0000_0000 {
      assert |code| == |p| + AtLeast(|p| % 0x1_0000_0000, width);
    }
  }

  function DecimalText(v: int): string {
    (if v < 0 then "-" else "") + Numeral(if v < 0 then -v else v, 10, false)
  }

  lemma NtoaIsDecimal(m: u64, negative: bool, v: int)
    requires m == (if v < 0 then -v else v) && negative == (v < 0)
    ensures Ntoa(m, negative, Base('d'), 0, 0, IntegerFlags('d', NO_FLAGS)) == DecimalText(v)
  {
    PlainDecimal(m, negative);
  }

  /** %d without flags prints the sign and the digits of the value, for the least values too. */
  lemma SignedPrints(w: u64, size: Size, rest: string, args: seq<Arg>)
    ensures IntegerText('d', w, Directive(NO_FLAGS, 0, 0, size, rest, args)) == DecimalText(SignedArg(w, size))
  {
    MagnitudeIsAbsolute('d', w, size);
    NtoaIsDecimal(IntegerMagnitude('d', w, size), IntegerNegative('d', w, size), SignedArg(w, size));
  }

  /** The digits read by _atoi, negated in 32 bits after a minus sign. */
  function SignedNumber(negative: bool, digits: string): u32 {
    var read: int := TakeNumber(digits, 0).0;
    Wrap32(if negative then -read else read)
  }

  lemma WrapNegate(m: int)
    requires m >= 0
    ensures Wrap32(-(Wrap32(m) as int)) == Wrap32(-m)
  {
    var q := m / 0x1_0000_0000;
    assert -(Wrap32(m) as int) == -m + 0x1_0000_0000 * q;
    ModPlusMultiple(-m, 0x1_0000_0000, q);
  }

  lemma ReadNegated(negative: bool, digits: string, m: int)
    requires m >= 0 && TakeNumber(digits, 0).0 == Wrap32(m)
    ensures SignedNumber(negative, digits) == Wrap32(if negative then -m else m)
  {
    WrapNegate(m);
  }

  /** Sign and digits read back as the value modulo 2^32. */
  lemma SignedReadsBack(v: int)
    ensures SignedNumber(v < 0, Numeral(if v < 0 then -v else v, 10, false)) == Wrap32(v)
  {
    var m: int := if v < 0 then -v else v;
    UnsignedReadsBack(m);
    ReadNegated(v < 0, Numeral(m, 10, false), m);
  }

  lemma PlainDecimal(m: u64, negative: bool)
    ensures Ntoa(m, negative, 10, 0, 0, NO_FLAGS) == (if negative then "-" else "") + Numeral(m, 10, false)
  {
    NumeralFits(m, 10, false);
    PlainSpaces(Numeral(m, 10, false), negative, 10, 0, NO_FLAGS);
  }

  lemma {:induction false} NumeralIsDigits(v: nat, upper: bool)
    ensures AllDigits(Numeral(v, 10, upper))
    decreases v
  {
    DigitRoundTrip(v % 10, upper);
    if v >= 10 {
      NumeralIsDigits(v / 10, upper);
    }
  }

  /** The decimal digits of any number, read by _atoi, give the number modulo 2^32. */
  lemma UnsignedReadsBack(v: nat)
    ensures TakeNumber(Numeral(v, 10, false), 0) == (Wrap32(v), "")
  {
    NumeralIsDigits(v, false);
    DigitsRead(Numeral(v, 10, false), "");
    NumeralReadsBack(v, 10, false);
    assert Numeral(v, 10, false) + "" == Numeral(v, 10, false);
  }
}
