/** Which format strings the reader of Formats gets through: every string is a sequence of whole
    directives, or such a sequence with a directive that breaks off behind it. */
module FormatGrammar {
  import opened Digits
  import opened Conversions
  import opened Formats
  import opened FormatLaws

  // --- Reading past the parts of a directive, whatever the arguments ---

  function SkipFlags(s: string): (r: string)
    ensures |r| <= |s| && (r == "" || !IsFlag(r[0]))
  {
    if s == "" || !IsFlag(s[0]) then s else SkipFlags(s[1..])
  }

  function SkipDigits(s: string): (r: string)
    ensures |r| <= |s| && (r == "" || !IsDigit(r[0]))
  {
    if s == "" || !IsDigit(s[0]) then s else SkipDigits(s[1..])
  }

  function SkipWidth(s: string): string {
    if s != "" && IsDigit(s[0]) then SkipDigits(s) else if s != "" && s[0] == '*' then s[1..] else s
  }

  function SkipPrecision(s: string): string {
    if s != "" && s[0] == '.' then SkipWidth(s[1..]) else s
  }

  function SkipModifier(s: string): string {
    if s == "" || !IsSizeLetter(s[0]) then s
    else if |s| > 1 && (s[0] == 'l' || s[0] == 'h') && s[1] == s[0] then s[2..]
    else s[1..]
  }

  /** What comes behind the head of a directive. */
  function SkipHead(s: string): (r: string)
    ensures |r| <= |s|
  {
    SkipModifier(SkipPrecision(SkipWidth(SkipFlags(s))))
  }

  /** Every percent sign has its specifier. */
  predicate Finishes(s: string)
    decreases |s|
  {
    if s == "" then true
    else if s[0] != '%' then Finishes(s[1..])
    else
      var rest := SkipHead(s[1..]);
      rest != "" && Finishes(rest[1..])
  }

  // --- The reader gets exactly there ---

  lemma {:induction false} FlagsSkipped(s: string, f: Flags)
    ensures TakeFlags(s, f).1 == SkipFlags(s)
    decreases |s|
  {
    if s != "" && IsFlag(s[0]) {
      FlagsSkipped(s[1..], SetFlag(s[0], f));
    }
  }

  lemma {:induction false} DigitsSkipped(s: string, i: int)
    requires 0 <= i < 0x1_0000_0000
    ensures TakeNumber(s, i).1 == SkipDigits(s)
    decreases |s|
  {
    if s != "" && IsDigit(s[0]) {
      DigitsSkipped(s[1..], (i * 10 + DigitValue(s[0])) % 0x1_0000_0000);
    }
  }

  lemma WidthSkipped(f: Flags, s: string, args: seq<Arg>)
    ensures var r := TakeWidth(f, s, args); if r.Read? then r.d.rest == SkipWidth(s) else r.why == BadArgument
  {
    DigitsSkipped(s, 0);
  }

  lemma PrecisionSkipped(d: Directive)
    ensures var r := TakePrecision(d); if r.Read? then r.d.rest == SkipPrecision(d.rest) else r.why == BadArgument
  {
    if d.rest != "" {
      DigitsSkipped(d.rest[1..], 0);
    }
  }

  lemma ModifierSkipped(d: Directive)
    ensures TakeSize(d).rest == SkipModifier(d.rest)
  {
  }

  lemma HeadSkipped(s: string, args: seq<Arg>)
    ensures var r := TakeDirective(s, args); if r.Read? then r.d.rest == SkipHead(s) else r.why == BadArgument
  {
    FlagsSkipped(s, NO_FLAGS);
    var (flags, rest) := TakeFlags(s, NO_FLAGS);
    WidthSkipped(flags, rest, args);
    var r := TakeWidth(flags, rest, args);
    if r.Read? {
      PrecisionSkipped(r.d);
      var q := TakePrecision(r.d);
      if q.Read? {
        ModifierSkipped(q.d);
      }
    }
  }

  /** A turn on s that lacks no argument takes a character or a whole directive, or finds that the
      directive breaks off. */
  predicate SkipsAt(t: Turn, s: string)
    requires s != ""
  {
    var rest := SkipHead(s[1..]);
    match t
    case Stopped(why) => why == BadArgument || (why == PastFormat && s[0] == '%' && rest == "")
    case Printed(_, left, _) => if s[0] != '%' then left == s[1..] else rest != "" && left == rest[1..]
  }

  lemma OnlyArgumentsFail(c: char, d: Directive)
    ensures Convert(c, d).Failed? ==> Convert(c, d).why == BadArgument
  {
  }

  lemma TurnSkips(s: string, args: seq<Arg>)
    requires s != ""
    ensures SkipsAt(TURN(s, args), s)
  {
    assert TURN(s, args) == TurnWith(CONVERT, s, args);
    if s[0] == '%' {
      HeadSkipped(s[1..], args);
      var r := TakeDirective(s[1..], args);
      if r.Read? && r.d.rest != "" {
        OnlyArgumentsFail(r.d.rest[0], r.d);
      }
    }
  }

  lemma {:induction false} LoopFinishes(turn: Turner, s: string, args: seq<Arg>)
    requires forall t, a :: t != "" ==> SkipsAt(turn(t, a), t)
    ensures match LoopWith(turn, s, args)
      case Text(_) => Finishes(s)
      case Faulty(why) => why == PastFormat ==> !Finishes(s)
    decreases |s|
  {
    if s != "" {
      var r := turn(s, args);
      assert SkipsAt(r, s);
      if r.Printed? {
        LoopFinishes(turn, r.rest, r.args);
      }
    }
  }

  /** Unless an argument is missing or of the wrong kind, the reader runs over the end exactly when the
      format does not finish. */
  lemma PastFormatExactly(s: string, args: seq<Arg>)
    requires Output(s, args) != Faulty(BadArgument)
    ensures Output(s, args) == Faulty(PastFormat) <==> !Finishes(s)
  {
    forall t, a: seq<Arg> | t != "" ensures SkipsAt(TURN(t, a), t) {
      TurnSkips(t, a);
    }
    LoopFinishes(TURN, s, args);
  }

  // --- The grammar is complete ---

  lemma {:induction false} FlagsSplit(s: string) returns (flags: string)
    ensures s == flags + SkipFlags(s) && AllFlags(flags)
    decreases |s|
  {
    flags := "";
    if s != "" && IsFlag(s[0]) {
      var more := FlagsSplit(s[1..]);
      flags := [s[0]] + more;
      assert flags + SkipFlags(s) == [s[0]] + s[1..];
    }
  }

  lemma {:induction false} DigitsSplit(s: string) returns (digits: string)
    ensures s == digits + SkipDigits(s) && AllDigits(digits)
    ensures s != "" && IsDigit(s[0]) ==> digits != ""
    decreases |s|
  {
    digits := "";
    if s != "" && IsDigit(s[0]) {
      var more := DigitsSplit(s[1..]);
      digits := [s[0]] + more;
      assert digits + SkipDigits(s) == [s[0]] + s[1..];
    }
  }

  lemma WidthSplit(s: string) returns (w: Width)
    ensures var rest := SkipWidth(s);
      s == WidthText(w) + rest && WidthFormed(w) && (rest != "" ==> EndsWidth(w, rest[0]))
  {
    w := NoWidth;
    if s != "" && IsDigit(s[0]) {
      var digits := DigitsSplit(s);
      w := Fixed(digits);
    } else if s != "" && s[0] == '*' {
      w := Star;
      assert s == "*" + s[1..];
    }
  }

  lemma PrecisionSplit(s: string) returns (p: Precision)
    ensures var rest := SkipPrecision(s);
      s == PrecisionText(p) + rest && PrecisionFormed(p) && (rest != "" ==> EndsPrecision(p, rest[0]))
  {
    p := NoPrecision;
    if s != "" && s[0] == '.' {
      var w := WidthSplit(s[1..]);
      p := AsPrecision(w);
      PointInFront(s, w, SkipPrecision(s));
    }
  }

  /** A number or an asterisk behind the point. */
  function AsPrecision(w: Width): Precision {
    match w
    case NoWidth => Dot("")
    case Fixed(digits) => Dot(digits)
    case Star => DotStar
  }

  lemma PointInFront(s: string, w: Width, rest: string)
    requires s != "" && s[0] == '.' && s[1..] == WidthText(w) + rest
    ensures s == PrecisionText(AsPrecision(w)) + rest
  {
    assert s == "." + (WidthText(w) + rest);
    Associative(".", WidthText(w), rest);
    assert PrecisionText(AsPrecision(w)) == "." + WidthText(w);
  }

  lemma ModifierSplit(s: string) returns (m: Modifier)
    ensures var rest := SkipModifier(s);
      s == ModifierText(m) + rest && (rest != "" ==> EndsModifier(m, rest[0]))
  {
    m := NoModifier;
    if s != "" && IsSizeLetter(s[0]) {
      var double := |s| > 1 && s[1] == s[0];
      m := if s[0] == 'l' then (if double then LL else L)
           else if s[0] == 'h' then (if double then HH else H)
           else if s[0] == 't' then T else if s[0] == 'j' then J else Z;
      assert s == [s[0]] + s[1..];
      assert double ==> s == [s[0], s[0]] + s[2..];
    }
  }

  lemma HeadSplit(s: string, conv: char) returns (item: Item)
    ensures HeadFormed(item) && Ends(item, SkipHead(s)) && item.conv == conv && s == Head(item, SkipHead(s))
  {
    var x := SkipFlags(s);
    var y := SkipWidth(x);
    var z := SkipPrecision(y);
    var flags := FlagsSplit(s);
    var w := WidthSplit(x);
    var p := PrecisionSplit(y);
    var m := ModifierSplit(z);
    item := Spec(flags, w, p, m, conv);
  }

  lemma DirectiveSplit(s: string) returns (item: Item)
    requires SkipHead(s) != ""
    ensures var rest := SkipHead(s);
      item.Spec? && WellFormed(item) && "%" + s == Written(item) + rest[1..]
  {
    var rest := SkipHead(s);
    item := HeadSplit(s, rest[0]);
    EndsAlone(item, rest);
    assert rest == [rest[0]] + rest[1..];
    HeadJoins(item, [rest[0]], rest[1..]);
  }

  lemma EndsAlone(item: Item, tail: string)
    requires item.Spec? && tail != "" && Ends(item, tail)
    ensures Ends(item, [tail[0]])
  {
    var z, zz := ModifierText(item.size) + tail, ModifierText(item.size) + [tail[0]];
    assert zz[0] == z[0];
    var y, yy := PrecisionText(item.precision) + z, PrecisionText(item.precision) + zz;
    assert yy[0] == y[0];
    var x, xx := WidthText(item.width) + y, WidthText(item.width) + yy;
    assert xx[0] == x[0];
  }

  lemma HeadJoins(item: Item, tail: string, rest: string)
    requires item.Spec?
    ensures "%" + Head(item, tail + rest) == ("%" + Head(item, tail)) + rest
  {
  }

  /** The strings that are sequences of whole directives. */
  ghost predicate Complete(s: string) {
    exists f :: AllWellFormed(f) && s == FormatString(f)
  }

  /** A directive of which nothing is left behind the head. */
  predicate Unfinished(item: Item) {
    HeadFormed(item) && Ends(item, "")
  }

  /** The strings in which a directive without its specifier follows such a sequence. */
  ghost predicate BreaksOff(s: string) {
    exists f, item :: AllWellFormed(f) && Unfinished(item) && s == FormatString(f) + ("%" + Head(item, ""))
  }

  lemma ConcatCons(part: string, parts: seq<string>)
    ensures Concat([part] + parts) == part + Concat(parts)
  {
    assert ([part] + parts)[1..] == parts;
  }

  lemma FormatStringCons(item: Item, f: Format)
    ensures FormatString([item] + f) == Written(item) + FormatString(f)
  {
    var g := [item] + f;
    var parts := seq(|f|, k requires 0 <= k < |f| => Written(f[k]));
    ConcatCons(Written(item), parts);
    assert seq(|g|, k requires 0 <= k < |g| => Written(g[k])) == [Written(item)] + parts;
  }

  lemma Associative(a: string, b: string, c: string)
    ensures a + (b + c) == (a + b) + c
  {
  }

  lemma AllWellFormedCons(item: Item, f: Format)
    requires WellFormed(item) && AllWellFormed(f)
    ensures AllWellFormed([item] + f)
  {
  }

  /** One more directive in front. */
  lemma CompleteInFront(item: Item, rest: string)
    requires WellFormed(item) && Complete(rest)
    ensures Complete(Written(item) + rest)
  {
    var f :| AllWellFormed(f) && rest == FormatString(f);
    FormatStringCons(item, f);
    AllWellFormedCons(item, f);
  }

  lemma BreaksOffThere(f: Format, item: Item, tail: string)
    requires AllWellFormed(f) && Unfinished(item) && tail == "%" + Head(item, "")
    ensures BreaksOff(FormatString(f) + tail)
  {
  }

  lemma BreaksOffInFront(item: Item, rest: string)
    requires WellFormed(item) && BreaksOff(rest)
    ensures BreaksOff(Written(item) + rest)
  {
    var f, last :| AllWellFormed(f) && Unfinished(last) && rest == FormatString(f) + ("%" + Head(last, ""));
    FormatStringCons(item, f);
    AllWellFormedCons(item, f);
    BreaksOffThere([item] + f, last, "%" + Head(last, ""));
    Associative(Written(item), FormatString(f), "%" + Head(last, ""));
  }

  lemma InFront(item: Item, rest: string)
    requires WellFormed(item)
    ensures Complete(rest) ==> Complete(Written(item) + rest)
    ensures BreaksOff(rest) ==> BreaksOff(Written(item) + rest)
  {
    if Complete(rest) {
      CompleteInFront(item, rest);
    }
    if BreaksOff(rest) {
      BreaksOffInFront(item, rest);
    }
  }

  lemma NothingIsComplete()
    ensures AllWellFormed([]) && FormatString([]) == "" && Complete("")
  {
  }

  /** A head with nothing behind it. */
  lemma BrokenHead(s: string)
    requires SkipHead(s) == ""
    ensures BreaksOff("%" + s)
  {
    var item := HeadSplit(s, '%');
    NothingIsComplete();
    BreaksOffThere([], item, "%" + Head(item, ""));
    assert "" + ("%" + s) == "%" + s;
  }

  /** A whole directive in front. */
  lemma DirectiveInFront(s: string)
    requires SkipHead(s) != ""
    ensures Complete(SkipHead(s)[1..]) ==> Complete("%" + s)
    ensures BreaksOff(SkipHead(s)[1..]) ==> BreaksOff("%" + s)
  {
    var item := DirectiveSplit(s);
    InFront(item, SkipHead(s)[1..]);
  }

  lemma CharacterInFront(c: char, rest: string)
    requires c != '%'
    ensures Complete(rest) ==> Complete([c] + rest)
    ensures BreaksOff(rest) ==> BreaksOff([c] + rest)
  {
    InFront(Plain(c), rest);
  }

  lemma {:induction false} EveryFormatSplits(s: string)
    ensures if Finishes(s) then Complete(s) else BreaksOff(s)
    decreases |s|
  {
    if s == "" {
      NothingIsComplete();
    } else {
      var rest := s[1..];
      assert s == [s[0]] + rest;
      if s[0] != '%' {
        EveryFormatSplits(rest);
        CharacterInFront(s[0], rest);
      } else if SkipHead(rest) == "" {
        BrokenHead(rest);
      } else {
        EveryFormatSplits(SkipHead(rest)[1..]);
        DirectiveInFront(rest);
      }
    }
  }

  // --- Arguments that fit ---

  function SomeArgs(item: Item): (r: seq<Arg>)
    ensures Fits(item, r)
  {
    match item
    case Plain(_) => []
    case Spec(_, _, _, _, conv) =>
      seq(StarCount(item), _ => Word(0)) + (if !TakesArg(conv) then [] else if conv == 's' then [Str("")] else [Word(0)])
  }

  function SomeArgsFor(f: Format): (r: seq<seq<Arg>>)
    ensures AllFit(f, r)
  {
    seq(|f|, k requires 0 <= k < |f| => SomeArgs(f[k]))
  }

  /** Whole directives finish, broken ones do not: the two kinds of format have nothing in common and
      leave nothing out. */
  lemma FinishesExactly(s: string)
    ensures Finishes(s) <==> Complete(s)
    ensures !Finishes(s) <==> BreaksOff(s)
  {
    EveryFormatSplits(s);
    if Complete(s) {
      var f :| AllWellFormed(f) && s == FormatString(f);
      FormatPrintsAll(f, SomeArgsFor(f));
      PastFormatExactly(s, Flatten(SomeArgsFor(f)));
    }
    if BreaksOff(s) {
      var f, item :| AllWellFormed(f) && Unfinished(item) && s == FormatString(f) + ("%" + Head(item, ""));
      UnfinishedFaults(f, item, SomeArgsFor(f), SomeArgs(item));
      PastFormatExactly(s, Flatten(SomeArgsFor(f)) + SomeArgs(item));
    }
  }

  /** For every format there are arguments it does not find missing. */
  lemma ArgumentsExist(s: string) returns (args: seq<Arg>)
    ensures Output(s, args) != Faulty(BadArgument)
  {
    EveryFormatSplits(s);
    if Finishes(s) {
      var f :| AllWellFormed(f) && s == FormatString(f);
      FormatPrintsAll(f, SomeArgsFor(f));
      args := Flatten(SomeArgsFor(f));
    } else {
      var f, item :| AllWellFormed(f) && Unfinished(item) && s == FormatString(f) + ("%" + Head(item, ""));
      UnfinishedFaults(f, item, SomeArgsFor(f), SomeArgs(item));
      args := Flatten(SomeArgsFor(f)) + SomeArgs(item);
    }
  }

  /** Unless an argument is missing or of the wrong kind, _vsnprintf stops at the terminator exactly for
      sequences of whole directives, and steps over it exactly where one breaks off. */
  lemma StopsAtTerminatorExactly(s: string, args: seq<Arg>)
    requires Output(s, args) != Faulty(BadArgument)
    ensures Output(s, args).Text? <==> Complete(s)
    ensures Output(s, args) == Faulty(PastFormat) <==> BreaksOff(s)
  {
    PastFormatExactly(s, args);
    FinishesExactly(s);
    TwoFaults(Output(s, args));
  }

  lemma TwoFaults(o: Outcome)
    ensures o.Text? || o == Faulty(PastFormat) || o == Faulty(BadArgument)
  {
    match o
    case Text(_) =>
    case Faulty(why) =>
      match why
      case PastFormat =>
      case BadArgument =>
  }
}
