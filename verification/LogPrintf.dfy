/**
  The logging printf: its format state machine and its integer printer, writing one character at a
  time to the log device.
 */
module LogPrintf {
  import opened Digits
  import opened Powers

  const SIGN_BIT: int := 0x8000_0000

  type Word = x: int | 0 <= x < WORD

  /** One argument slot: the word in it, and the characters that word points to when it is a pointer. */
  datatype Arg = Arg(word: Word, text: string)

  /** The arguments from the first one on; how many the caller passed is not known. */
  type Args = nat -> Arg

  function Slot(args: Args, k: nat): Arg {
    args(k)
  }

  datatype Kind = Number(base: nat, signed: bool, upper: bool) | Character | Chars | Unknown

  function KindOf(letter: char): Kind {
    match letter
    case 'd' => Number(10, true, false)
    case 'i' => Number(10, true, false)
    case 'u' => Number(10, false, false)
    case 'o' => Number(8, false, false)
    case 'x' => Number(16, false, false)
    case 'X' => Number(16, false, true)
    case 'c' => Character
    case 's' => Chars
    case _ => Unknown
  }

  function Repeat(c: char, n: int): (s: string)
    ensures |s| == (if n < 0 then 0 else n) && forall k :: 0 <= k < |s| ==> s[k] == c
  {
    if n <= 0 then "" else Repeat(c, n - 1) + [c]
  }

  /** The number that a word stands for. */
  function Meaning(w: Word, signed: bool): int {
    if signed && w >= SIGN_BIT then w - WORD else w
  }

  function Abs(x: int): (r: nat)
    ensures r == x || r == 0 - x
  {
    if x < 0 then 0 - x as int else x
  }

  /** What comes before the digits: the sign goes before padding zeros and after padding spaces. */
  function LeadText(negative: bool, zero: bool, room: int): string {
    var sign, pad := if negative then "-" else "", if negative then room - 1 else room;
    if zero then sign + Repeat('0', pad) else Repeat(' ', pad) + sign
  }

  /** A number in its field. */
  function IntegerText(x: int, zero: bool, width: int, base: nat, upper: bool): string
    requires 2 <= base <= 16
  {
    var digits := Text(Abs(x), base, upper);
    LeadText(x < 0, zero, width - |digits|) + digits
  }

  /** Reading an integer: spaces, then a sign, then digits. */
  function ReadInteger(s: string, base: nat): int {
    if s != "" && s[0] == ' ' then ReadInteger(s[1..], base)
    else if s != "" && s[0] == '-' then 0 - Value(s[1..], base)
    else Value(s, base)
  }

  lemma {:induction false} SpacesAhead(n: int, s: string, base: nat)
    ensures ReadInteger(Repeat(' ', n) + s, base) == ReadInteger(s, base)
    decreases n
  {
    if n <= 0 {
      assert Repeat(' ', n) + s == s;
    } else {
      var t := Repeat(' ', n) + s;
      assert t[1..] == Repeat(' ', n - 1) + s;
      SpacesAhead(n - 1, s, base);
    }
  }

  lemma {:induction false} ZerosAreWorthNothing(n: int, base: nat)
    ensures Value(Repeat('0', n), base) == 0
    decreases n
  {
    if n <= 0 {
    } else {
      ZerosAreWorthNothing(n - 1, base);
      ValueSnoc(Repeat('0', n - 1), '0', base);
    }
  }

  lemma {:induction false} ZerosAhead(n: int, s: string, base: nat)
    ensures Value(Repeat('0', n) + s, base) == Value(s, base)
    decreases |s|
  {
    var zeros := Repeat('0', n);
    if s == "" {
      assert zeros + s == zeros;
      ZerosAreWorthNothing(n, base);
    } else {
      var front, last := s[..|s| - 1], s[|s| - 1];
      assert zeros + s == (zeros + front) + [last] && s == front + [last];
      ZerosAhead(n, front, base);
      ValueSnoc(zeros + front, last, base);
      ValueSnoc(front, last, base);
    }
  }

  lemma Assoc(a: string, b: string, c: string)
    ensures (a + b) + c == a + (b + c)
  {
  }

  lemma PlainReadsBack(zeros: int, digits: string, base: nat)
    requires digits != "" && IsDigits(digits, base)
    ensures ReadInteger(Repeat('0', zeros) + digits, base) == Value(digits, base)
    ensures ReadInteger("-" + (Repeat('0', zeros) + digits), base) == 0 - Value(digits, base)
  {
    var body := Repeat('0', zeros) + digits;
    ZerosAhead(zeros, digits, base);
    assert body[0] == if zeros > 0 then '0' else digits[0];
    assert body[0] != ' ' && body[0] != '-';
    assert ("-" + body)[1..] == body;
  }

  /** The sign with digits after it, whatever padding stands between or before. */
  lemma LeadReadsBack(negative: bool, zero: bool, room: int, digits: string, base: nat)
    requires digits != "" && IsDigits(digits, base)
    ensures var s, need := LeadText(negative, zero, room) + digits, if negative then 1 else 0;
            && |s| == |digits| + (if need < room then room else need)
            && ReadInteger(s, base) == if negative then 0 - Value(digits, base) else Value(digits, base)
  {
    var sign, pad := if negative then "-" else "", if negative then room - 1 else room;
    if zero {
      SignThenZeros(sign, pad, digits, base);
    } else {
      SpacesThenSign(sign, pad, digits, base);
    }
  }

  lemma SignThenZeros(sign: string, pad: int, digits: string, base: nat)
    requires digits != "" && IsDigits(digits, base) && (sign == "" || sign == "-")
    ensures var s := sign + Repeat('0', pad) + digits;
            ReadInteger(s, base) == if sign == "" then Value(digits, base) else 0 - Value(digits, base)
  {
    var zeros := Repeat('0', pad);
    PlainReadsBack(pad, digits, base);
    Assoc(sign, zeros, digits);
    if sign == "" {
      assert sign + (zeros + digits) == zeros + digits;
    }
  }

  lemma SpacesThenSign(sign: string, pad: int, digits: string, base: nat)
    requires digits != "" && IsDigits(digits, base) && (sign == "" || sign == "-")
    ensures var s := Repeat(' ', pad) + sign + digits;
            ReadInteger(s, base) == if sign == "" then Value(digits, base) else 0 - Value(digits, base)
  {
    SignThenZeros(sign, 0, digits, base);
    assert sign + Repeat('0', 0) + digits == sign + digits;
    Assoc(Repeat(' ', pad), sign, digits);
    SpacesAhead(pad, sign + digits, base);
  }

  /**
    For every value, base, width and flag the text fills the field exactly, or is as long as sign and
    shortest digits when they need more, and reads back as the value.
   */
  lemma IntegerReadsBack(x: int, zero: bool, width: int, base: nat, upper: bool)
    requires 2 <= base <= 16
    ensures var s, need := IntegerText(x, zero, width, base, upper),
                           |Text(Abs(x), base, upper)| + if x < 0 then 1 else 0;
            && |s| == (if need < width then width else need)
            && ReadInteger(s, base) == x
  {
    var digits := Text(Abs(x), base, upper);
    TextReadsBack(Abs(x), base, upper);
    LeadReadsBack(x < 0, zero, width - |digits|, digits, base);
  }

  /**
    How the field is filled up: with zeros between sign and digits, or with spaces before the sign and
    the shortest digits.
   */
  lemma PaddingMeans(x: int, zero: bool, width: int, base: nat, upper: bool)
    requires 2 <= base <= 16
    ensures var s, sign, digits := IntegerText(x, zero, width, base, upper), if x < 0 then "-" else "",
                                   Text(Abs(x), base, upper);
            var pad: nat := |s| - |sign| - |digits|;
            && (zero ==> s[..|sign|] == sign && s[|sign| + pad..] == digits)
            && (zero ==> forall i :: |sign| <= i < |sign| + pad ==> s[i] == '0')
            && (!zero ==> s[pad..] == sign + digits && forall i :: 0 <= i < pad ==> s[i] == ' ')
  {
    var digits := Text(Abs(x), base, upper);
    LeadMeans(x < 0, zero, width - |digits|, digits);
  }

  lemma LeadMeans(negative: bool, zero: bool, room: int, digits: string)
    ensures var s, sign := LeadText(negative, zero, room) + digits, if negative then "-" else "";
            var pad := |s| - |sign| - |digits|;
            && pad >= 0
            && (zero ==> s[..|sign|] == sign && s[|sign| + pad..] == digits)
            && (zero ==> forall i :: |sign| <= i < |sign| + pad ==> s[i] == '0')
            && (!zero ==> s[pad..] == sign + digits && forall i :: 0 <= i < pad ==> s[i] == ' ')
  {
    var sign, pad := if negative then "-" else "", if negative then room - 1 else room;
    var fill := Repeat(if zero then '0' else ' ', pad);
    assert LeadText(negative, zero, room) == if zero then sign + fill else fill + sign;
    if zero {
      assert (sign + fill + digits)[|sign| + |fill|..] == digits;
    } else {
      assert (fill + sign + digits)[|fill|..] == sign + digits;
    }
  }

  predicate IsModifier(c: char) {
    c == '.' || c == 'l' || '0' <= c <= '9'
  }

  /** What comes before the first point. */
  function Stem(s: string): string {
    if '.' in s then Stem(s[..|s| - 1]) else s
  }

  function DigitsIn(s: string): string {
    if s == "" then "" else
      DigitsIn(s[..|s| - 1]) + if '0' <= s[|s| - 1] <= '9' then [s[|s| - 1]] else ""
  }

  /** The field width a directive's modifiers ask for, or -1; what follows a point is read and ignored. */
  function Width(mods: string): int {
    var digits := DigitsIn(Stem(mods));
    if digits == "" then -1 else Value(digits, 10)
  }

  /** One more modifier changes the width the way the scanner does. */
  lemma WidthStep(mods: string, c: char)
    ensures Width(mods + [c]) ==
            if '0' <= c <= '9' && '.' !in mods
            then (if Width(mods) < 0 then 0 else Width(mods) * 10) + (c as int - '0' as int)
            else Width(mods)
  {
    var longer := mods + [c];
    assert longer[..|mods|] == mods;
    if '.' !in mods && c != '.' {
      assert '.' !in longer;
      if '0' <= c <= '9' {
        assert DigitsIn(longer) == DigitsIn(mods) + [c];
        ValueSnoc(DigitsIn(mods), c, 10);
      } else {
        assert DigitsIn(longer) == DigitsIn(mods);
      }
    } else {
      assert '.' in longer;
    }
  }

  /** The text of one directive, given its letter. */
  function Field(letter: char, zero: bool, width: int, arg: Arg): string {
    match KindOf(letter)
    case Number(base, signed, upper) => IntegerText(Meaning(arg.word, signed), zero, width, base, upper)
    case Character => Repeat(' ', width - 1) + [(arg.word % 256) as char]
    case Chars => Repeat(' ', width - |arg.text|) + arg.text
    case Unknown => ""
  }

  function Uses(letter: char): nat {
    if KindOf(letter).Unknown? then 0 else 1
  }

  /** The whole output for a format, starting with argument `k`. */
  function Render(fmt: string, args: Args, k: nat): string
    decreases |fmt|, 1
  {
    if fmt == "" then ""
    else if fmt[0] != '%' then [fmt[0]] + Render(fmt[1..], args, k)
    else RenderDirective(fmt[1..], args, k)
  }

  function RenderDirective(rest: string, args: Args, k: nat): string
    decreases |rest|, 2
  {
    if rest == "" then ""
    else if rest[0] == '%' then "%" + Render(rest[1..], args, k)
    else if rest[0] == '0' then RenderModifiers(true, "", rest[1..], args, k)
    else RenderModifiers(false, "", rest, args, k)
  }

  function RenderModifiers(zero: bool, mods: string, rest: string, args: Args, k: nat): string
    decreases |rest|, 1
  {
    if rest == "" then ""
    else if IsModifier(rest[0]) then RenderModifiers(zero, mods + [rest[0]], rest[1..], args, k)
    else Field(rest[0], zero, Width(mods), Slot(args, k)) + Render(rest[1..], args, k + Uses(rest[0]))
  }

  lemma {:induction false} ModifiersAreRead(zero: bool, mods: string, more: string, letter: char, tail: string,
                                            args: Args, k: nat)
    requires !IsModifier(letter) && forall c :: c in more ==> IsModifier(c)
    ensures RenderModifiers(zero, mods, more + [letter] + tail, args, k) ==
            Field(letter, zero, Width(mods + more), Slot(args, k)) + Render(tail, args, k + Uses(letter))
    decreases |more|
  {
    var rest := more + [letter] + tail;
    if more == "" {
      assert rest[1..] == tail && mods + more == mods;
    } else {
      assert rest[0] in more;
      assert rest[1..] == more[1..] + [letter] + tail;
      assert mods + [more[0]] + more[1..] == mods + more;
      ModifiersAreRead(zero, mods + [more[0]], more[1..], letter, tail, args, k);
    }
  }

  lemma {:induction false} DigitsHaveWidth(s: string)
    requires forall i :: 0 <= i < |s| ==> '0' <= s[i] <= '9'
    ensures DigitsIn(s) == s
  {
    if s == "" {
    } else {
      DigitsHaveWidth(s[..|s| - 1]);
      assert s == s[..|s| - 1] + [s[|s| - 1]];
    }
  }

  lemma FlagIsRead(zero: bool, body: string, args: Args, k: nat)
    requires !zero ==> body != "" && body[0] != '0' && body[0] != '%'
    ensures RenderDirective((if zero then "0" else "") + body, args, k) == RenderModifiers(zero, "", body, args, k)
  {
    var rest := (if zero then "0" else "") + body;
    if zero {
      assert rest[1..] == body;
    } else {
      assert rest == body;
    }
  }

  /**
    A directive with an optional zero flag and a width written in decimal prints its field. The eight
    letters that mean something take one argument each; any other prints nothing and takes none.
   */
  lemma DirectiveMeans(zero: bool, width: nat, letter: char, tail: string, args: Args, k: nat)
    requires 0 < width && !IsModifier(letter)
    ensures Render("%" + ((if zero then "0" else "") + (Text(width, 10, false) + [letter] + tail)), args, k) ==
            if letter in "diuoxXcs" then Field(letter, zero, width, Slot(args, k)) + Render(tail, args, k + 1)
            else Render(tail, args, k)
  {
    var digits, flag := Text(width, 10, false), if zero then "0" else "";
    DecimalWidth(width);
    assert "%" + (flag + (digits + [letter] + tail)) == "%" + flag + digits + [letter] + tail;
    DirectiveIsRead(zero, digits, letter, tail, args, k);
    UnknownPrintsNothing(letter, zero, width, Slot(args, k), Render(tail, args, k));
  }

  /** A width written in decimal is read as it was meant. */
  lemma DecimalWidth(width: nat)
    requires 0 < width
    ensures var digits := Text(width, 10, false);
            && digits[0] != '0' && Width(digits) == width && forall c :: c in digits ==> '0' <= c <= '9'
  {
    var digits := Text(width, 10, false);
    TextReadsBack(width, 10, false);
    DecimalDigits(width);
    assert digits[0] in digits;
    WidthOfDigits(digits);
  }

  lemma WidthOfDigits(digits: string)
    requires digits != "" && forall c :: c in digits ==> '0' <= c <= '9'
    ensures Width(digits) == Value(digits, 10)
  {
    assert forall i :: 0 <= i < |digits| ==> digits[i] in digits;
    DigitsHaveWidth(digits);
    assert Stem(digits) == digits;
  }

  lemma UnknownPrintsNothing(letter: char, zero: bool, width: int, arg: Arg, rest: string)
    ensures letter !in "diuoxXcs" ==> Field(letter, zero, width, arg) + rest == rest
  {
  }

  /** The characters between the percent sign and the letter, apart from a zero flag. */
  predicate AreModifiers(mods: string) {
    forall c :: c in mods ==> c == '.' || c == 'l' || '0' <= c <= '9'
  }

  lemma UsesMeans(letter: char)
    ensures Uses(letter) == if letter in "diuoxXcs" then 1 else 0
  {
  }

  /** The same for any modifiers: digits, points and the letter `l` in any order. */
  lemma DirectiveIsRead(zero: bool, mods: string, letter: char, tail: string, args: Args, k: nat)
    requires AreModifiers(mods) && !IsModifier(letter)
    requires (mods == "" ==> letter != '%' || zero) && (mods != "" && !zero ==> mods[0] != '0')
    ensures Render("%" + (if zero then "0" else "") + mods + [letter] + tail, args, k) ==
            Field(letter, zero, Width(mods), Slot(args, k))
            + Render(tail, args, if letter in "diuoxXcs" then k + 1 else k)
  {
    DirectiveBegins(zero, mods, letter, tail, args, k);
    ModifiersAreRead(zero, "", mods, letter, tail, args, k);
    assert "" + mods == mods;
    UsesMeans(letter);
  }

  lemma DirectiveBegins(zero: bool, mods: string, letter: char, tail: string, args: Args, k: nat)
    requires AreModifiers(mods) && !IsModifier(letter)
    requires (mods == "" ==> letter != '%' || zero) && (mods != "" && !zero ==> mods[0] != '0')
    ensures Render("%" + (if zero then "0" else "") + mods + [letter] + tail, args, k) ==
            RenderModifiers(zero, "", mods + [letter] + tail, args, k)
  {
    var flag, body := if zero then "0" else "", mods + [letter] + tail;
    var fmt := "%" + flag + mods + [letter] + tail;
    assert fmt == "%" + (flag + body);
    assert fmt[1..] == flag + body;
    assert body[0] == if mods == "" then letter else mods[0];
    assert mods != "" ==> mods[0] in mods;
    FlagIsRead(zero, body, args, k);
  }

  lemma {:induction false} ModifiersOnly(zero: bool, mods: string, more: string, args: Args, k: nat)
    requires AreModifiers(more)
    ensures RenderModifiers(zero, mods, more, args, k) == ""
    decreases |more|
  {
    if more == "" {
    } else {
      assert more[0] in more && forall c :: c in more[1..] ==> c in more;
      ModifiersOnly(zero, mods + [more[0]], more[1..], args, k);
    }
  }

  /** A directive that the format ends in, before its letter, prints nothing. */
  lemma UnfinishedPrintsNothing(zero: bool, mods: string, args: Args, k: nat)
    requires AreModifiers(mods) && (mods != "" && !zero ==> mods[0] != '0')
    ensures Render("%" + ((if zero then "0" else "") + mods), args, k) == ""
  {
    var rest := (if zero then "0" else "") + mods;
    assert ("%" + rest)[1..] == rest;
    ModifiersOnly(zero, "", mods, args, k);
    if rest == "" {
    } else if zero {
      assert rest[1..] == mods;
    } else {
      assert rest == mods && mods[0] in mods;
    }
  }

  /** A doubled percent sign prints one and takes no argument. */
  lemma PercentIsRead(tail: string, args: Args, k: nat)
    ensures Render("%%" + tail, args, k) == "%" + Render(tail, args, k)
  {
    assert ("%%" + tail)[1..] == "%" + tail && ("%" + tail)[1..] == tail;
  }

  lemma {:induction false} LiteralIsRead(lead: string, tail: string, args: Args, k: nat)
    requires '%' !in lead
    ensures Render(lead + tail, args, k) == lead + Render(tail, args, k)
    decreases |lead|
  {
    if lead == "" {
      assert lead + tail == tail;
      assert lead + Render(tail, args, k) == Render(tail, args, k);
    } else {
      assert lead[0] in lead && (lead + tail)[1..] == lead[1..] + tail;
      LiteralIsRead(lead[1..], tail, args, k);
      assert lead == [lead[0]] + lead[1..];
    }
  }

  /** Some text and a directive after it. */
  datatype Piece = Piece(lead: string, zero: bool, mods: string, letter: char)

  predicate WellWritten(p: Piece) {
    && '%' !in p.lead && p.letter in "diuoxXcs"
    && AreModifiers(p.mods)
    && (p.mods != "" && !p.zero ==> p.mods[0] != '0')
  }

  function Directive(p: Piece): string {
    "%" + (if p.zero then "0" else "") + p.mods + [p.letter]
  }

  function Format(ps: seq<Piece>): string {
    if ps == [] then "" else ps[0].lead + (Directive(ps[0]) + Format(ps[1..]))
  }

  /** The text before a directive and the field of it. */
  function Filled(p: Piece, arg: Arg): string {
    p.lead + Field(p.letter, p.zero, Width(p.mods), arg)
  }

  /** A piece with the argument that it prints. */
  datatype Use = Use(piece: Piece, arg: Arg)

  /** The arguments handed out in turn, from the `k`-th on. */
  function Dealt(ps: seq<Piece>, args: Args, k: nat): (uses: seq<Use>)
    ensures |uses| == |ps|
    decreases |ps|
  {
    if ps == [] then [] else [Use(ps[0], Slot(args, k))] + Dealt(ps[1..], args, k + 1)
  }

  /** The `j`-th directive gets the `j`-th argument. */
  lemma {:induction false} DealtInOrder(ps: seq<Piece>, args: Args, k: nat, j: nat)
    requires j < |ps|
    ensures Dealt(ps, args, k)[j] == Use(ps[j], args(k + j))
    decreases j
  {
    if j == 0 {
    } else {
      DealtInOrder(ps[1..], args, k + 1, j - 1);
    }
  }

  function Printed(uses: seq<Use>): string {
    if uses == [] then "" else Filled(uses[0].piece, uses[0].arg) + Printed(uses[1..])
  }

  lemma PieceIsRead(p: Piece, rest: string, args: Args, k: nat)
    requires WellWritten(p)
    ensures Render(p.lead + (Directive(p) + rest), args, k) == Filled(p, Slot(args, k)) + Render(rest, args, k + 1)
  {
    LiteralIsRead(p.lead, Directive(p) + rest, args, k);
    DirectiveIsRead(p.zero, p.mods, p.letter, rest, args, k);
    Assoc(p.lead, Field(p.letter, p.zero, Width(p.mods), Slot(args, k)), Render(rest, args, k + 1));
  }

  /** In a format with any number of directives each one prints the argument at its own place. */
  lemma {:induction false} FormatMeans(ps: seq<Piece>, tail: string, args: Args, k: nat)
    requires '%' !in tail && forall i :: 0 <= i < |ps| ==> WellWritten(ps[i])
    ensures Render(Format(ps) + tail, args, k) == Printed(Dealt(ps, args, k)) + tail
    decreases |ps|
  {
    if ps == [] {
      LiteralIsRead(tail, "", args, k);
      assert Format(ps) + tail == tail + "" == tail && Printed(Dealt(ps, args, k)) + tail == tail;
    } else {
      Reassociate(ps[0].lead, Directive(ps[0]), Format(ps[1..]), tail);
      PieceIsRead(ps[0], Format(ps[1..]) + tail, args, k);
      FormatMeans(ps[1..], tail, args, k + 1);
      var use, rest := Use(ps[0], Slot(args, k)), Dealt(ps[1..], args, k + 1);
      assert ([use] + rest)[1..] == rest;
      Assoc(Filled(use.piece, use.arg), Printed(rest), tail);
    }
  }

  lemma Reassociate(a: string, b: string, c: string, d: string)
    ensures (a + (b + c)) + d == a + (b + (c + d))
  {
  }

  /** Every signed 32-bit number, passed as its word, is printed by `d` and `i` as itself. */
  lemma SignedWords(x: int, letter: char, zero: bool, width: int, text: string)
    requires -0x8000_0000 <= x < 0x8000_0000 && letter in "di"
    ensures var arg := Arg(if x < 0 then x + 0x1_0000_0000 else x, text);
            ReadInteger(Field(letter, zero, width, arg), 10) == x
  {
    IntegerLetters(letter, zero, width, Arg(if x < 0 then x + 0x1_0000_0000 else x, text));
  }

  /**
    What each integer letter means: the base and the signedness in which its field reads back, for any
    width and flag, and the case of its digits.
   */
  lemma IntegerLetters(letter: char, zero: bool, width: int, arg: Arg)
    requires letter in "diuoxX"
    ensures var text := Field(letter, zero, width, arg);
            var base := if letter == 'o' then 8 else if letter in "xX" then 16 else 10;
            && ReadInteger(text, base) == (if letter in "di" && arg.word >= SIGN_BIT then arg.word - WORD else arg.word)
            && (letter != 'X' ==> forall c :: c in text ==> !('A' <= c <= 'F'))
            && (letter == 'X' ==> forall c :: c in text ==> !('a' <= c <= 'f'))
  {
    var kind := KindOf(letter);
    var x := Meaning(arg.word, kind.signed);
    IntegerReadsBack(x, zero, width, kind.base, kind.upper);
    TextCase(Abs(x), kind.base, kind.upper);
  }

  /** A character or a string is padded with spaces on the left, and never cut. */
  lemma TextLetters(letter: char, zero: bool, width: int, arg: Arg)
    requires letter in "cs"
    ensures var text, body := Field(letter, zero, width, arg),
                              if letter == 'c' then [(arg.word % 256) as char] else arg.text;
            && |text| == (if |body| < width then width else |body|)
            && text[|text| - |body|..] == body
            && forall k :: 0 <= k < |text| - |body| ==> text[k] == ' '
  {
  }
}
