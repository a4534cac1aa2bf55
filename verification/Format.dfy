/** The bounded formatter vsnprintf (common/stdio.c) against an unbounded renderer. */
module Format {
  import opened CTypes
  import opened Numbers

  const PERCENT := 37

  /** An argument as va_arg delivers it: a 32-bit pattern or a string. */
  datatype Arg = Int(value: Word) | Str(text: seq<Byte>)

  /** A stretch of output: characters, each of which may be dropped, or a number, whose digits the code insists on. */
  datatype Piece = Text(bytes: seq<Byte>) | Number(bytes: seq<Byte>)

  // ----- the renderer ------------------------------------------------------------------------------

  datatype Conversion = Plain | Char | String | Decimal | Unsigned | Hex | Literal | Ignored | Missing

  function ConversionAt(fmt: seq<Byte>): Conversion
    requires fmt != []
  {
    if fmt[0] != PERCENT then Plain
    else if |fmt| == 1 then Missing
    else match fmt[1]
      case 99 => Char
      case 115 => String
      case 100 => Decimal
      case 117 => Unsigned
      case 120 => Hex
      case 37 => Literal
      case _ => Ignored
  }

  /** Characters of the format and arguments that a conversion takes up. */
  function Width(c: Conversion): nat {
    if c.Plain? || c.Missing? then 1 else 2
  }

  function Uses(c: Conversion): nat {
    if c.Char? || c.String? || c.Decimal? || c.Unsigned? || c.Hex? then 1 else 0
  }

  predicate Accepts(c: Conversion, args: seq<Arg>) {
    Uses(c) == 1 ==> args != [] && if c.String? then args[0].Str? && IsText(args[0].text) else args[0].Int?
  }

  /** The caller passes the arguments that the format asks for. */
  predicate Matches(fmt: seq<Byte>, args: seq<Arg>) {
    fmt == [] ||
    (var c := ConversionAt(fmt);
     Accepts(c, args) && Matches(fmt[Width(c)..], args[Uses(c)..]))
  }

  function Produces(fmt: seq<Byte>, args: seq<Arg>): seq<Piece>
    requires fmt != [] && Accepts(ConversionAt(fmt), args)
  {
    match ConversionAt(fmt)
    case Plain => [Text([fmt[0]])]
    case Char => [Text([args[0].value % 256])]
    case String => [Text(args[0].text)]
    case Decimal => [Number(IntText(args[0].value, 10, true))]
    case Unsigned => [Number(IntText(args[0].value, 10, false))]
    case Hex => [Number(IntText(args[0].value, 16, false))]
    case Literal => [Text([PERCENT])]
    case Ignored => []
    case Missing => []
  }

  function Pieces(fmt: seq<Byte>, args: seq<Arg>): seq<Piece>
    requires Matches(fmt, args)
  {
    if fmt == [] then [] else
      var c := ConversionAt(fmt);
      Produces(fmt, args) + Pieces(fmt[Width(c)..], args[Uses(c)..])
  }

  function Flat(pieces: seq<Piece>): seq<Byte> {
    if pieces == [] then [] else Flat(pieces[..|pieces| - 1]) + pieces[|pieces| - 1].bytes
  }

  /** The complete output, whatever its length. */
  function Render(fmt: seq<Byte>, args: seq<Arg>): seq<Byte>
    requires Matches(fmt, args)
  {
    Flat(Pieces(fmt, args))
  }

  // ----- when the code returns ---------------------------------------------------------------------

  /** What can become of a call: it returns a count, it never leaves the digit loop, or printint_rev writes past buf. */
  datatype Outcome = Returned(count: nat) | Spins | Overruns

  /** The output up to and including every number fits. */
  ghost predicate Fits(pieces: seq<Piece>, size: nat) {
    forall k | 0 <= k < |pieces| && pieces[k].Number? :: |Flat(pieces[..k + 1])| <= size
  }

  /** Piece k is the first number that does not fit. */
  ghost predicate FirstMisfit(pieces: seq<Piece>, size: nat, k: nat) {
    k < |pieces| && pieces[k].Number? && |Flat(pieces[..k + 1])| > size && Fits(pieces[..k], size)
  }

  /** One evaluation of the body of the digit loop, while (len) putc(buf[--len]), on the room left and len: putc does
      not evaluate its argument when there is no room. */
  function DigitStep(room: nat, len: nat): (nat, nat)
    requires len > 0
  {
    if room > 0 then (room - 1, len - 1) else (room, len)
  }

  /** The value of len after n rounds. */
  function LenAfter(room: nat, len: nat, n: nat): nat
    decreases n
  {
    if n == 0 || len == 0 then len else LenAfter(DigitStep(room, len).0, DigitStep(room, len).1, n - 1)
  }

  lemma {:induction false} LenAfterIs(room: nat, len: nat, n: nat)
    ensures LenAfter(room, len, n) == len - Min(n, Min(room, len))
    decreases n
  {
    if n > 0 && len > 0 {
      LenAfterIs(DigitStep(room, len).0, DigitStep(room, len).1, n - 1);
    }
  }

  /** The digit loop ends if and only if the digits fit into the room left. */
  lemma DigitLoopEnds(room: nat, len: nat)
    ensures (exists n: nat :: LenAfter(room, len, n) == 0) <==> len <= room
  {
    LenAfterIs(room, len, len);
    forall n: nat
      ensures LenAfter(room, len, n) == len - Min(n, Min(room, len))
    {
      LenAfterIs(room, len, n);
    }
  }

  /** What %u prints, atoi reads. */
  lemma PrintThenParse(n: Word)
    ensures Matches([PERCENT, 117], [Int(n)])
    ensures Parsed(Render([PERCENT, 117], [Int(n)])) == n
  {
    var fmt, args := [PERCENT, 117], [Int(n)];
    assert fmt[2..] == [] && args[1..] == [];
    var text := IntText(n, 10, false);
    assert Pieces(fmt, args) == [Number(text)];
    FlatNext([], Number(text));
    assert [] + [Number(text)] == [Number(text)] && [] + text == text;
    UnsignedRoundTrip(n, []);
    assert text + [] == text;
  }

  // ----- what each conversion means --------------------------------------------------------------------

  /** The output of one piece. */
  lemma OnePiece(p: Piece)
    ensures Flat([p]) == p.bytes
  {
    FlatNext([], p);
    assert [] + [p] == [p] && [] + p.bytes == p.bytes;
  }

  /** A format of a single conversion, and one of a single other byte. */
  lemma OneConversion(letter: Byte, args: seq<Arg>)
    requires Accepts(ConversionAt([37, letter]), args) && |args| == Uses(ConversionAt([37, letter]))
    ensures Matches([37, letter], args)
    ensures Pieces([37, letter], args) == Produces([37, letter], args)
    ensures Whole([37, letter]) && ArgumentsOf([37, letter]) == |args|
  {
    var fmt := [37, letter];
    assert fmt[2..] == [] && args[Uses(ConversionAt(fmt))..] == [];
    hide Produces, Accepts;
    assert Pieces([], []) == [];
  }

  /** %d: a minus sign exactly in front of the upper half of the patterns, and a numeral that reads back as the
      number. */
  lemma RendersDecimal(n: Word)
    ensures Matches([37, 100], [Int(n)])
    ensures var s := Render([37, 100], [Int(n)]);
            && s != [] && (s[0] == 45 <==> n >= 0x8000_0000)
            && n == (if s[0] == 45 then Wrap(0x1_0000_0000 - Parsed(s[1..])) else Parsed(s))
            && forall i | 0 < i < |s| :: 48 <= s[i] <= 57
  {
    hide IntText, Parsed, Matches, Pieces;
    OneConversion(100, [Int(n)]);
    OnePiece(Number(IntText(n, 10, true)));
    SignedForm(n);
    SignedRoundTrip(n);
  }

  /** %u: decimal digits without a leading zero, but for 0, that read back as the number. */
  lemma RendersUnsigned(n: Word)
    ensures Matches([37, 117], [Int(n)])
    ensures var s := Render([37, 117], [Int(n)]);
            && s != [] && (s[0] == 48 <==> n == 0) && Parsed(s) == n
            && forall i | 0 <= i < |s| :: 48 <= s[i] <= 57
  {
    hide Digits, Parsed, Matches, Pieces;
    OneConversion(117, [Int(n)]);
    OnePiece(Number(IntText(n, 10, false)));
    DecimalForm(n);
    UnsignedRoundTrip(n, []);
    assert IntText(n, 10, false) + [] == IntText(n, 10, false);
  }

  /** %x: upper-case hexadecimal digits without a leading zero, but for 0, whose value is the number. */
  lemma RendersHex(n: Word)
    ensures Matches([37, 120], [Int(n)])
    ensures var s := Render([37, 120], [Int(n)]);
            && s != [] && (s[0] == 48 <==> n == 0) && Value(s, 16) == n
            && forall i | 0 <= i < |s| :: 48 <= s[i] <= 57 || 65 <= s[i] <= 70
  {
    hide Digits, Value, Matches, Pieces;
    OneConversion(120, [Int(n)]);
    OnePiece(Number(IntText(n, 16, false)));
    ValueOfDigits(n, 16);
    HexForm(n);
  }

  /** %c gives the low byte, %s the text. */
  lemma RendersCharAndString(n: Word, text: seq<Byte>)
    requires IsText(text)
    ensures Matches([37, 99], [Int(n)]) && Render([37, 99], [Int(n)]) == [n % 256]
    ensures Matches([37, 115], [Str(text)]) && Render([37, 115], [Str(text)]) == text
  {
    hide Matches, Pieces, IsText;
    OneConversion(99, [Int(n)]);
    OnePiece(Text([n % 256]));
    OneConversion(115, [Str(text)]);
    OnePiece(Text(text));
  }

  /** %% gives a percent sign, an unknown letter and a final % nothing, and any other byte itself. */
  lemma RendersOthers(c: Byte, letter: Byte)
    requires c != 37 && letter !in {99, 115, 100, 117, 120, 37}
    ensures Matches([37, 37], []) && Render([37, 37], []) == [37]
    ensures Matches([37, letter], []) && Render([37, letter], []) == []
    ensures Matches([37], []) && Render([37], []) == []
    ensures Matches([c], []) && Render([c], []) == [c]
  {
    hide Matches, Pieces;
    OneConversion(37, []);
    OnePiece(Text([37]));
    OneConversion(letter, []);
    LastByte(37);
    LastByte(c);
    OnePiece(Text([c]));
  }

  lemma LastByte(c: Byte)
    ensures Matches([c], []) && Pieces([c], []) == if c == 37 then [] else [Text([c])]
  {
    var none: seq<Arg> := [];
    assert [c][1..] == [] && none[0..] == [];
    assert Pieces([], none) == [];
  }

  /** The format does not end within a conversion. */
  predicate Whole(fmt: seq<Byte>) {
    fmt == [] || (!ConversionAt(fmt).Missing? && Whole(fmt[Width(ConversionAt(fmt))..]))
  }

  function ArgumentsOf(fmt: seq<Byte>): nat {
    if fmt == [] then 0 else Uses(ConversionAt(fmt)) + ArgumentsOf(fmt[Width(ConversionAt(fmt))..])
  }

  /** Formats put together give the outputs put together. */
  lemma RendersParts(f: seq<Byte>, a: seq<Arg>, g: seq<Byte>, b: seq<Arg>)
    requires Matches(f, a) && Whole(f) && |a| == ArgumentsOf(f) && Matches(g, b)
    ensures Matches(f + g, a + b) && Render(f + g, a + b) == Render(f, a) + Render(g, b)
  {
    PiecesParts(f, a, g, b);
    hide Matches, Pieces;
    FlatParts(Pieces(f, a), Pieces(g, b));
  }

  lemma {:induction false} PiecesParts(f: seq<Byte>, a: seq<Arg>, g: seq<Byte>, b: seq<Arg>)
    requires Matches(f, a) && Whole(f) && |a| == ArgumentsOf(f) && Matches(g, b)
    ensures Matches(f + g, a + b) && Pieces(f + g, a + b) == Pieces(f, a) + Pieces(g, b)
    decreases |f|
  {
    hide Matches, Pieces, Whole, ArgumentsOf, ConversionAt, Produces, Width, Uses, Accepts;
    if f == [] {
      NoPart(a);
      assert f + g == g && a + b == b;
      assert [] + Pieces(g, b) == Pieces(g, b);
    } else {
      var w, u := Width(ConversionAt(f)), Uses(ConversionAt(f));
      NextPart(f, a);
      FirstPart(f, a, g, b);
      PiecesParts(f[w..], a[u..], g, b);
      OnePart(f, a);
      OnePart(f + g, a + b);
      assert Produces(f, a) + (Pieces(f[w..], a[u..]) + Pieces(g, b))
             == Produces(f, a) + Pieces(f[w..], a[u..]) + Pieces(g, b);
    }
  }

  lemma NoPart(a: seq<Arg>)
    requires |a| == ArgumentsOf([])
    ensures a == [] && Matches([], a) && Pieces([], a) == []
  {
  }

  lemma NextPart(f: seq<Byte>, a: seq<Arg>)
    requires f != [] && Matches(f, a) && Whole(f) && |a| == ArgumentsOf(f)
    ensures var w, u := Width(ConversionAt(f)), Uses(ConversionAt(f));
            && !ConversionAt(f).Missing? && Accepts(ConversionAt(f), a) && 0 < w <= |f| && u <= |a|
            && Matches(f[w..], a[u..]) && Whole(f[w..]) && |a[u..]| == ArgumentsOf(f[w..])
  {
  }

  lemma OnePart(f: seq<Byte>, a: seq<Arg>)
    requires f != [] && Accepts(ConversionAt(f), a) && Width(ConversionAt(f)) <= |f| && Uses(ConversionAt(f)) <= |a|
    requires Matches(f[Width(ConversionAt(f))..], a[Uses(ConversionAt(f))..])
    ensures Matches(f, a)
    ensures Pieces(f, a) == Produces(f, a) + Pieces(f[Width(ConversionAt(f))..], a[Uses(ConversionAt(f))..])
  {
  }

  /** The first conversion of the parts put together is that of the first part. */
  lemma FirstPart(f: seq<Byte>, a: seq<Arg>, g: seq<Byte>, b: seq<Arg>)
    requires f != [] && !ConversionAt(f).Missing? && Accepts(ConversionAt(f), a)
    ensures var w, u := Width(ConversionAt(f)), Uses(ConversionAt(f));
            && ConversionAt(f + g) == ConversionAt(f) && w <= |f| && u <= |a| && Accepts(ConversionAt(f), a + b)
            && (f + g)[w..] == f[w..] + g && (a + b)[u..] == a[u..] + b
            && Produces(f + g, a + b) == Produces(f, a)
  {
    hide IntText, IsText;
    assert (f + g)[0] == f[0] && (|f| > 1 ==> (f + g)[1] == f[1]) && (a != [] ==> (a + b)[0] == a[0]);
  }

  lemma {:induction false} FlatParts(p: seq<Piece>, q: seq<Piece>)
    ensures Flat(p + q) == Flat(p) + Flat(q)
  {
    if q == [] {
      assert p + q == p;
    } else {
      var n := |q| - 1;
      assert (p + q)[..|p| + n] == p + q[..n];
      FlatParts(p, q[..n]);
    }
  }

  const TEN := [Int(10)]

  /** snprintf(dest, 1, "%u", 10): the numeral is longer than what buf is made for. */
  lemma OverrunExample()
    ensures Matches([PERCENT, 117], TEN)
    ensures var pieces := Pieces([PERCENT, 117], TEN); FirstMisfit(pieces, 1, 0) && |pieces[0].bytes| > 1
  {
    PiecesOfTen();
    MisfitFound([], Number([49, 48]), [], 1);
    assert [] + [Number([49, 48])] + [] == [Number([49, 48])];
  }

  /** snprintf(dest, 2, "a%u", 10): the numeral alone would fit, but not behind the character. */
  lemma SpinExample()
    ensures Matches([97, PERCENT, 117], TEN)
    ensures var pieces := Pieces([97, PERCENT, 117], TEN); FirstMisfit(pieces, 2, 1) && |pieces[1].bytes| <= 2
  {
    hide Pieces, Matches, Flat;
    var fmt, none := [97, PERCENT, 117], [];
    PiecesOfTen();
    LastByte(97);
    OnePlain(97);
    PiecesParts([97], none, [PERCENT, 117], TEN);
    assert [97] + [PERCENT, 117] == fmt && none + TEN == TEN;
    assert Pieces(fmt, TEN) == [Text([97])] + [Number([49, 48])] + [];
    OnePiece(Text([97]));
    FlatNext([], Text([97]));
    assert [] + [Text([97])] == [Text([97])];
    MisfitFound([Text([97])], Number([49, 48]), [], 2);
  }

  lemma OnePlain(c: Byte)
    requires c != 37
    ensures Whole([c]) && ArgumentsOf([c]) == 0
  {
    assert [c][1..] == [];
  }

  lemma PiecesOfTen()
    ensures Matches([PERCENT, 117], TEN) && Pieces([PERCENT, 117], TEN) == [Number([49, 48])]
  {
    var fmt := [PERCENT, 117];
    TwoDigits();
    assert fmt[2..] == [] && TEN[1..] == [];
    assert Pieces(fmt, TEN) == [Number(IntText(10, 10, false))];
  }

  lemma TwoDigits()
    ensures IntText(10, 10, false) == [49, 48]
  {
    assert Digits(10, 10) == Digits(1, 10) + [48];
  }

  // ----- pieces ------------------------------------------------------------------------------------

  lemma FlatNext(done: seq<Piece>, p: Piece)
    ensures Flat(done + [p]) == Flat(done) + p.bytes
  {
    assert (done + [p])[..|done|] == done;
  }

  lemma FitsNext(done: seq<Piece>, p: Piece, size: nat)
    requires Fits(done, size) && (p.Number? ==> |Flat(done)| + |p.bytes| <= size)
    ensures Fits(done + [p], size)
  {
    var all := done + [p];
    FlatNext(done, p);
    hide Flat;
    forall k | 0 <= k < |all| && all[k].Number?
      ensures |Flat(all[..k + 1])| <= size
    {
      if k < |done| {
        assert all[k] == done[k] && all[..k + 1] == done[..k + 1];
      } else {
        assert all[..k + 1] == all;
      }
    }
  }

  /** A number that does not fit after what is done is the first misfit of the whole output. */
  lemma MisfitFound(done: seq<Piece>, p: Piece, rest: seq<Piece>, size: nat)
    requires Fits(done, size) && p.Number? && |Flat(done)| + |p.bytes| > size
    ensures FirstMisfit(done + [p] + rest, size, |done|)
    ensures !Fits(done + [p] + rest, size)
  {
    var all := done + [p] + rest;
    FlatNext(done, p);
    assert all[..|done| + 1] == done + [p];
    assert all[..|done|] == done;
  }

  // ----- the destination ---------------------------------------------------------------------------

  /** The destination holds the first characters of text, at most size of them, and is as it was behind them. */
  ghost predicate Shows(now: seq<Byte>, was: seq<Byte>, text: seq<Byte>, size: nat) {
    && |now| == |was| && size < |was|
    && var count := Min(size, |text|);
       now[..count] == text[..count] && now[count..] == was[count..]
  }

  lemma ShowsNext(now: seq<Byte>, was: seq<Byte>, text: seq<Byte>, size: nat, c: Byte)
    requires Shows(now, was, text, size)
    ensures Shows(if |text| < size then now[|text| := c] else now, was, text + [c], size)
  {
    if |text| < size {
      var now' := now[|text| := c];
      assert now'[..|text| + 1] == now[..|text|] + [c];
      assert now'[|text| + 1..] == now[|text|..][1..];
      assert was[|text| + 1..] == was[|text|..][1..];
    } else {
      assert (text + [c])[..size] == text[..size];
    }
  }

  /** The putc macro. The variable size of the code is room here; size is its initial value. */
  method Putc(dest: array<Byte>, room: nat, count: nat, c: Byte, ghost was: seq<Byte>, ghost text: seq<Byte>,
              ghost size: nat)
    returns (room': nat, count': nat)
    requires Shows(dest[..], was, text, size) && count == Min(size, |text|) && room == size - count
    modifies dest
    ensures Shows(dest[..], was, text + [c], size)
    ensures count' == Min(size, |text| + 1) && room' == size - count'
  {
    ghost var now := dest[..];
    ShowsNext(now, was, text, size, c);
    hide Shows;
    room', count' := room, count;
    if room > 0 {
      dest[count] := c;
      assert dest[..] == now[|text| := c];
      room', count' := room - 1, count + 1;
    }
  }

  method PutText(dest: array<Byte>, room: nat, count: nat, s: seq<Byte>, ghost was: seq<Byte>, ghost text: seq<Byte>,
                 ghost size: nat)
    returns (room': nat, count': nat)
    requires Shows(dest[..], was, text, size) && count == Min(size, |text|) && room == size - count
    modifies dest
    ensures Shows(dest[..], was, text + s, size)
    ensures count' == Min(size, |text| + |s|) && room' == size - count'
  {
    hide Shows;
    room', count' := room, count;
    assert text + s[..0] == text;
    for i := 0 to |s|
      invariant Shows(dest[..], was, text + s[..i], size)
      invariant count' == Min(size, |text| + i) && room' == size - count'
    {
      room', count' := Putc(dest, room', count', s[i], was, text + s[..i], size);
      assert text + s[..i] + [s[i]] == text + s[..i + 1];
    }
    assert s[..|s|] == s;
  }

  /** The digit loop. It reports when a round changes nothing: then no later round does either. */
  method PutDigits(dest: array<Byte>, buf: array<Byte>, length: nat, room: nat, count: nat, ghost digits: seq<Byte>,
                   ghost was: seq<Byte>, ghost text: seq<Byte>, ghost size: nat)
    returns (room': nat, count': nat, stuck: bool)
    requires dest != buf && length < buf.Length && buf[..length] == Reversed(digits)
    requires Shows(dest[..], was, text, size) && count == Min(size, |text|) && room == size - count
    modifies dest
    ensures stuck <==> length > room
    ensures !stuck ==> Shows(dest[..], was, text + digits, size)
                       && count' == Min(size, |text| + |digits|) && room' == size - count'
    ensures |dest[..]| == |was| && dest[size + 1..] == old(dest[size + 1..])
  {
    hide Shows;
    assert |digits| == length;
    var len: nat := length;
    room', count' := room, count;
    assert text + digits[..0] == text;
    ShowsTail(dest[..], was, text, size);
    while len > 0
      invariant 0 <= len <= length && room - room' == length - len <= room
      invariant Shows(dest[..], was, text + digits[..length - len], size)
      invariant count' == Min(size, |text| + length - len) && room' == size - count'
    {
      if room' == 0 {
        ShowsTail(dest[..], was, text + digits[..length - len], size);
        return room', count', true;
      }
      len := len - 1;
      ghost var i := length - len - 1;
      assert buf[len] == buf[..length][len] == digits[i];
      room', count' := Putc(dest, room', count', buf[len], was, text + digits[..i], size);
      assert text + digits[..i] + [digits[i]] == text + digits[..i + 1];
    }
    assert digits[..length] == digits;
    ShowsTail(dest[..], was, text + digits, size);
    stuck := false;
  }

  lemma ShowsTail(now: seq<Byte>, was: seq<Byte>, text: seq<Byte>, size: nat)
    requires Shows(now, was, text, size)
    ensures |now| == |was| && size < |was| && now[size + 1..] == was[size + 1..]
  {
    var count := Min(size, |text|);
    assert now[size + 1..] == now[count..][size + 1 - count..];
    assert was[size + 1..] == was[count..][size + 1 - count..];
  }

  // ----- vsnprintf ---------------------------------------------------------------------------------

  /** Everything that the pieces done so far say about the state of the call. */
  ghost predicate Progress(now: seq<Byte>, was: seq<Byte>, done: seq<Piece>, size: nat, room: nat, count: nat) {
    Fits(done, size) && Shows(now, was, Flat(done), size) && count == Min(size, |Flat(done)|) && room == size - count
  }

  method EmitText(dest: array<Byte>, room: nat, count: nat, s: seq<Byte>, ghost was: seq<Byte>, ghost done: seq<Piece>,
                  ghost size: nat)
    returns (room': nat, count': nat)
    requires Progress(dest[..], was, done, size, room, count)
    modifies dest
    ensures Progress(dest[..], was, done + [Text(s)], size, room', count')
  {
    FitsNext(done, Text(s), size);
    FlatNext(done, Text(s));
    hide Fits, Shows, Flat;
    room', count' := PutText(dest, room, count, s, was, Flat(done), size);
  }

  /** The three numeric cases: print into buf, then copy out backwards. Without room for the numeral and its NUL in buf
      the write in printint_rev is out of bounds. */
  method EmitNumber(dest: array<Byte>, buf: array<Byte>, room: nat, count: nat, val: Word, base: nat, sign: bool,
                    ghost was: seq<Byte>, ghost done: seq<Piece>, size: nat)
    returns (room': nat, count': nat, o: Outcome)
    requires base in {10, 16} && dest != buf && buf.Length == size + 1
    requires Progress(dest[..], was, done, size, room, count)
    modifies dest, buf
    ensures var p := Number(IntText(val, base, sign));
            if o.Returned? then Progress(dest[..], was, done + [p], size, room', count')
            else |Flat(done)| + |p.bytes| > size && o == if |p.bytes| > size then Overruns else Spins
    ensures |dest[..]| == |was| && dest[size + 1..] == was[size + 1..]
  {
    ghost var p := Number(IntText(val, base, sign));
    ShowsTail(dest[..], was, Flat(done), size);
    FlatNext(done, p);
    if |Flat(done)| + |p.bytes| <= size {
      FitsNext(done, p, size);
    }
    hide Fits, Shows, Flat;
    if |IntText(val, base, sign)| > size {
      return room, count, Overruns;
    }
    var len := PrintintRev(buf, val, base, sign);
    IntTextNonempty(val, base, sign);
    var stuck;
    room', count', stuck := PutDigits(dest, buf, len, room, count, p.bytes, was, Flat(done), size);
    o := if stuck then Spins else Returned(count');
  }

  lemma IntTextNonempty(val: Word, base: nat, sign: bool)
    requires base in {10, 16}
    ensures IntText(val, base, sign) != []
  {
  }

  /** The switch: one format character or conversion. */
  method EmitOne(dest: array<Byte>, buf: array<Byte>, room: nat, count: nat, fmt: seq<Byte>, args: seq<Arg>,
                 ghost was: seq<Byte>, ghost done: seq<Piece>, size: nat)
    returns (room': nat, count': nat, o: Outcome)
    requires fmt != [] && Accepts(ConversionAt(fmt), args)
    requires dest != buf && buf.Length == size + 1
    requires Progress(dest[..], was, done, size, room, count)
    modifies dest, buf
    ensures var ps := Produces(fmt, args);
            Fits(done, size) &&
            if o.Returned? then Progress(dest[..], was, done + ps, size, room', count')
            else |ps| == 1 && ps[0].Number? && |Flat(done)| + |ps[0].bytes| > size
                 && o == if |ps[0].bytes| > size then Overruns else Spins
    ensures |dest[..]| == |was| && dest[size + 1..] == was[size + 1..]
  {
    ProgressTail(dest[..], was, done, size, room, count);
    assert done + [] == done;
    hide Progress, Flat;
    room', count', o := room, count, Returned(count);
    match ConversionAt(fmt) {
      case Plain => room', count' := EmitText(dest, room, count, [fmt[0]], was, done, size);
      case Char => room', count' := EmitText(dest, room, count, [args[0].value % 256], was, done, size);
      case String => room', count' := EmitText(dest, room, count, args[0].text, was, done, size);
      case Decimal => room', count', o := EmitNumber(dest, buf, room, count, args[0].value, 10, true, was, done, size);
      case Unsigned =>
        room', count', o := EmitNumber(dest, buf, room, count, args[0].value, 10, false, was, done, size);
      case Hex => room', count', o := EmitNumber(dest, buf, room, count, args[0].value, 16, false, was, done, size);
      case Literal => room', count' := EmitText(dest, room, count, [PERCENT], was, done, size);
      case Ignored =>
      case Missing =>
    }
    if o.Returned? {
      ProgressTail(dest[..], was, done + Produces(fmt, args), size, room', count');
    }
  }

  lemma ProgressTail(now: seq<Byte>, was: seq<Byte>, done: seq<Piece>, size: nat, room: nat, count: nat)
    requires Progress(now, was, done, size, room, count)
    ensures |now| == |was| && size < |was| && now[size + 1..] == was[size + 1..]
    ensures count == Min(size, |Flat(done)|) && Fits(done, size)
  {
    ShowsTail(now, was, Flat(done), size);
  }

  /** The destination after a call that wrote count characters of out: those, then a NUL, and no other cell changed. If
      out is not shorter than size, the NUL lies in the cell behind the first size ones. */
  ghost predicate Delivered(now: seq<Byte>, was: seq<Byte>, out: seq<Byte>, size: nat, count: nat) {
    && size < |now| == |was| && count == Min(size, |out|)
    && now[..count] == out[..count] && now[count] == 0 && now[count + 1..] == was[count + 1..]
    && if |out| < size then now[size..] == was[size..] else now[size] == 0
  }

  lemma Terminated(now: seq<Byte>, was: seq<Byte>, done: seq<Piece>, size: nat, room: nat, count: nat)
    requires Progress(now, was, done, size, room, count)
    ensures count < |now| && size < |was| && Fits(done, size)
    ensures Delivered(now[count := 0], was, Flat(done), size, count)
    ensures now[count := 0][size + 1..] == was[size + 1..]
  {
    ShowsTail(now, was, Flat(done), size);
    if count < size {
      assert now[size..] == now[count..][size - count..] && was[size..] == was[count..][size - count..];
    }
    assert now[count + 1..] == now[count..][1..] && was[count + 1..] == was[count..][1..];
  }

  /** At most size characters of the complete output and a NUL, which is one cell more than the comment in stdio.h
      allows. The call returns if and only if the output up to every number fits. Otherwise the first number that does
      not fit decides: it spins, unless the number alone is too long for buf. */
  method Vsnprintf(dest: array<Byte>, size: nat, fmt: seq<Byte>, args: seq<Arg>) returns (o: Outcome)
    requires size < dest.Length && IsText(fmt) && Matches(fmt, args)
    modifies dest
    ensures o.Returned? <==> Fits(Pieces(fmt, args), size)
    ensures o.Returned? ==> Delivered(dest[..], old(dest[..]), Render(fmt, args), size, o.count)
    ensures !o.Returned? ==> exists k: nat ::
      && FirstMisfit(Pieces(fmt, args), size, k)
      && o == if |Pieces(fmt, args)[k].bytes| > size then Overruns else Spins
    ensures dest[size + 1..] == old(dest[size + 1..])
  {
    var buf := new Byte[size + 1];
    ghost var was := dest[..];
    ghost var all, done := Pieces(fmt, args), [];
    var room: nat, count: nat := size, 0;
    var rest, left := fmt, args;
    Unstarted(was, size, all);
    hide Progress, Delivered, Flat, FirstMisfit, Fits, Matches, Pieces, Produces, ConversionAt, Accepts, IsText;
    while rest != []
      invariant Matches(rest, left) && done + Pieces(rest, left) == all
      invariant Progress(dest[..], was, done, size, room, count)
      decreases |rest|
    {
      PiecesNext(rest, left, done);
      ghost var ps := Produces(rest, left);
      var c := ConversionAt(rest);
      room, count, o := EmitOne(dest, buf, room, count, rest, left, was, done, size);
      rest, left := rest[Width(c)..], left[Uses(c)..];
      if !o.Returned? {
        Misfit(was, done, ps, Pieces(rest, left), size);
        return;
      }
      done := done + ps;
    }
    PiecesDone(rest, left, done);
    Terminated(dest[..], was, done, size, room, count);
    ghost var now := dest[..];
    dest[count] := 0;
    assert dest[..] == now[count := 0];
    o := Returned(count);
  }

  lemma Unstarted(was: seq<Byte>, size: nat, all: seq<Piece>)
    requires size < |was|
    ensures Progress(was, was, [], size, size, 0) && [] + all == all
  {
  }

  lemma PiecesNext(fmt: seq<Byte>, args: seq<Arg>, done: seq<Piece>)
    requires fmt != [] && Matches(fmt, args)
    ensures var c := ConversionAt(fmt);
            && Accepts(c, args) && Width(c) <= |fmt| && Uses(c) <= |args|
            && Matches(fmt[Width(c)..], args[Uses(c)..])
            && done + Produces(fmt, args) + Pieces(fmt[Width(c)..], args[Uses(c)..]) == done + Pieces(fmt, args)
  {
  }

  lemma PiecesDone(fmt: seq<Byte>, args: seq<Arg>, done: seq<Piece>)
    requires fmt == [] && Matches(fmt, args)
    ensures done + Pieces(fmt, args) == done
  {
  }

  lemma Misfit(was: seq<Byte>, done: seq<Piece>, ps: seq<Piece>, rest: seq<Piece>, size: nat)
    requires |ps| == 1 && ps[0].Number? && Fits(done, size) && |Flat(done)| + |ps[0].bytes| > size
    ensures FirstMisfit(done + ps + rest, size, |done|) && (done + ps + rest)[|done|] == ps[0]
    ensures !Fits(done + ps + rest, size)
  {
    assert ps == [ps[0]];
    MisfitFound(done, ps[0], rest, size);
  }

  /** A number that does not fit is not among pieces that fit. */
  lemma MisfitBehind(pieces: seq<Piece>, size: nat, j: nat, k: nat)
    requires FirstMisfit(pieces, size, j) && FirstMisfit(pieces, size, k)
    ensures j >= k
  {
    hide Flat;
    assert forall i | 0 <= i < k :: pieces[..k][i] == pieces[i] && pieces[..k][..i + 1] == pieces[..i + 1];
  }

  /** The two ways to fail, at the calls of OverrunExample and SpinExample. */
  method FailingCalls(dest: array<Byte>) returns (tooLong: Outcome, tooLate: Outcome)
    requires dest.Length >= 3
    modifies dest
    ensures tooLong == Overruns && tooLate == Spins
  {
    OverrunExample();
    SpinExample();
    hide Pieces, Matches, Render, Fits, Delivered;
    NotFitting(Pieces([PERCENT, 117], TEN), 1, 0);
    NotFitting(Pieces([97, PERCENT, 117], TEN), 2, 1);
    tooLong := Vsnprintf(dest, 1, [PERCENT, 117], TEN);
    tooLate := Vsnprintf(dest, 2, [97, PERCENT, 117], TEN);
  }

  lemma NotFitting(pieces: seq<Piece>, size: nat, k: nat)
    requires FirstMisfit(pieces, size, k)
    ensures !Fits(pieces, size) && forall j: nat :: FirstMisfit(pieces, size, j) ==> j == k
  {
    forall j: nat | FirstMisfit(pieces, size, j)
      ensures j == k
    {
      MisfitBehind(pieces, size, j, k);
      MisfitBehind(pieces, size, k, j);
    }
  }
}
