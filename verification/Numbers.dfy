/** Integers as text: what printint_rev prints and atoi reads back (common/stdio.c, common/string.c). */
module Numbers {
  import opened CTypes

  const ZERO := 48
  const MINUS := 45

  /** digits[d] of "0123456789ABCDEF". */
  function DigitChar(d: nat): Byte
    requires d < 16
  {
    if d < 10 then ZERO + d else 55 + d
  }

  function DigitValue(c: Byte): int {
    if c < 58 then c - ZERO else c - 55
  }

  predicate IsDecimal(c: Byte) {
    48 <= c <= 57
  }

  function LowDigit(x: nat, base: nat): Byte
    requires 2 <= base <= 16
  {
    DigitChar(x % base)
  }

  function HighPart(x: nat, base: nat): nat
    requires 2 <= base <= 16
  {
    x / base
  }

  /** The numeral of x, most significant digit first. */
  function Digits(x: nat, base: nat): (r: seq<Byte>)
    requires 2 <= base <= 16
    ensures r != []
  {
    if x < base then [DigitChar(x)] else Digits(HighPart(x, base), base) + [LowDigit(x, base)]
  }

  /** The value of a numeral by its positions. */
  function Value(ds: seq<Byte>, base: int): int {
    if ds == [] then 0 else Value(ds[..|ds| - 1], base) * base + DigitValue(ds[|ds| - 1])
  }

  /** The longest run of decimal digits a text starts with. */
  function LeadingDigits(s: seq<Byte>): (r: seq<Byte>)
    ensures r <= s && (forall i | 0 <= i < |r| :: IsDecimal(r[i]))
    ensures |r| < |s| ==> !IsDecimal(s[|r|])
  {
    if s != [] && IsDecimal(s[0]) then [s[0]] + LeadingDigits(s[1..]) else []
  }

  /** What printint_rev leaves, read backwards; val is the 32-bit pattern, read as two's complement if sign is set. */
  function IntText(val: Word, base: nat, sign: bool): (r: seq<Byte>)
    requires 2 <= base <= 16
  {
    if sign && val >= 0x8000_0000 then [MINUS] + Digits(WORD_SIZE - val, base) else Digits(val, base)
  }

  lemma Quotient(x: nat, base: nat)
    requires base >= 2
    ensures x == x / base * base + x % base
    ensures if x < base then x / base == 0 else 0 < x / base < x
  {
    var q := x / base;
    if x >= base {
      Product(q, base);
    }
  }

  lemma Product(q: int, base: nat)
    requires base >= 2
    ensures q >= 1 ==> q * base >= 2 * q
    ensures q <= 0 ==> q * base <= 0
  {
  }

  lemma DigitSplit(x: nat, base: nat)
    requires 2 <= base <= 16
    ensures HighPart(x, base) * base + DigitValue(LowDigit(x, base)) == x
    ensures if x < base then HighPart(x, base) == 0 && LowDigit(x, base) == DigitChar(x) else 0 < HighPart(x, base) < x
  {
    Quotient(x, base);
    CharOfDigit(x % base);
    hide DigitChar, DigitValue;
    if x < base {
      assert x == x % base;
    }
  }

  lemma CharOfDigit(d: nat)
    requires d < 16
    ensures DigitValue(DigitChar(d)) == d
  {
  }

  /** Printing and reading are inverse in every base that the digits allow. */
  lemma {:induction false} ValueOfDigits(x: nat, base: nat)
    requires 2 <= base <= 16
    ensures Value(Digits(x, base), base) == x
  {
    hide HighPart, LowDigit, DigitValue;
    DigitSplit(x, base);
    if x >= base {
      ValueOfDigits(HighPart(x, base), base);
      var ds := Digits(x, base);
      assert ds[..|ds| - 1] == Digits(HighPart(x, base), base);
    } else {
      assert DigitValue(DigitChar(x)) == x;
      assert Digits(x, base)[..0] == [];
    }
  }

  /** Decimal numerals consist of decimal digits and have no leading zero, but for 0 itself. */
  lemma {:induction false} DecimalForm(x: nat)
    ensures forall i | 0 <= i < |Digits(x, 10)| :: IsDecimal(Digits(x, 10)[i])
    ensures Digits(x, 10)[0] == ZERO <==> x == 0
  {
    if x >= 10 {
      DecimalForm(x / 10);
    }
  }

  lemma {:induction false} LeadingOfDigits(ds: seq<Byte>, rest: seq<Byte>)
    requires forall i | 0 <= i < |ds| :: IsDecimal(ds[i])
    requires rest == [] || !IsDecimal(rest[0])
    ensures LeadingDigits(ds + rest) == ds
  {
    if ds == [] {
      assert ds + rest == rest;
    } else {
      assert (ds + rest)[1..] == ds[1..] + rest;
      LeadingOfDigits(ds[1..], rest);
    }
  }

  /** The number atoi returns for a text. */
  function Parsed(s: seq<Byte>): Word {
    Wrap(Value(LeadingDigits(s), 10))
  }

  /** atoi undoes %u for every 32-bit number, whatever non-digit follows. */
  lemma UnsignedRoundTrip(n: Word, rest: seq<Byte>)
    requires rest == [] || !IsDecimal(rest[0])
    ensures Parsed(IntText(n, 10, false) + rest) == n
  {
    DecimalForm(n);
    LeadingOfDigits(Digits(n, 10), rest);
    ValueOfDigits(n, 10);
  }

  /** Leading zeros do not change what atoi reads. */
  lemma LeadingZero(s: seq<Byte>)
    ensures Parsed([48] + s) == Parsed(s)
  {
    assert ([48] + s)[1..] == s;
    assert LeadingDigits([48] + s) == [48] + LeadingDigits(s);
    ZeroInFront(LeadingDigits(s));
  }

  lemma {:induction false} ZeroInFront(ds: seq<Byte>)
    ensures Value([48] + ds, 10) == Value(ds, 10)
  {
    if ds == [] {
      assert [48] + ds == [48] && [48][..0] == [];
    } else {
      assert ([48] + ds)[..|ds|] == [48] + ds[..|ds| - 1];
      ZeroInFront(ds[..|ds| - 1]);
    }
  }

  /** Behind the sign, if there is one, %d gives decimal digits only. */
  lemma SignedForm(n: Word)
    ensures var s := IntText(n, 10, true); s != [] && forall i | 0 < i < |s| :: 48 <= s[i] <= 57
  {
    hide Digits;
    DecimalForm(n);
    DecimalForm(WORD_SIZE - n);
  }

  /** Hexadecimal numerals consist of 0 to 9 and A to F and have no leading zero, but for 0 itself. */
  lemma {:induction false} HexForm(x: nat)
    ensures forall i | 0 <= i < |Digits(x, 16)| :: 48 <= Digits(x, 16)[i] <= 57 || 65 <= Digits(x, 16)[i] <= 70
    ensures Digits(x, 16)[0] == 48 <==> x == 0
  {
    if x >= 16 {
      HexForm(x / 16);
    }
  }

  /** %d of any two's complement pattern, the minimum included: without the sign and negated modulo 2^32 if there was
      one, it reads back as the pattern. */
  lemma SignedRoundTrip(n: Word)
    ensures var s := IntText(n, 10, true);
            n == if s[0] == MINUS then Wrap(WORD_SIZE - Parsed(s[1..])) else Parsed(s)
    ensures IntText(n, 10, true)[0] == MINUS <==> n >= 0x8000_0000
  {
    var s := IntText(n, 10, true);
    if n >= 0x8000_0000 {
      UnsignedRoundTrip(WORD_SIZE - n, []);
      assert s[1..] == Digits(WORD_SIZE - n, 10) + [];
    } else {
      UnsignedRoundTrip(n, []);
      DecimalForm(n);
      assert s == s + [];
    }
  }

  /** One step of atoi under 32-bit wrap-around. */
  lemma WrapStep(v: int, d: int)
    ensures Wrap(Wrap(v) * 10 + d) == Wrap(v * 10 + d)
  {
    var q := v / WORD_SIZE;
    assert v * 10 + d == Wrap(v) * 10 + d + q * 10 * WORD_SIZE;
    AddMultiple(Wrap(v) * 10 + d, q * 10);
  }

  lemma AddMultiple(x: int, k: int)
    ensures Wrap(x + k * WORD_SIZE) == Wrap(x)
  {
  }

  // ----- printint_rev ------------------------------------------------------------------------------

  /** The digit loop of printint_rev: least significant digit first. */
  method PrintDigits(buf: array<Byte>, val: nat, base: nat) returns (count: nat)
    requires 2 <= base <= 16 && |Digits(val, base)| <= buf.Length
    modifies buf
    ensures count == |Digits(val, base)|
    ensures forall i | 0 <= i < count :: buf[i] == Digits(val, base)[count - 1 - i]
    ensures forall i | count <= i < buf.Length :: buf[i] == old(buf[i])
  {
    hide Digits, LowDigit, HighPart;
    ghost var all := Digits(val, base);
    var x := val;
    count := 0;
    while true
      invariant count + |Digits(x, base)| == |all| && Digits(x, base) <= all
      invariant forall i | 0 <= i < count :: buf[i] == all[|all| - 1 - i]
      invariant forall i | count <= i < buf.Length :: buf[i] == old(buf[i])
      decreases x
    {
      LastDigit(x, base);
      buf[count] := LowDigit(x, base);
      count := count + 1;
      x := HighPart(x, base);
      if x == 0 {
        break;
      }
    }
  }

  /** Writes the digits least significant first, then the sign, then a NUL. */
  method PrintintRev(buf: array<Byte>, val: Word, base: nat, sign: bool) returns (length: nat)
    requires 2 <= base <= 16
    requires |IntText(val, base, sign)| < buf.Length
    modifies buf
    ensures length == |IntText(val, base, sign)|
    ensures buf[..length] == Reversed(IntText(val, base, sign)) && buf[length] == 0
    ensures forall i | length < i < buf.Length :: buf[i] == old(buf[i])
  {
    hide Digits, Reversed;
    var negative := sign && val >= 0x8000_0000;
    length := PrintDigits(buf, if negative then WORD_SIZE - val else val, base);
    if negative {
      buf[length] := MINUS;
      length := length + 1;
    }
    buf[length] := 0;
  }

  lemma LastDigit(x: nat, base: nat)
    requires 2 <= base <= 16
    ensures var ds := Digits(x, base);
            && ds[|ds| - 1] == LowDigit(x, base)
            && if HighPart(x, base) == 0 then |ds| == 1
               else ds[..|ds| - 1] == Digits(HighPart(x, base), base) && HighPart(x, base) < x
  {
    hide HighPart, LowDigit;
    DigitSplit(x, base);
  }
}
