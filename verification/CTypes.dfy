/** Machine integers, zero-filled blocks and facts about sequences that every part of the model shares. */
module CTypes {
  const WORD_SIZE := 0x1_0000_0000

  type Byte = x: int | 0 <= x < 256
  type Word = x: int | 0 <= x < 0x1_0000_0000

  /** Unsigned 32-bit wrap-around. */
  function Wrap(x: int): Word {
    x % WORD_SIZE
  }

  function Zeros(n: nat): (r: seq<Byte>)
    ensures |r| == n && forall i | 0 <= i < n :: r[i] == 0
  {
    seq(n, _ => 0)
  }

  /** A 32-bit integer in memory order. */
  function WordBytes(n: Word): (r: seq<Byte>)
    ensures |r| == 4
  {
    [n % 256, n / 256 % 256, n / 0x1_0000 % 256, n / 0x100_0000]
  }

  function WordOf(b: seq<Byte>): Word
    requires |b| == 4
  {
    var b0: int, b1: int, b2: int, b3: int := b[0], b[1], b[2], b[3];
    b0 + b1 * 256 + b2 * 0x1_0000 + b3 * 0x100_0000
  }

  /** The low byte comes first. */
  lemma LittleEndian(b0: Byte, b1: Byte, b2: Byte, b3: Byte)
    ensures WordBytes(b0 + 256 * b1 + 0x1_0000 * b2 + 0x100_0000 * b3) == [b0, b1, b2, b3]
    ensures WordOf([b0, b1, b2, b3]) == b0 + 256 * b1 + 0x1_0000 * b2 + 0x100_0000 * b3
  {
    var n := b0 + 256 * (b1 + 256 * (b2 + 256 * b3));
    assert n / 256 == b1 + 256 * (b2 + 256 * b3);
    assert n / 256 / 256 == b2 + 256 * b3 && n / 0x1_0000 == n / 256 / 256 && n / 0x100_0000 == n / 0x1_0000 / 256;
  }

  lemma WordRoundTrip(n: Word)
    ensures WordOf(WordBytes(n)) == n
  {
    var h := n / 256;
    assert h / 256 == n / 0x1_0000 && h / 0x1_0000 == n / 0x100_0000;
  }

  function Reversed<T>(s: seq<T>): (r: seq<T>)
    ensures |r| == |s| && forall i | 0 <= i < |s| :: r[i] == s[|s| - 1 - i]
  {
    seq(|s|, i requires 0 <= i < |s| => s[|s| - 1 - i])
  }

  /** A C string is a byte sequence without an embedded NUL. */
  predicate IsText(s: seq<Byte>) {
    forall i | 0 <= i < |s| :: s[i] != 0
  }

  /** The C string that starts at index at: everything up to the next NUL. */
  function TextAt(mem: seq<Byte>, at: nat): (r: seq<Byte>)
    ensures IsText(r)
    decreases |mem| - at
  {
    if at < |mem| && mem[at] != 0 then [mem[at]] + TextAt(mem, at + 1) else []
  }

  /** A NUL-terminated string lies at index at. */
  predicate HoldsText(mem: seq<Byte>, at: nat) {
    at + |TextAt(mem, at)| < |mem|
  }

  /** The text at an index is known from its characters and its terminator. */
  lemma {:induction false} TextIs(mem: seq<Byte>, at: nat, s: seq<Byte>)
    requires IsText(s) && at + |s| < |mem|
    requires mem[at..at + |s|] == s && mem[at + |s|] == 0
    ensures TextAt(mem, at) == s && HoldsText(mem, at)
    decreases |s|
  {
    if s != [] {
      assert mem[at] == mem[at..at + |s|][0] == s[0];
      assert mem[at + 1..at + 1 + |s[1..]|] == s[1..];
      TextIs(mem, at + 1, s[1..]);
    }
  }

  /** A text whose first n characters are known goes on with the text behind them. */
  lemma {:induction false} TextSplit(mem: seq<Byte>, at: nat, n: nat)
    requires at + n <= |mem| && IsText(mem[at..at + n])
    ensures TextAt(mem, at) == mem[at..at + n] + TextAt(mem, at + n)
    decreases n
  {
    if n == 0 {
      assert mem[at..at] == [];
    } else {
      assert mem[at] == mem[at..at + n][0] && mem[at + 1..at + n] == mem[at..at + n][1..];
      TextSplit(mem, at + 1, n - 1);
      assert mem[at..at + n] == [mem[at]] + mem[at + 1..at + n];
    }
  }

  /** What strncpy leaves at a destination apart from its source: at most count characters, then a NUL. */
  function CopiedText(src: seq<Byte>, count: nat): seq<Byte> {
    src[..Min(count, |src|)] + [0]
  }

  /** Offset k taken back by the period d until it is below d. */
  function Origin(k: nat, d: nat): (r: nat)
    requires d > 0
    ensures r <= k && r < d
  {
    if k < d then k else Origin(k - d, d)
  }

  /** A sequence with the first n elements of part written over it from index at on. */
  function Spliced(s: seq<Byte>, at: nat, part: seq<Byte>, n: nat): (r: seq<Byte>)
    requires n <= |part| && at + n <= |s|
    ensures |r| == |s|
  {
    seq(|s|, i requires 0 <= i < |s| => if at <= i < at + n then part[i - at] else s[i])
  }

  lemma SpliceNext(s: seq<Byte>, at: nat, part: seq<Byte>, n: nat)
    requires n < |part| && at + n < |s|
    ensures Spliced(s, at, part, n)[at + n := part[n]] == Spliced(s, at, part, n + 1)
  {
  }

  lemma SpliceAt(s: seq<Byte>, at: nat, part: seq<Byte>, n: nat, i: nat)
    requires n <= |part| && at + n <= |s| && i < |s|
    ensures Spliced(s, at, part, n)[i] == if at <= i < at + n then part[i - at] else s[i]
  {
  }

  lemma SpliceWhole(s: seq<Byte>, at: nat, part: seq<Byte>)
    requires at + |part| <= |s|
    ensures Spliced(s, at, part, 0) == s
    ensures Spliced(s, at, part, |part|) == s[..at] + part + s[at + |part|..]
    ensures Spliced(s, at, part, |part|)[at..at + |part|] == part
  {
  }

  function Min(a: int, b: int): int {
    if a <= b then a else b
  }

  ghost predicate Distinct<T>(s: seq<T>) {
    forall i, j | 0 <= i < j < |s| :: s[i] != s[j]
  }

  ghost function Elems<T>(s: seq<T>): set<T> {
    set x | x in s
  }

  lemma {:induction false} DistinctCount<T>(s: seq<T>)
    requires Distinct(s)
    ensures |Elems(s)| == |s|
  {
    if s == [] {
      assert Elems(s) == {};
    } else {
      var n := |s| - 1;
      DistinctCount(s[..n]);
      assert s == s[..n] + [s[n]];
      assert Elems(s) == Elems(s[..n]) + {s[n]};
      assert s[n] !in s[..n];
    }
  }
}
