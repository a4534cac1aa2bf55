/** The string functions of common/string.c and user/ulibc.c on byte arrays; a pointer is an array and an index. */
module Strings {
  import opened CTypes
  import opened StringOrder
  import opened Numbers

  const SPACE := 32

  /** What a pointer into a string points to: a character, or the NUL behind the last one. */
  lemma {:induction false} CharAt(mem: seq<Byte>, s: nat, i: nat)
    requires HoldsText(mem, s) && i <= |TextAt(mem, s)|
    ensures s + i < |mem|
    ensures mem[s + i] == if i < |TextAt(mem, s)| then TextAt(mem, s)[i] else 0
    ensures mem[s + i] == 0 <==> i == |TextAt(mem, s)|
    decreases i
  {
    if i > 0 {
      CharAt(mem, s + 1, i - 1);
    }
  }

  /** The bytes of a string in memory, its NUL included. */
  lemma TextBytes(mem: seq<Byte>, s: nat)
    requires HoldsText(mem, s)
    ensures s + |TextAt(mem, s)| < |mem| && mem[s..s + |TextAt(mem, s)| + 1] == TextAt(mem, s) + [0]
  {
    var t := TextAt(mem, s);
    var bytes := mem[s..s + |t| + 1];
    forall i | 0 <= i <= |t|
      ensures bytes[i] == (t + [0])[i]
    {
      CharAt(mem, s, i);
    }
  }

  method Strlen(mem: array<Byte>, s: nat) returns (n: nat)
    requires HoldsText(mem[..], s)
    ensures n == |TextAt(mem[..], s)|
  {
    ghost var t := TextAt(mem[..], s);
    n := 0;
    CharAt(mem[..], s, 0);
    while mem[s + n] != 0
      invariant n <= |t| && (mem[s + n] == 0 <==> n == |t|)
      decreases |t| - n
    {
      n := n + 1;
      CharAt(mem[..], s, n);
    }
  }

  /** Where the destination is not in the text, strncpy delivers the whole text or, if the count is smaller, its first
      count characters, with a NUL behind them in any case. */
  lemma CopiedPlainly(t: seq<Byte>, dest: nat, src: nat, count: nat)
    requires !(src < dest <= src + |t|)
    ensures Copied(t, dest, src, count) == (if |t| <= count then t else t[..count]) + [0]
  {
    assert t[..|t|] == t;
  }

  /** What strncpy writes for the text t at src: if the destination lies in that text or on its NUL, the terminator is
      overwritten before it is reached, and the characters in front of the destination repeat up to the count. */
  function Copied(t: seq<Byte>, dest: nat, src: nat, count: nat): (r: seq<Byte>)
    ensures r != []
  {
    if src < dest <= src + |t| then seq(count, k requires 0 <= k < count => t[Origin(k, dest - src)]) + [0]
    else CopiedText(t, count)
  }

  method Strncpy(mem: array<Byte>, dest: nat, src: nat, count: nat)
    requires HoldsText(mem[..], src)
    requires dest + |Copied(TextAt(mem[..], src), dest, src, count)| <= mem.Length
    modifies mem
    ensures var copy := Copied(old(TextAt(mem[..], src)), dest, src, count);
            mem[..] == old(mem[..dest]) + copy + old(mem[dest + |copy|..])
  {
    ghost var was := mem[..];
    ghost var copy := Copied(TextAt(was, src), dest, src, count);
    CharCopied(was, dest, src, count, 0);
    SpliceWhole(was, dest, copy);
    hide Spliced, TextAt, HoldsText, Copied;
    var i: nat, left: nat := 0, count;
    while left != 0 && mem[src + i] != 0
      invariant i + left == count && i < |copy|
      invariant left != 0 ==> src + i < |was| && (mem[src + i] == 0 <==> i + 1 == |copy|)
      invariant if i + 1 == |copy| then copy[i] == 0 else left != 0 && mem[src + i] == copy[i]
      invariant mem[..] == Spliced(was, dest, copy, i)
      decreases left
    {
      ghost var now := mem[..];
      mem[dest + i] := mem[src + i];
      assert mem[..] == now[dest + i := copy[i]];
      SpliceNext(was, dest, copy, i);
      i, left := i + 1, left - 1;
      CharCopied(was, dest, src, count, i);
    }
    ghost var now := mem[..];
    mem[dest + i] := 0;
    assert mem[..] == now[dest + i := copy[i]];
    SpliceNext(was, dest, copy, i);
  }

  /** What the loop finds at the source after i characters. */
  lemma CharCopied(mem: seq<Byte>, dest: nat, src: nat, count: nat, i: nat)
    requires HoldsText(mem, src)
    requires dest + |Copied(TextAt(mem, src), dest, src, count)| <= |mem|
    requires i < |Copied(TextAt(mem, src), dest, src, count)|
    ensures var copy := Copied(TextAt(mem, src), dest, src, count);
            var now := Spliced(mem, dest, copy, i);
            && i <= count
            && (i < count ==> src + i < |mem| && (now[src + i] == 0 <==> i + 1 == |copy|))
            && if i + 1 == |copy| then copy[i] == 0 else i < count && now[src + i] == copy[i]
  {
    var t := TextAt(mem, src);
    var copy := Copied(t, dest, src, count);
    if src < dest <= src + |t| {
      var d := dest - src;
      if i < count {
        SpliceAt(mem, dest, copy, i, src + i);
        CharAt(mem, src, Origin(i, d));
        if i >= d {
          assert copy[i - d] == copy[i];
        }
      }
    } else {
      CopyAt(t, count, i);
      CharAt(mem, src, i);
      SpliceAt(mem, dest, copy, i, src + i);
    }
  }

  lemma CopyAt(t: seq<Byte>, count: nat, i: nat)
    requires IsText(t) && i <= |t| && i <= count
    ensures |CopiedText(t, count)| == Min(count, |t|) + 1
    ensures CopiedText(t, count)[i] == if i < count && i < |t| then t[i] else 0
  {
  }

  method Strcmp(m1: array<Byte>, s1: nat, m2: array<Byte>, s2: nat) returns (r: int)
    requires HoldsText(m1[..], s1) && HoldsText(m2[..], s2)
    ensures r == Compare(TextAt(m1[..], s1), TextAt(m2[..], s2))
  {
    ghost var a, b := TextAt(m1[..], s1), TextAt(m2[..], s2);
    assert a[0..] == a && b[0..] == b;
    hide Compare, TextAt, HoldsText;
    var i := 0;
    CharAt(m1[..], s1, 0);
    CharAt(m2[..], s2, 0);
    while m1[s1 + i] == m2[s2 + i]
      invariant i <= |a| && i <= |b|
      invariant m1[s1 + i] == (if i < |a| then a[i] else 0) && m2[s2 + i] == (if i < |b| then b[i] else 0)
      invariant Compare(a, b) == Compare(a[i..], b[i..])
      decreases |a| - i
    {
      CharAt(m1[..], s1, i);
      CharAt(m2[..], s2, i);
      CompareFrom(a, b, i);
      if m1[s1 + i] == 0 {
        return 0;
      }
      i := i + 1;
      CharAt(m1[..], s1, i);
      CharAt(m2[..], s2, i);
    }
    CompareFrom(a, b, i);
    return m1[s1 + i] as int - m2[s2 + i] as int;
  }

  lemma {:induction false} CharIn(mem: seq<Byte>, s: nat, i: nat)
    requires i <= |TextAt(mem, s)| && s + i < |mem|
    ensures mem[s + i] == if i < |TextAt(mem, s)| then TextAt(mem, s)[i] else 0
    decreases i
  {
    if i > 0 {
      CharIn(mem, s + 1, i - 1);
    }
  }

  /** strcmp of the first n characters, of areas that hold a string or n bytes. */
  method Strncmp(m1: array<Byte>, s1: nat, m2: array<Byte>, s2: nat, n: nat) returns (r: int)
    requires (HoldsText(m1[..], s1) || s1 + n <= m1.Length) && (HoldsText(m2[..], s2) || s2 + n <= m2.Length)
    ensures var a, b := TextAt(m1[..], s1), TextAt(m2[..], s2);
            r == Compare(a[..Min(n, |a|)], b[..Min(n, |b|)])
  {
    if n == 0 {
      return 0;
    }
    ghost var a, b := TextAt(m1[..], s1), TextAt(m2[..], s2);
    ghost var an, bn := a[..Min(n, |a|)], b[..Min(n, |b|)];
    assert an[0..] == an && bn[0..] == bn;
    hide Compare, TextAt;
    var i, left := 0, n;
    while true
      invariant i <= |an| && i <= |bn| && left == n - i > 0
      invariant Compare(an, bn) == Compare(an[i..], bn[i..])
      decreases left
    {
      CharIn(m1[..], s1, i);
      CharIn(m2[..], s2, i);
      CompareFrom(an, bn, i);
      if m1[s1 + i] != m2[s2 + i] {
        return m1[s1 + i] as int - m2[s2 + i] as int;
      }
      if m1[s1 + i] == 0 {
        break;
      }
      i := i + 1;
      left := left - 1;
      if left == 0 {
        CutsEnd(an, bn, n);
        break;
      }
    }
    return 0;
  }

  lemma CutsEnd(a: seq<Byte>, b: seq<Byte>, n: nat)
    requires |a| == n && |b| == n
    ensures Compare(a[n..], b[n..]) == 0
  {
  }

  method StartsWith(m1: array<Byte>, prefix: nat, m2: array<Byte>, str: nat) returns (r: bool)
    requires HoldsText(m1[..], prefix) && HoldsText(m2[..], str)
    ensures r <==> TextAt(m1[..], prefix) <= TextAt(m2[..], str)
  {
    ghost var p, s := TextAt(m1[..], prefix), TextAt(m2[..], str);
    var i := 0;
    CharAt(m1[..], prefix, 0);
    while m1[prefix + i] != 0
      invariant i <= |p| && i <= |s| && p[..i] == s[..i] && (m1[prefix + i] == 0 <==> i == |p|)
      decreases |p| - i
    {
      CharAt(m1[..], prefix, i);
      CharAt(m2[..], str, i);
      if m2[str + i] != m1[prefix + i] {
        return false;
      }
      i := i + 1;
      CharAt(m1[..], prefix, i);
    }
    return true;
  }

  method Atoi(mem: array<Byte>, s: nat) returns (n: Word)
    requires HoldsText(mem[..], s)
    ensures n == Parsed(TextAt(mem[..], s))
  {
    ghost var ds := LeadingDigits(TextAt(mem[..], s));
    var i := 0;
    n := 0;
    DigitAt(mem[..], s, 0);
    while IsDecimal(mem[s + i])
      invariant i <= |ds| && n == Wrap(Value(ds[..i], 10))
      invariant IsDecimal(mem[s + i]) <==> i < |ds|
      decreases |ds| - i
    {
      DigitAt(mem[..], s, i);
      DigitAt(mem[..], s, i + 1);
      assert ds[..i + 1][..i] == ds[..i];
      WrapStep(Value(ds[..i], 10), mem[s + i] - ZERO);
      n := Wrap(n * 10 + mem[s + i] - ZERO);
      i := i + 1;
    }
    assert ds[..i] == ds;
  }

  lemma DigitAt(mem: seq<Byte>, s: nat, i: nat)
    requires HoldsText(mem, s) && i <= |LeadingDigits(TextAt(mem, s))|
    ensures s + i < |mem|
    ensures IsDecimal(mem[s + i]) <==> i < |LeadingDigits(TextAt(mem, s))|
    ensures i < |LeadingDigits(TextAt(mem, s))| ==> mem[s + i] == LeadingDigits(TextAt(mem, s))[i]
  {
    CharAt(mem, s, i);
  }

  function LowerChar(c: Byte): Byte {
    if 65 <= c <= 90 then c + 32 else c
  }

  function Lower(s: seq<Byte>): (r: seq<Byte>)
    ensures |r| == |s|
  {
    seq(|s|, i requires 0 <= i < |s| => LowerChar(s[i]))
  }

  /** The 26 upper-case letters become the lower-case ones, all other bytes stay; once is enough. */
  lemma LowerLetters(k: nat, c: Byte, s: seq<Byte>)
    requires k < 26 && !(65 <= c <= 90)
    ensures LowerChar(65 + k) == 97 + k && LowerChar(c) == c
    ensures Lower(Lower(s)) == Lower(s)
  {
  }

  lemma LowerAt(s: seq<Byte>, i: nat)
    requires i < |s|
    ensures Lower(s)[i] == LowerChar(s[i])
  {
  }

  method ToLower(mem: array<Byte>, s: nat)
    requires HoldsText(mem[..], s)
    modifies mem
    ensures var lower := Lower(old(TextAt(mem[..], s)));
            && mem[..] == old(mem[..s]) + lower + old(mem[s + |lower|..])
            && TextAt(mem[..], s) == lower && HoldsText(mem[..], s)
  {
    hide TextAt, HoldsText, Lower, LowerChar, Spliced;
    ghost var was := mem[..];
    ghost var t := TextAt(was, s);
    ghost var lower := Lower(t);
    var n := 0;
    LoweredText(was, s);
    SpliceWhole(was, s, lower);
    while mem[s + n] != 0
      invariant n <= |t| && s + |t| < |was|
      invariant mem[..] == Spliced(was, s, lower, n)
      invariant mem[s + n] == was[s + n] && (was[s + n] == 0 <==> n == |t|)
      decreases |t| - n
    {
      LowerNext(was, s, n);
      ghost var now := mem[..];
      if 65 <= mem[s + n] <= 90 {
        mem[s + n] := mem[s + n] + 32;
      }
      assert mem[..] == now[s + n := lower[n]];
      SpliceNext(was, s, lower, n);
      SpliceAt(was, s, lower, n + 1, s + n + 1);
      n := n + 1;
    }
  }

  /** Character n of the text, its lower-case form and the byte behind it. */
  lemma LowerNext(mem: seq<Byte>, s: nat, n: nat)
    requires HoldsText(mem, s) && n < |TextAt(mem, s)|
    ensures s + n + 1 < |mem|
    ensures Lower(TextAt(mem, s))[n] == if 65 <= mem[s + n] <= 90 then mem[s + n] + 32 else mem[s + n]
    ensures mem[s + n + 1] == 0 <==> n + 1 == |TextAt(mem, s)|
  {
    CharAt(mem, s, n);
    CharAt(mem, s, n + 1);
    LowerAt(TextAt(mem, s), n);
    hide TextAt, HoldsText;
  }

  lemma LoweredText(mem: seq<Byte>, s: nat)
    requires HoldsText(mem, s)
    ensures var lower := Lower(TextAt(mem, s));
            var mem' := Spliced(mem, s, lower, |lower|);
            TextAt(mem', s) == lower && HoldsText(mem', s)
    ensures mem[s] == 0 <==> TextAt(mem, s) == []
  {
    var lower := Lower(TextAt(mem, s));
    CharAt(mem, s, 0);
    CharAt(mem, s, |lower|);
    SpliceWhole(mem, s, lower);
    TextIs(Spliced(mem, s, lower, |lower|), s, lower);
  }

  // ----- trim --------------------------------------------------------------------------------------

  function Spaces(n: nat): (r: seq<Byte>)
    ensures |r| == n && forall i | 0 <= i < n :: r[i] == SPACE
  {
    seq(n, _ => SPACE)
  }

  function TrimLeft(s: seq<Byte>): (r: seq<Byte>)
    ensures |r| <= |s|
    ensures r != [] ==> r[0] != SPACE
  {
    if s != [] && s[0] == SPACE then TrimLeft(s[1..]) else s
  }

  function TrimRight(s: seq<Byte>): (r: seq<Byte>)
    ensures r <= s
    ensures r != [] ==> r[|r| - 1] != SPACE
  {
    if s != [] && s[|s| - 1] == SPACE then TrimRight(s[..|s| - 1]) else s
  }

  function Trimmed(s: seq<Byte>): seq<Byte> {
    TrimRight(TrimLeft(s))
  }

  /** No space at either end. */
  predicate IsTrim(s: seq<Byte>) {
    s != [] ==> s[0] != SPACE && s[|s| - 1] != SPACE
  }

  /** Cuts the line in place behind its last non-space and returns where the first one is; no other byte changes. */
  method Trim(mem: array<Byte>, line: nat) returns (start: nat)
    requires HoldsText(mem[..], line)
    modifies mem
    ensures var t := old(TextAt(mem[..], line));
            && start == line + |t| - |TrimLeft(t)|
            && TextAt(mem[..], start) == Trimmed(t) && HoldsText(mem[..], start)
            && mem[..] == old(mem[..])[start + |Trimmed(t)| := 0]
  {
    hide *;
    ghost var was := mem[..];
    start := SkipSpaces(mem, line);
    CutLine(was, line, start);
    CutTail(mem, start);
  }

  /** The second half of trim, from strlen on. */
  method CutTail(mem: array<Byte>, start: nat)
    requires HoldsText(mem[..], start) && (TextAt(mem[..], start) != [] ==> mem[start] != SPACE)
    requires start + |TextAt(mem[..], start)| < mem.Length
    requires var body := TextAt(mem[..], start);
             var keep := |TrimRight(body)|;
             keep <= |body| && (keep == |body| ==> mem[..][start + keep := 0] == mem[..])
    modifies mem
    ensures mem[..] == old(mem[..])[start + |TrimRight(old(TextAt(mem[..], start)))| := 0]
  {
    hide *;
    ghost var was := mem[..];
    ghost var keep := |TrimRight(TextAt(was, start))|;
    var len := Strlen(mem, start);
    if len > 0 {
      var s, cut := SkipBack(mem, start, len);
      if cut {
        mem[s + 1] := 0;
        assert mem[..] == was[start + keep := 0];
      }
    }
  }

  /** The text that remains if the kept part of the line is cut off by a NUL. */
  lemma CutLine(mem: seq<Byte>, line: nat, start: nat)
    requires HoldsText(mem, line) && HoldsText(mem, start) && TextAt(mem, start) == TrimLeft(TextAt(mem, line))
    ensures var body := TextAt(mem, start);
            var keep := |TrimRight(body)|;
            && keep == |Trimmed(TextAt(mem, line))| <= |body| && start + |body| < |mem|
            && TextAt(mem[start + keep := 0], start) == Trimmed(TextAt(mem, line))
            && HoldsText(mem[start + keep := 0], start)
            && (body != [] ==> mem[start] != SPACE)
            && (keep == |body| ==> mem[start + keep := 0] == mem)
  {
    var body := TextAt(mem, start);
    CutText(mem, start, |TrimRight(body)|);
    CharAt(mem, start, 0);
    CharAt(mem, start, |body|);
    if |TrimRight(body)| == |body| {
      SameUpdate(mem, start + |body|);
    }
  }

  lemma SameUpdate(s: seq<Byte>, i: nat)
    requires i < |s| && s[i] == 0
    ensures s[i := 0] == s
  {
  }

  /** The second loop of trim: s ends up at the last character that is kept. */
  method SkipBack(mem: array<Byte>, start: nat, len: nat) returns (s: nat, cut: bool)
    requires HoldsText(mem[..], start) && len == |TextAt(mem[..], start)| > 0 && mem[start] != SPACE
    ensures start <= s < start + len && s + 1 == start + |TrimRight(TextAt(mem[..], start))|
    ensures cut <==> s + 1 < start + len
  {
    ghost var was := mem[..];
    ghost var body := TextAt(was, start);
    ghost var keep := |TrimRight(body)|;
    s, cut := start + len - 1, false;
    CharAt(was, start, 0);
    CharAt(was, start, len - 1);
    TrimmedAt(body, len - 1);
    while mem[s] == SPACE
      invariant start <= s < start + len && keep <= s + 1 - start
      invariant mem[s] == SPACE <==> keep <= s - start
      invariant mem[s] == SPACE ==> s > start
      invariant cut <==> s < start + len - 1
      decreases s
    {
      s := s - 1;
      cut := true;
      CharAt(was, start, s - start);
      TrimmedAt(body, s - start);
    }
  }

  /** A NUL behind its first n characters cuts a string to them. */
  lemma {:induction false} CutText(mem: seq<Byte>, at: nat, n: nat)
    requires HoldsText(mem, at) && n <= |TextAt(mem, at)|
    ensures TextAt(mem[at + n := 0], at) == TextAt(mem, at)[..n] && HoldsText(mem[at + n := 0], at)
    decreases n
  {
    if n > 0 {
      CutText(mem, at + 1, n - 1);
    }
  }

  /** The first loop of trim. */
  method SkipSpaces(mem: array<Byte>, line: nat) returns (start: nat)
    requires HoldsText(mem[..], line)
    ensures var t := TextAt(mem[..], line);
            start == line + |t| - |TrimLeft(t)| && HoldsText(mem[..], start) && TextAt(mem[..], start) == TrimLeft(t)
  {
    ghost var was := mem[..];
    ghost var t := TextAt(was, line);
    ghost var lead := |t| - |TrimLeft(t)|;
    SkippedText(was, line);
    hide *;
    start := line;
    SpaceAt(was, line, 0);
    while mem[start] == SPACE
      invariant line <= start <= line + lead && start < mem.Length
      invariant mem[start] == SPACE <==> start < line + lead
      decreases line + lead - start
    {
      start := start + 1;
      SpaceAt(was, line, start - line);
    }
  }

  lemma {:induction false} SkippedText(mem: seq<Byte>, line: nat)
    requires HoldsText(mem, line)
    ensures var t := TextAt(mem, line);
            var start := line + |t| - |TrimLeft(t)|;
            HoldsText(mem, start) && TextAt(mem, start) == TrimLeft(t)
    decreases |mem| - line
  {
    var t := TextAt(mem, line);
    if t != [] && t[0] == SPACE {
      assert t[1..] == TextAt(mem, line + 1);
      SkippedText(mem, line + 1);
    }
  }

  lemma SpaceAt(mem: seq<Byte>, line: nat, i: nat)
    requires HoldsText(mem, line) && i <= |TextAt(mem, line)| - |TrimLeft(TextAt(mem, line))|
    ensures line + i < |mem|
    ensures mem[line + i] == SPACE <==> i < |TextAt(mem, line)| - |TrimLeft(TextAt(mem, line))|
  {
    CharAt(mem, line, i);
    if i < |TextAt(mem, line)| {
      LeadingSpaces(TextAt(mem, line), i);
    }
  }

  /** Seen from the left, a text is spaces up to the first character that trim keeps. */
  lemma {:induction false} LeadingSpaces(t: seq<Byte>, i: nat)
    requires i <= |t| - |TrimLeft(t)| && i < |t|
    ensures t[i] == SPACE <==> i < |t| - |TrimLeft(t)|
    decreases i
  {
    if i > 0 {
      LeadingSpaces(t[1..], i - 1);
    }
  }

  /** Seen from the right, a text is spaces down to the last character that trim keeps. */
  lemma {:induction false} TrimmedAt(body: seq<Byte>, i: nat)
    requires body != [] && body[0] != SPACE && |TrimRight(body)| <= i + 1 <= |body|
    ensures body[i] == SPACE <==> |TrimRight(body)| <= i
    ensures body[i] == SPACE ==> i > 0
    decreases |body|
  {
    if i + 1 < |body| {
      TrimmedAt(body[..|body| - 1], i);
    }
  }

  lemma {:induction false} TrimLeftSpaces(n: nat, s: seq<Byte>)
    requires s != [] ==> s[0] != SPACE
    ensures TrimLeft(Spaces(n) + s) == s
  {
    if n == 0 {
      assert Spaces(0) + s == s;
    } else {
      var whole := Spaces(n) + s;
      assert whole[0] == SPACE && whole[1..] == Spaces(n - 1) + s;
      TrimLeftSpaces(n - 1, s);
      assert TrimLeft(whole) == TrimLeft(whole[1..]);
    }
  }

  lemma {:induction false} TrimRightSpaces(s: seq<Byte>, n: nat)
    requires s != [] ==> s[|s| - 1] != SPACE
    ensures TrimRight(s + Spaces(n)) == s
  {
    if n == 0 {
      assert s + Spaces(0) == s;
    } else {
      TrimRightSpaces(s, n - 1);
      assert (s + Spaces(n))[..|s| + n - 1] == s + Spaces(n - 1);
    }
  }

  /** trim returns the text between the spaces, and there is only one text without spaces at its ends there. */
  lemma TrimUnique(before: nat, r: seq<Byte>, after: nat)
    requires IsTrim(r)
    ensures Trimmed(Spaces(before) + r + Spaces(after)) == r
  {
    if r == [] {
      assert Spaces(before) + r + Spaces(after) == Spaces(before + after) + [];
      TrimLeftSpaces(before + after, []);
    } else {
      assert Spaces(before) + r + Spaces(after) == Spaces(before) + (r + Spaces(after));
      TrimLeftSpaces(before, r + Spaces(after));
      TrimRightSpaces(r, after);
    }
  }

  lemma {:induction false} LeftSplit(s: seq<Byte>)
    ensures s == Spaces(|s| - |TrimLeft(s)|) + TrimLeft(s)
  {
    if s != [] && s[0] == SPACE {
      LeftSplit(s[1..]);
      assert s == [SPACE] + s[1..];
      assert Spaces(|s| - |TrimLeft(s)|) == [SPACE] + Spaces(|s| - 1 - |TrimLeft(s)|);
    }
  }

  lemma {:induction false} RightSplit(s: seq<Byte>)
    ensures s == TrimRight(s) + Spaces(|s| - |TrimRight(s)|)
    ensures s != [] && s[0] != SPACE ==> TrimRight(s) != [] && TrimRight(s)[0] == s[0]
  {
    if s != [] && s[|s| - 1] == SPACE {
      RightSplit(s[..|s| - 1]);
      assert s == s[..|s| - 1] + [SPACE];
      assert Spaces(|s| - |TrimRight(s)|) == Spaces(|s| - 1 - |TrimRight(s)|) + [SPACE];
    }
  }

  lemma TrimSplit(s: seq<Byte>) returns (before: nat, after: nat)
    ensures IsTrim(Trimmed(s)) && s == Spaces(before) + Trimmed(s) + Spaces(after)
    ensures before == |s| - |TrimLeft(s)|
  {
    var left := TrimLeft(s);
    before, after := |s| - |left|, |left| - |Trimmed(s)|;
    LeftSplit(s);
    RightSplit(left);
  }

  /** trim keeps as much as it can: every part of a line that has no space at its ends lies inside what is kept. */
  lemma TrimMaximal(s: seq<Byte>, i: nat, j: nat)
    requires i < j <= |s| && IsTrim(s[i..j])
    ensures var start := |s| - |TrimLeft(s)|;
            start <= i && j <= start + |Trimmed(s)| && s[start..start + |Trimmed(s)|] == Trimmed(s)
  {
    hide Trimmed, TrimLeft, TrimRight;
    var start, after := TrimSplit(s);
    assert s[i] == s[i..j][0] && s[j - 1] == s[i..j][j - i - 1];
  }

  lemma TrimTwice(s: seq<Byte>)
    ensures Trimmed(Trimmed(s)) == Trimmed(s)
  {
    hide Trimmed, TrimLeft, TrimRight;
    var before, after := TrimSplit(s);
    TrimUnique(0, Trimmed(s), 0);
    assert Spaces(0) + Trimmed(s) + Spaces(0) == Trimmed(s);
  }

  /** trim and tolower can be applied in either order. */
  lemma TrimLower(s: seq<Byte>)
    ensures Lower(Trimmed(s)) == Trimmed(Lower(s))
  {
    hide Trimmed, TrimLeft, TrimRight;
    var before, after := TrimSplit(s);
    assert Lower(s) == Spaces(before) + Lower(Trimmed(s)) + Spaces(after);
    TrimUnique(before, Lower(Trimmed(s)), after);
  }
}
