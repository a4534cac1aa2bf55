/** The staging array tmp_argv of task_load: the caller's strings are copied into rows of 50 bytes before the page
    directory changes (kernel/task/task.c). */
module Staging {
  import opened CTypes
  import opened ArgumentBlock
  import opened StringCode = Strings

  /** What goes into one row: the text, its NUL, and the NUL that the code writes behind that. */
  function Row(text: seq<Byte>): seq<Byte> {
    text + [0, 0]
  }

  function Overwritten(mem: seq<Byte>, at: nat, part: seq<Byte>): (r: seq<Byte>)
    requires at + |part| <= |mem|
    ensures |r| == |mem|
    ensures forall i | 0 <= i < |mem| :: r[i] == if at <= i < at + |part| then part[i - at] else mem[i]
  {
    mem[..at] + part + mem[at + |part|..]
  }

  predicate Fits(mem: seq<Byte>, tmp: nat, argv: seq<seq<Byte>>) {
    IsArgv(argv) && tmp + STAGING_SIZE <= |mem|
  }

  /** The memory after n rows. */
  function AfterRows(mem: seq<Byte>, tmp: nat, argv: seq<seq<Byte>>, n: nat): (r: seq<Byte>)
    requires Fits(mem, tmp, argv) && n <= |argv|
    ensures |r| == |mem|
    ensures forall i | 0 <= i < |mem| && !(tmp <= i < tmp + STAGING_SIZE) :: r[i] == mem[i]
  {
    if n == 0 then mem
    else Overwritten(AfterRows(mem, tmp, argv, n - 1), tmp + ROW_SIZE * (n - 1), Row(argv[n - 1]))
  }

  /** Rows written later start behind row i, so the part of its contents that is inside the row stays; the last row
      keeps all of it. */
  lemma {:induction false} RowByte(mem: seq<Byte>, tmp: nat, argv: seq<seq<Byte>>, n: nat, i: nat, j: nat)
    requires Fits(mem, tmp, argv) && i < n <= |argv| && j < |Row(argv[i])| && (j < ROW_SIZE || i + 1 == n)
    ensures tmp + ROW_SIZE * i + j < |mem|
    ensures AfterRows(mem, tmp, argv, n)[tmp + ROW_SIZE * i + j] == Row(argv[i])[j]
  {
    if i + 1 < n {
      RowByte(mem, tmp, argv, n - 1, i, j);
    }
  }

  /** What the copy loop reads from row i at the end. */
  lemma {:induction false} RowText(mem: seq<Byte>, tmp: nat, argv: seq<seq<Byte>>, i: nat)
    requires Fits(mem, tmp, argv) && i < |argv|
    ensures var done := AfterRows(mem, tmp, argv, |argv|);
            TextAt(done, tmp + ROW_SIZE * i) == StagedAt(argv, i) && HoldsText(done, tmp + ROW_SIZE * i)
    decreases |argv| - i
  {
    hide AfterRows, TextAt;
    var done, at := AfterRows(mem, tmp, argv, |argv|), tmp + ROW_SIZE * i;
    RowKept(mem, tmp, argv, i);
    if |argv[i]| < ROW_SIZE || i + 1 == |argv| {
      RowByte(mem, tmp, argv, |argv|, i, |argv[i]|);
      TextIs(done, at, argv[i]);
    } else {
      RowText(mem, tmp, argv, i + 1);
      TextSplit(done, at, ROW_SIZE);
    }
  }

  /** What the later rows leave of row i. */
  lemma RowKept(mem: seq<Byte>, tmp: nat, argv: seq<seq<Byte>>, i: nat)
    requires Fits(mem, tmp, argv) && i < |argv|
    ensures var done, at := AfterRows(mem, tmp, argv, |argv|), tmp + ROW_SIZE * i;
            var n := if i + 1 == |argv| then |argv[i]| else Min(|argv[i]|, ROW_SIZE);
            at + n <= |done| && done[at..at + n] == argv[i][..n]
  {
    hide AfterRows;
    var done, at := AfterRows(mem, tmp, argv, |argv|), tmp + ROW_SIZE * i;
    var n := if i + 1 == |argv| then |argv[i]| else Min(|argv[i]|, ROW_SIZE);
    forall j | 0 <= j < n
      ensures at + j < |done| && done[at + j] == argv[i][j]
    {
      RowByte(mem, tmp, argv, |argv|, i, j);
    }
  }

  /** A string outside the staging array. */
  ghost predicate Elsewhere(mem: seq<Byte>, tmp: nat, p: nat, text: seq<Byte>) {
    && HoldsText(mem, p) && TextAt(mem, p) == text
    && (p + |text| < tmp || tmp + STAGING_SIZE <= p)
  }

  predicate InArray(a: nat, tmp: nat) {
    tmp <= a < tmp + 250
  }

  /** That is, none of its bytes, the NUL included, is in the array. */
  lemma ElsewhereMeans(mem: seq<Byte>, tmp: nat, p: nat)
    requires HoldsText(mem, p)
    ensures Elsewhere(mem, tmp, p, TextAt(mem, p))
            <==> forall a: nat | p <= a <= p + |TextAt(mem, p)| :: !InArray(a, tmp)
  {
    hide TextAt;
    var n := |TextAt(mem, p)|;
    if forall a: nat | p <= a <= p + n :: !InArray(a, tmp) {
      assert !InArray(p, tmp) && !InArray(p + n, tmp);
      assert p < tmp <= p + n ==> !InArray(tmp, tmp);
    }
  }

  lemma StillElsewhere(mem: seq<Byte>, tmp: nat, argv: seq<seq<Byte>>, n: nat, p: nat, text: seq<Byte>)
    requires Fits(mem, tmp, argv) && n <= |argv| && Elsewhere(mem, tmp, p, text)
    ensures Elsewhere(AfterRows(mem, tmp, argv, n), tmp, p, text)
  {
    var now := AfterRows(mem, tmp, argv, n);
    forall i | 0 <= i <= |text|
      ensures now[p + i] == if i < |text| then text[i] else 0
    {
      CharAt(mem, p, i);
    }
    CharAt(mem, p, |text|);
    TextIs(now, p, text);
  }

  /** The first loop of task_load over the arguments, in the one memory that holds both the strings and the array. It
      stops where the code would write behind the array. */
  method Stage(mem: array<Byte>, tmp: nat, argv: seq<nat>, ghost texts: seq<seq<Byte>>) returns (inside: bool)
    requires tmp + STAGING_SIZE <= mem.Length && |argv| == |texts| && AreTexts(texts)
    requires forall i | 0 <= i < |argv| :: Elsewhere(mem[..], tmp, argv[i], texts[i])
    modifies mem
    ensures inside <==> IsArgv(texts)
    ensures mem[..tmp] == old(mem[..tmp]) && mem[tmp + STAGING_SIZE..] == old(mem[tmp + STAGING_SIZE..])
    ensures inside ==> forall i | 0 <= i < |argv| ::
              && HoldsText(mem[..], tmp + ROW_SIZE * i)
              && TextAt(mem[..], tmp + ROW_SIZE * i) == StagedAt(texts, i)
  {
    hide Fits, Elsewhere, AfterRows, HoldsText, TextAt, StagedAt, IsArgv, AreTexts;
    ghost var was := mem[..];
    NoRows(was, tmp, texts);
    for i := 0 to |argv|
      invariant Fits(was, tmp, texts[..i]) && mem[..] == AfterRows(was, tmp, texts[..i], i)
    {
      StillElsewhere(was, tmp, texts[..i], i, argv[i], texts[i]);
      LiesElsewhere(mem[..], tmp, argv[i], texts[i]);
      OneMoreFits(was, tmp, texts, i);
      var len := Strlen(mem, argv[i]);
      if ROW_SIZE * i + len + 2 > STAGING_SIZE {
        RowsInside(was, tmp, texts[..i]);
        return false;
      }
      StageRow(mem, tmp, argv[i], len, i, was, texts[..i + 1]);
    }
    assert texts[..|argv|] == texts;
    RowsInside(was, tmp, texts);
    FitsArgv(was, tmp, texts);
    forall i | 0 <= i < |argv|
      ensures HoldsText(mem[..], tmp + ROW_SIZE * i) && TextAt(mem[..], tmp + ROW_SIZE * i) == StagedAt(texts, i)
    {
      RowText(was, tmp, texts, i);
    }
    inside := true;
  }

  lemma FitsArgv(mem: seq<Byte>, tmp: nat, argv: seq<seq<Byte>>)
    requires Fits(mem, tmp, argv)
    ensures IsArgv(argv)
  {
  }

  lemma LiesElsewhere(mem: seq<Byte>, tmp: nat, p: nat, text: seq<Byte>)
    requires Elsewhere(mem, tmp, p, text)
    ensures HoldsText(mem, p) && TextAt(mem, p) == text
  {
  }

  /** Rows so far fit, and one more does if and only if its two NULs are in the array too. */
  lemma OneMoreFits(mem: seq<Byte>, tmp: nat, argv: seq<seq<Byte>>, i: nat)
    requires i < |argv| && AreTexts(argv) && Fits(mem, tmp, argv[..i])
    ensures Fits(mem, tmp, argv[..i + 1]) <==> ROW_SIZE * i + |argv[i]| + 2 <= STAGING_SIZE
    ensures IsArgv(argv) ==> Fits(mem, tmp, argv[..i + 1])
    ensures Fits(mem, tmp, argv[..i + 1]) ==>
              AfterRows(mem, tmp, argv[..i + 1], i) == AfterRows(mem, tmp, argv[..i], i)
  {
    hide AfterRows, IsText;
    var now, next := argv[..i], argv[..i + 1];
    assert forall j | 0 <= j < i :: now[j] == argv[j] && next[j] == argv[j];
    assert next[i] == argv[i];
    if Fits(mem, tmp, next) {
      SameRows(mem, tmp, now, next, i);
    }
  }

  lemma {:induction false} SameRows(mem: seq<Byte>, tmp: nat, a: seq<seq<Byte>>, b: seq<seq<Byte>>, n: nat)
    requires Fits(mem, tmp, a) && Fits(mem, tmp, b) && n <= |a| && n <= |b| && a[..n] == b[..n]
    ensures AfterRows(mem, tmp, a, n) == AfterRows(mem, tmp, b, n)
  {
    if n > 0 {
      assert a[n - 1] == a[..n][n - 1] == b[n - 1];
      assert a[..n - 1] == a[..n][..n - 1] == b[..n - 1];
      SameRows(mem, tmp, a, b, n - 1);
    }
  }

  /** The bytes that the rows take lie in the array if and only if the texts are IsArgv. */
  lemma RowsInArray(argv: seq<seq<Byte>>)
    requires AreTexts(argv)
    ensures IsArgv(argv) <==> forall i | 0 <= i < |argv| :: 50 * i + |Row(argv[i])| <= 250
    ensures forall i | 0 <= i < |argv| :: |Row(argv[i])| == |argv[i]| + 2
  {
    if |argv| > MAX_ARGS {
      assert ROW_SIZE * MAX_ARGS + |Row(argv[MAX_ARGS])| > STAGING_SIZE;
    }
  }

  /** A sixth argument is written behind the array, whatever it is, and so is the last NUL of a fifth one of 49
      characters. */
  lemma OverrunExamples(a: seq<Byte>, b: seq<Byte>)
    requires IsText(a) && IsText(b) && |a| < 50 && |b| == 49
    ensures !IsArgv([a, a, a, a, a, a]) && !IsArgv([a, a, a, a, b])
  {
    var argv := [a, a, a, a, b];
    assert ROW_SIZE * 4 + |argv[4]| + 2 > STAGING_SIZE;
  }

  lemma RowsInside(mem: seq<Byte>, tmp: nat, argv: seq<seq<Byte>>)
    requires Fits(mem, tmp, argv)
    ensures var done := AfterRows(mem, tmp, argv, |argv|);
            && tmp + STAGING_SIZE <= |mem| == |done|
            && done[..tmp] == mem[..tmp] && done[tmp + STAGING_SIZE..] == mem[tmp + STAGING_SIZE..]
  {
    hide AfterRows, IsArgv;
  }

  lemma NoRows(mem: seq<Byte>, tmp: nat, argv: seq<seq<Byte>>)
    requires tmp + STAGING_SIZE <= |mem|
    ensures Fits(mem, tmp, argv[..0]) && AfterRows(mem, tmp, argv[..0], 0) == mem
  {
  }

  /** One row: strncpy of the string with its NUL, then the NUL behind the copied one. */
  method StageRow(mem: array<Byte>, tmp: nat, arg: nat, len: nat, i: nat,
                  ghost was: seq<Byte>, ghost texts: seq<seq<Byte>>)
    requires Fits(was, tmp, texts) && i < |texts| && Elsewhere(was, tmp, arg, texts[i]) && len == |texts[i]|
    requires mem[..] == AfterRows(was, tmp, texts, i)
    modifies mem
    ensures mem[..] == AfterRows(was, tmp, texts, i + 1)
  {
    hide AfterRows, Overwritten, Row, TextAt, HoldsText;
    StillElsewhere(was, tmp, texts, i, arg, texts[i]);
    NextRow(was, tmp, texts, i);
    ghost var text := texts[i];
    assert Elsewhere(mem[..], tmp, arg, text) && !(arg < tmp + ROW_SIZE * i <= arg + |text|);
    hide Fits, IsArgv;
    CopyRow(mem, tmp + ROW_SIZE * i, arg, len + 1, text);
  }

  method CopyRow(mem: array<Byte>, row: nat, arg: nat, len: nat, ghost text: seq<Byte>)
    requires HoldsText(mem[..], arg) && TextAt(mem[..], arg) == text && !(arg < row <= arg + |text|)
    requires row + |Row(text)| <= mem.Length && len == |text| + 1
    modifies mem
    ensures mem[..] == Overwritten(old(mem[..]), row, Row(text))
  {
    hide HoldsText, TextAt, Copied, CopiedText, Overwritten;
    ghost var before := mem[..];
    RowCopied(before, row, arg, text);
    RowDone(before, row, text);
    Strncpy(mem, row, arg, len);
    ghost var copied := mem[..];
    mem[row + len] := 0;
    assert mem[..] == copied[row + len := 0];
  }

  lemma RowDone(mem: seq<Byte>, row: nat, text: seq<Byte>)
    requires row + |text| + 2 <= |mem|
    ensures var copied := mem[..row] + (text + [0]) + mem[row + |text| + 1..];
            |copied| == |mem| && copied[row + |text| + 1 := 0] == Overwritten(mem, row, Row(text))
  {
  }

  lemma RowCopied(mem: seq<Byte>, row: nat, arg: nat, text: seq<Byte>)
    requires HoldsText(mem, arg) && TextAt(mem, arg) == text && !(arg < row <= arg + |text|)
    ensures Copied(text, row, arg, |text| + 1) == text + [0]
  {
    assert text[..|text|] == text;
  }

  lemma NextRow(mem: seq<Byte>, tmp: nat, argv: seq<seq<Byte>>, n: nat)
    requires Fits(mem, tmp, argv) && n < |argv|
    ensures tmp + ROW_SIZE * n + |Row(argv[n])| <= |mem|
    ensures AfterRows(mem, tmp, argv, n + 1)
            == Overwritten(AfterRows(mem, tmp, argv, n), tmp + ROW_SIZE * n, Row(argv[n]))
  {
  }

  /** The same for a caller that is given by its strings: they lie one behind the other after the array, whose contents
      are arbitrary at first. */
  method StageArguments(argv: seq<seq<Byte>>) returns (inside: bool, tmp: array<Byte>)
    requires AreTexts(argv)
    ensures fresh(tmp)
    ensures inside <==> IsArgv(argv)
    ensures inside ==> forall i | 0 <= i < |argv| ::
              HoldsText(tmp[..], ROW_SIZE * i) && TextAt(tmp[..], ROW_SIZE * i) == StagedAt(argv, i)
  {
    hide Strings, Elsewhere, Fits, IsArgv, AreTexts, TextAt, HoldsText, StagedAt;
    var strings := Strings(argv);
    tmp := CallerMemory(strings);
    var pointers: seq<nat> := [];
    for i := 0 to |argv|
      invariant tmp[STAGING_SIZE..] == strings
      invariant |pointers| == i && forall j | 0 <= j < i :: Elsewhere(tmp[..], 0, pointers[j], argv[j])
    {
      StringLies(tmp[..], argv, i);
      pointers := pointers + [STAGING_SIZE + |Strings(argv[..i])|];
    }
    inside := Stage(tmp, 0, pointers, argv);
  }

  method CallerMemory(strings: seq<Byte>) returns (mem: array<Byte>)
    ensures fresh(mem) && mem.Length >= STAGING_SIZE && mem[STAGING_SIZE..] == strings
  {
    mem := new Byte[STAGING_SIZE + |strings|];
    for k := 0 to |strings|
      invariant mem[STAGING_SIZE..STAGING_SIZE + k] == strings[..k]
    {
      mem[STAGING_SIZE + k] := strings[k];
      assert mem[STAGING_SIZE..STAGING_SIZE + k + 1] == strings[..k] + [strings[k]];
    }
    assert mem[STAGING_SIZE..] == mem[STAGING_SIZE..STAGING_SIZE + |strings|] && strings[..|strings|] == strings;
  }

  lemma StringLies(mem: seq<Byte>, argv: seq<seq<Byte>>, i: nat)
    requires AreTexts(argv) && i < |argv| && |mem| >= STAGING_SIZE && mem[STAGING_SIZE..] == Strings(argv)
    ensures Elsewhere(mem, 0, STAGING_SIZE + |Strings(argv[..i])|, argv[i])
  {
    StringsPart(argv, i);
    var before := |Strings(argv[..i])|;
    Slice(mem, STAGING_SIZE, before, before + |argv[i]| + 1);
    hide Strings, TextAt, HoldsText;
    LiesAt(mem, STAGING_SIZE + before, argv[i]);
  }

  lemma Slice(mem: seq<Byte>, at: nat, from: nat, to: nat)
    requires at <= |mem| && from <= to <= |mem[at..]|
    ensures mem[at + from..at + to] == mem[at..][from..to]
  {
  }

  lemma LiesAt(mem: seq<Byte>, at: nat, text: seq<Byte>)
    requires IsText(text) && at + |text| + 1 <= |mem| && mem[at..at + |text| + 1] == text + [0]
    ensures TextAt(mem, at) == text && HoldsText(mem, at)
  {
    var bytes := mem[at..at + |text| + 1];
    assert mem[at..at + |text|] == bytes[..|text|] == text && mem[at + |text|] == bytes[|text|];
    TextIs(mem, at, text);
  }

  lemma {:induction false} StringsPart(argv: seq<seq<Byte>>, i: nat)
    requires i < |argv|
    ensures var at := |Strings(argv[..i])|;
            at + |argv[i]| + 1 <= |Strings(argv)| && Strings(argv)[at..at + |argv[i]| + 1] == argv[i] + [0]
    decreases |argv|
  {
    var n := |argv| - 1;
    var last := argv[n] + [0];
    if i < n {
      StringsPart(argv[..n], i);
      assert argv[..n][..i] == argv[..i];
      var at := |Strings(argv[..i])|;
      assert Strings(argv)[at..at + |argv[i]| + 1] == Strings(argv[..n])[at..at + |argv[i]| + 1];
    } else {
      assert Strings(argv) == Strings(argv[..n]) + last;
    }
  }
}
