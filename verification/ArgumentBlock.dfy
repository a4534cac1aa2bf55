/** The argument block task_load writes behind a task's image: argc, then the NUL-terminated strings
    (kernel/task/task.c). */
module ArgumentBlock {
  import opened CTypes

  /** The staging array tmp_argv: 5 rows of 50 bytes. */
  const MAX_ARGS := 5
  const ROW_SIZE := 50
  const STAGING_SIZE := 250

  predicate AreTexts(argv: seq<seq<Byte>>) {
    forall i | 0 <= i < |argv| :: IsText(argv[i])
  }

  /** Texts that can be staged without a write behind the array: row i takes the text, its NUL and a NUL behind that. */
  predicate IsArgv(argv: seq<seq<Byte>>) {
    && |argv| <= MAX_ARGS
    && AreTexts(argv)
    && forall i | 0 <= i < |argv| :: ROW_SIZE * i + |argv[i]| + 2 <= STAGING_SIZE
  }

  /** The text that row i holds once all rows are written: one that fills its row runs on into the next. */
  function StagedAt(argv: seq<seq<Byte>>, i: nat): seq<Byte>
    requires i < |argv|
    decreases |argv| - i
  {
    if |argv[i]| < ROW_SIZE || i + 1 == |argv| then argv[i] else argv[i][..ROW_SIZE] + StagedAt(argv, i + 1)
  }

  function Staged(argv: seq<seq<Byte>>): (r: seq<seq<Byte>>)
    ensures |r| == |argv| && forall i | 0 <= i < |r| :: r[i] == StagedAt(argv, i)
  {
    seq(|argv|, i requires 0 <= i < |argv| => StagedAt(argv, i))
  }

  /** Staging keeps all arguments if and only if each one that fills its row goes on, behind 50 characters, with just
      the next one; arguments of at most 49 characters always survive. */
  lemma StagedExactly(argv: seq<seq<Byte>>)
    ensures Staged(argv) == argv
            <==> forall i | 0 <= i < |argv| - 1 && |argv[i]| >= 50 :: argv[i][50..] == argv[i + 1]
  {
    if Staged(argv) == argv {
      forall i | 0 <= i < |argv| - 1 && |argv[i]| >= ROW_SIZE
        ensures argv[i][ROW_SIZE..] == argv[i + 1]
      {
        assert StagedAt(argv, i) == argv[i] && StagedAt(argv, i + 1) == argv[i + 1];
        assert (argv[i][..ROW_SIZE] + argv[i + 1])[ROW_SIZE..] == argv[i + 1];
      }
    } else if forall i | 0 <= i < |argv| - 1 && |argv[i]| >= ROW_SIZE :: argv[i][ROW_SIZE..] == argv[i + 1] {
      forall i | 0 <= i < |argv|
        ensures StagedAt(argv, i) == argv[i]
      {
        KeptFrom(argv, i);
      }
    }
  }

  lemma {:induction false} KeptFrom(argv: seq<seq<Byte>>, i: nat)
    requires i < |argv|
    requires forall j | i <= j < |argv| - 1 && |argv[j]| >= ROW_SIZE :: argv[j][ROW_SIZE..] == argv[j + 1]
    ensures StagedAt(argv, i) == argv[i]
    decreases |argv| - i
  {
    if |argv[i]| >= ROW_SIZE && i + 1 < |argv| {
      KeptFrom(argv, i + 1);
      assert argv[i] == argv[i][..ROW_SIZE] + argv[i][ROW_SIZE..];
    }
  }

  /** Two arguments that do not survive: the first runs on into the second. */
  lemma MangledExample(a: seq<Byte>, b: seq<Byte>)
    requires IsText(a) && IsText(b) && |a| == 50 && 0 < |b| <= 48
    ensures IsArgv([a, b]) && Staged([a, b]) == [a + b, b] != [a, b]
  {
    assert StagedAt([a, b], 1) == b;
    assert a[..50] == a;
    assert |a + b| != |a|;
  }

  lemma {:induction false} StagedTexts(argv: seq<seq<Byte>>, i: nat)
    requires IsArgv(argv) && i < |argv|
    ensures IsText(StagedAt(argv, i)) && ROW_SIZE * i + |StagedAt(argv, i)| + 2 <= STAGING_SIZE
    decreases |argv| - i
  {
    if i + 1 < |argv| {
      StagedTexts(argv, i + 1);
    }
  }

  function Strings(argv: seq<seq<Byte>>): seq<Byte> {
    if argv == [] then [] else Strings(argv[..|argv| - 1]) + (argv[|argv| - 1] + [0])
  }

  function Block(argv: seq<seq<Byte>>): seq<Byte>
    requires |argv| <= MAX_ARGS
  {
    WordBytes(|argv|) + Strings(argv)
  }

  lemma {:induction false} StringsSize(argv: seq<seq<Byte>>)
    requires forall i | 0 <= i < |argv| :: |argv[i]| <= 248
    ensures |argv| <= |Strings(argv)| <= 249 * |argv|
  {
    if argv != [] {
      StringsSize(argv[..|argv| - 1]);
    }
  }

  lemma {:induction false} StringsNext(argv: seq<seq<Byte>>, i: nat)
    requires i < |argv|
    ensures Strings(argv[..i + 1]) == Strings(argv[..i]) + (argv[i] + [0])
    ensures |Strings(argv[..i + 1])| <= |Strings(argv)|
    decreases |argv|
  {
    assert argv[..i + 1][..i] == argv[..i];
    if i + 1 < |argv| {
      StringsNext(argv[..|argv| - 1], i);
      assert argv[..|argv| - 1][..i + 1] == argv[..i + 1];
    } else {
      assert argv[..i + 1] == argv;
    }
  }

  /** No block is longer, not even one whose texts run into each other. */
  const MAX_BLOCK := 1249

  lemma BlockBounds(argv: seq<seq<Byte>>)
    requires IsArgv(argv)
    ensures |Block(argv)| <= MAX_BLOCK && |Block(Staged(argv))| <= MAX_BLOCK
    ensures forall i | 0 <= i < |argv| :: IsText(Staged(argv)[i])
  {
    forall i | 0 <= i < |argv|
      ensures IsText(Staged(argv)[i]) && |Staged(argv)[i]| <= 248
    {
      StagedTexts(argv, i);
    }
    StringsSize(argv);
    StringsSize(Staged(argv));
  }

  /** The sizing loop: the size requested for the block is the number of bytes the copy loop writes. */
  method ArgumentSize(argv: seq<seq<Byte>>) returns (size: nat)
    ensures size == 4 + |Strings(argv)|
    ensures IsArgv(argv) ==> size == |Block(argv)| <= MAX_BLOCK
  {
    size := 4;
    for i := 0 to |argv|
      invariant size == 4 + |Strings(argv[..i])|
    {
      assert argv[..i + 1][..i] == argv[..i];
      size := size + |argv[i]| + 1;
    }
    assert argv[..|argv|] == argv;
    if IsArgv(argv) {
      StringsSize(argv);
    }
  }

  /** Two arguments "a" and "bc", byte by byte. */
  lemma BlockExample()
    ensures Block([[97], [98, 99]]) == [2, 0, 0, 0, 97, 0, 98, 99, 0]
  {
    var argv: seq<seq<Byte>> := [[97], [98, 99]];
    assert argv[..1] == [[97]] && [[97]][..0] == [];
    assert Strings([[97]]) == [97, 0];
    assert Strings(argv) == [97, 0] + [98, 99, 0];
  }

  // ----- reading the block back --------------------------------------------------------------------

  function WordAt(mem: seq<Byte>, at: nat): nat
    requires at + 4 <= |mem|
  {
    WordOf(mem[at..at + 4])
  }

  /** The first n strings of a byte sequence; a missing terminator ends the reading. */
  function StringsIn(bytes: seq<Byte>, n: nat): seq<seq<Byte>>
    decreases n
  {
    if n == 0 then [] else
      var s := TextAt(bytes, 0);
      if |s| < |bytes| then [s] + StringsIn(bytes[|s| + 1..], n - 1) else [s]
  }

  /** A program's view: argc at the given offset, then argc strings one behind the other. */
  function ReadArgv(mem: seq<Byte>, at: nat): seq<seq<Byte>>
    requires at + 4 <= |mem|
  {
    StringsIn(mem[at + 4..], WordAt(mem, at))
  }

  lemma {:induction false} StringsHead(argv: seq<seq<Byte>>)
    requires argv != []
    ensures Strings(argv) == argv[0] + [0] + Strings(argv[1..])
  {
    if |argv| == 1 {
      assert argv[..0] == argv[1..] == [];
    } else {
      var n := |argv| - 1;
      var init, last := argv[..n], argv[n] + [0];
      StringsHead(init);
      assert init[1..] == argv[1..][..n - 1];
      assert Strings(argv[1..]) == Strings(init[1..]) + last;
      assert argv[0] + [0] + Strings(init[1..]) + last == argv[0] + [0] + (Strings(init[1..]) + last);
    }
  }

  lemma {:induction false} StringsRoundTrip(bytes: seq<Byte>, argv: seq<seq<Byte>>)
    requires AreTexts(argv)
    requires Strings(argv) <= bytes
    ensures StringsIn(bytes, |argv|) == argv
    decreases |argv|
  {
    if argv != [] {
      StringsHead(argv);
      FirstString(bytes, argv[0], Strings(argv[1..]));
      TextIs(bytes, 0, argv[0]);
      StringsRoundTrip(bytes[|argv[0]| + 1..], argv[1..]);
    }
  }

  lemma FirstString(here: seq<Byte>, s: seq<Byte>, rest: seq<Byte>)
    requires s + [0] + rest <= here
    ensures |s| < |here| && here[..|s|] == s && here[|s|] == 0 && rest <= here[|s| + 1..]
  {
    var whole := s + [0] + rest;
    assert here[..|s|] == whole[..|s|] && here[|s|] == whole[|s|];
    assert rest == whole[|s| + 1..] == here[|s| + 1..][..|rest|];
  }

  /** Whatever precedes and follows it, the block decodes to exactly argc and argv. */
  lemma BlockRoundTrip(before: seq<Byte>, argv: seq<seq<Byte>>, after: seq<Byte>)
    requires |argv| <= MAX_ARGS && AreTexts(argv)
    ensures ReadArgv(before + Block(argv) + after, |before|) == argv
  {
    var mem, at := before + Block(argv) + after, |before|;
    assert mem[at..at + 4] == WordBytes(|argv|);
    WordRoundTrip(|argv|);
    assert mem[at + 4..] == Strings(argv) + after;
    StringsRoundTrip(mem[at + 4..], argv);
  }
}
