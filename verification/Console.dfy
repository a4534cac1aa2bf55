/** The line editor read_string (user/ulibc.c) and the shell's reading of a line (user/shell.c). */
module Console {
  import opened CTypes
  import opened StringOrder
  import opened Numbers
  import opened Strings

  const BACKSPACE := 8
  const TAB := 9
  const NEWLINE := 10
  const TAB_SIZE := 4

  // ----- what a sequence of keys means ---------------------------------------------------------------

  /** The line after one more key; 0 means that no key was pressed. A key code is stored as its low byte. */
  function Edit(line: seq<Byte>, key: int): seq<Byte> {
    if key == 0 then line
    else if key == BACKSPACE then (if line == [] then [] else line[..|line| - 1])
    else if key == TAB then line + Spaces(TAB_SIZE)
    else line + [key % 256]
  }

  /** The characters sent to the terminal for that key. */
  function Echo(line: seq<Byte>, key: int): seq<Byte> {
    if key == 0 then []
    else if key == BACKSPACE then (if line == [] then [] else [BACKSPACE])
    else if key == TAB then Spaces(TAB_SIZE)
    else [key % 256]
  }

  function Typed(keys: seq<int>): seq<Byte> {
    if keys == [] then [] else Edit(Typed(keys[..|keys| - 1]), keys[|keys| - 1])
  }

  function Echoed(keys: seq<int>): seq<Byte> {
    if keys == [] then []
    else Echoed(keys[..|keys| - 1]) + Echo(Typed(keys[..|keys| - 1]), keys[|keys| - 1])
  }

  /** An ideal one-line terminal: a backspace removes the last character, every other byte appears. */
  function Display(output: seq<Byte>): seq<Byte> {
    if output == [] then []
    else
      var screen, c := Display(output[..|output| - 1]), output[|output| - 1];
      if c != BACKSPACE then screen + [c] else if screen == [] then [] else screen[..|screen| - 1]
  }

  // ----- the editor ----------------------------------------------------------------------------------

  /** One key: the output argument is everything echoed so far. The line may fill the buffer. */
  method EditKey(buf: array<Byte>, len: nat, key: int, output: seq<Byte>) returns (len': nat, output': seq<Byte>)
    requires len <= buf.Length && |Edit(buf[..len], key)| <= buf.Length
    modifies buf
    ensures len' == |Edit(old(buf[..len]), key)| && buf[..len'] == Edit(old(buf[..len]), key)
    ensures output' == output + Echo(old(buf[..len]), key)
  {
    ghost var line := buf[..len];
    len', output' := len, output;
    if key != 0 {
      if key == BACKSPACE {
        if len > 0 {
          output' := output' + [BACKSPACE];
          len' := len' - 1;
        }
      } else if key == TAB {
        for i := 0 to TAB_SIZE
          invariant len' == len + i && buf[..len'] == line + Spaces(i) && output' == output + Spaces(i)
        {
          output' := output' + [SPACE];
          buf[len'] := SPACE;
          len' := len' + 1;
          assert buf[..len'] == line + Spaces(i) + [SPACE];
          assert Spaces(i) + [SPACE] == Spaces(i + 1);
        }
      } else {
        output' := output' + [key % 256];
        buf[len] := key % 256;
        len' := len' + 1;
        assert buf[..len'] == line + [key % 256];
      }
    }
  }

  /** Key by key: 0 is no key, 8 deletes the last character, 9 is four spaces, and a printable character is itself. */
  lemma KeysMean(keys: seq<int>, c: int)
    requires 32 <= c < 127
    ensures Typed(keys + [0]) == Typed(keys) && Typed(keys + [c]) == Typed(keys) + [c]
    ensures Typed(keys + [9]) == Typed(keys) + [32, 32, 32, 32]
    ensures Typed(keys + [8]) == if Typed(keys) == [] then [] else Typed(keys)[..|Typed(keys)| - 1]
    ensures Typed(keys + [c, 8]) == Typed(keys)
    ensures Echoed(keys + [0]) == Echoed(keys) && Echoed(keys + [c]) == Echoed(keys) + [c]
    ensures Echoed(keys + [9]) == Echoed(keys) + [32, 32, 32, 32]
    ensures Echoed(keys + [8]) == Echoed(keys) + (if Typed(keys) == [] then [] else [8])
  {
    hide *;
    OneKey(keys, 0);
    OneKey(keys, c);
    OneKey(keys, 8);
    OneKey(keys, 9);
    OneKey(keys + [c], 8);
    assert keys + [c] + [8] == keys + [c, 8];
    LiteralKeys(Typed(keys), c);
    LiteralKeys(Typed(keys) + [c], c);
  }

  lemma LiteralKeys(line: seq<Byte>, c: int)
    requires 32 <= c < 127
    ensures Edit(line, 0) == line && Edit(line, c) == line + [c] && Edit(line, 9) == line + [32, 32, 32, 32]
    ensures Edit(line, 8) == if line == [] then [] else line[..|line| - 1]
    ensures Echo(line, 0) == [] && Echo(line, c) == [c] && Echo(line, 9) == [32, 32, 32, 32]
    ensures Echo(line, 8) == if line == [] then [] else [8]
  {
    assert Spaces(4) == [32, 32, 32, 32];
  }

  lemma OneKey(keys: seq<int>, key: int)
    ensures Typed(keys + [key]) == Edit(Typed(keys), key)
    ensures Echoed(keys + [key]) == Echoed(keys) + Echo(Typed(keys), key)
  {
    assert (keys + [key])[..|keys|] == keys;
  }

  /** Key 10 ends the line, with whatever was typed before it, and only it does. */
  lemma NewlineEnds(keys: seq<int>, rest: seq<int>, n: nat)
    requires 10 !in keys && Stays(keys, n) && |Typed(keys)| < n
    ensures Reads(keys + [10] + rest, n, Line(|keys|)) && Reads(keys, n, Waiting)
  {
    assert (keys + [10] + rest)[..|keys|] == keys;
  }

  /** What becomes of a call: it returns at a newline, goes on waiting for keys, or writes behind the buffer. */
  datatype Reading = Line(used: nat) | Waiting | Overflow(used: nat)

  /** The line never gets longer than n. */
  ghost predicate Stays(keys: seq<int>, n: nat) {
    |Typed(keys)| <= n && (keys == [] || Stays(keys[..|keys| - 1], n))
  }

  /** Which of the three it is depends on the keys and the size of the buffer alone. */
  ghost predicate Reads(keys: seq<int>, n: nat, r: Reading) {
    match r
    case Line(used) =>
      && used < |keys| && keys[used] == NEWLINE && NEWLINE !in keys[..used]
      && Stays(keys[..used], n) && |Typed(keys[..used])| < n
    case Waiting => NEWLINE !in keys && Stays(keys, n)
    case Overflow(used) =>
      && used < |keys| && NEWLINE !in keys[..used] && Stays(keys[..used], n)
      && (if keys[used] == NEWLINE then |Typed(keys[..used])| == n else |Typed(keys[..used + 1])| > n)
  }

  /** Reads keys up to the newline, without looking at the size of the buffer. */
  method ReadString(buf: array<Byte>, keys: seq<int>) returns (r: Reading, output: seq<Byte>)
    modifies buf
    ensures Reads(keys, buf.Length, r)
    ensures r.Line? ==>
              var line := Typed(keys[..r.used]);
              && |line| < buf.Length && buf[..|line|] == line && buf[|line|] == 0
              && (IsText(line) ==> TextAt(buf[..], 0) == line && HoldsText(buf[..], 0))
              && output == Echoed(keys[..r.used])
    ensures r.Waiting? ==> |Typed(keys)| <= buf.Length && buf[..|Typed(keys)|] == Typed(keys) && output == Echoed(keys)
  {
    output := [];
    var used, len := 0, 0;
    assert keys[..0] == [];
    while used < |keys| && keys[used] != NEWLINE
      invariant used <= |keys| && NEWLINE !in keys[..used] && Stays(keys[..used], buf.Length)
      invariant len == |Typed(keys[..used])| <= buf.Length && buf[..len] == Typed(keys[..used])
      invariant output == Echoed(keys[..used])
      decreases |keys| - used
    {
      hide Typed, Echoed, Stays, Edit, Echo;
      OneMoreKey(keys, used, buf.Length);
      if |Edit(buf[..len], keys[used])| > buf.Length {
        return Overflow(used), output;
      }
      len, output := EditKey(buf, len, keys[used], output);
      used := used + 1;
    }
    if used == |keys| {
      assert keys[..used] == keys;
      return Waiting, output;
    }
    if len == buf.Length {
      return Overflow(used), output;
    }
    buf[len] := 0;
    if IsText(Typed(keys[..used])) {
      assert buf[..][0..0 + len] == buf[..len];
      TextIs(buf[..], 0, Typed(keys[..used]));
    }
    r := Line(used);
  }

  lemma OneMoreKey(keys: seq<int>, used: nat, n: nat)
    requires used < |keys| && Stays(keys[..used], n)
    ensures Typed(keys[..used + 1]) == Edit(Typed(keys[..used]), keys[used])
    ensures Echoed(keys[..used + 1]) == Echoed(keys[..used]) + Echo(Typed(keys[..used]), keys[used])
    ensures Stays(keys[..used + 1], n) <==> |Typed(keys[..used + 1])| <= n
    ensures NEWLINE !in keys[..used] && keys[used] != NEWLINE ==> NEWLINE !in keys[..used + 1]
  {
    hide Edit, Echo;
    var next := keys[..used + 1];
    assert next[..used] == keys[..used];
  }

  /** A buffer of n bytes and a sequence of keys leave one outcome only. */
  lemma ReadsOne(keys: seq<int>, n: nat, r: Reading, r': Reading)
    requires Reads(keys, n, r) && Reads(keys, n, r')
    ensures r == r'
  {
    assert keys[..|keys|] == keys;
    NoEarlierEnd(keys, n, r, if r'.Waiting? then |keys| else r'.used);
    NoEarlierEnd(keys, n, r', if r.Waiting? then |keys| else r.used);
  }

  lemma NoEarlierEnd(keys: seq<int>, n: nat, r: Reading, k: nat)
    requires Reads(keys, n, r) && k <= |keys| && NEWLINE !in keys[..k] && Stays(keys[..k], n)
    ensures r.Waiting? || r.used >= k
  {
    forall i | 0 <= i < k
      ensures keys[i] != NEWLINE && |Typed(keys[..i + 1])| <= n
    {
      assert keys[i] in keys[..k];
      StaysPrefix(keys[..k], n, i + 1);
      assert keys[..k][..i + 1] == keys[..i + 1];
    }
  }

  lemma {:induction false} StaysPrefix(keys: seq<int>, n: nat, k: nat)
    requires Stays(keys, n) && k <= |keys|
    ensures |Typed(keys[..k])| <= n
  {
    if k < |keys| {
      var init := keys[..|keys| - 1];
      StaysPrefix(init, n, k);
      assert init[..k] == keys[..k];
    } else {
      assert keys[..k] == keys;
    }
  }

  /** n + 1 printable characters, for one, do not fit into n bytes: the last one is written behind them. */
  lemma TooManyKeys(keys: seq<int>, n: nat)
    requires |keys| == n + 1 && forall i | 0 <= i < |keys| :: 32 <= keys[i] < 127
    ensures Reads(keys, n, Overflow(n))
  {
    PrintableKeys(keys[..n], n);
    PrintableKeys(keys, n + 1);
    assert keys[..n + 1] == keys;
  }

  lemma {:induction false} PrintableKeys(keys: seq<int>, n: nat)
    requires |keys| <= n && forall i | 0 <= i < |keys| :: 32 <= keys[i] < 127
    ensures |Typed(keys)| == |keys| && Stays(keys, n)
  {
    if keys != [] {
      PrintableKeys(keys[..|keys| - 1], n);
    }
  }

  /** A key whose low byte is a backspace although it is not one. */
  predicate Disguised(key: int) {
    key != BACKSPACE && key % 256 == BACKSPACE
  }

  lemma {:induction false} DisplaySpaces(output: seq<Byte>, n: nat)
    ensures Display(output + Spaces(n)) == Display(output) + Spaces(n)
  {
    hide Display;
    if n == 0 {
      assert output + Spaces(0) == output;
      assert Display(output) + Spaces(0) == Display(output);
    } else {
      DisplaySpaces(output, n - 1);
      assert Spaces(n) == Spaces(n - 1) + [SPACE];
      assert output + Spaces(n) == output + Spaces(n - 1) + [SPACE];
      hide Spaces;
      DisplayNext(output + Spaces(n - 1), SPACE);
      assert Display(output) + Spaces(n - 1) + [SPACE] == Display(output) + Spaces(n);
    }
  }

  lemma DisplayNext(output: seq<Byte>, c: Byte)
    ensures Display(output + [c])
            == if c != BACKSPACE then Display(output) + [c]
               else if Display(output) == [] then [] else Display(output)[..|Display(output)| - 1]
  {
    assert (output + [c])[..|output|] == output;
  }

  /** Echo of one key on a screen that shows the line: it shows the new line, unless the key is disguised. */
  lemma EchoStep(line: seq<Byte>, output: seq<Byte>, key: int)
    requires Display(output) == line
    ensures Display(output + Echo(line, key)) == Edit(line, key) <==> !Disguised(key)
  {
    if key == 0 {
      assert output + [] == output;
    } else if key == BACKSPACE {
      if line == [] {
        assert output + [] == output;
      } else {
        DisplayNext(output, BACKSPACE);
      }
    } else if key == TAB {
      DisplaySpaces(output, TAB_SIZE);
    } else {
      DisplayNext(output, key % 256);
    }
  }

  /** After every key the screen shows the edited line. */
  ghost predicate AlwaysShown(keys: seq<int>) {
    Display(Echoed(keys)) == Typed(keys) && (keys == [] || AlwaysShown(keys[..|keys| - 1]))
  }

  /** That is so if and only if no key is a disguised backspace. */
  lemma {:induction false} ScreenShowsLine(keys: seq<int>)
    ensures AlwaysShown(keys) <==> forall i | 0 <= i < |keys| :: !Disguised(keys[i])
  {
    if keys != [] {
      var n := |keys| - 1;
      var init := keys[..n];
      ScreenShowsLine(init);
      if AlwaysShown(init) {
        EchoStep(Typed(init), Echoed(init), keys[n]);
      }
      assert forall i | 0 <= i < n :: keys[i] == init[i];
    }
  }

  /** What the keyboard delivers: characters of the keymap, and the codes of keycodes.h for the keys without one. */
  predicate IsKeyCode(key: int) {
    0 <= key < 256 || 50000 <= key <= 50026
  }

  /** So no key there is disguises itself, and the screen never differs from the line. */
  lemma KeysAreShown(keys: seq<int>)
    requires forall i | 0 <= i < |keys| :: 0 <= keys[i] < 256 || 50000 <= keys[i] <= 50026
    ensures AlwaysShown(keys)
  {
    forall i | 0 <= i < |keys|
      ensures !Disguised(keys[i])
    {
      NoDisguise(keys[i]);
    }
    hide Disguised, IsKeyCode;
    ScreenShowsLine(keys);
  }

  lemma NoDisguise(key: int)
    requires IsKeyCode(key)
    ensures !Disguised(key)
  {
    if key >= 50000 {
      assert key == 195 * 256 + (key - 49920);
    }
  }

  // ----- the shell -----------------------------------------------------------------------------------

  datatype Command = Blank | Help | Sleep(ms: Word) | Ticks | Exit | Launch(line: seq<Byte>)

  const HELP: seq<Byte> := [104, 101, 108, 112]
  const SLEEP: seq<Byte> := [115, 108, 101, 101, 112]
  const TICKS: seq<Byte> := [116, 105, 99, 107, 115]
  const EXIT: seq<Byte> := [101, 120, 105, 116]

  /** What the shell does with a line. */
  function CommandOf(text: seq<Byte>): Command {
    var line := Lower(Trimmed(text));
    if line == [] then Blank
    else if line == HELP then Help
    else if SLEEP + [SPACE] <= line then Sleep(Parsed(Trimmed(line[6..])))
    else if line == TICKS then Ticks
    else if line == EXIT then Exit
    else Launch(line)
  }

  /** A string literal of the program. */
  method NewLiteral(s: seq<Byte>) returns (a: array<Byte>)
    requires IsText(s)
    ensures fresh(a) && HoldsText(a[..], 0) && TextAt(a[..], 0) == s
  {
    a := new Byte[|s| + 1](i requires 0 <= i <= |s| => if i < |s| then s[i] else 0);
    assert a[..][0..|s|] == s;
    TextIs(a[..], 0, s);
  }

  /** strcmp(literal, line) == 0. */
  method IsLiteral(s: seq<Byte>, buf: array<Byte>, line: nat) returns (same: bool)
    requires IsText(s) && HoldsText(buf[..], line)
    ensures same <==> TextAt(buf[..], line) == s
  {
    var literal := NewLiteral(s);
    var r := Strcmp(literal, 0, buf, line);
    CompareZero(s, TextAt(buf[..], line));
    same := r == 0;
  }

  /** One turn of the shell's loop, from the line in the buffer to the decision what to do. */
  method ReadCommand(buf: array<Byte>) returns (c: Command)
    requires HoldsText(buf[..], 0)
    modifies buf
    ensures c == CommandOf(old(TextAt(buf[..], 0)))
  {
    hide Trimmed, TextAt, HoldsText, Lower;
    var line := Trim(buf, 0);
    ToLower(buf, line);
    CharAt(buf[..], line, 0);
    if buf[line] == 0 {
      return Blank;
    }
    var help := IsLiteral(HELP, buf, line);
    if help {
      return Help;
    }
    var prefix := NewLiteral(SLEEP + [SPACE]);
    var isSleep := StartsWith(prefix, 0, buf, line);
    if isSleep {
      TextFrom(buf[..], line, 6);
      var argument := Trim(buf, line + 6);
      var ms := Atoi(buf, argument);
      return Sleep(ms);
    }
    var ticks := IsLiteral(TICKS, buf, line);
    if ticks {
      return Ticks;
    }
    var exit := IsLiteral(EXIT, buf, line);
    if exit {
      return Exit;
    }
    c := LaunchLine(buf, line);
  }

  method LaunchLine(buf: array<Byte>, line: nat) returns (c: Command)
    requires HoldsText(buf[..], line)
    ensures c == Launch(TextAt(buf[..], line))
  {
    var len := Strlen(buf, line);
    CharAt(buf[..], line, len);
    assert buf[line..line + len] == TextAt(buf[..], line) by {
      forall i | 0 <= i < len
        ensures buf[line + i] == TextAt(buf[..], line)[i]
      {
        CharAt(buf[..], line, i);
      }
    }
    c := Launch(buf[line..line + len]);
  }

  lemma {:induction false} TextFrom(mem: seq<Byte>, at: nat, n: nat)
    requires HoldsText(mem, at) && n <= |TextAt(mem, at)|
    ensures HoldsText(mem, at + n) && TextAt(mem, at + n) == TextAt(mem, at)[n..]
    decreases n
  {
    if n > 0 {
      TextFrom(mem, at + 1, n - 1);
    }
  }

  /** Any spacing, any letter case, at least one space and the decimal form of any 32-bit number: the shell sleeps for
      that number of milliseconds. */
  lemma SleepUnderstood(before: nat, word: seq<Byte>, between: nat, n: Word, after: nat)
    requires Lower(word) == [115, 108, 101, 101, 112] && between >= 1
    ensures CommandOf(Spaces(before) + word + Spaces(between) + IntText(n, 10, false) + Spaces(after)) == Sleep(n)
  {
    hide Digits, Parsed, Trimmed, Lower, Spaces, CommandOf;
    var number := IntText(n, 10, false);
    var r := word + Spaces(between) + number;
    DecimalForm(n);
    LowerAt(word, 0);
    assert r[0] == word[0] && r[|r| - 1] == number[|number| - 1];
    var text := Spaces(before) + word + Spaces(between) + number + Spaces(after);
    assert text == Spaces(before) + r + Spaces(after);
    TrimUnique(before, r, after);
    LowerParts(word, between, number);
    SleepLine(text, between, n);
  }

  lemma SleepLine(text: seq<Byte>, between: nat, n: Word)
    requires between >= 1 && Lower(Trimmed(text)) == SLEEP + Spaces(between) + IntText(n, 10, false)
    ensures CommandOf(text) == Sleep(n)
  {
    hide Digits, Parsed, Trimmed, Lower;
    var number := IntText(n, 10, false);
    var line := SLEEP + Spaces(between) + number;
    assert Spaces(between) == [SPACE] + Spaces(between - 1);
    assert line == SLEEP + [SPACE] + (Spaces(between - 1) + number);
    assert line[6..] == Spaces(between - 1) + number + Spaces(0);
    DecimalForm(n);
    TrimUnique(between - 1, number, 0);
    UnsignedRoundTrip(n, []);
    assert number + [] == number;
  }

  lemma LowerParts(word: seq<Byte>, n: nat, number: seq<Byte>)
    requires forall i | 0 <= i < |number| :: IsDecimal(number[i])
    ensures Lower(word + Spaces(n) + number) == Lower(word) + Spaces(n) + number
  {
  }

  /** The other words that the shell knows, between spaces and in any letter case: help, ticks, exit; spaces alone are a
      blank line. */
  lemma WordsUnderstood(before: nat, word: seq<Byte>, after: nat)
    requires word != []
    ensures var line := Spaces(before) + word + Spaces(after);
            && (Lower(word) == [104, 101, 108, 112] ==> CommandOf(line) == Help)
            && (Lower(word) == [116, 105, 99, 107, 115] ==> CommandOf(line) == Ticks)
            && (Lower(word) == [101, 120, 105, 116] ==> CommandOf(line) == Exit)
    ensures CommandOf(Spaces(before)) == Blank
  {
    OnlySpaces(before);
    if Lower(word) in [HELP, TICKS, EXIT] {
      LowerAt(word, 0);
      LowerAt(word, |word| - 1);
      TrimUnique(before, word, after);
    }
    hide Trimmed, Lower;
  }

  lemma OnlySpaces(n: nat)
    ensures Lower(Trimmed(Spaces(n))) == []
  {
    assert Spaces(n) + [] + Spaces(0) == Spaces(n);
    TrimUnique(n, [], 0);
  }

  /** Every other word is the name of a program, in lower case. */
  lemma OthersLaunched(before: nat, word: seq<Byte>, after: nat)
    requires word != [] && 32 !in word
    requires Lower(word) !in [[104, 101, 108, 112], [116, 105, 99, 107, 115], [101, 120, 105, 116]]
    ensures CommandOf(Spaces(before) + word + Spaces(after)) == Launch(Lower(word))
  {
    TrimUnique(before, word, after);
    var line := Lower(word);
    NoSpaceLowered(word);
    hide Trimmed, Lower;
    if SLEEP + [SPACE] <= line {
      PrefixAt(SLEEP + [SPACE], line, 5);
    }
  }

  lemma PrefixAt(prefix: seq<Byte>, s: seq<Byte>, i: nat)
    requires prefix <= s && i < |prefix|
    ensures i < |s| && s[i] == prefix[i]
  {
  }

  lemma NoSpaceLowered(word: seq<Byte>)
    requires 32 !in word
    ensures forall i | 0 <= i < |word| :: Lower(word)[i] != 32
  {
    forall i | 0 <= i < |word|
      ensures Lower(word)[i] != 32
    {
      assert word[i] in word;
      LowerAt(word, i);
    }
  }

  /** Without an argument the word is taken for the name of a program. */
  lemma SleepAloneIsLaunched(before: nat, word: seq<Byte>, after: nat)
    requires Lower(word) == [115, 108, 101, 101, 112]
    ensures CommandOf(Spaces(before) + word + Spaces(after)) == Launch([115, 108, 101, 101, 112])
  {
    LowerAt(word, 0);
    LowerAt(word, 4);
    TrimUnique(before, word, after);
  }
}
