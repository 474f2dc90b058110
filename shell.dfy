/**
 * tvsh's `command()`: split a NUL-terminated line into a fixed-size
 * `argv` of freshly allocated word buffers, and run nothing for a blank
 * line.  The child process is outside the model: the status `wait`
 * reports is a parameter.
 */
module Shell {
  import opened Lexer

  const MAX_CMD_SIZE := 4096
  /** Slots in `command()`'s local `argv`, the NULL terminator included. */
  const MAX_ARG_COUNT := 64
  /** Bytes in each word buffer, the NUL terminator included. */
  const MAX_ARG_SIZE := 64
  const EXIT_FAILURE := 1

  /** A C string: the buffer holds a NUL somewhere. */
  predicate IsCString(a: seq<char>) {
    '\0' in a
  }

  /** The characters of a C string, up to its first NUL. */
  function Line(a: seq<char>): (line: seq<char>)
    requires IsCString(a)
    ensures |line| < |a| && a[|line|] == '\0'
    ensures line == a[..|line|] && '\0' !in line
  {
    if a[0] == '\0' then []
    else
      assert '\0' in a[1..] by { var k :| 0 <= k < |a| && a[k] == '\0'; assert a[1..][k - 1] == a[k]; }
      var rest := Line(a[1..]);
      assert a[..1 + |rest|] == [a[0]] + a[1..][..|rest|];
      [a[0]] + rest
  }

  /** `cmd` holds the characters of `line` followed by a NUL. */
  predicate Scans(cmd: seq<char>, line: seq<char>) {
    && |line| < |cmd|
    && cmd[|line|] == '\0'
    && forall k :: 0 <= k < |line| ==> cmd[k] == line[k] && line[k] != '\0'
  }

  lemma ScansLine(cmd: seq<char>)
    requires IsCString(cmd)
    ensures Scans(cmd, Line(cmd))
  {
    var line := Line(cmd);
    forall k | 0 <= k < |line| ensures cmd[k] == line[k] && line[k] != '\0' {
      assert cmd[..|line|][k] == cmd[k];
    }
  }

  /** `Scans` pins the line down: it is the `Line` of the buffer. */
  lemma {:induction false} ScansIsLine(cmd: seq<char>, line: seq<char>)
    requires Scans(cmd, line)
    ensures IsCString(cmd) && line == Line(cmd)
    decreases |line|
  {
    assert cmd[|line|] == '\0';
    if line != [] {
      assert Scans(cmd[1..], line[1..]);
      ScansIsLine(cmd[1..], line[1..]);
      assert line == [line[0]] + line[1..];
    }
  }

  /** The words fit the fixed buffers: at most 63 words, of at most 63 characters each. */
  predicate Fits(ws: seq<seq<char>>) {
    |ws| < MAX_ARG_COUNT && forall k :: 0 <= k < |ws| ==> |ws[k]| < MAX_ARG_SIZE
  }

  /** `buf` is a MAX_ARG_SIZE word buffer holding the C string `w`. */
  ghost predicate HoldsWord(buf: array<char>, w: seq<char>)
    reads buf
  {
    buf.Length == MAX_ARG_SIZE && |w| < MAX_ARG_SIZE && buf[|w|] == '\0' && forall j :: 0 <= j < |w| ==> buf[j] == w[j]
  }

  /**
   * `argv` is what `execvp` receives for the words `ws`: slot k is a
   * separate MAX_ARG_SIZE buffer holding ws[k] followed by a NUL, and
   * slot |ws| is NULL.
   */
  ghost predicate Holds(argv: array<array?<char>>, ws: seq<seq<char>>)
    reads argv, set k | 0 <= k < argv.Length && argv[k] != null :: argv[k]
  {
    && argv.Length == MAX_ARG_COUNT
    && |ws| < argv.Length
    && argv[|ws|] == null
    && (forall k :: 0 <= k < |ws| ==> argv[k] != null && HoldsWord(argv[k], ws[k]))
    && (forall k, l :: 0 <= k < l < |ws| ==> argv[k] != argv[l])
  }

  /** `while (isspace(*cmd)) cmd++;`: step over whitespace; the NUL stops it. */
  method SkipSpaces(cmd: seq<char>, ghost line: seq<char>, p0: nat) returns (p: nat)
    requires Scans(cmd, line) && p0 <= |line|
    ensures p0 <= p <= |line| && (p == |line| || !IsSpace(line[p]))
    ensures WordsFrom(line, p) == WordsFrom(line, p0)
  {
    p := p0;
    while IsSpace(cmd[p])
      invariant p0 <= p <= |line|
      invariant WordsFrom(line, p) == WordsFrom(line, p0)
      decreases |line| - p
    {
      p := p + 1;
    }
  }

  /**
   * `argv[i] = malloc(MAX_ARG_SIZE)`, the copying loop over `j` and the NUL
   * stored after it: a new buffer holding the word that starts at p0.
   */
  method CopyWord(cmd: seq<char>, ghost line: seq<char>, p0: nat) returns (p: nat, buf: array<char>)
    requires Scans(cmd, line) && p0 <= |line|
    requires WordEnd(line, p0) - p0 < MAX_ARG_SIZE
    ensures fresh(buf)
    ensures p == WordEnd(line, p0)
    ensures HoldsWord(buf, line[p0..p])
  {
    buf := new char[MAX_ARG_SIZE];
    p := p0;
    var j := 0;
    while cmd[p] != '\0' && !IsSpace(cmd[p])
      invariant p0 <= p <= WordEnd(line, p0) && p == p0 + j
      invariant forall t :: 0 <= t < j ==> buf[t] == line[p0 + t]
      decreases |line| - p
    {
      buf[j] := cmd[p];
      p := p + 1;
      j := j + 1;
    }
    buf[j] := '\0';
    assert buf[..j] == line[p0..p];
  }

  /**
   * The splitting loop of `command()`, as written, over the characters
   * `line` that `cmd` holds before its NUL.  It checks no capacity, so the
   * caller must hand over a line whose words fit.
   */
  method Split(cmd: seq<char>, ghost line: seq<char>) returns (argv: array<array?<char>>, count: nat)
    requires Scans(cmd, line)
    requires Fits(WordsFrom(line, 0))
    ensures count == |WordsFrom(line, 0)|
    ensures Holds(argv, WordsFrom(line, 0))
    ensures fresh(argv) && forall k :: 0 <= k < count ==> fresh(argv[k])
  {
    ghost var ws := WordsFrom(line, 0);
    argv := new array?<char>[MAX_ARG_COUNT];
    var p := 0;
    var i := 0;
    while cmd[p] != '\0'
      invariant p <= |line| && i <= |ws|
      invariant WordsFrom(line, p) == ws[i..]
      invariant forall k :: 0 <= k < i ==> argv[k] != null && HoldsWord(argv[k], ws[k])
      invariant forall k, l :: 0 <= k < l < i ==> argv[k] != argv[l]
      invariant forall k :: 0 <= k < i ==> fresh(argv[k])
      decreases |line| - p
    {
      p := SkipSpaces(cmd, line, p);
      if cmd[p] == '\0' {
        break;
      }
      assert ws[i] == line[p..WordEnd(line, p)] && ws[i + 1..] == WordsFrom(line, WordEnd(line, p)) by {
        assert ws[i..][0] == ws[i] && ws[i..][1..] == ws[i + 1..];
      }
      var buf;
      p, buf := CopyWord(cmd, line, p);
      argv[i] := buf;
      i := i + 1;
    }
    assert p == |line| && i == |ws|;
    argv[i] := null;
    count := i;
  }

  /**
   * The splitter with the capacity checks `command()` lacks: a line whose
   * words do not fit is rejected before anything is allocated.
   */
  method SplitChecked(cmd: seq<char>) returns (ok: bool, argv: array<array?<char>>, count: nat)
    requires IsCString(cmd)
    ensures ok <==> Fits(Words(Line(cmd)))
    ensures ok ==> count == |Words(Line(cmd))| && Holds(argv, Words(Line(cmd)))
    ensures !ok ==> count == 0 && argv.Length == MAX_ARG_COUNT && argv[0] == null
    ensures fresh(argv) && forall k :: 0 <= k < count ==> fresh(argv[k])
  {
    if !Fits(Words(Line(cmd))) {
      ok, argv, count := false, new array?<char>[MAX_ARG_COUNT](_ => null), 0;
      return;
    }
    ok := true;
    ScansLine(cmd);
    WordsFromSuffix(Line(cmd), 0);
    assert Line(cmd)[0..] == Line(cmd);
    argv, count := Split(cmd, Line(cmd));
  }

  /**
   * `command()`: split the line; for a blank line return 0 without
   * forking; otherwise the child runs `argv` and the parent returns the
   * status `wait` reports.  A line whose words do not fit the buffers is
   * refused with EXIT_FAILURE instead of overrunning them.
   */
  method Command(cmd: seq<char>, waitStatus: int) returns (status: int, forked: bool, argv: array<array?<char>>, count: nat)
    requires IsCString(cmd)
    ensures forked <==> Fits(Words(Line(cmd))) && Words(Line(cmd)) != []
    ensures !Fits(Words(Line(cmd))) ==> status == EXIT_FAILURE
    ensures Fits(Words(Line(cmd))) && Words(Line(cmd)) == [] ==> status == 0
    ensures AllSpace(Line(cmd)) ==> !forked && status == 0
    ensures forked ==> status == waitStatus
    ensures Fits(Words(Line(cmd))) ==> count == |Words(Line(cmd))| && Holds(argv, Words(Line(cmd)))
    ensures argv.Length == MAX_ARG_COUNT && count < argv.Length
    ensures fresh(argv) && forall k :: 0 <= k < count ==> fresh(argv[k])
  {
    WordsEmptyIff(Line(cmd));
    var ok;
    ok, argv, count := SplitChecked(cmd);
    if !ok {
      return EXIT_FAILURE, false, argv, count;
    }
    if argv[0] == null {
      return 0, false, argv, count;
    }
    // The child execs argv[0] with argv; the parent waits for it.
    status, forked := waitStatus, true;
  }

  // ---------------------------------------------------------------------
  // Lines that `fgets` can deliver but that overrun `command()`'s buffers

  /** `n` copies of the word "a", each followed by a space. */
  function SpacedAs(n: nat): seq<char> {
    if n == 0 then [] else ['a', ' '] + SpacedAs(n - 1)
  }

  lemma {:induction false} SpacedAsChars(n: nat)
    ensures |SpacedAs(n)| == 2 * n
    ensures forall i :: 0 <= i < |SpacedAs(n)| ==> SpacedAs(n)[i] == (if i % 2 == 0 then 'a' else ' ')
  {
    if n > 0 {
      SpacedAsChars(n - 1);
    }
  }

  lemma WordThenSpace(w: seq<char>, c: char, rest: seq<char>)
    requires w != [] && NoSpace(w) && IsSpace(c)
    ensures Words(w + [c] + rest) == [w] + Words(rest)
  {
    assert w + [c] + rest == w + ([c] + rest);
    WordsWord(w, [c] + rest);
    WordsSkip([c], rest);
  }

  lemma {:induction false} SpacedAsWords(n: nat)
    ensures |Words(SpacedAs(n))| == n
  {
    if n > 0 {
      assert SpacedAs(n) == ['a'] + [' '] + SpacedAs(n - 1);
      WordThenSpace(['a'], ' ', SpacedAs(n - 1));
      SpacedAsWords(n - 1);
    }
  }

  /** A single 64-character word and its newline: the NUL lands one byte past argv[0]'s buffer. */
  lemma LongWordOverflows()
    ensures var line := seq(MAX_ARG_SIZE, _ => 'a') + "\n";
      |line| < MAX_CMD_SIZE && '\0' !in line && !Fits(Words(line))
    ensures Words(seq(MAX_ARG_SIZE, _ => 'a') + "\n") == [seq(MAX_ARG_SIZE, _ => 'a')]
  {
    var w := seq(MAX_ARG_SIZE, _ => 'a');
    assert NoSpace(w);
    WordsWord(w, "\n");
    assert "\n"[1..] == [];
    assert Words("\n") == [];
    assert Words(w + "\n") == [w] && [w][0] == w;
  }

  /** 64 one-letter words and a newline: the NULL lands one slot past `argv`. */
  lemma ManyWordsOverflow()
    ensures var line := SpacedAs(MAX_ARG_COUNT) + "\n";
      |line| < MAX_CMD_SIZE && '\0' !in line && !Fits(Words(line))
    ensures |Words(SpacedAs(MAX_ARG_COUNT) + "\n")| == MAX_ARG_COUNT
  {
    TrailingSpaceIgnored(SpacedAs(MAX_ARG_COUNT), '\n');
    SpacedAsWords(MAX_ARG_COUNT);
    SpacedAsChars(MAX_ARG_COUNT);
  }
}
