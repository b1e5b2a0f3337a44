/**
 * Files as text: the lines an `fgets` loop reads from a file's contents, and
 * the contents a loop of `fwrite($line . "\n")` produces.
 */
module TextLines {
  import opened PhpStrings

  /** The characters `rtrim($line, "\r\n")` strips. */
  const LineEnd: set<char> := {'\r', '\n'}

  /** `rtrim($line, "\r\n")`. */
  function Chomp(raw: string): string
  {
    TrimRight(raw, LineEnd)
  }

  /**
   * The lines `fgets` returns for the rest `s` of a file, each without its
   * LF, when `cur` has been read since the last LF. A last line without an
   * LF is still returned; nothing is returned after a final LF.
   */
  function Scan(cur: string, s: string): seq<string>
    decreases |s|
  {
    if s == [] then (if cur == [] then [] else [cur])
    else if s[0] == '\n' then [cur] + Scan([], s[1..])
    else Scan(cur + [s[0]], s[1..])
  }

  /** The lines successive `fgets` calls return for a file's contents; an empty file has none. */
  function Lines(s: string): seq<string>
  {
    Scan([], s)
  }

  /** Scanning never puts an LF into a line. */
  lemma {:induction false} ScanSingle(cur: string, s: string)
    requires '\n' !in cur
    ensures forall i :: 0 <= i < |Scan(cur, s)| ==> '\n' !in Scan(cur, s)[i]
    decreases |s|
  {
    if s != [] {
      if s[0] == '\n' {
        ScanSingle([], s[1..]);
      } else {
        ScanSingle(cur + [s[0]], s[1..]);
      }
    }
  }

  /** No line `fgets` returns, once chomped of its LF, contains another LF. */
  lemma LinesSingle(s: string)
    ensures forall i :: 0 <= i < |Lines(s)| ==> '\n' !in Lines(s)[i]
  {
    ScanSingle([], s);
  }

  /** The contents written by emitting every line followed by LF. */
  function Unlines(ls: seq<string>): (s: string)
    ensures s == [] || s[|s| - 1] == '\n'
  {
    if ls == [] then [] else Unlines(ls[..|ls| - 1]) + ls[|ls| - 1] + "\n"
  }

  /** Scanning text that ends in LF, then more text, scans the two one after the other. */
  lemma {:induction false} ScanConcat(cur: string, a: string, b: string)
    requires a != [] && a[|a| - 1] == '\n'
    ensures Scan(cur, a + b) == Scan(cur, a) + Scan([], b)
    decreases |a|
  {
    assert (a + b)[0] == a[0] && (a + b)[1..] == a[1..] + b;
    if a[0] == '\n' {
      if |a| == 1 {
        assert a[1..] + b == b;
      } else {
        ScanConcat([], a[1..], b);
      }
    } else {
      ScanConcat(cur + [a[0]], a[1..], b);
    }
  }

  /** Reading a file in two parts, the first ending in LF, reads the parts one after the other. */
  lemma LinesConcat(a: string, b: string)
    requires a == [] || a[|a| - 1] == '\n'
    ensures Lines(a + b) == Lines(a) + Lines(b)
  {
    if a == [] {
      assert a + b == b;
    } else {
      ScanConcat([], a, b);
    }
  }

  /** An LF-free line followed by LF is read back as one line. */
  lemma {:induction false} ScanLine(cur: string, line: string)
    requires '\n' !in line
    ensures Scan(cur, line + "\n") == [cur + line]
    decreases |line|
  {
    if line == [] {
      assert line + "\n" == "\n" && cur + line == cur;
    } else {
      assert (line + "\n")[1..] == line[1..] + "\n";
      assert cur + line == (cur + [line[0]]) + line[1..];
      ScanLine(cur + [line[0]], line[1..]);
    }
  }

  /** Lines that carry no LF of their own are read back exactly as written. */
  lemma {:induction false} LinesUnlines(ls: seq<string>)
    requires forall i :: 0 <= i < |ls| ==> '\n' !in ls[i]
    ensures Lines(Unlines(ls)) == ls
  {
    if ls != [] {
      var init, last := ls[..|ls| - 1], ls[|ls| - 1];
      LinesUnlines(init);
      assert Unlines(ls) == Unlines(init) + (last + "\n");
      LinesConcat(Unlines(init), last + "\n");
      ScanLine([], last);
      assert [] + last == last;
      assert init + [last] == ls;
    }
  }
}
