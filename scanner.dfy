/**
 * The line reader under the cursor: Go's bufio.Scanner with its default
 * ScanLines split function, applied to the bytes of the file from the cursor
 * on, and the cursor arithmetic ProcessFileChange does with each line.
 */
module Scanner {

  /** The index of the first line terminator in `d`, |d| when there is none. */
  function LineEnd(d: string): (i: nat)
    ensures i <= |d|
    ensures i < |d| ==> d[i] == '\n'
    decreases |d|
  {
    if d == [] || d[0] == '\n' then 0 else 1 + LineEnd(d[1..])
  }

  /** No terminator comes before LineEnd(d). */
  lemma {:induction false} LineEndFirst(d: string)
    ensures forall j :: 0 <= j < LineEnd(d) ==> d[j] != '\n'
    decreases |d|
  {
    if d != [] && d[0] != '\n' {
      LineEndFirst(d[1..]);
      forall j | 0 <= j < LineEnd(d)
        ensures d[j] != '\n'
      {
        if j > 0 {
          assert d[j] == d[1..][j - 1];
        }
      }
    }
  }

  /** A terminator in the first part of `d1 + d2` is found there. */
  lemma {:induction false} LineEndAppend(d1: string, d2: string)
    requires LineEnd(d1) < |d1|
    ensures LineEnd(d1 + d2) == LineEnd(d1)
    decreases |d1|
  {
    if d1[0] != '\n' {
      assert (d1 + d2)[1..] == d1[1..] + d2;
      LineEndAppend(d1[1..], d2);
    }
  }

  /** bufio's dropCR: a line loses one trailing carriage return, and nothing else. */
  function DropCR(s: string): (r: string)
    ensures r <= s && |s| <= |r| + 1
    ensures r == s <==> (s == [] || s[|s| - 1] != '\r')
  {
    if s != [] && s[|s| - 1] == '\r' then s[..|s| - 1] else s
  }

  /**
   * One Scan of bufio.Scanner on the unread data `d`: the line without its
   * terminator (and without a carriage return before it), and the number of
   * bytes consumed. At the end of the data a last line without a terminator
   * is returned too.
   */
  function ScanToken(d: string): (t: (string, nat))
    requires d != []
    ensures 0 < t.1 <= |d|
    ensures t.0 <= d && |t.0| < t.1 + 1
  {
    var i := LineEnd(d);
    if i < |d| then (DropCR(d[..i]), i + 1) else (DropCR(d), |d|)
  }

  /** Every line the scanner returns for `d`, in order. */
  function ScanLines(d: string): (lines: seq<string>)
    ensures lines == [] <==> d == []
    decreases |d|
  {
    if d == [] then [] else
      var t := ScanToken(d);
      [t.0] + ScanLines(d[t.1..])
  }

  /** The sum of len(line) + len("\n") over `lines`: how far the cursor moves past them. */
  function Advance(lines: seq<string>): (n: nat)
    ensures |lines| <= n
    decreases |lines|
  {
    if lines == [] then 0 else |lines[0]| + 1 + Advance(lines[1..])
  }

  /**
   * Where reading starts: at the cursor, unless the file is now shorter than
   * the cursor (rotated or truncated), in which case at its beginning. Either
   * way the start lies within the file.
   */
  function StartOffset(size: nat, offset: nat): (start: nat)
    ensures start <= size
    ensures offset <= size ==> start == offset
    ensures size < offset ==> start == 0
  {
    if size < offset then 0 else offset
  }

  /** `d` is empty or ends with a line terminator: it holds complete lines only. */
  predicate Terminated(d: string) {
    d == [] || d[|d| - 1] == '\n'
  }

  /** `d` holds no carriage return. */
  predicate NoCR(d: string) {
    forall j :: 0 <= j < |d| ==> d[j] != '\r'
  }

  /** `d` holds no line terminator. */
  predicate NoLF(d: string) {
    forall j :: 0 <= j < |d| ==> d[j] != '\n'
  }

  /** Lines written out, each followed by its terminator. */
  function Unlines(lines: seq<string>): string
    decreases |lines|
  {
    if lines == [] then [] else lines[0] + "\n" + Unlines(lines[1..])
  }

  /**
   * Reading complete lines and then what follows them returns the same lines
   * as reading everything at once.
   */
  lemma {:induction false} ScanLinesAppend(d1: string, d2: string)
    requires Terminated(d1)
    ensures ScanLines(d1 + d2) == ScanLines(d1) + ScanLines(d2)
    decreases |d1|
  {
    if d1 == [] {
      assert d1 + d2 == d2;
    } else {
      var i := LineEnd(d1);
      assert i < |d1| by {
        LineEndFirst(d1);
      }
      var rest := d1[i + 1..];
      assert Terminated(rest) by {
        assert rest == [] || rest[|rest| - 1] == d1[|d1| - 1];
      }
      LineEndAppend(d1, d2);
      assert (d1 + d2)[..i] == d1[..i];
      assert (d1 + d2)[i + 1..] == rest + d2;
      var line := ScanToken(d1).0;
      assert ScanToken(d1 + d2) == ScanToken(d1);
      assert ScanLines(d1 + d2) == [line] + ScanLines(rest + d2);
      assert ScanLines(d1) == [line] + ScanLines(rest);
      ScanLinesAppend(rest, d2);
      SeqConsAssoc(line, ScanLines(rest), ScanLines(d2));
    }
  }

  lemma SeqConsAssoc<T>(x: T, a: seq<T>, b: seq<T>)
    ensures [x] + (a + b) == ([x] + a) + b
  {
  }

  /**
   * The cursor never moves past one byte beyond the data, and lags behind the
   * data by at most one byte per line (a dropped carriage return).
   */
  lemma {:induction false} AdvanceBounds(d: string)
    ensures |d| <= Advance(ScanLines(d)) + |ScanLines(d)|
    ensures Advance(ScanLines(d)) <= |d| + 1
    ensures Terminated(d) ==> Advance(ScanLines(d)) <= |d|
    decreases |d|
  {
    if d != [] {
      var t := ScanToken(d);
      AdvanceBounds(d[t.1..]);
      if LineEnd(d) == |d| {
        assert d[t.1..] == [];
        if d[|d| - 1] == '\n' {
          LineEndFirst(d);
        }
      }
    }
  }

  /**
   * Without carriage returns the cursor moves exactly over the data, plus one
   * byte when the data ends with a line that has no terminator yet.
   */
  lemma {:induction false} AdvanceExact(d: string)
    requires NoCR(d)
    ensures Advance(ScanLines(d)) == |d| + (if Terminated(d) then 0 else 1)
    decreases |d|
  {
    if d != [] {
      var i := LineEnd(d);
      var t := ScanToken(d);
      NoCRSlices(d, i);
      if i < |d| {
        var rest := d[i + 1..];
        assert t == (d[..i], i + 1);
        assert Terminated(rest) <==> Terminated(d);
        AdvanceExact(rest);
      } else {
        assert t == (d, |d|);
        assert d[t.1..] == [];
        assert !Terminated(d) by {
          LineEndFirst(d);
        }
      }
    }
  }

  /** The pieces of data without carriage returns have none either. */
  lemma NoCRSlices(d: string, i: nat)
    requires NoCR(d) && i <= |d|
    ensures DropCR(d[..i]) == d[..i] && DropCR(d) == d
    ensures i < |d| ==> NoCR(d[i + 1..])
  {
    if i > 0 {
      assert d[..i][i - 1] == d[i - 1];
    }
    if i < |d| {
      var rest := d[i + 1..];
      forall j | 0 <= j < |rest|
        ensures rest[j] != '\r'
      {
        assert rest[j] == d[i + 1 + j];
      }
    }
  }

  /**
   * Lines appended in two bursts are each read exactly once: after the first
   * burst `d1` of complete lines the cursor sits at the end of the file, the
   * second read sees exactly the second burst `d2`, and both reads together
   * return the lines one read of `d1 + d2` would.
   */
  lemma AppendedOnce(prev: string, d1: string, d2: string, f1: string, f2: string)
    requires f1 == prev + d1 && f2 == f1 + d2
    requires Terminated(d1) && NoCR(d1)
    ensures StartOffset(|f1|, |prev|) + Advance(ScanLines(f1[|prev|..])) == |f1|
    ensures StartOffset(|f2|, |f1|) == |f1| && f2[|f1|..] == d2
    ensures ScanLines(f1[|prev|..]) + ScanLines(d2) == ScanLines(d1 + d2)
  {
    assert f1[|prev|..] == d1;
    AdvanceExact(d1);
    assert f2[|f1|..] == d2;
    ScanLinesAppend(d1, d2);
  }

  /**
   * One scan stops at the first line terminator, or takes all the data when
   * there is none; the line is what comes before the terminator, without one
   * trailing carriage return, and holds no terminator itself.
   */
  lemma ScanTokenLine(d: string)
    requires d != []
    ensures var t := ScanToken(d);
      NoLF(t.0) && NoLF(d[..t.1 - 1]) &&
      (d[t.1 - 1] == '\n' ==> t.0 == DropCR(d[..t.1 - 1])) &&
      (d[t.1 - 1] != '\n' ==> t.1 == |d| && t.0 == DropCR(d))
  {
    LineEndFirst(d);
    var i := LineEnd(d);
    if i == |d| {
      assert d[..i] == d;
    }
  }

  /** A line without terminator followed by a terminator ends right there. */
  lemma {:induction false} LineEndAt(l: string, t: string)
    requires NoLF(l) && t != [] && t[0] == '\n'
    ensures LineEnd(l + t) == |l|
    decreases |l|
  {
    if l == [] {
      assert l + t == t;
    } else {
      assert (l + t)[1..] == l[1..] + t;
      LineEndAt(l[1..], t);
    }
  }

  /** No scanned line holds a terminator. */
  lemma {:induction false} ScanLinesNoLF(d: string)
    ensures forall i :: 0 <= i < |ScanLines(d)| ==> NoLF(ScanLines(d)[i])
    decreases |d|
  {
    if d != [] {
      var t := ScanToken(d);
      var rest := d[t.1..];
      ScanTokenLine(d);
      ScanLinesNoLF(rest);
      var lines := ScanLines(d);
      assert lines == [t.0] + ScanLines(rest);
      forall i | 0 <= i < |lines|
        ensures NoLF(lines[i])
      {
        if i > 0 {
          assert lines[i] == ScanLines(rest)[i - 1];
        }
      }
    }
  }

  /**
   * Complete lines without carriage returns are given back exactly: writing
   * the scanned lines out, each with its terminator, reproduces the data.
   */
  lemma {:induction false} ScanLinesUnlines(d: string)
    requires Terminated(d) && NoCR(d)
    ensures Unlines(ScanLines(d)) == d
    decreases |d|
  {
    if d != [] {
      TerminatedHead(d);
      var e := LineEnd(d);
      SplitAround(d, e);
      ScanLinesUnlines(d[e + 1..]);
    }
  }

  /** Complete data holds a terminator. */
  lemma LineEndTerminated(d: string)
    requires d != [] && Terminated(d)
    ensures LineEnd(d) < |d|
  {
    LineEndFirst(d);
    assert d[|d| - 1] == '\n';
  }

  /**
   * Complete data without carriage returns starts with a whole line: one scan
   * returns the bytes before the first terminator and consumes the terminator
   * too, and what remains is complete and free of carriage returns as well.
   */
  lemma TerminatedHead(d: string)
    requires d != [] && Terminated(d) && NoCR(d)
    ensures LineEnd(d) < |d|
    ensures ScanToken(d) == (d[..LineEnd(d)], LineEnd(d) + 1)
    ensures Terminated(d[LineEnd(d) + 1..]) && NoCR(d[LineEnd(d) + 1..])
  {
    LineEndTerminated(d);
    var e := LineEnd(d);
    NoCRSlices(d, e);
    var rest := d[e + 1..];
    assert rest == [] || rest[|rest| - 1] == d[|d| - 1];
  }

  /** Data is what comes before position `e`, the element there, and what comes after. */
  lemma SplitAround(d: string, e: nat)
    requires e < |d|
    ensures d == d[..e] + [d[e]] + d[e + 1..]
  {
    assert d[..e + 1] == d[..e] + [d[e]];
  }

  /**
   * Lines without terminators or carriage returns, written out each with its
   * terminator, are scanned back as exactly those lines.
   */
  lemma {:induction false} UnlinesScanLines(lines: seq<string>)
    requires forall i :: 0 <= i < |lines| ==> NoLF(lines[i]) && NoCR(lines[i])
    ensures ScanLines(Unlines(lines)) == lines
    decreases |lines|
  {
    if lines != [] {
      var l := lines[0];
      var rest := Unlines(lines[1..]);
      var d := Unlines(lines);
      assert d == l + ("\n" + rest);
      LineEndAt(l, "\n" + rest);
      assert d[..|l|] == l;
      NoCRSlices(l, |l|);
      assert d[|l| + 1..] == rest;
      assert ScanToken(d) == (l, |l| + 1);
      UnlinesScanLines(lines[1..]);
      assert lines == [l] + lines[1..];
    }
  }

  /** The cursor moves over exactly the lines as written out with their terminators. */
  lemma {:induction false} AdvanceUnlines(lines: seq<string>)
    ensures Advance(lines) == |Unlines(lines)|
    decreases |lines|
  {
    if lines != [] {
      AdvanceUnlines(lines[1..]);
    }
  }

  /**
   * A line `u` still being written is read anyway, and the cursor then
   * overshoots the file by one byte. Two things follow. If the file is read
   * again unchanged, it now looks shorter than the cursor, so the whole file
   * is read again from the start. If the line is completed by `r` and its
   * terminator, the next read starts one byte into `r`: the first byte of the
   * completion is skipped and the rest of it is handled as a line of its own.
   */
  lemma UnterminatedLineSplit(prev: string, u: string, r: string)
    requires u != [] && NoLF(u) && NoCR(u) && r != []
    ensures ScanLines(u) == [u]
    ensures var f1 := prev + u;
      var o1 := |prev| + Advance(ScanLines(u));
      StartOffset(|f1|, |prev|) == |prev| && f1[|prev|..] == u &&
      o1 == |f1| + 1 && StartOffset(|f1|, o1) == 0 &&
      var f2 := f1 + r + "\n";
      StartOffset(|f2|, o1) == o1 && f2[o1..] == r[1..] + "\n" &&
      (NoLF(r) && NoCR(r) ==> ScanLines(f2[o1..]) == [r[1..]])
  {
    assert Unlines([u]) == u + "\n";
    assert ScanToken(u) == (u, |u|) by {
      LineEndFirst(u);
      LineEndAt(u, "\n");
      assert (u + "\n")[..|u|] == u;
      assert LineEnd(u) == |u|;
      NoCRSlices(u, |u|);
    }
    assert u[|u|..] == [];
    var f1 := prev + u;
    assert f1[|prev|..] == u;
    var f2 := f1 + r + "\n";
    var o1 := |f1| + 1;
    assert f2[o1..] == r[1..] + "\n";
    if NoLF(r) && NoCR(r) {
      var line := r[1..];
      assert NoLF(line) && NoCR(line) by {
        forall j | 0 <= j < |line| ensures line[j] == r[j + 1] { }
      }
      assert Unlines([line]) == line + "\n";
      UnlinesScanLines([line]);
    }
  }

  /**
   * With `\r\n` terminators the cursor falls behind: after two such lines it
   * sits on the second line's carriage return, so the next read of the same
   * file handles the last two bytes again, as an empty line.
   */
  lemma CRLFReread()
    ensures var f := "a\r\nb\r\n";
      var o := Advance(ScanLines(f));
      o == 4 && StartOffset(|f|, o) == 4 && ScanLines(f[o..]) == [""]
  {
    var f := "a\r\nb\r\n";
    assert f == "a\r" + "\nb\r\n";
    LineEndAt("a\r", "\nb\r\n");
    assert f[..2] == "a\r" && DropCR("a\r") == "a";
    assert ScanToken(f) == ("a", 3);
    var g := f[3..];
    assert g == "b\r" + "\n";
    LineEndAt("b\r", "\n");
    assert g[..2] == "b\r" && DropCR("b\r") == "b";
    assert ScanToken(g) == ("b", 3);
    assert g[3..] == [];
    assert ScanLines(g) == ["b"];
    assert ScanLines(f) == ["a", "b"];
    assert ["a", "b"][1..] == ["b"] && ["b"][1..] == [];
    assert Advance(["a", "b"]) == 4;
    var t := f[4..];
    assert t == "\r" + "\n";
    LineEndAt("\r", "\n");
    assert t[..1] == "\r" && DropCR("\r") == "";
    assert ScanToken(t) == ("", 2);
    assert t[2..] == [];
    assert ScanLines(t) == [""];
  }
}
