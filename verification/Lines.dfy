/** Newline-terminated lines of a byte string: the reference that segmenters are measured against. */
module Lines {
  import opened Prelude

  /** A line's only newline is its last byte. */
  ghost predicate IsLine(l: seq<byte>)
  {
    l != [] && l[|l| - 1] == NEWLINE && NEWLINE !in l[..|l| - 1]
  }

  /** lines followed by rest are b cut after each of its newlines. */
  ghost predicate IsSplit(b: seq<byte>, lines: seq<seq<byte>>, rest: seq<byte>)
  {
    && Flat(lines) + rest == b
    && (forall i :: 0 <= i < |lines| ==> IsLine(lines[i]))
    && NEWLINE !in rest
  }

  /** The index after the first newline. */
  function LineEnd(b: seq<byte>): (n: nat)
    requires NEWLINE in b
    ensures 0 < n <= |b| && IsLine(b[..n])
  {
    if b[0] == NEWLINE then 1 else LineEnd(b[1..]) + 1
  }

  function LinesOf(b: seq<byte>): seq<seq<byte>>
    decreases |b|
  {
    if NEWLINE in b then [b[..LineEnd(b)]] + LinesOf(b[LineEnd(b)..]) else []
  }

  function RestOf(b: seq<byte>): seq<byte>
    decreases |b|
  {
    if NEWLINE in b then RestOf(b[LineEnd(b)..]) else b
  }

  lemma LinesOfNone(b: seq<byte>)
    requires NEWLINE !in b
    ensures LinesOf(b) == [] && RestOf(b) == b
  {
  }

  lemma LinesOfCons(b: seq<byte>)
    requires NEWLINE in b
    ensures LinesOf(b) == [b[..LineEnd(b)]] + LinesOf(b[LineEnd(b)..]) && RestOf(b) == RestOf(b[LineEnd(b)..])
  {
  }

  lemma SplitCons(line: seq<byte>, more: seq<byte>, lines: seq<seq<byte>>, rest: seq<byte>)
    requires IsLine(line) && IsSplit(more, lines, rest)
    ensures IsSplit(line + more, [line] + lines, rest)
  {
    assert ([line] + lines)[1..] == lines;
    assert line + Flat(lines) + rest == line + more;
  }

  lemma {:induction false} LinesOfSplits(b: seq<byte>)
    ensures IsSplit(b, LinesOf(b), RestOf(b))
    decreases |b|
  {
    if NEWLINE in b {
      var line, more := b[..LineEnd(b)], b[LineEnd(b)..];
      LinesOfSplits(more);
      SplitCons(line, more, LinesOf(more), RestOf(more));
      assert b == line + more;
    }
  }

  /** A byte string can be cut after each of its newlines in one way only. */
  lemma {:induction false} SplitUnique(b: seq<byte>, lines: seq<seq<byte>>, rest: seq<byte>)
    requires IsSplit(b, lines, rest)
    ensures lines == LinesOf(b) && rest == RestOf(b)
    decreases |b|
  {
    if lines == [] {
      assert b == rest;
    } else {
      var l, more := lines[0], Flat(lines[1..]) + rest;
      assert b == l + more;
      assert b[|l| - 1] == NEWLINE;
      var n := LineEnd(b);
      LineEndIs(b, |l|);
      assert more == b[n..];
      SplitUnique(more, lines[1..], rest);
    }
  }

  lemma LineEndIs(b: seq<byte>, n: nat)
    requires 0 < n <= |b| && IsLine(b[..n])
    ensures NEWLINE in b && LineEnd(b) == n
  {
    assert b[n - 1] == b[..n][n - 1];
    var m := LineEnd(b);
    NewlineLast(b, n);
    NewlineLast(b, m);
  }

  lemma NewlineLast(b: seq<byte>, n: nat)
    requires 0 < n <= |b| && IsLine(b[..n])
    ensures b[n - 1] == NEWLINE
    ensures forall i :: 0 <= i < n - 1 ==> b[i] != NEWLINE
  {
    assert forall i :: 0 <= i < n - 1 ==> b[i] == b[..n][..n - 1][i];
  }

  /** One byte more: a newline completes the line that was waiting, any other byte waits with the rest. */
  lemma LinesSnoc(b: seq<byte>, x: byte)
    ensures LinesOf(b + [x]) == if x == NEWLINE then LinesOf(b) + [RestOf(b) + [x]] else LinesOf(b)
    ensures RestOf(b + [x]) == if x == NEWLINE then [] else RestOf(b) + [x]
  {
    hide LinesOf, RestOf;
    LinesOfSplits(b);
    var lines, line := LinesOf(b), RestOf(b) + [x];
    if x == NEWLINE {
      FlatSnoc(lines, line);
      assert line[..|line| - 1] == RestOf(b);
      SplitUnique(b + [x], lines + [line], []);
    } else {
      SplitUnique(b + [x], lines, line);
    }
  }

  /** Every newline ends one line, wherever a string is cut in two. */
  lemma {:induction false} LineCount(a: seq<byte>, b: seq<byte>)
    ensures |LinesOf(a + b)| == |LinesOf(a)| + |LinesOf(b)|
    decreases |b|
  {
    hide RestOf, LinesOf;
    if b == [] {
      assert a + b == a;
      LinesOfNone(b);
    } else {
      var n := |b| - 1;
      LineCount(a, b[..n]);
      LinesSnoc(a + b[..n], b[n]);
      LinesSnoc(b[..n], b[n]);
      assert a + b == a + b[..n] + [b[n]] && b == b[..n] + [b[n]];
    }
  }

  /** A newline is the last byte, though perhaps not the only one. */
  ghost predicate EndsLine(r: seq<byte>) { r != [] && r[|r| - 1] == NEWLINE }

  lemma OneLine(r: seq<byte>)
    requires EndsLine(r)
    ensures |LinesOf(r)| >= 1 && (|LinesOf(r)| == 1 ==> IsLine(r))
  {
    hide LinesOf, RestOf, LineEnd;
    var n := |r| - 1;
    LinesSnoc(r[..n], NEWLINE);
    assert r == r[..n] + [NEWLINE];
    if NEWLINE in r[..n] { LinesOfCons(r[..n]); }
  }

  /** A string made of strings that end lines has at least as many lines, and has more unless each of
      them is one line. */
  lemma {:induction false} AtLeastOneEach(q: seq<seq<byte>>)
    requires forall i :: 0 <= i < |q| ==> EndsLine(q[i])
    ensures |q| <= |LinesOf(Flat(q))|
    ensures |q| == |LinesOf(Flat(q))| ==> forall i :: 0 <= i < |q| ==> IsLine(q[i])
  {
    hide LinesOf, IsLine, EndsLine;
    if q == [] {
    } else {
      AtLeastOneEach(q[1..]);
      OneLine(q[0]);
      LineCount(q[0], Flat(q[1..]));
      assert forall i :: 1 <= i < |q| ==> q[i] == q[1..][i - 1];
    }
  }

  /** The only way to make a string of lines out of as many strings that end lines. */
  lemma SameCountSameLines(q: seq<seq<byte>>, lines: seq<seq<byte>>)
    requires forall i :: 0 <= i < |q| ==> EndsLine(q[i])
    requires forall i :: 0 <= i < |lines| ==> IsLine(lines[i])
    requires Flat(q) == Flat(lines) && |q| == |lines|
    ensures q == lines
  {
    hide LinesOf, RestOf, IsLine, EndsLine, Flat;
    assert Flat(lines) + [] == Flat(lines);
    SplitUnique(Flat(lines), lines, []);
    AtLeastOneEach(q);
    SplitUnique(Flat(lines), q, []);
  }
}
