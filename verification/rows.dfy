/** Result rows: a buffered data line may hold several rows separated by '|'.
    On a success status the accumulator replaces such a line, in place, by
    its pieces (src/CNetwork.cpp:176-197). */
module Rows {
  import opened Text

  const Delimiter: char := '|'

  /** The pieces of `line` between its '|' characters, left to right, empty
      pieces included. */
  function Split(line: string): (pieces: seq<string>)
    ensures |pieces| > 0
  {
    if line == [] then [[]]
    else
      var rest := Split(line[1..]);
      if line[0] == Delimiter then [[]] + rest
      else [[line[0]] + rest[0]] + rest[1..]
  }

  /** One piece more than there are '|'. */
  lemma {:induction false} SplitLength(line: string)
    ensures |Split(line)| == CountChar(line, Delimiter) + 1
    decreases |line|
  {
    if line != [] {
      SplitLength(line[1..]);
    }
  }

  /** No piece holds a '|'. */
  lemma {:induction false} SplitClean(line: string)
    ensures forall i :: 0 <= i < |Split(line)| ==> Delimiter !in Split(line)[i]
    decreases |line|
  {
    if line != [] {
      SplitClean(line[1..]);
      var rest := Split(line[1..]);
      if line[0] != Delimiter {
        assert Delimiter !in [line[0]] + rest[0];
      }
    }
  }

  /** A line without '|' is a single piece. */
  lemma {:induction false} SplitNone(line: string)
    requires Delimiter !in line
    ensures Split(line) == [line]
    decreases |line|
  {
    if line != [] {
      assert line == [line[0]] + line[1..];
      SplitNone(line[1..]);
      assert [line[0]] + line[1..] == line;
    }
  }

  /** Splitting text glued with a '|' splits both sides. */
  lemma {:induction false} SplitConcat(w: string, x: string, y: string)
    requires w == x + [Delimiter] + y
    ensures Split(w) == Split(x) + Split(y)
    decreases |x|
  {
    if x == [] {
      assert w[1..] == y;
    } else {
      var w' := w[1..];
      var x' := x[1..];
      assert w' == x' + [Delimiter] + y;
      SplitConcat(w', x', y);
    }
  }

  /** `Split` unfolded at the first '|' of a line. */
  lemma SplitUnfold(line: string, p: nat)
    requires p < |line| && line[p] == Delimiter
    requires forall j :: 0 <= j < p ==> line[j] != Delimiter
    ensures Split(line) == [line[..p]] + Split(line[p + 1..])
  {
    var x := line[..p];
    assert forall j :: 0 <= j < |x| ==> x[j] == line[j];
    assert line == x + [Delimiter] + line[p + 1..];
    SplitConcat(line, x, line[p + 1..]);
    SplitNone(x);
  }

  /** Pieces glued back together with '|'. */
  function Join(pieces: seq<string>): string
    requires |pieces| > 0
  {
    if |pieces| == 1 then pieces[0] else pieces[0] + [Delimiter] + Join(pieces[1..])
  }

  /** Splitting loses nothing: joining the pieces rebuilds the line. */
  lemma {:induction false} JoinSplit(line: string)
    ensures Join(Split(line)) == line
    decreases |line|
  {
    if line != [] {
      var rest := Split(line[1..]);
      JoinSplit(line[1..]);
      if line[0] == Delimiter {
        assert Split(line) == [[]] + rest;
      } else if |rest| > 1 {
        assert Join(rest) == rest[0] + [Delimiter] + Join(rest[1..]);
        assert Split(line)[1..] == rest[1..];
      }
      assert line == [line[0]] + line[1..];
    }
  }

  /** Joining '|'-free pieces and splitting again gives the same pieces. */
  lemma {:induction false} SplitJoin(pieces: seq<string>)
    requires |pieces| > 0
    requires forall i :: 0 <= i < |pieces| ==> Delimiter !in pieces[i]
    ensures Split(Join(pieces)) == pieces
    decreases |pieces|
  {
    var line := Join(pieces);
    if |pieces| == 1 {
      SplitNone(line);
    } else {
      var p := |pieces[0]|;
      var rest := Join(pieces[1..]);
      assert line == pieces[0] + [Delimiter] + rest;
      SplitJoin(pieces[1..]);
      SplitConcat(line, pieces[0], rest);
      SplitNone(pieces[0]);
    }
  }

  /** The first piece runs up to the first '|'. */
  lemma SplitFirstPiece(s: string, b: nat)
    requires b <= |s| && (b == |s| || s[b] == Delimiter)
    requires forall j :: 0 <= j < b ==> s[j] != Delimiter
    ensures Split(s)[0] == s[..b]
  {
    if b == |s| {
      SplitNone(s);
    } else {
      SplitUnfold(s, b);
    }
  }

  /** The `k`-th piece of a line is the text between its `k`-th '|' (or the
      start) and the next '|' (or the end). */
  lemma SplitPiece(s: string, a: nat, b: nat)
    requires a <= b <= |s|
    requires a == 0 || s[a - 1] == Delimiter
    requires b == |s| || s[b] == Delimiter
    requires forall j :: a <= j < b ==> s[j] != Delimiter
    ensures CountChar(s[..a], Delimiter) < |Split(s)|
    ensures Split(s)[CountChar(s[..a], Delimiter)] == s[a..b]
  {
    if a == 0 {
      assert CountChar(s[..0], Delimiter) == 0;
      assert s[a..b] == s[..b];
      SplitFirstPiece(s, b);
    } else {
      var x := s[..a - 1];
      var y := s[a..];
      assert s == x + [Delimiter] + y;
      SplitConcat(s, x, y);
      CountThroughDelimiter(s, a, x);
      FirstPieceOfSuffix(s, a, b);
    }
  }

  /** The '|' before position `a` close the pieces of `s[..a - 1]`. */
  lemma CountThroughDelimiter(s: string, a: nat, x: string)
    requires 0 < a <= |s| && s[a - 1] == Delimiter && x == s[..a - 1]
    ensures CountChar(s[..a], Delimiter) == |Split(x)|
  {
    assert s[..a] == x + [Delimiter];
    CountCharAppend(x, [Delimiter], Delimiter);
    SplitLength(x);
  }

  /** The first piece of a suffix runs up to its first '|'. */
  lemma FirstPieceOfSuffix(s: string, a: nat, b: nat)
    requires a <= b <= |s|
    requires b == |s| || s[b] == Delimiter
    requires forall j :: a <= j < b ==> s[j] != Delimiter
    ensures Split(s[a..])[0] == s[a..b]
  {
    var y := s[a..];
    assert forall j :: 0 <= j < b - a ==> y[j] == s[a + j];
    SplitFirstPiece(y, b - a);
    assert y[..b - a] == s[a..b];
  }




  function Reverse<T>(s: seq<T>): (r: seq<T>)
    ensures |r| == |s|
    ensures forall i :: 0 <= i < |s| ==> r[i] == s[|s| - 1 - i]
  {
    if s == [] then [] else [s[|s| - 1]] + Reverse(s[..|s| - 1])
  }

  /** Rows contributed by one buffered line as the source computes them: a
      line without '|' stays, a line with '|' is erased and each piece is
      inserted before the previously inserted one (src/CNetwork.cpp:194-196),
      which leaves the pieces in reverse order. */
  function RowsAsWritten(line: string): (rows: seq<string>)
    ensures |rows| == CountChar(line, Delimiter) + 1
  {
    if Delimiter !in line then
      CountCharAbsent(line, Delimiter);
      [line]
    else
      SplitLength(line);
      Reverse(Split(line))
  }

  /** Rows contributed by one buffered line in the intended order. */
  function RowsOf(line: string): seq<string> {
    Split(line)
  }

  /** Number of rows a buffer expands to: one per line plus one per '|'. */
  function RowCount(lines: seq<string>): nat {
    if lines == [] then 0 else CountChar(lines[0], Delimiter) + 1 + RowCount(lines[1..])
  }

  /** Multi-row expansion of the whole buffer as written. */
  function ExpandAsWritten(lines: seq<string>): (rows: seq<string>)
    ensures |rows| == RowCount(lines)
  {
    if lines == [] then [] else RowsAsWritten(lines[0]) + ExpandAsWritten(lines[1..])
  }

  /** Multi-row expansion with every line's pieces in left-to-right order. */
  function Expand(lines: seq<string>): (rows: seq<string>)
    ensures |rows| == RowCount(lines)
  {
    if lines == [] then []
    else
      SplitLength(lines[0]);
      RowsOf(lines[0]) + Expand(lines[1..])
  }

  /** No row of the corrected expansion holds a '|'. */
  lemma {:induction false} ExpandClean(lines: seq<string>)
    ensures forall i :: 0 <= i < |Expand(lines)| ==> Delimiter !in Expand(lines)[i]
    decreases |lines|
  {
    if lines != [] {
      SplitClean(lines[0]);
      ExpandClean(lines[1..]);
    }
  }

  /** Even for a line without '|' the source's rows are the reversed pieces,
      so the `continue` at src/CNetwork.cpp:179-180 changes nothing. */
  lemma RowsAsWrittenIsReversal(line: string)
    ensures RowsAsWritten(line) == Reverse(RowsOf(line))
  {
    if Delimiter !in line {
      SplitNone(line);
    }
  }

  /** Expansion works line by line: every line's rows land where the line was. */
  lemma {:induction false} ExpandAsWrittenAppend(a: seq<string>, b: seq<string>)
    ensures ExpandAsWritten(a + b) == ExpandAsWritten(a) + ExpandAsWritten(b)
    decreases |a|
  {
    if a == [] {
      assert a + b == b;
    } else {
      assert (a + b)[1..] == a[1..] + b;
      ExpandAsWrittenAppend(a[1..], b);
    }
  }

  lemma {:induction false} ExpandAppend(a: seq<string>, b: seq<string>)
    ensures Expand(a + b) == Expand(a) + Expand(b)
    decreases |a|
  {
    if a == [] {
      assert a + b == b;
    } else {
      assert (a + b)[1..] == a[1..] + b;
      ExpandAppend(a[1..], b);
    }
  }

  /** A buffer without any '|' is delivered untouched, by both expansions. */
  lemma {:induction false} ExpandWithoutDelimiter(lines: seq<string>)
    requires forall i :: 0 <= i < |lines| ==> Delimiter !in lines[i]
    ensures ExpandAsWritten(lines) == lines
    ensures Expand(lines) == lines
    decreases |lines|
  {
    if lines != [] {
      ExpandWithoutDelimiter(lines[1..]);
      SplitNone(lines[0]);
      assert lines == [lines[0]] + lines[1..];
    }
  }

  /** In the corrected expansion the rows of one line glue back into it. */
  lemma ExpandLineRoundTrip(line: string)
    ensures |Expand([line])| > 0
    ensures Join(Expand([line])) == line
  {
    assert [line][1..] == [];
    assert Expand([line]) == Split(line);
    JoinSplit(line);
  }

  /** A line with one '|' comes out of the source's expansion with its two
      rows swapped; the corrected expansion keeps them in order. */
  lemma ExpandAsWrittenSwapsRows()
    ensures ExpandAsWritten(["row1|row2"]) == ["row2", "row1"]
    ensures Expand(["row1|row2"]) == ["row1", "row2"]
  {
    SplitTwoRows();
    assert ["row1|row2"][1..] == [];
  }

  lemma SplitTwoRows()
    ensures Delimiter in "row1|row2"
    ensures Split("row1|row2") == ["row1", "row2"]
  {
    assert "row1|row2" == "row1" + [Delimiter] + "row2";
    SplitConcat("row1|row2", "row1", "row2");
    SplitNone("row1");
    SplitNone("row2");
  }


  /** Unfolding `Split` on a suffix whose first '|' is at `d`. */
  lemma SplitSuffixAt(s: string, start: nat, d: nat)
    requires start <= d < |s| && s[d] == Delimiter
    requires forall j :: start <= j < d ==> s[j] != Delimiter
    ensures Split(s[start..]) == [s[start..d]] + Split(s[d + 1..])
  {
    var rest := s[start..];
    var q := d - start;
    assert rest[q] == Delimiter;
    assert forall j :: 0 <= j < q ==> rest[j] == s[start + j];
    SplitUnfold(rest, q);
    assert rest[q + 1..] == s[d + 1..];
    assert rest[..q] == s[start..d];
  }

  /** `Split` of a suffix without '|' is that suffix alone. */
  lemma SplitSuffixLast(s: string, start: nat)
    requires start <= |s|
    requires forall j :: start <= j < |s| ==> s[j] != Delimiter
    ensures Split(s[start..]) == [s[start..]]
  {
    forall j | 0 <= j < |s| - start ensures s[start..][j] != Delimiter {
      assert s[start..][j] == s[start + j];
    }
    SplitNone(s[start..]);
  }

  /** The split loop at src/CNetwork.cpp:185-192: repeated `find('|', pos)`,
      one `substr` per piece, until no '|' is left. */
  method SplitRow(data: string) returns (rowSet: seq<string>)
    ensures rowSet == Split(data)
  {
    rowSet := [];
    var start := 0;
    while true
      invariant 0 <= start <= |data|
      invariant rowSet + Split(data[start..]) == Split(data)
      decreases |data| - start
    {
      var delim := FindFrom(data, Delimiter, start);
      if delim.None? {
        LastPieceStep(data, start, rowSet);
        rowSet := rowSet + [data[start..]];
        return;
      }
      PieceStep(data, start, delim.value, rowSet);
      rowSet := rowSet + [data[start..delim.value]];
      start := delim.value + 1;
    }
  }

  /** One turn of the split loop: the piece up to the next '|' is done. */
  lemma PieceStep(s: string, start: nat, d: nat, done: seq<string>)
    requires start <= d < |s| && s[d] == Delimiter
    requires forall j :: start <= j < d ==> s[j] != Delimiter
    requires done + Split(s[start..]) == Split(s)
    ensures (done + [s[start..d]]) + Split(s[d + 1..]) == Split(s)
  {
    SplitSuffixAt(s, start, d);
    assert done + ([s[start..d]] + Split(s[d + 1..])) == (done + [s[start..d]]) + Split(s[d + 1..]);
  }

  /** The last turn: the rest of the line is the last piece. */
  lemma LastPieceStep(s: string, start: nat, done: seq<string>)
    requires start <= |s|
    requires forall j :: start <= j < |s| ==> s[j] != Delimiter
    requires done + Split(s[start..]) == Split(s)
    ensures done + [s[start..]] == Split(s)
  {
    SplitSuffixLast(s, start);
  }


  lemma ReverseSnoc<T>(s: seq<T>, j: nat)
    requires j < |s|
    ensures Reverse(s[..j + 1]) == [s[j]] + Reverse(s[..j])
  {
    assert s[..j + 1][..j] == s[..j];
  }

  /** Lines 194-196: erase the line at `i`, then insert every piece in turn
      before the previously inserted one. */
  method ReinsertPieces(data: seq<string>, i: nat, pieces: seq<string>) returns (r: seq<string>)
    requires i < |data|
    ensures r == data[..i] + Reverse(pieces) + data[i + 1..]
  {
    r := data[..i] + data[i + 1..];
    var j := 0;
    while j < |pieces|
      invariant 0 <= j <= |pieces|
      invariant r == data[..i] + Reverse(pieces[..j]) + data[i + 1..]
    {
      ReverseSnoc(pieces, j);
      assert r[..i] == data[..i];
      assert r[i..] == Reverse(pieces[..j]) + data[i + 1..];
      r := r[..i] + [pieces[j]] + r[i..];
      j := j + 1;
    }
    assert pieces[..j] == pieces;
  }

  lemma ConsAfter<T>(done: seq<T>, lines: seq<T>, k: nat)
    requires k < |lines|
    ensures done + lines[k..] == (done + [lines[k]]) + lines[k + 1..]
    ensures (done + lines[k..])[..|done|] == done
    ensures (done + lines[k..])[|done| + 1..] == lines[k + 1..]
  {
    assert lines[k..] == [lines[k]] + lines[k + 1..];
  }

  lemma ExpandAsWrittenPrefix(lines: seq<string>, k: nat)
    requires k < |lines|
    ensures ExpandAsWritten(lines[..k + 1]) == ExpandAsWritten(lines[..k]) + RowsAsWritten(lines[k])
  {
    assert lines[..k + 1] == lines[..k] + [lines[k]];
    ExpandAsWrittenAppend(lines[..k], [lines[k]]);
    assert [lines[k]][1..] == [];
  }

  /** The in-place expansion loop at src/CNetwork.cpp:176-197: walk the
      buffer with an index; at a line holding '|', erase it and insert every
      piece before the previously inserted one, then step past the last
      insertion. */
  method ExpandInPlace(lines: seq<string>) returns (data: seq<string>)
    ensures data == ExpandAsWritten(lines)
  {
    data := lines;
    var i := 0;
    ghost var k := 0;
    ghost var done: seq<string> := [];
    assert lines[..0] == [];
    while i < |data|
      invariant 0 <= k <= |lines|
      invariant done == ExpandAsWritten(lines[..k])
      invariant data == done + lines[k..]
      invariant i <= |done|
      invariant forall j :: i <= j < |done| ==> Delimiter !in done[j]
      decreases |lines| - k, |data| - i
    {
      if Delimiter !in data[i] {
        if i == |done| {
          assert k < |lines| && data[i] == lines[k];
          ExpandAsWrittenPrefix(lines, k);
          ConsAfter(done, lines, k);
          done := done + [lines[k]];
          k := k + 1;
        }
        i := i + 1;
      } else {
        assert k < |lines| && data[i] == lines[k];
        ConsAfter(done, lines, k);
        var pieces := SplitRow(data[i]);
        SplitClean(data[i]);
        data := ReinsertPieces(data, i, pieces);
        assert data == (done + Reverse(pieces)) + lines[k + 1..];
        ExpandAsWrittenPrefix(lines, k);
        done := done + Reverse(pieces);
        k := k + 1;
        i := i + 1;
      }
    }
    assert k == |lines|;
    assert lines[..k] == lines;
  }
}
