/**
 * One row or column of the 2048 board, as a sequence of tile values (0 is an
 * empty cell).  This module is the reference for what a single move does to one
 * line: the non-zero tiles are packed toward the move direction, then equal
 * neighbours merge pairwise, each tile at most once, starting from the side the
 * tiles move toward.  The imperative move routines in module Engine are proved
 * to compute exactly SlideLeft or SlideRight of every line they touch.
 */
module Lines {

  /** A line after a slide, together with the points its merges earned. */
  datatype Slide = Slide(line: seq<int>, gained: int)

  function Zeros(n: nat): seq<int>
  {
    seq(n, _ => 0)
  }

  function Sum(s: seq<int>): int
  {
    if s == [] then 0 else s[0] + Sum(s[1..])
  }

  function Reverse(s: seq<int>): seq<int>
  {
    seq(|s|, i requires 0 <= i < |s| => s[|s| - 1 - i])
  }

  predicate NoZeros(s: seq<int>)
  {
    forall i :: 0 <= i < |s| ==> s[i] != 0
  }

  /** Non-zero tiles first, then only empty cells. */
  predicate Packed(s: seq<int>)
  {
    forall i, j :: 0 <= i < j < |s| && s[i] == 0 ==> s[j] == 0
  }

  /** Only empty cells first, then the non-zero tiles. */
  predicate PackedRight(s: seq<int>)
  {
    forall i, j :: 0 <= i < j < |s| && s[j] == 0 ==> s[i] == 0
  }

  /** Some two neighbouring non-zero tiles are equal, so a merge is possible. */
  predicate HasEqualNeighbours(s: seq<int>)
  {
    exists i :: 0 <= i < |s| - 1 && s[i] != 0 && s[i] == s[i + 1]
  }

  predicate IsPowerOfTwo(x: int)
    decreases if x < 0 then 0 else x
  {
    x == 2 || (x > 2 && x % 2 == 0 && IsPowerOfTwo(x / 2))
  }

  /** A legal cell value: empty, or a power of two that is at least 2. */
  predicate IsTile(x: int)
  {
    x == 0 || IsPowerOfTwo(x)
  }

  predicate AllTiles(s: seq<int>)
  {
    forall i :: 0 <= i < |s| ==> IsTile(s[i])
  }

  /** The non-zero entries of a line, in order (the compress step). */
  function Tiles(s: seq<int>): (t: seq<int>)
    ensures |t| <= |s|
    ensures NoZeros(t)
  {
    if s == [] then []
    else if s[0] != 0 then [s[0]] + Tiles(s[1..])
    else Tiles(s[1..])
  }

  /**
   * Merges a list of tiles from the front: when the first two are equal they
   * become one tile of twice the value, which scores that value, and the scan
   * resumes after the pair; otherwise the first tile is kept as it is.
   */
  function MergeLeft(t: seq<int>): (m: Slide)
    ensures |m.line| <= |t|
    ensures NoZeros(t) ==> NoZeros(m.line)
  {
    if |t| >= 2 && t[0] == t[1] then
      var rest := MergeLeft(t[2..]);
      Slide([2 * t[0]] + rest.line, 2 * t[0] + rest.gained)
    else if |t| >= 1 then
      var rest := MergeLeft(t[1..]);
      Slide([t[0]] + rest.line, rest.gained)
    else
      Slide([], 0)
  }

  /** The same merge, scanning from the back of the list toward the front. */
  function MergeRight(t: seq<int>): (m: Slide)
    ensures |m.line| <= |t|
    ensures NoZeros(t) ==> NoZeros(m.line)
  {
    var n := |t|;
    if n >= 2 && t[n - 1] == t[n - 2] then
      var rest := MergeRight(t[..n - 2]);
      Slide(rest.line + [2 * t[n - 1]], rest.gained + 2 * t[n - 1])
    else if n >= 1 then
      var rest := MergeRight(t[..n - 1]);
      Slide(rest.line + [t[n - 1]], rest.gained)
    else
      Slide([], 0)
  }

  /** A move toward index 0: compress, merge, refill the far end with zeros. */
  function SlideLeft(row: seq<int>): (r: Slide)
    ensures |r.line| == |row|
  {
    var m := MergeLeft(Tiles(row));
    Slide(m.line + Zeros(|row| - |m.line|), m.gained)
  }

  /** A move toward the last index: compress, merge, refill the near end with zeros. */
  function SlideRight(row: seq<int>): (r: Slide)
    ensures |r.line| == |row|
  {
    var m := MergeRight(Tiles(row));
    Slide(Zeros(|row| - |m.line|) + m.line, m.gained)
  }

  // ---------------------------------------------------------------------------
  // Facts about the compress step

  lemma {:induction false} TilesAppend(s: seq<int>, x: int)
    ensures Tiles(s + [x]) == Tiles(s) + (if x != 0 then [x] else [])
  {
    if s == [] {
      assert [x][1..] == [];
    } else {
      assert (s + [x])[1..] == s[1..] + [x];
      TilesAppend(s[1..], x);
    }
  }

  lemma {:induction false} TilesConcat(a: seq<int>, b: seq<int>)
    ensures Tiles(a + b) == Tiles(a) + Tiles(b)
  {
    if a == [] {
      assert a + b == b;
    } else {
      assert (a + b)[1..] == a[1..] + b;
      TilesConcat(a[1..], b);
    }
  }

  lemma {:induction false} TilesOfZeros(n: nat)
    ensures Tiles(Zeros(n)) == []
  {
    if n > 0 {
      assert Zeros(n)[1..] == Zeros(n - 1);
      TilesOfZeros(n - 1);
    }
  }

  lemma {:induction false} TilesOfTiles(t: seq<int>)
    requires NoZeros(t)
    ensures Tiles(t) == t
  {
    if t != [] {
      TilesOfTiles(t[1..]);
    }
  }

  /** A line with its zeros at the end is its tiles followed by zeros. */
  lemma {:induction false} PackedSplit(s: seq<int>)
    requires Packed(s)
    ensures s == Tiles(s) + Zeros(|s| - |Tiles(s)|)
  {
    if s != [] {
      if s[0] == 0 {
        assert forall j :: 0 <= j < |s| ==> s[j] == 0;
        assert s == Zeros(|s|);
        TilesOfZeros(|s|);
      } else {
        PackedSplit(s[1..]);
      }
    }
  }

  lemma {:induction false} TilesReverse(s: seq<int>)
    ensures Tiles(Reverse(s)) == Reverse(Tiles(s))
  {
    if s != [] {
      var n := |s|;
      assert Reverse(s) == Reverse(s[1..]) + [s[0]];
      TilesAppend(Reverse(s[1..]), s[0]);
      TilesReverse(s[1..]);
      var head := if s[0] != 0 then [s[0]] else [];
      assert Tiles(s) == head + Tiles(s[1..]);
      assert Reverse(head + Tiles(s[1..])) == Reverse(Tiles(s[1..])) + head;
    }
  }

  // ---------------------------------------------------------------------------
  // Sums: sliding neither creates nor destroys tile value

  lemma {:induction false} SumConcat(a: seq<int>, b: seq<int>)
    ensures Sum(a + b) == Sum(a) + Sum(b)
  {
    if a == [] {
      assert a + b == b;
    } else {
      assert (a + b)[1..] == a[1..] + b;
      SumConcat(a[1..], b);
    }
  }

  lemma {:induction false} SumZeros(n: nat)
    ensures Sum(Zeros(n)) == 0
  {
    if n > 0 {
      assert Zeros(n)[1..] == Zeros(n - 1);
      SumZeros(n - 1);
    }
  }

  lemma {:induction false} SumTiles(s: seq<int>)
    ensures Sum(Tiles(s)) == Sum(s)
  {
    if s != [] {
      SumTiles(s[1..]);
    }
  }

  lemma {:induction false} SumMergeLeft(t: seq<int>)
    ensures Sum(MergeLeft(t).line) == Sum(t)
  {
    if |t| >= 2 && t[0] == t[1] {
      SumMergeLeft(t[2..]);
      assert t[1..][1..] == t[2..];
    } else if |t| >= 1 {
      SumMergeLeft(t[1..]);
    }
  }

  /** Sliding a line left keeps its total tile value. */
  lemma SlideLeftKeepsSum(row: seq<int>)
    ensures Sum(SlideLeft(row).line) == Sum(row)
  {
    var m := MergeLeft(Tiles(row));
    SumConcat(m.line, Zeros(|row| - |m.line|));
    SumZeros(|row| - |m.line|);
    SumMergeLeft(Tiles(row));
    SumTiles(row);
  }

  /**
   * After a left slide the merged tiles come first, in order, and only empty
   * cells follow them.
   */
  lemma SlideLeftPacks(row: seq<int>)
    ensures Packed(SlideLeft(row).line)
    ensures Tiles(SlideLeft(row).line) == MergeLeft(Tiles(row)).line
  {
    var m := MergeLeft(Tiles(row)).line;
    var k := |row| - |m|;
    TilesConcat(m, Zeros(k));
    TilesOfZeros(k);
    TilesOfTiles(m);
    var line := SlideLeft(row).line;
    forall i, j | 0 <= i < j < |line| && line[i] == 0
      ensures line[j] == 0
    {
      assert i >= |m|;
    }
  }

  /**
   * After a right slide only empty cells come first, and the merged tiles
   * follow them, in order.
   */
  lemma SlideRightPacks(row: seq<int>)
    ensures PackedRight(SlideRight(row).line)
    ensures Tiles(SlideRight(row).line) == MergeRight(Tiles(row)).line
  {
    var m := MergeRight(Tiles(row)).line;
    var k := |row| - |m|;
    TilesConcat(Zeros(k), m);
    TilesOfZeros(k);
    TilesOfTiles(m);
    var line := SlideRight(row).line;
    assert line == Zeros(k) + m;
    forall j | k <= j < |line|
      ensures line[j] != 0
    {
      assert line[j] == m[j - k];
    }
    forall i, j | 0 <= i < j < |line| && line[j] == 0
      ensures line[i] == 0
    {
      assert j < k;
    }
  }

  // ---------------------------------------------------------------------------
  // Score: what the merges earn

  /**
   * A merge that keeps every tile merged nothing: the list is returned as it was
   * and earns no points.
   */
  lemma {:induction false} MergeLeftKeepingAll(t: seq<int>)
    requires |MergeLeft(t).line| == |t|
    ensures MergeLeft(t) == Slide(t, 0)
    ensures !HasEqualNeighbours(t)
  {
    if |t| >= 2 && t[0] == t[1] {
      assert false;
    } else if |t| >= 1 {
      MergeLeftKeepingAll(t[1..]);
      assert t == [t[0]] + t[1..];
      if HasEqualNeighbours(t) {
        assert false;
      }
    }
  }

  /** Conversely, a list without equal neighbours is left as it is. */
  lemma {:induction false} MergeLeftNoPairs(t: seq<int>)
    requires !HasEqualNeighbours(t) && NoZeros(t)
    ensures MergeLeft(t) == Slide(t, 0)
  {
    if |t| >= 2 {
      assert t[0] != t[1];
    }
    if |t| >= 1 {
      if HasEqualNeighbours(t[1..]) {
        assert false;
      }
      MergeLeftNoPairs(t[1..]);
    }
  }

  /**
   * With non-negative tiles, the points earned are between zero and the
   * line's total, and they are zero exactly when no two tiles merged.
   */
  lemma {:induction false} MergeLeftGain(t: seq<int>)
    requires forall i :: 0 <= i < |t| ==> t[i] > 0
    ensures 0 <= MergeLeft(t).gained <= Sum(t)
    ensures MergeLeft(t).gained == 0 <==> |MergeLeft(t).line| == |t|
  {
    if |t| >= 2 && t[0] == t[1] {
      MergeLeftGain(t[2..]);
      assert t[1..][1..] == t[2..];
    } else if |t| >= 1 {
      MergeLeftGain(t[1..]);
    }
  }

  /** A line that a left move leaves as it was scores nothing. */
  lemma SlideLeftUnchangedScoresNothing(row: seq<int>)
    requires SlideLeft(row).line == row
    ensures SlideLeft(row).gained == 0
  {
    var t := Tiles(row);
    var m := MergeLeft(t);
    TilesConcat(m.line, Zeros(|row| - |m.line|));
    TilesOfZeros(|row| - |m.line|);
    TilesOfTiles(m.line);
    assert Tiles(row) == m.line;
    MergeLeftKeepingAll(t);
  }

  /** On a row of legal tile values, a left move earns between 0 and the row's total. */
  lemma SlideLeftGainBounds(row: seq<int>)
    requires AllTiles(row)
    ensures 0 <= SlideLeft(row).gained <= Sum(row)
  {
    var t := Tiles(row);
    TilesOfLegalAreLegal(row);
    MergeLeftGain(t);
    SumTiles(row);
  }

  lemma {:induction false} TilesOfLegalAreLegal(row: seq<int>)
    requires AllTiles(row)
    ensures forall i :: 0 <= i < |Tiles(row)| ==> Tiles(row)[i] >= 2 && IsPowerOfTwo(Tiles(row)[i])
  {
    if row != [] {
      assert IsTile(row[0]);
      TilesOfLegalAreLegal(row[1..]);
    }
  }

  // ---------------------------------------------------------------------------
  // Exactly when a move leaves a line unchanged

  lemma NoPairsInTilesOfPacked(row: seq<int>)
    requires Packed(row)
    ensures HasEqualNeighbours(Tiles(row)) <==> HasEqualNeighbours(row)
  {
    PackedSplit(row);
    var t := Tiles(row);
    if HasEqualNeighbours(t) {
      var i :| 0 <= i < |t| - 1 && t[i] != 0 && t[i] == t[i + 1];
      assert row[i] == t[i] && row[i + 1] == t[i + 1];
    }
    if HasEqualNeighbours(row) {
      var i :| 0 <= i < |row| - 1 && row[i] != 0 && row[i] == row[i + 1];
      if i + 1 >= |t| {
        assert false;
      }
    }
  }

  /**
   * A left move leaves a line unchanged exactly when its tiles are already
   * packed to the left and no two neighbouring tiles are equal.
   */
  lemma SlideLeftFixedIff(row: seq<int>)
    ensures SlideLeft(row).line == row <==> Packed(row) && !HasEqualNeighbours(row)
  {
    var t := Tiles(row);
    var m := MergeLeft(t);
    if SlideLeft(row).line == row {
      TilesConcat(m.line, Zeros(|row| - |m.line|));
      TilesOfZeros(|row| - |m.line|);
      TilesOfTiles(m.line);
      assert t == m.line;
      MergeLeftKeepingAll(t);
      assert Packed(row);
      NoPairsInTilesOfPacked(row);
    }
    if Packed(row) && !HasEqualNeighbours(row) {
      NoPairsInTilesOfPacked(row);
      MergeLeftNoPairs(t);
      PackedSplit(row);
    }
  }

  // ---------------------------------------------------------------------------
  // The right move is the mirror image of the left move

  lemma {:induction false} MergeRightMirrorsLeft(t: seq<int>)
    ensures MergeRight(t) == Slide(Reverse(MergeLeft(Reverse(t)).line), MergeLeft(Reverse(t)).gained)
  {
    var n := |t|;
    var r := Reverse(t);
    if n >= 2 && t[n - 1] == t[n - 2] {
      assert r[0] == t[n - 1] && r[1] == t[n - 2];
      assert r[2..] == Reverse(t[..n - 2]);
      MergeRightMirrorsLeft(t[..n - 2]);
      var rest := MergeLeft(r[2..]);
      ReverseFront(2 * r[0], rest.line);
    } else if n >= 1 {
      assert r[0] == t[n - 1];
      assert n >= 2 ==> r[1] == t[n - 2];
      assert r[1..] == Reverse(t[..n - 1]);
      MergeRightMirrorsLeft(t[..n - 1]);
      var rest := MergeLeft(r[1..]);
      ReverseFront(r[0], rest.line);
    } else {
      assert Reverse(t) == [];
    }
  }

  /**
   * Sliding a line right gives the reverse of sliding the reversed line left,
   * with the same points.
   */
  lemma SlideRightMirrorsLeft(row: seq<int>)
    ensures SlideRight(row) == Slide(Reverse(SlideLeft(Reverse(row)).line), SlideLeft(Reverse(row)).gained)
  {
    var t := Tiles(row);
    TilesReverse(row);
    MergeRightMirrorsLeft(t);
    var l := MergeLeft(Reverse(t));
    var k := |row| - |l.line|;
    ReverseZerosAfter(l.line, k);
  }

  lemma ReverseFront(x: int, s: seq<int>)
    ensures Reverse([x] + s) == Reverse(s) + [x]
  {
    assert |Reverse([x] + s)| == |Reverse(s) + [x]|;
    forall i | 0 <= i < |s| + 1
      ensures Reverse([x] + s)[i] == (Reverse(s) + [x])[i]
    {
    }
  }

  lemma ReverseZerosAfter(s: seq<int>, k: nat)
    ensures Reverse(s + Zeros(k)) == Zeros(k) + Reverse(s)
  {
  }

  /** A line that a right move leaves as it was scores nothing. */
  lemma SlideRightUnchangedScoresNothing(row: seq<int>)
    requires SlideRight(row).line == row
    ensures SlideRight(row).gained == 0
  {
    SlideRightMirrorsLeft(row);
    var l := SlideLeft(Reverse(row));
    assert Reverse(Reverse(l.line)) == l.line;
    SlideLeftUnchangedScoresNothing(Reverse(row));
  }

  /** On a row of legal tile values, a right move earns between 0 and the row's total. */
  lemma SlideRightGainBounds(row: seq<int>)
    requires AllTiles(row)
    ensures 0 <= SlideRight(row).gained <= Sum(row)
  {
    SlideRightMirrorsLeft(row);
    assert AllTiles(Reverse(row));
    SlideLeftGainBounds(Reverse(row));
    SumReverse(row);
  }

  lemma {:induction false} SumReverse(s: seq<int>)
    ensures Sum(Reverse(s)) == Sum(s)
  {
    if s != [] {
      assert Reverse(s) == Reverse(s[1..]) + [s[0]];
      SumConcat(Reverse(s[1..]), [s[0]]);
      SumReverse(s[1..]);
    }
  }

  /** A right move keeps the line's total tile value. */
  lemma SlideRightKeepsSum(row: seq<int>)
    ensures Sum(SlideRight(row).line) == Sum(row)
  {
    SlideRightMirrorsLeft(row);
    SlideLeftKeepsSum(Reverse(row));
    SumReverse(SlideLeft(Reverse(row)).line);
    SumReverse(row);
  }

  // ---------------------------------------------------------------------------
  // Tile values stay powers of two

  lemma DoubleIsPowerOfTwo(x: int)
    requires IsPowerOfTwo(x)
    ensures IsPowerOfTwo(2 * x)
  {
    assert (2 * x) / 2 == x;
  }

  lemma {:induction false} MergeLeftKeepsTiles(t: seq<int>)
    requires forall i :: 0 <= i < |t| ==> IsPowerOfTwo(t[i])
    ensures forall i :: 0 <= i < |MergeLeft(t).line| ==> IsPowerOfTwo(MergeLeft(t).line[i])
  {
    if |t| >= 2 && t[0] == t[1] {
      DoubleIsPowerOfTwo(t[0]);
      MergeLeftKeepsTiles(t[2..]);
    } else if |t| >= 1 {
      MergeLeftKeepsTiles(t[1..]);
    }
  }

  /** A left move turns a line of legal tile values into one. */
  lemma SlideLeftKeepsTiles(row: seq<int>)
    requires AllTiles(row)
    ensures AllTiles(SlideLeft(row).line)
  {
    TilesOfLegalAreLegal(row);
    MergeLeftKeepsTiles(Tiles(row));
  }

  /** A right move turns a line of legal tile values into one. */
  lemma SlideRightKeepsTiles(row: seq<int>)
    requires AllTiles(row)
    ensures AllTiles(SlideRight(row).line)
  {
    SlideRightMirrorsLeft(row);
    SlideLeftKeepsTiles(Reverse(row));
  }

  // ---------------------------------------------------------------------------
  // Worked examples

  /** Four equal tiles merge pairwise into two, scoring 4 + 4. */
  lemma SlideLeftFourTwos()
    ensures SlideLeft([2, 2, 2, 2]) == Slide([4, 4, 0, 0], 8)
  {
    assert Tiles([2, 2, 2, 2]) == [2, 2, 2, 2];
    assert MergeLeft([2, 2]) == Slide([4], 4);
    assert [2, 2, 2, 2][2..] == [2, 2];
    assert MergeLeft([2, 2, 2, 2]) == Slide([4, 4], 8);
  }

  /** A tile made by a merge does not merge again in the same move. */
  lemma SlideLeftMergesOnce()
    ensures SlideLeft([4, 4, 8, 0]) == Slide([8, 8, 0, 0], 8)
  {
    assert [4, 4, 8, 0][1..] == [4, 8, 0];
    assert [4, 8, 0][1..] == [8, 0];
    assert [8, 0][1..] == [0];
    assert Tiles([4, 4, 8, 0]) == [4, 4, 8];
    assert MergeLeft([8]) == Slide([8], 0);
    assert [4, 4, 8][2..] == [8];
    assert MergeLeft([4, 4, 8]) == Slide([8, 8], 8);
  }

  /** Sliding right, four equal tiles merge pairwise toward the right end. */
  lemma SlideRightFourTwos()
    ensures SlideRight([2, 2, 2, 2]) == Slide([0, 0, 4, 4], 8)
  {
    assert Tiles([2, 2, 2, 2]) == [2, 2, 2, 2];
    assert [2, 2, 2, 2][..2] == [2, 2];
    assert MergeRight([2, 2]) == Slide([4], 4);
    assert MergeRight([2, 2, 2, 2]) == Slide([4, 4], 8);
  }
}
