/**
 * The game engine of src/Game.java: a 4x4 board held in an array, a score, and
 * the operations that change them in place.  Each move is proved to produce
 * exactly the board and score that module Grids defines for it, and to spawn a
 * tile only when its change test fires.
 */
module Engine {
  import opened Lines
  import opened Grids

  // ---------------------------------------------------------------------------
  // The per-line work of a move, on the scratch array `temp`

  /**
   * Shifts temp[from + 1..] one place toward the front over temp[from] and
   * puts a 0 in the last cell (the "scooch" loop of moveLeft and moveUp).
   */
  method CloseGapLeft(temp: array<int>, from: int)
    requires 0 <= from < temp.Length
    modifies temp
    ensures temp[..] == old(temp[..from]) + old(temp[from + 1..]) + [0]
  {
    ghost var before := temp[..];
    for scooch := from to temp.Length - 1
      invariant forall i :: 0 <= i < from ==> temp[i] == before[i]
      invariant forall i :: from <= i < scooch ==> temp[i] == before[i + 1]
      invariant forall i :: scooch <= i < temp.Length ==> temp[i] == before[i]
    {
      temp[scooch] := temp[scooch + 1];
    }
    temp[temp.Length - 1] := 0;
    ghost var expected := before[..from] + before[from + 1..] + [0];
    assert forall i :: 0 <= i < temp.Length ==> temp[i] == expected[i];
  }

  /**
   * Shifts temp[..gap] one place toward the back over temp[gap] and puts a 0
   * in the first cell (the "scooch" loop of moveRight and moveDown).
   */
  method CloseGapRight(temp: array<int>, gap: int)
    requires 0 <= gap < temp.Length
    modifies temp
    ensures temp[..] == [0] + old(temp[..gap]) + old(temp[gap + 1..])
  {
    ghost var before := temp[..];
    for scooch := gap + 1 downto 1
      invariant forall i :: 0 <= i < scooch ==> temp[i] == before[i]
      invariant forall i :: scooch <= i <= gap ==> temp[i] == before[i - 1]
      invariant forall i :: gap < i < temp.Length ==> temp[i] == before[i]
    {
      temp[scooch] := temp[scooch - 1];
    }
    temp[0] := 0;
    ghost var expected := [0] + before[..gap] + before[gap + 1..];
    assert forall i :: 0 <= i < temp.Length ==> temp[i] == expected[i];
  }

  /**
   * The compress loop of moveLeft and moveUp: the non-zero tiles of the line,
   * in order, at the front of a fresh zeroed array.
   */
  method CompressLeft(line: seq<int>) returns (temp: array<int>)
    requires |line| == Size
    ensures fresh(temp)
    ensures temp[..] == Tiles(line) + Zeros(Size - |Tiles(line)|)
  {
    temp := new int[Size](_ => 0);
    var copyCount := 0;
    for col := 0 to Size
      invariant 0 <= copyCount <= col
      invariant temp[..copyCount] == Tiles(line[..col])
      invariant forall i :: copyCount <= i < Size ==> temp[i] == 0
    {
      assert line[..col + 1] == line[..col] + [line[col]];
      TilesAppend(line[..col], line[col]);
      if line[col] != 0 {
        temp[copyCount] := line[col];
        copyCount := copyCount + 1;
      }
    }
    assert line[..Size] == line;
    assert temp[copyCount..] == Zeros(Size - copyCount);
    assert temp[..] == temp[..copyCount] + temp[copyCount..];
  }

  /**
   * The compress loop of moveRight and moveDown: the non-zero tiles of the
   * line, in order, at the back of a fresh zeroed array.
   */
  method CompressRight(line: seq<int>) returns (temp: array<int>)
    requires |line| == Size
    ensures fresh(temp)
    ensures temp[..] == Zeros(Size - |Tiles(line)|) + Tiles(line)
  {
    temp := new int[Size](_ => 0);
    var copyCount := Size - 1;
    for col := Size downto 0
      invariant col - 1 <= copyCount <= Size - 1
      invariant temp[copyCount + 1..] == Tiles(line[col..])
      invariant forall i :: 0 <= i <= copyCount ==> temp[i] == 0
    {
      assert line[col..][1..] == line[col + 1..];
      if line[col] != 0 {
        temp[copyCount] := line[col];
        copyCount := copyCount - 1;
      }
    }
    assert line[0..] == line;
    assert temp[..copyCount + 1] == Zeros(copyCount + 1);
    assert temp[..] == temp[..copyCount + 1] + temp[copyCount + 1..];
  }

  /** A line of Size cells: front, then back, then zeros. */
  function FillLeft(front: seq<int>, back: seq<int>): (line: seq<int>)
    requires |front| + |back| <= Size
    ensures |line| == Size
  {
    front + back + Zeros(Size - |front| - |back|)
  }

  /** A line of Size cells: zeros, then front, then back. */
  function FillRight(front: seq<int>, back: seq<int>): (line: seq<int>)
    requires |front| + |back| <= Size
    ensures |line| == Size
  {
    Zeros(Size - |front| - |back|) + front + back
  }

  /**
   * The cells a left merge will end with: the cells already settled, then the
   * merge of the tiles not yet visited, then zeros.
   */
  ghost function SettledLeft(out: seq<int>, rem: seq<int>): seq<int>
    requires |out| + |rem| <= Size
  {
    FillLeft(out, MergeLeft(rem).line)
  }

  /** The same for a right merge: zeros, the merge of the tiles not yet visited, the settled cells. */
  ghost function SettledRight(out: seq<int>, rem: seq<int>): seq<int>
    requires |out| + |rem| <= Size
  {
    FillRight(MergeRight(rem).line, out)
  }

  /** Moving a cell x from the back part to the front part keeps the line. */
  lemma FillLeftShift(front: seq<int>, x: int, back: seq<int>)
    requires |front| + 1 + |back| <= Size
    ensures FillLeft(front + [x], back) == FillLeft(front, [x] + back)
  {
    assert (front + [x]) + back == front + ([x] + back);
  }

  /** Moving a cell x from the front part to the back part keeps the line. */
  lemma FillRightShift(front: seq<int>, x: int, back: seq<int>)
    requires |front| + 1 + |back| <= Size
    ensures FillRight(front, [x] + back) == FillRight(front + [x], back)
  {
    assert front + ([x] + back) == (front + [x]) + back;
  }

  /** A settled 0 at the end of the front part is one of the trailing zeros. */
  lemma FillLeftZero(front: seq<int>)
    requires |front| < Size
    ensures FillLeft(front + [0], []) == FillLeft(front, [])
  {
    assert [0] + Zeros(Size - |front| - 1) == Zeros(Size - |front|);
  }

  /** A settled 0 at the start of the back part is one of the leading zeros. */
  lemma FillRightZero(back: seq<int>)
    requires |back| < Size
    ensures FillRight([], [0] + back) == FillRight([], back)
  {
    assert Zeros(Size - |back| - 1) + [0] == Zeros(Size - |back|);
  }

  // Each step of a merge loop keeps two things: the shape of temp (settled
  // cells, unvisited tiles, zeros) and the cells the loop will end with.

  /** Left loop, two trailing zeros compared: nothing moves, one more 0 is settled. */
  lemma LeftZeroShape(out: seq<int>, k: nat)
    requires |out| + k == Size && k >= 2
    ensures var t := out + [] + Zeros(k);
      t[..|out| + 1] + t[|out| + 2..] + [0] == (out + [0]) + [] + Zeros(k - 1)
  {
    var t := out + [] + Zeros(k);
    assert t[..|out| + 1] == out + [0];
    assert t[|out| + 2..] + [0] == Zeros(k - 1);
  }

  lemma LeftZeroSettled(out: seq<int>)
    requires |out| < Size
    ensures SettledLeft(out + [0], []) == SettledLeft(out, [])
  {
    FillLeftZero(out);
  }

  /** Left loop, two equal tiles: the first doubles, the rest closes up behind it. */
  lemma LeftMergeShape(out: seq<int>, rem: seq<int>, k: nat)
    requires |out| + |rem| + k == Size && |rem| >= 2
    ensures var t := (out + rem + Zeros(k))[|out| := 2 * rem[0]];
      t[..|out| + 1] + t[|out| + 2..] + [0] == (out + [2 * rem[0]]) + rem[2..] + Zeros(k + 1)
  {
    var t := (out + rem + Zeros(k))[|out| := 2 * rem[0]];
    assert t[..|out| + 1] == out + [2 * rem[0]];
    assert t[|out| + 2..] == rem[2..] + Zeros(k);
    assert Zeros(k) + [0] == Zeros(k + 1);
  }

  lemma LeftMergeSettled(out: seq<int>, rem: seq<int>)
    requires |out| + |rem| <= Size && |rem| >= 2 && rem[0] == rem[1]
    ensures SettledLeft(out + [2 * rem[0]], rem[2..]) == SettledLeft(out, rem)
    ensures MergeLeft(rem).gained == 2 * rem[0] + MergeLeft(rem[2..]).gained
  {
    var rest := MergeLeft(rem[2..]);
    assert MergeLeft(rem) == Slide([2 * rem[0]] + rest.line, 2 * rem[0] + rest.gained);
    FillLeftShift(out, 2 * rem[0], rest.line);
  }

  /** Left loop, a tile unequal to the next cell: temp keeps its cells. */
  lemma LeftKeepShape(out: seq<int>, rem: seq<int>, k: nat)
    requires |out| + |rem| + k == Size && |rem| >= 1
    ensures (out + [rem[0]]) + rem[1..] + Zeros(k) == out + rem + Zeros(k)
  {
    assert (out + [rem[0]]) + rem[1..] == out + rem;
  }

  /** Left loop, a tile unequal to the next cell: it is settled as it is. */
  lemma LeftKeepSettled(out: seq<int>, rem: seq<int>)
    requires |out| + |rem| <= Size && |rem| >= 1 && !(|rem| >= 2 && rem[0] == rem[1])
    ensures SettledLeft(out + [rem[0]], rem[1..]) == SettledLeft(out, rem)
    ensures MergeLeft(rem).gained == MergeLeft(rem[1..]).gained
  {
    var rest := MergeLeft(rem[1..]);
    assert MergeLeft(rem) == Slide([rem[0]] + rest.line, rest.gained);
    FillLeftShift(out, rem[0], rest.line);
  }

  /** Right loop, two leading zeros compared: nothing moves, one more 0 is settled. */
  lemma RightZeroShape(out: seq<int>, k: nat)
    requires |out| + k == Size && k >= 2
    ensures var t := Zeros(k) + [] + out;
      [0] + t[..k - 2] + t[k - 1..] == Zeros(k - 1) + [] + ([0] + out)
  {
    var t := Zeros(k) + [] + out;
    assert [0] + t[..k - 2] == Zeros(k - 1);
    assert t[k - 1..] == [0] + out;
  }

  lemma RightZeroSettled(out: seq<int>)
    requires |out| < Size
    ensures SettledRight([0] + out, []) == SettledRight(out, [])
  {
    FillRightZero(out);
  }

  /** Right loop, two equal tiles: the last doubles, the rest closes up in front of it. */
  lemma RightMergeShape(out: seq<int>, rem: seq<int>, k: nat)
    requires |out| + |rem| + k == Size && |rem| >= 2
    ensures var col := k + |rem| - 1;
      var t := (Zeros(k) + rem + out)[col := 2 * rem[|rem| - 1]];
      [0] + t[..col - 1] + t[col..] == Zeros(k + 1) + rem[..|rem| - 2] + ([2 * rem[|rem| - 1]] + out)
  {
    var n := |rem|;
    var col := k + n - 1;
    var t := (Zeros(k) + rem + out)[col := 2 * rem[n - 1]];
    assert t[..col - 1] == Zeros(k) + rem[..n - 2];
    assert t[col..] == [2 * rem[n - 1]] + out;
    assert [0] + Zeros(k) == Zeros(k + 1);
  }

  lemma RightMergeSettled(out: seq<int>, rem: seq<int>)
    requires |out| + |rem| <= Size && |rem| >= 2 && rem[|rem| - 1] == rem[|rem| - 2]
    ensures SettledRight([2 * rem[|rem| - 1]] + out, rem[..|rem| - 2]) == SettledRight(out, rem)
    ensures MergeRight(rem).gained == MergeRight(rem[..|rem| - 2]).gained + 2 * rem[|rem| - 1]
  {
    var x := 2 * rem[|rem| - 1];
    var rest := MergeRight(rem[..|rem| - 2]);
    assert MergeRight(rem) == Slide(rest.line + [x], rest.gained + x);
    FillRightShift(rest.line, x, out);
  }

  /** Right loop, a tile unequal to the previous cell: temp keeps its cells. */
  lemma RightKeepShape(out: seq<int>, rem: seq<int>, k: nat)
    requires |out| + |rem| + k == Size && |rem| >= 1
    ensures Zeros(k) + rem[..|rem| - 1] + ([rem[|rem| - 1]] + out) == Zeros(k) + rem + out
  {
    assert rem[..|rem| - 1] + ([rem[|rem| - 1]] + out) == rem + out;
  }

  /** Right loop, a tile unequal to the previous cell: it is settled as it is. */
  lemma RightKeepSettled(out: seq<int>, rem: seq<int>)
    requires |out| + |rem| <= Size && |rem| >= 1
    requires !(|rem| >= 2 && rem[|rem| - 1] == rem[|rem| - 2])
    ensures SettledRight([rem[|rem| - 1]] + out, rem[..|rem| - 1]) == SettledRight(out, rem)
    ensures MergeRight(rem).gained == MergeRight(rem[..|rem| - 1]).gained
  {
    var x := rem[|rem| - 1];
    var rest := MergeRight(rem[..|rem| - 1]);
    assert MergeRight(rem) == Slide(rest.line + [x], rest.gained);
    FillRightShift(rest.line, x, out);
  }

  /** Which pair the left loop compares at column |out|, read off the shape of temp. */
  lemma LeftPair(out: seq<int>, rem: seq<int>, k: nat)
    requires |out| + |rem| + k == Size && |out| < Size - 1 && NoZeros(rem)
    ensures var t := out + rem + Zeros(k);
      && t[|out|] == (if rem == [] then 0 else rem[0])
      && (t[|out|] == t[|out| + 1] <==> rem == [] || (|rem| >= 2 && rem[0] == rem[1]))
  {
  }

  /** Which pair the right loop compares at column k + |rem| - 1, read off the shape of temp. */
  lemma RightPair(out: seq<int>, rem: seq<int>, k: nat)
    requires |out| + |rem| + k == Size && |out| < Size - 1 && NoZeros(rem)
    ensures var t := Zeros(k) + rem + out;
      var col := k + |rem| - 1;
      && t[col] == (if rem == [] then 0 else rem[|rem| - 1])
      && (t[col] == t[col - 1] <==> rem == [] || (|rem| >= 2 && rem[|rem| - 1] == rem[|rem| - 2]))
  {
  }

  /**
   * The doubling branch of the left merge loop at column col: the cell and
   * its successor are equal (two tiles, or two trailing zeros), so the cell
   * doubles, the doubled value is scored and the gap behind it closes.
   */
  method MergeAtLeft(temp: array<int>, col: int, ghost out: seq<int>, ghost rem: seq<int>)
      returns (gained: int, ghost out': seq<int>, ghost rem': seq<int>)
    requires temp.Length == Size && col == |out| < Size - 1 && |out| + |rem| <= Size && NoZeros(rem)
    requires rem == [] || (|rem| >= 2 && rem[0] == rem[1])
    requires temp[..] == out + rem + Zeros(Size - |out| - |rem|)
    modifies temp
    ensures |out'| == |out| + 1 && |out'| + |rem'| <= Size && NoZeros(rem')
    ensures temp[..] == out' + rem' + Zeros(Size - |out'| - |rem'|)
    ensures SettledLeft(out', rem') == SettledLeft(out, rem)
    ensures gained + MergeLeft(rem').gained == MergeLeft(rem).gained
  {
    ghost var k := Size - |out| - |rem|;
    ghost var before := temp[..];
    LeftPair(out, rem, k);
    temp[col] := temp[col] * 2;
    gained := temp[col];
    ghost var doubled := temp[..];
    assert doubled == before[col := temp[col]];
    CloseGapLeft(temp, col + 1);
    assert temp[..] == doubled[..col + 1] + doubled[col + 2..] + [0];
    if rem == [] {
      assert doubled == before;
      LeftZeroShape(out, k);
      LeftZeroSettled(out);
      out', rem' := out + [0], [];
      assert temp[..] == out' + [] + Zeros(k - 1);
    } else {
      assert doubled == (out + rem + Zeros(k))[col := 2 * rem[0]];
      LeftMergeShape(out, rem, k);
      LeftMergeSettled(out, rem);
      out', rem' := out + [2 * rem[0]], rem[2..];
      assert temp[..] == out' + rem' + Zeros(k + 1);
    }
  }

  /**
   * One step of the left merge loop at column col, just past the settled
   * cells: a cell equal to its successor goes through the doubling branch;
   * any other cell is left as it is.
   */
  method MergeLeftStep(temp: array<int>, col: int, ghost out: seq<int>, ghost rem: seq<int>)
      returns (gained: int, ghost out': seq<int>, ghost rem': seq<int>)
    requires temp.Length == Size && col == |out| < Size - 1 && |out| + |rem| <= Size && NoZeros(rem)
    requires temp[..] == out + rem + Zeros(Size - |out| - |rem|)
    modifies temp
    ensures |out'| == |out| + 1 && |out'| + |rem'| <= Size && NoZeros(rem')
    ensures temp[..] == out' + rem' + Zeros(Size - |out'| - |rem'|)
    ensures SettledLeft(out', rem') == SettledLeft(out, rem)
    ensures gained + MergeLeft(rem').gained == MergeLeft(rem).gained
  {
    ghost var k := Size - |out| - |rem|;
    LeftPair(out, rem, k);
    if temp[col] == temp[col + 1] {
      gained, out', rem' := MergeAtLeft(temp, col, out, rem);
    } else {
      gained := 0;
      LeftKeepSettled(out, rem);
      LeftKeepShape(out, rem, k);
      out', rem' := out + [rem[0]], rem[1..];
    }
  }

  /**
   * The merge loop of moveLeft and moveUp, on a packed line in temp: walk from
   * the front, doubling a cell equal to its successor (which scores the new
   * value) and closing the gap behind it.
   */
  method MergeLeftInPlace(temp: array<int>, ghost tiles: seq<int>) returns (gained: int)
    requires temp.Length == Size && NoZeros(tiles) && |tiles| <= Size
    requires temp[..] == tiles + Zeros(Size - |tiles|)
    modifies temp
    ensures temp[..] == SettledLeft([], tiles)
    ensures gained == MergeLeft(tiles).gained
  {
    gained := 0;
    // out: the cells already settled; rem: the tiles not yet visited
    ghost var out: seq<int> := [];
    ghost var rem := tiles;
    for col := 0 to Size - 1
      invariant |out| == col && |out| + |rem| <= Size
      invariant NoZeros(rem)
      invariant temp[..] == out + rem + Zeros(Size - |out| - |rem|)
      invariant SettledLeft(out, rem) == SettledLeft([], tiles)
      invariant gained + MergeLeft(rem).gained == MergeLeft(tiles).gained
    {
      var g;
      g, out, rem := MergeLeftStep(temp, col, out, rem);
      gained := gained + g;
    }
    assert MergeLeft(rem).line == rem;
  }

  /**
   * The doubling branch of the right merge loop at column col: the cell and
   * its predecessor are equal (two tiles, or two leading zeros), so the cell
   * doubles, the doubled value is scored and the gap in front of it closes.
   */
  method MergeAtRight(temp: array<int>, col: int, ghost out: seq<int>, ghost rem: seq<int>)
      returns (gained: int, ghost out': seq<int>, ghost rem': seq<int>)
    requires temp.Length == Size && col == Size - 1 - |out| && |out| < Size - 1 && |out| + |rem| <= Size && NoZeros(rem)
    requires rem == [] || (|rem| >= 2 && rem[|rem| - 1] == rem[|rem| - 2])
    requires temp[..] == Zeros(Size - |out| - |rem|) + rem + out
    modifies temp
    ensures |out'| == |out| + 1 && |out'| + |rem'| <= Size && NoZeros(rem')
    ensures temp[..] == Zeros(Size - |out'| - |rem'|) + rem' + out'
    ensures SettledRight(out', rem') == SettledRight(out, rem)
    ensures gained + MergeRight(rem').gained == MergeRight(rem).gained
  {
    ghost var k := Size - |out| - |rem|;
    ghost var before := temp[..];
    RightPair(out, rem, k);
    temp[col] := temp[col] * 2;
    gained := temp[col];
    ghost var doubled := temp[..];
    assert doubled == before[col := temp[col]];
    CloseGapRight(temp, col - 1);
    assert temp[..] == [0] + doubled[..col - 1] + doubled[col..];
    if rem == [] {
      assert doubled == before;
      RightZeroShape(out, k);
      RightZeroSettled(out);
      out', rem' := [0] + out, [];
      assert temp[..] == Zeros(k - 1) + [] + out';
    } else {
      ghost var last := rem[|rem| - 1];
      assert doubled == (Zeros(k) + rem + out)[col := 2 * last];
      RightMergeShape(out, rem, k);
      RightMergeSettled(out, rem);
      out', rem' := [2 * last] + out, rem[..|rem| - 2];
      assert temp[..] == Zeros(k + 1) + rem' + out';
    }
  }

  /**
   * One step of the right merge loop at column col, just before the settled
   * cells: a cell equal to its predecessor goes through the doubling branch;
   * any other cell is left as it is.
   */
  method MergeRightStep(temp: array<int>, col: int, ghost out: seq<int>, ghost rem: seq<int>)
      returns (gained: int, ghost out': seq<int>, ghost rem': seq<int>)
    requires temp.Length == Size && col == Size - 1 - |out| && |out| < Size - 1 && |out| + |rem| <= Size && NoZeros(rem)
    requires temp[..] == Zeros(Size - |out| - |rem|) + rem + out
    modifies temp
    ensures |out'| == |out| + 1 && |out'| + |rem'| <= Size && NoZeros(rem')
    ensures temp[..] == Zeros(Size - |out'| - |rem'|) + rem' + out'
    ensures SettledRight(out', rem') == SettledRight(out, rem)
    ensures gained + MergeRight(rem').gained == MergeRight(rem).gained
  {
    ghost var k := Size - |out| - |rem|;
    RightPair(out, rem, k);
    if temp[col] == temp[col - 1] {
      gained, out', rem' := MergeAtRight(temp, col, out, rem);
    } else {
      gained := 0;
      RightKeepSettled(out, rem);
      RightKeepShape(out, rem, k);
      out', rem' := [rem[|rem| - 1]] + out, rem[..|rem| - 1];
    }
  }

  /**
   * The merge loop of moveRight and moveDown, on a line packed to the back:
   * walk from the back, doubling a cell equal to its predecessor (which scores
   * the new value) and closing the gap in front of it.
   */
  method MergeRightInPlace(temp: array<int>, ghost tiles: seq<int>) returns (gained: int)
    requires temp.Length == Size && NoZeros(tiles) && |tiles| <= Size
    requires temp[..] == Zeros(Size - |tiles|) + tiles
    modifies temp
    ensures temp[..] == SettledRight([], tiles)
    ensures gained == MergeRight(tiles).gained
  {
    gained := 0;
    // out: the cells already settled; rem: the tiles not yet visited
    ghost var out: seq<int> := [];
    ghost var rem := tiles;
    for col := Size downto 1
      invariant |out| == Size - col && |out| + |rem| <= Size
      invariant NoZeros(rem)
      invariant temp[..] == Zeros(Size - |out| - |rem|) + rem + out
      invariant SettledRight(out, rem) == SettledRight([], tiles)
      invariant gained + MergeRight(rem).gained == MergeRight(tiles).gained
    {
      var g;
      g, out, rem := MergeRightStep(temp, col, out, rem);
      gained := gained + g;
    }
    assert MergeRight(rem).line == rem;
  }

  /**
   * Compress then merge, as moveLeft does to each row and moveUp to each
   * column: the result and the points it earns are SlideLeft's.
   */
  method PackMergeLeft(line: seq<int>) returns (slid: seq<int>, gained: int)
    requires |line| == Size
    ensures Slide(slid, gained) == SlideLeft(line)
  {
    var temp := CompressLeft(line);
    ghost var tiles := Tiles(line);
    gained := MergeLeftInPlace(temp, tiles);
    slid := temp[..];
    ghost var m := MergeLeft(tiles).line;
    assert [] + m == m;
  }

  /**
   * Compress then merge, as moveRight does to each row and moveDown to each
   * column: the result and the points it earns are SlideRight's.
   */
  method PackMergeRight(line: seq<int>) returns (slid: seq<int>, gained: int)
    requires |line| == Size
    ensures Slide(slid, gained) == SlideRight(line)
  {
    var temp := CompressRight(line);
    ghost var tiles := Tiles(line);
    gained := MergeRightInPlace(temp, tiles);
    slid := temp[..];
    ghost var m := MergeRight(tiles).line;
    assert m + [] == m;
  }

  // ---------------------------------------------------------------------------
  // The moveRight change test as written

  /** The row [2, 2, 0, 4] slides right to [0, 0, 4, 4] and earns 4 points. */
  lemma SlideRightSample()
    ensures SlideRight([2, 2, 0, 4]) == Slide([0, 0, 4, 4], 4)
  {
    var row := [2, 2, 0, 4];
    assert row[1..] == [2, 0, 4] && row[1..][1..] == [0, 4] && [0, 4][1..] == [4];
    assert Tiles(row) == [2, 2, 4];
    assert [2, 2, 4][..1] == [2];
    assert [2, 2, 4][..2] == [2, 2];
    assert [2, 2][..0] == [];
    assert MergeRight([2, 2]) == Slide([4], 4);
    assert MergeRight([2, 2, 4]) == Slide([4, 4], 4);
  }

  /**
   * A board on which moveRight changes a row without changing the row's last
   * cell: the row [2, 2, 0, 4] becomes [0, 0, 4, 4] and earns 4 points.
   */
  lemma MoveRightMissesChange(g: Grid)
    requires IsGrid(g) && g[0] == [2, 2, 0, 4]
    requires forall r :: 1 <= r < Size ==> g[r] == Zeros(Size)
    ensures MoveRightGrid(g).grid != g
    ensures MoveRightGrid(g).gained == 4
    ensures Column(MoveRightGrid(g).grid, Size - 1) == Column(g, Size - 1)
  {
    var z := Zeros(Size);
    SlideRightSample();
    TilesOfZeros(Size);
    assert SlideRight(z) == Slide(z, 0);
    RightGainsOfGrid(g);
    var t := MoveRightGrid(g).grid;
    assert t[0] == [0, 0, 4, 4];
    assert t[0][0] != g[0][0];
    forall r | 0 <= r < Size
      ensures t[r][Size - 1] == g[r][Size - 1]
    {
    }
  }

  /**
   * A move followed by the spawn it calls for keeps every cell a tile or 0 and
   * never lowers the score, given the move's own guarantee.
   */
  lemma KeepsTiles(g: Grid, s: Shift, moved: bool, d: Draw)
    requires AllTilesGrid(g) ==> AllTilesGrid(s.grid) && s.gained >= 0
    requires IsGrid(s.grid) && d.InRange()
    ensures AllTilesGrid(g) ==> AllTilesGrid(if moved then Spawned(s.grid, d) else s.grid) && s.gained >= 0
  {
    if AllTilesGrid(g) && moved {
      SpawnKeepsTiles(s.grid, d);
    }
  }

  /** Replacing row `row` of a half-processed board moves the boundary by one row. */
  lemma RowStep(target: Grid, g: Grid, row: int)
    requires IsGrid(target) && IsGrid(g) && 0 <= row < Size
    ensures (target[..row] + g[row..])[row] == g[row]
    ensures (target[..row] + g[row..])[row := target[row]] == target[..row + 1] + g[row + 1..]
    ensures (target[..row + 1] != g[..row + 1]) == (target[..row] != g[..row] || target[row] != g[row])
  {
    PrefixStep(target, g, row);
  }

  /** Two boards differ exactly when their transposes, taken whole, differ. */
  lemma TransposeDiffers(a: Grid, b: Grid)
    requires IsGrid(a) && IsGrid(b)
    ensures (Transpose(a)[..Size] != Transpose(b)[..Size]) == (a != b)
  {
    assert Transpose(a)[..Size] == Transpose(a) && Transpose(b)[..Size] == Transpose(b);
    TransposeTwice(a);
    TransposeTwice(b);
  }

  /** Two prefixes one element longer differ when the shorter ones or the new elements do. */
  lemma PrefixStep<T>(a: seq<T>, b: seq<T>, n: int)
    requires 0 <= n < |a| && n < |b|
    ensures (a[..n + 1] != b[..n + 1]) == (a[..n] != b[..n] || a[n] != b[n])
  {
    assert a[..n + 1] == a[..n] + [a[n]];
    assert b[..n + 1] == b[..n] + [b[n]];
  }

  // ---------------------------------------------------------------------------
  // The game

  class Game {
    var board: array2<int>
    var score: int
    var hasWon: bool
    var gameOver: bool

    ghost predicate Valid()
      reads this
    {
      board.Length0 == Size && board.Length1 == Size
    }

    /** The board's cells as a value, row by row. */
    function Cells(): (g: Grid)
      reads this, board
      requires Valid()
      ensures IsGrid(g)
      ensures forall r, c :: 0 <= r < Size && 0 <= c < Size ==> g[r][c] == board[r, c]
    {
      var b := board;
      seq(Size, r requires 0 <= r < Size reads b =>
        seq(Size, c requires 0 <= c < Size reads b => b[r, c]))
    }

    /**
     * new Game(): every field gets a value, then resetGame deals the first two
     * tiles.
     */
    constructor (d1: Draw, d2: Draw)
      requires d1.InRange() && d2.InRange()
      ensures Valid() && fresh(board) && score == 0 && !hasWon && !gameOver
      ensures Cells() == NewGame(d1, d2)
      ensures |EmptyCells(Cells())| == Size * Size - 2
      ensures forall r, c :: 0 <= r < Size && 0 <= c < Size ==> board[r, c] in {0, 2, 4}
    {
      board := new int[Size, Size]((_, _) => 0);
      score := 0;
      hasWon := false;
      gameOver := false;
      new;
      ResetGame(d1, d2);
    }

    /**
     * resetGame: a fresh all-zero board, score 0, both flags false, then two
     * spawns.
     */
    method ResetGame(d1: Draw, d2: Draw)
      requires d1.InRange() && d2.InRange()
      modifies this
      ensures Valid() && fresh(board)
      ensures score == 0 && !hasWon && !gameOver
      ensures Cells() == NewGame(d1, d2)
      ensures |EmptyCells(Cells())| == Size * Size - 2
      ensures forall r, c :: 0 <= r < Size && 0 <= c < Size ==> board[r, c] in {0, 2, 4}
    {
      board := new int[Size, Size];
      forall r, c | 0 <= r < Size && 0 <= c < Size {
        board[r, c] := 0;
      }
      score, hasWon, gameOver := 0, false, false;
      DealTwo(d1, d2);
    }

    /** The two addRandomTile calls that end resetGame, on the cleared board. */
    method DealTwo(d1: Draw, d2: Draw)
      requires Valid() && d1.InRange() && d2.InRange()
      requires forall r, c :: 0 <= r < Size && 0 <= c < Size ==> board[r, c] == 0
      modifies board
      ensures board == old(board) && Valid()
      ensures Cells() == NewGame(d1, d2)
      ensures |EmptyCells(Cells())| == Size * Size - 2
      ensures forall r, c :: 0 <= r < Size && 0 <= c < Size ==> board[r, c] in {0, 2, 4}
    {
      ghost var cleared := Cells();
      AddRandomTile(d1);
      AddRandomTile(d2);
      DealtOnCleared(cleared, d1, d2);
      NewGameHasTwoTiles(cleared, d1, d2);
    }

    /**
     * addRandomTile: when some cell is empty, the cell at index
     * (int)(fraction * count) of the empty-cell list is written twice, with the
     * value of each roll; a full board is left alone.
     */
    method AddRandomTile(d: Draw)
      requires Valid() && d.InRange()
      modifies board
      ensures board == old(board) && Valid()
      ensures Cells() == Spawned(old(Cells()), d)
    {
      ghost var g := Cells();
      var emptyCells := GetEmptyCells();
      if |emptyCells| == 0 {
        return;
      }
      var spot := emptyCells[Pick(d.fraction, |emptyCells|)];
      board[spot.row, spot.col] := TileFor(d.firstRoll);
      board[spot.row, spot.col] := TileFor(d.secondRoll);
      ghost var expected := SetCell(SetCell(g, spot, TileFor(d.firstRoll)), spot, TileFor(d.secondRoll));
      SameCells(Cells(), expected);
    }

    /** getEmptyCells: the empty cells, scanned row by row. */
    method GetEmptyCells() returns (emptyCells: seq<Cell>)
      requires Valid()
      ensures emptyCells == EmptyCells(Cells())
    {
      ghost var g := Cells();
      emptyCells := [];
      for row := 0 to Size
        invariant emptyCells == EmptyInRows(g, row)
      {
        emptyCells := ScanRow(row, g, emptyCells);
      }
    }

    /** One pass of getEmptyCells' inner loop: appends the empty cells of `row`. */
    method ScanRow(row: int, ghost g: Grid, listed: seq<Cell>) returns (cells: seq<Cell>)
      requires Valid() && g == Cells() && 0 <= row < Size
      ensures cells == listed + EmptyInRow(g, row, Size)
    {
      cells := listed;
      for col := 0 to Size
        invariant cells == listed + EmptyInRow(g, row, col)
      {
        assert board[row, col] == g[row][col];
        if board[row, col] == 0 {
          cells := cells + [Cell(row, col)];
        }
      }
    }

    // -------------------------------------------------------------------------
    // Writing a line back into the board

    /** board[row] = temp: row `row` takes the values of temp. */
    method ReplaceRow(row: int, temp: seq<int>)
      requires Valid() && 0 <= row < Size && |temp| == Size
      modifies board
      ensures forall r, c :: 0 <= r < Size && 0 <= c < Size ==>
        board[r, c] == if r == row then temp[c] else old(board[r, c])
    {
      forall c | 0 <= c < Size {
        board[row, c] := temp[c];
      }
    }

    /**
     * moveLeft's change test: compares temp with the row cell by cell and
     * replaces the row as soon as a cell differs.
     */
    method ReplaceRowOnDifference(row: int, temp: seq<int>) returns (changed: bool)
      requires Valid() && 0 <= row < Size && |temp| == Size
      modifies board
      ensures changed == (temp != old(Cells())[row])
      ensures forall r, c :: 0 <= r < Size && 0 <= c < Size ==>
        board[r, c] == if r == row then temp[c] else old(board[r, c])
    {
      changed := false;
      for col := 0 to Size
        invariant !changed ==> forall c :: 0 <= c < col ==> temp[c] == old(board[row, c])
        invariant !changed ==> forall r, c :: 0 <= r < Size && 0 <= c < Size ==> board[r, c] == old(board[r, c])
        invariant changed ==> exists c :: 0 <= c < col && temp[c] != old(board[row, c])
        invariant changed ==> forall r, c :: 0 <= r < Size && 0 <= c < Size ==>
          board[r, c] == if r == row then temp[c] else old(board[r, c])
      {
        if temp[col] != board[row, col] {
          changed := true;
          ReplaceRow(row, temp);
        }
      }
      if !changed {
        assert temp == old(Cells())[row];
      }
    }

    /**
     * moveRight's change test as written: the row is replaced after every
     * comparison, so after the first one (the last cell) each comparison
     * sees temp against itself.
     */
    method ReplaceRowEachStep(row: int, temp: seq<int>) returns (changed: bool)
      requires Valid() && 0 <= row < Size && |temp| == Size
      modifies board
      ensures changed == (temp[Size - 1] != old(board[row, Size - 1]))
      ensures forall r, c :: 0 <= r < Size && 0 <= c < Size ==>
        board[r, c] == if r == row then temp[c] else old(board[r, c])
    {
      changed := false;
      for col := Size downto 0
        invariant col == Size ==> !changed && forall r, c :: 0 <= r < Size && 0 <= c < Size ==> board[r, c] == old(board[r, c])
        invariant col < Size ==> changed == (temp[Size - 1] != old(board[row, Size - 1]))
        invariant col < Size ==> forall r, c :: 0 <= r < Size && 0 <= c < Size ==>
          board[r, c] == if r == row then temp[c] else old(board[r, c])
      {
        if temp[col] != board[row, col] {
          changed := true;
        }
        ReplaceRow(row, temp);
      }
    }

    /** moveUp's and moveDown's change test: whether temp differs from the column. */
    method ColumnDiffers(col: int, temp: seq<int>) returns (changed: bool)
      requires Valid() && 0 <= col < Size && |temp| == Size
      ensures changed == (temp != Column(Cells(), col))
    {
      changed := false;
      for row := 0 to Size
        invariant changed == exists r :: 0 <= r < row && temp[r] != board[r, col]
      {
        if temp[row] != board[row, col] {
          changed := true;
        }
      }
    }

    /** Column `col` takes the values of temp. */
    method ReplaceColumn(col: int, temp: seq<int>)
      requires Valid() && 0 <= col < Size && |temp| == Size
      modifies board
      ensures forall r, c :: 0 <= r < Size && 0 <= c < Size ==>
        board[r, c] == if c == col then temp[r] else old(board[r, c])
    {
      for row := 0 to Size
        invariant forall r, c :: 0 <= r < Size && 0 <= c < Size ==>
          board[r, c] == if c == col && r < row then temp[r] else old(board[r, c])
      {
        board[row, col] := temp[row];
      }
    }

    // -------------------------------------------------------------------------
    // The four moves

    /**
     * One row of moveLeft: compress and merge the row into temp, score the
     * merges, and replace the row when temp differs from it.
     */
    method MoveRowLeft(row: int) returns (changed: bool)
      requires Valid() && 0 <= row < Size
      modifies this`score, board
      ensures var s := SlideLeft(old(Cells())[row]);
        && changed == (s.line != old(Cells())[row])
        && score == old(score) + s.gained
        && Cells() == old(Cells())[row := s.line]
    {
      ghost var g := Cells();
      var slid, gained := PackMergeLeft(Cells()[row]);
      score := score + gained;
      changed := ReplaceRowOnDifference(row, slid);
      SameCells(Cells(), g[row := slid]);
    }

    /** One pass of moveLeft's row loop, in terms of the boards before and after the move. */
    method NextRowLeft(row: int, movedBefore: bool, ghost g: Grid, ghost target: Grid) returns (moved: bool)
      requires Valid() && 0 <= row < Size && IsGrid(g) && IsGrid(target)
      requires Cells() == target[..row] + g[row..]
      requires target[row] == SlideLeft(g[row]).line
      modifies this`score, board
      ensures Cells() == target[..row + 1] + g[row + 1..]
      ensures moved == (movedBefore || target[row] != g[row])
      ensures score == old(score) + SlideLeft(g[row]).gained
    {
      RowStep(target, g, row);
      var changed := MoveRowLeft(row);
      moved := movedBefore || changed;
    }

    /** The row loop of moveLeft, before the spawn. */
    method SlideRowsLeft(ghost target: Grid) returns (moved: bool)
      requires Valid() && IsGrid(target)
      requires forall r :: 0 <= r < Size ==> target[r] == SlideLeft(Cells()[r]).line
      modifies this`score, board
      ensures Cells() == target
      ensures moved == (target != old(Cells()))
      ensures score == old(score) + LeftGains(old(Cells()))
    {
      ghost var g := Cells();
      moved := false;
      for row := 0 to Size
        invariant Cells() == target[..row] + g[row..]
        invariant moved == (target[..row] != g[..row])
        invariant score == old(score) + LeftGains(g[..row])
      {
        GainsStep(g, row);
        PrefixStep(target, g, row);
        moved := NextRowLeft(row, moved, g, target);
      }
      assert target[..Size] == target && g[..Size] == g && g[Size..] == [];
    }

    /**
     * moveLeft: every row is compressed and merged toward column 0 and
     * replaced when it differs; the merges are scored; a tile is spawned when
     * some row changed.
     */
    method MoveLeft(d: Draw) returns (moved: bool)
      requires Valid() && d.InRange()
      modifies this`score, board
      ensures Valid()
      ensures var s := MoveLeftGrid(old(Cells()));
        && moved == (s.grid != old(Cells()))
        && score == old(score) + s.gained
        && Cells() == if moved then Spawned(s.grid, d) else s.grid
      ensures !moved ==> Cells() == old(Cells()) && score == old(score)
      ensures old(AllTilesGrid(Cells())) ==> AllTilesGrid(Cells()) && score >= old(score)
    {
      ghost var g := Cells();
      ghost var s := MoveLeftGrid(g);
      moved := SlideRowsLeft(s.grid);
      if !moved {
        UnchangedLeftScoresNothing(g);
      }
      if AllTilesGrid(g) {
        MovesKeepTiles(g);
      }
      KeepsTiles(g, s, moved, d);
      if moved {
        AddRandomTile(d);
      }
    }

    /**
     * One row of moveRight as written: compress and merge the row toward
     * column 3 into temp, score the merges, then run the compare loop, which
     * replaces the row after every comparison.
     */
    method MoveRowRight(row: int) returns (changed: bool)
      requires Valid() && 0 <= row < Size
      modifies this`score, board
      ensures var s := SlideRight(old(Cells())[row]);
        && changed == (s.line[Size - 1] != old(Cells())[row][Size - 1])
        && score == old(score) + s.gained
        && Cells() == old(Cells())[row := s.line]
    {
      ghost var g := Cells();
      var slid, gained := PackMergeRight(Cells()[row]);
      score := score + gained;
      changed := ReplaceRowEachStep(row, slid);
      SameCells(Cells(), g[row := slid]);
    }

    /** One pass of moveRight's row loop as written. */
    method NextRowRight(row: int, movedBefore: bool, ghost g: Grid, ghost target: Grid) returns (moved: bool)
      requires Valid() && 0 <= row < Size && IsGrid(g) && IsGrid(target)
      requires Cells() == target[..row] + g[row..]
      requires target[row] == SlideRight(g[row]).line
      modifies this`score, board
      ensures Cells() == target[..row + 1] + g[row + 1..]
      ensures moved == (movedBefore || target[row][Size - 1] != g[row][Size - 1])
      ensures score == old(score) + SlideRight(g[row]).gained
    {
      RowStep(target, g, row);
      var changed := MoveRowRight(row);
      moved := movedBefore || changed;
    }

    /** The row loop of moveRight as written, before the spawn. */
    method SlideRowsRight(ghost target: Grid) returns (moved: bool)
      requires Valid() && IsGrid(target)
      requires forall r :: 0 <= r < Size ==> target[r] == SlideRight(Cells()[r]).line
      modifies this`score, board
      ensures Cells() == target
      ensures moved == (Column(target, Size - 1) != Column(old(Cells()), Size - 1))
      ensures score == old(score) + RightGains(old(Cells()))
    {
      ghost var g := Cells();
      moved := false;
      for row := 0 to Size
        invariant Cells() == target[..row] + g[row..]
        invariant moved == (Column(target, Size - 1)[..row] != Column(g, Size - 1)[..row])
        invariant score == old(score) + RightGains(g[..row])
      {
        GainsStep(g, row);
        PrefixStep(Column(target, Size - 1), Column(g, Size - 1), row);
        assert Column(target, Size - 1)[row] == target[row][Size - 1];
        assert Column(g, Size - 1)[row] == g[row][Size - 1];
        moved := NextRowRight(row, moved, g, target);
      }
      assert target[..Size] == target && g[..Size] == g && g[Size..] == [];
      assert Column(target, Size - 1)[..Size] == Column(target, Size - 1);
      assert Column(g, Size - 1)[..Size] == Column(g, Size - 1);
    }

    /**
     * moveRight as written: every row is compressed and merged toward column
     * 3 and always replaced, the merges are scored, but the move counts as a
     * change, and spawns a tile, only when some row's last cell changed.
     */
    method MoveRight(d: Draw) returns (moved: bool)
      requires Valid() && d.InRange()
      modifies this`score, board
      ensures Valid()
      ensures var s := MoveRightGrid(old(Cells()));
        && moved == (Column(s.grid, Size - 1) != Column(old(Cells()), Size - 1))
        && score == old(score) + s.gained
        && Cells() == if moved then Spawned(s.grid, d) else s.grid
      ensures moved ==> MoveRightGrid(old(Cells())).grid != old(Cells())
      ensures MoveRightGrid(old(Cells())).grid == old(Cells()) ==>
        !moved && Cells() == old(Cells()) && score == old(score)
      ensures old(AllTilesGrid(Cells())) ==> AllTilesGrid(Cells()) && score >= old(score)
    {
      ghost var g := Cells();
      ghost var s := MoveRightGrid(g);
      moved := SlideRowsRight(s.grid);
      if s.grid == g {
        UnchangedRightScoresNothing(g);
      }
      if AllTilesGrid(g) {
        MovesKeepTiles(g);
      }
      KeepsTiles(g, s, moved, d);
      if moved {
        AddRandomTile(d);
      }
    }

    /** One row of moveRight with moveLeft's change test. */
    method MoveRowRightIntended(row: int) returns (changed: bool)
      requires Valid() && 0 <= row < Size
      modifies this`score, board
      ensures var s := SlideRight(old(Cells())[row]);
        && changed == (s.line != old(Cells())[row])
        && score == old(score) + s.gained
        && Cells() == old(Cells())[row := s.line]
    {
      ghost var g := Cells();
      var slid, gained := PackMergeRight(Cells()[row]);
      score := score + gained;
      changed := ReplaceRowOnDifference(row, slid);
      SameCells(Cells(), g[row := slid]);
    }

    /** One pass of the intended moveRight's row loop. */
    method NextRowRightIntended(row: int, movedBefore: bool, ghost g: Grid, ghost target: Grid) returns (moved: bool)
      requires Valid() && 0 <= row < Size && IsGrid(g) && IsGrid(target)
      requires Cells() == target[..row] + g[row..]
      requires target[row] == SlideRight(g[row]).line
      modifies this`score, board
      ensures Cells() == target[..row + 1] + g[row + 1..]
      ensures moved == (movedBefore || target[row] != g[row])
      ensures score == old(score) + SlideRight(g[row]).gained
    {
      RowStep(target, g, row);
      var changed := MoveRowRightIntended(row);
      moved := movedBefore || changed;
    }

    /** The row loop of moveRight with moveLeft's change test, before the spawn. */
    method SlideRowsRightIntended(ghost target: Grid) returns (moved: bool)
      requires Valid() && IsGrid(target)
      requires forall r :: 0 <= r < Size ==> target[r] == SlideRight(Cells()[r]).line
      modifies this`score, board
      ensures Cells() == target
      ensures moved == (target != old(Cells()))
      ensures score == old(score) + RightGains(old(Cells()))
    {
      ghost var g := Cells();
      moved := false;
      for row := 0 to Size
        invariant Cells() == target[..row] + g[row..]
        invariant moved == (target[..row] != g[..row])
        invariant score == old(score) + RightGains(g[..row])
      {
        GainsStep(g, row);
        PrefixStep(target, g, row);
        moved := NextRowRightIntended(row, moved, g, target);
      }
      assert target[..Size] == target && g[..Size] == g && g[Size..] == [];
    }

    /**
     * moveRight as evidently intended: the change test of moveLeft, so the
     * move reports a change, and spawns, exactly when some cell changed.
     */
    method MoveRightIntended(d: Draw) returns (moved: bool)
      requires Valid() && d.InRange()
      modifies this`score, board
      ensures Valid()
      ensures var s := MoveRightGrid(old(Cells()));
        && moved == (s.grid != old(Cells()))
        && score == old(score) + s.gained
        && Cells() == if moved then Spawned(s.grid, d) else s.grid
      ensures !moved ==> Cells() == old(Cells()) && score == old(score)
      ensures old(AllTilesGrid(Cells())) ==> AllTilesGrid(Cells()) && score >= old(score)
    {
      ghost var g := Cells();
      ghost var s := MoveRightGrid(g);
      moved := SlideRowsRightIntended(s.grid);
      if !moved {
        UnchangedRightScoresNothing(g);
      }
      if AllTilesGrid(g) {
        MovesKeepTiles(g);
      }
      KeepsTiles(g, s, moved, d);
      if moved {
        AddRandomTile(d);
      }
    }

    /**
     * One column of moveUp: compress and merge the column toward row 0 into
     * temp, score the merges, fold the column's difference into the running
     * flag and, when the flag is set, copy temp into the column.
     */
    method MoveColumnUp(col: int, movedBefore: bool) returns (moved: bool)
      requires Valid() && 0 <= col < Size
      modifies this`score, board
      ensures var s := SlideLeft(Column(old(Cells()), col));
        && moved == (movedBefore || s.line != Column(old(Cells()), col))
        && score == old(score) + s.gained
        && Cells() == SetColumn(old(Cells()), col, s.line)
    {
      ghost var g := Cells();
      var slid, gained := PackMergeLeft(Column(Cells(), col));
      score := score + gained;
      var changed := ColumnDiffers(col, slid);
      moved := movedBefore || changed;
      if moved {
        ReplaceColumn(col, slid);
      }
      SameCells(Cells(), SetColumn(g, col, slid));
    }

    /** One pass of moveUp's column loop, in terms of the boards before and after the move. */
    method NextColumnUp(col: int, movedBefore: bool, ghost g: Grid, ghost target: Grid) returns (moved: bool)
      requires Valid() && 0 <= col < Size && IsGrid(g) && IsGrid(target)
      requires Cells() == ColumnsFrom(target, g, col)
      requires Column(target, col) == SlideLeft(Column(g, col)).line
      modifies this`score, board
      ensures Cells() == ColumnsFrom(target, g, col + 1)
      ensures moved == (movedBefore || Column(target, col) != Column(g, col))
      ensures score == old(score) + SlideLeft(Column(g, col)).gained
    {
      ColumnStep(target, g, col);
      moved := MoveColumnUp(col, movedBefore);
    }

    /** The column loop of moveUp, before the spawn. */
    method SlideColumnsUp(ghost target: Grid) returns (moved: bool)
      requires Valid() && IsGrid(target)
      requires forall c :: 0 <= c < Size ==> Column(target, c) == SlideLeft(Column(Cells(), c)).line
      modifies this`score, board
      ensures Cells() == target
      ensures moved == (target != old(Cells()))
      ensures score == old(score) + LeftGains(Transpose(old(Cells())))
    {
      ghost var g := Cells();
      ghost var columns := Transpose(g);
      ghost var done := Transpose(target);
      ColumnsFromEnds(target, g);
      moved := false;
      for col := 0 to Size
        invariant Cells() == ColumnsFrom(target, g, col)
        invariant moved == (done[..col] != columns[..col])
        invariant score == old(score) + LeftGains(columns[..col])
      {
        GainsStep(columns, col);
        PrefixStep(done, columns, col);
        assert Column(g, col) == columns[col] && Column(target, col) == done[col];
        moved := NextColumnUp(col, moved, g, target);
      }
      ColumnsFromEnds(target, g);
      TransposeDiffers(target, g);
      assert columns[..Size] == columns;
    }

    /**
     * moveUp: every column is compressed and merged toward row 0 and written
     * back once the move has changed something; the merges are scored; a
     * tile is spawned when some column changed.
     */
    method MoveUp(d: Draw) returns (moved: bool)
      requires Valid() && d.InRange()
      modifies this`score, board
      ensures Valid()
      ensures var s := MoveUpGrid(old(Cells()));
        && moved == (s.grid != old(Cells()))
        && score == old(score) + s.gained
        && Cells() == if moved then Spawned(s.grid, d) else s.grid
      ensures !moved ==> Cells() == old(Cells()) && score == old(score)
      ensures old(AllTilesGrid(Cells())) ==> AllTilesGrid(Cells()) && score >= old(score)
    {
      ghost var g := Cells();
      ghost var s := MoveUpGrid(g);
      forall c | 0 <= c < Size
        ensures Column(s.grid, c) == SlideLeft(Column(g, c)).line
      {
        MoveUpByColumn(g, c);
      }
      moved := SlideColumnsUp(s.grid);
      if !moved {
        UnchangedUpScoresNothing(g);
      }
      if AllTilesGrid(g) {
        MovesKeepTiles(g);
      }
      KeepsTiles(g, s, moved, d);
      if moved {
        AddRandomTile(d);
      }
    }

    /**
     * One column of moveDown: compress and merge the column toward row 3 into
     * temp, score the merges, fold the column's difference into the running
     * flag and, when the flag is set, copy temp into the column.
     */
    method MoveColumnDown(col: int, movedBefore: bool) returns (moved: bool)
      requires Valid() && 0 <= col < Size
      modifies this`score, board
      ensures var s := SlideRight(Column(old(Cells()), col));
        && moved == (movedBefore || s.line != Column(old(Cells()), col))
        && score == old(score) + s.gained
        && Cells() == SetColumn(old(Cells()), col, s.line)
    {
      ghost var g := Cells();
      var slid, gained := PackMergeRight(Column(Cells(), col));
      score := score + gained;
      var changed := ColumnDiffers(col, slid);
      moved := movedBefore || changed;
      if moved {
        ReplaceColumn(col, slid);
      }
      SameCells(Cells(), SetColumn(g, col, slid));
    }

    /** One pass of moveDown's column loop, in terms of the boards before and after the move. */
    method NextColumnDown(col: int, movedBefore: bool, ghost g: Grid, ghost target: Grid) returns (moved: bool)
      requires Valid() && 0 <= col < Size && IsGrid(g) && IsGrid(target)
      requires Cells() == ColumnsFrom(target, g, col)
      requires Column(target, col) == SlideRight(Column(g, col)).line
      modifies this`score, board
      ensures Cells() == ColumnsFrom(target, g, col + 1)
      ensures moved == (movedBefore || Column(target, col) != Column(g, col))
      ensures score == old(score) + SlideRight(Column(g, col)).gained
    {
      ColumnStep(target, g, col);
      moved := MoveColumnDown(col, movedBefore);
    }

    /** The column loop of moveDown, before the spawn. */
    method SlideColumnsDown(ghost target: Grid) returns (moved: bool)
      requires Valid() && IsGrid(target)
      requires forall c :: 0 <= c < Size ==> Column(target, c) == SlideRight(Column(Cells(), c)).line
      modifies this`score, board
      ensures Cells() == target
      ensures moved == (target != old(Cells()))
      ensures score == old(score) + RightGains(Transpose(old(Cells())))
    {
      ghost var g := Cells();
      ghost var columns := Transpose(g);
      ghost var done := Transpose(target);
      ColumnsFromEnds(target, g);
      moved := false;
      for col := 0 to Size
        invariant Cells() == ColumnsFrom(target, g, col)
        invariant moved == (done[..col] != columns[..col])
        invariant score == old(score) + RightGains(columns[..col])
      {
        GainsStep(columns, col);
        PrefixStep(done, columns, col);
        assert Column(g, col) == columns[col] && Column(target, col) == done[col];
        moved := NextColumnDown(col, moved, g, target);
      }
      ColumnsFromEnds(target, g);
      TransposeDiffers(target, g);
      assert columns[..Size] == columns;
    }

    /**
     * moveDown: every column is compressed and merged toward row 3 and
     * written back once the move has changed something; the merges are
     * scored; a tile is spawned when some column changed.
     */
    method MoveDown(d: Draw) returns (moved: bool)
      requires Valid() && d.InRange()
      modifies this`score, board
      ensures Valid()
      ensures var s := MoveDownGrid(old(Cells()));
        && moved == (s.grid != old(Cells()))
        && score == old(score) + s.gained
        && Cells() == if moved then Spawned(s.grid, d) else s.grid
      ensures !moved ==> Cells() == old(Cells()) && score == old(score)
      ensures old(AllTilesGrid(Cells())) ==> AllTilesGrid(Cells()) && score >= old(score)
    {
      ghost var g := Cells();
      ghost var s := MoveDownGrid(g);
      forall c | 0 <= c < Size
        ensures Column(s.grid, c) == SlideRight(Column(g, c)).line
      {
        MoveDownByColumn(g, c);
      }
      moved := SlideColumnsDown(s.grid);
      if !moved {
        UnchangedDownScoresNothing(g);
      }
      if AllTilesGrid(g) {
        MovesKeepTiles(g);
      }
      KeepsTiles(g, s, moved, d);
      if moved {
        AddRandomTile(d);
      }
    }

    // -------------------------------------------------------------------------
    // Reads and the unfinished checks

    /** getBoard: a fresh 4x4 array holding the board's cells. */
    method GetBoard() returns (copy: array2<int>)
      requires Valid()
      ensures fresh(copy) && copy.Length0 == Size && copy.Length1 == Size
      ensures forall r, c :: 0 <= r < Size && 0 <= c < Size ==> copy[r, c] == board[r, c]
    {
      copy := new int[Size, Size];
      for i := 0 to Size
        invariant forall r, c :: 0 <= r < i && 0 <= c < Size ==> copy[r, c] == board[r, c]
      {
        for j := 0 to Size
          invariant forall r, c :: 0 <= r < i && 0 <= c < Size ==> copy[r, c] == board[r, c]
          invariant forall c :: 0 <= c < j ==> copy[i, c] == board[i, c]
        {
          copy[i, j] := board[i, j];
        }
      }
    }

    /** getScore: the points scored so far. */
    method GetScore() returns (points: int)
      ensures points == score
    {
      points := score;
    }

    /** getBoardSize: the side of the board. */
    method GetBoardSize() returns (n: int)
      ensures n == Size
    {
      n := Size;
    }

    /**
     * hasWon as it stands: false on every board, including one holding a 2048
     * tile, and no field changes.
     */
    method HasWon() returns (won: bool)
      requires Valid()
      ensures !won
    {
      won := false;
    }

    /**
     * isGameOver as it stands: false on every board, including a full one
     * with no move left, and no field changes.
     */
    method IsGameOver() returns (over: bool)
      requires Valid()
      ensures !over
    {
      over := false;
    }
  }
}
