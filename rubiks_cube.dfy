/**
 * The cube object: a mutable array of 54 facelets with the operations of
 * the RubiksCube class, each proved against the grid functions of the
 * Facelets, Moves, Net and Orders modules.
 */
module Cube {
  import opened Wrappers
  import opened Facelets
  import opened Moves
  import opened Net
  import opened Orders

  /** The rows of a 9 x 12 character grid as strings. */
  ghost function GridRows(g: array2<char>): (rows: seq<string>)
    requires g.Length0 == Height && g.Length1 == Width
    reads g
    ensures IsBlock(rows)
  {
    seq(Height, i requires 0 <= i < Height reads g => seq(Width, j requires 0 <= j < Width reads g => g[i, j]))
  }

  /** Every row without its trailing blanks. */
  function TrimAll(rows: seq<string>): (lines: seq<string>)
    ensures |lines| == |rows| && forall i :: 0 <= i < |rows| ==> lines[i] == Trim(rows[i])
  {
    seq(|rows|, i requires 0 <= i < |rows| => Trim(rows[i]))
  }

  class RubiksCube {
    /** face[Idx(f, r, c)] is the colour letter at row r, column c of face f. */
    const face: array<char>

    predicate Valid() {
      face.Length == Size
    }

    /** A solved cube: every facelet of face f shows SolvedColors[f]. */
    constructor()
      ensures Valid() && fresh(face)
      ensures face[..] == SolvedState()
    {
      var a := new char[Size];
      var f := 0;
      while f < 6
        invariant 0 <= f <= 6
        invariant forall k :: 0 <= k < 9 * f ==> a[k] == SolvedColors[k / 9]
      {
        var r := 0;
        while r < 3
          invariant 0 <= r <= 3
          invariant forall k :: 0 <= k < 9 * f + 3 * r ==> a[k] == SolvedColors[k / 9]
        {
          var c := 0;
          while c < 3
            invariant 0 <= c <= 3
            invariant forall k :: 0 <= k < 9 * f + 3 * r + c ==> a[k] == SolvedColors[k / 9]
          {
            Compose(f, r, c);
            a[Idx(f, r, c)] := SolvedColors[f];
            c := c + 1;
          }
          r := r + 1;
        }
        f := f + 1;
      }
      face := a;
    }

    /** A cube whose facelets are not yet filled in, as the reading constructor starts out. */
    constructor Unfilled()
      ensures Valid() && fresh(face)
    {
      face := new char[Size];
    }

    /** The cube is solved exactly when every facelet shows its face's colour. */
    method IsSolved() returns (b: bool)
      requires Valid()
      ensures b == Facelets.IsSolved(face[..])
    {
      var f := 0;
      while f < 6
        invariant 0 <= f <= 6
        invariant forall k :: 0 <= k < 9 * f ==> face[k] == SolvedColors[k / 9]
      {
        var r := 0;
        while r < 3
          invariant 0 <= r <= 3
          invariant forall k :: 0 <= k < 9 * f + 3 * r ==> face[k] == SolvedColors[k / 9]
        {
          var c := 0;
          while c < 3
            invariant 0 <= c <= 3
            invariant forall k :: 0 <= k < 9 * f + 3 * r + c ==> face[k] == SolvedColors[k / 9]
          {
            Compose(f, r, c);
            if face[Idx(f, r, c)] != SolvedColors[f] {
              return false;
            }
            c := c + 1;
          }
          r := r + 1;
        }
        f := f + 1;
      }
      return true;
    }

    /** Rotates the 3x3 block of face f by its corner exchange and its edge exchange. */
    method RotateFaceClockwise(f: nat)
      requires Valid() && f < 6
      modifies face
      ensures face[..] == RotateFace(old(face[..]), f)
    {
      ghost var s := face[..];
      var tmp := face[Idx(f, 0, 0)];
      face[Idx(f, 0, 0)] := face[Idx(f, 2, 0)];
      face[Idx(f, 2, 0)] := face[Idx(f, 2, 2)];
      face[Idx(f, 2, 2)] := face[Idx(f, 0, 2)];
      face[Idx(f, 0, 2)] := tmp;
      tmp := face[Idx(f, 0, 1)];
      face[Idx(f, 0, 1)] := face[Idx(f, 1, 0)];
      face[Idx(f, 1, 0)] := face[Idx(f, 1, 2)];
      face[Idx(f, 1, 2)] := face[Idx(f, 2, 1)];
      face[Idx(f, 2, 1)] := tmp;
      RotateFaceAt(s, f);
      var r := RotateFace(s, f);
      forall k | 0 <= k < Size ensures face[k] == r[k] {
        if k < Idx(f, 0, 0) || Idx(f, 2, 2) < k {
        } else if k == Idx(f, 0, 0) {
        } else if k == Idx(f, 0, 1) {
        } else if k == Idx(f, 0, 2) {
        } else if k == Idx(f, 1, 0) {
        } else if k == Idx(f, 1, 1) {
        } else if k == Idx(f, 1, 2) {
        } else if k == Idx(f, 2, 0) {
        } else if k == Idx(f, 2, 1) {
        } else {
          assert k == Idx(f, 2, 2);
        }
      }
    }

    /** A fresh three-element copy of strip st, as the turn methods take before writing. */
    method ReadStrip(st: Strip) returns (t: array<char>)
      requires Valid() && st.Valid()
      ensures fresh(t) && t.Length == 3 && t[..] == Get(face[..], st)
    {
      t := new char[3];
      var i := 0;
      while i < 3
        invariant 0 <= i <= 3
        invariant forall j :: 0 <= j < i ==> t[j] == face[st.At(j)]
      {
        t[i] := face[st.At(i)];
        i := i + 1;
      }
    }

    /** Writes the saved strip t into strip st, reversed when flip is set. */
    method WriteStrip(st: Strip, t: array<char>, flip: bool)
      requires Valid() && st.Valid() && t.Length == 3 && t != face
      modifies face
      ensures face[..] == Put(old(face[..]), st, Orient(t[..], flip))
    {
      var i := 0;
      while i < 3
        invariant 0 <= i <= 3
        invariant face[..] == PutPrefix(old(face[..]), st, Orient(t[..], flip), i)
      {
        face[st.At(i)] := t[Pick(flip, i)];
        i := i + 1;
      }
    }

    /**
     * The strip migration of a turn: saves the source strip of each of the
     * four wires, then writes the saved copies into the destination strips
     * in table order, so every write reads the strips as they were before.
     */
    method MigrateStrips(ws: seq<Wire>)
      requires Valid() && |ws| == 4 && WiresValid(ws)
      modifies face
      ensures face[..] == Migrate(old(face[..]), ws)
    {
      ghost var s := face[..];
      var t0 := ReadStrip(ws[0].src);
      var t1 := ReadStrip(ws[1].src);
      var t2 := ReadStrip(ws[2].src);
      var t3 := ReadStrip(ws[3].src);
      WriteStrip(ws[0].dst, t0, ws[0].flip);
      WriteStrip(ws[1].dst, t1, ws[1].flip);
      WriteStrip(ws[2].dst, t2, ws[2].flip);
      WriteStrip(ws[3].dst, t3, ws[3].flip);
      MigrateFour(s, ws);
    }

    /** The F move: the front face turns clockwise and its four neighbouring strips move along Wiring(F). */
    method RotateF()
      requires Valid()
      modifies face
      ensures face[..] == Turn(old(face[..]), F)
    {
      RotateFaceClockwise(F);
      MigrateStrips(Wiring(F));
    }

    /** The B move: the back face turns clockwise and its four neighbouring strips move along Wiring(B). */
    method RotateB()
      requires Valid()
      modifies face
      ensures face[..] == Turn(old(face[..]), B)
    {
      RotateFaceClockwise(B);
      MigrateStrips(Wiring(B));
    }

    /** The L move: the left face turns clockwise and its four neighbouring strips move along Wiring(L). */
    method RotateL()
      requires Valid()
      modifies face
      ensures face[..] == Turn(old(face[..]), L)
    {
      RotateFaceClockwise(L);
      MigrateStrips(Wiring(L));
    }

    /** The R move: the right face turns clockwise and its four neighbouring strips move along Wiring(R). */
    method RotateR()
      requires Valid()
      modifies face
      ensures face[..] == Turn(old(face[..]), R)
    {
      RotateFaceClockwise(R);
      MigrateStrips(Wiring(R));
    }

    /** The U move: the up face turns clockwise and its four neighbouring strips move along Wiring(U). */
    method RotateU()
      requires Valid()
      modifies face
      ensures face[..] == Turn(old(face[..]), U)
    {
      RotateFaceClockwise(U);
      MigrateStrips(Wiring(U));
    }

    /** The D move: the down face turns clockwise and its four neighbouring strips move along Wiring(D). */
    method RotateD()
      requires Valid()
      modifies face
      ensures face[..] == Turn(old(face[..]), D)
    {
      RotateFaceClockwise(D);
      MigrateStrips(Wiring(D));
    }

    /** One character of a move string: the matching move, or nothing for any other character. */
    method ApplyMove(ch: char)
      requires Valid()
      modifies face
      ensures face[..] == Step(old(face[..]), ch)
    {
      match ch {
        case 'F' => RotateF();
        case 'B' => RotateB();
        case 'L' => RotateL();
        case 'R' => RotateR();
        case 'U' => RotateU();
        case 'D' => RotateD();
        case _ =>
      }
    }

    /**
     * Applies the move letters of moves from first to last; a missing or
     * empty string changes nothing and any other character is skipped.
     */
    method ApplyMoves(moves: Option<string>)
      requires Valid()
      modifies face
      ensures face[..] == Run(old(face[..]), if moves.Some? then moves.value else "")
    {
      if moves.None? || moves.value == "" {
        return;
      }
      var m := moves.value;
      var i := 0;
      while i < |m|
        invariant 0 <= i <= |m|
        invariant face[..] == Run(old(face[..]), m[..i])
      {
        assert m[..i + 1][..i] == m[..i];
        ApplyMove(m[i]);
        i := i + 1;
      }
      assert m[..|m|] == m;
    }

    /** Copies the 3x3 block of lines whose top-left cell is (top, left) into face f. */
    method CopyBlockToFace(lines: seq<string>, top: nat, left: nat, f: nat)
      requires Valid() && IsBlock(lines) && top + 3 <= Height && left + 3 <= Width && f < 6
      modifies face
      ensures face[..] == CopyBlock(old(face[..]), lines, top, left, f)
    {
      var r := 0;
      while r < 3
        invariant 0 <= r <= 3
        invariant forall i, j :: 0 <= i < 3 && 0 <= j < 3 ==>
          face[Idx(f, i, j)] == if i < r then lines[top + i][left + j] else old(face[Idx(f, i, j)])
        invariant forall k :: 0 <= k < Size && (k < Idx(f, 0, 0) || Idx(f, 2, 2) < k) ==> face[k] == old(face[k])
      {
        var c := 0;
        while c < 3
          invariant 0 <= c <= 3
          invariant forall i, j :: 0 <= i < 3 && 0 <= j < 3 ==>
            face[Idx(f, i, j)] == if i < r || (i == r && j < c) then lines[top + i][left + j] else old(face[Idx(f, i, j)])
          invariant forall k :: 0 <= k < Size && (k < Idx(f, 0, 0) || Idx(f, 2, 2) < k) ==> face[k] == old(face[k])
        {
          face[Idx(f, r, c)] := lines[top + r][left + c];
          c := c + 1;
        }
        r := r + 1;
      }
      ghost var t := CopyBlock(old(face[..]), lines, top, left, f);
      forall k | 0 <= k < Size ensures face[k] == t[k] {
        Decompose(k);
      }
    }

    /**
     * The line-reading part of the reading constructor. Each of the first
     * nine lines must exist and be at most 12 characters long, and is
     * padded with blanks to 12; a tenth line is refused.
     */
    static method ReadLines(lines: seq<string>) returns (res: Result<seq<string>, FormatError>)
      ensures res.Ok? <==> |lines| == Height && forall i :: 0 <= i < Height ==> |lines[i]| <= Width
      ensures res.Ok? ==> res.value == PadAll(lines)
      ensures res.Err? ==> (res.error ==
        if exists i :: 0 <= i < Height && i < |lines| && |lines[i]| > Width then LineTooLong else WrongLineCount)
    {
      var rows: seq<string> := [];
      var i := 0;
      while i < Height
        invariant 0 <= i <= Height && |rows| == i && i <= |lines|
        invariant forall j :: 0 <= j < i ==> |lines[j]| <= Width && rows[j] == Pad(lines[j])
      {
        if i == |lines| {
          return Err(WrongLineCount);
        }
        var line := lines[i];
        if |line| > Width {
          return Err(LineTooLong);
        }
        if |line| < Width {
          line := Pad(line);
        }
        assert line == Pad(lines[i]);
        rows := rows + [line];
        i := i + 1;
      }
      if |lines| > Height {
        return Err(WrongLineCount);
      }
      return Ok(rows);
    }

    /** The character check of the reading constructor: the first cell, row by row, that is neither a blank nor a colour letter. */
    static method FindInvalid(rows: seq<string>) returns (bad: Option<char>)
      requires IsBlock(rows)
      ensures bad == FirstInvalidIn(rows)
    {
      var r := 0;
      while r < Height
        invariant 0 <= r <= Height
        invariant forall a, b :: 0 <= a < r && 0 <= b < |rows[a]| ==> Allowed(rows[a][b])
      {
        var c := 0;
        while c < Width
          invariant 0 <= c <= Width
          invariant forall b :: 0 <= b < c ==> Allowed(rows[r][b])
        {
          var ch := rows[r][c];
          if !(ch == ' ' || ch == 'O' || ch == 'G' || ch == 'W' || ch == 'B' || ch == 'Y' || ch == 'R') {
            FirstInvalidInAt(rows, r, c);
            return Some(ch);
          }
          c := c + 1;
        }
        r := r + 1;
      }
      return None;
    }

    /** The blank check of the reading constructor: some facelet is a blank. */
    method HasBlank() returns (b: bool)
      requires Valid()
      ensures b <==> exists k :: 0 <= k < Size && face[k] == ' '
    {
      var f := 0;
      while f < 6
        invariant 0 <= f <= 6
        invariant forall k :: 0 <= k < 9 * f ==> face[k] != ' '
      {
        var r := 0;
        while r < 3
          invariant 0 <= r <= 3
          invariant forall k :: 0 <= k < 9 * f + 3 * r ==> face[k] != ' '
        {
          var c := 0;
          while c < 3
            invariant 0 <= c <= 3
            invariant forall k :: 0 <= k < 9 * f + 3 * r + c ==> face[k] != ' '
          {
            if face[Idx(f, r, c)] == ' ' {
              return true;
            }
            c := c + 1;
          }
          r := r + 1;
        }
        f := f + 1;
      }
      return false;
    }

    /**
     * Reading a cube from the lines of a net: the line checks, the
     * character check, the six block copies, then the blank check.
     * The result agrees with ParseNet.
     */
    static method FromLines(lines: seq<string>) returns (res: Result<RubiksCube, FormatError>)
      ensures res.Err? <==> ParseNet(lines).Err?
      ensures res.Err? ==> res.error == ParseNet(lines).error
      ensures res.Ok? ==> (fresh(res.value) && fresh(res.value.face) && res.value.Valid()
        && res.value.face[..] == ParseNet(lines).value)
    {
      var read := ReadLines(lines);
      if read.Err? {
        return Err(read.error);
      }
      var rows := read.value;
      var bad := FindInvalid(rows);
      if bad.Some? {
        return Err(InvalidCharacter(bad.value));
      }
      var cube := new RubiksCube.Unfilled();
      ghost var s0 := cube.face[..];
      cube.CopyBlockToFace(rows, 0, 3, U);
      cube.CopyBlockToFace(rows, 3, 0, L);
      cube.CopyBlockToFace(rows, 3, 3, F);
      cube.CopyBlockToFace(rows, 3, 6, R);
      cube.CopyBlockToFace(rows, 3, 9, B);
      cube.CopyBlockToFace(rows, 6, 3, D);
      CopyAllBlocks(s0, rows);
      var blank := cube.HasBlank();
      if blank {
        return Err(BlankInFace);
      }
      ParseNetAccepts(lines, cube.face[..]);
      return Ok(cube);
    }

    /** Draws face f on grid as the 3x3 block whose top-left cell is (top, left). */
    method PlaceFaceOnGrid(grid: array2<char>, top: nat, left: nat, f: nat)
      requires Valid() && grid.Length0 == Height && grid.Length1 == Width
      requires top + 3 <= Height && left + 3 <= Width && f < 6
      modifies grid
      ensures GridRows(grid) == PlaceBlock(old(GridRows(grid)), face[..], top, left, f)
    {
      var r := 0;
      while r < 3
        invariant 0 <= r <= 3
        invariant forall i, j :: 0 <= i < Height && 0 <= j < Width ==>
          grid[i, j] == if top <= i < top + r && left <= j < left + 3 then face[Idx(f, i - top, j - left)] else old(grid[i, j])
      {
        var c := 0;
        while c < 3
          invariant 0 <= c <= 3
          invariant forall i, j :: 0 <= i < Height && 0 <= j < Width ==>
            grid[i, j] == if (top <= i < top + r && left <= j < left + 3) || (i == top + r && left <= j < left + c)
              then face[Idx(f, i - top, j - left)] else old(grid[i, j])
        {
          grid[top + r, left + c] := face[Idx(f, r, c)];
          c := c + 1;
        }
        r := r + 1;
      }
      ghost var g := PlaceBlock(old(GridRows(grid)), face[..], top, left, f);
      forall i | 0 <= i < Height ensures GridRows(grid)[i] == g[i] {
      }
    }

    /** Row r of grid without its trailing blanks, as toString copies it. */
    static method TrimmedRow(grid: array2<char>, r: nat) returns (line: string)
      requires grid.Length0 == Height && grid.Length1 == Width && r < Height
      ensures line == Trim(GridRows(grid)[r])
    {
      ghost var row := GridRows(grid)[r];
      var last := -1;
      var c := 0;
      while c < Width
        invariant 0 <= c <= Width
        invariant last == LastNonSpace(row[..c])
      {
        assert row[..c + 1][..c] == row[..c];
        if grid[r, c] != ' ' {
          last := c;
        }
        c := c + 1;
      }
      assert row[..Width] == row;
      line := "";
      var k := 0;
      while k <= last
        invariant 0 <= k <= last + 1
        invariant line == row[..k]
      {
        assert row[..k + 1] == row[..k] + [grid[r, k]];
        line := line + [grid[r, k]];
        k := k + 1;
      }
    }

    /**
     * The text form of the cube: its net, one line per row, each line cut
     * after its last non-blank cell and ended by a line break.
     */
    method ToString() returns (text: string)
      requires Valid()
      ensures text == Serialize(face[..])
    {
      var grid := DrawNet();
      text := WriteLines(grid);
      assert TrimAll(GridRows(grid)) == NetLines(face[..]);
    }

    /** The rows of grid, each cut after its last non-blank cell and ended by a line break. */
    static method WriteLines(grid: array2<char>) returns (text: string)
      requires grid.Length0 == Height && grid.Length1 == Width
      ensures text == Join(TrimAll(GridRows(grid)))
    {
      ghost var lines := TrimAll(GridRows(grid));
      text := "";
      var r := 0;
      while r < Height
        invariant 0 <= r <= Height
        invariant text == Join(lines[..r])
      {
        var line := TrimmedRow(grid, r);
        text := text + line + "\n";
        assert lines[..r + 1] == lines[..r] + [line];
        JoinSnoc(lines[..r], line);
        r := r + 1;
      }
      assert lines[..Height] == lines;
    }

    /** A fresh 9 x 12 grid of blanks. */
    static method BlankGrid() returns (grid: array2<char>)
      ensures fresh(grid) && grid.Length0 == Height && grid.Length1 == Width
      ensures GridRows(grid) == BlankRows()
    {
      grid := new char[Height, Width];
      var r := 0;
      while r < Height
        invariant 0 <= r <= Height
        invariant forall i, j :: 0 <= i < r && 0 <= j < Width ==> grid[i, j] == ' '
      {
        var c := 0;
        while c < Width
          invariant 0 <= c <= Width
          invariant forall i, j :: 0 <= i < r && 0 <= j < Width ==> grid[i, j] == ' '
          invariant forall j :: 0 <= j < c ==> grid[r, j] == ' '
        {
          grid[r, c] := ' ';
          c := c + 1;
        }
        r := r + 1;
      }
      forall i | 0 <= i < Height ensures GridRows(grid)[i] == BlankRows()[i] {
      }
    }

    /** The grid toString fills: all blanks, then the six faces drawn at their places in the net. */
    method DrawNet() returns (grid: array2<char>)
      requires Valid()
      ensures fresh(grid) && grid.Length0 == Height && grid.Length1 == Width
      ensures GridRows(grid) == NetRows(face[..])
    {
      grid := BlankGrid();
      PlaceFaceOnGrid(grid, 0, 3, U);
      PlaceFaceOnGrid(grid, 3, 0, L);
      PlaceFaceOnGrid(grid, 3, 3, F);
      PlaceFaceOnGrid(grid, 3, 6, R);
      PlaceFaceOnGrid(grid, 3, 9, B);
      PlaceFaceOnGrid(grid, 6, 3, D);
      PlaceAllBlocks(face[..]);
    }

    /**
     * The order of a move string: 1 for a missing or empty string,
     * otherwise how many applications bring a solved cube back to solved,
     * trying at most Ceiling + 1 of them and answering -1 when none does.
     */
    static method Order(moves: Option<string>) returns (n: int)
      ensures moves.None? || moves.value == "" ==> n == 1
      ensures moves.Some? && moves.value != "" ==> IsOrder(moves.value, n)
    {
      if moves.None? {
        return 1;
      }
      if moves.value == "" {
        return 1;
      }
      ghost var m := moves.value;
      var tmp := new RubiksCube();
      var count := 0;
      while true
        invariant 0 <= count <= Ceiling
        invariant tmp.Valid() && fresh(tmp.face)
        invariant tmp.face[..] == Power(SolvedState(), m, count)
        invariant forall k :: 1 <= k <= count ==> !SolvedAfter(m, k)
        decreases Ceiling - count
      {
        count := count + 1;
        tmp.ApplyMoves(moves);
        assert tmp.face[..] == Power(SolvedState(), m, count);
        var solved := tmp.IsSolved();
        if solved {
          IsOrderFound(m, count);
          return count;
        }
        UnsolvedUpTo(m, count);
        if count > Ceiling {
          IsOrderNone(m);
          return -1;
        }
      }
    }
  }
}
