/**
 * The text form of a cube: an unfolded cross ("net") of 9 rows and 12
 * columns. Up sits at rows 0-2, columns 3-5; Left, Front, Right and Back
 * side by side at rows 3-5, columns 0-2, 3-5, 6-8 and 9-11; Down at rows
 * 6-8, columns 3-5. Every other cell is a blank filler.
 */
module Net {
  import opened Wrappers
  import opened Facelets

  /** Number of lines of a net. */
  const Height: nat := 9
  /** Width every line is padded to. */
  const Width: nat := 12

  /** The four ways a net can be rejected. */
  datatype FormatError = WrongLineCount | LineTooLong | InvalidCharacter(ch: char) | BlankInFace
  {
    /** The reason the cube reports for the error. */
    function Message(): string {
      match this
      case WrongLineCount => "File must have exactly 9 lines"
      case LineTooLong => "Each line must have at most 12 characters"
      case InvalidCharacter(ch) => "Invalid character: " + [ch]
      case BlankInFace => "Face block contains blank"
    }
  }

  /** Net row of the top-left facelet of face f. */
  function Top(f: nat): (t: nat)
    requires f < 6
    ensures t + 3 <= Height
  {
    [0, 3, 3, 3, 3, 6][f]
  }

  /** Net column of the top-left facelet of face f. */
  function Left(f: nat): (l: nat)
    requires f < 6
    ensures l + 3 <= Width
  {
    [3, 0, 3, 6, 9, 3][f]
  }

  /** A character a net may contain: a colour letter or the blank. */
  predicate Allowed(ch: char) {
    ch == ' ' || IsColor(ch)
  }

  /** A line right-padded with blanks to the full width. */
  function Pad(line: string): (p: string)
    requires |line| <= Width
    ensures |p| == Width && p[..|line|] == line
    ensures forall i :: |line| <= i < Width ==> p[i] == ' '
  {
    line + seq(Width - |line|, _ => ' ')
  }

  /** The first character of s that is not allowed, if any. */
  function FirstInvalid(s: string): (r: Option<char>)
    ensures r == None <==> forall i :: 0 <= i < |s| ==> Allowed(s[i])
    ensures r.Some? ==> r.value in s && !Allowed(r.value)
  {
    if s == [] then None
    else if !Allowed(s[0]) then Some(s[0])
    else
      var r := FirstInvalid(s[1..]);
      assert r == None ==> forall i :: 0 <= i < |s| ==> Allowed(s[i]) by {
        if r == None {
          forall i | 0 <= i < |s| ensures Allowed(s[i]) {
            if i > 0 { assert s[i] == s[1..][i - 1]; }
          }
        }
      }
      r
  }

  /** A disallowed character preceded only by allowed ones is the one reported. */
  lemma {:induction false} FirstInvalidAt(s: string, i: nat)
    requires i < |s| && !Allowed(s[i]) && forall j :: 0 <= j < i ==> Allowed(s[j])
    ensures FirstInvalid(s) == Some(s[i])
  {
    if i > 0 {
      assert Allowed(s[0]);
      FirstInvalidAt(s[1..], i - 1);
    }
  }

  /** The first character, scanning the rows top to bottom and each left to right, that is not allowed. */
  function FirstInvalidIn(rows: seq<string>): (r: Option<char>)
    ensures r == None <==> forall i, j :: 0 <= i < |rows| && 0 <= j < |rows[i]| ==> Allowed(rows[i][j])
    ensures r.Some? ==> !Allowed(r.value)
  {
    if rows == [] then None
    else if FirstInvalid(rows[0]).Some? then FirstInvalid(rows[0])
    else
      var r := FirstInvalidIn(rows[1..]);
      assert r == None ==> forall i, j :: 0 <= i < |rows| && 0 <= j < |rows[i]| ==> Allowed(rows[i][j]) by {
        if r == None {
          forall i, j | 0 <= i < |rows| && 0 <= j < |rows[i]|
            ensures Allowed(rows[i][j])
          {
            if i > 0 {
              assert rows[i] == rows[1..][i - 1];
            }
          }
        }
      }
      r
  }

  /** Scanning row-major, the first disallowed character is the one reported. */
  lemma {:induction false} FirstInvalidInAt(rows: seq<string>, i: nat, j: nat)
    requires i < |rows| && j < |rows[i]| && !Allowed(rows[i][j])
    requires forall a, b :: 0 <= a < i && 0 <= b < |rows[a]| ==> Allowed(rows[a][b])
    requires forall b :: 0 <= b < j ==> Allowed(rows[i][b])
    ensures FirstInvalidIn(rows) == Some(rows[i][j])
  {
    if i == 0 {
      FirstInvalidAt(rows[0], j);
    } else {
      assert FirstInvalid(rows[0]) == None;
      assert rows[1..][i - 1] == rows[i];
      FirstInvalidInAt(rows[1..], i - 1, j);
    }
  }

  /** Nine padded lines: the shape the cells are read from. */
  predicate IsBlock(rows: seq<string>) {
    |rows| == Height && forall i :: 0 <= i < Height ==> |rows[i]| == Width
  }

  /** The six face blocks of a padded net, read into a facelet grid. */
  function Extract(rows: seq<string>): (s: seq<char>)
    requires IsBlock(rows)
    ensures |s| == Size
    ensures forall f: nat, r: nat, c: nat :: f < 6 && r < 3 && c < 3 ==>
      s[Idx(f, r, c)] == rows[Top(f) + r][Left(f) + c]
  {
    var s := seq(Size, k requires 0 <= k < Size => rows[Top(k / 9) + k % 9 / 3][Left(k / 9) + k % 3]);
    assert forall f: nat, r: nat, c: nat :: f < 6 && r < 3 && c < 3 ==>
      s[Idx(f, r, c)] == rows[Top(f) + r][Left(f) + c] by {
      forall f: nat, r: nat, c: nat | f < 6 && r < 3 && c < 3 {
        Compose(f, r, c);
      }
    }
    s
  }

  /** Nine lines of at most 12 characters, each padded to the full width. */
  function PadAll(lines: seq<string>): (rows: seq<string>)
    requires |lines| == Height && forall i :: 0 <= i < Height ==> |lines[i]| <= Width
    ensures IsBlock(rows)
    ensures forall i :: 0 <= i < Height ==> rows[i] == Pad(lines[i])
  {
    seq(Height, i requires 0 <= i < Height => Pad(lines[i]))
  }

  /**
   * Reading a net given as its lines. The first of the first nine lines
   * that is missing or too long decides between the line-count and the
   * line-length error; a tenth line is a line-count error; then the first
   * character outside the alphabet, row by row; then a blank inside a face.
   */
  function ParseNet(lines: seq<string>): (res: Result<seq<char>, FormatError>)
    ensures res.Ok? ==> |res.value| == Size && forall k :: 0 <= k < Size ==> IsColor(res.value[k])
  {
    if exists i :: 0 <= i < Height && i < |lines| && |lines[i]| > Width then Err(LineTooLong)
    else if |lines| != Height then Err(WrongLineCount)
    else
      var rows := PadAll(lines);
      match FirstInvalidIn(rows)
      case Some(ch) => Err(InvalidCharacter(ch))
      case None =>
        var s := Extract(rows);
        if exists k :: 0 <= k < Size && s[k] == ' ' then Err(BlankInFace)
        else
          assert forall k :: 0 <= k < Size ==> IsColor(s[k]) by {
            forall k | 0 <= k < Size ensures IsColor(s[k]) {
              Decompose(k);
              var f, r, c := k / 9, k % 9 / 3, k % 3;
              assert s[k] == rows[Top(f) + r][Left(f) + c];
            }
          }
          Ok(s)
  }

  /** A successfully read facelet is the character at its place in the given line, not padding. */
  lemma ParsedFacelet(lines: seq<string>, f: nat, r: nat, c: nat)
    requires ParseNet(lines).Ok? && f < 6 && r < 3 && c < 3
    ensures |lines| == Height && Left(f) + c < |lines[Top(f) + r]|
    ensures ParseNet(lines).value[Idx(f, r, c)] == lines[Top(f) + r][Left(f) + c]
  {
    var rows := PadAll(lines);
    var line := lines[Top(f) + r];
    var k := Idx(f, r, c);
    assert ParseNet(lines).value == Extract(rows);
    assert IsColor(Extract(rows)[k]);
    assert rows[Top(f) + r][..|line|] == line;
  }

  /** The face block, if any, that holds net cell (row, col). */
  function FaceAt(row: nat, col: nat): (r: Option<nat>)
    ensures r.Some? ==> r.value < 6 && Top(r.value) <= row < Top(r.value) + 3 && Left(r.value) <= col < Left(r.value) + 3
    ensures r.None? ==> forall f :: 0 <= f < 6 ==> !(Top(f) <= row < Top(f) + 3 && Left(f) <= col < Left(f) + 3)
  {
    if Height <= row || Width <= col then None
    else if 3 <= row < 6 then Some([L, F, R, B][col / 3])
    else if 3 <= col < 6 then Some(if row < 3 then U else D)
    else None
  }

  /** Every face block holds its own cells. */
  lemma FaceAtBlock(f: nat, r: nat, c: nat)
    requires f < 6 && r < 3 && c < 3
    ensures FaceAt(Top(f) + r, Left(f) + c) == Some(f)
  {
  }

  /** Cell (row, col) of the net of grid s: its facelet, or a blank outside the six blocks. */
  function NetCell(s: seq<char>, row: nat, col: nat): char
    requires |s| == Size
  {
    match FaceAt(row, col)
    case Some(f) => s[Idx(f, row - Top(f), col - Left(f))]
    case None => ' '
  }

  /** Row row of the net of s, at the full width. */
  function NetRow(s: seq<char>, row: nat): (line: string)
    requires |s| == Size
    ensures |line| == Width
  {
    seq(Width, col requires 0 <= col < Width => NetCell(s, row, col))
  }

  /** The 9 x 12 grid toString starts from: all blanks. */
  function BlankRows(): (g: seq<string>)
    ensures IsBlock(g)
  {
    seq(Height, _ => seq(Width, _ => ' '))
  }

  /** g with the 3x3 block whose top-left cell is (top, left) overwritten by face f of s. */
  function PlaceBlock(g: seq<string>, s: seq<char>, top: nat, left: nat, f: nat): (r: seq<string>)
    requires IsBlock(g) && |s| == Size && top + 3 <= Height && left + 3 <= Width && f < 6
    ensures IsBlock(r)
  {
    seq(Height, i requires 0 <= i < Height =>
      seq(Width, j requires 0 <= j < Width =>
        if top <= i < top + 3 && left <= j < left + 3 then s[Idx(f, i - top, j - left)] else g[i][j]))
  }

  /** Placing the six faces at their places on a blank grid draws the net. */
  lemma PlaceAllBlocks(s: seq<char>)
    requires |s| == Size
    ensures var g1 := PlaceBlock(BlankRows(), s, 0, 3, U);
      var g2 := PlaceBlock(g1, s, 3, 0, L);
      var g3 := PlaceBlock(g2, s, 3, 3, F);
      var g4 := PlaceBlock(g3, s, 3, 6, R);
      var g5 := PlaceBlock(g4, s, 3, 9, B);
      PlaceBlock(g5, s, 6, 3, D) == NetRows(s)
  {
    var g1 := PlaceBlock(BlankRows(), s, 0, 3, U);
    var g2 := PlaceBlock(g1, s, 3, 0, L);
    var g3 := PlaceBlock(g2, s, 3, 3, F);
    var g4 := PlaceBlock(g3, s, 3, 6, R);
    var g5 := PlaceBlock(g4, s, 3, 9, B);
    var g6 := PlaceBlock(g5, s, 6, 3, D);
    forall i | 0 <= i < Height ensures g6[i] == NetRows(s)[i] {
      forall j | 0 <= j < Width ensures g6[i][j] == NetCell(s, i, j) {
      }
    }
  }

  /** Index of the last non-blank character of line, or -1 when it is all blanks. */
  function LastNonSpace(line: string): (n: int)
    ensures -1 <= n < |line|
    ensures n >= 0 ==> line[n] != ' '
    ensures forall i :: n < i < |line| ==> line[i] == ' '
    decreases |line|
  {
    if line == [] then -1
    else if line[|line| - 1] != ' ' then |line| - 1
    else LastNonSpace(line[..|line| - 1])
  }

  /** line without its trailing blanks. */
  function Trim(line: string): (t: string)
    ensures |t| <= |line| && t == line[..|t|]
    ensures |t| > 0 ==> t[|t| - 1] != ' '
    ensures forall i :: |t| <= i < |line| ==> line[i] == ' '
  {
    line[..LastNonSpace(line) + 1]
  }

  /** A full-width line is its trimmed form padded back. */
  lemma PadTrim(line: string)
    requires |line| == Width
    ensures Pad(Trim(line)) == line
  {
  }

  /** The nine lines toString writes for grid s. */
  function NetLines(s: seq<char>): (lines: seq<string>)
    requires |s| == Size
    ensures |lines| == Height
    ensures forall i :: 0 <= i < Height ==> |lines[i]| <= Width && Pad(lines[i]) == NetRow(s, i)
  {
    var lines := seq(Height, row requires 0 <= row < Height => Trim(NetRow(s, row)));
    assert forall i :: 0 <= i < Height ==> Pad(lines[i]) == NetRow(s, i) by {
      forall i | 0 <= i < Height {
        PadTrim(NetRow(s, i));
      }
    }
    lines
  }

  /** Each line followed by a line break. */
  function Join(lines: seq<string>): string {
    if lines == [] then [] else lines[0] + "\n" + Join(lines[1..])
  }

  /** Joining one more line appends it and its break. */
  lemma {:induction false} JoinSnoc(lines: seq<string>, line: string)
    ensures Join(lines + [line]) == Join(lines) + line + "\n"
    decreases |lines|
  {
    if lines == [] {
      assert [] + [line] == [line];
    } else {
      assert (lines + [line])[1..] == lines[1..] + [line];
      JoinSnoc(lines[1..], line);
    }
  }

  /** The text toString returns for grid s. */
  function Serialize(s: seq<char>): (t: string)
    requires |s| == Size
    ensures (forall k :: 0 <= k < Size ==> !IsBreak(s[k])) ==> Lines(t) == NetLines(s)
  {
    var lines := NetLines(s);
    if forall k :: 0 <= k < Size ==> !IsBreak(s[k]) then
      assert forall i :: 0 <= i < Height ==> Unbroken(lines[i]) by {
        forall i, j | 0 <= i < Height && 0 <= j < |lines[i]|
          ensures !IsBreak(lines[i][j])
        {
          NetCellKept(s, i, j);
        }
      }
      LinesJoin(lines);
      Join(lines)
    else
      Join(lines)
  }

  /** A character that ends a line for readLine: a line feed or a carriage return. */
  predicate IsBreak(ch: char) {
    ch == '\n' || ch == '\r'
  }

  /** No character of line ends a line. */
  predicate Unbroken(line: string) {
    forall j :: 0 <= j < |line| ==> !IsBreak(line[j])
  }

  /** Position of the first line feed or carriage return in t. */
  function FirstBreak(t: string): (i: nat)
    requires !Unbroken(t)
    ensures i < |t| && IsBreak(t[i]) && Unbroken(t[..i])
  {
    if IsBreak(t[0]) then 0
    else
      assert !Unbroken(t[1..]) by {
        var j :| 0 <= j < |t| && IsBreak(t[j]);
        assert t[1..][j - 1] == t[j];
      }
      var i := FirstBreak(t[1..]) + 1;
      assert t[..i] == [t[0]] + t[1..][..i - 1];
      i
  }

  /**
   * The lines successive readLine calls return on text t: a line ends at
   * "\n", "\r" or "\r\n", and text after the last break is a last line.
   */
  function Lines(t: string): (lines: seq<string>)
    ensures forall k :: 0 <= k < |lines| ==> Unbroken(lines[k])
    decreases |t|
  {
    if t == [] then []
    else if !Unbroken(t) then
      var i := FirstBreak(t);
      var next := if t[i] == '\r' && i + 1 < |t| && t[i + 1] == '\n' then i + 2 else i + 1;
      [t[..i]] + Lines(t[next..])
    else [t]
  }

  /** A carriage return, and a carriage return followed by a line feed, each end one line; a final break adds no empty line. */
  lemma LineEndings()
    ensures Lines("a\rb\r\n") == ["a", "b"]
  {
    var t := "a\rb\r\n";
    var t1 := t[2..];
    assert t1 == "b\r\n";
    assert IsBreak(t1[1]) && !IsBreak(t1[0]);
    assert FirstBreak(t1) == 1 && t1[..1] == "b" && t1[1] == '\r' && t1[2] == '\n' && t1[3..] == [];
    assert Lines(t1) == ["b"];
    assert IsBreak(t[1]) && !IsBreak(t[0]);
    assert FirstBreak(t) == 1 && t[..1] == "a" && t[2] != '\n';
    assert Lines(t) == ["a"] + Lines(t1);
  }

  /** Two breaks in a row enclose an empty line. */
  lemma EmptyLine()
    ensures Lines("a\n\nb") == ["a", "", "b"]
  {
    var u := "a\n\nb";
    var u1 := u[2..];
    var u2 := u1[1..];
    assert u1 == "\nb" && u2 == "b";
    assert Unbroken(u2) && Lines(u2) == ["b"];
    assert IsBreak(u1[0]) && u1[..0] == "";
    assert Lines(u1) == [""] + Lines(u2);
    assert IsBreak(u[1]) && !IsBreak(u[0]) && u[..1] == "a";
    assert Lines(u) == ["a"] + Lines(u1);
  }

  /** Splitting joined lines at their breaks gives the lines back. */
  lemma {:induction false} LinesJoin(lines: seq<string>)
    requires forall k :: 0 <= k < |lines| ==> Unbroken(lines[k])
    ensures Lines(Join(lines)) == lines
    decreases |lines|
  {
    if lines != [] {
      var t := Join(lines);
      var l := lines[0];
      assert t == l + "\n" + Join(lines[1..]);
      assert t[|l|] == '\n' && t[..|l|] == l;
      assert !Unbroken(t);
      var i := FirstBreak(t);
      assert i == |l|;
      assert t[i + 1..] == Join(lines[1..]);
      LinesJoin(lines[1..]);
    }
  }

  /** Every cell of the net of s is a facelet of s or the blank. */
  lemma NetCellKept(s: seq<char>, row: nat, col: nat)
    requires |s| == Size
    ensures NetCell(s, row, col) == ' ' || exists k :: 0 <= k < Size && NetCell(s, row, col) == s[k]
  {
    match FaceAt(row, col)
    case Some(f) =>
      var k := Idx(f, row - Top(f), col - Left(f));
      assert NetCell(s, row, col) == s[k];
    case None =>
  }

  /** Every cell of the net of an all-colour grid is a colour letter or the blank. */
  lemma NetCellAllowed(s: seq<char>, row: nat, col: nat)
    requires |s| == Size && forall k :: 0 <= k < Size ==> IsColor(s[k])
    ensures Allowed(NetCell(s, row, col)) && !IsBreak(NetCell(s, row, col))
  {
  }

  /** The face blocks of the net of s are s. */
  lemma ExtractNet(s: seq<char>, rows: seq<string>)
    requires |s| == Size && IsBlock(rows)
    requires forall i :: 0 <= i < Height ==> rows[i] == NetRow(s, i)
    ensures Extract(rows) == s
  {
    var e := Extract(rows);
    forall f: nat, r: nat, c: nat | f < 6 && r < 3 && c < 3
      ensures e[Idx(f, r, c)] == s[Idx(f, r, c)]
    {
      FaceAtBlock(f, r, c);
      assert rows[Top(f) + r][Left(f) + c] == NetCell(s, Top(f) + r, Left(f) + c);
    }
    forall k | 0 <= k < Size ensures e[k] == s[k] {
      Decompose(k);
    }
  }

  /** s with face f overwritten by the 3x3 block of rows whose top-left cell is (top, left). */
  function CopyBlock(s: seq<char>, rows: seq<string>, top: nat, left: nat, f: nat): (r: seq<char>)
    requires |s| == Size && IsBlock(rows) && top + 3 <= Height && left + 3 <= Width && f < 6
    ensures |r| == Size
  {
    seq(Size, k requires 0 <= k < Size => if k / 9 == f then rows[top + k % 9 / 3][left + k % 3] else s[k])
  }

  /** Copying the six blocks from their places in the net, in any start grid, extracts the net. */
  lemma CopyAllBlocks(s: seq<char>, rows: seq<string>)
    requires |s| == Size && IsBlock(rows)
    ensures var s1 := CopyBlock(s, rows, 0, 3, U);
      var s2 := CopyBlock(s1, rows, 3, 0, L);
      var s3 := CopyBlock(s2, rows, 3, 3, F);
      var s4 := CopyBlock(s3, rows, 3, 6, R);
      var s5 := CopyBlock(s4, rows, 3, 9, B);
      CopyBlock(s5, rows, 6, 3, D) == Extract(rows)
  {
    var s1 := CopyBlock(s, rows, 0, 3, U);
    var s2 := CopyBlock(s1, rows, 3, 0, L);
    var s3 := CopyBlock(s2, rows, 3, 3, F);
    var s4 := CopyBlock(s3, rows, 3, 6, R);
    var s5 := CopyBlock(s4, rows, 3, 9, B);
    var s6 := CopyBlock(s5, rows, 6, 3, D);
    forall k | 0 <= k < Size ensures s6[k] == Extract(rows)[k] {
      Decompose(k);
      var f := k / 9;
      assert Extract(rows)[Idx(f, k % 9 / 3, k % 3)] == rows[Top(f) + k % 9 / 3][Left(f) + k % 3];
    }
  }

  /** Nine lines that are short enough, use only the alphabet and leave no blank in a face are accepted. */
  lemma ParseNetAccepts(lines: seq<string>, s: seq<char>)
    requires |lines| == Height && forall i :: 0 <= i < Height ==> |lines[i]| <= Width
    requires FirstInvalidIn(PadAll(lines)) == None
    requires Extract(PadAll(lines)) == s && forall k :: 0 <= k < |s| ==> s[k] != ' '
    ensures ParseNet(lines) == Ok(s)
  {
  }

  /** The full-width rows of the net of s. */
  function NetRows(s: seq<char>): (rows: seq<string>)
    requires |s| == Size
    ensures IsBlock(rows)
  {
    seq(Height, row requires 0 <= row < Height => NetRow(s, row))
  }

  /** Padding the written lines restores the full-width rows. */
  lemma PadNetLines(s: seq<char>)
    requires |s| == Size
    ensures PadAll(NetLines(s)) == NetRows(s)
  {
    forall i | 0 <= i < Height ensures PadAll(NetLines(s))[i] == NetRows(s)[i] {
      PadTrim(NetRow(s, i));
    }
  }

  /** The net of an all-colour grid uses only the alphabet. */
  lemma NetRowsAllowed(s: seq<char>)
    requires |s| == Size && forall k :: 0 <= k < Size ==> IsColor(s[k])
    ensures FirstInvalidIn(NetRows(s)) == None
  {
    forall i, j | 0 <= i < Height && 0 <= j < Width ensures Allowed(NetRows(s)[i][j]) {
      NetCellAllowed(s, i, j);
    }
  }

  /** The padded lines written for an all-colour grid pass the alphabet check and hold the grid. */
  lemma NetLinesBlock(s: seq<char>)
    requires |s| == Size && forall k :: 0 <= k < Size ==> IsColor(s[k])
    ensures FirstInvalidIn(PadAll(NetLines(s))) == None && Extract(PadAll(NetLines(s))) == s
  {
    PadNetLines(s);
    NetRowsAllowed(s);
    ExtractNet(s, NetRows(s));
  }

  /** Reading back the lines written for an all-colour grid gives the grid. */
  lemma ParseNetLines(s: seq<char>)
    requires |s| == Size && forall k :: 0 <= k < Size ==> IsColor(s[k])
    ensures ParseNet(NetLines(s)) == Ok(s)
  {
    NetLinesBlock(s);
    ParseNetAccepts(NetLines(s), s);
  }

  /** Round trip: toString's text, split into lines and read back, is the grid it was written from. */
  lemma RoundTrip(s: seq<char>)
    requires |s| == Size && forall k :: 0 <= k < Size ==> IsColor(s[k])
    ensures ParseNet(Lines(Serialize(s))) == Ok(s)
  {
    assert forall k :: 0 <= k < Size ==> !IsBreak(s[k]);
    assert Lines(Serialize(s)) == NetLines(s);
    ParseNetLines(s);
  }
}
