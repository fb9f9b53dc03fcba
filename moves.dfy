/**
 * The six face turns F, B, L, R, U and D as transformations of the facelet
 * grid. A turn first rotates its own face (two 4-way exchanges), then moves
 * four edge strips of the neighbouring faces along a fixed wiring, reading
 * all four strips before writing any of them.
 */
module Moves {
  import opened Wrappers
  import opened Facelets
  import opened Cycles

  /**
   * Three facelets of one face, in the order the turn code walks them:
   * a row left to right, a column top to bottom, or a column bottom to top.
   */
  datatype Strip = Row(face: nat, row: nat) | Col(face: nat, col: nat) | ColUp(face: nat, col: nat)
  {
    predicate Valid() {
      face < 6 && (if Row? then row < 3 else col < 3)
    }

    /** The grid position of the i-th facelet of the strip. */
    function At(i: nat): nat
      requires Valid() && i < 3
    {
      match this
      case Row(f, r) => Idx(f, r, i)
      case Col(f, c) => Idx(f, i, c)
      case ColUp(f, c) => Idx(f, 2 - i, c)
    }
  }

  /**
   * One line of a turn's migration table: facelet i of dst receives
   * facelet i of src, or facelet 2 - i of src when flip is set, as src
   * was before the migration started.
   */
  datatype Wire = Wire(dst: Strip, src: Strip, flip: bool)
  {
    predicate Valid() {
      dst.Valid() && src.Valid()
    }

    /** The wire writes grid position k. */
    predicate Writes(k: nat)
      requires Valid()
    {
      k == dst.At(0) || k == dst.At(1) || k == dst.At(2)
    }

    /** The grid position whose old value the wire writes to k (the last write wins). */
    function From(k: nat): (j: nat)
      requires Valid()
      ensures j < Size
    {
      if k == dst.At(2) then src.At(Pick(flip, 2))
      else if k == dst.At(1) then src.At(Pick(flip, 1))
      else src.At(Pick(flip, 0))
    }
  }

  /** The strip index read for index i: i itself, or 2 - i when the strip is reversed. */
  function Pick(flip: bool, i: nat): (j: nat)
    requires i < 3
    ensures j < 3
  {
    if flip then 2 - i else i
  }

  /** The migration table of the turn of face f, in the order the writes happen. */
  function Wiring(f: nat): (ws: seq<Wire>)
    requires f < 6
    ensures |ws| == 4 && forall i :: 0 <= i < 4 ==> ws[i].Valid()
    ensures forall i :: 0 <= i < 4 ==> ws[i].src.face != f && ws[i].dst.face != f
  {
    if f == U then
      [Wire(Row(F, 0), Row(L, 0), false), Wire(Row(R, 0), Row(F, 0), false),
       Wire(Row(B, 0), Row(R, 0), false), Wire(Row(L, 0), Row(B, 0), false)]
    else if f == L then
      [Wire(Col(F, 0), Col(U, 0), false), Wire(Col(D, 0), Col(F, 0), false),
       Wire(ColUp(B, 2), Col(D, 0), false), Wire(Col(U, 0), ColUp(B, 2), false)]
    else if f == F then
      [Wire(Row(U, 2), Col(L, 2), true), Wire(Col(R, 0), Row(U, 2), false),
       Wire(Row(D, 0), Col(R, 0), true), Wire(Col(L, 2), Row(D, 0), false)]
    else if f == R then
      [Wire(Col(F, 2), Col(U, 2), false), Wire(Col(D, 2), Col(F, 2), false),
       Wire(ColUp(B, 0), Col(D, 2), false), Wire(Col(U, 2), ColUp(B, 0), false)]
    else if f == B then
      [Wire(Row(U, 0), Col(R, 2), false), Wire(Col(L, 0), Row(U, 0), true),
       Wire(Row(D, 2), Col(L, 0), false), Wire(Col(R, 2), Row(D, 2), true)]
    else
      [Wire(Row(R, 2), Row(F, 2), false), Wire(Row(B, 2), Row(R, 2), false),
       Wire(Row(L, 2), Row(B, 2), false), Wire(Row(F, 2), Row(L, 2), false)]
  }

  /** The three values strip st holds in s. */
  function Get(s: seq<char>, st: Strip): (v: seq<char>)
    requires st.Valid() && |s| == Size
    ensures |v| == 3
  {
    seq(3, i requires 0 <= i < 3 => s[st.At(i)])
  }

  /** v forwards, or backwards when flip is set. */
  function Orient(v: seq<char>, flip: bool): (o: seq<char>)
    requires |v| == 3
    ensures |o| == 3
  {
    seq(3, i requires 0 <= i < 3 => v[Pick(flip, i)])
  }

  /** Writes v[0], ..., v[n - 1] into the first n facelets of strip st. */
  function PutPrefix(s: seq<char>, st: Strip, v: seq<char>, n: nat): (r: seq<char>)
    requires st.Valid() && |s| == Size && |v| == 3 && n <= 3
    ensures |r| == Size
  {
    if n == 0 then s else PutPrefix(s, st, v, n - 1)[st.At(n - 1) := v[n - 1]]
  }

  /** Writes the three values v into strip st. */
  function Put(s: seq<char>, st: Strip, v: seq<char>): (r: seq<char>)
    requires st.Valid() && |s| == Size && |v| == 3
    ensures |r| == Size
  {
    PutPrefix(s, st, v, 3)
  }

  predicate WiresValid(ws: seq<Wire>) {
    forall i :: 0 <= i < |ws| ==> ws[i].Valid()
  }

  /** Carries out the wires ws on cur, reading every source strip from pre. */
  function Paste(pre: seq<char>, cur: seq<char>, ws: seq<Wire>): (r: seq<char>)
    requires |pre| == Size && |cur| == Size && WiresValid(ws)
    ensures |r| == Size
    decreases |ws|
  {
    if ws == [] then cur
    else
      var w := ws[0];
      Paste(pre, Put(cur, w.dst, Orient(Get(pre, w.src), w.flip)), ws[1..])
  }

  /** A four-wire table is carried out as four strip writes, each from the snapshot s. */
  lemma MigrateFour(s: seq<char>, ws: seq<Wire>)
    requires |s| == Size && |ws| == 4 && WiresValid(ws)
    ensures Migrate(s, ws) ==
      var p0 := Put(s, ws[0].dst, Orient(Get(s, ws[0].src), ws[0].flip));
      var p1 := Put(p0, ws[1].dst, Orient(Get(s, ws[1].src), ws[1].flip));
      var p2 := Put(p1, ws[2].dst, Orient(Get(s, ws[2].src), ws[2].flip));
      Put(p2, ws[3].dst, Orient(Get(s, ws[3].src), ws[3].flip))
  {
    var p0 := Put(s, ws[0].dst, Orient(Get(s, ws[0].src), ws[0].flip));
    var p1 := Put(p0, ws[1].dst, Orient(Get(s, ws[1].src), ws[1].flip));
    var p2 := Put(p1, ws[2].dst, Orient(Get(s, ws[2].src), ws[2].flip));
    assert Paste(s, s, ws) == Paste(s, p0, ws[1..]);
    assert Paste(s, p0, ws[1..]) == Paste(s, p1, ws[2..]);
    assert Paste(s, p1, ws[2..]) == Paste(s, p2, ws[3..]);
  }

  /** The edge-strip migration of a turn: all strips are read from s before any is written. */
  function Migrate(s: seq<char>, ws: seq<Wire>): (r: seq<char>)
    requires |s| == Size && WiresValid(ws)
    ensures |r| == Size
  {
    Paste(s, s, ws)
  }

  /** The corner exchange of rotateFaceClockwise: (2,0) -> (0,0) -> (0,2) -> (2,2) -> (2,0). */
  function CornerCycle(f: nat): Cycle
    requires f < 6
  {
    Cycle(Idx(f, 2, 0), Idx(f, 0, 0), Idx(f, 0, 2), Idx(f, 2, 2))
  }

  /** The edge exchange of rotateFaceClockwise: (1,0) -> (0,1) -> (2,1) -> (1,2) -> (1,0). */
  function EdgeCycle(f: nat): Cycle
    requires f < 6
  {
    Cycle(Idx(f, 1, 0), Idx(f, 0, 1), Idx(f, 2, 1), Idx(f, 1, 2))
  }

  /** The two 4-way exchanges of rotateFaceClockwise: corners, then edges. */
  function FaceCycles(f: nat): seq<Cycle>
    requires f < 6
  {
    [CornerCycle(f), EdgeCycle(f)]
  }

  /** Rotation of face f's own 3x3 block, as rotateFaceClockwise does it. */
  function RotateFace(s: seq<char>, f: nat): (r: seq<char>)
    requires |s| == Size && f < 6
    ensures |r| == Size && multiset(r) == multiset(s)
  {
    assert AllFit(FaceCycles(f), Size);
    RotateAllPermutes(s, FaceCycles(f));
    RotateAll(s, FaceCycles(f))
  }

  /** The turn of face f: rotate the face, then migrate its four neighbouring strips. */
  function Turn(s: seq<char>, f: nat): (r: seq<char>)
    requires |s| == Size && f < 6
    ensures |r| == Size && multiset(r) == multiset(s)
  {
    var t := RotateFace(s, f);
    MigrateIsCycles(t, f);
    RotateAllPermutes(t, StripCycles(f));
    Migrate(t, Wiring(f))
  }

  /**
   * The path of the i-th facelet of each strip under the turn of face f,
   * written independently of the wiring as a 4-cycle of positions.
   */
  function StripCycle(f: nat, i: nat): Cycle
    requires f < 6 && i < 3
  {
    if f == U then Cycle(Idx(L, 0, i), Idx(F, 0, i), Idx(R, 0, i), Idx(B, 0, i))
    else if f == L then Cycle(Idx(U, i, 0), Idx(F, i, 0), Idx(D, i, 0), Idx(B, 2 - i, 2))
    else if f == F then Cycle(Idx(L, 2 - i, 2), Idx(U, 2, i), Idx(R, i, 0), Idx(D, 0, 2 - i))
    else if f == R then Cycle(Idx(U, i, 2), Idx(F, i, 2), Idx(D, i, 2), Idx(B, 2 - i, 0))
    else if f == B then Cycle(Idx(R, i, 2), Idx(U, 0, i), Idx(L, 2 - i, 0), Idx(D, 2, 2 - i))
    else Cycle(Idx(F, 2, i), Idx(R, 2, i), Idx(B, 2, i), Idx(L, 2, i))
  }

  function StripCycles(f: nat): seq<Cycle>
    requires f < 6
  {
    [StripCycle(f, 0), StripCycle(f, 1), StripCycle(f, 2)]
  }

  /** All five 4-cycles of the turn of face f. */
  function TurnCycles(f: nat): seq<Cycle>
    requires f < 6
  {
    FaceCycles(f) + StripCycles(f)
  }

  /** Five cycles that lie on the grid and pairwise share no position. */
  predicate FiveApart(c0: Cycle, c1: Cycle, c2: Cycle, c3: Cycle, c4: Cycle) {
    && c0.Fits(Size) && c1.Fits(Size) && c2.Fits(Size) && c3.Fits(Size) && c4.Fits(Size)
    && c0.Apart(c1) && c0.Apart(c2) && c0.Apart(c3) && c0.Apart(c4)
    && c1.Apart(c2) && c1.Apart(c3) && c1.Apart(c4)
    && c2.Apart(c3) && c2.Apart(c4)
    && c3.Apart(c4)
  }

  lemma FiveApartDisjoint(cs: seq<Cycle>)
    requires |cs| == 5 && FiveApart(cs[0], cs[1], cs[2], cs[3], cs[4])
    ensures AllFit(cs, Size) && Disjoint(cs)
  {
    forall i, j | 0 <= i < j < 5
      ensures cs[i].Apart(cs[j])
    {
      assert i == 0 || i == 1 || i == 2 || i == 3;
      assert j == 1 || j == 2 || j == 3 || j == 4;
    }
    forall i | 0 <= i < 5
      ensures cs[i].Fits(Size)
    {
      assert i == 0 || i == 1 || i == 2 || i == 3 || i == 4;
    }
  }

  /** The two face cycles and three strip cycles of the turn of face f, pairwise apart. */
  predicate TurnCyclesApart(f: nat)
    requires f < 6
  {
    FiveApart(CornerCycle(f), EdgeCycle(f), StripCycle(f, 0), StripCycle(f, 1), StripCycle(f, 2))
  }

  /** The corner and edge exchanges of a face lie on that face and are apart. */
  lemma FaceCyclesApart(f: nat)
    requires f < 6
    ensures CornerCycle(f).Fits(Size) && EdgeCycle(f).Fits(Size)
    ensures CornerCycle(f).Apart(EdgeCycle(f))
  {
  }

  /** Each strip cycle of a turn lies off the turning face, so it is apart from both face exchanges. */
  lemma StripApartFromFace(f: nat, i: nat)
    requires f < 6 && i < 3
    ensures StripCycle(f, i).Fits(Size)
    ensures CornerCycle(f).Apart(StripCycle(f, i)) && EdgeCycle(f).Apart(StripCycle(f, i))
  {
    StripCycleOffFace(f, i);
  }

  /** A strip cycle of a turn visits four distinct grid positions, none of them on the turned face. */
  lemma StripCycleOffFace(f: nat, i: nat)
    requires f < 6 && i < 3
    ensures StripCycle(f, i).Fits(Size)
    ensures var cy := StripCycle(f, i);
      && (cy.a < Idx(f, 0, 0) || Idx(f, 2, 2) < cy.a) && (cy.b < Idx(f, 0, 0) || Idx(f, 2, 2) < cy.b)
      && (cy.c < Idx(f, 0, 0) || Idx(f, 2, 2) < cy.c) && (cy.d < Idx(f, 0, 0) || Idx(f, 2, 2) < cy.d)
  {
    if f == U {} else if f == L {} else if f == F {} else if f == R {} else if f == B {} else {}
  }

  /** Two different strip cycles of one turn share no position. */
  lemma StripsApart(f: nat, i: nat, j: nat)
    requires f < 6 && i < j < 3
    ensures StripCycle(f, i).Apart(StripCycle(f, j))
  {
    if f == U {} else if f == L {} else if f == F {} else if f == R {} else if f == B {} else {}
  }

  /** The five cycles of every turn fit the grid and are pairwise apart. */
  lemma TurnCyclesAreApart(f: nat)
    requires f < 6
    ensures TurnCyclesApart(f)
  {
    FaceCyclesApart(f);
    StripApartFromFace(f, 0);
    StripApartFromFace(f, 1);
    StripApartFromFace(f, 2);
    StripsApart(f, 0, 1);
    StripsApart(f, 0, 2);
    StripsApart(f, 1, 2);
  }

  /** Five cycles that are pairwise apart make a valid turn. */
  lemma ApartCyclesValid(f: nat)
    requires f < 6 && TurnCyclesApart(f)
    ensures AllFit(TurnCycles(f), Size) && Disjoint(TurnCycles(f))
  {
    var cs := TurnCycles(f);
    assert cs == [CornerCycle(f), EdgeCycle(f), StripCycle(f, 0), StripCycle(f, 1), StripCycle(f, 2)];
    FiveApartDisjoint(cs);
  }

  /** The five cycles of every turn lie on the grid and share no position. */
  lemma TurnCyclesValid(f: nat)
    requires f < 6
    ensures AllFit(TurnCycles(f), Size) && Disjoint(TurnCycles(f))
  {
    TurnCyclesAreApart(f);
    ApartCyclesValid(f);
  }

  /** Writing a strip changes exactly its three positions. */
  lemma PutAt(s: seq<char>, st: Strip, v: seq<char>, k: nat)
    requires st.Valid() && |s| == Size && |v| == 3 && k < Size
    ensures Put(s, st, v)[k] ==
      if k == st.At(2) then v[2] else if k == st.At(1) then v[1] else if k == st.At(0) then v[0] else s[k]
  {
    assert PutPrefix(s, st, v, 1) == s[st.At(0) := v[0]];
    assert PutPrefix(s, st, v, 2) == s[st.At(0) := v[0]][st.At(1) := v[1]];
  }

  /** The position whose value, read before the migration, the last wire of ws writing k puts there. */
  function Feed(ws: seq<Wire>, k: nat): (r: Option<nat>)
    requires WiresValid(ws)
    ensures r.Some? ==> r.value < Size
    decreases |ws|
  {
    if ws == [] then None
    else match Feed(ws[1..], k)
      case Some(j) => Some(j)
      case None => if ws[0].Writes(k) then Some(ws[0].From(k)) else None
  }

  /** Pointwise meaning of Paste: a written position holds the value its wire read from pre. */
  lemma {:induction false} PasteAt(pre: seq<char>, cur: seq<char>, ws: seq<Wire>, k: nat)
    requires |pre| == Size && |cur| == Size && WiresValid(ws) && k < Size
    ensures Paste(pre, cur, ws)[k] == match Feed(ws, k) case Some(j) => pre[j] case None => cur[k]
    decreases |ws|
  {
    if ws != [] {
      var w := ws[0];
      var v := Orient(Get(pre, w.src), w.flip);
      var next := Put(cur, w.dst, v);
      assert WiresValid(ws[1..]);
      PasteAt(pre, next, ws[1..], k);
      PutAt(cur, w.dst, v, k);
    }
  }

  /** Where the migration of the turn of face f takes the value for position k from. */
  function MigrateSource(f: nat, k: nat): nat
    requires f < 6
  {
    match Feed(Wiring(f), k)
    case Some(j) => j
    case None => k
  }

  /** The last of four wires that writes k decides where k's value comes from: Feed unrolled for a four-wire table (FeedFour). */
  function LastWriter(w0: Wire, w1: Wire, w2: Wire, w3: Wire, k: nat): nat
    requires w0.Valid() && w1.Valid() && w2.Valid() && w3.Valid()
  {
    if w3.Writes(k) then w3.From(k)
    else if w2.Writes(k) then w2.From(k)
    else if w1.Writes(k) then w1.From(k)
    else if w0.Writes(k) then w0.From(k)
    else k
  }

  lemma FeedFour(ws: seq<Wire>, k: nat)
    requires |ws| == 4 && WiresValid(ws)
    ensures (match Feed(ws, k) case Some(j) => j case None => k) == LastWriter(ws[0], ws[1], ws[2], ws[3], k)
  {
    assert Feed(ws[3..], k) == if ws[3].Writes(k) then Some(ws[3].From(k)) else None by {
      assert ws[3..][1..] == [];
    }
    assert ws[2..][1..] == ws[3..] && ws[2..][0] == ws[2];
    assert ws[1..][1..] == ws[2..] && ws[1..][0] == ws[1];
    var f2 := Feed(ws[2..], k);
    assert f2 == if Feed(ws[3..], k).Some? then Feed(ws[3..], k) else if ws[2].Writes(k) then Some(ws[2].From(k)) else None;
    assert Feed(ws[1..], k) == if f2.Some? then f2 else if ws[1].Writes(k) then Some(ws[1].From(k)) else None;
  }

  /**
   * The strip cycle that facelet i of wire j follows: i itself, except on
   * the strips the F and B tables write in reverse.
   */
  function Lane(f: nat, j: nat, i: nat): (l: nat)
    requires i < 3
    ensures l < 3
  {
    if (f == F && 2 <= j) || (f == B && (j == 1 || j == 2)) then 2 - i else i
  }

  /** Wire j of the turn of face f moves each facelet from position j of its strip cycle to position j + 1. */
  predicate WireOnCycle(f: nat, j: nat, i: nat)
    requires f < 6 && j < 4 && i < 3
  {
    var w := Wiring(f)[j];
    var cy := StripCycle(f, Lane(f, j, i));
    && w.dst.At(i) == cy.At(if j == 3 then 0 else j + 1)
    && w.src.At(Pick(w.flip, i)) == cy.At(j)
  }

  /** The migration table and the strip cycles agree entry by entry. */
  lemma WiringFollowsCycles(f: nat, j: nat, i: nat)
    requires f < 6 && j < 4 && i < 3
    ensures WireOnCycle(f, j, i)
  {
    if f == U {} else if f == L {} else if f == F {} else if f == R {} else if f == B {} else {}
  }

  /** A position on a strip cycle receives, through the wiring, the value of its predecessor on that cycle. */
  lemma WiringOnCycle(f: nat, i: nat, k: nat)
    requires f < 6 && i < 3 && StripCycle(f, i).Has(k)
    ensures MigrateSource(f, k) == StripCycle(f, i).Pre(k)
  {
    var cy := StripCycle(f, i);
    var n := if k == cy.a then 0 else if k == cy.b then 1 else if k == cy.c then 2 else 3;
    assert k == cy.At(n);
    var j := if n == 0 then 3 else n - 1;
    var l := Lane(f, j, i);
    WireStep(f, j, l);
    assert Lane(f, j, l) == i;
    StripCycleOffFace(f, i);
    PreAt(cy, n);
  }

  /** Wire j of a turn carries position j of a strip cycle to position j + 1 of the same cycle. */
  lemma WireStep(f: nat, j: nat, i: nat)
    requires f < 6 && j < 4 && i < 3
    ensures var cy := StripCycle(f, Lane(f, j, i)); MigrateSource(f, cy.At(if j == 3 then 0 else j + 1)) == cy.At(j)
  {
    WiringFollowsCycles(f, j, i);
    WireAt(f, j, i);
  }

  /** A position on no strip cycle is written by no wire. */
  lemma WiringOffCycles(f: nat, k: nat)
    requires f < 6 && !Touches(StripCycles(f), k)
    ensures MigrateSource(f, k) == k
  {
    var ws := Wiring(f);
    forall j, i | 0 <= j < 4 && 0 <= i < 3
      ensures k != ws[j].dst.At(i)
    {
      WiringFollowsCycles(f, j, i);
      var l := Lane(f, j, i);
      assert StripCycles(f)[l] == StripCycle(f, l);
    }
    FeedFour(ws, k);
  }

  /** The wiring of every turn moves each position's value exactly as the strip cycles do. */
  lemma WiringIsCycles(f: nat, k: nat)
    requires f < 6 && k < Size
    ensures MigrateSource(f, k) == Source(StripCycles(f), k)
  {
    var cs := StripCycles(f);
    StripCyclesValid(f);
    if Touches(cs, k) {
      var i :| 0 <= i < 3 && cs[i].Has(k);
      WiringOnCycle(f, i, k);
      SourceOnCycle(cs, i, k);
    } else {
      SourceOffCycles(cs, k);
      WiringOffCycles(f, k);
    }
  }

  /** The strip cycles of a turn lie on the grid and share no position. */
  lemma StripCyclesValid(f: nat)
    requires f < 6
    ensures AllFit(StripCycles(f), Size) && Disjoint(StripCycles(f))
  {
    TurnCyclesValid(f);
    assert StripCycles(f) == TurnCycles(f)[2..];
  }

  /** The migration of a turn, read-all-then-write-all, is the three strip cycles. */
  lemma MigrateIsCycles(s: seq<char>, f: nat)
    requires |s| == Size && f < 6
    ensures AllFit(StripCycles(f), Size)
    ensures Migrate(s, Wiring(f)) == RotateAll(s, StripCycles(f))
  {
    StripCyclesValid(f);
    forall k | 0 <= k < Size
      ensures Migrate(s, Wiring(f))[k] == RotateAll(s, StripCycles(f))[k]
    {
      PasteAt(s, s, Wiring(f), k);
      RotateAllAt(s, StripCycles(f), k);
      WiringIsCycles(f, k);
    }
  }

  /** Reference definition: a turn is its five disjoint 4-cycles applied to the grid. */
  lemma TurnIsCycles(s: seq<char>, f: nat)
    requires |s| == Size && f < 6
    ensures AllFit(TurnCycles(f), Size) && Disjoint(TurnCycles(f))
    ensures Turn(s, f) == RotateAll(s, TurnCycles(f))
  {
    TurnCyclesValid(f);
    assert AllFit(FaceCycles(f), Size);
    MigrateIsCycles(RotateFace(s, f), f);
    StripCyclesValid(f);
    RotateAllAppend(s, FaceCycles(f), StripCycles(f));
  }

  /** Pointwise meaning of a turn: position k receives the value at Source(TurnCycles(f), k). */
  lemma TurnAt(s: seq<char>, f: nat, k: nat)
    requires |s| == Size && f < 6 && k < Size
    ensures Source(TurnCycles(f), k) < Size
    ensures Turn(s, f)[k] == s[Source(TurnCycles(f), k)]
  {
    TurnIsCycles(s, f);
    RotateAllAt(s, TurnCycles(f), k);
  }

  /** Four turns of the same face restore the grid. */
  lemma TurnFourTimes(s: seq<char>, f: nat)
    requires |s| == Size && f < 6
    ensures Turn(Turn(Turn(Turn(s, f), f), f), f) == s
  {
    var s1 := Turn(s, f);
    var s2 := Turn(s1, f);
    var s3 := Turn(s2, f);
    TurnIsCycles(s, f);
    TurnIsCycles(s1, f);
    TurnIsCycles(s2, f);
    TurnIsCycles(s3, f);
    RotateAllFourTimes(s, TurnCycles(f));
  }

  /** Facelets on none of the turn's five cycles keep their colour. */
  lemma TurnOutside(s: seq<char>, f: nat, k: nat)
    requires |s| == Size && f < 6 && k < Size && !Touches(TurnCycles(f), k)
    ensures Turn(s, f)[k] == s[k]
  {
    TurnIsCycles(s, f);
    RotateAllOutside(s, TurnCycles(f), k);
  }

  /** The face across the cube from face f. */
  function Opposite(f: nat): (g: nat)
    requires f < 6
    ensures g < 6 && g != f
  {
    [D, R, B, L, F, U][f]
  }

  /** Element i of a five-element sequence. */
  lemma FiveAt<T>(x: seq<T>, a: T, b: T, c: T, d: T, e: T, i: nat)
    requires x == [a, b, c, d, e] && i < 5
    ensures x[i] == if i == 0 then a else if i == 1 then b else if i == 2 then c else if i == 3 then d else e
  {
  }

  /** Cycle i of the turn of face f: the corner cycle, the edge cycle, then the three strip cycles. */
  lemma TurnCycleAt(f: nat, i: nat)
    requires f < 6 && i < 5
    ensures TurnCycles(f)[i] == if i == 0 then CornerCycle(f) else if i == 1 then EdgeCycle(f) else StripCycle(f, i - 2)
  {
    var x := TurnCycles(f);
    assert x == [CornerCycle(f), EdgeCycle(f), StripCycle(f, 0), StripCycle(f, 1), StripCycle(f, 2)];
    FiveAt(x, CornerCycle(f), EdgeCycle(f), StripCycle(f, 0), StripCycle(f, 1), StripCycle(f, 2), i);
  }

  /** No cycle of the turn of face f reaches a centre, or any facelet of the opposite face. */
  lemma TurnCyclesMiss(f: nat, k: nat)
    requires f < 6 && k < Size
    requires k == Idx(0, 1, 1) || k == Idx(1, 1, 1) || k == Idx(2, 1, 1) || k == Idx(3, 1, 1)
          || k == Idx(4, 1, 1) || k == Idx(5, 1, 1) || Idx(Opposite(f), 0, 0) <= k <= Idx(Opposite(f), 2, 2)
    ensures !Touches(TurnCycles(f), k)
  {
    var cs := TurnCycles(f);
    forall i | 0 <= i < 5 ensures !cs[i].Has(k) {
      TurnCycleAt(f, i);
      if i < 2 {
        FaceCyclesMiss(f, k);
      } else {
        StripCycleMiss(f, i - 2, k);
      }
    }
  }

  /** The face exchanges of a turn move neither the centre nor anything off the turned face. */
  lemma FaceCyclesMiss(f: nat, k: nat)
    requires f < 6 && k < Size
    requires k == Idx(0, 1, 1) || k == Idx(1, 1, 1) || k == Idx(2, 1, 1) || k == Idx(3, 1, 1)
          || k == Idx(4, 1, 1) || k == Idx(5, 1, 1) || Idx(Opposite(f), 0, 0) <= k <= Idx(Opposite(f), 2, 2)
    ensures !CornerCycle(f).Has(k) && !EdgeCycle(f).Has(k)
  {
  }

  /** No strip cycle of a turn visits a centre or the opposite face. */
  lemma StripCycleMiss(f: nat, i: nat, k: nat)
    requires f < 6 && i < 3 && k < Size
    requires k == Idx(0, 1, 1) || k == Idx(1, 1, 1) || k == Idx(2, 1, 1) || k == Idx(3, 1, 1)
          || k == Idx(4, 1, 1) || k == Idx(5, 1, 1) || Idx(Opposite(f), 0, 0) <= k <= Idx(Opposite(f), 2, 2)
    ensures !StripCycle(f, i).Has(k)
  {
    if f == U {} else if f == L {} else if f == F {} else if f == R {} else if f == B {} else {}
  }

  /** A turn keeps every centre facelet. */
  lemma TurnKeepsCentres(s: seq<char>, f: nat, g: nat)
    requires |s| == Size && f < 6 && g < 6
    ensures Turn(s, f)[Idx(g, 1, 1)] == s[Idx(g, 1, 1)]
  {
    TurnCyclesMiss(f, Idx(g, 1, 1));
    TurnOutside(s, f, Idx(g, 1, 1));
  }

  /** A turn leaves the opposite face alone. */
  lemma TurnKeepsOppositeFace(s: seq<char>, f: nat, r: nat, c: nat)
    requires |s| == Size && f < 6 && r < 3 && c < 3
    ensures Turn(s, f)[Idx(Opposite(f), r, c)] == s[Idx(Opposite(f), r, c)]
  {
    TurnCyclesMiss(f, Idx(Opposite(f), r, c));
    TurnOutside(s, f, Idx(Opposite(f), r, c));
  }

  /**
   * The face rotation as written: corners move (2,0) -> (0,0) -> (0,2) -> (2,2) -> (2,0),
   * edges move (1,0) -> (0,1) -> (2,1) -> (1,2) -> (1,0); the centre and every other face stay.
   */
  lemma RotateFaceAt(s: seq<char>, f: nat)
    requires |s| == Size && f < 6
    ensures var r := RotateFace(s, f);
      && r[Idx(f, 0, 0)] == s[Idx(f, 2, 0)] && r[Idx(f, 2, 0)] == s[Idx(f, 2, 2)]
      && r[Idx(f, 2, 2)] == s[Idx(f, 0, 2)] && r[Idx(f, 0, 2)] == s[Idx(f, 0, 0)]
      && r[Idx(f, 0, 1)] == s[Idx(f, 1, 0)] && r[Idx(f, 1, 0)] == s[Idx(f, 1, 2)]
      && r[Idx(f, 1, 2)] == s[Idx(f, 2, 1)] && r[Idx(f, 2, 1)] == s[Idx(f, 0, 1)]
      && r[Idx(f, 1, 1)] == s[Idx(f, 1, 1)]
      && forall k :: 0 <= k < Size && (k < Idx(f, 0, 0) || Idx(f, 2, 2) < k) ==> r[k] == s[k]
  {
    var cs := FaceCycles(f);
    assert AllFit(cs, Size) && Disjoint(cs);
    var r := RotateFace(s, f);
    forall k | 0 <= k < Size
      ensures r[k] == s[Source(cs, k)]
    {
      RotateAllAt(s, cs, k);
    }
    forall k | 0 <= k < Size && (k < Idx(f, 0, 0) || Idx(f, 2, 2) < k || k == Idx(f, 1, 1))
      ensures r[k] == s[k]
    {
      assert !cs[0].Has(k) && !cs[1].Has(k);
      SourceOffCycles(cs, k);
    }
    forall k | k == Idx(f, 0, 0) || k == Idx(f, 2, 0) || k == Idx(f, 2, 2) || k == Idx(f, 0, 2)
      ensures r[k] == s[CornerCycle(f).Pre(k)]
    {
      SourceOnCycle(cs, 0, k);
    }
    forall k | k == Idx(f, 0, 1) || k == Idx(f, 1, 0) || k == Idx(f, 1, 2) || k == Idx(f, 2, 1)
      ensures r[k] == s[EdgeCycle(f).Pre(k)]
    {
      SourceOnCycle(cs, 1, k);
    }
  }

  /** Rotating a face four times restores the grid. */
  lemma RotateFaceFourTimes(s: seq<char>, f: nat)
    requires |s| == Size && f < 6
    ensures RotateFace(RotateFace(RotateFace(RotateFace(s, f), f), f), f) == s
  {
    var cs := FaceCycles(f);
    assert AllFit(cs, Size) && Disjoint(cs);
    RotateAllFourTimes(s, cs);
  }

  /**
   * The migration table read entry by entry: facelet i of the destination
   * of wire j is taken from facelet i, or 2 - i when flipped, of its
   * source, and that source lies off the turned face.
   */
  predicate WireEntry(f: nat, j: nat, i: nat)
    requires f < 6 && j < 4 && i < 3
  {
    var w := Wiring(f)[j];
    var src := w.src.At(Pick(w.flip, i));
    && MigrateSource(f, w.dst.At(i)) == src
    && (src < Idx(f, 0, 0) || Idx(f, 2, 2) < src)
  }

  /** No position is the destination of two wires, or of two facelets of one wire. */
  predicate DestinationsApart(ws: seq<Wire>)
    requires WiresValid(ws)
  {
    forall j, j', i, i' :: 0 <= j < |ws| && 0 <= j' < |ws| && 0 <= i < 3 && 0 <= i' < 3 && (j != j' || i != i') ==>
      ws[j].dst.At(i) != ws[j'].dst.At(i')
  }

  /** In a table whose destinations do not overlap, a destination facelet is written only by its own wire. */
  lemma LastWriterOwn(ws: seq<Wire>, j: nat, i: nat)
    requires |ws| == 4 && WiresValid(ws) && DestinationsApart(ws) && j < 4 && i < 3
    ensures LastWriter(ws[0], ws[1], ws[2], ws[3], ws[j].dst.At(i)) == ws[j].src.At(Pick(ws[j].flip, i))
  {
    var k := ws[j].dst.At(i);
    forall j' | j < j' < 4 ensures !ws[j'].Writes(k) {
      assert k != ws[j'].dst.At(0) && k != ws[j'].dst.At(1) && k != ws[j'].dst.At(2);
    }
    assert ws[j].Writes(k);
    assert i != 2 ==> k != ws[j].dst.At(2);
    assert i == 0 ==> k != ws[j].dst.At(1);
  }

  /** The three facelets of a strip are different positions of its own face. */
  lemma StripOnFace(st: Strip, i: nat, i': nat)
    requires st.Valid() && i < 3 && i' < 3
    ensures Idx(st.face, 0, 0) <= st.At(i) <= Idx(st.face, 2, 2)
    ensures i != i' ==> st.At(i) != st.At(i')
  {
  }

  /** Destinations on four different faces never overlap. */
  lemma DestinationsOnFaces(ws: seq<Wire>)
    requires WiresValid(ws)
    requires forall j, j' :: 0 <= j < j' < |ws| ==> ws[j].dst.face != ws[j'].dst.face
    ensures DestinationsApart(ws)
  {
    forall j, j', i, i' | 0 <= j < |ws| && 0 <= j' < |ws| && 0 <= i < 3 && 0 <= i' < 3 && (j != j' || i != i')
      ensures ws[j].dst.At(i) != ws[j'].dst.At(i')
    {
      StripOnFace(ws[j].dst, i, i');
      StripOnFace(ws[j'].dst, i', i);
      if j != j' {
        assert ws[j].dst.face != ws[j'].dst.face;
      }
    }
  }

  /** Each turn's table writes four strips on four different faces, and reads none from the turned face. */
  lemma WiringFaces(f: nat)
    requires f < 6
    ensures forall j, j' :: 0 <= j < j' < 4 ==> Wiring(f)[j].dst.face != Wiring(f)[j'].dst.face
    ensures forall j :: 0 <= j < 4 ==> Wiring(f)[j].src.face != f
  {
    if f == U {} else if f == L {} else if f == F {} else if f == R {} else if f == B {} else {}
  }

  /** The destinations of every turn's table do not overlap. */
  lemma WiringApart(f: nat)
    requires f < 6
    ensures DestinationsApart(Wiring(f))
  {
    WiringFaces(f);
    DestinationsOnFaces(Wiring(f));
  }

  /** Every entry of every turn's table is carried out from the snapshot, from a strip off the turned face. */
  lemma WireAt(f: nat, j: nat, i: nat)
    requires f < 6 && j < 4 && i < 3
    ensures WireEntry(f, j, i)
  {
    var ws := Wiring(f);
    FeedFour(ws, ws[j].dst.At(i));
    WiringApart(f);
    LastWriterOwn(ws, j, i);
    WiringFaces(f);
    StripOnFace(ws[j].src, Pick(ws[j].flip, i), Pick(ws[j].flip, i));
  }

  /** After the turn of face f, every strip written by the wiring holds its source strip's old facelets. */
  lemma TurnWire(s: seq<char>, f: nat, j: nat, i: nat)
    requires |s| == Size && f < 6 && j < 4 && i < 3
    ensures var w := Wiring(f)[j]; Turn(s, f)[w.dst.At(i)] == s[w.src.At(Pick(w.flip, i))]
  {
    var w := Wiring(f)[j];
    var r := RotateFace(s, f);
    PasteAt(r, r, Wiring(f), w.dst.At(i));
    WireAt(f, j, i);
    RotateFaceAt(s, f);
  }

  /** A facelet off the turned face that no wire writes keeps its colour. */
  lemma TurnElsewhere(s: seq<char>, f: nat, k: nat)
    requires |s| == Size && f < 6 && k < Size && (k < Idx(f, 0, 0) || Idx(f, 2, 2) < k)
    requires forall j :: 0 <= j < 4 ==> !Wiring(f)[j].Writes(k)
    ensures Turn(s, f)[k] == s[k]
  {
    var r := RotateFace(s, f);
    var ws := Wiring(f);
    assert !ws[0].Writes(k) && !ws[1].Writes(k) && !ws[2].Writes(k) && !ws[3].Writes(k);
    FeedFour(ws, k);
    PasteAt(r, r, ws, k);
    RotateFaceAt(s, f);
  }

  /** The F move written out: U[2][i] from L[2-i][2], R[i][0] from U[2][i], D[0][i] from R[2-i][0], L[i][2] from D[0][i]. */
  lemma FrontStrips(s: seq<char>, i: nat)
    requires |s| == Size && i < 3
    ensures Turn(s, F)[Idx(U, 2, i)] == s[Idx(L, 2 - i, 2)]
    ensures Turn(s, F)[Idx(R, i, 0)] == s[Idx(U, 2, i)]
    ensures Turn(s, F)[Idx(D, 0, i)] == s[Idx(R, 2 - i, 0)]
    ensures Turn(s, F)[Idx(L, i, 2)] == s[Idx(D, 0, i)]
  {
    TurnWire(s, F, 0, i);
    TurnWire(s, F, 1, i);
    TurnWire(s, F, 2, i);
    TurnWire(s, F, 3, i);
  }

  /** The F move leaves the two upper rows of the up face alone. */
  lemma FrontKeepsUpperRows(s: seq<char>, r: nat, c: nat)
    requires |s| == Size && r < 2 && c < 3
    ensures Turn(s, F)[Idx(U, r, c)] == s[Idx(U, r, c)]
  {
    TurnElsewhere(s, F, Idx(U, r, c));
  }

  /** The face turned by a move letter of applyMoves; other characters turn nothing. */
  function MoveFace(ch: char): (r: Option<nat>)
    ensures r.Some? <==> ch in "FBLRUD"
    ensures r.Some? ==> r.value < 6
  {
    match ch
    case 'F' => Some(F)
    case 'B' => Some(B)
    case 'L' => Some(L)
    case 'R' => Some(R)
    case 'U' => Some(U)
    case 'D' => Some(D)
    case _ => None
  }

  /** One character of a move string: a turn, or nothing for an unknown character. */
  function Step(s: seq<char>, ch: char): (r: seq<char>)
    requires |s| == Size
    ensures |r| == Size && multiset(r) == multiset(s)
  {
    match MoveFace(ch)
    case Some(f) => Turn(s, f)
    case None => s
  }

  /** The grid after the characters of moves, applied first to last. */
  function Run(s: seq<char>, moves: string): (r: seq<char>)
    requires |s| == Size
    ensures |r| == Size && multiset(r) == multiset(s)
    decreases |moves|
  {
    if moves == [] then s else Step(Run(s, moves[..|moves| - 1]), moves[|moves| - 1])
  }

  /** Applying a then b is applying a + b. */
  lemma {:induction false} RunAppend(s: seq<char>, a: string, b: string)
    requires |s| == Size
    ensures Run(s, a + b) == Run(Run(s, a), b)
    decreases |b|
  {
    if b == [] {
      assert a + b == a;
    } else {
      var b' := b[..|b| - 1];
      assert (a + b)[..|a + b| - 1] == a + b';
      RunAppend(s, a, b');
    }
  }

  /** The move letters of m, in order. */
  function Known(m: string): (k: string)
    ensures |k| <= |m|
    ensures forall i :: 0 <= i < |k| ==> k[i] in "FBLRUD"
    decreases |m|
  {
    if m == [] then []
    else if m[|m| - 1] in "FBLRUD" then Known(m[..|m| - 1]) + [m[|m| - 1]]
    else Known(m[..|m| - 1])
  }

  /** Characters other than the six move letters are ignored. */
  lemma {:induction false} RunIgnoresUnknown(s: seq<char>, m: string)
    requires |s| == Size
    ensures Run(s, m) == Run(s, Known(m))
    decreases |m|
  {
    if m != [] {
      var m' := m[..|m| - 1];
      var ch := m[|m| - 1];
      RunIgnoresUnknown(s, m');
      if ch in "FBLRUD" {
        var k := Known(m') + [ch];
        assert k[..|k| - 1] == Known(m');
      }
    }
  }

  /** Any move string keeps every centre facelet. */
  lemma {:induction false} RunKeepsCentres(s: seq<char>, m: string, g: nat)
    requires |s| == Size && g < 6
    ensures Run(s, m)[Idx(g, 1, 1)] == s[Idx(g, 1, 1)]
    decreases |m|
  {
    if m != [] {
      var t := Run(s, m[..|m| - 1]);
      RunKeepsCentres(s, m[..|m| - 1], g);
      if MoveFace(m[|m| - 1]).Some? {
        TurnKeepsCentres(t, MoveFace(m[|m| - 1]).value, g);
      }
    }
  }

  /** Running one more character is one more step. */
  lemma RunSnoc(s: seq<char>, m: string, ch: char)
    requires |s| == Size
    ensures Run(s, m + [ch]) == Step(Run(s, m), ch)
  {
    assert (m + [ch])[..|m|] == m;
  }

  /** A move letter steps by the quarter turn of its face. */
  lemma StepIsTurn(s: seq<char>, ch: char)
    requires |s| == Size && ch in "FBLRUD"
    ensures MoveFace(ch).Some? && Step(s, ch) == Turn(s, MoveFace(ch).value)
  {
  }

  /** Four one-letter appends spell the four-letter string. */
  lemma FourLetters(ch: char)
    ensures [ch] + [ch] + [ch] + [ch] == [ch, ch, ch, ch]
  {
  }

  /** The same move letter four times restores the grid. */
  lemma RunFourTimes(s: seq<char>, ch: char)
    requires |s| == Size && ch in "FBLRUD"
    ensures Run(s, [ch, ch, ch, ch]) == s
  {
    StepIsTurn(s, ch);
    var f := MoveFace(ch).value;
    var p1 := [ch];
    var p2 := p1 + [ch];
    var p3 := p2 + [ch];
    var p4 := p3 + [ch];
    assert p1 == [] + [ch];
    RunSnoc(s, [], ch);
    var t1 := Run(s, p1);
    assert t1 == Turn(s, f);
    RunSnoc(s, p1, ch);
    StepIsTurn(t1, ch);
    var t2 := Run(s, p2);
    assert t2 == Turn(t1, f);
    RunSnoc(s, p2, ch);
    StepIsTurn(t2, ch);
    var t3 := Run(s, p3);
    assert t3 == Turn(t2, f);
    RunSnoc(s, p3, ch);
    StepIsTurn(t3, ch);
    assert Run(s, p4) == Turn(t3, f);
    FourLetters(ch);
    TurnFourTimes(s, f);
  }
}
