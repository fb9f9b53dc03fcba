# Rubik's cube state engine, modelled in Dafny

This project models the `RubiksCube` class of a small Java program (`RubiksCube.java`). The class keeps a 3x3x3 cube as 54 coloured facelets. It can:

- build a solved cube, or read a cube from a 9-line text net;
- apply the six face turns F, B, L, R, U and D, singly or as a string of move letters;
- tell whether the cube is solved;
- print the cube back as a net;
- compute the *order* of a move string: how many repetitions bring a solved cube back to looking solved.

The Java field `char[6][3][3] face` becomes one array of 54 characters. Facelet (f, r, c) sits at index `Idx(f, r, c)` = 9f + 3r + c. Faces are numbered U=0, L=1, F=2, R=3, B=4, D=5 and solved colours are `O G W B Y R`, as in the source.

Modules:

- `Facelets`: the index map, the solved colouring and the solved predicate.
- `Cycles`: disjoint 4-cycles of positions, used as an independent reference definition of the turns. It proves that applying cycles permutes the grid, that four passes restore it, and where each position's value comes from.
- `Moves`: the grid functions of the source's operations.
  - `RotateFace` is the two 4-way exchanges of `rotateFaceClockwise`.
  - `Wiring(f)` is each turn's strip table: which strip is written from which, and whether it is reversed.
  - `Migrate` is the read-all-then-write-all strip migration.
  - `Turn` is the whole move, and `Run` is `applyMoves`.
  - The module proves each turn equal to its five 4-cycles, and proves the properties below from that.
- `Net`: the text format. `ParseNet` is the reading constructor's checks in the source's order, and `Serialize` is `toString`. It proves that printing and re-reading gives the cube back.
- `Orders`: repeated application of a move string, and the answer of the order search.
- `Cube`: the class `RubiksCube` with its `face` array. Each of its methods runs the source's loops and is proved against the functions above.

Two behaviours of the code are not what its names and comments suggest. The model follows the code:

- `rotateFaceClockwise` is documented as a clockwise rotation of the face (doc comment, lines 101-104). Its corner exchange (lines 108-112) is a quarter turn. Its edge exchange (lines 114-118) is not: it moves (1,0) to (0,1), (0,1) to (2,1), (2,1) to (1,2) and (1,2) to (1,0). `Moves.RotateFaceAt` states the exchange as written.
- `rotateR` (lines 178-181) moves its strips in the same direction as `rotateL` (lines 160-163): up to front, front to down, down to back, back to up. The comment at line 177 records that the author's test of R still fails. `Moves.Wiring` records the table as written.

F and B touch disjoint sets of facelets, so "FB" acts as ten disjoint 4-cycles and the order search answers 4 for it (`Orders.FrontBackIsOrderFour`).

## Model

| member | source | states |
|---|---|---|
| Cube.RubiksCube.constructor | RubiksCube.java:22-28 | The nested loops leave every facelet (f, r, c) equal to the solved colour of face f, in a fresh array |
| Cube.RubiksCube.Unfilled | RubiksCube.java:31 | The reading constructor starts from a fresh 54-facelet array |
| Cube.RubiksCube.IsSolved | RubiksCube.java:216-222 | Returns true exactly when every facelet equals the solved colour of its face; changes nothing |
| Facelets.SolvedState | RubiksCube.java:20-28 | Facelet (f, r, c) of the solved grid is SOLVED_COLORS[f] for every face, row and column |
| Facelets.SolvedIsUnique | RubiksCube.java:216-222 | A grid is solved if and only if it equals the solved grid |
| Facelets.Decompose | RubiksCube.java:17 | Every index below 54 is Idx of exactly its own face, row and column |
| Cube.RubiksCube.RotateFaceClockwise | RubiksCube.java:105-119 | The two tmp-based 4-way swaps leave the array equal to RotateFace of the old grid |
| Moves.RotateFace | RubiksCube.java:105-119 | Rotating a face yields a 54-facelet grid holding the same multiset of colours |
| Moves.RotateFaceAt | RubiksCube.java:105-119 | Corners: new (0,0)=old (2,0), (2,0)=(2,2), (2,2)=(0,2), (0,2)=(0,0). Edges: new (0,1)=old (1,0), (1,0)=(1,2), (1,2)=(2,1), (2,1)=(0,1). The centre and all other faces are unchanged |
| Moves.RotateFaceFourTimes | RubiksCube.java:105-119 | Rotating a face four times restores the grid |
| Cube.RubiksCube.ReadStrip | RubiksCube.java:124-128 | Copies the three facelets of a strip, in the order the loops read them, into a fresh temporary |
| Cube.RubiksCube.WriteStrip | RubiksCube.java:130-133 | The write loop stores facelet i (or 2 - i when reversed) of the temporary into strip position i, and changes nothing else |
| Cube.RubiksCube.MigrateStrips | RubiksCube.java:124-133 | Reading all four strips before writing any gives Migrate of the old grid: every write reads the pre-move snapshot |
| Moves.MigrateFour | RubiksCube.java:130-133 | Migration is the four strip writes in table order, each from the snapshot |
| Cube.RubiksCube.RotateF | RubiksCube.java:121-134 | The array becomes Turn(old grid, F): the face rotation, then F's strip table |
| Cube.RubiksCube.RotateB | RubiksCube.java:136-149 | The array becomes Turn(old grid, B) |
| Cube.RubiksCube.RotateL | RubiksCube.java:151-164 | The array becomes Turn(old grid, L) |
| Cube.RubiksCube.RotateR | RubiksCube.java:166-182 | The array becomes Turn(old grid, R), with R's strips moving up to front as written |
| Cube.RubiksCube.RotateU | RubiksCube.java:184-199 | The array becomes Turn(old grid, U), sending front's top row to the right face |
| Cube.RubiksCube.RotateD | RubiksCube.java:201-214 | The array becomes Turn(old grid, D) |
| Moves.Wiring | RubiksCube.java:121-214 | Each turn's strip table has four valid wires, and no wire reads from or writes to the turned face itself |
| Moves.TurnWire | RubiksCube.java:121-214 | After a turn, facelet i of every destination strip holds facelet i (or 2 - i) of its source strip before the turn |
| Moves.WireAt | RubiksCube.java:121-214 | Each entry of every turn's strip table takes its value from the snapshot made before any write, from a strip off the turned face |
| Moves.WiringFollowsCycles | RubiksCube.java:121-214 | Wire j of every turn's table moves each facelet from position j to position j + 1 of one strip cycle, so the table and the cycles describe the same movement |
| Moves.WiringIsCycles | RubiksCube.java:121-214 | For every position, the strip writes of a turn draw its value from the same place as the three strip cycles do, and positions off the cycles keep theirs |
| Moves.FrontStrips | RubiksCube.java:124-133 | F gives U[2][i] from L[2-i][2], R[i][0] from U[2][i], D[0][i] from R[2-i][0] and L[i][2] from D[0][i] |
| Moves.TurnElsewhere | RubiksCube.java:121-214 | A facelet off the turned face that no strip write reaches keeps its colour |
| Moves.FrontKeepsUpperRows | RubiksCube.java:121-134 | F leaves rows 0 and 1 of the up face unchanged |
| Moves.TurnKeepsOppositeFace | RubiksCube.java:121-214 | A turn leaves every facelet of the opposite face unchanged |
| Moves.TurnIsCycles | RubiksCube.java:105-214 | Every turn equals its five disjoint 4-cycles (corners, edges and three strip cycles) applied to the grid |
| Moves.TurnCyclesValid | RubiksCube.java:105-214 | The five cycles of each turn lie on the grid and share no position |
| Moves.TurnAt | RubiksCube.java:105-214 | Every position after a turn holds the old value at its cycle predecessor |
| Moves.Turn | RubiksCube.java:105-214 | A turn (face rotation, then strip migration) yields a 54-facelet grid holding the same multiset of colours |
| Moves.TurnFourTimes | RubiksCube.java:105-214 | Four turns of the same face restore the whole grid |
| Moves.TurnKeepsCentres | RubiksCube.java:105-214 | A turn keeps every centre facelet (f, 1, 1) |
| Moves.MoveFace | RubiksCube.java:88-97 | A character selects a face exactly when it is one of F, B, L, R, U, D |
| Moves.Step | RubiksCube.java:86-97 | One character of a move string keeps the size of the grid and its multiset of colours |
| Cube.RubiksCube.ApplyMove | RubiksCube.java:87-97 | The switch turns the matching face, and leaves the grid unchanged for any other character |
| Cube.RubiksCube.ApplyMoves | RubiksCube.java:84-99 | The array becomes Run of the old grid over the string, left to right; null or empty changes nothing |
| Moves.RunAppend | RubiksCube.java:84-99 | Applying a + b equals applying a and then b |
| Moves.RunIgnoresUnknown | RubiksCube.java:95-96 | Characters other than the six move letters change nothing: the result is that of the move letters alone |
| Moves.Run | RubiksCube.java:84-99 | Any move string keeps the size of the grid and the multiset of colours |
| Moves.RunKeepsCentres | RubiksCube.java:84-99 | Any move string keeps every centre facelet |
| Moves.RunFourTimes | RubiksCube.java:84-99 | The same move letter four times restores the grid |
| Net.Pad | RubiksCube.java:45 | A line of at most 12 characters becomes 12 characters: the line itself, then blanks |
| Net.Lines | RubiksCube.java:35-48 | The lines readLine returns: none of them holds a line feed or carriage return |
| Net.FirstBreak | RubiksCube.java:35-48 | The first line break of a text that has one: a break, with no break before it |
| Net.LineEndings | RubiksCube.java:35-48 | A carriage return, and a carriage return followed by a line feed, each end one line; a final break adds no empty line |
| Net.EmptyLine | RubiksCube.java:35-48 | Two line feeds in a row enclose an empty line |
| Cube.RubiksCube.ReadLines | RubiksCube.java:33-51 | Accepts exactly 9 lines of at most 12 characters and pads them to 12. Otherwise "at most 12" if one of the first nine is too long, else "exactly 9 lines" |
| Cube.RubiksCube.FindInvalid | RubiksCube.java:55-60 | Returns the first character, row by row, outside blank and O G W B Y R, or none |
| Net.FirstInvalidIn | RubiksCube.java:55-60 | There is no invalid character exactly when every cell is blank or a colour letter |
| Cube.RubiksCube.CopyBlockToFace | RubiksCube.java:78-82 | Face f receives the 3x3 block at (top, left) of the lines; every other face is unchanged |
| Cube.RubiksCube.HasBlank | RubiksCube.java:70-75 | True exactly when some facelet is a blank |
| Cube.RubiksCube.FromLines | RubiksCube.java:30-76 | Fails exactly when ParseNet fails and with the same error; otherwise a fresh cube holding ParseNet's grid |
| Net.ParseNet | RubiksCube.java:30-76 | An accepted net yields 54 colour letters |
| Net.ParsedFacelet | RubiksCube.java:63-68 | Facelet (f, r, c) of an accepted net is character left(f)+c of line top(f)+r, at the offsets of the six block copies |
| Cube.RubiksCube.PlaceFaceOnGrid | RubiksCube.java:252-256 | The 3x3 block at (top, left) of the grid receives face f, and nothing else changes |
| Cube.RubiksCube.BlankGrid | RubiksCube.java:226-227 | A fresh 9 x 12 grid of blanks |
| Cube.RubiksCube.DrawNet | RubiksCube.java:226-233 | The grid holds the net: each face's block at its place, blanks elsewhere |
| Cube.RubiksCube.TrimmedRow | RubiksCube.java:238-247 | A row cut after its last non-blank column; an all-blank row gives the empty line |
| Cube.RubiksCube.WriteLines | RubiksCube.java:235-249 | The text is every trimmed row followed by a newline |
| Cube.RubiksCube.ToString | RubiksCube.java:224-250 | The text is Serialize of the grid |
| Net.Trim | RubiksCube.java:238-247 | The trimmed line is a prefix, ends in a non-blank, and only blanks were cut |
| Net.NetCellKept | RubiksCube.java:226-233 | Every cell of the printed grid is a blank or one of the cube's facelets |
| Net.NetLines | RubiksCube.java:235-249 | toString writes nine lines of at most 12 characters, and each line padded to 12 is its row of the grid |
| Net.LinesJoin | RubiksCube.java:235-249 | For lines with no line feed or carriage return, splitting their newline-terminated join into lines gives them back |
| Net.Serialize | RubiksCube.java:224-250 | When no facelet is a line feed or carriage return, the lines of the printed text are exactly NetLines |
| Net.RoundTrip | RubiksCube.java:30-76 | For every grid of colour letters, reading the printed net gives the same grid |
| Orders.Power | RubiksCube.java:263-265 | k rounds of a move string keep the size of the grid and the multiset of colours |
| Orders.IsOrderFound | RubiksCube.java:263-266 | The answer is the first round count up to 1000001 after which the cube is solved again |
| Orders.IsOrderNone | RubiksCube.java:263-267 | When no round count up to 1000001 solves the cube again, the answer is -1 |
| Orders.SolvedAfterMultiple | RubiksCube.java:258-269 | If m solves the cube after k rounds, it does so after every multiple of k |
| Orders.IsOrderUnique | RubiksCube.java:258-269 | The order search has only one possible answer |
| Cube.RubiksCube.Order | RubiksCube.java:258-269 | Returns 1 for null or empty input. Otherwise the first round count from 1 to 1000001 after which a fresh solved cube is solved again, or -1 if there is none |
| Orders.OrderFour | RubiksCube.java:258-269 | A string that acts as disjoint 4-cycles, one through four different colours, is solved after four rounds and not after one, two or three |
| Orders.LetterIsOrderFour | RubiksCube.java:258-269 | The order search answers 4 for each single move letter |
| Orders.FrontBackIsOrderFour | RubiksCube.java:258-269 | The order search answers 4 for "FB" |
| Orders.FrontBackApart | RubiksCube.java:121-149 | The ten cycles of F and B lie on the grid and are pairwise disjoint |

## Left out

- File reading (`BufferedReader`, `FileReader`, `close`, `IOException`) is not modelled. The reading constructor takes the file's lines as a sequence of strings with line terminators removed, and "a tenth line exists" becomes "more than nine lines".
- `IncorrectFormatException` is not part of this model. The four errors are the `FormatError` values, returned in a `Result` instead of thrown; `FormatError.Message` gives their texts.
- Java `null` strings are modelled as `Option<string>`'s `None`.
- `String.format("%-12s")`, `Arrays.fill` and `StringBuilder` are modelled by their effect: padding with blanks to 12, filling with blanks, and concatenation.
- Cube.RubiksCube.MigrateStrips: reads the four strips in the order of the turn's write table, not the order of the Java read loops. Reads change nothing, so every turn's result is the same.
- Cube.RubiksCube.Unfilled: does not state the initial content of the array (Java's `'\0'`). Every facelet is overwritten by the six block copies before it is read.
- Strings are sequences of Unicode scalar values, not Java's UTF-16 code units. For a character outside the Basic Multilingual Plane, Java's `length()` counts two units and `charAt` returns a surrogate half. On such input the line-length check and the reported invalid character can differ from the model's.
- Cube.RubiksCube.Order: the 1,000,001-round search is proved by its loop invariant and not evaluated. Its answer is stated through `Orders.IsOrder`.
- Physical correctness of the turns, and whether the order search equals the true permutation order, are not claimed. The source's comments describe clockwise quarter turns, and the two behaviours listed at the top give the places where the code differs. The source says nothing about how the order search relates to the permutation order.
