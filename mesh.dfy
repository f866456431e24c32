/**
 * The part of `Mesh` that feeds and drives the half-edge structure: the OBJ line dispatcher of
 * `loadMeshV4`, the vertex-selection guard of the keydown listener and the element count of the
 * draw call. `parseFloat` is a parameter: the model reads numbers but never computes with them.
 */
module Mesh {
  import opened Wrappers
  import opened JsBuiltins
  import opened HalfEdgeMesh

  /** One line of the file cut at its spaces, `txtList[i].split(' ')`. */
  type Row = seq<string>

  /** `line.split(' ')`. */
  function Tokens(line: string): (t: Row)
    ensures |t| >= 1
  {
    Split(line, " ")
  }

  /** Each line cut into tokens by `tokens`. */
  function RowsOf(tokens: string -> Row, txtList: seq<string>): (rows: seq<Row>)
    ensures |rows| == |txtList|
  {
    seq(|txtList|, i requires 0 <= i < |txtList| => tokens(txtList[i]))
  }

  /** The lines of the file, `text.split('\n')`, each cut at its spaces. */
  function Rows(text: string): seq<Row> {
    RowsOf(Tokens, Split(text, "\n"))
  }

  /** The line kinds `loadMeshV4` tells apart by the first token, `subString[0]`. */
  datatype LineKind = PositionLine | NormalLine | FaceLine | OtherLine

  function KindOf(row: Row): LineKind {
    if row == [] then OtherLine
    else if row[0] == "v" then PositionLine
    else if row[0] == "vn" then NormalLine
    else if row[0] == "f" then FaceLine
    else OtherLine
  }

  /** `row[i]` handed to `parseFloat`: past the end JavaScript reads `undefined`, which `parseFloat`
      converts to the string "undefined" first. */
  function Arg(row: Row, i: nat): string {
    if i < |row| then row[i] else "undefined"
  }

  /** `parseInt(token.split('//')[0]) - 1`: the 0-based vertex a face token names, `None` for `NaN`. */
  function FaceIndex(token: string): Option<int> {
    match JsParseInt(Split(token, "//")[0])
    case None => None
    case Some(n) => Some(n - 1)
  }

  /** A face line reading `subString[1..3]` past the end of its tokens: the source throws there. */
  predicate ShortFace(row: Row) {
    KindOf(row) == FaceLine && |row| < 4
  }

  /** What one line appends to `coords`: four entries for a `v` line, the last one 1, none otherwise. */
  function LineCoords(pf: string -> real, row: Row): (r: seq<real>)
    ensures KindOf(row) == PositionLine ==> |r| == 4 && r[3] == 1.0
    ensures KindOf(row) != PositionLine ==> r == []
  {
    if KindOf(row) == PositionLine then [pf(Arg(row, 1)), pf(Arg(row, 2)), pf(Arg(row, 3)), 1.0]
    else []
  }

  /** What one line appends to `normals`: four entries for a `vn` line, the last one 0, none otherwise. */
  function LineNormals(pf: string -> real, row: Row): (r: seq<real>)
    ensures KindOf(row) == NormalLine ==> |r| == 4 && r[3] == 0.0
    ensures KindOf(row) != NormalLine ==> r == []
  {
    if KindOf(row) == NormalLine then [pf(Arg(row, 1)), pf(Arg(row, 2)), pf(Arg(row, 3)), 0.0]
    else []
  }

  /** What one line appends to `this.x` (c = 1), `this.y` (c = 2) or `this.z` (c = 3): one entry
      for a `v` line, the same number that line puts at position c - 1 of its `coords` group. */
  function LineColumn(pf: string -> real, c: nat, row: Row): (r: seq<real>)
    ensures |r| == if KindOf(row) == PositionLine then 1 else 0
    ensures 1 <= c <= 3 && KindOf(row) == PositionLine ==> r[0] == LineCoords(pf, row)[c - 1]
  {
    if KindOf(row) == PositionLine then [pf(Arg(row, c))] else []
  }

  /** What one line appends to `indices`: its three vertex tokens read by `parse` for a complete
      `f` line, none otherwise. Mesh loading reads them with `FaceIndex`. */
  function LineIndices(parse: string -> Option<int>, row: Row): (r: seq<Option<int>>)
    ensures |r| == if KindOf(row) == FaceLine && !ShortFace(row) then 3 else 0
  {
    if KindOf(row) == FaceLine && |row| >= 4 then [parse(row[1]), parse(row[2]), parse(row[3])] else []
  }

  function CoordsPart(pf: string -> real): Row -> seq<real> {
    row => LineCoords(pf, row)
  }

  function NormalsPart(pf: string -> real): Row -> seq<real> {
    row => LineNormals(pf, row)
  }

  function ColumnPart(pf: string -> real, c: nat): Row -> seq<real> {
    row => LineColumn(pf, c, row)
  }

  function IndicesPart(parse: string -> Option<int>): Row -> seq<Option<int>> {
    row => LineIndices(parse, row)
  }

  /** Selects the lines of one kind. */
  function IsKind(kind: LineKind): Row -> bool {
    row => KindOf(row) == kind
  }

  /** Selects the face lines with three vertex tokens. */
  function IsCompleteFace(): Row -> bool {
    row => KindOf(row) == FaceLine && !ShortFace(row)
  }

  /** Everything the first `n` lines append to one array, in line order. */
  function Gather<T>(rows: seq<Row>, part: Row -> seq<T>, n: nat): seq<T>
    requires n <= |rows|
  {
    if n == 0 then [] else Gather(rows, part, n - 1) + part(rows[n - 1])
  }

  /** The lines among the first `n` that `keep` selects, in order. */
  function Kept(rows: seq<Row>, keep: Row -> bool, n: nat): (r: seq<Row>)
    requires n <= |rows|
    ensures |r| <= n
    ensures forall i :: 0 <= i < |r| ==> keep(r[i])
  {
    if n == 0 then []
    else Kept(rows, keep, n - 1) + (if keep(rows[n - 1]) then [rows[n - 1]] else [])
  }

  lemma {:induction false} ChunkBound(len: nat, j: nat, c: nat, k: nat)
    requires c < len && j < k
    ensures len * j + c < len * k
    decreases k
  {
    assert len * k == len * (k - 1) + len;
    if j < k - 1 {
      ChunkBound(len, j, c, k - 1);
    }
  }

  /** When every line `keep` selects appends `len` entries and every other line none, the array
      holds `len` entries per selected line. */
  lemma {:induction false} GatherLength<T>(rows: seq<Row>, part: Row -> seq<T>, keep: Row -> bool, len: nat, n: nat)
    requires n <= |rows|
    requires forall r :: |part(r)| == if keep(r) then len else 0
    ensures |Gather(rows, part, n)| == len * |Kept(rows, keep, n)|
    decreases n
  {
    if n > 0 {
      var m := n - 1;
      GatherLength(rows, part, keep, len, m);
      if keep(rows[m]) {
        var k := |Kept(rows, keep, m)|;
        assert |Kept(rows, keep, n)| == k + 1;
        assert len * (k + 1) == len * k + len;
      } else {
        assert Kept(rows, keep, n) == Kept(rows, keep, m);
      }
    }
  }

  /** ... and entries `len*j` to `len*j + len - 1` are what the `j`-th selected line appended. */
  lemma {:induction false} GatherChunk<T>(rows: seq<Row>, part: Row -> seq<T>, keep: Row -> bool, len: nat,
                                          n: nat, j: nat, c: nat)
    requires n <= |rows|
    requires forall r :: |part(r)| == if keep(r) then len else 0
    requires j < |Kept(rows, keep, n)| && c < len
    ensures len * j + c < |Gather(rows, part, n)|
    ensures Gather(rows, part, n)[len * j + c] == part(Kept(rows, keep, n)[j])[c]
    decreases n
  {
    var m := n - 1;
    GatherLength(rows, part, keep, len, m);
    GatherLength(rows, part, keep, len, n);
    var before := Kept(rows, keep, m);
    ChunkBound(len, j, c, |Kept(rows, keep, n)|);
    if j < |before| {
      GatherChunk(rows, part, keep, len, m, j, c);
    } else {
      assert len * j + c == |Gather(rows, part, m)| + c;
    }
  }

  /** The first of the first `n` lines that is a short face line, if any. */
  function FirstShortFace(rows: seq<Row>, n: nat): (r: Option<nat>)
    requires n <= |rows|
    ensures r.Some? ==> r.value < n && ShortFace(rows[r.value])
    ensures forall j :: 0 <= j < n && (r.None? || j < r.value) ==> !ShortFace(rows[j])
  {
    if n == 0 then None
    else match FirstShortFace(rows, n - 1)
      case Some(j) => Some(j)
      case None => if ShortFace(rows[n - 1]) then Some(n - 1) else None
  }

  /** A short face line among the first `n` stays the first one for every longer prefix. */
  lemma {:induction false} FirstShortFacePrefix(rows: seq<Row>, n: nat)
    requires n <= |rows| && FirstShortFace(rows, n).Some?
    ensures FirstShortFace(rows, |rows|) == FirstShortFace(rows, n)
    decreases |rows| - n
  {
    if n < |rows| {
      FirstShortFacePrefix(rows, n + 1);
    }
  }

  /** The lines `loadMeshV4` gets through: all of them, or those before the first short face line. */
  function LinesRead(rows: seq<Row>): (n: nat)
    ensures n <= |rows|
    ensures forall j :: 0 <= j < n ==> !ShortFace(rows[j])
    ensures n < |rows| ==> ShortFace(rows[n])
  {
    match FirstShortFace(rows, |rows|)
    case Some(j) => j
    case None => |rows|
  }

  /** Whether an index entry names one of `count` vertices (`vertices[i]` is defined). */
  predicate InRange(i: Option<int>, count: nat) {
    i.Some? && 0 <= i.value < count
  }

  /** The index list as vertex numbers when every entry names a vertex; otherwise the position of
      the first entry that does not, where `build` leaves an `undefined` origin. */
  function TrigsOf(idx: seq<Option<int>>, count: nat): (r: Result<seq<nat>, nat>)
    ensures r.Ok? <==> forall h :: 0 <= h < |idx| ==> InRange(idx[h], count)
    ensures r.Ok? ==> |r.value| == |idx| && forall h :: 0 <= h < |idx| ==> idx[h] == Some(r.value[h] as int)
    ensures r.Err? ==> r.error < |idx| && !InRange(idx[r.error], count)
    ensures r.Err? ==> forall h :: 0 <= h < r.error ==> InRange(idx[h], count)
  {
    if idx == [] then Ok([])
    else
      var last := idx[|idx| - 1];
      match TrigsOf(idx[..|idx| - 1], count)
      case Err(h) => Err(h)
      case Ok(ts) => if InRange(last, count) then Ok(ts + [last.value as nat]) else Err(|idx| - 1)
  }

  /** Stated once with literal divisors, so that the nonlinear facts stay out of the callers' proofs. */
  lemma WholeGroups(k: nat)
    ensures (4 * k) % 4 == 0 && (4 * k) / 4 == k && (3 * k) % 3 == 0
  {
  }

  /** The ways `loadMeshV4` throws. */
  datatype LoadError =
    | MissingFaceVertex(line: nat)  // an `f` line with fewer than three vertex tokens
    | BadFaceIndex(entry: nat)      // an index entry naming no vertex: `build` fails on it

  /** The `j`-th `v` line fills entries 4j to 4j+3 of `coords`: its three numbers, then 1. */
  lemma CoordsOfPositionLine(rows: seq<Row>, pf: string -> real, j: nat)
    requires j < |Kept(rows, IsKind(PositionLine), |rows|)|
    ensures var coords := Gather(rows, CoordsPart(pf), |rows|);
      var row := Kept(rows, IsKind(PositionLine), |rows|)[j];
      |coords| == 4 * |Kept(rows, IsKind(PositionLine), |rows|)| &&
      At(coords, 4 * j) == Number(pf(Arg(row, 1))) && At(coords, 4 * j + 1) == Number(pf(Arg(row, 2))) &&
      At(coords, 4 * j + 2) == Number(pf(Arg(row, 3))) && At(coords, 4 * j + 3) == Number(1.0)
  {
    var n := |rows|;
    var row := Kept(rows, IsKind(PositionLine), n)[j];
    assert KindOf(row) == PositionLine;
    GatherLength(rows, CoordsPart(pf), IsKind(PositionLine), 4, n);
    GatherChunk(rows, CoordsPart(pf), IsKind(PositionLine), 4, n, j, 0);
    GatherChunk(rows, CoordsPart(pf), IsKind(PositionLine), 4, n, j, 1);
    GatherChunk(rows, CoordsPart(pf), IsKind(PositionLine), 4, n, j, 2);
    GatherChunk(rows, CoordsPart(pf), IsKind(PositionLine), 4, n, j, 3);
  }

  /** The `j`-th `vn` line fills entries 4j to 4j+3 of `normals`: its three numbers, then 0. */
  lemma NormalsOfNormalLine(rows: seq<Row>, pf: string -> real, j: nat)
    requires j < |Kept(rows, IsKind(NormalLine), |rows|)|
    ensures var normals := Gather(rows, NormalsPart(pf), |rows|);
      var row := Kept(rows, IsKind(NormalLine), |rows|)[j];
      At(normals, 4 * j) == Number(pf(Arg(row, 1))) && At(normals, 4 * j + 1) == Number(pf(Arg(row, 2))) &&
      At(normals, 4 * j + 2) == Number(pf(Arg(row, 3))) && At(normals, 4 * j + 3) == Number(0.0)
  {
    var n := |rows|;
    var row := Kept(rows, IsKind(NormalLine), n)[j];
    assert KindOf(row) == NormalLine;
    GatherChunk(rows, NormalsPart(pf), IsKind(NormalLine), 4, n, j, 0);
    GatherChunk(rows, NormalsPart(pf), IsKind(NormalLine), 4, n, j, 1);
    GatherChunk(rows, NormalsPart(pf), IsKind(NormalLine), 4, n, j, 2);
    GatherChunk(rows, NormalsPart(pf), IsKind(NormalLine), 4, n, j, 3);
  }

  /** `this.x`, `this.y` and `this.z` hold the vertex coordinates again: entry `j` of column `c` is
      entry `4j + c - 1` of `coords`, for the lines read so far. */
  lemma ColumnOfCoords(rows: seq<Row>, pf: string -> real, c: nat, n: nat, j: nat)
    requires n <= |rows| && 1 <= c <= 3
    requires j < |Kept(rows, IsKind(PositionLine), n)|
    ensures |Gather(rows, ColumnPart(pf, c), n)| == |Kept(rows, IsKind(PositionLine), n)|
    ensures |Gather(rows, CoordsPart(pf), n)| == 4 * |Kept(rows, IsKind(PositionLine), n)|
    ensures Gather(rows, ColumnPart(pf, c), n)[j] == Gather(rows, CoordsPart(pf), n)[4 * j + c - 1]
  {
    var row := Kept(rows, IsKind(PositionLine), n)[j];
    assert KindOf(row) == PositionLine;
    GatherLength(rows, ColumnPart(pf, c), IsKind(PositionLine), 1, n);
    GatherLength(rows, CoordsPart(pf), IsKind(PositionLine), 4, n);
    GatherChunk(rows, ColumnPart(pf, c), IsKind(PositionLine), 1, n, j, 0);
    GatherChunk(rows, CoordsPart(pf), IsKind(PositionLine), 4, n, j, c - 1);
  }

  /** The `j`-th `v` line gives vertex `j` its position, with w = 1; the `j`-th `vn` line gives it
      its normal, with w = 0, and a vertex without a `vn` line of its own reads `undefined`. */
  lemma LoadedVertex(rows: seq<Row>, pf: string -> real, vs: seq<Vertex>, hs: seq<HalfEdge>, fs: seq<Face>,
                     trigs: seq<nat>, v: nat)
    requires IsBuilt(vs, hs, fs, Gather(rows, CoordsPart(pf), |rows|), trigs, Gather(rows, NormalsPart(pf), |rows|))
    requires v < |vs|
    ensures |vs| == |Kept(rows, IsKind(PositionLine), |rows|)|
    ensures var row := Kept(rows, IsKind(PositionLine), |rows|)[v];
      vs[v].position == [Number(pf(Arg(row, 1))), Number(pf(Arg(row, 2))), Number(pf(Arg(row, 3))), Number(1.0)]
    ensures var ns := Kept(rows, IsKind(NormalLine), |rows|);
      v < |ns| ==> var row := ns[v];
        vs[v].normal == [Number(pf(Arg(row, 1))), Number(pf(Arg(row, 2))), Number(pf(Arg(row, 3))), Number(0.0)]
    ensures v >= |Kept(rows, IsKind(NormalLine), |rows|)| ==> vs[v].normal == [Undefined, Undefined, Undefined, Undefined]
  {
    var n := |rows|;
    var coords := Gather(rows, CoordsPart(pf), n);
    var normals := Gather(rows, NormalsPart(pf), n);
    var ps := Kept(rows, IsKind(PositionLine), n);
    var ns := Kept(rows, IsKind(NormalLine), n);
    var built := NewVertex(v, coords, normals);
    assert vs[v].position == built.position && vs[v].normal == built.normal;
    GatherLength(rows, CoordsPart(pf), IsKind(PositionLine), 4, n);
    assert VertexCount(|coords|) == |ps|;
    CoordsOfPositionLine(rows, pf, v);
    if v < |ns| {
      NormalsOfNormalLine(rows, pf, v);
    } else {
      GatherLength(rows, NormalsPart(pf), IsKind(NormalLine), 4, n);
    }
  }

  /** The `f`-th complete `f` line fills entries 3f to 3f+2 of `indices` with its three vertex
      tokens, as read by `parse`. */
  lemma IndicesOfFaceLine(rows: seq<Row>, parse: string -> Option<int>, f: nat, c: nat)
    requires f < |Kept(rows, IsCompleteFace(), |rows|)| && c < 3
    ensures var idx := Gather(rows, IndicesPart(parse), |rows|);
      |idx| == 3 * |Kept(rows, IsCompleteFace(), |rows|)| && 3 * f + c < |idx| &&
      idx[3 * f + c] == parse(Kept(rows, IsCompleteFace(), |rows|)[f][c + 1])
  {
    var n := |rows|;
    var row := Kept(rows, IsCompleteFace(), n)[f];
    assert KindOf(row) == FaceLine && |row| >= 4;
    GatherLength(rows, IndicesPart(parse), IsCompleteFace(), 3, n);
    GatherChunk(rows, IndicesPart(parse), IsCompleteFace(), 3, n, f, c);
  }

  /** The `f`-th complete `f` line gives face `f`, and its `c`-th vertex token (counting from 0
      after the `f`), as read by `parse`, is the origin of half-edge `3f + c`. */
  lemma LoadedFace(rows: seq<Row>, pf: string -> real, parse: string -> Option<int>,
                   vs: seq<Vertex>, hs: seq<HalfEdge>, fs: seq<Face>, trigs: seq<nat>, f: nat, c: nat)
    requires TrigsOf(Gather(rows, IndicesPart(parse), |rows|), |vs|) == Ok(trigs)
    requires IsBuilt(vs, hs, fs, Gather(rows, CoordsPart(pf), |rows|), trigs, Gather(rows, NormalsPart(pf), |rows|))
    requires f < |fs| && c < 3
    ensures |fs| == |Kept(rows, IsCompleteFace(), |rows|)|
    ensures 3 * f + c < |hs| && Some(hs[3 * f + c].vertex as int) == parse(Kept(rows, IsCompleteFace(), |rows|)[f][c + 1])
  {
    var idx := Gather(rows, IndicesPart(parse), |rows|);
    var faces := Kept(rows, IsCompleteFace(), |rows|);
    GatherLength(rows, IndicesPart(parse), IsCompleteFace(), 3, |rows|);
    assert |trigs| == |idx| == 3 * |faces| && |fs| == |faces|;
    IndicesOfFaceLine(rows, parse, f, c);
    assert hs[3 * f + c].vertex == trigs[3 * f + c];
  }

  /** The vertex the keydown handler hands to `estrela`: the input's `parseInt` minus one, when that
      lies in `[1, tamanhoCoords]`; `NaN` and numbers out of range are refused. */
  function SelectedVertex(input: string, tamanhoCoords: int): (r: Option<nat>)
    ensures r.Some? <==> JsParseInt(input).Some? && 1 <= JsParseInt(input).value <= tamanhoCoords
    ensures r.Some? ==> r.value + 1 == JsParseInt(input).value && r.value < tamanhoCoords
  {
    match JsParseInt(input)
    case None => None
    case Some(n) => if n < 1 || n > tamanhoCoords then None else Some((n - 1) as nat)
  }

  lemma SelectionOfParse(input: string, tamanhoCoords: int, n: int)
    requires JsParseInt(input) == Some(n)
    ensures SelectedVertex(input, tamanhoCoords) == if 1 <= n <= tamanhoCoords then Some((n - 1) as nat) else None
  {
  }

  /** Typing the 1-based id `k` of a vertex selects vertex `k - 1` exactly when `k` is between 1 and
      `tamanhoCoords`, whatever non-digit text follows; a negative id is always refused. */
  lemma SelectionOfNumeral(k: nat, rest: string, tamanhoCoords: int)
    requires rest == [] || (!IsDigitIn(rest[0], 10) && !(k == 0 && (rest[0] == 'x' || rest[0] == 'X')))
    ensures SelectedVertex(DecimalText(k) + rest, tamanhoCoords) ==
      if 1 <= k <= tamanhoCoords then Some(k - 1) else None
    ensures SelectedVertex("-" + (DecimalText(k) + rest), tamanhoCoords) == None
  {
    ParseIntOfDecimal(k, rest);
    ParseIntOfNegatedDecimal(k, rest);
    SelectionOfParse(DecimalText(k) + rest, tamanhoCoords, k);
    SelectionOfParse("-" + (DecimalText(k) + rest), tamanhoCoords, -(k as int));
  }

  /** Before a mesh is loaded `tamanhoCoords` is -1 and every input is refused. */
  lemma NothingSelectableBeforeLoad(input: string)
    ensures SelectedVertex(input, -1) == None
  {
  }

  lemma FaceIndexOfParse(token: string, n: int)
    requires JsParseInt(Split(token, "//")[0]) == Some(n)
    ensures FaceIndex(token) == Some(n - 1)
  {
  }

  /** Cutting a numeral followed by nothing or by `/...` at the first `//` keeps the whole numeral. */
  lemma FirstPieceOfNumeral(d: string, rest: string) returns (tail: string)
    requires forall i :: 0 <= i < |d| ==> IsDigitIn(d[i], 10)
    requires rest == [] || rest[0] == '/'
    ensures Split(d + rest, "//")[0] == d + tail
    ensures tail == [] || tail[0] == '/'
  {
    var s := d + rest;
    FindFromLeftmost(s, "//", 0);
    match FindFrom(s, "//", 0)
    case None =>
      tail := rest;
    case Some(p) =>
      assert s[p..p + 2][0] == s[p] == '/';
      tail := rest[..p - |d|];
      assert s[..p] == d + tail;
  }

  /** A face token `k`, `k/...` or `k//...` names vertex `k - 1`. */
  lemma FaceIndexOfNumeral(k: nat, rest: string)
    requires rest == [] || rest[0] == '/'
    ensures FaceIndex(DecimalText(k) + rest) == Some(k - 1)
  {
    var tail := FirstPieceOfNumeral(DecimalText(k), rest);
    ParseIntOfDecimal(k, tail);
    FaceIndexOfParse(DecimalText(k) + rest, k);
  }

  /** A `v` line pushes its three numbers and 1 onto `coords` and one number onto each of `x`, `y`
      and `z`; the other arrays are unchanged. */
  lemma PositionLineStep(rows: seq<Row>, pf: string -> real, parse: string -> Option<int>, i: nat)
    requires i < |rows| && KindOf(rows[i]) == PositionLine
    ensures var row := rows[i];
      Gather(rows, CoordsPart(pf), i + 1) ==
        Gather(rows, CoordsPart(pf), i) + [pf(Arg(row, 1)), pf(Arg(row, 2)), pf(Arg(row, 3)), 1.0] &&
      Gather(rows, NormalsPart(pf), i + 1) == Gather(rows, NormalsPart(pf), i) &&
      Gather(rows, IndicesPart(parse), i + 1) == Gather(rows, IndicesPart(parse), i) &&
      Gather(rows, ColumnPart(pf, 1), i + 1) == Gather(rows, ColumnPart(pf, 1), i) + [pf(Arg(row, 1))] &&
      Gather(rows, ColumnPart(pf, 2), i + 1) == Gather(rows, ColumnPart(pf, 2), i) + [pf(Arg(row, 2))] &&
      Gather(rows, ColumnPart(pf, 3), i + 1) == Gather(rows, ColumnPart(pf, 3), i) + [pf(Arg(row, 3))] &&
      FirstShortFace(rows, i + 1) == FirstShortFace(rows, i)
  {
  }

  /** A `vn` line pushes its three numbers and 0 onto `normals` and nothing else. */
  lemma NormalLineStep(rows: seq<Row>, pf: string -> real, parse: string -> Option<int>, i: nat)
    requires i < |rows| && KindOf(rows[i]) == NormalLine
    ensures var row := rows[i];
      Gather(rows, CoordsPart(pf), i + 1) == Gather(rows, CoordsPart(pf), i) &&
      Gather(rows, NormalsPart(pf), i + 1) ==
        Gather(rows, NormalsPart(pf), i) + [pf(Arg(row, 1)), pf(Arg(row, 2)), pf(Arg(row, 3)), 0.0] &&
      Gather(rows, IndicesPart(parse), i + 1) == Gather(rows, IndicesPart(parse), i) &&
      Gather(rows, ColumnPart(pf, 1), i + 1) == Gather(rows, ColumnPart(pf, 1), i) &&
      Gather(rows, ColumnPart(pf, 2), i + 1) == Gather(rows, ColumnPart(pf, 2), i) &&
      Gather(rows, ColumnPart(pf, 3), i + 1) == Gather(rows, ColumnPart(pf, 3), i) &&
      FirstShortFace(rows, i + 1) == FirstShortFace(rows, i)
  {
  }

  /** A complete `f` line pushes its three vertex tokens, read by `parse`, onto `indices` and
      nothing else. */
  lemma FaceLineStep(rows: seq<Row>, pf: string -> real, parse: string -> Option<int>, i: nat)
    requires i < |rows| && KindOf(rows[i]) == FaceLine && |rows[i]| >= 4
    ensures var row := rows[i];
      Gather(rows, CoordsPart(pf), i + 1) == Gather(rows, CoordsPart(pf), i) &&
      Gather(rows, NormalsPart(pf), i + 1) == Gather(rows, NormalsPart(pf), i) &&
      Gather(rows, IndicesPart(parse), i + 1) ==
        Gather(rows, IndicesPart(parse), i) + [parse(row[1]), parse(row[2]), parse(row[3])] &&
      Gather(rows, ColumnPart(pf, 1), i + 1) == Gather(rows, ColumnPart(pf, 1), i) &&
      Gather(rows, ColumnPart(pf, 2), i + 1) == Gather(rows, ColumnPart(pf, 2), i) &&
      Gather(rows, ColumnPart(pf, 3), i + 1) == Gather(rows, ColumnPart(pf, 3), i) &&
      FirstShortFace(rows, i + 1) == FirstShortFace(rows, i)
  {
  }

  /** Any other line pushes nothing. */
  lemma OtherLineStep(rows: seq<Row>, pf: string -> real, parse: string -> Option<int>, i: nat)
    requires i < |rows| && KindOf(rows[i]) == OtherLine
    ensures Gather(rows, CoordsPart(pf), i + 1) == Gather(rows, CoordsPart(pf), i) &&
      Gather(rows, NormalsPart(pf), i + 1) == Gather(rows, NormalsPart(pf), i) &&
      Gather(rows, IndicesPart(parse), i + 1) == Gather(rows, IndicesPart(parse), i) &&
      Gather(rows, ColumnPart(pf, 1), i + 1) == Gather(rows, ColumnPart(pf, 1), i) &&
      Gather(rows, ColumnPart(pf, 2), i + 1) == Gather(rows, ColumnPart(pf, 2), i) &&
      Gather(rows, ColumnPart(pf, 3), i + 1) == Gather(rows, ColumnPart(pf, 3), i) &&
      FirstShortFace(rows, i + 1) == FirstShortFace(rows, i)
  {
  }

  /** The loop of `loadMeshV4` over the lines: what it pushes onto `coords`, `normals`, `indices`,
      `this.x`, `this.y` and `this.z`, and the number `n` of lines it gets through before a short
      face line stops it (all of them when there is none). The built-ins the loop calls are
      parameters: `tokens` for `split(' ')`, `pf` for `parseFloat` and `parse` for the face-token
      reader; mesh loading passes `Tokens` and `FaceIndex`. */
  method ReadLines(txtList: seq<string>, tokens: string -> Row, pf: string -> real, parse: string -> Option<int>)
    returns (coords: seq<real>, normals: seq<real>, indices: seq<Option<int>>,
             xs: seq<real>, ys: seq<real>, zs: seq<real>, n: nat)
    requires forall line :: |tokens(line)| >= 1
    ensures var rows := RowsOf(tokens, txtList);
      n == LinesRead(rows) &&
      coords == Gather(rows, CoordsPart(pf), n) && normals == Gather(rows, NormalsPart(pf), n) &&
      indices == Gather(rows, IndicesPart(parse), n) && xs == Gather(rows, ColumnPart(pf, 1), n) &&
      ys == Gather(rows, ColumnPart(pf, 2), n) && zs == Gather(rows, ColumnPart(pf, 3), n)
  {
    ghost var rows := RowsOf(tokens, txtList);
    coords, normals, indices, xs, ys, zs := [], [], [], [], [], [];
    for i := 0 to |txtList|
      invariant coords == Gather(rows, CoordsPart(pf), i)
      invariant normals == Gather(rows, NormalsPart(pf), i)
      invariant indices == Gather(rows, IndicesPart(parse), i)
      invariant xs == Gather(rows, ColumnPart(pf, 1), i)
      invariant ys == Gather(rows, ColumnPart(pf, 2), i)
      invariant zs == Gather(rows, ColumnPart(pf, 3), i)
      invariant FirstShortFace(rows, i) == None
    {
      var subString := tokens(txtList[i]);
      assert subString == rows[i];
      if subString[0] == "v" {
        PositionLineStep(rows, pf, parse, i);
        coords := coords + [pf(Arg(subString, 1)), pf(Arg(subString, 2)), pf(Arg(subString, 3)), 1.0];
        xs := xs + [pf(Arg(subString, 1))];
        ys := ys + [pf(Arg(subString, 2))];
        zs := zs + [pf(Arg(subString, 3))];
      } else if subString[0] == "vn" {
        NormalLineStep(rows, pf, parse, i);
        normals := normals + [pf(Arg(subString, 1)), pf(Arg(subString, 2)), pf(Arg(subString, 3)), 0.0];
      } else if subString[0] == "f" {
        if |subString| < 4 {
          assert FirstShortFace(rows, i + 1) == Some(i);
          FirstShortFacePrefix(rows, i + 1);
          return coords, normals, indices, xs, ys, zs, i;
        }
        FaceLineStep(rows, pf, parse, i);
        indices := indices + [parse(subString[1]), parse(subString[2]), parse(subString[3])];
      } else {
        OtherLineStep(rows, pf, parse, i);
      }
    }
    n := |txtList|;
  }

  class Mesh {
    const heds: HalfEdgeDS
    var tamanhoCoords: int
    var x: seq<real>
    var y: seq<real>
    var z: seq<real>

    constructor()
      ensures Valid() && fresh(heds)
      ensures heds.vertices == [] && heds.halfEdges == [] && heds.faces == []
      ensures tamanhoCoords == -1 && x == [] && y == [] && z == []
    {
      heds := new HalfEdgeDS();
      tamanhoCoords := -1;
      x, y, z := [], [], [];
    }

    /** Before loading the structure is empty and `tamanhoCoords` is -1; afterwards
        `tamanhoCoords` is its number of vertices. */
    ghost predicate Valid()
      reads this, heds
    {
      heds.Valid() && |x| == |y| == |z| &&
      if tamanhoCoords == -1 then heds.vertices == [] && heds.halfEdges == [] && heds.faces == []
      else tamanhoCoords == |heds.vertices|
    }

    /** `loadMeshV4` once the file is cut into lines: the loop over them, then `build` and
        `tamanhoCoords`, with the built-ins the loop calls as parameters (see `ReadLines`). */
    method Load(txtList: seq<string>, tokens: string -> Row, pf: string -> real, parse: string -> Option<int>)
      returns (r: Result<(), LoadError>)
      requires Valid() && tamanhoCoords == -1
      requires forall line :: |tokens(line)| >= 1
      modifies this, heds
      ensures Valid()
      ensures var rows := RowsOf(tokens, txtList); var n := LinesRead(rows);
        x == old(x) + Gather(rows, ColumnPart(pf, 1), n) &&
        y == old(y) + Gather(rows, ColumnPart(pf, 2), n) &&
        z == old(z) + Gather(rows, ColumnPart(pf, 3), n)
      ensures var rows := RowsOf(tokens, txtList);
        LinesRead(rows) < |rows| ==>
          r == Err(MissingFaceVertex(LinesRead(rows))) && unchanged(heds) && tamanhoCoords == -1
      ensures var rows := RowsOf(tokens, txtList);
        var coords := Gather(rows, CoordsPart(pf), |rows|);
        var normals := Gather(rows, NormalsPart(pf), |rows|);
        var idx := Gather(rows, IndicesPart(parse), |rows|);
        LinesRead(rows) == |rows| ==>
          match TrigsOf(idx, |coords| / 4)
          case Ok(trigs) =>
            r == Ok(()) && heds.BuiltFrom(coords, trigs, normals) && tamanhoCoords == |coords| / 4 &&
            tamanhoCoords == |Kept(rows, IsKind(PositionLine), |rows|)|
          case Err(h) => r == Err(BadFaceIndex(h)) && unchanged(heds) && tamanhoCoords == -1
    {
      ghost var rows := RowsOf(tokens, txtList);
      var coords, normals, indices, xs, ys, zs, n := ReadLines(txtList, tokens, pf, parse);
      GatherLength(rows, ColumnPart(pf, 1), IsKind(PositionLine), 1, n);
      GatherLength(rows, ColumnPart(pf, 2), IsKind(PositionLine), 1, n);
      GatherLength(rows, ColumnPart(pf, 3), IsKind(PositionLine), 1, n);
      // The source pushes onto `this.x`, `this.y` and `this.z` line by line; what the lines before
      // a throw pushed stays, as here.
      x, y, z := x + xs, y + ys, z + zs;
      if n < |txtList| {
        return Err(MissingFaceVertex(n));
      }
      GatherLength(rows, CoordsPart(pf), IsKind(PositionLine), 4, |rows|);
      GatherLength(rows, IndicesPart(parse), IsCompleteFace(), 3, |rows|);
      ghost var vertexLines := |Kept(rows, IsKind(PositionLine), |rows|)|;
      ghost var faceLines := |Kept(rows, IsCompleteFace(), |rows|)|;
      WholeGroups(vertexLines);
      WholeGroups(faceLines);
      r := BuildMesh(coords, normals, indices);
    }

    /** The end of `loadMeshV4`: `build(coords, indices, normals)`, then `tamanhoCoords` as the
        number of vertices, `coords.length / 4`. An index entry naming no vertex makes `build` fail. */
    method BuildMesh(coords: seq<real>, normals: seq<real>, indices: seq<Option<int>>)
      returns (r: Result<(), LoadError>)
      requires Valid() && tamanhoCoords == -1
      requires |coords| % 4 == 0 && |indices| % 3 == 0
      modifies this, heds
      ensures Valid() && x == old(x) && y == old(y) && z == old(z)
      ensures match TrigsOf(indices, |coords| / 4)
        case Ok(trigs) =>
          r == Ok(()) && heds.BuiltFrom(coords, trigs, normals) && tamanhoCoords == |coords| / 4
        case Err(h) => r == Err(BadFaceIndex(h)) && unchanged(heds) && tamanhoCoords == -1
    {
      var count := |coords| / 4;
      assert VertexCount(|coords|) == count;
      match TrigsOf(indices, count)
      case Err(h) =>
        r := Err(BadFaceIndex(h));
      case Ok(trigs) =>
        forall t | 0 <= t < |trigs| ensures trigs[t] < VertexCount(|coords|) {
          assert InRange(indices[t], count);
        }
        heds.Build(coords, trigs, normals);
        tamanhoCoords := count;
        r := Ok(());
    }

    /** `loadMeshV4(text)` on the first mesh loaded: `text.split('\n')`, each line cut at its
        spaces, face tokens read by `FaceIndex`. */
    method LoadMeshV4(text: string, pf: string -> real) returns (r: Result<(), LoadError>)
      requires Valid() && tamanhoCoords == -1
      modifies this, heds
      ensures Valid()
      ensures var rows := Rows(text); var n := LinesRead(rows);
        x == old(x) + Gather(rows, ColumnPart(pf, 1), n) &&
        y == old(y) + Gather(rows, ColumnPart(pf, 2), n) &&
        z == old(z) + Gather(rows, ColumnPart(pf, 3), n)
      ensures var rows := Rows(text);
        LinesRead(rows) < |rows| ==>
          r == Err(MissingFaceVertex(LinesRead(rows))) && unchanged(heds) && tamanhoCoords == -1
      ensures var rows := Rows(text);
        var coords := Gather(rows, CoordsPart(pf), |rows|);
        var normals := Gather(rows, NormalsPart(pf), |rows|);
        var idx := Gather(rows, IndicesPart(FaceIndex), |rows|);
        LinesRead(rows) == |rows| ==>
          match TrigsOf(idx, |coords| / 4)
          case Ok(trigs) =>
            r == Ok(()) && heds.BuiltFrom(coords, trigs, normals) && tamanhoCoords == |coords| / 4 &&
            tamanhoCoords == |Kept(rows, IsKind(PositionLine), |rows|)|
          case Err(h) => r == Err(BadFaceIndex(h)) && unchanged(heds) && tamanhoCoords == -1
    {
      var txtList := Split(text, "\n");
      r := Load(txtList, Tokens, pf, FaceIndex);
    }

    /** The keydown handler on Enter: the guard, then `estrela` on the selected vertex. `None`
        stands for the alert that refuses the input. */
    method SelectVertex(input: string) returns (outcome: Option<StarOutcome>, ghost walk: seq<nat>)
      requires Valid()
      modifies heds
      ensures Valid()
      ensures heds.halfEdges == old(heds.halfEdges) && heds.faces == old(heds.faces)
      ensures outcome.None? <==> SelectedVertex(input, tamanhoCoords).None?
      ensures outcome.None? ==> heds.vertices == old(heds.vertices)
      ensures outcome.Some? ==>
        var v := SelectedVertex(input, tamanhoCoords).value;
        v < |old(heds.vertices)| &&
        IsStar(old(heds.vertices), heds.halfEdges, heds.faces, v, outcome.value, heds.vertices, walk)
    {
      var modelVertex := JsParseInt(input);
      if modelVertex.None? || modelVertex.value < 1 || modelVertex.value > tamanhoCoords {
        return None, [];
      }
      var v := (modelVertex.value - 1) as nat;
      assert SelectedVertex(input, tamanhoCoords) == Some(v) && v < |heds.vertices|;
      var painted;
      painted, walk := heds.Estrela(v);
      outcome := Some(painted);
    }

    /** The element count of the draw call, `faces.length * 3`: one index per half-edge, so exactly
        the length of the index buffer `getVBOs` exports. */
    function DrawCount(): (c: nat)
      reads this, heds
      ensures heds.Valid() ==> c == |heds.halfEdges|
      ensures forall coords, colors, normals, indices ::
        heds.Valid() && IsExport(heds.vertices, heds.halfEdges, coords, colors, normals, indices) ==> c == |indices|
    {
      |heds.faces| * 3
    }
  }
}
