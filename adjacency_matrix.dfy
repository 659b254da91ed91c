/**
  The adjacency-matrix panel: an n-by-n grid of integers, rebuilt from the
  edge list whenever the graph changes (cell [source index][target index]
  holds the edge's weight, 0 elsewhere), resized keeping the overlapping
  block. A one-cell edit handler exists too, although the rendered table
  never shows the input that would call it.
 */
module AdjacencyMatrix {
  import opened Wrappers

  type Matrix = seq<seq<int>>

  /** An edge of the editor's element list: end-point ids and weight. */
  datatype EdgeData = EdgeData(source: string, target: string, weight: int)

  /** The matrix has `n` rows of `n` cells. */
  predicate IsSquare(m: Matrix, n: nat) {
    |m| == n && forall i :: 0 <= i < n ==> |m[i]| == n
  }

  function ZeroMatrix(n: nat): (m: Matrix)
    ensures IsSquare(m, n)
    ensures forall i, j :: 0 <= i < n && 0 <= j < n ==> m[i][j] == 0
  {
    seq(n, _ => seq(n, _ => 0))
  }

  /** The position of the first node with this id, or -1 (Array `findIndex`). */
  function IndexOf(ids: seq<string>, id: string): (r: int)
    ensures r == -1 <==> id !in ids
    ensures r != -1 ==> 0 <= r < |ids| && ids[r] == id && forall j :: 0 <= j < r ==> ids[j] != id
  {
    if ids == [] then -1
    else if ids[0] == id then 0
    else
      var rest := IndexOf(ids[1..], id);
      if rest == -1 then -1 else rest + 1
  }

  /** Edge `e` lands in cell [r][c]: its source is node r and its target node c. */
  predicate Lands(ids: seq<string>, e: EdgeData, r: int, c: int) {
    IndexOf(ids, e.source) == r && IndexOf(ids, e.target) == c
  }

  /** The value of cell [r][c]: the weight of the last edge landing there, or 0. */
  function CellValue(ids: seq<string>, edges: seq<EdgeData>, r: int, c: int): int
    decreases |edges|
  {
    if edges == [] then 0
    else if Lands(ids, edges[|edges| - 1], r, c) then edges[|edges| - 1].weight
    else CellValue(ids, edges[..|edges| - 1], r, c)
  }

  /** For repeated edges into the same cell the later edge in list order wins. */
  lemma {:induction false} LastEdgeWins(ids: seq<string>, edges: seq<EdgeData>, k: int, r: int, c: int)
    requires 0 <= k < |edges| && Lands(ids, edges[k], r, c)
    requires forall j :: k < j < |edges| ==> !Lands(ids, edges[j], r, c)
    ensures CellValue(ids, edges, r, c) == edges[k].weight
    decreases |edges|
  {
    if k < |edges| - 1 {
      var init := edges[..|edges| - 1];
      assert forall j :: 0 <= j < |init| ==> init[j] == edges[j];
      LastEdgeWins(ids, init, k, r, c);
    }
  }

  /** A cell no edge lands in is 0: in particular an edge with an unknown end
      point is skipped, and an edge from s to t never writes cell [t][s]. */
  lemma {:induction false} UntouchedCellIsZero(ids: seq<string>, edges: seq<EdgeData>, r: int, c: int)
    requires forall j :: 0 <= j < |edges| ==> !Lands(ids, edges[j], r, c)
    ensures CellValue(ids, edges, r, c) == 0
    decreases |edges|
  {
    if edges != [] {
      var init := edges[..|edges| - 1];
      assert forall j :: 0 <= j < |init| ==> init[j] == edges[j];
      UntouchedCellIsZero(ids, init, r, c);
    }
  }

  /** The rebuild, as written: an all-zero n-by-n matrix, then each edge whose
      two end points are found writes its weight into its cell. */
  method BuildMatrix(ids: seq<string>, edges: seq<EdgeData>) returns (m: Matrix)
    ensures IsSquare(m, |ids|)
    ensures forall r, c :: 0 <= r < |ids| && 0 <= c < |ids| ==> m[r][c] == CellValue(ids, edges, r, c)
  {
    var n := |ids|;
    m := ZeroMatrix(n);
    for k := 0 to |edges|
      invariant IsSquare(m, n)
      invariant forall r, c :: 0 <= r < n && 0 <= c < n ==> m[r][c] == CellValue(ids, edges[..k], r, c)
    {
      var e := edges[k];
      var sourceIndex := IndexOf(ids, e.source);
      var targetIndex := IndexOf(ids, e.target);
      assert edges[..k + 1][..k] == edges[..k];
      if sourceIndex != -1 && targetIndex != -1 {
        m := m[sourceIndex := m[sourceIndex][targetIndex := e.weight]];
      }
    }
    assert edges[..|edges|] == edges;
  }

  /** The resized matrix: newSize-by-newSize, keeping every cell inside the old
      bounds and filling the rest with 0. */
  function ResizeMatrix(m: Matrix, newSize: nat): (r: Matrix)
    ensures IsSquare(r, newSize)
    ensures forall i, j :: 0 <= i < newSize && 0 <= j < newSize ==>
              r[i][j] == if i < |m| && j < |m[i]| then m[i][j] else 0
  {
    seq(newSize, i requires 0 <= i < newSize =>
      seq(newSize, j requires 0 <= j < newSize => if i < |m| && j < |m[i]| then m[i][j] else 0))
  }

  /** Two square matrices of the same size with the same cells are equal. */
  lemma SquareExt(a: Matrix, b: Matrix, n: nat)
    requires IsSquare(a, n) && IsSquare(b, n)
    requires forall i, j :: 0 <= i < n && 0 <= j < n ==> a[i][j] == b[i][j]
    ensures a == b
  {
    forall i | 0 <= i < n
      ensures a[i] == b[i]
    {
      assert forall j :: 0 <= j < n ==> a[i][j] == b[i][j];
    }
  }

  /** Resizing a square matrix to its own size changes nothing. */
  lemma ResizeSameSize(m: Matrix, n: nat)
    requires IsSquare(m, n)
    ensures ResizeMatrix(m, n) == m
  {
    SquareExt(ResizeMatrix(m, n), m, n);
  }

  /** Growing and then shrinking back gives the original matrix. */
  lemma ResizeRoundTrip(m: Matrix, n: nat, bigger: nat)
    requires IsSquare(m, n) && n <= bigger
    ensures ResizeMatrix(ResizeMatrix(m, bigger), n) == m
  {
    SquareExt(ResizeMatrix(ResizeMatrix(m, bigger), n), m, n);
  }

  /** Shrinking after any resize is the same as resizing straight to the smaller size. */
  lemma ResizeThenShrink(m: Matrix, a: nat, b: nat)
    requires b <= a
    ensures ResizeMatrix(ResizeMatrix(m, a), b) == ResizeMatrix(m, b)
  {
    SquareExt(ResizeMatrix(ResizeMatrix(m, a), b), ResizeMatrix(m, b), b);
  }

  /** The number stored for an edited cell: the parsed integer, or 0 when the
      text is not a number (`parseInt(...) || 0`). */
  function CellInput(parsed: Option<int>): int {
    match parsed
    case Some(v) => v
    case None => 0
  }

  /** The length of the array built for a typed size: the number itself, 0
      when it is negative, and 0 when the text is not a number (NaN). */
  function InputLength(parsed: Option<int>): nat {
    match parsed
    case Some(v) => if v < 0 then 0 else v
    case None => 0
  }

  /** The panel's state: its size and its matrix. */
  class MatrixPanel {
    var size: nat
    var matrix: Matrix

    ghost predicate Valid()
      reads this
    {
      IsSquare(matrix, size)
    }

    /** Initially as many rows as nodes, all zero. */
    constructor (nodeCount: nat)
      ensures Valid() && size == nodeCount && matrix == ZeroMatrix(nodeCount)
    {
      size := nodeCount;
      matrix := ZeroMatrix(nodeCount);
    }

    method Resize(newSize: nat)
      modifies this
      ensures size == newSize && matrix == ResizeMatrix(old(matrix), newSize)
      ensures Valid()
    {
      matrix := ResizeMatrix(matrix, newSize);
      size := newSize;
    }

    /** The effect run when the graph changes: resize when the node count
        changed, then replace the matrix by the one rebuilt from the edges. */
    method OnGraphChange(ids: seq<string>, edges: seq<EdgeData>)
      modifies this
      ensures Valid() && size == |ids|
      ensures forall r, c :: 0 <= r < size && 0 <= c < size ==> matrix[r][c] == CellValue(ids, edges, r, c)
    {
      if |ids| != size {
        Resize(|ids|);
      }
      matrix := BuildMatrix(ids, edges);
    }

    /** Typing a size into the size input. The resize changes the size, so the
        effect that watches the size runs again: it resizes back to the node
        count and rebuilds from the edges, so a manual resize does not last.
        Typing the current size changes nothing but the matrix's copy. */
    method ResizeFromInput(parsed: Option<int>, ids: seq<string>, edges: seq<EdgeData>)
      modifies this
      ensures Valid()
      ensures parsed == Some(old(size)) ==> size == old(size) && matrix == ResizeMatrix(old(matrix), old(size))
      ensures parsed != Some(old(size)) ==>
                && size == |ids|
                && forall r, c :: 0 <= r < size && 0 <= c < size ==> matrix[r][c] == CellValue(ids, edges, r, c)
    {
      if parsed == Some(size) {
        Resize(size);
      } else {
        if parsed.Some? && parsed.value >= 0 {
          Resize(parsed.value);
        } else {
          matrix := ResizeMatrix(matrix, InputLength(parsed));
        }
        OnGraphChange(ids, edges);
      }
    }

    /** The cell handler: it stores the parsed number, or 0, in one cell and nowhere else.
        The table body shows plain values, so no user action reaches it. */
    method EditCell(row: nat, column: nat, parsed: Option<int>)
      requires Valid() && row < size && column < size
      modifies this
      ensures Valid() && size == old(size)
      ensures matrix[row][column] == CellInput(parsed)
      ensures forall i, j :: 0 <= i < size && 0 <= j < size && (i != row || j != column) ==>
                matrix[i][j] == old(matrix)[i][j]
    {
      var value := CellInput(parsed);
      matrix := matrix[row := matrix[row][column := value]];
    }
  }
}
