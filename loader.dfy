/** The shape-model loader of flybys/render.py (`load_shape_model`).

    The file is read as whitespace-separated rows with the four columns
    TYPE, X1, X2, X3. Rows tagged "v" give the vertex list, rows tagged "f"
    give the face list with every field turned from one-based into
    zero-based addressing, and every other row is dropped. Tokenising the
    text is not modelled: the input is the sequence of rows as the table
    holds them, with the numeric columns as reals (the table keeps them as
    floating-point numbers). */
module Loader {

  /** One row of the shape-model table. */
  datatype Record = Record(tag: string, x1: real, x2: real, x3: real)

  /** A vertex keeps the three numeric fields of its row as they are. */
  datatype Vertex = Vertex(x: real, y: real, z: real)

  /** A face holds three zero-based indices into the vertex list. */
  datatype Face = Face(a: int, b: int, c: int)

  datatype Mesh = Mesh(vertices: seq<Vertex>, faces: seq<Face>)

  const VertexTag := "v"
  const FaceTag := "f"

  /** A real with no fractional part. */
  predicate IsWhole(x: real) {
    x.Floor as real == x
  }

  /** Conversion of a floating-point value to an integer, as the integer cast
      of an array does it: the fractional part is cut off, toward zero. The
      result is unbounded; a fixed-width cast agrees within its range. */
  function Trunc(x: real): (r: int)
    ensures 0.0 <= x ==> 0 <= r && r as real <= x < r as real + 1.0
    ensures x < 0.0 ==> r <= 0 && r as real - 1.0 < x <= r as real
    ensures IsWhole(x) ==> r as real == x
  {
    if x >= 0.0 then x.Floor
    else
      assert IsWhole(x) ==> -x == (-x.Floor) as real;
      -((-x).Floor)
  }

  /** One face field: subtract one, then cast to an integer. Nothing checks
      that the result is a valid index. */
  function ToIndex(x: real): (r: int)
    ensures IsWhole(x) ==> r as real == x - 1.0
    ensures 1.0 <= x ==> 0 <= r && r as real <= x - 1.0
  {
    assert IsWhole(x) ==> x - 1.0 == (x.Floor - 1) as real;
    Trunc(x - 1.0)
  }

  function VertexOf(rec: Record): Vertex {
    Vertex(rec.x1, rec.x2, rec.x3)
  }

  /** The face of an "f" row; a whole-number field becomes that field minus one. */
  function FaceOf(rec: Record): (f: Face)
    ensures IsWhole(rec.x1) ==> f.a as real == rec.x1 - 1.0
    ensures IsWhole(rec.x2) ==> f.b as real == rec.x2 - 1.0
    ensures IsWhole(rec.x3) ==> f.c as real == rec.x3 - 1.0
  {
    Face(ToIndex(rec.x1), ToIndex(rec.x2), ToIndex(rec.x3))
  }

  /** The number of rows whose TYPE equals `tag`. */
  function Count(recs: seq<Record>, tag: string): (n: nat)
    ensures n <= |recs|
  {
    if recs == [] then 0
    else (if recs[0].tag == tag then 1 else 0) + Count(recs[1..], tag)
  }

  /** The rows whose TYPE equals `tag`, in file order, each converted by `conv`:
      one entry per such row. */
  function Select<T>(recs: seq<Record>, tag: string, conv: Record -> T): (r: seq<T>)
    ensures |r| == Count(recs, tag)
  {
    if recs == [] then []
    else (if recs[0].tag == tag then [conv(recs[0])] else []) + Select(recs[1..], tag, conv)
  }

  /** `load_shape_model` on a file that holds the rows `recs`: one vertex per
      "v" row and one face per "f" row (VertexRow, FaceRow, SelectOrigin and
      SelectOrder give which, and in what order). */
  function Load(recs: seq<Record>): (m: Mesh)
    ensures |m.vertices| == Count(recs, VertexTag)
    ensures |m.faces| == Count(recs, FaceTag)
  {
    Mesh(Select(recs, VertexTag, VertexOf), Select(recs, FaceTag, FaceOf))
  }

  /** The position in the selected list that the row at index `i` takes: the
      number of rows with the same tag before it. */
  function Rank(recs: seq<Record>, tag: string, i: nat): nat
    requires i <= |recs|
  {
    Count(recs[..i], tag)
  }

  /** Counting rows by tag distributes over concatenation. */
  lemma {:induction false} CountAppend(a: seq<Record>, b: seq<Record>, tag: string)
    ensures Count(a + b, tag) == Count(a, tag) + Count(b, tag)
  {
    if a == [] {
      assert a + b == b;
    } else {
      assert (a + b)[1..] == a[1..] + b;
      CountAppend(a[1..], b, tag);
    }
  }

  /** Selection distributes over concatenation of row sequences. */
  lemma {:induction false} SelectAppend<T>(a: seq<Record>, b: seq<Record>, tag: string, conv: Record -> T)
    ensures Select(a + b, tag, conv) == Select(a, tag, conv) + Select(b, tag, conv)
  {
    if a == [] {
      assert a + b == b;
    } else {
      assert (a + b)[1..] == a[1..] + b;
      SelectAppend(a[1..], b, tag, conv);
    }
  }

  /** A row tagged `tag` lands in the selected list, converted, at its rank. */
  lemma SelectAt<T>(recs: seq<Record>, tag: string, conv: Record -> T, i: nat)
    requires i < |recs| && recs[i].tag == tag
    ensures Rank(recs, tag, i) < |Select(recs, tag, conv)|
    ensures Select(recs, tag, conv)[Rank(recs, tag, i)] == conv(recs[i])
  {
    assert recs == recs[..i] + ([recs[i]] + recs[i + 1..]);
    SelectAppend(recs[..i], [recs[i]] + recs[i + 1..], tag, conv);
    SelectAppend([recs[i]], recs[i + 1..], tag, conv);
    assert Select([recs[i]], tag, conv) == [conv(recs[i])] by {
      assert [recs[i]][1..] == [];
    }
  }

  /** Selected rows keep their file order: of two selected rows, the earlier
      one takes the smaller position. */
  lemma SelectOrder(recs: seq<Record>, tag: string, i: nat, j: nat)
    requires i < j < |recs| && recs[i].tag == tag && recs[j].tag == tag
    ensures Rank(recs, tag, i) < Rank(recs, tag, j)
  {
    assert recs[..j] == recs[..i] + recs[i..j];
    CountAppend(recs[..i], recs[i..j], tag);
    assert recs[i..j] == [recs[i]] + recs[i + 1..j];
  }

  /** Every entry of the selected list comes from a row tagged `tag`, the one
      of that rank. */
  lemma {:induction false} SelectOrigin<T>(recs: seq<Record>, tag: string, conv: Record -> T, k: nat)
    requires k < |Select(recs, tag, conv)|
    ensures exists i :: 0 <= i < |recs| && recs[i].tag == tag && Rank(recs, tag, i) == k
                     && Select(recs, tag, conv)[k] == conv(recs[i])
  {
    var rest := recs[1..];
    var head := if recs[0].tag == tag then [conv(recs[0])] else [];
    assert Select(recs, tag, conv) == head + Select(rest, tag, conv);
    if recs[0].tag == tag && k == 0 {
      assert recs[..0] == [];
    } else {
      var k' := k - |head|;
      SelectOrigin(rest, tag, conv, k');
      var i' :| 0 <= i' < |rest| && rest[i'].tag == tag && Rank(rest, tag, i') == k'
                && Select(rest, tag, conv)[k'] == conv(rest[i']);
      var pre := recs[..i' + 1];
      assert pre[1..] == rest[..i'];
      assert Count(pre, tag) == |head| + Count(rest[..i'], tag);
      assert recs[i' + 1] == rest[i'];
    }
  }

  /** Every vertex row gives the vertex at its rank, with its fields unchanged. */
  lemma VertexRow(recs: seq<Record>, i: nat)
    requires i < |recs| && recs[i].tag == VertexTag
    ensures Rank(recs, VertexTag, i) < |Load(recs).vertices|
    ensures Load(recs).vertices[Rank(recs, VertexTag, i)] == Vertex(recs[i].x1, recs[i].x2, recs[i].x3)
  {
    SelectAt(recs, VertexTag, VertexOf, i);
  }

  /** Every face row gives the face at its rank; when its fields are whole
      numbers each stored index is the field minus one. */
  lemma FaceRow(recs: seq<Record>, i: nat)
    requires i < |recs| && recs[i].tag == FaceTag
    ensures Rank(recs, FaceTag, i) < |Load(recs).faces|
    ensures var f := Load(recs).faces[Rank(recs, FaceTag, i)];
            f == Face(ToIndex(recs[i].x1), ToIndex(recs[i].x2), ToIndex(recs[i].x3)) &&
            (IsWhole(recs[i].x1) ==> f.a as real == recs[i].x1 - 1.0) &&
            (IsWhole(recs[i].x2) ==> f.b as real == recs[i].x2 - 1.0) &&
            (IsWhole(recs[i].x3) ==> f.c as real == recs[i].x3 - 1.0)
  {
    SelectAt(recs, FaceTag, FaceOf, i);
  }

  /** The row "f 1 2 3" is stored as the face (0, 1, 2). */
  lemma FaceExample()
    ensures Load([Record("f", 1.0, 2.0, 3.0)]).faces == [Face(0, 1, 2)]
  {
  }

  /** Nothing validates face fields: a zero or negative field, or one past the
      vertex list, is decremented and stored all the same. */
  lemma NoValidation()
    ensures Load([Record("f", 0.0, -4.0, 7.0)]) == Mesh([], [Face(-1, -5, 6)])
  {
  }

  predicate Recognised(rec: Record) {
    rec.tag == VertexTag || rec.tag == FaceTag
  }

  /** Each row gives at most one entry, so the two lists together are no
      longer than the file; they are exactly as long when every row is a
      vertex or a face row. */
  lemma {:induction false} LoadSize(recs: seq<Record>)
    ensures |Load(recs).vertices| + |Load(recs).faces| <= |recs|
    ensures |Load(recs).vertices| + |Load(recs).faces| == |recs|
            <==> forall i :: 0 <= i < |recs| ==> Recognised(recs[i])
  {
    if recs != [] {
      LoadSize(recs[1..]);
      if forall i :: 0 <= i < |recs[1..]| ==> Recognised(recs[1..][i]) {
        forall i | 0 <= i < |recs| && Recognised(recs[0])
          ensures Recognised(recs[i])
        {
          if i > 0 { assert recs[i] == recs[1..][i - 1]; }
        }
      } else {
        var i :| 0 <= i < |recs[1..]| && !Recognised(recs[1..][i]);
        assert !Recognised(recs[i + 1]);
      }
    }
  }

  /** Loading distributes over concatenation of files. */
  lemma LoadAppend(a: seq<Record>, b: seq<Record>)
    ensures Load(a + b) == Mesh(Load(a).vertices + Load(b).vertices, Load(a).faces + Load(b).faces)
  {
    SelectAppend(a, b, VertexTag, VertexOf);
    SelectAppend(a, b, FaceTag, FaceOf);
  }

  /** A row that is neither a vertex nor a face row changes nothing,
      wherever it stands. */
  lemma IgnoredRow(a: seq<Record>, rec: Record, b: seq<Record>)
    requires !Recognised(rec)
    ensures Load(a + [rec] + b) == Load(a + b)
  {
    LoadAppend(a + [rec], b);
    LoadAppend(a, [rec]);
    LoadAppend(a, b);
    assert [rec][1..] == [];
  }

  /** A face field is within the vertex list when it is a one-based index of
      it (a real between 1 and the number of vertices). */
  predicate FieldInRange(x: real, n: nat) {
    1.0 <= x < n as real + 1.0
  }

  predicate IndexInRange(k: int, n: nat) {
    0 <= k < n
  }

  /** When every field of every face row lies in [1, number of vertex rows],
      every stored face index lies in [0, number of vertices). The loader
      itself checks nothing; this is the caller's hypothesis. */
  lemma FaceIndicesInRange(recs: seq<Record>)
    requires forall i :: 0 <= i < |recs| && recs[i].tag == FaceTag ==>
               var n := |Load(recs).vertices|;
               FieldInRange(recs[i].x1, n) && FieldInRange(recs[i].x2, n) && FieldInRange(recs[i].x3, n)
    ensures forall f :: f in Load(recs).faces ==>
              var n := |Load(recs).vertices|;
              IndexInRange(f.a, n) && IndexInRange(f.b, n) && IndexInRange(f.c, n)
  {
    var faces := Load(recs).faces;
    forall f | f in faces
      ensures var n := |Load(recs).vertices|;
              IndexInRange(f.a, n) && IndexInRange(f.b, n) && IndexInRange(f.c, n)
    {
      var k :| 0 <= k < |faces| && faces[k] == f;
      SelectOrigin(recs, FaceTag, FaceOf, k);
    }
  }
}
