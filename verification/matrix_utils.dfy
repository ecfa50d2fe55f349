/** The interlaced matrix element and the elementwise interlace of two equal-shape
    matrices (src/matrix_utils.rs). Matrices are rectangular sequences of rows. */
module MatrixUtils {

  /** `LacedMatrixElement`: a pair of entries, one from each interlaced matrix. */
  datatype Laced = Laced(first: real, second: real)

  /** `LacedMatrixElement::new(a, b)`. */
  function NewLaced(a: real, b: real): (e: Laced)
    ensures e.first == a && e.second == b
  {
    Laced(a, b)
  }

  /** `From<(f32, f32)>`. */
  function FromPair(p: (real, real)): (e: Laced)
    ensures e.first == p.0 && e.second == p.1
  {
    NewLaced(p.0, p.1)
  }

  /** A laced element is its pair of components. */
  lemma FromPairRoundTrip(e: Laced, p: (real, real))
    ensures FromPair((e.first, e.second)) == e
    ensures (FromPair(p).first, FromPair(p).second) == p
  {
  }

  /** `Add`: componentwise sum. */
  function Add(x: Laced, y: Laced): (r: Laced)
    ensures r.first == x.first + y.first && r.second == x.second + y.second
  {
    Laced(x.first + y.first, x.second + y.second)
  }

  /** `Zero::zero`. */
  function Zero(): (z: Laced)
    ensures z.first == 0.0 && z.second == 0.0
  {
    Laced(0.0, 0.0)
  }

  /** `Zero::is_zero`: both components are zero. */
  function IsZero(x: Laced): (b: bool)
    ensures b <==> x == Zero()
  {
    x.first == 0.0 && x.second == 0.0
  }

  /** `Zero::set_zero`: whatever the value was, it becomes zero. */
  function SetZero(x: Laced): (r: Laced)
    ensures IsZero(r)
    ensures r == Zero()
  {
    Zero()
  }

  /** `is_zero` recognises exactly `zero()`. */
  lemma IsZeroIffZero(x: Laced)
    ensures IsZero(x) <==> x == Zero()
  {
  }

  /** `Add` and `zero()` form a commutative monoid. */
  lemma AddMonoid(x: Laced, y: Laced, z: Laced)
    ensures Add(Zero(), x) == x && Add(x, Zero()) == x
    ensures Add(x, y) == Add(y, x)
    ensures Add(Add(x, y), z) == Add(x, Add(y, z))
  {
  }

  /** Every row of `m` has `cols` entries. */
  predicate Shaped<T>(m: seq<seq<T>>, cols: nat)
  {
    forall i :: 0 <= i < |m| ==> |m[i]| == cols
  }

  /** The column count of a rectangular matrix: that of its first row, 0 without rows. */
  function Cols<T>(m: seq<seq<T>>): (n: nat)
  {
    if |m| == 0 then 0 else |m[0]|
  }

  /** What the `assert!` of `interlace` checks: equal row and column counts. */
  predicate SameShape(a: seq<seq<real>>, b: seq<seq<real>>)
  {
    Shaped(a, Cols(a)) && |b| == |a| && Shaped(b, Cols(a))
  }

  /** `interlace`: entry (i, j) of the result pairs entry (i, j) of `a` with that of `b`. */
  function Interlace(a: seq<seq<real>>, b: seq<seq<real>>): (r: seq<seq<Laced>>)
    requires SameShape(a, b)
    ensures |r| == |a| && Shaped(r, Cols(a))
    ensures forall i, j :: 0 <= i < |a| && 0 <= j < Cols(a) ==> r[i][j] == Laced(a[i][j], b[i][j])
  {
    seq(|a|, i requires 0 <= i < |a| =>
      seq(Cols(a), j requires 0 <= j < Cols(a) => NewLaced(a[i][j], b[i][j])))
  }

  /** The first components of every entry. */
  function Firsts(m: seq<seq<Laced>>): (r: seq<seq<real>>)
    ensures |r| == |m| && forall i :: 0 <= i < |m| ==> |r[i]| == |m[i]|
  {
    seq(|m|, i requires 0 <= i < |m| => seq(|m[i]|, j requires 0 <= j < |m[i]| => m[i][j].first))
  }

  /** The second components of every entry. */
  function Seconds(m: seq<seq<Laced>>): (r: seq<seq<real>>)
    ensures |r| == |m| && forall i :: 0 <= i < |m| ==> |r[i]| == |m[i]|
  {
    seq(|m|, i requires 0 <= i < |m| => seq(|m[i]|, j requires 0 <= j < |m[i]| => m[i][j].second))
  }

  /** Projecting the interlaced matrix gives back both inputs. */
  lemma InterlaceProjections(a: seq<seq<real>>, b: seq<seq<real>>)
    requires SameShape(a, b)
    ensures Firsts(Interlace(a, b)) == a
    ensures Seconds(Interlace(a, b)) == b
  {
    var r := Interlace(a, b);
    forall i | 0 <= i < |a|
      ensures Firsts(r)[i] == a[i] && Seconds(r)[i] == b[i]
    {
      assert Firsts(r)[i] == seq(|r[i]|, j requires 0 <= j < |r[i]| => r[i][j].first);
    }
  }

  /** Interlacing the two projections of a rectangular matrix of pairs gives it back. */
  lemma InterlaceOfProjections(m: seq<seq<Laced>>)
    requires Shaped(m, Cols(m))
    ensures SameShape(Firsts(m), Seconds(m))
    ensures Interlace(Firsts(m), Seconds(m)) == m
  {
    var f := Firsts(m);
    var s := Seconds(m);
    assert Cols(f) == Cols(m);
    var r := Interlace(f, s);
    forall i | 0 <= i < |m|
      ensures r[i] == m[i]
    {
      forall j | 0 <= j < |m[i]|
        ensures r[i][j] == m[i][j]
      {
        assert f[i][j] == m[i][j].first;
      }
    }
  }

  /** `interlace` as written: a matrix of zeros overwritten entry by entry, row by row. */
  method InterlaceLoop(a: seq<seq<real>>, b: seq<seq<real>>) returns (result: seq<seq<Laced>>)
    requires SameShape(a, b)
    ensures result == Interlace(a, b)
  {
    ghost var spec := Interlace(a, b);
    var rows := |a|;
    var cols := Cols(a);
    result := seq(rows, _ => seq(cols, _ => Zero()));
    var i := 0;
    while i < rows
      invariant 0 <= i <= rows && |result| == rows
      invariant forall r :: 0 <= r < i ==> result[r] == spec[r]
      invariant forall r :: i <= r < rows ==> result[r] == seq(cols, _ => Zero())
    {
      var row := result[i];
      var j := 0;
      while j < cols
        invariant 0 <= j <= cols && |row| == cols
        invariant forall c :: 0 <= c < j ==> row[c] == spec[i][c]
      {
        row := row[j := NewLaced(a[i][j], b[i][j])];
        j := j + 1;
      }
      assert row == spec[i];
      result := result[i := row];
      i := i + 1;
    }
    assert result == spec;
  }
}
