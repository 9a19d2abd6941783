/**
  `Snowy::Matrix`: a 3x3 homogeneous transform, kept as three rows of
  three numbers and multiplied in place. Ruby's Floats are modelled as
  exact reals.
 */
module Affine {
  import opened Wrappers

  /** Three rows of three entries: the shape `@matrix` always has. */
  type Matrix3 = m: seq<seq<real>> | |m| == 3 && |m[0]| == 3 && |m[1]| == 3 && |m[2]| == 3
    witness [[0.0, 0.0, 0.0], [0.0, 0.0, 0.0], [0.0, 0.0, 0.0]]

  /** A homogeneous point `(x, y, w)`. */
  datatype Vec3 = Vec3(x: real, y: real, w: real)

  function Identity(): Matrix3
  {
    [[1.0, 0.0, 0.0], [0.0, 1.0, 0.0], [0.0, 0.0, 1.0]]
  }

  /** The matrix `translate(dx, dy, dw)` multiplies by. */
  function Translation(dx: real, dy: real, dw: real): Matrix3
  {
    [[1.0, 0.0, dx], [0.0, 1.0, dy], [0.0, 0.0, dw]]
  }

  /** The matrix `scale(ax, ay, aw)` multiplies by. */
  function Scaling(ax: real, ay: real, aw: real): Matrix3
  {
    [[ax, 0.0, 0.0], [0.0, ay, 0.0], [0.0, 0.0, aw]]
  }

  /** A row times column `j` of `n`. */
  function Dot(row: seq<real>, n: Matrix3, j: nat): real
    requires |row| == 3 && j < 3
  {
    row[0] * n[0][j] + row[1] * n[1][j] + row[2] * n[2][j]
  }

  /** A row times `n`. */
  function RowProduct(row: seq<real>, n: Matrix3): seq<real>
    requires |row| == 3
  {
    [Dot(row, n, 0), Dot(row, n, 1), Dot(row, n, 2)]
  }

  /** The matrix product `m * n`. */
  function Product(m: Matrix3, n: Matrix3): Matrix3
  {
    [RowProduct(m[0], n), RowProduct(m[1], n), RowProduct(m[2], n)]
  }

  /** Row `i` of `m` applied to a point. */
  function RowApply(m: Matrix3, i: nat, v: Vec3): real
    requires i < 3
  {
    v.x * m[i][0] + v.y * m[i][1] + v.w * m[i][2]
  }

  /** `m` applied to the column vector `v`. */
  function Apply(m: Matrix3, v: Vec3): Vec3
  {
    Vec3(RowApply(m, 0, v), RowApply(m, 1, v), RowApply(m, 2, v))
  }

  /**
    The matrix after the first `i` rows of `mult!(mat)` when `mat` is the
    matrix's own row array (`m.mult!(m.matrix)`, or `m.mult(m)`, since
    `Matrix[m]` is `m` itself): row `i` is multiplied by the matrix as the
    earlier rows have already left it.
   */
  function AliasedRows(m: Matrix3, i: nat): Matrix3
    requires i <= 3
  {
    if i == 0 then m
    else
      var a := AliasedRows(m, i - 1);
      var r: Matrix3 := a[i - 1 := RowProduct(a[i - 1], a)];
      r
  }

  /** The first row of the aliased product is always the first row of `m * m`. */
  lemma AliasedFirstRow(m: Matrix3)
    ensures AliasedRows(m, 3)[0] == Product(m, m)[0]
  {
    assert AliasedRows(m, 1)[0] == RowProduct(m[0], m);
  }

  /**
    The aliased product is not the square: the swap of the first two
    coordinates squares to the identity, yet the aliased product leaves
    its first two rows equal.
   */
  lemma AliasedSquareDiffers()
    ensures var swap: Matrix3 := [[0.0, 1.0, 0.0], [1.0, 0.0, 0.0], [0.0, 0.0, 1.0]];
      && Product(swap, swap) == Identity()
      && AliasedRows(swap, 3) == [[1.0, 0.0, 0.0], [1.0, 0.0, 0.0], [0.0, 0.0, 1.0]]
  {
  }

  /** The identity is neutral on both sides of the product. */
  lemma ProductIdentity(m: Matrix3)
    ensures Product(m, Identity()) == m
    ensures Product(Identity(), m) == m
  {
    var p := Product(m, Identity());
    assert p[0] == m[0] && p[1] == m[1] && p[2] == m[2];
    var q := Product(Identity(), m);
    assert q[0] == m[0] && q[1] == m[1] && q[2] == m[2];
  }

  lemma RowApplyProduct(m: Matrix3, n: Matrix3, i: nat, v: Vec3)
    requires i < 3
    ensures RowApply(Product(m, n), i, v) == RowApply(m, i, Apply(n, v))
  {
    var p := Product(m, n);
    assert p[i] == RowProduct(m[i], n);
  }

  /**
    Multiplying `m` on the right by `n` makes `n` act first: transforming
    by `m * n` is transforming by `n`, then by `m`.
   */
  lemma ApplyProduct(m: Matrix3, n: Matrix3, v: Vec3)
    ensures Apply(Product(m, n), v) == Apply(m, Apply(n, v))
  {
    RowApplyProduct(m, n, 0, v);
    RowApplyProduct(m, n, 1, v);
    RowApplyProduct(m, n, 2, v);
  }

  /** A translation moves an affine point (`w == 1`) by `(dx, dy)`. */
  lemma ApplyTranslation(dx: real, dy: real, x: real, y: real)
    ensures Apply(Translation(dx, dy, 1.0), Vec3(x, y, 1.0)) == Vec3(x + dx, y + dy, 1.0)
  {
  }

  /** A scaling multiplies each coordinate of a point by its factor. */
  lemma ApplyScaling(ax: real, ay: real, aw: real, x: real, y: real, w: real)
    ensures Apply(Scaling(ax, ay, aw), Vec3(x, y, w)) == Vec3(ax * x, ay * y, aw * w)
  {
  }

  /** `m` with entry `(i, j)` replaced by `v`: the effect of `m0[j] = v` on row `m0 = matrix[i]`. */
  function WithEntry(m: Matrix3, i: nat, j: nat, v: real): (r: Matrix3)
    requires i < 3 && j < 3
    ensures forall k :: 0 <= k < 3 && k != i ==> r[k] == m[k]
    ensures forall l :: 0 <= l < 3 ==> r[i][l] == if l == j then v else m[i][l]
  {
    m[i := m[i][j := v]]
  }

  /** What `load` accepts: another `Matrix`, an Array, or anything else. */
  datatype LoadArg = MatrixArg(rows: Matrix3) | ArrayArg(items: seq<Item>) | OtherArg

  /** An element of an Array argument: a number or a nested Array of numbers. */
  datatype Item = Num(value: real) | Row(entries: seq<real>)

  datatype LoadError =
    | WrongElementNumber(given: nat)
    | WrongArgumentType
    | NotNumeric

  /** `[[a, b, c], [d, e, f], [g, h, i]]`: three nested Arrays of three. */
  predicate IsNested(items: seq<Item>)
  {
    |items| == 3 &&
    items[0].Row? && |items[0].entries| == 3 &&
    items[1].Row? && |items[1].entries| == 3 &&
    items[2].Row? && |items[2].entries| == 3
  }

  predicate AllNumbers(items: seq<Item>)
  {
    forall i :: 0 <= i < |items| ==> items[i].Num?
  }

  class Matrix {
    var matrix: Matrix3

    /** `Matrix.new` without an argument: the identity. */
    constructor ()
      ensures matrix == Identity()
    {
      matrix := Identity();
    }

    /** `reset`: loads the identity. */
    method Reset()
      modifies this
      ensures matrix == Identity()
    {
      matrix := Identity();
    }

    /**
      `load(mat)`: copies another matrix, a nested 3x3 Array or a flat
      9-element Array row by row; anything else is an ArgumentError and
      leaves the matrix as it was.
     */
    method Load(arg: LoadArg) returns (r: Result<(), LoadError>)
      modifies this
      ensures arg.MatrixArg? ==> r.Ok? && matrix == arg.rows
      ensures arg.OtherArg? ==> r == Err(WrongArgumentType)
      ensures arg.ArrayArg? && IsNested(arg.items) ==>
        r.Ok? && forall i, j :: 0 <= i < 3 && 0 <= j < 3 ==> matrix[i][j] == arg.items[i].entries[j]
      ensures arg.ArrayArg? && !IsNested(arg.items) && |arg.items| == 9 && AllNumbers(arg.items) ==>
        r.Ok? && forall i, j :: 0 <= i < 3 && 0 <= j < 3 ==> matrix[i][j] == arg.items[3 * i + j].value
      ensures arg.ArrayArg? && !IsNested(arg.items) && |arg.items| != 9 ==>
        r == Err(WrongElementNumber(|arg.items|))
      ensures arg.ArrayArg? && !IsNested(arg.items) && |arg.items| == 9 && !AllNumbers(arg.items) ==>
        r == Err(NotNumeric)
      ensures r.Err? ==> matrix == old(matrix)
    {
      match arg {
        case MatrixArg(rows) =>
          matrix := rows;
          r := Ok(());
        case ArrayArg(items) =>
          if IsNested(items) {
            matrix := [items[0].entries, items[1].entries, items[2].entries];
            r := Ok(());
          } else if |items| == 9 {
            if AllNumbers(items) {
              matrix := [[items[0].value, items[1].value, items[2].value],
                         [items[3].value, items[4].value, items[5].value],
                         [items[6].value, items[7].value, items[8].value]];
              r := Ok(());
            } else {
              r := Err(NotNumeric);
            }
          } else {
            r := Err(WrongElementNumber(|items|));
          }
        case OtherArg =>
          r := Err(WrongArgumentType);
      }
    }

    /**
      `mult!(mat)`: replaces each row of the matrix, in place, by that
      row (as it was) times `mat`, so the matrix becomes `old * mat`.
     */
    method MultInPlace(mat: Matrix3)
      modifies this
      ensures matrix == Product(old(matrix), mat)
    {
      ghost var was := matrix;
      var i := 0;
      while i < 3
        invariant 0 <= i <= 3
        invariant forall k :: 0 <= k < i ==> matrix[k] == RowProduct(was[k], mat)
        invariant forall k :: i <= k < 3 ==> matrix[k] == was[k]
      {
        MultRow(i, mat);
        i := i + 1;
      }
      assert matrix == [matrix[0], matrix[1], matrix[2]];
    }

    /**
      `mult!(matrix)`: `mult!` given the matrix's own rows. Each row is
      multiplied by the rows as they stand when its turn comes, so rows
      already replaced take part in the later products.
     */
    method MultBySelf()
      modifies this
      ensures matrix == AliasedRows(old(matrix), 3)
    {
      ghost var was := matrix;
      var i := 0;
      while i < 3
        invariant 0 <= i <= 3
        invariant matrix == AliasedRows(was, i)
      {
        ghost var before := matrix;
        MultRow(i, matrix);
        assert matrix == before[i := RowProduct(before[i], before)];
        i := i + 1;
      }
    }

    /** One pass of `mult!`'s outer loop: row `i` becomes `mm * mat` for `mm` a copy of the old row. */
    method MultRow(i: nat, mat: Matrix3)
      requires i < 3
      modifies this
      ensures forall k :: 0 <= k < 3 && k != i ==> matrix[k] == old(matrix[k])
      ensures matrix[i] == RowProduct(old(matrix[i]), mat)
    {
      var mm := matrix[i];
      ghost var was := matrix;
      var j := 0;
      while j < 3
        invariant 0 <= j <= 3
        invariant forall k :: 0 <= k < 3 && k != i ==> matrix[k] == was[k]
        invariant forall l :: 0 <= l < j ==> matrix[i][l] == Dot(mm, mat, l)
        invariant forall l :: j <= l < 3 ==> matrix[i][l] == mm[l]
      {
        var v := mm[0] * mat[0][j] + mm[1] * mat[1][j] + mm[2] * mat[2][j];
        assert v == Dot(mm, mat, j);
        matrix := WithEntry(matrix, i, j, v);
        j := j + 1;
      }
      assert matrix[i] == [matrix[i][0], matrix[i][1], matrix[i][2]];
    }

    /** `transform3(x, y, w)`: the matrix applied to the point. */
    function Transform3(x: real, y: real, w: real := 1.0): (r: Vec3)
      reads this
      ensures r == Apply(matrix, Vec3(x, y, w))
    {
      var mx := matrix[0];
      var my := matrix[1];
      var mw := matrix[2];
      Vec3(x * mx[0] + y * mx[1] + w * mx[2],
           x * my[0] + y * my[1] + w * my[2],
           x * mw[0] + y * mw[1] + w * mw[2])
    }

    /** `transform2(x, y, w)` (alias `transform`): the first two coordinates of `transform3`. */
    function Transform2(x: real, y: real, w: real := 1.0): (r: (real, real))
      reads this
      ensures r.0 == Transform3(x, y, w).x && r.1 == Transform3(x, y, w).y
    {
      var mx := matrix[0];
      var my := matrix[1];
      (x * mx[0] + y * mx[1] + w * mx[2],
       x * my[0] + y * my[1] + w * my[2])
    }

    /** `translate(dx, dy, dw)`: `mult!` by a translation. */
    method Translate(dx: real, dy: real, dw: real := 1.0)
      modifies this
      ensures matrix == Product(old(matrix), Translation(dx, dy, dw))
    {
      MultInPlace([[1.0, 0.0, dx], [0.0, 1.0, dy], [0.0, 0.0, dw]]);
    }

    /** `scale(ax, ay, aw)`: `mult!` by a scaling. */
    method Scale(ax: real, ay: real, aw: real := 1.0)
      modifies this
      ensures matrix == Product(old(matrix), Scaling(ax, ay, aw))
    {
      MultInPlace([[ax, 0.0, 0.0], [0.0, ay, 0.0], [0.0, 0.0, aw]]);
    }

    /** `dup` (through `initialize_copy`): a new matrix with the same entries. */
    method Dup() returns (copy: Matrix)
      ensures fresh(copy) && copy.matrix == matrix
    {
      copy := new Matrix();
      copy.matrix := matrix;
    }
  }

  /**
    On a reset matrix, `translate(dx, dy)` then `transform2(x, y)` gives
    `(x + dx, y + dy)`, and `scale(ax, ay)` gives `(ax * x, ay * y)`.
   */
  lemma TranslateThenTransform(dx: real, dy: real, x: real, y: real)
    ensures Apply(Product(Identity(), Translation(dx, dy, 1.0)), Vec3(x, y, 1.0)) == Vec3(x + dx, y + dy, 1.0)
  {
    ProductIdentity(Translation(dx, dy, 1.0));
    ApplyTranslation(dx, dy, x, y);
  }

  lemma ScaleThenTransform(ax: real, ay: real, x: real, y: real)
    ensures Apply(Product(Identity(), Scaling(ax, ay, 1.0)), Vec3(x, y, 1.0)) == Vec3(ax * x, ay * y, 1.0)
  {
    ProductIdentity(Scaling(ax, ay, 1.0));
    ApplyScaling(ax, ay, 1.0, x, y, 1.0);
  }
}
