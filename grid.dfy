/**
  Row-major addressing of a `width x height` byte buffer: pixel `(x, y)`
  lives at byte `x + y * width`, and byte `k` is pixel
  `(k % width, k / width)`.
 */
module Grid {
  function Index(w: int, x: int, y: int): int
  {
    x + y * w
  }

  predicate InBounds(w: int, h: int, x: int, y: int)
  {
    0 <= x < w && 0 <= y < h
  }

  lemma MulAtLeast(m: int, w: int)
    requires m >= 1 && w > 0
    ensures m * w >= w
  {
    var d: nat := m - 1;
    assert m * w == d * w + w;
  }

  /** The only multiple of `w` strictly between `-w` and `w` is zero. */
  lemma SmallMultiple(m: int, w: int)
    requires w > 0 && -w < m * w < w
    ensures m == 0
  {
    if m > 0 {
      MulAtLeast(m, w);
    } else if m < 0 {
      MulAtLeast(-m, w);
    }
  }

  /** The pixel at `Index(w, x, y)` is `(x, y)` again. */
  lemma IndexRowCol(w: int, x: int, y: int)
    requires 0 <= x < w && 0 <= y
    ensures Index(w, x, y) / w == y && Index(w, x, y) % w == x
  {
    var k := x + y * w;
    var q, r := k / w, k % w;
    assert (q - y) * w == x - r;
    SmallMultiple(q - y, w);
  }

  /** Every byte of the buffer is the index of its own pixel. */
  lemma RowColIndex(w: int, k: int)
    requires w > 0
    ensures Index(w, k % w, k / w) == k
  {
  }

  /** An in-bounds pixel's byte lies inside the `w * h` buffer. */
  lemma IndexInside(w: int, h: int, x: int, y: int)
    requires InBounds(w, h, x, y)
    ensures 0 <= Index(w, x, y) < w * h
  {
    var d: nat := h - 1 - y;
    assert w * h == y * w + d * w + w;
  }

  /** Byte `k` of a `w * h` buffer is an in-bounds pixel. */
  lemma RowColInside(w: int, h: int, k: int)
    requires w > 0 && 0 <= k < w * h
    ensures InBounds(w, h, k % w, k / w)
  {
  }

  /** Distinct in-bounds pixels have distinct bytes. */
  lemma IndexInjective(w: int, x: int, y: int, x': int, y': int)
    requires 0 <= x < w && 0 <= y && 0 <= x' < w && 0 <= y'
    ensures Index(w, x, y) == Index(w, x', y') <==> x == x' && y == y'
  {
    IndexRowCol(w, x, y);
    IndexRowCol(w, x', y');
  }

  /** `a <= b` scales: `a * c <= b * c` for `c >= 0`. */
  lemma MulMono(a: int, b: int, c: int)
    requires a <= b && c >= 0
    ensures a * c <= b * c
  {
    var d: nat := b - a;
    var e: nat := c;
    assert b * c == a * c + d * e;
  }

  /** Row `y` of a `w x h` buffer ends inside it, where row `y + 1` starts. */
  lemma NextRow(w: int, h: int, y: int)
    requires 0 <= y < h && w >= 0
    ensures w * y + w == w * (y + 1) <= w * h && y * w == w * y
  {
    MulMono(y + 1, h, w);
  }
}
