/**
  The triangular bit layout of the snowflake generator (`generate_to_png`,
  lib/snowy/common.rb): ring `level` holds `2*level + 1` columns; column
  `c` reads one bit of the code, mirrored about the ring's centre, and
  when that bit is set contributes one lattice triangle, apex up for even
  `c`, apex down for odd `c`. Without `extendcap` the outermost ring drops
  its first and last column and reads its bits one position lower.

  This module states that layout declaratively; Generator.GenerateToPng
  runs the source's loops and is proved to produce `Triangles`.
 */
module Pattern {
  import opened Bits

  /** `[x1, y1, x2, y2, x3, y3]`, in lattice units. */
  datatype Triangle = Triangle(x0: int, y0: int, x1: int, y1: int, x2: int, y2: int)

  function Depth(extendcap: bool): nat
  {
    if extendcap then 7 else 6
  }

  /** Code bits `0 .. Window-1` are the only ones the rings read. */
  function Window(extendcap: bool): nat
  {
    if extendcap then 28 else 20
  }

  /** The outermost ring of a pattern without `extendcap`. */
  predicate Shortened(extendcap: bool, level: nat)
  {
    !extendcap && level + 1 == Depth(extendcap)
  }

  /** Columns that can emit a triangle. */
  predicate IsColumn(extendcap: bool, level: nat, c: int)
  {
    && level < Depth(extendcap)
    && if Shortened(extendcap, level) then 1 <= c <= 2 * level - 1 else 0 <= c <= 2 * level
  }

  /** Number of bits used by the rings below `level`: the triangular number `level*(level+1)/2`. */
  function Offbase(level: nat): nat
  {
    if level == 0 then 0 else Offbase(level - 1) + level
  }

  /** The code bit read by a column: columns `c` and `2*level - c` share a bit. */
  function BitIndex(extendcap: bool, level: nat, c: int): nat
    requires IsColumn(extendcap, level, c)
  {
    Offbase(level) + (if c > level then 2 * level - c else c) - (if Shortened(extendcap, level) then 1 else 0)
  }

  /** The lattice triangle of a column. */
  function Lattice(level: nat, c: int): Triangle
  {
    var m := c - level;
    if c % 2 == 0 then Triangle(m, level, m + 1, level + 1, m - 1, level + 1)
    else Triangle(m, level + 1, m + 1, level, m - 1, level)
  }

  function Emit(code: nat, extendcap: bool, level: nat, c: int): seq<Triangle>
  {
    if IsColumn(extendcap, level, c) && Bit(code, BitIndex(extendcap, level, c)) == 1
    then [Lattice(level, c)] else []
  }

  /** Triangles of columns `0 .. n-1` of ring `level`, in column order. */
  function RingUpTo(code: nat, extendcap: bool, level: nat, n: nat): seq<Triangle>
  {
    if n == 0 then [] else RingUpTo(code, extendcap, level, n - 1) + Emit(code, extendcap, level, n - 1)
  }

  function Ring(code: nat, extendcap: bool, level: nat): seq<Triangle>
  {
    RingUpTo(code, extendcap, level, 2 * level + 1)
  }

  /** Triangles of rings `0 .. n-1`, innermost first. */
  function Rings(code: nat, extendcap: bool, n: nat): seq<Triangle>
  {
    if n == 0 then [] else Rings(code, extendcap, n - 1) + Ring(code, extendcap, n - 1)
  }

  /** The two fixed "cap" triangles at the tip of the wedge. */
  function Caps(extendcap: bool): seq<Triangle>
  {
    if extendcap then [Triangle(-5, 7, -3, 7, -4, 8), Triangle(5, 7, 4, 8, 3, 7)]
    else [Triangle(-4, 6, -2, 6, -3, 7), Triangle(4, 6, 3, 7, 2, 6)]
  }

  /** The triangle list handed to the renderer, for an already mixed code. */
  function Triangles(code: nat, cap: bool, extendcap: bool): seq<Triangle>
  {
    Rings(code, extendcap, Depth(extendcap)) + (if cap then Caps(extendcap) else [])
  }

  function Vertices(t: Triangle): set<(int, int)>
  {
    {(t.x0, t.y0), (t.x1, t.y1), (t.x2, t.y2)}
  }

  /** Reflection in the wedge's axis, `x = 0`. */
  function Mirror(t: Triangle): Triangle
  {
    Triangle(-t.x0, t.y0, -t.x1, t.y1, -t.x2, t.y2)
  }

  /**
    `t` lies in the band of ring `level`: its apex alone on row `level` or
    `level + 1`, the other two vertices on the other row, and every x in
    `-level-1 .. level+1`.
   */
  predicate InBand(t: Triangle, level: int)
  {
    && ((t.y0 == level && t.y1 == level + 1 && t.y2 == level + 1) ||
        (t.y0 == level + 1 && t.y1 == level && t.y2 == level))
    && -level - 1 <= t.x0 <= level + 1
    && -level - 1 <= t.x1 <= level + 1
    && -level - 1 <= t.x2 <= level + 1
  }

  /** Every column reads a bit inside the window. */
  lemma BitIndexInWindow(extendcap: bool, level: nat, c: int)
    requires IsColumn(extendcap, level, c)
    ensures BitIndex(extendcap, level, c) < Window(extendcap)
  {
    assert Offbase(6) == 21;
    assert Offbase(5) == 15;
    OffbaseMonotone(level, 6);
    if !extendcap && level < 5 { OffbaseMonotone(level, 4); }
  }

  lemma {:induction false} OffbaseMonotone(a: nat, b: nat)
    requires a <= b
    ensures Offbase(a) + a <= Offbase(b) + b
    decreases b - a
  {
    if a < b { OffbaseMonotone(a + 1, b); }
  }

  /** `Offbase` is the source's `(level * (level + 1)) / 2`. */
  lemma {:induction false} OffbaseIsTriangular(level: nat)
    ensures Offbase(level) == (level * (level + 1)) / 2
  {
    if level > 0 {
      OffbaseIsTriangular(level - 1);
      assert level * (level + 1) == (level - 1) * level + 2 * level;
    }
  }

  /** Listing the last two vertices the other way round draws the same triangle. */
  lemma SwapLastVertices(t: Triangle)
    ensures Vertices(Triangle(t.x0, t.y0, t.x2, t.y2, t.x1, t.y1)) == Vertices(t)
  {
  }

  /** The mirror column shares the bit and the parity, and draws the mirrored triangle. */
  lemma MirrorColumn(extendcap: bool, level: nat, c: int)
    requires IsColumn(extendcap, level, c)
    ensures IsColumn(extendcap, level, 2 * level - c)
    ensures BitIndex(extendcap, level, 2 * level - c) == BitIndex(extendcap, level, c)
    ensures (2 * level - c) % 2 == c % 2
    ensures Vertices(Lattice(level, 2 * level - c)) == Vertices(Mirror(Lattice(level, c)))
  {
    var c' := 2 * level - c;
    var m := c - level;
    assert c' - level == -m;
    assert c' % 2 == c % 2;
    var t := Mirror(Lattice(level, c));
    assert Lattice(level, c') == Triangle(t.x0, t.y0, t.x2, t.y2, t.x1, t.y1);
    SwapLastVertices(t);
  }

  /** Shape of a column's triangle: rows `level` and `level + 1`, apex up for even columns. */
  lemma LatticeShape(extendcap: bool, level: nat, c: int)
    requires IsColumn(extendcap, level, c)
    ensures InBand(Lattice(level, c), level)
    ensures c % 2 == 0 ==> Lattice(level, c).y0 == level
    ensures c % 2 == 1 ==> Lattice(level, c).y0 == level + 1
  {
  }

  /** Column `c` of ring `level` has its bit set and draws `t`. */
  predicate Draws(code: nat, extendcap: bool, level: nat, c: int, t: Triangle)
  {
    IsColumn(extendcap, level, c) && Bit(code, BitIndex(extendcap, level, c)) == 1 && t == Lattice(level, c)
  }

  /** A triangle among columns `0 .. n-1` of a ring is drawn by one of them. */
  lemma {:induction false} RingUpToWitness(code: nat, extendcap: bool, level: nat, n: nat, t: Triangle)
    requires t in RingUpTo(code, extendcap, level, n)
    ensures exists c: int :: 0 <= c < n && Draws(code, extendcap, level, c, t)
  {
    if t in RingUpTo(code, extendcap, level, n - 1) {
      RingUpToWitness(code, extendcap, level, n - 1, t);
    } else {
      assert t in Emit(code, extendcap, level, n - 1);
      assert Draws(code, extendcap, level, n - 1, t);
    }
  }

  /** A column below `n` that draws a triangle puts it among columns `0 .. n-1`. */
  lemma {:induction false} RingUpToDrawn(code: nat, extendcap: bool, level: nat, n: nat, c: int, t: Triangle)
    requires 0 <= c < n && Draws(code, extendcap, level, c, t)
    ensures t in RingUpTo(code, extendcap, level, n)
  {
    if c == n - 1 {
      assert t in Emit(code, extendcap, level, n - 1);
    } else {
      RingUpToDrawn(code, extendcap, level, n - 1, c, t);
    }
  }

  /** A triangle is among columns `0 .. n-1` of a ring exactly when one of them draws it. */
  lemma RingUpToMember(code: nat, extendcap: bool, level: nat, n: nat, t: Triangle)
    ensures t in RingUpTo(code, extendcap, level, n) <==> exists c: int :: 0 <= c < n && Draws(code, extendcap, level, c, t)
  {
    if t in RingUpTo(code, extendcap, level, n) {
      RingUpToWitness(code, extendcap, level, n, t);
    }
    if exists c: int :: 0 <= c < n && Draws(code, extendcap, level, c, t) {
      var c: int :| 0 <= c < n && Draws(code, extendcap, level, c, t);
      RingUpToDrawn(code, extendcap, level, n, c, t);
    }
  }

  /** A triangle of the first `n` rings is drawn by some column of one of them. */
  lemma {:induction false} RingsWitness(code: nat, extendcap: bool, n: nat, t: Triangle)
    requires t in Rings(code, extendcap, n)
    ensures exists level: nat, c: int :: level < n && Draws(code, extendcap, level, c, t)
  {
    if t in Rings(code, extendcap, n - 1) {
      RingsWitness(code, extendcap, n - 1, t);
      var level: nat, c: int :| level < n - 1 && Draws(code, extendcap, level, c, t);
      assert level < n;
    } else {
      RingUpToWitness(code, extendcap, n - 1, 2 * (n - 1) + 1, t);
      var c :| 0 <= c < 2 * (n - 1) + 1 && Draws(code, extendcap, n - 1, c, t);
      assert n - 1 < n;
    }
  }

  /** A column of one of the first `n` rings that draws a triangle puts it among them. */
  lemma {:induction false} RingsDrawn(code: nat, extendcap: bool, n: nat, level: nat, c: int, t: Triangle)
    requires level < n && Draws(code, extendcap, level, c, t)
    ensures t in Rings(code, extendcap, n)
  {
    if level == n - 1 {
      assert 0 <= c < 2 * level + 1;
      RingUpToDrawn(code, extendcap, level, 2 * level + 1, c, t);
    } else {
      RingsDrawn(code, extendcap, n - 1, level, c, t);
    }
  }

  /**
    A triangle is among the first `n` rings exactly when some column of
    those rings has its bit set and draws it.
   */
  lemma RingsMember(code: nat, extendcap: bool, n: nat, t: Triangle)
    ensures t in Rings(code, extendcap, n) <==> exists level: nat, c: int :: level < n && Draws(code, extendcap, level, c, t)
  {
    if t in Rings(code, extendcap, n) {
      RingsWitness(code, extendcap, n, t);
    }
    if exists level: nat, c: int :: level < n && Draws(code, extendcap, level, c, t) {
      var level: nat, c: int :| level < n && Draws(code, extendcap, level, c, t);
      RingsDrawn(code, extendcap, n, level, c, t);
    }
  }

  /** The column mirrored about the ring's centre draws the mirrored triangle. */
  lemma MirrorDraws(code: nat, extendcap: bool, level: nat, c: int, t: Triangle)
    requires Draws(code, extendcap, level, c, t)
    ensures Draws(code, extendcap, level, 2 * level - c, Lattice(level, 2 * level - c))
    ensures Vertices(Lattice(level, 2 * level - c)) == Vertices(Mirror(t))
  {
    MirrorColumn(extendcap, level, c);
  }

  /** A drawn column's mirror column draws the mirror image among the rings. */
  lemma MirrorInRings(code: nat, extendcap: bool, level: nat, c: int, t: Triangle)
    requires level < Depth(extendcap) && Draws(code, extendcap, level, c, t)
    ensures exists u :: u in Rings(code, extendcap, Depth(extendcap)) && Vertices(u) == Vertices(Mirror(t))
  {
    MirrorDraws(code, extendcap, level, c, t);
    var c' := 2 * level - c;
    RingsDrawn(code, extendcap, Depth(extendcap), level, c', Lattice(level, c'));
  }

  /** The rings are mirror symmetric. */
  lemma RingsMirror(code: nat, extendcap: bool, t: Triangle)
    requires t in Rings(code, extendcap, Depth(extendcap))
    ensures exists u :: u in Rings(code, extendcap, Depth(extendcap)) && Vertices(u) == Vertices(Mirror(t))
  {
    RingsWitness(code, extendcap, Depth(extendcap), t);
    var level: nat, c: int :| level < Depth(extendcap) && Draws(code, extendcap, level, c, t);
    MirrorInRings(code, extendcap, level, c, t);
  }

  /** The two caps are each other's mirror image. */
  lemma CapsMirror(extendcap: bool, t: Triangle)
    requires t in Caps(extendcap)
    ensures exists u :: u in Caps(extendcap) && Vertices(u) == Vertices(Mirror(t))
  {
    var caps := Caps(extendcap);
    if t == caps[0] {
      assert Vertices(caps[1]) == Vertices(Mirror(t));
    } else {
      assert Vertices(caps[0]) == Vertices(Mirror(t));
    }
  }

  /**
    Mirror symmetry: for every triangle of the pattern, its reflection in
    the axis (the same vertex set, negated x) is also in the pattern.
   */
  lemma TrianglesMirror(code: nat, cap: bool, extendcap: bool, t: Triangle)
    requires t in Triangles(code, cap, extendcap)
    ensures exists u :: u in Triangles(code, cap, extendcap) && Vertices(u) == Vertices(Mirror(t))
  {
    var rings := Rings(code, extendcap, Depth(extendcap));
    if t in rings {
      RingsMirror(code, extendcap, t);
      var u :| u in rings && Vertices(u) == Vertices(Mirror(t));
      assert u in Triangles(code, cap, extendcap);
    } else {
      CapsMirror(extendcap, t);
      var u :| u in Caps(extendcap) && Vertices(u) == Vertices(Mirror(t));
      assert u in Triangles(code, cap, extendcap);
    }
  }

  /**
    Every ring triangle lies in the band of some ring `level`: rows `level`
    and `level + 1`, columns `-level-1 .. level+1`, one vertex alone on
    its row (the apex) and the other two on the other row.
   */
  lemma RingTriangleShape(code: nat, extendcap: bool, t: Triangle)
    requires t in Rings(code, extendcap, Depth(extendcap))
    ensures exists level: nat :: level < Depth(extendcap) && InBand(t, level)
  {
    RingsWitness(code, extendcap, Depth(extendcap), t);
    var level: nat, c: int :| level < Depth(extendcap) && Draws(code, extendcap, level, c, t);
    LatticeShape(extendcap, level, c);
  }

  lemma {:induction false} RingUpToLength(code: nat, extendcap: bool, level: nat, n: nat)
    ensures |RingUpTo(code, extendcap, level, n)| <= n
    ensures Shortened(extendcap, level) && n >= 1 ==> |RingUpTo(code, extendcap, level, n)| <= n - 1
    ensures Shortened(extendcap, level) && n == 2 * level + 1 ==> |RingUpTo(code, extendcap, level, n)| <= n - 2
  {
    if n > 0 {
      RingUpToLength(code, extendcap, level, n - 1);
    }
  }

  lemma {:induction false} RingsLength(code: nat, extendcap: bool, n: nat)
    requires n <= Depth(extendcap)
    ensures |Rings(code, extendcap, n)| <= n * n - (if n > 0 && Shortened(extendcap, n - 1) then 2 else 0)
  {
    if n > 0 {
      RingsLength(code, extendcap, n - 1);
      RingUpToLength(code, extendcap, n - 1, 2 * (n - 1) + 1);
      assert n * n == (n - 1) * (n - 1) + 2 * (n - 1) + 1;
    }
  }

  /**
    At most 49 ring triangles with `extendcap` and 34 without, followed
    by exactly the two cap triangles when `cap` is set.
   */
  lemma TrianglesCount(code: nat, cap: bool, extendcap: bool)
    ensures var rings := Rings(code, extendcap, Depth(extendcap));
      && |rings| <= (if extendcap then 49 else 34)
      && Triangles(code, cap, extendcap) == rings + (if cap then Caps(extendcap) else [])
      && |Triangles(code, cap, extendcap)| == |rings| + (if cap then 2 else 0)
  {
    RingsLength(code, extendcap, Depth(extendcap));
  }

  /** The pattern depends on the code only through the bits of the window. */
  lemma {:induction false} RingUpToWindow(code1: nat, code2: nat, extendcap: bool, level: nat, n: nat)
    requires forall k: nat :: k < Window(extendcap) ==> Bit(code1, k) == Bit(code2, k)
    ensures RingUpTo(code1, extendcap, level, n) == RingUpTo(code2, extendcap, level, n)
  {
    if n > 0 {
      RingUpToWindow(code1, code2, extendcap, level, n - 1);
      if IsColumn(extendcap, level, n - 1) {
        BitIndexInWindow(extendcap, level, n - 1);
      }
    }
  }

  lemma {:induction false} RingsWindow(code1: nat, code2: nat, extendcap: bool, n: nat)
    requires forall k: nat :: k < Window(extendcap) ==> Bit(code1, k) == Bit(code2, k)
    ensures Rings(code1, extendcap, n) == Rings(code2, extendcap, n)
  {
    if n > 0 {
      RingsWindow(code1, code2, extendcap, n - 1);
      RingUpToWindow(code1, code2, extendcap, n - 1, 2 * (n - 1) + 1);
    }
  }

  /**
    Only code bits `0 .. 27` (with `extendcap`) or `0 .. 19` (without)
    are read: codes that agree on those bits give the same triangles.
   */
  lemma TrianglesWindow(code1: nat, code2: nat, cap: bool, extendcap: bool)
    requires forall k: nat :: k < Window(extendcap) ==> Bit(code1, k) == Bit(code2, k)
    ensures Triangles(code1, cap, extendcap) == Triangles(code2, cap, extendcap)
  {
    RingsWindow(code1, code2, extendcap, Depth(extendcap));
  }

  /** A ring reads no set bit when the window is all zero, so it emits nothing. */
  lemma {:induction false} RingUpToEmpty(code: nat, extendcap: bool, level: nat, n: nat)
    requires forall k: nat :: k < Window(extendcap) ==> Bit(code, k) == 0
    ensures RingUpTo(code, extendcap, level, n) == []
  {
    if n > 0 {
      RingUpToEmpty(code, extendcap, level, n - 1);
      if IsColumn(extendcap, level, n - 1) {
        BitIndexInWindow(extendcap, level, n - 1);
      }
    }
  }

  /** Nor do the rings below `n`. */
  lemma {:induction false} RingsEmpty(code: nat, extendcap: bool, n: nat)
    requires forall k: nat :: k < Window(extendcap) ==> Bit(code, k) == 0
    ensures Rings(code, extendcap, n) == []
  {
    if n > 0 {
      RingsEmpty(code, extendcap, n - 1);
      RingUpToEmpty(code, extendcap, n - 1, 2 * (n - 1) + 1);
    }
  }

  /** A code with no bit set in the window yields no ring triangle (the source does not remap it). */
  lemma ZeroWindowIsEmpty(code: nat, cap: bool, extendcap: bool)
    requires forall k: nat :: k < Window(extendcap) ==> Bit(code, k) == 0
    ensures Triangles(code, cap, extendcap) == (if cap then Caps(extendcap) else [])
  {
    RingsEmpty(code, extendcap, Depth(extendcap));
  }
}
