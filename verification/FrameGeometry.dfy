/** Sizes of components in blocks, MCUs and row groups (initial_setup and per_scan_setup of jdinput.c and jcmaster.c):
    ceilings of ceilings that have to agree. */
module FrameGeometry {
  const DCTSIZE: nat := 8

  /** jdiv_round_up: the exact ceiling. */
  function CeilDiv(a: nat, b: nat): (c: nat)
    requires b > 0
  {
    (a + b - 1) / b
  }

  lemma Times(a: nat, b: nat)
    requires a >= 1
    ensures a * b >= b
  {
    assert a * b == (a - 1) * b + b;
    assert (a - 1) * b >= 0;
  }

  lemma Distribute(a: int, b: int, d: int)
    ensures (a + b) * d == a * d + b * d
  {
  }

  /** A ceiling is the least number that is enough. */
  lemma CeilIs(a: nat, b: nat, k: nat)
    requires b > 0
    ensures CeilDiv(a, b) <= k <==> a <= k * b
  {
    var q, r := (a + b - 1) / b, (a + b - 1) % b;
    assert a + b - 1 == q * b + r;
    if q <= k {
      Distribute(k - q, q, b);
      assert (k - q) * b >= 0;
    } else {
      Distribute(q - k - 1, k + 1, b);
      Distribute(k, 1, b);
      assert (q - k - 1) * b >= 0;
    }
  }

  lemma CeilUnique(a: nat, b: nat, q: nat)
    requires b > 0 && a <= q * b && (q == 0 || (q - 1) * b < a)
    ensures CeilDiv(a, b) == q
  {
    CeilIs(a, b, q);
    if q > 0 {
      CeilIs(a, b, q - 1);
    }
  }

  lemma CeilBounds(a: nat, b: nat)
    requires b > 0
    ensures a <= CeilDiv(a, b) * b && (a > 0 ==> CeilDiv(a, b) > 0 && (CeilDiv(a, b) - 1) * b < a)
  {
    CeilIs(a, b, CeilDiv(a, b));
    CeilIs(a, b, 0);
    if a > 0 {
      CeilIs(a, b, CeilDiv(a, b) - 1);
    }
  }

  /** A ceiling of a ceiling. */
  lemma NestedCeil(x: nat, q: nat, n: nat)
    requires q > 0 && n > 0
    ensures CeilDiv(CeilDiv(x * q, n), q) == CeilDiv(x, n)
  {
    var k := CeilDiv(x, n);
    Nested(x, q, n, k);
    if k > 0 {
      Nested(x, q, n, k - 1);
    }
  }

  /** Both ceilings are at most k in the same cases. */
  lemma Nested(x: nat, q: nat, n: nat, k: nat)
    requires q > 0 && n > 0
    ensures CeilDiv(CeilDiv(x * q, n), q) <= k <==> CeilDiv(x, n) <= k
  {
    hide CeilDiv;
    CeilIs(CeilDiv(x * q, n), q, k);
    CeilIs(x * q, n, k * q);
    CeilIs(x, n, k);
    Reorder(k, q, n);
    Scaled(x, k * n, q);
  }

  lemma Reorder(a: int, b: int, c: int)
    ensures a * b * c == a * c * b
  {
  }

  lemma Scaled(a: nat, b: nat, d: nat)
    requires d > 0
    ensures a * d <= b * d <==> a <= b
  {
    if a <= b {
      assert b * d == a * d + (b - a) * d;
      assert (b - a) * d >= 0;
    } else {
      Times(a - b, d);
      assert a * d == b * d + (a - b) * d;
    }
  }

  lemma Quotient(v: nat, q: nat, d: nat, x: nat)
    requires x < d && v == q * d + x
    ensures v / d == q && v % d == x
  {
    var p := v / d;
    assert v == p * d + v % d;
    if p > q {
      Times(p - q, d);
      assert false;
    } else if p < q {
      Times(q - p, d);
      assert false;
    }
  }

  /** Row t, or the first or last row of an image of h rows. */
  function Clamp(t: int, h: nat): int {
    if t < 0 then 0 else if t >= h then h - 1 else t
  }

  // ----- components -----

  /** A component's sampling factors and its size in blocks. */
  datatype Component = Component(h: nat, v: nat, width: nat, height: nat)

  /** The image and the largest sampling factors. */
  datatype Frame = Frame(width: nat, height: nat, maxH: nat, maxV: nat)

  ghost predicate ValidFrame(f: Frame) {
    f.width > 0 && f.height > 0 && f.maxH > 0 && f.maxV > 0
  }

  /** initial_setup: the size in blocks of a component with sampling factors h and v. */
  function Sized(f: Frame, h: nat, v: nat): (c: Component)
    requires ValidFrame(f)
  {
    Component(h, v, CeilDiv(f.width * h, f.maxH * DCTSIZE), CeilDiv(f.height * v, f.maxV * DCTSIZE))
  }

  /** total_iMCU_rows, and MCUs_per_row of interleaved scans. */
  function TotalRows(f: Frame): nat
    requires ValidFrame(f)
  {
    CeilDiv(f.height, f.maxV * DCTSIZE)
  }

  function McusAcross(f: Frame): nat
    requires ValidFrame(f)
  {
    CeilDiv(f.width, f.maxH * DCTSIZE)
  }

  /** A component has the fewest blocks of 8 x 8 samples that hold width * h / maxH samples across and height * v / maxV down. */
  lemma FewestBlocks(f: Frame, h: nat, v: nat)
    requires ValidFrame(f) && h > 0 && v > 0
    ensures var c := Sized(f, h, v);
      && (c.width - 1) * (8 * f.maxH) < f.width * h <= c.width * (8 * f.maxH)
      && (c.height - 1) * (8 * f.maxV) < f.height * v <= c.height * (8 * f.maxV)
  {
    hide CeilDiv;
    Times(h, f.width);
    Times(v, f.height);
    Reorder(1, h, f.width);
    Reorder(1, v, f.height);
    CeilBounds(f.width * h, f.maxH * DCTSIZE);
    CeilBounds(f.height * v, f.maxV * DCTSIZE);
  }

  /** An interleaved scan has the fewest MCUs of 8 * maxH x 8 * maxV samples that hold the image. */
  lemma FewestMcus(f: Frame)
    requires ValidFrame(f)
    ensures (McusAcross(f) - 1) * (8 * f.maxH) < f.width <= McusAcross(f) * (8 * f.maxH)
    ensures (TotalRows(f) - 1) * (8 * f.maxV) < f.height <= TotalRows(f) * (8 * f.maxV)
  {
    hide CeilDiv;
    CeilBounds(f.width, f.maxH * DCTSIZE);
    CeilBounds(f.height, f.maxV * DCTSIZE);
  }

  /** What is left in the last column or row: last_col_width and last_row_height. */
  function Rest(n: nat, unit: nat): (r: nat)
    requires unit > 0
  {
    if n % unit == 0 then unit else n % unit
  }

  lemma RestIs(n: nat, unit: nat)
    requires n > 0 && unit > 0
    ensures 1 <= Rest(n, unit) <= unit && CeilDiv(n, unit) >= 1
    ensures (CeilDiv(n, unit) - 1) * unit + Rest(n, unit) == n
  {
    var q, r := n / unit, n % unit;
    assert n == q * unit + r;
    Distribute(q, 1, unit);
    if r == 0 {
      if q > 0 {
        Distribute(q - 1, 1, unit);
      }
      CeilUnique(n, unit, q);
    } else {
      CeilUnique(n, unit, q + 1);
    }
  }

  /** All components agree on the number of MCU rows and columns of an interleaved scan, and what is left in the last row
      and column completes the component. */
  lemma BlocksCovered(f: Frame, h: nat, v: nat)
    requires ValidFrame(f) && h > 0 && v > 0
    ensures var c := Sized(f, h, v);
      && c.width > 0 && c.height > 0
      && CeilDiv(c.height, v) == TotalRows(f) && CeilDiv(c.width, h) == McusAcross(f)
      && (TotalRows(f) - 1) * v + Rest(c.height, v) == c.height && 1 <= Rest(c.height, v) <= v
      && (McusAcross(f) - 1) * h + Rest(c.width, h) == c.width && 1 <= Rest(c.width, h) <= h
  {
    hide CeilDiv, Rest;
    var c := Sized(f, h, v);
    Times(h, f.width);
    Times(v, f.height);
    Reorder(1, h, f.width);
    Reorder(1, v, f.height);
    CeilBounds(f.width * h, f.maxH * DCTSIZE);
    CeilBounds(f.height * v, f.maxV * DCTSIZE);
    NestedCeil(f.height, v, f.maxV * DCTSIZE);
    NestedCeil(f.width, h, f.maxH * DCTSIZE);
    RestIs(c.height, v);
    RestIs(c.width, h);
  }

  // ----- row groups on decoding -----

  /** The rows of a component when its blocks are scaled to size x size samples (jdmaster.c). */
  function SampleRows(f: Frame, v: nat, size: nat): nat
    requires ValidFrame(f)
  {
    CeilDiv(f.height * (v * size), f.maxV * DCTSIZE)
  }

  /** The fewest rows that hold height * v / maxV rows of an image scaled by size / 8. */
  lemma FewestRows(f: Frame, v: nat, size: nat)
    requires ValidFrame(f) && v > 0 && size > 0
    ensures SampleRows(f, v, size) > 0
    ensures (SampleRows(f, v, size) - 1) * (8 * f.maxV) < f.height * (v * size) <= SampleRows(f, v, size) * (8 * f.maxV)
  {
    hide CeilDiv;
    Times(v, size);
    Times(f.height, v * size);
    CeilBounds(f.height * (v * size), f.maxV * DCTSIZE);
  }

  /** set_bottom_pointers counts the same number of row groups for every component: rows in row groups of rg, v * size being
      rg times the smallest size m of any component. */
  lemma RowGroupsAgree(f: Frame, v: nat, size: nat, rg: nat, m: nat)
    requires ValidFrame(f) && v > 0 && size > 0 && rg > 0 && m > 0 && v * size == rg * m
    ensures CeilDiv(SampleRows(f, v, size), rg) == CeilDiv(f.height * m, f.maxV * DCTSIZE)
    ensures CeilDiv(SampleRows(f, v, size), rg * m) == TotalRows(f)
  {
    hide CeilDiv;
    assert f.height * (v * size) == f.height * m * rg by { assert f.height * (rg * m) == f.height * m * rg; }
    NestedCeil(f.height * m, rg, f.maxV * DCTSIZE);
    Times(rg, m);
    NestedCeil(f.height, rg * m, f.maxV * DCTSIZE);
  }
}
