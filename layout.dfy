/** Board geometry: positions, the supported shapes and the regions (rows, columns, boxes)
    the board constructor builds. */
module Layout {

  /** A board position: row `r`, column `c`. */
  datatype Pos = Pos(r: int, c: int)

  /** Board size `n` with the width `w` and height `h` of its rectangular boxes. */
  datatype Shape = Shape(n: nat, w: nat, h: nat)

  /** Shapes whose boxes tile the board: `w * h == n`. */
  predicate Supported(sh: Shape) {
    sh.w >= 1 && sh.h >= 1 && sh.w * sh.h == sh.n
  }

  predicate InBounds(n: int, p: Pos) {
    0 <= p.r < n && 0 <= p.c < n
  }

  predicate Distinct(s: seq<Pos>) {
    forall i, j :: 0 <= i < j < |s| ==> s[i] != s[j]
  }

  /** Region.add: a region never holds a position twice. */
  function Add(region: seq<Pos>, p: Pos): (r: seq<Pos>)
    ensures p in r
    ensures forall q :: q in r <==> q in region || q == p
    ensures Distinct(region) ==> Distinct(r)
    ensures p !in region ==> r == region + [p]
  {
    if p in region then region else region + [p]
  }

  function RowRegion(n: nat, r: int): seq<Pos> {
    seq(n, c => Pos(r, c))
  }

  function ColumnRegion(n: nat, c: int): seq<Pos> {
    seq(n, r => Pos(r, c))
  }

  /** The first `m + 1` cells of a row are its first `m` followed by the one in column `m`. */
  lemma RowRegionGrow(m: nat, r: int)
    ensures RowRegion(m + 1, r) == RowRegion(m, r) + [Pos(r, m)]
  {
  }

  lemma ColumnRegionGrow(m: nat, c: int)
    ensures ColumnRegion(m + 1, c) == ColumnRegion(m, c) + [Pos(m, c)]
  {
  }

  /** `count` consecutive rows from `x0`, each contributing the columns `y0 .. y0 + w - 1`,
      in the order the constructor's box loop visits them. */
  function BoxRows(x0: int, count: nat, y0: int, w: nat): seq<Pos>
  {
    if count == 0 then [] else BoxRows(x0, count - 1, y0, w) + seq(w, j => Pos(x0 + count - 1, y0 + j))
  }

  /** The box visited at `x_start = xs`, `y_start = ys`: rows `xs*h .. xs*h + h - 1` and
      columns `ys*w .. ys*w + w - 1`. */
  function BoxRegion(sh: Shape, xs: int, ys: int): seq<Pos> {
    BoxRows(xs * sh.h, sh.h, ys * sh.w, sh.w)
  }

  /** The boxes of the first `xs` values of `x_start`, in loop order. */
  function Boxes(sh: Shape, xs: nat): seq<seq<Pos>>
  {
    if xs == 0 then [] else Boxes(sh, xs - 1) + seq(sh.h, ys => BoxRegion(sh, xs - 1, ys))
  }

  /** The region list: rows first, then columns, then boxes. */
  function Regions(sh: Shape): seq<seq<Pos>> {
    seq(sh.n, r => RowRegion(sh.n, r)) + seq(sh.n, c => ColumnRegion(sh.n, c)) + Boxes(sh, sh.w)
  }

  /** The index, among the boxes, of the box holding `p`. */
  function BoxIndex(sh: Shape, p: Pos): int
    requires sh.h >= 1 && sh.w >= 1
  {
    (p.r / sh.h) * sh.h + p.c / sh.w
  }

  /** What every board relies on: each region lists `n` distinct in-bounds positions, and the
      first `n` regions are the rows. */
  predicate RegionsOk(n: nat, regs: seq<seq<Pos>>) {
    && |regs| >= n
    && (forall k :: 0 <= k < |regs| ==> |regs[k]| == n && Distinct(regs[k]))
    && (forall k, i :: 0 <= k < |regs| && 0 <= i < |regs[k]| ==> InBounds(n, regs[k][i]))
    && (forall r :: 0 <= r < n ==> regs[r] == RowRegion(n, r))
  }

  // ---- arithmetic helpers ----

  lemma MulLe(a: int, b: int, h: nat)
    requires a <= b
    ensures a * h <= b * h
  {
  }

  /** The quotient is the only `a` whose block `[a*h, a*h + h)` holds `x`. */
  lemma DivUnique(x: int, a: int, h: nat)
    requires h >= 1 && a * h <= x < a * h + h
    ensures x / h == a && x % h == x - a * h
  {
    var q, m := x / h, x % h;
    assert x == q * h + m && 0 <= m < h;
    if q < a {
      MulLe(q + 1, a, h);
      assert false;
    } else if q > a {
      MulLe(a + 1, q, h);
      assert false;
    }
  }

  // ---- boxes ----

  lemma {:induction false} BoxRowsFacts(x0: int, count: nat, y0: int, w: nat)
    ensures |BoxRows(x0, count, y0, w)| == count * w
    ensures Distinct(BoxRows(x0, count, y0, w))
    ensures forall p :: p in BoxRows(x0, count, y0, w) <==> x0 <= p.r < x0 + count && y0 <= p.c < y0 + w
  {
    if count > 0 {
      BoxRowsFacts(x0, count - 1, y0, w);
      var prev := BoxRows(x0, count - 1, y0, w);
      var last := seq(w, j => Pos(x0 + count - 1, y0 + j));
      assert BoxRows(x0, count, y0, w) == prev + last;
      forall p: Pos | x0 <= p.r < x0 + count && y0 <= p.c < y0 + w
        ensures p in prev + last
      {
        if p.r == x0 + count - 1 {
          assert last[p.c - y0] == p;
        } else {
          assert p in prev;
        }
      }
    }
  }

  lemma {:induction false} BoxesLength(sh: Shape, xn: nat)
    ensures |Boxes(sh, xn)| == xn * sh.h
  {
    if xn > 0 {
      BoxesLength(sh, xn - 1);
      assert |Boxes(sh, xn)| == (xn - 1) * sh.h + sh.h;
    }
  }

  lemma {:induction false} BoxesAt(sh: Shape, xn: nat, xs: int, ys: int)
    requires 0 <= xs < xn && 0 <= ys < sh.h
    ensures |Boxes(sh, xn)| == xn * sh.h
    ensures 0 <= xs * sh.h + ys < xn * sh.h
    ensures Boxes(sh, xn)[xs * sh.h + ys] == BoxRegion(sh, xs, ys)
  {
    BoxesLength(sh, xn);
    BoxesLength(sh, xn - 1);
    var prev := Boxes(sh, xn - 1);
    var last := seq(sh.h, y => BoxRegion(sh, xn - 1, y));
    assert Boxes(sh, xn) == prev + last;
    var i := xs * sh.h + ys;
    MulLe(0, xs, sh.h);
    if xs < xn - 1 {
      MulLe(xs + 1, xn - 1, sh.h);
      BoxesAt(sh, xn - 1, xs, ys);
      assert i < |prev|;
      assert (prev + last)[i] == prev[i];
    } else {
      assert i == |prev| + ys;
      assert (prev + last)[i] == last[ys];
    }
  }

  /** The `b`-th box, for `b = xs*h + ys`. */
  lemma BoxAt(sh: Shape, b: int)
    requires Supported(sh) && 0 <= b < sh.n
    ensures |Boxes(sh, sh.w)| == sh.n
    ensures 0 <= b / sh.h < sh.w && 0 <= b % sh.h < sh.h
    ensures Boxes(sh, sh.w)[b] == BoxRegion(sh, b / sh.h, b % sh.h)
  {
    var xs, ys := b / sh.h, b % sh.h;
    DivMod(b, sh.h);
    MulLe(0, xs, sh.h);
    if xs >= sh.w {
      MulLe(sh.w, xs, sh.h);
      assert false;
    }
    BoxesAt(sh, sh.w, xs, ys);
  }

  lemma BoxRegionFacts(sh: Shape, xs: int, ys: int)
    requires Supported(sh) && 0 <= xs < sh.w && 0 <= ys < sh.h
    ensures |BoxRegion(sh, xs, ys)| == sh.n && Distinct(BoxRegion(sh, xs, ys))
    ensures forall p :: p in BoxRegion(sh, xs, ys) <==>
      xs * sh.h <= p.r < xs * sh.h + sh.h && ys * sh.w <= p.c < ys * sh.w + sh.w
    ensures forall p :: p in BoxRegion(sh, xs, ys) ==> InBounds(sh.n, p)
  {
    var x0, y0 := xs * sh.h, ys * sh.w;
    BoxRowsFacts(x0, sh.h, y0, sh.w);
    assert |BoxRegion(sh, xs, ys)| == sh.h * sh.w == sh.n;
    BlockWithin(xs, sh.w, sh.h);
    BlockWithin(ys, sh.h, sh.w);
  }

  /** Every region has `n` distinct in-bounds positions and the first `n` are the rows. */
  lemma RegionsAreOk(sh: Shape)
    requires Supported(sh)
    ensures |Regions(sh)| == 3 * sh.n
    ensures RegionsOk(sh.n, Regions(sh))
  {
    var n := sh.n;
    var regs := Regions(sh);
    BoxesLength(sh, sh.w);
    forall k | 0 <= k < |regs|
      ensures |regs[k]| == n && Distinct(regs[k])
      ensures forall i :: 0 <= i < |regs[k]| ==> InBounds(n, regs[k][i])
    {
      if k >= 2 * n {
        var b := k - 2 * n;
        BoxAt(sh, b);
        BoxRegionFacts(sh, b / sh.h, b % sh.h);
        assert regs[k] == BoxRegion(sh, b / sh.h, b % sh.h);
        forall i | 0 <= i < |regs[k]| ensures InBounds(n, regs[k][i]) {
          assert regs[k][i] in regs[k];
        }
      }
    }
  }

  /** The box holding `p` is the one numbered BoxIndex(sh, p), and no other. */
  lemma BoxMembership(sh: Shape, p: Pos, b: int)
    requires Supported(sh) && InBounds(sh.n, p) && 0 <= b < sh.n
    ensures |Boxes(sh, sh.w)| == sh.n
    ensures 0 <= BoxIndex(sh, p) < sh.n
    ensures p in Boxes(sh, sh.w)[b] <==> b == BoxIndex(sh, p)
  {
    BoxHome(sh, p);
    BoxAt(sh, b);
    if p in Boxes(sh, sh.w)[b] {
      InBoxIsHome(sh, p, b);
    } else {
      HomeHoldsPos(sh, p);
    }
  }

  lemma InBoxIsHome(sh: Shape, p: Pos, b: int)
    requires Supported(sh) && InBounds(sh.n, p) && 0 <= b < sh.n
    requires |Boxes(sh, sh.w)| == sh.n && p in Boxes(sh, sh.w)[b]
    ensures b == BoxIndex(sh, p)
  {
    var w, h := sh.w, sh.h;
    BoxAt(sh, b);
    var bx, bz := b / h, b % h;
    DivMod(b, h);
    BoxRegionFacts(sh, bx, bz);
    assert p in BoxRegion(sh, bx, bz);
    DivUnique(p.r, bx, h);
    DivUnique(p.c, bz, w);
  }

  lemma HomeHoldsPos(sh: Shape, p: Pos)
    requires Supported(sh) && InBounds(sh.n, p)
    ensures 0 <= BoxIndex(sh, p) < sh.n && |Boxes(sh, sh.w)| == sh.n
    ensures p in Boxes(sh, sh.w)[BoxIndex(sh, p)]
  {
    var w, h := sh.w, sh.h;
    var xs, ys := p.r / h, p.c / w;
    BoxHome(sh, p);
    var b := BoxIndex(sh, p);
    BoxesAt(sh, w, xs, ys);
    BoxRegionFacts(sh, xs, ys);
  }

  /** Euclidean division by a positive `h`. */
  lemma DivMod(x: int, h: nat)
    requires h >= 1
    ensures x == (x / h) * h + x % h && 0 <= x % h < h
  {
  }

  /** Block `a` of `m` blocks of height `h` lies within `[0, m*h)`. */
  lemma BlockWithin(a: int, m: nat, h: nat)
    requires 0 <= a < m
    ensures 0 <= a * h && a * h + h <= m * h
  {
    MulLe(0, a, h);
    MulLe(a + 1, m, h);
    assert (a + 1) * h == a * h + h;
  }

  /** `x` in `[0, m*h)` lies in block `x / h`, one of the `m` blocks of height `h`. */
  lemma DivBounds(x: int, h: nat, m: nat)
    requires h >= 1 && 0 <= x < m * h
    ensures 0 <= x / h < m
    ensures (x / h) * h <= x < (x / h) * h + h
  {
    var q := x / h;
    assert x == q * h + x % h;
    if q >= m {
      MulLe(m, q, h);
    }
    if q < 0 {
      MulLe(q, -1, h);
    }
  }

  /** The block coordinates of the box holding `p`. */
  lemma BoxHome(sh: Shape, p: Pos)
    requires Supported(sh) && InBounds(sh.n, p)
    ensures 0 <= p.r / sh.h < sh.w && 0 <= p.c / sh.w < sh.h
    ensures (p.r / sh.h) * sh.h <= p.r < (p.r / sh.h) * sh.h + sh.h
    ensures (p.c / sh.w) * sh.w <= p.c < (p.c / sh.w) * sh.w + sh.w
    ensures 0 <= BoxIndex(sh, p) < sh.n
  {
    var xs := p.r / sh.h;
    DivBounds(p.r, sh.h, sh.w);
    DivBounds(p.c, sh.w, sh.h);
    MulLe(xs + 1, sh.w, sh.h);
  }

  /** Each cell lies in exactly three regions: its row, its column and its box. */
  lemma PositionRegions(sh: Shape, p: Pos, k: int)
    requires Supported(sh) && InBounds(sh.n, p) && 0 <= k < 3 * sh.n
    ensures |Regions(sh)| == 3 * sh.n
    ensures 0 <= BoxIndex(sh, p) < sh.n
    ensures p in Regions(sh)[k] <==> k == p.r || k == sh.n + p.c || k == 2 * sh.n + BoxIndex(sh, p)
  {
    var n := sh.n;
    BoxesLength(sh, sh.w);
    BoxMembership(sh, p, 0);
    if k >= 2 * n {
      BoxMembership(sh, p, k - 2 * n);
    } else if k >= n {
      assert Regions(sh)[k] == ColumnRegion(n, k - n);
      if k == n + p.c {
        assert Regions(sh)[k][p.r] == p;
      }
    } else {
      assert Regions(sh)[k] == RowRegion(n, k);
      if k == p.r {
        assert Regions(sh)[k][p.c] == p;
      }
    }
  }
}
