/** The single-pixel plot `_draw` and its effect on a draw target.

    Every rasterizer of the engine is a sequence of `_draw` calls. Here a call
    is a `Plot`, its effect on the target's image is `DrawOn`, and the effect
    of a whole sequence of calls, in order, is the left fold `Paint`. The
    engine's methods are proved to leave the target equal to `Paint` of the
    plot list their specification function produces. */
module Plotting {
  import opened Pixels
  import opened Sprites

  datatype Plot = Plot(x: int, y: int, p: Pixel)

  /** Rust's `v as u8` on a float: truncation toward zero, saturating at 0 and
      255. */
  function Saturate(v: real): (c: int)
    ensures 0 <= c <= 255
    ensures v <= 0.0 ==> c == 0
    ensures v >= 255.0 ==> c == 255
    ensures 0.0 <= v < 255.0 ==> c as real <= v < (c + 1) as real
  {
    if v <= 0.0 then 0
    else if v >= 255.0 then 255
    else v.Floor
  }

  /** One channel of the Alpha-mode mix `a * src + (1 - a) * dst`. */
  function BlendChannel(a: real, s: bv8, d: bv8): bv8
  {
    Saturate(a * (s as int) as real + (1.0 - a) * (d as int) as real) as bv8
  }

  /** The weight of the source in the mix: its alpha as a fraction of 255,
      times the blend factor. */
  function Weight(alpha: bv8, blendFactor: real): real
  {
    ((alpha as int) as real / 255.0) * blendFactor
  }

  /** The colour Alpha mode writes: the source's alpha, scaled by the blend
      factor, mixes the source over the pixel already there; the result is
      always opaque. */
  function Blend(src: Pixel, dst: Pixel, blendFactor: real): (r: Pixel)
    ensures r.a == 255
  {
    var a := Weight(src.a, blendFactor);
    Rgb(BlendChannel(a, src.r, dst.r), BlendChannel(a, src.g, dst.g), BlendChannel(a, src.b, dst.b))
  }

  /** An opaque source at full blend factor replaces the pixel outright. */
  lemma BlendOpaque(src: Pixel, dst: Pixel)
    requires src.a == 255
    ensures Blend(src, dst, 1.0) == src
  {
    assert Weight(src.a, 1.0) == 1.0;
    ExactChannel(src.r, dst.r);
    ExactChannel(src.g, dst.g);
    ExactChannel(src.b, dst.b);
  }

  /** A fully transparent source keeps the colour already there, made opaque,
      whatever the blend factor. */
  lemma BlendTransparent(src: Pixel, dst: Pixel, blendFactor: real)
    requires src.a == 0
    ensures Blend(src, dst, blendFactor) == Rgb(dst.r, dst.g, dst.b)
  {
    assert Weight(src.a, blendFactor) == 0.0;
    assert BlendChannel(0.0, src.r, dst.r) == dst.r by { ExactChannel(dst.r, src.r); }
    assert BlendChannel(0.0, src.g, dst.g) == dst.g by { ExactChannel(dst.g, src.g); }
    assert BlendChannel(0.0, src.b, dst.b) == dst.b by { ExactChannel(dst.b, src.b); }
  }

  /** Weight 1 yields the source channel and weight 0 the destination's. */
  lemma ExactChannel(s: bv8, d: bv8)
    ensures BlendChannel(1.0, s, d) == s
    ensures BlendChannel(0.0, d, s) == s
  {
    var S, D := (s as int) as real, (d as int) as real;
    assert 1.0 * S + (1.0 - 1.0) * D == S;
    assert 0.0 * D + (1.0 - 0.0) * S == S;
    var c := Saturate(S);
    if 0.0 < S < 255.0 {
      assert c as real <= S < (c + 1) as real;
    }
    assert c == s as int;
  }

  /** Whether `_draw` reports a write: the cell is on the target and, in Mask
      mode, the source is opaque. */
  predicate Writes(img: Image, mode: PixelMode, q: Plot)
  {
    img.InBounds(q.x, q.y) && (mode != Mask || q.p.a == 255)
  }

  /** `_draw(x, y, p)` against the image `img` under the given mode. Normal and
      Custom write the pixel; Mask writes only opaque pixels; Alpha writes the
      blend of the pixel with what `get_pixel` reads there. */
  function DrawOn(img: Image, mode: PixelMode, blendFactor: real, q: Plot): (r: Image)
    requires img.Valid() && img.Readable()
    ensures r.Valid() && r.Readable()
    ensures r.width == img.width && r.height == img.height && r.mode == img.mode
    ensures !Writes(img, mode, q) ==> r == img
  {
    match mode
    case Normal => img.Set(q.x, q.y, q.p)
    case Mask => if q.p.a == 255 then img.Set(q.x, q.y, q.p) else img
    case Alpha => img.Set(q.x, q.y, Blend(q.p, img.Get(q.x, q.y), blendFactor))
    case Custom => img.Set(q.x, q.y, q.p)
  }

  /** A drawn plot changes at most the cell it lands on, and in Normal and
      Custom mode (and Mask mode for an opaque pixel) stores its pixel there. */
  lemma DrawOnCells(img: Image, mode: PixelMode, blendFactor: real, q: Plot)
    requires img.Valid() && img.Readable()
    ensures Writes(img, mode, q) && mode != Alpha ==>
      DrawOn(img, mode, blendFactor, q).cells[img.Index(q.x, q.y)] == Pack(q.p)
    ensures forall k :: 0 <= k < |img.cells| && (!img.InBounds(q.x, q.y) || k != img.Index(q.x, q.y)) ==>
      DrawOn(img, mode, blendFactor, q).cells[k] == img.cells[k]
  {
    var p := if mode == Alpha then Blend(q.p, img.Get(q.x, q.y), blendFactor) else q.p;
    SetCells(img, q.x, q.y, p);
  }

  /** The image after the plots are drawn one after another, first to last. */
  function Paint(img: Image, mode: PixelMode, blendFactor: real, plots: seq<Plot>): (r: Image)
    requires img.Valid() && img.Readable()
    ensures r.Valid() && r.Readable()
    ensures r.width == img.width && r.height == img.height && r.mode == img.mode
    decreases |plots|
  {
    if plots == [] then img
    else DrawOn(Paint(img, mode, blendFactor, plots[..|plots| - 1]), mode, blendFactor, plots[|plots| - 1])
  }

  /** Some plot of the list lands on (u, v). */
  predicate Hits(plots: seq<Plot>, u: int, v: int)
  {
    exists k :: 0 <= k < |plots| && plots[k].x == u && plots[k].y == v
  }

  lemma PaintSnoc(img: Image, mode: PixelMode, blendFactor: real, plots: seq<Plot>, q: Plot)
    requires img.Valid() && img.Readable()
    ensures Paint(img, mode, blendFactor, plots + [q])
         == DrawOn(Paint(img, mode, blendFactor, plots), mode, blendFactor, q)
  {
    assert (plots + [q])[..|plots|] == plots;
  }

  /** Drawing two lists one after the other is drawing their concatenation. */
  lemma {:induction false} PaintAppend(img: Image, mode: PixelMode, blendFactor: real, a: seq<Plot>, b: seq<Plot>)
    requires img.Valid() && img.Readable()
    ensures Paint(img, mode, blendFactor, a + b)
         == Paint(Paint(img, mode, blendFactor, a), mode, blendFactor, b)
    decreases |b|
  {
    if b == [] {
      assert a + b == a;
    } else {
      var b' := b[..|b| - 1];
      assert a + b == (a + b') + [b[|b| - 1]];
      assert b == b' + [b[|b| - 1]];
      PaintAppend(img, mode, blendFactor, a, b');
      PaintSnoc(img, mode, blendFactor, a + b', b[|b| - 1]);
      PaintSnoc(Paint(img, mode, blendFactor, a), mode, blendFactor, b', b[|b| - 1]);
    }
  }

  /** A cell no plot lands on keeps its value, whatever the mode. */
  lemma {:induction false} PaintUntouched(img: Image, mode: PixelMode, blendFactor: real, plots: seq<Plot>, u: int, v: int)
    requires img.Valid() && img.Readable() && img.InBounds(u, v) && !Hits(plots, u, v)
    ensures Paint(img, mode, blendFactor, plots).cells[img.Index(u, v)] == img.cells[img.Index(u, v)]
    decreases |plots|
  {
    if plots != [] {
      var init, q := plots[..|plots| - 1], plots[|plots| - 1];
      PaintUntouched(img, mode, blendFactor, init, u, v);
      var before := Paint(img, mode, blendFactor, init);
      DrawOnCells(before, mode, blendFactor, q);
      if before.InBounds(q.x, q.y) {
        assert q.x != u || q.y != v;
        if before.Index(q.x, q.y) == before.Index(u, v) {
          IntOps.IndexInjective(q.x, q.y, u, v, img.width);
        }
      }
    }
  }

  /** The plot that lands last on an in-grid cell decides its value, in Normal
      and Custom mode, and in Mask mode when that plot is opaque. */
  lemma {:induction false} PaintLastHit(img: Image, mode: PixelMode, blendFactor: real, plots: seq<Plot>, k: int)
    requires img.Valid() && img.Readable()
    requires 0 <= k < |plots| && img.InBounds(plots[k].x, plots[k].y)
    requires mode == PixelMode.Normal || mode == Custom || (mode == Mask && plots[k].p.a == 255)
    requires forall j :: k < j < |plots| ==> plots[j].x != plots[k].x || plots[j].y != plots[k].y
    ensures Paint(img, mode, blendFactor, plots).cells[img.Index(plots[k].x, plots[k].y)] == Pack(plots[k].p)
    decreases |plots|
  {
    var init, q := plots[..|plots| - 1], plots[|plots| - 1];
    var before := Paint(img, mode, blendFactor, init);
    var u, v := plots[k].x, plots[k].y;
    DrawOnCells(before, mode, blendFactor, q);
    if k == |plots| - 1 {
      assert Paint(img, mode, blendFactor, plots) == DrawOn(before, mode, blendFactor, q);
    } else {
      PaintLastHit(img, mode, blendFactor, init, k);
      if before.InBounds(q.x, q.y) && before.Index(q.x, q.y) == before.Index(u, v) {
        IntOps.IndexInjective(q.x, q.y, u, v, img.width);
        assert false;
      }
    }
  }

  /** When every plot has the same pixel, in Normal or Custom mode (or Mask
      mode with an opaque pixel), an in-grid cell ends up holding that pixel
      exactly when some plot lands on it, and is untouched otherwise. */
  lemma PaintUniform(img: Image, mode: PixelMode, blendFactor: real, plots: seq<Plot>, p: Pixel, u: int, v: int)
    requires img.Valid() && img.Readable() && img.InBounds(u, v)
    requires forall k :: 0 <= k < |plots| ==> plots[k].p == p
    requires mode == PixelMode.Normal || mode == Custom || (mode == Mask && p.a == 255)
    ensures Paint(img, mode, blendFactor, plots).cells[img.Index(u, v)]
         == if Hits(plots, u, v) then Pack(p) else img.cells[img.Index(u, v)]
  {
    if Hits(plots, u, v) {
      var k :| 0 <= k < |plots| && plots[k].x == u && plots[k].y == v;
      k := LastHitIndex(plots, u, v, k);
      PaintLastHit(img, mode, blendFactor, plots, k);
    } else {
      PaintUntouched(img, mode, blendFactor, plots, u, v);
    }
  }

  /** The last index of a plot landing on (u, v), at or after `k`. */
  lemma {:induction false} LastHitIndex(plots: seq<Plot>, u: int, v: int, k: int) returns (last: int)
    requires 0 <= k < |plots| && plots[k].x == u && plots[k].y == v
    ensures k <= last < |plots| && plots[last].x == u && plots[last].y == v
    ensures forall j :: last < j < |plots| ==> plots[j].x != u || plots[j].y != v
    decreases |plots| - k
  {
    var j := k + 1;
    while j < |plots| && (plots[j].x != u || plots[j].y != v)
      invariant k < j <= |plots|
      invariant forall i :: k < i < j ==> plots[i].x != u || plots[i].y != v
      decreases |plots| - j
    {
      j := j + 1;
    }
    if j == |plots| {
      last := k;
    } else {
      last := LastHitIndex(plots, u, v, j);
    }
  }

  /** In Mask mode a list of translucent plots changes nothing. */
  lemma {:induction false} PaintMaskTranslucent(img: Image, blendFactor: real, plots: seq<Plot>)
    requires img.Valid() && img.Readable()
    requires forall k :: 0 <= k < |plots| ==> plots[k].p.a != 255
    ensures Paint(img, Mask, blendFactor, plots) == img
    decreases |plots|
  {
    if plots != [] {
      PaintMaskTranslucent(img, blendFactor, plots[..|plots| - 1]);
    }
  }

  /** Custom mode draws exactly as Normal mode does. */
  lemma {:induction false} PaintCustomIsNormal(img: Image, blendFactor: real, plots: seq<Plot>)
    requires img.Valid() && img.Readable()
    ensures Paint(img, Custom, blendFactor, plots) == Paint(img, PixelMode.Normal, blendFactor, plots)
    decreases |plots|
  {
    if plots != [] {
      PaintCustomIsNormal(img, blendFactor, plots[..|plots| - 1]);
    }
  }

  /** `Rows(n, f)` is `f(0) + f(1) + ... + f(n-1)`: the plots of a `for`
      loop over `0..n` whose body produces `f(i)`. */
  function Rows(n: nat, f: nat -> seq<Plot>): (s: seq<Plot>)
  {
    if n == 0 then [] else Rows(n - 1, f) + f(n - 1)
  }

  /** A plot lies in `Rows(n, f)` exactly when it lies in some `f(i)`, i < n. */
  lemma {:induction false} RowsMember(n: nat, f: nat -> seq<Plot>, q: Plot)
    ensures q in Rows(n, f) <==> exists i: nat :: i < n && q in f(i)
  {
    if n > 0 {
      RowsMember(n - 1, f, q);
      assert q in Rows(n, f) <==> q in Rows(n - 1, f) || q in f(n - 1);
    }
  }

  /** A loop of n iterations producing m plots each produces n * m plots. */
  lemma {:induction false} RowsLength(n: nat, f: nat -> seq<Plot>, m: nat)
    requires forall i: nat :: i < n ==> |f(i)| == m
    ensures |Rows(n, f)| == n * m
  {
    if n > 0 {
      RowsLength(n - 1, f, m);
      assert n * m == (n - 1) * m + m;
    }
  }
}
