/** Layers on a screen, pixel by pixel: which layer is on top, and what the two partial repaints
    write. Values only; the controller that changes its arrays is in module Layers. */
module Compositing {

  const MAX_LAYERS: nat := 64

  const NO_USE: nat := 0
  const IN_USE: nat := 1

  /** `struct layer`. `colInv` is the transparent colour; `height` is -1 while hidden. */
  datatype Layer = Layer(buf: seq<nat>, bxsize: int, bysize: int, vx0: int, vy0: int,
                         colInv: nat, height: int, flags: nat)

  /** A rectangle of the screen, right and lower edge excluded. */
  datatype Rect = Rect(x0: int, y0: int, x1: int, y1: int) {
    predicate Has(x: int, y: int) {
      x0 <= x < x1 && y0 <= y < y1
    }
  }

  function Place(l: Layer): Rect {
    Rect(l.vx0, l.vy0, l.vx0 + l.bxsize, l.vy0 + l.bysize)
  }

  /** The layer's own colour at a screen position that it covers. */
  function Pixel(l: Layer, x: int, y: int): nat {
    var i := (y - l.vy0) * l.bxsize + (x - l.vx0);
    if 0 <= i < |l.buf| then l.buf[i] else l.colInv
  }

  predicate Opaque(l: Layer, x: int, y: int) {
    Place(l).Has(x, y) && Pixel(l, x, y) != l.colInv
  }

  /** The buffer holds every pixel of the layer. */
  predicate LayerOk(l: Layer) {
    l.bxsize >= 0 && l.bysize >= 0 && |l.buf| == l.bxsize * l.bysize
  }

  /** Ids of layers, from the bottom of the screen to the top. */
  predicate Ids(layers: seq<Layer>, stack: seq<nat>) {
    forall h :: 0 <= h < |stack| ==> stack[h] < |layers|
  }

  // ---- the topmost opaque layer ----

  /** The height of the topmost layer of the stack that is opaque at the pixel, or -1. */
  function TopOf(layers: seq<Layer>, stack: seq<nat>, x: int, y: int): (t: int)
    requires Ids(layers, stack)
    ensures -1 <= t < |stack|
  {
    if stack == [] then -1
    else if Opaque(layers[stack[|stack| - 1]], x, y) then |stack| - 1
    else TopOf(layers, stack[..|stack| - 1], x, y)
  }

  /** `TopOf` is what its name says, and only it is. */
  lemma {:induction false} TopIs(layers: seq<Layer>, stack: seq<nat>, x: int, y: int, t: int)
    requires Ids(layers, stack) && -1 <= t < |stack|
    ensures TopOf(layers, stack, x, y) == t <==>
              && (t >= 0 ==> Opaque(layers[stack[t]], x, y))
              && (forall h :: t < h < |stack| ==> !Opaque(layers[stack[h]], x, y))
  {
    hide Opaque;
    if stack != [] && !Opaque(layers[stack[|stack| - 1]], x, y) && t < |stack| - 1 {
      TopIs(layers, stack[..|stack| - 1], x, y, t);
    }
  }

  /** The map and the colour of a pixel after painting the first `n` layers, bottom to top, over
      what was there. */
  function PaintedUp(layers: seq<Layer>, stack: seq<nat>, n: nat, x: int, y: int, m: nat, v: nat): (nat, nat)
    requires Ids(layers, stack) && n <= |stack|
  {
    if n == 0 then (m, v)
    else if Opaque(layers[stack[n - 1]], x, y) then (stack[n - 1], Pixel(layers[stack[n - 1]], x, y))
    else PaintedUp(layers, stack, n - 1, x, y, m, v)
  }

  /** The cache is right at a pixel: if a layer is opaque there, the map holds the id of the topmost
      such layer and the frame buffer its colour. */
  ghost predicate PixelOk(layers: seq<Layer>, stack: seq<nat>, x: int, y: int, m: nat, v: nat)
    requires Ids(layers, stack)
  {
    var t := TopOf(layers, stack, x, y);
    t >= 0 ==> m == stack[t] && v == Pixel(layers[stack[t]], x, y)
  }

  /** The cache is right at a pixel exactly when a full repaint from bottom to top over it would
      change nothing there. */
  lemma {:induction false} PixelOkIsFullRepaint(layers: seq<Layer>, stack: seq<nat>, x: int, y: int, m: nat, v: nat)
    requires Ids(layers, stack)
    ensures PixelOk(layers, stack, x, y, m, v) <==> PaintedUp(layers, stack, |stack|, x, y, m, v) == (m, v)
  {
    PaintedUpIsTop(layers, stack, |stack|, x, y, m, v);
    TopIs(layers, stack, x, y, TopOf(layers, stack, x, y));
  }

  lemma {:induction false} PaintedUpIsTop(layers: seq<Layer>, stack: seq<nat>, n: nat, x: int, y: int, m: nat, v: nat)
    requires Ids(layers, stack) && n <= |stack|
    requires forall h :: n <= h < |stack| ==> !Opaque(layers[stack[h]], x, y)
    ensures var t := TopOf(layers, stack, x, y);
            PaintedUp(layers, stack, n, x, y, m, v) ==
            if t >= 0 then (stack[t], Pixel(layers[stack[t]], x, y)) else (m, v)
  {
    TopIs(layers, stack, x, y, n - 1);
    if n > 0 && !Opaque(layers[stack[n - 1]], x, y) {
      PaintedUpIsTop(layers, stack, n - 1, x, y, m, v);
    }
  }

  // ---- what the two partial passes write ----

  /** The map after `layer_refreshmap` over a rectangle from height `h0` on. */
  function MapAfter(layers: seq<Layer>, stack: seq<nat>, r: Rect, h0: int, x: int, y: int, m: nat): nat
    requires Ids(layers, stack)
  {
    var t := TopOf(layers, stack, x, y);
    if r.Has(x, y) && t >= h0 && t >= 0 then stack[t] else m
  }

  /** `layer_refresh_area` over heights `[h0, h1]` writes the pixel: the map names one of those
      layers, and that layer covers the pixel. */
  ghost predicate Refreshed(layers: seq<Layer>, stack: seq<nat>, r: Rect, h0: int, h1: int, x: int, y: int, m: nat)
    requires Ids(layers, stack)
  {
    && r.Has(x, y)
    && exists h :: 0 <= h < |stack| && h0 <= h <= h1 && stack[h] == m && Place(layers[stack[h]]).Has(x, y)
  }

  ghost function ColorAfter(layers: seq<Layer>, stack: seq<nat>, r: Rect, h0: int, h1: int, x: int, y: int, m: nat,
                            v: nat): nat
    requires Ids(layers, stack)
  {
    if Refreshed(layers, stack, r, h0, h1, x, y, m) then Pixel(layers[m], x, y) else v
  }

  // ---- moving a layer in the stack ----

  lemma IdsConcat(layers: seq<Layer>, a: seq<nat>, b: seq<nat>)
    requires Ids(layers, a) && Ids(layers, b)
    ensures Ids(layers, a + b)
  {
  }

  /** The top of two stacks, one on the other. */
  lemma {:induction false} TopOfConcat(layers: seq<Layer>, a: seq<nat>, b: seq<nat>, x: int, y: int)
    requires Ids(layers, a) && Ids(layers, b)
    ensures Ids(layers, a + b)
    ensures var t := TopOf(layers, b, x, y);
            TopOf(layers, a + b, x, y) == if t >= 0 then |a| + t else TopOf(layers, a, x, y)
  {
    hide Opaque;
    IdsConcat(layers, a, b);
    if b == [] {
      assert a + b == a;
    } else {
      assert (a + b)[..|a + b| - 1] == a + b[..|b| - 1];
      TopOfConcat(layers, a, b[..|b| - 1], x, y);
    }
  }

  function Without(stack: seq<nat>, h: nat): seq<nat>
    requires h < |stack|
  {
    stack[..h] + stack[h + 1..]
  }

  /** The stack when layer `id`, until now at height `from`, goes to height `to`; -1 is hidden. */
  function Restacked(stack: seq<nat>, id: nat, from: int, to: int): seq<nat>
    requires from < |stack| && to <= |stack| && (from >= 0 ==> to < |stack|)
  {
    var rest := if from >= 0 then Without(stack, from) else stack;
    if to >= 0 then rest[..to] + [id] + rest[to..] else rest
  }

  /** What a new stack means: the layer is at its new height, and the others stay in their order. */
  lemma RestackedMeans(stack: seq<nat>, id: nat, from: int, to: int)
    requires -1 <= from < |stack| && -1 <= to <= |stack| && (from >= 0 ==> to < |stack| && stack[from] == id)
    ensures var r := Restacked(stack, id, from, to);
            && |r| == |stack| + (if from < 0 then 1 else 0) - (if to < 0 then 1 else 0)
            && (to >= 0 ==> r[to] == id)
            && (if to >= 0 then Without(r, to) else r) == if from >= 0 then Without(stack, from) else stack
  {
    var rest := if from >= 0 then Without(stack, from) else stack;
    if to >= 0 {
      assert Without(rest[..to] + [id] + rest[to..], to) == rest;
    }
  }

  /** The stack from two parts and the moved layer. */
  function Around(a: seq<nat>, id: nat, b: seq<nat>): seq<nat> {
    a + [id] + b
  }

  /** Position `t` of each part, in the parts and in the whole. */
  lemma AroundAt(a: seq<nat>, id: nat, b: seq<nat>, t: int)
    ensures |Around(a, id, b)| == |a| + 1 + |b| && Around(a, id, b)[|a|] == id
    ensures 0 <= t < |a| ==> Around(a, id, b)[t] == a[t] == (a + b)[t]
    ensures 0 <= t < |b| ==> Around(a, id, b)[|a| + 1 + t] == b[t] == (a + b)[|a| + t]
  {
  }

  /** The same for the moved layer below and above the middle part. */
  lemma FourParts(a: seq<nat>, b: seq<nat>, id: nat, c: seq<nat>, ta: int, tb: int, tc: int)
    ensures var low, high := Around(a, id, b + c), Around(a + b, id, c);
            && |low| == |high| == |a| + |b| + |c| + 1
            && low[|a|] == id == high[|a| + |b|]
            && (0 <= ta < |a| ==> low[ta] == a[ta] == high[ta])
            && (0 <= tb < |b| ==> low[|a| + 1 + tb] == b[tb] == high[|a| + tb])
            && (0 <= tc < |c| ==> low[|a| + 1 + |b| + tc] == c[tc] == high[|a| + |b| + 1 + tc])
  {
  }

  lemma TopAround(layers: seq<Layer>, a: seq<nat>, id: nat, b: seq<nat>, x: int, y: int)
    requires Ids(layers, a) && Ids(layers, b) && id < |layers|
    ensures Ids(layers, Around(a, id, b))
    ensures var t := TopOf(layers, b, x, y);
            TopOf(layers, Around(a, id, b), x, y) ==
            if t >= 0 then |a| + 1 + t else if Opaque(layers[id], x, y) then |a| else TopOf(layers, a, x, y)
  {
    hide Opaque;
    TopOfConcat(layers, a, [id], x, y);
    TopOfConcat(layers, a + [id], b, x, y);
    assert TopOf(layers, [id], x, y) == if Opaque(layers[id], x, y) then 0 else -1;
  }

  lemma OpaqueInPlace(l: Layer, x: int, y: int)
    ensures Opaque(l, x, y) ==> Place(l).Has(x, y)
  {
  }

  /** When the two partial passes leave a pixel right: at the top layer's height, each pass either
      writes the pixel or finds it right already. */
  lemma PassesSuffice(layers: seq<Layer>, stack: seq<nat>, r: Rect, hm: int, h0: int, h1: int, x: int, y: int,
                      m: nat, v: nat)
    requires Ids(layers, stack) && hm >= 0
    requires var t := TopOf(layers, stack, x, y);
             t >= 0 ==>
               && ((r.Has(x, y) && t >= hm) || m == stack[t])
               && ((r.Has(x, y) && h0 <= t <= h1) || v == Pixel(layers[stack[t]], x, y))
    ensures var m' := MapAfter(layers, stack, r, hm, x, y, m);
            PixelOk(layers, stack, x, y, m', ColorAfter(layers, stack, r, h0, h1, x, y, m', v))
  {
    hide Opaque, Pixel;
    var t := TopOf(layers, stack, x, y);
    TopIs(layers, stack, x, y, t);
    if t >= 0 {
      OpaqueInPlace(layers[stack[t]], x, y);
    }
  }

  /** A hidden layer `id` is shown between `a` and `b`. */
  lemma ShownPixel(layers: seq<Layer>, a: seq<nat>, id: nat, b: seq<nat>, x: int, y: int, m: nat, v: nat)
    requires Ids(layers, a) && Ids(layers, b) && id < |layers|
    requires Ids(layers, a + b) && PixelOk(layers, a + b, x, y, m, v)
    ensures Ids(layers, Around(a, id, b))
    ensures var stack, r := Around(a, id, b), Place(layers[id]);
            var m' := MapAfter(layers, stack, r, |a|, x, y, m);
            PixelOk(layers, stack, x, y, m', ColorAfter(layers, stack, r, |a|, |a|, x, y, m', v))
  {
    hide Opaque, Pixel, MapAfter, ColorAfter, Around;
    TopOfConcat(layers, a, b, x, y);
    TopAround(layers, a, id, b, x, y);
    OpaqueInPlace(layers[id], x, y);
    AroundAt(a, id, b, TopOf(layers, a, x, y));
    AroundAt(a, id, b, TopOf(layers, b, x, y));
    PassesSuffice(layers, Around(a, id, b), Place(layers[id]), |a|, |a|, |a|, x, y, m, v);
  }

  /** A shown layer `id` between `a` and `b` is hidden: the map is repainted from the bottom, the
      colours only for the layers that were below. */
  lemma HiddenPixel(layers: seq<Layer>, a: seq<nat>, id: nat, b: seq<nat>, x: int, y: int, m: nat, v: nat)
    requires Ids(layers, a) && Ids(layers, b) && id < |layers|
    requires Ids(layers, Around(a, id, b)) && PixelOk(layers, Around(a, id, b), x, y, m, v)
    ensures Ids(layers, a + b)
    ensures var stack, r := a + b, Place(layers[id]);
            var m' := MapAfter(layers, stack, r, 0, x, y, m);
            PixelOk(layers, stack, x, y, m', ColorAfter(layers, stack, r, 0, |a| - 1, x, y, m', v))
  {
    hide Opaque, Pixel, MapAfter, ColorAfter, Around;
    TopOfConcat(layers, a, b, x, y);
    TopAround(layers, a, id, b, x, y);
    OpaqueInPlace(layers[id], x, y);
    AroundAt(a, id, b, TopOf(layers, a, x, y));
    AroundAt(a, id, b, TopOf(layers, b, x, y));
    PassesSuffice(layers, a + b, Place(layers[id]), 0, 0, |a| - 1, x, y, m, v);
  }

  /** A shown layer `id` goes below the layers of `b`: the map is repainted from just above its new
      height, the colours for the layers of `b`. */
  lemma LoweredPixel(layers: seq<Layer>, a: seq<nat>, b: seq<nat>, id: nat, c: seq<nat>, x: int, y: int, m: nat, v: nat)
    requires Ids(layers, a) && Ids(layers, b) && Ids(layers, c) && id < |layers|
    requires Ids(layers, Around(a + b, id, c)) && PixelOk(layers, Around(a + b, id, c), x, y, m, v)
    ensures Ids(layers, Around(a, id, b + c))
    ensures var stack, r := Around(a, id, b + c), Place(layers[id]);
            var m' := MapAfter(layers, stack, r, |a| + 1, x, y, m);
            PixelOk(layers, stack, x, y, m', ColorAfter(layers, stack, r, |a| + 1, |a| + |b|, x, y, m', v))
  {
    hide Opaque, Pixel, MapAfter, ColorAfter, Around;
    var ta, tb, tc := TopOf(layers, a, x, y), TopOf(layers, b, x, y), TopOf(layers, c, x, y);
    TopOfConcat(layers, a, b, x, y);
    TopOfConcat(layers, b, c, x, y);
    TopAround(layers, a + b, id, c, x, y);
    TopAround(layers, a, id, b + c, x, y);
    OpaqueInPlace(layers[id], x, y);
    FourParts(a, b, id, c, ta, tb, tc);
    PassesSuffice(layers, Around(a, id, b + c), Place(layers[id]), |a| + 1, |a| + 1, |a| + |b|, x, y, m, v);
  }

  /** A shown layer `id` goes above the layers of `b`: map and colours are repainted at its new
      height. */
  lemma RaisedPixel(layers: seq<Layer>, a: seq<nat>, id: nat, b: seq<nat>, c: seq<nat>, x: int, y: int, m: nat, v: nat)
    requires Ids(layers, a) && Ids(layers, b) && Ids(layers, c) && id < |layers|
    requires Ids(layers, Around(a, id, b + c)) && PixelOk(layers, Around(a, id, b + c), x, y, m, v)
    ensures Ids(layers, Around(a + b, id, c))
    ensures var stack, r, h := Around(a + b, id, c), Place(layers[id]), |a| + |b|;
            var m' := MapAfter(layers, stack, r, h, x, y, m);
            PixelOk(layers, stack, x, y, m', ColorAfter(layers, stack, r, h, h, x, y, m', v))
  {
    hide Opaque, Pixel, MapAfter, ColorAfter, Around;
    var ta, tb, tc := TopOf(layers, a, x, y), TopOf(layers, b, x, y), TopOf(layers, c, x, y);
    TopOfConcat(layers, a, b, x, y);
    TopOfConcat(layers, b, c, x, y);
    TopAround(layers, a + b, id, c, x, y);
    TopAround(layers, a, id, b + c, x, y);
    OpaqueInPlace(layers[id], x, y);
    FourParts(a, b, id, c, ta, tb, tc);
    PassesSuffice(layers, Around(a + b, id, c), Place(layers[id]), |a| + |b|, |a| + |b|, |a| + |b|, x, y, m, v);
  }

  /** A shown layer `id` is asked for a height above the top, and the stale slot there holds it too: it
      goes above the layers of `b`, the map is not repainted, and colours are rewritten only where the map
      names it already. That leaves a pixel right exactly when `id` is not opaque there or nothing that
      was above it is. */
  lemma PastTopPixel(layers: seq<Layer>, a: seq<nat>, id: nat, b: seq<nat>, x: int, y: int, m: nat, v: nat, v': nat)
    requires Ids(layers, a) && Ids(layers, b) && id < |layers| && id !in a && id !in b
    requires Ids(layers, Around(a, id, b)) && PixelOk(layers, Around(a, id, b), x, y, m, v)
    requires v' == v || (m == id && v' == Pixel(layers[id], x, y))
    ensures Ids(layers, a + (b + [id]))
    ensures PixelOk(layers, a + (b + [id]), x, y, m, v') <==> (Opaque(layers[id], x, y) ==> TopOf(layers, b, x, y) < 0)
  {
    hide Opaque, Pixel, Around, TopOf;
    TopAround(layers, a, id, b, x, y);
    TopPast(layers, a, id, b, x, y);
    var ta, tb := TopOf(layers, a, x, y), TopOf(layers, b, x, y);
    if tb >= 0 {
      AroundAt(a, id, b, tb);
      PastAt(a, id, b, tb);
      NotThere(b, id, tb);
      assert m == b[tb] != id && v' == v;
    } else if Opaque(layers[id], x, y) {
      AroundAt(a, id, b, 0);
      PastAt(a, id, b, 0);
      assert m == id && v' == v == Pixel(layers[id], x, y);
    } else if ta >= 0 {
      AroundAt(a, id, b, ta);
      PastAt(a, id, b, ta);
      NotThere(a, id, ta);
      assert m == a[ta] != id && v' == v;
    }
  }

  lemma TopPast(layers: seq<Layer>, a: seq<nat>, id: nat, b: seq<nat>, x: int, y: int)
    requires Ids(layers, a) && Ids(layers, b) && id < |layers|
    ensures Ids(layers, a + (b + [id]))
    ensures var t := TopOf(layers, b, x, y);
            TopOf(layers, a + (b + [id]), x, y) ==
            if Opaque(layers[id], x, y) then |a| + |b| else if t >= 0 then |a| + t else TopOf(layers, a, x, y)
  {
    hide Opaque;
    TopOfConcat(layers, b, [id], x, y);
    TopOfConcat(layers, a, b + [id], x, y);
    assert TopOf(layers, [id], x, y) == if Opaque(layers[id], x, y) then 0 else -1;
  }

  lemma PastAt(a: seq<nat>, id: nat, b: seq<nat>, t: int)
    ensures (a + (b + [id]))[|a| + |b|] == id
    ensures 0 <= t < |a| ==> (a + (b + [id]))[t] == a[t]
    ensures 0 <= t < |b| ==> (a + (b + [id]))[|a| + t] == b[t]
  {
  }

  lemma NotThere(a: seq<nat>, id: nat, t: int)
    requires id !in a
    ensures 0 <= t < |a| ==> a[t] != id
  {
  }

  /** The four passes of `layer_move`, on one pixel. */
  ghost function MovedMap(layers: seq<Layer>, stack: seq<nat>, from: Rect, to: Rect, h: int, x: int, y: int,
                          m: nat): nat
    requires Ids(layers, stack)
  {
    MapAfter(layers, stack, to, h, x, y, MapAfter(layers, stack, from, 0, x, y, m))
  }

  ghost function MovedColor(layers: seq<Layer>, stack: seq<nat>, from: Rect, to: Rect, h: int, x: int, y: int,
                            m: nat, v: nat): nat
    requires Ids(layers, stack)
  {
    ColorAfter(layers, stack, to, h, h, x, y, m, ColorAfter(layers, stack, from, 0, h - 1, x, y, m, v))
  }

  lemma TopKept(layers: seq<Layer>, layers': seq<Layer>, stack: seq<nat>, x: int, y: int)
    requires Ids(layers, stack) && |layers'| == |layers|
    requires forall h :: 0 <= h < |stack| ==> layers'[stack[h]] == layers[stack[h]]
    ensures TopOf(layers', stack, x, y) == TopOf(layers, stack, x, y)
  {
    hide Opaque;
    TopIs(layers', stack, x, y, TopOf(layers, stack, x, y));
    TopIs(layers, stack, x, y, TopOf(layers, stack, x, y));
  }

  /** Moving the picture of shown layer `id`, wherever from and to. */
  lemma MovedPixel(layers: seq<Layer>, layers': seq<Layer>, a: seq<nat>, id: nat, b: seq<nat>, x: int, y: int,
                   m: nat, v: nat)
    requires Ids(layers, a) && Ids(layers, b) && id < |layers| == |layers'|
    requires id !in a && id !in b && layers' == layers[id := layers'[id]]
    requires Ids(layers, Around(a, id, b)) && PixelOk(layers, Around(a, id, b), x, y, m, v)
    ensures Ids(layers', Around(a, id, b))
    ensures var stack, from, to := Around(a, id, b), Place(layers[id]), Place(layers'[id]);
            var m' := MovedMap(layers', stack, from, to, |a|, x, y, m);
            PixelOk(layers', stack, x, y, m', MovedColor(layers', stack, from, to, |a|, x, y, m', v))
  {
    hide Opaque, Pixel, Around;
    TopAround(layers, a, id, b, x, y);
    TopAround(layers', a, id, b, x, y);
    TopKept(layers, layers', a, x, y);
    TopKept(layers, layers', b, x, y);
    OpaqueInPlace(layers[id], x, y);
    OpaqueInPlace(layers'[id], x, y);
    var stack := Around(a, id, b);
    var t := TopOf(layers', stack, x, y);
    AroundAt(a, id, b, TopOf(layers, a, x, y));
    AroundAt(a, id, b, TopOf(layers, b, x, y));
    TopIs(layers', stack, x, y, t);
    if t >= 0 {
      OpaqueInPlace(layers'[stack[t]], x, y);
    }
  }

  // ---- the screen as one row of cells ----

  predicate OnScreen(xsize: nat, ysize: nat, x: int, y: int) {
    0 <= x < xsize && 0 <= y < ysize
  }

  /** `y * xsize + x` */
  function Index(xsize: nat, ysize: nat, x: int, y: int): (i: nat)
    requires OnScreen(xsize, ysize, x, y)
    ensures i < xsize * ysize
  {
    RowBound(xsize, ysize, y);
    y * xsize + x
  }

  lemma RowBound(xsize: nat, ysize: nat, y: int)
    requires 0 <= y < ysize
    ensures 0 <= y * xsize && y * xsize + xsize <= xsize * ysize
  {
    assert (y + 1) * xsize <= ysize * xsize;
  }

  /** A cell lies in the stretch of row `y` between columns `x0` and `x1` just when its position is
      there. */
  lemma StretchOfRow(xsize: nat, ysize: nat, x: int, y: int, row: int, x0: int, x1: int)
    requires OnScreen(xsize, ysize, x, y) && 0 <= x0 && x1 <= xsize
    ensures row * xsize + x0 <= Index(xsize, ysize, x, y) < row * xsize + x1 <==> y == row && x0 <= x < x1
    ensures y == row ==> Index(xsize, ysize, x, y) - row * xsize == x
  {
    if y < row {
      assert (y + 1) * xsize <= row * xsize;
    } else if y > row {
      assert (row + 1) * xsize <= y * xsize;
    }
  }

  lemma BufferIndex(l: Layer, col: int, row: int)
    requires LayerOk(l) && 0 <= col < l.bxsize && 0 <= row < l.bysize
    ensures 0 <= row * l.bxsize + col < |l.buf|
    ensures Pixel(l, l.vx0 + col, l.vy0 + row) == l.buf[row * l.bxsize + col]
    ensures Place(l).Has(l.vx0 + col, l.vy0 + row)
  {
    RowBound(l.bxsize, l.bysize, row);
  }
}
