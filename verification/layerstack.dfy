/** The stack of shown layers and the passes over the whole screen: what each pass leaves, and that
    the passes of each operation repair the cache everywhere. */
module LayerStack {
  import opened Compositing

  // ---- the stack of shown layers ----

  /** No id twice, all ids valid. */
  ghost predicate Distinct(stack: seq<nat>) {
    forall i, j :: 0 <= i < j < |stack| ==> stack[i] != stack[j]
  }

  predicate Shown(l: Layer) {
    l.flags != NO_USE && l.height >= 0
  }

  /** The stack holds exactly the shown layers, each with its height equal to its position. */
  ghost predicate StackOk(layers: seq<Layer>, stack: seq<nat>) {
    && |layers| == MAX_LAYERS && Ids(layers, stack) && Distinct(stack)
    && (forall h :: 0 <= h < |stack| ==> layers[stack[h]].height == h && layers[stack[h]].flags != NO_USE)
    && (forall id: nat :: id < |layers| && layers[id].flags != NO_USE ==> layers[id].height >= -1)
    && (forall id: nat :: id < |layers| && Shown(layers[id]) ==> id in stack)
    && (forall id: nat :: id < |layers| && Shown(layers[id]) ==> LayerOk(layers[id]))
  }

  predicate SameLook(l: Layer, l': Layer) {
    l' == l.(height := l'.height)
  }

  /** Only the heights of the listed layers changed: they count up from `base`. */
  ghost predicate HeightsSet(layers: seq<Layer>, layers': seq<Layer>, ids: seq<nat>, base: int) {
    && |layers'| == |layers| && Ids(layers, ids)
    && (forall i :: 0 <= i < |layers| ==> SameLook(layers[i], layers'[i]))
    && (forall k :: 0 <= k < |ids| ==> layers'[ids[k]].height == base + k)
    && (forall i: nat :: i < |layers| && i !in ids ==> layers'[i] == layers[i])
  }

  /** What a new stack needs in order to hold exactly the shown layers again. */
  lemma RestackKeepsOk(layers: seq<Layer>, layers': seq<Layer>, stack: seq<nat>, stack': seq<nat>, id: nat)
    requires StackOk(layers, stack) && |layers'| == |layers| && id < |layers|
    requires Ids(layers, stack') && Distinct(stack')
    requires forall i: nat :: i != id ==> (i in stack' <==> i in stack)
    requires forall i :: 0 <= i < |layers| ==> SameLook(layers[i], layers'[i])
    requires forall h :: 0 <= h < |stack'| ==> layers'[stack'[h]].height == h
    requires forall i: nat :: i < |layers| && i !in stack' && i != id ==> layers'[i].height == layers[i].height
    requires layers[id].flags != NO_USE && LayerOk(layers[id])
    requires id in stack' || layers'[id].height == -1
    ensures StackOk(layers', stack')
  {
    hide LayerOk;
    forall i: nat | i < |layers'|
      ensures layers'[i].flags == layers[i].flags && LayerOk(layers'[i]) == LayerOk(layers[i])
    {
      LookFacts(layers[i], layers'[i]);
    }
    forall h | 0 <= h < |stack'|
      ensures layers'[stack'[h]].flags != NO_USE
    {
      if stack'[h] != id {
        assert stack'[h] in stack;
      }
    }
  }

  /** A hidden layer that goes on top. */
  lemma OnTop(stack: seq<nat>, id: nat)
    ensures Restacked(stack, id, -1, |stack|) == stack + [id]
  {
  }

  lemma LookFacts(l: Layer, l': Layer)
    requires SameLook(l, l')
    ensures l'.flags == l.flags && LayerOk(l') == LayerOk(l) && Place(l') == Place(l)
    ensures forall x, y :: Opaque(l', x, y) == Opaque(l, x, y) && Pixel(l', x, y) == Pixel(l, x, y)
  {
  }

  /** At most as many distinct numbers below `n` as there are. */
  lemma {:induction false} Pigeonhole(stack: seq<nat>, n: nat)
    requires Distinct(stack) && forall h :: 0 <= h < |stack| ==> stack[h] < n
    ensures |stack| <= n
  {
    if stack != [] {
      assert stack[0] < n;
      if n - 1 in stack {
        var h :| 0 <= h < |stack| && stack[h] == n - 1;
        Pigeonhole(stack[..h] + stack[h + 1..], n - 1);
      } else {
        Pigeonhole(stack, n - 1);
      }
    }
  }

  /** Showing a hidden layer never runs past the last of the 64 slots. */
  lemma RoomForOneMore(layers: seq<Layer>, stack: seq<nat>, id: nat)
    requires StackOk(layers, stack) && id < MAX_LAYERS && id !in stack
    ensures |stack| < MAX_LAYERS
  {
    Pigeonhole(stack + [id], MAX_LAYERS);
  }

  /** The cache is right on the whole screen. */
  ghost predicate Agree(layers: seq<Layer>, stack: seq<nat>, xsize: nat, ysize: nat, cells: seq<nat>, vram: seq<nat>)
    requires |cells| == |vram| == xsize * ysize && Ids(layers, stack)
  {
    forall x, y :: OnScreen(xsize, ysize, x, y) ==>
      PixelOk(layers, stack, x, y, cells[Index(xsize, ysize, x, y)], vram[Index(xsize, ysize, x, y)])
  }

  /** Changing heights alone changes no picture. */
  lemma AgreeForLook(layers: seq<Layer>, layers': seq<Layer>, stack: seq<nat>, xsize: nat, ysize: nat,
                     cells: seq<nat>, vram: seq<nat>)
    requires |cells| == |vram| == xsize * ysize && Ids(layers, stack) && |layers'| == |layers|
    requires forall i :: 0 <= i < |layers| ==> SameLook(layers[i], layers'[i])
    requires Agree(layers, stack, xsize, ysize, cells, vram)
    ensures Agree(layers', stack, xsize, ysize, cells, vram)
  {
    hide Opaque, Pixel, Index;
    forall x, y | OnScreen(xsize, ysize, x, y)
      ensures PixelOk(layers', stack, x, y, cells[Index(xsize, ysize, x, y)], vram[Index(xsize, ysize, x, y)])
    {
      TopForLook(layers, layers', stack, x, y);
      var t := TopOf(layers, stack, x, y);
      assert PixelOk(layers, stack, x, y, cells[Index(xsize, ysize, x, y)], vram[Index(xsize, ysize, x, y)]);
      if t >= 0 {
        LookFacts(layers[stack[t]], layers'[stack[t]]);
      }
    }
  }

  lemma {:induction false} TopForLook(layers: seq<Layer>, layers': seq<Layer>, stack: seq<nat>, x: int, y: int)
    requires Ids(layers, stack) && |layers'| == |layers|
    requires forall i :: 0 <= i < |layers| ==> SameLook(layers[i], layers'[i])
    ensures TopOf(layers', stack, x, y) == TopOf(layers, stack, x, y)
  {
    hide Opaque, SameLook;
    if stack != [] {
      var id := stack[|stack| - 1];
      LookFacts(layers[id], layers'[id]);
      TopForLook(layers, layers', stack[..|stack| - 1], x, y);
    }
  }

  /** The cache is right exactly when a full repaint of all layers over it, from the bottom of the
      stack to the top, would change nothing on the screen. */
  lemma AgreeIsFullRepaint(layers: seq<Layer>, stack: seq<nat>, xsize: nat, ysize: nat, cells: seq<nat>, vram: seq<nat>)
    requires |cells| == |vram| == xsize * ysize && Ids(layers, stack)
    ensures Agree(layers, stack, xsize, ysize, cells, vram) <==>
              forall x, y :: OnScreen(xsize, ysize, x, y) ==>
                var i := Index(xsize, ysize, x, y);
                PaintedUp(layers, stack, |stack|, x, y, cells[i], vram[i]) == (cells[i], vram[i])
  {
    hide Opaque, Pixel, Index, PixelOk;
    forall x, y | OnScreen(xsize, ysize, x, y)
      ensures var i := Index(xsize, ysize, x, y);
              PixelOk(layers, stack, x, y, cells[i], vram[i]) <==>
              PaintedUp(layers, stack, |stack|, x, y, cells[i], vram[i]) == (cells[i], vram[i])
    {
      PixelOkIsFullRepaint(layers, stack, x, y, cells[Index(xsize, ysize, x, y)], vram[Index(xsize, ysize, x, y)]);
    }
  }

  /** The map after a `layer_refreshmap` pass, cell by cell. */
  ghost predicate MapRefreshed(layers: seq<Layer>, stack: seq<nat>, xsize: nat, ysize: nat, r: Rect, h0: int,
                               cells: seq<nat>, cells': seq<nat>)
    requires Ids(layers, stack)
  {
    && |cells| == |cells'| == xsize * ysize
    && forall x, y :: OnScreen(xsize, ysize, x, y) ==>
         var i := Index(xsize, ysize, x, y);
         cells'[i] == MapAfter(layers, stack, r, h0, x, y, cells[i])
  }

  /** The frame buffer after a `layer_refresh_area` pass, pixel by pixel. */
  ghost predicate AreaRefreshed(layers: seq<Layer>, stack: seq<nat>, xsize: nat, ysize: nat, r: Rect, h0: int, h1: int,
                                cells: seq<nat>, vram: seq<nat>, vram': seq<nat>)
    requires Ids(layers, stack)
  {
    && |cells| == |vram| == |vram'| == xsize * ysize
    && forall x, y :: OnScreen(xsize, ysize, x, y) ==>
         var i := Index(xsize, ysize, x, y);
         vram'[i] == ColorAfter(layers, stack, r, h0, h1, x, y, cells[i], vram[i])
  }

  /** One layer painted into the map, inside a rectangle. */
  ghost predicate LayerOnMap(l: Layer, id: nat, xsize: nat, ysize: nat, r: Rect, cells: seq<nat>, cells': seq<nat>) {
    && |cells| == |cells'| == xsize * ysize
    && forall x, y :: OnScreen(xsize, ysize, x, y) ==>
         var i := Index(xsize, ysize, x, y);
         cells'[i] == if r.Has(x, y) && Opaque(l, x, y) then id else cells[i]
  }

  /** The colours of one layer written where the map names it, inside a rectangle. */
  ghost predicate LayerOnScreen(l: Layer, id: nat, xsize: nat, ysize: nat, r: Rect, cells: seq<nat>, vram: seq<nat>,
                                vram': seq<nat>) {
    && |cells| == |vram| == |vram'| == xsize * ysize
    && forall x, y :: OnScreen(xsize, ysize, x, y) ==>
         var i := Index(xsize, ysize, x, y);
         vram'[i] == if r.Has(x, y) && Place(l).Has(x, y) && cells[i] == id then Pixel(l, x, y) else vram[i]
  }

  /** A map pass starts with nothing painted, and painting the next layer up extends it. */
  lemma MapPassStarts(layers: seq<Layer>, stack: seq<nat>, xsize: nat, ysize: nat, r: Rect, h0: nat, cells: seq<nat>)
    requires Ids(layers, stack) && h0 <= |stack| && |cells| == xsize * ysize
    ensures Ids(layers, stack[..h0]) && MapRefreshed(layers, stack[..h0], xsize, ysize, r, h0, cells, cells)
  {
  }

  lemma MapPassStep(layers: seq<Layer>, stack: seq<nat>, xsize: nat, ysize: nat, r: Rect, h0: nat, h: nat,
                    cells: seq<nat>, cells': seq<nat>, cells'': seq<nat>)
    requires Ids(layers, stack) && h0 <= h < |stack| && Ids(layers, stack[..h])
    requires MapRefreshed(layers, stack[..h], xsize, ysize, r, h0, cells, cells')
    requires LayerOnMap(layers[stack[h]], stack[h], xsize, ysize, r, cells', cells'')
    ensures Ids(layers, stack[..h + 1]) && MapRefreshed(layers, stack[..h + 1], xsize, ysize, r, h0, cells, cells'')
  {
    hide Opaque, Pixel, Index;
    var below, upTo := stack[..h], stack[..h + 1];
    assert upTo[..h] == below;
    forall x, y | OnScreen(xsize, ysize, x, y)
      ensures var i := Index(xsize, ysize, x, y);
              cells''[i] == MapAfter(layers, upTo, r, h0, x, y, cells[i])
    {
      assert TopOf(layers, upTo, x, y) == if Opaque(layers[stack[h]], x, y) then h else TopOf(layers, below, x, y);
    }
  }

  lemma AreaPassStarts(layers: seq<Layer>, stack: seq<nat>, xsize: nat, ysize: nat, r: Rect, h0: int,
                       cells: seq<nat>, vram: seq<nat>)
    requires Ids(layers, stack) && |cells| == |vram| == xsize * ysize
    ensures AreaRefreshed(layers, stack, xsize, ysize, r, h0, h0 - 1, cells, vram, vram)
  {
  }

  lemma AreaPassStep(layers: seq<Layer>, stack: seq<nat>, xsize: nat, ysize: nat, r: Rect, h0: int, h: nat,
                     cells: seq<nat>, vram: seq<nat>, vram': seq<nat>, vram'': seq<nat>)
    requires Ids(layers, stack) && h0 <= h < |stack|
    requires AreaRefreshed(layers, stack, xsize, ysize, r, h0, h - 1, cells, vram, vram')
    requires LayerOnScreen(layers[stack[h]], stack[h], xsize, ysize, r, cells, vram', vram'')
    ensures AreaRefreshed(layers, stack, xsize, ysize, r, h0, h, cells, vram, vram'')
  {
    hide Pixel, Index, Place;
    forall x, y | OnScreen(xsize, ysize, x, y)
      ensures var i := Index(xsize, ysize, x, y);
              vram''[i] == ColorAfter(layers, stack, r, h0, h, x, y, cells[i], vram[i])
    {
      var m := cells[Index(xsize, ysize, x, y)];
      assert Refreshed(layers, stack, r, h0, h, x, y, m) <==>
               Refreshed(layers, stack, r, h0, h - 1, x, y, m) ||
               (r.Has(x, y) && stack[h] == m && Place(layers[m]).Has(x, y));
    }
  }

  /** The two passes after showing a layer repair the whole screen. */
  lemma AgreeAfterShow(layers: seq<Layer>, a: seq<nat>, id: nat, b: seq<nat>, xsize: nat, ysize: nat,
               cells: seq<nat>, cells': seq<nat>, vram: seq<nat>, vram': seq<nat>)
    requires Ids(layers, a) && Ids(layers, b) && id < |layers|
    requires |cells| == |vram| == xsize * ysize && Ids(layers, a + b) && Ids(layers, Around(a, id, b))
    requires Agree(layers, a + b, xsize, ysize, cells, vram)
    requires MapRefreshed(layers, Around(a, id, b), xsize, ysize, Place(layers[id]), |a|, cells, cells')
    requires AreaRefreshed(layers, Around(a, id, b), xsize, ysize, Place(layers[id]), |a|, |a|, cells', vram, vram')
    ensures Agree(layers, Around(a, id, b), xsize, ysize, cells', vram')
  {
    hide Opaque, Pixel, Index, MapAfter, ColorAfter, Around, PixelOk;
    forall x, y | OnScreen(xsize, ysize, x, y)
      ensures PixelOk(layers, Around(a, id, b), x, y, cells'[Index(xsize, ysize, x, y)],
                      vram'[Index(xsize, ysize, x, y)])
    {
      ShownPixel(layers, a, id, b, x, y, cells[Index(xsize, ysize, x, y)], vram[Index(xsize, ysize, x, y)]);
    }
  }

  /** The two passes after hiding a layer repair the whole screen. */
  lemma AgreeAfterHide(layers: seq<Layer>, a: seq<nat>, id: nat, b: seq<nat>, xsize: nat, ysize: nat,
               cells: seq<nat>, cells': seq<nat>, vram: seq<nat>, vram': seq<nat>)
    requires Ids(layers, a) && Ids(layers, b) && id < |layers|
    requires |cells| == |vram| == xsize * ysize && Ids(layers, Around(a, id, b)) && Ids(layers, a + b)
    requires Agree(layers, Around(a, id, b), xsize, ysize, cells, vram)
    requires MapRefreshed(layers, a + b, xsize, ysize, Place(layers[id]), 0, cells, cells')
    requires AreaRefreshed(layers, a + b, xsize, ysize, Place(layers[id]), 0, |a| - 1, cells', vram, vram')
    ensures Agree(layers, a + b, xsize, ysize, cells', vram')
  {
    hide Opaque, Pixel, Index, MapAfter, ColorAfter, Around, PixelOk;
    forall x, y | OnScreen(xsize, ysize, x, y)
      ensures PixelOk(layers, a + b, x, y, cells'[Index(xsize, ysize, x, y)], vram'[Index(xsize, ysize, x, y)])
    {
      HiddenPixel(layers, a, id, b, x, y, cells[Index(xsize, ysize, x, y)], vram[Index(xsize, ysize, x, y)]);
    }
  }

  /** The two passes after lowering a shown layer repair the whole screen. */
  lemma AgreeAfterLower(layers: seq<Layer>, a: seq<nat>, b: seq<nat>, id: nat, c: seq<nat>, xsize: nat, ysize: nat,
               cells: seq<nat>, cells': seq<nat>, vram: seq<nat>, vram': seq<nat>)
    requires Ids(layers, a) && Ids(layers, b) && Ids(layers, c) && id < |layers|
    requires |cells| == |vram| == xsize * ysize && Ids(layers, Around(a + b, id, c))
             && Ids(layers, Around(a, id, b + c))
    requires Agree(layers, Around(a + b, id, c), xsize, ysize, cells, vram)
    requires MapRefreshed(layers, Around(a, id, b + c), xsize, ysize, Place(layers[id]), |a| + 1, cells, cells')
    requires AreaRefreshed(layers, Around(a, id, b + c), xsize, ysize, Place(layers[id]), |a| + 1, |a| + |b|,
                           cells', vram, vram')
    ensures Agree(layers, Around(a, id, b + c), xsize, ysize, cells', vram')
  {
    hide Opaque, Pixel, Index, MapAfter, ColorAfter, Around, PixelOk;
    forall x, y | OnScreen(xsize, ysize, x, y)
      ensures PixelOk(layers, Around(a, id, b + c), x, y, cells'[Index(xsize, ysize, x, y)],
                      vram'[Index(xsize, ysize, x, y)])
    {
      LoweredPixel(layers, a, b, id, c, x, y, cells[Index(xsize, ysize, x, y)], vram[Index(xsize, ysize, x, y)]);
    }
  }

  /** The two passes after raising a shown layer repair the whole screen. */
  lemma AgreeAfterRaise(layers: seq<Layer>, a: seq<nat>, id: nat, b: seq<nat>, c: seq<nat>, xsize: nat, ysize: nat,
               cells: seq<nat>, cells': seq<nat>, vram: seq<nat>, vram': seq<nat>)
    requires Ids(layers, a) && Ids(layers, b) && Ids(layers, c) && id < |layers|
    requires |cells| == |vram| == xsize * ysize && Ids(layers, Around(a, id, b + c))
             && Ids(layers, Around(a + b, id, c))
    requires Agree(layers, Around(a, id, b + c), xsize, ysize, cells, vram)
    requires MapRefreshed(layers, Around(a + b, id, c), xsize, ysize, Place(layers[id]), |a| + |b|, cells, cells')
    requires AreaRefreshed(layers, Around(a + b, id, c), xsize, ysize, Place(layers[id]), |a| + |b|, |a| + |b|,
                           cells', vram, vram')
    ensures Agree(layers, Around(a + b, id, c), xsize, ysize, cells', vram')
  {
    hide Opaque, Pixel, Index, MapAfter, ColorAfter, Around, PixelOk;
    forall x, y | OnScreen(xsize, ysize, x, y)
      ensures PixelOk(layers, Around(a + b, id, c), x, y, cells'[Index(xsize, ysize, x, y)],
                      vram'[Index(xsize, ysize, x, y)])
    {
      RaisedPixel(layers, a, id, b, c, x, y, cells[Index(xsize, ysize, x, y)], vram[Index(xsize, ysize, x, y)]);
    }
  }

  /** The layers that do not move keep their heights, and the moved layer is none of them. */
  lemma PartsApart(stack: seq<nat>, a: seq<nat>, id: nat, b: seq<nat>)
    requires Distinct(stack) && stack == Around(a, id, b)
    ensures id !in a && id !in b && Distinct(a) && Distinct(b)
    ensures forall i :: i in a ==> i !in b
    ensures forall i: nat :: i != id ==> (i in stack <==> i in a || i in b)
  {
    assert stack[|a|] == id;
    assert forall h :: 0 <= h < |a| ==> a[h] == stack[h];
    assert forall h :: 0 <= h < |b| ==> b[h] == stack[|a| + 1 + h];
    assert forall h :: 0 <= h < |stack| ==>
           stack[h] == if h < |a| then a[h] else if h == |a| then id else b[h - |a| - 1];
  }

  lemma DistinctAround(a: seq<nat>, id: nat, b: seq<nat>)
    requires Distinct(a) && Distinct(b) && id !in a && id !in b && forall i :: i in a ==> i !in b
    ensures Distinct(Around(a, id, b)) && Distinct(a + b) && id in Around(a, id, b)
    ensures forall i: nat :: i != id ==> (i in Around(a, id, b) <==> i in a || i in b)
    ensures forall i: nat :: i in a + b <==> i in a || i in b
  {
    var s := Around(a, id, b);
    assert forall h :: 0 <= h < |s| ==> s[h] == if h < |a| then a[h] else if h == |a| then id else b[h - |a| - 1];
    assert forall h :: 0 <= h < |b| ==> s[|a| + 1 + h] == b[h];
    var t := a + b;
    assert forall h :: 0 <= h < |t| ==> t[h] == if h < |a| then a[h] else b[h - |a|];
    assert s[|a|] == id;
    forall i, j | 0 <= i < j < |s|
      ensures s[i] != s[j]
    {
      assert i < |a| ==> s[i] in a;
      assert j > |a| ==> s[j] in b;
    }
    forall i, j | 0 <= i < j < |t|
      ensures t[i] != t[j]
    {
      assert i < |a| ==> t[i] in a;
      assert j >= |a| ==> t[j] in b;
    }
  }

  /** Heights of the layers below and above the moved one, before and after. */
  ghost predicate HeightsFrom(layers: seq<Layer>, ids: seq<nat>, base: int)
    requires Ids(layers, ids)
  {
    forall h :: 0 <= h < |ids| ==> layers[ids[h]].height == base + h
  }

  lemma HeightsOfParts(layers: seq<Layer>, a: seq<nat>, id: nat, b: seq<nat>)
    requires Ids(layers, a) && Ids(layers, b) && id < |layers|
    ensures Ids(layers, Around(a, id, b)) && Ids(layers, a + b)
    ensures HeightsFrom(layers, Around(a, id, b), 0) <==>
              HeightsFrom(layers, a, 0) && layers[id].height == |a| && HeightsFrom(layers, b, |a| + 1)
    ensures HeightsFrom(layers, a + b, 0) <==> HeightsFrom(layers, a, 0) && HeightsFrom(layers, b, |a|)
  {
    hide Around;
    HeightsOfConcat(layers, a, [id], 0);
    HeightsOfConcat(layers, a + [id], b, 0);
    HeightsOfConcat(layers, a, b, 0);
    HeightOfOne(layers, id, |a|);
    AroundIsConcat(a, id, b);
  }

  lemma AroundIsConcat(a: seq<nat>, id: nat, b: seq<nat>)
    ensures Around(a, id, b) == a + [id] + b
  {
  }

  lemma HeightOfOne(layers: seq<Layer>, id: nat, base: int)
    requires id < |layers|
    ensures HeightsFrom(layers, [id], base) <==> layers[id].height == base
  {
    assert [id][0] == id;
  }

  lemma HeightsOfConcat(layers: seq<Layer>, a: seq<nat>, b: seq<nat>, base: int)
    requires Ids(layers, a) && Ids(layers, b)
    ensures Ids(layers, a + b)
    ensures HeightsFrom(layers, a + b, base) <==> HeightsFrom(layers, a, base) && HeightsFrom(layers, b, base + |a|)
  {
    assert forall h :: 0 <= h < |a| ==> (a + b)[h] == a[h];
    assert forall h :: 0 <= h < |b| ==> (a + b)[|a| + h] == b[h];
  }

  /** After the moved layer and then the layers of `ids` got their new heights. */
  lemma HeightsKept(l0: seq<Layer>, l1: seq<Layer>, l2: seq<Layer>, id: nat, height: int, ids: seq<nat>, base: int,
                    others: seq<nat>, from: int)
    requires id < |l0| && l1 == l0[id := l0[id].(height := height)] && HeightsSet(l1, l2, ids, base)
    requires id !in ids && id !in others && (forall i :: i in others ==> i !in ids) && Ids(l0, others)
    requires HeightsFrom(l0, others, from)
    ensures |l2| == |l0| && l2[id].height == height && HeightsFrom(l2, others, from) && HeightsFrom(l2, ids, base)
    ensures forall i :: 0 <= i < |l0| ==> SameLook(l0[i], l2[i])
    ensures forall i: nat :: i < |l0| && i != id && i !in ids ==> l2[i].height == l0[i].height
  {
  }

  lemma ConcatApart(a: seq<nat>, b: seq<nat>)
    requires Distinct(a + b)
    ensures Distinct(a) && Distinct(b) && forall i :: i in a ==> i !in b
    ensures forall i: nat :: i in a + b <==> i in a || i in b
  {
    assert forall h :: 0 <= h < |a| ==> a[h] == (a + b)[h];
    assert forall h :: 0 <= h < |b| ==> b[h] == (a + b)[|a| + h];
  }

  lemma StackHeights(layers: seq<Layer>, stack: seq<nat>)
    requires |layers| == MAX_LAYERS && Ids(layers, stack)
    ensures StackOk(layers, stack) ==> HeightsFrom(layers, stack, 0)
    ensures HeightsFrom(layers, stack, 0) ==> forall h :: 0 <= h < |stack| ==> layers[stack[h]].height == h
  {
  }

  lemma LoweredStack(l0: seq<Layer>, l1: seq<Layer>, l2: seq<Layer>, a: seq<nat>, b: seq<nat>, id: nat, c: seq<nat>)
    requires id < |l0| && StackOk(l0, Around(a + b, id, c)) && l0[id].flags != NO_USE && LayerOk(l0[id])
    requires Ids(l0, a) && Ids(l0, b) && Ids(l0, c)
    requires l1 == l0[id := l0[id].(height := |a|)] && HeightsSet(l1, l2, b, |a| + 1)
    ensures StackOk(l2, Around(a, id, b + c)) && l2[id].height == |a|
    ensures forall i :: 0 <= i < |l0| ==> SameLook(l0[i], l2[i])
  {
    hide LayerOk, HeightsFrom, Around, HeightsSet;
    var s, t := Around(a + b, id, c), Around(a, id, b + c);
    PartsApart(s, a + b, id, c);
    ConcatApart(a, b);
    StackHeights(l0, s);
    HeightsOfParts(l0, a + b, id, c);
    HeightsOfConcat(l0, a, b, 0);
    HeightsKept(l0, l1, l2, id, |a|, b, |a| + 1, a, 0);
    HeightsKept(l0, l1, l2, id, |a|, b, |a| + 1, c, |a| + |b| + 1);
    HeightsOfConcat(l2, b, c, |a| + 1);
    HeightsOfParts(l2, a, id, b + c);
    JoinApart(b, c);
    DistinctAround(a, id, b + c);
    StackHeights(l2, t);
    RestackKeepsOk(l0, l2, s, t, id);
  }

  lemma JoinApart(a: seq<nat>, b: seq<nat>)
    requires Distinct(a) && Distinct(b) && forall i :: i in a ==> i !in b
    ensures Distinct(a + b) && forall i: nat :: i in a + b <==> i in a || i in b
  {
    var t := a + b;
    assert forall h :: 0 <= h < |t| ==> t[h] == if h < |a| then a[h] else b[h - |a|];
    forall i, j | 0 <= i < j < |t|
      ensures t[i] != t[j]
    {
      assert i < |a| ==> t[i] in a;
      assert j >= |a| ==> t[j] in b;
    }
  }

  lemma RaisedStack(l0: seq<Layer>, l1: seq<Layer>, l2: seq<Layer>, a: seq<nat>, id: nat, b: seq<nat>, c: seq<nat>)
    requires id < |l0| && StackOk(l0, Around(a, id, b + c)) && l0[id].flags != NO_USE && LayerOk(l0[id])
    requires Ids(l0, a) && Ids(l0, b) && Ids(l0, c)
    requires l1 == l0[id := l0[id].(height := |a| + |b|)] && HeightsSet(l1, l2, b, |a|)
    ensures StackOk(l2, Around(a + b, id, c)) && l2[id].height == |a| + |b|
    ensures forall i :: 0 <= i < |l0| ==> SameLook(l0[i], l2[i])
  {
    hide LayerOk, HeightsFrom, Around, HeightsSet;
    var s, t := Around(a, id, b + c), Around(a + b, id, c);
    PartsApart(s, a, id, b + c);
    ConcatApart(b, c);
    StackHeights(l0, s);
    HeightsOfParts(l0, a, id, b + c);
    HeightsOfConcat(l0, b, c, |a| + 1);
    HeightsKept(l0, l1, l2, id, |a| + |b|, b, |a|, a, 0);
    HeightsKept(l0, l1, l2, id, |a| + |b|, b, |a|, c, |a| + |b| + 1);
    HeightsOfConcat(l2, a, b, 0);
    HeightsOfParts(l2, a + b, id, c);
    JoinApart(a, b);
    DistinctAround(a + b, id, c);
    StackHeights(l2, t);
    RestackKeepsOk(l0, l2, s, t, id);
  }

  lemma ShownStack(l0: seq<Layer>, l1: seq<Layer>, l2: seq<Layer>, a: seq<nat>, id: nat, c: seq<nat>)
    requires id < |l0| && StackOk(l0, a + c) && l0[id].flags != NO_USE && LayerOk(l0[id]) && id !in a && id !in c
    requires Ids(l0, a) && Ids(l0, c)
    requires l1 == l0[id := l0[id].(height := |a|)] && HeightsSet(l1, l2, c, |a| + 1)
    ensures StackOk(l2, Around(a, id, c)) && l2[id].height == |a|
    ensures forall i :: 0 <= i < |l0| ==> SameLook(l0[i], l2[i])
  {
    hide LayerOk, HeightsFrom, Around, HeightsSet;
    var s, t := a + c, Around(a, id, c);
    ConcatApart(a, c);
    StackHeights(l0, s);
    HeightsOfConcat(l0, a, c, 0);
    HeightsKept(l0, l1, l2, id, |a|, c, |a| + 1, a, 0);
    HeightsOfParts(l2, a, id, c);
    DistinctAround(a, id, c);
    StackHeights(l2, t);
    RestackKeepsOk(l0, l2, s, t, id);
  }

  lemma HiddenStack(l0: seq<Layer>, l1: seq<Layer>, l2: seq<Layer>, a: seq<nat>, id: nat, c: seq<nat>)
    requires id < |l0| && StackOk(l0, Around(a, id, c)) && l0[id].flags != NO_USE && LayerOk(l0[id])
    requires Ids(l0, a) && Ids(l0, c)
    requires l1 == l0[id := l0[id].(height := -1)] && HeightsSet(l1, l2, c, |a|)
    ensures StackOk(l2, a + c) && l2[id].height == -1
    ensures forall i :: 0 <= i < |l0| ==> SameLook(l0[i], l2[i])
  {
    hide LayerOk, HeightsFrom, Around, HeightsSet;
    var s, t := Around(a, id, c), a + c;
    PartsApart(s, a, id, c);
    StackHeights(l0, s);
    HeightsOfParts(l0, a, id, c);
    HeightsKept(l0, l1, l2, id, -1, c, |a|, a, 0);
    HeightsOfParts(l2, a, id, c);
    JoinApart(a, c);
    StackHeights(l2, t);
    RestackKeepsOk(l0, l2, s, t, id);
  }

  /** The four passes of `layer_move` repair the whole screen. */
  lemma AgreeAfterMove(l0: seq<Layer>, l1: seq<Layer>, a: seq<nat>, id: nat, b: seq<nat>, xsize: nat, ysize: nat,
                       cells: seq<nat>, cells': seq<nat>, cells'': seq<nat>, vram: seq<nat>, vram': seq<nat>,
                       vram'': seq<nat>)
    requires Ids(l0, a) && Ids(l0, b) && id < |l0| == |l1| && id !in a && id !in b && l1 == l0[id := l1[id]]
    requires |cells| == |vram| == xsize * ysize && Ids(l0, Around(a, id, b)) && Ids(l1, Around(a, id, b))
    requires Agree(l0, Around(a, id, b), xsize, ysize, cells, vram)
    requires MapRefreshed(l1, Around(a, id, b), xsize, ysize, Place(l0[id]), 0, cells, cells')
    requires MapRefreshed(l1, Around(a, id, b), xsize, ysize, Place(l1[id]), |a|, cells', cells'')
    requires AreaRefreshed(l1, Around(a, id, b), xsize, ysize, Place(l0[id]), 0, |a| - 1, cells'', vram, vram')
    requires AreaRefreshed(l1, Around(a, id, b), xsize, ysize, Place(l1[id]), |a|, |a|, cells'', vram', vram'')
    ensures Agree(l1, Around(a, id, b), xsize, ysize, cells'', vram'')
  {
    hide Opaque, Pixel, Index, MapAfter, ColorAfter, Around, PixelOk, Place;
    forall x, y | OnScreen(xsize, ysize, x, y)
      ensures PixelOk(l1, Around(a, id, b), x, y, cells''[Index(xsize, ysize, x, y)], vram''[Index(xsize, ysize, x, y)])
    {
      MovedPixel(l0, l1, a, id, b, x, y, cells[Index(xsize, ysize, x, y)], vram[Index(xsize, ysize, x, y)]);
    }
  }

  /** A layer outside the stack may change at will. */
  lemma AgreeWithout(l0: seq<Layer>, l1: seq<Layer>, stack: seq<nat>, id: nat, xsize: nat, ysize: nat,
                     cells: seq<nat>, vram: seq<nat>)
    requires |cells| == |vram| == xsize * ysize && Ids(l0, stack) && id < |l0| == |l1| && id !in stack
    requires l1 == l0[id := l1[id]] && Agree(l0, stack, xsize, ysize, cells, vram)
    ensures Ids(l1, stack) && Agree(l1, stack, xsize, ysize, cells, vram)
  {
    hide Opaque, Pixel, Index;
    forall x, y | OnScreen(xsize, ysize, x, y)
      ensures PixelOk(l1, stack, x, y, cells[Index(xsize, ysize, x, y)], vram[Index(xsize, ysize, x, y)])
    {
      TopKept(l0, l1, stack, x, y);
      assert PixelOk(l0, stack, x, y, cells[Index(xsize, ysize, x, y)], vram[Index(xsize, ysize, x, y)]);
    }
  }

  lemma PlaceKeepsStack(layers: seq<Layer>, stack: seq<nat>, id: nat, vx0: int, vy0: int)
    requires StackOk(layers, stack) && id < |layers|
    ensures StackOk(layers[id := layers[id].(vx0 := vx0, vy0 := vy0)], stack) && Ids(layers, stack)
    ensures Ids(layers[id := layers[id].(vx0 := vx0, vy0 := vy0)], stack)
  {
    var l1 := layers[id := layers[id].(vx0 := vx0, vy0 := vy0)];
    assert forall i :: 0 <= i < |layers| ==> LayerOk(l1[i]) == LayerOk(layers[i]);
  }

  lemma Apart(layers: seq<Layer>, stack: seq<nat>, id: nat)
    requires StackOk(layers, stack) && id < |layers| && Shown(layers[id])
    ensures var h := layers[id].height; h < |stack| && id !in stack[..h] && id !in stack[h + 1..]
  {
  }

  /** The cache is right except perhaps for colours of layer `id` inside a rectangle. */
  ghost predicate AgreeBut(layers: seq<Layer>, stack: seq<nat>, id: nat, r: Rect, xsize: nat, ysize: nat,
                           cells: seq<nat>, vram: seq<nat>)
    requires |cells| == |vram| == xsize * ysize && Ids(layers, stack)
  {
    forall x, y :: OnScreen(xsize, ysize, x, y) ==>
      var i, t := Index(xsize, ysize, x, y), TopOf(layers, stack, x, y);
      t >= 0 ==> (cells[i] == stack[t] &&
                  ((stack[t] == id && r.Has(x, y)) || vram[i] == Pixel(layers[stack[t]], x, y)))
  }

  lemma AgreeAfterRefresh(layers: seq<Layer>, stack: seq<nat>, id: nat, h: nat, r: Rect, xsize: nat, ysize: nat,
                          cells: seq<nat>, vram: seq<nat>, vram': seq<nat>)
    requires |cells| == |vram| == xsize * ysize && Ids(layers, stack) && h < |stack| && stack[h] == id
    requires AreaRefreshed(layers, stack, xsize, ysize, r, h, h, cells, vram, vram')
    ensures Agree(layers, stack, xsize, ysize, cells, vram') <==> AgreeBut(layers, stack, id, r, xsize, ysize,
                                                                           cells, vram)
  {
    hide Opaque, Pixel, Index;
    forall x, y | OnScreen(xsize, ysize, x, y)
      ensures var i, t := Index(xsize, ysize, x, y), TopOf(layers, stack, x, y);
              PixelOk(layers, stack, x, y, cells[i], vram'[i]) <==>
              (t >= 0 ==> (cells[i] == stack[t] &&
                           ((stack[t] == id && r.Has(x, y)) || vram[i] == Pixel(layers[stack[t]], x, y))))
    {
      var t := TopOf(layers, stack, x, y);
      TopIs(layers, stack, x, y, t);
      if t >= 0 {
        OpaqueInPlace(layers[stack[t]], x, y);
      }
    }
  }

  lemma AgreeButHidden(layers: seq<Layer>, stack: seq<nat>, id: nat, r: Rect, xsize: nat, ysize: nat,
                       cells: seq<nat>, vram: seq<nat>)
    requires |cells| == |vram| == xsize * ysize && Ids(layers, stack) && id !in stack
    ensures Agree(layers, stack, xsize, ysize, cells, vram) <==> AgreeBut(layers, stack, id, r, xsize, ysize, cells,
                                                                          vram)
  {
    hide Opaque, Pixel, Index;
  }

  // ---- a shown layer asked for a height above the top ----

  /** The layers with the heights that the loop assigns, one after the other. */
  function Assigned(layers: seq<Layer>, ids: seq<nat>, base: int): (r: seq<Layer>)
    requires Ids(layers, ids)
    ensures |r| == |layers|
  {
    if ids == [] then layers
    else
      var n := |ids| - 1;
      var before := Assigned(layers, ids[..n], base);
      before[ids[n] := before[ids[n]].(height := base + n)]
  }

  lemma NoneAssigned(layers: seq<Layer>, base: int)
    ensures Ids(layers, []) && Assigned(layers, [], base) == layers
  {
  }

  lemma OneMoreAssigned(layers: seq<Layer>, ids: seq<nat>, k: nat, base: int)
    requires Ids(layers, ids) && k < |ids|
    ensures Ids(layers, ids[..k]) && Ids(layers, ids[..k + 1]) && ids[k] < |layers|
    ensures var before := Assigned(layers, ids[..k], base);
            Assigned(layers, ids[..k + 1], base) == before[ids[k] := before[ids[k]].(height := base + k)]
  {
    assert ids[..k + 1][..k] == ids[..k];
  }

  /** Slots after the layers above `from` and the slot above the top moved down by one. */
  lemma PastSlots(a: seq<nat>, from: nat, n: nat, id: nat)
    requires from < n < |a|
    ensures var moved, s := a[..from] + a[from + 1..n + 1] + a[n..], a[..n];
            && |moved| == |a|
            && moved[n := id][..n] == s[..from] + (s[from + 1..] + [a[n]])
            && moved[n := id][..n + 1] == s[..from] + (s[from + 1..] + [a[n]]) + [id]
            && a[from + 1..n + 1] == s[from + 1..] + [a[n]]
  {
    assert a[from + 1..n + 1] == a[from + 1..n] + [a[n]];
  }

  /** What the past-top raise leaves of the layers, their pictures and the ids in the slots. */
  lemma PastIds(l0: seq<Layer>, l1: seq<Layer>, stack: seq<nat>, from: nat, x: nat, id: nat)
    requires StackOk(l0, stack) && from < |stack| && x < |l0| == |l1| && id < |l0|
    ensures Ids(l1, stack[from + 1..] + [x]) && Ids(l0, stack[..from]) && Ids(l0, stack[from + 1..])
    ensures Ids(l1, stack[..from] + (stack[from + 1..] + [x]))
            && Ids(l1, stack[..from] + (stack[from + 1..] + [x]) + [id])
  {
  }

  lemma PastLooks(l0: seq<Layer>, l1: seq<Layer>, l2: seq<Layer>, stack: seq<nat>, id: nat, from: nat, x: nat)
    requires StackOk(l0, stack) && from < |stack| && x < |l0| && id < |l0| && Shown(l0[id])
    requires l1 == l0[id := l0[id].(height := |stack|)] && Ids(l1, stack[from + 1..] + [x])
    requires l2 == Assigned(l1, stack[from + 1..] + [x], from)
    ensures |l2| == |l0| && (forall i :: 0 <= i < |l0| ==> SameLook(l0[i], l2[i])) && LayerOk(l2[id])
    ensures Ids(l2, stack[..from] + (stack[from + 1..] + [x]))
            && Ids(l2, stack[..from] + (stack[from + 1..] + [x]) + [id])
  {
    hide LayerOk;
    AssignedLooks(l1, stack[from + 1..] + [x], from);
    ShownAt(l0, stack, id);
    LookFacts(l0[id], l2[id]);
    PastIds(l0, l1, stack, from, x, id);
  }

  lemma {:induction false} AssignedLooks(layers: seq<Layer>, ids: seq<nat>, base: int)
    requires Ids(layers, ids)
    ensures forall i :: 0 <= i < |layers| ==> SameLook(layers[i], Assigned(layers, ids, base)[i])
  {
    if ids != [] {
      AssignedLooks(layers, ids[..|ids| - 1], base);
    }
  }

  lemma PastScreen(l0: seq<Layer>, l2: seq<Layer>, s: seq<nat>, a: seq<nat>, id: nat, b: seq<nat>, xsize: nat,
                   ysize: nat,
                   cells: seq<nat>, cells': seq<nat>, vram: seq<nat>, vram': seq<nat>)
    requires StackOk(l0, s) && s == Around(a, id, b) && |l2| == |l0|
    requires forall i :: 0 <= i < |l0| ==> SameLook(l0[i], l2[i])
    requires |cells| == |vram| == xsize * ysize && Ids(l0, s) && Agree(l0, s, xsize, ysize, cells, vram)
    requires id < |l2| && Ids(l2, a + (b + [id])) && Ids(l2, a + (b + [id]) + [id])
    requires var h := |a| + |b| + 1;
             && MapRefreshed(l2, a + (b + [id]), xsize, ysize, Place(l2[id]), h, cells, cells')
             && AreaRefreshed(l2, a + (b + [id]) + [id], xsize, ysize, Place(l2[id]), h, h, cells', vram, vram')
    ensures Ids(l0, b) && |cells'| == |vram'| == xsize * ysize
    ensures Agree(l2, a + (b + [id]), xsize, ysize, cells', vram') <==> NothingAbove(l0, id, b, xsize, ysize)
  {
    hide *;
    PassLengths(l2, a + (b + [id]), a + (b + [id]) + [id], xsize, ysize, Place(l2[id]), |a| + |b| + 1, cells,
                cells', vram, vram');
    PartsOfStack(l0, l2, s, a, id, b);
    AgreeForLook(l0, l2, s, xsize, ysize, cells, vram);
    NothingAboveForLook(l0, l2, id, b, xsize, ysize);
    AgreePastTop(l2, a, id, b, xsize, ysize, cells, cells', vram, vram');
  }

  lemma PartsOfStack(l0: seq<Layer>, l2: seq<Layer>, s: seq<nat>, a: seq<nat>, id: nat, b: seq<nat>)
    requires StackOk(l0, s) && s == Around(a, id, b) && |l2| == |l0|
    ensures Ids(l0, s) && Ids(l0, a) && Ids(l0, b) && Ids(l2, s) && Ids(l2, a) && Ids(l2, b) && id < |l0|
    ensures id !in a && id !in b
  {
    hide LayerOk;
    PartsApart(s, a, id, b);
    assert forall h :: 0 <= h < |a| ==> a[h] == s[h];
    assert forall h :: 0 <= h < |b| ==> b[h] == s[|a| + 1 + h];
    assert s[|a|] == id;
  }

  lemma PassLengths(layers: seq<Layer>, stack: seq<nat>, slots: seq<nat>, xsize: nat, ysize: nat, r: Rect, h: nat,
                    cells: seq<nat>, cells': seq<nat>, vram: seq<nat>, vram': seq<nat>)
    requires Ids(layers, stack) && Ids(layers, slots)
    requires MapRefreshed(layers, stack, xsize, ysize, r, h, cells, cells')
    requires AreaRefreshed(layers, slots, xsize, ysize, r, h, h, cells', vram, vram')
    ensures |cells'| == |vram'| == xsize * ysize
  {
  }

  lemma {:induction false} AssignedOthers(layers: seq<Layer>, ids: seq<nat>, base: int)
    requires Ids(layers, ids)
    ensures forall i: nat :: i < |layers| && i !in ids ==> Assigned(layers, ids, base)[i] == layers[i]
  {
    if ids != [] {
      AssignedOthers(layers, ids[..|ids| - 1], base);
    }
  }

  lemma {:induction false} AssignedSets(layers: seq<Layer>, ids: seq<nat>, base: int)
    requires Ids(layers, ids) && Distinct(ids)
    ensures HeightsSet(layers, Assigned(layers, ids, base), ids, base)
  {
    hide HeightsSet, SameLook;
    if ids == [] {
      NoHeightsSet(layers, base);
    } else {
      var n := |ids| - 1;
      AssignedSets(layers, ids[..n], base);
      SetAbove(layers, Assigned(layers, ids[..n], base), ids, n, base, ids[n]);
      assert ids[..n + 1] == ids;
    }
  }

  /** The clamp lets a shown layer through to a height of one above the top. The loop then moves the
      stale id `x` from the slot above the top into the stack. The stack is right afterwards exactly
      when that slot happens to hold the layer itself. */
  lemma RaisePastTop(layers: seq<Layer>, stack: seq<nat>, id: nat, from: nat, x: nat)
    requires StackOk(layers, stack) && from < |stack| && stack[from] == id && x < |layers|
    ensures Ids(layers, stack[from + 1..] + [x])
    ensures var moved := stack[from + 1..] + [x];
            var after := Assigned(layers[id := layers[id].(height := |stack|)], moved, from);
            StackOk(after, stack[..from] + moved) <==> x == id
  {
    hide LayerOk, StackOk, Distinct, HeightsSet, Assigned;
    StackSlice(layers, stack, from, from + 1);
    StackSlice(layers, stack, from + 1, |stack|);
    assert stack[from + 1..|stack|] == stack[from + 1..];
    var a, b := stack[..from], stack[from + 1..];
    SplitLow(stack, id, from, from);
    SelfInPlace(layers, stack, a, id, b);
    if x != id {
      StrangerInPlace(layers, stack, a, id, b, x);
    }
  }

  /** Where layer `id` is opaque on the screen, none of the layers `above` is. */
  ghost predicate NothingAbove(layers: seq<Layer>, id: nat, above: seq<nat>, xsize: nat, ysize: nat)
    requires id < |layers| && Ids(layers, above)
  {
    forall x, y :: OnScreen(xsize, ysize, x, y) && Opaque(layers[id], x, y) ==> TopOf(layers, above, x, y) < 0
  }

  lemma NothingAboveForLook(layers: seq<Layer>, layers': seq<Layer>, id: nat, above: seq<nat>, xsize: nat, ysize: nat)
    requires id < |layers| == |layers'| && Ids(layers, above)
    requires forall i :: 0 <= i < |layers| ==> SameLook(layers[i], layers'[i])
    ensures Ids(layers', above)
    ensures NothingAbove(layers, id, above, xsize, ysize) <==> NothingAbove(layers', id, above, xsize, ysize)
  {
    hide Opaque, SameLook;
    LookFacts(layers[id], layers'[id]);
    forall x, y | OnScreen(xsize, ysize, x, y)
      ensures TopOf(layers', above, x, y) == TopOf(layers, above, x, y)
    {
      TopForLook(layers, layers', above, x, y);
    }
  }

  /** The two passes that `layer_set_height` makes for a shown layer that the clamp let through to one
      above the top, when the stale slot held the layer itself: the map pass starts above the top and
      paints nothing. The screen is right afterwards exactly when nothing above the layer is opaque where
      it is. */
  lemma AgreePastTop(layers: seq<Layer>, a: seq<nat>, id: nat, b: seq<nat>, xsize: nat, ysize: nat,
                     cells: seq<nat>, cells': seq<nat>, vram: seq<nat>, vram': seq<nat>)
    requires Ids(layers, a) && Ids(layers, b) && id < |layers| && id !in a && id !in b
    requires |cells| == |vram| == xsize * ysize && Ids(layers, Around(a, id, b)) && Ids(layers, a + (b + [id]))
    requires Ids(layers, a + (b + [id]) + [id])
    requires Agree(layers, Around(a, id, b), xsize, ysize, cells, vram)
    requires var top := |a| + |b|;
             && MapRefreshed(layers, a + (b + [id]), xsize, ysize, Place(layers[id]), top + 1, cells, cells')
             && AreaRefreshed(layers, a + (b + [id]) + [id], xsize, ysize, Place(layers[id]), top + 1, top + 1,
                              cells', vram, vram')
    ensures Agree(layers, a + (b + [id]), xsize, ysize, cells', vram') <==> NothingAbove(layers, id, b, xsize, ysize)
  {
    hide Opaque, Pixel, Index, Around, PixelOk, Place;
    var stack := a + (b + [id]);
    forall x, y | OnScreen(xsize, ysize, x, y)
      ensures var i := Index(xsize, ysize, x, y);
              PixelOk(layers, stack, x, y, cells'[i], vram'[i]) <==> (Opaque(layers[id], x, y) ==>
                                                                      TopOf(layers, b, x, y) < 0)
    {
      var i := Index(xsize, ysize, x, y);
      assert cells'[i] == cells[i];
      assert (stack + [id])[|a| + |b| + 1] == id;
      PastTopPixel(layers, a, id, b, x, y, cells[i], vram[i], vram'[i]);
    }
  }

  /** One input on which it fails: two opaque layers on a screen of one pixel, the lower one asked for a
      height above the top while the stale slot holds it. The slots are right afterwards, the screen is
      not. */
  lemma PastTopFails() returns (layers: seq<Layer>, after: seq<Layer>)
    ensures |layers| == MAX_LAYERS && StackOk(layers, [0, 1]) && Agree(layers, [0, 1], 1, 1, [1], [2])
    ensures after == Assigned(layers[0 := layers[0].(height := 2)], [1, 0], 0)
    ensures StackOk(after, [1, 0]) && !NothingAbove(layers, 0, [1], 1, 1) && !Agree(after, [1, 0], 1, 1, [1], [2])
  {
    hide StackOk, Agree, NothingAbove, Assigned, LayerOk, Opaque, Pixel;
    var a, c := Layer([1], 1, 1, 0, 0, 0, 0, IN_USE), Layer([2], 1, 1, 0, 0, 0, 1, IN_USE);
    layers := [a, c] + seq(MAX_LAYERS - 2, _ => Layer([], 0, 0, 0, 0, 0, -1, NO_USE));
    TwoLayers(layers, a, c);
    after := Assigned(layers[0 := layers[0].(height := 2)], [1, 0], 0);
    TwoSlots(layers);
    TwoAssigned(layers[0 := layers[0].(height := 2)]);
    OnePixel(after[0], 1);
    OneCell(after);
  }

  lemma TwoSlots(layers: seq<Layer>)
    requires |layers| >= 2 && StackOk(layers, [0, 1])
    ensures StackOk(Assigned(layers[0 := layers[0].(height := 2)], [1, 0], 0), [1, 0])
  {
    hide StackOk, Assigned, LayerOk;
    RaisePastTop(layers, [0, 1], 0, 0, 0);
    assert [0, 1][1..] + [0] == [1, 0] && [0, 1][..0] + [1, 0] == [1, 0];
  }

  lemma TwoAssigned(layers: seq<Layer>)
    requires |layers| >= 2
    ensures Assigned(layers, [1, 0], 0) == layers[1 := layers[1].(height := 0)][0 := layers[0].(height := 1)]
  {
    assert [1, 0][..1] == [1] && [1][..0] == [];
    assert Assigned(layers, [], 0) == layers;
    assert Assigned(layers, [1], 0) == layers[1 := layers[1].(height := 0)];
  }

  lemma TwoLayers(layers: seq<Layer>, a: Layer, c: Layer)
    requires |layers| == MAX_LAYERS && layers[0] == a && layers[1] == c
    requires forall i :: 2 <= i < |layers| ==> layers[i].flags == NO_USE
    requires a == Layer([1], 1, 1, 0, 0, 0, 0, IN_USE) && c == Layer([2], 1, 1, 0, 0, 0, 1, IN_USE)
    ensures StackOk(layers, [0, 1]) && Agree(layers, [0, 1], 1, 1, [1], [2]) && !NothingAbove(layers, 0, [1], 1, 1)
  {
    hide Opaque, Pixel, Index, StackOk;
    TwoShown(layers, a, c);
    OnePixel(a, 1);
    OnePixel(c, 2);
    TopIs(layers, [0, 1], 0, 0, 1);
    TopIs(layers, [1], 0, 0, 0);
    assert OnScreen(1, 1, 0, 0);
  }

  lemma TwoShown(layers: seq<Layer>, a: Layer, c: Layer)
    requires |layers| == MAX_LAYERS && layers[0] == a && layers[1] == c
    requires forall i :: 2 <= i < |layers| ==> layers[i].flags == NO_USE
    requires a == Layer([1], 1, 1, 0, 0, 0, 0, IN_USE) && c == Layer([2], 1, 1, 0, 0, 0, 1, IN_USE)
    ensures StackOk(layers, [0, 1])
  {
  }

  lemma OnePixel(l: Layer, color: nat)
    requires l.(height := 0) == Layer([color], 1, 1, 0, 0, 0, 0, IN_USE) && color != 0
    ensures Opaque(l, 0, 0) && Pixel(l, 0, 0) == color && Index(1, 1, 0, 0) == 0
  {
  }

  lemma OneCell(layers: seq<Layer>)
    requires |layers| >= 2 && Opaque(layers[0], 0, 0) && Pixel(layers[0], 0, 0) == 1
    ensures !Agree(layers, [1, 0], 1, 1, [1], [2])
  {
    hide Opaque, Pixel;
    TopIs(layers, [1, 0], 0, 0, 1);
    assert OnScreen(1, 1, 0, 0) && Index(1, 1, 0, 0) == 0;
  }

  lemma SelfInPlace(layers: seq<Layer>, stack: seq<nat>, a: seq<nat>, id: nat, b: seq<nat>)
    requires StackOk(layers, stack) && stack == Around(a, id, b) && id < |layers| && Ids(layers, a) && Ids(layers, b)
    ensures StackOk(Assigned(layers[id := layers[id].(height := |stack|)], b + [id], |a|), a + (b + [id]))
  {
    hide LayerOk, HeightsSet, HeightsFrom, Around, Assigned;
    var l1 := layers[id := layers[id].(height := |stack|)];
    var after := Assigned(l1, b + [id], |a|);
    PartsApart(stack, a, id, b);
    JoinApart(b, [id]);
    JoinApart(a, b + [id]);
    AssignedSets(l1, b + [id], |a|);
    StackHeights(layers, stack);
    HeightsOfParts(layers, a, id, b);
    HeightsElsewhere(layers, l1, after, id, b, |a|, a);
    HeightsOfConcat(after, a, b + [id], 0);
    StackHeights(after, a + (b + [id]));
    AroundMembers(a, id, b);
    assert id in [id];
    MemberLook(layers, stack, id);
    RestackKeepsOk(layers, after, stack, a + (b + [id]), id);
  }

  lemma AroundMembers(a: seq<nat>, id: nat, b: seq<nat>)
    ensures id in Around(a, id, b)
  {
    assert Around(a, id, b)[|a|] == id;
  }

  lemma MemberLook(layers: seq<Layer>, stack: seq<nat>, id: nat)
    requires StackOk(layers, stack) && id in stack
    ensures layers[id].flags != NO_USE && LayerOk(layers[id])
  {
    assert Shown(layers[id]);
  }

  lemma HeightsElsewhere(l0: seq<Layer>, l1: seq<Layer>, l2: seq<Layer>, id: nat, b: seq<nat>, base: int,
                         others: seq<nat>)
    requires id < |l0| == |l1| && l1 == l0[id := l1[id]] && SameLook(l0[id], l1[id])
             && HeightsSet(l1, l2, b + [id], base)
    requires id !in others && (forall i :: i in others ==> i !in b) && Ids(l0, others) && HeightsFrom(l0, others, 0)
    ensures |l2| == |l0| && Ids(l2, others) && HeightsFrom(l2, others, 0) && Ids(l2, b + [id])
            && HeightsFrom(l2, b + [id], base)
    ensures forall i :: 0 <= i < |l0| ==> SameLook(l0[i], l2[i])
    ensures forall i: nat :: i < |l0| && i != id && i !in b ==> l2[i].height == l0[i].height
  {
  }

  lemma StrangerInPlace(layers: seq<Layer>, stack: seq<nat>, a: seq<nat>, id: nat, b: seq<nat>, x: nat)
    requires StackOk(layers, stack) && stack == Around(a, id, b) && id < |layers| && x < |layers| && x != id
    requires Ids(layers, a) && Ids(layers, b)
    ensures Ids(layers, b + [x])
    ensures !StackOk(Assigned(layers[id := layers[id].(height := |stack|)], b + [x], |a|), a + (b + [x]))
  {
    hide LayerOk, Around, Assigned;
    PartsApart(stack, a, id, b);
    AroundMembers(a, id, b);
    MemberLook(layers, stack, id);
    var l1 := layers[id := layers[id].(height := |stack|)];
    AssignedOthers(l1, b + [x], |a|);
    assert Shown(Assigned(l1, b + [x], |a|)[id]);
  }

  // ---- one row, one layer ----

  /** The part of a rectangle that is on the screen. */
  function Clip(r: Rect, xsize: nat, ysize: nat): Rect {
    Rect(if r.x0 < 0 then 0 else r.x0, if r.y0 < 0 then 0 else r.y0,
         if r.x1 > xsize then xsize else r.x1, if r.y1 > ysize then ysize else r.y1)
  }

  /** The stretch of row `y`, columns `[x0, x1)`, painted into the map where the layer is opaque. */
  ghost predicate RowOnMap(l: Layer, id: nat, xsize: nat, y: int, x0: int, x1: int, cells: seq<nat>, cells': seq<nat>) {
    && |cells| == |cells'|
    && forall i :: 0 <= i < |cells| ==>
         cells'[i] == if y * xsize + x0 <= i < y * xsize + x1 && Opaque(l, i - y * xsize, y) then id else cells[i]
  }

  ghost predicate RowOnScreen(l: Layer, id: nat, xsize: nat, y: int, x0: int, x1: int, cells: seq<nat>,
                              vram: seq<nat>, vram': seq<nat>) {
    && |cells| == |vram| == |vram'|
    && forall i :: 0 <= i < |vram| ==>
         vram'[i] == if y * xsize + x0 <= i < y * xsize + x1
           && cells[i] == id then Pixel(l, i - y * xsize, y) else vram[i]
  }

  /** The first `y1` rows of a rectangle. */
  function Above(r: Rect, y1: int): Rect {
    Rect(r.x0, r.y0, r.x1, y1)
  }

  /** What of a layer's row is inside the clipped rectangle `r`. */
  ghost predicate RowBounds(l: Layer, r: Rect, xsize: nat, ysize: nat, y: int, x0: int, x1: int) {
    && 0 <= x0 && x1 <= xsize && r.y0 <= y < r.y1
    && l.vy0 <= y < l.vy0 + l.bysize
    && x0 == (if r.x0 < l.vx0 then l.vx0 else r.x0)
    && x1 == (if r.x1 > l.vx0 + l.bxsize then l.vx0 + l.bxsize else r.x1)
  }

  lemma MapRowStep(l: Layer, id: nat, xsize: nat, ysize: nat, r: Rect, y: int, x0: int, x1: int,
                   cells: seq<nat>, cells': seq<nat>, cells'': seq<nat>)
    requires LayerOnMap(l, id, xsize, ysize, Above(r, y), cells, cells')
    requires RowOnMap(l, id, xsize, y, x0, x1, cells', cells'') && RowBounds(l, r, xsize, ysize, y, x0, x1)
    ensures LayerOnMap(l, id, xsize, ysize, Above(r, y + 1), cells, cells'')
  {
    hide Pixel, Index;
    forall x, y' | OnScreen(xsize, ysize, x, y')
      ensures var i := Index(xsize, ysize, x, y');
              cells''[i] == if Above(r, y + 1).Has(x, y') && Opaque(l, x, y') then id else cells[i]
    {
      StretchOfRow(xsize, ysize, x, y', y, x0, x1);
    }
  }

  lemma ScreenRowStep(l: Layer, id: nat, xsize: nat, ysize: nat, r: Rect, y: int, x0: int, x1: int,
                      cells: seq<nat>, vram: seq<nat>, vram': seq<nat>, vram'': seq<nat>)
    requires LayerOnScreen(l, id, xsize, ysize, Above(r, y), cells, vram, vram')
    requires RowOnScreen(l, id, xsize, y, x0, x1, cells, vram', vram'') && RowBounds(l, r, xsize, ysize, y, x0, x1)
    ensures LayerOnScreen(l, id, xsize, ysize, Above(r, y + 1), cells, vram, vram'')
  {
    hide Pixel, Index;
    forall x, y' | OnScreen(xsize, ysize, x, y')
      ensures var i := Index(xsize, ysize, x, y');
              vram''[i] == if Above(r, y + 1).Has(x, y') && Place(l).Has(x, y')
                && cells[i] == id then Pixel(l, x, y') else vram[i]
    {
      StretchOfRow(xsize, ysize, x, y', y, x0, x1);
    }
  }

  lemma UpStep(a: seq<nat>, lo: nat, h: nat, hi: nat)
    requires lo < h <= hi < |a|
    ensures var now := a[..h + 1] + a[h..hi] + a[hi + 1..];
            && |now| == |a| && now[h - 1] == a[h - 1] == a[lo..hi][h - 1 - lo]
            && now[h := a[h - 1]] == a[..h] + a[h - 1..hi] + a[hi + 1..]
            && [a[h - 1]] + a[h..hi] == a[h - 1..hi]
  {
  }

  lemma DownStep(a: seq<nat>, lo: nat, h: nat, hi: nat)
    requires lo <= h < hi < |a|
    ensures var now := a[..lo] + a[lo + 1..h + 1] + a[h..];
            && |now| == |a| && now[h + 1] == a[h + 1] == a[lo + 1..hi + 1][h - lo]
            && now[h := a[h + 1]] == a[..lo] + a[lo + 1..h + 2] + a[h + 1..]
  {
  }

  lemma IdsAt(layers: seq<Layer>, ids: seq<nat>, k: nat)
    requires Ids(layers, ids) && k < |ids|
    ensures ids[k] < |layers|
  {
  }

  lemma NoHeightsSet(layers: seq<Layer>, base: int)
    ensures HeightsSet(layers, layers, [], base)
  {
  }

  lemma SetBelow(before: seq<Layer>, now: seq<Layer>, all: seq<nat>, k: nat, ids: seq<nat>, h: int, id: nat)
    requires HeightsSet(before, now, ids, h + 1) && Distinct(all) && k < |all| && ids == all[k + 1..] && id == all[k]
    requires id < |before|
    ensures id < |now| && HeightsSet(before, now[id := now[id].(height := h)], [id] + ids, h)
  {
    assert forall i :: 0 <= i < |ids| ==> ids[i] != id;
  }

  lemma SetNext(before: seq<Layer>, now: seq<Layer>, a: seq<nat>, lo: nat, h: nat, hi: nat)
    requires lo < h <= hi < |a| && Ids(before, a[lo..hi]) && Distinct(a[lo..hi])
    requires HeightsSet(before, now, a[h..hi], h + 1)
    ensures var id := a[h - 1];
            id < |now| && HeightsSet(before, now[id := now[id].(height := h)], a[h - 1..hi], h)
  {
    hide HeightsSet, Distinct, Ids;
    IdsAt(before, a[lo..hi], h - 1 - lo);
    SetBelow(before, now, a[lo..hi], h - 1 - lo, a[h..hi], h, a[h - 1]);
    assert [a[h - 1]] + a[h..hi] == a[h - 1..hi];
  }

  lemma SetAbove(before: seq<Layer>, now: seq<Layer>, all: seq<nat>, k: nat, base: int, id: nat)
    requires k < |all| && HeightsSet(before, now, all[..k], base) && Distinct(all) && id == all[k] < |before|
    ensures id < |now| && HeightsSet(before, now[id := now[id].(height := base + k)], all[..k + 1], base)
  {
    assert forall i :: 0 <= i < k ==> all[i] != id;
    assert all[..k + 1] == all[..k] + [id];
  }

  /** The slots after the layers from `lo` moved up by one and layer `id` took slot `lo`. */
  lemma AfterUp(a: seq<nat>, lo: nat, hi: nat, n: nat, id: nat)
    requires lo <= hi < |a| && hi <= n <= |a|
    ensures var b := (a[..lo + 1] + a[lo..hi] + a[hi + 1..])[lo := id];
            && |b| == |a|
            && (hi < n ==> b[..n] == Around(a[..n][..lo], id, a[..n][lo..hi] + a[..n][hi + 1..]))
            && (hi == n ==> b[..n + 1] == Around(a[..n][..lo], id, a[..n][lo..]))
  {
    var b := (a[..lo + 1] + a[lo..hi] + a[hi + 1..])[lo := id];
    assert b[..lo] == a[..n][..lo] && b[lo] == id;
    if hi < n {
      assert b[lo + 1..hi + 1] == a[..n][lo..hi] && b[hi + 1..n] == a[..n][hi + 1..];
      assert b[..n] == b[..lo] + [b[lo]] + (b[lo + 1..hi + 1] + b[hi + 1..n]);
    } else {
      assert hi < |a| && b[lo + 1..n + 1] == a[..n][lo..];
      assert b[..n + 1] == b[..lo] + [b[lo]] + b[lo + 1..n + 1];
    }
  }

  /** The slots after the layers above `lo`, up to `hi`, moved down by one; then layer `id` took
      slot `hi`, or the stack lost its last slot. */
  lemma AfterDown(a: seq<nat>, lo: nat, hi: nat, n: nat, id: nat)
    requires lo <= hi < n <= |a|
    ensures var moved := a[..lo] + a[lo + 1..hi + 1] + a[hi..];
            && |moved| == |a|
            && moved[hi := id][..n] == Around(a[..n][..lo] + a[..n][lo + 1..hi + 1], id, a[..n][hi + 1..])
            && (hi == n - 1 ==> moved[..hi] == a[..n][..lo] + a[..n][lo + 1..])
            && (lo == hi ==> moved == a)
  {
    var m := a[..lo] + a[lo + 1..hi + 1] + a[hi..];
    var b := m[hi := id];
    assert m[..hi] == a[..n][..lo] + a[..n][lo + 1..hi + 1];
    assert b[..hi] == m[..hi] && b[hi + 1..n] == a[..n][hi + 1..];
    assert b[..n] == b[..hi] + [b[hi]] + b[hi + 1..n];
  }

  lemma SplitLow(s: seq<nat>, id: nat, lo: nat, hi: nat)
    requires lo <= hi < |s| && s[lo] == id
    ensures s == Around(s[..lo], id, s[lo + 1..])
    ensures s[lo + 1..] == s[lo + 1..hi + 1] + s[hi + 1..]
    ensures Restacked(s, id, lo, hi) == Around(s[..lo] + s[lo + 1..hi + 1], id, s[hi + 1..])
  {
    assert Without(s, lo)[..hi] == s[..lo] + s[lo + 1..hi + 1];
    assert Without(s, lo)[hi..] == s[hi + 1..];
  }

  lemma HiddenAt(layers: seq<Layer>, stack: seq<nat>, id: nat)
    requires StackOk(layers, stack) && id < |layers| && layers[id].height < 0
    ensures id !in stack
  {
  }

  lemma UnusedAt(layers: seq<Layer>, stack: seq<nat>, id: nat)
    requires StackOk(layers, stack) && id < |layers| && layers[id].flags == NO_USE
    ensures id !in stack
  {
  }

  lemma HeightInRange(layers: seq<Layer>, stack: seq<nat>, id: nat)
    requires StackOk(layers, stack) && id < |layers| && layers[id].flags != NO_USE
    ensures -1 <= layers[id].height < |stack|
  {
  }

  lemma SameLooks(layers: seq<Layer>)
    ensures forall i :: 0 <= i < |layers| ==> SameLook(layers[i], layers[i])
  {
  }

  /** Giving a slot that is not in the stack another use. */
  lemma FlagKeepsAgree(l0: seq<Layer>, stack: seq<nat>, id: nat, flags: nat, height: int, xsize: nat, ysize: nat,
                       cells: seq<nat>, vram: seq<nat>)
    requires StackOk(l0, stack) && id < |l0| && id !in stack && height == -1
    requires |cells| == |vram| == xsize * ysize && Agree(l0, stack, xsize, ysize, cells, vram)
    ensures var l1 := l0[id := l0[id].(flags := flags, height := height)];
            StackOk(l1, stack) && Agree(l1, stack, xsize, ysize, cells, vram)
  {
    hide Opaque, Pixel, Index, LayerOk;
    var l1 := l0[id := l0[id].(flags := flags, height := height)];
    forall x, y | OnScreen(xsize, ysize, x, y)
      ensures PixelOk(l1, stack, x, y, cells[Index(xsize, ysize, x, y)], vram[Index(xsize, ysize, x, y)])
    {
      TopKept(l0, l1, stack, x, y);
      assert PixelOk(l0, stack, x, y, cells[Index(xsize, ysize, x, y)], vram[Index(xsize, ysize, x, y)]);
    }
  }

  lemma SlotsSlice(a: seq<nat>, lo: nat, hi: nat, n: nat)
    requires lo <= hi <= n <= |a|
    ensures a[lo..hi] == a[..n][lo..hi]
  {
  }

  lemma IdsForHeight(layers: seq<Layer>, id: nat, height: int, ids: seq<nat>)
    requires Ids(layers, ids) && id < |layers|
    ensures Ids(layers[id := layers[id].(height := height)], ids)
  {
  }

  /** Where a shown layer is in the stack. */
  lemma ShownAt(layers: seq<Layer>, stack: seq<nat>, id: nat)
    requires StackOk(layers, stack) && id < |layers| && Shown(layers[id])
    ensures layers[id].height < |stack| && stack[layers[id].height] == id && LayerOk(layers[id])
    ensures Ids(layers, stack)
  {
  }

  lemma StackSlice(layers: seq<Layer>, stack: seq<nat>, lo: nat, hi: nat)
    requires StackOk(layers, stack) && lo <= hi <= |stack|
    ensures Ids(layers, stack[..lo]) && Ids(layers, stack[lo..hi]) && Ids(layers, stack[hi..])
            && Distinct(stack[lo..hi])
    ensures hi < |stack| ==> Ids(layers, stack[hi + 1..])
    ensures |layers| == MAX_LAYERS
  {
  }

  lemma Split(s: seq<nat>, id: nat, lo: nat, hi: nat)
    requires lo <= hi < |s| && s[hi] == id
    ensures s == Around(s[..lo] + s[lo..hi], id, s[hi + 1..])
    ensures Restacked(s, id, hi, lo) == Around(s[..lo], id, s[lo..hi] + s[hi + 1..])
  {
    assert s[..lo] + s[lo..hi] == s[..hi];
    assert Without(s, hi)[..lo] == s[..lo];
    assert Without(s, hi)[lo..] == s[lo..hi] + s[hi + 1..];
  }

  lemma EmptyArea(layers: seq<Layer>, stack: seq<nat>, xsize: nat, ysize: nat, r: Rect, h0: int, h: int, h1: int,
                  cells: seq<nat>, vram: seq<nat>, vram': seq<nat>)
    requires Ids(layers, stack) && (h == h1 || (h == h0 - 1 && h1 < h0))
    requires AreaRefreshed(layers, stack, xsize, ysize, r, h0, h, cells, vram, vram')
    ensures AreaRefreshed(layers, stack, xsize, ysize, r, h0, h1, cells, vram, vram')
  {
    hide Pixel, Index;
  }

  lemma StackFacts(layers: seq<Layer>, stack: seq<nat>)
    requires StackOk(layers, stack)
    ensures Ids(layers, stack) && |layers| == MAX_LAYERS
    ensures forall h :: 0 <= h < |stack| ==> LayerOk(layers[stack[h]])
  {
    forall h | 0 <= h < |stack|
      ensures LayerOk(layers[stack[h]])
    {
      assert Shown(layers[stack[h]]);
    }
  }

  lemma MapRowsStart(l: Layer, id: nat, xsize: nat, ysize: nat, r: Rect, y: int, cells: seq<nat>)
    requires |cells| == xsize * ysize && (y <= r.y0 || y <= l.vy0)
    ensures LayerOnMap(l, id, xsize, ysize, Above(r, y), cells, cells)
  {
    hide Pixel, Index;
  }

  lemma MapRowsEnd(l: Layer, id: nat, xsize: nat, ysize: nat, r: Rect, full: Rect, y: int, cells: seq<nat>,
                   cells': seq<nat>)
    requires r == Clip(full, xsize, ysize) && (y >= r.y1 || y >= l.vy0 + l.bysize)
    requires y <= r.y1 || y <= r.y0 || y <= l.vy0
    requires LayerOnMap(l, id, xsize, ysize, Above(r, y), cells, cells')
    ensures LayerOnMap(l, id, xsize, ysize, full, cells, cells')
  {
    hide Pixel, Index;
  }

  lemma ScreenRowsStart(l: Layer, id: nat, xsize: nat, ysize: nat, r: Rect, y: int, cells: seq<nat>, vram: seq<nat>)
    requires |cells| == |vram| == xsize * ysize && (y <= r.y0 || y <= l.vy0)
    ensures LayerOnScreen(l, id, xsize, ysize, Above(r, y), cells, vram, vram)
  {
    hide Pixel, Index;
  }

  lemma ScreenRowsEnd(l: Layer, id: nat, xsize: nat, ysize: nat, r: Rect, full: Rect, y: int, cells: seq<nat>,
                      vram: seq<nat>, vram': seq<nat>)
    requires r == Clip(full, xsize, ysize) && (y >= r.y1 || y >= l.vy0 + l.bysize)
    requires y <= r.y1 || y <= r.y0 || y <= l.vy0
    requires LayerOnScreen(l, id, xsize, ysize, Above(r, y), cells, vram, vram')
    ensures LayerOnScreen(l, id, xsize, ysize, full, cells, vram, vram')
  {
    hide Pixel, Index;
  }

  lemma OpaqueHere(l: Layer, col: int, row: int)
    requires LayerOk(l) && 0 <= col < l.bxsize && 0 <= row < l.bysize
    ensures Opaque(l, l.vx0 + col, l.vy0 + row) <==> Pixel(l, l.vx0 + col, l.vy0 + row) != l.colInv
  {
  }

  lemma LowerRepairs(l0: seq<Layer>, l2: seq<Layer>, s: seq<nat>, id: nat, height: nat, from: int, xsize: nat,
                     ysize: nat,
               cells: seq<nat>, cells': seq<nat>, vram: seq<nat>, vram': seq<nat>)
    requires StackOk(l0, s) && id < |l0| && Shown(l0[id]) && from == l0[id].height < |s| && height < from
    requires StackOk(l2, Around(s[..height], id, s[height..from] + s[from + 1..])) && forall i :: 0 <= i < |l0| ==>
             SameLook(l0[i], l2[i])
    requires |cells| == |vram| == xsize * ysize && Agree(l0, s, xsize, ysize, cells, vram)
    requires MapRefreshed(l2, Around(s[..height], id, s[height..from] + s[from + 1..]), xsize, ysize, Place(l2[id]),
                          height + 1, cells, cells')
    requires AreaRefreshed(l2, Around(s[..height], id, s[height..from] + s[from + 1..]), xsize, ysize,
                           Place(l2[id]), height + 1, from, cells', vram, vram')
    ensures Around(s[..height], id, s[height..from] + s[from + 1..]) == Restacked(s, id, from, height)
    ensures Agree(l2, Around(s[..height], id, s[height..from] + s[from + 1..]), xsize, ysize, cells', vram')
  {
    hide Agree, MapRefreshed, AreaRefreshed, LayerOk, Opaque, Pixel, Place, Index, Around, Restacked, StackOk;
    ShownAt(l0, s, id);
    Split(s, id, height, from);
    StackSlice(l0, s, height, from);
    StackFacts(l2, Around(s[..height], id, s[height..from] + s[from + 1..]));
    AgreeForLook(l0, l2, s, xsize, ysize, cells, vram);
    AgreeAfterLower(l2, s[..height], s[height..from], id, s[from + 1..], xsize, ysize, cells, cells', vram, vram');
  }

  lemma RaiseRepairs(l0: seq<Layer>, l2: seq<Layer>, s: seq<nat>, id: nat, height: nat, from: int, xsize: nat,
                     ysize: nat,
               cells: seq<nat>, cells': seq<nat>, vram: seq<nat>, vram': seq<nat>)
    requires StackOk(l0, s) && id < |l0| && Shown(l0[id]) && from == l0[id].height < |s| && from < height < |s|
    requires StackOk(l2, Around(s[..from] + s[from + 1..height + 1], id, s[height + 1..]))
             && forall i :: 0 <= i < |l0| ==> SameLook(l0[i], l2[i])
    requires |cells| == |vram| == xsize * ysize && Agree(l0, s, xsize, ysize, cells, vram)
    requires MapRefreshed(l2, Around(s[..from] + s[from + 1..height + 1], id, s[height + 1..]), xsize, ysize,
                          Place(l2[id]), height, cells, cells')
    requires AreaRefreshed(l2, Around(s[..from] + s[from + 1..height + 1], id, s[height + 1..]), xsize, ysize,
                           Place(l2[id]), height, height, cells', vram, vram')
    ensures Around(s[..from] + s[from + 1..height + 1], id, s[height + 1..]) == Restacked(s, id, from, height)
    ensures Agree(l2, Around(s[..from] + s[from + 1..height + 1], id, s[height + 1..]), xsize, ysize, cells', vram')
  {
    hide Agree, MapRefreshed, AreaRefreshed, LayerOk, Opaque, Pixel, Place, Index, Around, Restacked, StackOk;
    ShownAt(l0, s, id);
    SplitLow(s, id, from, height);
    StackSlice(l0, s, from, from + 1);
    StackSlice(l0, s, from + 1, height + 1);
    StackFacts(l2, Around(s[..from] + s[from + 1..height + 1], id, s[height + 1..]));
    AgreeForLook(l0, l2, s, xsize, ysize, cells, vram);
    AgreeAfterRaise(l2, s[..from], id, s[from + 1..height + 1], s[height + 1..], xsize, ysize, cells, cells', vram,
                    vram');
  }

  lemma HideRepairs(l0: seq<Layer>, l2: seq<Layer>, s: seq<nat>, id: nat, from: int, xsize: nat, ysize: nat,
               cells: seq<nat>, cells': seq<nat>, vram: seq<nat>, vram': seq<nat>)
    requires StackOk(l0, s) && id < |l0| && Shown(l0[id]) && from == l0[id].height < |s|
    requires StackOk(l2, s[..from] + s[from + 1..]) && forall i :: 0 <= i < |l0| ==> SameLook(l0[i], l2[i])
    requires |cells| == |vram| == xsize * ysize && Agree(l0, s, xsize, ysize, cells, vram)
    requires MapRefreshed(l2, s[..from] + s[from + 1..], xsize, ysize, Place(l2[id]), 0, cells, cells')
    requires AreaRefreshed(l2, s[..from] + s[from + 1..], xsize, ysize, Place(l2[id]), 0, from - 1, cells', vram, vram')
    ensures s[..from] + s[from + 1..] == Restacked(s, id, from, -1)
    ensures Agree(l2, s[..from] + s[from + 1..], xsize, ysize, cells', vram')
  {
    hide Agree, MapRefreshed, AreaRefreshed, LayerOk, Opaque, Pixel, Place, Index, Around, Restacked, StackOk;
    ShownAt(l0, s, id);
    SplitLow(s, id, from, from);
    StackSlice(l0, s, from, from + 1);
    WithoutIs(s, id, from);
    StackFacts(l2, s[..from] + s[from + 1..]);
    AgreeForLook(l0, l2, s, xsize, ysize, cells, vram);
    AgreeAfterHide(l2, s[..from], id, s[from + 1..], xsize, ysize, cells, cells', vram, vram');
  }

  lemma WithoutIs(s: seq<nat>, id: nat, from: nat)
    requires from < |s|
    ensures Restacked(s, id, from, -1) == s[..from] + s[from + 1..]
  {
  }

  lemma ShowRepairs(l0: seq<Layer>, l2: seq<Layer>, s: seq<nat>, id: nat, height: nat, xsize: nat, ysize: nat,
                    cells: seq<nat>, cells': seq<nat>, vram: seq<nat>, vram': seq<nat>)
    requires StackOk(l0, s) && id < |l0| && height <= |s|
    requires StackOk(l2, Around(s[..height], id, s[height..])) && forall i :: 0 <= i < |l0| ==> SameLook(l0[i], l2[i])
    requires |cells| == |vram| == xsize * ysize && Agree(l0, s, xsize, ysize, cells, vram)
    requires MapRefreshed(l2, Around(s[..height], id, s[height..]), xsize, ysize, Place(l2[id]), height, cells, cells')
    requires AreaRefreshed(l2, Around(s[..height], id, s[height..]), xsize, ysize, Place(l2[id]), height, height,
                           cells', vram, vram')
    ensures Around(s[..height], id, s[height..]) == Restacked(s, id, -1, height)
    ensures Agree(l2, Around(s[..height], id, s[height..]), xsize, ysize, cells', vram')
  {
    hide Agree, MapRefreshed, AreaRefreshed, LayerOk, Opaque, Pixel, Place, Index, StackOk;
    StackSlice(l0, s, height, |s|);
    assert s == s[..height] + s[height..] && s[height..|s|] == s[height..];
    StackFacts(l2, Around(s[..height], id, s[height..]));
    StackFacts(l0, s);
    AgreeForLook(l0, l2, s, xsize, ysize, cells, vram);
    AgreeAfterShow(l2, s[..height], id, s[height..], xsize, ysize, cells, cells', vram, vram');
  }

  lemma MoveRepairs(l0: seq<Layer>, l1: seq<Layer>, s: seq<nat>, id: nat, xsize: nat, ysize: nat,
                    cells: seq<nat>, cells': seq<nat>, cells'': seq<nat>, vram: seq<nat>, vram': seq<nat>,
                    vram'': seq<nat>)
    requires StackOk(l0, s) && StackOk(l1, s) && id < |l0| && Shown(l0[id]) && l1 == l0[id := l1[id]]
    requires l1[id].height == l0[id].height
    requires |cells| == |vram| == xsize * ysize && Agree(l0, s, xsize, ysize, cells, vram)
    requires MapRefreshed(l1, s, xsize, ysize, Place(l0[id]), 0, cells, cells')
    requires MapRefreshed(l1, s, xsize, ysize, Place(l1[id]), l1[id].height, cells', cells'')
    requires AreaRefreshed(l1, s, xsize, ysize, Place(l0[id]), 0, l1[id].height - 1, cells'', vram, vram')
    requires AreaRefreshed(l1, s, xsize, ysize, Place(l1[id]), l1[id].height, l1[id].height, cells'', vram', vram'')
    ensures Agree(l1, s, xsize, ysize, cells'', vram'')
  {
    hide Agree, MapRefreshed, AreaRefreshed, LayerOk, Opaque, Pixel, Place, Index, Around, StackOk, Restacked;
    var h := l0[id].height;
    ShownAt(l0, s, id);
    SplitLow(s, id, h, h);
    StackSlice(l0, s, h, h + 1);
    StackFacts(l1, s);
    Apart(l0, s, id);
    AgreeAfterMove(l0, l1, s[..h], id, s[h + 1..], xsize, ysize, cells, cells', cells'', vram, vram', vram'');
  }

  /** The parts of the stack when the layer at `from` goes up to `height`, in the slots and in the stack. */
  lemma PartsToRaise(l0: seq<Layer>, slots: seq<nat>, s: seq<nat>, id: nat, from: nat, height: nat)
      returns (a: seq<nat>, b: seq<nat>, c: seq<nat>)
    requires StackOk(l0, s) && id < |l0| && Shown(l0[id]) && l0[id].height == from < height < |s| <= |slots|
    requires s == slots[..|s|]
    ensures a == s[..from] && b == s[from + 1..height + 1] && c == s[height + 1..]
    ensures l0[id].flags != NO_USE && LayerOk(l0[id]) && StackOk(l0, Around(a, id, b + c))
    ensures Ids(l0, a) && Ids(l0, b) && Ids(l0, c) && Distinct(b) && b == slots[from + 1..height + 1]
    ensures Ids(l0[id := l0[id].(height := height)], b)
    ensures var moved := slots[..from] + b + slots[height..];
            |moved| == |slots| && moved[height := id][..|s|] == Around(a + b, id, c)
  {
    hide StackOk, LayerOk, Around, Restacked, Ids, Distinct;
    a, b, c := s[..from], s[from + 1..height + 1], s[height + 1..];
    ShownAt(l0, s, id);
    SplitLow(s, id, from, height);
    StackSlice(l0, s, from, from + 1);
    StackSlice(l0, s, from + 1, height + 1);
    SlotsSlice(slots, from + 1, height + 1, |s|);
    IdsForHeight(l0, id, height, b);
    AfterDown(slots, from, height, |s|, id);
  }
}
