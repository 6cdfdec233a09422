/** The layer controller: a stack of shown layers, a map that caches which layer is on top of each
    pixel, and the frame buffer, both repaired in place. */
module Layers {
  import opened Compositing
  import opened LayerStack

  class Controller {
    const xsize: nat
    const ysize: nat
    const vram: array<nat>
    const cells: array<nat>  // the source's `map`
    const layersAddr: array<nat>  // ids by height, up to `top`
    const layers: array<Layer>
    var top: int

    /** A controller without layers; neither the map nor the frame buffer is cleared. */
    constructor (width: nat, height: nat)
      ensures Valid() && xsize == width && ysize == height && top == -1
      ensures fresh(vram) && fresh(cells) && fresh(layersAddr) && fresh(layers)
      ensures forall i :: 0 <= i < MAX_LAYERS ==> layers[i].flags == NO_USE
    {
      xsize, ysize := width, height;
      vram, cells := new nat[width * height], new nat[width * height];
      layersAddr := new nat[64];
      layers := new Layer[64](_ => Layer([], 0, 0, 0, 0, 0, 0, NO_USE));
      top := -1;
    }

    /** The arrays are where they are, whatever they hold. */
    ghost predicate Arrays()
      reads this
    {
      && vram != cells && vram != layersAddr && cells != layersAddr
      && vram as object != layers && cells as object != layers && layersAddr as object != layers
      && vram.Length == cells.Length == xsize * ysize
      && layers.Length == layersAddr.Length == MAX_LAYERS
      && -1 <= top < MAX_LAYERS
    }

    ghost predicate Shape()
      reads this, vram, cells, layersAddr, layers
    {
      Arrays() && StackOk(layers[..], layersAddr[..top + 1])
    }

    ghost function Stack(): seq<nat>
      reads this, vram, cells, layersAddr, layers
      requires Arrays()
    {
      layersAddr[..top + 1]
    }

    /** Every opaque pixel on the screen shows the topmost layer. */
    ghost predicate Valid()
      reads this, vram, cells, layersAddr, layers
    {
      Shape() && Agree(layers[..], Stack(), xsize, ysize, cells[..], vram[..])
    }

    /** One row of one layer of `layer_refreshmap`. */
    method PaintMapRow(l: Layer, id: nat, row: int, col0: int, col1: int)
      requires LayerOk(l) && 0 <= row < l.bysize && 0 <= col0 && col1 <= l.bxsize
      requires 0 <= l.vy0 + row < ysize && (col0 < col1 ==> 0 <= l.vx0 + col0 && l.vx0 + col1 <= xsize)
      requires cells.Length == xsize * ysize
      modifies cells
      ensures RowOnMap(l, id, xsize, l.vy0 + row, l.vx0 + col0, l.vx0 + col1, old(cells[..]), cells[..])
    {
      hide LayerOk, Opaque, Pixel;
      var y := l.vy0 + row;
      ghost var before := cells[..];
      RowBound(xsize, ysize, y);
      var col := col0;
      while col < col1
        invariant col0 <= col && (col <= col1 || col == col0)
        invariant RowOnMap(l, id, xsize, y, l.vx0 + col0, l.vx0 + col, before, cells[..])
      {
        var x := l.vx0 + col;
        BufferIndex(l, col, row);
        OpaqueHere(l, col, row);
        if l.buf[row * l.bxsize + col] != l.colInv {
          cells[y * xsize + x] := id;
        }
        col := col + 1;
      }
    }

    /** One row of one layer of `layer_refresh_area`. */
    method PaintColorRow(l: Layer, id: nat, row: int, col0: int, col1: int)
      requires LayerOk(l) && 0 <= row < l.bysize && 0 <= col0 && col1 <= l.bxsize
      requires 0 <= l.vy0 + row < ysize && (col0 < col1 ==> 0 <= l.vx0 + col0 && l.vx0 + col1 <= xsize)
      requires vram != cells && cells.Length == vram.Length == xsize * ysize
      modifies vram
      ensures RowOnScreen(l, id, xsize, l.vy0 + row, l.vx0 + col0, l.vx0 + col1, cells[..], old(vram[..]), vram[..])
    {
      hide LayerOk, Pixel;
      var y := l.vy0 + row;
      ghost var before := vram[..];
      RowBound(xsize, ysize, y);
      var col := col0;
      while col < col1
        invariant col0 <= col && (col <= col1 || col == col0)
        invariant RowOnScreen(l, id, xsize, y, l.vx0 + col0, l.vx0 + col, cells[..], before, vram[..])
      {
        var x := l.vx0 + col;
        BufferIndex(l, col, row);
        if cells[y * xsize + x] == id {
          vram[y * xsize + x] := l.buf[row * l.bxsize + col];
        }
        col := col + 1;
      }
    }

    /** One layer of `layer_refreshmap`, inside the clipped rectangle. */
    method PaintMapLayer(l: Layer, id: nat, r: Rect, ghost full: Rect)
      requires LayerOk(l) && r == Clip(full, xsize, ysize) && cells.Length == xsize * ysize
      modifies cells
      ensures LayerOnMap(l, id, xsize, ysize, full, old(cells[..]), cells[..])
    {
      hide LayerOk, Opaque, RowOnMap, LayerOnMap;
      ghost var before := cells[..];
      var col0, row0, col1, row1 := r.x0 - l.vx0, r.y0 - l.vy0, r.x1 - l.vx0, r.y1 - l.vy0;
      if col0 < 0 { col0 := 0; }
      if row0 < 0 { row0 := 0; }
      if col1 > l.bxsize { col1 := l.bxsize; }
      if row1 > l.bysize { row1 := l.bysize; }
      var row := row0;
      MapRowsStart(l, id, xsize, ysize, r, l.vy0 + row0, before);
      while row < row1
        invariant row0 <= row && (row <= row1 || row == row0)
        invariant LayerOnMap(l, id, xsize, ysize, Above(r, l.vy0 + row), before, cells[..])
      {
        ghost var now := cells[..];
        PaintMapRow(l, id, row, col0, col1);
        MapRowStep(l, id, xsize, ysize, r, l.vy0 + row, l.vx0 + col0, l.vx0 + col1, before, now, cells[..]);
        row := row + 1;
      }
      MapRowsEnd(l, id, xsize, ysize, r, full, l.vy0 + row, before, cells[..]);
    }

    /** One layer of `layer_refresh_area`, inside the clipped rectangle. */
    method PaintColorLayer(l: Layer, id: nat, r: Rect, ghost full: Rect)
      requires LayerOk(l) && r == Clip(full, xsize, ysize)
      requires vram != cells && cells.Length == vram.Length == xsize * ysize
      modifies vram
      ensures LayerOnScreen(l, id, xsize, ysize, full, cells[..], old(vram[..]), vram[..])
    {
      hide LayerOk, Pixel, RowOnScreen, LayerOnScreen;
      ghost var before := vram[..];
      var col0, row0, col1, row1 := r.x0 - l.vx0, r.y0 - l.vy0, r.x1 - l.vx0, r.y1 - l.vy0;
      if col0 < 0 { col0 := 0; }
      if row0 < 0 { row0 := 0; }
      if col1 > l.bxsize { col1 := l.bxsize; }
      if row1 > l.bysize { row1 := l.bysize; }
      var row := row0;
      ScreenRowsStart(l, id, xsize, ysize, r, l.vy0 + row0, cells[..], before);
      while row < row1
        invariant row0 <= row && (row <= row1 || row == row0)
        invariant LayerOnScreen(l, id, xsize, ysize, Above(r, l.vy0 + row), cells[..], before, vram[..])
      {
        ghost var now := vram[..];
        PaintColorRow(l, id, row, col0, col1);
        ScreenRowStep(l, id, xsize, ysize, r, l.vy0 + row, l.vx0 + col0, l.vx0 + col1, cells[..], before, now,
                      vram[..]);
        row := row + 1;
      }
      ScreenRowsEnd(l, id, xsize, ysize, r, full, l.vy0 + row, cells[..], before, vram[..]);
    }

    /** `layer_refreshmap` */
    method RefreshMap(full: Rect, h0: nat)
      requires Arrays() && h0 <= top + 1 && Ids(layers[..], Stack())
      requires forall h :: h0 <= h <= top ==> LayerOk(layers[layersAddr[h]])
      modifies cells
      ensures MapRefreshed(layers[..], Stack(), xsize, ysize, full, h0, old(cells[..]), cells[..])
    {
      hide LayerOk, MapRefreshed, LayerOnMap;
      ghost var before, ls, stack := cells[..], layers[..], Stack();
      var r := Clip(full, xsize, ysize);
      MapPassStarts(ls, stack, xsize, ysize, full, h0, before);
      var h := h0;
      while h <= top
        invariant h0 <= h <= top + 1
        invariant Ids(ls, stack[..h])
        invariant MapRefreshed(ls, stack[..h], xsize, ysize, full, h0, before, cells[..])
      {
        var id := layersAddr[h];
        assert id == stack[h];
        ghost var now := cells[..];
        PaintMapLayer(layers[id], id, r, full);
        MapPassStep(ls, stack, xsize, ysize, full, h0, h, before, now, cells[..]);
        h := h + 1;
      }
      assert stack[..h] == stack;
    }

    /** `layer_refresh_area`, over the given slots. */
    method RefreshArea(full: Rect, h0: nat, h1: int, ghost slots: seq<nat>)
      requires Arrays() && |slots| <= MAX_LAYERS && slots == layersAddr[..|slots|] && h1 < |slots|
      requires Ids(layers[..], slots) && forall h :: h0 <= h <= h1 ==> LayerOk(layers[layersAddr[h]])
      modifies vram
      ensures AreaRefreshed(layers[..], slots, xsize, ysize, full, h0, h1, cells[..], old(vram[..]), vram[..])
    {
      hide LayerOk, AreaRefreshed, LayerOnScreen;
      ghost var before, ls := vram[..], layers[..];
      var r := Clip(full, xsize, ysize);
      AreaPassStarts(ls, slots, xsize, ysize, full, h0, cells[..], before);
      var h := h0;
      while h <= h1
        invariant h0 <= h && (h <= h1 + 1 || h == h0)
        invariant AreaRefreshed(ls, slots, xsize, ysize, full, h0, h - 1, cells[..], before, vram[..])
      {
        var id := layersAddr[h];
        assert id == slots[h];
        ghost var now := vram[..];
        PaintColorLayer(layers[id], id, r, full);
        AreaPassStep(ls, slots, xsize, ysize, full, h0, h, cells[..], before, now, vram[..]);
        h := h + 1;
      }
      EmptyArea(ls, slots, xsize, ysize, full, h0, h - 1, h1, cells[..], before, vram[..]);
    }

    /** Both passes of one repair. */
    method Repaint(full: Rect, hm: nat, h0: nat, h1: int)
      requires Shape() && hm <= top + 1 && h1 <= top
      modifies cells, vram
      ensures Shape()
      ensures MapRefreshed(layers[..], Stack(), xsize, ysize, full, hm, old(cells[..]), cells[..])
      ensures AreaRefreshed(layers[..], Stack(), xsize, ysize, full, h0, h1, cells[..], old(vram[..]), vram[..])
    {
      hide StackOk, LayerOk, MapRefreshed, AreaRefreshed;
      StackFacts(layers[..], Stack());
      assert forall h :: 0 <= h <= top ==> layersAddr[h] == Stack()[h];
      RefreshMap(full, hm);
      RefreshArea(full, h0, h1, Stack());
    }

    /** The loops of `layer_set_height` that move the layers from `lo` up by one. */
    method MoveUp(lo: nat, hi: nat)
      requires lo <= hi < MAX_LAYERS && layers.Length == layersAddr.Length == MAX_LAYERS
      requires layersAddr as object != layers
      requires Ids(layers[..], layersAddr[lo..hi]) && Distinct(layersAddr[lo..hi])
      modifies layersAddr, layers
      ensures layersAddr[..] == old(layersAddr[..lo + 1] + layersAddr[lo..hi] + layersAddr[hi + 1..])
      ensures HeightsSet(old(layers[..]), layers[..], old(layersAddr[lo..hi]), lo + 1)
    {
      hide HeightsSet, SameLook, Distinct, Ids;
      ghost var a0, l0 := layersAddr[..], layers[..];
      var h := hi;
      NoHeightsSet(l0, hi + 1);
      assert a0[hi..hi] == [];
      while h > lo
        invariant lo <= h <= hi
        invariant layersAddr[..] == a0[..h + 1] + a0[h..hi] + a0[hi + 1..]
        invariant HeightsSet(l0, layers[..], a0[h..hi], h + 1)
        decreases h
      {
        UpStep(a0, lo, h, hi);
        ghost var addr, now := layersAddr[..], layers[..];
        layersAddr[h] := layersAddr[h - 1];
        assert layersAddr[..] == addr[h := addr[h - 1]];
        var id := layersAddr[h];
        SetNext(l0, now, a0, lo, h, hi);
        layers[id] := layers[id].(height := h);
        assert layers[..] == now[id := now[id].(height := h)];
        h := h - 1;
      }
    }

    /** The loops of `layer_set_height` that move the layers above `lo` down by one. */
    method MoveDown(lo: nat, hi: nat)
      requires lo <= hi < MAX_LAYERS && layers.Length == layersAddr.Length == MAX_LAYERS
      requires layersAddr as object != layers
      requires Ids(layers[..], layersAddr[lo + 1..hi + 1])
      modifies layersAddr, layers
      ensures layersAddr[..] == old(layersAddr[..lo] + layersAddr[lo + 1..hi + 1] + layersAddr[hi..])
      ensures layers[..] == Assigned(old(layers[..]), old(layersAddr[lo + 1..hi + 1]), lo)
    {
      hide Ids, Assigned;
      ghost var a0, l0 := layersAddr[..], layers[..];
      ghost var moved := a0[lo + 1..hi + 1];
      var h := lo;
      NoneAssigned(l0, lo);
      while h < hi
        invariant lo <= h <= hi
        invariant layersAddr[..] == a0[..lo] + a0[lo + 1..h + 1] + a0[h..]
        invariant Ids(l0, moved[..h - lo]) && layers[..] == Assigned(l0, moved[..h - lo], lo)
      {
        DownStep(a0, lo, h, hi);
        ghost var addr := layersAddr[..];
        layersAddr[h] := layersAddr[h + 1];
        assert layersAddr[..] == addr[h := addr[h + 1]];
        var id := layersAddr[h];
        ghost var now := layers[..];
        IdsAt(l0, moved, h - lo);
        layers[id] := layers[id].(height := h);
        OneMoreAssigned(l0, moved, h - lo, lo);
        assert layers[..] == now[id := now[id].(height := h)];
        h := h + 1;
      }
      assert moved[..hi - lo] == moved;
    }

    /** Every layer keeps its picture, its place and its use. */
    twostate predicate PicturesKept()
      reads layers
    {
      forall i :: 0 <= i < layers.Length ==> SameLook(old(layers[i]), layers[i])
    }

    /** The part of `layer_set_height` that lowers a shown layer in the stack. */
    method LowerInStack(id: nat, height: nat)
      requires Shape() && id < MAX_LAYERS && Shown(layers[id]) && height < layers[id].height
      modifies layersAddr, layers
      ensures Shape() && PicturesKept() && layers[id].height == height
      ensures layers[id].height <= old(layers[id].height) <= |old(Stack())| - 1
      ensures Stack() == var s, h := old(Stack()), old(layers[id].height);
              Around(s[..height], id, s[height..h] + s[h + 1..])
    {
      hide StackOk, HeightsSet, SameLook, LayerOk, Around, Restacked, Ids, Distinct;
      ghost var l0, s, a0 := layers[..], Stack(), layersAddr[..];
      var old' := layers[id].height;
      ShownAt(l0, s, id);
      Split(s, id, height, old');
      StackSlice(l0, s, height, old');
      SlotsSlice(a0, height, old', top + 1);
      IdsForHeight(l0, id, height, s[height..old']);
      layers[id] := layers[id].(height := height);
      ghost var l1 := layers[..];
      MoveUp(height, old');
      layersAddr[height] := id;
      AfterUp(a0, height, old', top + 1, id);
      LoweredStack(l0, l1, layers[..], s[..height], s[height..old'], id, s[old' + 1..]);
    }

    /** A shown layer goes below others. */
    method Lower(id: nat, height: nat)
      requires Valid() && id < MAX_LAYERS && Shown(layers[id]) && height < layers[id].height
      modifies vram, cells, layersAddr, layers
      ensures Valid() && PicturesKept() && layers[id].height == height
      ensures old(layers[id].height) < |old(Stack())|
              && Stack() == Restacked(old(Stack()), id, old(layers[id].height), height)
    {
      hide StackOk, Agree, MapRefreshed, AreaRefreshed, SameLook, LayerOk, Opaque, Pixel, Place, Index, Around,
           Restacked, Ids, Distinct;
      ghost var l0, s, cells0, vram0 := layers[..], Stack(), cells[..], vram[..];
      var old' := layers[id].height;
      ShownAt(l0, s, id);
      LowerInStack(id, height);
      Repaint(Place(layers[id]), height + 1, height + 1, old');
      LowerRepairs(l0, layers[..], s, id, height, old', xsize, ysize, cells0, cells[..], vram0, vram[..]);
    }

    /** The part of `layer_set_height` that raises a shown layer in the stack. */
    method RaiseInStack(id: nat, height: nat)
      requires Shape() && id < MAX_LAYERS && Shown(layers[id]) && layers[id].height < height <= top
      modifies layersAddr, layers
      ensures Shape() && PicturesKept() && layers[id].height == height
      ensures Stack() == var s, h := old(Stack()), old(layers[id].height);
                         Around(s[..h] + s[h + 1..height + 1], id, s[height + 1..])
    {
      hide StackOk, HeightsSet, SameLook, LayerOk, Around, Restacked, Ids, Distinct, Assigned;
      ghost var l0, s, a0 := layers[..], Stack(), layersAddr[..];
      var old' := layers[id].height;
      ghost var a, b, c := PartsToRaise(l0, a0, s, id, old', height);
      layers[id] := layers[id].(height := height);
      ghost var l1 := layers[..];
      assert l1 == l0[id := l0[id].(height := height)];
      MoveDown(old', height);
      AssignedSets(l1, b, old');
      layersAddr[height] := id;
      RaisedStack(l0, l1, layers[..], a, id, b, c);
    }

    /** A shown layer goes above others. */
    method Raise(id: nat, height: nat)
      requires Valid() && id < MAX_LAYERS && Shown(layers[id]) && layers[id].height < height <= top
      modifies vram, cells, layersAddr, layers
      ensures Valid() && PicturesKept() && layers[id].height == height
      ensures Stack() == Restacked(old(Stack()), id, old(layers[id].height), height)
    {
      hide StackOk, Agree, MapRefreshed, AreaRefreshed, SameLook, LayerOk, Opaque, Pixel, Place, Index, Around,
           Restacked, Ids, Distinct;
      ghost var l0, s, cells0, vram0 := layers[..], Stack(), cells[..], vram[..];
      var old' := layers[id].height;
      ShownAt(l0, s, id);
      RaiseInStack(id, height);
      Repaint(Place(layers[id]), height, height, height);
      RaiseRepairs(l0, layers[..], s, id, height, old', xsize, ysize, cells0, cells[..], vram0, vram[..]);
    }

    /** The part of `layer_set_height` that puts a hidden layer into the stack. */
    method ShowInStack(id: nat, height: nat)
      requires Shape() && id < MAX_LAYERS && layers[id].flags != NO_USE && layers[id].height < 0
      requires LayerOk(layers[id]) && height <= top + 1
      modifies this`top, layersAddr, layers
      ensures Shape() && PicturesKept() && layers[id].height == height && top == old(top) + 1
      ensures Stack() == Around(old(Stack())[..height], id, old(Stack())[height..])
    {
      hide StackOk, HeightsSet, SameLook, LayerOk, Around, Restacked, Ids, Distinct;
      ghost var l0, s, a0 := layers[..], Stack(), layersAddr[..];
      HiddenAt(l0, s, id);
      RoomForOneMore(l0, s, id);
      assert s == s[..height] + s[height..];
      StackSlice(l0, s, height, top + 1);
      SlotsSlice(a0, height, top + 1, top + 1);
      IdsForHeight(l0, id, height, s[height..]);
      layers[id] := layers[id].(height := height);
      ghost var l1 := layers[..];
      MoveUp(height, top + 1);
      layersAddr[height] := id;
      top := top + 1;
      AfterUp(a0, height, top, top, id);
      ShownStack(l0, l1, layers[..], s[..height], id, s[height..]);
    }

    /** A hidden layer is shown. */
    method Show(id: nat, height: nat)
      requires Valid() && id < MAX_LAYERS && layers[id].flags != NO_USE && layers[id].height < 0
      requires LayerOk(layers[id]) && height <= top + 1
      modifies this`top, vram, cells, layersAddr, layers
      ensures Valid() && PicturesKept() && layers[id].height == height
      ensures Stack() == Restacked(old(Stack()), id, -1, height)
    {
      hide StackOk, Agree, MapRefreshed, AreaRefreshed, SameLook, LayerOk, Opaque, Pixel, Place, Index, Around,
           Restacked, Ids, Distinct;
      ghost var l0, s, cells0, vram0 := layers[..], Stack(), cells[..], vram[..];
      ShowInStack(id, height);
      Repaint(Place(layers[id]), height, height, height);
      ShowRepairs(l0, layers[..], s, id, height, xsize, ysize, cells0, cells[..], vram0, vram[..]);
    }

    /** The layers above a layer that is being hidden come down, if there are any. */
    method CloseGap(lo: nat)
      requires lo <= top < MAX_LAYERS && layers.Length == layersAddr.Length == MAX_LAYERS
      requires layersAddr as object != layers
      requires Ids(layers[..], layersAddr[lo + 1..top + 1]) && Distinct(layersAddr[lo + 1..top + 1])
      modifies layersAddr, layers
      ensures layersAddr[..] == old(layersAddr[..lo] + layersAddr[lo + 1..top + 1] + layersAddr[top..])
      ensures HeightsSet(old(layers[..]), layers[..], old(layersAddr[lo + 1..top + 1]), lo)
    {
      if top > lo {
        AssignedSets(layers[..], layersAddr[lo + 1..top + 1], lo);
        MoveDown(lo, top);
      } else {
        NoHeightsSet(layers[..], lo);
        assert layersAddr[lo + 1..top + 1] == [];
      }
    }

    /** The part of `layer_set_height` that takes a shown layer out of the stack. */
    method HideInStack(id: nat)
      requires Shape() && id < MAX_LAYERS && Shown(layers[id])
      modifies this`top, layersAddr, layers
      ensures Shape() && PicturesKept() && layers[id].height == -1
      ensures Stack() == var s, h := old(Stack()), old(layers[id].height); s[..h] + s[h + 1..]
    {
      hide StackOk, HeightsSet, SameLook, LayerOk, Around, Restacked, Ids, Distinct;
      ghost var l0, s, a0 := layers[..], Stack(), layersAddr[..];
      var old' := layers[id].height;
      ShownAt(l0, s, id);
      SplitLow(s, id, old', old');
      StackSlice(l0, s, old', old' + 1);
      StackSlice(l0, s, old' + 1, top + 1);
      SlotsSlice(a0, old' + 1, top + 1, top + 1);
      IdsForHeight(l0, id, -1, s[old' + 1..]);
      layers[id] := layers[id].(height := -1);
      ghost var l1 := layers[..];
      CloseGap(old');
      AfterDown(a0, old', top, top + 1, id);
      top := top - 1;
      HiddenStack(l0, l1, layers[..], s[..old'], id, s[old' + 1..]);
    }

    /** A shown layer is hidden. */
    method Hide(id: nat)
      requires Valid() && id < MAX_LAYERS && Shown(layers[id])
      modifies this`top, vram, cells, layersAddr, layers
      ensures Valid() && PicturesKept() && layers[id].height == -1
      ensures old(layers[id].height) < |old(Stack())|
              && Stack() == Restacked(old(Stack()), id, old(layers[id].height), -1)
    {
      hide StackOk, Agree, MapRefreshed, AreaRefreshed, SameLook, LayerOk, Opaque, Pixel, Place, Index, Around,
           Restacked, Ids, Distinct;
      ghost var l0, s, cells0, vram0 := layers[..], Stack(), cells[..], vram[..];
      var old' := layers[id].height;
      ShownAt(l0, s, id);
      HideInStack(id);
      Repaint(Place(layers[id]), 0, 0, old' - 1);
      HideRepairs(l0, layers[..], s, id, old', xsize, ysize, cells0, cells[..], vram0, vram[..]);
    }

    /** The height that a request is clamped to. */
    function Clamped(height: int): int
      reads this
    {
      if height > top + 1 then top + 1 else if height < -1 then -1 else height
    }

    /** A shown layer is asked for more than the height of the top, and the clamp lets one more through. */
    ghost predicate PastTop(id: nat, height: int)
      requires id < layers.Length
      reads this, layers
    {
      layers[id].height >= 0 && height > top
    }

    /** The loop then moves the stale slot above the top into the stack. */
    method RaisePastInStack(id: nat)
      requires Shape() && id < MAX_LAYERS && Shown(layers[id])
      requires top + 1 < MAX_LAYERS && layersAddr[top + 1] < MAX_LAYERS
      modifies layersAddr, layers
      ensures Arrays() && PicturesKept() && LayerOk(layers[id])
      ensures var s, from, x := old(Stack()), old(layers[id].height), old(layersAddr[top + 1]);
              && from < |s| && Ids(old(layers[..]), s[from + 1..] + [x])
              && Stack() == s[..from] + (s[from + 1..] + [x])
              && layers[..] == Assigned(old(layers[..])[id := old(layers[id]).(height := top + 1)],
                                        s[from + 1..] + [x], from)
              && (Shape() <==> x == id)
      ensures layersAddr[..top + 2] == Stack() + [id] && Ids(layers[..], Stack()) && Ids(layers[..], Stack() + [id])
    {
      hide StackOk, SameLook, LayerOk, Ids, Distinct, Assigned;
      ghost var l0, s, a0 := layers[..], Stack(), layersAddr[..];
      var from, height := layers[id].height, top + 1;
      ghost var x := layersAddr[height];
      ShownAt(l0, s, id);
      RaisePastTop(l0, s, id, from, x);
      PastSlots(a0, from, height, id);
      layers[id] := layers[id].(height := height);
      ghost var l1 := layers[..];
      assert l1 == l0[id := l0[id].(height := |s|)];
      PastIds(l0, l1, s, from, x, id);
      MoveDown(from, height);
      layersAddr[height] := id;
      PastLooks(l0, l1, layers[..], s, id, from, x);
    }

    /** What `layer_set_height` does then: the map pass starts above the top and paints nothing. Slots, map
        and frame buffer are all right afterwards exactly when the stale slot held the layer itself and
        nothing above the layer is opaque where it is. */
    method RaisePast(id: nat)
      requires Valid() && id < MAX_LAYERS && Shown(layers[id])
      requires top + 1 < MAX_LAYERS && layersAddr[top + 1] < MAX_LAYERS
      modifies vram, cells, layersAddr, layers
      ensures Arrays() && PicturesKept()
      ensures var s, from, x := old(Stack()), old(layers[id].height), old(layersAddr[top + 1]);
              && from < |s| && Ids(old(layers[..]), s[from + 1..] + [x]) && Ids(old(layers[..]), s[from + 1..])
              && Stack() == s[..from] + (s[from + 1..] + [x])
              && layers[..] == Assigned(old(layers[..])[id := old(layers[id]).(height := top + 1)],
                                        s[from + 1..] + [x], from)
              && (Valid() <==> x == id && NothingAbove(old(layers[..]), id, s[from + 1..], xsize, ysize))
    {
      hide StackOk, Agree, MapRefreshed, AreaRefreshed, SameLook, LayerOk, Opaque, Pixel, Place, Index, Around, Ids,
           Distinct,
           Assigned, NothingAbove;
      ghost var l0, s, cells0, vram0 := layers[..], Stack(), cells[..], vram[..];
      ghost var from, x := layers[id].height, layersAddr[top + 1];
      ShownAt(l0, s, id);
      StackSlice(l0, s, from, from + 1);
      RaisePastInStack(id);
      assert layersAddr[top + 1] == layersAddr[..top + 2][top + 1] == id;
      RefreshMap(Place(layers[id]), top + 1);
      RefreshArea(Place(layers[id]), top + 1, top + 1, Stack() + [id]);
      if x == id {
        SplitLow(s, id, from, from);
        PastScreen(l0, layers[..], s, s[..from], id, s[from + 1..], xsize, ysize, cells0, cells[..], vram0, vram[..]);
      }
    }

    /** `layer_set_height` on a layer in use, with a buffer if it is to be shown. For a shown layer that is
        asked for more than `top`, the slot above the top exists and names a layer. */
    method SetHeight(id: nat, height: int)
      requires Valid() && id < MAX_LAYERS && layers[id].flags != NO_USE
      requires layers[id].height < 0 <= height ==> LayerOk(layers[id])
      requires PastTop(id, height) ==> top + 1 < MAX_LAYERS && layersAddr[top + 1] < MAX_LAYERS
      modifies this`top, vram, cells, layersAddr, layers
      ensures PicturesKept()
      ensures !old(PastTop(id, height)) ==>
                var from, to := old(layers[id].height), old(Clamped(height));
                && Valid() && layers[id].height == to && from < |old(Stack())|
                && Stack() == if from == to then old(Stack()) else Restacked(old(Stack()), id, from, to)
      ensures -1 <= height <= old(top) ==> Valid() && layers[id].height == height
      ensures height < -1 ==> Valid() && layers[id].height == -1
      ensures old(layers[id].height) < 0 && height > old(top) ==>
                Valid() && layers[id].height == old(top) + 1 && Stack() == old(Stack()) + [id]
      ensures height < 0 ==> id !in Stack()
      ensures old(PastTop(id, height)) ==>
                var s, from, x := old(Stack()), old(layers[id].height), old(layersAddr[top + 1]);
                && Arrays() && top == old(top) && from < |s| && Ids(old(layers[..]), s[from + 1..] + [x])
                && Stack() == s[..from] + (s[from + 1..] + [x])
                && (Valid() <==> x == id && NothingAbove(old(layers[..]), id, s[from + 1..], xsize, ysize))
    {
      hide StackOk, Agree, SameLook, LayerOk, Place, Restacked, NothingAbove, Assigned;
      HeightInRange(layers[..], Stack(), id);
      OnTop(Stack(), id);
      var h := height;
      if h > top + 1 { h := top + 1; }
      if h < -1 { h := -1; }
      if layers[id].height > h {
        if h >= 0 {
          Lower(id, h);
        } else {
          Hide(id);
        }
      } else if layers[id].height < h {
        if layers[id].height >= 0 {
          if h > top {
            RaisePast(id);
          } else {
            Raise(id, h);
          }
        } else {
          Show(id, h);
        }
      } else {
        SameLooks(layers[..]);
      }
      if height < 0 {
        HiddenAt(layers[..], Stack(), id);
      }
    }

    /** `layer_free`, on a layer in use or on one that was freed before. */
    method Free(id: nat)
      requires Valid() && id < MAX_LAYERS && (layers[id].flags != NO_USE || layers[id].height < 0)
      modifies this`top, vram, cells, layersAddr, layers
      ensures Valid() && layers[id].flags == NO_USE && id !in Stack()
      ensures forall i :: 0 <= i < MAX_LAYERS && i != id ==> SameLook(old(layers[i]), layers[i])
    {
      hide Agree, LayerOk, Place, Opaque, Pixel, Index, StackOk, NothingAbove, Assigned, Restacked, SameLook;
      SameLooks(layers[..]);
      if layers[id].height >= 0 {
        SetHeight(id, -1);
      }
      LookFacts(old(layers[id]), layers[id]);
      ghost var l0, s := layers[..], Stack();
      layers[id] := layers[id].(flags := NO_USE);
      assert layers[..] == l0[id := l0[id].(flags := NO_USE)];
      if l0[id].flags == NO_USE {
        UnusedAt(l0, s, id);
      } else {
        HeightInRange(l0, s, id);
        HiddenAt(l0, s, id);
        FlagKeepsAgree(l0, s, id, NO_USE, -1, xsize, ysize, cells[..], vram[..]);
      }
    }

    /** `layer_alloc`: the first slot not in use, hidden; or nothing when all are in use. */
    method Alloc() returns (id: int)
      requires Valid()
      modifies layers
      ensures Valid() && Stack() == old(Stack())
      ensures id == -1 ==> forall i :: 0 <= i < MAX_LAYERS ==> layers[i].flags != NO_USE && layers[i] == old(layers[i])
      ensures id != -1 ==>
                && 0 <= id < MAX_LAYERS && old(layers[id].flags) == NO_USE
                && layers[id] == old(layers[id]).(flags := IN_USE, height := -1)
                && (forall i :: 0 <= i < id ==> old(layers[i].flags) != NO_USE)
                && (forall i :: 0 <= i < MAX_LAYERS && i != id ==> layers[i] == old(layers[i]))
    {
      hide Agree, LayerOk, Place, Opaque, Pixel, Index;
      for i := 0 to 64
        invariant layers[..] == old(layers[..])
        invariant forall j :: 0 <= j < i ==> layers[j].flags != NO_USE
      {
        if layers[i].flags == NO_USE {
          ghost var l0, s := layers[..], Stack();
          UnusedAt(l0, s, i);
          layers[i] := layers[i].(flags := IN_USE, height := -1);
          assert layers[..] == l0[i := l0[i].(flags := IN_USE, height := -1)];
          FlagKeepsAgree(l0, s, i, IN_USE, -1, xsize, ysize, cells[..], vram[..]);
          return i;
        }
      }
      return -1;
    }

    /** `layer_move`: the picture goes to a new place; a shown layer is repainted in four passes. */
    method Move(id: nat, vx0: int, vy0: int)
      requires Valid() && id < MAX_LAYERS && layers[id].flags != NO_USE
      modifies vram, cells, layers
      ensures Valid() && Stack() == old(Stack())
      ensures layers[..] == old(layers[..])[id := old(layers[id]).(vx0 := vx0, vy0 := vy0)]
    {
      hide StackOk, Agree, MapRefreshed, AreaRefreshed, SameLook, LayerOk, Opaque, Pixel, Place, Index, Around,
           Restacked, Ids, Distinct;
      ghost var l0, s, cells0, vram0 := layers[..], Stack(), cells[..], vram[..];
      var from := Place(layers[id]);
      HeightInRange(l0, s, id);
      layers[id] := layers[id].(vx0 := vx0, vy0 := vy0);
      ghost var l1 := layers[..];
      assert l1 == l0[id := l0[id].(vx0 := vx0, vy0 := vy0)];
      PlaceKeepsStack(l0, s, id, vx0, vy0);
      if layers[id].height >= 0 {
        StackFacts(l1, s);
        assert forall h :: 0 <= h <= top ==> layersAddr[h] == s[h];
        RefreshMap(from, 0);
        ghost var cells1 := cells[..];
        RefreshMap(Place(layers[id]), layers[id].height);
        RefreshArea(from, 0, layers[id].height - 1, s);
        ghost var vram1 := vram[..];
        RefreshArea(Place(layers[id]), layers[id].height, layers[id].height, s);
        MoveRepairs(l0, l1, s, id, xsize, ysize, cells0, cells1, cells[..], vram0, vram1, vram[..]);
      } else {
        HiddenAt(l0, s, id);
        AgreeWithout(l0, l1, s, id, xsize, ysize, cells[..], vram[..]);
      }
    }

    /** `layer_refresh`: the screen is right afterwards exactly when all that was stale is colours of this
        layer, inside the given part, as after its owner has drawn there without changing which pixels are
        opaque. */
    method Refresh(id: nat, bx0: int, by0: int, bx1: int, by1: int)
      requires Shape() && id < MAX_LAYERS && layers[id].flags != NO_USE
      modifies vram
      ensures Shape() && Stack() == old(Stack())
      ensures Valid() <==>
                AgreeBut(layers[..], Stack(), id,
                         Rect(layers[id].vx0 + bx0, layers[id].vy0 + by0, layers[id].vx0 + bx1, layers[id].vy0 + by1),
                         xsize, ysize, cells[..], old(vram[..]))
    {
      hide Agree, AgreeBut, AreaRefreshed, LayerOk, Opaque, Pixel, Place, Index, StackOk;
      var l := layers[id];
      var r := Rect(l.vx0 + bx0, l.vy0 + by0, l.vx0 + bx1, l.vy0 + by1);
      ghost var vram0 := vram[..];
      HeightInRange(layers[..], Stack(), id);
      if l.height >= 0 {
        ShownAt(layers[..], Stack(), id);
        StackFacts(layers[..], Stack());
        assert layersAddr[l.height] == Stack()[l.height];
        RefreshArea(r, l.height, l.height, Stack());
        AgreeAfterRefresh(layers[..], Stack(), id, l.height, r, xsize, ysize, cells[..], vram0, vram[..]);
      } else {
        HiddenAt(layers[..], Stack(), id);
        StackFacts(layers[..], Stack());
        AgreeButHidden(layers[..], Stack(), id, r, xsize, ysize, cells[..], vram[..]);
      }
    }
  }
}
