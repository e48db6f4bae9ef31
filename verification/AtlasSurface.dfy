/** The pixel buffer of src/atlas.c as a canvas of byte rows, and what a copied picture does to it. */
module AtlasSurface {
  import opened Text
  import opened AtlasTree

  /** ps is the number of bytes in a pixel, 0 when the pixel format is not one of the known ones. */
  datatype Canvas = Canvas(width: nat, height: nat, ps: nat)

  datatype Picture = Picture(x: nat, y: nat, w: nat, h: nat, data: seq<Byte>)

  function Stride(c: Canvas): nat {
    c.ps * c.width
  }

  function Peek(mem: seq<Byte>, i: nat): Byte {
    if i < |mem| then mem[i] else 0
  }

  /** The byte in a row and byte column of the canvas. */
  function At(c: Canvas, mem: seq<Byte>, row: nat, col: nat): Byte {
    Peek(mem, row * Stride(c) + col)
  }

  predicate Covers(c: Canvas, pic: Picture, row: nat, col: nat) {
    pic.y <= row < pic.y + pic.h && c.ps * pic.x <= col < c.ps * pic.x + c.ps * pic.w
  }

  /** The byte a picture brings to a place it covers. */
  function ByteOf(c: Canvas, pic: Picture, row: nat, col: nat): Byte
    requires Covers(c, pic, row, col)
  {
    Peek(pic.data, (row - pic.y) * (c.ps * pic.w) + (col - c.ps * pic.x))
  }

  /** mem' is mem with the picture painted over it. */
  ghost predicate Painted(c: Canvas, mem: seq<Byte>, mem': seq<Byte>, pic: Picture) {
    |mem'| == |mem| &&
    forall row, col {:trigger At(c, mem', row, col)} :: 0 <= row < c.height && 0 <= col < Stride(c) ==>
      At(c, mem', row, col) == if Covers(c, pic, row, col) then ByteOf(c, pic, row, col) else At(c, mem, row, col)
  }

  /** What should be seen: the latest picture that covers the place, and nothing where there is none. */
  function Expected(c: Canvas, pics: seq<Picture>, row: nat, col: nat): Byte {
    if pics == [] then 0
    else
      var last := pics[|pics| - 1];
      if Covers(c, last, row, col) then ByteOf(c, last, row, col) else Expected(c, pics[..|pics| - 1], row, col)
  }

  ghost predicate Shows(c: Canvas, mem: seq<Byte>, pics: seq<Picture>) {
    forall row, col {:trigger At(c, mem, row, col)} :: 0 <= row < c.height && 0 <= col < Stride(c) ==>
      At(c, mem, row, col) == Expected(c, pics, row, col)
  }

  /** Each picture sits in its own reserved rectangle, one pixel larger on two sides. */
  ghost predicate Reserves(pics: seq<Picture>, reserved: seq<Rect>) {
    |pics| == |reserved| &&
    forall i :: 0 <= i < |pics| ==> reserved[i] == Rect(pics[i].x, pics[i].y, pics[i].w + 1, pics[i].h + 1)
  }

  lemma PaintShows(c: Canvas, mem: seq<Byte>, mem': seq<Byte>, pics: seq<Picture>, pic: Picture)
    requires Shows(c, mem, pics) && Painted(c, mem, mem', pic)
    ensures Shows(c, mem', pics + [pic])
  {
    assert (pics + [pic])[..|pics|] == pics;
    forall row, col | 0 <= row < c.height && 0 <= col < Stride(c)
      ensures At(c, mem', row, col) == Expected(c, pics + [pic], row, col)
    {
      assert At(c, mem, row, col) == Expected(c, pics, row, col);
    }
  }

  lemma TimesOrder(ps: nat, a: int, b: int)
    requires a <= b
    ensures ps * a <= ps * b
  {
  }

  lemma CoversApart(c: Canvas, a: Picture, b: Picture, row: nat, col: nat)
    requires Disjoint(Rect(a.x, a.y, a.w + 1, a.h + 1), Rect(b.x, b.y, b.w + 1, b.h + 1))
    ensures !(Covers(c, a, row, col) && Covers(c, b, row, col))
  {
    if a.x + a.w + 1 <= b.x { TimesOrder(c.ps, a.x + a.w, b.x); }
    if b.x + b.w + 1 <= a.x { TimesOrder(c.ps, b.x + b.w, a.x); }
    assert c.ps * (a.x + a.w) == c.ps * a.x + c.ps * a.w;
    assert c.ps * (b.x + b.w) == c.ps * b.x + c.ps * b.w;
  }

  /** No picture is ever damaged by another: wherever one was placed, its own bytes are what is seen. */
  lemma {:induction false} NothingDamaged(c: Canvas, pics: seq<Picture>, reserved: seq<Rect>, k: nat, row: nat, col: nat)
    requires Reserves(pics, reserved) && k < |pics| && Covers(c, pics[k], row, col)
    requires forall i, j :: 0 <= i < j < |reserved| ==> Disjoint(reserved[i], reserved[j])
    ensures Expected(c, pics, row, col) == ByteOf(c, pics[k], row, col)
    decreases |pics|
  {
    var n := |pics| - 1;
    if k < n {
      assert Disjoint(reserved[k], reserved[n]);
      CoversApart(c, pics[k], pics[n], row, col);
      NothingDamaged(c, pics[..n], reserved[..n], k, row, col);
    }
  }

  /** Everything else, the one-pixel gutters included, is still zero. */
  lemma {:induction false} ElsewhereZero(c: Canvas, pics: seq<Picture>, row: nat, col: nat)
    requires forall k :: 0 <= k < |pics| ==> !Covers(c, pics[k], row, col)
    ensures Expected(c, pics, row, col) == 0
    decreases |pics|
  {
    if pics != [] { ElsewhereZero(c, pics[..|pics| - 1], row, col); }
  }

  /** No picture, its own or another, reaches into the gutter of a reserved rectangle. */
  lemma GutterUncovered(c: Canvas, pics: seq<Picture>, reserved: seq<Rect>, i: nat, k: nat, px: nat, row: nat, b: nat)
    requires Reserves(pics, reserved) && i < |pics| && k < |pics| && b < c.ps
    requires forall i, j :: 0 <= i < j < |reserved| ==> Disjoint(reserved[i], reserved[j])
    requires pics[i].x <= px <= pics[i].x + pics[i].w && pics[i].y <= row <= pics[i].y + pics[i].h
    requires px == pics[i].x + pics[i].w || row == pics[i].y + pics[i].h
    ensures !Covers(c, pics[k], row, c.ps * px + b)
  {
    var a, q := pics[i], pics[k];
    if i == k {
      assert c.ps * (a.x + a.w) == c.ps * a.x + c.ps * a.w;
    } else {
      var first, second := if i < k then i else k, if i < k then k else i;
      assert Disjoint(reserved[first], reserved[second]);
      if px + 1 <= q.x { TimesOrder(c.ps, px + 1, q.x); }
      if q.x + q.w + 1 <= px { TimesOrder(c.ps, q.x + q.w, px); }
      assert c.ps * (px + 1) == c.ps * px + c.ps;
      assert c.ps * (q.x + q.w) == c.ps * q.x + c.ps * q.w;
    }
  }

  lemma PixelOnCanvas(c: Canvas, px: nat, b: nat)
    requires px < c.width && b < c.ps
    ensures c.ps * px + b < Stride(c)
  {
    TimesOrder(c.ps, px + 1, c.width);
    assert c.ps * (px + 1) == c.ps * px + c.ps;
  }

  lemma PixelCovered(c: Canvas, pic: Picture, px: nat, row: nat, b: nat)
    requires pic.x <= px < pic.x + pic.w && pic.y <= row < pic.y + pic.h && b < c.ps
    ensures Covers(c, pic, row, c.ps * px + b)
  {
    TimesOrder(c.ps, pic.x, px);
    TimesOrder(c.ps, px + 1, pic.x + pic.w);
    assert c.ps * (px + 1) == c.ps * px + c.ps;
    assert c.ps * (pic.x + pic.w) == c.ps * pic.x + c.ps * pic.w;
  }

  /** What is seen at a place of the canvas. */
  lemma SeenAt(c: Canvas, mem: seq<Byte>, pics: seq<Picture>, row: nat, col: nat)
    requires Shows(c, mem, pics) && row < c.height && col < Stride(c)
    ensures At(c, mem, row, col) == Expected(c, pics, row, col)
  {
  }

  /** On a canvas that shows the pictures of disjoint reservations, each picture is there byte for byte
      and its gutter is still zero. */
  lemma PictureIntact(c: Canvas, mem: seq<Byte>, pics: seq<Picture>, reserved: seq<Rect>, k: nat, px: nat, row: nat, b: nat)
    requires Shows(c, mem, pics) && Reserves(pics, reserved) && k < |pics| && b < c.ps
    requires forall i, j :: 0 <= i < j < |reserved| ==> Disjoint(reserved[i], reserved[j])
    requires Inside(reserved[k], Rect(0, 0, c.width, c.height))
    requires pics[k].x <= px <= pics[k].x + pics[k].w && pics[k].y <= row <= pics[k].y + pics[k].h
    ensures var seen := At(c, mem, row, c.ps * px + b);
            if px < pics[k].x + pics[k].w && row < pics[k].y + pics[k].h
            then Covers(c, pics[k], row, c.ps * px + b) && seen == ByteOf(c, pics[k], row, c.ps * px + b)
            else seen == 0
  {
    var pic, col := pics[k], c.ps * px + b;
    PixelOnCanvas(c, px, b);
    SeenAt(c, mem, pics, row, col);
    if px < pic.x + pic.w && row < pic.y + pic.h {
      PixelCovered(c, pic, px, row, b);
      NothingDamaged(c, pics, reserved, k, row, col);
    } else {
      forall i | 0 <= i < |pics| ensures !Covers(c, pics[i], row, col) {
        GutterUncovered(c, pics, reserved, k, i, px, row, b);
      }
      ElsewhereZero(c, pics, row, col);
    }
  }

  // ----- the row loop ---------------------------------------------------------------------------

  lemma NothingPainted(c: Canvas, mem: seq<Byte>, pic: Picture)
    requires c.ps == 0 || pic.h == 0
    ensures Painted(c, mem, mem, pic)
  {
  }

  lemma StartOfPicture(c: Canvas, x: nat, y: nat)
    ensures c.ps * (y * c.width + x) == y * Stride(c) + c.ps * x
  {
    assert c.ps * (y * c.width + x) == c.ps * (y * c.width) + c.ps * x;
    assert c.ps * (y * c.width) == y * (c.ps * c.width);
  }

  lemma NextRow(c: Canvas, pic: Picture, row: nat)
    ensures (pic.y + row) * Stride(c) + c.ps * c.width == (pic.y + (row + 1)) * Stride(c)
    ensures row * (c.ps * pic.w) + c.ps * pic.w == (row + 1) * (c.ps * pic.w)
  {
  }

  lemma RowInBounds(c: Canvas, pic: Picture, row: nat)
    requires pic.x + pic.w <= c.width && pic.y + pic.h <= c.height && row < pic.h
    ensures c.ps * pic.x + c.ps * pic.w <= Stride(c)
    ensures (pic.y + row) * Stride(c) + c.ps * pic.x + c.ps * pic.w <= Stride(c) * c.height
    ensures row * (c.ps * pic.w) + pic.w * c.ps <= pic.h * (c.ps * pic.w)
    ensures pic.w * c.ps == c.ps * pic.w
  {
    TimesOrder(c.ps, pic.x + pic.w, c.width);
    assert c.ps * (pic.x + pic.w) == c.ps * pic.x + c.ps * pic.w;
    TimesOrder(Stride(c), pic.y + row + 1, c.height);
    assert (pic.y + row) * Stride(c) + Stride(c) == Stride(c) * (pic.y + row + 1);
    TimesOrder(c.ps * pic.w, row + 1, pic.h);
    assert row * (c.ps * pic.w) + c.ps * pic.w == (c.ps * pic.w) * (row + 1);
  }

  /** A run of n bytes inside one canvas row is met only by that row and those columns. */
  lemma RowIndex(stride: nat, r: nat, left: nat, n: nat, row: nat, col: nat)
    requires left + n <= stride && col < stride
    ensures (r * stride + left <= row * stride + col < r * stride + left + n) <==>
            (row == r && left <= col < left + n)
  {
    if row < r {
      TimesOrder(stride, row + 1, r);
      assert (row + 1) * stride == row * stride + stride;
    } else if row > r {
      TimesOrder(stride, r + 1, row);
      assert (r + 1) * stride == r * stride + stride;
    }
  }

  lemma CellInBounds(stride: nat, height: nat, r: nat, col: nat)
    requires r < height && col < stride
    ensures r * stride + col < stride * height
  {
    TimesOrder(stride, r + 1, height);
    assert (r + 1) * stride == r * stride + stride;
  }

  /** The run of the new row, cell by cell. */
  lemma PaintCell(c: Canvas, half: seq<Byte>, mem': seq<Byte>, pic: Picture, row: nat, r: nat, col: nat)
    requires pic.x + pic.w <= c.width && pic.y + pic.h <= c.height && row < pic.h
    requires r < c.height && col < Stride(c) && Stride(c) * c.height <= |half| == |mem'|
    requires var from: nat := row * (c.ps * pic.w);
             var to, n := (pic.y + row) * Stride(c) + c.ps * pic.x, c.ps * pic.w;
             forall i {:trigger mem'[i]} :: 0 <= i < |mem'| ==>
               mem'[i] == if to <= i < to + n then Peek(pic.data, from + (i - to)) else half[i]
    ensures At(c, mem', r, col) ==
            if r == pic.y + row && c.ps * pic.x <= col < c.ps * pic.x + c.ps * pic.w
            then var from: nat := row * (c.ps * pic.w); Peek(pic.data, from + (col - c.ps * pic.x)) else At(c, half, r, col)
  {
    RowInBounds(c, pic, row);
    RowIndex(Stride(c), pic.y + row, c.ps * pic.x, c.ps * pic.w, r, col);
    CellInBounds(Stride(c), c.height, r, col);
    var cell := mem'[r * Stride(c) + col];
  }

  /** One more row of the picture is on the canvas. */
  lemma PaintRow(c: Canvas, mem: seq<Byte>, half: seq<Byte>, mem': seq<Byte>, pic: Picture, row: nat)
    requires pic.x + pic.w <= c.width && pic.y + pic.h <= c.height && row < pic.h
    requires |mem| >= Stride(c) * c.height && |pic.data| >= pic.h * (c.ps * pic.w)
    requires Painted(c, mem, half, pic.(h := row)) && |mem'| == |half|
    requires var to, from, n := (pic.y + row) * Stride(c) + c.ps * pic.x, row * (c.ps * pic.w), c.ps * pic.w;
             forall i {:trigger mem'[i]} :: 0 <= i < |mem'| ==>
               mem'[i] == if to <= i < to + n then Peek(pic.data, from + i - to) else half[i]
    ensures Painted(c, mem, mem', pic.(h := row + 1))
  {
    RowInBounds(c, pic, row);
    forall r, col | 0 <= r < c.height && 0 <= col < Stride(c)
      ensures At(c, mem', r, col) == if Covers(c, pic.(h := row + 1), r, col)
                                     then ByteOf(c, pic.(h := row + 1), r, col) else At(c, mem, r, col)
    {
      PaintCell(c, half, mem', pic, row, r, col);
      assert At(c, half, r, col) == if Covers(c, pic.(h := row), r, col)
                                    then ByteOf(c, pic.(h := row), r, col) else At(c, mem, r, col);
    }
  }
}
