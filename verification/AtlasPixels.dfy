/** Where the bytes of a picture are in the pixel buffer of src/atlas.c, pixel by pixel. */
module AtlasPixels {
  import opened AtlasTree
  import opened AtlasSurface
  import opened Text

  /** Where the bytes of a pixel are in a buffer of rows. */
  function Offset(ps: nat, width: nat, px: nat, py: nat, b: nat): nat {
    ps * (width * py + px) + b
  }

  lemma OffsetIs(ps: nat, width: nat, px: nat, py: nat, b: nat)
    ensures Offset(ps, width, px, py, b) == py * (ps * width) + (ps * px + b)
  {
    assert ps * (width * py + px) == ps * (width * py) + ps * px;
    assert ps * (width * py) == py * (ps * width);
  }

  lemma OffsetInPicture(c: Canvas, pic: Picture, px: nat, py: nat, b: nat)
    requires px < pic.w && py < pic.h && b < c.ps
    ensures Covers(c, pic, pic.y + py, c.ps * (pic.x + px) + b)
    ensures ByteOf(c, pic, pic.y + py, c.ps * (pic.x + px) + b) == Peek(pic.data, Offset(c.ps, pic.w, px, py, b))
  {
    PixelCovered(c, pic, pic.x + px, pic.y + py, b);
    assert c.ps * (pic.x + px) == c.ps * pic.x + c.ps * px;
    OffsetIs(c.ps, pic.w, px, py, b);
  }

  /** Pixel by pixel, in the two buffers: what is behind px and py in the data of a picture is as far behind its
      corner on the surface. */
  lemma PixelIntact(c: Canvas, mem: seq<Byte>, pics: seq<Picture>, reserved: seq<Rect>, k: nat, px: nat, py: nat, b: nat)
    requires Shows(c, mem, pics) && Reserves(pics, reserved) && k < |pics| && b < c.ps
    requires forall i, j :: 0 <= i < j < |reserved| ==> Disjoint(reserved[i], reserved[j])
    requires Inside(reserved[k], Rect(0, 0, c.width, c.height)) && px < pics[k].w && py < pics[k].h
    ensures Peek(mem, c.ps * (c.width * (pics[k].y + py) + pics[k].x + px) + b) ==
            Peek(pics[k].data, c.ps * (pics[k].w * py + px) + b)
  {
    var pic := pics[k];
    PictureIntact(c, mem, pics, reserved, k, pic.x + px, pic.y + py, b);
    OffsetInPicture(c, pic, px, py, b);
    OffsetIs(c.ps, c.width, pic.x + px, pic.y + py, b);
  }
}
