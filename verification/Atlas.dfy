/** src/atlas.c in its own form: tree nodes that are split in place, and row copies into one
    shared pixel buffer. */
module Atlas {
  import opened Wrappers
  import opened Text
  import opened AtlasTree
  import opened AtlasSurface

  // ----- the allocation tree --------------------------------------------------------------------

  class Alloc {
    const x: int
    const y: int
    const w: int
    const h: int
    var leaf1: Alloc?
    var leaf2: Alloc?
    ghost var tree: Tree
    ghost var repr: set<object>

    ghost predicate Valid()
      reads this, repr
      decreases repr
      ensures Valid() ==> this in repr
    {
      && this in repr && tree.r == Rect(x, y, w, h)
      && match tree {
           case Free(_) => leaf1 == null && leaf2 == null
           case Used(_, _, t1, t2) =>
             && leaf1 != null && leaf1 in repr && leaf1.repr <= repr && this !in leaf1.repr
             && leaf2 != null && leaf2 in repr && leaf2.repr <= repr && this !in leaf2.repr
             && leaf1.repr !! leaf2.repr
             && leaf1.Valid() && leaf1.tree == t1
             && leaf2.Valid() && leaf2.tree == t2
         }
    }

    /** allocNew */
    constructor (x: int, y: int, w: int, h: int)
      ensures Valid() && fresh(repr) && tree == Free(Rect(x, y, w, h))
    {
      this.x, this.y, this.w, this.h := x, y, w, h;
      leaf1, leaf2 := null, null;
      tree, repr := Free(Rect(x, y, w, h)), {this};
    }

    /** The free arm of allocPlace: hand out the top left corner and split the rest. */
    method SplitOff(width: nat, height: nat)
      requires Valid() && tree.Free? && Fits(tree.r, width, height)
      modifies this
      ensures Valid() && fresh(repr - old(repr))
      ensures Place(old(tree), width, height) == Some((tree, Rect(x, y, width, height)))
    {
      var dx, dy := w - width, h - height;
      var a, b;
      if dx < dy {
        a := new Alloc(x + width, y, dx, height);
        b := new Alloc(x, y + height, w, dy);
      } else {
        a := new Alloc(x, y + height, width, dy);
        b := new Alloc(x + width, y, dx, h);
      }
      leaf1, leaf2 := a, b;
      tree := Used(tree.r, Rect(x, y, width, height), a.tree, b.tree);
      repr := repr + a.repr + b.repr;
    }

    /** One recursive call of allocPlace, on the chosen leaf. */
    method PlaceInLeaf(first: bool, width: nat, height: nat) returns (p: Alloc?)
      requires Valid() && tree.Used?
      modifies repr
      ensures Valid() && fresh(repr - old(repr))
      ensures match Place(if first then old(tree).leaf1 else old(tree).leaf2, width, height) {
                case None => p == null && tree == old(tree)
                case Some((t, q)) =>
                  && p != null && p.x == q.x && p.y == q.y
                  && tree == if first then old(tree).(leaf1 := t) else old(tree).(leaf2 := t)
              }
      decreases tree, 0
    {
      if first {
        p := leaf1.PlaceIn(width, height);
        repr, tree := repr + leaf1.repr, tree.(leaf1 := leaf1.tree);
      } else {
        p := leaf2.PlaceIn(width, height);
        repr, tree := repr + leaf2.repr, tree.(leaf2 := leaf2.tree);
      }
    }

    /** allocPlace */
    method PlaceIn(width: nat, height: nat) returns (p: Alloc?)
      requires Valid()
      modifies repr
      ensures Valid() && fresh(repr - old(repr))
      ensures match Place(old(tree), width, height) {
                case None => p == null && tree == old(tree)
                case Some((t, q)) => p != null && p.x == q.x && p.y == q.y && tree == t
              }
      decreases tree, 1
    {
      if !(w >= width && h >= height) { return null; }
      if leaf1 == null && leaf2 == null {
        SplitOff(width, height);
        return this;
      }
      p := PlaceInLeaf(true, width, height);
      if p == null {
        p := PlaceInLeaf(false, width, height);
      }
    }
  }

  // ----- the atlas ------------------------------------------------------------------------------

  /** memcpy */
  method CopyBytes(mem: array<Byte>, to: nat, src: array<Byte>, from: nat, n: nat)
    requires to + n <= mem.Length && from + n <= src.Length && mem != src
    modifies mem
    ensures forall i :: 0 <= i < mem.Length ==>
              mem[i] == if to <= i < to + n then src[from + i - to] else old(mem[i])
  {
    forall i | 0 <= i < n { mem[to + i] := src[from + i]; }
  }

  /** The body of atlasCopyData's loop: one picture row onto one canvas row. */
  method CopyRow(mem: array<Byte>, c: Canvas, x: nat, y: nat, width: nat, height: nat, surface: array<Byte>,
                 row: nat, data: nat, src: nat, ghost before: seq<Byte>)
    requires mem != surface && mem.Length >= Stride(c) * c.height && surface.Length >= height * (c.ps * width)
    requires x + width <= c.width && y + height <= c.height && row < height
    requires data == (y + row) * Stride(c) + c.ps * x && src == row * (c.ps * width)
    requires |before| == mem.Length && Painted(c, before, mem[..], Picture(x, y, width, row, surface[..]))
    modifies mem
    ensures Painted(c, before, mem[..], Picture(x, y, width, row + 1, surface[..]))
  {
    ghost var pic := Picture(x, y, width, height, surface[..]);
    RowInBounds(c, pic, row);
    ghost var half := mem[..];
    CopyBytes(mem, data, surface, src, width * c.ps);
    PaintRow(c, before, half, mem[..], pic, row);
  }

  /** atlasCopyData: row after row, the two pointers advancing by a canvas row and a picture row. */
  method CopyData(mem: array<Byte>, c: Canvas, x: nat, y: nat, width: nat, height: nat, surface: array<Byte>)
    requires mem != surface && mem.Length >= Stride(c) * c.height && surface.Length >= height * (c.ps * width)
    requires x + width <= c.width && y + height <= c.height
    modifies mem
    ensures Painted(c, old(mem[..]), mem[..], Picture(x, y, width, height, surface[..]))
  {
    ghost var before, pic := mem[..], Picture(x, y, width, height, surface[..]);
    if c.ps == 0 {
      NothingPainted(c, before, pic);
      return;
    }
    StartOfPicture(c, x, y);
    var data, src := c.ps * (y * c.width + x), 0;
    NothingPainted(c, before, pic.(h := 0));
    for row := 0 to height
      invariant data == (y + row) * Stride(c) + c.ps * x && src == row * (c.ps * width)
      invariant Painted(c, before, mem[..], Picture(x, y, width, row, surface[..]))
    {
      CopyRow(mem, c, x, y, width, height, surface, row, data, src, before);
      NextRow(c, pic, row);
      data, src := data + c.ps * c.width, src + c.ps * width;
    }
  }

  class Atlas {
    const canvas: Canvas
    const allocation: Alloc
    const mem: array<Byte>
    ghost var pictures: seq<Picture>
    ghost var reserved: seq<Rect>
    ghost var repr: set<object>

    ghost predicate Owns()
      reads this, repr
      ensures Owns() ==> this in repr
    {
      && this in repr && mem in repr && allocation in repr && allocation.repr <= repr
      && this !in allocation.repr && mem !in allocation.repr
      && allocation.Valid() && mem.Length >= Stride(canvas) * canvas.height
    }

    /** What holds between any two calls. */
    ghost predicate Valid()
      reads this, repr
      ensures Valid() ==> this in repr
    {
      && Owns()
      && Good(Packing(allocation.tree, reserved), canvas.width, canvas.height)
      && Reserves(pictures, reserved)
      && Shows(canvas, mem[..], pictures)
    }

    /** atlasNew, for a surface of txtsize bytes */
    constructor (width: nat, height: nat, ps: nat, txtsize: nat)
      requires txtsize >= ps * width * height
      ensures Valid() && fresh(repr) && canvas == Canvas(width, height, ps) && pictures == [] && reserved == []
    {
      canvas := Canvas(width, height, ps);
      var root := new Alloc(0, 0, width, height);
      allocation := root;
      mem := new Byte[txtsize](_ => 0);
      pictures, reserved := [], [];
      repr := {this, mem, root} + root.repr;
      new;
      RunKeepsGood(Start(width, height), [], width, height);
    }

    /** atlasPlace: one extra pixel to the right and below is reserved and left alone. */
    method PlacePicture(width: nat, height: nat, surface: array?<Byte>) returns (al: Alloc?)
      requires Valid()
      requires surface != null ==> surface !in repr && surface.Length >= height * (canvas.ps * width)
      modifies repr
      ensures Valid() && fresh(repr - old(repr))
      ensures al == null <==> surface == null || Place(old(allocation.tree), width + 1, height + 1).None?
      ensures al == null ==> pictures == old(pictures) && reserved == old(reserved) && mem[..] == old(mem[..])
                             && allocation.tree == old(allocation.tree)
      ensures al != null ==>
                && al.x >= 0 && al.y >= 0
                && pictures == old(pictures) + [Picture(al.x, al.y, width, height, surface[..])]
                && reserved == old(reserved) + [Rect(al.x, al.y, width + 1, height + 1)]
                && Place(old(allocation.tree), width + 1, height + 1) ==
                   Some((allocation.tree, reserved[|reserved| - 1]))
    {
      if surface == null { return null; }
      al := Reserve(width + 1, height + 1);
      if al != null { Draw(al.x, al.y, width, height, surface); }
    }

    /** The place in the tree; nothing is drawn yet. */
    method Reserve(width: nat, height: nat) returns (al: Alloc?)
      requires Valid()
      modifies allocation.repr, this`repr
      ensures Owns() && fresh(repr - old(repr)) && mem[..] == old(mem[..])
      ensures al == null <==> Place(old(allocation.tree), width, height).None?
      ensures al == null ==> allocation.tree == old(allocation.tree)
      ensures al != null ==>
                && al.x >= 0 && al.y >= 0
                && Place(old(allocation.tree), width, height) ==
                   Some((allocation.tree, Rect(al.x, al.y, width, height)))
                && Good(Packing(allocation.tree, reserved + [Rect(al.x, al.y, width, height)]), canvas.width, canvas.height)
    {
      ghost var packing := Packing(allocation.tree, reserved);
      StepKeepsGood(packing, width, height, canvas.width, canvas.height);
      al := allocation.PlaceIn(width, height);
      repr := repr + allocation.repr;
      if al != null { PlaceKeeps(packing.tree, width, height); }
    }

    /** The pixels of a placement that the tree has already made. */
    method Draw(x: nat, y: nat, width: nat, height: nat, surface: array<Byte>)
      requires Owns() && Reserves(pictures, reserved) && Shows(canvas, mem[..], pictures)
      requires Good(Packing(allocation.tree, reserved + [Rect(x, y, width + 1, height + 1)]), canvas.width, canvas.height)
      requires surface !in repr && surface.Length >= height * (canvas.ps * width)
      modifies this`pictures, this`reserved, mem
      ensures Valid()
      ensures pictures == old(pictures) + [Picture(x, y, width, height, surface[..])]
      ensures reserved == old(reserved) + [Rect(x, y, width + 1, height + 1)]
    {
      ghost var rect := Rect(x, y, width + 1, height + 1);
      assert (reserved + [rect])[|reserved|] == rect;
      ghost var pic := Picture(x, y, width, height, surface[..]);
      ghost var before := mem[..];
      CopyData(mem, canvas, x, y, width, height, surface);
      PaintShows(canvas, before, mem[..], pictures, pic);
      reserved := reserved + [rect];
      pictures := pictures + [pic];
    }
  }
}
