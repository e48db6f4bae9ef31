/** The split tree of src/atlas.c as a value: where a placement goes, when it fails, and what every
    run of placements keeps. */
module AtlasTree {
  import opened Wrappers

  datatype Rect = Rect(x: int, y: int, w: int, h: int)

  predicate Inside(a: Rect, b: Rect) {
    b.x <= a.x && a.x + a.w <= b.x + b.w && b.y <= a.y && a.y + a.h <= b.y + b.h
  }

  predicate Disjoint(a: Rect, b: Rect) {
    a.x + a.w <= b.x || b.x + b.w <= a.x || a.y + a.h <= b.y || b.y + b.h <= a.y
  }

  predicate Fits(r: Rect, w: nat, h: nat) {
    r.w >= w && r.h >= h
  }

  function Area(r: Rect): int {
    r.w * r.h
  }

  /** A node: free, or handed out (its top left corner `taken`) with the rest split between two leaves. */
  datatype Tree = Free(r: Rect) | Used(r: Rect, taken: Rect, leaf1: Tree, leaf2: Tree)

  /** The wider piece is also made the longer one. */
  function Split(r: Rect, w: nat, h: nat): (Rect, Rect) {
    var dx, dy := r.w - w, r.h - h;
    if dx < dy then (Rect(r.x + w, r.y, dx, h), Rect(r.x, r.y + h, r.w, dy))
    else (Rect(r.x, r.y + h, w, dy), Rect(r.x + w, r.y, dx, r.h))
  }

  /** allocPlace: the tree afterwards and the rectangle handed out. */
  function Place(t: Tree, w: nat, h: nat): Option<(Tree, Rect)> {
    if !Fits(t.r, w, h) then None
    else
      match t
      case Free(r) =>
        var taken := Rect(r.x, r.y, w, h);
        var (a, b) := Split(r, w, h);
        Some((Used(r, taken, Free(a), Free(b)), taken))
      case Used(r, taken, leaf1, leaf2) =>
        match Place(leaf1, w, h)
        case Some((t1, q)) => Some((Used(r, taken, t1, leaf2), q))
        case None =>
          match Place(leaf2, w, h)
          case Some((t2, q)) => Some((Used(r, taken, leaf1, t2), q))
          case None => None
  }

  ghost predicate WellFormed(t: Tree) {
    t.r.w >= 0 && t.r.h >= 0 &&
    match t
    case Free(_) => true
    case Used(r, taken, leaf1, leaf2) =>
      && taken.x == r.x && taken.y == r.y && 0 <= taken.w <= r.w && 0 <= taken.h <= r.h
      && (leaf1.r, leaf2.r) == Split(r, taken.w, taken.h)
      && WellFormed(leaf1) && WellFormed(leaf2)
  }

  /** The free leaves, anywhere in the tree. */
  function FreeLeaves(t: Tree): seq<Rect> {
    match t
    case Free(r) => [r]
    case Used(_, _, leaf1, leaf2) => FreeLeaves(leaf1) + FreeLeaves(leaf2)
  }

  function FreeArea(t: Tree): int {
    match t
    case Free(r) => Area(r)
    case Used(_, _, leaf1, leaf2) => FreeArea(leaf1) + FreeArea(leaf2)
  }

  /** Every free leaf is clear of q. */
  ghost predicate Avoids(t: Tree, q: Rect) {
    forall r :: r in FreeLeaves(t) ==> Disjoint(r, q)
  }

  lemma {:induction false} LeavesInside(t: Tree, r: Rect)
    requires WellFormed(t) && r in FreeLeaves(t)
    ensures Inside(r, t.r)
  {
    if t.Used? {
      if r in FreeLeaves(t.leaf1) { LeavesInside(t.leaf1, r); } else { LeavesInside(t.leaf2, r); }
    }
  }

  /** A placement fails exactly when no free leaf anywhere is large enough: the size test at an
      interior node, whose own top left corner is long gone, never prunes a leaf that would do. */
  lemma {:induction false} PlaceFailsIff(t: Tree, w: nat, h: nat)
    requires WellFormed(t)
    ensures Place(t, w, h).None? <==> forall r :: r in FreeLeaves(t) ==> !Fits(r, w, h)
  {
    match t
    case Free(r) =>
      assert r in FreeLeaves(t);
    case Used(r, taken, leaf1, leaf2) =>
      PlaceFailsIff(leaf1, w, h);
      PlaceFailsIff(leaf2, w, h);
      assert forall q :: q in FreeLeaves(t) <==> q in FreeLeaves(leaf1) || q in FreeLeaves(leaf2);
      if !Fits(r, w, h) {
        forall q | q in FreeLeaves(t) ensures !Fits(q, w, h) { LeavesInside(t, q); }
      }
  }

  /** A placement keeps the tree well formed and its outline, and hands out a corner of a free leaf. */
  lemma {:induction false} PlaceKeeps(t: Tree, w: nat, h: nat)
    requires WellFormed(t) && Place(t, w, h).Some?
    ensures var (t', q) := Place(t, w, h).value;
            WellFormed(t') && t'.r == t.r && q.w == w && q.h == h && Inside(q, t.r)
  {
    if t.Used? {
      if Place(t.leaf1, w, h).Some? { PlaceKeeps(t.leaf1, w, h); } else { PlaceKeeps(t.leaf2, w, h); }
    }
  }

  /** What was clear of the free leaves is clear of the new rectangle and stays clear of the leaves. */
  lemma {:induction false} PlaceAvoids(t: Tree, w: nat, h: nat, q: Rect)
    requires WellFormed(t) && Place(t, w, h).Some? && Avoids(t, q)
    ensures var (t', new') := Place(t, w, h).value; Disjoint(new', q) && Avoids(t', q)
  {
    match t
    case Free(r) =>
      assert r in FreeLeaves(t);
      var (a, b) := Split(r, w, h);
      assert FreeLeaves(Place(t, w, h).value.0) == [a] + [b];
    case Used(r, taken, leaf1, leaf2) =>
      assert forall s :: s in FreeLeaves(leaf1) || s in FreeLeaves(leaf2) ==> s in FreeLeaves(t);
      if Place(leaf1, w, h).Some? { PlaceAvoids(leaf1, w, h, q); } else { PlaceAvoids(leaf2, w, h, q); }
  }

  // ----- what is left of a leaf -----------------------------------------------------------------

  /** Where the first leaf is that is large enough, or |rs|. */
  function FirstFitAt(rs: seq<Rect>, w: nat, h: nat): (i: nat)
    ensures i <= |rs|
    ensures i < |rs| ==> rs[i].w >= w && rs[i].h >= h
    ensures forall j :: 0 <= j < i ==> rs[j].w < w || rs[j].h < h
  {
    if rs == [] || Fits(rs[0], w, h) then 0 else FirstFitAt(rs[1..], w, h) + 1
  }

  lemma {:induction false} FirstFitAtSplits(a: seq<Rect>, b: seq<Rect>, w: nat, h: nat)
    ensures FirstFitAt(a + b, w, h) ==
            if FirstFitAt(a, w, h) < |a| then FirstFitAt(a, w, h) else |a| + FirstFitAt(b, w, h)
  {
    if a == [] {
      assert a + b == b;
    } else {
      assert (a + b)[1..] == a[1..] + b;
      FirstFitAtSplits(a[1..], b, w, h);
    }
  }

  function Replaced(rs: seq<Rect>, i: nat, more: seq<Rect>): seq<Rect>
    requires i < |rs|
  {
    rs[..i] + more + rs[i + 1..]
  }

  lemma ReplacedIn(a: seq<Rect>, b: seq<Rect>, i: nat, more: seq<Rect>)
    requires i < |a| + |b|
    ensures Replaced(a + b, i, more) == if i < |a| then Replaced(a, i, more) + b else a + Replaced(b, i - |a|, more)
  {
  }

  /** The two strips of a leaf behind its top left corner. The one along the longer rest is as long as the leaf,
      and comes last. */
  predicate Strips(r: Rect, w: nat, h: nat, more: seq<Rect>) {
    var right, below := r.w - w, r.h - h;
    && |more| == 2
    && (right >= below ==> more[0] == Rect(r.x, r.y + h, w, below) && more[1] == Rect(r.x + w, r.y, right, r.h))
    && (right < below ==> more[0] == Rect(r.x + w, r.y, right, h) && more[1] == Rect(r.x, r.y + h, r.w, below))
  }

  /** A placement replaces the first leaf that is large enough by its two strips, and no other leaf. */
  lemma {:induction false} PlaceLeavesStrips(t: Tree, w: nat, h: nat) returns (more: seq<Rect>)
    requires WellFormed(t) && Place(t, w, h).Some?
    ensures var i, rs := FirstFitAt(FreeLeaves(t), w, h), FreeLeaves(t);
            && i < |rs| && Strips(rs[i], w, h, more)
            && FreeLeaves(Place(t, w, h).value.0) == Replaced(rs, i, more)
            && Place(t, w, h).value.1 == Rect(rs[i].x, rs[i].y, w, h)
  {
    match t
    case Free(r) =>
      var (a, b) := Split(r, w, h);
      more := [a] + [b];
      assert Replaced([r], 0, more) == more;
    case Used(r, taken, leaf1, leaf2) =>
      var rs1, rs2 := FreeLeaves(leaf1), FreeLeaves(leaf2);
      FirstFitAtSplits(rs1, rs2, w, h);
      if Place(leaf1, w, h).Some? {
        more := PlaceLeavesStrips(leaf1, w, h);
      } else {
        PlaceFailsIff(leaf1, w, h);
        more := PlaceLeavesStrips(leaf2, w, h);
        assert FirstFitAt(rs1, w, h) == |rs1| by { assert forall j :: 0 <= j < |rs1| ==> !Fits(rs1[j], w, h); }
      }
      ReplacedIn(rs1, rs2, FirstFitAt(rs1 + rs2, w, h), more);
  }

  /** A placement takes the corner of the first free leaf, in tree order, that is large enough. */
  lemma PlaceIsFirstFit(t: Tree, w: nat, h: nat)
    requires WellFormed(t) && Place(t, w, h).Some?
    ensures var rs, i := FreeLeaves(t), FirstFitAt(FreeLeaves(t), w, h);
            i < |rs| && Place(t, w, h).value.1 == Rect(rs[i].x, rs[i].y, w, h)
  {
    var _ := PlaceLeavesStrips(t, w, h);
  }

  /** The first leaf that is large enough, and the strip of it that is as long as the leaf. */
  ghost predicate LongStripFits(rs: seq<Rect>, w: nat, h: nat, w2: nat, h2: nat) {
    var i := FirstFitAt(rs, w, h);
    i < |rs| &&
    var right, below := rs[i].w - w, rs[i].h - h;
    if right >= below then w2 <= right && h2 <= rs[i].h else w2 <= rs[i].w && h2 <= below
  }

  /** So the next placement can have anything that fits the long strip. */
  lemma LongStripIsFree(t: Tree, w: nat, h: nat, w2: nat, h2: nat)
    requires WellFormed(t) && LongStripFits(FreeLeaves(t), w, h, w2, h2)
    ensures Place(t, w, h).Some? && Place(Place(t, w, h).value.0, w2, h2).Some?
  {
    var i, rs := FirstFitAt(FreeLeaves(t), w, h), FreeLeaves(t);
    assert rs[i] in rs && Fits(rs[i], w, h);
    PlaceFailsIff(t, w, h);
    var more := PlaceLeavesStrips(t, w, h);
    var t' := Place(t, w, h).value.0;
    assert Replaced(rs, i, more)[i + 1] == more[1];
    assert more[1] in FreeLeaves(t') && Fits(more[1], w2, h2);
    PlaceKeeps(t, w, h);
    PlaceFailsIff(t', w2, h2);
  }

  lemma SiblingsDisjoint(t: Tree, q: Rect, first: bool)
    requires WellFormed(t) && t.Used? && Inside(q, if first then t.leaf1.r else t.leaf2.r)
    requires q.w >= 0 && q.h >= 0
    ensures Avoids(if first then t.leaf2 else t.leaf1, q)
  {
    var other := if first then t.leaf2 else t.leaf1;
    forall r | r in FreeLeaves(other) ensures Disjoint(r, q) { LeavesInside(other, r); }
  }

  /** The leaves left over are clear of the rectangle just handed out. */
  lemma {:induction false} PlaceAvoidsOwn(t: Tree, w: nat, h: nat)
    requires WellFormed(t) && Place(t, w, h).Some?
    ensures var (t', q) := Place(t, w, h).value; Avoids(t', q)
  {
    match t
    case Free(r) =>
      var (a, b) := Split(r, w, h);
      assert FreeLeaves(Place(t, w, h).value.0) == [a] + [b];
    case Used(r, taken, leaf1, leaf2) =>
      var first := Place(leaf1, w, h).Some?;
      var leaf := if first then leaf1 else leaf2;
      PlaceAvoidsOwn(leaf, w, h);
      PlaceKeeps(leaf, w, h);
      SiblingsDisjoint(t, Place(leaf, w, h).value.1, first);
  }

  lemma SplitArea(r: Rect, w: nat, h: nat)
    ensures var (a, b) := Split(r, w, h); Area(a) + Area(b) + w * h == Area(r)
  {
    var dx, dy := r.w - w, r.h - h;
    assert r.w * r.h == (w + dx) * (h + dy) == w * h + w * dy + dx * h + dx * dy;
    assert r.w * dy == w * dy + dx * dy;
    assert dx * r.h == dx * h + dx * dy;
  }

  /** Area is handed from the free leaves to the new rectangle, none is lost. */
  lemma {:induction false} PlaceMovesArea(t: Tree, w: nat, h: nat)
    requires Place(t, w, h).Some?
    ensures var (t', q) := Place(t, w, h).value; FreeArea(t') + Area(q) == FreeArea(t)
  {
    match t
    case Free(r) => SplitArea(r, w, h);
    case Used(r, taken, leaf1, leaf2) =>
      if Place(leaf1, w, h).Some? { PlaceMovesArea(leaf1, w, h); } else { PlaceMovesArea(leaf2, w, h); }
  }

  // ----- runs -----------------------------------------------------------------------------------

  datatype Packing = Packing(tree: Tree, placed: seq<Rect>)

  function SumArea(rs: seq<Rect>): int {
    if rs == [] then 0 else SumArea(rs[..|rs| - 1]) + Area(rs[|rs| - 1])
  }

  /** What every run keeps: the rectangles handed out so far lie inside the atlas, apart from each
      other and from every free leaf, and with the free leaves they make up its whole area. */
  ghost predicate Good(p: Packing, width: nat, height: nat) {
    && WellFormed(p.tree) && p.tree.r == Rect(0, 0, width, height)
    && (forall i :: 0 <= i < |p.placed| ==> Inside(p.placed[i], p.tree.r) && Avoids(p.tree, p.placed[i]))
    && (forall i, j :: 0 <= i < j < |p.placed| ==> Disjoint(p.placed[i], p.placed[j]))
    && SumArea(p.placed) + FreeArea(p.tree) == width * height
  }

  function Start(width: nat, height: nat): Packing {
    Packing(Free(Rect(0, 0, width, height)), [])
  }

  function Step(p: Packing, w: nat, h: nat): Packing {
    match Place(p.tree, w, h)
    case Some((t, q)) => Packing(t, p.placed + [q])
    case None => p
  }

  function Run(p: Packing, sizes: seq<(nat, nat)>): Packing
    decreases |sizes|
  {
    if sizes == [] then p else Run(Step(p, sizes[0].0, sizes[0].1), sizes[1..])
  }

  lemma SumAreaAppend(rs: seq<Rect>, q: Rect)
    ensures SumArea(rs + [q]) == SumArea(rs) + Area(q)
  {
    assert (rs + [q])[..|rs|] == rs;
  }

  lemma StepKeepsGood(p: Packing, w: nat, h: nat, width: nat, height: nat)
    requires Good(p, width, height)
    ensures Good(Step(p, w, h), width, height)
  {
    if Place(p.tree, w, h).Some? {
      var (t, q) := Place(p.tree, w, h).value;
      PlaceKeeps(p.tree, w, h);
      PlaceAvoidsOwn(p.tree, w, h);
      PlaceMovesArea(p.tree, w, h);
      SumAreaAppend(p.placed, q);
      forall i | 0 <= i < |p.placed| ensures Disjoint(q, p.placed[i]) && Avoids(t, p.placed[i]) {
        PlaceAvoids(p.tree, w, h, p.placed[i]);
      }
    }
  }

  lemma {:induction false} RunKeepsGood(p: Packing, sizes: seq<(nat, nat)>, width: nat, height: nat)
    requires Good(p, width, height)
    ensures Good(Run(p, sizes), width, height)
    decreases |sizes|
  {
    if sizes != [] {
      StepKeepsGood(p, sizes[0].0, sizes[0].1, width, height);
      RunKeepsGood(Step(p, sizes[0].0, sizes[0].1), sizes[1..], width, height);
    }
  }

  lemma {:induction false} RunAppend(p: Packing, sizes: seq<(nat, nat)>, w: nat, h: nat)
    ensures Run(p, sizes + [(w, h)]) == Step(Run(p, sizes), w, h)
    decreases |sizes|
  {
    var all := sizes + [(w, h)];
    if sizes == [] {
      assert all[1..] == [];
    } else {
      assert all[1..] == sizes[1..] + [(w, h)];
      RunAppend(Step(p, sizes[0].0, sizes[0].1), sizes[1..], w, h);
    }
  }

  /** Over any run: when a picture is placed in a leaf, the next one is placed too if it fits the long strip. */
  lemma NextFitsLongStrip(sizes: seq<(nat, nat)>, width: nat, height: nat, w: nat, h: nat, w2: nat, h2: nat)
    requires LongStripFits(FreeLeaves(Run(Start(width, height), sizes).tree), w, h, w2, h2)
    ensures |Run(Start(width, height), sizes + [(w, h)] + [(w2, h2)]).placed| ==
            |Run(Start(width, height), sizes).placed| + 2
  {
    var p := Run(Start(width, height), sizes);
    AnyRunIsGood(sizes, width, height);
    RunAppend(Start(width, height), sizes, w, h);
    RunAppend(Start(width, height), sizes + [(w, h)], w2, h2);
    LongStripIsFree(p.tree, w, h, w2, h2);
  }

  /** On a fresh atlas: a small picture, and one beside it that takes the rest of the height. */
  lemma SecondBesideFirst()
    ensures Run(Start(128, 128), [(10, 12), (118, 128)]).placed == [Rect(0, 0, 10, 12), Rect(10, 0, 118, 128)]
  {
    var sizes: seq<(nat, nat)> := [(10, 12), (118, 128)];
    assert sizes[1..] == [(118, 128)] && sizes[1..][1..] == [];
    var p := Step(Start(128, 128), 10, 12);
    assert Run(Start(128, 128), sizes) == Run(p, sizes[1..]) == Step(p, 118, 128);
  }

  /** Over any sequence of placements on a fresh atlas. */
  lemma AnyRunIsGood(sizes: seq<(nat, nat)>, width: nat, height: nat)
    ensures Good(Run(Start(width, height), sizes), width, height)
  {
    RunKeepsGood(Start(width, height), sizes, width, height);
  }
}
