/** What the index of src/artindex.c answers: which calls it never looks into, and what an undisturbed first
    probe of a directory says. */
module ArtIndexAnswers {
  import opened Wrappers
  import opened Text
  import opened ArtIndexNames
  import opened ArtIndexProtocol

  // ----- the calls that are not looked into -----------------------------------------------------

  /** A call from another thread than the owner, before there is one, or with a path of another kind. */
  predicate Refused(path: string, thread: int, ownerThread: int) {
    || thread != ownerThread || ownerThread < 0 || path == ""
    || '\\' in path || (|path| >= 3 && path[0] == 's' && path[1] == 'm' && path[2] == 'b')
  }

  lemma RefusedIff(path: string, thread: int, ownerThread: int)
    ensures Refused(path, thread, ownerThread) ==> Admit(path, thread, ownerThread) == None
    ensures !Refused(path, thread, ownerThread) ==> Admit(path, thread, ownerThread) == SplitPath(path)
  {
    if StartsWith(path, "smb") { assert path[..3][0] == 's' && path[..3][1] == 'm' && path[..3][2] == 'b'; }
    if |path| >= 3 && path[0] == 's' && path[1] == 'm' && path[2] == 'b' { assert path[..3] == "smb"; }
  }

  /** Whoever may begin a probe: a refused call is answered "go and look" at once, and so is a path that has no
      two halves; any other one goes on to sample, with its halves. */
  lemma CallIs(s: State, path: string, thread: int, ownerThread: int, dir: string, base: string)
    requires Shaped(s) && (s.owner.Idle? || s.owner.Answered?)
    ensures var next := Next(s, Call(path, thread, ownerThread)).owner;
            && (Refused(path, thread, ownerThread) ==> next.Answered? && next.mayExist)
            && (!Refused(path, thread, ownerThread) && Halves(path, dir, base) ==>
                  next == Sampling(Probe(dir, base, s.gen, s.returned)))
            && (next.Sampling? && next.p.dir == dir && next.p.base == base ==> Halves(path, dir, base))
            && (!next.Sampling? ==> next.Answered? && next.mayExist)
  {
    RefusedIff(path, thread, ownerThread);
    SplitIff(path, dir, base);
    if SplitPath(path).Some? { SplitIff(path, SplitPath(path).value.0, SplitPath(path).value.1); }
  }

  // ----- an undisturbed probe -------------------------------------------------------------------

  /** The owner's steps, one after the other, with nothing in between. */
  ghost function OwnerRun(s: State, ios: seq<Io>): State {
    if ios == [] then s
    else
      var before := OwnerRun(s, ios[..|ios| - 1]);
      if Shaped(before) then Next(before, OwnerStep(ios[|ios| - 1])) else before
  }

  lemma OneStep(s: State, ios: seq<Io>, io: Io)
    requires Shaped(OwnerRun(s, ios))
    ensures OwnerRun(s, ios + [io]) == Next(OwnerRun(s, ios), OwnerStep(io))
  {
    assert (ios + [io])[..|ios|] == ios;
  }

  lemma {:induction false} RunsJoin(s: State, a: seq<Io>, b: seq<Io>)
    ensures OwnerRun(s, a + b) == OwnerRun(OwnerRun(s, a), b)
    decreases |b|
  {
    if b == [] {
      assert a + b == a;
    } else {
      assert (a + b)[..|a + b| - 1] == a + b[..|b| - 1];
      RunsJoin(s, a, b[..|b| - 1]);
    }
  }

  /** No slot is named for the directory. */
  ghost predicate Unlisted(s: State, dir: string) {
    forall k :: 0 <= k < |s.slots| ==> s.slots[k].dir != dir
  }

  ghost predicate Ready(s: State) {
    |s.slots| == |s.records| == SLOTS && s.next < SLOTS && Shaped(s)
  }

  /** A call that is looked into begins a probe and touches nothing else. */
  lemma BeginsProbe(s: State, path: string, thread: int, dir: string, base: string)
    requires Ready(s) && (s.owner.Idle? || s.owner.Answered?)
    requires !Refused(path, thread, thread) && Halves(path, dir, base)
    ensures var t := Next(s, Call(path, thread, thread));
            && Ready(t) && t.owner == Sampling(Probe(dir, base, s.gen, s.returned))
            && t.slots == s.slots && t.next == s.next && t.gen == s.gen
  {
    CallIs(s, path, thread, thread, dir, base);
  }

  lemma LooksPast(s: State, p: Probe, i: nat, io: Io)
    requires Ready(s) && s.owner == Looking(p, i) && i < SLOTS && Unlisted(s, p.dir)
    ensures var t := Next(s, OwnerStep(io));
            Ready(t) && t.owner == Looking(p, i + 1) && t.slots == s.slots && t.gen == s.gen && t.next == s.next
  {
  }

  /** What a probe of an unlisted directory comes to: it is about to open the directory for the next slot. */
  lemma ComesToOpen(s: State, p: Probe, io: Io) returns (ios: seq<Io>)
    requires Ready(s) && s.owner == Sampling(p) && Unlisted(s, p.dir)
    ensures IsOpening(OwnerRun(s, ios), p.(gen := s.gen), s.next, s.gen)
  {
    var q := p.(gen := s.gen);
    var t0 := Next(s, OwnerStep(io));
    LooksPast(t0, q, 0, io);
    var t1 := Next(t0, OwnerStep(io));
    LooksPast(t1, q, 1, io);
    var t2 := Next(t1, OwnerStep(io));
    LooksPast(t2, q, 2, io);
    var t3 := Next(t2, OwnerStep(io));
    assert OwnerRun(s, []) == s;
    OneStep(s, [], io);
    OneStep(s, [io], io);
    OneStep(s, [io] + [io], io);
    OneStep(s, [io] + [io] + [io], io);
    ios := [io] + [io] + [io] + [io];
    assert [] + [io] == [io];
    assert OwnerRun(s, ios) == t3;
    var more := NamesAndResets(t3, q, io);
    RunsJoin(s, ios, more);
    ios := ios + more;
  }

  lemma NamesAndResets(s: State, q: Probe, io: Io) returns (ios: seq<Io>)
    requires Ready(s) && s.owner == Looking(q, SLOTS)
    ensures IsOpening(OwnerRun(s, ios), q, s.next, s.gen)
  {
    var t1 := Next(s, OwnerStep(io));
    Names(s, q, io);
    var t2 := Next(t1, OwnerStep(io));
    Resets(t1, q, s.next, io);
    assert OwnerRun(s, []) == s && [] + [io] == [io];
    OneStep(s, [], io);
    OneStep(s, [io], io);
    OneStep(s, [io] + [io], io);
    ios := [io] + [io] + [io];
  }

  lemma Names(s: State, q: Probe, io: Io)
    requires Ready(s) && s.owner == Looking(q, SLOTS)
    ensures var t := Next(s, OwnerStep(io)); Ready(t) && t.owner == Naming(q, s.next) && t.gen == s.gen
  {
  }

  lemma Resets(s: State, q: Probe, k: nat, io: Io)
    requires Ready(s) && s.owner == Naming(q, k)
    ensures Shaped(Next(s, OwnerStep(io)))
    ensures IsOpening(Next(Next(s, OwnerStep(io)), OwnerStep(io)), q, k, s.gen)
  {
  }

  ghost predicate IsOpening(t: State, p: Probe, k: nat, gen: Gen) {
    Ready(t) && k < SLOTS && t.gen == gen && !t.slots[k].valid && t.owner == Opening(p, k)
  }

  /** What a listable directory comes to: it is about to be read. */
  lemma ComesToRead(s: State, p: Probe, io: Io) returns (ios: seq<Io>)
    requires Ready(s) && s.owner == Sampling(p) && Unlisted(s, p.dir) && io.listable
    ensures IsReading(OwnerRun(s, ios), p.(gen := s.gen), s.next, s.gen, [], [])
  {
    ios := ComesToOpen(s, p, io);
    OneStep(s, ios, io);
    ios := ios + [io];
  }

  function Entries(names: seq<string>): seq<Io> {
    seq(|names|, i requires 0 <= i < |names| => Io(true, Some(names[i]), []))
  }

  function WithHash(hashes: seq<Hash>, name: string): seq<Hash> {
    if Listed(name) then hashes + [HashOf(name)] else hashes
  }

  lemma KeptStep(names: seq<string>)
    requires names != []
    ensures var init, name := names[..|names| - 1], names[|names| - 1];
            && Kept(names) == Kept(init) + (if Listed(name) then [name] else [])
            && Hashes(Kept(names)) == WithHash(Hashes(Kept(init)), name)
  {
    var init, name := names[..|names| - 1], names[|names| - 1];
    if !Listed(name) { Nil(Kept(init)); }
  }

  ghost predicate IsReading(t: State, p: Probe, k: nat, gen: Gen, names: seq<string>, hashes: seq<Hash>) {
    && Ready(t) && k < SLOTS && t.gen == gen && !t.slots[k].valid
    && t.owner.Reading? && t.owner == Reading(p, k, t.owner.at, names, hashes)
  }

  lemma ReadsEntry(t: State, p: Probe, k: nat, gen: Gen, names: seq<string>, hashes: seq<Hash>, name: string)
    requires IsReading(t, p, k, gen, names, hashes) && |WithHash(hashes, name)| <= 4096
    ensures IsReading(Next(t, OwnerStep(Io(true, Some(name), []))), p, k, gen, names + [name], WithHash(hashes, name))
  {
  }

  lemma LastOf(names: seq<string>)
    requires names != []
    ensures names[..|names| - 1] + [names[|names| - 1]] == names
    ensures Entries(names) == Entries(names[..|names| - 1]) + [Io(true, Some(names[|names| - 1]), [])]
  {
  }

  /** The entries are read one by one, the hidden ones without a hash. */
  lemma {:induction false} ReadsEntries(s: State, p: Probe, k: nat, names: seq<string>)
    requires IsReading(s, p, k, s.gen, [], []) && |Hashes(Kept(names))| <= 4096
    ensures IsReading(OwnerRun(s, Entries(names)), p, k, s.gen, names, Hashes(Kept(names)))
    decreases |names|
  {
    if names != [] {
      var init, name := names[..|names| - 1], names[|names| - 1];
      KeptStep(names);
      ReadsEntries(s, p, k, init);
      LastOf(names);
      OneStep(s, Entries(init), Io(true, Some(name), []));
      ReadsEntry(OwnerRun(s, Entries(init)), p, k, s.gen, init, Hashes(Kept(init)), name);
    }
  }

  lemma PublishesAndSearches(s: State, p: Probe, k: nat, names: seq<string>, sorted: seq<Hash>) returns (ios: seq<Io>)
    requires IsReading(s, p, k, s.gen, names, Hashes(Kept(names))) && SortOf(sorted, Hashes(Kept(names)))
    ensures OwnerRun(s, ios).owner == Answered(p, k, HashOf(p.base) in sorted || s.gen.value != p.gen.value)
  {
    var io := Io(true, None, sorted);
    var t1 := Next(s, OwnerStep(io));
    assert t1.owner == Publishing(p, k) && t1.slots[k].hashes == Some(sorted) && t1.slots[k].count == |sorted|;
    var t2 := Next(t1, OwnerStep(io));
    assert t2.owner == CheckValid(p, k) && t2.slots[k].valid;
    var t3 := Next(t2, OwnerStep(io));
    assert t3.owner == Searching(p, k) && t3.slots == t2.slots && t3.slots[k].hashes.value[..|sorted|] == sorted;
    var t4 := Next(t3, OwnerStep(io));
    var t5 := Next(t4, OwnerStep(io));
    assert OwnerRun(s, []) == s && [] + [io] == [io];
    OneStep(s, [], io);
    OneStep(s, [io], io);
    OneStep(s, [io] + [io], io);
    OneStep(s, [io] + [io] + [io], io);
    OneStep(s, [io] + [io] + [io] + [io], io);
    ios := [io] + [io] + [io] + [io] + [io];
  }

  /** Without anything in between, a probe of a directory that no slot has yet, and that can be listed and is
      not too large, is answered by the hashes of its entries: absent exactly when the name's is not there. */
  lemma FreshProbeAnswers(s: State, path: string, thread: int, dir: string, base: string, names: seq<string>,
                          sorted: seq<Hash>) returns (ios: seq<Io>)
    requires Ready(s) && (s.owner.Idle? || s.owner.Answered?) && Unlisted(s, dir)
    requires !Refused(path, thread, thread) && Halves(path, dir, base)
    requires |Kept(names)| <= 4096 && SortOf(sorted, Hashes(Kept(names)))
    ensures var last := OwnerRun(Next(s, Call(path, thread, thread)), ios).owner;
            && last.Answered? && last.p.dir == dir && last.p.base == base
            && (last.mayExist <==> exists name :: name in names && name != "" && name[0] != '.' && HashOf(name) == HashOf(base))
  {
    BeginsProbe(s, path, thread, dir, base);
    var s1 := Next(s, Call(path, thread, thread));
    var p := s1.owner.p;
    var first := ComesToRead(s1, p, Io(true, None, []));
    var s2, q := OwnerRun(s1, first), p.(gen := s1.gen);
    ReadsEntries(s2, q, s1.next, names);
    var s3 := OwnerRun(s2, Entries(names));
    var rest := PublishesAndSearches(s3, q, s1.next, names, sorted);
    ios := first + (Entries(names) + rest);
    RunsJoin(s1, first, Entries(names) + rest);
    RunsJoin(s2, Entries(names), rest);
    InSorted(names, sorted, HashOf(base));
  }

  lemma InSorted(names: seq<string>, sorted: seq<Hash>, h: Hash)
    requires SortOf(sorted, Hashes(Kept(names)))
    ensures h in sorted <==> exists name :: name in names && name != "" && name[0] != '.' && HashOf(name) == h
  {
    assert h in sorted <==> h in multiset(sorted);
    assert h in Hashes(Kept(names)) <==> h in multiset(Hashes(Kept(names)));
    InHashes(names, h);
  }

  lemma {:induction false} InHashes(names: seq<string>, h: Hash)
    ensures h in Hashes(Kept(names)) <==> exists name :: name in names && name != "" && name[0] != '.' && HashOf(name) == h
  {
    if names != [] {
      var init, name := names[..|names| - 1], names[|names| - 1];
      KeptStep(names);
      InHashes(init, h);
      assert names == init + [name];
    }
  }

  // ----- a directory that cannot be indexed -----------------------------------------------------

  lemma InvalidAnswersLook(s: State, ios: seq<Io>, io: Io, p: Probe, k: nat)
    requires Ready(OwnerRun(s, ios)) && k < SLOTS
    requires OwnerRun(s, ios).owner == CheckValid(p, k) && !OwnerRun(s, ios).slots[k].valid
    ensures OwnerRun(s, ios + [io]).owner == Answered(p, k, true)
  {
    OneStep(s, ios, io);
  }

  /** A directory that cannot be listed is answered "go and look". */
  lemma UnlistableAnswersLook(s: State, path: string, thread: int, dir: string, base: string) returns (ios: seq<Io>)
    requires Ready(s) && (s.owner.Idle? || s.owner.Answered?) && Unlisted(s, dir)
    requires !Refused(path, thread, thread) && Halves(path, dir, base)
    ensures var last := OwnerRun(Next(s, Call(path, thread, thread)), ios).owner;
            last.Answered? && last.p.dir == dir && last.p.base == base && last.mayExist
  {
    BeginsProbe(s, path, thread, dir, base);
    var s1, io := Next(s, Call(path, thread, thread)), Io(false, None, []);
    ios := ComesToOpen(s1, s1.owner.p, io);
    OneStep(s1, ios, io);
    InvalidAnswersLook(s1, ios + [io], io, s1.owner.p.(gen := s1.gen), s1.next);
    ios := ios + [io] + [io];
  }

  lemma {:induction false} FindOverflow(names: seq<string>) returns (n: nat)
    requires |Kept(names)| > 4096
    ensures n < |names| && |Kept(names[..n])| == 4096 && Listed(names[n])
  {
    var init := names[..|names| - 1];
    KeptStep(names);
    if |Kept(init)| > 4096 {
      n := FindOverflow(init);
      assert init[..n] == names[..n];
    } else {
      n := |names| - 1;
    }
  }

  lemma Overflows(t: State, p: Probe, k: nat, gen: Gen, names: seq<string>, hashes: seq<Hash>, name: string)
    requires IsReading(t, p, k, gen, names, hashes) && |hashes| == 4096 && Listed(name)
    ensures var u := Next(t, OwnerStep(Io(true, Some(name), [])));
            Ready(u) && u.owner == CheckValid(p, k) && !u.slots[k].valid
  {
  }

  lemma ReadsTooMany(s: State, p: Probe, k: nat, names: seq<string>, n: nat, io: Io)
    requires IsReading(s, p, k, s.gen, [], [])
    requires n < |names| && |Kept(names[..n])| == 4096 && Listed(names[n])
    ensures OwnerRun(s, Entries(names[..n]) + [Io(true, Some(names[n]), [])] + [io]).owner == Answered(p, k, true)
  {
    var front, entry := names[..n], Io(true, Some(names[n]), []);
    ReadsEntries(s, p, k, front);
    Overflows(OwnerRun(s, Entries(front)), p, k, s.gen, front, Hashes(Kept(front)), names[n]);
    OneStep(s, Entries(front), entry);
    InvalidAnswersLook(s, Entries(front) + [entry], io, p, k);
  }

  /** And so is one with more than 4096 entries that are not hidden, once so many have been read. */
  lemma TooLargeAnswersLook(s: State, path: string, thread: int, dir: string, base: string, names: seq<string>)
      returns (ios: seq<Io>, n: nat)
    requires Ready(s) && (s.owner.Idle? || s.owner.Answered?) && Unlisted(s, dir)
    requires !Refused(path, thread, thread) && Halves(path, dir, base) && |Kept(names)| > 4096
    ensures var last := OwnerRun(Next(s, Call(path, thread, thread)), ios).owner;
            last.Answered? && last.p.dir == dir && last.p.base == base && last.mayExist
    ensures n < |names| && |ios| > n + 1 && ios[|ios| - 2 - n..|ios| - 1] == Entries(names[..n + 1])
  {
    BeginsProbe(s, path, thread, dir, base);
    var s1, io := Next(s, Call(path, thread, thread)), Io(true, None, []);
    var first := ComesToRead(s1, s1.owner.p, io);
    n := FindOverflow(names);
    ReadsTooMany(OwnerRun(s1, first), s1.owner.p.(gen := s1.gen), s1.next, names, n, io);
    var rest := Entries(names[..n]) + [Io(true, Some(names[n]), [])] + [io];
    RunsJoin(s1, first, rest);
    ios := first + rest;
    EntriesThere(first, names, n, io);
  }

  lemma EntriesThere(first: seq<Io>, names: seq<string>, n: nat, io: Io)
    requires n < |names|
    ensures var ios := first + (Entries(names[..n]) + [Io(true, Some(names[n]), [])] + [io]);
            |ios| == |first| + n + 2 && ios[|ios| - 1 - (n + 1)..|ios| - 1] == Entries(names[..n + 1])
  {
  }

  // ----- a directory that is kept ---------------------------------------------------------------

  /** Slot k holds a whole listing of the directory, and no slot in front of it has that name. */
  ghost predicate Holds(s: State, k: nat, dir: string, hashes: seq<Hash>) {
    && k < |s.slots| && dir != "" && s.slots[k] == Slot(dir, Some(hashes), |hashes|, true)
    && forall i :: 0 <= i < k ==> s.slots[i].dir != dir
  }

  lemma {:induction false} LooksUpTo(s: State, ios: seq<Io>, p: Probe, i: nat, k: nat, hashes: seq<Hash>, io: Io)
      returns (more: seq<Io>)
    requires var t := OwnerRun(s, ios); Ready(t) && t.owner == Looking(p, i) && i <= k < SLOTS && Holds(t, k, p.dir, hashes)
    ensures var t, u := OwnerRun(s, ios), OwnerRun(s, more);
            Ready(u) && u.owner == CheckValid(p, k) && u.slots == t.slots && u.gen == t.gen
    decreases k - i
  {
    OneStep(s, ios, io);
    more := ios + [io];
    if i < k { more := LooksUpTo(s, more, p, i + 1, k, hashes, io); }
  }

  lemma SearchesSlot(s: State, ios: seq<Io>, p: Probe, k: nat, hashes: seq<Hash>, io: Io) returns (more: seq<Io>)
    requires var t := OwnerRun(s, ios);
             && Ready(t) && k < SLOTS && t.owner == CheckValid(p, k) && t.gen == p.gen
             && t.slots[k].valid && t.slots[k].hashes == Some(hashes) && t.slots[k].count == |hashes|
    ensures OwnerRun(s, more).owner == Answered(p, k, HashOf(p.base) in hashes)
  {
    OneStep(s, ios, io);
    more := ios + [io];
    assert hashes[..|hashes|] == hashes;
    OneStep(s, more, io);
    more := more + [io];
    if HashOf(p.base) !in hashes {
      OneStep(s, more, io);
      more := more + [io];
    }
  }

  /** Without anything in between, a probe of a kept directory is answered from its slot, whatever the device
      would list by now. */
  lemma KeptProbeAnswers(s: State, path: string, thread: int, dir: string, base: string, k: nat, hashes: seq<Hash>, io: Io)
      returns (ios: seq<Io>)
    requires Ready(s) && (s.owner.Idle? || s.owner.Answered?) && k < SLOTS && Holds(s, k, dir, hashes)
    requires !Refused(path, thread, thread) && Halves(path, dir, base)
    ensures OwnerRun(Next(s, Call(path, thread, thread)), ios).owner ==
            Answered(Probe(dir, base, s.gen, s.returned), k, HashOf(base) in hashes)
  {
    BeginsProbe(s, path, thread, dir, base);
    var s1, p := Next(s, Call(path, thread, thread)), Probe(dir, base, s.gen, s.returned);
    assert OwnerRun(s1, []) == s1 && [] + [io] == [io];
    OneStep(s1, [], io);
    ios := LooksUpTo(s1, [io], p, 0, k, hashes, io);
    ios := SearchesSlot(s1, ios, p, k, hashes, io);
  }

  // ----- an undisturbed invalidation ------------------------------------------------------------

  /** n steps of one invalidator, with nothing in between. */
  ghost function InvalRun(s: State, id: int, n: nat): State {
    if n == 0 then s
    else
      var before := InvalRun(s, id, n - 1);
      if Shaped(before) then Next(before, InvalStep(id)) else before
  }

  /** What is left of an invalidation: the slots in front of k are emptied. */
  ghost predicate Emptied(s: State, t: State, id: int, start: nat, k: nat) {
    && Ready(t) && k <= SLOTS && id in t.invals && t.owner == s.owner && t.gen.lost == s.gen.lost
    && t.invals[id] == Inval(start, if k < SLOTS then DropValid(k) else Finished)
    && t.gen.value == (s.gen.value + 1) % 0x1_0000_0000
    && forall i :: 0 <= i < k ==> !t.slots[i].valid && t.slots[i].dir == ""
  }

  lemma BumpsOnce(s: State, id: int)
    requires Ready(s) && id !in s.invals
    ensures var t := Next(s, Invalidate(id)); Ready(t) && Emptied(s, InvalRun(t, id, 2), id, s.now, 0)
  {
    var t := Next(s, Invalidate(id));
    assert InvalRun(t, id, 0) == t && InvalRun(t, id, 1) == Next(t, InvalStep(id));
  }

  lemma EmptiesSlot(s: State, t: State, id: int, start: nat, n: nat, k: nat)
    requires Emptied(s, InvalRun(t, id, n), id, start, k) && k < SLOTS
    ensures Emptied(s, InvalRun(t, id, n + 2), id, start, k + 1)
  {
    var t0 := InvalRun(t, id, n);
    var t1 := Next(t0, InvalStep(id));
    assert InvalRun(t, id, n + 1) == t1 && InvalRun(t, id, n + 2) == Next(t1, InvalStep(id));
  }

  lemma {:induction false} EmptiesAll(s: State, t: State, id: int, start: nat, n: nat, k: nat) returns (m: nat)
    requires Emptied(s, InvalRun(t, id, n), id, start, k)
    ensures Emptied(s, InvalRun(t, id, m), id, start, SLOTS)
    decreases SLOTS - k
  {
    m := n;
    if k < SLOTS {
      EmptiesSlot(s, t, id, start, n, k);
      m := EmptiesAll(s, t, id, start, n + 2, k + 1);
    }
  }

  /** An invalidation with nothing in between counts the generation up by one, empties every slot and returns, and
      no slot is named for any directory any more. */
  lemma InvalidationEmpties(s: State, id: int) returns (n: nat)
    requires Ready(s) && id !in s.invals
    ensures var t := InvalRun(Next(s, Invalidate(id)), id, n);
            && t.gen.value == (s.gen.value + 1) % 0x1_0000_0000 && t.gen.lost == s.gen.lost && t.owner == s.owner
            && id !in t.invals && s.now in t.returned && |t.slots| == 3
            && (forall i :: 0 <= i < 3 ==> !t.slots[i].valid && t.slots[i].dir == "")
            && (forall dir :: dir != "" ==> Unlisted(t, dir))
  {
    BumpsOnce(s, id);
    n := EmptiesAll(s, Next(s, Invalidate(id)), id, s.now, 2, 0);
    Returns(s, Next(s, Invalidate(id)), id, s.now, n);
    n := n + 1;
  }

  lemma Returns(s: State, t: State, id: int, start: nat, n: nat)
    requires Emptied(s, InvalRun(t, id, n), id, start, SLOTS)
    ensures var before, u := InvalRun(t, id, n), InvalRun(t, id, n + 1);
            && u.slots == before.slots && u.gen == before.gen && u.owner == before.owner
            && id !in u.invals && start in u.returned
  {
  }

  /** A probe that is about to compare generations when such an invalidation counts up goes and looks. */
  lemma InvalidationIsNoticed(s: State, id: int, p: Probe, k: nat, io: Io)
    requires Ready(s) && id !in s.invals && s.owner == CheckGen(p, k) && p.gen.value == s.gen.value < 0x1_0000_0000
    ensures var t := InvalRun(Next(s, Invalidate(id)), id, 2);
            Shaped(t) && Next(t, OwnerStep(io)).owner == Answered(p, k, true)
  {
    BumpsOnce(s, id);
  }
}
