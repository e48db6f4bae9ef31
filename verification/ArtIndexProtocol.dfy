/** The shared slots of src/artindex.c as a state machine: one owner thread that probes, sweeps and
    publishes, and any number of invalidators that may run between any two of its steps. */
module ArtIndexProtocol {
  import opened Wrappers
  import opened ArtIndexNames

  const SLOTS: nat := 3
  const WORD := 0x1_0000_0000

  datatype Slot = Slot(dir: string, hashes: Option<seq<Hash>>, count: nat, valid: bool)

  /** What happened to a slot: the name the owner last wrote and when; the last complete sweep, of which
      directory, and when it was opened; the latest start of an invalidation that has emptied the name. */
  datatype Record = Record(owned: string, named: nat, sweptDir: string, swept: seq<string>, sweptAt: nat, cleared: nat)

  /** The generation counter, how often it has been written, and how many of those writes went over a
      value other than the one their increment had read. */
  datatype Gen = Gen(value: nat, writes: nat, lost: nat)

  /** `before` holds the start of every invalidation that had returned when the probe began. */
  datatype Probe = Probe(dir: string, base: string, gen: Gen, before: set<nat>)

  datatype Pc =
    | Idle
    | Sampling(p: Probe)
    | Looking(p: Probe, i: nat)
    | Naming(p: Probe, k: nat)
    | Resetting(p: Probe, k: nat)
    | Opening(p: Probe, k: nat)
    | Reading(p: Probe, k: nat, at: nat, names: seq<string>, hashes: seq<Hash>)
    | Publishing(p: Probe, k: nat)
    | CheckValid(p: Probe, k: nat)
    | Searching(p: Probe, k: nat)
    | CheckGen(p: Probe, k: nat)
    | Answered(p: Probe, k: nat, mayExist: bool)

  datatype InvalPc = Begin | Bump(seen: nat) | DropValid(k: nat) | DropDir(k: nat) | Finished

  datatype Inval = Inval(start: nat, pc: InvalPc)

  datatype State = State(slots: seq<Slot>, records: seq<Record>, next: nat, gen: Gen, owner: Pc,
                         invals: map<int, Inval>, returned: set<nat>, now: nat)

  /** What the device and the sort deliver to a step of the owner. */
  datatype Io = Io(listable: bool, entry: Option<string>, sorted: seq<Hash>)

  datatype Event =
    | Call(path: string, thread: int, ownerThread: int)
    | OwnerStep(io: Io)
    | Invalidate(id: int)
    | InvalStep(id: int)

  const EMPTY := Slot("", None, 0, false)
  const UNUSED := Record("", 0, "", [], 0, 0)
  const INIT := State([EMPTY, EMPTY, EMPTY], [UNUSED, UNUSED, UNUSED], 0, Gen(0, 0, 0), Idle, map[], {}, 1)

  ghost predicate SortOf(sorted: seq<Hash>, hashes: seq<Hash>) {
    multiset(sorted) == multiset(hashes) && Sorted(sorted)
  }

  // ----- the owner ------------------------------------------------------------------------------

  /** A probe can only begin when the previous one has been answered. */
  function CallNext(s: State, path: string, thread: int, ownerThread: int): State {
    match s.owner
    case Idle | Answered(_, _, _) =>
      (match Admit(path, thread, ownerThread)
       case None => s.(owner := Answered(Probe("", "", s.gen, {}), 0, true))
       case Some((dir, base)) => s.(owner := Sampling(Probe(dir, base, s.gen, s.returned))))
    case _ => s
  }

  /** artIndexSlotFor, one slot at a time; past the last one, artIndexBuild takes the next slot. */
  function LookNext(s: State, p: Probe, i: nat): State
    requires |s.slots| == SLOTS && s.next < SLOTS
  {
    if i < SLOTS then
      s.(owner := if s.slots[i].dir != "" && s.slots[i].dir == p.dir then CheckValid(p, i) else Looking(p, i + 1))
    else
      var k, slot := s.next, s.slots[s.next];
      s.(next := (k + 1) % SLOTS, owner := Naming(p, k),
         slots := if slot.hashes.Some? then s.slots[k := Slot(slot.dir, None, 0, false)] else s.slots)
  }

  ghost function ReadNext(s: State, io: Io, p: Probe, k: nat, at: nat, names: seq<string>, hashes: seq<Hash>): State
    requires |s.slots| == |s.records| == SLOTS && k < SLOTS
  {
    match io.entry
    case Some(name) =>
      if !Listed(name) then s.(owner := Reading(p, k, at, names + [name], hashes))
      else if |hashes| >= MAX_ENTRIES then s.(owner := CheckValid(p, k))
      else s.(owner := Reading(p, k, at, names + [name], hashes + [HashOf(name)]))
    case None =>
      if SortOf(io.sorted, hashes) then
        s.(slots := s.slots[k := s.slots[k].(hashes := Some(io.sorted), count := |io.sorted|)],
           records := s.records[k := s.records[k].(sweptDir := p.dir, swept := names, sweptAt := at)],
           owner := Publishing(p, k))
      else s
  }

  ghost function OwnerNext(s: State, io: Io): State
    requires Shaped(s)
  {
    match s.owner
    case Idle => s
    case Answered(_, _, _) => s
    case Sampling(p) => s.(owner := Looking(p.(gen := s.gen), 0))
    case Looking(p, i) => LookNext(s, p, i)
    case Naming(p, k) =>
      s.(slots := s.slots[k := s.slots[k].(dir := p.dir)],
         records := s.records[k := s.records[k].(owned := p.dir, named := s.now)],
         owner := Resetting(p, k))
    case Resetting(p, k) =>
      s.(slots := s.slots[k := s.slots[k].(valid := false, count := 0)], owner := Opening(p, k))
    case Opening(p, k) =>
      s.(owner := if io.listable then Reading(p, k, s.now, [], []) else CheckValid(p, k))
    case Reading(p, k, at, names, hashes) => ReadNext(s, io, p, k, at, names, hashes)
    case Publishing(p, k) =>
      s.(slots := s.slots[k := s.slots[k].(valid := true)], owner := CheckValid(p, k))
    case CheckValid(p, k) =>
      s.(owner := if !s.slots[k].valid || s.slots[k].hashes.None? then Answered(p, k, true) else Searching(p, k))
    case Searching(p, k) =>
      s.(owner := if s.slots[k].hashes.Some? && HashOf(p.base) !in s.slots[k].hashes.value[..Min(s.slots[k])]
                  then CheckGen(p, k) else Answered(p, k, true))
    case CheckGen(p, k) => s.(owner := Answered(p, k, s.gen.value != p.gen.value))
  }

  /** How far the binary search looks; the buffer is never shorter than the count. */
  function Min(slot: Slot): (n: nat)
    requires slot.hashes.Some?
    ensures n <= |slot.hashes.value|
  {
    if slot.count <= |slot.hashes.value| then slot.count else |slot.hashes.value|
  }

  predicate SlotInUse(pc: Pc) {
    match pc
    case Idle | Sampling(_) | Looking(_, _) => true
    case Naming(_, k) => k < SLOTS
    case Resetting(_, k) => k < SLOTS
    case Opening(_, k) => k < SLOTS
    case Reading(_, k, _, _, _) => k < SLOTS
    case Publishing(_, k) => k < SLOTS
    case CheckValid(_, k) => k < SLOTS
    case Searching(_, k) => k < SLOTS
    case CheckGen(_, k) => k < SLOTS
    case Answered(_, k, _) => k < SLOTS
  }

  predicate Shaped(s: State) {
    |s.slots| == |s.records| == SLOTS && s.next < SLOTS && SlotInUse(s.owner) &&
    forall id :: id in s.invals ==>
      match s.invals[id].pc
      case DropValid(k) => k < SLOTS
      case DropDir(k) => k < SLOTS
      case _ => true
  }

  // ----- the invalidators -----------------------------------------------------------------------

  /** One step of artIndexInvalidate; the increment is a read and a write, and may lose another one. */
  function InvalNext(s: State, id: int): State
    requires Shaped(s)
  {
    if id !in s.invals then s
    else
      var v := s.invals[id];
      match v.pc
      case Begin => s.(invals := s.invals[id := v.(pc := Bump(s.gen.value))])
      case Bump(seen) => 
        s.(gen := Gen((seen + 1) % WORD, s.gen.writes + 1, s.gen.lost + if seen == s.gen.value then 0 else 1),
           invals := s.invals[id := v.(pc := DropValid(0))])
      case DropValid(k) =>
        s.(slots := s.slots[k := s.slots[k].(valid := false)], invals := s.invals[id := v.(pc := DropDir(k))])
      case DropDir(k) =>
        var r := s.records[k];
        s.(slots := s.slots[k := s.slots[k].(dir := "")],
           records := s.records[k := r.(cleared := if r.cleared < v.start then v.start else r.cleared)],
           invals := s.invals[id := v.(pc := if k + 1 < SLOTS then DropValid(k + 1) else Finished)])
      case Finished => s.(invals := s.invals - {id}, returned := s.returned + {v.start})
  }

  ghost function Effect(s: State, e: Event): State
    requires Shaped(s)
  {
    match e
    case Call(path, thread, ownerThread) => CallNext(s, path, thread, ownerThread)
    case OwnerStep(io) => OwnerNext(s, io)
    case Invalidate(id) => if id in s.invals then s else s.(invals := s.invals[id := Inval(s.now, Begin)])
    case InvalStep(id) => InvalNext(s, id)
  }

  /** Every step of any thread is one tick. */
  ghost function Next(s: State, e: Event): State
    requires Shaped(s)
  {
    Effect(s, e).(now := s.now + 1)
  }

  // ----- the invariant --------------------------------------------------------------------------

  /** The buffer is the sorted hashes of a complete sweep made under the slot's last name. */
  ghost predicate Honest(slot: Slot, r: Record) {
    && slot.hashes.Some? && slot.count == |slot.hashes.value| <= MAX_ENTRIES
    && SortOf(slot.hashes.value, Hashes(Kept(r.swept)))
    && r.sweptDir == r.owned && r.named <= r.sweptAt
  }

  /** The slot was last named for this probe's directory, after everything that had returned by then. */
  ghost predicate Claimed(p: Probe, r: Record) {
    r.owned == p.dir && forall t :: t in p.before ==> t < r.named
  }

  ghost predicate SlotOk(slot: Slot, r: Record, returned: set<nat>, now: nat) {
    && (slot.dir != "" ==> slot.dir == r.owned && r.cleared < r.named)
    && (slot.valid ==> Honest(slot, r))
    && r.cleared < now && r.named < now
    && forall t :: t in returned ==> t <= r.cleared
  }

  /** The counter has moved on by one for each write since the probe read it, unless one was lost. */
  ghost predicate Tracks(p: Gen, g: Gen) {
    && p.value < WORD && p.writes <= g.writes && p.lost <= g.lost
    && (p.lost == g.lost ==> g.value == (p.value + (g.writes - p.writes)) % WORD)
  }

  ghost predicate Misses(p: Probe, slot: Slot) {
    slot.hashes.Some? && HashOf(p.base) !in slot.hashes.value
  }

  ghost predicate OwnerOk(pc: Pc, slots: seq<Slot>, records: seq<Record>, returned: set<nat>, gen: Gen)
    requires |slots| == |records| == SLOTS && SlotInUse(pc)
  {
    match pc
    case Idle => true
    case Sampling(p) => p.dir != "" && p.before <= returned
    case Looking(p, i) => p.dir != "" && p.before <= returned && Tracks(p.gen, gen)
    case Naming(p, k) => p.dir != "" && p.before <= returned && !slots[k].valid && Tracks(p.gen, gen)
    case Resetting(p, k) => Claimed(p, records[k]) && !slots[k].valid && Tracks(p.gen, gen)
    case Opening(p, k) => Claimed(p, records[k]) && !slots[k].valid && Tracks(p.gen, gen)
    case Reading(p, k, at, names, hashes) =>
      && Claimed(p, records[k]) && !slots[k].valid && Tracks(p.gen, gen)
      && records[k].named <= at && hashes == Hashes(Kept(names)) && |hashes| <= MAX_ENTRIES
    case Publishing(p, k) => Claimed(p, records[k]) && Honest(slots[k], records[k]) && Tracks(p.gen, gen)
    case CheckValid(p, k) => Claimed(p, records[k]) && Tracks(p.gen, gen)
    case Searching(p, k) => Claimed(p, records[k]) && Honest(slots[k], records[k]) && Tracks(p.gen, gen)
    case CheckGen(p, k) =>
      Claimed(p, records[k]) && Honest(slots[k], records[k]) && Misses(p, slots[k]) && Tracks(p.gen, gen)
    case Answered(p, k, mayExist) =>
      !mayExist ==> Claimed(p, records[k]) && Honest(slots[k], records[k]) && Misses(p, slots[k])
  }

  ghost predicate Cleared(records: seq<Record>, start: nat, n: nat) {
    forall k :: 0 <= k < |records| && k < n ==> start <= records[k].cleared
  }

  ghost predicate InvalOk(v: Inval, records: seq<Record>, now: nat) {
    && v.start < now
    && match v.pc
       case Begin => true
       case Bump(seen) => true
       case DropValid(j) => Cleared(records, v.start, j)
       case DropDir(j) => Cleared(records, v.start, j)
       case Finished => Cleared(records, v.start, SLOTS)
  }

  ghost predicate Inv(s: State) {
    && Shaped(s) && s.gen.value < WORD
    && OwnerOk(s.owner, s.slots, s.records, s.returned, s.gen)
    && (forall k :: 0 <= k < SLOTS ==> SlotOk(s.slots[k], s.records[k], s.returned, s.now))
    && (forall id :: id in s.invals ==> InvalOk(s.invals[id], s.records, s.now))
  }

  // ----- what every step keeps ------------------------------------------------------------------

  lemma InitOk()
    ensures Inv(INIT)
  {
  }

  lemma CallKeeps(s: State, path: string, thread: int, ownerThread: int)
    requires Inv(s)
    ensures Inv(CallNext(s, path, thread, ownerThread))
  {
  }

  lemma LookKeeps(s: State, p: Probe, i: nat)
    requires Inv(s) && s.owner == Looking(p, i)
    ensures Inv(LookNext(s, p, i))
  {
  }

  lemma ReadKeeps(s: State, io: Io)
    requires Inv(s) && s.owner.Reading?
    ensures Inv(OwnerNext(s, io))
  {
    if SortOf(io.sorted, s.owner.hashes) {
      SortLength(io.sorted, s.owner.hashes);
      if io.entry.None? { SortKeeps(s, io); }
    } else if io.entry.None? {
      assert OwnerNext(s, io) == s;
    }
  }

  lemma SortLength(sorted: seq<Hash>, hashes: seq<Hash>)
    requires multiset(sorted) == multiset(hashes)
    ensures |sorted| == |hashes|
  {
    assert |multiset(sorted)| == |sorted| && |multiset(hashes)| == |hashes|;
  }

  lemma SortKeeps(s: State, io: Io)
    requires Inv(s) && s.owner.Reading? && io.entry == None
    requires SortOf(io.sorted, s.owner.hashes) && |io.sorted| == |s.owner.hashes|
    ensures Inv(OwnerNext(s, io))
  {
  }

  lemma NameKeeps(s: State, io: Io)
    requires Inv(s) && s.owner.Naming?
    ensures Inv(OwnerNext(s, io).(now := s.now + 1))
  {
  }

  lemma SearchKeeps(s: State, io: Io)
    requires Inv(s) && (s.owner.CheckValid? || s.owner.Searching? || s.owner.CheckGen?)
    ensures Inv(OwnerNext(s, io))
  {
    if s.owner.Searching? && s.slots[s.owner.k].hashes.Some? {
      var hashes := s.slots[s.owner.k].hashes.value;
      assert hashes[..|hashes|] == hashes;
    }
  }

  lemma FillKeeps(s: State, io: Io)
    requires Inv(s) && (s.owner.Resetting? || s.owner.Opening? || s.owner.Publishing?)
    ensures Inv(OwnerNext(s, io))
  {
  }

  lemma TickKeeps(s: State)
    requires Inv(s)
    ensures Inv(s.(now := s.now + 1))
  {
  }

  lemma InvalidateKeeps(s: State, id: int)
    requires Inv(s)
    ensures Inv(Next(s, Invalidate(id)))
  {
  }

  lemma BumpKeeps(s: State, id: int)
    requires Inv(s) && id in s.invals && (s.invals[id].pc.Begin? || s.invals[id].pc.Bump?)
    ensures Inv(InvalNext(s, id))
  {
  }

  lemma DropValidKeeps(s: State, id: int)
    requires Inv(s) && id in s.invals && s.invals[id].pc.DropValid?
    ensures Inv(InvalNext(s, id))
  {
  }

  lemma DropDirKeeps(s: State, id: int)
    requires Inv(s) && id in s.invals && s.invals[id].pc.DropDir?
    ensures Inv(InvalNext(s, id))
  {
  }

  lemma FinishKeeps(s: State, id: int)
    requires Inv(s) && id in s.invals && s.invals[id].pc.Finished?
    ensures Inv(InvalNext(s, id))
  {
  }

  lemma StepKeeps(s: State, e: Event)
    requires Inv(s)
    ensures Inv(Next(s, e))
  {
    match e
    case Call(path, thread, ownerThread) =>
      CallKeeps(s, path, thread, ownerThread);
      TickKeeps(CallNext(s, path, thread, ownerThread));
    case OwnerStep(io) => OwnerKeeps(s, io);
    case Invalidate(id) => InvalidateKeeps(s, id);
    case InvalStep(id) =>
      if id in s.invals {
        match s.invals[id].pc {
          case Begin => BumpKeeps(s, id);
          case Bump(_) => BumpKeeps(s, id);
          case DropValid(_) => DropValidKeeps(s, id);
          case DropDir(_) => DropDirKeeps(s, id);
          case Finished => FinishKeeps(s, id);
        }
      }
      TickKeeps(InvalNext(s, id));
  }

  lemma OwnerKeeps(s: State, io: Io)
    requires Inv(s)
    ensures Inv(Next(s, OwnerStep(io)))
  {
    if s.owner.Naming? {
      NameKeeps(s, io);
    } else {
      ActKeeps(s, io);
      TickKeeps(OwnerNext(s, io));
    }
  }

  lemma ActKeeps(s: State, io: Io)
    requires Inv(s) && !s.owner.Naming?
    ensures Inv(OwnerNext(s, io))
  {
    if s.owner.Looking? {
      LookKeeps(s, s.owner.p, s.owner.i);
    } else if s.owner.Reading? {
      ReadKeeps(s, io);
    } else if s.owner.CheckValid? || s.owner.Searching? || s.owner.CheckGen? {
      SearchKeeps(s, io);
    } else if s.owner.Resetting? || s.owner.Opening? || s.owner.Publishing? {
      FillKeeps(s, io);
    }
  }

  // ----- whole runs -----------------------------------------------------------------------------

  /** The state after any interleaving of the owner's steps with calls and invalidators. */
  ghost function Run(events: seq<Event>): State {
    if events == [] then INIT
    else
      var s := Run(events[..|events| - 1]);
      if Shaped(s) then Next(s, events[|events| - 1]) else s
  }

  lemma {:induction false} RunOk(events: seq<Event>)
    ensures Inv(Run(events))
  {
    if events == [] {
      InitOk();
    } else {
      RunOk(events[..|events| - 1]);
      StepKeeps(Run(events[..|events| - 1]), events[|events| - 1]);
    }
  }

  /** "Absent" is only ever said of a name that was in nothing the directory's last complete sweep
      listed, under any capitals, and that sweep was opened after the start of every invalidation that
      had returned when the probe began. */
  lemma AbsentIsTrue(events: seq<Event>, p: Probe, k: nat)
    requires Run(events).owner == Answered(p, k, false) && Listed(p.base)
    ensures k < |Run(events).records|
    ensures var r := Run(events).records[k];
            && r.owned == r.sweptDir == p.dir && r.named <= r.sweptAt
            && |Kept(r.swept)| <= MAX_ENTRIES
            && (forall name :: name in r.swept ==> !SameName(name, p.base))
            && (forall t :: t in p.before ==> t < r.sweptAt)
  {
    RunOk(events);
    var s := Run(events);
    var hashes := s.slots[k].hashes.value;
    MissedHashMissesName(s.records[k].swept, hashes, p.base);
    SortLength(hashes, Hashes(Kept(s.records[k].swept)));
  }

  lemma Wraps(a: nat, d: nat)
    requires a < WORD && d < WORD
    ensures (a + d) % WORD == a <==> d == 0
  {
    if a + d >= WORD { assert (a + d) % WORD == (a + d - WORD) % WORD == a + d - WORD; }
  }

  lemma CheckAnswers(s: State, p: Probe, k: nat, io: Io)
    requires Inv(s) && s.owner == CheckGen(p, k)
    requires s.gen.lost == p.gen.lost && s.gen.writes - p.gen.writes < WORD
    ensures Next(s, OwnerStep(io)).owner == Answered(p, k, s.gen.writes != p.gen.writes)
  {
    Wraps(p.gen.value, s.gen.writes - p.gen.writes);
  }

  /** As long as no increment of the generation is lost and it does not go all the way round, the last
      check turns the answer into "go and look" exactly when the generation was written meanwhile. */
  lemma BumpIsNoticed(events: seq<Event>, p: Probe, k: nat, io: Io)
    requires Run(events).owner == CheckGen(p, k) && Run(events).gen.lost == p.gen.lost
    requires Run(events).gen.writes - p.gen.writes < WORD
    ensures Run(events + [OwnerStep(io)]).owner == Answered(p, k, Run(events).gen.writes != p.gen.writes)
  {
    RunOk(events);
    CheckAnswers(Run(events), p, k, io);
    assert (events + [OwnerStep(io)])[..|events|] == events;
  }

  /** The increment is not atomic: when two invalidators overlap, one bump can land after the probe has
      read the generation and leave it just as it was. */
  lemma OverlappingBumpGoesUnseen(s: State, a: int, b: int, io: Io)
    requires Inv(s) && a != b && a in s.invals && b in s.invals
    requires s.invals[a].pc.Begin? && s.invals[b].pc.Begin? && s.owner.Sampling?
    ensures var first := Next(Next(Next(Next(s, InvalStep(a)), InvalStep(b)), InvalStep(a)), OwnerStep(io));
            var last := Next(first, InvalStep(b));
            && first.owner.Looking? && first.owner == last.owner && first.owner.p.gen == first.gen
            && last.gen.writes == first.gen.writes + 1 && last.gen.value == first.gen.value
  {
  }

  // ----- names that start with a dot ------------------------------------------------------------

  ghost predicate Reachable(s: State) {
    exists events :: Run(events) == s
  }

  lemma ReachesNext(s: State, e: Event)
    requires Reachable(s)
    ensures Inv(s) && Reachable(Next(s, e))
  {
    var events :| Run(events) == s;
    RunOk(events);
    assert (events + [e])[..|events|] == events;
    assert Run(events + [e]) == Next(s, e);
  }

  /** The device lists what is asked for and has no more entries. */
  const NO_MORE := Io(true, None, [])

  lemma ReachesInit()
    ensures Reachable(INIT)
  {
    assert Run([]) == INIT;
  }

  /** The slots as they are at the start. */
  ghost predicate Untouched(s: State) {
    s.slots == [EMPTY, EMPTY, EMPTY] && s.records == [UNUSED, UNUSED, UNUSED] && s.next == 0
  }

  lemma LooksOn(s: State, p: Probe, i: nat) returns (t: State)
    requires Reachable(s) && Untouched(s) && s.owner == Looking(p, i) && i < SLOTS
    ensures Reachable(t) && Untouched(t) && t.owner == Looking(p, i + 1) && t.gen == s.gen
  {
    ReachesNext(s, OwnerStep(NO_MORE));
    t := Next(s, OwnerStep(NO_MORE));
  }

  /** A probe of an untouched index comes to name the first slot. */
  lemma ReachesNaming(s: State, p: Probe) returns (t: State)
    requires Reachable(s) && Untouched(s) && s.owner == Sampling(p)
    ensures Reachable(t) && t.slots == [EMPTY, EMPTY, EMPTY] && t.records == [UNUSED, UNUSED, UNUSED]
    ensures t.owner == Naming(p.(gen := s.gen), 0) && t.gen == s.gen
  {
    ReachesNext(s, OwnerStep(NO_MORE));
    t := Next(s, OwnerStep(NO_MORE));
    t := LooksOn(t, p.(gen := s.gen), 0);
    t := LooksOn(t, p.(gen := s.gen), 1);
    t := LooksOn(t, p.(gen := s.gen), 2);
    ReachesNext(t, OwnerStep(NO_MORE));
    t := Next(t, OwnerStep(NO_MORE));
  }

  /** From there it opens the directory. */
  lemma ReachesReading(s: State, p: Probe) returns (t: State)
    requires Reachable(s) && s.slots == [EMPTY, EMPTY, EMPTY] && s.records == [UNUSED, UNUSED, UNUSED]
    requires s.owner == Naming(p, 0)
    ensures Reachable(t) && t.owner.Reading? && t.owner == Reading(p, 0, t.owner.at, [], []) && t.gen == s.gen
  {
    ReachesNext(s, OwnerStep(NO_MORE));
    t := Next(s, OwnerStep(NO_MORE));
    ReachesNext(t, OwnerStep(NO_MORE));
    t := Next(t, OwnerStep(NO_MORE));
    ReachesNext(t, OwnerStep(NO_MORE));
    t := Next(t, OwnerStep(NO_MORE));
  }

  /** A directory that lists nothing but one hidden name gives an empty index. */
  lemma ReachesEmptyIndex(s: State, p: Probe, at: nat, name: string) returns (t: State)
    requires Reachable(s) && s.owner == Reading(p, 0, at, [], []) && !Listed(name)
    ensures Reachable(t) && t.owner == Publishing(p, 0) && t.gen == s.gen
    ensures Shaped(t) && t.slots[0].hashes == Some([]) && t.slots[0].count == 0 && t.records[0].swept == [name]
  {
    ReachesNext(s, OwnerStep(Io(true, Some(name), [])));
    t := Next(s, OwnerStep(Io(true, Some(name), [])));
    assert t.owner == Reading(p, 0, at, [name], []);
    ReachesNext(t, OwnerStep(NO_MORE));
    t := Next(t, OwnerStep(NO_MORE));
  }

  lemma ReachesSearching(s: State, p: Probe) returns (t: State)
    requires Reachable(s) && s.owner == Publishing(p, 0) && Shaped(s) && s.slots[0].hashes == Some([])
    ensures Reachable(t) && Shaped(t) && t.owner == Searching(p, 0) && t.records == s.records && t.gen == s.gen
    ensures t.slots[0].hashes == Some([]) && t.slots[0].count == s.slots[0].count
  {
    ReachesNext(s, OwnerStep(NO_MORE));
    t := Next(s, OwnerStep(NO_MORE));
    ReachesNext(t, OwnerStep(NO_MORE));
    t := Next(t, OwnerStep(NO_MORE));
  }

  /** And an empty index answers absent. */
  lemma ReachesAbsent(s: State, p: Probe) returns (t: State)
    requires Reachable(s) && Shaped(s) && s.owner == Searching(p, 0) && s.gen.value == p.gen.value
    requires s.slots[0].hashes == Some([])
    ensures Reachable(t) && Shaped(t) && t.owner == Answered(p, 0, false) && t.records == s.records
  {
    ReachesNext(s, OwnerStep(NO_MORE));
    t := Next(s, OwnerStep(NO_MORE));
    ReachesNext(t, OwnerStep(NO_MORE));
    t := Next(t, OwnerStep(NO_MORE));
  }

  /** A name that a path can end in. */
  predicate IsBase(base: string) {
    base != "" && forall i :: 0 <= i < |base| ==> base[i] != '/' && base[i] != '\\'
  }

  /** Whatever the interleaving, "absent" is never said of a name that the last sweep listed. */
  ghost predicate NeverMissed(base: string) {
    forall s, p, k: nat | Reachable(s) && s.owner == Answered(p, k, false) && p.base == base ::
      k < |s.records| && forall name :: name in s.records[k].swept ==> !SameName(name, base)
  }

  lemma ReachesSampling(base: string) returns (s: State, p: Probe)
    requires IsBase(base)
    ensures Reachable(s) && Untouched(s) && s.owner == Sampling(p) && p.base == base && p.gen == s.gen
    ensures s.invals == map[]
  {
    SplitOf(base);
    ReachesInit();
    ReachesNext(INIT, Call("a:/" + base, 1, 1));
    p := Probe("a:", base, INIT.gen, {});
    s := Next(INIT, Call("a:/" + base, 1, 1));
  }

  /** A hidden file is listed by the sweep that says it is absent. */
  lemma HiddenIsMissed(base: string) returns (s: State, p: Probe)
    requires IsBase(base) && !Listed(base)
    ensures Reachable(s) && s.owner == Answered(p, 0, false) && p.base == base
    ensures Shaped(s) && s.records[0].swept == [base]
  {
    var s0, s1, s2, s3, s4;
    s0, p := ReachesSampling(base);
    s1 := ReachesNaming(s0, p);
    s2 := ReachesReading(s1, p);
    s3 := ReachesEmptyIndex(s2, p, s2.owner.at, base);
    s4 := ReachesSearching(s3, p);
    s := ReachesAbsent(s4, p);
  }

  /** The names the rule holds for are exactly those that do not start with a dot. */
  lemma NeverMissedIffListed(base: string)
    requires IsBase(base)
    ensures NeverMissed(base) <==> Listed(base)
  {
    if Listed(base) {
      forall s, p, k: nat | Reachable(s) && s.owner == Answered(p, k, false) && p.base == base
        ensures k < |s.records| && forall name :: name in s.records[k].swept ==> !SameName(name, base)
      {
        var events :| Run(events) == s;
        AbsentIsTrue(events, p, k);
      }
    } else {
      var s, p := HiddenIsMissed(base);
      assert SameName(base, base) && base in s.records[0].swept;
    }
  }

  // ----- a run with an unseen bump --------------------------------------------------------------

  lemma ReachesTwoInvalidators(base: string) returns (s: State)
    requires IsBase(base)
    ensures Reachable(s) && Inv(s) && s.owner.Sampling? && 1 in s.invals && 2 in s.invals
    ensures s.invals[1].pc.Begin? && s.invals[2].pc.Begin?
  {
    var s0, p := ReachesSampling(base);
    var s1 := ReachesInvalidator(s0, 1);
    s := ReachesInvalidator(s1, 2);
  }

  lemma ReachesInvalidator(s: State, id: int) returns (t: State)
    requires Reachable(s) && id !in s.invals
    ensures Reachable(t) && Inv(t) && t.owner == s.owner && t.invals.Keys == s.invals.Keys + {id} && t.invals[id].pc.Begin?
    ensures forall k :: k in s.invals ==> t.invals[k] == s.invals[k]
  {
    ReachesNext(s, Invalidate(id));
    t := Next(s, Invalidate(id));
    InvOf(t);
  }

  lemma InvOf(s: State)
    requires Reachable(s)
    ensures Inv(s)
  {
    var events :| Run(events) == s;
    RunOk(events);
  }

  /** Such a run exists: behind `first` the probe holds the generation, and `last` has it again although it
      was written in between. */
  lemma UnseenBumpIsReachable(base: string) returns (first: State, last: State)
    requires IsBase(base)
    ensures Reachable(first) && Shaped(first) && last == Next(first, InvalStep(2)) && Reachable(last)
    ensures first.owner.Looking? && first.owner == last.owner && first.owner.p.gen == first.gen
    ensures last.gen.writes == first.gen.writes + 1 && last.gen.value == first.gen.value
  {
    var s := ReachesTwoInvalidators(base);
    OverlappingBumpGoesUnseen(s, 1, 2, NO_MORE);
    ReachesNext(s, InvalStep(1));
    first := Next(s, InvalStep(1));
    ReachesNext(first, InvalStep(2));
    first := Next(first, InvalStep(2));
    ReachesNext(first, InvalStep(1));
    first := Next(first, InvalStep(1));
    ReachesNext(first, OwnerStep(NO_MORE));
    first := Next(first, OwnerStep(NO_MORE));
    ReachesNext(first, InvalStep(2));
    last := Next(first, InvalStep(2));
  }

  lemma SplitOf(base: string)
    requires IsBase(base)
    ensures Admit("a:/" + base, 1, 1) == Some(("a:", base))
  {
    var path := "a:/" + base;
    assert path[..2] == "a:" && path[3..] == base;
    LastIs(path, '/', 2);
    assert forall i :: 0 <= i < |path| ==> path[i] != '\\';
    assert path[0] == 'a';
  }
}
