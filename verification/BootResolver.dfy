/** The search of src/bdmsupport.c for the mass slot OPL was started from. Devices and the clock are
    parameters: what a slot shows may change from one round of the search to the next. */
module BootResolver {
  import opened Wrappers
  import opened Text
  import opened BdmPresence

  const SLOTS: nat := 8
  const PAUSE: nat := 100
  const STEM_SIZE: nat := 16
  const PATH_SIZE: nat := 256

  /** What a slot shows: its driver if one is mounted, the booted ELF, the boot folder. */
  datatype Slot = Slot(kind: Option<Kind>, hasElf: bool, hasDir: bool)

  datatype Budgets = Budgets(initial: nat, ata: nat, mx4sio: nat, expensive: nat)

  /** A search: the family it is pinned to, whether the path is the bare mass: one, the hinted slot and
      whether the name of the ELF is known. */
  datatype Query = Query(filter: Kind, isMass: bool, hint: nat, haveElf: bool)

  const EMPTY := Slot(None, false, false)

  type View = s: seq<Slot> | |s| == SLOTS witness [EMPTY, EMPTY, EMPTY, EMPTY, EMPTY, EMPTY, EMPTY, EMPTY]

  /** What the slots show in every round. */
  type World = nat -> View

  // ----- the paths ------------------------------------------------------------------------------

  /** How long the stem is without its trailing digits. */
  function StemLength(s: string, n: nat): (r: nat)
    requires n <= |s|
    ensures r <= n
  {
    if n > 0 && IsDigit(s[n - 1]) then StemLength(s, n - 1) else n
  }

  function Number(digits: string): int {
    if digits == "" then 0 else 10 * Number(digits[..|digits| - 1]) + (digits[|digits| - 1] as int - '0' as int)
  }

  /** bdmParseBootStem: the device name and its unit, -1 when there is none that can be read. */
  function ParseStem(path: string): Option<(string, int)> {
    var colon := Find(path, ':');
    if colon == |path| || colon == 0 || colon >= STEM_SIZE then None
    else
      var n := StemLength(path, colon);
      if n == 0 then None
      else Some((path[..n], if 0 < colon - n <= 2 then Number(path[n..colon]) else -1))
  }

  function KindOfDriver(driver: string): Kind {
    match driver
    case "usb" => USB
    case "sd" => ILINK
    case "ilink" => ILINK
    case "sdc" => SDC
    case "mx4sio" => SDC
    case "ata" => ATA
    case "udp" => UDPBD
    case _ => Unclassified
  }

  /** A path with a device name, its unit number and a folder is read as those. */
  lemma StemIs(name: string, digits: string, rest: string)
    requires name != "" && NoneOf(name, {':'}) && !IsDigit(name[|name| - 1]) && |name| + |digits| < STEM_SIZE
    requires forall i :: 0 <= i < |digits| ==> IsDigit(digits[i])
    ensures ParseStem(name + digits + ":" + rest) ==
            Some((name, if |digits| == 1 then digits[0] as int - 48
                        else if |digits| == 2 then 10 * (digits[0] as int - 48) + digits[1] as int - 48
                        else -1))
  {
    var path, colon := name + digits + ":" + rest, |name + digits|;
    assert path[..colon] == name + digits && path[colon] == ':';
    forall i | 0 <= i < colon ensures path[i] != ':' { assert path[i] == (name + digits)[i]; }
    FindIs(path, ':', colon);
    StemEnds(path, |name|, colon);
    assert path[..|name|] == name && path[|name|..colon] == digits;
    if 0 < |digits| <= 2 {
      assert digits[..1][..0] == "" && digits[..1][0] == digits[0];
      assert Number(digits[..1]) == 10 * Number("") + (digits[0] as int - 48);
      if |digits| == 1 { assert digits[..1] == digits; }
    }
  }

  lemma {:induction false} StemEnds(s: string, n: nat, upTo: nat)
    requires 0 < n <= upTo <= |s| && !IsDigit(s[n - 1]) && forall i :: n <= i < upTo ==> IsDigit(s[i])
    ensures StemLength(s, upTo) == n
  {
    if n < upTo { StemEnds(s, n, upTo - 1); }
  }

  function SlotName(slot: nat): string
    requires slot < SLOTS
  {
    "mass" + ['0' + slot as char] + ":"
  }

  /** bdmRewriteBootDir: another device prefix, the same folder. */
  function Rewritten(slot: nat, tail: string, size: nat): string
    requires slot < SLOTS && size > 0
  {
    Truncate(Truncate(SlotName(slot) + (if tail == "" || tail[0] == '/' then tail else "/" + tail), PATH_SIZE), size)
  }

  /** A rewritten path names the chosen slot and keeps the folder, when it fits. */
  lemma RewrittenParses(slot: nat, tail: string, size: nat)
    requires slot < SLOTS && |tail| + 7 < PATH_SIZE <= size
    ensures ParseStem(Rewritten(slot, tail, size)) == Some(("mass", slot))
    ensures Rewritten(slot, tail, size)[6..] == if tail == "" || tail[0] == '/' then tail else "/" + tail
  {
    var path := Rewritten(slot, tail, size);
    assert path[..6] == SlotName(slot);
    assert path[5] == ':' && forall i :: 0 <= i < 5 ==> path[i] == SlotName(slot)[i];
    FindIs(path, ':', 5);
    assert StemLength(path, 5) == StemLength(path, 4) == 4;
    assert path[..4] == "mass";
    assert path[4..5] == ['0' + slot as char];
    assert Number(path[4..5]) == slot;
  }

  // ----- the order of the slots -----------------------------------------------------------------

  function Order(hint: nat, scan: nat): nat {
    if scan == 0 then hint else if scan <= hint then scan - 1 else scan
  }

  function Position(hint: nat, slot: nat): nat {
    if slot == hint then 0 else if slot < hint then slot + 1 else slot
  }

  /** The visiting order starts with the hint and is a permutation of the slots. */
  lemma OrderIsPermutation(hint: nat)
    requires hint < SLOTS
    ensures Order(hint, 0) == hint
    ensures forall scan :: 0 <= scan < SLOTS ==> Order(hint, scan) < SLOTS && Position(hint, Order(hint, scan)) == scan
    ensures forall slot :: 0 <= slot < SLOTS ==> Position(hint, slot) < SLOTS && Order(hint, Position(hint, slot)) == slot
  {
  }

  lemma OrderGoesUp(hint: nat, i: nat, j: nat)
    requires 0 < i < j < SLOTS && hint < SLOTS
    ensures Order(hint, i) < Order(hint, j)
  {
  }

  // ----- evidence -------------------------------------------------------------------------------

  predicate Candidate(q: Query, s: Slot) {
    s.kind.Some? && (q.filter == Unclassified || s.kind.value == q.filter)
  }

  /** The folder counts, for the bare mass: only on the hinted slot. */
  predicate FolderCounts(q: Query, slot: nat, s: Slot) {
    s.hasDir && (!q.isMass || slot == q.hint)
  }

  /** Definitive evidence: the ELF itself, or the folder when no ELF name is known. */
  predicate Proves(q: Query, slot: nat, s: Slot) {
    Candidate(q, s) && if q.haveElf then s.hasElf else FolderCounts(q, slot, s)
  }

  /** Only a guess: the folder without the ELF. */
  predicate Suggests(q: Query, slot: nat, s: Slot) {
    Candidate(q, s) && q.haveElf && !s.hasElf && FolderCounts(q, slot, s)
  }

  ghost predicate NoProof(q: Query, slots: View) {
    forall slot :: 0 <= slot < SLOTS ==> !Proves(q, slot, slots[slot])
  }

  ghost predicate NoGuess(q: Query, slots: View) {
    forall slot :: 0 <= slot < SLOTS ==> !Suggests(q, slot, slots[slot])
  }

  /** The first slot in visiting order with proof, and the first one with a folder only. */
  ghost predicate FirstProof(q: Query, slots: View, slot: nat) {
    && q.hint < SLOTS && slot < SLOTS && Proves(q, slot, slots[slot])
    && forall scan :: 0 <= scan < Position(q.hint, slot) ==>
         !Proves(q, Order(q.hint, scan), slots[Order(q.hint, scan)])
  }

  ghost predicate FirstGuess(q: Query, slots: View, slot: nat) {
    && q.hint < SLOTS && slot < SLOTS && Suggests(q, slot, slots[slot])
    && forall scan :: 0 <= scan < Position(q.hint, slot) ==>
         !Suggests(q, Order(q.hint, scan), slots[Order(q.hint, scan)])
  }

  /** Where nothing is proven or suggested, no slot of the family holds what was looked for. */
  lemma NothingThere(q: Query, slots: View)
    ensures NoProof(q, slots) && NoGuess(q, slots) <==>
            forall slot :: 0 <= slot < SLOTS && slots[slot].kind.Some? && q.filter in {Unclassified, slots[slot].kind.value} ==>
              && (q.haveElf ==> !slots[slot].hasElf)
              && (slots[slot].hasDir ==> q.isMass && slot != q.hint)
  {
    forall slot | 0 <= slot < SLOTS
      ensures !Proves(q, slot, slots[slot]) && !Suggests(q, slot, slots[slot]) <==>
              (slots[slot].kind.Some? && q.filter in {Unclassified, slots[slot].kind.value} ==>
                && (q.haveElf ==> !slots[slot].hasElf)
                && (slots[slot].hasDir ==> q.isMass && slot != q.hint))
    {
    }
  }

  /** One round over all slots. */
  method ScanSlots(q: Query, slots: View) returns (found: Option<nat>, fallback: Option<nat>)
    requires q.hint < SLOTS
    ensures if found.Some? then FirstProof(q, slots, found.value) else NoProof(q, slots)
    ensures found.None? ==> if fallback.Some? then FirstGuess(q, slots, fallback.value) else NoGuess(q, slots)
  {
    OrderIsPermutation(q.hint);
    found, fallback := None, None;
    var scan := 0;
    while scan < SLOTS
      invariant scan <= SLOTS
      invariant forall k :: 0 <= k < scan ==> !Proves(q, Order(q.hint, k), slots[Order(q.hint, k)])
      invariant if fallback.Some? then FirstGuess(q, slots, fallback.value)
                else forall k :: 0 <= k < scan ==> !Suggests(q, Order(q.hint, k), slots[Order(q.hint, k)])
    {
      var i := if scan == 0 then q.hint else if scan <= q.hint then scan - 1 else scan;
      var s := slots[i];
      if s.kind.Some? && (q.filter == Unclassified || s.kind.value == q.filter) {
        if q.haveElf && s.hasElf { return Some(i), fallback; }
        var counts := s.hasDir && (!q.isMass || i == q.hint);
        if !q.haveElf && counts { return Some(i), fallback; }
        if fallback.None? && counts { fallback := Some(i); }
      }
      scan := scan + 1;
    }
    forall slot | 0 <= slot < SLOTS ensures !Proves(q, slot, slots[slot]) {
      assert Order(q.hint, Position(q.hint, slot)) == slot;
    }
    forall slot | fallback.None? && 0 <= slot < SLOTS ensures !Suggests(q, slot, slots[slot]) {
      assert Order(q.hint, Position(q.hint, slot)) == slot;
    }
  }

  // ----- the search -----------------------------------------------------------------------------

  datatype Found = Proven(slot: nat) | Guessed(slot: nat) | NotMounted

  /** Which transports are up: the one family of a typed search, or one tier after the other. */
  function LoadedAt(filter: Kind, tier: nat): seq<Kind> {
    if filter != Unclassified then [filter]
    else if tier == 0 then [USB] else if tier == 1 then [USB, SDC] else [USB, SDC, ILINK, ATA]
  }

  function BudgetAt(b: Budgets, filter: Kind, tier: nat): nat {
    if filter == ATA then b.ata
    else b.initial + (if filter == Unclassified && tier >= 1 then b.mx4sio else 0)
                   + (if filter == Unclassified && tier >= 2 then b.expensive else 0)
  }

  function WholeBudget(b: Budgets, filter: Kind): nat {
    match filter
    case Unclassified => b.initial + b.mx4sio + b.expensive
    case ATA => b.ata
    case _ => b.initial
  }

  ghost predicate Monotone(clock: nat -> nat) {
    forall i, j :: 0 <= i <= j ==> clock(i) <= clock(j)
  }

  /** The last round of a search that found no proof. */
  ghost predicate Exhausted(q: Query, b: Budgets, world: World, clock: nat -> nat, rounds: nat, pauses: nat,
                            loaded: seq<Kind>) {
    && rounds > 0 && loaded == (if q.filter == Unclassified then [USB, SDC, ILINK, ATA] else [q.filter])
    && NoProof(q, world(rounds - 1))
    && clock(rounds - 1) + PAUSE * pauses > clock(0) + WholeBudget(b, q.filter)
  }

  /** The time of the cheaper transports is over. */
  ghost predicate TimeOver(b: Budgets, tier: nat, clock: nat -> nat, rounds: nat, pauses: nat) {
    tier > 0 ==>
      && rounds > 0
      && clock(rounds - 1) + PAUSE * pauses > clock(0) + b.initial + if tier > 1 then b.mx4sio else 0
  }

  /** The loop of bdmResolveBootDirWithBudget. The clock counts what the probing itself takes; every pause
      adds to it. */
  method Search(q: Query, b: Budgets, world: World, clock: nat -> nat)
      returns (r: Found, rounds: nat, pauses: nat, loaded: seq<Kind>)
    requires q.hint < SLOTS && Monotone(clock)
    // the first proof decides, and no earlier round had one
    ensures rounds > 0 && forall k :: 0 <= k < rounds - 1 ==> NoProof(q, world(k))
    ensures r.Proven? ==> FirstProof(q, world(rounds - 1), r.slot)
    // a folder alone is only taken after every transport had its time and nothing was proven
    ensures !r.Proven? ==> Exhausted(q, b, world, clock, rounds, pauses, loaded)
    ensures r.Guessed? ==> FirstGuess(q, world(rounds - 1), r.slot)
    ensures r.NotMounted? ==> NoGuess(q, world(rounds - 1))
    // an untyped search loads the next transport only when the time of those before it is over
    ensures q.filter == Unclassified ==> loaded in {[USB], [USB, SDC], [USB, SDC, ILINK, ATA]}
    ensures q.filter == Unclassified && |loaded| > 1 ==> clock(rounds - 1) + PAUSE * pauses > clock(0) + b.initial
    ensures q.filter == Unclassified && |loaded| > 2 ==>
              clock(rounds - 1) + PAUSE * pauses > clock(0) + b.initial + b.mx4sio
    // and the search ends within the budgets
    ensures PAUSE * pauses <= WholeBudget(b, q.filter) + PAUSE && rounds <= pauses + 3
  {
    var tier := if q.filter != Unclassified then 2 else 0;
    var budget := if q.filter == ATA then b.ata else b.initial;
    loaded := if q.filter != Unclassified then [q.filter] else [USB];
    rounds, pauses := 0, 0;
    var start := clock(0);
    while true
      invariant tier <= 2 && (q.filter != Unclassified ==> tier == 2)
      invariant budget == BudgetAt(b, q.filter, tier) && loaded == LoadedAt(q.filter, tier)
      invariant PAUSE * pauses <= budget + PAUSE && rounds <= pauses + tier
      invariant forall k :: 0 <= k < rounds ==> NoProof(q, world(k))
      invariant q.filter == Unclassified ==> TimeOver(b, tier, clock, rounds, pauses)
      decreases 2 - tier, budget + PAUSE - PAUSE * pauses
    {
      var round := rounds;
      var found, fallback := ScanSlots(q, world(round));
      rounds := rounds + 1;
      if found.Some? { return Proven(found.value), rounds, pauses, loaded; }
      if clock(round) + PAUSE * pauses - start > budget {
        if tier == 0 {
          tier, loaded, budget := 1, loaded + [SDC], budget + b.mx4sio;
          continue;
        }
        if tier == 1 {
          tier, loaded, budget := 2, loaded + [ILINK, ATA], budget + b.expensive;
          continue;
        }
        if fallback.Some? { return Guessed(fallback.value), rounds, pauses, loaded; }
        return NotMounted, rounds, pauses, loaded;
      }
      assert clock(0) <= clock(round);
      pauses := pauses + 1;
    }
  }

  // ----- an explicit massN: ---------------------------------------------------------------------

  /** Ask one slot for its driver until it answers or the budget is spent. `probes` counts the questions. */
  method AwaitIdentity(identity: nat -> Option<Kind>, clock: nat -> nat, from: nat, budget: nat)
      returns (kind: Option<Kind>, probes: nat, pauses: nat)
    requires Monotone(clock)
    ensures probes > from && kind == identity(probes - 1)
    ensures forall k :: from <= k < probes - 1 ==> identity(k) == None
    ensures kind.None? ==> clock(probes - 1) + PAUSE * pauses > clock(from) + budget
    ensures PAUSE * pauses <= budget + PAUSE && probes == from + pauses + 1
  {
    probes, pauses := from, 0;
    while true
      invariant probes == from + pauses && PAUSE * pauses <= budget + PAUSE
      invariant forall k :: from <= k < probes ==> identity(k) == None
      decreases budget + PAUSE - PAUSE * pauses
    {
      var probe := probes;
      kind := identity(probe);
      probes := probes + 1;
      if kind.Some? || clock(probe) + PAUSE * pauses - clock(from) > budget { return; }
      assert clock(from) <= clock(probe);
      pauses := pauses + 1;
    }
  }

  /** 1 when the slot is known now, -1 when it is not or is a network device. */
  function Verdict(kind: Option<Kind>): (code: int)
    ensures code == 1 <==> kind !in {None, Some(UDPBD)}
    ensures code == 1 || code == -1
  {
    if kind.Some? && kind.value != UDPBD then 1 else -1
  }

  /** bdmResolveLiteralMassSlot: no other slot is ever asked, and the type is only replaced by an answer. */
  method ResolveLiteral(known: Kind, b: Budgets, identity: nat -> Option<Kind>, clock: nat -> nat)
      returns (code: int, kind: Kind, probes: nat, pauses: nat)
    requires Monotone(clock)
    ensures probes > 0 && code == Verdict(identity(probes - 1))
    ensures forall k :: 0 <= k < probes - 1 ==> identity(k) == None
    ensures kind == if identity(probes - 1).Some? then identity(probes - 1).value else known
    ensures PAUSE * pauses <= (if known == ATA then b.ata
                               else if known == Unclassified then b.initial + b.mx4sio + b.expensive
                               else b.initial) + 3 * PAUSE
  {
    var found := identity(0);
    probes, pauses := 1, 0;
    if found.Some? || known == UDPBD {
      return Verdict(found), if found.Some? then found.value else known, probes, pauses;
    }
    var more;
    if known != Unclassified {
      found, probes, more := AwaitIdentity(identity, clock, probes, if known == ATA then b.ata else b.initial);
      return Verdict(found), if found.Some? then found.value else known, probes, more;
    }
    found, probes, more := AwaitIdentity(identity, clock, probes, b.initial);
    pauses := pauses + more;
    if found.None? {
      found, probes, more := AwaitIdentity(identity, clock, probes, b.mx4sio);
      pauses := pauses + more;
    }
    if found.None? {
      found, probes, more := AwaitIdentity(identity, clock, probes, b.expensive);
      pauses := pauses + more;
    }
    return Verdict(found), if found.Some? then found.value else known, probes, pauses;
  }

  // ----- the whole resolver ---------------------------------------------------------------------

  /** The family a path asks for, None when it is not a path of a block device. */
  function FilterOf(path: string, known: Kind): Option<Kind> {
    match ParseStem(path)
    case None => None
    case Some((stem, unit)) =>
      if stem == "mass" then Some(known)
      else if KindOfDriver(stem) == Unclassified then None
      else Some(KindOfDriver(stem))
  }

  predicate IsLiteral(path: string) {
    ParseStem(path).Some? && ParseStem(path).value.0 == "mass" && ParseStem(path).value.1 >= 0
  }

  function TailOf(path: string): string {
    path[if Find(path, ':') < |path| then Find(path, ':') + 1 else |path|..]
  }

  function HintOf(unit: int): nat {
    if 0 <= unit < SLOTS then unit else 0
  }

  /** The path was moved to one slot, which really is of the reported kind. */
  ghost predicate MovedTo(path: string, size: nat, path': string, kind: Kind, world: World, rounds: nat, slot: nat)
    requires size > 0
  {
    && rounds > 0 && slot < SLOTS && path' == Rewritten(slot, TailOf(path), size)
    && world(rounds - 1)[slot].kind == Some(kind)
  }

  /** The search that a path asks for. */
  function QueryOf(path: string, elfName: string, known: Kind): Query
    requires FilterOf(path, known).Some?
  {
    var (stem, unit) := ParseStem(path).value;
    Query(FilterOf(path, known).value, stem == "mass", HintOf(unit), elfName != "")
  }

  /** Which family a path asks for: the one of its device name, and any other name asks for none. The folder
      is what stands behind the colon, and only mass with one or two digits names a slot outright. */
  lemma PathAsksFor(name: string, digits: string, rest: string, known: Kind)
    requires name != "" && NoneOf(name, {':'}) && !IsDigit(name[|name| - 1]) && |name| + |digits| < STEM_SIZE
    requires forall i :: 0 <= i < |digits| ==> IsDigit(digits[i])
    ensures FilterOf(name + digits + ":" + rest, known) ==
            if name == "mass" then Some(known)
            else if name == "usb" then Some(USB)
            else if name in {"sd", "ilink"} then Some(ILINK)
            else if name in {"sdc", "mx4sio"} then Some(SDC)
            else if name == "ata" then Some(ATA)
            else if name == "udp" then Some(UDPBD)
            else None
    ensures TailOf(name + digits + ":" + rest) == rest
    ensures IsLiteral(name + digits + ":" + rest) <==> name == "mass" && 0 < |digits| <= 2
  {
    StemIs(name, digits, rest);
    var path, colon := name + digits + ":" + rest, |name + digits|;
    forall i | 0 <= i < colon ensures path[i] != ':' { assert path[i] == (name + digits)[i]; }
    FindIs(path, ':', colon);
    assert path[colon + 1..] == rest;
  }

  /** The search looks at the slot the path names first, if there is such a slot, and otherwise at the first. */
  lemma PathHints(name: string, digit: char, rest: string, elfName: string, known: Kind)
    requires name in {"mass", "usb", "sd", "ilink", "sdc", "mx4sio", "ata", "udp"} && IsDigit(digit)
    ensures var path := name + [digit] + ":" + rest;
            && FilterOf(path, known).Some?
            && QueryOf(path, elfName, known).isMass == (name == "mass")
            && QueryOf(path, elfName, known).haveElf == (elfName != "")
            && QueryOf(path, elfName, known).hint == if digit < '8' then digit as int - 48 else 0
  {
    PathAsksFor(name, [digit], rest, known);
    StemIs(name, [digit], rest);
  }

  /** What is known of the slot a path was moved to: it was proven, or it was the first guess when the search
      was exhausted; and no earlier round had a proof. */
  ghost predicate Justified(q: Query, b: Budgets, world: World, clock: nat -> nat, rounds: nat, pauses: nat,
                            loaded: seq<Kind>, slot: nat) {
    && rounds > 0 && (forall k :: 0 <= k < rounds - 1 ==> NoProof(q, world(k)))
    && (|| FirstProof(q, world(rounds - 1), slot)
        || (Exhausted(q, b, world, clock, rounds, pauses, loaded) && FirstGuess(q, world(rounds - 1), slot)))
  }

  /** What a justified slot shows: it is of the family asked for; with the name of an ELF it holds that ELF,
      or it holds the folder and no slot of the family holds the ELF; without a name it holds the folder.
      For the bare mass: a folder only counts on the hinted slot. */
  lemma JustifiedShows(q: Query, b: Budgets, world: World, clock: nat -> nat, rounds: nat, pauses: nat,
                       loaded: seq<Kind>, slot: nat)
    requires q.hint < SLOTS && Justified(q, b, world, clock, rounds, pauses, loaded, slot)
    ensures slot < SLOTS
    ensures var slots := world(rounds - 1);
            && slots[slot].kind.Some? && q.filter in {Unclassified, slots[slot].kind.value}
            && ((q.haveElf && slots[slot].hasElf) || (slots[slot].hasDir && (q.isMass ==> slot == q.hint)))
            && (q.haveElf && !slots[slot].hasElf ==>
                  forall i :: 0 <= i < SLOTS && slots[i].kind.Some? && q.filter in {Unclassified, slots[i].kind.value} ==>
                    !slots[i].hasElf)
  {
    var slots := world(rounds - 1);
    if q.haveElf && !slots[slot].hasElf {
      forall i | 0 <= i < SLOTS && slots[i].kind.Some? && q.filter in {Unclassified, slots[i].kind.value}
        ensures !slots[i].hasElf
      {
        assert !Proves(q, i, slots[i]);
      }
    }
  }

  /** bdmResolveBootDirWithBudget. `literal` is what the slot of an explicit massN: answers; the ghost
      results tell how the search went. */
  method ResolveBootDir(path: string, size: nat, elfName: string, known: Kind, b: Budgets, world: World,
                        literal: nat -> Option<Kind>, clock: nat -> nat)
      returns (code: int, path': string, kind: Kind,
               ghost rounds: nat, ghost pauses: nat, ghost loaded: seq<Kind>, ghost slot: nat)
    requires size > 0 && Monotone(clock)
    ensures code == 1 || code == 0 || code == -1
    ensures code == 0 <==> FilterOf(path, known).None?
    ensures code == 0 ==> kind == known
    // a path is only ever changed on success, and an explicit massN: never
    ensures code != 1 || IsLiteral(path) ==> path' == path
    ensures code == 1 && !IsLiteral(path) ==>
              && MovedTo(path, size, path', kind, world, rounds, slot)
              && Justified(QueryOf(path, elfName, known), b, world, clock, rounds, pauses, loaded, slot)
    // what an explicit massN: says when it is asked for the last time decides
    ensures IsLiteral(path) && known != UDPBD ==>
              && rounds > 0 && code == Verdict(literal(rounds - 1))
              && kind == (if literal(rounds - 1).Some? then literal(rounds - 1).value else known)
    ensures IsLiteral(path) && known == UDPBD ==> code == -1 && kind == known
    // a failure keeps the family the path named, and means that nothing was found in all that time
    ensures code == -1 && !IsLiteral(path) ==>
              && Some(kind) == FilterOf(path, known)
              && (kind != UDPBD ==>
                    && Exhausted(QueryOf(path, elfName, known), b, world, clock, rounds, pauses, loaded)
                    && NoGuess(QueryOf(path, elfName, known), world(rounds - 1)))
  {
    rounds, pauses, loaded, slot := 0, 0, [], 0;
    path', kind, code := path, known, 0;
    var parsed := ParseStem(path);
    if parsed.None? { return; }
    var isMass, unit := parsed.value.0 == "mass", parsed.value.1;
    var filter := if isMass then known else KindOfDriver(parsed.value.0);
    if !isMass && filter == Unclassified { return; }
    code, kind := -1, filter;
    if filter == UDPBD { return; }
    if isMass && unit >= 0 {
      var probes, waits;
      code, kind, probes, waits := ResolveLiteral(known, b, literal, clock);
      rounds := probes;
      return;
    }
    var q := Query(filter, isMass, HintOf(unit), elfName != "");
    var found, n, p, l := Search(q, b, world, clock);
    rounds, pauses, loaded := n, p, l;
    if found.NotMounted? { return; }
    slot := found.slot;
    code, path', kind := 1, Rewritten(found.slot, TailOf(path), size), world(n - 1)[found.slot].kind.value;
  }
}
