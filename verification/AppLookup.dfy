/** The open-addressing table of src/appsupport.c and its agreement with a first-match linear scan. */
module AppLookup {
  const FREE := -1

  function Djb(s: string): bv32 {
    if s == "" then 5381
    else Mix(Djb(s[..|s| - 1]), s[|s| - 1])
  }

  function Mix(h: bv32, c: char): bv32 {
    ((h << 5) + h) ^ ((c as int % 256) as bv32)
  }

  function HashOf(s: string): nat {
    Djb(s) as int
  }

  /** appHashStartup */
  method HashStartup(value: string) returns (hash: nat)
    ensures hash == HashOf(value)
  {
    var h: bv32, i := 5381, 0;
    while i < |value|
      invariant i <= |value| && h == Djb(value[..i])
    {
      assert value[..i + 1][..i] == value[..i];
      h := Mix(h, value[i]);
      i := i + 1;
    }
    assert value[..i] == value;
    hash := h as int;
  }

  /** Two known values of the hash. */
  lemma KnownHashes()
    ensures HashOf("") == 5381 && HashOf("A") == 177636 && HashOf("A0") == 5861972
  {
    assert "A"[..0] == "" && "A0"[..1] == "A";
    KnownMixes();
  }

  lemma KnownMixes()
    ensures Mix(5381, 'A') == 177636 && Mix(177636, '0') == 5861972
  {
  }

  // ----- power-of-two masks ---------------------------------------------------------------------

  function And(x: nat, y: nat): (r: nat)
    ensures r <= y
  {
    if x == 0 || y == 0 then 0 else (if x % 2 == 1 && y % 2 == 1 then 1 else 0) + 2 * And(x / 2, y / 2)
  }

  predicate PowerOfTwo(n: nat) {
    n == 1 || (n > 1 && n % 2 == 0 && PowerOfTwo(n / 2))
  }

  /** Masking with size - 1 keeps a slot, and takes the one past the last back to the first. */
  lemma {:induction false} MaskWraps(x: nat, size: nat)
    requires PowerOfTwo(size) && x <= size
    ensures And(x, size - 1) == if x < size then x else 0
    decreases size
  {
    if size > 1 && x > 0 { MaskWraps(x / 2, size / 2); }
  }

  // ----- probe chains ---------------------------------------------------------------------------

  /** The slot d steps after home, going round once. */
  function Slot(home: nat, d: nat, size: nat): (s: nat)
    requires home < size && d < size
    ensures s < size
  {
    if home + d < size then home + d else home + d - size
  }

  function Distance(home: nat, slot: nat, size: nat): (d: nat)
    requires home < size && slot < size
    ensures d < size && Slot(home, d, size) == slot
  {
    if home <= slot then slot - home else slot + size - home
  }

  function Home(hash: string -> nat, name: string, size: nat): (h: nat)
    requires size > 0
    ensures h < size
  {
    And(hash(name), size - 1)
  }

  function Used(t: seq<int>): (n: nat)
    ensures n <= |t|
  {
    if t == [] then 0 else Used(t[..|t| - 1]) + if t[|t| - 1] == FREE then 0 else 1
  }

  lemma {:induction false} UsedAfter(t: seq<int>, slot: nat, i: nat)
    requires slot < |t| && t[slot] == FREE
    ensures Used(t[slot := i]) == Used(t) + 1
  {
    var init := t[..|t| - 1];
    if slot == |t| - 1 {
      assert t[slot := i][..|t| - 1] == init;
    } else {
      assert t[slot := i][..|t| - 1] == init[slot := i];
      UsedAfter(init, slot, i);
    }
  }

  lemma {:induction false} FreeSlot(t: seq<int>) returns (slot: nat)
    requires Used(t) < |t|
    ensures slot < |t| && t[slot] == FREE
  {
    if t[|t| - 1] == FREE { slot := |t| - 1; } else { slot := FreeSlot(t[..|t| - 1]); }
  }

  /** Record i sits d steps from home, behind nothing but smaller indices. */
  ghost predicate Sits(t: seq<int>, home: nat, d: nat, i: nat)
    requires home < |t|
  {
    && d < |t| && t[Slot(home, d, |t|)] == i
    && forall e :: 0 <= e < d ==> 0 <= t[Slot(home, e, |t|)] < i
  }

  ghost predicate Seated(t: seq<int>, home: nat, i: nat)
    requires home < |t|
  {
    exists d :: Sits(t, home, d, i)
  }

  ghost predicate Holds(t: seq<int>, names: seq<string>, n: nat)
    requires n <= |names|
  {
    forall s :: 0 <= s < |t| ==> t[s] == FREE || (0 <= t[s] < n && names[t[s]] != "")
  }

  ghost predicate Seats(hash: string -> nat, t: seq<int>, names: seq<string>, n: nat)
    requires n <= |names| && |t| > 0
  {
    forall i :: 0 <= i < n && names[i] != "" ==> Seated(t, Home(hash, names[i], |t|), i)
  }

  /** The table of the first n records: it holds indices of named records only, none of them is
      behind a gap or behind a later one, and at most n slots are used. */
  ghost predicate Indexes(hash: string -> nat, t: seq<int>, names: seq<string>, n: nat)
    requires n <= |names|
  {
    |t| > 0 && Used(t) <= n && Holds(t, names, n) && Seats(hash, t, names, n)
  }

  /** The first record with this startup, or |names|. */
  function FirstMatch(names: seq<string>, query: string): (r: nat)
    ensures r <= |names|
    ensures r < |names| ==> names[r] == query
    ensures forall i :: 0 <= i < r ==> names[i] != query
  {
    MatchFrom(names, query, 0)
  }

  function MatchFrom(names: seq<string>, query: string, from: nat): (r: nat)
    requires from <= |names|
    ensures from <= r <= |names|
    ensures r < |names| ==> names[r] == query
    ensures forall i :: from <= i < r ==> names[i] != query
    decreases |names| - from
  {
    if from == |names| || names[from] == query then from else MatchFrom(names, query, from + 1)
  }

  /** A probe stops at a free slot or at the query. */
  ghost predicate Stops(t: seq<int>, names: seq<string>, query: string, home: nat, d: nat)
    requires home < |t|
  {
    d < |t| && (var k := t[Slot(home, d, |t|)]; k == FREE || (0 <= k < |names| && names[k] == query))
  }

  /** Wherever the probe of a query first stops, it is at the first match, or at a free slot when
      there is none. */
  lemma ProbeFindsFirst(hash: string -> nat, t: seq<int>, names: seq<string>, query: string, d: nat)
    requires Indexes(hash, t, names, |names|) && query != "" && d < |t|
    requires Stops(t, names, query, Home(hash, query, |t|), d)
    requires forall e :: 0 <= e < d ==> !Stops(t, names, query, Home(hash, query, |t|), e)
    ensures t[Slot(Home(hash, query, |t|), d, |t|)] == var j := FirstMatch(names, query); if j < |names| then j else FREE
  {
    var j := FirstMatch(names, query);
    if j < |names| {
      var home := Home(hash, query, |t|);
      var dj :| Sits(t, home, dj, j);
      assert Stops(t, names, query, home, dj);
    }
  }

  /** "" is in no slot, so its probe only stops at a free one. */
  lemma NoEmptyName(hash: string -> nat, t: seq<int>, names: seq<string>, home: nat, d: nat)
    requires Indexes(hash, t, names, |names|) && home < |t| && Stops(t, names, "", home, d)
    ensures t[Slot(home, d, |t|)] == FREE
  {
  }

  /** Filling the first free slot of a record's chain indexes that record too. */
  lemma InsertIndexes(hash: string -> nat, t: seq<int>, names: seq<string>, n: nat, d: nat)
    requires n < |names| && names[n] != "" && Indexes(hash, t, names, n) && d < |t|
    requires var home := Home(hash, names[n], |t|);
             t[Slot(home, d, |t|)] == FREE && forall e :: 0 <= e < d ==> t[Slot(home, e, |t|)] != FREE
    ensures Indexes(hash, t[Slot(Home(hash, names[n], |t|), d, |t|) := n], names, n + 1)
  {
    var slot := Slot(Home(hash, names[n], |t|), d, |t|);
    UsedAfter(t, slot, n);
    StillHolds(t, names, n, slot);
    SeatsAfter(hash, t, names, n, d, slot);
  }

  lemma SeatsAfter(hash: string -> nat, t: seq<int>, names: seq<string>, n: nat, d: nat, slot: nat)
    requires n < |names| && d < |t| && slot < |t| && t[slot] == FREE
    requires Seats(hash, t, names, n) && Holds(t, names, n) && slot == Slot(Home(hash, names[n], |t|), d, |t|)
    requires forall e :: 0 <= e < d ==> t[Slot(Home(hash, names[n], |t|), e, |t|)] != FREE
    ensures Seats(hash, t[slot := n], names, n + 1)
  {
    NewSits(t, Home(hash, names[n], |t|), names, n, d);
    forall i | 0 <= i < n && names[i] != "" ensures Seated(t[slot := n], Home(hash, names[i], |t|), i) {
      StillSits(t, Home(hash, names[i], |t|), i, slot, n);
    }
  }

  lemma NewSits(t: seq<int>, home: nat, names: seq<string>, n: nat, d: nat)
    requires n < |names| && d < |t| && home < |t| && Holds(t, names, n)
    requires forall e :: 0 <= e < d ==> t[Slot(home, e, |t|)] != FREE
    ensures Seated(t[Slot(home, d, |t|) := n], home, n)
  {
    assert Sits(t[Slot(home, d, |t|) := n], home, d, n);
  }

  lemma StillHolds(t: seq<int>, names: seq<string>, n: nat, slot: nat)
    requires n < |names| && names[n] != "" && Holds(t, names, n) && slot < |t|
    ensures Holds(t[slot := n], names, n + 1)
  {
  }

  lemma StillSits(t: seq<int>, home: nat, i: nat, slot: nat, n: int)
    requires home < |t| && slot < |t| && t[slot] == FREE && Seated(t, home, i)
    ensures Seated(t[slot := n], home, i)
  {
    var d :| Sits(t, home, d, i);
    assert Sits(t[slot := n], home, d, i);
  }

  // ----- building and looking up ----------------------------------------------------------------

  lemma Doubles(n: nat)
    requires PowerOfTwo(n)
    ensures PowerOfTwo(2 * n)
  {
    assert 2 * n / 2 == n;
  }

  method TableSize(n: nat) returns (size: nat)
    requires n > 0
    ensures PowerOfTwo(size) && 2 * n <= size
  {
    size := 1;
    while size < 2 * n
      invariant PowerOfTwo(size)
      decreases 2 * n - size
    {
      Doubles(size);
      size := 2 * size;
    }
  }

  method NextSlot(slot: nat, size: nat) returns (next: nat)
    requires PowerOfTwo(size) && slot < size
    ensures next == if slot + 1 < size then slot + 1 else 0
  {
    MaskWraps(slot + 1, size);
    next := And(slot + 1, size - 1);
  }

  /** Linear probing from `home` to the first free slot. */
  method FreeFrom(t: array<int>, home: nat) returns (slot: nat, ghost d: nat)
    requires PowerOfTwo(t.Length) && home < t.Length && Used(t[..]) < t.Length
    ensures d < t.Length && slot == Slot(home, d, t.Length) && t[slot] == FREE
    ensures forall e :: 0 <= e < d ==> t[Slot(home, e, t.Length)] != FREE
  {
    ghost var f := FreeSlot(t[..]);
    ghost var stop := Distance(home, f, t.Length);
    slot, d := home, 0;
    while t[slot] != FREE
      invariant d <= stop && slot == Slot(home, d, t.Length)
      invariant forall e :: 0 <= e < d ==> t[Slot(home, e, t.Length)] != FREE
      decreases stop - d
    {
      assert d != stop;
      slot := NextSlot(slot, t.Length);
      d := d + 1;
    }
  }

  /** The probe of a query: the record it stops at, or FREE. */
  method ProbeFrom(t: array<int>, names: seq<string>, query: string, home: nat) returns (hit: int, ghost d: nat)
    requires PowerOfTwo(t.Length) && home < t.Length && Used(t[..]) < t.Length
    requires Holds(t[..], names, |names|)
    ensures d < t.Length && hit == t[Slot(home, d, t.Length)] && Stops(t[..], names, query, home, d)
    ensures forall e :: 0 <= e < d ==> !Stops(t[..], names, query, home, e)
  {
    ghost var f := FreeSlot(t[..]);
    ghost var stop := Distance(home, f, t.Length);
    assert t[f] == FREE && f == Slot(home, stop, t.Length);
    var slot := home;
    d := 0;
    while t[slot] != FREE
      invariant d <= stop && slot == Slot(home, d, t.Length)
      invariant forall e :: 0 <= e < d ==> !Stops(t[..], names, query, home, e)
      decreases stop - d
    {
      if names[t[slot]] == query { return t[slot], d; }
      assert d != stop;
      slot := NextSlot(slot, t.Length);
      d := d + 1;
    }
    return FREE, d;
  }

  method Insert(t: array<int>, names: seq<string>, i: nat)
    requires i < |names| < t.Length && names[i] != ""
    requires PowerOfTwo(t.Length) && Indexes(HashOf, t[..], names, i)
    modifies t
    ensures Indexes(HashOf, t[..], names, i + 1)
  {
    var hash := HashStartup(names[i]);
    ghost var was := t[..];
    var slot, d := FreeFrom(t, And(hash, t.Length - 1));
    InsertIndexes(HashOf, was, names, i, d);
    t[slot] := i;
    assert t[..] == was[slot := i];
  }

  lemma EmptyIndexes(hash: string -> nat, t: seq<int>, names: seq<string>)
    requires |t| > 0 && forall s :: 0 <= s < |t| ==> t[s] == FREE
    ensures Indexes(hash, t, names, 0)
  {
    AllFree(t);
  }

  lemma NamelessStays(hash: string -> nat, t: seq<int>, names: seq<string>, i: nat)
    requires i < |names| && names[i] == "" && Indexes(hash, t, names, i)
    ensures Indexes(hash, t, names, i + 1)
  {
  }

  method NewTable(names: seq<string>) returns (t: array<int>)
    requires names != []
    ensures fresh(t) && PowerOfTwo(t.Length) && 2 * |names| <= t.Length
    ensures Indexes(HashOf, t[..], names, |names|)
  {
    var size := TableSize(|names|);
    t := new int[size](_ => FREE);
    EmptyIndexes(HashOf, t[..], names);
    var i := 0;
    while i < |names|
      invariant i <= |names| && Indexes(HashOf, t[..], names, i)
    {
      if names[i] != "" { Insert(t, names, i); } else { NamelessStays(HashOf, t[..], names, i); }
      i := i + 1;
    }
  }

  /** What the first stop of a probe says, whatever the query. */
  lemma AnswerIs(t: seq<int>, names: seq<string>, query: string, home: nat, d: nat)
    requires |t| > 0 && home == Home(HashOf, query, |t|) && d < |t|
    requires Indexes(HashOf, t, names, |names|) && Stops(t, names, query, home, d)
    requires forall e :: 0 <= e < d ==> !Stops(t, names, query, home, e)
    ensures var hit := t[Slot(home, d, |t|)];
            hit == FREE || (0 <= hit < |names| && hit == FirstMatch(names, query))
  {
    if query == "" {
      NoEmptyName(HashOf, t, names, home, d);
    } else {
      ProbeFindsFirst(HashOf, t, names, query, d);
    }
  }

  /** The startups of the list and the table over them; without memory there is no table. */
  class ArtLookup {
    var startups: seq<string>
    var table: array?<int>

    ghost predicate Valid()
      reads this, table
    {
      table != null ==>
        && PowerOfTwo(table.Length) && |startups| < table.Length
        && Indexes(HashOf, table[..], startups, |startups|)
    }

    constructor ()
      ensures Valid() && startups == []
    {
      startups, table := [], null;
    }

    /** appBuildArtLookup over a new list */
    method Build(names: seq<string>, memory: bool)
      modifies this
      ensures Valid() && startups == names
      ensures table != null <==> names != [] && memory
      ensures table != null ==> fresh(table) && 2 * |names| <= table.Length
    {
      startups, table := names, null;
      if |names| == 0 || !memory { return; }
      table := NewTable(names);
    }

    /** appLookupByStartup: the index of a record, or |startups| for none. */
    method Find(query: string) returns (r: nat)
      requires Valid()
      ensures r == FirstMatch(startups, query)
    {
      if table != null {
        var hit := Probe(query);
        if hit != FREE { return hit; }
      }
      r := 0;
      while r < |startups| && startups[r] != query
        invariant r <= |startups| && MatchFrom(startups, query, r) == FirstMatch(startups, query)
      {
        r := r + 1;
      }
    }

    method Probe(query: string) returns (hit: int)
      requires Valid() && table != null
      ensures hit == FREE || (0 <= hit < |startups| && hit == FirstMatch(startups, query))
    {
      var hash := HashStartup(query);
      ghost var home, d := Home(HashOf, query, table.Length), 0;
      hit, d := ProbeFrom(table, startups, query, And(hash, table.Length - 1));
      AnswerIs(table[..], startups, query, home, d);
    }
  }

  lemma {:induction false} AllFree(t: seq<int>)
    requires |t| > 0 && forall s :: 0 <= s < |t| ==> t[s] == FREE
    ensures Used(t) == 0
  {
    if |t| > 1 { AllFree(t[..|t| - 1]); }
  }
}
