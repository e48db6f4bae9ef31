/** The play history of src/OSDHistory.c: 21 records with a launch count, a mask of six bits and the last
    bit drawn. Random draws are left open; the clock is a parameter. */
module PlayHistory {
  import opened Text

  const ENTRIES: nat := 21
  const NAME_SIZE: nat := 16
  const BITS: set<nat> := {0, 1, 2, 3, 4, 5}

  /** The bits of the mask that are set. */
  datatype Entry = Entry(name: string, count: nat, bits: set<nat>, shift: nat, date: nat)

  const BLANK := Entry("", 0, {}, 0, 0)

  predicate Full(bits: set<nat>) {
    BITS <= bits
  }

  /** bitmask & 0x3F */
  function LowSix(bits: set<nat>): nat {
    Bit(bits, 0) + 2 * Bit(bits, 1) + 4 * Bit(bits, 2) + 8 * Bit(bits, 3) + 16 * Bit(bits, 4) + 32 * Bit(bits, 5)
  }

  function Bit(bits: set<nat>, i: nat): nat {
    if i in bits then 1 else 0
  }

  /** The counts at which another bit is drawn. */
  predicate Draws(count: nat) {
    count >= 14 && (count - 14) % 10 == 0
  }

  function NextCount(count: nat): nat {
    if count + 1 >= 0x80 then 0x7F else count + 1
  }

  /** What one launch makes of a record; any free bit may be drawn. */
  ghost predicate Launched(e: Entry, e': Entry, date: nat) {
    if !Full(e.bits) then
      var count := NextCount(e.count);
      if Draws(count) then
        && e'.shift in BITS && e'.shift !in e.bits
        && e' == e.(date := date, count := count, shift := e'.shift, bits := e.bits + {e'.shift})
      else e' == e.(date := date, count := count)
    else if e.count < 0x3F then e' == e.(date := date, count := e.count + 1)
    else e' == e.(date := date, count := LowSix(e.bits), shift := 7)
  }

  function Fresh(name: string, date: nat): Entry {
    Entry(Truncate(name, NAME_SIZE), 1, {0}, 0, date)
  }

  // ----- choosing a victim ----------------------------------------------------------------------

  /** The three variables of the scan, which start at 0, INT_MAX and INT_MAX. */
  datatype Choice = Choice(record: nat, count: int, stamp: int)

  const INT_MAX: int := 0x7fff_ffff

  function Consider(c: Choice, e: Entry, i: nat): Choice {
    var d := if e.count < c.count then Choice(i, e.count, c.stamp) else c;
    if d.count == e.count && e.date < d.stamp then Choice(i, d.count, e.date) else d
  }

  function Scan(es: seq<Entry>, n: nat): Choice
    requires n <= |es|
  {
    if n == 0 then Choice(0, INT_MAX, INT_MAX) else Consider(Scan(es, n - 1), es[n - 1], n - 1)
  }

  ghost predicate SmallNumbers(es: seq<Entry>) {
    forall i :: 0 <= i < |es| ==> es[i].count < INT_MAX && es[i].date < INT_MAX
  }

  lemma {:induction false} ScanFindsMinimum(es: seq<Entry>, n: nat)
    requires 0 < n <= |es| && SmallNumbers(es)
    ensures var c := Scan(es, n);
            && c.record < n && es[c.record].count == c.count
            && forall j :: 0 <= j < n ==> c.count <= es[j].count
  {
    if n > 1 { ScanFindsMinimum(es, n - 1); }
  }

  // ----- one addition ---------------------------------------------------------------------------

  predicate Known(es: seq<Entry>, name: string) {
    exists i :: 0 <= i < |es| && es[i].name == name
  }

  predicate Saturated(es: seq<Entry>) {
    forall i :: 0 <= i < |es| ==> es[i].name != "" && es[i].shift == 7
  }

  predicate HasBlank(es: seq<Entry>) {
    exists i :: 0 <= i < |es| && es[i].name == ""
  }

  /** What AddHistoryRecord may make of the records, and what it appends to history.old. */
  ghost predicate Added(es: seq<Entry>, es': seq<Entry>, gone: seq<Entry>, name: string, date: nat) {
    && |es'| == |es|
    && if Known(es, name) then
         && gone == []
         && forall i :: 0 <= i < |es| ==> if es[i].name == name then Launched(es[i], es'[i], date) else es'[i] == es[i]
       else if Saturated(es) then es' == es && gone == []
       else if HasBlank(es) then
         gone == [] && exists k :: 0 <= k < |es| && es[k].name == "" && es' == es[k := Fresh(name, date)]
       else
         var k := Scan(es, |es|).record;
         k < |es| && gone == [es[k]] && es' == es[k := Fresh(name, date)]
  }

  // ----- what every run keeps -------------------------------------------------------------------

  /** How many bits a count has drawn. */
  function Drawn(count: nat): nat {
    if count < 14 then 1 else if count >= 54 then 6 else 2 + (count - 14) / 10
  }

  ghost predicate EntryOk(e: Entry) {
    if e.name == "" then e == BLANK
    else
      && |e.name| < NAME_SIZE && 1 <= e.count <= 63
      && e.bits <= BITS && |e.bits| == Drawn(e.count)
      && (e.shift in BITS || (e.shift == 7 && e.count == 63))
  }

  ghost predicate Good(es: seq<Entry>) {
    && |es| == ENTRIES
    && (forall i :: 0 <= i < |es| ==> EntryOk(es[i]))
    && forall i, j :: 0 <= i < j < |es| && es[i].name == es[j].name ==> es[i].name == ""
  }

  lemma SubsetFull(bits: set<nat>)
    requires bits <= BITS
    ensures Full(bits) <==> |bits| == 6
    ensures |BITS| == 6
  {
    assert |BITS| == 6;
    SubsetSize(bits, BITS);
    if Full(bits) { assert bits == BITS; }
    if |bits| == 6 { assert bits == BITS; }
  }

  lemma {:induction false} SubsetSize(a: set<nat>, b: set<nat>)
    requires a <= b
    ensures |a| <= |b| && (|a| == |b| ==> a == b)
  {
    if a != {} {
      var x :| x in a;
      SubsetSize(a - {x}, b - {x});
    }
  }

  /** The mask is full exactly from count 54 on, so the search for a free bit always ends. */
  lemma FullIff(e: Entry)
    requires EntryOk(e) && e.name != ""
    ensures Full(e.bits) <==> e.count >= 54
    ensures Full(e.bits) ==> e.bits == BITS && LowSix(e.bits) == 63
    ensures !Full(e.bits) ==> exists v :: v in BITS && v !in e.bits
  {
    SubsetFull(e.bits);
    assert e.count < 54 ==> Drawn(e.count) < 6;
    if Full(e.bits) { assert e.bits == BITS; }
  }

  lemma LaunchKeeps(e: Entry, e': Entry, date: nat)
    requires EntryOk(e) && e.name != "" && Launched(e, e', date)
    ensures EntryOk(e') && e'.name == e.name && e'.date == date
    ensures e'.count == (if e.count < 63 then e.count + 1 else 63)
    ensures e.count == 63 ==> e'.shift == 7
  {
    FullIff(e);
    if e.count < 54 { DrawnStep(e.count); }
  }

  lemma DrawnStep(count: nat)
    requires 1 <= count < 54
    ensures Drawn(count + 1) == Drawn(count) + if Draws(count + 1) then 1 else 0
  {
  }

  lemma AddKeepsGood(es: seq<Entry>, es': seq<Entry>, gone: seq<Entry>, name: string, date: nat)
    requires Good(es) && Added(es, es', gone, name, date) && 0 < |name| < NAME_SIZE
    ensures Good(es')
  {
    if Known(es, name) {
      forall i | 0 <= i < |es| ensures EntryOk(es'[i]) && es'[i].name == es[i].name {
        if es[i].name == name { LaunchKeeps(es[i], es'[i], date); }
      }
    }
  }

  // ----- one addition, in plain numbers ---------------------------------------------------------

  /** One launch of any record: the count goes up, to 63 at most once all six bits are drawn and to 127 before
      that; another bit is drawn at 14 and at every tenth count from there on. */
  lemma LaunchIs(e: Entry, e': Entry, date: nat)
    requires Launched(e, e', date)
    ensures e'.name == e.name && e'.date == date
    ensures !({0, 1, 2, 3, 4, 5} <= e.bits) ==> e'.count == if e.count < 127 then e.count + 1 else 127
    ensures {0, 1, 2, 3, 4, 5} <= e.bits ==> e'.count == if e.count < 63 then e.count + 1 else 63
    ensures !({0, 1, 2, 3, 4, 5} <= e.bits) && e'.count in {14, 24, 34, 44, 54, 64, 74, 84, 94, 104, 114, 124} ==>
              e'.shift < 6 && e'.shift !in e.bits && e'.bits == e.bits + {e'.shift}
    ensures !({0, 1, 2, 3, 4, 5} <= e.bits) && e'.count !in {14, 24, 34, 44, 54, 64, 74, 84, 94, 104, 114, 124} ==>
              e'.bits == e.bits && e'.shift == e.shift
    ensures {0, 1, 2, 3, 4, 5} <= e.bits ==>
              e'.bits == e.bits && e'.shift == if e.count < 63 then e.shift else 7
  {
    if !Full(e.bits) { DrawsAt(e'.count); }
  }

  lemma DrawsAt(count: nat)
    requires count < 128
    ensures Draws(count) <==> count in {14, 24, 34, 44, 54, 64, 74, 84, 94, 104, 114, 124}
  {
  }

  /** The record of a new name. */
  predicate IsNew(e: Entry, name: string, date: nat) {
    e.name == name && e.count == 1 && e.bits == {0} && e.shift == 0 && e.date == date
  }

  /** A name that is there is launched, and nothing else changes. */
  lemma KnownIsLaunched(es: seq<Entry>, es': seq<Entry>, gone: seq<Entry>, name: string, date: nat, i: nat)
    requires Added(es, es', gone, name, date) && i < |es| && es[i].name == name
    ensures gone == [] && |es'| == |es| && Launched(es[i], es'[i], date)
    ensures forall j :: 0 <= j < |es| && es[j].name != name ==> es'[j] == es[j]
  {
  }

  /** A name that is not there goes into a blank record, or over a record that is given up; only when no record
      is blank and all have shift 7 it goes nowhere. */
  lemma NewIsAdded(es: seq<Entry>, es': seq<Entry>, gone: seq<Entry>, name: string, date: nat) returns (k: nat)
    requires Added(es, es', gone, name, date) && 0 < |name| < 16 && es != []
    requires forall i :: 0 <= i < |es| ==> es[i].name != name
    ensures (forall i :: 0 <= i < |es| ==> es[i].name != "" && es[i].shift == 7) ==> es' == es && gone == []
    ensures (exists i :: 0 <= i < |es| && (es[i].name == "" || es[i].shift != 7)) ==>
              k < |es| && |es'| == |es| && IsNew(es'[k], name, date) && (forall j :: 0 <= j < |es| && j != k ==> es'[j] == es[j])
    ensures (exists i :: 0 <= i < |es| && es[i].name == "") ==> gone == [] && k < |es| && es[k].name == ""
    ensures (forall i :: 0 <= i < |es| ==> es[i].name != "") && (exists i :: 0 <= i < |es| && es[i].shift != 7) ==>
              k < |es| && gone == [es[k]]
  {
    k := 0;
    if Saturated(es) {
    } else if HasBlank(es) {
      k :| 0 <= k < |es| && es[k].name == "" && es' == es[k := Fresh(name, date)];
    } else {
      k := Scan(es, |es|).record;
    }
  }

  datatype Addition = Addition(name: string, date: nat, gone: seq<Entry>)

  /** A run of additions from an empty history, with whatever was drawn on the way. */
  ghost predicate IsRun(states: seq<seq<Entry>>, adds: seq<Addition>) {
    && |states| == |adds| + 1 && states[0] == seq(ENTRIES, _ => BLANK)
    && forall i :: 0 <= i < |adds| ==>
         0 < |adds[i].name| < NAME_SIZE && Added(states[i], states[i + 1], adds[i].gone, adds[i].name, adds[i].date)
  }

  /** In every state of every run the names differ, and every record's mask, count and shift fit. */
  lemma {:induction false} EveryRunIsGood(states: seq<seq<Entry>>, adds: seq<Addition>, n: nat)
    requires IsRun(states, adds) && n < |states|
    ensures Good(states[n])
  {
    if n > 0 {
      EveryRunIsGood(states, adds, n - 1);
      var a := adds[n - 1];
      AddKeepsGood(states[n - 1], states[n], a.gone, a.name, a.date);
    }
  }

  /** What makes room is a record with the smallest count, and only a full list makes room. */
  lemma EvictedIsLeastUsed(es: seq<Entry>, es': seq<Entry>, gone: seq<Entry>, name: string, date: nat)
    requires Good(es) && SmallNumbers(es) && Added(es, es', gone, name, date) && gone != []
    ensures |gone| == 1 && gone[0] in es && !HasBlank(es) && !Known(es, name)
    ensures forall e :: e in es ==> gone[0].count <= e.count
  {
    ScanFindsMinimum(es, |es|);
  }

  /** Once every record has the final shift the list of names is closed for good. */
  lemma SaturatedStays(es: seq<Entry>, es': seq<Entry>, gone: seq<Entry>, name: string, date: nat)
    requires Good(es) && Saturated(es) && name != "" && Added(es, es', gone, name, date)
    ensures Saturated(es') && gone == []
    ensures forall i :: 0 <= i < |es| ==> es'[i].name == es[i].name
  {
    forall i | 0 <= i < |es| ensures es'[i].name == es[i].name && es'[i].shift == 7 {
      if Known(es, name) && es[i].name == name { LaunchKeeps(es[i], es'[i], date); }
    }
  }

  // ----- ties -----------------------------------------------------------------------------------

  ghost predicate FirstMinimum(es: seq<Entry>, f: nat) {
    && f < |es|
    && (forall j :: 0 <= j < f ==> es[f].count < es[j].count)
    && forall j :: f <= j < |es| ==> es[f].count <= es[j].count
  }

  /** No record with the same count has an earlier date. */
  ghost predicate Oldest(es: seq<Entry>, r: nat) {
    r < |es| && forall j :: 0 <= j < |es| && es[j].count == es[r].count ==> es[r].date <= es[j].date
  }

  /** No record in front of i has a smaller count. */
  ghost predicate Leads(es: seq<Entry>, i: nat) {
    i < |es| && forall j :: 0 <= j < i ==> es[i].count <= es[j].count
  }

  /** Older than every record in front of f that had the smallest count until then. */
  ghost predicate OlderThanLeaders(es: seq<Entry>, f: nat, date: nat)
    requires f <= |es|
  {
    forall i :: 0 <= i < f && Leads(es, i) ==> date < es[i].date
  }

  /** Some record with the smallest count is older than all those. */
  ghost predicate BeatsStale(es: seq<Entry>, f: nat, n: nat)
    requires f < n <= |es|
  {
    exists j :: f <= j < n && es[j].count == es[f].count && OlderThanLeaders(es, f, es[j].date)
  }

  lemma StampStep(es: seq<Entry>, i: nat)
    requires i < |es|
    ensures var c, e := Scan(es, i), es[i];
            Scan(es, i + 1).stamp == if e.count <= c.count && e.date < c.stamp then e.date else c.stamp
  {
    assert Scan(es, i + 1) == Consider(Scan(es, i), es[i], i);
  }

  lemma OlderStep(es: seq<Entry>, i: nat, date: nat)
    requires i < |es|
    ensures OlderThanLeaders(es, i + 1, date) <==>
            OlderThanLeaders(es, i, date) && (Leads(es, i) ==> date < es[i].date)
  {
  }

  lemma StampNext(es: seq<Entry>, i: nat, date: nat)
    requires i < |es| && SmallNumbers(es) && date < INT_MAX
    requires date < Scan(es, i).stamp <==> OlderThanLeaders(es, i, date)
    ensures date < Scan(es, i + 1).stamp <==> OlderThanLeaders(es, i + 1, date)
  {
    LeadsIff(es, i);
    StampStep(es, i);
    OlderStep(es, i, date);
  }

  /** The date the scan holds is the least date of the records that had the smallest count on the way. */
  lemma {:induction false} StampIs(es: seq<Entry>, f: nat, date: nat)
    requires f <= |es| && SmallNumbers(es) && date < INT_MAX
    ensures date < Scan(es, f).stamp <==> OlderThanLeaders(es, f, date)
  {
    if f > 0 {
      var i := f - 1;
      StampIs(es, i, date);
      StampNext(es, i, date);
    }
  }

  lemma LeadsIff(es: seq<Entry>, i: nat)
    requires i < |es| && SmallNumbers(es)
    ensures Leads(es, i) <==> es[i].count <= Scan(es, i).count
  {
    if i > 0 { ScanFindsMinimum(es, i); }
  }

  lemma {:induction false} ScanBefore(es: seq<Entry>, f: nat, n: nat)
    requires FirstMinimum(es, f) && SmallNumbers(es) && n <= f
    ensures Scan(es, n).count > es[f].count
  {
    if n > 0 { ScanBefore(es, f, n - 1); }
  }

  /** The same, with the date the scan holds. */
  ghost predicate BeatsStamp(es: seq<Entry>, f: nat, n: nat)
    requires f < n <= |es|
  {
    exists j :: f <= j < n && es[j].count == es[f].count && es[j].date < Scan(es, f).stamp
  }

  lemma BeatsIff(es: seq<Entry>, f: nat, n: nat)
    requires f < n <= |es| && SmallNumbers(es)
    ensures BeatsStamp(es, f, n) <==> BeatsStale(es, f, n)
  {
    forall j | f <= j < n ensures es[j].date < Scan(es, f).stamp <==> OlderThanLeaders(es, f, es[j].date) {
      StampIs(es, f, es[j].date);
    }
  }

  lemma {:induction false} ScanAfter(es: seq<Entry>, f: nat, n: nat)
    requires FirstMinimum(es, f) && SmallNumbers(es) && f < n <= |es|
    ensures var c := Scan(es, n);
            && c.count == es[f].count
            && (if BeatsStamp(es, f, n) then
                  && c.record < n && es[c.record].count == es[f].count && es[c.record].date == c.stamp
                  && c.stamp < Scan(es, f).stamp
                  && forall j :: f <= j < n && es[j].count == es[f].count ==> c.stamp <= es[j].date
                else c.record == f && c.stamp == Scan(es, f).stamp)
  {
    if n == f + 1 {
      ScanBefore(es, f, f);
    } else {
      ScanAfter(es, f, n - 1);
    }
  }

  /** The date kept while the count was larger is not forgotten, so among equal counts the scan finds the
      oldest record exactly when that one is older than every record that had the smallest count before,
      or is the first of them anyway. */
  lemma TieBreakIff(es: seq<Entry>, f: nat)
    requires FirstMinimum(es, f) && SmallNumbers(es)
    ensures Oldest(es, Scan(es, |es|).record) <==> BeatsStale(es, f, |es|) || Oldest(es, f)
  {
    ScanAfter(es, f, |es|);
    BeatsIff(es, f, |es|);
  }

  /** A full list: one record of count 5 from day 1, two of count 2 from days 9 and 3, the rest of count 7. */
  function MisleadingEntry(i: nat): Entry
    requires i < ENTRIES
  {
    var name := ['A' + i as char];
    if i == 0 then Entry(name, 5, {0}, 0, 1)
    else if i == 1 then Entry(name, 2, {0}, 0, 9)
    else if i == 2 then Entry(name, 2, {0}, 0, 3)
    else Entry(name, 7, {0}, 0, 5)
  }

  function Misleading(): seq<Entry> {
    seq(ENTRIES, i requires 0 <= i < ENTRIES => MisleadingEntry(i))
  }

  lemma MisleadingIsGood()
    ensures Good(Misleading()) && SmallNumbers(Misleading()) && !HasBlank(Misleading()) && !Saturated(Misleading())
  {
    var es := Misleading();
    forall i, j | 0 <= i < j < |es| ensures es[i].name != es[j].name {
      assert es[i].name[0] == 'A' + i as char && es[j].name[0] == 'A' + j as char;
    }
    assert es[0].shift == 0;
  }

  /** An early day of a larger count hides that of two equal counts the later one is the older. */
  lemma StaleDayHides(es: seq<Entry>)
    requires |es| >= 3 && SmallNumbers(es)
    requires es[0].count > es[1].count == es[2].count && es[0].date < es[2].date < es[1].date
    requires forall i :: 3 <= i < |es| ==> es[i].count > es[1].count
    ensures Scan(es, |es|).record == 1 && !Oldest(es, 1)
  {
    assert FirstMinimum(es, 1);
    assert Leads(es, 0);
    ScanAfter(es, 1, |es|);
    BeatsIff(es, 1, |es|);
    assert es[2].date < es[1].date;
  }

  /** A full list, with an early day of a larger count in front of two equal smallest ones. */
  ghost predicate HidesDay(es: seq<Entry>) {
    && |es| >= 3 && SmallNumbers(es) && !HasBlank(es) && !Saturated(es)
    && es[0].count > es[1].count == es[2].count && es[0].date < es[2].date < es[1].date
    && forall i :: 3 <= i < |es| ==> es[i].count > es[1].count
  }

  /** There the younger one is evicted. */
  lemma YoungerIsEvicted(es: seq<Entry>, es': seq<Entry>, gone: seq<Entry>, name: string, date: nat)
    requires HidesDay(es) && !Known(es, name) && Added(es, es', gone, name, date)
    ensures gone == [es[1]] && es[2].count == es[1].count && es[2].date < es[1].date
  {
    StaleDayHides(es);
  }

  /** There is such a list among those a run can hold. */
  lemma StaleDateMisleads()
    ensures Good(Misleading()) && HidesDay(Misleading())
  {
    MisleadingIsGood();
  }

  // ----- the update in place --------------------------------------------------------------------

  /** One matching record; a free bit is drawn by trying. */
  method Launch(e: Entry, date: nat) returns (e': Entry)
    ensures Launched(e, e', date)
  {
    e' := e.(date := date);
    if !Full(e.bits) {
      var count := e.count + 1;
      if count >= 0x80 { count := 0x7F; }
      if count >= 14 && (count - 14) % 10 == 0 {
        var value :| value in BITS && value !in e.bits;
        e' := e'.(shift := value, bits := e.bits + {value});
      }
      e' := e'.(count := count);
    } else if e.count < 0x3F {
      e' := e'.(count := e.count + 1);
    } else {
      e' := e'.(count := LowSix(e.bits), shift := 7);
    }
  }

  /** The first loop: update what matches, and remember the least used record on the way. */
  method UpdateAll(entries: array<Entry>, name: string, date: nat) returns (isNew: bool, least: nat)
    modifies entries
    ensures isNew == !Known(old(entries[..]), name)
    ensures least == Scan(old(entries[..]), entries.Length).record
    ensures forall i :: 0 <= i < entries.Length ==>
              if old(entries[i].name) == name then Launched(old(entries[i]), entries[i], date)
              else entries[i] == old(entries[i])
  {
    ghost var es := entries[..];
    var c := Choice(0, INT_MAX, INT_MAX);
    isNew := true;
    for i := 0 to entries.Length
      invariant c == Scan(es, i)
      invariant isNew == forall j :: 0 <= j < i ==> es[j].name != name
      invariant forall j :: i <= j < entries.Length ==> entries[j] == es[j]
      invariant forall j :: 0 <= j < i ==>
                  if es[j].name == name then Launched(es[j], entries[j], date) else entries[j] == es[j]
    {
      c := Consider(c, entries[i], i);
      if entries[i].name == name {
        isNew := false;
        var e' := Launch(entries[i], date);
        entries[i] := e';
      }
    }
    least := c.record;
  }

  /** Count the blank slots and the saturated ones. */
  method CountSlots(entries: array<Entry>) returns (blanks: seq<nat>, used: nat)
    ensures forall k :: k in blanks <==> 0 <= k < entries.Length && entries[k].name == ""
    ensures used == entries.Length <==> Saturated(entries[..])
  {
    blanks, used := [], 0;
    for i := 0 to entries.Length
      invariant forall k :: k in blanks <==> 0 <= k < i && entries[k].name == ""
      invariant used <= i
      invariant used == i <==> forall j :: 0 <= j < i ==> entries[j].name != "" && entries[j].shift == 7
    {
      if entries[i].name == "" {
        blanks := blanks + [i];
      } else if entries[i].shift == 7 {
        used := used + 1;
      }
    }
  }

  /** AddHistoryRecord on the records that were loaded; `gone` is what goes to history.old. */
  method AddRecord(entries: array<Entry>, name: string, date: nat) returns (gone: seq<Entry>)
    requires entries.Length == ENTRIES
    modifies entries
    ensures Added(old(entries[..]), entries[..], gone, name, date)
  {
    ghost var es := entries[..];
    var isNew, least := UpdateAll(entries, name, date);
    gone := [];
    if isNew {
      assert entries[..] == es;
      var blanks, used := CountSlots(entries);
      if used != ENTRIES {
        var slot := least;
        if |blanks| > 0 {
          assert blanks[0] in blanks;
          slot :| slot in blanks;
        } else {
          ScanInside(es, |es|);
          gone := [entries[least]];
        }
        entries[slot] := Fresh(name, date);
        assert entries[..] == es[slot := Fresh(name, date)];
      }
    }
  }

  lemma {:induction false} ScanInside(es: seq<Entry>, n: nat)
    requires 0 < n <= |es|
    ensures Scan(es, n).record < n
  {
    if n > 1 { ScanInside(es, n - 1); }
  }
}
