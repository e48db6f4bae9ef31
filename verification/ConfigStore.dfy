/** The key/value set of src/config.c: what its operations mean as a list of entries, and the
    linked list that carries them out in place. */
module ConfigStore {
  import opened Wrappers
  import opened Text

  const KEY_NAME_LEN: nat := 32
  const KEY_VALUE_LEN: nat := 256

  datatype Format = Legacy | Libconfig

  datatype Entry = Entry(key: string, val: string)

  /** What strncmp(a, b, n) == 0 compares. */
  function Prefix(s: string, n: nat): string {
    if |s| <= n then s else s[..n]
  }

  predicate SameKey(stored: string, name: string) {
    Prefix(stored, KEY_NAME_LEN) == Prefix(name, KEY_NAME_LEN)
  }

  lemma SameShortKey(stored: string, name: string)
    requires |stored| < KEY_NAME_LEN
    ensures SameKey(stored, name) <==> stored == name
  {
  }

  /** configKeyValidate */
  predicate KeyValid(key: string) {
    key != "" && !HasChar(key, '=')
  }

  predicate Fits(e: Entry) {
    |e.key| < KEY_NAME_LEN && |e.val| < KEY_VALUE_LEN
  }

  predicate AllFit(es: seq<Entry>) {
    forall i :: 0 <= i < |es| ==> Fits(es[i])
  }

  predicate AllKeysValid(es: seq<Entry>) {
    forall i :: 0 <= i < |es| ==> KeyValid(es[i].key)
  }

  ghost predicate Unique(es: seq<Entry>) {
    forall i, j :: 0 <= i < j < |es| ==> es[i].key != es[j].key
  }

  /** The first entry a lookup of `name` stops at, or |es|. */
  function IndexOf(es: seq<Entry>, name: string): (r: nat)
    ensures r <= |es|
    ensures forall i :: 0 <= i < r ==> !SameKey(es[i].key, name)
    ensures r < |es| ==> SameKey(es[r].key, name)
  {
    if es == [] then 0 else if SameKey(es[0].key, name) then 0 else 1 + IndexOf(es[1..], name)
  }

  function Lookup(es: seq<Entry>, name: string): Option<string> {
    var i := IndexOf(es, name);
    if KeyValid(name) && i < |es| then Some(es[i].val) else None
  }

  function Alloc(key: string, val: string): Entry {
    Entry(Truncate(key, KEY_NAME_LEN), Truncate(val, KEY_VALUE_LEN))
  }

  function Set(es: seq<Entry>, key: string, val: string): seq<Entry> {
    var i := IndexOf(es, key);
    if !KeyValid(key) then es
    else if i < |es| then es[i := es[i].(val := Truncate(val, KEY_VALUE_LEN))]
    else es + [Alloc(key, val)]
  }

  /** Does this set operation have to mark the file as needing a save? */
  predicate SetTouches(es: seq<Entry>, key: string, val: string) {
    var i := IndexOf(es, key);
    KeyValid(key) && key[0] != '#' &&
    (i < |es| ==> Prefix(es[i].val, KEY_VALUE_LEN) != Prefix(val, KEY_VALUE_LEN))
  }

  function Without(es: seq<Entry>, key: string): seq<Entry> {
    if es == [] then []
    else (if SameKey(es[0].key, key) then [] else [es[0]]) + Without(es[1..], key)
  }

  function Remove(es: seq<Entry>, key: string): seq<Entry> {
    if KeyValid(key) then Without(es, key) else es
  }

  function Merge(es: seq<Entry>, source: seq<Entry>): seq<Entry>
    decreases |source|
  {
    if source == [] then es else Merge(Set(es, source[0].key, source[0].val), source[1..])
  }

  predicate MergeTouches(es: seq<Entry>, source: seq<Entry>)
    decreases |source|
  {
    source != [] &&
    (SetTouches(es, source[0].key, source[0].val) ||
     MergeTouches(Set(es, source[0].key, source[0].val), source[1..]))
  }

  // ----- the mark for saving ---------------------------------------------------------------------

  /** A set operation marks the set for saving exactly when it is for a valid key that is not like a comment
      and the key did not give that value before: a new key does, a changed value does. */
  lemma TouchesIff(es: seq<Entry>, key: string, val: string)
    requires AllFit(es) && |key| < KEY_NAME_LEN
    ensures SetTouches(es, key, val) <==>
            key != "" && '=' !in key && key[0] != '#' && Lookup(es, key) != Some(val)
  {
    assert HasChar(key, '=') <==> '=' in key;
  }

  /** An operation that leaves no mark has changed nothing, but for keys like comments. */
  lemma UnmarkedSetIsSame(es: seq<Entry>, key: string, val: string)
    requires AllFit(es) && !SetTouches(es, key, val) && (key == "" || key[0] != '#')
    ensures Set(es, key, val) == es
  {
  }

  lemma {:induction false} UnmarkedMergeIsSame(es: seq<Entry>, source: seq<Entry>)
    requires AllFit(es) && !MergeTouches(es, source)
    requires forall i :: 0 <= i < |source| ==> source[i].key == "" || source[i].key[0] != '#'
    ensures Merge(es, source) == es
    decreases |source|
  {
    if source != [] {
      UnmarkedSetIsSame(es, source[0].key, source[0].val);
      UnmarkedMergeIsSame(es, source[1..]);
    }
  }

  // ----- the list is a map ---------------------------------------------------------------------

  ghost function ToMap(es: seq<Entry>): map<string, string> {
    if es == [] then map[] else ToMap(es[1..])[es[0].key := es[0].val]
  }

  ghost predicate Healthy(es: seq<Entry>) {
    AllFit(es) && AllKeysValid(es) && Unique(es)
  }

  datatype Op = Put(key: string, val: string) | Del(key: string) | MergeFrom(source: seq<Entry>) | Clear

  function Apply(es: seq<Entry>, op: Op): seq<Entry> {
    match op
    case Put(k, v) => Set(es, k, v)
    case Del(k) => Remove(es, k)
    case MergeFrom(src) => Merge(es, src)
    case Clear => []
  }

  function Run(es: seq<Entry>, ops: seq<Op>): seq<Entry>
    decreases |ops|
  {
    if ops == [] then es else Run(Apply(es, ops[0]), ops[1..])
  }

  ghost function ApplyMap(m: map<string, string>, op: Op): map<string, string> {
    match op
    case Put(k, v) => if KeyValid(k) then m[k := Truncate(v, KEY_VALUE_LEN)] else m
    case Del(k) => if KeyValid(k) then m - {k} else m
    case MergeFrom(src) => m + ToMap(src)
    case Clear => map[]
  }

  ghost function RunMap(m: map<string, string>, ops: seq<Op>): map<string, string>
    decreases |ops|
  {
    if ops == [] then m else RunMap(ApplyMap(m, ops[0]), ops[1..])
  }

  ghost predicate ShortKeys(op: Op) {
    match op
    case Put(k, _) => |k| < KEY_NAME_LEN
    case Del(k) => |k| < KEY_NAME_LEN
    case MergeFrom(src) => Healthy(src)
    case Clear => true
  }

  lemma UpdateThenDelete<K, V>(m: map<K, V>, a: K, v: V, b: K)
    ensures m[a := v] - {b} == if a == b then m - {b} else (m - {b})[a := v]
  {
  }

  lemma UpdateThenOverride<K, V>(m: map<K, V>, k: K, v: V, n: map<K, V>)
    requires k !in n
    ensures m[k := v] + n == m + n[k := v]
  {
  }

  lemma {:induction false} KeyOfMap(es: seq<Entry>, k: string)
    requires forall i :: 0 <= i < |es| ==> es[i].key != k
    ensures k !in ToMap(es)
  {
    if es != [] { KeyOfMap(es[1..], k); }
  }

  /** A lookup of a short key reads the abstract map. */
  lemma {:induction false} LookupReadsMap(es: seq<Entry>, k: string)
    requires AllFit(es) && KeyValid(k) && |k| < KEY_NAME_LEN
    ensures Lookup(es, k) == if k in ToMap(es) then Some(ToMap(es)[k]) else None
  {
    if es != [] { LookupReadsMap(es[1..], k); }
  }

  lemma {:induction false} OverwriteIsUpdate(es: seq<Entry>, i: nat, v: string)
    requires Unique(es) && i < |es|
    ensures ToMap(es[i := es[i].(val := v)]) == ToMap(es)[es[i].key := v]
  {
    var e := es[i].(val := v);
    if i > 0 {
      assert es[i := e][1..] == es[1..][i - 1 := e];
      OverwriteIsUpdate(es[1..], i - 1, v);
      assert es[0].key != es[i].key;
    }
  }

  lemma {:induction false} AppendIsUpdate(es: seq<Entry>, e: Entry)
    requires forall i :: 0 <= i < |es| ==> es[i].key != e.key
    ensures ToMap(es + [e]) == ToMap(es)[e.key := e.val]
  {
    if es == [] {
      assert [e][1..] == [];
    } else {
      assert (es + [e])[1..] == es[1..] + [e];
      AppendIsUpdate(es[1..], e);
    }
  }

  /** A set with a short valid key updates the map; with an invalid one it changes nothing. */
  lemma SetIsUpdate(es: seq<Entry>, k: string, v: string)
    requires Healthy(es) && (KeyValid(k) ==> |k| < KEY_NAME_LEN)
    ensures Healthy(Set(es, k, v)) && (!KeyValid(k) ==> Set(es, k, v) == es)
    ensures KeyValid(k) ==> ToMap(Set(es, k, v)) == ToMap(es)[k := Truncate(v, KEY_VALUE_LEN)]
  {
    var i := IndexOf(es, k);
    if KeyValid(k) && i < |es| {
      OverwriteIsUpdate(es, i, Truncate(v, KEY_VALUE_LEN));
    } else if KeyValid(k) {
      AppendIsUpdate(es, Alloc(k, v));
    }
  }

  lemma {:induction false} WithoutSound(es: seq<Entry>, k: string, e: Entry)
    requires e in Without(es, k)
    ensures !SameKey(e.key, k) && e in es
  {
    if !(es[0] == e && !SameKey(e.key, k)) { WithoutSound(es[1..], k, e); }
  }

  lemma {:induction false} WithoutHealthy(es: seq<Entry>, k: string)
    requires Healthy(es)
    ensures Healthy(Without(es, k))
  {
    if es != [] {
      WithoutHealthy(es[1..], k);
      var rest := Without(es[1..], k);
      forall j | 0 <= j < |rest| ensures rest[j].key != es[0].key { WithoutSound(es[1..], k, rest[j]); }
    }
  }

  lemma {:induction false} WithoutDeletes(es: seq<Entry>, k: string)
    requires AllFit(es)
    ensures ToMap(Without(es, k)) == ToMap(es) - {k}
  {
    if es != [] {
      var rest := Without(es[1..], k);
      WithoutDeletes(es[1..], k);
      UpdateThenDelete(ToMap(es[1..]), es[0].key, es[0].val, k);
      SameShortKey(es[0].key, k);
      assert [] + rest == rest && ([es[0]] + rest)[1..] == rest;
    }
  }

  /** Removing a key deletes it from the map and keeps the keys unique. */
  lemma WithoutIsDelete(es: seq<Entry>, k: string)
    requires Healthy(es)
    ensures Healthy(Without(es, k)) && ToMap(Without(es, k)) == ToMap(es) - {k}
  {
    WithoutHealthy(es, k);
    WithoutDeletes(es, k);
  }

  lemma {:induction false} MergeIsOverride(es: seq<Entry>, source: seq<Entry>)
    requires Healthy(es) && Healthy(source)
    ensures Healthy(Merge(es, source)) && ToMap(Merge(es, source)) == ToMap(es) + ToMap(source)
    decreases |source|
  {
    if source != [] {
      var e := source[0];
      SetIsUpdate(es, e.key, e.val);
      MergeIsOverride(Set(es, e.key, e.val), source[1..]);
      KeyOfMap(source[1..], e.key);
      UpdateThenOverride(ToMap(es), e.key, e.val, ToMap(source[1..]));
    }
  }

  /** Over any run of operations on short keys the list stays free of duplicates and reads as a map. */
  lemma {:induction false} RunRefinesMap(es: seq<Entry>, ops: seq<Op>)
    requires Healthy(es)
    requires forall i :: 0 <= i < |ops| ==> ShortKeys(ops[i])
    ensures Healthy(Run(es, ops)) && ToMap(Run(es, ops)) == RunMap(ToMap(es), ops)
    decreases |ops|
  {
    if ops != [] {
      match ops[0] {
        case Put(k, v) => if KeyValid(k) { SetIsUpdate(es, k, v); }
        case Del(k) => if KeyValid(k) { WithoutIsDelete(es, k); }
        case MergeFrom(src) => MergeIsOverride(es, src);
        case Clear =>
      }
      RunRefinesMap(Apply(es, ops[0]), ops[1..]);
    }
  }

  /** A key of 32 or more characters never finds the copy that was stored for it. */
  lemma LongKeyNeverFound(es: seq<Entry>, k: string, v: string)
    requires AllFit(es) && KeyValid(k)
    ensures Lookup(Set(es, k, v), k) == if |k| < KEY_NAME_LEN then Some(Truncate(v, KEY_VALUE_LEN)) else None
  {
    var r := Set(es, k, v);
    assert forall i :: 0 <= i < |r| && i != IndexOf(es, k) ==> r[i] == es[i];
  }

  /** So storing a long key duplicates it, exactly when its truncation is already there. */
  lemma SetKeepsUniqueIff(es: seq<Entry>, k: string, v: string)
    requires AllFit(es) && Unique(es)
    ensures Unique(Set(es, k, v)) <==>
            (!KeyValid(k) || |k| < KEY_NAME_LEN ||
             forall i :: 0 <= i < |es| ==> es[i].key != k[..KEY_NAME_LEN - 1])
  {
    var r := Set(es, k, v);
    if KeyValid(k) && |k| >= KEY_NAME_LEN {
      assert r == es + [Alloc(k, v)];
      assert r[|es|].key == k[..KEY_NAME_LEN - 1];
      assert forall i :: 0 <= i < |es| ==> r[i] == es[i];
    }
  }

  function RemoveAt<T>(s: seq<T>, at: nat): (r: seq<T>)
    requires at < |s|
  {
    seq(|s| - 1, i requires 0 <= i < |s| - 1 => if i < at then s[i] else s[i + 1])
  }

  // ----- the linked list -----------------------------------------------------------------------

  class Node {
    const key: string
    var val: string
    var next: Node?

    /** allocConfigItem */
    constructor (key: string, val: string)
      ensures Entry(this.key, this.val) == Alloc(key, val) && next == null
    {
      this.key := Truncate(key, KEY_NAME_LEN);
      this.val := Truncate(val, KEY_VALUE_LEN);
      next := null;
    }
  }

  class ConfigSet {
    var head: Node?
    var tail: Node?
    var modified: bool
    var format: Format
    ghost var nodes: seq<Node>    // the chain from head
    ghost var entries: seq<Entry> // what the chain holds
    ghost var repr: set<object>   // this and every node it owns

    ghost predicate Linked()
      reads this, repr
    {
      && this in repr
      && (forall i :: 0 <= i < |nodes| ==> nodes[i] in repr)
      && (forall i, j :: 0 <= i < j < |nodes| ==> nodes[i] != nodes[j])
      && head == (if nodes == [] then null else nodes[0])
      && (forall i {:trigger nodes[i].next} :: 0 <= i < |nodes| ==>
            nodes[i].next == if i + 1 < |nodes| then nodes[i + 1] else null)
      // tail is the last node reachable from head
      && tail == (if nodes == [] then null else nodes[|nodes| - 1])
    }

    ghost predicate Holds()
      reads this, repr
      requires Linked()
    {
      && |entries| == |nodes|
      && forall i {:trigger nodes[i]} {:trigger entries[i]} :: 0 <= i < |nodes| ==>
           entries[i] == Entry(nodes[i].key, nodes[i].val) && Fits(entries[i])
    }

    ghost predicate Valid()
      reads this, repr
      ensures Valid() ==> this in repr
    {
      Linked() && Holds()
    }

    /** configAlloc: a new set is empty, unmodified and in the legacy format. */
    constructor ()
      ensures Valid() && fresh(repr) && entries == [] && !modified && format == Legacy
    {
      head, tail, nodes, entries := null, null, [], [];
      modified, format, repr := false, Legacy, {this};
    }

    /** addConfigValue: no check for uniqueness. */
    method Add(key: string, val: string)
      requires Valid()
      modifies repr
      ensures Valid() && fresh(repr - old(repr))
      ensures entries == old(entries) + [Alloc(key, val)]
      ensures modified == old(modified) && format == old(format)
    {
      var it := new Node(key, val);
      if tail == null {
        head := it;
      } else {
        tail.next := it;
      }
      tail := it;
      nodes, entries, repr := nodes + [it], entries + [Alloc(key, val)], repr + {it};
    }

    /** getConfigItemForName */
    method Item(name: string) returns (it: Node?, ghost at: nat)
      requires Valid()
      ensures at == IndexOf(entries, name)
      ensures it == if at < |nodes| then nodes[at] else null
    {
      it, at := head, 0;
      while it != null
        invariant at <= |nodes| && it == if at < |nodes| then nodes[at] else null
        invariant forall i :: 0 <= i < at ==> !SameKey(entries[i].key, name)
        decreases |nodes| - at
      {
        if SameKey(it.key, name) { break; }
        it, at := it.next, at + 1;
      }
    }

    /** The found arm of configSetStr: rewrite the value in place when it differs. */
    method Update(it: Node, ghost at: nat, value: string)
      requires Valid() && at < |nodes| && it == nodes[at] && it.key != ""
      modifies this`entries, this`modified, it`val
      ensures Valid() && entries == old(entries)[at := old(entries)[at].(val := Truncate(value, KEY_VALUE_LEN))]
      ensures modified == (old(modified) || (it.key[0] != '#' &&
                             Prefix(old(it.val), KEY_VALUE_LEN) != Prefix(value, KEY_VALUE_LEN)))
    {
      if Prefix(it.val, KEY_VALUE_LEN) != Prefix(value, KEY_VALUE_LEN) {
        it.val := Truncate(value, KEY_VALUE_LEN);
        entries := entries[at := Entry(it.key, it.val)];
        if it.key[0] != '#' { modified := true; }
      }
    }

    method SetStr(key: string, value: string) returns (ok: bool)
      requires Valid()
      modifies repr
      ensures Valid() && fresh(repr - old(repr)) && ok == KeyValid(key)
      ensures entries == Set(old(entries), key, value)
      ensures modified == (old(modified) || SetTouches(old(entries), key, value)) && format == old(format)
    {
      ok := KeyValid(key);
      if ok {
        var it, at := Item(key);
        if it != null {
          SameShortKey(it.key, key);
          Update(it, at, value);
        } else {
          Add(key, value);
          if key[0] != '#' { modified := true; }
        }
      }
    }

    method GetStr(key: string) returns (r: Option<string>)
      requires Valid()
      ensures r == Lookup(entries, key)
    {
      if !KeyValid(key) { return None; }
      var it, _ := Item(key);
      if it == null { return None; }
      return Some(it.val);
    }

    /** Take val, the node after prev, out of the chain. */
    method Relink(prev: Node?, val: Node, ghost at: nat) returns (next: Node?)
      requires Linked() && at < |nodes| && val == nodes[at] && prev == if at > 0 then nodes[at - 1] else null
      modifies this`head, this`tail, this`nodes, nodes`next
      ensures Linked() && nodes == RemoveAt(old(nodes), at)
      ensures next == if at < |nodes| then nodes[at] else null
    {
      tail := if val == tail then prev else tail;
      next := val.next;
      if prev != null {
        prev.next := next;
      } else {
        head := next;
      }
      nodes := RemoveAt(nodes, at);
    }

    /** val is node `at` of the chain, behind prev. */
    ghost predicate At(prev: Node?, val: Node?, at: nat)
      reads this
    {
      && at <= |nodes|
      && val == (if at < |nodes| then nodes[at] else null)
      && prev == (if at > 0 then nodes[at - 1] else null)
    }

    /** The matching arm of configRemoveKey's loop. */
    method Unlink(prev: Node?, val: Node, ghost at: nat, key: string) returns (next: Node?)
      requires Valid() && At(prev, val, at) && key != ""
      modifies this`head, this`tail, this`nodes, this`entries, this`modified, nodes`next
      ensures Valid() && At(prev, next, at) && entries == RemoveAt(old(entries), at)
      ensures modified == (old(modified) || key[0] != '#')
    {
      modified := modified || key[0] != '#';
      next := Relink(prev, val, at);
      entries := RemoveAt(entries, at);
    }

    /** One pass of that loop: val goes, or the walk moves past it. */
    method Visit(val: Node, prev: Node?, ghost at: nat, key: string)
      returns (next: Node?, before: Node?, ghost now: nat)
      requires Valid() && At(prev, val, at) && key != ""
      modifies this`head, this`tail, this`nodes, this`entries, this`modified, nodes`next
      ensures Valid() && At(before, next, now) && |entries| - now < |old(entries)| - at
      ensures Swept(entries, now, key) == Swept(old(entries), at, key)
      ensures |entries| <= |old(entries)|
      ensures modified == (old(modified) || (key[0] != '#' && |entries| < |old(entries)|))
    {
      SweepStep(entries, at, key);
      if SameKey(val.key, key) {
        next := Unlink(prev, val, at, key);
        before, now := prev, at;
      } else {
        next, before, now := val.next, val, at + 1;
      }
    }

    /** The loop of configRemoveKey. */
    method RemoveAll(key: string)
      requires Valid() && key != ""
      modifies repr
      ensures Valid() && repr == old(repr) && format == old(format)
      ensures entries == Without(old(entries), key)
      ensures modified == (old(modified) || (key[0] != '#' && |entries| < |old(entries)|))
    {
      var val, prev := head, null;
      ghost var at, was := 0, entries;
      SweepStarts(was, key);
      while val != null
        invariant Valid() && repr == old(repr) && format == old(format)
        invariant At(prev, val, at) && |entries| <= |was|
        invariant Swept(entries, at, key) == Without(was, key)
        invariant modified == (old(modified) || (key[0] != '#' && |entries| < |was|))
        decreases |entries| - at
      {
        val, prev, at := Visit(val, prev, at, key);
      }
      SweepEnds(entries, key);
    }

    method RemoveKey(key: string) returns (ok: bool)
      requires Valid()
      modifies repr
      ensures Valid() && repr == old(repr) && ok == KeyValid(key)
      ensures entries == Remove(old(entries), key)
      ensures modified == (old(modified) || (KeyValid(key) && key[0] != '#' && |entries| < |old(entries)|))
      ensures format == old(format)
    {
      ok := KeyValid(key);
      if ok { RemoveAll(key); }
    }

    /** configMerge; the source is read while the destination changes, so they share nothing. */
    method MergeFrom(source: ConfigSet)
      requires Valid() && source.Valid() && repr !! source.repr
      modifies repr
      ensures Valid() && fresh(repr - old(repr)) && entries == Merge(old(entries), source.entries)
      ensures modified == (old(modified) || MergeTouches(old(entries), source.entries))
      ensures format == old(format)
    {
      var it := source.head;
      ghost var at := 0;
      ghost var goal, touched := Merge(entries, source.entries), modified || MergeTouches(entries, source.entries);
      while it != null
        invariant Valid() && source.Valid() && fresh(repr - old(repr)) && repr !! source.repr
        invariant at <= |source.nodes| && it == if at < |source.nodes| then source.nodes[at] else null
        invariant Merge(entries, source.entries[at..]) == goal
        invariant (modified || MergeTouches(entries, source.entries[at..])) == touched
        invariant format == old(format)
        decreases |source.nodes| - at
      {
        MergeStep(entries, source.entries, at);
        var _ := SetStr(it.key, it.val);
        it, at := it.next, at + 1;
      }
    }

    /** configClone: the same ordered pairs, on nodes of its own. */
    method Clone() returns (dst: ConfigSet)
      requires Valid()
      ensures dst.Valid() && fresh(dst.repr) && dst.entries == entries
      ensures !dst.modified && dst.format == Legacy
    {
      dst := new ConfigSet();
      var it := head;
      ghost var at := 0;
      while it != null
        invariant dst.Valid() && fresh(dst.repr) && !dst.modified && dst.format == Legacy
        invariant at <= |nodes| && it == if at < |nodes| then nodes[at] else null
        invariant dst.entries == entries[..at]
        decreases |nodes| - at
      {
        dst.Add(it.key, it.val);
        it, at := it.next, at + 1;
      }
      dst.modified := false;
    }

    method ClearAll()
      requires Valid()
      modifies this
      ensures Valid() && repr == old(repr) && entries == [] && modified && format == old(format)
    {
      ghost var at := 0;
      while head != null
        invariant nodes == old(nodes) && repr == old(repr) && format == old(format) && at <= |nodes|
        invariant head == if at < |nodes| then nodes[at] else null
        decreases |nodes| - at
      {
        head, at := head.next, at + 1;
      }
      head, tail, modified, nodes, entries := null, null, true, [], [];
    }
  }

  lemma MergeStep(es: seq<Entry>, source: seq<Entry>, at: nat)
    requires at < |source|
    ensures Merge(es, source[at..]) == Merge(Set(es, source[at].key, source[at].val), source[at + 1..])
    ensures MergeTouches(es, source[at..]) ==
            (SetTouches(es, source[at].key, source[at].val) ||
             MergeTouches(Set(es, source[at].key, source[at].val), source[at + 1..]))
  {
    assert source[at..][1..] == source[at + 1..];
  }

  /** What is left when everything behind `at` has been looked at. */
  ghost function Swept(es: seq<Entry>, at: nat, key: string): seq<Entry>
    requires at <= |es|
  {
    es[..at] + Without(es[at..], key)
  }

  lemma SweepStarts(es: seq<Entry>, key: string)
    ensures Swept(es, 0, key) == Without(es, key)
  {
    assert es[0..] == es;
  }

  lemma SweepEnds(es: seq<Entry>, key: string)
    ensures Swept(es, |es|, key) == es
  {
    assert es[|es|..] == [];
  }

  lemma SweepStep(es: seq<Entry>, at: nat, key: string)
    requires at < |es|
    ensures Swept(es, at, key) == if SameKey(es[at].key, key) then Swept(RemoveAt(es, at), at, key) else Swept(es, at + 1, key)
  {
    assert es[at..][1..] == es[at + 1..];
    if SameKey(es[at].key, key) {
      var fewer := RemoveAt(es, at);
      assert fewer[..at] == es[..at] && fewer[at..] == es[at + 1..];
    } else {
      assert es[..at + 1] == es[..at] + [es[at]];
    }
  }
}
