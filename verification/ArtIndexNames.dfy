/** Names and hashes of src/artindex.c: the path split, the case-folding hash, the sweep's collection
    loop and the binary search. */
module ArtIndexNames {
  import opened Wrappers
  import opened Text

  /** A 32-bit hash, as a number once it has been computed. */
  type Hash = nat

  const MAX_ENTRIES: nat := 4096
  const DIR_MAX: nat := 192

  function Upper(c: char): char {
    if 'a' <= c <= 'z' then c - 'a' + 'A' else c
  }

  function UpperName(s: string): string {
    seq(|s|, i requires 0 <= i < |s| => Upper(s[i]))
  }

  /** The same file on FAT and exFAT. */
  predicate SameName(a: string, b: string) {
    UpperName(a) == UpperName(b)
  }

  function Mix(h: bv32, c: char): bv32 {
    (h ^ ((c as int % 256) as bv32)) * 16777619
  }

  /** FNV-1a over a name, wrapping at 32 bits. */
  function Fnv(s: string): bv32 {
    if s == "" then 2166136261 else Mix(Fnv(s[..|s| - 1]), s[|s| - 1])
  }

  function HashOf(name: string): Hash {
    Fnv(UpperName(name)) as int
  }

  /** artIndexHash */
  method ComputeHash(s: string) returns (hash: Hash)
    ensures hash == HashOf(s)
  {
    var h: bv32, i := 2166136261, 0;
    while i < |s|
      invariant i <= |s| && h == Fnv(UpperName(s)[..i])
    {
      var c := s[i];
      if 'a' <= c <= 'z' { c := c - 'a' + 'A'; }
      assert UpperName(s)[..i + 1][..i] == UpperName(s)[..i];
      h := Mix(h, c);
      i := i + 1;
    }
    assert UpperName(s)[..i] == UpperName(s);
    hash := h as int;
  }

  /** The same character, or the same letter small and capital. */
  predicate SameLetter(a: char, b: char) {
    || a == b
    || ('a' <= a <= 'z' && b as int == a as int - 32)
    || ('a' <= b <= 'z' && a as int == b as int - 32)
  }

  lemma SameLetterIff(a: char, b: char)
    ensures SameLetter(a, b) <==> Upper(a) == Upper(b)
  {
    assert Upper(a) as int == if 'a' <= a <= 'z' then a as int - 32 else a as int;
    assert Upper(b) as int == if 'a' <= b <= 'z' then b as int - 32 else b as int;
  }

  /** Two names are the same exactly when they differ in nothing but the case of letters, and then they have
      the same hash. */
  lemma SameNameIff(a: string, b: string)
    ensures SameName(a, b) <==> |a| == |b| && forall i :: 0 <= i < |a| ==> SameLetter(a[i], b[i])
    ensures SameName(a, b) ==> HashOf(a) == HashOf(b)
  {
    if |a| == |b| {
      forall i | 0 <= i < |a| ensures SameLetter(a[i], b[i]) <==> UpperName(a)[i] == UpperName(b)[i] {
        SameLetterIff(a[i], b[i]);
      }
    } else {
      assert |UpperName(a)| == |a| && |UpperName(b)| == |b|;
    }
  }

  /** Three known values of FNV-1a. */
  lemma KnownHashes()
    ensures HashOf("") == 0x811c_9dc5
    ensures HashOf("A") == 0xc40b_f6cc
    ensures HashOf("A0") == 0x9ad5_ceb4
  {
    assert UpperName("") == "" && UpperName("A") == "A" && UpperName("A0") == "A0";
    assert "A"[..0] == "" && "A0"[..1] == "A";
    KnownMixes();
  }

  lemma KnownMixes()
    ensures Mix(0x811c_9dc5, 'A') == 0xc40b_f6cc && Mix(0xc40b_f6cc, '0') == 0x9ad5_ceb4
  {
  }

  // ----- splitting a path -----------------------------------------------------------------------

  /** strrchr: one past the last c, or 0 when there is none. */
  function AfterLast(s: string, c: char): (r: nat)
    ensures r <= |s|
    ensures forall i :: r <= i < |s| ==> s[i] != c
    ensures r > 0 ==> s[r - 1] == c
  {
    if s == "" then 0 else if s[|s| - 1] == c then |s| else AfterLast(s[..|s| - 1], c)
  }

  lemma {:induction false} LastIs(s: string, c: char, k: nat)
    requires k < |s| && s[k] == c && forall i :: k < i < |s| ==> s[i] != c
    ensures AfterLast(s, c) == k + 1
  {
    if k < |s| - 1 { LastIs(s[..|s| - 1], c, k); }
  }

  function SplitPath(path: string): Option<(string, string)> {
    var slash, colon := AfterLast(path, '/'), Find(path, ':');
    if slash == 0 && colon == |path| then None
    else
      var cut := if slash > 0 then slash - 1 else colon + 1;
      var base := if slash > 0 then path[slash..] else path[cut..];
      if cut == 0 || cut >= DIR_MAX || base == "" then None else Some((path[..cut], base))
  }

  /** A directory and a base that make up the path: cut at the last slash, or behind the first colon
      when there is no slash. */
  predicate Halves(path: string, dir: string, base: string) {
    && 0 < |dir| < 192 && base != "" && !HasChar(base, '/')
    && (path == dir + "/" + base
        || (path == dir + base && !HasChar(path, '/') && dir[|dir| - 1] == ':' && !HasChar(dir[..|dir| - 1], ':')))
  }

  /** A path is split exactly into its two halves, and refused exactly when there are none. */
  lemma SplitIff(path: string, dir: string, base: string)
    ensures SplitPath(path) == Some((dir, base)) <==> Halves(path, dir, base)
  {
    if Halves(path, dir, base) { HalvesAreCut(path, dir, base); }
  }

  lemma HalvesAreCut(path: string, dir: string, base: string)
    requires Halves(path, dir, base)
    ensures SplitPath(path) == Some((dir, base))
  {
    if path == dir + "/" + base {
      forall i | |dir| < i < |path| ensures path[i] != '/' { assert path[i] == base[i - |dir| - 1]; }
      LastIs(path, '/', |dir|);
      assert path[..|dir|] == dir && path[|dir| + 1..] == base;
    } else {
      assert AfterLast(path, '/') == 0;
      assert forall i :: 0 <= i < |dir| - 1 ==> path[i] == dir[..|dir| - 1][i];
      FindIs(path, ':', |dir| - 1);
      assert path[..|dir|] == dir && path[|dir|..] == base;
    }
  }

  /** What artIndexMayExist answers "go and look" to before it touches a slot. */
  function Admit(path: string, thread: int, owner: int): Option<(string, string)> {
    if path == "" || HasChar(path, '\\') || StartsWith(path, "smb") || owner < 0 || thread != owner then None
    else SplitPath(path)
  }

  // ----- the sweep ------------------------------------------------------------------------------

  predicate Listed(name: string) {
    name != "" && name[0] != '.'
  }

  function Kept(names: seq<string>): seq<string> {
    if names == [] then []
    else if Listed(names[|names| - 1]) then Kept(names[..|names| - 1]) + [names[|names| - 1]]
    else Kept(names[..|names| - 1])
  }

  function Hashes(names: seq<string>): seq<Hash> {
    seq(|names|, i requires 0 <= i < |names| => HashOf(names[i]))
  }

  /** The readdir loop: None on overflow, otherwise the hashes of everything kept. */
  method Collect(names: seq<string>) returns (r: Option<seq<Hash>>)
    ensures r == if |Kept(names)| > MAX_ENTRIES then None else Some(Hashes(Kept(names)))
  {
    var hashes, i := [], 0;
    while i < |names|
      invariant i <= |names| && hashes == Hashes(Kept(names[..i])) && |hashes| <= MAX_ENTRIES
    {
      assert names[..i + 1][..i] == names[..i];
      if Listed(names[i]) {
        if |hashes| >= MAX_ENTRIES {
          KeptGrows(names, i + 1);
          return None;
        }
        var h := ComputeHash(names[i]);
        hashes := hashes + [h];
      }
      i := i + 1;
    }
    assert names[..i] == names;
    r := Some(hashes);
  }

  lemma {:induction false} KeptGrows(names: seq<string>, n: nat)
    requires n <= |names|
    ensures |Kept(names[..n])| <= |Kept(names)|
    decreases |names|
  {
    if n < |names| {
      assert names[..|names| - 1][..n] == names[..n];
      KeptGrows(names[..|names| - 1], n);
    } else {
      assert names[..n] == names;
    }
  }

  lemma {:induction false} KeptHolds(names: seq<string>, name: string)
    requires name in names && Listed(name)
    ensures name in Kept(names)
  {
    var init := names[..|names| - 1];
    assert names == init + [names[|names| - 1]];
    if name in init { KeptHolds(init, name); }
  }

  /** A hash that is not among the kept ones belongs to a name that is not among the swept ones. */
  lemma MissedHashMissesName(names: seq<string>, hashes: seq<Hash>, base: string)
    requires multiset(hashes) == multiset(Hashes(Kept(names)))
    requires HashOf(base) !in hashes && Listed(base)
    ensures forall name :: name in names ==> !SameName(name, base)
  {
    forall name | name in names && SameName(name, base) ensures false {
      assert |UpperName(name)| == |name| == |base| && UpperName(name)[0] == UpperName(base)[0];
      KeptHolds(names, name);
      HashListed(Kept(names), name);
    }
  }

  lemma HashListed(names: seq<string>, name: string)
    requires name in names
    ensures HashOf(name) in multiset(Hashes(names))
  {
    var i :| 0 <= i < |names| && names[i] == name;
    assert Hashes(names)[i] == HashOf(name);
  }

  // ----- the search -----------------------------------------------------------------------------

  ghost predicate Sorted(hashes: seq<Hash>) {
    forall i, j :: 0 <= i < j < |hashes| ==> hashes[i] <= hashes[j]
  }

  lemma HalvesOut(s: seq<Hash>, mid: nat, want: Hash)
    requires Sorted(s) && mid < |s|
    ensures s[mid] < want ==> forall i :: 0 <= i <= mid ==> s[i] < want
    ensures want < s[mid] ==> forall i :: mid <= i < |s| ==> want < s[i]
  {
    forall i | 0 <= i <= mid ensures s[i] <= s[mid] { if i < mid { assert s[i] <= s[mid]; } }
    forall i | mid <= i < |s| ensures s[mid] <= s[i] { if mid < i { assert s[mid] <= s[i]; } }
  }

  method Search(hashes: array<Hash>, count: nat, want: Hash) returns (found: bool)
    requires count <= hashes.Length && Sorted(hashes[..count])
    ensures found <==> want in hashes[..count]
  {
    ghost var s := hashes[..count];
    var lo: int, hi: int := 0, count - 1;
    while lo <= hi
      invariant 0 <= lo <= hi + 1 <= count
      invariant forall i :: 0 <= i < lo ==> s[i] < want
      invariant forall i :: hi < i < count ==> want < s[i]
    {
      var mid := lo + (hi - lo) / 2;
      var got := hashes[mid];
      assert got == s[mid];
      if got == want { return true; }
      HalvesOut(s, mid, want);
      if got < want {
        lo := mid + 1;
      } else {
        hi := mid - 1;
      }
    }
    return false;
  }
}
