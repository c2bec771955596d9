/** The restriction-site library: an insertion-ordered dictionary from a
    recognition sequence to an enzyme name, its built-in contents, editing
    and indexed access. */
module Restrictions {
  import opened Outcomes
  import opened Dna

  /** One library entry: a recognition sequence and the enzyme it names. */
  datatype Entry = Entry(pattern: string, name: string)

  /** No two entries share a recognition sequence. */
  predicate UniqueKeys(s: seq<Entry>) {
    forall i, j :: 0 <= i < j < |s| ==> s[i].pattern != s[j].pattern
  }

  /** A dictionary keeps one value per key and remembers insertion order. */
  type Library = s: seq<Entry> | UniqueKeys(s) witness []

  /** The recognition sequences the library accepts. */
  predicate ValidPattern(p: string) {
    AllBases(p) && 4 <= |p| <= 8
  }

  /** Every entry has an acceptable pattern and a non-empty name: what the
      library holds when it was only ever edited through `UpdateRest`. */
  predicate ValidLibrary(lib: Library) {
    forall i :: 0 <= i < |lib| ==> ValidPattern(lib[i].pattern) && lib[i].name != ""
  }

  /** `p in restrictions` */
  predicate HasKey(lib: Library, p: string) {
    exists i :: 0 <= i < |lib| && lib[i].pattern == p
  }

  /** The built-in library the program starts with. */
  const Seed: Library := [
    Entry("GAATC", "EcoRI"),
    Entry("TCTAGA", "XbaI"),
    Entry("ACTAGT", "SpeI"),
    Entry("CTGCAG", "PstI"),
    Entry("GCGGCCGC", "NotI"),
    Entry("GCTCTCC", "SapI"),
    Entry("GGTCTC", "BcaI")
  ]

  /** The built-in library is one that `UpdateRest` keeps valid. The last
      clause only spot-checks the first and last entries as a sanity example. */
  lemma SeedIsValid()
    ensures |Seed| == 7
    ensures ValidLibrary(Seed)
    ensures Seed[0] == Entry("GAATC", "EcoRI") && Seed[6] == Entry("GGTCTC", "BcaI")
  {
  }

  /** `restrictions[p]`, or None where Python would raise `KeyError`. */
  function Lookup(lib: Library, p: string): (r: Option<string>)
    ensures r.Some? <==> HasKey(lib, p)
    ensures forall i :: 0 <= i < |lib| && lib[i].pattern == p ==> r == Some(lib[i].name)
    decreases |lib|
  {
    if lib == [] then None
    else if lib[0].pattern == p then Some(lib[0].name)
    else Lookup(lib[1..], p)
  }

  /** `restrictions[p] = n`: an existing key keeps its place and gets the
      new name; a new key goes to the end. */
  function Put(lib: Library, p: string, n: string): (r: Library)
    ensures HasKey(lib, p) ==>
      |r| == |lib| &&
      forall i :: 0 <= i < |lib| ==> r[i] == (if lib[i].pattern == p then Entry(p, n) else lib[i])
    ensures !HasKey(lib, p) ==> r == lib + [Entry(p, n)]
    decreases |lib|
  {
    if lib == [] then [Entry(p, n)]
    else if lib[0].pattern == p then
      assert !HasKey(lib[1..], p) by {
        forall i | 0 <= i < |lib[1..]| ensures lib[1..][i].pattern != p {
          assert lib[1..][i] == lib[i + 1];
        }
      }
      [Entry(p, n)] + lib[1..]
    else
      var rest := Put(lib[1..], p, n);
      assert HasKey(lib, p) <==> HasKey(lib[1..], p) by {
        if HasKey(lib, p) {
          var i :| 0 <= i < |lib| && lib[i].pattern == p;
          assert lib[1..][i - 1] == lib[i];
        }
      }
      assert forall i :: 0 <= i < |rest| ==> rest[i].pattern != lib[0].pattern;
      [lib[0]] + rest
  }

  /** The position of key `p` in insertion order. */
  function IndexOf(lib: Library, p: string): (k: nat)
    requires HasKey(lib, p)
    ensures k < |lib| && lib[k].pattern == p
    decreases |lib|
  {
    if lib[0].pattern == p then 0
    else
      assert HasKey(lib[1..], p) by {
        var i :| 0 <= i < |lib| && lib[i].pattern == p;
        assert lib[1..][i - 1] == lib[i];
      }
      1 + IndexOf(lib[1..], p)
  }

  /** The library without its `k`-th entry. */
  function Drop(lib: Library, k: nat): (r: Library)
    requires k < |lib|
    ensures |r| == |lib| - 1
    ensures forall i :: 0 <= i < |r| ==> r[i] == if i < k then lib[i] else lib[i + 1]
  {
    var r := lib[..k] + lib[k + 1..];
    assert forall i :: 0 <= i < |r| ==> r[i] == if i < k then lib[i] else lib[i + 1];
    r
  }

  /** `del restrictions[p]`: the entry for `p` disappears and every other
      entry keeps its place relative to the rest. */
  function Remove(lib: Library, p: string): (r: Library)
    ensures !HasKey(lib, p) ==> r == lib
    ensures forall k :: 0 <= k < |lib| && lib[k].pattern == p ==> r == lib[..k] + lib[k + 1..]
  {
    if HasKey(lib, p) then
      var k := IndexOf(lib, p);
      var r := Drop(lib, k);
      assert r == lib[..k] + lib[k + 1..];
      r
    else lib
  }

  /** The outcome of an edit: whether it succeeded (and which message was
      popped up if not) and the library afterwards. */
  datatype Update = Update(status: Verdict, library: Library)

  /** The edit the "Add restriction" button performs. The pattern is checked
      for its alphabet, then its length; then an empty name deletes the
      pattern and any other name inserts or renames it. */
  function UpdateRest(base: string, name: string, lib: Library): (r: Update)
    // rejected edits leave the library alone, and report the first problem
    ensures r.status.Fail? ==> r.library == lib
    ensures r.status == Fail(BadBase) <==> !AllBases(base)
    ensures r.status == Fail(BadBaseLength) <==> AllBases(base) && !(4 <= |base| <= 8)
    ensures r.status == Fail(BaseNotFound) <==> ValidPattern(base) && name == "" && !HasKey(lib, base)
    ensures r.status == Pass <==> ValidPattern(base) && (name != "" || HasKey(lib, base))
    // deletion removes exactly `base`
    ensures ValidPattern(base) && name == "" ==>
      !HasKey(r.library, base) &&
      forall i :: 0 <= i < |lib| && lib[i].pattern == base ==> r.library == lib[..i] + lib[i + 1..]
    // insertion renames in place or appends
    ensures ValidPattern(base) && name != "" ==>
      Lookup(r.library, base) == Some(name) &&
      |r.library| == |lib| + (if HasKey(lib, base) then 0 else 1) &&
      (forall i :: 0 <= i < |lib| && lib[i].pattern != base ==> r.library[i] == lib[i]) &&
      (!HasKey(lib, base) ==> r.library[|lib|] == Entry(base, name))
    // a library edited only through here stays well formed
    ensures ValidLibrary(lib) ==> ValidLibrary(r.library)
  {
    if !AllBases(base) then Update(Fail(BadBase), lib)
    else if |base| > 8 || |base| < 4 then Update(Fail(BadBaseLength), lib)
    else if name == "" then
      if !HasKey(lib, base) then Update(Fail(BaseNotFound), lib)
      else
        var r := Remove(lib, base);
        var k := IndexOf(lib, base);
        assert r == Drop(lib, k);
        Update(Pass, r)
    else
      var r := Put(lib, base, name);
      assert HasKey(r, base) by {
        if HasKey(lib, base) {
          var k :| 0 <= k < |lib| && lib[k].pattern == base;
          assert r[k].pattern == base;
        } else {
          assert r[|lib|].pattern == base;
        }
      }
      Update(Pass, r)
  }

  /** Python-style negative indexing wraps once around the library. */
  function Wrap(lib: Library, n: int): int {
    if n < 0 then n + |lib| else n
  }

  /** `get_nth_key`: the key at position `n` in insertion order, counting
      from the end when `n` is negative. */
  method GetNthKey(lib: Library, n: int) returns (r: Result<string, IndexError>)
    ensures 0 <= n < |lib| ==> r == Ok(lib[n].pattern)
    ensures -|lib| <= n < 0 ==> r == Ok(lib[n + |lib|].pattern)
    ensures n < -|lib| || |lib| <= n ==> r == Err(IndexOutOfRange)
  {
    var m := Wrap(lib, n);
    var i := 0;
    while i < |lib|
      invariant 0 <= i <= |lib|
      invariant m < 0 || i <= m
    {
      if i == m {
        return Ok(lib[i].pattern);
      }
      i := i + 1;
    }
    return Err(IndexOutOfRange);
  }

  /** Looking up the key found at position `k` yields that very entry: the
      indexed view and the dictionary view of the library agree. The second
      clause only restates, for that key, that library keys are unique. */
  lemma LookupAtIndex(lib: Library, k: int)
    requires 0 <= k < |lib|
    ensures Lookup(lib, lib[k].pattern) == Some(lib[k].name)
    ensures forall j :: 0 <= j < |lib| && lib[j].pattern == lib[k].pattern ==> j == k
  {
  }

  /** Dictionary view of inserting: only `p` changes. */
  lemma LookupAfterPut(lib: Library, p: string, n: string, q: string)
    ensures Lookup(Put(lib, p, n), q) == if q == p then Some(n) else Lookup(lib, q)
  {
  }

  /** Dictionary view of deleting: `p` is gone and nothing else changes. */
  lemma LookupAfterRemove(lib: Library, p: string, q: string)
    ensures Lookup(Remove(lib, p), q) == if q == p then None else Lookup(lib, q)
  {
    if HasKey(lib, p) {
      var k := IndexOf(lib, p);
      var r := Drop(lib, k);
      assert Remove(lib, p) == r;
      if q == p {
        forall i | 0 <= i < |r| ensures r[i].pattern != q {
          if i < k { assert r[i] == lib[i]; } else { assert r[i] == lib[i + 1]; }
        }
      } else if HasKey(lib, q) {
        var j := IndexOf(lib, q);
        if j < k { assert r[j] == lib[j]; } else { assert r[j - 1] == lib[j]; }
      } else {
        forall i | 0 <= i < |r| ensures r[i].pattern != q {
          if i < k { assert r[i] == lib[i]; } else { assert r[i] == lib[i + 1]; }
        }
      }
    }
  }

  /** Inserting a fresh pattern and then deleting it restores the library. */
  lemma InsertThenDelete(base: string, name: string, lib: Library)
    requires ValidPattern(base) && name != "" && !HasKey(lib, base)
    ensures UpdateRest(base, name, lib).status == Pass
    ensures UpdateRest(base, "", UpdateRest(base, name, lib).library) == Update(Pass, lib)
  {
  }

  /** Deleting a pattern and inserting it again with its old name moves it
      to the end of the insertion order and changes nothing else. */
  lemma DeleteThenReinsert(k: int, lib: Library)
    requires 0 <= k < |lib| && ValidPattern(lib[k].pattern) && lib[k].name != ""
    ensures UpdateRest(lib[k].pattern, lib[k].name,
                       UpdateRest(lib[k].pattern, "", lib).library).library
            == lib[..k] + lib[k + 1..] + [lib[k]]
  {
  }

  /** Writing the same name twice is the same as writing it once. */
  lemma PutIdempotent(lib: Library, p: string, n: string)
    ensures Put(Put(lib, p, n), p, n) == Put(lib, p, n)
  {
  }
}
