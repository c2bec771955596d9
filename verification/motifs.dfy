/** What the "Run" button and the table selection hand to the motif scanner:
    the entries the user picked, and the list of motifs searched for, which
    adds a complemented copy of every picked entry. The base-wise complement
    lives in a module that is not part of this model, so it is a parameter. */
module Motifs {
  import opened Outcomes
  import opened Dna
  import opened Restrictions

  /** The entry shown in table row `select`, as the selection handler builds
      it: the key at that position, paired with the name the library holds
      for that key. */
  method SelectEntry(lib: Library, select: int) returns (r: Result<Entry, IndexError>)
    ensures 0 <= select < |lib| ==> r == Ok(lib[select])
    ensures -|lib| <= select < 0 ==> r == Ok(lib[select + |lib|])
    ensures select < -|lib| || |lib| <= select ==> r == Err(IndexOutOfRange)
  {
    var key := GetNthKey(lib, select);
    match key
    case Err(e) =>
      return Err(e);
    case Ok(base) =>
      var k := Wrap(lib, select);
      LookupAtIndex(lib, k);
      var name := Lookup(lib, base);
      return Ok(Entry(base, name.value));
  }

  /** The derived motif for one selected entry: the complemented pattern
      under the entry's name prefixed with "compl_". */
  function Complemented(e: Entry, complement: string -> string): Entry
  {
    Entry(complement(e.pattern), "compl_" + e.name)
  }

  /** A derived motif is a new motif: it never coincides with the entry it
      came from, and its name gives back the original name. Reports are keyed
      by pattern and name, so an entry and its derived motif are reported
      apart even when the complement leaves the pattern unchanged. */
  lemma ComplementedIsNewMotif(e: Entry, complement: string -> string)
    ensures Complemented(e, complement) != e
    ensures Complemented(e, complement).name[6..] == e.name
    ensures forall d: Entry :: Complemented(d, complement) == Complemented(e, complement) ==>
      d.name == e.name && complement(d.pattern) == complement(e.pattern)
  {
  }

  /** The motif list searched on "Run": the selection as it stands, then one
      complemented motif per selected entry, in the same order. */
  method CombineMotifs(selected: seq<Entry>, complement: string -> string)
    returns (combined: seq<Entry>)
    ensures |combined| == 2 * |selected|
    ensures combined[..|selected|] == selected
    ensures forall k :: 0 <= k < |selected| ==>
      combined[|selected| + k] == Entry(complement(selected[k].pattern), "compl_" + selected[k].name)
  {
    combined := selected;
    for k := 0 to |selected|
      invariant |combined| == |selected| + k
      invariant combined[..|selected|] == selected
      invariant forall j :: 0 <= j < k ==> combined[|selected| + j] == Complemented(selected[j], complement)
    {
      combined := combined + [Complemented(selected[k], complement)];
    }
  }

  /** The "Run" handler up to the search: the DNA is validated first, and
      only a valid sequence leads to a motif list. */
  method Run(dna: string, selected: seq<Entry>, complement: string -> string)
    returns (r: Result<seq<Entry>, Message>)
    ensures r.Ok? <==> AllBases(dna) && |dna| % 3 == 0
    ensures r == Err(BadDna) <==> !AllBases(dna)
    ensures r == Err(NotDivBy3) <==> AllBases(dna) && |dna| % 3 != 0
    ensures r.Ok? ==>
      |r.value| == 2 * |selected| && r.value[..|selected|] == selected &&
      forall k :: 0 <= k < |selected| ==> r.value[|selected| + k] == Complemented(selected[k], complement)
  {
    var v := CheckDna(dna);
    if v.Fail? {
      return Err(v.reason);
    }
    var combined := CombineMotifs(selected, complement);
    return Ok(combined);
  }
}
