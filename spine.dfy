/**
 * Spine resolution (processFile, main.go:425-444): a map from manifest ids
 * to hrefs, in which a later item overrides an earlier one with the same
 * id, then the spine walked in order, each idref found in the map resolved
 * against the package document's directory and each dangling one skipped.
 */
module Spine {
  import opened Wrappers
  import opened Selections
  import opened FilePath
  import opened Epub

  /** The id-to-href map after the manifest items are stored in order. */
  function ManifestMap(items: seq<ManifestItem>): map<string, string>
  {
    if items == [] then map[]
    else ManifestMap(items[..|items| - 1])[items[|items| - 1].id := items[|items| - 1].href]
  }

  /** The loop that fills pageMap (main.go:425-428). */
  method BuildPageMap(items: seq<ManifestItem>) returns (pageMap: map<string, string>)
    ensures pageMap == ManifestMap(items)
  {
    pageMap := map[];
    var i := 0;
    while i < |items|
      invariant 0 <= i <= |items|
      invariant pageMap == ManifestMap(items[..i])
    {
      assert items[..i + 1][..i] == items[..i];
      pageMap := pageMap[items[i].id := items[i].href];
      i := i + 1;
    }
    assert items[..|items|] == items;
  }

  /** The map knows exactly the ids some manifest item declares. */
  lemma {:induction false} ManifestMapKeys(items: seq<ManifestItem>)
    ensures ManifestMap(items).Keys == set k | 0 <= k < |items| :: items[k].id
  {
    if items != [] {
      var init := items[..|items| - 1];
      ManifestMapKeys(init);
      assert forall k | 0 <= k < |init| :: init[k] == items[k];
    }
  }

  /** On a duplicate id the last item with that id wins. */
  lemma {:induction false} ManifestLastWins(items: seq<ManifestItem>, k: nat)
    requires k < |items|
    requires forall j | k < j < |items| :: items[j].id != items[k].id
    ensures items[k].id in ManifestMap(items)
    ensures ManifestMap(items)[items[k].id] == items[k].href
  {
    if k < |items| - 1 {
      var init := items[..|items| - 1];
      assert forall j | k < j < |init| :: init[j] == items[j];
      ManifestLastWins(init, k);
    }
  }

  /** The resolved page paths of the spine refs, in spine order (main.go:430-440). */
  function ResolvedPages(pageMap: map<string, string>, opfPath: string, refs: seq<string>): seq<string>
  {
    if refs == [] then []
    else
      var ref := refs[|refs| - 1];
      ResolvedPages(pageMap, opfPath, refs[..|refs| - 1])
        + (if ref in pageMap then [Resolve(opfPath, pageMap[ref])] else [])
  }

  /** The outcome of the spine block: its pages, or EmptySpine when there are none. */
  function SpineResult(pkg: Package, opfPath: string): Result<seq<string>, ConvertError>
  {
    var pages := ResolvedPages(ManifestMap(pkg.items), opfPath, pkg.itemrefs);
    if pages == [] then Failure(EmptySpine) else Success(pages)
  }

  /** The manifest loop, the spine loop and the empty check of processFile. */
  method ResolvePages(pkg: Package, opfPath: string) returns (r: Result<seq<string>, ConvertError>)
    ensures r == SpineResult(pkg, opfPath)
  {
    var pageMap := BuildPageMap(pkg.items);
    var pages: seq<string> := [];
    var i := 0;
    while i < |pkg.itemrefs|
      invariant 0 <= i <= |pkg.itemrefs|
      invariant pages == ResolvedPages(pageMap, opfPath, pkg.itemrefs[..i])
    {
      assert pkg.itemrefs[..i + 1][..i] == pkg.itemrefs[..i];
      var idref := pkg.itemrefs[i];
      if idref in pageMap {
        var absPath := Resolve(opfPath, pageMap[idref]);
        pages := pages + [absPath];
      }
      i := i + 1;
    }
    assert pkg.itemrefs[..|pkg.itemrefs|] == pkg.itemrefs;
    if |pages| == 0 {
      return Failure(EmptySpine);
    }
    return Success(pages);
  }

  /** Whether a spine idref names a manifest item, as a value: the filter of the spine selection. */
  function InMap(pageMap: map<string, string>): string -> bool
  {
    (ref: string) => ref in pageMap
  }

  /** The page a spine idref that names a manifest item resolves to. */
  function PageOf(pageMap: map<string, string>, opfPath: string): (string, nat) -> string
  {
    (ref: string, k: nat) => if ref in pageMap then Resolve(opfPath, pageMap[ref]) else ""
  }

  /**
   * pages is the spine refs that are in the map, in order and with repeats
   * kept, each mapped href resolved against opfPath, picked out by the
   * strictly increasing spine positions idx: every position whose idref is
   * in the map is picked, and only those.
   */
  ghost predicate SpineSelection(pageMap: map<string, string>, opfPath: string, refs: seq<string>,
                                 pages: seq<string>, idx: seq<nat>)
  {
    Selected(refs, InMap(pageMap), PageOf(pageMap, opfPath), pages, idx)
  }

  /** The resolved pages of a non-empty spine extend those of its prefix as its last ref decides. */
  lemma ResolvedPagesStep(pageMap: map<string, string>, opfPath: string, refs: seq<string>, idx: seq<nat>)
    requires refs != []
    requires SpineSelection(pageMap, opfPath, refs[..|refs| - 1], ResolvedPages(pageMap, opfPath, refs[..|refs| - 1]), idx)
    ensures exists idx' :: SpineSelection(pageMap, opfPath, refs, ResolvedPages(pageMap, opfPath, refs), idx')
  {
    if refs[|refs| - 1] in pageMap {
      ResolvedPagesStepResolved(pageMap, opfPath, refs, idx);
    } else {
      ResolvedPagesStepDangling(pageMap, opfPath, refs, idx);
    }
  }

  /** The step when the last ref is in the map. */
  lemma ResolvedPagesStepResolved(pageMap: map<string, string>, opfPath: string, refs: seq<string>, idx: seq<nat>)
    requires refs != [] && refs[|refs| - 1] in pageMap
    requires SpineSelection(pageMap, opfPath, refs[..|refs| - 1], ResolvedPages(pageMap, opfPath, refs[..|refs| - 1]), idx)
    ensures SpineSelection(pageMap, opfPath, refs, ResolvedPages(pageMap, opfPath, refs), idx + [|refs| - 1])
  {
    var n := |refs| - 1;
    var prior := ResolvedPages(pageMap, opfPath, refs[..n]);
    assert InMap(pageMap)(refs[n]);
    ExtendKept(refs, InMap(pageMap), PageOf(pageMap, opfPath), prior, idx);
    assert ResolvedPages(pageMap, opfPath, refs) == prior + [PageOf(pageMap, opfPath)(refs[n], n)];
  }

  /** The step when the last ref dangles. */
  lemma ResolvedPagesStepDangling(pageMap: map<string, string>, opfPath: string, refs: seq<string>, idx: seq<nat>)
    requires refs != [] && refs[|refs| - 1] !in pageMap
    requires SpineSelection(pageMap, opfPath, refs[..|refs| - 1], ResolvedPages(pageMap, opfPath, refs[..|refs| - 1]), idx)
    ensures SpineSelection(pageMap, opfPath, refs, ResolvedPages(pageMap, opfPath, refs), idx)
  {
    var n := |refs| - 1;
    var prior := ResolvedPages(pageMap, opfPath, refs[..n]);
    assert !InMap(pageMap)(refs[n]);
    ExtendDropped(refs, InMap(pageMap), PageOf(pageMap, opfPath), prior, idx);
    assert ResolvedPages(pageMap, opfPath, refs) == prior;
  }

  /** The resolved pages are exactly the resolvable spine refs in spine order. */
  lemma {:induction false} ResolvedPagesSelect(pageMap: map<string, string>, opfPath: string, refs: seq<string>)
    ensures exists idx :: SpineSelection(pageMap, opfPath, refs, ResolvedPages(pageMap, opfPath, refs), idx)
  {
    if refs == [] {
      SelectedNone(InMap(pageMap), PageOf(pageMap, opfPath));
      assert SpineSelection(pageMap, opfPath, refs, ResolvedPages(pageMap, opfPath, refs), []);
    } else {
      var init := refs[..|refs| - 1];
      ResolvedPagesSelect(pageMap, opfPath, init);
      var prev: seq<nat> :| SpineSelection(pageMap, opfPath, init, ResolvedPages(pageMap, opfPath, init), prev);
      ResolvedPagesStep(pageMap, opfPath, refs, prev);
    }
  }

  /** There are never more pages than spine refs, and no page path starts with '/'. */
  lemma {:induction false} ResolvedPagesShape(pageMap: map<string, string>, opfPath: string, refs: seq<string>)
    ensures |ResolvedPages(pageMap, opfPath, refs)| <= |refs|
    ensures forall k | 0 <= k < |ResolvedPages(pageMap, opfPath, refs)| ::
              ResolvedPages(pageMap, opfPath, refs)[k] == "" || ResolvedPages(pageMap, opfPath, refs)[k][0] != '/'
  {
    if refs != [] {
      ResolvedPagesShape(pageMap, opfPath, refs[..|refs| - 1]);
    }
  }

  /** The spine block fails exactly when no spine idref is a manifest id. */
  lemma SpineResultFailsIffAllDangling(pkg: Package, opfPath: string)
    ensures SpineResult(pkg, opfPath).Failure? <==>
              forall j | 0 <= j < |pkg.itemrefs| :: pkg.itemrefs[j] !in ManifestMap(pkg.items)
  {
    var m := ManifestMap(pkg.items);
    ResolvedPagesSelect(m, opfPath, pkg.itemrefs);
    var pages := ResolvedPages(m, opfPath, pkg.itemrefs);
    var idx: seq<nat> :| SpineSelection(m, opfPath, pkg.itemrefs, pages, idx);
    SelectedEmptyIffNoneKept(pkg.itemrefs, InMap(m), PageOf(m, opfPath), pages, idx);
    assert forall j | 0 <= j < |pkg.itemrefs| :: InMap(m)(pkg.itemrefs[j]) == (pkg.itemrefs[j] in m);
  }
}
