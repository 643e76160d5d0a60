/**
 * The script's top level: read the taxonomy, build the whitelist from the
 * include and exclude roots, then filter the catalog. The roots are
 * parameters rather than the script's constants, and the file contents are
 * given as sequences of lines.
 */
module Pipeline {
  import opened Results
  import opened Taxonomy
  import opened Descent
  import opened Catalog

  /** The first failure of a run, in the order the script meets them. */
  datatype RunError =
    | TaxonomyFailed(readError: TaxonomyError)
    | RootMissing(rootError: DescentError)
    | CatalogFailed(index: nat, error: RecordError, written: seq<string>)

  /**
   * The closures the script computes return: the graph read from `nodeLines`
   * has no cycle below the include root, nor below the exclude root when the
   * include closure gets past its `KeyError`.
   */
  ghost predicate ClosuresReturn(nodeLines: seq<string>, includeRoot: TaxId, excludeRoot: TaxId) {
    ReadTaxonomy(nodeLines).Ok? ==>
      && AcyclicFrom(ReadTaxonomy(nodeLines).value, includeRoot)
      && (includeRoot in ReadTaxonomy(nodeLines).value ==> AcyclicFrom(ReadTaxonomy(nodeLines).value, excludeRoot))
  }

  /** `x` is whitelisted: a descendant of the include root and not of the exclude root. */
  ghost predicate Admitted(g: Graph, includeRoot: TaxId, excludeRoot: TaxId, x: TaxId) {
    Reachable(g, includeRoot, x) && !Reachable(g, excludeRoot, x)
  }

  /**
   * The script's top level (taxids2gids.py, lines 51-70): read the taxonomy,
   * build the whitelist, then filter the catalog, failing at the first error.
   */
  function Run(nodeLines: seq<string>, includeRoot: TaxId, excludeRoot: TaxId, catalog: seq<string>): (r: Result<seq<string>, RunError>)
    requires ClosuresReturn(nodeLines, includeRoot, excludeRoot)
    ensures ReadTaxonomy(nodeLines).Err? ==> r == Err(TaxonomyFailed(ReadTaxonomy(nodeLines).error))
    ensures r.Ok? <==>
      && AllNodeLines(nodeLines)
      && includeRoot in ReadTaxonomy(nodeLines).value
      && excludeRoot in ReadTaxonomy(nodeLines).value
      && AllRecords(catalog)
    ensures ReadTaxonomy(nodeLines).Ok? && includeRoot !in ReadTaxonomy(nodeLines).value ==>
      r == Err(RootMissing(UnknownTaxon(includeRoot)))
    ensures ReadTaxonomy(nodeLines).Ok? && includeRoot in ReadTaxonomy(nodeLines).value && excludeRoot !in ReadTaxonomy(nodeLines).value ==>
      r == Err(RootMissing(UnknownTaxon(excludeRoot)))
    ensures r.Ok? ==> exists whitelist: set<TaxId>, idx: seq<nat> ::
      && (forall x :: x in whitelist <==> Admitted(ReadTaxonomy(nodeLines).value, includeRoot, excludeRoot, x))
      && SelectedAt(catalog, whitelist, r.value, idx)
  {
    match ReadTaxonomy(nodeLines)
    case Err(e) => Err(TaxonomyFailed(e))
    case Ok(g) =>
      match Whitelist(g, includeRoot, excludeRoot)
      case Err(e) => Err(RootMissing(e))
      case Ok(whitelist) =>
        match FilterCatalog(catalog, whitelist)
        case Failed(i, e, written) => Err(CatalogFailed(i, e, written))
        case Done(out) =>
          FilterCatalogSelects(catalog, whitelist);
          assert forall x :: x in whitelist <==> Admitted(g, includeRoot, excludeRoot, x);
          Ok(out)
  }

  /**
   * Fail-fast at the top level: when the taxonomy reads and holds both roots
   * but some catalog line does not read, the run stops in the catalog; it
   * names its first bad line and that line's error, and has written, in
   * catalog order, the gis of exactly the admitted lines before it.
   */
  lemma RunCatalogFailed(nodeLines: seq<string>, includeRoot: TaxId, excludeRoot: TaxId, catalog: seq<string>)
    requires ClosuresReturn(nodeLines, includeRoot, excludeRoot)
    requires AllNodeLines(nodeLines)
    requires includeRoot in ReadTaxonomy(nodeLines).value && excludeRoot in ReadTaxonomy(nodeLines).value
    requires !AllRecords(catalog)
    ensures Run(nodeLines, includeRoot, excludeRoot, catalog).Err?
    ensures Run(nodeLines, includeRoot, excludeRoot, catalog).error.CatalogFailed?
    ensures var f := Run(nodeLines, includeRoot, excludeRoot, catalog).error;
      && FirstBadRecord(catalog, f.index, f.error)
      && exists whitelist: set<TaxId>, idx: seq<nat> ::
        && (forall x :: x in whitelist <==> Admitted(ReadTaxonomy(nodeLines).value, includeRoot, excludeRoot, x))
        && SelectedAt(catalog[..f.index], whitelist, f.written, idx)
  {
    var g := ReadTaxonomy(nodeLines).value;
    var whitelist := Whitelist(g, includeRoot, excludeRoot).value;
    var i := FilterCatalog(catalog, whitelist).index;
    FilterCatalogFailed(catalog, whitelist);
    FilterCatalogSelects(catalog[..i], whitelist);
    assert forall x :: x in whitelist <==> Admitted(g, includeRoot, excludeRoot, x);
  }
}
