/**
 * The streaming filter over the RefSeq catalog (taxids2gids.py, the loop
 * over the catalog lines): each line is split on tabs, field 0 is the taxon
 * id and field 3 the gi, and the gi plus a newline is written when the taxon
 * id is whitelisted.
 */
module Catalog {
  import opened Results
  import opened Text
  import opened Taxonomy

  /** The catalog field delimiter. */
  const Tab: char := '\t'

  /** The two fields of a catalog line the filter uses. */
  datatype Record = Record(taxid: TaxId, payload: string)

  /** Why one catalog line could not be read: fewer than four fields, or a taxon id `int()` rejects. */
  datatype RecordError = ShortRecord | BadTaxId(text: string)

  /**
   * One catalog line: split on tabs, unpack fields 0 to 3, convert field 0.
   * Unpacking fails exactly when the line has fewer than three tabs; a taxon
   * id that does not convert is reported as the whole text before the first tab.
   */
  function ParseRecord(line: string): (r: Result<Record, RecordError>)
    ensures r == Err(ShortRecord) <==> Count(line, Tab) < 3
    ensures r.Err? && r.error.BadTaxId? ==>
      && r.error.text <= line && Count(r.error.text, Tab) == 0 && ParseNat(r.error.text).None?
      && (|r.error.text| == |line| || line[|r.error.text|] == Tab)
  {
    var fields := Split(line, [Tab]);
    SplitCount(line, Tab);
    if |fields| < 4 then Err(ShortRecord)
    else
      match ParseNat(fields[0])
      case None =>
        FirstFieldFree(line, Tab);
        Err(BadTaxId(fields[0]))
      case Some(taxid) => Ok(Record(taxid, fields[3]))
  }

  /** The first piece of a split on one character is the text before its first occurrence. */
  lemma FirstFieldFree(line: string, c: char)
    ensures var f := Split(line, [c])[0];
      f <= line && Count(f, c) == 0 && (|f| == |line| || line[|f|] == c)
  {
    var k := SplitFirstField(line, [c]);
    var f := line[..k];
    forall i | 0 <= i < k
      ensures f[i] != c
    {
      assert !OccursAt(line, [c], i);
      assert line[i..i + 1] == [line[i]];
    }
    CountZero(f, c);
    if k < |line| {
      assert line[k..k + 1] == [c];
    }
  }

  /** The piece of a one-character split that starts at `a` ends at the end of the line or at the next `c`. */
  lemma FieldEnd(line: string, a: nat, c: char) returns (k: nat)
    requires a <= |line|
    ensures a <= k <= |line| && c !in line[a..k] && (k == |line| || line[k] == c)
    ensures Split(line[a..], [c])[0] == line[a..k]
  {
    var s := line[a..];
    var j := SplitFirstField(s, [c]);
    k := a + j;
    assert s[..j] == line[a..k];
    forall i | 0 <= i < j
      ensures line[a..k][i] != c
    {
      assert !OccursAt(s, [c], i);
      assert s[i..i + 1] == [s[i]];
    }
    if j < |s| {
      assert s[j..j + 1] == [c];
    }
  }

  /** A one-character split from `a` into two or more pieces cuts first at the next `c`, at `k`. */
  lemma NextCut(line: string, a: nat, c: char) returns (k: nat)
    requires a <= |line| && |Split(line[a..], [c])| >= 2
    ensures a <= k < |line| && line[k] == c && c !in line[a..k]
    ensures Split(line[a..], [c]) == [line[a..k]] + Split(line[k + 1..], [c])
  {
    var s := line[a..];
    var j := Find(s, [c], 0).value;
    assert Split(s, [c]) == [s[..j]] + Split(s[j + 1..], [c]);
    k := FieldEnd(line, a, c);
    assert |s[..j]| == |line[a..k]|;
    assert s[j + 1..] == line[k + 1..];
  }

  /**
   * A line that reads as a record has its first three tabs at `k0`, `k1`, `k2`:
   * the taxon id is the text before the first tab, and the payload runs from
   * after the third tab to the end of the line or the next tab.
   */
  lemma RecordLocated(line: string) returns (k0: nat, k1: nat, k2: nat, k3: nat)
    requires ParseRecord(line).Ok?
    ensures k0 < k1 < k2 < |line| && line[k0] == Tab && line[k1] == Tab && line[k2] == Tab
    ensures Tab !in line[..k0] && Tab !in line[k0 + 1..k1] && Tab !in line[k1 + 1..k2]
    ensures k2 + 1 <= k3 <= |line| && Tab !in line[k2 + 1..k3] && (k3 == |line| || line[k3] == Tab)
    ensures ParseNat(line[..k0]) == Some(ParseRecord(line).value.taxid)
    ensures ParseRecord(line).value.payload == line[k2 + 1..k3]
  {
    var fields := Split(line, [Tab]);
    assert |fields| >= 4 && ParseRecord(line).value == Record(ParseNat(fields[0]).value, fields[3]);
    k0, k1, k2, k3 := FourFields(line);
  }

  /** A split on tabs into four or more pieces: fields 0 and 3 as slices between the first three tabs and the next. */
  lemma FourFields(line: string) returns (k0: nat, k1: nat, k2: nat, k3: nat)
    requires |Split(line, [Tab])| >= 4
    ensures k0 < k1 < k2 < |line| && line[k0] == Tab && line[k1] == Tab && line[k2] == Tab
    ensures Tab !in line[..k0] && Tab !in line[k0 + 1..k1] && Tab !in line[k1 + 1..k2]
    ensures k2 + 1 <= k3 <= |line| && Tab !in line[k2 + 1..k3] && (k3 == |line| || line[k3] == Tab)
    ensures Split(line, [Tab])[0] == line[..k0] && Split(line, [Tab])[3] == line[k2 + 1..k3]
  {
    assert line[0..] == line;
    k0 := NextCut(line, 0, Tab);
    assert line[0..k0] == line[..k0];
    k1, k2, k3 := ThirdField(line, k0 + 1);
  }

  /** Piece 2 of the tab split from `a` lies between the second tab after `a` and the next tab or the end. */
  lemma ThirdField(line: string, a: nat) returns (k1: nat, k2: nat, k3: nat)
    requires a <= |line| && |Split(line[a..], [Tab])| >= 3
    ensures a <= k1 < k2 < |line| && line[k1] == Tab && line[k2] == Tab
    ensures Tab !in line[a..k1] && Tab !in line[k1 + 1..k2]
    ensures k2 + 1 <= k3 <= |line| && Tab !in line[k2 + 1..k3] && (k3 == |line| || line[k3] == Tab)
    ensures Split(line[a..], [Tab])[2] == line[k2 + 1..k3]
  {
    k1 := NextCut(line, a, Tab);
    k2, k3 := SecondField(line, k1 + 1);
  }

  /** Piece 1 of the tab split from `a` lies between the first tab after `a` and the next tab or the end. */
  lemma SecondField(line: string, a: nat) returns (k2: nat, k3: nat)
    requires a <= |line| && |Split(line[a..], [Tab])| >= 2
    ensures a <= k2 < |line| && line[k2] == Tab && Tab !in line[a..k2]
    ensures k2 + 1 <= k3 <= |line| && Tab !in line[k2 + 1..k3] && (k3 == |line| || line[k3] == Tab)
    ensures Split(line[a..], [Tab])[1] == line[k2 + 1..k3]
  {
    k2 := NextCut(line, a, Tab);
    var rest := Split(line[k2 + 1..], [Tab]);
    assert Split(line[a..], [Tab])[1] == rest[0];
    k3 := FieldEnd(line, k2 + 1, Tab);
  }

  /** A line with three or more tabs whose text before the first tab `int()` rejects fails on that text. */
  lemma BadTaxIdAt(line: string, k: nat)
    requires k < |line| && line[k] == Tab && Tab !in line[..k]
    requires Count(line, Tab) >= 3 && ParseNat(line[..k]).None?
    ensures ParseRecord(line) == Err(BadTaxId(line[..k]))
  {
    assert line[0..] == line;
    var j := FieldEnd(line, 0, Tab);
    assert line[0..j] == line[..j];
    SplitCount(line, Tab);
  }

  /** A catalog line with a decimal taxon id and a tab-free gi in field 3 reads back as that record. */
  lemma RecordRoundTrip(taxid: TaxId, name: string, accession: string, gi: string, more: string)
    requires Count(name, Tab) == 0 && Count(accession, Tab) == 0 && Count(gi, Tab) == 0
    requires more == [] || more[0] == Tab
    ensures ParseRecord(ShowNat(taxid) + [Tab] + (name + [Tab] + (accession + [Tab] + (gi + more)))) == Ok(Record(taxid, gi))
  {
    var t := ShowNat(taxid);
    DigitsHoldNoTab(t);
    var line := t + [Tab] + (name + [Tab] + (accession + [Tab] + (gi + more)));
    var fields := RecordFields(t, name, accession, gi, more);
    ParseShowNat(taxid);
    RecordFieldsParse(line, fields, taxid);
  }

  /** The split of such a line has the four texts as its fields 0 to 3. */
  lemma RecordFields(t: string, name: string, accession: string, gi: string, more: string) returns (fields: seq<string>)
    requires Count(t, Tab) == 0 && Count(name, Tab) == 0 && Count(accession, Tab) == 0 && Count(gi, Tab) == 0
    requires more == [] || more[0] == Tab
    ensures fields == Split(t + [Tab] + (name + [Tab] + (accession + [Tab] + (gi + more))), [Tab])
    ensures |fields| >= 4 && fields[0] == t && fields[1] == name && fields[2] == accession && fields[3] == gi
  {
    var rest := GiField(gi, more);
    var s3 := accession + [Tab] + (gi + more);
    SplitAfterFree(accession, [Tab], gi + more);
    var s2 := name + [Tab] + s3;
    SplitAfterFree(name, [Tab], s3);
    SplitAfterFree(t, [Tab], s2);
    fields := [t] + ([name] + ([accession] + rest));
  }

  lemma RecordFieldsParse(line: string, fields: seq<string>, taxid: TaxId)
    requires fields == Split(line, [Tab])
    requires |fields| >= 4 && ParseNat(fields[0]) == Some(taxid)
    ensures ParseRecord(line) == Ok(Record(taxid, fields[3]))
  {
  }

  /** The split of the text from the gi on starts with the gi. */
  lemma GiField(gi: string, more: string) returns (fields: seq<string>)
    requires Count(gi, Tab) == 0
    requires more == [] || more[0] == Tab
    ensures fields == Split(gi + more, [Tab])
    ensures |fields| >= 1 && fields[0] == gi
  {
    if more == [] {
      assert gi + more == gi;
      SplitFree(gi, [Tab]);
    } else {
      assert gi + more == gi + [Tab] + more[1..];
      SplitAfterFree(gi, [Tab], more[1..]);
    }
    fields := Split(gi + more, [Tab]);
  }

  /** Every line of `lines` reads as a record. */
  predicate AllRecords(lines: seq<string>) {
    forall i :: 0 <= i < |lines| ==> ParseRecord(lines[i]).Ok?
  }

  /** The record on a line that reads. */
  function RecordOf(line: string): Record
    requires ParseRecord(line).Ok?
  {
    ParseRecord(line).value
  }

  /** Line `index` is the first line of `lines` that does not read as a record, failing with `error`. */
  predicate FirstBadRecord(lines: seq<string>, index: nat, error: RecordError) {
    && index < |lines|
    && ParseRecord(lines[index]) == Err(error)
    && AllRecords(lines[..index])
  }

  /** What the filter has written when the run ends: everything, or what came before the bad line. */
  datatype FilterResult =
    | Done(out: seq<string>)
    | Failed(index: nat, error: RecordError, written: seq<string>)

  /**
   * The catalog loop: lines are handled in order, a whitelisted line writes
   * its gi followed by a newline, and the first line that does not read
   * stops the run with what was written so far.
   */
  function FilterCatalog(lines: seq<string>, whitelist: set<TaxId>): (r: FilterResult)
    ensures r.Done? <==> AllRecords(lines)
    ensures r.Failed? ==> FirstBadRecord(lines, r.index, r.error)
    decreases |lines|
  {
    if |lines| == 0 then Done([])
    else
      var last := |lines| - 1;
      match FilterCatalog(lines[..last], whitelist)
      case Failed(i, e, written) =>
        FirstBadRecordExtends(lines, last, i, e);
        Failed(i, e, written)
      case Done(out) =>
        var pr := ParseRecord(lines[last]);
        if pr.Err? then Failed(last, pr.error, out)
        else
          AllRecordsSnoc(lines);
          if pr.value.taxid in whitelist then Done(out + [pr.value.payload + "\n"])
          else Done(out)
  }

  /** All lines read exactly when all but the last do and the last does. */
  lemma AllRecordsSnoc(lines: seq<string>)
    requires |lines| > 0
    ensures AllRecords(lines) <==> AllRecords(lines[..|lines| - 1]) && ParseRecord(lines[|lines| - 1]).Ok?
  {
    var last := |lines| - 1;
    assert forall i :: 0 <= i < last ==> lines[..last][i] == lines[i];
  }

  /** The first bad line of a prefix is the first bad line of the whole. */
  lemma FirstBadRecordExtends(lines: seq<string>, k: nat, index: nat, error: RecordError)
    requires k <= |lines| && FirstBadRecord(lines[..k], index, error)
    ensures FirstBadRecord(lines, index, error)
  {
    assert lines[..k][..index] == lines[..index];
    assert lines[..k][index] == lines[index];
  }

  /**
   * `out` is the in-order subsequence, through the strictly increasing line
   * indices `idx`, of the gis (each followed by a newline) of exactly those
   * lines whose taxon id is whitelisted.
   */
  ghost predicate SelectedAt(lines: seq<string>, whitelist: set<TaxId>, out: seq<string>, idx: seq<nat>)
    requires AllRecords(lines)
  {
    && |idx| == |out|
    && (forall k :: 0 <= k < |idx| ==> idx[k] < |lines| && out[k] == RecordOf(lines[idx[k]]).payload + "\n")
    && (forall k, l :: 0 <= k < l < |idx| ==> idx[k] < idx[l])
    && (forall i :: 0 <= i < |lines| ==> (RecordOf(lines[i]).taxid in whitelist <==> i in idx))
  }

  /** One step of the loop on a readable catalog: the output of the first lines, plus what the last writes. */
  lemma FilterCatalogStep(lines: seq<string>, whitelist: set<TaxId>)
    requires |lines| > 0 && AllRecords(lines)
    ensures AllRecords(lines[..|lines| - 1])
    ensures var rec := RecordOf(lines[|lines| - 1]);
      FilterCatalog(lines, whitelist) == Done(FilterCatalog(lines[..|lines| - 1], whitelist).out
        + (if rec.taxid in whitelist then [rec.payload + "\n"] else []))
  {
    var last := |lines| - 1;
    assert forall i :: 0 <= i < last ==> lines[..last][i] == lines[i];
  }

  /** Extending a selection by one line: its gi joins the output exactly when it is whitelisted. */
  lemma SelectedSnoc(lines: seq<string>, whitelist: set<TaxId>, out: seq<string>, idx: seq<nat>)
    requires |lines| > 0 && AllRecords(lines)
    requires AllRecords(lines[..|lines| - 1])
    requires SelectedAt(lines[..|lines| - 1], whitelist, out, idx)
    ensures var rec := RecordOf(lines[|lines| - 1]);
      rec.taxid in whitelist ==> SelectedAt(lines, whitelist, out + [rec.payload + "\n"], idx + [|lines| - 1])
    ensures var rec := RecordOf(lines[|lines| - 1]);
      rec.taxid !in whitelist ==> SelectedAt(lines, whitelist, out, idx)
  {
    var last := |lines| - 1;
    assert forall i :: 0 <= i < last ==> lines[..last][i] == lines[i];
  }

  /** On a readable catalog the output is exactly the whitelisted gis, in catalog order. */
  lemma {:induction false} FilterCatalogSelects(lines: seq<string>, whitelist: set<TaxId>)
    requires AllRecords(lines)
    ensures FilterCatalog(lines, whitelist).Done?
    ensures exists idx :: SelectedAt(lines, whitelist, FilterCatalog(lines, whitelist).out, idx)
    decreases |lines|
  {
    if |lines| > 0 {
      var prefix := lines[..|lines| - 1];
      FilterCatalogStep(lines, whitelist);
      FilterCatalogSelects(prefix, whitelist);
      var out := FilterCatalog(prefix, whitelist).out;
      var idx: seq<nat> :| SelectedAt(prefix, whitelist, out, idx);
      SelectedSnoc(lines, whitelist, out, idx);
      var rec := RecordOf(lines[|lines| - 1]);
      if rec.taxid in whitelist {
        assert SelectedAt(lines, whitelist, FilterCatalog(lines, whitelist).out, idx + [|lines| - 1]);
      } else {
        assert SelectedAt(lines, whitelist, FilterCatalog(lines, whitelist).out, idx);
      }
    } else {
      assert SelectedAt(lines, whitelist, [], []);
    }
  }

  /** Fail-fast: a failed run has written exactly what the lines before the bad one write, and nothing after. */
  lemma {:induction false} FilterCatalogFailed(lines: seq<string>, whitelist: set<TaxId>)
    requires FilterCatalog(lines, whitelist).Failed?
    ensures var r := FilterCatalog(lines, whitelist);
      r.index <= |lines| && FilterCatalog(lines[..r.index], whitelist) == Done(r.written)
    decreases |lines|
  {
    var last := |lines| - 1;
    var prefix := lines[..last];
    match FilterCatalog(prefix, whitelist)
    case Failed(i, e, written) =>
      FilterCatalogFailed(prefix, whitelist);
      assert prefix[..i] == lines[..i];
    case Done(out) =>
  }

  /** An empty catalog writes nothing and fails nowhere. */
  lemma EmptyCatalog(whitelist: set<TaxId>)
    ensures FilterCatalog([], whitelist) == Done([])
  {
  }
}
