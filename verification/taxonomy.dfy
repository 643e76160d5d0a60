/**
 * Reading `nodes.dmp`: each line names a taxon and its parent, and the
 * reader collects, for every parent, the list of its children in the order
 * the lines give them (taxids2gids.py, `read_taxonomy`).
 */
module Taxonomy {
  import opened Results
  import opened Text

  /** Taxon ids. */
  type TaxId = nat

  /** The `parent2child` dictionary: parent id to its immediate children, in input order. */
  type Graph = map<TaxId, seq<TaxId>>

  /** The field delimiter of `nodes.dmp`. */
  const FieldSep: string := "\t|\t"

  /** The characters `rstrip` removes from the end of a `nodes.dmp` line. */
  const LineTrail: set<char> := {'\t', '|', '\n'}

  /** The two fields of a taxonomy line the reader uses. */
  datatype NodeEdge = NodeEdge(child: TaxId, parent: TaxId)

  /** Why one line could not be read: too few fields to unpack, or a field `int()` rejects. */
  datatype LineError = TooFewFields | NotAnInteger(text: string)

  /** Why the whole taxonomy could not be read: the first bad line (0-based) and what was wrong with it. */
  datatype TaxonomyError = BadNodeLine(index: nat, error: LineError)

  /**
   * In the stripped line `s`, the text before the delimiter at `k1` is the
   * child id of `e`, and the text after it up to `k2` (the next delimiter or
   * the end of the line) is the parent id of `e`.
   */
  ghost predicate EdgeFieldsAt(s: string, e: NodeEdge, k1: nat, k2: nat) {
    && OccursAt(s, FieldSep, k1)
    && k1 + |FieldSep| <= k2 <= |s|
    && (k2 == |s| || OccursAt(s, FieldSep, k2))
    && ParseNat(s[..k1]) == Some(e.child)
    && ParseNat(s[k1 + |FieldSep|..k2]) == Some(e.parent)
  }

  /** The stripped line `s` carries the edge `e` in its first two fields. */
  ghost predicate CarriesEdge(s: string, e: NodeEdge) {
    exists k1: nat, k2: nat :: EdgeFieldsAt(s, e, k1, k2)
  }

  /**
   * One iteration of the reading loop: strip, split on the delimiter, convert
   * fields 0 and 1. Unpacking fails exactly when the stripped line holds no
   * delimiter.
   */
  function ParseNodeLine(line: string): (r: Result<NodeEdge, LineError>)
    ensures r == Err(TooFewFields) <==> Find(RStrip(line, LineTrail), FieldSep, 0).None?
  {
    var s := RStrip(line, LineTrail);
    var fields := Split(s, FieldSep);
    SplitSingle(s, FieldSep);
    if |fields| < 2 then Err(TooFewFields)
    else
      match ParseNat(fields[0])
      case None => Err(NotAnInteger(fields[0]))
      case Some(child) =>
        match ParseNat(fields[1])
        case None => Err(NotAnInteger(fields[1]))
        case Some(parent) => Ok(NodeEdge(child, parent))
  }

  /** A line that reads carries its edge: child id in the first field, parent id in the second. */
  lemma NodeLineCarriesEdge(line: string)
    requires ParseNodeLine(line).Ok?
    ensures CarriesEdge(RStrip(line, LineTrail), ParseNodeLine(line).value)
  {
    FieldsCarryEdge(RStrip(line, LineTrail), ParseNodeLine(line).value);
  }

  /** The first two pieces of a split of `s` locate a child and a parent field as `CarriesEdge` describes. */
  lemma FieldsCarryEdge(s: string, e: NodeEdge)
    requires |Split(s, FieldSep)| >= 2
    requires ParseNat(Split(s, FieldSep)[0]) == Some(e.child)
    requires ParseNat(Split(s, FieldSep)[1]) == Some(e.parent)
    ensures CarriesEdge(s, e)
  {
    var k1, k2 := SplitTwoFields(s, FieldSep);
    assert EdgeFieldsAt(s, e, k1, k2);
  }

  /**
   * Conversely, a line whose stripped form carries `e` reads as `e`: two
   * fields of digits cannot hold a delimiter, so the split cuts at `k1` and
   * `k2`.
   */
  lemma EdgeReads(line: string, e: NodeEdge, k1: nat, k2: nat)
    requires EdgeFieldsAt(RStrip(line, LineTrail), e, k1, k2)
    ensures ParseNodeLine(line) == Ok(e)
  {
    var s := RStrip(line, LineTrail);
    assert s[0..k1] == s[..k1];
    DigitsHoldNoSep(s, 0, k1);
    DigitsHoldNoSep(s, k1 + |FieldSep|, k2);
    TwoPiecesAt(s, FieldSep, k1, k2);
    FieldsParse(line, Split(s, FieldSep), e);
  }

  /** No delimiter starts inside a field of digits. */
  lemma DigitsHoldNoSep(s: string, a: nat, k: nat)
    requires a <= k <= |s| && AllDigits(s[a..k])
    ensures forall i: nat :: a <= i < k ==> !OccursAt(s, FieldSep, i)
  {
    forall i: nat | a <= i < k
      ensures !OccursAt(s, FieldSep, i)
    {
      assert s[a..k][i - a] == s[i];
      assert IsDigit(s[i]);
      assert i + |FieldSep| <= |s| ==> s[i..i + |FieldSep|][0] == s[i];
    }
  }

  /** A child field (before the first delimiter) that `int()` rejects is the text the error names. */
  lemma BadChildAt(line: string, k1: nat)
    requires PieceEnd(RStrip(line, LineTrail), FieldSep, 0, k1) && k1 < |RStrip(line, LineTrail)|
    requires ParseNat(RStrip(line, LineTrail)[..k1]).None?
    ensures ParseNodeLine(line) == Err(NotAnInteger(RStrip(line, LineTrail)[..k1]))
  {
    CutAtStart(RStrip(line, LineTrail), FieldSep, k1);
  }

  /** With a valid child field, a parent field (up to the next delimiter or the end) that `int()` rejects is the text the error names. */
  lemma BadParentAt(line: string, k1: nat, k2: nat)
    requires PieceEnd(RStrip(line, LineTrail), FieldSep, 0, k1) && k1 < |RStrip(line, LineTrail)|
    requires ParseNat(RStrip(line, LineTrail)[..k1]).Some?
    requires PieceEnd(RStrip(line, LineTrail), FieldSep, k1 + |FieldSep|, k2)
    requires ParseNat(RStrip(line, LineTrail)[k1 + |FieldSep|..k2]).None?
    ensures ParseNodeLine(line) == Err(NotAnInteger(RStrip(line, LineTrail)[k1 + |FieldSep|..k2]))
  {
    TwoPiecesAt(RStrip(line, LineTrail), FieldSep, k1, k2);
  }

  /** What may follow the parent field on a line: trailing delimiter characters only, or a further field. */
  predicate WellFormedTail(more: string) {
    (forall i :: 0 <= i < |more| ==> more[i] in LineTrail) || (|more| >= 3 && more[..3] == FieldSep)
  }

  /** A well-formed `nodes.dmp` line, child and parent written in decimal, reads back as that edge. */
  lemma NodeLineRoundTrip(child: TaxId, parent: TaxId, more: string)
    requires WellFormedTail(more)
    ensures ParseNodeLine(ShowNat(child) + FieldSep + ShowNat(parent) + more) == Ok(NodeEdge(child, parent))
  {
    var c, p := ShowNat(child), ShowNat(parent);
    var line := c + FieldSep + p + more;
    var fields := RoundTripFields(c, p, more);
    ParseShowNat(child);
    ParseShowNat(parent);
    FieldsParse(line, fields, NodeEdge(child, parent));
  }

  /** The split of a stripped well-formed line starts with the child text and the parent text. */
  lemma RoundTripFields(c: string, p: string, more: string) returns (fields: seq<string>)
    requires |c| > 0 && AllDigits(c) && |p| > 0 && AllDigits(p)
    requires WellFormedTail(more)
    ensures fields == Split(RStrip(c + FieldSep + p + more, LineTrail), FieldSep)
    ensures |fields| >= 2 && fields[0] == c && fields[1] == p
  {
    var y := StripWellFormed(c, p, more);
    DigitsHoldNoTab(c);
    DigitsHoldNoTab(p);
    assert FieldSep[0] == '\t';
    if y == [] {
      assert p + y == p;
      SplitAfterFree(c, FieldSep, p);
      SplitFree(p, FieldSep);
    } else {
      var z := y[3..];
      assert p + y == p + FieldSep + z;
      SplitAfterFree(p, FieldSep, z);
      SplitAfterFree(c, FieldSep, p + FieldSep + z);
    }
    fields := Split(c + FieldSep + (p + y), FieldSep);
  }

  /** Stripping a well-formed line keeps both id fields and leaves nothing or a delimiter after the parent. */
  lemma StripWellFormed(c: string, p: string, more: string) returns (y: string)
    requires |p| > 0 && AllDigits(p)
    requires WellFormedTail(more)
    ensures RStrip(c + FieldSep + p + more, LineTrail) == c + FieldSep + (p + y)
    ensures y == [] || (|y| >= 3 && y[..3] == FieldSep)
  {
    var x := c + FieldSep + p;
    y := StripAfterFields(more);
    assert x[|x| - 1] == p[|p| - 1];
    assert IsDigit(p[|p| - 1]);
    RStripKeeps(x, LineTrail);
    RStripConcat(x, more, LineTrail);
    ConcatAssoc(c + FieldSep, p, y);
  }

  /** A line whose first two pieces convert reads as the edge they name. */
  lemma FieldsParse(line: string, fields: seq<string>, e: NodeEdge)
    requires fields == Split(RStrip(line, LineTrail), FieldSep)
    requires |fields| >= 2 && ParseNat(fields[0]) == Some(e.child) && ParseNat(fields[1]) == Some(e.parent)
    ensures ParseNodeLine(line) == Ok(e)
  {
  }

  /** What is left of the text after the parent field once the line is stripped: nothing, or a delimiter and more. */
  lemma StripAfterFields(more: string) returns (y: string)
    requires WellFormedTail(more)
    ensures y == RStrip(more, LineTrail)
    ensures y == [] || (|y| >= 3 && y[..3] == FieldSep)
  {
    y := RStrip(more, LineTrail);
    if forall i :: 0 <= i < |more| ==> more[i] in LineTrail {
      RStripAll(more, LineTrail);
    } else {
      var z := more[3..];
      assert more == FieldSep + z;
      RStripConcat(FieldSep, z, LineTrail);
      RStripAll(FieldSep, LineTrail);
    }
  }

  /** Every line of `lines` reads as an edge. */
  predicate AllNodeLines(lines: seq<string>) {
    forall i :: 0 <= i < |lines| ==> ParseNodeLine(lines[i]).Ok?
  }

  /** Record one edge: make the parent's list on first sight, then append the child. */
  function AddEdge(g: Graph, e: NodeEdge): (r: Graph)
    ensures r.Keys == g.Keys + {e.parent}
    ensures e.parent in g ==> r[e.parent] == g[e.parent] + [e.child]
    ensures e.parent !in g ==> r[e.parent] == [e.child]
    ensures forall q :: q in g && q != e.parent ==> r[q] == g[q]
  {
    var children := if e.parent in g then g[e.parent] else [];
    g[e.parent := children + [e.child]]
  }

  /** Line `index` is the first line of `lines` that does not read, failing with `error`. */
  predicate FirstBadNodeLine(lines: seq<string>, index: nat, error: LineError) {
    && index < |lines|
    && ParseNodeLine(lines[index]) == Err(error)
    && AllNodeLines(lines[..index])
  }

  /**
   * `read_taxonomy` over the lines of `nodes.dmp`: the lines are processed in
   * order and the first one that does not read stops the whole run.
   */
  function ReadTaxonomy(lines: seq<string>): (r: Result<Graph, TaxonomyError>)
    ensures r.Ok? <==> AllNodeLines(lines)
    ensures r.Err? ==> FirstBadNodeLine(lines, r.error.index, r.error.error)
    decreases |lines|
  {
    if |lines| == 0 then Ok(map[])
    else
      var last := |lines| - 1;
      match ReadTaxonomy(lines[..last])
      case Err(e) =>
        FirstBadNodeLineExtends(lines, last, e.index, e.error);
        Err(e)
      case Ok(g) =>
        match ParseNodeLine(lines[last])
        case Err(k) => Err(BadNodeLine(last, k))
        case Ok(e) =>
          AllNodeLinesSnoc(lines);
          Ok(AddEdge(g, e))
  }

  /** All lines read exactly when all but the last do and the last does. */
  lemma AllNodeLinesSnoc(lines: seq<string>)
    requires |lines| > 0
    ensures AllNodeLines(lines) <==> AllNodeLines(lines[..|lines| - 1]) && ParseNodeLine(lines[|lines| - 1]).Ok?
  {
    var last := |lines| - 1;
    assert forall i :: 0 <= i < last ==> lines[..last][i] == lines[i];
  }

  /** The first bad line of a prefix is the first bad line of the whole. */
  lemma FirstBadNodeLineExtends(lines: seq<string>, k: nat, index: nat, error: LineError)
    requires k <= |lines| && FirstBadNodeLine(lines[..k], index, error)
    ensures FirstBadNodeLine(lines, index, error)
  {
    assert lines[..k][..index] == lines[..index];
    assert lines[..k][index] == lines[index];
  }

  /** The edges the lines of a readable `nodes.dmp` carry, in order. */
  ghost function NodeEdges(lines: seq<string>): (es: seq<NodeEdge>)
    requires AllNodeLines(lines)
    ensures |es| == |lines|
    ensures forall i :: 0 <= i < |lines| ==> ParseNodeLine(lines[i]) == Ok(es[i])
    decreases |lines|
  {
    if |lines| == 0 then []
    else
      var last := |lines| - 1;
      assert AllNodeLines(lines[..last]) by {
        assert forall i :: 0 <= i < last ==> lines[..last][i] == lines[i];
      }
      NodeEdges(lines[..last]) + [ParseNodeLine(lines[last]).value]
  }

  /** The parent ids named by a list of edges. */
  ghost function Parents(es: seq<NodeEdge>): set<TaxId> {
    set i | 0 <= i < |es| :: es[i].parent
  }

  /** The children of `p` named by a list of edges, in list order. */
  ghost function ChildrenIn(es: seq<NodeEdge>, p: TaxId): seq<TaxId>
    decreases |es|
  {
    if |es| == 0 then []
    else (if es[0].parent == p then [es[0].child] else []) + ChildrenIn(es[1..], p)
  }

  lemma {:induction false} ChildrenInSnoc(es: seq<NodeEdge>, e: NodeEdge, p: TaxId)
    ensures ChildrenIn(es + [e], p) == ChildrenIn(es, p) + (if e.parent == p then [e.child] else [])
    decreases |es|
  {
    var x := if e.parent == p then [e.child] else [];
    if |es| == 0 {
      assert es + [e] == [e];
      assert ChildrenIn([e], p) == x + ChildrenIn([], p);
    } else {
      var h := if es[0].parent == p then [es[0].child] else [];
      var rest := ChildrenIn(es[1..], p);
      assert (es + [e])[0] == es[0];
      assert (es + [e])[1..] == es[1..] + [e];
      ChildrenInSnoc(es[1..], e, p);
      assert ChildrenIn(es + [e], p) == h + (rest + x);
      assert h + (rest + x) == (h + rest) + x;
    }
  }

  lemma {:induction false} NoChildrenOutsideParents(es: seq<NodeEdge>, p: TaxId)
    requires p !in Parents(es)
    ensures ChildrenIn(es, p) == []
    decreases |es|
  {
    if |es| > 0 {
      assert es[0].parent in Parents(es);
      assert Parents(es[1..]) <= Parents(es) by {
        forall q | q in Parents(es[1..]) ensures q in Parents(es) {
          var i :| 0 <= i < |es[1..]| && es[1..][i].parent == q;
          assert es[i + 1].parent == q;
        }
      }
      NoChildrenOutsideParents(es[1..], p);
    }
  }

  lemma ParentsSnoc(es: seq<NodeEdge>, e: NodeEdge)
    ensures Parents(es + [e]) == Parents(es) + {e.parent}
  {
    forall q | q in Parents(es + [e]) ensures q in Parents(es) + {e.parent} {
      var i :| 0 <= i < |es + [e]| && (es + [e])[i].parent == q;
      if i < |es| { assert es[i].parent == q; }
    }
    forall q | q in Parents(es) ensures q in Parents(es + [e]) {
      var i :| 0 <= i < |es| && es[i].parent == q;
      assert (es + [e])[i].parent == q;
    }
    assert (es + [e])[|es|].parent == e.parent;
  }

  /** One step of the reading loop on a readable file: the map of the first lines, plus the last edge. */
  lemma ReadTaxonomyStep(lines: seq<string>)
    requires |lines| > 0 && AllNodeLines(lines)
    ensures AllNodeLines(lines[..|lines| - 1])
    ensures NodeEdges(lines) == NodeEdges(lines[..|lines| - 1]) + [NodeEdges(lines)[|lines| - 1]]
    ensures ReadTaxonomy(lines) == Ok(AddEdge(ReadTaxonomy(lines[..|lines| - 1]).value, NodeEdges(lines)[|lines| - 1]))
  {
    var last := |lines| - 1;
    assert forall i :: 0 <= i < last ==> lines[..last][i] == lines[i];
  }

  /**
   * The map `read_taxonomy` returns has exactly the parents seen as keys, and
   * each parent's list holds exactly the children of the lines naming it, in
   * line order.
   */
  lemma {:induction false} ReadTaxonomyContents(lines: seq<string>)
    requires AllNodeLines(lines)
    ensures ReadTaxonomy(lines).Ok?
    ensures ReadTaxonomy(lines).value.Keys == Parents(NodeEdges(lines))
    ensures forall p :: p in ReadTaxonomy(lines).value ==> ReadTaxonomy(lines).value[p] == ChildrenIn(NodeEdges(lines), p)
    decreases |lines|
  {
    if |lines| > 0 {
      var prefix := lines[..|lines| - 1];
      ReadTaxonomyStep(lines);
      ReadTaxonomyContents(prefix);
      var g := ReadTaxonomy(prefix).value;
      var es := NodeEdges(prefix);
      var e := NodeEdges(lines)[|lines| - 1];
      var g' := AddEdge(g, e);
      ParentsSnoc(es, e);
      forall p | p in g'
        ensures g'[p] == ChildrenIn(es + [e], p)
      {
        AddEdgeChildren(g, es, e, p);
      }
    }
  }

  /** Adding an edge to a map that lists the children of a list of edges lists those of the longer list. */
  lemma AddEdgeChildren(g: Graph, es: seq<NodeEdge>, e: NodeEdge, p: TaxId)
    requires g.Keys == Parents(es)
    requires forall q :: q in g ==> g[q] == ChildrenIn(es, q)
    requires p in AddEdge(g, e)
    ensures AddEdge(g, e)[p] == ChildrenIn(es + [e], p)
  {
    ChildrenInSnoc(es, e, p);
    if p == e.parent && p !in g {
      NoChildrenOutsideParents(es, p);
    }
  }
}
