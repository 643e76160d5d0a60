# taxids2gids, modelled in Dafny

`taxids2gids.py` turns the NCBI taxonomy and the RefSeq release catalogue
into a list of gi numbers. It reads `nodes.dmp` into a map from each parent
taxon id to the list of its immediate children, collects every descendant
of an include root and of an exclude root with a recursive traversal, takes
the include descendants minus the exclude descendants as the whitelist,
and then streams the catalogue, writing the gi (field 3) of every line
whose taxon id (field 0) is whitelisted.

This project models that core as pure functions over lines of text:

- `Text`: the string operations the script relies on — `rstrip(chars)`,
  `split(sep)`, and `int()` on decimal digit strings — with the split
  proved to be undone by joining and the number parser proved to invert
  decimal rendering.
- `Taxonomy`: one `nodes.dmp` line to a (child, parent) pair, and the
  reading loop to the parent-to-children map, stopping at the first line
  that does not read.
- `Descent`: reachability by child edges; `get_children_recursive` as a
  recursive function whose precondition is that nothing below the root
  lies on a cycle (the condition under which the script's recursion
  returns), proved equal as a set to the descendants; a stack-and-visited-set
  closure that stops on any map and agrees with it; and the whitelist.
- `Catalog`: one catalogue line to a (taxon id, gi) record, and the
  filtering loop, proved to write exactly the whitelisted gis in catalogue
  order, and on a bad line to stop with what was written before it.
- `Pipeline`: the script's top level, taxonomy to whitelist to output.

Where the script raises an exception (a line that does not unpack, an
`int()` that fails, a root that is not a key of the map), the model returns
an error value naming the cause and, for lines, the 0-based line index.
`parent2child[taxid]` (line 16) raises `KeyError` for a root that is not a
key of the map; the model returns `Descent.UnknownTaxon` for it, the
include root being tried first (line 53). Field 3 of a catalogue line is
written unchanged, followed by a newline (line 70).

## Model

| member | source | states |
|---|---|---|
| Text.RStrip | taxids2gids.py:39 | the result is a prefix of the line, does not end in a stripped character, and everything cut off was a stripped character |
| Text.Find | taxids2gids.py:39 | returns the first index at or after the start where the separator occurs, or none when it occurs nowhere there |
| Text.SplitJoin | taxids2gids.py:39 | joining the pieces of `split(sep)` with `sep` gives back the original string |
| Text.SplitFieldsFree | taxids2gids.py:39 | no piece of `split(sep)` contains `sep` |
| Text.SplitSingle | taxids2gids.py:39 | `split` yields one piece exactly when the separator does not occur |
| Text.SplitFirstField | taxids2gids.py:39 | the first piece of `split(sep)` ends at the end of the string or at the first occurrence of `sep`, and `sep` occurs nowhere before it |
| Text.TwoPiecesAt | taxids2gids.py:39 | when the first occurrence of `sep` is at `k1` and the first one after that occurrence is at `k2` (or there is none and `k2` is the end), the split's first two pieces are the text before `k1` and the text between them |
| Text.SplitCount | taxids2gids.py:66 | splitting on one character yields one more piece than the character occurs |
| Text.ParseNat | taxids2gids.py:40-41 | `int()` succeeds exactly on non-empty strings of decimal digits |
| Text.ParseShowNat | taxids2gids.py:40-41 | parsing the decimal rendering of a number gives that number |
| Text.ParseLeadingZero | taxids2gids.py:40-41 | a leading zero does not change the value of a digit string, so `int("007")` is 7, the value of `"7"`; with `ParseShowNat` a digit string with leading zeros has the value of its canonical rendering |
| Taxonomy.ParseNodeLine | taxids2gids.py:39-41 | unpacking the first two fields fails exactly when the stripped line holds no `\t\|\t` delimiter |
| Taxonomy.NodeLineCarriesEdge | taxids2gids.py:39-41 | a line that reads has its child id before the first delimiter and its parent id between the first delimiter and the next one (or the end) |
| Taxonomy.EdgeReads | taxids2gids.py:39-41 | conversely, a line whose stripped form has a digit child field before a delimiter and a digit parent field after it, up to the next delimiter or the end, reads as exactly those ids |
| Taxonomy.BadChildAt | taxids2gids.py:39-41 | when the text before the first delimiter is not an integer, the error names exactly that text |
| Taxonomy.BadParentAt | taxids2gids.py:39-41 | when the child field converts but the text after the first delimiter, up to the next one or the end, does not, the error names exactly that text |
| Taxonomy.NodeLineRoundTrip | taxids2gids.py:39-41 | a `nodes.dmp` line `child\t\|\tparent` followed by trailing `\t`/`\|`/newline characters or by more delimited fields reads as (child, parent) |
| Taxonomy.AddEdge | taxids2gids.py:42-44 | the parent becomes a key; its list is the old list (or a new empty one) with the child appended; every other entry is unchanged |
| Taxonomy.ReadTaxonomy | taxids2gids.py:35-44 | reading succeeds exactly when every line reads; on failure it names the first line that does not read and why |
| Taxonomy.ReadTaxonomyContents | taxids2gids.py:42-46 | the keys of the map are exactly the parent ids seen, and each parent's list holds exactly the children of the lines naming it, in line order |
| Descent.ChildrenRecursive | taxids2gids.py:13-26 | on a graph acyclic below the root, an id is in the result exactly when it is reachable from the root by one or more child edges |
| Descent.ChildrenFrom | taxids2gids.py:16-25 | the loop from child `i` on yields exactly those children and the ids reachable from them |
| Descent.RootNotDescendant | taxids2gids.py:13-26 | below an acyclic part of the graph the root never appears in its own result |
| Descent.ChildrenRecursivePreOrder | taxids2gids.py:17-25 | every id in the result is an immediate child of the root or comes after an id it is a child of |
| Descent.LeafChildren | taxids2gids.py:17-20 | when no child of the root is a key of the map, each child contributes only itself and the result is the child list |
| Descent.Closure | taxids2gids.py:13-26 | the stack-and-visited-set closure returns on any map, holds exactly the ids reachable from the root, and equals the set of the recursive result wherever that returns |
| Descent.Elements | taxids2gids.py:53-54 | `set(list)` holds exactly the list's elements |
| Descent.Whitelist | taxids2gids.py:53-55 | needs acyclicity below the exclude root only when the include closure is computed; a missing include root, then a missing exclude root, is a `KeyError`; when both roots are keys the whitelist is built, and an id is whitelisted exactly when it descends from the include root and not from the exclude root, so the whitelist lies in the include closure and is disjoint from the exclude closure |
| Descent.CyclicExcludeUnreached | taxids2gids.py:53-54 | for the map 2 to [2], a self-loop below exclude root 2, the whitelist of include root 1 is still defined and is the `KeyError` for 1 |
| Descent.UnrelatedExclude | taxids2gids.py:53-55 | excluding a subtree that shares no descendant with the included one removes nothing |
| Descent.RankedAcyclic | taxids2gids.py:13-26 | a graph whose ranks drop along every child edge is acyclic below every node, so the recursion returns |
| Descent.SmallTaxonomy | taxids2gids.py:13-26 | for the map 1 to [2, 3], 2 to [4] the traversal of 1 is [2, 4, 3], of 2 is [4], the whitelist of 1 minus 2 is {2, 3}, and root 3 is a `KeyError` |
| Catalog.ParseRecord | taxids2gids.py:66-67 | unpacking four fields fails exactly when the line has fewer than three tabs; a taxon id `int()` rejects is reported as the whole tab-free text before the first tab |
| Catalog.RecordLocated | taxids2gids.py:66-67 | a line that reads has its first three tabs at `k0 < k1 < k2`; its taxon id is `int()` of the text before the first tab, and its gi is the text after the third tab up to the next tab or the end of the line |
| Catalog.BadTaxIdAt | taxids2gids.py:66-67 | a line with three or more tabs whose text before the first tab `int()` rejects fails with that text as its bad taxon id |
| Catalog.RecordFields | taxids2gids.py:66 | a line of four tab-free texts, then nothing or a tab, splits into those four texts as fields 0 to 3 |
| Catalog.RecordRoundTrip | taxids2gids.py:66-67 | a line with a decimal taxon id in field 0 and a tab-free gi in field 3 reads as (taxon id, gi) |
| Catalog.FilterCatalog | taxids2gids.py:63-70 | the run completes exactly when every line reads; otherwise it stops at the first line that does not read, with that line's error |
| Catalog.FilterCatalogSelects | taxids2gids.py:66-70 | on a readable catalogue the output is, in catalogue order, the gi plus newline of exactly the lines whose taxon id is whitelisted |
| Catalog.FilterCatalogFailed | taxids2gids.py:63-70 | a failed run has written exactly what the lines before the bad one write, and nothing from the bad line on |
| Catalog.EmptyCatalog | taxids2gids.py:63-70 | an empty catalogue writes nothing and does not fail |
| Pipeline.Run | taxids2gids.py:51-70 | a taxonomy error is reported first, then a missing include root, then a missing exclude root; the run succeeds exactly when every taxonomy line reads, both roots are keys and every catalogue line reads, and its output is then the in-order gis of the lines whose taxon id descends from the include root and not from the exclude root |
| Pipeline.RunCatalogFailed | taxids2gids.py:61-70 | when every taxonomy line reads, both roots are keys and some catalogue line does not read, the run fails in the catalogue; it names the first line that does not read and its error, and has written, in catalogue order, the gis of exactly the admitted lines before it |

## Left out

- File and stream handling: `open("nodes.dmp")`, `gzip.open`, writing `gids.txt` (lines 34, 61-62). Inputs are sequences of lines and the output is the sequence of strings written.
- Progress dots, flushes and the printed counts (lines 30, 36-38, 45, 57-59, 64-65): observational only.
- The hard-coded roots 10239 and 131567 (lines 9-10): the roots are parameters.
- Python's recursion-depth limit on `get_children_recursive`: not expressible here; `Descent.Closure` is the iterative version that has none.
- Termination on cyclic input: the script's recursion does not return when a cycle lies below the root, so `Descent.ChildrenRecursive` requires acyclicity below its root (`AcyclicFrom`), and `Descent.Whitelist` and `Pipeline.Run` require it below the include root and, when the include root is a key, below the exclude root; only `Descent.Closure` is claimed to stop on every map.
- Text.ParseNat: models `int()` on decimal digit strings only; surrounding whitespace, a sign, underscores and non-ASCII Unicode decimal digits, which Python also accepts, are not modelled, so such a field is an error in the model.
- Byte versus text lines: the catalogue is opened with `gzip.open` in its default binary mode; the model treats its lines as text, as the script's `split('\t')` presumes.
