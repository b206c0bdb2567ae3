# Dictionary-driven ASCII art: a Dafny model

This project models the core of an ASCII-art generator. A glyph dictionary holds one 18-row
bitmap per character. A grayscale image is cut into 18-pixel bands. Each band is tiled, left to
right, with dictionary glyphs or one-column blanks, so that the total matching cost is as low as
possible. The characters of the chosen tiling then become one line of text.

The model covers `AA_ChrTool.py`:

- glyph templates (`GlyphTemplate.from_dictionary`, `GlyphTemplate.blank`);
- the dictionary text format (`getChrListFrom18Line`), as a pure parser over the file's lines;
- grouping glyphs by width (`_group_by_width`);
- the per-band cost tables (`_precompute_costs`);
- the right-to-left dynamic programme and left-to-right read-back (`_solve_row`);
- line assembly (`generate_text_lines`).

It also covers the older graph-based solver in `AA_Dijkstra.py`: `Edge`, `Distance`, `getEdges`
and `doDijkstra`.

Modules, in dependency order:

- `Wrappers`: `Option` and `Result`.
- `Sums`: sums, counts and averages of real sequences, and their bounds.
- `Glyph`: `GlyphTemplate`, its construction from bitmap rows, the blank, and the statistics the
  matcher uses (body mean, centred body).
- `Dictionary`: the file parser, the matching writer, and the round trip between them.
- `Grouping`: the width groups, a Python dict kept as a sequence in key-insertion order.
- `CostTable`: glyph costs and the cheapest-glyph table of every width that fits in a band.
- `Segmenter`: the optimal tiling, with its optimality proof and the source's two loops.
- `Assembler`: the text replacements and the band-by-band driver.
- `Dijkstra`: the label-graph shortest-path solver.

Costs are exact reals. Float32 `inf` (an entry no glyph has beaten yet) is `None` in an
`Option<real>`. Every real beats a `None` incumbent, as with float32 `<`.

The cosine similarity between a window and a glyph is a parameter `sim` of the model. Its
square-root norms cannot be computed exactly, and the optimality results hold for any
similarity. The density term `0.3 * |window mean - glyph mean|` is modelled exactly.

In these corner cases the model follows the code:

- A dictionary whose bitmap rows run out before the end of the file is not an error. The
  missing rows read as `""`, which is all background.
- An empty character line is not an error; the glyph's character becomes a space.
- The parser accepts width 0. Only a negative width fails, because `np.full` rejects it. A
  width-0 glyph then makes every band fail. Its group always fits (`limit` is the band width
  plus one), and NumPy cannot reshape the group's empty window view. The model returns that
  error as a `Failure` from `_precompute_costs`, `_solve_row` and `generate_text_lines`.
- A declared count larger than the glyphs present is not rejected as a count mismatch. The
  missing width line reads as `""`, and `int("")` fails, so it shows up as `BadWidth` at the
  first missing glyph. Extra glyphs after the declared count are ignored.
- A band of width 0 is not rejected. Unless some glyph has width 0, it produces no characters,
  and its line is the single ideographic space.
- Negative costs are never checked for. The tiling is optimal for whatever costs the tables
  hold.

## Model

| member | source | states |
|---|---|---|
| Glyph.RStripNewlinesSpec | AA_ChrTool.py:35 | `rstrip("\r\n")` returns a prefix of the row; what it drops is all `\r`/`\n`; no line end remains at its end |
| Glyph.FromDictionary | AA_ChrTool.py:32-37 | the glyph has the given character and width and an 18 × width matrix |
| Glyph.FromDictionaryPixels | AA_ChrTool.py:33-37 | a pixel is ink (0) exactly when its row exists, is long enough and holds `'1'` there; otherwise 255 (short rows padded, long rows cut, line ends ignored) |
| Glyph.Blank | AA_ChrTool.py:46-48 | `blank(w)` is a space of width w whose every pixel is 255 |
| Glyph.GlyphBody | AA_ChrTool.py:40 | the body is 16 × width values, each 0.0 or 1.0 |
| Glyph.Mean | AA_ChrTool.py:41 | the body mean lies in [0, 1] |
| Glyph.MeanIsBackgroundFraction | AA_ChrTool.py:40-41 | the mean equals the fraction of background pixels in the lower 16 rows |
| Glyph.CenteredSumsToZero | AA_ChrTool.py:42 | the mean-centred body sums to zero |
| Glyph.BlankStatistics | AA_ChrTool.py:46-53 | the default blank is a width-1 space with mean 1 and an all-zero centred body |
| Dictionary.SkipBlankLines | AA_ChrTool.py:97-99 | the character line is found at or after the current line and is not `"\n"` |
| Dictionary.SkippedLinesAreBlank | AA_ChrTool.py:98-99 | every line skipped before the character line is exactly `"\n"` |
| Dictionary.CharOfLine | AA_ChrTool.py:100-101 | the glyph character is the line's first character, or a space when the line holds only line ends |
| Dictionary.CharLine | AA_ChrTool.py:100-101 | a character followed by `"\n"` reads back as that character |
| Dictionary.BitmapRows | AA_ChrTool.py:106 | exactly 18 bitmap rows are read, past end of file included |
| Dictionary.StripNumberLine | AA_ChrTool.py:95 | `int(line.strip())` reads a written number line back as that number |
| Dictionary.ParseGlyph | AA_ChrTool.py:97-107 | one entry yields a well-formed glyph and moves at least 20 lines on, or fails with BadWidth or NegativeWidth for that glyph |
| Dictionary.ParseGlyphOutcome | AA_ChrTool.py:97-107 | one entry fails with BadWidth exactly when its width line is not an integer and with NegativeWidth exactly when it is negative; otherwise it yields the glyph built from the first character of the character line, that width and the next 18 lines, and moves on exactly 20 lines past the character line |
| Dictionary.ParseGlyphs | AA_ChrTool.py:96-107 | exactly the requested number of well-formed glyphs, or the error of a glyph index in range |
| Dictionary.Parse | AA_ChrTool.py:92-108 | fails with BadCount exactly when the first line is not an integer; otherwise yields max(count, 0) well-formed glyphs or a glyph error |
| Dictionary.RowTextRoundTrip | AA_ChrTool.py:35-37 | a bitmap row written as `0`/`1` text and a line end reads back pixel for pixel |
| Dictionary.FromRowTexts | AA_ChrTool.py:32-37 | rebuilding a glyph from its written rows gives the same glyph |
| Dictionary.EncodedRows | AA_ChrTool.py:106 | the bitmap rows read from a written glyph are its row texts |
| Dictionary.ParseEncodedGlyph | AA_ChrTool.py:97-107 | a written glyph reads back as itself, 20 lines further on |
| Dictionary.ParseEncodeRoundTrip | AA_ChrTool.py:92-108 | writing a dictionary and parsing it gives back the same glyphs in the same order |
| Grouping.FindGroup | AA_ChrTool.py:89 | the dict lookup finds the group of that width, or -1 exactly when there is none |
| Grouping.GroupingStep | AA_ChrTool.py:88-89 | adding a glyph changes only its own width's group, or adds a new key at the end |
| Grouping.GroupByWidth | AA_ChrTool.py:86-90 | the result is the grouping: one group per distinct width in first-appearance order, each holding that width's glyphs in dictionary order |
| Grouping.WithWidthMembers | AA_ChrTool.py:86-90 | a group holds exactly the glyphs of its width |
| Grouping.WidthsComplete | AA_ChrTool.py:86-90 | a width is a key exactly when some glyph has it |
| Grouping.WidthsDistinct | AA_ChrTool.py:86-90 | no width is a key twice |
| Grouping.WithWidthAbsent | AA_ChrTool.py:86-90 | a width no glyph has selects no glyphs |
| Grouping.GroupsNonEmpty | AA_ChrTool.py:86-90 | every group is non-empty |
| Grouping.WidthsInFirstAppearanceOrder | AA_ChrTool.py:86-90 | keys come in the order their widths first occur in the dictionary |
| Grouping.GroupsPartition | AA_ChrTool.py:86-90 | the group sizes add up to the number of glyphs |
| CostTable.BlockBodyInUnit | AA_ChrTool.py:122 | every scaled window pixel lies in [0, 1] |
| CostTable.WindowMean | AA_ChrTool.py:122-124 | a window's body mean lies in [0, 1] |
| CostTable.GlyphCostBounds | AA_ChrTool.py:133-136 | with a similarity in [-1, 1], the cost of a glyph of positive width lies in [0, 2.3] |
| CostTable.PickIsFirstLowest | AA_ChrTool.py:128-140 | the strict-`<` mask keeps the first candidate of lowest cost, and keeps none exactly when no candidate has a cost |
| CostTable.PickStep | AA_ChrTool.py:137-140 | comparing one more candidate changes the kept index only when the new one is strictly lower |
| CostTable.WinnerStep | AA_ChrTool.py:137-140 | glyph n replaces an entry exactly when its cost is strictly below the entry's |
| CostTable.MergeAt | AA_ChrTool.py:137-140 | one column after glyph n holds the winner among the first n + 1 glyphs |
| CostTable.MergeGlyph | AA_ChrTool.py:132-140 | after glyph n every column holds the winner among the first n + 1 glyphs |
| CostTable.BuildTable | AA_ChrTool.py:116-143 | a fitting positive width gets width − glyph width + 1 entries, each the winner over the whole group |
| CostTable.Fitting | AA_ChrTool.py:115-118 | only widths that fit in the band get a table |
| CostTable.FittingMembers | AA_ChrTool.py:115-118 | a group gets a table exactly when its width is at most the band width |
| CostTable.PrecomputeCosts | AA_ChrTool.py:110-145 | fails with the reshape error exactly when some group has width 0; otherwise one table per fitting width, in dict order, each the winner table of its group |
| CostTable.TableEntry | AA_ChrTool.py:128-143 | an entry is inf exactly when the group has no glyphs, and then holds the blank; otherwise it is the first glyph of lowest cost |
| CostTable.FullTable | AA_ChrTool.py:128-143 | a non-empty group fills every entry with one of its glyphs and a real cost |
| CostTable.GroupingIsGroups | AA_ChrTool.py:82 | the grouping of a well-formed dictionary has only well-formed glyphs of the group's width |
| Segmenter.ScanUpTo | AA_ChrTool.py:156-172 | a chosen table is among those compared and offers a step at that column |
| Segmenter.ScanIsFirstLowest | AA_ChrTool.py:156-172 | the decision costs no more than the fallback or any offered table; a table wins only when strictly below the fallback and every earlier table |
| Segmenter.Trace | AA_ChrTool.py:177-182 | following the decisions gives a tiling that covers the band exactly |
| Segmenter.BestIsLowerBound | AA_ChrTool.py:151-175 | no tiling from a column costs less than the best cost there |
| Segmenter.TraceIsOptimal | AA_ChrTool.py:151-175 | following the decisions costs exactly the best cost |
| Segmenter.PathLength | AA_ChrTool.py:177-183 | a tiling writes one character per step, at most one per column, and at least one in a non-empty band |
| Segmenter.Decide | AA_ChrTool.py:156-175 | the inner loop at column x computes the decision's cost and step |
| Segmenter.Solve | AA_ChrTool.py:151-175 | `best_cost[x]` is the cheapest cost of covering columns x to the end, and `best_choice[x]` the decision there |
| Segmenter.TraceChars | AA_ChrTool.py:179-182 | the read-back writes the chosen glyph's character and moves past its width, at least one column, staying in the band |
| Segmenter.Walk | AA_ChrTool.py:177-184 | the read-back writes exactly the characters of the decided tiling |
| Segmenter.SolveRow | AA_ChrTool.py:147-184 | fails with the reshape error exactly when some group has width 0; otherwise the row's characters are those of a tiling no other tiling undercuts, at most one per column, at least one in a non-empty band |
| Segmenter.TablesShaped | AA_ChrTool.py:142-143 | every table has as many glyphs as costs |
| Assembler.ReplaceAbsent | AA_ChrTool.py:199-200 | `str.replace` with no occurrence leaves the text unchanged |
| Assembler.ReplaceHead | AA_ChrTool.py:199-200 | the first character after a replacement is the text's own or the replacement's |
| Assembler.ReplaceKeepsPairsOut | AA_ChrTool.py:199-200 | a replacement holding neither character of a pair creates no such pair |
| Assembler.ReplaceRemovesPair | AA_ChrTool.py:199-200 | replacing a pair by text holding neither of its characters leaves none of it |
| Assembler.PairAfterPrefix | AA_ChrTool.py:199-200 | a pair in a concatenation lies in one part or across the join |
| Assembler.AssembledLine | AA_ChrTool.py:198-200 | every line starts with U+3000 and holds no double space, no `l!` and no `j!` |
| Assembler.Band | AA_ChrTool.py:191-196 | band i is 18 rows of equal width |
| Assembler.GenerateTextLines | AA_ChrTool.py:186-203 | fails with the reshape error exactly when the image holds a complete band and some group has width 0; otherwise one line per complete band, trailing rows dropped, line i the assembled text of an optimal tiling of band i |
| Dijkstra.GetEdges | AA_Dijkstra.py:30-39 | getEdges computes the reference edge filter, in input order |
| Dijkstra.MatchingMembers | AA_Dijkstra.py:30-39 | an edge is found exactly when it is an input edge leaving the label towards a pending label |
| Dijkstra.MatchingCount | AA_Dijkstra.py:30-39 | each input copy of an edge is found once per occurrence of its end label among the pending labels |
| Dijkstra.OccurrencesPositive | AA_Dijkstra.py:36-37 | a label occurs in the list exactly when it is a member of it |
| Dijkstra.SelectMin | AA_Dijkstra.py:70-78 | the scan gives -1 exactly when every distance is at least 1e30; otherwise the first index of the smallest distance, with its label and distance; the index is the reference scan's |
| Dijkstra.Remove | AA_Dijkstra.py:84 | `list.remove` takes away one occurrence of the label |
| Dijkstra.Pop | AA_Dijkstra.py:85 | `list.pop(k)` keeps the other records in order and removes exactly that record's label |
| Dijkstra.RelaxEdge | AA_Dijkstra.py:91-100 | each record of the edge's end label above `min + cost` gets that distance and parent, the rest are unchanged, and one edge is logged per update |
| Dijkstra.RelaxAll | AA_Dijkstra.py:89-100 | the records and the logged edges are those of the reference relaxation, each found edge in turn over every record; no distance rises; every found edge bounds its end label's distance; logged edges are found edges; every record stays explained |
| Dijkstra.RelaxThroughStep | AA_Dijkstra.py:89-100 | relaxing along one more found edge advances the reference relaxation and its log by that edge |
| Dijkstra.RelaxStep | AA_Dijkstra.py:89-100 | relaxing along one more found edge raises no distance and bounds every record of its end label by `min_distance + cost` |
| Dijkstra.RelaxJustified | AA_Dijkstra.py:97-99 | a lowered record is explained by the label just settled and the edge relaxed |
| Dijkstra.InsertKeepsOrder | AA_Dijkstra.py:103 | inserting into a list sorted by end label keeps it sorted |
| Dijkstra.InsertKeepsEdges | AA_Dijkstra.py:103 | inserting adds exactly the one edge |
| Dijkstra.InsertBounded | AA_Dijkstra.py:103 | inserting below a bound keeps every end label below it |
| Dijkstra.InsertKeepsGroups | AA_Dijkstra.py:103 | inserting appends the edge to its end label's group and leaves the other groups unchanged |
| Dijkstra.InsertGroupsPast | AA_Dijkstra.py:103 | moving past a larger end label does not reorder any group |
| Dijkstra.EndingAtAppend | AA_Dijkstra.py:103 | appending an edge extends only its own group |
| Dijkstra.InsertStep | AA_Dijkstra.py:103 | each insertion keeps the sorted copy in step with the edges read so far |
| Dijkstra.SortByEnd | AA_Dijkstra.py:103 | the stable sort: sorted by end label, same edges, each end label's edges in their original order |
| Dijkstra.StableSortUnique | AA_Dijkstra.py:103 | the two sort properties determine the result uniquely |
| Dijkstra.LastKeysAgree | AA_Dijkstra.py:103 | two such sorted lists end in the same end label |
| Dijkstra.DropLast | AA_Dijkstra.py:103 | their last edges agree and so do the groups of the rest |
| Dijkstra.SnocInjective | AA_Dijkstra.py:103 | equal lists with one edge appended have equal fronts and equal last edges |
| Dijkstra.EndingAtHas | AA_Dijkstra.py:103 | an end label's group is non-empty exactly when some edge ends there |
| Dijkstra.JustifiedGrow | AA_Dijkstra.py:83 | settling more labels keeps an explained record explained |
| Dijkstra.SettleSound | AA_Dijkstra.py:83-85 | settling a pending record keeps every settled and pending record explained |
| Dijkstra.Round | AA_Dijkstra.py:68-100 | one round succeeds exactly when the reference run takes one more step, and then ends in that step's state; it settles one more record and keeps the bookkeeping, the order, the explanations and the relaxation state; on failure -1 is a label of the graph |
| Dijkstra.Settle | AA_Dijkstra.py:83-100 | the picked record is settled, its label removed from `Labels2`, the pending records and the route become those of the reference relaxation along the edges `getEdges` finds; the bookkeeping, the order, the explanations and the relaxation state are kept |
| Dijkstra.RoundsNext | AA_Dijkstra.py:68-100 | one more round of the reference run is one more step from where it was |
| Dijkstra.RoundsStayNone | AA_Dijkstra.py:80-81 | once a round's assertion fails, the run never reaches a later round |
| Dijkstra.StartProgress | AA_Dijkstra.py:45-66 | the state before the first round meets the loop's invariant and is the reference run's start |
| Dijkstra.Advance | AA_Dijkstra.py:69-100 | one pass of the loop body keeps the invariant for one more settled record, or fails where the reference run fails |
| Dijkstra.RunRounds | AA_Dijkstra.py:68-100 | the loop ends normally exactly when the reference run completes one round per label, and then stops in that run's final state; otherwise -1 is a label |
| Dijkstra.AfterRelax | AA_Dijkstra.py:83-100 | after the relaxation the bookkeeping, the route, the order and the relaxation state hold for the grown settled list |
| Dijkstra.SettleRelaxed | AA_Dijkstra.py:83-100 | after a round, no input edge from a settled label can lower a record settled later or one still pending |
| Dijkstra.NodesListed | AA_Dijkstra.py:84-87 | every pending record's label is still listed in `Labels2`, so `getEdges` finds the edges towards it |
| Dijkstra.SettleBooks | AA_Dijkstra.py:83-85 | the selected label is still in `Labels2`, so `remove` cannot fail, and settling it keeps every label either settled or pending |
| Dijkstra.SettleLabels | AA_Dijkstra.py:83-85 | settling moves exactly one label from the pending records to the settled ones |
| Dijkstra.FirstPick | AA_Dijkstra.py:57-64 | the first round settles the last label, the only one starting at 0.0 |
| Dijkstra.PendingInLabels | AA_Dijkstra.py:84-87 | every label in `Labels2` and every settled label is a label of the graph |
| Dijkstra.AllSettled | AA_Dijkstra.py:68 | once the loop ends, the settled labels are the input labels, and none is -1 |
| Dijkstra.RelaxBooks | AA_Dijkstra.py:89-100 | relaxation keeps the bookkeeping |
| Dijkstra.SettleOrdered | AA_Dijkstra.py:74-100 | with non-negative costs, settled distances never decrease and no pending distance drops below the last settled one |
| Dijkstra.DoDijkstra | AA_Dijkstra.py:41-105 | fails exactly when -1 is a label, which is exactly when the reference run fails; otherwise the settled records are the run's, the route is the stable sort by end label of the run's log (same edges, each end label's edges in log order), and every label is settled once, the last label first at 0.0, in non-decreasing distance under non-negative costs, each settled distance explained by an earlier settled label and an input edge, no input edge from a settled label can lower a label settled after it, and the route is sorted by end label and holds only input edges between labels |
| Dijkstra.RelaxedPotential | AA_Dijkstra.py:68-100 | with non-negative costs, a finished run leaves no input edge between two settled labels that could lower a distance |
| Dijkstra.WalkLowerBound | AA_Dijkstra.py:57-100 | when no edge can lower a distance and the start is at 0.0, every walk from the start over settled labels costs at least the distance of each record where it ends |
| Dijkstra.ShortestWalks | AA_Dijkstra.py:41-100 | with non-negative costs, the distance doDijkstra settles for a label is at most the cost of any walk of input edges from the last label through the labels to it |
| Dijkstra.RootedWalk | AA_Dijkstra.py:57-100 | every settled distance is a never-relaxed record's distance (0.0 for the start, 1e29 otherwise) plus the cost of a walk of input edges from that record's label |
| Dijkstra.WalkSnoc | AA_Dijkstra.py:91-99 | an input edge leaving where a walk ends extends the walk and adds its cost |

## Left out

- Float32 arithmetic, the cosine similarity with its square-root norms, and the `+1e-6` in
  the norms are not modelled. Costs are exact reals, and the similarity is a parameter. The
  norm and centred-vector fields of `GlyphTemplate` exist only as the functions `Mean` and
  `Centered`.
- `GlyphTemplate.match_cost` is a single-window duplicate of the table computation, and no
  caller inside the core uses it.
- NumPy's window slicing, reshaping and object arrays are not modelled. Each becomes plain
  sequence indexing.
- File reading is modelled as a sequence of lines. `readline()` past the end yields `""`.
  Opening the file, the UTF-8 decoding, and the default dictionary path are not modelled.
- `int()` and `str.strip()` are modelled on ASCII only. Unicode digits and Unicode whitespace
  are left out.
- The `ndim != 2` check of `generate_text_lines` is not modelled. The model's input is a 2-D
  sequence of rows by construction.
- HTML assembly (`generate_ascii_art`, headers, footers), image loading and processing
  (`AA_ImPro.py`) and the command-line front end (`asciiartme.py`) are outside this model.
- Dijkstra.DoDijkstra: it also returns the settled records, which the source keeps internal
  (`Labels1` holds their labels). Edge costs are reals, so NaN costs are not modelled.
- Dijkstra.RelaxAll: `min_distance + edge.cost` is an exact real sum. Float64 rounding of that
  sum is not modelled, and so neither is its effect on ties and on the outcome of the
  comparisons with pending distances.
- Dijkstra.SettleOrdered: the distance order of settled labels is stated only for
  non-negative edge costs. With negative costs the source can settle labels out of order, and
  the model promises nothing there.
- Dijkstra.ShortestWalks: the bound is stated only for non-negative edge costs and only for
  walks that visit listed labels. `getEdges` never follows an edge towards an unlisted label,
  so such walks are outside what the search explores.
- Segmenter.SolveRow: its optimality is stated against the tables `_precompute_costs`
  builds. Whether those tables rank glyphs as an exact cosine similarity would is not stated,
  because the similarity is a parameter.
