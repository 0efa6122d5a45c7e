# Interface graphs from residue-contact reports: a verified model

This project models the analysis core of a pipeline that compares antibody
binding interfaces on influenza H5 haemagglutinin variants. It has four parts:

- **The alignment lookup table (`make_lut`).** Row 0 of a multiple sequence
  alignment is the consensus; only its length is used. For every variant row,
  the table gives the variant's own 1-based residue number at each consensus
  column, or nothing where the variant has a gap.
- **The contact-report parser (`parse_intercaat`).** It finds the header
  row of a residue-contact report. Each later row becomes an interaction
  record: amino acid, residue number, chain and atom type of both contact
  partners, plus the distance and the interaction class. Each interacting
  residue number is then mapped to the consensus position whose lookup entry
  plus 110 equals it.
- **The interface-graph builder (`generate_graph`) and its companions.**
  - The graph has four granularities: `all`, `no_atoms`, `res_nums` and the
    default `just_aa`; the distance cutoff of `res_nums` defaults to 3.
  - `node_subst_cost` is the 0/1 label comparison handed to the graph edit
    distance.
  - `num_ir` counts the nodes whose id starts with `A`.
- **The FASTA length filter.** It keeps the records longer than 450 residues
  and writes them as `>id`, newline, sequence, newline.

Modules:

- `Wrappers` (wrappers.dfy): `Option` and `Result`.
- `Text` (text.dfy): the string operations the parser relies on. These are
  `str.split`, the split-and-drop-empty-tokens idiom, `int()` on a token and
  decimal rendering.
- `Alignment` (alignment.dfy): `make_lut`. The method `MakeLut` and its inner
  loop `WalkVariant` are proved equal to the functions `Lut` and `RawColumn`.
  The lemmas state what the table contains.
- `Contacts` (contacts.dfy): `parse_intercaat`. The method `ParseIntercaat` and
  its lookup loop `MapResidues` are proved equal to the function `Intercaat`.
  Lemmas cover the error cases, the at-most-one-hit property of the lookup and
  reading back a report laid out as the contact tool writes it.
- `InterfaceGraphs` (graphs.dfy): `generate_graph` as a `Graph` class with
  node, edge and label fields, built by one loop per mode. The method is proved
  equal to graph functions of the link sequence `Links(mode, table, cutoff)`.
  The lemmas state the graph's shape.
- `FastaFilter` (fasta_filter.dfy): the filter loop writing to a `FastaWriter`
  object. It is proved to append exactly `Fasta(Kept(records))`.

In these places the code behaves in a way a reader might not expect; the
model follows the code:

- **Table length.** The table has one row per character of row 0, gaps
  included.
- **Unexpected characters.** A variant character that is neither a letter,
  `.` nor `-` is skipped like a gap; no error is raised.
- **Overrun.** A variant row longer than the consensus fails only when a
  counted character lies past the consensus length. That is where the
  positional write would go out of range. Trailing gaps past that length are
  harmless.
- **Report without contacts.** A report whose header is its last row is an
  error (`NoInteractions`), not an empty table: splitting an empty column 0
  on `|` yields no column at all, so reading the first half fails. Every
  successful parse therefore has at least one record, and a missing table
  column or a non-integer residue number is always reported.
- **Graph shape.**
  - A row whose two ids coincide gives a self-loop: an edge with a single
    endpoint.
  - In `all` mode the ids are joined without a separator, so different atoms
    can share a node (`AllModeIdsCollide`).
- **Column named `consensus`.** A variant row named `consensus` replaces the
  consensus column, as assigning a column of that name does.

## Model

| member | source | states |
|---|---|---|
| Text.Split | scripts/7_analyses/giraf/giraf.py:59-61 | every piece of a split is free of the separator, and there is always at least one piece |
| Text.JoinSplit | scripts/7_analyses/giraf/giraf.py:59-61 | joining the pieces of `s.split(d)` with `d` gives back `s` |
| Text.SplitJoin | scripts/7_analyses/giraf/giraf.py:59-61 | splitting a join of separator-free pieces gives back exactly those pieces |
| Text.SplitFree | scripts/7_analyses/giraf/giraf.py:59-61 | a string without the separator splits into itself alone |
| Text.SplitPrefix | scripts/7_analyses/giraf/giraf.py:59-61 | a separator-free head followed by the separator becomes the first piece, the rest splits on its own |
| Text.JoinAvoids | scripts/7_analyses/giraf/giraf.py:59-61 | a character absent from all pieces and different from the separator is absent from the join |
| Text.NonEmpty | scripts/7_analyses/giraf/giraf.py:64-65 | `filter(None, parts)` keeps only non-empty pieces taken from the input, never more than it had |
| Text.NonEmptyMembership | scripts/7_analyses/giraf/giraf.py:64-65 | a string is kept exactly when it is one of the pieces and is not empty |
| Text.NonEmptyAppend | scripts/7_analyses/giraf/giraf.py:64-65 | filtering a concatenation filters each part, so the kept pieces keep their input order |
| Text.NonEmptyKeepsAll | scripts/7_analyses/giraf/giraf.py:64-65 | filtering a list without empty strings leaves it unchanged |
| Text.Tokens | scripts/7_analyses/giraf/giraf.py:60-65 | every token of a half is non-empty and contains no space |
| Text.TokensOfJoin | scripts/7_analyses/giraf/giraf.py:60-65 | the tokens of words joined by single spaces are exactly those words, in order |
| Text.TokensAfterSpaces | scripts/7_analyses/giraf/giraf.py:60-65 | leading spaces of a half add only empty pieces, so they change no token |
| Text.TokensAfterWord | scripts/7_analyses/giraf/giraf.py:60-65 | a non-empty, space-free word followed by a space is the first token, and the rest tokenises on its own |
| Text.PaddedStep | scripts/7_analyses/giraf/giraf.py:60-65 | a field followed by at least one space in a fixed-width half is the field, one space, then the rest of the half |
| Text.TokensOfPaddedWords | scripts/7_analyses/giraf/giraf.py:60-65 | fields padded with any number of spaces between them (at least one) and after the last tokenise back to exactly those fields, in order |
| Text.TokensOfPadded | scripts/7_analyses/giraf/giraf.py:60-65 | the same holds after any number of leading spaces |
| Text.PaddedAvoids | scripts/7_analyses/giraf/giraf.py:59-61 | a character other than the space that no field contains does not occur in the padded half |
| Text.ParseInt | scripts/7_analyses/giraf/giraf.py:94 | `int()` on a token succeeds exactly on an optional sign followed by at least one digit |
| Text.IntText | scripts/7_analyses/giraf/giraf.py:97 | the text of a non-negative integer is its decimal digits; that of a negative one is `-` followed by the digits of its magnitude |
| Text.NatText | scripts/7_analyses/giraf/giraf.py:97 | the decimal text of n is a non-empty digit string whose value is n |
| Text.ParseIntText | scripts/7_analyses/giraf/giraf.py:97 | reading back the decimal text of an integer gives the integer |
| Alignment.Count | scripts/7_analyses/giraf/preprocess_align.py:45-56 | the counter never exceeds the number of characters walked |
| Alignment.RawColumn | scripts/7_analyses/giraf/preprocess_align.py:29-43 | every variant column has exactly one cell per consensus character |
| Alignment.Walk | scripts/7_analyses/giraf/preprocess_align.py:38-62 | walking the variant rows succeeds with a table holding the `consensus` column, or fails only with an overrun of a variant row that does not fit |
| Alignment.Lut | scripts/7_analyses/giraf/preprocess_align.py:10-66 | make_lut fails for want of row 0 exactly on an empty alignment; any other failure names a variant row that does not fit the consensus length; a success has the `consensus` column |
| Alignment.WalkVariant | scripts/7_analyses/giraf/preprocess_align.py:45-60 | the walk over one variant row succeeds exactly when no letter or `.` lies past the consensus length, and then writes the counter value before each letter or `.` into its column and nothing elsewhere |
| Alignment.MakeLut | scripts/7_analyses/giraf/preprocess_align.py:10-66 | make_lut returns the table `Lut(msa)`: the first overrunning row's error, or every column plus one |
| Alignment.CountStep | scripts/7_analyses/giraf/preprocess_align.py:45-56 | each step adds one to the counter exactly on a letter or `.` |
| Alignment.CountGap | scripts/7_analyses/giraf/preprocess_align.py:58-60 | a run of gap characters leaves the counter unchanged |
| Alignment.CountGrows | scripts/7_analyses/giraf/preprocess_align.py:49-56 | after a counted character the counter is strictly larger than it was before it |
| Alignment.CountReached | scripts/7_analyses/giraf/preprocess_align.py:49-56 | every value below the final count is written at some counted column |
| Alignment.CountAllAdvancing | scripts/7_analyses/giraf/preprocess_align.py:49-56 | on a row of letters and `.` only, the counter at column m is m |
| Alignment.ColumnCell | scripts/7_analyses/giraf/preprocess_align.py:45-65 | cell m of a variant column is 1 + the number of letters and `.` before m when the character at m is one, and undefined otherwise or past the row's end |
| Alignment.VariantColumnOrdered | scripts/7_analyses/giraf/preprocess_align.py:45-65 | the defined cells of a variant column strictly increase, and consecutive defined cells differ by exactly 1 |
| Alignment.VariantColumnValues | scripts/7_analyses/giraf/preprocess_align.py:45-65 | when the row fits, the values in its column are exactly 1 .. its number of letters and `.`, so the largest is that count |
| Alignment.CellWithinCount | scripts/7_analyses/giraf/preprocess_align.py:45-65 | every value in a variant column lies in 1 .. the row's number of letters and `.` |
| Alignment.CountWritten | scripts/7_analyses/giraf/preprocess_align.py:45-65 | when the row fits, every value in 1 .. its count appears in its column |
| Alignment.GapFreeRowIsIdentity | scripts/7_analyses/giraf/preprocess_align.py:49-65 | a gap-free variant as long as the consensus maps to 1 .. L |
| Alignment.OverrunPropagates | scripts/7_analyses/giraf/preprocess_align.py:40-62 | once a row overruns, the whole build fails with that row's error |
| Alignment.WalkOutcome | scripts/7_analyses/giraf/preprocess_align.py:38-62 | the row walk succeeds exactly when all rows walked fit, and fails with the first row that does not |
| Alignment.LutOutcome | scripts/7_analyses/giraf/preprocess_align.py:10-66 | the build fails for want of row 0 exactly on an empty alignment, succeeds exactly when all variant rows fit, and otherwise reports the first overrunning row |
| Alignment.WalkTable | scripts/7_analyses/giraf/preprocess_align.py:38-62 | after the walk the columns are `consensus` and the row names, all of length L, and each row name holds the raw column of its last row of that name |
| Alignment.WalkKeys | scripts/7_analyses/giraf/preprocess_align.py:38-43 | after the walk the column names are `consensus` and the names of the rows walked |
| Alignment.WalkLengths | scripts/7_analyses/giraf/preprocess_align.py:29-43 | after the walk every column has exactly L cells |
| Alignment.WalkConsensus | scripts/7_analyses/giraf/preprocess_align.py:29-39 | the `consensus` column is present and is 0 .. L-1 unless a walked row is named `consensus` |
| Alignment.WalkColumns | scripts/7_analyses/giraf/preprocess_align.py:42-60 | the column of a row name is the raw column of the last row walked with that name |
| Alignment.LutTable | scripts/7_analyses/giraf/preprocess_align.py:29-65 | the table's columns are `consensus` and the variant names, each with L cells; `consensus` is 1 .. L unless a variant is named so; a variant's column is its shifted raw column |
| Alignment.WalkIgnoresConsensusRow | scripts/7_analyses/giraf/preprocess_align.py:38-62 | the walk never reads row 0 beyond the given length |
| Alignment.ConsensusOnlyLength | scripts/7_analyses/giraf/preprocess_align.py:29-43 | replacing row 0 by any row of the same length gives the same table |
| Contacts.HeaderIndex | scripts/7_analyses/giraf/giraf.py:52 | the index found is the first row equal to the header marker, and there is none exactly when no row equals it |
| Contacts.SideOf | scripts/7_analyses/giraf/giraf.py:60-75 | a half gives a side exactly when it has four tokens, and the side's fields are those tokens in order |
| Contacts.Decompose | scripts/7_analyses/giraf/giraf.py:59-80 | a row gives a record exactly when column 0 has two `|`-separated halves of four tokens each; the record's fields are those tokens, its distance and class are the row's, and its mapped residue is the placeholder 0 |
| Contacts.DecomposeAll | scripts/7_analyses/giraf/giraf.py:59-80 | the data rows give records exactly when there is at least one and every row decomposes, one record per row in order; no data row at all is `NoInteractions` |
| Contacts.ParseRows | scripts/7_analyses/giraf/giraf.py:52-80 | parsing fails for a missing header exactly when no row is the header, and with `NoInteractions` exactly when the header is the last row; a success has one record per row after the header, at least one |
| Contacts.Basename | scripts/7_analyses/giraf/giraf.py:86 | the base name is the suffix of the path after its last `/`, and contains no `/` |
| Contacts.ProteinId | scripts/7_analyses/giraf/giraf.py:87-88 | a matched protein id is shorter than the base name |
| Contacts.ProteinIdMatches | scripts/7_analyses/giraf/giraf.py:87-88 | the protein id is the prefix of the base name before its first `_`; there is no match exactly when a newline precedes every `_` |
| Contacts.HitIndices | scripts/7_analyses/giraf/giraf.py:94 | the hit positions are consensus positions of the column |
| Contacts.HitIndicesSpec | scripts/7_analyses/giraf/giraf.py:94 | the hits are exactly the cells equal to n - 110, in increasing order |
| Contacts.Hits | scripts/7_analyses/giraf/giraf.py:94 | the hits are consensus cells, never more than the protein column or the consensus column has |
| Contacts.HitsText | scripts/7_analyses/giraf/giraf.py:97 | the stored text is empty exactly when there is no hit, and a single defined hit reads back as its value |
| Contacts.WithMapping | scripts/7_analyses/giraf/giraf.py:94 | setting the mapped residue changes no other field of the record |
| Contacts.FirstBadResidue | scripts/7_analyses/giraf/giraf.py:93-94 | every record before the returned index has an integer residue number, and the record at it does not |
| Contacts.MappedStep | scripts/7_analyses/giraf/giraf.py:93-95 | mapping one more record appends that record with its mapped residue |
| Contacts.MapRecords | scripts/7_analyses/giraf/giraf.py:92-97 | the lookup keeps one record per input record; it fails only when there is a record, and then only for a missing column or a non-integer residue number |
| Contacts.Intercaat | scripts/7_analyses/giraf/giraf.py:37-99 | a successful parse has one record per row after the header, at least one, and the table has both the `consensus` column and the protein's column |
| Contacts.ParseIntercaat | scripts/7_analyses/giraf/giraf.py:37-99 | parse_intercaat returns `Intercaat(filename, rows, lut)`: a report whose header is the last row is an error, not an empty table |
| Contacts.MapResidues | scripts/7_analyses/giraf/giraf.py:90-97 | the lookup loop returns `MapRecords(records, lut, protein)`: the first failing lookup's error, or every record with its mapped residue |
| Contacts.ParseIntercaatErrors | scripts/7_analyses/giraf/giraf.py:52-61 | parsing fails for a missing header exactly when no row is the header, and for want of interactions exactly when the first header is the last row |
| Contacts.HeaderMissing | scripts/7_analyses/giraf/giraf.py:52 | there is no header index exactly when no row is the header |
| Contacts.HeaderLast | scripts/7_analyses/giraf/giraf.py:52-59 | the header index is the last row exactly when the last row is the only header |
| Contacts.ParseIntercaatSuccess | scripts/7_analyses/giraf/giraf.py:52-97 | a success maps every record, in order, through the protein's column, and both table columns exist |
| Contacts.AtMostOneHit | scripts/7_analyses/giraf/giraf.py:94 | a column whose defined cells strictly increase has at most one hit for any residue number |
| Contacts.TwoHitsRepeat | scripts/7_analyses/giraf/giraf.py:94 | two hits are two cells with the same value, so such a column is not strictly increasing |
| Contacts.LookupAgainstLut | scripts/7_analyses/giraf/giraf.py:94 | against a table built by make_lut a residue number n has at most one consensus position, and exactly one when n - 110 lies in 1 .. the protein's residue count |
| Contacts.RenderedSide | scripts/7_analyses/giraf/giraf.py:60-75 | a half written as four fields padded with spaces, as a fixed-width column is, contains no `|` and is read back as those fields in order |
| Contacts.RenderedRow | scripts/7_analyses/giraf/giraf.py:59-80 | a data row written as two `|`-terminated halves is read back as its record, with the mapped residue still 0 |
| Contacts.HeaderAt | scripts/7_analyses/giraf/giraf.py:52 | the header after a preamble without it is found right after the preamble |
| Contacts.DecomposeRendered | scripts/7_analyses/giraf/giraf.py:59-80 | N >= 1 written rows, each half padded its own way, decompose back to exactly those N records, in order |
| Contacts.ParseRenderedReport | scripts/7_analyses/giraf/giraf.py:52-80 | a preamble, the header and N >= 1 written rows with padded halves parse back to exactly those N records, in order |
| Contacts.HeaderOnlyReport | scripts/7_analyses/giraf/giraf.py:52-60 | a report ending with its header fails with `NoInteractions` |
| InterfaceGraphs.AllLink | scripts/7_analyses/giraf/giraf.py:130-131 | an `all` id starts with its chain |
| InterfaceGraphs.NoAtomsLink | scripts/7_analyses/giraf/giraf.py:143-144 | a `no_atoms` id starts with its chain and a comma |
| InterfaceGraphs.ResNumsLink | scripts/7_analyses/giraf/giraf.py:159-160 | a `res_nums` id starts with its chain and a comma |
| InterfaceGraphs.JustAaLink | scripts/7_analyses/giraf/giraf.py:181-182 | a `just_aa` id starts with its chain and a comma |
| InterfaceGraphs.Links | scripts/7_analyses/giraf/giraf.py:124-191 | a mode adds at most one link per table row, exactly one in `all` and `no_atoms`, and none for an unknown mode |
| InterfaceGraphs.Nearby | scripts/7_analyses/giraf/giraf.py:154 | the distance filter keeps only rows of the table strictly below the cutoff, never more rows than it had |
| InterfaceGraphs.NearbyKeeps | scripts/7_analyses/giraf/giraf.py:154 | a row survives the filter exactly when it is in the table and strictly closer than the cutoff |
| InterfaceGraphs.NearbyAppend | scripts/7_analyses/giraf/giraf.py:154 | a row added at the end survives at the end exactly when it is below the cutoff |
| InterfaceGraphs.Distinct | scripts/7_analyses/giraf/giraf.py:155 | `drop_duplicates` never returns more rows than it is given |
| InterfaceGraphs.DistinctSpec | scripts/7_analyses/giraf/giraf.py:155 | `drop_duplicates` keeps exactly the rows that occur, each once |
| InterfaceGraphs.DistinctRepeat | scripts/7_analyses/giraf/giraf.py:177 | a row already present adds nothing to the deduplicated selection |
| InterfaceGraphs.Graph.constructor | scripts/7_analyses/giraf/giraf.py:119 | a new graph has no nodes, no edges and no labels |
| InterfaceGraphs.Graph.AddEdge | scripts/7_analyses/giraf/giraf.py:167 | `add_edge` adds both endpoints and the undirected edge and changes no label |
| InterfaceGraphs.Graph.AddLabelledNodes | scripts/7_analyses/giraf/giraf.py:162-165 | `add_nodes_from` adds both nodes, each labelled with its own id, and no edge |
| InterfaceGraphs.GenerateGraph | scripts/7_analyses/giraf/giraf.py:103-194 | generate_graph (mode `just_aa` and cutoff 3 unless given) returns a new graph whose nodes, edges and labels are those of the mode's links (labels only in `res_nums` and `just_aa`, an empty graph for an unknown mode), and the table unchanged |
| InterfaceGraphs.DrawAll | scripts/7_analyses/giraf/giraf.py:124-134 | the `all` loop draws one edge per row between ids joining chain, amino acid, raw residue number and atom type, and sets no label |
| InterfaceGraphs.DrawNoAtoms | scripts/7_analyses/giraf/giraf.py:136-147 | the `no_atoms` loop draws one edge per row between ids `chain,` + amino acid + raw residue number, and sets no label |
| InterfaceGraphs.DrawResNums | scripts/7_analyses/giraf/giraf.py:149-169 | the `res_nums` loop draws, for each distinct close residue pair, two nodes labelled with their ids and the edge between them |
| InterfaceGraphs.DrawJustAa | scripts/7_analyses/giraf/giraf.py:173-191 | the `just_aa` loop draws, for each distinct chain and amino acid pair, two nodes labelled with their ids and the edge between them |
| InterfaceGraphs.EdgeMembership | scripts/7_analyses/giraf/giraf.py:119-194 | an edge is present exactly when some added link joins its endpoints |
| InterfaceGraphs.NodesAreEndpoints | scripts/7_analyses/giraf/giraf.py:119-194 | the nodes are exactly the endpoints of the edges |
| InterfaceGraphs.LinkNodes | scripts/7_analyses/giraf/giraf.py:119-194 | both ids of every added link are nodes |
| InterfaceGraphs.EdgeCount | scripts/7_analyses/giraf/giraf.py:119-194 | each added link contributes at most one edge |
| InterfaceGraphs.SameLinksSameGraph | scripts/7_analyses/giraf/giraf.py:119-194 | nodes and edges depend only on which links occur, not on their order or repetitions |
| InterfaceGraphs.LabelsAreIds | scripts/7_analyses/giraf/giraf.py:159-189 | in the labelled modes exactly the nodes are labelled, each with its own id |
| InterfaceGraphs.JustAaDedupKeepsGraph | scripts/7_analyses/giraf/giraf.py:176-189 | in `just_aa`, dropping duplicate rows gives the same nodes and edges as drawing every row |
| InterfaceGraphs.ResNumsDedupKeepsGraph | scripts/7_analyses/giraf/giraf.py:154-167 | in `res_nums`, dropping duplicate rows gives the same nodes and edges as drawing every close row |
| InterfaceGraphs.DistinctKeepsLinks | scripts/7_analyses/giraf/giraf.py:155-191 | the links of the deduplicated rows are exactly the links of all rows |
| InterfaceGraphs.RepeatLink | scripts/7_analyses/giraf/giraf.py:119-194 | adding a link that is already there leaves nodes, edges and labels unchanged |
| InterfaceGraphs.RepeatLinkNodes | scripts/7_analyses/giraf/giraf.py:119-194 | adding a link that is already there leaves the nodes unchanged |
| InterfaceGraphs.RepeatLinkEdges | scripts/7_analyses/giraf/giraf.py:119-194 | adding a link that is already there leaves the edges unchanged |
| InterfaceGraphs.RepeatLinkLabels | scripts/7_analyses/giraf/giraf.py:159-189 | adding a link that is already there leaves the labels unchanged |
| InterfaceGraphs.ResNumsRepeat | scripts/7_analyses/giraf/giraf.py:154-155 | in `res_nums`, a repeated row yields exactly the same links |
| InterfaceGraphs.ResNumsKeysRepeat | scripts/7_analyses/giraf/giraf.py:154-155 | in `res_nums`, a repeated row leaves the selected, deduplicated rows unchanged |
| InterfaceGraphs.JustAaRepeat | scripts/7_analyses/giraf/giraf.py:176-177 | in `just_aa`, a repeated row yields exactly the same links |
| InterfaceGraphs.RepeatAddsNothing | scripts/7_analyses/giraf/giraf.py:119-194 | in every mode, repeating a row of the table leaves nodes, edges and labels unchanged |
| InterfaceGraphs.GraphSize | scripts/7_analyses/giraf/giraf.py:119-194 | there are never more edges than table rows, and an unknown mode gives the empty graph |
| InterfaceGraphs.JustAaIgnoresDetail | scripts/7_analyses/giraf/giraf.py:176-189 | in `just_aa`, tables that agree on chains and amino acids give the same links whatever their residue numbers, atoms or distances |
| InterfaceGraphs.ResNumsCutoff | scripts/7_analyses/giraf/giraf.py:154-167 | in `res_nums` a row at or beyond the cutoff adds nothing; a row strictly within it always yields its edge and its two labelled nodes |
| InterfaceGraphs.AllModeIdsCollide | scripts/7_analyses/giraf/giraf.py:130-131 | two different records can produce the same `all`-mode ids |
| InterfaceGraphs.NodeSubstCost | scripts/7_analyses/giraf/giraf.py:198-202 | the cost is defined exactly when both nodes carry a label, and is then 0 or 1 |
| InterfaceGraphs.SubstCostSymmetric | scripts/7_analyses/giraf/giraf.py:198-202 | the cost is symmetric, zero on a labelled node against itself, and zero exactly when both labels exist and are equal |
| InterfaceGraphs.SubstCostOnGraph | scripts/7_analyses/giraf/giraf.py:198-202 | on nodes of a generated graph the cost is 0 for the same node and 1 for different ones in the labelled modes, and a KeyError in `all` and `no_atoms` |
| InterfaceGraphs.ChainABound | scripts/7_analyses/giraf/giraf.py:243-247 | the number of nodes whose id starts with `A` is at most the number of nodes |
| InterfaceGraphs.ChainAStep | scripts/7_analyses/giraf/giraf.py:244-246 | visiting one more node adds one to the count exactly when its id starts with `A` |
| InterfaceGraphs.NumIr | scripts/7_analyses/giraf/giraf.py:243-247 | num_ir is the number of nodes whose id starts with `A` |
| FastaFilter.Kept | src/filter.py:5-6 | the filter never keeps more records than it is given |
| FastaFilter.Entry | src/filter.py:7-10 | a record's entry is `>`, its id, a newline, its sequence and a newline: three characters more than id and sequence |
| FastaFilter.Fasta | src/filter.py:4-10 | the output is empty exactly when there are no records, and otherwise starts with `>` |
| FastaFilter.FastaWriter.constructor | src/filter.py:3 | a freshly opened output file is empty |
| FastaFilter.FastaWriter.Write | src/filter.py:7-10 | each write appends its text to the file |
| FastaFilter.FilterRecord | src/filter.py:5-10 | one loop iteration appends the record's entry when it is longer than 450 and nothing otherwise |
| FastaFilter.WriteEntry | src/filter.py:7-10 | the four writes for a kept record append `>`, the id, a newline, the sequence and a newline |
| FastaFilter.FilterRecords | src/filter.py:4-10 | the loop appends exactly the FASTA form of the kept records, in input order |
| FastaFilter.WrittenStep | src/filter.py:4-10 | the output after one more record is the output so far followed by that record's filtered output |
| FastaFilter.KeptMembership | src/filter.py:5-6 | a record is kept exactly when it occurs and is strictly longer than 450, so one of exactly 450 is dropped |
| FastaFilter.KeptAppend | src/filter.py:4-6 | filtering a concatenation filters each part, so kept records stay in input order |
| FastaFilter.KeptIdempotent | src/filter.py:5-6 | filtering the kept records again changes nothing |
| FastaFilter.FastaAppend | src/filter.py:4-10 | the output for two record lists is the output for the first followed by that for the second |
| FastaFilter.FastaLength | src/filter.py:7-10 | the output length is the sum over records of the id length, the sequence length and 3 |
| FastaFilter.FastaReadsBack | src/filter.py:7-10 | when no id or sequence contains a newline, the output's lines are `>id` and the sequence for each record, in order |

## Left out

- Reading the files is not modelled: `pd.read_fwf` column inference for the alignment and the report, and `Bio.SeqIO.parse` for FASTA. The inputs are alignment rows (name, sequence), report rows (column 0 text, distance, class column) and (id, sequence) records.
- The progress `print` in make_lut is output only and is left out.
- The exploration script is not part of this model: the graph edit distance call with its wall-clock timeout, the hardcoded paths and `glob`, the catch-all `try/except`, the result table, its TSV export and all plotting. Only the cost function given to the edit distance is modelled.
- Files are not modelled as system handles. The output file is a `FastaWriter` object holding the text written so far, and closing it is left out.
- InterfaceGraphs.GenerateGraph: does not model the `weight` attribute of `all` mode. It is the whole distance column rather than a per-edge value, so only edges are modelled.
- InterfaceGraphs.GenerateGraph: does not model the insertion order networkx keeps for nodes. The graph is a set of nodes and a set of edges, so `num_ir` is order-independent as in the source.
- InterfaceGraphs.Nearby: the distance is a real number, not a float parsed from text by `astype(float)`. The strict `<` against the cutoff is kept.
- Contacts.Decompose: requires each half of column 0 to have exactly four tokens. Pandas would pad shorter token lists with missing values or fail on longer ones; both become `MalformedRows` here.
- Contacts.HitsText: the mapped residue is the text of the hit sequence: the values in decimal, separated by spaces, `NaN` for an undefined cell, empty for no hit. The exact text pandas produces when a Series is stored in a cell and converted with `astype(str)` is not modelled.
- Contacts.Intercaat: the lookup table is always given. The optional `lut=None` default is left out because the lookup dereferences the table unconditionally.
- Text.ParseInt: accepts only an optional sign followed by ASCII digits. Python's `int()` also accepts surrounding whitespace, underscores between digits and non-ASCII digits, which residue-number tokens do not contain.
- Alignment.IsAlpha: is ASCII letters only. Python's `isalpha` also accepts non-ASCII letters, which alignment rows do not contain.
- Alignment.Lut: the table is a map from column name to column, so the order of the columns is not modelled.
- FastaFilter.Kept: the record length is the length of its sequence, as `len(record)` is for a sequence record. The id comes from the parser and is taken as given.
