/**
 * The contact-report parser (`parse_intercaat`).
 *
 * A report is a preamble of variable length, a header row whose first column
 * is exactly `Query Chain    |Interacting Chains|`, then one row per
 * interaction. The first column of a data row holds the query and the
 * interacting half separated by `|`; each half is split on spaces (empty
 * tokens dropped) into amino acid, residue number, chain and atom type.
 * The distance is the second column and the interaction class the fourth.
 *
 * The protein id is the part of the file's base name before its first `_`.
 * Each record's interacting residue number is then looked up in that
 * protein's column of the alignment table: the mapped value is the
 * consensus position whose lookup entry plus 110 equals the residue number.
 */
module Contacts {
  import opened Wrappers
  import opened Text
  import opened Alignment

  const HeaderMarker: string := "Query Chain    |Interacting Chains|"

  /** Raw residue numbers in a report are this much above the alignment's own numbering. */
  const ResidueOffset: int := 110

  /** One row of the report as fixed-width columns: column 0, the distance column and column 3. */
  datatype ReportRow = ReportRow(text: string, dist: real, atomClass: string)

  /** One side of a contact: the tokens of one half of column 0, in order. */
  datatype Side = Side(aa: string, resNum: string, chain: string, atomType: string)

  /** A row of the interactions table. */
  datatype Interaction = Interaction(qc: Side, ic: Side, dist: real, atomClass: string, icMapResNum: string)

  datatype ParseError =
    | MissingHeader              // no row equals the header marker
    | NoInteractions             // the header is the last row, so the column split has no column to read
    | MalformedRows              // some data row does not split into two halves of four tokens
    | BadFilename                // the base name has no `_` reachable by the protein-id pattern
    | MissingColumn(name: string) // the lookup table has no column of that name
    | BadResidueNumber(row: nat) // the interacting residue number of that data row is not an integer

  /** Index of the first row whose first column is the header marker. */
  function HeaderIndex(rows: seq<ReportRow>): (h: Option<nat>)
    ensures h.Some? ==> h.value < |rows| && rows[h.value].text == HeaderMarker &&
                        forall i :: 0 <= i < h.value ==> rows[i].text != HeaderMarker
    ensures h.None? ==> forall i :: 0 <= i < |rows| ==> rows[i].text != HeaderMarker
  {
    if rows == [] then None
    else if rows[0].text == HeaderMarker then Some(0)
    else
      match HeaderIndex(rows[1..])
      case None => None
      case Some(i) => Some(i + 1)
  }

  /** The fields of a side in column order. */
  function Fields(s: Side): seq<string>
  {
    [s.aa, s.resNum, s.chain, s.atomType]
  }

  /** The four fields of one half of column 0, when it has exactly four tokens. */
  function SideOf(half: string): (side: Option<Side>)
    ensures side.Some? <==> |Tokens(half)| == 4
    ensures side.Some? ==> Fields(side.value) == Tokens(half)
  {
    var ts := Tokens(half);
    if |ts| == 4 then Some(Side(ts[0], ts[1], ts[2], ts[3])) else None
  }

  /**
   * One data row as a record. The mapped residue is still the placeholder 0
   * that the table column is initialised with before the lookup loop.
   */
  function Decompose(row: ReportRow): (x: Option<Interaction>)
    ensures x.Some? <==> |Split(row.text, '|')| >= 2 &&
                         |Tokens(Split(row.text, '|')[0])| == 4 && |Tokens(Split(row.text, '|')[1])| == 4
    ensures x.Some? ==> Fields(x.value.qc) == Tokens(Split(row.text, '|')[0]) &&
                        Fields(x.value.ic) == Tokens(Split(row.text, '|')[1])
    ensures x.Some? ==> x.value.dist == row.dist && x.value.atomClass == row.atomClass && x.value.icMapResNum == "0"
  {
    var halves := Split(row.text, '|');
    if |halves| < 2 then None
    else
      match (SideOf(halves[0]), SideOf(halves[1]))
      case (Some(q), Some(i)) => Some(Interaction(q, i, row.dist, row.atomClass, "0"))
      case _ => None
  }

  /**
   * The data rows as records, column by column, or a failure when any row is
   * malformed. With no data row the column split yields a frame without
   * columns, and reading its first column fails.
   */
  function DecomposeAll(rows: seq<ReportRow>): (r: Result<seq<Interaction>, ParseError>)
    ensures r == Err(NoInteractions) <==> rows == []
    ensures r.Ok? <==> rows != [] && forall i :: 0 <= i < |rows| ==> Decompose(rows[i]).Some?
    ensures r.Ok? ==> |r.value| == |rows| && forall i :: 0 <= i < |rows| ==> Decompose(rows[i]) == Some(r.value[i])
  {
    if rows == [] then Err(NoInteractions)
    else if forall i :: 0 <= i < |rows| ==> Decompose(rows[i]).Some? then
      Ok(seq(|rows|, i requires 0 <= i < |rows| => Decompose(rows[i]).value))
    else Err(MalformedRows)
  }

  /** Everything after the first header row, decomposed. */
  function ParseRows(rows: seq<ReportRow>): (r: Result<seq<Interaction>, ParseError>)
    ensures r == Err(MissingHeader) <==> HeaderIndex(rows).None?
    ensures r == Err(NoInteractions) <==> HeaderIndex(rows) == Some(|rows| - 1)
    ensures r.Ok? ==> HeaderIndex(rows).Some? && |r.value| == |rows| - HeaderIndex(rows).value - 1 >= 1
  {
    match HeaderIndex(rows)
    case None => Err(MissingHeader)
    case Some(h) => DecomposeAll(rows[h + 1..])
  }

  /** `os.path.basename`: the part of the path after its last `/`. */
  function Basename(path: string): (b: string)
    ensures '/' !in b
    ensures |b| <= |path| && path[|path| - |b|..] == b
    ensures |b| < |path| ==> path[|path| - |b| - 1] == '/'
  {
    if path == [] || path[|path| - 1] == '/' then []
    else
      var init := path[..|path| - 1];
      var b := Basename(init) + [path[|path| - 1]];
      assert path[|path| - |b|..] == init[|init| - |b| + 1..] + [path[|path| - 1]];
      b
  }

  /**
   * The match of `^.*?(?=_)`: the shortest prefix followed by `_`. The dot
   * does not match a newline, so the match fails when a newline comes before
   * the first `_`, as it does when there is no `_` at all.
   */
  function ProteinId(b: string): (id: Option<string>)
    ensures id.Some? ==> |id.value| < |b|
  {
    if b == [] then None
    else if b[0] == '_' then Some("")
    else if b[0] == '\n' then None
    else
      match ProteinId(b[1..])
      case None => None
      case Some(rest) => Some([b[0]] + rest)
  }

  /**
   * The protein id is the prefix of the base name before its first `_`,
   * possibly empty, provided no newline precedes that `_`; otherwise there
   * is no match.
   */
  lemma {:induction false} ProteinIdMatches(b: string)
    ensures ProteinId(b).Some? ==>
              var id := ProteinId(b).value;
              |id| < |b| && b[..|id|] == id && b[|id|] == '_' && '_' !in id && '\n' !in id
    ensures ProteinId(b).None? ==> forall k :: 0 <= k < |b| && b[k] == '_' ==> '\n' in b[..k]
    decreases |b|
  {
    if b != [] && b[0] != '_' && b[0] != '\n' {
      ProteinIdMatches(b[1..]);
      if ProteinId(b[1..]).None? {
        forall k | 0 <= k < |b| && b[k] == '_' ensures '\n' in b[..k] {
          assert b[1..][k - 1] == '_';
          assert b[1..][..k - 1] == b[1..k];
        }
      }
    }
  }

  /** The indices, in increasing order, of the cells of `col` that equal n - 110. */
  function HitIndices(col: Column, n: int): (idx: seq<nat>)
    ensures |idx| <= |col|
    ensures forall j :: 0 <= j < |idx| ==> idx[j] < |col|
  {
    if col == [] then []
    else
      var init := HitIndices(col[..|col| - 1], n);
      if col[|col| - 1] == Some(n - ResidueOffset) then init + [|col| - 1] else init
  }

  /** HitIndices lists exactly the matching cells, each once, in increasing order. */
  lemma {:induction false} HitIndicesSpec(col: Column, n: int)
    ensures forall j :: 0 <= j < |HitIndices(col, n)| ==> col[HitIndices(col, n)[j]] == Some(n - ResidueOffset)
    ensures forall c :: 0 <= c < |col| && col[c] == Some(n - ResidueOffset) ==> c in HitIndices(col, n)
    ensures forall j, k :: 0 <= j < k < |HitIndices(col, n)| ==> HitIndices(col, n)[j] < HitIndices(col, n)[k]
    decreases |col|
  {
    if col != [] {
      var init := col[..|col| - 1];
      HitIndicesSpec(init, n);
      forall c | 0 <= c < |init| && init[c] == Some(n - ResidueOffset)
        ensures col[c] == Some(n - ResidueOffset)
      {
      }
    }
  }

  /** `lut['consensus'].loc[lut[protein] + 110 == n]`: the consensus cells of the hits. */
  function Hits(consensus: Column, col: Column, n: int): (hits: seq<Option<int>>)
    ensures |hits| <= |col| && |hits| <= |consensus|
    ensures forall j :: 0 <= j < |hits| ==> hits[j] in consensus
  {
    var rows := if |col| <= |consensus| then |col| else |consensus|;
    var idx := HitIndices(col[..rows], n);
    seq(|idx|, j requires 0 <= j < |idx| => consensus[idx[j]])
  }

  function CellText(cell: Option<int>): (text: string)
    ensures text != []
  {
    match cell
    case Some(v) => IntText(v)
    case None => "NaN"
  }

  /** The text stored in `ic_map_res_num`: the hit values separated by spaces. */
  function HitsText(hits: seq<Option<int>>): (text: string)
    ensures text == [] <==> hits == []
    ensures |hits| == 1 && hits[0].Some? ==> ParseInt(text) == Some(hits[0].value)
  {
    if hits == [] then ""
    else if |hits| == 1 then
      if hits[0].Some? then ParseIntText(hits[0].value); CellText(hits[0]) else CellText(hits[0])
    else CellText(hits[0]) + " " + HitsText(hits[1..])
  }

  /** A record with its mapped residue set to the text of the hits for residue number n. */
  function WithMapping(x: Interaction, consensus: Column, col: Column, n: int): (y: Interaction)
    ensures y.qc == x.qc && y.ic == x.ic && y.dist == x.dist && y.atomClass == x.atomClass
  {
    x.(icMapResNum := HitsText(Hits(consensus, col, n)))
  }

  /** Index of the first record whose interacting residue number is not an integer (|records| if none). */
  function FirstBadResidue(records: seq<Interaction>): (k: nat)
    ensures k <= |records|
    ensures forall i :: 0 <= i < k ==> ParseInt(records[i].ic.resNum).Some?
    ensures k < |records| ==> ParseInt(records[k].ic.resNum).None?
  {
    if records == [] then 0
    else if ParseInt(records[0].ic.resNum).None? then 0
    else 1 + FirstBadResidue(records[1..])
  }

  /** The first p records, each with its mapped residue. */
  function Mapped(records: seq<Interaction>, consensus: Column, col: Column, p: nat): seq<Interaction>
    requires p <= |records| && forall i :: 0 <= i < p ==> ParseInt(records[i].ic.resNum).Some?
  {
    seq(p, i requires 0 <= i < p => WithMapping(records[i], consensus, col, ParseInt(records[i].ic.resNum).value))
  }

  lemma MappedStep(records: seq<Interaction>, consensus: Column, col: Column, p: nat)
    requires p < |records| && forall i :: 0 <= i <= p ==> ParseInt(records[i].ic.resNum).Some?
    ensures Mapped(records, consensus, col, p + 1) ==
            Mapped(records, consensus, col, p) + [WithMapping(records[p], consensus, col, ParseInt(records[p].ic.resNum).value)]
  {
  }

  /**
   * The lookup loop over the records: it stops at the first residue number
   * that is not an integer; otherwise every record gets its mapped residue.
   */
  function MapEach(records: seq<Interaction>, consensus: Column, col: Column): Result<seq<Interaction>, ParseError>
  {
    var k := FirstBadResidue(records);
    if k < |records| then Err(BadResidueNumber(k))
    else Ok(Mapped(records, consensus, col, |records|))
  }

  /** The lookup loop as a value; the table columns are first read inside the loop body. */
  function MapRecords(records: seq<Interaction>, lut: Table, protein: string): (r: Result<seq<Interaction>, ParseError>)
    ensures r.Ok? ==> |r.value| == |records|
    ensures r.Ok? && records != [] ==> ConsensusName in lut && protein in lut
    ensures r.Err? ==> records != [] && (r.error.MissingColumn? || r.error.BadResidueNumber?)
  {
    if records == [] then Ok([])
    else if ConsensusName !in lut then Err(MissingColumn(ConsensusName))
    else if protein !in lut then Err(MissingColumn(protein))
    else MapEach(records, lut[ConsensusName], lut[protein])
  }

  /** What parse_intercaat returns for a report file's name, its rows and the lookup table. */
  function Intercaat(filename: string, rows: seq<ReportRow>, lut: Table): (r: Result<seq<Interaction>, ParseError>)
    ensures r.Ok? ==> HeaderIndex(rows).Some? && |r.value| == |rows| - HeaderIndex(rows).value - 1 >= 1
    ensures r.Ok? ==> ConsensusName in lut && ProteinId(Basename(filename)).Some? && ProteinId(Basename(filename)).value in lut
  {
    match ParseRows(rows)
    case Err(e) => Err(e)
    case Ok(records) =>
      match ProteinId(Basename(filename))
      case None => Err(BadFilename)
      case Some(protein) => MapRecords(records, lut, protein)
  }

  /** parse_intercaat: split the rows, find the protein, then map the residues. */
  method ParseIntercaat(filename: string, rows: seq<ReportRow>, lut: Table)
    returns (r: Result<seq<Interaction>, ParseError>)
    ensures r == Intercaat(filename, rows, lut)
  {
    var parsed := ParseRows(rows);
    if parsed.Err? {
      return Err(parsed.error);
    }
    var protein := ProteinId(Basename(filename));
    if protein.None? {
      return Err(BadFilename);
    }
    r := MapResidues(parsed.value, lut, protein.value);
  }

  /** The loop that fills `ic_map_res_num` row by row. */
  method MapResidues(records: seq<Interaction>, lut: Table, protein: string)
    returns (r: Result<seq<Interaction>, ParseError>)
    ensures r == MapRecords(records, lut, protein)
  {
    var out: seq<Interaction> := [];
    for p := 0 to |records|
      invariant p > 0 ==> ConsensusName in lut && protein in lut
      invariant forall i :: 0 <= i < p ==> ParseInt(records[i].ic.resNum).Some?
      invariant |out| == p
      invariant p > 0 ==> out == Mapped(records, lut[ConsensusName], lut[protein], p)
    {
      if ConsensusName !in lut {
        return Err(MissingColumn(ConsensusName));
      }
      if protein !in lut {
        return Err(MissingColumn(protein));
      }
      var n := ParseInt(records[p].ic.resNum);
      if n.None? {
        assert FirstBadResidue(records) == p;
        return Err(BadResidueNumber(p));
      }
      MappedStep(records, lut[ConsensusName], lut[protein], p);
      out := out + [WithMapping(records[p], lut[ConsensusName], lut[protein], n.value)];
    }
    assert FirstBadResidue(records) == |records|;
    r := Ok(out);
  }

  // ---------------------------------------------------------------------------
  // Lemmas

  /**
   * parse_intercaat fails for a missing header, then for a header with no row
   * after it or malformed rows, then for a base name without a reachable `_`,
   * then for a missing table column or a residue number that is not an integer.
   * The first two failures depend on the row texts alone.
   */
  lemma ParseIntercaatErrors(filename: string, rows: seq<ReportRow>, lut: Table)
    ensures Intercaat(filename, rows, lut) == Err(MissingHeader) <==>
              forall i :: 0 <= i < |rows| ==> rows[i].text != HeaderMarker
    ensures Intercaat(filename, rows, lut) == Err(NoInteractions) <==>
              |rows| >= 1 && rows[|rows| - 1].text == HeaderMarker &&
              forall i :: 0 <= i < |rows| - 1 ==> rows[i].text != HeaderMarker
  {
    var parsed := ParseRows(rows);
    if parsed.Ok? && ProteinId(Basename(filename)).Some? {
      var mapped := MapRecords(parsed.value, lut, ProteinId(Basename(filename)).value);
      assert mapped.Err? ==> mapped.error.MissingColumn? || mapped.error.BadResidueNumber?;
    }
    assert Intercaat(filename, rows, lut) == Err(MissingHeader) <==> parsed == Err(MissingHeader);
    assert Intercaat(filename, rows, lut) == Err(NoInteractions) <==> parsed == Err(NoInteractions);
    HeaderMissing(rows);
    HeaderLast(rows);
  }

  /** There is no header index exactly when no row is the header. */
  lemma HeaderMissing(rows: seq<ReportRow>)
    ensures HeaderIndex(rows).None? <==> forall i :: 0 <= i < |rows| ==> rows[i].text != HeaderMarker
  {
    if HeaderIndex(rows).Some? {
      var h := HeaderIndex(rows).value;
      assert rows[h].text == HeaderMarker;
    }
  }

  /** The header is the last row exactly when the last row is the first header. */
  lemma HeaderLast(rows: seq<ReportRow>)
    ensures HeaderIndex(rows) == Some(|rows| - 1) <==>
              |rows| >= 1 && rows[|rows| - 1].text == HeaderMarker &&
              forall i :: 0 <= i < |rows| - 1 ==> rows[i].text != HeaderMarker
  {
    if |rows| >= 1 && rows[|rows| - 1].text == HeaderMarker &&
       forall i :: 0 <= i < |rows| - 1 ==> rows[i].text != HeaderMarker {
      HeaderMissing(rows);
      var h := HeaderIndex(rows).value;
      assert rows[h].text == HeaderMarker;
    }
  }

  /**
   * A successful parse returns one record per row after the header, in order,
   * each carrying the consensus positions its interacting residue maps to.
   */
  lemma ParseIntercaatSuccess(filename: string, rows: seq<ReportRow>, lut: Table)
    ensures Intercaat(filename, rows, lut).Ok? ==>
              ParseRows(rows).Ok? && ProteinId(Basename(filename)).Some? &&
              var records := ParseRows(rows).value;
              var protein := ProteinId(Basename(filename)).value;
              var out := Intercaat(filename, rows, lut).value;
              |out| == |records| &&
              ConsensusName in lut && protein in lut &&
              forall i :: 0 <= i < |out| ==>
                ParseInt(records[i].ic.resNum).Some? &&
                out[i] == WithMapping(records[i], lut[ConsensusName], lut[protein], ParseInt(records[i].ic.resNum).value)
  {
    var r := Intercaat(filename, rows, lut);
    if r.Ok? {
      var records := ParseRows(rows).value;
      var protein := ProteinId(Basename(filename)).value;
      assert r == MapRecords(records, lut, protein);
      assert records != [] && ConsensusName in lut && protein in lut;
      assert r == MapEach(records, lut[ConsensusName], lut[protein]);
      assert FirstBadResidue(records) == |records|;
      assert r.value == Mapped(records, lut[ConsensusName], lut[protein], |records|);
    }
  }

  /** No hits repeat when the cells of the column are strictly increasing: at most one consensus position matches. */
  lemma AtMostOneHit(col: Column, n: int)
    requires StrictlyIncreasing(col)
    ensures |HitIndices(col, n)| <= 1
  {
    if |HitIndices(col, n)| >= 2 {
      TwoHitsRepeat(col, n);
      assert false;
    }
  }

  /** Two hits are two distinct cells holding the same value. */
  lemma TwoHitsRepeat(col: Column, n: int)
    requires |HitIndices(col, n)| >= 2
    ensures !StrictlyIncreasing(col)
  {
    HitIndicesSpec(col, n);
    var idx := HitIndices(col, n);
    assert idx[0] < idx[1] && col[idx[0]] == col[idx[1]] == Some(n - ResidueOffset);
  }

  /**
   * Against a table built by make_lut, a protein's residue number n has at most
   * one consensus position, and exactly one when n - 110 lies in 1 .. the
   * number of residues of the protein's row.
   */
  lemma LookupAgainstLut(msa: seq<MsaRow>, t: Table, p: nat, n: int)
    requires Lut(msa) == Ok(t)
    requires 1 <= p < |msa| && forall q :: p < q < |msa| ==> msa[q].name != msa[p].name
    ensures msa[p].name in t
    ensures |HitIndices(t[msa[p].name], n)| <= 1
    ensures |HitIndices(t[msa[p].name], n)| == 1 <==> 1 <= n - ResidueOffset <= Count(msa[p].sequence)
  {
    LutTable(msa, t);
    LutOutcome(msa);
    var L := |msa[0].sequence|;
    var s := msa[p].sequence;
    var col := t[msa[p].name];
    VariantColumnOrdered(s, L);
    AtMostOneHit(col, n);
    HitIndicesSpec(col, n);
    VariantColumnValues(s, L, n - ResidueOffset);
    var idx := HitIndices(col, n);
    if 1 <= n - ResidueOffset <= Count(s) {
      var m :| 0 <= m < L && col[m] == Some(n - ResidueOffset);
      assert m in idx;
    }
    if |idx| == 1 {
      assert col[idx[0]] == Some(n - ResidueOffset);
    }
  }

  // ---------------------------------------------------------------------------
  // Reading back a report written in the expected layout

  predicate WellFormedSide(s: Side)
  {
    forall i :: 0 <= i < |Fields(s)| ==> Fields(s)[i] != [] && ' ' !in Fields(s)[i] && '|' !in Fields(s)[i]
  }

  /** How one half is padded in the fixed-width column: leading spaces and the spaces after each field. */
  datatype Layout = Layout(lead: nat, gaps: seq<nat>)

  /** Four fields, at least one space between two of them, any number after the last. */
  predicate FitsLayout(lay: Layout)
  {
    |lay.gaps| == 4 && lay.gaps[0] >= 1 && lay.gaps[1] >= 1 && lay.gaps[2] >= 1
  }

  /** One half as the contact tool writes it: the four fields padded to their columns. */
  function RenderSide(s: Side, lay: Layout): string
    requires FitsLayout(lay)
  {
    Spaces(lay.lead) + PaddedWords(Fields(s), lay.gaps)
  }

  /** A data row as the contact tool lays it out: both halves, each closed by `|`. */
  function RenderRow(x: Interaction, q: Layout, i: Layout): ReportRow
    requires FitsLayout(q) && FitsLayout(i)
  {
    ReportRow(Join([RenderSide(x.qc, q), RenderSide(x.ic, i), ""], '|'), x.dist, x.atomClass)
  }

  /** The data rows for records xs, row i laid out with the halves' layouts qls[i] and ils[i]. */
  function RenderRows(xs: seq<Interaction>, qls: seq<Layout>, ils: seq<Layout>): (rows: seq<ReportRow>)
    requires |qls| == |xs| && |ils| == |xs|
    requires forall i :: 0 <= i < |xs| ==> FitsLayout(qls[i]) && FitsLayout(ils[i])
    ensures |rows| == |xs|
  {
    seq(|xs|, i requires 0 <= i < |xs| => RenderRow(xs[i], qls[i], ils[i]))
  }

  lemma RenderedSide(s: Side, lay: Layout)
    requires WellFormedSide(s) && FitsLayout(lay)
    ensures '|' !in RenderSide(s, lay)
    ensures SideOf(RenderSide(s, lay)) == Some(s)
  {
    PaddedAvoids(Fields(s), lay.gaps, '|');
    TokensOfPadded(lay.lead, Fields(s), lay.gaps);
  }

  lemma RenderedRow(x: Interaction, q: Layout, i: Layout)
    requires WellFormedSide(x.qc) && WellFormedSide(x.ic) && FitsLayout(q) && FitsLayout(i)
    ensures Decompose(RenderRow(x, q, i)) == Some(x.(icMapResNum := "0"))
  {
    RenderedSide(x.qc, q);
    RenderedSide(x.ic, i);
    SplitJoin([RenderSide(x.qc, q), RenderSide(x.ic, i), ""], '|');
  }

  /**
   * A report made of a preamble without the header, the header row and N >= 1
   * rows written from well-formed records, each half padded in its own way,
   * parses back to exactly those N records, in order, with every field present.
   */
  lemma ParseRenderedReport(preamble: seq<ReportRow>, header: ReportRow, xs: seq<Interaction>,
                            qls: seq<Layout>, ils: seq<Layout>)
    requires forall i :: 0 <= i < |preamble| ==> preamble[i].text != HeaderMarker
    requires header.text == HeaderMarker
    requires xs != [] && |qls| == |xs| && |ils| == |xs|
    requires forall i :: 0 <= i < |xs| ==> FitsLayout(qls[i]) && FitsLayout(ils[i])
    requires forall i :: 0 <= i < |xs| ==> WellFormedSide(xs[i].qc) && WellFormedSide(xs[i].ic)
    ensures ParseRows(preamble + [header] + RenderRows(xs, qls, ils))
            == Ok(seq(|xs|, i requires 0 <= i < |xs| => xs[i].(icMapResNum := "0")))
  {
    var data := RenderRows(xs, qls, ils);
    HeaderAt(preamble, header, data);
    assert (preamble + [header] + data)[|preamble| + 1..] == data;
    DecomposeRendered(xs, qls, ils);
  }

  /** The written data rows decompose back to their records. */
  lemma DecomposeRendered(xs: seq<Interaction>, qls: seq<Layout>, ils: seq<Layout>)
    requires xs != [] && |qls| == |xs| && |ils| == |xs|
    requires forall i :: 0 <= i < |xs| ==> FitsLayout(qls[i]) && FitsLayout(ils[i])
    requires forall i :: 0 <= i < |xs| ==> WellFormedSide(xs[i].qc) && WellFormedSide(xs[i].ic)
    ensures DecomposeAll(RenderRows(xs, qls, ils)) == Ok(seq(|xs|, i requires 0 <= i < |xs| => xs[i].(icMapResNum := "0")))
  {
    var data := RenderRows(xs, qls, ils);
    forall i | 0 <= i < |xs| ensures Decompose(data[i]) == Some(xs[i].(icMapResNum := "0")) {
      RenderedRow(xs[i], qls[i], ils[i]);
    }
    var r := DecomposeAll(data);
    assert r.Ok?;
    assert r.value == seq(|xs|, i requires 0 <= i < |xs| => xs[i].(icMapResNum := "0"));
  }

  /** A report whose header is its last row has no interactions to parse. */
  lemma HeaderOnlyReport(preamble: seq<ReportRow>, header: ReportRow)
    requires forall i :: 0 <= i < |preamble| ==> preamble[i].text != HeaderMarker
    requires header.text == HeaderMarker
    ensures ParseRows(preamble + [header]) == Err(NoInteractions)
  {
    HeaderAt(preamble, header, []);
    assert preamble + [header] + [] == preamble + [header];
  }

  lemma {:induction false} HeaderAt(preamble: seq<ReportRow>, header: ReportRow, data: seq<ReportRow>)
    requires forall i :: 0 <= i < |preamble| ==> preamble[i].text != HeaderMarker
    requires header.text == HeaderMarker
    ensures HeaderIndex(preamble + [header] + data) == Some(|preamble|)
  {
    var rows := preamble + [header] + data;
    assert rows[|preamble|] == header;
    assert forall i :: 0 <= i < |preamble| ==> rows[i] == preamble[i];
  }
}
