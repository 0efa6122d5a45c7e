/**
 * The alignment lookup table (`make_lut`): for every variant row of a
 * multiple sequence alignment, the variant's own 1-based residue number at
 * each column of the consensus row.
 *
 * Row 0 is the consensus; only its length L is used. Each variant row is
 * walked left to right with a counter that advances on letters and on the
 * identity marker `.`; every other character (the gap `-` among them)
 * neither advances the counter nor writes a cell, which stays undefined
 * (NaN in the source, `None` here). Finally 1 is added to every defined cell.
 */
module Alignment {
  import opened Wrappers

  /** One line of the alignment file: the sequence name and its aligned characters. */
  datatype MsaRow = MsaRow(name: string, sequence: string)

  datatype LutError =
    | MissingConsensus    // the alignment has no row 0
    | RowOverrun(row: nat) // a counted character of this row lies past the consensus length

  /** One column of the table, indexed by consensus position (0-based index, 1-based value). */
  type Column = seq<Option<int>>

  /** The table, column by column; the consensus numbering is the column named "consensus". */
  type Table = map<string, Column>

  const ConsensusName: string := "consensus"

  predicate IsAlpha(c: char) { 'A' <= c <= 'Z' || 'a' <= c <= 'z' }

  /** The characters on which the per-variant counter advances: a letter or `.`. */
  predicate Advances(c: char) { IsAlpha(c) || c == '.' }

  /** Number of advancing characters in `s`. */
  function Count(s: string): (n: nat)
    ensures n <= |s|
  {
    if s == [] then 0 else Count(s[..|s| - 1]) + (if Advances(s[|s| - 1]) then 1 else 0)
  }

  /** No character of `s` at or past column L would make the walk write a cell. */
  predicate Fits(s: string, L: nat)
  {
    forall m :: L <= m < |s| ==> !Advances(s[m])
  }

  /** `consensus_order`: 0, 1, ..., L-1. */
  function ConsensusOrder(L: nat): Column
  {
    seq(L, i requires 0 <= i < L => Some(i))
  }

  /** The cells the walk writes for a variant sequence, before the final `+ 1`. */
  function RawColumn(s: string, L: nat): (col: Column)
    ensures |col| == L
  {
    seq(L, m requires 0 <= m < L => if m < |s| && Advances(s[m]) then Some(Count(s[..m]) as int) else None)
  }

  /** `col + 1` on a column: defined cells grow by one, undefined cells stay undefined. */
  function Shift(col: Column): Column
  {
    seq(|col|, i requires 0 <= i < |col| => match col[i] case Some(v) => Some(v + 1) case None => None)
  }

  /** `lut += 1` over every column of the table. */
  function PlusOne(t: Table): Table
  {
    map k | k in t :: Shift(t[k])
  }

  /** The column make_lut returns for a variant sequence against a consensus of length L. */
  function VariantColumn(s: string, L: nat): Column
  {
    Shift(RawColumn(s, L))
  }

  /** The table after rows 1 .. k-1 have been walked, or the first overrun among them. */
  function Walk(msa: seq<MsaRow>, L: nat, k: nat): (r: Result<Table, LutError>)
    requires 1 <= k <= |msa|
    ensures r.Err? ==> r.error.RowOverrun? && 1 <= r.error.row < k && !Fits(msa[r.error.row].sequence, L)
    ensures r.Ok? ==> ConsensusName in r.value
    decreases k
  {
    if k == 1 then Ok(map[ConsensusName := ConsensusOrder(L)])
    else
      match Walk(msa, L, k - 1)
      case Err(e) => Err(e)
      case Ok(t) =>
        var row := msa[k - 1];
        if Fits(row.sequence, L) then Ok(t[row.name := RawColumn(row.sequence, L)])
        else Err(RowOverrun(k - 1))
  }

  /** What make_lut returns for an alignment. */
  function Lut(msa: seq<MsaRow>): (r: Result<Table, LutError>)
    ensures r == Err(MissingConsensus) <==> |msa| == 0
    ensures r.Err? && r.error.RowOverrun? ==>
              1 <= r.error.row < |msa| && !Fits(msa[r.error.row].sequence, |msa[0].sequence|)
    ensures r.Ok? ==> ConsensusName in r.value
  {
    if |msa| == 0 then Err(MissingConsensus)
    else
      match Walk(msa, |msa[0].sequence|, |msa|)
      case Err(e) => Err(e)
      case Ok(t) => Ok(PlusOne(t))
  }

  /**
   * The inner walk over one variant row: the counter starts at 0, each letter
   * or `.` writes the counter into its column and advances it, and any other
   * character is skipped. Writing at a column past the consensus length fails.
   */
  method WalkVariant(s: string, L: nat) returns (fits: bool, col: Column)
    ensures fits == Fits(s, L)
    ensures fits ==> col == RawColumn(s, L)
  {
    var cells := new Option<int>[L](_ => None);
    var count := 0;
    for m := 0 to |s|
      invariant count == Count(s[..m])
      invariant forall k :: L <= k < m ==> !Advances(s[k])
      invariant forall k :: 0 <= k < L ==>
                  cells[k] == if k < m && Advances(s[k]) then Some(Count(s[..k]) as int) else None
    {
      assert s[..m + 1][..m] == s[..m];
      if IsAlpha(s[m]) {
        // a point mutation
        if m >= L {
          return false, [];
        }
        cells[m] := Some(count);
        count := count + 1;
      } else if s[m] == '.' {
        // same residue as the consensus
        if m >= L {
          return false, [];
        }
        cells[m] := Some(count);
        count := count + 1;
      } else if s[m] == '-' {
        // a deletion
        continue;
      }
    }
    fits, col := true, cells[..];
  }

  /** make_lut: the table for an alignment whose row 0 is the consensus. */
  method MakeLut(msa: seq<MsaRow>) returns (r: Result<Table, LutError>)
    ensures r == Lut(msa)
  {
    if |msa| == 0 {
      return Err(MissingConsensus);
    }
    var L := |msa[0].sequence|;
    var lut: Table := map[ConsensusName := ConsensusOrder(L)];
    var p := 1;
    while p <= |msa| - 1
      invariant 1 <= p <= |msa|
      invariant Walk(msa, L, p) == Ok(lut)
    {
      var variant := msa[p].name;
      var fits, col := WalkVariant(msa[p].sequence, L);
      if !fits {
        OverrunPropagates(msa, L, p, |msa|);
        return Err(RowOverrun(p));
      }
      lut := lut[variant := col];
      p := p + 1;
    }
    r := Ok(PlusOne(lut));
  }

  // ---------------------------------------------------------------------------
  // The counter

  lemma {:induction false} CountStep(s: string, m: nat)
    requires m < |s|
    ensures Count(s[..m + 1]) == Count(s[..m]) + (if Advances(s[m]) then 1 else 0)
  {
    assert s[..m + 1][..m] == s[..m];
  }

  /** Characters that do not advance leave the counter where it was. */
  lemma {:induction false} CountGap(s: string, i: nat, j: nat)
    requires i <= j <= |s|
    requires forall k :: i <= k < j ==> !Advances(s[k])
    ensures Count(s[..j]) == Count(s[..i])
    decreases j - i
  {
    if i < j {
      CountGap(s, i, j - 1);
      CountStep(s, j - 1);
    }
  }

  /** An advancing character at i puts every later prefix count above the count before i. */
  lemma {:induction false} CountGrows(s: string, i: nat, j: nat)
    requires i < j <= |s| && Advances(s[i])
    ensures Count(s[..j]) >= Count(s[..i]) + 1
    decreases j - i
  {
    if j == i + 1 {
      CountStep(s, i);
    } else {
      CountGrows(s, i, j - 1);
      CountStep(s, j - 1);
    }
  }

  /** Every count below the total is the count just before some advancing character. */
  lemma {:induction false} CountReached(s: string, v: nat)
    requires v < Count(s)
    ensures exists m :: 0 <= m < |s| && Advances(s[m]) && Count(s[..m]) == v
    decreases |s|
  {
    var n := |s| - 1;
    var init := s[..n];
    if v < Count(init) {
      CountReached(init, v);
      var m :| 0 <= m < |init| && Advances(init[m]) && Count(init[..m]) == v;
      assert init[..m] == s[..m];
    } else {
      assert Advances(s[n]) && Count(s[..n]) == v;
    }
  }

  /** On a row made only of advancing characters the counter is the column index. */
  lemma {:induction false} CountAllAdvancing(s: string, m: nat)
    requires m <= |s|
    requires forall k :: 0 <= k < |s| ==> Advances(s[k])
    ensures Count(s[..m]) == m
  {
    if m > 0 {
      CountAllAdvancing(s, m - 1);
      CountStep(s, m - 1);
    }
  }

  // ---------------------------------------------------------------------------
  // Properties of one variant column

  /** Defined cells are strictly increasing from left to right. */
  ghost predicate StrictlyIncreasing(col: Column)
  {
    forall i, j :: 0 <= i < j < |col| && col[i].Some? && col[j].Some? ==> col[i].value < col[j].value
  }

  /** Consecutive defined cells, with only undefined cells between them, differ by exactly 1. */
  ghost predicate GapFree(col: Column)
  {
    forall i, j ::
      (0 <= i < j < |col| && col[i].Some? && col[j].Some? && forall k :: i < k < j ==> col[k].None?)
      ==> col[j].value == col[i].value + 1
  }

  /**
   * Cell m of a variant column holds 1 + the number of advancing characters
   * strictly before m when the character at m advances, and is undefined
   * otherwise, including every cell past the end of a shorter row.
   */
  lemma ColumnCell(s: string, L: nat, m: nat)
    requires m < L
    ensures |VariantColumn(s, L)| == L
    ensures VariantColumn(s, L)[m] ==
              if m < |s| && Advances(s[m]) then Some(1 + Count(s[..m])) else None
    ensures |s| <= m ==> VariantColumn(s, L)[m].None?
  {
  }

  /** A variant column numbers the residues in increasing order, without skipping any. */
  lemma VariantColumnOrdered(s: string, L: nat)
    ensures StrictlyIncreasing(VariantColumn(s, L))
    ensures GapFree(VariantColumn(s, L))
  {
    var col := VariantColumn(s, L);
    forall i, j | 0 <= i < j < |col| && col[i].Some? && col[j].Some?
      ensures col[i].value < col[j].value
    {
      CountGrows(s, i, j);
    }
    forall i, j | 0 <= i < j < |col| && col[i].Some? && col[j].Some? &&
        (forall k :: i < k < j ==> col[k].None?)
      ensures col[j].value == col[i].value + 1
    {
      CountStep(s, i);
      forall k | i + 1 <= k < j ensures !Advances(s[k]) {
        assert col[k].None?;
      }
      CountGap(s, i + 1, j);
    }
  }

  /**
   * When the row fits, the defined cells of its column are exactly 1 .. Count(s):
   * the largest is the number of non-gap characters of the row.
   */
  lemma VariantColumnValues(s: string, L: nat, v: int)
    requires Fits(s, L)
    ensures (exists m :: 0 <= m < L && VariantColumn(s, L)[m] == Some(v)) <==> 1 <= v <= Count(s)
  {
    if exists m :: 0 <= m < L && VariantColumn(s, L)[m] == Some(v) {
      var m :| 0 <= m < L && VariantColumn(s, L)[m] == Some(v);
      CellWithinCount(s, L, m, v);
    }
    if 1 <= v <= Count(s) {
      CountWritten(s, L, v);
    }
  }

  /** Every value in a variant column lies in 1 .. the number of letters and `.` of the row. */
  lemma CellWithinCount(s: string, L: nat, m: nat, v: int)
    requires m < L && VariantColumn(s, L)[m] == Some(v)
    ensures 1 <= v <= Count(s)
  {
    ColumnCell(s, L, m);
    assert s[..|s|] == s;
    CountGrows(s, m, |s|);
  }

  /** When the row fits, every value in 1 .. its count appears in its column. */
  lemma CountWritten(s: string, L: nat, v: int)
    requires Fits(s, L) && 1 <= v <= Count(s)
    ensures exists m :: 0 <= m < L && VariantColumn(s, L)[m] == Some(v)
  {
    CountReached(s, v - 1);
    var m :| 0 <= m < |s| && Advances(s[m]) && Count(s[..m]) == v - 1;
    ColumnCell(s, L, m);
  }

  /** A variant row without gaps, as long as the consensus, maps to the identity 1 .. L. */
  lemma GapFreeRowIsIdentity(s: string, L: nat)
    requires |s| == L
    requires forall k :: 0 <= k < |s| ==> Advances(s[k])
    ensures VariantColumn(s, L) == seq(L, i requires 0 <= i < L => Some(i + 1))
  {
    forall m | 0 <= m < L ensures VariantColumn(s, L)[m] == Some(m + 1) {
      CountAllAdvancing(s, m);
    }
  }

  // ---------------------------------------------------------------------------
  // Properties of the whole table

  lemma {:induction false} OverrunPropagates(msa: seq<MsaRow>, L: nat, p: nat, k: nat)
    requires 1 <= p < k <= |msa|
    requires Walk(msa, L, p).Ok? && !Fits(msa[p].sequence, L)
    ensures Walk(msa, L, k) == Err(RowOverrun(p))
    decreases k
  {
    if k > p + 1 {
      OverrunPropagates(msa, L, p, k - 1);
    }
  }

  lemma {:induction false} WalkOutcome(msa: seq<MsaRow>, L: nat, k: nat)
    requires 1 <= k <= |msa|
    ensures Walk(msa, L, k).Ok? <==> forall p :: 1 <= p < k ==> Fits(msa[p].sequence, L)
    ensures forall p: nat :: Walk(msa, L, k) == Err(RowOverrun(p)) <==>
              1 <= p < k && !Fits(msa[p].sequence, L) && forall q :: 1 <= q < p ==> Fits(msa[q].sequence, L)
    ensures Walk(msa, L, k) != Err(MissingConsensus)
    decreases k
  {
    if k > 1 {
      WalkOutcome(msa, L, k - 1);
    }
  }

  /**
   * make_lut fails exactly when the alignment is empty, or with the first
   * variant row that has a counted character at or past the consensus length.
   */
  lemma LutOutcome(msa: seq<MsaRow>)
    ensures Lut(msa) == Err(MissingConsensus) <==> |msa| == 0
    ensures |msa| > 0 ==>
              (Lut(msa).Ok? <==> forall p :: 1 <= p < |msa| ==> Fits(msa[p].sequence, |msa[0].sequence|))
    ensures forall p: nat :: Lut(msa) == Err(RowOverrun(p)) <==>
              1 <= p < |msa| && !Fits(msa[p].sequence, |msa[0].sequence|) &&
              forall q :: 1 <= q < p ==> Fits(msa[q].sequence, |msa[0].sequence|)
  {
    if |msa| > 0 {
      WalkOutcome(msa, |msa[0].sequence|, |msa|);
    }
  }

  lemma {:induction false} WalkTable(msa: seq<MsaRow>, L: nat, k: nat, t: Table)
    requires 1 <= k <= |msa| && Walk(msa, L, k) == Ok(t)
    ensures t.Keys == {ConsensusName} + set p | 1 <= p < k :: msa[p].name
    ensures forall n :: n in t ==> |t[n]| == L
    ensures (forall p :: 1 <= p < k ==> msa[p].name != ConsensusName) ==> t[ConsensusName] == ConsensusOrder(L)
    ensures forall p :: 1 <= p < k && (forall q :: p < q < k ==> msa[q].name != msa[p].name) ==>
              t[msa[p].name] == RawColumn(msa[p].sequence, L)
  {
    WalkKeys(msa, L, k, t);
    WalkLengths(msa, L, k, t);
    WalkConsensus(msa, L, k, t);
    WalkColumns(msa, L, k, t);
  }

  lemma {:induction false} WalkKeys(msa: seq<MsaRow>, L: nat, k: nat, t: Table)
    requires 1 <= k <= |msa| && Walk(msa, L, k) == Ok(t)
    ensures t.Keys == {ConsensusName} + set p | 1 <= p < k :: msa[p].name
    decreases k
  {
    if k > 1 {
      var t' := Walk(msa, L, k - 1).value;
      WalkKeys(msa, L, k - 1, t');
      var names := set p | 1 <= p < k :: msa[p].name;
      var names' := set p | 1 <= p < k - 1 :: msa[p].name;
      assert names == names' + {msa[k - 1].name};
    }
  }

  lemma {:induction false} WalkLengths(msa: seq<MsaRow>, L: nat, k: nat, t: Table)
    requires 1 <= k <= |msa| && Walk(msa, L, k) == Ok(t)
    ensures forall n :: n in t ==> |t[n]| == L
    decreases k
  {
    if k > 1 {
      WalkLengths(msa, L, k - 1, Walk(msa, L, k - 1).value);
    }
  }

  lemma {:induction false} WalkConsensus(msa: seq<MsaRow>, L: nat, k: nat, t: Table)
    requires 1 <= k <= |msa| && Walk(msa, L, k) == Ok(t)
    ensures ConsensusName in t
    ensures (forall p :: 1 <= p < k ==> msa[p].name != ConsensusName) ==> t[ConsensusName] == ConsensusOrder(L)
    decreases k
  {
    if k > 1 {
      WalkConsensus(msa, L, k - 1, Walk(msa, L, k - 1).value);
    }
  }

  lemma {:induction false} WalkColumns(msa: seq<MsaRow>, L: nat, k: nat, t: Table)
    requires 1 <= k <= |msa| && Walk(msa, L, k) == Ok(t)
    ensures forall p :: 1 <= p < k && (forall q :: p < q < k ==> msa[q].name != msa[p].name) ==>
              msa[p].name in t && t[msa[p].name] == RawColumn(msa[p].sequence, L)
    decreases k
  {
    if k > 1 {
      var t' := Walk(msa, L, k - 1).value;
      WalkColumns(msa, L, k - 1, t');
      var last := msa[k - 1];
      assert t == t'[last.name := RawColumn(last.sequence, L)];
      forall p | 1 <= p < k && (forall q :: p < q < k ==> msa[q].name != msa[p].name)
        ensures msa[p].name in t && t[msa[p].name] == RawColumn(msa[p].sequence, L)
      {
        if p < k - 1 {
          assert msa[k - 1].name != msa[p].name;
        }
      }
    }
  }

  /**
   * The table has a "consensus" column and one column per variant name (row 0
   * contributes only its length), every column has one cell per consensus
   * position, the consensus column is 1 .. L unless a variant is itself named
   * "consensus", and the column of a name is that of the last row with it.
   */
  lemma LutTable(msa: seq<MsaRow>, t: Table)
    requires Lut(msa) == Ok(t)
    ensures |msa| > 0
    ensures t.Keys == {ConsensusName} + set p | 1 <= p < |msa| :: msa[p].name
    ensures forall n :: n in t ==> |t[n]| == |msa[0].sequence|
    ensures (forall p :: 1 <= p < |msa| ==> msa[p].name != ConsensusName) ==>
              t[ConsensusName] == seq(|msa[0].sequence|, i requires 0 <= i < |msa[0].sequence| => Some(i + 1))
    ensures forall p :: 1 <= p < |msa| && (forall q :: p < q < |msa| ==> msa[q].name != msa[p].name) ==>
              t[msa[p].name] == VariantColumn(msa[p].sequence, |msa[0].sequence|)
  {
    var L := |msa[0].sequence|;
    var raw := Walk(msa, L, |msa|).value;
    WalkTable(msa, L, |msa|, raw);
  }

  lemma {:induction false} WalkIgnoresConsensusRow(msa: seq<MsaRow>, msa': seq<MsaRow>, L: nat, k: nat)
    requires |msa| == |msa'| && 1 <= k <= |msa|
    requires msa[1..] == msa'[1..]
    ensures Walk(msa, L, k) == Walk(msa', L, k)
    decreases k
  {
    if k > 1 {
      WalkIgnoresConsensusRow(msa, msa', L, k - 1);
      assert msa[k - 1] == msa[1..][k - 2] == msa'[k - 1];
    }
  }

  /** Row 0 fixes only the number of table rows: its name and characters are never read. */
  lemma ConsensusOnlyLength(msa: seq<MsaRow>, row0: MsaRow)
    requires |msa| > 0 && |row0.sequence| == |msa[0].sequence|
    ensures Lut([row0] + msa[1..]) == Lut(msa)
  {
    var msa' := [row0] + msa[1..];
    assert msa'[1..] == msa[1..];
    WalkIgnoresConsensusRow(msa, msa', |msa[0].sequence|, |msa|);
  }
}
