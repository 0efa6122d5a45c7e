/**
 * The FASTA length filter: every record whose sequence is longer than 450
 * residues is written to the output file as a header line `>id` followed by
 * the sequence on one line; shorter records are dropped.
 */
module FastaFilter {
  import opened Text

  /** A parsed FASTA record: its identifier and its residues. */
  datatype SeqRecord = SeqRecord(id: string, sequence: string)

  /** Records must be strictly longer than this to be kept. */
  const MinLength: nat := 450

  predicate Long(r: SeqRecord)
  {
    |r.sequence| > MinLength
  }

  /** The records the filter keeps, in input order. */
  function Kept(rs: seq<SeqRecord>): (kept: seq<SeqRecord>)
    ensures |kept| <= |rs|
    decreases |rs|
  {
    if rs == [] then []
    else if Long(rs[0]) then [rs[0]] + Kept(rs[1..])
    else Kept(rs[1..])
  }

  /** One record in FASTA form: `>`, the id, a newline, the sequence, a newline. */
  function Entry(r: SeqRecord): (e: string)
    ensures |e| == |r.id| + |r.sequence| + 3
    ensures e[0] == '>' && e[|r.id| + 1] == '\n' && e[|e| - 1] == '\n'
  {
    ">" + r.id + "\n" + r.sequence + "\n"
  }

  /** The records in FASTA form, one after the other. */
  function Fasta(rs: seq<SeqRecord>): (text: string)
    ensures text == [] <==> rs == []
    ensures rs != [] ==> text[0] == '>'
    decreases |rs|
  {
    if rs == [] then "" else Entry(rs[0]) + Fasta(rs[1..])
  }

  /** The open output file: everything written to it so far. */
  class FastaWriter {
    var written: string

    constructor ()
      ensures written == ""
    {
      written := "";
    }

    /** `file.write(s)`: appends s. */
    method Write(s: string)
      modifies this
      ensures written == old(written) + s
    {
      written := written + s;
    }
  }

  /** The filter loop: each long record is written as a FASTA entry, in order. */
  method FilterRecords(records: seq<SeqRecord>, out: FastaWriter)
    modifies out
    ensures out.written == old(out.written) + Fasta(Kept(records))
  {
    ghost var start := out.written;
    for i := 0 to |records|
      invariant out.written == start + Fasta(Kept(records[..i]))
    {
      FilterRecord(records[i], out);
      WrittenStep(records, i);
      AppendAssoc(start, Fasta(Kept(records[..i])), Fasta(Kept([records[i]])));
    }
    assert records[..|records|] == records;
  }

  /** The loop body for one record: written in FASTA form when longer than 450, skipped otherwise. */
  method FilterRecord(record: SeqRecord, out: FastaWriter)
    modifies out
    ensures out.written == old(out.written) + Fasta(Kept([record]))
  {
    var length := |record.sequence|;
    if length > MinLength {
      WriteEntry(record, out);
      assert Fasta([record]) == Entry(record) + Fasta([]);
    }
  }

  /**
   * String associativity, stated only to help the solver in FilterRecords'
   * loop: called there, it keeps that proof cheap. It models nothing in the source.
   */
  lemma AppendAssoc(a: string, b: string, c: string)
    ensures (a + b) + c == a + (b + c)
  {
  }

  /** The four writes for one kept record: header line, then sequence line. */
  method WriteEntry(record: SeqRecord, out: FastaWriter)
    modifies out
    ensures out.written == old(out.written) + Entry(record)
  {
    out.Write(">" + record.id);
    out.Write("\n");
    out.Write(record.sequence);
    out.Write("\n");
  }

  /** The output after i + 1 records extends the output after i by the (i+1)-th record's entry, if kept. */
  lemma WrittenStep(records: seq<SeqRecord>, i: nat)
    requires i < |records|
    ensures Fasta(Kept(records[..i + 1])) == Fasta(Kept(records[..i])) + Fasta(Kept([records[i]]))
  {
    var record := records[i];
    assert records[..i + 1] == records[..i] + [record];
    KeptAppend(records[..i], [record]);
    FastaAppend(Kept(records[..i]), Kept([record]));
  }

  // ---------------------------------------------------------------------------
  // Properties of the filter

  /** A record is kept exactly when it occurs and is longer than 450; one of exactly 450 is dropped. */
  lemma {:induction false} KeptMembership(rs: seq<SeqRecord>, r: SeqRecord)
    ensures r in Kept(rs) <==> r in rs && |r.sequence| > MinLength
    decreases |rs|
  {
    if rs != [] {
      KeptMembership(rs[1..], r);
      assert rs == [rs[0]] + rs[1..];
    }
  }

  /** Filtering a concatenation filters each part: kept records keep their input order. */
  lemma {:induction false} KeptAppend(a: seq<SeqRecord>, b: seq<SeqRecord>)
    ensures Kept(a + b) == Kept(a) + Kept(b)
    decreases |a|
  {
    if a == [] {
      assert a + b == b;
    } else {
      KeptAppend(a[1..], b);
      assert (a + b)[0] == a[0] && (a + b)[1..] == a[1..] + b;
      if Long(a[0]) {
        assert Kept(a + b) == [a[0]] + Kept(a[1..] + b);
        assert Kept(a) == [a[0]] + Kept(a[1..]);
      } else {
        assert Kept(a + b) == Kept(a[1..] + b);
      }
    }
  }

  /** Filtering the output of the filter changes nothing. */
  lemma {:induction false} KeptIdempotent(rs: seq<SeqRecord>)
    ensures Kept(Kept(rs)) == Kept(rs)
    decreases |rs|
  {
    if rs != [] {
      KeptIdempotent(rs[1..]);
      if Long(rs[0]) {
        assert ([rs[0]] + Kept(rs[1..]))[1..] == Kept(rs[1..]);
      }
    }
  }

  lemma {:induction false} FastaAppend(a: seq<SeqRecord>, b: seq<SeqRecord>)
    ensures Fasta(a + b) == Fasta(a) + Fasta(b)
    decreases |a|
  {
    if a == [] {
      assert a + b == b;
    } else {
      FastaAppend(a[1..], b);
      assert (a + b)[0] == a[0] && (a + b)[1..] == a[1..] + b;
      var e, x, y := Entry(a[0]), Fasta(a[1..]), Fasta(b);
      assert Fasta(a + b) == e + (x + y);
      assert Fasta(a) == e + x;
      assert e + (x + y) == (e + x) + y;
    }
  }

  /** The size of the FASTA form of each record: its id, its sequence and three fixed characters. */
  function EntrySizes(rs: seq<SeqRecord>): nat
    decreases |rs|
  {
    if rs == [] then 0 else |rs[0].id| + |rs[0].sequence| + 3 + EntrySizes(rs[1..])
  }

  /** The output is exactly as long as the kept records' ids and sequences plus three characters each. */
  lemma {:induction false} FastaLength(rs: seq<SeqRecord>)
    ensures |Fasta(rs)| == EntrySizes(rs)
    decreases |rs|
  {
    if rs != [] {
      FastaLength(rs[1..]);
    }
  }

  /** The lines of the output: a `>id` header and the sequence for every record, then the empty tail. */
  function FastaLines(rs: seq<SeqRecord>): seq<string>
    decreases |rs|
  {
    if rs == [] then [""] else [">" + rs[0].id, rs[0].sequence] + FastaLines(rs[1..])
  }

  /**
   * When no id or sequence contains a newline, splitting the output into lines
   * gives back every record's header and sequence, in order.
   */
  lemma {:induction false} FastaReadsBack(rs: seq<SeqRecord>)
    requires forall i :: 0 <= i < |rs| ==> '\n' !in rs[i].id && '\n' !in rs[i].sequence
    ensures Split(Fasta(rs), '\n') == FastaLines(rs)
    decreases |rs|
  {
    if rs != [] {
      var r := rs[0];
      var rest := Fasta(rs[1..]);
      FastaReadsBack(rs[1..]);
      assert Fasta(rs) == (">" + r.id) + ['\n'] + (r.sequence + ['\n'] + rest);
      SplitPrefix(">" + r.id, r.sequence + ['\n'] + rest, '\n');
      SplitPrefix(r.sequence, rest, '\n');
    }
  }
}
