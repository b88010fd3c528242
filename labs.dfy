/** The lab-history upload handler (app.py lines 84-88): the parsed CSV rows are sorted by
    timestamp, then four score columns are added, each the result of one calculator applied to
    the fields of one row. */
module LabHistory {
  import opened Optional
  import opened Scores
  import opened Sorting

  /** One parsed row of the lab-history table. A missing cell is `None`. `hasT2d` is the
      number in the `has_t2d` column; the handler passes `bool(has_t2d)`, that is `hasT2d != 0`,
      to `nfs`. The fasting glucose and insulin columns are read with `Series.get`, which also
      yields `None` when the column is absent. */
  datatype LabRow = LabRow(
    timestamp: int,
    age: Option<real>,
    ast: Option<real>,
    alt: Option<real>,
    platelets: Option<real>,
    albumin: Option<real>,
    bmi: Option<real>,
    hasT2d: real,
    glucose: Option<real>,
    insulin: Option<real>,
    a1c: Option<real>)

  /** The sort key of the table. */
  function Timestamp(r: LabRow): int
  {
    r.timestamp
  }

  /** A row with the four columns the handler adds: `FIB4`, `NFS`, `HOMA_IR` and `eAG_mg_dl`. */
  datatype ScoredRow = ScoredRow(row: LabRow, fib4: Option<real>, nfs: Option<real>,
                                 homaIr: Option<real>, eag: Option<real>)

  /** The NAFLD fibrosis score of the row can be evaluated: when its six inputs are present its
      ALT is not zero. */
  predicate Scorable(r: LabRow)
  {
    NfsDefined(r.age, r.bmi, r.ast, r.alt, r.platelets, r.albumin)
  }

  /** The four per-row `apply` calls: the four scores of one row, computed from that row's own
      fields and nothing else. Each score is missing exactly when its own calculator's inputs
      are; a blank cell in one score's inputs leaves the others alone. */
  function ScoreRow(r: LabRow, sqrt: SquareRoot): (s: ScoredRow)
    requires Scorable(r)
    ensures s.row == r
    ensures s.fib4.None? <==>
              r.age.None? || r.ast.None? || r.alt.None? || r.platelets.None?
              || r.alt.value <= 0.0 || r.platelets.value <= 0.0
    ensures s.nfs.None? <==> NfsInputMissing(r.age, r.bmi, r.ast, r.alt, r.platelets, r.albumin)
    ensures s.homaIr.None? <==> r.glucose.None? || r.insulin.None?
    ensures s.eag.None? <==> r.a1c.None?
  {
    ScoredRow(r,
              Fib4(r.age, r.ast, r.alt, r.platelets, sqrt),
              Nfs(r.age, r.bmi, r.hasT2d != 0.0, r.ast, r.alt, r.platelets, r.albumin),
              HomaIr(r.glucose, r.insulin),
              Eag(r.a1c))
  }

  /** The original rows of a scored table, in table order. */
  function Rows(table: seq<ScoredRow>): (rows: seq<LabRow>)
    ensures |rows| == |table|
    ensures forall i :: 0 <= i < |table| ==> rows[i] == table[i].row
  {
    seq(|table|, i requires 0 <= i < |table| => table[i].row)
  }

  /** What the handler promises: `table` holds exactly the input rows, none dropped and none
      added, in ascending timestamp order, and each row carries the scores of that row alone. */
  ghost predicate IsScoredHistory(rows: seq<LabRow>, table: seq<ScoredRow>, sqrt: SquareRoot)
  {
    multiset(Rows(table)) == multiset(rows)
    && SortedBy(Rows(table), Timestamp)
    && forall i :: 0 <= i < |table| ==> Scorable(table[i].row) && table[i] == ScoreRow(table[i].row, sqrt)
  }

  /** Sorts the rows by timestamp, then adds the score columns. */
  method ProcessLabHistory(rows: seq<LabRow>, sqrt: SquareRoot) returns (table: seq<ScoredRow>)
    requires forall r | r in rows :: Scorable(r)
    ensures |table| == |rows|
    ensures IsScoredHistory(rows, table, sqrt)
  {
    var labs := new LabRow[|rows|](i requires 0 <= i < |rows| => rows[i]);
    assert labs[..] == rows;
    SortByKey(labs, Timestamp);
    var sorted := labs[..];
    forall k | 0 <= k < |sorted| ensures Scorable(sorted[k]) {
      assert sorted[k] in multiset(sorted);
    }
    table := AddScoreColumns(sorted, sqrt);
    assert Rows(table) == sorted;
  }

  /** Builds the `FIB4`, `NFS`, `HOMA_IR` and `eAG_mg_dl` columns one row at a time and returns
      the rows with their scores: row `k` of the result is row `k` of the input with the scores
      of that row alone. */
  method AddScoreColumns(labs: seq<LabRow>, sqrt: SquareRoot) returns (table: seq<ScoredRow>)
    requires forall k :: 0 <= k < |labs| ==> Scorable(labs[k])
    ensures |table| == |labs|
    ensures forall k :: 0 <= k < |labs| ==> table[k] == ScoreRow(labs[k], sqrt)
  {
    var fib4, nfs, homaIr, eag := [], [], [], [];
    for i := 0 to |labs|
      invariant |fib4| == |nfs| == |homaIr| == |eag| == i
      invariant forall k :: 0 <= k < i ==>
        ScoreRow(labs[k], sqrt) == ScoredRow(labs[k], fib4[k], nfs[k], homaIr[k], eag[k])
    {
      var r := labs[i];
      fib4 := fib4 + [Fib4(r.age, r.ast, r.alt, r.platelets, sqrt)];
      nfs := nfs + [Nfs(r.age, r.bmi, r.hasT2d != 0.0, r.ast, r.alt, r.platelets, r.albumin)];
      homaIr := homaIr + [HomaIr(r.glucose, r.insulin)];
      eag := eag + [Eag(r.a1c)];
    }
    table := seq(|labs|, k requires 0 <= k < |labs| =>
                   ScoredRow(labs[k], fib4[k], nfs[k], homaIr[k], eag[k]));
  }

  /** The result does not depend on the order in which the rows arrived: two inputs holding the
      same rows, in which rows with equal timestamps are equal, give the same table. */
  lemma ScoredHistoryOrderIndependent(rows1: seq<LabRow>, rows2: seq<LabRow>,
                                      table1: seq<ScoredRow>, table2: seq<ScoredRow>, sqrt: SquareRoot)
    requires multiset(rows1) == multiset(rows2)
    requires KeyIdentifies(rows1, Timestamp)
    requires IsScoredHistory(rows1, table1, sqrt) && IsScoredHistory(rows2, table2, sqrt)
    ensures table1 == table2
  {
    var s, t := Rows(table1), Rows(table2);
    assert KeyIdentifies(s, Timestamp) by {
      forall x | x in s ensures x in rows1 {
        assert x in multiset(s);
      }
    }
    SortedPermutationUnique(s, t, Timestamp);
    assert |table1| == |s| == |t| == |table2|;
    forall i | 0 <= i < |table1| ensures table1[i] == table2[i] {
      assert table1[i].row == s[i] == t[i] == table2[i].row;
    }
  }

  /** A row whose ALT is missing has no FIB-4 and no NAFLD fibrosis score, but keeps its
      HOMA-IR and eAG whenever their own inputs are present: partiality is per score, not
      per row. */
  lemma MissingAltOnlyAffectsLiverScores(r: LabRow, sqrt: SquareRoot)
    requires r.alt.None?
    ensures var s := ScoreRow(r, sqrt);
            s.fib4.None? && s.nfs.None?
            && (s.homaIr.Some? <==> r.glucose.Some? && r.insulin.Some?)
            && (s.eag.Some? <==> r.a1c.Some?)
  {
  }
}
