/** The report step after the upload loop: `data_total`, the CGE 1 table of
    achievement levels per year and the CGE 2 table of final situations per
    year (minka_analitica.py, lines 59-74). */
module Aggregation {
  import opened Wrappers
  import opened Seqs
  import opened Rows
  import opened Acta
  import opened Accumulation

  // ---------------------------------------------------------------- data_total

  /** `data_total`: every file's records, file after file. */
  function AllRecords(docs: seq<Document>): (rs: seq<Record>)
    ensures forall r :: r in rs ==>
      (r.year == "2023" || r.year == "2024" || r.year == "2025") && (r.sit == NoStatus || IsStatus(r.sit))
  {
    var rs := FlatMap(docs, DocumentRecords);
    assert forall r :: r in rs ==>
      (r.year == "2023" || r.year == "2024" || r.year == "2025") && (r.sit == NoStatus || IsStatus(r.sit)) by {
      forall r | r in rs
        ensures (r.year == "2023" || r.year == "2024" || r.year == "2025") && (r.sit == NoStatus || IsStatus(r.sit))
      {
        var doc :| doc in docs && r in DocumentRecords(doc);
        var i :| 0 <= i < |DocumentRecords(doc)| && DocumentRecords(doc)[i] == r;
      }
    }
    rs
  }

  /** Consolidating two batches one after the other is consolidating their union. */
  lemma AllRecordsAppend(a: seq<Document>, b: seq<Document>)
    ensures AllRecords(a + b) == AllRecords(a) + AllRecords(b)
  {
    FlatMapAppend(a, b, DocumentRecords);
  }

  /** `for f in archivos: data_total.extend(procesar_acta_universal(f))`. */
  method Consolidate(docs: seq<Document>) returns (dataTotal: seq<Record>)
    ensures dataTotal == AllRecords(docs)
  {
    dataTotal := [];
    for i := 0 to |docs|
      invariant dataTotal == AllRecords(docs[..i])
    {
      assert docs[..i + 1][..i] == docs[..i];
      var records := ProcessActa(docs[i]);
      dataTotal := dataTotal + records;
    }
    assert docs[..|docs|] == docs;
  }

  // ---------------------------------------------------------------- pairs

  /** One (AÑO, NIVEL) or (AÑO, SIT) row of the frame that is grouped. */
  type Pair = (string, string)

  /** Each note of one record, tagged with the record's year. */
  function Tag(year: string, notas: seq<string>): seq<Pair>
  {
    if notas == [] then []
    else Tag(year, notas[..|notas| - 1]) + [(year, notas[|notas| - 1])]
  }

  /** Pair k of the tagged notes is the year with note k. */
  lemma {:induction false} TagAt(year: string, notas: seq<string>)
    ensures |Tag(year, notas)| == |notas|
    ensures forall k :: 0 <= k < |notas| ==> Tag(year, notas)[k] == (year, notas[k])
    decreases |notas|
  {
    if notas != [] {
      TagAt(year, notas[..|notas| - 1]);
    }
  }

  /** `notas_list`: every note of every record, tagged with its year, in record order. */
  function NotePairs(data: seq<Record>): seq<Pair>
  {
    if data == [] then []
    else NotePairs(data[..|data| - 1]) + Tag(data[|data| - 1].year, data[|data| - 1].notas)
  }

  /** Each pair of `notas_list` is the year and one note of some record. */
  lemma {:induction false} NotePairsSound(data: seq<Record>)
    ensures forall p :: p in NotePairs(data) ==> exists i :: 0 <= i < |data| && p.0 == data[i].year && p.1 in data[i].notas
    decreases |data|
  {
    if data != [] {
      var init := data[..|data| - 1];
      var last := data[|data| - 1];
      NotePairsSound(init);
      TagAt(last.year, last.notas);
      forall p | p in NotePairs(data)
        ensures exists i :: 0 <= i < |data| && p.0 == data[i].year && p.1 in data[i].notas
      {
        if p in NotePairs(init) {
          var i :| 0 <= i < |init| && p.0 == init[i].year && p.1 in init[i].notas;
          assert data[i] == init[i];
        } else {
          var k :| 0 <= k < |last.notas| && Tag(last.year, last.notas)[k] == p;
          assert p.0 == data[|data| - 1].year && p.1 in data[|data| - 1].notas;
        }
      }
    }
  }

  /** Each note of each record gives a (year, note) pair of `notas_list`. */
  lemma {:induction false} NotePairsComplete(data: seq<Record>)
    ensures forall i, j :: 0 <= i < |data| && 0 <= j < |data[i].notas| ==> (data[i].year, data[i].notas[j]) in NotePairs(data)
    decreases |data|
  {
    if data != [] {
      var init := data[..|data| - 1];
      var last := data[|data| - 1];
      NotePairsComplete(init);
      TagAt(last.year, last.notas);
      forall i, j | 0 <= i < |data| && 0 <= j < |data[i].notas|
        ensures (data[i].year, data[i].notas[j]) in NotePairs(data)
      {
        if i < |init| {
          assert data[i] == init[i];
        } else {
          assert Tag(last.year, last.notas)[j] == (data[i].year, data[i].notas[j]);
        }
      }
    }
  }

  /** The (AÑO, SIT) columns of `df_base`. */
  function StatusPairs(data: seq<Record>): (ps: seq<Pair>)
    ensures |ps| == |data| && forall i :: 0 <= i < |data| ==> ps[i] == (data[i].year, data[i].sit)
  {
    if data == [] then []
    else StatusPairs(data[..|data| - 1]) + [(data[|data| - 1].year, data[|data| - 1].sit)]
  }

  /** The nested append loop that builds `notas_list`. */
  method CollectNotes(data: seq<Record>) returns (notas: seq<Pair>)
    ensures notas == NotePairs(data)
  {
    notas := [];
    for i := 0 to |data|
      invariant notas == NotePairs(data[..i])
    {
      assert data[..i + 1][..i] == data[..i] && data[..i + 1][i] == data[i];
      var reg := data[i];
      for j := 0 to |reg.notas|
        invariant notas == NotePairs(data[..i]) + Tag(reg.year, reg.notas[..j])
      {
        assert reg.notas[..j + 1][..j] == reg.notas[..j] && reg.notas[..j + 1][j] == reg.notas[j];
        notas := notas + [(reg.year, reg.notas[j])];
      }
      assert reg.notas[..|reg.notas|] == reg.notas;
    }
    assert data[..|data|] == data;
  }

  // ---------------------------------------------------------------- tables

  function Firsts(pairs: seq<Pair>): seq<string>
  {
    if pairs == [] then [] else Firsts(pairs[..|pairs| - 1]) + [pairs[|pairs| - 1].0]
  }

  function Seconds(pairs: seq<Pair>): seq<string>
  {
    if pairs == [] then [] else Seconds(pairs[..|pairs| - 1]) + [pairs[|pairs| - 1].1]
  }

  /** `groupby([AÑO, X]).size().unstack(fill_value=0)`: a count for every
      year present and every X present, zero where the pair never occurs. */
  function Pivot(pairs: seq<Pair>): map<Pair, nat>
  {
    var grid := set y, x | y in Firsts(pairs) && x in Seconds(pairs) :: (y, x);
    map k | k in grid :: Count(pairs, k)
  }

  /** A table cell, zero outside the table. */
  function Cell(table: map<Pair, nat>, k: Pair): nat
  {
    if k in table then table[k] else 0
  }

  /** The sum of one year's row over the given columns. */
  function RowSum(table: map<Pair, nat>, y: string, cols: seq<string>): nat
  {
    if cols == [] then 0 else RowSum(table, y, cols[..|cols| - 1]) + Cell(table, (y, cols[|cols| - 1]))
  }

  /** The sum of the table over the given rows and columns. */
  function GridSum(table: map<Pair, nat>, rows: seq<string>, cols: seq<string>): nat
  {
    if rows == [] then 0 else GridSum(table, rows[..|rows| - 1], cols) + RowSum(table, rows[|rows| - 1], cols)
  }

  /** The pairs whose year is y. */
  function WithFirst(pairs: seq<Pair>, y: string): seq<Pair>
  {
    if pairs == [] then []
    else WithFirst(pairs[..|pairs| - 1], y) + (if pairs[|pairs| - 1].0 == y then [pairs[|pairs| - 1]] else [])
  }

  /** The groupby failure on an empty `notas_list`. */
  datatype GroupError = MissingColumn(column: string)

  /** Building `df_cge1`: with no note at all, `pd.DataFrame([])` has no
      AÑO column and the groupby raises; otherwise the pivot. */
  function NoteTable(notas: seq<Pair>): (r: Result<map<Pair, nat>, GroupError>)
    ensures r.Failure? <==> notas == []
    ensures r.Success? ==> forall k :: Cell(r.value, k) == Count(notas, k)
  {
    if notas == [] then Failure(MissingColumn("AÑO"))
    else
      assert forall k :: Cell(Pivot(notas), k) == Count(notas, k) by {
        forall k ensures Cell(Pivot(notas), k) == Count(notas, k) { PivotCell(notas, k); }
      }
      Success(Pivot(notas))
  }

  // ---------------------------------------------------------------- lemmas on pairs

  lemma {:induction false} FirstsMembers(pairs: seq<Pair>, y: string)
    ensures y in Firsts(pairs) <==> exists p :: p in pairs && p.0 == y
    decreases |pairs|
  {
    if pairs != [] {
      var init := pairs[..|pairs| - 1];
      assert pairs == init + [pairs[|pairs| - 1]];
      FirstsMembers(init, y);
    }
  }

  lemma {:induction false} SecondsMembers(pairs: seq<Pair>, x: string)
    ensures x in Seconds(pairs) <==> exists p :: p in pairs && p.1 == x
    decreases |pairs|
  {
    if pairs != [] {
      var init := pairs[..|pairs| - 1];
      assert pairs == init + [pairs[|pairs| - 1]];
      SecondsMembers(init, x);
    }
  }

  /** The table has a cell for a year and a column exactly when some pair has
      that year and some pair has that column. */
  lemma PivotKeys(pairs: seq<Pair>, y: string, x: string)
    ensures (y, x) in Pivot(pairs) <==> (exists p :: p in pairs && p.0 == y) && (exists q :: q in pairs && q.1 == x)
  {
    FirstsMembers(pairs, y);
    SecondsMembers(pairs, x);
  }

  /** Every cell of the pivot, inside or outside it, is the number of
      occurrences of its (year, category) pair. */
  lemma PivotCell(pairs: seq<Pair>, k: Pair)
    ensures Cell(Pivot(pairs), k) == Count(pairs, k)
  {
    FirstsMembers(pairs, k.0);
    SecondsMembers(pairs, k.1);
    CountPositive(pairs, k);
  }

  lemma {:induction false} CountViaRow(pairs: seq<Pair>, y: string, x: string)
    ensures Count(pairs, (y, x)) == Count(Seconds(WithFirst(pairs, y)), x)
    decreases |pairs|
  {
    if pairs != [] {
      var init := pairs[..|pairs| - 1];
      var p := pairs[|pairs| - 1];
      CountViaRow(init, y, x);
      var w := WithFirst(init, y);
      if p.0 == y {
        assert (w + [p])[..|w|] == w;
        assert Seconds(WithFirst(pairs, y)) == Seconds(w) + [p.1];
        CountAppend(Seconds(w), [p.1], x);
      } else {
        assert WithFirst(pairs, y) == w;
      }
    }
  }

  lemma {:induction false} WithFirstSize(pairs: seq<Pair>, y: string)
    ensures |WithFirst(pairs, y)| == Count(Firsts(pairs), y)
    ensures forall x :: x in Seconds(WithFirst(pairs, y)) ==> x in Seconds(pairs)
    decreases |pairs|
  {
    if pairs != [] {
      var init := pairs[..|pairs| - 1];
      var p := pairs[|pairs| - 1];
      WithFirstSize(init, y);
      assert Firsts(pairs)[..|Firsts(pairs)| - 1] == Firsts(init);
      var w := WithFirst(init, y);
      if p.0 == y {
        assert (w + [p])[..|w|] == w;
        assert Seconds(WithFirst(pairs, y)) == Seconds(w) + [p.1];
      } else {
        assert WithFirst(pairs, y) == w;
      }
      assert Seconds(pairs) == Seconds(init) + [p.1];
    }
  }

  lemma {:induction false} RowSumAsCounts(pairs: seq<Pair>, y: string, cols: seq<string>)
    ensures RowSum(Pivot(pairs), y, cols) == SumCounts(Seconds(WithFirst(pairs, y)), cols)
    decreases |cols|
  {
    if cols != [] {
      RowSumAsCounts(pairs, y, cols[..|cols| - 1]);
      PivotCell(pairs, (y, cols[|cols| - 1]));
      CountViaRow(pairs, y, cols[|cols| - 1]);
    }
  }

  /** A row of the pivot, summed over distinct columns covering every
      category, is the number of pairs of that year. */
  lemma PivotRowSum(pairs: seq<Pair>, y: string, cols: seq<string>)
    requires Distinct(cols) && forall x :: x in Seconds(pairs) ==> x in cols
    ensures RowSum(Pivot(pairs), y, cols) == Count(Firsts(pairs), y)
  {
    RowSumAsCounts(pairs, y, cols);
    WithFirstSize(pairs, y);
    SumCountsCoverAll(Seconds(WithFirst(pairs, y)), cols);
    FirstsSize(WithFirst(pairs, y));
  }

  lemma {:induction false} GridSumAsCounts(pairs: seq<Pair>, rows: seq<string>, cols: seq<string>)
    requires Distinct(cols) && forall x :: x in Seconds(pairs) ==> x in cols
    ensures GridSum(Pivot(pairs), rows, cols) == SumCounts(Firsts(pairs), rows)
    decreases |rows|
  {
    if rows != [] {
      GridSumAsCounts(pairs, rows[..|rows| - 1], cols);
      PivotRowSum(pairs, rows[|rows| - 1], cols);
    }
  }

  lemma {:induction false} FirstsSize(pairs: seq<Pair>)
    ensures |Firsts(pairs)| == |pairs| && |Seconds(pairs)| == |pairs|
    decreases |pairs|
  {
    if pairs != [] {
      FirstsSize(pairs[..|pairs| - 1]);
    }
  }

  /** The whole pivot, over its rows and columns, adds up to the number of pairs. */
  lemma PivotTotal(pairs: seq<Pair>)
    ensures GridSum(Pivot(pairs), FirstSeen(Firsts(pairs)), FirstSeen(Seconds(pairs))) == |pairs|
  {
    GridSumAsCounts(pairs, FirstSeen(Firsts(pairs)), FirstSeen(Seconds(pairs)));
    SumCountsCoverAll(Firsts(pairs), FirstSeen(Firsts(pairs)));
    FirstsSize(pairs);
  }

  // ---------------------------------------------------------------- CGE 1

  /** The notes of level l across the records of year y. */
  function LevelCount(data: seq<Record>, y: string, l: string): nat
  {
    if data == [] then 0
    else LevelCount(data[..|data| - 1], y, l) + (if data[|data| - 1].year == y then Count(data[|data| - 1].notas, l) else 0)
  }

  /** The notes across the records of year y. */
  function YearNotes(data: seq<Record>, y: string): nat
  {
    if data == [] then 0
    else YearNotes(data[..|data| - 1], y) + (if data[|data| - 1].year == y then |data[|data| - 1].notas| else 0)
  }

  /** The notes across all records. */
  function TotalNotes(data: seq<Record>): nat
  {
    if data == [] then 0 else TotalNotes(data[..|data| - 1]) + |data[|data| - 1].notas|
  }

  lemma {:induction false} TagFacts(year: string, notas: seq<string>, k: Pair)
    ensures Count(Tag(year, notas), k) == (if k.0 == year then Count(notas, k.1) else 0)
    ensures |Tag(year, notas)| == |notas|
    ensures Count(Firsts(Tag(year, notas)), k.0) == (if k.0 == year then |notas| else 0)
    decreases |notas|
  {
    if notas != [] {
      var init := notas[..|notas| - 1];
      TagFacts(year, init, k);
      var t := Tag(year, init);
      assert (t + [(year, notas[|notas| - 1])])[..|t|] == t;
    }
  }

  lemma {:induction false} FirstsAppend(a: seq<Pair>, b: seq<Pair>)
    ensures Firsts(a + b) == Firsts(a) + Firsts(b)
    decreases |b|
  {
    if b == [] {
      assert a + b == a;
    } else {
      assert (a + b)[..|a + b| - 1] == a + b[..|b| - 1];
      FirstsAppend(a, b[..|b| - 1]);
    }
  }

  /** The CGE 1 cell for (year, level) counts that level among the notes of that year's records. */
  lemma {:induction false} NoteCellCount(data: seq<Record>, y: string, l: string)
    ensures Count(NotePairs(data), (y, l)) == LevelCount(data, y, l)
    ensures Count(Firsts(NotePairs(data)), y) == YearNotes(data, y)
    ensures |NotePairs(data)| == TotalNotes(data)
    decreases |data|
  {
    if data != [] {
      var init := data[..|data| - 1];
      var r := data[|data| - 1];
      NoteCellCount(init, y, l);
      TagFacts(r.year, r.notas, (y, l));
      CountAppend(NotePairs(init), Tag(r.year, r.notas), (y, l));
      FirstsAppend(NotePairs(init), Tag(r.year, r.notas));
      CountAppend(Firsts(NotePairs(init)), Firsts(Tag(r.year, r.notas)), y);
    }
  }

  /** CGE 1: each cell counts the notes of that level in that year; each
      year's row adds up to that year's notes; the table adds up to all notes. */
  lemma NoteTableCounts(data: seq<Record>, y: string, l: string)
    requires TotalNotes(data) > 0
    ensures NoteTable(NotePairs(data)).Success?
    ensures var table := NoteTable(NotePairs(data)).value;
      var notas := NotePairs(data);
      && Cell(table, (y, l)) == LevelCount(data, y, l)
      && RowSum(table, y, FirstSeen(Seconds(notas))) == YearNotes(data, y)
      && GridSum(table, FirstSeen(Firsts(notas)), FirstSeen(Seconds(notas))) == TotalNotes(data)
  {
    var notas := NotePairs(data);
    NoteCellCount(data, y, l);
    PivotCell(notas, (y, l));
    PivotRowSum(notas, y, FirstSeen(Seconds(notas)));
    PivotTotal(notas);
  }

  // ---------------------------------------------------------------- CGE 2

  /** The records of year y whose SIT is s. */
  function StatusCount(data: seq<Record>, y: string, s: string): nat
  {
    if data == [] then 0
    else StatusCount(data[..|data| - 1], y, s) + (if data[|data| - 1].year == y && data[|data| - 1].sit == s then 1 else 0)
  }

  /** The records of year y. */
  function YearRecords(data: seq<Record>, y: string): nat
  {
    if data == [] then 0
    else YearRecords(data[..|data| - 1], y) + (if data[|data| - 1].year == y then 1 else 0)
  }

  lemma {:induction false} StatusCellCount(data: seq<Record>, y: string, s: string)
    ensures Count(StatusPairs(data), (y, s)) == StatusCount(data, y, s)
    ensures Count(Firsts(StatusPairs(data)), y) == YearRecords(data, y)
    ensures |StatusPairs(data)| == |data|
    decreases |data|
  {
    if data != [] {
      var init := data[..|data| - 1];
      StatusCellCount(init, y, s);
      var sp := StatusPairs(init);
      var p := (data[|data| - 1].year, data[|data| - 1].sit);
      assert (sp + [p])[..|sp|] == sp;
      var f := Firsts(sp + [p]);
      assert f == Firsts(sp) + [p.0];
      assert f[..|f| - 1] == Firsts(sp) && f[|f| - 1] == p.0;
    }
  }

  /** CGE 2: each cell counts the records of that year with that SIT; each
      year's row adds up to that year's records; the table to all records. */
  lemma StatusTableCounts(data: seq<Record>, y: string, s: string)
    ensures var table := Pivot(StatusPairs(data));
      var sits := StatusPairs(data);
      && Cell(table, (y, s)) == StatusCount(data, y, s)
      && RowSum(table, y, FirstSeen(Seconds(sits))) == YearRecords(data, y)
      && GridSum(table, FirstSeen(Firsts(sits)), FirstSeen(Seconds(sits))) == |data|
  {
    var sits := StatusPairs(data);
    StatusCellCount(data, y, s);
    PivotCell(sits, (y, s));
    PivotRowSum(sits, y, FirstSeen(Seconds(sits)));
    PivotTotal(sits);
  }

  // ---------------------------------------------------------------- the report

  /** What pressing the button yields: nothing when no record was
      extracted, the groupby failure when no record has a note, else the
      raw records and the CGE 1 and CGE 2 tables. */
  datatype Outcome =
    | NoData
    | NoteTableError(error: GroupError)
    | Report(crudos: seq<Record>, cge1: map<Pair, nat>, cge2: map<Pair, nat>)

  /** The report step of minka_analitica.py, lines 59-74. */
  method Diagnose(docs: seq<Document>) returns (out: Outcome)
    ensures out.NoData? <==> AllRecords(docs) == []
    ensures out.NoteTableError? <==> AllRecords(docs) != [] && TotalNotes(AllRecords(docs)) == 0
    ensures out.Report? ==>
      && out.crudos == AllRecords(docs)
      && out.cge1 == Pivot(NotePairs(out.crudos))
      && out.cge2 == Pivot(StatusPairs(out.crudos))
  {
    var dataTotal := Consolidate(docs);
    if dataTotal == [] {
      return NoData;
    }
    var notas := CollectNotes(dataTotal);
    NoteCellCount(dataTotal, "", "");
    var cge1 := NoteTable(notas);
    if cge1.Failure? {
      return NoteTableError(cge1.error);
    }
    var cge2 := Pivot(StatusPairs(dataTotal));
    out := Report(dataTotal, cge1.value, cge2);
  }
}
