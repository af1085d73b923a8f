/** What `procesar_acta_universal` returns for one document, stated
    directly over the sequence of cleaned rows rather than as the loop that
    builds it: one record per distinct accepted DNI, in first-seen order. */
module Acta {
  import opened Wrappers
  import opened Seqs
  import opened Cells
  import opened Rows

  /** One student's dictionary `{"AÑO", "NOTAS", "SIT"}`; the DNI is only its key. */
  datatype Record = Record(year: string, notas: seq<string>, sit: string)

  /** What `extract_table()` gives for one page: no table, or its rows. */
  type Page = Option<seq<RawRow>>

  /** An uploaded file: its name and its pages. */
  datatype Document = Document(name: string, pages: seq<Page>)

  /** The SIT value of a record that has not yet seen a status cell. */
  const NoStatus := "N/A"

  /** Every cell of every row is what `limpiar` can return. */
  predicate CleanCells(rows: seq<Row>)
  {
    forall i, j :: 0 <= i < |rows| && 0 <= j < |rows[i]| ==> IsClean(rows[i][j])
  }

  /** The cleaned rows of a table, in order. */
  function TableRows(table: seq<RawRow>): (rows: seq<Row>)
    ensures |rows| == |table|
  {
    seq(|table|, i requires 0 <= i < |table| => CleanRow(table[i]))
  }

  /** The cleaned rows of every page in page order; a page without a table adds none. */
  function DocRows(pages: seq<Page>): seq<Row>
  {
    if pages == [] then []
    else
      DocRows(pages[..|pages| - 1]) +
      match pages[|pages| - 1]
      case None => []
      case Some(table) => TableRows(table)
  }

  /** The DNIs of the accepted rows, in row order, repeats kept. */
  function Dnis(rows: seq<Row>): seq<string>
  {
    if rows == [] then []
    else
      Dnis(rows[..|rows| - 1]) +
      match Dni(rows[|rows| - 1])
      case Some(d) => [d]
      case None => []
  }

  /** The level cells of every row carrying DNI d, rows in encounter order. */
  function NotesOf(rows: seq<Row>, d: string): seq<string>
  {
    if rows == [] then []
    else NotesOf(rows[..|rows| - 1], d) + (if Dni(rows[|rows| - 1]) == Some(d) then Levels(rows[|rows| - 1]) else [])
  }

  /** A row that carries DNI d and a status cell. */
  predicate SetsStatus(row: Row, d: string)
  {
    Dni(row) == Some(d) && FirstStatus(row).Some?
  }

  /** The SIT of DNI d: the first status cell of the last row for d that has one, else "N/A". */
  function SitOf(rows: seq<Row>, d: string): (s: string)
    ensures s == NoStatus || IsStatus(s)
  {
    if rows == [] then NoStatus
    else if SetsStatus(rows[|rows| - 1], d) then FirstStatus(rows[|rows| - 1]).value
    else SitOf(rows[..|rows| - 1], d)
  }

  /** The record the document holds for DNI d after the given rows. */
  function RecordOf(year: string, rows: seq<Row>, d: string): Record
  {
    Record(year, NotesOf(rows, d), SitOf(rows, d))
  }

  /** The records `procesar_acta_universal` returns, in first-seen order. */
  function DocumentRecords(doc: Document): (rs: seq<Record>)
    ensures forall i :: 0 <= i < |rs| ==> rs[i].year == DetectYear(doc.name) && (rs[i].sit == NoStatus || IsStatus(rs[i].sit))
  {
    var rows := DocRows(doc.pages);
    var ids := FirstSeen(Dnis(rows));
    seq(|ids|, i requires 0 <= i < |ids| => RecordOf(DetectYear(doc.name), rows, ids[i]))
  }

  /** A DNI-keyed dictionary and its insertion order hold what the rows
      determine: one entry per accepted DNI, keys in first-seen order. */
  ghost predicate Tracks(year: string, rows: seq<Row>, order: seq<string>, alumnos: map<string, Record>)
  {
    && order == FirstSeen(Dnis(rows))
    && alumnos.Keys == (set d | d in order)
    && forall d :: d in alumnos ==> alumnos[d] == RecordOf(year, rows, d)
  }

  /** The SIT a row leaves behind, given the one before it. */
  function NextSit(row: Row, sit: string): string
  {
    if FirstStatus(row).Some? then FirstStatus(row).value else sit
  }

  // ---------------------------------------------------------------- lemmas

  /** One more row appends its DNI, if it has one, to the accepted DNIs. */
  lemma DnisAfterRow(rows: seq<Row>, row: Row)
    ensures Dnis(rows + [row]) == Dnis(rows) + (if Dni(row).Some? then [Dni(row).value] else [])
  {
    assert (rows + [row])[..|rows|] == rows;
  }

  /** Every cell of every cleaned table row is clean. */
  lemma TableRowsClean(table: seq<RawRow>)
    ensures CleanCells(TableRows(table))
  {
    forall i | 0 <= i < |table|
      ensures forall j :: 0 <= j < |table[i]| ==> IsClean(TableRows(table)[i][j])
    {
      CleanRowIsClean(table[i]);
    }
  }

  /** Every cell of every row a document yields has been through `limpiar`. */
  lemma {:induction false} DocRowsClean(pages: seq<Page>)
    ensures CleanCells(DocRows(pages))
    decreases |pages|
  {
    if pages != [] {
      var init := DocRows(pages[..|pages| - 1]);
      DocRowsClean(pages[..|pages| - 1]);
      var more: seq<Row> := match pages[|pages| - 1] case None => [] case Some(table) => TableRows(table);
      if pages[|pages| - 1].Some? {
        TableRowsClean(pages[|pages| - 1].value);
      }
      assert DocRows(pages) == init + more;
      assert forall i :: |init| <= i < |init| + |more| ==> DocRows(pages)[i] == more[i - |init|];
    }
  }

  /** The rows of a table's first r + 1 rows are those of its first r, then row r cleaned. */
  lemma TableRowsSnoc(table: seq<RawRow>, r: nat)
    requires r < |table|
    ensures TableRows(table[..r + 1]) == TableRows(table[..r]) + [CleanRow(table[r])]
  {
  }

  /** A page without a table, or with an empty one, adds no row, wherever it stands. */
  lemma {:induction false} TablelessPageSkipped(pre: seq<Page>, page: Page, post: seq<Page>)
    requires page == None || page == Some([])
    ensures DocRows(pre + [page] + post) == DocRows(pre + post)
    decreases |post|
  {
    if post == [] {
      assert pre + [page] + post == pre + [page];
      assert (pre + [page])[..|pre|] == pre;
      assert pre + post == pre;
      assert TableRows([]) == [];
    } else {
      var init := post[..|post| - 1];
      assert (pre + [page] + post)[..|pre + [page] + post| - 1] == pre + [page] + init;
      assert (pre + post)[..|pre + post| - 1] == pre + init;
      assert (pre + [page] + post)[|pre + [page] + post| - 1] == post[|post| - 1];
      assert (pre + post)[|pre + post| - 1] == post[|post| - 1];
      TablelessPageSkipped(pre, page, init);
    }
  }

  /** A DNI no accepted row carries has no notes and SIT "N/A": the record
      a first sighting creates. */
  lemma {:induction false} UnseenRecord(year: string, rows: seq<Row>, d: string)
    requires d !in Dnis(rows)
    ensures RecordOf(year, rows, d) == Record(year, [], NoStatus)
    decreases |rows|
  {
    if rows != [] {
      DnisAfterRow(rows[..|rows| - 1], rows[|rows| - 1]);
      assert rows[..|rows| - 1] + [rows[|rows| - 1]] == rows;
      UnseenRecord(year, rows[..|rows| - 1], d);
    }
  }

  /** One more row changes only the record of its own DNI: the level cells
      are appended to its notes, and its first status cell, if any, replaces SIT. */
  lemma RecordAfterRow(year: string, rows: seq<Row>, row: Row, d: string)
    ensures RecordOf(year, rows + [row], d) ==
      if Dni(row) == Some(d) then
        Record(year, NotesOf(rows, d) + Levels(row), if FirstStatus(row).Some? then FirstStatus(row).value else SitOf(rows, d))
      else RecordOf(year, rows, d)
  {
    assert (rows + [row])[..|rows|] == rows;
  }

  lemma {:induction false} DnisMembers(rows: seq<Row>, d: string)
    ensures d in Dnis(rows) <==> exists i :: 0 <= i < |rows| && Dni(rows[i]) == Some(d)
    decreases |rows|
  {
    if rows != [] {
      var init := rows[..|rows| - 1];
      DnisMembers(init, d);
      if exists i :: 0 <= i < |rows| && Dni(rows[i]) == Some(d) {
        var i :| 0 <= i < |rows| && Dni(rows[i]) == Some(d);
        if i < |init| {
          assert init[i] == rows[i];
        }
      }
      if exists i :: 0 <= i < |init| && Dni(init[i]) == Some(d) {
        var i :| 0 <= i < |init| && Dni(init[i]) == Some(d);
        assert rows[i] == init[i];
      }
    }
  }

  /** The document gives exactly one record per distinct accepted DNI, every
      record carrying the document's year and a SIT that is "N/A" or a
      status code; records are in the order their DNIs were first seen. */
  lemma DocumentRecordsShape(doc: Document)
    ensures var rows := DocRows(doc.pages);
      && |DocumentRecords(doc)| == |set i | 0 <= i < |rows| && Dni(rows[i]).Some? :: Dni(rows[i]).value|
      && forall r :: r in DocumentRecords(doc) ==>
           (r.year == "2023" || r.year == "2024" || r.year == "2025") &&
           r.year == DetectYear(doc.name) &&
           (r.sit == NoStatus || IsStatus(r.sit)) &&
           forall c :: c in r.notas ==> IsLevel(c)
  {
    var rows := DocRows(doc.pages);
    var ids := FirstSeen(Dnis(rows));
    DistinctCardinality(ids);
    var idSet := set x | x in ids;
    var accepted := set i | 0 <= i < |rows| && Dni(rows[i]).Some? :: Dni(rows[i]).value;
    forall d
      ensures d in idSet <==> d in accepted
    {
      DnisMembers(rows, d);
    }
    assert idSet == accepted;
    forall r | r in DocumentRecords(doc)
      ensures forall c :: c in r.notas ==> IsLevel(c)
    {
      var i :| 0 <= i < |ids| && DocumentRecords(doc)[i] == r;
      NotesAreLevels(rows, ids[i]);
    }
  }

  lemma {:induction false} NotesAreLevels(rows: seq<Row>, d: string)
    ensures forall c :: c in NotesOf(rows, d) ==> IsLevel(c)
    decreases |rows|
  {
    if rows != [] {
      NotesAreLevels(rows[..|rows| - 1], d);
    }
  }

  /** A record's notes only ever grow: later rows append, never rewrite. */
  lemma {:induction false} NotesOnlyGrow(rows: seq<Row>, more: seq<Row>, d: string)
    ensures NotesOf(rows, d) <= NotesOf(rows + more, d)
    decreases |more|
  {
    if more == [] {
      assert rows + more == rows;
    } else {
      var init := more[..|more| - 1];
      assert (rows + more)[..|rows + more| - 1] == rows + init;
      NotesOnlyGrow(rows, init, d);
    }
  }

  /** A row without a DNI, wherever it stands, changes no record and no key order. */
  lemma {:induction false} RejectedRowChangesNothing(pre: seq<Row>, row: Row, post: seq<Row>, d: string)
    requires Dni(row).None?
    ensures Dnis(pre + [row] + post) == Dnis(pre + post)
    ensures NotesOf(pre + [row] + post, d) == NotesOf(pre + post, d)
    ensures SitOf(pre + [row] + post, d) == SitOf(pre + post, d)
    decreases |post|
  {
    if post == [] {
      assert pre + [row] + post == pre + [row];
      assert (pre + [row])[..|pre|] == pre;
      assert pre + post == pre;
    } else {
      var init := post[..|post| - 1];
      assert (pre + [row] + post)[..|pre + [row] + post| - 1] == pre + [row] + init;
      assert (pre + post)[..|pre + post| - 1] == pre + init;
      assert (pre + [row] + post)[|pre + [row] + post| - 1] == post[|post| - 1];
      assert (pre + post)[|pre + post| - 1] == post[|post| - 1];
      RejectedRowChangesNothing(pre, row, init, d);
    }
  }

  /** Last row wins: SIT is the first status cell of the last row for d that has one. */
  lemma {:induction false} SitIsLastStatus(rows: seq<Row>, d: string, j: nat)
    requires j < |rows| && SetsStatus(rows[j], d)
    requires forall k :: j < k < |rows| ==> !SetsStatus(rows[k], d)
    ensures SitOf(rows, d) == FirstStatus(rows[j]).value
    decreases |rows|
  {
    if j < |rows| - 1 {
      var init := rows[..|rows| - 1];
      assert !SetsStatus(rows[|rows| - 1], d);
      assert forall k :: j < k < |init| ==> init[k] == rows[k];
      SitIsLastStatus(init, d, j);
    }
  }

  /** SIT is "N/A" exactly when no row for d has a status cell. */
  lemma {:induction false} SitUnsetIff(rows: seq<Row>, d: string)
    ensures SitOf(rows, d) == NoStatus <==> forall k :: 0 <= k < |rows| ==> !SetsStatus(rows[k], d)
    decreases |rows|
  {
    if rows != [] {
      var init := rows[..|rows| - 1];
      SitUnsetIff(init, d);
      assert forall k :: 0 <= k < |init| ==> init[k] == rows[k];
    }
  }

  /** Once set, SIT never returns to "N/A". */
  lemma SitStaysSet(rows: seq<Row>, more: seq<Row>, d: string)
    requires SitOf(rows, d) != NoStatus
    ensures SitOf(rows + more, d) != NoStatus
  {
    SitUnsetIff(rows, d);
    SitUnsetIff(rows + more, d);
    var k :| 0 <= k < |rows| && SetsStatus(rows[k], d);
    assert (rows + more)[k] == rows[k];
  }
}

module ActaSteps {
  import opened Wrappers
  import opened Seqs
  import opened Rows
  import opened Acta

  /** A row without a DNI leaves the dictionary as it is. */
  lemma TracksRejectedRow(year: string, rows: seq<Row>, row: Row, order: seq<string>, alumnos: map<string, Record>)
    requires Tracks(year, rows, order, alumnos) && Dni(row).None?
    ensures Tracks(year, rows + [row], order, alumnos)
  {
    DnisAfterRow(rows, row);
    assert Dnis(rows) + [] == Dnis(rows);
    forall d | d in alumnos
      ensures alumnos[d] == RecordOf(year, rows + [row], d)
    {
      RecordAfterRow(year, rows, row, d);
    }
  }

  /** First sighting of a DNI adds a record holding the row's levels and
      its status, if any, after the keys seen before. */
  lemma TracksNewDni(year: string, rows: seq<Row>, row: Row, d: string, order: seq<string>, alumnos: map<string, Record>)
    requires Tracks(year, rows, order, alumnos) && Dni(row) == Some(d) && d !in alumnos
    ensures Tracks(year, rows + [row], order + [d], alumnos[d := Record(year, Levels(row), NextSit(row, NoStatus))])
  {
    var ids := Dnis(rows);
    assert d !in ids by {
      assert d !in order;
    }
    assert order + [d] == FirstSeen(Dnis(rows + [row])) by {
      DnisAfterRow(rows, row);
      assert (ids + [d])[..|ids|] == ids;
    }
    var alumnos' := alumnos[d := Record(year, Levels(row), NextSit(row, NoStatus))];
    assert alumnos'.Keys == (set e | e in order + [d]);
    forall e | e in alumnos'
      ensures alumnos'[e] == RecordOf(year, rows + [row], e)
    {
      RecordAfterRow(year, rows, row, e);
      if e == d {
        UnseenRecord(year, rows, d);
        assert [] + Levels(row) == Levels(row);
      }
    }
  }

  /** A later sighting appends the row's levels to the record and lets its
      status, if any, replace SIT; the key order does not change. */
  lemma TracksSeenDni(year: string, rows: seq<Row>, row: Row, d: string, order: seq<string>, alumnos: map<string, Record>)
    requires Tracks(year, rows, order, alumnos) && Dni(row) == Some(d) && d in alumnos
    ensures Tracks(year, rows + [row], order,
              alumnos[d := Record(alumnos[d].year, alumnos[d].notas + Levels(row), NextSit(row, alumnos[d].sit))])
  {
    var ids := Dnis(rows);
    DnisAfterRow(rows, row);
    assert Dnis(rows + [row]) == ids + [d];
    assert (ids + [d])[..|ids|] == ids;
    assert d in ids;
    assert FirstSeen(ids + [d]) == FirstSeen(ids);
    var alumnos' := alumnos[d := Record(alumnos[d].year, alumnos[d].notas + Levels(row), NextSit(row, alumnos[d].sit))];
    assert alumnos'.Keys == alumnos.Keys;
    forall e | e in alumnos'
      ensures alumnos'[e] == RecordOf(year, rows + [row], e)
    {
      RecordAfterRow(year, rows, row, e);
    }
  }
}
