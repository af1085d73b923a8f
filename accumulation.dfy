/** The imperative half of `procesar_acta_universal`: the dictionary
    `alumnos_acumulados`, updated row by row inside the page and row loops. */
module Accumulation {
  import opened Wrappers
  import opened Rows
  import opened Acta
  import opened ActaSteps

  /** `alumnos_acumulados`: DNI to record, with the keys kept in insertion
      order as a Python dict keeps them. */
  class Accumulator {
    /** `anio`, the year every record of this document is created with. */
    const year: string
    var alumnos: map<string, Record>
    var order: seq<string>
    /** The cleaned rows folded in so far. */
    ghost var seen: seq<Row>

    /** The dictionary holds, for each DNI seen so far and for no other,
        the record the rows seen so far determine. */
    ghost predicate Valid()
      reads this
    {
      Tracks(year, seen, order, alumnos)
    }

    constructor (year: string)
      ensures Valid() && this.year == year
      ensures seen == [] && alumnos == map[] && order == []
    {
      this.year := year;
      alumnos := map[];
      order := [];
      seen := [];
    }

    /** One pass of the row loop over an already cleaned row: a row without a
        DNI changes nothing; otherwise the record is created on first sight
        with no notes and SIT "N/A", its notes get the row's level cells and
        its SIT becomes the row's first status cell when there is one. */
    method Fold(row: Row)
      requires Valid()
      modifies this
      ensures Valid() && seen == old(seen) + [row]
      ensures Dni(row).None? ==> alumnos == old(alumnos) && order == old(order)
      ensures Dni(row).Some? && Dni(row).value !in old(alumnos) ==>
        && order == old(order) + [Dni(row).value]
        && alumnos == old(alumnos)[Dni(row).value := Record(year, Levels(row), NextSit(row, NoStatus))]
      ensures Dni(row).Some? && Dni(row).value in old(alumnos) ==>
        && order == old(order)
        && alumnos == old(alumnos)[Dni(row).value :=
             var r := old(alumnos)[Dni(row).value];
             Record(r.year, r.notas + Levels(row), NextSit(row, r.sit))]
    {
      var found := Dni(row);
      if found.None? {
        TracksRejectedRow(year, seen, row, order, alumnos);
        seen := seen + [row];
      } else if found.value !in alumnos {
        Admit(found.value, row);
      } else {
        Revisit(found.value, row);
      }
    }

    /** The row loop on the first sighting of a DNI: the record is created
        with the year, no notes and SIT "N/A", then the row is applied. */
    method Admit(dni: string, row: Row)
      requires Valid() && Dni(row) == Some(dni) && dni !in alumnos
      modifies this
      ensures Valid() && seen == old(seen) + [row]
      ensures order == old(order) + [dni]
      ensures alumnos == old(alumnos)[dni := Record(year, Levels(row), NextSit(row, NoStatus))]
    {
      ghost var before, rows, ids := alumnos, seen, order;
      var blank := Record(year, [], NoStatus);
      alumnos := alumnos[dni := blank];
      order := order + [dni];
      Visit(dni, row);
      assert [] + Levels(row) == Levels(row);
      OverwriteKey(before, dni, blank, Record(year, Levels(row), NextSit(row, NoStatus)));
      seen := seen + [row];
      TracksNewDni(year, rows, row, dni, ids, before);
    }

    /** The row loop on a later sighting of a DNI: the key order stays, the
        row is applied to the existing record. */
    method Revisit(dni: string, row: Row)
      requires Valid() && Dni(row) == Some(dni) && dni in alumnos
      modifies this
      ensures Valid() && seen == old(seen) + [row]
      ensures order == old(order)
      ensures alumnos == old(alumnos)[dni :=
        var r := old(alumnos)[dni];
        Record(r.year, r.notas + Levels(row), NextSit(row, r.sit))]
    {
      TracksSeenDni(year, seen, row, dni, order, alumnos);
      Visit(dni, row);
      seen := seen + [row];
    }

    /** `for fila in tabla`: every row of one table, cleaned cell by cell
        with `limpiar`, is folded in order. */
    method FoldTable(tabla: seq<RawRow>)
      requires Valid()
      modifies this
      ensures Valid() && seen == old(seen) + TableRows(tabla)
    {
      for r := 0 to |tabla|
        invariant Valid() && seen == old(seen) + TableRows(tabla[..r])
      {
        var fila := CleanRow(tabla[r]);
        ghost var before, done := seen, TableRows(tabla[..r]);
        Fold(fila);
        TableRowsSnoc(tabla, r);
        assert before + [fila] == old(seen) + (done + [fila]);
      }
      assert tabla[..|tabla|] == tabla;
    }

    /** The body of the row loop once the DNI's record exists: the row's
        level cells are appended to its notes, then its first status cell,
        if any, replaces SIT. */
    method Visit(dni: string, row: Row)
      requires dni in alumnos
      modifies this`alumnos
      ensures alumnos == old(alumnos)[dni :=
        var r := old(alumnos)[dni];
        Record(r.year, r.notas + Levels(row), NextSit(row, r.sit))]
    {
      AppendLevels(dni, row);
      var sitFinal := FirstStatus(row);
      if sitFinal.Some? {
        alumnos := alumnos[dni := alumnos[dni].(sit := sitFinal.value)];
      }
    }

    /** `for celda in f_str: if celda in [AD, A, B, C]: NOTAS.append(celda)`. */
    method AppendLevels(dni: string, row: Row)
      requires dni in alumnos
      modifies this`alumnos
      ensures alumnos == old(alumnos)[dni := old(alumnos)[dni].(notas := old(alumnos)[dni].notas + Levels(row))]
    {
      ghost var start := alumnos;
      ghost var base := alumnos[dni];
      var i := 0;
      assert Levels(row[..0]) == [] && base.notas + [] == base.notas;
      while i < |row|
        invariant 0 <= i <= |row|
        invariant alumnos == start[dni := base.(notas := base.notas + Levels(row[..i]))]
      {
        assert row[..i + 1][..i] == row[..i] && row[..i + 1][i] == row[i];
        assert Levels(row[..i + 1]) == Levels(row[..i]) + (if IsLevel(row[i]) then [row[i]] else []);
        if IsLevel(row[i]) {
          assert base.notas + Levels(row[..i]) + [row[i]] == base.notas + (Levels(row[..i]) + [row[i]]);
          alumnos := alumnos[dni := alumnos[dni].(notas := alumnos[dni].notas + [row[i]])];
        } else {
          assert Levels(row[..i]) + [] == Levels(row[..i]);
        }
        i := i + 1;
      }
      assert row[..i] == row;
    }

    /** `list(alumnos_acumulados.values())`. */
    function Values(): (rs: seq<Record>)
      reads this
      requires Valid()
      ensures |rs| == |order|
      ensures forall i :: 0 <= i < |order| ==> rs[i] == RecordOf(year, seen, order[i])
    {
      var keys := order;
      var table := alumnos;
      seq(|keys|, i requires 0 <= i < |keys| && keys[i] in table => table[keys[i]])
    }
  }

  /** Writing a key twice leaves only the second value. */
  lemma OverwriteKey<K, V>(m: map<K, V>, k: K, a: V, b: V)
    ensures m[k := a][k := b] == m[k := b]
  {
  }

  /** `procesar_acta_universal`: every row of every page with a table is
      cleaned and folded, in order, into a fresh dictionary, whose values are
      returned in insertion order. */
  method ProcessActa(doc: Document) returns (records: seq<Record>)
    ensures records == DocumentRecords(doc)
  {
    var anio := DetectYear(doc.name);
    var acc := new Accumulator(anio);
    for p := 0 to |doc.pages|
      invariant acc.Valid() && acc.year == anio
      invariant acc.seen == DocRows(doc.pages[..p])
    {
      assert doc.pages[..p + 1][..p] == doc.pages[..p];
      match doc.pages[p]
      case None =>
      case Some(tabla) =>
        if tabla != [] {
          acc.FoldTable(tabla);
        }
    }
    assert doc.pages[..|doc.pages|] == doc.pages;
    records := acc.Values();
  }
}
