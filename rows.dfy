/** What `procesar_acta_universal` reads from a file name and from one
    cleaned table row: the year, the DNI, the grade cells and the status. */
module Rows {
  import opened Wrappers
  import opened Seqs
  import opened Cells

  /** One table row as the extractor gives it, and the same row after `limpiar`. */
  type RawRow = seq<Option<string>>
  type Row = seq<string>

  /** The row comprehension `[limpiar(c) for c in fila]`. */
  function CleanRow(raw: RawRow): (row: Row)
    ensures |row| == |raw|
  {
    seq(|raw|, i requires 0 <= i < |raw| => Limpiar(raw[i]))
  }

  /** Every cell of a cleaned row is what `limpiar` can return, and keeps the
      non-whitespace characters of the extracted cell. */
  lemma CleanRowIsClean(raw: RawRow)
    ensures forall i :: 0 <= i < |raw| ==> IsClean(CleanRow(raw)[i])
    ensures forall i :: 0 <= i < |raw| && raw[i].Some? ==> NonSpace(CleanRow(raw)[i]) == NonSpace(raw[i].value)
  {
  }

  // ---------------------------------------------------------------- year

  /** `202[3-5]` matches the file name at position k. */
  predicate YearAt(name: string, k: nat)
  {
    k + 4 <= |name| && name[k] == '2' && name[k + 1] == '0' && name[k + 2] == '2' && '3' <= name[k + 3] <= '5'
  }

  /** The leftmost match at or after `from`, as `re.search` finds it. */
  function FirstYearAt(name: string, from: nat): (k: Option<nat>)
    decreases |name| - from
    ensures k.Some? ==> from <= k.value && YearAt(name, k.value)
    ensures k.Some? ==> forall j :: from <= j < k.value ==> !YearAt(name, j)
    ensures k.None? ==> forall j :: from <= j ==> !YearAt(name, j)
  {
    if from + 4 > |name| then None
    else if YearAt(name, from) then Some(from)
    else FirstYearAt(name, from + 1)
  }

  /** The document's year: the leftmost `202[3-5]` in its file name, else "2025". */
  function DetectYear(name: string): (year: string)
    ensures year == "2023" || year == "2024" || year == "2025"
    ensures forall k: nat :: YearAt(name, k) && (forall j: nat :: j < k ==> !YearAt(name, j)) ==> year == name[k..k + 4]
    ensures (forall k: nat :: !YearAt(name, k)) ==> year == "2025"
  {
    match FirstYearAt(name, 0)
    case Some(k) =>
      assert name[k..k + 4] == [name[k], name[k + 1], name[k + 2], name[k + 3]];
      name[k..k + 4]
    case None => "2025"
  }

  // ---------------------------------------------------------------- DNI

  /** `c.isdigit() and len(c) == 1`, for ASCII digits. */
  predicate IsDigitCell(c: string)
  {
    |c| == 1 && '0' <= c[0] <= '9'
  }

  /** Only indices strictly between 4 and 16 may hold DNI digits. */
  predicate InWindow(i: int)
  {
    4 < i < 16
  }

  /** `"".join(f_str[i] for i in digitos_idx if 4 < i < 16)`, from index `from` on. */
  function WindowDigits(row: Row, from: nat): (d: string)
    decreases |row| - from
    ensures forall k :: 0 <= k < |d| ==> '0' <= d[k] <= '9'
  {
    if from >= |row| then ""
    else (if InWindow(from) && IsDigitCell(row[from]) then row[from] else "") + WindowDigits(row, from + 1)
  }

  /** The row's DNI: the window digits when there are exactly eight of them. */
  function Dni(row: Row): (d: Option<string>)
    ensures d.Some? ==> |d.value| == 8 && forall k :: 0 <= k < 8 ==> '0' <= d.value[k] <= '9'
  {
    var raw := WindowDigits(row, 0);
    if |raw| == 8 then Some(raw) else None
  }

  /** The indices, at or after `from`, of the single-digit cells in the
      window, in increasing order: exactly the cells whose digits
      WindowDigits concatenates. */
  function DigitIndices(row: Row, from: nat): (ix: seq<nat>)
    decreases |row| - from
    ensures forall k :: 0 <= k < |ix| ==> from <= ix[k] < |row| && InWindow(ix[k]) && IsDigitCell(row[ix[k]])
    ensures forall i :: from <= i < |row| && InWindow(i) && IsDigitCell(row[i]) ==> i in ix
    ensures forall k, l :: 0 <= k < l < |ix| ==> ix[k] < ix[l]
  {
    if from >= |row| then []
    else (if InWindow(from) && IsDigitCell(row[from]) then [from] else []) + DigitIndices(row, from + 1)
  }

  /** Character k of the window digits is the digit of the k-th single-digit
      cell in the window. */
  lemma {:induction false} WindowDigitsSpell(row: Row, from: nat)
    ensures |WindowDigits(row, from)| == |DigitIndices(row, from)|
    ensures forall k :: 0 <= k < |DigitIndices(row, from)| ==>
      WindowDigits(row, from)[k] == row[DigitIndices(row, from)[k]][0]
    decreases |row| - from
  {
    if from < |row| {
      WindowDigitsSpell(row, from + 1);
    }
  }

  /** A DNI spells, in index order, the digits of the eight single-digit
      cells at indices 5..15 and nothing else: each of its characters comes
      from such a cell, and each such cell gives one of its characters. */
  lemma DniSpellsDigitCells(row: Row)
    requires Dni(row).Some?
    ensures |DigitIndices(row, 0)| == 8
    ensures forall k :: 0 <= k < 8 ==> Dni(row).value[k] == row[DigitIndices(row, 0)[k]][0]
  {
    WindowDigitsSpell(row, 0);
  }

  /** A row yields a DNI exactly when eight of its cells at indices 5..15 are
      single digits. */
  lemma DniIffEightDigitCells(row: Row)
    ensures Dni(row).Some? <==> |DigitIndices(row, 0)| == 8
  {
    WindowDigitsSpell(row, 0);
  }

  lemma {:induction false} WindowDigitsUpdate(row: Row, i: nat, c: string, from: nat)
    requires i < |row| && !InWindow(i)
    ensures WindowDigits(row[i := c], from) == WindowDigits(row, from)
    decreases |row| - from
  {
    if from < |row| {
      WindowDigitsUpdate(row, i, c, from + 1);
    }
  }

  /** Changing a cell outside indices 5..15 never changes the DNI. */
  lemma DniIgnoresCellOutsideWindow(row: Row, i: nat, c: string)
    requires i < |row| && !InWindow(i)
    ensures Dni(row[i := c]) == Dni(row)
  {
    WindowDigitsUpdate(row, i, c, 0);
  }

  lemma {:induction false} WindowDigitsPastWindow(row: Row, from: nat)
    requires from >= 16
    ensures WindowDigits(row, from) == ""
    decreases |row| - from
  {
    if from < |row| {
      WindowDigitsPastWindow(row, from + 1);
    }
  }

  lemma {:induction false} WindowDigitsTruncate(row: Row, from: nat)
    requires |row| >= 16 && from <= 16
    ensures WindowDigits(row[..16], from) == WindowDigits(row, from)
    decreases 16 - from
  {
    if from < 16 {
      WindowDigitsTruncate(row, from + 1);
    } else {
      WindowDigitsPastWindow(row, from);
    }
  }

  /** Cells after index 15 never change the DNI. */
  lemma DniIgnoresTrailingCells(row: Row)
    requires |row| >= 16
    ensures Dni(row[..16]) == Dni(row)
  {
    WindowDigitsTruncate(row, 0);
  }

  // ---------------------------------------------------------------- grades and status

  /** The achievement levels that feed CGE 1. */
  predicate IsLevel(c: string)
  {
    c == "AD" || c == "A" || c == "B" || c == "C"
  }

  /** The final-situation codes that feed CGE 2. */
  predicate IsStatus(c: string)
  {
    c == "PRO" || c == "PG" || c == "RR" || c == "R" || c == "F" || c == "PER"
  }

  /** The row's level cells in cell order, duplicates kept. */
  function Levels(row: Row): (ls: seq<string>)
    ensures forall k :: 0 <= k < |ls| ==> IsLevel(ls[k])
  {
    if row == [] then []
    else Levels(row[..|row| - 1]) + (if IsLevel(row[|row| - 1]) then [row[|row| - 1]] else [])
  }

  /** Appending one cell appends it to the levels exactly when it is a level. */
  lemma LevelsSnoc(row: Row, c: string)
    ensures Levels(row + [c]) == Levels(row) + (if IsLevel(c) then [c] else [])
  {
    assert (row + [c])[..|row|] == row;
  }

  /** Levels of two rows laid end to end are the levels of the first, then
      those of the second: the cell order is kept. */
  lemma {:induction false} LevelsAppend(a: Row, b: Row)
    ensures Levels(a + b) == Levels(a) + Levels(b)
    decreases |b|
  {
    if b == [] {
      assert a + b == a;
    } else {
      var init := b[..|b| - 1];
      var last := b[|b| - 1];
      LevelsAppend(a, init);
      assert a + b == (a + init) + [last];
      LevelsSnoc(a + init, last);
      var tail := if IsLevel(last) then [last] else [];
      assert Levels(a) + Levels(init) + tail == Levels(a) + (Levels(init) + tail);
    }
  }

  /** Levels keeps each level cell of the row as often as it occurs, and nothing else. */
  lemma {:induction false} LevelsCount(row: Row, c: string)
    ensures Count(Levels(row), c) == (if IsLevel(c) then Count(row, c) else 0)
    decreases |row|
  {
    if row != [] {
      var init := row[..|row| - 1];
      var last := row[|row| - 1];
      LevelsCount(init, c);
      CountAppend(Levels(init), if IsLevel(last) then [last] else [], c);
    }
  }

  /** `sit_final[0]` for `sit_final = [c for c in f_str if c in STATUS]`: the
      row's first status cell, if any. */
  function FirstStatus(row: Row): (s: Option<string>)
    ensures s.Some? ==> IsStatus(s.value) && s.value in row
    ensures s.None? <==> forall i :: 0 <= i < |row| ==> !IsStatus(row[i])
    ensures forall j :: 0 <= j < |row| && IsStatus(row[j]) && (forall i :: 0 <= i < j ==> !IsStatus(row[i])) ==> s == Some(row[j])
  {
    if row == [] then None
    else if IsStatus(row[0]) then Some(row[0])
    else
      assert forall j :: 1 <= j < |row| ==> row[j] == row[1..][j - 1];
      FirstStatus(row[1..])
  }
}
