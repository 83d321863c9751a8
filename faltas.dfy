/** The absence log (the "Faltas" sheet): the rows one submission builds, their
    concatenation to the log, the completion and ordering of its columns before it
    is written, and the count behind the repeat-offence alerts. */
module Faltas {
  import opened Text
  import opened Roster
  import opened Wrappers

  /** One row of the log, from column name to cell text. A column of the table
      that a row has no key for is an empty (NaN) cell of that row. */
  type Row = map<string, string>

  /** The log as a data frame: its column names in order and its rows. */
  datatype Table = Table(columns: seq<string>, rows: seq<Row>)

  /** The nine columns of the "Faltas" sheet, in the order they are written. */
  const Canonical: seq<string> := ["Cédula", "Nombre", "Apellido", "Año", "Mención", "Fecha", "Semana", "Falta", "Mes"]

  /** How many matching rows make a repeat offence. */
  const AlertThreshold: nat := 3

  predicate Distinct(s: seq<string>)
  {
    forall i, j :: 0 <= i < j < |s| ==> s[i] != s[j]
  }

  function ColumnSet(cols: seq<string>): set<string>
  {
    set c | c in cols
  }

  /** Column names are unique and no row has a cell outside the columns. */
  predicate WellFormed(t: Table)
  {
    Distinct(t.columns) && forall j :: 0 <= j < |t.rows| ==> t.rows[j].Keys <= ColumnSet(t.columns)
  }

  /** No two canonical names agree on their length and first two characters. */
  lemma CanonicalDistinct()
    ensures Distinct(Canonical)
  {
    forall i, j | 0 <= i < j < |Canonical|
      ensures Canonical[i] != Canonical[j]
    {
      assert |Canonical[i]| != |Canonical[j]| || Canonical[i][0] != Canonical[j][0] || Canonical[i][1] != Canonical[j][1];
    }
  }

  /** The nine columns as a set. */
  lemma CanonicalColumnSet()
    ensures ColumnSet(Canonical) == {"Cédula", "Nombre", "Apellido", "Año", "Mención", "Fecha", "Semana", "Falta", "Mes"}
  {
  }

  /** The table that stands in for a missing "Faltas" sheet: the nine columns, no rows. */
  function EmptyLog(): (t: Table)
    ensures WellFormed(t) && t.columns == Canonical && t.rows == []
  {
    CanonicalDistinct();
    Table(Canonical, [])
  }

  /** The log a run of the form starts from: the "Faltas" sheet of the workbook,
      or the empty log when the workbook has no such sheet. */
  function LoadedLog(sheet: Option<Table>): (t: Table)
    requires sheet.Some? ==> WellFormed(sheet.value)
    ensures WellFormed(t)
    ensures sheet.None? ==> t.rows == [] && t.columns == Canonical
  {
    if sheet.Some? then sheet.value else EmptyLog()
  }

  // ---------------------------------------------------------------------------
  // Building and appending the rows of one submission

  /** The row for one selected falta: the Cédula split off the label, the other
      student fields from the roster row, the date, the week and the month. */
  function NewRow(cedula: string, st: Student, fecha: string, semana: string, falta: string, mes: string): (r: Row)
    ensures r.Keys == ColumnSet(Canonical)
    ensures r["Cédula"] == cedula && r["Falta"] == falta && r["Mes"] == mes
  {
    RowKeys(cedula, st.nombre, st.apellido, st.anio, st.mencion, fecha, semana, falta, mes);
    map["Cédula" := cedula, "Nombre" := st.nombre, "Apellido" := st.apellido, "Año" := st.anio,
        "Mención" := st.mencion, "Fecha" := fecha, "Semana" := semana, "Falta" := falta, "Mes" := mes]
  }

  /** A row with a cell for each of the nine columns has exactly the nine keys. */
  lemma RowKeys(a: string, b: string, c: string, d: string, e: string, f: string, g: string, h: string, i: string)
    ensures map["Cédula" := a, "Nombre" := b, "Apellido" := c, "Año" := d, "Mención" := e,
                "Fecha" := f, "Semana" := g, "Falta" := h, "Mes" := i].Keys == ColumnSet(Canonical)
  {
    CanonicalColumnSet();
  }

  /** The new frame: one row per selected falta, in selection order. */
  function NewRows(cedula: string, st: Student, fecha: string, semana: string, faltas: seq<string>, mes: string): (r: seq<Row>)
    ensures |r| == |faltas|
  {
    seq(|faltas|, i requires 0 <= i < |faltas| => NewRow(cedula, st, fecha, semana, faltas[i], mes))
  }

  /** Every new row has exactly the nine columns, the i-th row's Falta is the i-th
      selection, its Cédula is the one split off the label and its Mes the month
      of the date, and all rows agree on every column but Falta. */
  lemma NewRowsShape(cedula: string, st: Student, fecha: string, semana: string, faltas: seq<string>, mes: string)
    ensures var r := NewRows(cedula, st, fecha, semana, faltas, mes);
      (forall i :: 0 <= i < |r| ==> r[i].Keys == ColumnSet(Canonical) && r[i]["Falta"] == faltas[i]) &&
      (forall i :: 0 <= i < |r| ==> r[i]["Cédula"] == cedula && r[i]["Mes"] == mes) &&
      (forall i, j, c :: 0 <= i < |r| && 0 <= j < |r| && c in r[i] && c != "Falta" ==> c in r[j] && r[i][c] == r[j][c])
  {
    var r := NewRows(cedula, st, fecha, semana, faltas, mes);
    forall i, j, c | 0 <= i < |r| && 0 <= j < |r| && c in r[i] && c != "Falta"
      ensures c in r[j] && r[i][c] == r[j][c]
    {
      NewRowOnlyFaltaVaries(cedula, st, fecha, semana, faltas[i], faltas[j], mes);
    }
  }

  /** The rows of two faltas of one submission differ in the Falta cell only. */
  lemma NewRowOnlyFaltaVaries(cedula: string, st: Student, fecha: string, semana: string, f: string, g: string, mes: string)
    ensures NewRow(cedula, st, fecha, semana, g, mes) == NewRow(cedula, st, fecha, semana, f, mes)["Falta" := g]
  {
  }

  /** The cells of the new rows lie in the nine columns. */
  lemma NewRowsInCanonical(cedula: string, st: Student, fecha: string, semana: string, faltas: seq<string>, mes: string)
    ensures forall i :: 0 <= i < |faltas| ==> NewRows(cedula, st, fecha, semana, faltas, mes)[i].Keys <= ColumnSet(Canonical)
  {
    NewRowsShape(cedula, st, fecha, semana, faltas, mes);
  }

  /** The column union of a concatenation: the columns of `a`, then those of `b`
      that `a` lacks, in their order in `b`. */
  function MergeColumns(a: seq<string>, b: seq<string>): (r: seq<string>)
    ensures |r| >= |a| && r[..|a|] == a
    ensures ColumnSet(r) == ColumnSet(a) + ColumnSet(b)
    ensures Distinct(a) ==> Distinct(r)
    decreases |b|
  {
    if b == [] then a
    else
      var a' := if b[0] in a then a else a + [b[0]];
      assert ColumnSet(a') == ColumnSet(a) + {b[0]};
      assert ColumnSet(b) == {b[0]} + ColumnSet(b[1..]);
      var r := MergeColumns(a', b[1..]);
      assert r[..|a|] == r[..|a'|][..|a|];
      r
  }

  /** A union with columns that are all present already adds nothing. */
  lemma {:induction false} MergeKnownColumns(a: seq<string>, b: seq<string>)
    requires ColumnSet(b) <= ColumnSet(a)
    ensures MergeColumns(a, b) == a
    decreases |b|
  {
    if b != [] {
      assert b[0] in ColumnSet(b);
      assert ColumnSet(b[1..]) <= ColumnSet(b);
      MergeKnownColumns(a, b[1..]);
    }
  }

  /** The log after the new rows are concatenated to it. The new frame has the nine
      columns when it has rows and no columns when it has none. */
  function Concat(t: Table, newRows: seq<Row>): (r: Table)
    ensures |r.rows| == |t.rows| + |newRows|
    ensures r.rows[..|t.rows|] == t.rows && r.rows[|t.rows|..] == newRows
    ensures |r.columns| >= |t.columns| && r.columns[..|t.columns|] == t.columns
  {
    Table(MergeColumns(t.columns, if newRows == [] then [] else Canonical), t.rows + newRows)
  }

  /** Appending rows whose cells lie in `extra` keeps a log well formed under any
      list of distinct columns that covers the old columns and `extra`. */
  lemma {:induction false} WidenedWellFormed(t: Table, extra: seq<string>, cols: seq<string>, newRows: seq<Row>)
    requires WellFormed(t) && Distinct(cols)
    requires ColumnSet(t.columns) <= ColumnSet(cols) && ColumnSet(extra) <= ColumnSet(cols)
    requires forall i :: 0 <= i < |newRows| ==> newRows[i].Keys <= ColumnSet(extra)
    ensures WellFormed(Table(cols, t.rows + newRows))
  {
    var rows := t.rows + newRows;
    forall j | 0 <= j < |rows|
      ensures rows[j].Keys <= ColumnSet(cols)
    {
      if j < |t.rows| {
        assert rows[j] == t.rows[j];
      } else {
        assert rows[j] == newRows[j - |t.rows|];
      }
    }
  }

  /** Concatenating rows whose cells lie in the nine columns keeps a log well formed. */
  lemma ConcatWellFormed(t: Table, newRows: seq<Row>)
    requires WellFormed(t)
    requires forall i :: 0 <= i < |newRows| ==> newRows[i].Keys <= ColumnSet(Canonical)
    ensures WellFormed(Concat(t, newRows))
  {
    var extra := if newRows == [] then [] else Canonical;
    WidenedWellFormed(t, extra, MergeColumns(t.columns, extra), newRows);
  }

  // ---------------------------------------------------------------------------
  // Completing and ordering the columns before the log is written

  /** The canonical columns of `cs` that `cols` lacks, in the order of `cs`. */
  function Absent(cols: seq<string>, cs: seq<string>): seq<string>
  {
    if cs == [] then []
    else Absent(cols, cs[..|cs| - 1]) + (if cs[|cs| - 1] in cols then [] else [cs[|cs| - 1]])
  }

  lemma {:induction false} AbsentMembers(cols: seq<string>, cs: seq<string>)
    ensures forall c :: c in Absent(cols, cs) <==> c in cs && c !in cols
    decreases |cs|
  {
    if cs != [] {
      AbsentMembers(cols, cs[..|cs| - 1]);
      assert cs == cs[..|cs| - 1] + [cs[|cs| - 1]];
    }
  }

  /** A row after every column of `cs` that `cols` lacks has been added, filled with "". */
  function Fill(r: Row, cols: seq<string>, cs: seq<string>): Row
  {
    r + map c | c in cs && c !in cols :: ""
  }

  /** `df[col] = ""`: a new last column holding "" in every row. */
  function AddColumn(t: Table, col: string): (r: Table)
    ensures r.columns == t.columns + [col] && |r.rows| == |t.rows|
    ensures forall j :: 0 <= j < |r.rows| ==> r.rows[j].Keys == t.rows[j].Keys + {col} && r.rows[j][col] == ""
    ensures forall j, c :: 0 <= j < |r.rows| && c in t.rows[j] && c != col ==> r.rows[j][c] == t.rows[j][c]
  {
    Table(t.columns + [col], seq(|t.rows|, j requires 0 <= j < |t.rows| => t.rows[j][col := ""]))
  }

  /** The log once every column of `cs` that it lacked has been added in the
      order of `cs`, each filled with "". */
  function Filled(t: Table, cs: seq<string>): Table
  {
    Table(t.columns + Absent(t.columns, cs), seq(|t.rows|, j requires 0 <= j < |t.rows| => Fill(t.rows[j], t.columns, cs)))
  }

  /** Filling one more column is one more cell assignment, or none when the
      table had that column. */
  lemma FillStep(r: Row, cols: seq<string>, cs: seq<string>, col: string)
    ensures Fill(r, cols, cs + [col]) == if col in cols then Fill(r, cols, cs) else Fill(r, cols, cs)[col := ""]
  {
  }

  /** Before any column is added the log is as it was. */
  lemma FilledNone(t: Table)
    ensures Filled(t, []) == t
  {
    assert t.columns + Absent(t.columns, []) == t.columns;
    forall j | 0 <= j < |t.rows|
      ensures Fill(t.rows[j], t.columns, []) == t.rows[j]
    {
    }
  }

  /** Adding the columns one at a time: the next column is added exactly when the
      log still lacks it, and the log stays well formed. */
  lemma FilledStep(t: Table, cs: seq<string>, col: string)
    requires WellFormed(t) && Distinct(cs + [col])
    ensures WellFormed(Filled(t, cs))
    ensures col in Filled(t, cs).columns <==> col in t.columns
    ensures Filled(t, cs + [col]) == if col in t.columns then Filled(t, cs) else AddColumn(Filled(t, cs), col)
  {
    var f := Filled(t, cs);
    var cs' := cs + [col];
    AbsentMembers(t.columns, cs);
    assert cs'[..|cs|] == cs;
    assert col !in cs by {
      forall i | 0 <= i < |cs| ensures cs[i] != col {
        assert cs[i] == cs'[i] && col == cs'[|cs|];
      }
    }
    assert Distinct(cs) by {
      forall i, j | 0 <= i < j < |cs| ensures cs[i] != cs[j] {
        assert cs[i] == cs'[i] && cs[j] == cs'[j];
      }
    }
    assert Distinct(f.columns) by {
      AbsentDistinct(t.columns, cs);
      forall i, j | 0 <= i < j < |f.columns|
        ensures f.columns[i] != f.columns[j]
      {
        if j < |t.columns| {
        } else if i >= |t.columns| {
          assert f.columns[i] == Absent(t.columns, cs)[i - |t.columns|];
          assert f.columns[j] == Absent(t.columns, cs)[j - |t.columns|];
        } else {
          assert f.columns[j] in Absent(t.columns, cs);
          assert f.columns[i] in t.columns;
        }
      }
    }
    forall j | 0 <= j < |f.rows|
      ensures f.rows[j].Keys <= ColumnSet(f.columns)
    {
      assert t.rows[j].Keys <= ColumnSet(t.columns);
    }
    var g := Filled(t, cs');
    assert g.columns == f.columns + (if col in t.columns then [] else [col]);
    forall j | 0 <= j < |t.rows|
      ensures g.rows[j] == if col in t.columns then f.rows[j] else f.rows[j][col := ""]
    {
      FillStep(t.rows[j], t.columns, cs, col);
    }
  }

  /** Each absent column is listed once. */
  lemma {:induction false} AbsentDistinct(cols: seq<string>, cs: seq<string>)
    ensures Distinct(cs) ==> Distinct(Absent(cols, cs))
    decreases |cs|
  {
    if cs != [] {
      var init := cs[..|cs| - 1];
      AbsentDistinct(cols, init);
      AbsentMembers(cols, init);
      if Distinct(cs) {
        assert Distinct(init);
        assert cs[|cs| - 1] !in init;
      }
    }
  }

  /** A row restricted to the nine columns. */
  function Project(r: Row): Row
  {
    map c | c in Canonical && c in r :: r[c]
  }

  /** A row as the log holds it once its columns are completed and reordered: a
      column the table had keeps the row's cell (empty stays empty), a column it
      lacked holds "", and nothing outside the nine columns remains. */
  function NormalizedRow(r: Row, cols: seq<string>): (n: Row)
    ensures n.Keys <= ColumnSet(Canonical)
    ensures forall c :: c in Canonical && c in cols ==> (c in n <==> c in r) && (c in r ==> n[c] == r[c])
    ensures forall c :: c in Canonical && c !in cols ==> c in n && n[c] == ""
  {
    Project(Fill(r, cols, Canonical))
  }

  /** The log with exactly the nine columns in canonical order and the same rows,
      each normalised. */
  function Normalized(t: Table): (n: Table)
    ensures n.columns == Canonical && |n.rows| == |t.rows| && WellFormed(n)
    ensures forall j :: 0 <= j < |t.rows| ==> n.rows[j] == NormalizedRow(t.rows[j], t.columns)
  {
    CanonicalDistinct();
    Table(Canonical, seq(|t.rows|, j requires 0 <= j < |t.rows| => NormalizedRow(t.rows[j], t.columns)))
  }

  /** The reordering `df[Canonical]`: exactly the nine columns, in canonical order. */
  function Reorder(t: Table): (r: Table)
    ensures r.columns == Canonical && |r.rows| == |t.rows|
    ensures forall j :: 0 <= j < |r.rows| ==> r.rows[j].Keys == t.rows[j].Keys * ColumnSet(Canonical)
    ensures forall j, c :: 0 <= j < |r.rows| && c in r.rows[j] ==> c in t.rows[j] && r.rows[j][c] == t.rows[j][c]
  {
    Table(Canonical, seq(|t.rows|, j requires 0 <= j < |t.rows| => Project(t.rows[j])))
  }

  /** Adding the missing columns and then reordering is normalising. */
  lemma FilledThenReordered(t: Table)
    ensures Reorder(Filled(t, Canonical)) == Normalized(t)
  {
  }

  /** Normalising a log that already has the nine columns changes nothing. */
  lemma NormalizeIdempotent(t: Table)
    requires WellFormed(t) && t.columns == Canonical
    ensures Normalized(t) == t
  {
    var n := Normalized(t);
    forall j | 0 <= j < |t.rows|
      ensures n.rows[j] == t.rows[j]
    {
      assert n.rows[j].Keys == t.rows[j].Keys;
    }
  }

  // ---------------------------------------------------------------------------
  // Counting repeat offences

  /** The three-column filter of the alert scan: same Cédula, Falta and Mes. An
      empty cell equals nothing. */
  predicate Counted(r: Row, cedula: string, falta: string, mes: string)
  {
    "Cédula" in r && r["Cédula"] == cedula && "Falta" in r && r["Falta"] == falta && "Mes" in r && r["Mes"] == mes
  }

  /** The number of rows of the filtered frame. */
  function Count(rows: seq<Row>, cedula: string, falta: string, mes: string): (n: nat)
    ensures n <= |rows|
  {
    if rows == [] then 0
    else (if Counted(rows[0], cedula, falta, mes) then 1 else 0) + Count(rows[1..], cedula, falta, mes)
  }

  lemma {:induction false} CountAppend(a: seq<Row>, b: seq<Row>, cedula: string, falta: string, mes: string)
    ensures Count(a + b, cedula, falta, mes) == Count(a, cedula, falta, mes) + Count(b, cedula, falta, mes)
    decreases |a|
  {
    if a == [] {
      assert a + b == b;
    } else {
      assert (a + b)[0] == a[0];
      assert (a + b)[1..] == a[1..] + b;
      CountAppend(a[1..], b, cedula, falta, mes);
    }
  }

  /** Rows that are counted exactly where the selection holds `f` count as many
      rows as the selection holds `f`. */
  lemma {:induction false} CountMatching(rows: seq<Row>, faltas: seq<string>, cedula: string, f: string, mes: string)
    requires |rows| == |faltas|
    requires forall i :: 0 <= i < |rows| ==> (Counted(rows[i], cedula, f, mes) <==> faltas[i] == f)
    ensures Count(rows, cedula, f, mes) == multiset(faltas)[f]
    decreases |rows|
  {
    if rows != [] {
      CountMatching(rows[1..], faltas[1..], cedula, f, mes);
      assert faltas == [faltas[0]] + faltas[1..];
    }
  }

  /** The rows of one submission hold each falta as often as it was selected. */
  lemma CountNewRows(cedula: string, st: Student, fecha: string, semana: string, faltas: seq<string>, mes: string, f: string)
    ensures Count(NewRows(cedula, st, fecha, semana, faltas, mes), cedula, f, mes) == multiset(faltas)[f]
  {
    var rows := NewRows(cedula, st, fecha, semana, faltas, mes);
    forall i | 0 <= i < |rows|
      ensures Counted(rows[i], cedula, f, mes) <==> faltas[i] == f
    {
      assert rows[i] == NewRow(cedula, st, fecha, semana, faltas[i], mes);
    }
    CountMatching(rows, faltas, cedula, f, mes);
  }

  /** Normalising loses no counted row of a well-formed log: the three filter
      columns of a counted row are columns of the table, so they keep their cells. */
  lemma {:induction false} CountNormalized(t: Table, cedula: string, falta: string, mes: string)
    requires WellFormed(t)
    ensures Count(Normalized(t).rows, cedula, falta, mes) >= Count(t.rows, cedula, falta, mes)
    decreases |t.rows|
  {
    if t.rows != [] {
      var rest := Table(t.columns, t.rows[1..]);
      CountNormalized(rest, cedula, falta, mes);
      assert Normalized(t).rows[1..] == Normalized(rest).rows;
      if Counted(t.rows[0], cedula, falta, mes) {
        assert Counted(Normalized(t).rows[0], cedula, falta, mes);
      }
    }
  }

  // ---------------------------------------------------------------------------
  // Alerts

  /** "⚠️ Alerta: {Cédula} tiene {conteo} faltas de tipo '{falta}' en {mes}." */
  function AlertMessage(cedula: string, conteo: nat, falta: string, mes: string): (r: string)
    ensures |r| > |AlertPrefix| + |cedula| + |mes|
    ensures r[..|AlertPrefix|] == AlertPrefix && r[|AlertPrefix|..|AlertPrefix| + |cedula|] == cedula
    ensures r[|r| - |mes| - 1..] == mes + "."
  {
    var r := AlertPrefix + cedula + " tiene " + NatToString(conteo) + " faltas de tipo '" + falta + "' en " + mes + ".";
    assert r == (AlertPrefix + cedula) + (" tiene " + NatToString(conteo) + " faltas de tipo '" + falta + "' en ") + (mes + ".");
    r
  }

  /** An alert names its count and its falta unambiguously: two alerts for the
      same Cédula and month are the same text only when they report the same
      count of the same falta. */
  lemma AlertMessageDeterminesCount(cedula: string, n1: nat, f1: string, n2: nat, f2: string, mes: string)
    requires AlertMessage(cedula, n1, f1, mes) == AlertMessage(cedula, n2, f2, mes)
    ensures n1 == n2 && f1 == f2
  {
    var p, h, e := AlertPrefix + cedula + " tiene ", " faltas de tipo '", "' en " + mes + ".";
    AlertMessageParts(cedula, n1, f1, mes);
    AlertMessageParts(cedula, n2, f2, mes);
    FieldsApart(p, NatToString(n1), NatToString(n2), h, f1, f2, e);
    NatToStringRoundTrip(n1);
    NatToStringRoundTrip(n2);
  }

  /** The alert text split at the count and at the falta. */
  lemma AlertMessageParts(cedula: string, conteo: nat, falta: string, mes: string)
    ensures AlertMessage(cedula, conteo, falta, mes)
         == (AlertPrefix + cedula + " tiene ") + (NatToString(conteo) + (" faltas de tipo '" + falta + ("' en " + mes + ".")))
  {
  }

  /** Once a common opening is removed, digits followed by a space-led heading,
      then a field, then a common ending, give back both the digits and the field. */
  lemma FieldsApart(p: string, d1: string, d2: string, h: string, f1: string, f2: string, e: string)
    requires AllDigits(d1) && AllDigits(d2) && h != [] && h[0] == ' '
    requires p + (d1 + (h + f1 + e)) == p + (d2 + (h + f2 + e))
    ensures d1 == d2 && f1 == f2
  {
    assert d1 + (h + f1 + e) == (p + (d1 + (h + f1 + e)))[|p|..];
    assert d2 + (h + f2 + e) == (p + (d2 + (h + f2 + e)))[|p|..];
    DigitsBeforeSpace(d1, d2, h + f1 + e, h + f2 + e);
    assert f1 == (h + f1 + e)[|h|..|h| + |f1|];
    assert f2 == (h + f2 + e)[|h|..|h| + |f2|];
  }

  /** The warning sign and the word that open every alert. */
  const AlertPrefix: string := "\U{26A0}\U{FE0F} Alerta: "

  /** The alert one selected falta raises: one message when its count reaches the
      threshold, none otherwise. */
  function AlertFor(rows: seq<Row>, cedula: string, mes: string, falta: string): (r: seq<string>)
    ensures |r| <= 1
    ensures r != [] <==> Count(rows, cedula, falta, mes) >= AlertThreshold
    ensures forall m :: m in r ==> m == AlertMessage(cedula, Count(rows, cedula, falta, mes), falta, mes)
  {
    var conteo := Count(rows, cedula, falta, mes);
    if conteo >= AlertThreshold then [AlertMessage(cedula, conteo, falta, mes)] else []
  }

  /** The alerts of a submission, in selection order. */
  function AlertList(rows: seq<Row>, cedula: string, mes: string, faltas: seq<string>): (r: seq<string>)
    ensures |r| <= |faltas|
    ensures faltas == [] ==> r == []
    decreases |faltas|
  {
    if faltas == [] then []
    else AlertList(rows, cedula, mes, faltas[..|faltas| - 1]) + AlertFor(rows, cedula, mes, faltas[|faltas| - 1])
  }

  /** Alerts follow the selection: the alerts of two runs of selections are the
      alerts of the first followed by those of the second. */
  lemma {:induction false} AlertListSplit(rows: seq<Row>, cedula: string, mes: string, a: seq<string>, b: seq<string>)
    ensures AlertList(rows, cedula, mes, a + b) == AlertList(rows, cedula, mes, a) + AlertList(rows, cedula, mes, b)
    decreases |b|
  {
    if b == [] {
      assert a + b == a;
    } else {
      var b' := b[..|b| - 1];
      assert (a + b)[..|a + b| - 1] == a + b';
      AlertListSplit(rows, cedula, mes, a, b');
    }
  }

  /** At most one alert per selection; every selected falta whose count reaches the
      threshold is reported with its count; and every alert reports a selected falta
      whose count reached the threshold, so a count below it is never reported. */
  lemma {:induction false} AlertListCharacterised(rows: seq<Row>, cedula: string, mes: string, faltas: seq<string>)
    ensures |AlertList(rows, cedula, mes, faltas)| <= |faltas|
    ensures forall f :: f in faltas && Count(rows, cedula, f, mes) >= AlertThreshold ==>
      AlertMessage(cedula, Count(rows, cedula, f, mes), f, mes) in AlertList(rows, cedula, mes, faltas)
    ensures forall m :: m in AlertList(rows, cedula, mes, faltas) ==>
      exists f :: f in faltas && Count(rows, cedula, f, mes) >= AlertThreshold && m == AlertMessage(cedula, Count(rows, cedula, f, mes), f, mes)
    decreases |faltas|
  {
    if faltas != [] {
      var init := faltas[..|faltas| - 1];
      var last := faltas[|faltas| - 1];
      AlertListCharacterised(rows, cedula, mes, init);
      assert faltas == init + [last];
      forall m | m in AlertList(rows, cedula, mes, faltas)
        ensures exists f :: f in faltas && Count(rows, cedula, f, mes) >= AlertThreshold && m == AlertMessage(cedula, Count(rows, cedula, f, mes), f, mes)
      {
        if m in AlertList(rows, cedula, mes, init) {
          var f :| f in init && Count(rows, cedula, f, mes) >= AlertThreshold && m == AlertMessage(cedula, Count(rows, cedula, f, mes), f, mes);
          assert f in faltas;
        } else {
          assert last in faltas;
        }
      }
    }
  }

  /** The alert scan (the loop over the selected faltas): for each selection, in
      order, count the matching rows of the log and report a count of three or more. */
  method CheckRecidivism(rows: seq<Row>, cedula: string, mes: string, faltas: seq<string>) returns (alertas: seq<string>)
    ensures alertas == AlertList(rows, cedula, mes, faltas)
    ensures faltas == [] ==> alertas == []
  {
    alertas := [];
    for i := 0 to |faltas|
      invariant alertas == AlertList(rows, cedula, mes, faltas[..i])
    {
      var falta := faltas[i];
      var conteo := Count(rows, cedula, falta, mes);
      if conteo >= AlertThreshold {
        alertas := alertas + [AlertMessage(cedula, conteo, falta, mes)];
      }
      assert faltas[..i + 1][..i] == faltas[..i];
    }
    assert faltas[..|faltas|] == faltas;
  }

  // ---------------------------------------------------------------------------
  // One submission, end to end on values

  /** The log a submission leaves in memory: the new rows concatenated, then the
      columns completed and reordered. */
  function AfterSubmission(t: Table, cedula: string, st: Student, fecha: string, semana: string, faltas: seq<string>, mes: string): (r: Table)
    ensures r.columns == Canonical && WellFormed(r)
    ensures |r.rows| == |t.rows| + |faltas|
  {
    Normalized(Concat(t, NewRows(cedula, st, fecha, semana, faltas, mes)))
  }

  /** A submission grows the log by one row per selection, and on a log that
      already has the nine columns (any log this form has written) it only
      appends: every earlier row is kept as it was, the new rows follow in
      selection order, and zero selections leave the log as it was. */
  lemma SubmissionAppends(t: Table, cedula: string, st: Student, fecha: string, semana: string, faltas: seq<string>, mes: string)
    requires WellFormed(t)
    ensures |AfterSubmission(t, cedula, st, fecha, semana, faltas, mes).rows| == |t.rows| + |faltas|
    ensures t.columns == Canonical ==>
      AfterSubmission(t, cedula, st, fecha, semana, faltas, mes) == Table(Canonical, t.rows + NewRows(cedula, st, fecha, semana, faltas, mes))
  {
    var added := NewRows(cedula, st, fecha, semana, faltas, mes);
    NewRowsInCanonical(cedula, st, fecha, semana, faltas, mes);
    ConcatWellFormed(t, added);
    if t.columns == Canonical {
      MergeKnownColumns(Canonical, if added == [] then [] else Canonical);
      assert Concat(t, added) == Table(Canonical, t.rows + added);
      NormalizeIdempotent(Concat(t, added));
    }
  }

  /** The scan runs on the log that already holds the new rows, so each selected
      falta counts at least its earlier matching rows plus its own selections,
      hence at least one. */
  lemma SelectedFaltasCounted(t: Table, cedula: string, st: Student, fecha: string, semana: string, faltas: seq<string>, mes: string, f: string)
    requires WellFormed(t)
    ensures Count(AfterSubmission(t, cedula, st, fecha, semana, faltas, mes).rows, cedula, f, mes) >= Count(t.rows, cedula, f, mes) + multiset(faltas)[f]
    ensures f in faltas ==> Count(AfterSubmission(t, cedula, st, fecha, semana, faltas, mes).rows, cedula, f, mes) >= 1
  {
    var added := NewRows(cedula, st, fecha, semana, faltas, mes);
    var c := Concat(t, added);
    NewRowsInCanonical(cedula, st, fecha, semana, faltas, mes);
    ConcatWellFormed(t, added);
    assert c.rows == t.rows + added;
    CountAppend(t.rows, added, cedula, f, mes);
    CountNewRows(cedula, st, fecha, semana, faltas, mes, f);
    CountNormalized(c, cedula, f, mes);
    assert Count(c.rows, cedula, f, mes) == Count(t.rows, cedula, f, mes) + multiset(faltas)[f];
    assert f in faltas ==> multiset(faltas)[f] >= 1;
  }

  /** On a log that already has the nine columns the count after a submission is
      exactly the earlier count plus the number of times the falta was selected. */
  lemma CountAfterSubmission(t: Table, cedula: string, st: Student, fecha: string, semana: string, faltas: seq<string>, mes: string, f: string)
    requires WellFormed(t) && t.columns == Canonical
    ensures Count(AfterSubmission(t, cedula, st, fecha, semana, faltas, mes).rows, cedula, f, mes) == Count(t.rows, cedula, f, mes) + multiset(faltas)[f]
  {
    var added := NewRows(cedula, st, fecha, semana, faltas, mes);
    SubmissionAppends(t, cedula, st, fecha, semana, faltas, mes);
    CountAppend(t.rows, added, cedula, f, mes);
    CountNewRows(cedula, st, fecha, semana, faltas, mes, f);
  }

  /** Two earlier matching rows plus one new selection of the same falta make
      three, and the submission raises exactly one alert, carrying that count. */
  lemma ThirdOccurrenceAlerts(t: Table, cedula: string, st: Student, fecha: string, semana: string, f: string, mes: string)
    requires WellFormed(t) && t.columns == Canonical
    requires Count(t.rows, cedula, f, mes) == 2
    ensures AlertList(AfterSubmission(t, cedula, st, fecha, semana, [f], mes).rows, cedula, mes, [f]) == [AlertMessage(cedula, 3, f, mes)]
  {
    CountOneMore(t, cedula, st, fecha, semana, f, mes);
    SingleAlert(AfterSubmission(t, cedula, st, fecha, semana, [f], mes).rows, cedula, mes, f);
  }

  /** One more selection of a falta adds one to its count on a log with the nine columns. */
  lemma CountOneMore(t: Table, cedula: string, st: Student, fecha: string, semana: string, f: string, mes: string)
    requires WellFormed(t) && t.columns == Canonical
    ensures Count(AfterSubmission(t, cedula, st, fecha, semana, [f], mes).rows, cedula, f, mes) == Count(t.rows, cedula, f, mes) + 1
  {
    CountAfterSubmission(t, cedula, st, fecha, semana, [f], mes, f);
    assert multiset([f])[f] == 1;
  }

  /** A single selection raises one alert exactly when its count reaches the threshold. */
  lemma SingleAlert(rows: seq<Row>, cedula: string, mes: string, f: string)
    ensures AlertList(rows, cedula, mes, [f]) == AlertFor(rows, cedula, mes, f)
  {
    assert [f][..0] == [];
  }

  /** A submission of a different falta does not move the count of the first. */
  lemma OtherFaltaLeavesCount(t: Table, cedula: string, st: Student, fecha: string, semana: string, f: string, g: string, mes: string)
    requires WellFormed(t) && t.columns == Canonical
    requires g != f
    ensures Count(AfterSubmission(t, cedula, st, fecha, semana, [g], mes).rows, cedula, f, mes) == Count(t.rows, cedula, f, mes)
  {
    CountAfterSubmission(t, cedula, st, fecha, semana, [g], mes, f);
    assert multiset([g])[f] == 0;
  }
}
