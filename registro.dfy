/** One session of the form: the roster, the absence log held in memory and the
    absence sheet of the workbook, and the "Registrar faltas" action. Every press
    of the button runs the whole script again, so the action first reloads the log
    from the workbook, then appends the new rows, completes and orders the log's
    columns, writes the workbook and scans for repeat offences. The writing of the
    workbook is a step that succeeds or fails as its `writeOk` argument says. */
module Registro {
  import opened Wrappers
  import opened Roster
  import opened Calendar
  import opened Faltas
  import opened Text

  /** What a press of the button leaves on screen: no student behind the chosen
      label (the positional lookup fails), or the rows were registered, saved or
      not, with the alert lines. */
  datatype Outcome = NotFound | Registered(saved: bool, alerts: seq<string>)

  class Session {
    /** The "Estudiantes" sheet; never changed by the form. */
    const roster: seq<Student>
    /** The "Faltas" sheet as held in memory. */
    var log: Table
    /** The "Faltas" sheet as last written to the workbook; `None` while the
        workbook has none. */
    var stored: Option<Table>

    ghost predicate Valid()
      reads this
    {
      WellFormed(log) && (stored.Some? ==> WellFormed(stored.value))
    }

    /** Opening the workbook: a missing "Estudiantes" sheet is an empty roster and
        a missing "Faltas" sheet an empty log with the nine columns. */
    constructor (estudiantes: Option<seq<Student>>, faltas: Option<Table>)
      requires faltas.Some? ==> WellFormed(faltas.value)
      ensures Valid()
      ensures roster == (if estudiantes.Some? then estudiantes.value else [])
      ensures log == LoadedLog(faltas) && stored == faltas
    {
      roster := if estudiantes.Some? then estudiantes.value else [];
      log := LoadedLog(faltas);
      stored := faltas;
    }

    /** The start of every run of the script: the log is read again from the
        workbook, so rows that were never written are gone. */
    method Reload()
      requires Valid()
      modifies this
      ensures Valid()
      ensures log == LoadedLog(stored) && stored == old(stored)
    {
      log := LoadedLog(stored);
    }

    /** The concatenation of the new frame to the log: the rows are appended and
        every earlier row stays as it was. */
    method AppendRows(nuevas: seq<Row>)
      requires Valid()
      requires forall i :: 0 <= i < |nuevas| ==> nuevas[i].Keys <= ColumnSet(Canonical)
      modifies this
      ensures Valid()
      ensures log == Concat(old(log), nuevas) && stored == old(stored)
      ensures log.rows == old(log.rows) + nuevas
    {
      ConcatWellFormed(log, nuevas);
      log := Concat(log, nuevas);
    }

    /** Adds, one by one in canonical order, each of the nine columns the log
        lacks, filled with "" in every row, then keeps exactly the nine columns
        in canonical order. */
    method NormalizeColumns()
      requires Valid()
      modifies this
      ensures Valid()
      ensures log == Normalized(old(log)) && stored == old(stored)
    {
      ghost var t0 := log;
      CanonicalDistinct();
      FilledNone(t0);
      for i := 0 to |Canonical|
        invariant log == Filled(t0, Canonical[..i]) && stored == old(stored)
      {
        var col := Canonical[i];
        assert Canonical[..i + 1] == Canonical[..i] + [col];
        assert Distinct(Canonical[..i + 1]);
        FilledStep(t0, Canonical[..i], col);
        if col !in log.columns {
          log := AddColumn(log, col);
        }
      }
      assert Canonical[..|Canonical|] == Canonical;
      log := Reorder(log);
      FilledThenReordered(t0);
    }

    /** Writing the workbook: on success the "Faltas" sheet becomes the log as held
        in memory; on failure the workbook keeps what it had. The in-memory log
        is the same either way. */
    method Save(writeOk: bool) returns (saved: bool)
      requires Valid()
      modifies this
      ensures Valid()
      ensures saved == writeOk
      ensures log == old(log)
      ensures stored == if writeOk then Some(log) else old(stored)
    {
      if writeOk {
        stored := Some(log);
      }
      saved := writeOk;
    }

    /** One press of the button, from the search box to the alerts: the log is
        reloaded, the student chosen as the k-th match of `query` is resolved
        through its label, one row per selected
        falta is appended, the columns are completed and ordered, the workbook
        is written or not, and the alert scan runs over the log held in memory
        whether or not the write succeeded. */
    method Submit(query: string, k: nat, fecha: Date, semana: string, faltas: seq<string>, writeOk: bool)
      returns (outcome: Outcome)
      requires Valid()
      requires k < |Search(roster, query)|
      requires ValidDate(fecha)
      modifies this
      ensures Valid()
      ensures var choice := Options(Search(roster, query))[k];
        outcome.NotFound? <==> Resolve(roster, choice).None?
      ensures outcome.NotFound? ==> log == LoadedLog(stored) && stored == old(stored)
      ensures outcome.Registered? ==>
        var choice := Options(Search(roster, query))[k];
        var cedula := FirstPiece(choice);
        var mes := MonthName(fecha.month);
        log == AfterSubmission(LoadedLog(old(stored)), cedula, Resolve(roster, choice).value, IsoDate(fecha), semana, faltas, mes) &&
        outcome.saved == writeOk &&
        stored == (if writeOk then Some(log) else old(stored)) &&
        outcome.alerts == AlertList(log.rows, cedula, mes, faltas)
      ensures outcome.Registered? ==> |log.rows| == |LoadedLog(old(stored)).rows| + |faltas|
    {
      Reload();
      var choice := Options(Search(roster, query))[k];
      var cedula := FirstPiece(choice);
      var found := Resolve(roster, choice);
      if found.None? {
        outcome := NotFound;
        return;
      }
      var estudiante := found.value;
      var mes := MonthName(fecha.month);
      var nuevas := NewRows(cedula, estudiante, IsoDate(fecha), semana, faltas, mes);
      NewRowsInCanonical(cedula, estudiante, IsoDate(fecha), semana, faltas, mes);
      SubmissionAppends(log, cedula, estudiante, IsoDate(fecha), semana, faltas, mes);
      AppendRows(nuevas);
      NormalizeColumns();
      var saved := Save(writeOk);
      var alertas := CheckRecidivism(log.rows, cedula, mes, faltas);
      outcome := Registered(saved, alertas);
    }
  }

  /** Searching "ana" finds Ana Lopez by her Nombre. */
  lemma AnaLopezFound(ana: Student)
    requires ana == Student("1001", "Ana", "Lopez", "5", "A")
    ensures Search([ana], "ana") == [ana]
  {
    assert Lower("Ana") == "ana" && Lower("ana") == "ana";
    assert Contains(Lower(ana.nombre), Lower("ana"));
  }

  /** "1001 -" holds no separator, since no blank comes before its last two characters. */
  lemma NoSeparatorInAnaLopezCedula()
    ensures !Contains("1001 -", Separator)
  {
    ContainsIff("1001 -", Separator);
    forall i | 0 <= i <= 3
      ensures !OccursAt("1001 -", Separator, i)
    {
      assert "1001 -"[i..i + 3][0] == "1001 -"[i] != Separator[0];
    }
  }

  /** Searching "ana" in a roster of one student, Ana Lopez with Cédula 1001,
      offers her label, and choosing it resolves to her. */
  lemma AnaLopezSelectable(ana: Student)
    requires ana == Student("1001", "Ana", "Lopez", "5", "A")
    ensures Search([ana], "ana") == [ana]
    ensures FirstPiece(Options([ana])[0]) == "1001"
    ensures Resolve([ana], Options([ana])[0]) == Some(ana)
  {
    AnaLopezFound(ana);
    NoSeparatorInAnaLopezCedula();
    assert ana.cedula + " -" == "1001 -";
    LabelRoundTrip(ana);
    assert Options([ana])[0] == Label(ana);
  }

  /** Ana Lopez's phone-use falta, registered once more from the search "ana",
      on a workbook whose absence sheet has the nine columns. */
  method SubmitPhoneUse(s: Session, writeOk: bool) returns (o: Outcome)
    requires s.Valid() && s.stored.Some? && s.stored.value.columns == Canonical
    requires s.roster == [Student("1001", "Ana", "Lopez", "5", "A")]
    modifies s
    ensures s.Valid() && s.log.columns == Canonical
    ensures s.stored == if writeOk then Some(s.log) else old(s.stored)
    ensures var n := Count(s.log.rows, "1001", PhoneUse, "March");
      n == old(Count(s.stored.value.rows, "1001", PhoneUse, "March")) + 1 &&
      o == Registered(writeOk, if n >= AlertThreshold then [AlertMessage("1001", n, PhoneUse, "March")] else [])
  {
    var ana := Student("1001", "Ana", "Lopez", "5", "A");
    var fecha := Date(2024, 3, 5);
    AnaLopezSelectable(ana);
    assert MonthName(fecha.month) == "March";
    ghost var t := s.stored.value;
    o := s.Submit("ana", 0, fecha, "Semana 1", [PhoneUse], writeOk);
    CountOneMore(t, "1001", ana, IsoDate(fecha), "Semana 1", PhoneUse, "March");
    SingleAlert(s.log.rows, "1001", "March", PhoneUse);
  }

  const PhoneUse: string := "Uso del tel\U{00E9}fono"

  /** A roster of one student and an empty absence sheet: three saved submissions
      of the same falta in the same month, the third of which raises exactly one
      alert; when that third write fails, the next submission starts again from
      the two saved rows and raises the same alert. */
  method AnaLopezScenario()
  {
    var s := new Session(Some([Student("1001", "Ana", "Lopez", "5", "A")]), Some(EmptyLog()));
    assert Count(s.stored.value.rows, "1001", PhoneUse, "March") == 0;
    var o1 := SubmitPhoneUse(s, true);
    assert o1 == Registered(true, []);
    var o2 := SubmitPhoneUse(s, true);
    assert o2 == Registered(true, []);
    var o3 := SubmitPhoneUse(s, false);
    assert NatToString(3) == "3";
    var third := "\U{26A0}\U{FE0F} Alerta: " + "1001" + " tiene " + "3" + " faltas de tipo '" + PhoneUse + "' en " + "March" + ".";
    assert o3 == Registered(false, [third]);
    var o4 := SubmitPhoneUse(s, true);
    assert o4 == Registered(true, [third]);
  }
}
