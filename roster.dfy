/** The roster side of the form: the "Estudiantes" sheet, the free-text search over it,
    the labels offered in the selection box and the lookup of the chosen student. */
module Roster {
  import opened Text
  import opened Wrappers

  /** One row of the "Estudiantes" sheet; every cell is text. */
  datatype Student = Student(cedula: string, nombre: string, apellido: string, anio: string, mencion: string)

  /** The per-row test of the search for an already lower-cased query: the query
      occurs in the lower-cased Cédula, Nombre or Apellido. */
  function Matches(s: Student, q: string): (b: bool)
    ensures q == "" ==> b
    ensures b ==> |q| <= |s.cedula| || |q| <= |s.nombre| || |q| <= |s.apellido|
  {
    Contains(Lower(s.cedula), q) || Contains(Lower(s.nombre), q) || Contains(Lower(s.apellido), q)
  }

  /** `a` is `b` with some elements dropped and the rest kept in order. */
  ghost predicate IsSubsequence(a: seq<Student>, b: seq<Student>)
    decreases |b|
  {
    a == [] || (b != [] && ((a[0] == b[0] && IsSubsequence(a[1..], b[1..])) || IsSubsequence(a, b[1..])))
  }

  /** The boolean-mask selection of the rows that match `q`. */
  function Keep(roster: seq<Student>, q: string): (r: seq<Student>)
    ensures IsSubsequence(r, roster)
    ensures forall s :: multiset(r)[s] == if Matches(s, q) then multiset(roster)[s] else 0
  {
    if roster == [] then []
    else
      assert roster == [roster[0]] + roster[1..];
      if Matches(roster[0], q) then [roster[0]] + Keep(roster[1..], q)
      else Keep(roster[1..], q)
  }

  /** The search box: an empty query shows the whole roster; any other query
      shows, in roster order, every row whose Cédula, Nombre or Apellido contains
      the query, ignoring case, and each such row as often as the roster has it. */
  function Search(roster: seq<Student>, query: string): (r: seq<Student>)
    ensures query == "" ==> r == roster
    ensures query != "" ==> IsSubsequence(r, roster)
    ensures query != "" ==> forall s :: multiset(r)[s] == if Matches(s, Lower(query)) then multiset(roster)[s] else 0
  {
    if query == "" then roster else Keep(roster, Lower(query))
  }

  /** A non-empty query keeps exactly the roster rows in which the lower-cased
      query occurs at some position of a lower-cased searchable field. */
  lemma SearchMembers(roster: seq<Student>, query: string, s: Student)
    requires query != ""
    ensures s in Search(roster, query) <==>
      s in roster &&
      ((exists i :: OccursAt(Lower(s.cedula), Lower(query), i)) ||
       (exists i :: OccursAt(Lower(s.nombre), Lower(query), i)) ||
       (exists i :: OccursAt(Lower(s.apellido), Lower(query), i)))
  {
    var q := Lower(query);
    ContainsIff(Lower(s.cedula), q);
    ContainsIff(Lower(s.nombre), q);
    ContainsIff(Lower(s.apellido), q);
    assert s in Search(roster, query) <==> multiset(Search(roster, query))[s] > 0;
    assert s in roster <==> multiset(roster)[s] > 0;
  }

  /** What the selection box puts between the Cédula and the names. */
  const Separator: string := " - "

  /** The option shown for a student: "{Cédula} - {Nombre} {Apellido}". */
  function Label(s: Student): (r: string)
    ensures |r| == |s.cedula| + |Separator| + |s.nombre| + 1 + |s.apellido|
    ensures r[..|s.cedula|] == s.cedula && SeparatorAt(r, |s.cedula|)
  {
    assert (s.cedula + Separator + s.nombre + " " + s.apellido)[|s.cedula|..|s.cedula| + 3] == Separator;
    s.cedula + Separator + s.nombre + " " + s.apellido
  }

  /** The options of the selection box, one per row, in row order. */
  function Options(rows: seq<Student>): (r: seq<string>)
    ensures |r| == |rows|
    ensures forall i :: 0 <= i < |r| ==> |rows[i].cedula| <= |r[i]| && r[i][..|rows[i].cedula|] == rows[i].cedula
  {
    seq(|rows|, i requires 0 <= i < |rows| => Label(rows[i]))
  }

  predicate SeparatorAt(s: string, i: int)
  {
    OccursAt(s, Separator, i)
  }

  /** Dropping the first character shifts every separator position down by one. */
  lemma SeparatorShift(s: string, i: nat)
    requires s != []
    ensures SeparatorAt(s[1..], i) <==> SeparatorAt(s, i + 1)
  {
    if i + 3 <= |s| - 1 {
      assert s[1..][i..i + 3] == s[i + 1..i + 4];
    }
  }

  /** `s.split(" - ")[0]`: the text before the leftmost separator, or all of
      `s` when it holds none. */
  function FirstPiece(s: string): (r: string)
    ensures |r| <= |s| && r == s[..|r|]
    decreases |s|
  {
    if s == [] || SeparatorAt(s, 0) then "" else [s[0]] + FirstPiece(s[1..])
  }

  /** The first piece is a prefix of `s` inside which no separator starts, and it
      ends at the end of `s` or where the leftmost separator starts. */
  lemma {:induction false} FirstPieceSpec(s: string)
    ensures var r := FirstPiece(s);
      |r| <= |s| && r == s[..|r|] &&
      (|r| == |s| || SeparatorAt(s, |r|)) &&
      forall i :: 0 <= i < |r| ==> !SeparatorAt(s, i)
    decreases |s|
  {
    if s != [] && !SeparatorAt(s, 0) {
      var t := FirstPiece(s[1..]);
      FirstPieceSpec(s[1..]);
      var r := FirstPiece(s);
      assert r == [s[0]] + t;
      assert s[..|r|] == [s[0]] + s[1..][..|t|];
      SeparatorShift(s, |t|);
      forall i | 0 <= i < |r|
        ensures !SeparatorAt(s, i)
      {
        if i > 0 {
          SeparatorShift(s, i - 1);
        }
      }
    }
  }

  /** Before the separator that follows `c`, a separator starts in `c + " - " + rest`
      exactly where one starts in `c + " -"`. */
  lemma SeparatorInHead(c: string, rest: string, i: nat)
    requires i < |c|
    ensures SeparatorAt(c + Separator + rest, i) <==> OccursAt(c + " -", Separator, i)
  {
    assert (c + Separator + rest)[i..i + 3] == (c + " -")[i..i + 3];
  }

  /** Splitting `c + " - " + rest` gives back `c` exactly when `c + " -"` holds
      no separator, whatever `rest` is. */
  lemma PieceBeforeSeparator(c: string, rest: string)
    ensures FirstPiece(c + Separator + rest) == c <==> !Contains(c + " -", Separator)
  {
    var l := c + Separator + rest;
    var head := c + " -";
    FirstPieceSpec(l);
    ContainsIff(head, Separator);
    assert l[|c|..|c| + 3] == Separator;
    if !Contains(head, Separator) {
      forall i | 0 <= i < |c|
        ensures !SeparatorAt(l, i)
      {
        SeparatorInHead(c, rest, i);
      }
      var r := FirstPiece(l);
      assert SeparatorAt(l, |c|);
      assert |r| <= |c|;
      assert !SeparatorAt(l, |r|) || |r| >= |c|;
      assert l[..|c|] == c;
    } else {
      var i :| OccursAt(head, Separator, i);
      SeparatorInHead(c, rest, i);
    }
  }

  /** Splitting a label gives back the Cédula exactly when the leftmost separator
      of the label is the one the label puts after the Cédula, that is, when the
      Cédula followed by " -" holds no separator. A Cédula that holds " - ", or
      that ends with " -", comes back cut short; the names never matter. */
  lemma LabelRoundTrip(s: Student)
    ensures FirstPiece(Label(s)) == s.cedula <==> !Contains(s.cedula + " -", Separator)
  {
    assert Label(s) == s.cedula + Separator + (s.nombre + " " + s.apellido);
    PieceBeforeSeparator(s.cedula, s.nombre + " " + s.apellido);
  }

  /** The first piece ends where the leftmost separator starts. */
  lemma FirstPieceAt(s: string, k: nat)
    requires SeparatorAt(s, k)
    requires forall i :: 0 <= i < k ==> !SeparatorAt(s, i)
    ensures FirstPiece(s) == s[..k]
  {
    FirstPieceSpec(s);
    var r := FirstPiece(s);
    assert |r| <= k;
    assert !SeparatorAt(s, |r|) || |r| >= k;
  }

  /** "12 -" holds no separator: it is too short for one to start after its
      second character, and its first two characters are not blanks. */
  lemma NoSeparatorInTwelve()
    ensures !Contains("12 -", Separator)
  {
    ContainsIff("12 -", Separator);
    forall i | 0 <= i <= 1
      ensures !OccursAt("12 -", Separator, i)
    {
      assert "12 -"[i..i + 3][0] == "12 -"[i] != Separator[0];
    }
  }

  /** A Cédula that holds no separator can still fail to come back. */
  lemma NoSeparatorIsNotEnough()
    ensures !Contains("12 -", Separator)
    ensures FirstPiece(Label(Student("12 -", "Ana", "Lopez", "5", "A"))) == "12"
  {
    NoSeparatorInTwelve();
    var rest := "Ana" + " " + "Lopez";
    var l := "12 -" + Separator + rest;
    assert Label(Student("12 -", "Ana", "Lopez", "5", "A")) == l;
    assert l[0] == '1' && l[1] == '2' && l[2..5] == Separator;
    assert l[..2] == "12";
    FirstPieceAt(l, 2);
  }

  /** The position of the first roster row whose Cédula, as text, equals `id`. */
  function FindByCedula(roster: seq<Student>, id: string): (r: Option<nat>)
    ensures r.Some? ==> r.value < |roster| && roster[r.value].cedula == id
    ensures r.Some? ==> forall j :: 0 <= j < r.value ==> roster[j].cedula != id
    ensures r.None? <==> forall j :: 0 <= j < |roster| ==> roster[j].cedula != id
  {
    if roster == [] then None
    else if roster[0].cedula == id then Some(0)
    else
      match FindByCedula(roster[1..], id)
      case None => None
      case Some(k) => Some(k + 1)
  }

  /** The student behind a selected label: split off the Cédula, then take the
      first roster row carrying it. `None` is the empty selection on which the
      positional `[0]` access fails. */
  function Resolve(roster: seq<Student>, choice: string): (r: Option<Student>)
    ensures r.Some? ==> r.value in roster && r.value.cedula == FirstPiece(choice)
    ensures r.Some? ==> exists j :: (0 <= j < |roster| && roster[j] == r.value &&
      forall i :: 0 <= i < j ==> roster[i].cedula != FirstPiece(choice))
    ensures r.None? <==> forall j :: 0 <= j < |roster| ==> roster[j].cedula != FirstPiece(choice)
  {
    match FindByCedula(roster, FirstPiece(choice))
    case None => None
    case Some(k) => Some(roster[k])
  }

  predicate UniqueCedulas(roster: seq<Student>)
  {
    forall i, j :: 0 <= i < j < |roster| ==> roster[i].cedula != roster[j].cedula
  }

  /** Choosing any option the search offers resolves to the first roster row with
      the chosen student's Cédula, which is the chosen student itself when the
      Cédulas are unique, provided the label splits back to that Cédula. */
  lemma SelectionResolves(roster: seq<Student>, query: string, k: nat)
    requires k < |Search(roster, query)|
    requires !Contains(Search(roster, query)[k].cedula + " -", Separator)
    ensures var s := Search(roster, query)[k];
      exists j :: 0 <= j < |roster| && Resolve(roster, Options(Search(roster, query))[k]) == Some(roster[j]) &&
        roster[j].cedula == s.cedula && forall i :: 0 <= i < j ==> roster[i].cedula != s.cedula
    ensures UniqueCedulas(roster) ==> Resolve(roster, Options(Search(roster, query))[k]) == Some(Search(roster, query)[k])
  {
    var found := Search(roster, query);
    var s := found[k];
    LabelRoundTrip(s);
    assert Options(found)[k] == Label(s);
    assert s in multiset(found);
    assert s in roster by {
      if query != "" {
        assert multiset(roster)[s] > 0;
      }
    }
    var m := FindByCedula(roster, s.cedula);
    var p :| 0 <= p < |roster| && roster[p] == s;
    assert m.Some?;
    assert Resolve(roster, Options(found)[k]) == Some(roster[m.value]);
    if UniqueCedulas(roster) {
      assert m.value == p;
    }
  }
}
