/**
 * The records the components share: students with their remarks, the backend
 * position of a table, and the on-screen table that a student may occupy.
 * A table's identity in the source is the JavaScript object itself; here it is
 * the table's index in the list that holds it.
 */
module Seating {
  import opened Wrappers

  datatype Remark = Remark(id: int, intitule: string)

  datatype Student = Student(id: int, nom: string, prenom: string, remarques: seq<Remark>)

  /** A backend table position `{x, y}`: a grid column and row. */
  datatype Cell = Cell(x: int, y: int)

  /** An on-screen table: its pixel position and its occupant, if any. */
  datatype UiTable = UiTable(x: real, y: real, eleve: Option<Student>)

  /** The plan's interaction mode: `'student'` or `'table'`. */
  datatype InteractionMode = StudentMode | TableMode

  /** `s?.id` */
  function IdOf(s: Option<Student>): (r: Option<int>)
    ensures r.Some? <==> s.Some?
    ensures s.Some? ==> r.value == s.value.id
  {
    match s
    case None => None
    case Some(st) => Some(st.id)
  }

  /** `tables.map(t => t.eleve)` */
  function Occupants(tables: seq<UiTable>): (r: seq<Option<Student>>)
    ensures |r| == |tables|
    ensures forall k :: 0 <= k < |tables| ==> r[k] == tables[k].eleve
  {
    seq(|tables|, k requires 0 <= k < |tables| => tables[k].eleve)
  }

  /** `tables.find(t => t.eleve?.id === id)`, as the index of the table it finds. */
  function FindOccupant(tables: seq<UiTable>, id: int): (r: Option<nat>)
    ensures r.Some? ==> r.value < |tables| && IdOf(tables[r.value].eleve) == Some(id)
    ensures r.Some? ==> forall k :: 0 <= k < r.value ==> IdOf(tables[k].eleve) != Some(id)
    ensures r.None? ==> forall k :: 0 <= k < |tables| ==> IdOf(tables[k].eleve) != Some(id)
  {
    if tables == [] then None
    else if IdOf(tables[0].eleve) == Some(id) then Some(0)
    else
      match FindOccupant(tables[1..], id)
      case None => None
      case Some(k) => Some(k + 1)
  }

  /** No student sits at two tables: occupants' ids are pairwise distinct. */
  ghost predicate UniqueOccupants(tables: seq<UiTable>)
  {
    forall i, j :: 0 <= i < |tables| && 0 <= j < |tables| && i != j && tables[i].eleve.Some?
      ==> IdOf(tables[i].eleve) != IdOf(tables[j].eleve)
  }

  /** Exchanges the occupants of tables `i` and `j`; pixel positions stay. */
  function SwapOccupants(tables: seq<UiTable>, i: nat, j: nat): (r: seq<UiTable>)
    requires i < |tables| && j < |tables|
    ensures |r| == |tables|
    ensures r[i].eleve == tables[j].eleve && r[j].eleve == tables[i].eleve
    ensures forall k :: 0 <= k < |tables| ==> r[k].x == tables[k].x && r[k].y == tables[k].y
    ensures forall k :: 0 <= k < |tables| && k != i && k != j ==> r[k] == tables[k]
  {
    tables[i := tables[i].(eleve := tables[j].eleve)][j := tables[j].(eleve := tables[i].eleve)]
  }

  /** Swapping back restores the original seating. */
  lemma SwapSelfInverse(tables: seq<UiTable>, i: nat, j: nat)
    requires i < |tables| && j < |tables|
    ensures SwapOccupants(SwapOccupants(tables, i, j), j, i) == tables
  {
    var r := SwapOccupants(SwapOccupants(tables, i, j), j, i);
    forall k | 0 <= k < |tables| ensures r[k] == tables[k] {
    }
  }

  /** A swap neither creates nor loses an occupant. */
  lemma SwapPreservesOccupants(tables: seq<UiTable>, i: nat, j: nat)
    requires i < |tables| && j < |tables|
    ensures multiset(Occupants(SwapOccupants(tables, i, j))) == multiset(Occupants(tables))
  {
    var o := Occupants(tables);
    if i != j {
      var o' := o[i := o[j]][j := o[i]];
      assert Occupants(SwapOccupants(tables, i, j)) == o';
    } else {
      assert SwapOccupants(tables, i, j) == tables;
    }
  }

  /** A swap keeps every student at no more than one table. */
  lemma SwapPreservesUnique(tables: seq<UiTable>, i: nat, j: nat)
    requires i < |tables| && j < |tables|
    requires UniqueOccupants(tables)
    ensures UniqueOccupants(SwapOccupants(tables, i, j))
  {
    var r := SwapOccupants(tables, i, j);
    forall a, b | 0 <= a < |r| && 0 <= b < |r| && a != b && r[a].eleve.Some?
      ensures IdOf(r[a].eleve) != IdOf(r[b].eleve)
    {
      var a' := if a == i then j else if a == j then i else a;
      var b' := if b == i then j else if b == j then i else b;
      assert r[a].eleve == tables[a'].eleve;
      assert r[b].eleve == tables[b'].eleve;
    }
  }

  /** `selectStudent`'s toggle, shared by the app shell and the classroom page:
      selecting the already selected id clears the selection. */
  function ToggleSelection(selected: Option<Student>, student: Option<Student>): (r: Option<Student>)
    ensures IdOf(selected) == IdOf(student) ==> r.None?
    ensures IdOf(selected) != IdOf(student) ==> r == student
  {
    if IdOf(selected) == IdOf(student) then None else student
  }

  /** Selecting the same student twice in a row undoes the first selection when it
      selected something, and selects the student when the first one cleared it. */
  lemma ToggleTwice(selected: Option<Student>, s: Student)
    ensures ToggleSelection(ToggleSelection(selected, Some(s)), Some(s))
      == (if IdOf(selected) == Some(s.id) then Some(s) else None)
  {
  }
}
