/**
 * The application shell: it lays the loaded tables out in one row and keeps the
 * selected student across reloads by id.
 */
module App {
  import opened Wrappers
  import opened Seating
  import opened Geometry

  /** `data.tables.map(t => t.eleve).find(e => e?.id === selected.id)`, or null. */
  function Reselect(tables: seq<UiTable>, selected: Student): (r: Option<Student>)
    ensures r.Some? <==> exists k :: 0 <= k < |tables| && IdOf(tables[k].eleve) == Some(selected.id)
    ensures r.Some? ==> r.value.id == selected.id && r in Occupants(tables)
    ensures r.Some? ==>
      exists k :: (0 <= k < |tables| && tables[k].eleve == r
                   && forall j :: 0 <= j < k ==> IdOf(tables[j].eleve) != Some(selected.id))
  {
    match FindOccupant(tables, selected.id)
    case None => None
    case Some(k) =>
      assert Occupants(tables)[k] == tables[k].eleve;
      tables[k].eleve
  }

  /** A student still seated after a reload is reselected as reloaded, once each
      student sits at one table only. */
  lemma ReselectFindsSeated(tables: seq<UiTable>, selected: Student, k: nat)
    requires UniqueOccupants(tables) && k < |tables| && IdOf(tables[k].eleve) == Some(selected.id)
    ensures Reselect(tables, selected) == tables[k].eleve
  {
    var j := FindOccupant(tables, selected.id).value;
    assert IdOf(tables[j].eleve) == IdOf(tables[k].eleve);
  }

  /** The position `loadClassroom` gives table `index`: one row, 120 pixels apart. */
  function RowPosition(t: UiTable, index: nat): (r: UiTable)
    ensures r.x == 100.0 + 120.0 * index as real && r.y == 150.0 && r.eleve == t.eleve
  {
    t.(x := 100.0 + 120.0 * index as real, y := 150.0)
  }

  /** Tables laid out in a row do not overlap as long as they are at most 120 pixels
      wide. */
  lemma RowLayoutApart(tables: seq<UiTable>, size: real)
    requires size <= 120.0
    ensures forall i, j :: 0 <= i < j < |tables| ==>
      !Overlaps(RowPosition(tables[i], i).x, RowPosition(tables[i], i).y,
                RowPosition(tables[j], j).x, RowPosition(tables[j], j).y, size)
  {
  }

  class AppShell {
    /** `classroom != null` */
    var loaded: bool
    var tables: seq<UiTable>
    var selectedStudent: Option<Student>

    constructor ()
      ensures !loaded && tables == [] && selectedStudent.None?
    {
      loaded := false;
      tables := [];
      selectedStudent := None;
    }

    /** The body of `loadClassroom`'s subscription: lay the tables out in one row,
        take the classroom, and replace the selection by the reloaded student with the
        same id, or nothing. */
    method LoadClassroom(data: seq<UiTable>)
      modifies this
      ensures loaded && |tables| == |data|
      ensures forall i :: 0 <= i < |data| ==> tables[i] == RowPosition(data[i], i)
      ensures Occupants(tables) == Occupants(data)
      ensures old(selectedStudent).None? ==> selectedStudent.None?
      ensures old(selectedStudent).Some? ==> selectedStudent == Reselect(tables, old(selectedStudent).value)
    {
      var laid := data;
      var index := 0;
      while index < |laid|
        invariant 0 <= index <= |laid| == |data|
        invariant forall i :: 0 <= i < index ==> laid[i] == RowPosition(data[i], i)
        invariant forall i :: index <= i < |data| ==> laid[i] == data[i]
      {
        laid := laid[index := laid[index].(x := 100.0 + 120.0 * index as real, y := 150.0)];
        index := index + 1;
      }
      loaded := true;
      tables := laid;
      if selectedStudent.Some? {
        selectedStudent := Reselect(tables, selectedStudent.value);
      }
    }

    /** `selectStudent`: the selection toggles. */
    method SelectStudent(student: Student)
      modifies this`selectedStudent
      ensures selectedStudent == ToggleSelection(old(selectedStudent), Some(student))
      ensures selectedStudent.None? <==> IdOf(old(selectedStudent)) == Some(student.id)
    {
      if IdOf(selectedStudent) == Some(student.id) {
        selectedStudent := None;
      } else {
        selectedStudent := Some(student);
      }
    }
  }
}
