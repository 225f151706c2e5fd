/**
 * The sidebar: the list of seated students ordered by family name, its search box,
 * and the form that proposes a new student. The French, accent-insensitive
 * `localeCompare` is stood in for by the lexicographic order of the lower-cased names.
 */
module Sidebar {
  import opened Wrappers
  import opened Text
  import opened Seating
  import opened Sequences

  /** Lexicographic order on strings, by character code. */
  predicate LexLeq(a: string, b: string)
  {
    a == [] || (b != [] && (a[0] < b[0] || (a[0] == b[0] && LexLeq(a[1..], b[1..]))))
  }

  lemma {:induction false} LexTotal(a: string, b: string)
    ensures LexLeq(a, b) || LexLeq(b, a)
  {
    if a != [] && b != [] && a[0] == b[0] {
      LexTotal(a[1..], b[1..]);
    }
  }

  lemma {:induction false} LexTrans(a: string, b: string, c: string)
    requires LexLeq(a, b) && LexLeq(b, c)
    ensures LexLeq(a, c)
  {
    if a != [] && b != [] && c != [] && a[0] == b[0] && b[0] == c[0] {
      LexTrans(a[1..], b[1..], c[1..]);
    }
  }

  /** The order of `getStudents`: by family name, ignoring case. */
  predicate NomLeq(a: Student, b: Student)
  {
    LexLeq(ToLower(a.nom), ToLower(b.nom))
  }

  ghost predicate SortedByNom(s: seq<Student>)
  {
    forall i, j :: 0 <= i < j < |s| ==> NomLeq(s[i], s[j])
  }

  /** Inserts `x` after every element that does not come after it. */
  function InsertByNom(x: Student, s: seq<Student>): (r: seq<Student>)
    ensures multiset(r) == multiset(s) + multiset{x}
  {
    if s == [] then [x]
    else if NomLeq(s[0], x) then
      assert s == [s[0]] + s[1..];
      [s[0]] + InsertByNom(x, s[1..])
    else [x] + s
  }

  /** A stable insertion sort by family name: `Array.prototype.sort` with the name comparator. */
  function SortByNom(s: seq<Student>): (r: seq<Student>)
    ensures multiset(r) == multiset(s)
  {
    if s == [] then []
    else
      assert s == s[..|s| - 1] + [s[|s| - 1]];
      InsertByNom(s[|s| - 1], SortByNom(s[..|s| - 1]))
  }

  lemma {:induction false} InsertByNomSorted(x: Student, s: seq<Student>)
    requires SortedByNom(s)
    ensures SortedByNom(InsertByNom(x, s))
  {
    if s != [] {
      var r := InsertByNom(x, s);
      if NomLeq(s[0], x) {
        var tail := InsertByNom(x, s[1..]);
        InsertByNomSorted(x, s[1..]);
        forall k | 0 <= k < |tail| ensures NomLeq(s[0], tail[k]) {
          assert tail[k] in multiset(tail);
          if tail[k] != x {
            assert tail[k] in s[1..];
          }
        }
      } else {
        LexTotal(ToLower(s[0].nom), ToLower(x.nom));
        forall k | 0 <= k < |s| ensures NomLeq(x, s[k]) {
          if k > 0 {
            LexTrans(ToLower(x.nom), ToLower(s[0].nom), ToLower(s[k].nom));
          }
        }
        assert r == [x] + s;
      }
    }
  }

  /** The sort yields a permutation of its input, ordered by family name. */
  lemma {:induction false} SortByNomCorrect(s: seq<Student>)
    ensures SortedByNom(SortByNom(s)) && multiset(SortByNom(s)) == multiset(s)
  {
    if s != [] {
      SortByNomCorrect(s[..|s| - 1]);
      InsertByNomSorted(s[|s| - 1], SortByNom(s[..|s| - 1]));
    }
  }

  /** The truthiness test of `filter(e => e)` on an occupant. */
  predicate IsPresent(o: Option<Student>)
  {
    o.Some?
  }

  /** Students seen as occupants. */
  function AsOccupants(r: seq<Student>): (o: seq<Option<Student>>)
    ensures |o| == |r| && forall k :: 0 <= k < |r| ==> o[k] == Some(r[k])
  {
    seq(|r|, k requires 0 <= k < |r| => Some(r[k]))
  }

  /** `tables.map(t => t.eleve).filter(e => e)`: the occupants of the occupied tables,
      in table order, each as often as it is seated. */
  function PresentOccupants(tables: seq<UiTable>): (r: seq<Student>)
    ensures |r| <= |tables|
    ensures AsOccupants(r) == Filter(Occupants(tables), IsPresent)
  {
    if tables == [] then []
    else
      var init := tables[..|tables| - 1];
      var r0 := PresentOccupants(init);
      var o := Occupants(tables);
      assert o == Occupants(init) + [tables[|tables| - 1].eleve];
      assert o[..|o| - 1] == Occupants(init);
      match tables[|tables| - 1].eleve
      case None => r0
      case Some(s) =>
        assert AsOccupants(r0 + [s]) == AsOccupants(r0) + [Some(s)];
        r0 + [s]
  }

  /** A student is listed exactly when some table holds it. */
  lemma PresentOccupantsMembers(tables: seq<UiTable>)
    ensures forall x :: x in PresentOccupants(tables) <==> Some(x) in Occupants(tables)
  {
    var r := PresentOccupants(tables);
    var o := Occupants(tables);
    SubseqMembers(Filter(o, IsPresent), o);
    forall x
      ensures x in r <==> Some(x) in o
    {
      if x in r {
        var k :| 0 <= k < |r| && r[k] == x;
        assert AsOccupants(r)[k] == Some(x);
      }
      if Some(x) in o {
        var k :| 0 <= k < |o| && o[k] == Some(x);
        assert Some(x) in AsOccupants(r);
        var j :| 0 <= j < |r| && AsOccupants(r)[j] == Some(x);
        assert r[j] == x;
      }
    }
  }

  /** The search of `filteredStudents`: `"prenom nom"`, lower-cased, contains the lower-cased term. */
  predicate MatchesSearch(e: Student, term: string)
  {
    Contains(ToLower(e.prenom + " " + e.nom), ToLower(term))
  }

  /** What the add-student form emits: the trimmed names. */
  datatype NewStudent = NewStudent(nom: string, prenom: string)

  class SidebarComponent {
    var tables: seq<UiTable>
    var disabled: bool
    var showStudents: bool
    var searchTerm: string
    var showAddForm: bool
    var newNom: string
    var newPrenom: string

    constructor ()
      ensures tables == [] && !disabled && !showStudents && searchTerm == ""
      ensures !showAddForm && newNom == "" && newPrenom == ""
    {
      tables := [];
      disabled := false;
      showStudents := false;
      searchTerm := "";
      showAddForm := false;
      newNom := "";
      newPrenom := "";
    }

    /** `toggleStudents`: unless disabled, flips the list and, when it closes, emits
        `studentSelected(null)` (here `Some(None)`). `None` means nothing is emitted. */
    method ToggleStudents() returns (emitted: Option<Option<Student>>)
      modifies this`showStudents
      ensures disabled ==> showStudents == old(showStudents) && emitted.None?
      ensures !disabled ==> showStudents == !old(showStudents)
      ensures !disabled ==> (emitted == Some(None) <==> !showStudents) && (emitted.None? <==> showStudents)
    {
      emitted := None;
      if disabled {
        return;
      }
      showStudents := !showStudents;
      if !showStudents {
        emitted := Some(None);
      }
    }

    /** `getStudents`: every seated student once, ordered by family name. */
    function GetStudents(): (r: seq<Student>)
      reads this
      ensures multiset(r) == multiset(PresentOccupants(tables))
      ensures SortedByNom(r)
    {
      SortByNomCorrect(PresentOccupants(tables));
      SortByNom(PresentOccupants(tables))
    }

    /** `filteredStudents`: the students of `GetStudents` whose name matches the search
        term, in the same order, none of the matching ones left out. */
    function FilteredStudents(): (r: seq<Student>)
      reads this
      ensures IsSubseq(r, GetStudents())
      ensures forall k :: 0 <= k < |r| ==> MatchesSearch(r[k], searchTerm)
      ensures forall e :: e in GetStudents() && MatchesSearch(e, searchTerm) ==> e in r
      ensures forall e :: multiset(r)[e] == if MatchesSearch(e, searchTerm) then multiset(GetStudents())[e] else 0
    {
      var term := searchTerm;
      var p := (e: Student) => MatchesSearch(e, term);
      FilterCounts(GetStudents(), p);
      Filter(GetStudents(), p)
    }

    /** `selectStudent`: emits the student unless the sidebar is disabled. */
    method SelectStudent(eleve: Option<Student>) returns (emitted: Option<Option<Student>>)
      ensures disabled <==> emitted.None?
      ensures !disabled ==> emitted == Some(eleve)
    {
      emitted := None;
      if disabled {
        return;
      }
      emitted := Some(eleve);
    }

    /** `submitNewStudent`: with both names non-blank, emits them trimmed, clears the
        fields and hides the form; otherwise changes nothing. */
    method SubmitNewStudent() returns (emitted: Option<NewStudent>)
      modifies this`newNom, this`newPrenom, this`showAddForm
      ensures IsBlank(old(newNom)) || IsBlank(old(newPrenom)) ==>
        emitted.None? && newNom == old(newNom) && newPrenom == old(newPrenom) && showAddForm == old(showAddForm)
      ensures !IsBlank(old(newNom)) && !IsBlank(old(newPrenom)) ==>
        emitted == Some(NewStudent(Trim(old(newNom)), Trim(old(newPrenom))))
        && newNom == "" && newPrenom == "" && !showAddForm
      ensures emitted.Some? ==> emitted.value.nom != "" && emitted.value.prenom != ""
    {
      emitted := None;
      if IsBlank(newNom) || IsBlank(newPrenom) {
        return;
      }
      emitted := Some(NewStudent(Trim(newNom), Trim(newPrenom)));
      newNom := "";
      newPrenom := "";
      showAddForm := false;
    }
  }
}
