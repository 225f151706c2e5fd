/**
 * The remark search: for a non-blank filter text, the students that have at least
 * one remark whose lower-cased title contains the lower-cased text, each with the
 * list of those remarks.
 */
module RemarkFilter {
  import opened Text
  import opened Seating
  import opened Sequences

  /** One search result: `{ eleve, remarques }`. */
  datatype Match = Match(eleve: Student, remarques: seq<Remark>)

  predicate Mentions(r: Remark, search: string)
  {
    Contains(ToLower(r.intitule), search)
  }

  /** `remarques.filter(r => r.intitule.toLowerCase().includes(search))` */
  function MatchingRemarks(rs: seq<Remark>, search: string): (m: seq<Remark>)
    ensures IsSubseq(m, rs)
    ensures forall k :: 0 <= k < |m| ==> Mentions(m[k], search)
    ensures forall k :: 0 <= k < |rs| && Mentions(rs[k], search) ==> rs[k] in m
  {
    Filter(rs, (r: Remark) => Mentions(r, search))
  }

  /** Each mentioning remark is kept as often as the student has it, and no other. */
  lemma MatchingRemarksCounts(rs: seq<Remark>, search: string)
    ensures forall r :: multiset(MatchingRemarks(rs, search))[r] == if Mentions(r, search) then multiset(rs)[r] else 0
  {
    FilterCounts(rs, (r: Remark) => Mentions(r, search));
  }

  /** The results for an already lower-cased search text, in the students' order. */
  function MatchStudents(eleves: seq<Student>, search: string): (r: seq<Match>)
    ensures |r| <= |eleves|
  {
    if eleves == [] then []
    else
      var e := eleves[|eleves| - 1];
      var m := MatchingRemarks(e.remarques, search);
      MatchStudents(eleves[..|eleves| - 1], search) + (if |m| > 0 then [Match(e, m)] else [])
  }

  /** Matching one more student appends that student's match, if any. */
  lemma MatchStudentsStep(eleves: seq<Student>, k: nat, search: string)
    requires k < |eleves|
    ensures var m := MatchingRemarks(eleves[k].remarques, search);
      MatchStudents(eleves[..k + 1], search)
        == MatchStudents(eleves[..k], search) + (if |m| > 0 then [Match(eleves[k], m)] else [])
  {
    assert eleves[..k + 1][..k] == eleves[..k];
  }

  /** The `filtered` getter. */
  function Filtered(eleves: seq<Student>, filterText: string): (r: seq<Match>)
    ensures |r| <= |eleves|
  {
    if IsBlank(filterText) then [] else MatchStudents(eleves, ToLower(filterText))
  }

  function StudentsOf(ms: seq<Match>): (r: seq<Student>)
    ensures |r| == |ms| && forall k :: 0 <= k < |ms| ==> r[k] == ms[k].eleve
  {
    seq(|ms|, k requires 0 <= k < |ms| => ms[k].eleve)
  }

  /** A blank filter finds nothing. */
  lemma FilteredBlank(eleves: seq<Student>, filterText: string)
    requires IsBlank(filterText)
    ensures Filtered(eleves, filterText) == []
  {
  }

  /** Every result is a student of the input with a non-empty list holding exactly
      the remarks of that student that mention the search text. */
  lemma {:induction false} MatchStudentsSound(eleves: seq<Student>, search: string)
    ensures forall k :: 0 <= k < |MatchStudents(eleves, search)| ==>
      var m := MatchStudents(eleves, search)[k];
      m.eleve in eleves && m.remarques != [] && m.remarques == MatchingRemarks(m.eleve.remarques, search)
  {
    if eleves != [] {
      var init := eleves[..|eleves| - 1];
      MatchStudentsSound(init, search);
      assert eleves == init + [eleves[|eleves| - 1]];
    }
  }

  /** The results of one more student: the earlier results, then that student's match if any. */
  lemma MatchStudentsLast(eleves: seq<Student>, search: string)
    requires eleves != []
    ensures var init := eleves[..|eleves| - 1];
      var e := eleves[|eleves| - 1];
      StudentsOf(MatchStudents(eleves, search))
        == StudentsOf(MatchStudents(init, search)) + (if MatchingRemarks(e.remarques, search) != [] then [e] else [])
  {
  }

  /** Results keep the input order. */
  lemma {:induction false} MatchStudentsOrder(eleves: seq<Student>, search: string)
    ensures IsSubseq(StudentsOf(MatchStudents(eleves, search)), eleves)
  {
    if eleves != [] {
      var init := eleves[..|eleves| - 1];
      var e := eleves[|eleves| - 1];
      MatchStudentsOrder(init, search);
      MatchStudentsLast(eleves, search);
      assert eleves == init + [e];
      var s0 := StudentsOf(MatchStudents(init, search));
      var s1 := StudentsOf(MatchStudents(eleves, search));
      if MatchingRemarks(e.remarques, search) != [] {
        assert s1 == s0 + [e];
        SubseqAppendBoth(s0, init, e);
      } else {
        assert s1 == s0;
        SubseqExtend(s0, init, e);
      }
    }
  }

  /** A student with a matching remark is never left out. */
  lemma {:induction false} MatchStudentsKeeps(eleves: seq<Student>, search: string, x: Student)
    requires x in eleves && MatchingRemarks(x.remarques, search) != []
    ensures x in StudentsOf(MatchStudents(eleves, search))
  {
    var init := eleves[..|eleves| - 1];
    var e := eleves[|eleves| - 1];
    MatchStudentsLast(eleves, search);
    assert eleves == init + [e];
    if x != e {
      assert x in init;
      MatchStudentsKeeps(init, search, x);
    }
  }

  lemma MatchStudentsComplete(eleves: seq<Student>, search: string)
    ensures forall e :: e in eleves && MatchingRemarks(e.remarques, search) != [] ==>
              e in StudentsOf(MatchStudents(eleves, search))
  {
    forall x | x in eleves && MatchingRemarks(x.remarques, search) != []
      ensures x in StudentsOf(MatchStudents(eleves, search))
    {
      MatchStudentsKeeps(eleves, search, x);
    }
  }

  /** Results keep the input order, and a student with a matching remark is never left out. */
  lemma MatchStudentsOrderAndComplete(eleves: seq<Student>, search: string)
    ensures IsSubseq(StudentsOf(MatchStudents(eleves, search)), eleves)
    ensures forall e :: e in eleves && MatchingRemarks(e.remarques, search) != [] ==>
              e in StudentsOf(MatchStudents(eleves, search))
  {
    MatchStudentsOrder(eleves, search);
    MatchStudentsComplete(eleves, search);
  }

  /** The filter, stated outright: blank text gives nothing; otherwise each result has a
      non-empty list of exactly the mentioning remarks, results follow the input order,
      a student appears at most once when the input repeats no one, and every student
      with a mentioning remark is there. */
  lemma FilteredSpec(eleves: seq<Student>, filterText: string)
    ensures IsBlank(filterText) ==> Filtered(eleves, filterText) == []
    ensures var r := Filtered(eleves, filterText);
      var search := ToLower(filterText);
      && (forall k :: 0 <= k < |r| ==>
            r[k].eleve in eleves && r[k].remarques != []
            && r[k].remarques == MatchingRemarks(r[k].eleve.remarques, search))
      && IsSubseq(StudentsOf(r), eleves)
      && (Distinct(eleves) ==> Distinct(StudentsOf(r)))
      && (!IsBlank(filterText) ==>
            forall e :: e in eleves && MatchingRemarks(e.remarques, search) != [] ==> e in StudentsOf(r))
  {
    var search := ToLower(filterText);
    if !IsBlank(filterText) {
      MatchStudentsSound(eleves, search);
      MatchStudentsOrderAndComplete(eleves, search);
      if Distinct(eleves) {
        SubseqDistinct(StudentsOf(Filtered(eleves, filterText)), eleves);
      }
    }
  }
}
