/**
 * The groups page: it creates empty groups, deals an already shuffled class into them
 * round-robin, lists the students no group holds, and adds, removes and folds groups.
 */
module Groupes {
  import opened Wrappers
  import opened Text
  import opened Seating
  import opened Sequences

  datatype Groupe = Groupe(nom: string, eleves: seq<Student>, expanded: bool)

  /** The name of group `i` (0-based): `Groupe ${i + 1}`. */
  function GroupName(i: nat): (r: string)
    ensures |r| > 7 && r[..7] == "Groupe " && r[7..] == NatToString(i + 1)
  {
    "Groupe " + NatToString(i + 1)
  }

  /** Different groups get different names. */
  lemma GroupNamesDistinct(i: nat, j: nat)
    requires i != j
    ensures GroupName(i) != GroupName(j)
  {
    NatToStringInjective(i + 1, j + 1);
  }

  // ----- the round-robin deal -----

  /** The students at positions congruent to `g` modulo `n`, in order: what group `g`
      receives when `index % n` picks the group of the student at `index`. */
  function Members(s: seq<Student>, n: nat, g: nat): (r: seq<Student>)
    requires n > 0
    ensures |r| <= |s|
    ensures forall x :: x in r ==> x in s
  {
    if s == [] then []
    else Members(s[..|s| - 1], n, g) + (if (|s| - 1) % n == g then [s[|s| - 1]] else [])
  }

  lemma MulAtLeast(d: int, n: int)
    requires d >= 1 && n > 0
    ensures d * n >= n
  {
    var e := d - 1;
    assert d * n == e * n + n;
  }

  lemma DivModUnique(a: int, n: int, q: int, r: int)
    requires n > 0 && a == q * n + r && 0 <= r < n
    ensures a / n == q && a % n == r
  {
    var q', r' := a / n, a % n;
    assert a == q' * n + r';
    if q' > q {
      assert (q' - q) * n == q' * n - q * n;
      MulAtLeast(q' - q, n);
    } else if q' < q {
      assert (q - q') * n == q * n - q' * n;
      MulAtLeast(q - q', n);
    }
  }

  lemma DivModNext(m: nat, n: nat)
    requires n > 0
    ensures m % n + 1 < n ==> (m + 1) / n == m / n && (m + 1) % n == m % n + 1
    ensures m % n + 1 == n ==> (m + 1) / n == m / n + 1 && (m + 1) % n == 0
  {
    if m % n + 1 < n {
      DivModUnique(m + 1, n, m / n, m % n + 1);
    } else {
      DivModUnique(m + 1, n, m / n + 1, 0);
    }
  }

  /** Group `g` of `n` receives `|s| / n` students, plus one when `g < |s| % n`. */
  lemma {:induction false} MembersSize(s: seq<Student>, n: nat, g: nat)
    requires g < n
    ensures |Members(s, n, g)| == |s| / n + (if g < |s| % n then 1 else 0)
  {
    if s != [] {
      var m := |s| - 1;
      MembersSize(s[..m], n, g);
      DivModNext(m, n);
    }
  }

  /** Group sizes differ by at most one. */
  lemma GroupSizesBalanced(s: seq<Student>, n: nat, g: nat, h: nat)
    requires g < n && h < n
    ensures |Members(s, n, g)| <= |Members(s, n, h)| + 1
  {
    MembersSize(s, n, g);
    MembersSize(s, n, h);
  }

  /** The last position `m` of a slice with `m % n == g` is slot `m / n` of group `g`. */
  lemma LastSlot(m: nat, n: nat, g: nat, k: nat)
    requires g < n && m % n == g && k == m / n
    ensures g + k * n == m
  {
  }

  /** The `j`-th member of group `g` is the student at position `g + j * n`. */
  lemma {:induction false} MembersAt(s: seq<Student>, n: nat, g: nat)
    requires g < n
    ensures forall j :: 0 <= j < |Members(s, n, g)| ==> g + j * n < |s| && Members(s, n, g)[j] == s[g + j * n]
  {
    if s != [] {
      var m := |s| - 1;
      var init := s[..m];
      MembersAt(init, n, g);
      var r0 := Members(init, n, g);
      if m % n == g {
        MembersSize(init, n, g);
        LastSlot(m, n, g, |r0|);
        assert Members(s, n, g) == r0 + [s[m]];
      } else {
        assert Members(s, n, g) == r0;
      }
    }
  }

  /** The student at position `i` is dealt to group `i % n`. */
  lemma {:induction false} PlacedInItsGroup(s: seq<Student>, n: nat, i: nat)
    requires n > 0 && i < |s|
    ensures s[i] in Members(s, n, i % n)
  {
    var m := |s| - 1;
    if i < m {
      PlacedInItsGroup(s[..m], n, i);
    }
  }

  /** All lists of the groups, one after the other (`flatMap`). */
  function Concat(gs: seq<seq<Student>>): seq<Student>
  {
    if gs == [] then [] else Concat(gs[..|gs| - 1]) + gs[|gs| - 1]
  }

  /** The deal into `n` groups. */
  function Deal(s: seq<Student>, n: nat): (gs: seq<seq<Student>>)
    requires n > 0
    ensures |gs| == n
  {
    seq(n, g requires 0 <= g < n => Members(s, n, g))
  }

  lemma {:induction false} ConcatAllEmpty(gs: seq<seq<Student>>)
    requires forall g :: 0 <= g < |gs| ==> gs[g] == []
    ensures Concat(gs) == []
  {
    if gs != [] {
      ConcatAllEmpty(gs[..|gs| - 1]);
    }
  }

  lemma {:induction false} ConcatPush(gs: seq<seq<Student>>, g: nat, x: Student)
    requires g < |gs|
    ensures multiset(Concat(gs[g := gs[g] + [x]])) == multiset(Concat(gs)) + multiset{x}
  {
    var last := |gs| - 1;
    var gs' := gs[g := gs[g] + [x]];
    if g == last {
      assert gs'[..last] == gs[..last];
    } else {
      ConcatPush(gs[..last], g, x);
      assert gs'[..last] == gs[..last][g := gs[g] + [x]];
    }
  }

  /** Dealing one more student pushes it onto group `|s| % n`. */
  lemma DealStep(s: seq<Student>, n: nat, x: Student)
    requires n > 0
    ensures Deal(s + [x], n) == Deal(s, n)[|s| % n := Deal(s, n)[|s| % n] + [x]]
  {
    var s' := s + [x];
    assert s'[..|s|] == s;
    forall g | 0 <= g < n
      ensures Members(s', n, g) == Deal(s, n)[|s| % n := Deal(s, n)[|s| % n] + [x]][g]
    {
    }
  }

  /** The deal is a permutation: every student lands in exactly one group, once. */
  lemma {:induction false} DealIsPermutation(s: seq<Student>, n: nat)
    requires n > 0
    ensures multiset(Concat(Deal(s, n))) == multiset(s)
  {
    if s == [] {
      ConcatAllEmpty(Deal(s, n));
    } else {
      var m := |s| - 1;
      DealIsPermutation(s[..m], n);
      assert s == s[..m] + [s[m]];
      DealStep(s[..m], n, s[m]);
      ConcatPush(Deal(s[..m], n), m % n, s[m]);
    }
  }

  // ----- assigned and available students -----

  /** Some group holds a student with this id. */
  ghost predicate IsAssigned(gs: seq<Groupe>, id: int)
  {
    exists g, k :: 0 <= g < |gs| && 0 <= k < |gs[g].eleves| && gs[g].eleves[k].id == id
  }

  function Ids(es: seq<Student>): (ids: seq<int>)
    ensures |ids| == |es| && forall k :: 0 <= k < |es| ==> ids[k] == es[k].id
  {
    seq(|es|, k requires 0 <= k < |es| => es[k].id)
  }

  function FlatIds(gs: seq<Groupe>): (r: seq<int>)
    ensures forall id :: id in r ==> IsAssigned(gs, id)
  {
    if gs == [] then [] else FlatIds(gs[..|gs| - 1]) + Ids(gs[|gs| - 1].eleves)
  }

  lemma {:induction false} FlatIdsSpec(gs: seq<Groupe>, id: int)
    ensures id in FlatIds(gs) <==> IsAssigned(gs, id)
  {
    if gs != [] {
      var last := |gs| - 1;
      FlatIdsSpec(gs[..last], id);
      if IsAssigned(gs[..last], id) {
        var g, k :| 0 <= g < last && 0 <= k < |gs[..last][g].eleves| && gs[..last][g].eleves[k].id == id;
        assert gs[g].eleves[k].id == id;
      }
      if id in Ids(gs[last].eleves) {
        var k :| 0 <= k < |gs[last].eleves| && Ids(gs[last].eleves)[k] == id;
        assert gs[last].eleves[k].id == id;
      }
      if IsAssigned(gs, id) {
        var g, k :| 0 <= g < |gs| && 0 <= k < |gs[g].eleves| && gs[g].eleves[k].id == id;
        if g < last {
          assert gs[..last][g].eleves[k].id == id;
        } else {
          assert Ids(gs[last].eleves)[k] == id;
        }
      }
    }
  }

  /** The students of `eleves` that no group holds, in their order. */
  function Available(eleves: seq<Student>, gs: seq<Groupe>): (r: seq<Student>)
    ensures IsSubseq(r, eleves)
    ensures forall e :: e in r <==> e in eleves && !IsAssigned(gs, e.id)
    ensures forall e :: multiset(r)[e] == if IsAssigned(gs, e.id) then 0 else multiset(eleves)[e]
  {
    var held := FlatIds(gs);
    var p := (e: Student) => e.id !in held;
    var r := Filter(eleves, p);
    SubseqMembers(r, eleves);
    FilterCounts(eleves, p);
    forall e
      ensures e in r <==> e in eleves && !IsAssigned(gs, e.id)
      ensures multiset(r)[e] == if IsAssigned(gs, e.id) then 0 else multiset(eleves)[e]
    {
      FlatIdsSpec(gs, e.id);
    }
    r
  }

  /** After the round-robin deal of a shuffled class, no student is left available. */
  lemma NoneAvailableAfterDeal(eleves: seq<Student>, shuffled: seq<Student>, gs: seq<Groupe>)
    requires multiset(shuffled) == multiset(eleves) && |gs| > 0
    requires forall g :: 0 <= g < |gs| ==> gs[g].eleves == Members(shuffled, |gs|, g)
    ensures forall e :: e !in Available(eleves, gs)
  {
    forall e | e in eleves
      ensures IsAssigned(gs, e.id)
    {
      assert e in multiset(shuffled);
      var i :| 0 <= i < |shuffled| && shuffled[i] == e;
      var g := i % |gs|;
      PlacedInItsGroup(shuffled, |gs|, i);
      var k :| 0 <= k < |gs[g].eleves| && gs[g].eleves[k] == e;
    }
  }

  // ----- adding and removing -----

  /** Some entry of the list has this id. */
  predicate HasId(es: seq<Student>, id: int)
  {
    exists k :: 0 <= k < |es| && es[k].id == id
  }

  /** `eleves.find(e => e.id === id)` */
  function FindById(es: seq<Student>, id: int): (r: Option<Student>)
    ensures r.None? <==> !HasId(es, id)
    ensures r.Some? ==> r.value.id == id && r.value in es
    ensures r.Some? ==> exists k :: 0 <= k < |es| && es[k] == r.value && !HasId(es[..k], id)
  {
    if es == [] then None
    else if es[0].id == id then
      assert es[..0] == [];
      Some(es[0])
    else
      var r := FindById(es[1..], id);
      if r.Some? then
        var k :| 0 <= k < |es[1..]| && es[1..][k] == r.value && !HasId(es[1..][..k], id);
        assert es[..k + 1] == [es[0]] + es[1..][..k];
        assert es[k + 1] == r.value && !HasId(es[..k + 1], id);
        r
      else
        r
  }

  /** No id occurs twice in the list. */
  ghost predicate IdsDistinct(es: seq<Student>)
  {
    forall i, j :: 0 <= i < j < |es| ==> es[i].id != es[j].id
  }

  /** `groupe.eleves.filter(e => e.id !== id)` */
  function Removed(es: seq<Student>, id: int): (r: seq<Student>)
    ensures IsSubseq(r, es)
    ensures forall x :: x in r <==> x in es && x.id != id
    ensures forall x :: multiset(r)[x] == if x.id == id then 0 else multiset(es)[x]
    ensures !HasId(r, id)
  {
    var p := (e: Student) => e.id != id;
    var r := Filter(es, p);
    SubseqMembers(r, es);
    FilterCounts(es, p);
    r
  }

  /** Removing an id that is absent changes nothing. */
  lemma {:induction false} RemovedAbsent(es: seq<Student>, id: int)
    requires !HasId(es, id)
    ensures Removed(es, id) == es
  {
    if es != [] {
      var m := |es| - 1;
      assert !HasId(es[..m], id) by {
        forall k | 0 <= k < m
          ensures es[..m][k].id != id
        {
          assert es[k].id != id;
        }
      }
      RemovedAbsent(es[..m], id);
      assert es[m].id != id;
      assert es == es[..m] + [es[m]];
    }
  }

  /** Removing a student just added restores the group. */
  lemma RemoveUndoesAdd(es: seq<Student>, x: Student)
    requires !HasId(es, x.id)
    ensures Removed(es + [x], x.id) == es
  {
    assert (es + [x])[..|es|] == es;
    RemovedAbsent(es, x.id);
  }

  /** Adding a student whose id is absent keeps the ids of a group distinct. */
  lemma AddKeepsIdsDistinct(es: seq<Student>, x: Student)
    requires IdsDistinct(es) && !HasId(es, x.id)
    ensures IdsDistinct(es + [x])
  {
    forall i, j | 0 <= i < j < |es + [x]|
      ensures (es + [x])[i].id != (es + [x])[j].id
    {
      if j == |es| {
        assert es[i].id != x.id;
      }
    }
  }

  class GroupesPage {
    var groupes: seq<Groupe>
    var eleves: seq<Student>
    var nombreGroupes: int

    constructor ()
      ensures groupes == [] && eleves == [] && nombreGroupes == 2
    {
      groupes, eleves := [], [];
      nombreGroupes := 2;
    }

    /** `createGroupes`: `nombreGroupes` empty, expanded groups named in order. */
    method CreateGroupes()
      modifies this`groupes
      ensures |groupes| == (if nombreGroupes < 0 then 0 else nombreGroupes)
      ensures forall i :: 0 <= i < |groupes| ==> groupes[i] == Groupe(GroupName(i), [], true)
    {
      groupes := [];
      var count := nombreGroupes;
      var i := 0;
      while i < count
        invariant 0 <= i && |groupes| == i
        invariant if count >= 0 then i <= count else i == 0
        invariant forall k :: 0 <= k < i ==> groupes[k] == Groupe(GroupName(k), [], true)
      {
        groupes := groupes + [Groupe(GroupName(i), [], true)];
        i := i + 1;
      }
    }

    /** `repartitionAleatoire` once the class has been shuffled into `shuffled`: nothing
        without groups; otherwise every group is emptied and the student at `index`
        is pushed onto group `index % n`. */
    method RepartitionAleatoire(shuffled: seq<Student>)
      requires multiset(shuffled) == multiset(eleves)
      modifies this`groupes
      ensures |groupes| == |old(groupes)|
      ensures forall g :: 0 <= g < |groupes| ==>
        groupes[g] == old(groupes[g]).(eleves := Members(shuffled, |groupes|, g))
    {
      if |groupes| == 0 {
        return;
      }
      var n := |groupes|;
      var k := 0;
      while k < n
        invariant 0 <= k <= n == |groupes|
        invariant forall g :: 0 <= g < k ==> groupes[g] == old(groupes[g]).(eleves := [])
        invariant forall g :: k <= g < n ==> groupes[g] == old(groupes[g])
      {
        groupes := groupes[k := groupes[k].(eleves := [])];
        k := k + 1;
      }
      var index := 0;
      while index < |shuffled|
        invariant 0 <= index <= |shuffled| && |groupes| == n
        invariant forall g :: 0 <= g < n ==>
          groupes[g] == old(groupes[g]).(eleves := Members(shuffled[..index], n, g))
      {
        var g := index % n;
        assert shuffled[..index + 1][..index] == shuffled[..index];
        groupes := groupes[g := groupes[g].(eleves := groupes[g].eleves + [shuffled[index]])];
        index := index + 1;
      }
      assert shuffled[..index] == shuffled;
    }

    /** `getAssignedStudentIds`: the ids held by the groups. */
    function GetAssignedStudentIds(): (ids: seq<int>)
      reads this
      ensures forall id :: id in ids <==> IsAssigned(groupes, id)
    {
      var ids := FlatIds(groupes);
      forall id
        ensures id in ids <==> IsAssigned(groupes, id)
      {
        FlatIdsSpec(groupes, id);
      }
      ids
    }

    /** `getAvailableStudents`: the students no group holds, in class order. */
    function GetAvailableStudents(): (r: seq<Student>)
      reads this
      ensures IsSubseq(r, eleves)
      ensures forall e :: e in r <==> e in eleves && !IsAssigned(groupes, e.id)
      ensures forall e :: multiset(r)[e] == if IsAssigned(groupes, e.id) then 0 else multiset(eleves)[e]
    {
      Available(eleves, groupes)
    }

    /** `ajouterEleve`: appends the first student with that id to group `g`, unless no
        student has it or the group already holds it. */
    method AjouterEleve(g: nat, eleveId: int)
      requires g < |groupes|
      modifies this`groupes
      ensures FindById(eleves, eleveId).None? || HasId(old(groupes[g].eleves), eleveId) ==>
        groupes == old(groupes)
      ensures FindById(eleves, eleveId).Some? && !HasId(old(groupes[g].eleves), eleveId) ==>
        groupes == old(groupes)[g := old(groupes[g]).(eleves := old(groupes[g].eleves) + [FindById(eleves, eleveId).value])]
      ensures IdsDistinct(old(groupes[g].eleves)) ==> IdsDistinct(groupes[g].eleves)
    {
      var eleve := FindById(eleves, eleveId);
      if eleve.None? {
        return;
      }
      if HasId(groupes[g].eleves, eleve.value.id) {
        return;
      }
      if IdsDistinct(groupes[g].eleves) {
        AddKeepsIdsDistinct(groupes[g].eleves, eleve.value);
      }
      groupes := groupes[g := groupes[g].(eleves := groupes[g].eleves + [eleve.value])];
    }

    /** `retirerEleve`: drops every entry of group `g` with the student's id. */
    method RetirerEleve(g: nat, eleve: Student)
      requires g < |groupes|
      modifies this`groupes
      ensures groupes == old(groupes)[g := old(groupes[g]).(eleves := Removed(old(groupes[g].eleves), eleve.id))]
    {
      groupes := groupes[g := groupes[g].(eleves := Removed(groupes[g].eleves, eleve.id))];
    }

    /** `toggleExpand`: flips the `expanded` flag of group `g` only. */
    method ToggleExpand(g: nat)
      requires g < |groupes|
      modifies this`groupes
      ensures groupes == old(groupes)[g := old(groupes[g]).(expanded := !old(groupes[g].expanded))]
    {
      groupes := groupes[g := groupes[g].(expanded := !groupes[g].expanded)];
    }
  }
}
