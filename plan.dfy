/**
 * The seating plan component: severity classes of a table, the geometric tests
 * used while a table is dragged, and the drag controller that moves tables
 * (table mode) or swaps students between tables (student mode).
 */
module Plan {
  import opened Wrappers
  import opened Text
  import opened Seating
  import opened Geometry

  /** `tableEditMode`: free placement or snapping to the grid. */
  datatype EditMode = Free | Grid

  /** What `getBoundingClientRect()` reports for the plan container. */
  datatype Rect = Rect(left: real, top: real, width: real, height: real)

  /** The fields of a `MouseEvent` the handlers read. */
  datatype MouseEvent = MouseEvent(button: int, clientX: real, clientY: real, offsetX: real, offsetY: real)

  // ----- severity classes -----

  predicate IsBavard(r: Remark)
  {
    Contains(ToLower(r.intitule), "bavard")
  }

  predicate IsDmNonFait(r: Remark)
  {
    Contains(ToLower(r.intitule), "dm") && Contains(ToLower(r.intitule), "non fait")
  }

  /** `rs.filter(p).length` */
  function CountWhere(rs: seq<Remark>, p: Remark -> bool): (n: nat)
    ensures n <= |rs|
    ensures n == 0 <==> forall k :: 0 <= k < |rs| ==> !p(rs[k])
    ensures n == |rs| <==> forall k :: 0 <= k < |rs| ==> p(rs[k])
  {
    if rs == [] then 0 else (if p(rs[0]) then 1 else 0) + CountWhere(rs[1..], p)
  }

  /** One more remark never lowers a count. */
  lemma {:induction false} CountWhereAppend(rs: seq<Remark>, r: Remark, p: Remark -> bool)
    ensures CountWhere(rs + [r], p) == CountWhere(rs, p) + (if p(r) then 1 else 0)
  {
    if rs != [] {
      assert (rs + [r])[1..] == rs[1..] + [r];
      CountWhereAppend(rs[1..], r, p);
    }
  }

  /** The number of "bavard" remarks of a table's occupant (0 for an empty table). */
  function BavardCount(t: UiTable): (n: nat)
    ensures t.eleve.Some? ==> n <= |t.eleve.value.remarques|
    ensures n == 0 <==> (t.eleve.None?
      || forall k :: 0 <= k < |t.eleve.value.remarques| ==> !IsBavard(t.eleve.value.remarques[k]))
  {
    if t.eleve.None? then 0 else CountWhere(t.eleve.value.remarques, IsBavard)
  }

  /** `getDMCount`: the number of "dm ... non fait" remarks of a table's occupant. */
  function DMCount(t: UiTable): (n: nat)
    ensures t.eleve.Some? ==> n <= |t.eleve.value.remarques|
    ensures n == 0 <==> (t.eleve.None?
      || forall k :: 0 <= k < |t.eleve.value.remarques| ==> !IsDmNonFait(t.eleve.value.remarques[k]))
  {
    if t.eleve.None? then 0 else CountWhere(t.eleve.value.remarques, IsDmNonFait)
  }

  /** `getTableColorClass` */
  function TableColorClass(t: UiTable): (r: string)
    ensures r == "" <==> (t.eleve.None?
      || forall k :: 0 <= k < |t.eleve.value.remarques| ==> !IsBavard(t.eleve.value.remarques[k]))
  {
    if t.eleve.None? then ""
    else
      var n := BavardCount(t);
      if n >= 3 then "table-red"
      else if n == 2 then "table-orange"
      else if n == 1 then "table-yellow"
      else ""
  }

  /** `getDMBarClass` */
  function DMBarClass(t: UiTable): (r: string)
    ensures r == "" <==> (t.eleve.None?
      || forall k :: 0 <= k < |t.eleve.value.remarques| ==> !IsDmNonFait(t.eleve.value.remarques[k]))
  {
    var n := DMCount(t);
    if n >= 3 then "dm-red"
    else if n == 2 then "dm-orange"
    else if n == 1 then "dm-yellow"
    else ""
  }

  /** The shared severity scale: a count of 0, 1, 2 or 3 and more. */
  function Level(n: nat): (l: nat)
    ensures l <= 3 && (n <= 3 ==> l == n) && (n >= 3 ==> l == 3)
  {
    if n >= 3 then 3 else n
  }

  /** The class of a level on a scale with the given prefix. */
  function LevelClass(prefix: string, level: nat): string
  {
    if level == 0 then ""
    else if level == 1 then prefix + "-yellow"
    else if level == 2 then prefix + "-orange"
    else prefix + "-red"
  }

  /** The table colour reads the shared scale: its class is that of the bavardage count's level. */
  lemma TableClassFollowsLevel(t: UiTable)
    ensures TableColorClass(t) == LevelClass("table", Level(BavardCount(t)))
  {
    assert "table" + "-yellow" == "table-yellow" && "table" + "-orange" == "table-orange" && "table" + "-red" == "table-red";
  }

  /** The homework bar reads the shared scale: its class is that of the missing-homework count's level. */
  lemma DMClassFollowsLevel(t: UiTable)
    ensures DMBarClass(t) == LevelClass("dm", Level(DMCount(t)))
  {
    assert "dm" + "-yellow" == "dm-yellow" && "dm" + "-orange" == "dm-orange" && "dm" + "-red" == "dm-red";
  }

  /** A class names exactly one level: two tables get the same colour exactly when
      their counts have the same level. */
  lemma ColourClassIsExact(a: UiTable, b: UiTable)
    ensures TableColorClass(a) == TableColorClass(b) <==> Level(BavardCount(a)) == Level(BavardCount(b))
    ensures DMBarClass(a) == DMBarClass(b) <==> Level(DMCount(a)) == Level(DMCount(b))
  {
    TableClassFollowsLevel(a);
    TableClassFollowsLevel(b);
    DMClassFollowsLevel(a);
    DMClassFollowsLevel(b);
    if Level(BavardCount(a)) != Level(BavardCount(b)) {
      LevelClassInjective("table", Level(BavardCount(a)), Level(BavardCount(b)));
    }
    if Level(DMCount(a)) != Level(DMCount(b)) {
      LevelClassInjective("dm", Level(DMCount(a)), Level(DMCount(b)));
    }
  }

  lemma LevelClassInjective(prefix: string, l1: nat, l2: nat)
    requires l1 <= 3 && l2 <= 3 && l1 != l2
    ensures LevelClass(prefix, l1) != LevelClass(prefix, l2)
  {
    var c1, c2 := LevelClass(prefix, l1), LevelClass(prefix, l2);
    if l1 != 0 && l2 != 0 {
      assert c1[|prefix| + 1] != c2[|prefix| + 1] || |c1| != |c2|;
    } else {
      assert |c1| != |c2|;
    }
  }

  // ----- geometric tests of a table drag -----

  /** `isGridOccupied`: some table other than `current` rounds to cell `(col, row)`. */
  predicate IsGridOccupied(tables: seq<UiTable>, col: int, row: int, current: nat, cw: real, ch: real)
    requires cw > 0.0 && ch > 0.0
    ensures IsGridOccupied(tables, col, row, current, cw, ch)
      <==> exists k :: 0 <= k < |tables| && k != current && GridKey(tables[k], cw, ch) == Cell(col, row)
  {
    exists k :: 0 <= k < |tables| && k != current
      && Round(tables[k].x / cw) == col && Round(tables[k].y / ch) == row
  }

  /** `isOverlapping`: the square of side `size` at `(x, y)` meets some table other than `current`. */
  predicate IsOverlapping(tables: seq<UiTable>, x: real, y: real, current: nat, size: real)
    ensures IsOverlapping(tables, x, y, current, size)
      <==> exists k :: 0 <= k < |tables| && k != current
             && x - tables[k].x < size && tables[k].x - x < size
             && y - tables[k].y < size && tables[k].y - y < size
  {
    exists k :: 0 <= k < |tables| && k != current && Overlaps(x, y, tables[k].x, tables[k].y, size)
  }

  /** The cell a table's pixel position rounds to. */
  function GridKey(t: UiTable, cw: real, ch: real): Cell
    requires cw > 0.0 && ch > 0.0
  {
    Cell(Round(t.x / cw), Round(t.y / ch))
  }

  /** No two tables round to the same cell. */
  ghost predicate DistinctKeys(tables: seq<UiTable>, cw: real, ch: real)
    requires cw > 0.0 && ch > 0.0
  {
    forall i, j :: 0 <= i < |tables| && 0 <= j < |tables| && i != j
      ==> GridKey(tables[i], cw, ch) != GridKey(tables[j], cw, ch)
  }

  /** The grid branch of a table drag: snap the candidate to its clamped cell unless
      another table already occupies that cell. */
  function GridMove(tables: seq<UiTable>, d: nat, newX: real, newY: real,
                    cw: real, ch: real, cols: int, rows: int, size: real): (r: seq<UiTable>)
    requires d < |tables| && cw > 0.0 && ch > 0.0
    ensures |r| == |tables| && r[d].eleve == tables[d].eleve
    ensures forall k :: 0 <= k < |tables| && k != d ==> r[k] == tables[k]
  {
    var col := CellIndex(newX, cw, cols);
    var row := CellIndex(newY, ch, rows);
    if IsGridOccupied(tables, col, row, d, cw, ch) then tables
    else tables[d := tables[d].(x := Centred(col, cw, size), y := Centred(row, ch, size))]
  }

  /** A grid move is rejected, leaving every table where it was, exactly when another
      table rounds to the clamped cell of the candidate; otherwise the dragged table is
      snapped into that cell, which is in bounds and which no other table rounds to. */
  lemma GridMoveOutcome(tables: seq<UiTable>, d: nat, newX: real, newY: real,
                        cw: real, ch: real, cols: int, rows: int, size: real)
    requires d < |tables| && 0.0 < size <= cw && size <= ch && cols >= 1 && rows >= 1
    ensures var col := CellIndex(newX, cw, cols);
      var row := CellIndex(newY, ch, rows);
      var r := GridMove(tables, d, newX, newY, cw, ch, cols, rows, size);
      && (IsGridOccupied(tables, col, row, d, cw, ch) ==> r == tables)
      && (!IsGridOccupied(tables, col, row, d, cw, ch) ==>
            r[d] == tables[d].(x := Centred(col, cw, size), y := Centred(row, ch, size))
            && GridKey(r[d], cw, ch) == Cell(col, row)
            && 0 <= col < cols && 0 <= row < rows
            && forall k :: 0 <= k < |r| && k != d ==> GridKey(r[k], cw, ch) != Cell(col, row))
  {
    var col := CellIndex(newX, cw, cols);
    var row := CellIndex(newY, ch, rows);
    if !IsGridOccupied(tables, col, row, d, cw, ch) {
      SnapRecoversIndex(col, cw, size);
      SnapRecoversIndex(row, ch, size);
    }
  }

  /** Settled tables stay on pairwise distinct cells through any grid move. */
  lemma GridMovePreservesDistinct(tables: seq<UiTable>, d: nat, newX: real, newY: real,
                                  cw: real, ch: real, cols: int, rows: int, size: real)
    requires d < |tables| && 0.0 < size <= cw && size <= ch && cols >= 1 && rows >= 1
    requires DistinctKeys(tables, cw, ch)
    ensures DistinctKeys(GridMove(tables, d, newX, newY, cw, ch, cols, rows, size), cw, ch)
  {
    GridMoveOutcome(tables, d, newX, newY, cw, ch, cols, rows, size);
  }

  /** The free branch as the source writes it: the overlap test sees the unclamped
      candidate, and the position is clamped into the container afterwards. */
  function FreeMoveAsWritten(tables: seq<UiTable>, d: nat, newX: real, newY: real,
                             width: real, height: real, size: real): (r: seq<UiTable>)
    requires d < |tables|
    ensures |r| == |tables| && r[d].eleve == tables[d].eleve
    ensures forall k :: 0 <= k < |tables| && k != d ==> r[k] == tables[k]
  {
    if IsOverlapping(tables, newX, newY, d, size) then tables
    else tables[d := tables[d].(x := ClampReal(newX, 0.0, width - size),
                                y := ClampReal(newY, 0.0, height - size))]
  }

  /** A table grabbed at its right edge and pulled towards the left edge of the
      container passes the test at x = -74, is clamped to x = 0 and then covers the
      table standing at x = 30. */
  lemma FreeMoveAsWrittenCanOverlap()
    ensures var tables := [UiTable(200.0, 0.0, None), UiTable(30.0, 0.0, None)];
      var r := FreeMoveAsWritten(tables, 0, -74.0, 0.0, 500.0, 500.0, 100.0);
      r[0].x == 0.0 && Overlaps(r[0].x, r[0].y, r[1].x, r[1].y, 100.0)
  {
    var tables := [UiTable(200.0, 0.0, None), UiTable(30.0, 0.0, None)];
    assert !Overlaps(-74.0, 0.0, tables[1].x, tables[1].y, 100.0);
    assert !IsOverlapping(tables, -74.0, 0.0, 0, 100.0);
  }

  /** The free branch as written is rejected exactly when the unclamped candidate meets
      another table; otherwise the dragged table goes to the candidate clamped into the
      container, which lies inside the container when the table fits. */
  lemma FreeMoveAsWrittenOutcome(tables: seq<UiTable>, d: nat, newX: real, newY: real,
                                 width: real, height: real, size: real)
    requires d < |tables|
    ensures var r := FreeMoveAsWritten(tables, d, newX, newY, width, height, size);
      && (IsOverlapping(tables, newX, newY, d, size) ==> r == tables)
      && (!IsOverlapping(tables, newX, newY, d, size) ==>
            r[d] == tables[d].(x := ClampReal(newX, 0.0, width - size), y := ClampReal(newY, 0.0, height - size))
            && (forall k :: 0 <= k < |tables| && k != d ==> !Overlaps(newX, newY, tables[k].x, tables[k].y, size))
            && (size <= width ==> 0.0 <= r[d].x <= width - size)
            && (size <= height ==> 0.0 <= r[d].y <= height - size))
  {
  }

  /** The free branch with the overlap test applied to the position that is committed. */
  function FreeMove(tables: seq<UiTable>, d: nat, newX: real, newY: real,
                    width: real, height: real, size: real): (r: seq<UiTable>)
    requires d < |tables|
    ensures |r| == |tables| && r[d].eleve == tables[d].eleve
    ensures forall k :: 0 <= k < |tables| && k != d ==> r[k] == tables[k]
  {
    var x := ClampReal(newX, 0.0, width - size);
    var y := ClampReal(newY, 0.0, height - size);
    if IsOverlapping(tables, x, y, d, size) then tables
    else tables[d := tables[d].(x := x, y := y)]
  }

  /** A free move is rejected, leaving every table where it was, exactly when the clamped
      candidate meets another table; otherwise the dragged table goes to the clamped
      candidate, which is inside the container and overlaps no other table. */
  lemma FreeMoveOutcome(tables: seq<UiTable>, d: nat, newX: real, newY: real,
                        width: real, height: real, size: real)
    requires d < |tables| && size <= width && size <= height
    ensures var x := ClampReal(newX, 0.0, width - size);
      var y := ClampReal(newY, 0.0, height - size);
      var r := FreeMove(tables, d, newX, newY, width, height, size);
      && (IsOverlapping(tables, x, y, d, size) ==> r == tables)
      && (!IsOverlapping(tables, x, y, d, size) ==>
            r[d] == tables[d].(x := x, y := y)
            && 0.0 <= x <= width - size && 0.0 <= y <= height - size
            && !IsOverlapping(r, x, y, d, size))
  {
    var x := ClampReal(newX, 0.0, width - size);
    var y := ClampReal(newY, 0.0, height - size);
    var r := FreeMove(tables, d, newX, newY, width, height, size);
    if !IsOverlapping(tables, x, y, d, size) {
      forall k | 0 <= k < |r| && k != d
        ensures !Overlaps(x, y, r[k].x, r[k].y, size)
      {
        assert r[k] == tables[k];
      }
    }
  }

  /** No two tables of the plan overlap. */
  ghost predicate NoOverlaps(tables: seq<UiTable>, size: real)
  {
    forall i, j :: 0 <= i < |tables| && 0 <= j < |tables| && i != j
      ==> !Overlaps(tables[i].x, tables[i].y, tables[j].x, tables[j].y, size)
  }

  /** A free move keeps a plan in which no two tables overlap overlap-free. */
  lemma FreeMovePreservesNoOverlap(tables: seq<UiTable>, d: nat, newX: real, newY: real,
                                   width: real, height: real, size: real)
    requires d < |tables| && size <= width && size <= height
    requires NoOverlaps(tables, size)
    ensures NoOverlaps(FreeMove(tables, d, newX, newY, width, height, size), size)
  {
    var r := FreeMove(tables, d, newX, newY, width, height, size);
    FreeMoveOutcome(tables, d, newX, newY, width, height, size);
    forall i, j | 0 <= i < |r| && 0 <= j < |r| && i != j
      ensures !Overlaps(r[i].x, r[i].y, r[j].x, r[j].y, size)
    {
      if r != tables && (i == d || j == d) {
        var k := if i == d then j else i;
        assert !Overlaps(r[d].x, r[d].y, r[k].x, r[k].y, size);
        OverlapsSymmetric(r[d].x, r[d].y, r[k].x, r[k].y, size);
      }
    }
  }

  /** What one mouse-move does to the tables while no student is being dragged. */
  function DragTo(tables: seq<UiTable>, dragged: Option<nat>, mode: InteractionMode, editMode: EditMode,
                  size: real, cols: int, rows: int, e: MouseEvent, offX: real, offY: real, rect: Rect): (r: seq<UiTable>)
    requires cols >= 1 && rows >= 1
    requires editMode == Grid ==> rect.width > 0.0 && rect.height > 0.0
    ensures |r| == |tables| && Occupants(r) == Occupants(tables)
    ensures dragged.None? || mode != TableMode ==> r == tables
    ensures dragged.Some? ==> forall k :: 0 <= k < |tables| && k != dragged.value ==> r[k] == tables[k]
  {
    if dragged.None? || mode != TableMode || dragged.value >= |tables| then tables
    else
      var newX := e.clientX - rect.left - offX;
      var newY := e.clientY - rect.top - offY;
      if editMode == Grid then
        GridMove(tables, dragged.value, newX, newY, rect.width / cols as real, rect.height / rows as real, cols, rows, size)
      else
        FreeMoveAsWritten(tables, dragged.value, newX, newY, rect.width, rect.height, size)
  }

  /** The mouse has left the disc of radius `threshold` around the drag start
      (`Math.sqrt(dx * dx + dy * dy) > threshold`, compared on squares). */
  predicate PastThreshold(dx: real, dy: real, threshold: real)
  {
    dx * dx + dy * dy > threshold * threshold
  }

  /** What mouse-up does to the tables: with a visible avatar over a table, the occupants
      of the dragged student's table and of the target table are exchanged. */
  function StudentDrop(tables: seq<UiTable>, dragging: Option<Student>, visible: bool, target: Option<int>): (r: seq<UiTable>)
    ensures |r| == |tables|
    ensures forall k :: 0 <= k < |tables| ==> r[k].x == tables[k].x && r[k].y == tables[k].y
  {
    if dragging.Some? && visible && target.Some? && 0 <= target.value < |tables| then
      match FindOccupant(tables, dragging.value.id)
      case None => tables
      case Some(s) => SwapOccupants(tables, target.value, s)
    else tables
  }

  /** A drop exchanges the occupants of the source and target tables only, brings the
      dragged student to the target, and keeps the multiset of occupants. */
  lemma StudentDropExchanges(tables: seq<UiTable>, s: Student, target: nat)
    requires target < |tables| && FindOccupant(tables, s.id).Some?
    ensures var src := FindOccupant(tables, s.id).value;
      var r := StudentDrop(tables, Some(s), true, Some(target));
      IdOf(r[target].eleve) == Some(s.id)
      && r[target].eleve == tables[src].eleve && r[src].eleve == tables[target].eleve
      && (forall k :: 0 <= k < |tables| && k != src && k != target ==> r[k] == tables[k])
      && multiset(Occupants(r)) == multiset(Occupants(tables))
  {
    SwapPreservesOccupants(tables, target, FindOccupant(tables, s.id).value);
  }

  /** A drop that does not happen (no visible avatar, no target, or a student seated
      nowhere) leaves every table as it was. */
  lemma StudentDropWithoutDrag(tables: seq<UiTable>, dragging: Option<Student>, visible: bool, target: Option<int>)
    requires !visible || dragging.None? || target.None?
    ensures StudentDrop(tables, dragging, visible, target) == tables
  {
  }

  /** Dragging a student to another table and back restores the plan exactly,
      provided no student sits at two tables. */
  lemma DragBackRestores(tables: seq<UiTable>, s: Student, a: nat, b: nat)
    requires UniqueOccupants(tables)
    requires FindOccupant(tables, s.id) == Some(a) && b < |tables|
    ensures StudentDrop(StudentDrop(tables, Some(s), true, Some(b)), Some(s), true, Some(a)) == tables
  {
    var t1 := StudentDrop(tables, Some(s), true, Some(b));
    assert t1 == SwapOccupants(tables, b, a);
    SwapPreservesUnique(tables, b, a);
    assert IdOf(t1[b].eleve) == Some(s.id);
    var f := FindOccupant(t1, s.id);
    assert f == Some(b);
    SwapSelfInverse(tables, b, a);
  }

  /** The drag controller of the plan. `tables` is the component's input list;
      `draggedTable` names a table by its index in it. */
  class PlanController {
    var tables: seq<UiTable>
    var interactionMode: InteractionMode
    var tableEditMode: EditMode
    var tableSize: real
    var cols: int
    var rows: int
    var draggedTable: Option<nat>
    var offsetX: real
    var offsetY: real
    var studentDragging: Option<Student>
    var avatarX: real
    var avatarY: real
    var avatarVisible: bool
    var dragStartX: real
    var dragStartY: real
    const dragThreshold: real

    /** The avatar is shown only during a student drag. */
    ghost predicate Valid()
      reads this
    {
      cols >= 1 && rows >= 1 && dragThreshold == 6.0
      && (avatarVisible ==> studentDragging.Some?)
    }

    constructor ()
      ensures Valid()
      ensures tables == [] && interactionMode == StudentMode && tableEditMode == Free && tableSize == 100.0
      ensures cols == 1 && rows == 1
      ensures draggedTable.None? && studentDragging.None? && !avatarVisible
    {
      tables := [];
      interactionMode := StudentMode;
      tableEditMode := Free;
      tableSize := 100.0;
      cols, rows := 1, 1;
      draggedTable := None;
      offsetX, offsetY := 0.0, 0.0;
      studentDragging := None;
      avatarX, avatarY := 0.0, 0.0;
      avatarVisible := false;
      dragStartX, dragStartY := 0.0, 0.0;
      dragThreshold := 6.0;
    }

    /** `setGrid` */
    method SetGrid(cols': int, rows': int)
      requires Valid() && cols' >= 1 && rows' >= 1
      modifies this`cols, this`rows
      ensures Valid() && cols == cols' && rows == rows'
    {
      cols, rows := cols', rows';
    }

    /** `onMouseDown`: arms a table drag on button 0 in table mode. */
    method OnMouseDown(e: MouseEvent, table: nat)
      requires Valid()
      modifies this`draggedTable, this`offsetX, this`offsetY
      ensures Valid()
      ensures if e.button == 0 && interactionMode == TableMode
        then draggedTable == Some(table) && offsetX == e.offsetX && offsetY == e.offsetY
        else draggedTable == old(draggedTable) && offsetX == old(offsetX) && offsetY == old(offsetY)
    {
      if e.button != 0 {
        return;
      }
      if interactionMode == TableMode {
        draggedTable := Some(table);
        offsetX := e.offsetX;
        offsetY := e.offsetY;
      }
    }

    /** `startStudentDrag`: arms a student drag on button 0 in student mode; the avatar
        stays hidden at the down-position until the mouse moves far enough. */
    method StartStudentDrag(eleve: Student, e: MouseEvent)
      requires Valid()
      modifies this`studentDragging, this`dragStartX, this`dragStartY, this`avatarX, this`avatarY, this`avatarVisible
      ensures Valid()
      ensures if interactionMode == StudentMode && e.button == 0
        then (studentDragging == Some(eleve) && !avatarVisible
          && dragStartX == e.clientX && dragStartY == e.clientY
          && avatarX == e.clientX && avatarY == e.clientY)
        else (studentDragging == old(studentDragging) && avatarVisible == old(avatarVisible)
          && dragStartX == old(dragStartX) && dragStartY == old(dragStartY)
          && avatarX == old(avatarX) && avatarY == old(avatarY))
    {
      if interactionMode != StudentMode {
        return;
      }
      if e.button != 0 {
        return;
      }
      studentDragging := Some(eleve);
      dragStartX, dragStartY := e.clientX, e.clientY;
      avatarX, avatarY := e.clientX, e.clientY;
      avatarVisible := false;
    }

    /** `onMouseMove`. During a student drag only the avatar changes: it becomes visible
        once the mouse passes the threshold, stays visible, and follows the mouse
        while visible. Otherwise the dragged table moves as `DragTo` says. */
    method OnMouseMove(e: MouseEvent, rect: Rect)
      requires Valid()
      requires tableEditMode == Grid ==> rect.width > 0.0 && rect.height > 0.0
      modifies this`tables, this`avatarVisible, this`avatarX, this`avatarY
      ensures Valid()
      ensures old(studentDragging).Some? ==>
        tables == old(tables)
        && avatarVisible == (old(avatarVisible) || PastThreshold(e.clientX - dragStartX, e.clientY - dragStartY, dragThreshold))
        && (if avatarVisible then avatarX == e.clientX && avatarY == e.clientY
            else avatarX == old(avatarX) && avatarY == old(avatarY))
      ensures old(studentDragging).None? ==>
        avatarVisible == old(avatarVisible) && avatarX == old(avatarX) && avatarY == old(avatarY)
        && tables == DragTo(old(tables), draggedTable, interactionMode, tableEditMode, tableSize,
                            cols, rows, e, offsetX, offsetY, rect)
    {
      if studentDragging.Some? {
        MoveAvatar(e);
      } else {
        MoveTable(e, rect);
      }
    }

    /** The student-drag half of `onMouseMove`: the avatar becomes visible once the
        mouse passes the threshold, stays visible, and follows the mouse while visible. */
    method MoveAvatar(e: MouseEvent)
      modifies this`avatarVisible, this`avatarX, this`avatarY
      ensures avatarVisible == (old(avatarVisible) || PastThreshold(e.clientX - dragStartX, e.clientY - dragStartY, dragThreshold))
      ensures if avatarVisible then avatarX == e.clientX && avatarY == e.clientY
              else avatarX == old(avatarX) && avatarY == old(avatarY)
    {
      var dx := e.clientX - dragStartX;
      var dy := e.clientY - dragStartY;
      if !avatarVisible && PastThreshold(dx, dy, dragThreshold) {
        avatarVisible := true;
      }
      if avatarVisible {
        avatarX := e.clientX;
        avatarY := e.clientY;
      }
    }

    /** The table-drag half of `onMouseMove`: the dragged table moves as `DragTo` says. */
    method MoveTable(e: MouseEvent, rect: Rect)
      requires Valid()
      requires tableEditMode == Grid ==> rect.width > 0.0 && rect.height > 0.0
      modifies this`tables
      ensures Valid()
      ensures tables == DragTo(old(tables), draggedTable, interactionMode, tableEditMode, tableSize,
                               cols, rows, e, offsetX, offsetY, rect)
    {
      if draggedTable.None? {
        return;
      }
      if interactionMode != TableMode {
        return;
      }
      var d := draggedTable.value;
      if d >= |tables| {
        // the dragged table is no longer in the list: nothing in the list moves
        return;
      }
      var newX := e.clientX - rect.left - offsetX;
      var newY := e.clientY - rect.top - offsetY;
      if tableEditMode == Grid {
        var cellWidth := rect.width / cols as real;
        var cellHeight := rect.height / rows as real;
        var col := CellIndex(newX, cellWidth, cols);
        var row := CellIndex(newY, cellHeight, rows);
        if IsGridOccupied(tables, col, row, d, cellWidth, cellHeight) {
          return;
        }
        tables := tables[d := tables[d].(x := Centred(col, cellWidth, tableSize), y := Centred(row, cellHeight, tableSize))];
      } else {
        if IsOverlapping(tables, newX, newY, d, tableSize) {
          return;
        }
        var x := ClampReal(newX, 0.0, rect.width - tableSize);
        var y := ClampReal(newY, 0.0, rect.height - tableSize);
        tables := tables[d := tables[d].(x := x, y := y)];
      }
    }

    /** `onMouseUp`: drops a visible student avatar on the target table, swapping the
        two occupants, and always ends every drag. */
    method OnMouseUp(target: Option<int>)
      requires Valid()
      modifies this`tables, this`studentDragging, this`avatarVisible, this`draggedTable
      ensures Valid()
      ensures studentDragging.None? && !avatarVisible && draggedTable.None?
      ensures tables == StudentDrop(old(tables), old(studentDragging), old(avatarVisible), target)
    {
      if studentDragging.Some? && avatarVisible {
        if target.Some? && 0 <= target.value < |tables| {
          var t := target.value;
          var source := FindOccupant(tables, studentDragging.value.id);
          if source.Some? {
            var s := source.value;
            var temp := tables[t].eleve;
            tables := tables[t := tables[t].(eleve := tables[s].eleve)];
            tables := tables[s := tables[s].(eleve := temp)];
          }
        }
      }
      studentDragging := None;
      avatarVisible := false;
      draggedTable := None;
    }

    /** `onTableClick`: in student mode a click on an occupied table reports its occupant. */
    method OnTableClick(table: nat) returns (clicked: Option<Student>)
      requires Valid() && table < |tables|
      ensures clicked.Some? <==> interactionMode == StudentMode && tables[table].eleve.Some?
      ensures clicked.Some? ==> clicked == tables[table].eleve
    {
      clicked := None;
      if interactionMode != StudentMode {
        return;
      }
      if tables[table].eleve.Some? {
        clicked := tables[table].eleve;
      }
    }
  }
}
