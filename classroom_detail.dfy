/**
 * The classroom page: it pairs backend tables with students, reconciles every table
 * with the grid (`applyGrid`), refuses to save a layout in which two tables share a
 * cell, finds the cell for a new student, and holds the mode and selection toggles
 * and the remark search.
 */
module ClassroomDetail {
  import opened Wrappers
  import opened Text
  import opened Seating
  import opened Geometry
  import opened Sequences
  import RemarkFilter
  import Sidebar

  /** How `saveClassroom` ends: it returns early, alerts about a shared cell, or posts. */
  datatype SaveOutcome = NotSaved | Collision | Posted

  /** How `openAddStudent` ends; `PostTable` is the table creation it would post. */
  datatype AddOutcome =
    | NoClassroom
    | BlankName
    | Duplicate
    | GridFull
    | PostTable(cell: Cell, nom: string, prenom: string, tableIndex: nat)

  /** What `applyGrid` reads and writes: the backend cells, the UI tables and the table size. */
  datatype Layout = Layout(cells: seq<Cell>, uiTables: seq<UiTable>, tableSize: real)

  function Min(a: real, b: real): (m: real)
    ensures m <= a && m <= b && (m == a || m == b)
  {
    if a < b then a else b
  }

  /** A backend cell clamped into the grid. */
  function ClampCell(c: Cell, cols: int, rows: int): (r: Cell)
    requires cols >= 1 && rows >= 1
    ensures 0 <= r.x < cols && 0 <= r.y < rows
    ensures 0 <= c.x < cols && 0 <= c.y < rows ==> r == c
    ensures c.x >= cols ==> r.x == cols - 1
    ensures c.y >= rows ==> r.y == rows - 1
    ensures c.x < 0 ==> r.x == 0
    ensures c.y < 0 ==> r.y == 0
  {
    Cell(Clamp(c.x, 0, cols - 1), Clamp(c.y, 0, rows - 1))
  }

  /** `applyGrid` on a layout with a plan of positive size. */
  function Reconcile(l: Layout, width: real, height: real, cols: int, rows: int): (r: Layout)
    requires |l.cells| == |l.uiTables| && width > 0.0 && height > 0.0 && cols >= 1 && rows >= 1
    ensures |r.cells| == |l.cells| && |r.uiTables| == |l.uiTables|
  {
    var cw := width / cols as real;
    var ch := height / rows as real;
    var ts := Min(cw, ch) - 10.0;
    var cells := seq(|l.cells|, k requires 0 <= k < |l.cells| => ClampCell(l.cells[k], cols, rows));
    var uis := seq(|l.uiTables|, k requires 0 <= k < |l.uiTables| =>
      l.uiTables[k].(x := Centred(cells[k].x, cw, ts), y := Centred(cells[k].y, ch, ts)));
    Layout(cells, uis, ts)
  }

  /** After reconciling: the table size is the smaller cell side minus 10; every cell is
      in bounds and a cell already in bounds is kept; every table is centred in its
      cell; occupants do not move. */
  lemma ReconcileSpec(l: Layout, width: real, height: real, cols: int, rows: int)
    requires |l.cells| == |l.uiTables| && width > 0.0 && height > 0.0 && cols >= 1 && rows >= 1
    ensures var r := Reconcile(l, width, height, cols, rows);
      var cw := width / cols as real;
      var ch := height / rows as real;
      && r.tableSize == Min(cw, ch) - 10.0
      && (forall k :: 0 <= k < |r.cells| ==>
            0 <= r.cells[k].x < cols && 0 <= r.cells[k].y < rows
            && (0 <= l.cells[k].x < cols && 0 <= l.cells[k].y < rows ==> r.cells[k] == l.cells[k])
            && r.uiTables[k].x + r.tableSize / 2.0 == (r.cells[k].x as real + 0.5) * cw
            && r.uiTables[k].y + r.tableSize / 2.0 == (r.cells[k].y as real + 0.5) * ch)
      && Occupants(r.uiTables) == Occupants(l.uiTables)
  {
    var r := Reconcile(l, width, height, cols, rows);
    assert Occupants(r.uiTables) == Occupants(l.uiTables);
  }

  /** Reconciling twice is reconciling once. */
  lemma ReconcileIdempotent(l: Layout, width: real, height: real, cols: int, rows: int)
    requires |l.cells| == |l.uiTables| && width > 0.0 && height > 0.0 && cols >= 1 && rows >= 1
    ensures var r := Reconcile(l, width, height, cols, rows);
      Reconcile(r, width, height, cols, rows) == r
  {
    var r := Reconcile(l, width, height, cols, rows);
    var r2 := Reconcile(r, width, height, cols, rows);
    assert r2.cells == r.cells;
    assert r2.uiTables == r.uiTables;
  }

  /** Shrinking a 10-column grid to 3 columns moves a table of column 7 to column 2. */
  lemma ShrinkingColumnsClamps()
    ensures Reconcile(Layout([Cell(7, 0)], [UiTable(0.0, 0.0, None)], 0.0), 300.0, 500.0, 3, 5).cells == [Cell(2, 0)]
  {
  }

  /** The cell `saveClassroom` derives from a table's pixel position. */
  function RecoveredCell(t: UiTable, cw: real, ch: real, cols: int, rows: int): (c: Cell)
    requires cw > 0.0 && ch > 0.0 && cols >= 1 && rows >= 1
    ensures 0 <= c.x < cols && 0 <= c.y < rows
  {
    Cell(CellIndex(t.x, cw, cols), CellIndex(t.y, ch, rows))
  }

  /** The `col,row` keys of all tables, in order. */
  function SaveKeys(uis: seq<UiTable>, width: real, height: real, cols: int, rows: int): (keys: seq<Cell>)
    requires width > 0.0 && height > 0.0 && cols >= 1 && rows >= 1
    ensures |keys| == |uis|
    ensures forall k :: 0 <= k < |keys| ==> 0 <= keys[k].x < cols && 0 <= keys[k].y < rows
  {
    seq(|uis|, k requires 0 <= k < |uis| => RecoveredCell(uis[k], width / cols as real, height / rows as real, cols, rows))
  }

  /** The first index whose key already occurred before it. */
  function FirstRepeat(keys: seq<Cell>): (r: Option<nat>)
    ensures r.None? <==> Distinct(keys)
    ensures r.Some? ==> r.value < |keys| && keys[r.value] in keys[..r.value] && Distinct(keys[..r.value])
  {
    if keys == [] then None
    else
      var init := keys[..|keys| - 1];
      var last := keys[|keys| - 1];
      match FirstRepeat(init)
      case Some(j) =>
        assert keys[..j] == init[..j];
        Some(j)
      case None =>
        if last in init then Some(|keys| - 1)
        else
          assert forall i :: 0 <= i < |init| ==> keys[i] == init[i];
          None
  }

  /** A prefix of distinct keys holds no repetition. */
  lemma DistinctPrefixHasNoRepeat(keys: seq<Cell>, k: nat, j: nat)
    requires j < k <= |keys| && Distinct(keys[..k])
    ensures keys[j] !in keys[..j]
  {
    forall i | 0 <= i < j
      ensures keys[..j][i] != keys[j]
    {
      assert keys[..k][i] == keys[..j][i];
      assert keys[..k][j] == keys[j];
    }
  }

  /** A new key extends a prefix without repetitions. */
  lemma DistinctPrefixStep(keys: seq<Cell>, k: nat)
    requires k < |keys| && Distinct(keys[..k]) && keys[k] !in keys[..k]
    ensures Distinct(keys[..k + 1])
  {
    var p := keys[..k + 1];
    forall i, j | 0 <= i < j < |p|
      ensures p[i] != p[j]
    {
      if j < k {
        assert keys[..k][i] != keys[..k][j];
      } else {
        assert keys[..k][i] == keys[i];
      }
    }
  }

  /** One step of the save loop: a key not seen yet joins the seen ones. */
  lemma SaveStep(keys: seq<Cell>, k: nat, used: set<Cell>)
    requires k < |keys| && Distinct(keys[..k])
    requires forall c :: c in used <==> c in keys[..k]
    requires keys[k] !in used
    ensures Distinct(keys[..k + 1])
    ensures forall c :: c in used + {keys[k]} <==> c in keys[..k + 1]
  {
    DistinctPrefixStep(keys, k);
    assert keys[..k + 1] == keys[..k] + [keys[k]];
  }

  /** Once a key repeats, every longer prefix has a repetition. */
  lemma RepeatSpoilsLongerPrefix(keys: seq<Cell>, k: nat, j: nat)
    requires k < j <= |keys| && keys[k] in keys[..k]
    ensures !Distinct(keys[..j])
  {
    var i :| 0 <= i < k && keys[..k][i] == keys[k];
    assert keys[..j][i] == keys[..j][k];
  }

  /** The first repetition is where the keys seen so far are distinct and the next one
      is among them. */
  lemma FirstRepeatAt(keys: seq<Cell>, k: nat)
    requires k < |keys| && Distinct(keys[..k]) && keys[k] in keys[..k]
    ensures FirstRepeat(keys) == Some(k)
  {
    var j := FirstRepeat(keys).value;
    if j < k {
      DistinctPrefixHasNoRepeat(keys, k, j);
    } else if j > k {
      RepeatSpoilsLongerPrefix(keys, k, j);
    }
  }

  /** Saving right after reconciling, with cells wider and taller than 10 pixels, writes
      back exactly the reconciled cells. */
  lemma SaveAfterReconcile(l: Layout, width: real, height: real, cols: int, rows: int)
    requires |l.cells| == |l.uiTables| && width > 0.0 && height > 0.0 && cols >= 1 && rows >= 1
    requires Min(width / cols as real, height / rows as real) > 10.0
    ensures var r := Reconcile(l, width, height, cols, rows);
      SaveKeys(r.uiTables, width, height, cols, rows) == r.cells
  {
    var r := Reconcile(l, width, height, cols, rows);
    var cw := width / cols as real;
    var ch := height / rows as real;
    var keys := SaveKeys(r.uiTables, width, height, cols, rows);
    forall k | 0 <= k < |keys| ensures keys[k] == r.cells[k] {
      SnapRecoversIndex(r.cells[k].x, cw, r.tableSize);
      SnapRecoversIndex(r.cells[k].y, ch, r.tableSize);
    }
  }

  /** Two first and family names are the same up to case (`toLowerCase` on both sides). */
  predicate SameName(e: Student, nom: string, prenom: string)
  {
    ToLower(e.nom) == ToLower(nom) && ToLower(e.prenom) == ToLower(prenom)
  }

  /** Cell `a` comes before cell `b` in row-major order (rows outer, columns inner). */
  predicate RowMajorBefore(a: Cell, b: Cell)
  {
    a.y < b.y || (a.y == b.y && a.x < b.x)
  }

  /** The search of `openAddStudent`: the first cell, rows outer and columns inner, that
      no table stands on. */
  method FirstFreeCell(used: seq<Cell>, cols: int, rows: int) returns (free: Option<Cell>)
    ensures free.None? ==> forall x, y :: 0 <= x < cols && 0 <= y < rows ==> Cell(x, y) in used
    ensures free.Some? ==>
      && 0 <= free.value.x < cols && 0 <= free.value.y < rows && free.value !in used
      && forall x, y :: 0 <= x < cols && 0 <= y < rows && RowMajorBefore(Cell(x, y), free.value) ==> Cell(x, y) in used
  {
    var y := 0;
    while y < rows
      invariant 0 <= y && (rows >= 0 ==> y <= rows)
      invariant forall a, b :: 0 <= a < cols && 0 <= b < y ==> Cell(a, b) in used
    {
      var x := 0;
      while x < cols
        invariant 0 <= x && (cols >= 0 ==> x <= cols)
        invariant forall a :: 0 <= a < x ==> Cell(a, y) in used
      {
        if Cell(x, y) !in used {
          return Some(Cell(x, y));
        }
        x := x + 1;
      }
      y := y + 1;
    }
    return None;
  }

  /** The loop of `applyGrid`: each table's cell is clamped into the grid and its
      position centred in that cell, at the new table size. */
  method ReconcileLoop(l: Layout, width: real, height: real, cols: int, rows: int) returns (r: Layout)
    requires |l.cells| == |l.uiTables| && width > 0.0 && height > 0.0 && cols >= 1 && rows >= 1
    ensures r == Reconcile(l, width, height, cols, rows)
  {
    var cellWidth := width / cols as real;
    var cellHeight := height / rows as real;
    var tableSize := Min(cellWidth, cellHeight) - 10.0;
    ghost var target := Reconcile(l, width, height, cols, rows);
    var cells := l.cells;
    var uis := l.uiTables;
    var k := 0;
    while k < |uis|
      invariant 0 <= k <= |uis| == |cells| == |target.cells| == |target.uiTables|
      invariant forall i :: 0 <= i < k ==> cells[i] == target.cells[i] && uis[i] == target.uiTables[i]
      invariant forall i :: k <= i < |cells| ==> cells[i] == l.cells[i] && uis[i] == l.uiTables[i]
    {
      var px := Clamp(cells[k].x, 0, cols - 1);
      var py := Clamp(cells[k].y, 0, rows - 1);
      cells := cells[k := Cell(px, py)];
      uis := uis[k := uis[k].(x := Centred(px, cellWidth, tableSize), y := Centred(py, cellHeight, tableSize))];
      k := k + 1;
    }
    r := Layout(cells, uis, tableSize);
    assert r.cells == target.cells && r.uiTables == target.uiTables;
  }

  /** What the write-back loop keeps after `k` tables: the first `k` keys are distinct,
      `used` holds exactly them, and they have replaced the first `k` cells. */
  ghost predicate WrittenUpTo(keys: seq<Cell>, cells: seq<Cell>, written: seq<Cell>, used: set<Cell>, k: nat)
  {
    && k <= |keys| == |cells| == |written|
    && Distinct(keys[..k])
    && (forall c :: c in used <==> c in keys[..k])
    && written == keys[..k] + cells[k..]
  }

  /** One table of the write-back loop whose key is new. */
  lemma WrittenStep(keys: seq<Cell>, cells: seq<Cell>, written: seq<Cell>, used: set<Cell>, k: nat)
    requires WrittenUpTo(keys, cells, written, used, k) && k < |keys| && keys[k] !in used
    ensures WrittenUpTo(keys, cells, written[k := keys[k]], used + {keys[k]}, k + 1)
  {
    SaveStep(keys, k, used);
    assert written[k := keys[k]] == keys[..k + 1] + cells[k + 1..];
  }

  /** The cells `saveClassroom` leaves behind: each table's key up to the first repeated
      one and its old cell from there on, so all the keys when none repeats. */
  function SavedCells(keys: seq<Cell>, cells: seq<Cell>): (r: seq<Cell>)
    requires |keys| == |cells|
    ensures |r| == |cells|
    ensures forall i :: 0 <= i < |r| ==>
      r[i] == (if FirstRepeat(keys).Some? && FirstRepeat(keys).value <= i then cells[i] else keys[i])
  {
    match FirstRepeat(keys)
    case None => keys
    case Some(j) => keys[..j] + cells[j..]
  }

  /** The loop of `saveClassroom` on the cells it starts from: each table's rounded and
      clamped cell replaces its old one until a cell repeats; the result is the cells so
      written and the index of that first repetition. */
  method WriteBack(uis: seq<UiTable>, cells: seq<Cell>, width: real, height: real, cols: int, rows: int)
    returns (written: seq<Cell>, repeat: Option<nat>)
    requires |uis| == |cells| && width > 0.0 && height > 0.0 && cols >= 1 && rows >= 1
    ensures var keys := SaveKeys(uis, width, height, cols, rows);
      repeat == FirstRepeat(keys) && written == SavedCells(keys, cells)
  {
    var cellWidth := width / cols as real;
    var cellHeight := height / rows as real;
    ghost var keys := SaveKeys(uis, width, height, cols, rows);
    written := cells;
    var used: set<Cell> := {};
    var k := 0;
    assert written == keys[..0] + cells[0..];
    while k < |uis|
      invariant WrittenUpTo(keys, cells, written, used, k)
    {
      var key := RecoveredCell(uis[k], cellWidth, cellHeight, cols, rows);
      if key in used {
        FirstRepeatAt(keys, k);
        return written, Some(k);
      }
      WrittenStep(keys, cells, written, used, k);
      used := used + {key};
      written := written[k := key];
      k := k + 1;
    }
    assert keys[..k] == keys;
    assert written == keys;
    return written, None;
  }

  class ClassroomDetailPage {
    /** `classroom != null` */
    var loaded: bool
    /** `classroom.tables[i].position` */
    var tables: seq<Cell>
    /** `classroom.eleves.eleves` */
    var eleves: seq<Student>
    /** `classroom.uiTables` has been built; UI table `i`'s `backendRef` is `tables[i]`. */
    var uiBuilt: bool
    var uiTables: seq<UiTable>
    var selectedStudent: Option<Student>
    var interactionMode: InteractionMode
    var rows: int
    var cols: int
    var tableSize: real
    var remarqueFilter: string
    var sidebar: Sidebar.SidebarComponent?

    ghost predicate Valid()
      reads this
    {
      rows >= 1 && cols >= 1 && (uiBuilt ==> loaded && |uiTables| == |tables|)
    }

    constructor ()
      ensures Valid() && !loaded && !uiBuilt && selectedStudent.None? && interactionMode == StudentMode
      ensures rows == 5 && cols == 10 && tableSize == 80.0 && remarqueFilter == "" && sidebar == null
    {
      loaded := false;
      tables, eleves := [], [];
      uiBuilt := false;
      uiTables := [];
      selectedStudent := None;
      interactionMode := StudentMode;
      rows, cols := 5, 10;
      tableSize := 80.0;
      remarqueFilter := "";
      sidebar := null;
    }

    /** The body of `loadClassroom`'s subscription: replace the classroom, then build
        the UI tables (the grid is applied separately). */
    method OnClassroomLoaded(ts: seq<Cell>, es: seq<Student>)
      requires Valid()
      modifies this`loaded, this`tables, this`eleves, this`uiBuilt, this`uiTables
      ensures Valid() && loaded && tables == ts && eleves == es && uiBuilt
      ensures |uiTables| == |ts|
      ensures forall i :: 0 <= i < |ts| ==>
        uiTables[i] == UiTable(ts[i].x as real, ts[i].y as real, if i < |es| then Some(es[i]) else None)
    {
      loaded := true;
      tables, eleves := ts, es;
      uiBuilt := false;
      BuildUITables();
    }

    /** `buildUITables`: UI table `i` starts at backend position `i` and holds student
        `i`, or nobody when there are fewer students than tables. */
    method BuildUITables()
      requires Valid()
      modifies this`uiBuilt, this`uiTables
      ensures Valid()
      ensures !loaded ==> uiBuilt == old(uiBuilt) && uiTables == old(uiTables)
      ensures loaded ==> uiBuilt && |uiTables| == |tables|
      ensures loaded ==> forall i :: 0 <= i < |tables| ==>
        uiTables[i] == UiTable(tables[i].x as real, tables[i].y as real,
                               if i < |eleves| then Some(eleves[i]) else None)
    {
      if !loaded {
        return;
      }
      var ui: seq<UiTable> := [];
      var index := 0;
      while index < |tables|
        invariant 0 <= index <= |tables| && |ui| == index
        invariant forall i :: 0 <= i < index ==>
          ui[i] == UiTable(tables[i].x as real, tables[i].y as real,
                           if i < |eleves| then Some(eleves[i]) else None)
      {
        var eleve := if index < |eleves| then Some(eleves[index]) else None;
        ui := ui + [UiTable(tables[index].x as real, tables[index].y as real, eleve)];
        index := index + 1;
      }
      uiTables := ui;
      uiBuilt := true;
    }

    /** `applyGrid` for a plan of the given size: nothing without UI tables or with an
        empty plan, otherwise the layout becomes its reconciliation. */
    method ApplyGrid(width: real, height: real)
      requires Valid() && width >= 0.0 && height >= 0.0
      modifies this`tables, this`uiTables, this`tableSize
      ensures Valid()
      ensures !(uiBuilt && width > 0.0 && height > 0.0) ==>
        tables == old(tables) && uiTables == old(uiTables) && tableSize == old(tableSize)
      ensures uiBuilt && width > 0.0 && height > 0.0 ==>
        Layout(tables, uiTables, tableSize)
          == Reconcile(old(Layout(tables, uiTables, tableSize)), width, height, cols, rows)
    {
      if !uiBuilt {
        return;
      }
      if width == 0.0 || height == 0.0 {
        return;
      }
      var r := ReconcileLoop(Layout(tables, uiTables, tableSize), width, height, cols, rows);
      tables, uiTables, tableSize := r.cells, r.uiTables, r.tableSize;
    }

    /** The loop of `saveClassroom`: writes each table's rounded and clamped cell back
        until a cell repeats, and returns the index of that first repetition. */
    method WriteBackCells(width: real, height: real) returns (repeat: Option<nat>)
      requires Valid() && uiBuilt && width > 0.0 && height > 0.0
      modifies this`tables
      ensures Valid()
      ensures var keys := SaveKeys(uiTables, width, height, cols, rows);
        repeat == FirstRepeat(keys) && tables == SavedCells(keys, old(tables))
    {
      var written;
      written, repeat := WriteBack(uiTables, tables, width, height, cols, rows);
      tables := written;
    }

    /** `saveClassroom` for a plan of the given size. It posts exactly when the tables'
        rounded and clamped cells are pairwise distinct, having written those cells back;
        on the first repeated cell it alerts, keeping the cells written so far, and
        re-applies the grid. */
    method SaveClassroom(width: real, height: real) returns (outcome: SaveOutcome)
      requires Valid() && width >= 0.0 && height >= 0.0
      modifies this`tables, this`uiTables, this`tableSize
      ensures Valid()
      ensures !(uiBuilt && width > 0.0 && height > 0.0) ==>
        outcome == NotSaved && tables == old(tables) && uiTables == old(uiTables) && tableSize == old(tableSize)
      ensures uiBuilt && width > 0.0 && height > 0.0 ==>
        var keys := SaveKeys(old(uiTables), width, height, cols, rows);
        && outcome != NotSaved
        && (outcome == Posted <==> Distinct(keys))
        && (outcome == Posted ==> tables == keys && uiTables == old(uiTables) && tableSize == old(tableSize))
        && (outcome == Collision ==>
              Layout(tables, uiTables, tableSize)
                == Reconcile(Layout(SavedCells(keys, old(tables)), old(uiTables), old(tableSize)),
                             width, height, cols, rows))
    {
      if !uiBuilt {
        return NotSaved;
      }
      if width == 0.0 || height == 0.0 {
        return NotSaved;
      }
      var repeat := WriteBackCells(width, height);
      if repeat.Some? {
        ApplyGrid(width, height);
        return Collision;
      }
      return Posted;
    }

    /** `openAddStudent`: refuses blank names and a name already in the class (up to
        case), then proposes the first cell in row-major order that no table stands
        on, or reports that the grid is full. Nothing is changed. */
    method OpenAddStudent(nom: string, prenom: string) returns (r: AddOutcome)
      requires Valid()
      ensures r == NoClassroom <==> !loaded
      ensures loaded ==> (r == BlankName <==> IsBlank(nom) || IsBlank(prenom))
      ensures r == Duplicate <==>
        loaded && !IsBlank(nom) && !IsBlank(prenom)
        && exists i :: 0 <= i < |eleves| && SameName(eleves[i], Trim(nom), Trim(prenom))
      ensures r.GridFull? || r.PostTable? ==>
        loaded && !IsBlank(nom) && !IsBlank(prenom)
        && forall i :: 0 <= i < |eleves| ==> !SameName(eleves[i], Trim(nom), Trim(prenom))
      ensures r.GridFull? ==> forall x, y :: 0 <= x < cols && 0 <= y < rows ==> Cell(x, y) in tables
      ensures r.PostTable? ==>
        && 0 <= r.cell.x < cols && 0 <= r.cell.y < rows && r.cell !in tables
        && (forall x, y :: 0 <= x < cols && 0 <= y < rows && RowMajorBefore(Cell(x, y), r.cell) ==> Cell(x, y) in tables)
        && r.nom == Trim(nom) && r.prenom == Trim(prenom) && r.tableIndex == |tables|
    {
      if !loaded {
        return NoClassroom;
      }
      var n := Trim(nom);
      var p := Trim(prenom);
      if n == "" || p == "" {
        return BlankName;
      }
      var duplicate := exists i :: 0 <= i < |eleves| && SameName(eleves[i], n, p);
      if duplicate {
        return Duplicate;
      }
      var free := FirstFreeCell(tables, cols, rows);
      if free.None? {
        return GridFull;
      }
      return PostTable(free.value, n, p, |tables|);
    }

    /** `toggleLock`: switches between student and table mode, closes the sidebar's list
        and clears the selection. */
    method ToggleLock()
      requires Valid()
      modifies this`interactionMode, this`selectedStudent, sidebar
      ensures Valid()
      ensures interactionMode == (if old(interactionMode) == StudentMode then TableMode else StudentMode)
      ensures selectedStudent.None?
      ensures sidebar != null ==> !sidebar.showStudents
      ensures sidebar != null ==> sidebar.tables == old(sidebar.tables) && sidebar.disabled == old(sidebar.disabled)
      ensures sidebar != null ==>
        sidebar.searchTerm == old(sidebar.searchTerm) && sidebar.showAddForm == old(sidebar.showAddForm)
        && sidebar.newNom == old(sidebar.newNom) && sidebar.newPrenom == old(sidebar.newPrenom)
    {
      interactionMode := if interactionMode == StudentMode then TableMode else StudentMode;
      if sidebar != null {
        sidebar.showStudents := false;
      }
      selectedStudent := None;
    }

    /** `selectStudent`: ignored outside student mode; otherwise the selection toggles. */
    method SelectStudent(student: Option<Student>)
      requires Valid()
      modifies this`selectedStudent
      ensures Valid()
      ensures interactionMode != StudentMode ==> selectedStudent == old(selectedStudent)
      ensures interactionMode == StudentMode ==> selectedStudent == ToggleSelection(old(selectedStudent), student)
    {
      if interactionMode != StudentMode {
        return;
      }
      if IdOf(selectedStudent) == IdOf(student) {
        selectedStudent := None;
      } else {
        selectedStudent := student;
      }
    }

    /** The `filteredResults` getter: the remark search over the classroom's students. */
    method FilteredResults() returns (results: seq<RemarkFilter.Match>)
      requires Valid()
      ensures !loaded ==> results == []
      ensures loaded ==> results == RemarkFilter.Filtered(eleves, remarqueFilter)
    {
      if !loaded {
        return [];
      }
      if IsBlank(remarqueFilter) {
        return [];
      }
      var search := ToLower(remarqueFilter);
      results := [];
      var k := 0;
      while k < |eleves|
        invariant 0 <= k <= |eleves|
        invariant results == RemarkFilter.MatchStudents(eleves[..k], search)
      {
        var eleve := eleves[k];
        var matched := RemarkFilter.MatchingRemarks(eleve.remarques, search);
        RemarkFilter.MatchStudentsStep(eleves, k, search);
        if |matched| > 0 {
          results := results + [RemarkFilter.Match(eleve, matched)];
        }
        k := k + 1;
      }
      assert eleves[..k] == eleves;
    }
  }
}
