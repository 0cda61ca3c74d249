/**
  A table's list of column definitions: its logical and physical column
  counts, the duplicate-name flag, and the iterator that walks the columns
  by logical or by physical position.

  Column definitions are an abstract type `D`. Looking a column up by
  position is code outside this model, so it enters as a function value.
*/
module ColumnListing {

  /**
    The column definitions in logical order, the logical positions of the
    physical columns, and whether duplicate names are allowed.
  */
  datatype ColumnList<D> = ColumnList(columns: seq<D>, physicalColumns: seq<nat>, allowDuplicateNames: bool)

  /** A position as the column lookup understands it. */
  datatype ColumnIndex = LogicalIndex(logical: nat) | PhysicalIndex(physical: nat)

  /** A new, empty list; duplicate names are refused unless asked for. */
  function NewColumnList<D>(allowDuplicateNames: bool := false): (l: ColumnList<D>)
    ensures l.allowDuplicateNames == allowDuplicateNames
    ensures |l.columns| == 0 && |l.physicalColumns| == 0
  {
    ColumnList([], [], allowDuplicateNames)
  }

  function LogicalColumnCount<D>(l: ColumnList<D>): nat {
    |l.columns|
  }

  function PhysicalColumnCount<D>(l: ColumnList<D>): nat {
    |l.physicalColumns|
  }

  predicate Empty<D>(l: ColumnList<D>) {
    |l.columns| == 0
  }

  /** Changes the duplicate-name flag and nothing else. */
  function SetAllowDuplicates<D>(l: ColumnList<D>, allowDuplicates: bool): (r: ColumnList<D>)
    ensures r.allowDuplicateNames == allowDuplicates
    ensures r.columns == l.columns && r.physicalColumns == l.physicalColumns
  {
    l.(allowDuplicateNames := allowDuplicates)
  }

  // ---------------------------------------------------------------------------
  // Iteration
  // ---------------------------------------------------------------------------

  /**
    An iteration over a list, by physical or by logical position. `listId`
    is the identity of the list object, which the iterator refers to.
  */
  datatype ColumnListIterator<D> = ColumnListIterator(listId: nat, list: ColumnList<D>, physical: bool)

  /** A position within an iteration, with the position one past the last. */
  datatype Cursor<D> = Cursor(listId: nat, list: ColumnList<D>, physical: bool, pos: nat, end: nat)

  /** The number of positions: physical columns in physical mode, logical columns otherwise. */
  function Size<D>(it: ColumnListIterator<D>): nat {
    if it.physical then PhysicalColumnCount(it.list) else LogicalColumnCount(it.list)
  }

  function Begin<D>(it: ColumnListIterator<D>): Cursor<D> {
    Cursor(it.listId, it.list, it.physical, 0, Size(it))
  }

  function End<D>(it: ColumnListIterator<D>): Cursor<D> {
    Cursor(it.listId, it.list, it.physical, Size(it), Size(it))
  }

  function Next<D>(c: Cursor<D>): Cursor<D> {
    c.(pos := c.pos + 1)
  }

  /**
    A cursor carries both the identity of the list object it refers to and
    that list's contents; two cursors referring to the same object read the
    same contents.
  */
  ghost predicate SameObjectSameList<D>(a: Cursor<D>, b: Cursor<D>) {
    a.listId == b.listId ==> a.list == b.list
  }

  /** Cursors differ when their positions, their ends or their lists differ. */
  predicate NotEqual<D>(a: Cursor<D>, b: Cursor<D>) {
    a.pos != b.pos || a.end != b.end || a.listId != b.listId
  }

  /** The lookup index for a position in the given mode. */
  function IndexAt(physical: bool, pos: nat): ColumnIndex {
    if physical then PhysicalIndex(pos) else LogicalIndex(pos)
  }

  /** The column at a cursor, looked up by physical or logical position. */
  function Deref<D>(c: Cursor<D>, getColumn: (ColumnList<D>, ColumnIndex) -> D): D {
    getColumn(c.list, IndexAt(c.physical, c.pos))
  }

  /**
    A range loop from `Begin` until the cursor equals `End`, recording every
    position visited and the column found there.
  */
  method Traverse<D>(it: ColumnListIterator<D>, getColumn: (ColumnList<D>, ColumnIndex) -> D)
    returns (positions: seq<nat>, columns: seq<D>)
    ensures |positions| == Size(it) && |columns| == Size(it)
    ensures forall k :: 0 <= k < |positions| ==> positions[k] == k
    ensures forall k :: 0 <= k < |columns| ==> columns[k] == getColumn(it.list, IndexAt(it.physical, k))
  {
    var cur := Begin(it);
    var stop := End(it);
    positions := [];
    columns := [];
    while NotEqual(cur, stop)
      invariant cur.listId == it.listId && cur.list == it.list && cur.physical == it.physical
      invariant cur.end == Size(it) && cur.pos <= Size(it)
      invariant |positions| == cur.pos && |columns| == cur.pos
      invariant forall k :: 0 <= k < |positions| ==> positions[k] == k
      invariant forall k :: 0 <= k < |columns| ==> columns[k] == getColumn(it.list, IndexAt(it.physical, k))
      decreases Size(it) - cur.pos
    {
      positions := positions + [cur.pos];
      columns := columns + [Deref(cur, getColumn)];
      cur := Next(cur);
    }
  }

  // ---------------------------------------------------------------------------
  // Properties
  // ---------------------------------------------------------------------------

  /** A list is empty exactly when it has no logical columns; a new list is empty and refuses duplicates. */
  lemma {:induction false} CountsAndEmpty<D>(l: ColumnList<D>)
    ensures Empty(l) <==> LogicalColumnCount(l) == 0
    ensures Empty(NewColumnList<D>()) && PhysicalColumnCount(NewColumnList<D>()) == 0
    ensures !NewColumnList<D>().allowDuplicateNames
  {
  }

  /** Setting the flag keeps both counts, and only the last setting counts. */
  lemma {:induction false} SetAllowDuplicatesLaws<D>(l: ColumnList<D>, a: bool, b: bool)
    ensures LogicalColumnCount(SetAllowDuplicates(l, a)) == LogicalColumnCount(l)
    ensures PhysicalColumnCount(SetAllowDuplicates(l, a)) == PhysicalColumnCount(l)
    ensures SetAllowDuplicates(SetAllowDuplicates(l, a), b) == SetAllowDuplicates(l, b)
    ensures SetAllowDuplicates(l, l.allowDuplicateNames) == l
  {
  }

  /** `n` steps forward from a cursor. */
  function Advance<D>(c: Cursor<D>, n: nat): Cursor<D> {
    if n == 0 then c else Next(Advance(c, n - 1))
  }

  /**
    Stepping from `Begin` reaches position `k` after `k` steps and differs
    from `End` exactly until `Size` steps are taken: the loop visits
    positions 0 to Size - 1 once each, in order.
  */
  lemma {:induction false} AdvanceFromBegin<D>(it: ColumnListIterator<D>, k: nat)
    ensures Advance(Begin(it), k) == Begin(it).(pos := k)
    ensures NotEqual(Advance(Begin(it), k), End(it)) <==> k != Size(it)
  {
    if k > 0 {
      AdvanceFromBegin(it, k - 1);
    }
  }

  /** The iteration is empty exactly when its mode has no columns; a logical one exactly when the list is empty. */
  lemma {:induction false} EmptyIteration<D>(it: ColumnListIterator<D>)
    ensures !NotEqual(Begin(it), End(it)) <==> Size(it) == 0
    ensures !it.physical ==> (!NotEqual(Begin(it), End(it)) <==> Empty(it.list))
  {
  }

  /** The cursors of one iteration refer to its list object, read its list and share its mode. */
  lemma {:induction false} IterationCursorsAgree<D>(it: ColumnListIterator<D>, j: nat, k: nat)
    ensures var a := Advance(Begin(it), j);
      var b := Advance(Begin(it), k);
      && SameObjectSameList(a, b) && SameObjectSameList(a, End(it))
      && a.physical == b.physical == End(it).physical
  {
    AdvanceFromBegin(it, j);
    AdvanceFromBegin(it, k);
  }

  /**
    For cursors in the same mode that agree on what each list object holds,
    the inequality test is exactly cursor inequality.
  */
  lemma {:induction false} NotEqualWithinIteration<D>(a: Cursor<D>, b: Cursor<D>)
    requires SameObjectSameList(a, b) && a.physical == b.physical
    ensures NotEqual(a, b) <==> a != b
  {
  }

  /** The column at each visited position comes from the lookup in the iteration's own mode. */
  lemma {:induction false} DerefUsesMode<D>(it: ColumnListIterator<D>, k: nat, getColumn: (ColumnList<D>, ColumnIndex) -> D)
    ensures it.physical ==> Deref(Advance(Begin(it), k), getColumn) == getColumn(it.list, PhysicalIndex(k))
    ensures !it.physical ==> Deref(Advance(Begin(it), k), getColumn) == getColumn(it.list, LogicalIndex(k))
  {
    AdvanceFromBegin(it, k);
  }
}
