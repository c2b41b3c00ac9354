/** The list of the lisp_objects.hpp snapshot, on an explicit store of
  * cells, to show what its push does after the list has been emptied by
  * pop_front: pop_front never resets `tail`, and this push only sets
  * `tail` when it is null, so `tail` keeps pointing at a freed cell and the
  * next append links its cell there, out of reach of `head`. */
module StaleTail {

  datatype Ptr = Null | Addr(a: nat)

  datatype Cell = Cell(info: int, next: Ptr)

  /** head, tail, count and the live cells; `nextFree` is an address no cell
    * has ever used. A freed cell is removed from `cells`. */
  datatype CellList = CellList(cells: map<nat, Cell>, head: Ptr, tail: Ptr, count: int, nextFree: nat)

  const EmptyList := CellList(map[], Null, Null, 0, 0)

  /** The values reachable from p in at most n steps. */
  function Reachable(cells: map<nat, Cell>, p: Ptr, n: nat): (r: seq<int>)
    ensures |r| <= n
    decreases n
  {
    if n == 0 || p.Null? || p.a !in cells then []
    else [cells[p.a].info] + Reachable(cells, cells[p.a].next, n - 1)
  }

  /** The values of the list as seen from its head. */
  function Elements(l: CellList): seq<int> {
    Reachable(l.cells, l.head, |l.cells|)
  }

  /** Stores v through p; a store through a freed cell reaches nothing live. */
  function SetNext(cells: map<nat, Cell>, p: Ptr, v: Ptr): (r: map<nat, Cell>)
    ensures r.Keys == cells.Keys
  {
    if p.Addr? && p.a in cells then cells[p.a := cells[p.a].(next := v)] else cells
  }

  /** append: a new last cell, linked from `tail` unless the list is empty. */
  function Append(l: CellList, x: int): (r: CellList)
    ensures r.count == l.count + 1 && r.tail == Addr(l.nextFree)
  {
    var t := Addr(l.nextFree);
    var cells := l.cells[l.nextFree := Cell(x, Null)];
    if l.count == 0 then l.(cells := cells, head := t, tail := t, count := l.count + 1, nextFree := l.nextFree + 1)
    else l.(cells := SetNext(cells, l.tail, t), tail := t, count := l.count + 1, nextFree := l.nextFree + 1)
  }

  /** push as written in lisp_objects.hpp: `tail` is set only when null. */
  function PushAsWritten(l: CellList, x: int): (r: CellList)
    ensures r.head == Addr(l.nextFree) && r.count == l.count + 1
    ensures l.tail != Null ==> r.tail == l.tail
  {
    var t := Addr(l.nextFree);
    var cells := l.cells[l.nextFree := Cell(x, l.head)];
    l.(cells := cells, head := t, tail := if l.tail == Null then t else l.tail, count := l.count + 1, nextFree := l.nextFree + 1)
  }

  /** push as list.hpp writes it: `tail` is set whenever the list is empty. */
  function PushChecked(l: CellList, x: int): (r: CellList)
    ensures r.head == Addr(l.nextFree) && r.count == l.count + 1
    ensures l.count == 0 ==> r.tail == r.head
  {
    var t := Addr(l.nextFree);
    if l.count == 0 then
      l.(cells := l.cells[l.nextFree := Cell(x, Null)], head := t, tail := t, count := 1, nextFree := l.nextFree + 1)
    else
      l.(cells := l.cells[l.nextFree := Cell(x, l.head)], head := t, count := l.count + 1, nextFree := l.nextFree + 1)
  }

  /** pop_front: unlinks and frees the head cell; `tail` is left alone. */
  function PopFront(l: CellList): (r: CellList)
    requires l.head.Addr? && l.head.a in l.cells
    ensures r.tail == l.tail && r.count == l.count - 1
    ensures l.head.a !in r.cells
  {
    l.(cells := l.cells - {l.head.a}, head := l.cells[l.head.a].next, count := l.count - 1)
  }

  /** After append(1), pop_front, push(2), append(3) the list counts two
    * elements but only 2 is reachable from head: the cell of 3 was linked
    * to the freed cell of 1. */
  lemma PushAfterPopLosesAppend()
    ensures var l := Append(PushAsWritten(PopFront(Append(EmptyList, 1)), 2), 3);
      l.count == 2 && Elements(l) == [2]
  {
    var l1 := Append(EmptyList, 1);
    assert l1.cells == map[0 := Cell(1, Null)] && l1.head == Addr(0) && l1.tail == Addr(0);
    var l2 := PopFront(l1);
    assert l2.cells == map[] && l2.head == Null && l2.tail == Addr(0) && l2.count == 0;
    var l3 := PushAsWritten(l2, 2);
    assert l3.cells == map[1 := Cell(2, Null)] && l3.head == Addr(1) && l3.tail == Addr(0);
    var l4 := Append(l3, 3);
    assert l4.cells == map[1 := Cell(2, Null), 2 := Cell(3, Null)];
    assert l4.head == Addr(1) && l4.count == 2;
    assert |l4.cells| == 2 by {
      assert l4.cells.Keys == {1, 2};
    }
    assert Reachable(l4.cells, Null, 1) == [];
  }

  /** The same sequence with the checked push keeps both elements. */
  lemma PushCheckedAfterPopKeepsAppend()
    ensures var l := Append(PushChecked(PopFront(Append(EmptyList, 1)), 2), 3);
      l.count == 2 && Elements(l) == [2, 3]
  {
    var l1 := Append(EmptyList, 1);
    assert l1.cells == map[0 := Cell(1, Null)] && l1.head == Addr(0) && l1.tail == Addr(0);
    var l2 := PopFront(l1);
    assert l2.cells == map[] && l2.head == Null && l2.count == 0;
    var l3 := PushChecked(l2, 2);
    assert l3.cells == map[1 := Cell(2, Null)] && l3.head == Addr(1) && l3.tail == Addr(1);
    var l4 := Append(l3, 3);
    assert l4.cells == map[1 := Cell(2, Addr(2)), 2 := Cell(3, Null)];
    assert l4.head == Addr(1) && l4.count == 2;
    assert |l4.cells| == 2 by {
      assert l4.cells.Keys == {1, 2};
    }
    assert Reachable(l4.cells, Null, 0) == [];
    assert Reachable(l4.cells, Addr(2), 1) == [3];
  }
}
