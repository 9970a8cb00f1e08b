/** The lists of the missing-data monitor: cells keyed by a resource id, found by walking along `next`,
    inserted at the head, and unlinked past the cell before. */
module KeyedList {
  import opened Sequences

  // ----- what a list holds

  datatype Item<T> = Item(ri: string, value: T)

  predicate KeysDiffer<T>(items: seq<Item<T>>) {
    forall i, j :: 0 <= i < j < |items| ==> items[i].ri != items[j].ri
  }

  /** The dictionary a list stands for. */
  ghost function Dictionary<T>(items: seq<Item<T>>): map<string, T> {
    if items == [] then map[] else Dictionary(items[1..])[items[0].ri := items[0].value]
  }

  lemma KeysDifferTail<T>(items: seq<Item<T>>)
    requires items != [] && KeysDiffer(items)
    ensures KeysDiffer(items[1..]) && forall i :: 0 <= i < |items[1..]| ==> items[1..][i].ri != items[0].ri
  {
    var rest := items[1..];
    assert forall i :: 0 <= i < |rest| ==> rest[i] == items[i + 1];
  }

  lemma {:induction false} KeyMissing<T>(items: seq<Item<T>>, ri: string)
    requires forall i :: 0 <= i < |items| ==> items[i].ri != ri
    ensures ri !in Dictionary(items)
  {
    if items != [] {
      KeyMissing(items[1..], ri);
    }
  }

  lemma {:induction false} KeyFound<T>(items: seq<Item<T>>, i: nat)
    requires i < |items| && KeysDiffer(items)
    ensures items[i].ri in Dictionary(items) && Dictionary(items)[items[i].ri] == items[i].value
  {
    if i > 0 {
      KeysDifferTail(items);
      KeyFound(items[1..], i - 1);
      assert items[1..][i - 1] == items[i];
    }
  }

  lemma {:induction false} KeyWritten<T>(items: seq<Item<T>>, i: nat, value: T)
    requires i < |items| && KeysDiffer(items)
    ensures var items' := items[i := Item(items[i].ri, value)];
            KeysDiffer(items') && Dictionary(items') == Dictionary(items)[items[i].ri := value]
  {
    var items' := items[i := Item(items[i].ri, value)];
    if i == 0 {
      assert items'[1..] == items[1..];
    } else {
      KeysDifferTail(items);
      KeyWritten(items[1..], i - 1, value);
      assert items'[1..] == items[1..][i - 1 := Item(items[i].ri, value)] && items[1..][i - 1] == items[i];
      assert items[0].ri != items[i].ri;
    }
  }

  lemma RemovedDiffers<T>(items: seq<Item<T>>, i: nat)
    requires i < |items| && KeysDiffer(items)
    ensures KeysDiffer(RemoveAt(items, i))
  {
    var rest := RemoveAt(items, i);
    assert forall j :: 0 <= j < |rest| ==> rest[j] == items[if j < i then j else j + 1];
  }

  lemma {:induction false} KeyRemoved<T>(items: seq<Item<T>>, i: nat)
    requires i < |items| && KeysDiffer(items)
    ensures KeysDiffer(RemoveAt(items, i)) && Dictionary(RemoveAt(items, i)) == Dictionary(items) - {items[i].ri}
  {
    RemovedDiffers(items, i);
    KeysDifferTail(items);
    assert i > 0 ==> items[0].ri != items[i].ri;
    hide KeysDiffer;
    var rest := RemoveAt(items, i);
    if i == 0 {
      assert rest == items[1..];
      KeyMissing(rest, items[0].ri);
    } else {
      KeyRemoved(items[1..], i - 1);
      assert rest[1..] == RemoveAt(items[1..], i - 1) && rest[0] == items[0] && items[1..][i - 1] == items[i];
      RemovedBehind(Dictionary(items[1..]), items[0].ri, items[0].value, items[i].ri);
    }
  }

  lemma RemovedBehind<T>(d: map<string, T>, k: string, v: T, gone: string)
    requires k != gone
    ensures d[k := v] - {gone} == (d - {gone})[k := v]
  {
  }

  lemma KeyInserted<T>(items: seq<Item<T>>, ri: string, value: T)
    requires KeysDiffer(items) && forall i :: 0 <= i < |items| ==> items[i].ri != ri
    ensures KeysDiffer([Item(ri, value)] + items) &&
            Dictionary([Item(ri, value)] + items) == Dictionary(items)[ri := value]
  {
    var all := [Item(ri, value)] + items;
    assert all[1..] == items;
  }

  /** A key in the dictionary is the key of some item. */
  lemma KeyNowhere<T>(items: seq<Item<T>>, ri: string)
    requires KeysDiffer(items) && ri !in Dictionary(items)
    ensures forall i :: 0 <= i < |items| ==> items[i].ri != ri
  {
    forall i | 0 <= i < |items|
      ensures items[i].ri != ri
    {
      KeyFound(items, i);
    }
  }

  // ----- the cells

  class Cell<T> {
    const ri: string
    var value: T
    var next: Cell?<T>

    constructor (ri: string, value: T, next: Cell?<T>)
      ensures this.ri == ri && this.value == value && this.next == next
    {
      this.ri, this.value, this.next := ri, value, next;
    }
  }

  function Nth<T>(cells: seq<Cell<T>>, i: int): Cell?<T> {
    if 0 <= i < |cells| then cells[i] else null
  }

  /** Cell `i` holds item `i` and points at the cell after it. */
  ghost predicate CellOk<T>(cells: seq<Cell<T>>, items: seq<Item<T>>, i: nat)
    requires i < |cells| == |items|
    reads cells[i]
  {
    cells[i].ri == items[i].ri && cells[i].value == items[i].value && cells[i].next == Nth(cells, i + 1)
  }

  class List<T> {
    var head: Cell?<T>
    ghost var cells: seq<Cell<T>>
    ghost var items: seq<Item<T>>

    ghost predicate Valid()
      reads this, cells
    {
      && |cells| == |items| && head == Nth(cells, 0) && Distinct(cells) && KeysDiffer(items)
      && forall i :: 0 <= i < |cells| ==> CellOk(cells, items, i)
    }

    ghost function Map(): map<string, T>
      reads this
    {
      Dictionary(items)
    }

    constructor ()
      ensures Valid() && Map() == map[] && cells == []
    {
      head, cells, items := null, [], [];
    }

    /** The walk that starts every operation. */
    method Find(ri: string) returns (e: Cell?<T>, ghost i: nat)
      requires Valid()
      ensures e == null <==> ri !in Map()
      ensures e != null ==> i < |cells| && cells[i] == e && e.ri == ri && Map()[ri] == e.value
    {
      hide Dictionary, KeysDiffer;
      e, i := head, 0;
      while e != null && e.ri != ri
        invariant 0 <= i <= |cells| && e == Nth(cells, i)
        invariant forall j :: 0 <= j < i ==> items[j].ri != ri
        decreases |cells| - i
      {
        assert CellOk(cells, items, i);
        e, i := e.next, i + 1;
      }
      if e == null {
        KeyMissing(items, ri);
      } else {
        assert CellOk(cells, items, i);
        KeyFound(items, i);
      }
    }

    /** A new cell at the head. */
    method Insert(ri: string, value: T)
      requires Valid() && ri !in Map()
      modifies this
      ensures Valid() && Map() == old(Map())[ri := value]
      ensures forall i :: 0 <= i < |cells| ==> cells[i] in old(cells) || fresh(cells[i])
    {
      hide Dictionary, KeysDiffer;
      KeyNowhere(items, ri);
      KeyInserted(items, ri, value);
      var e := new Cell(ri, value, head);
      head := e;
      ghost var before, was := cells, items;
      cells, items := [e] + cells, [Item(ri, value)] + items;
      forall i | 0 <= i < |cells|
        ensures CellOk(cells, items, i)
      {
        assert i > 0 ==> old(CellOk(before, was, i - 1)) && cells[i] == before[i - 1] && items[i] == was[i - 1];
      }
    }

    /** A cell that was found is written. */
    method Write(e: Cell<T>, value: T, ghost i: nat)
      requires Valid() && i < |cells| && cells[i] == e
      modifies this`items, e`value
      ensures Valid() && Map() == old(Map())[e.ri := value]
    {
      hide Dictionary, KeysDiffer;
      assert CellOk(cells, items, i);
      KeyWritten(items, i, value);
      e.value := value;
      ghost var was := items;
      items := items[i := Item(e.ri, value)];
      forall j | 0 <= j < |cells|
        ensures CellOk(cells, items, j)
      {
        assert old(CellOk(cells, was, j));
      }
    }

    /** The walk with the cell before in hand, and the unlinking. */
    method Remove(ri: string)
      requires Valid()
      modifies this, cells
      ensures Valid() && Map() == old(Map()) - {ri} && forall c :: c in cells ==> c in old(cells)
    {
      hide Dictionary, KeysDiffer;
      var prev: Cell?<T> := null;
      var e := head;
      ghost var i := 0;
      while e != null && e.ri != ri
        invariant 0 <= i <= |cells| && e == Nth(cells, i) && prev == Nth(cells, i - 1)
        invariant forall j :: 0 <= j < i ==> items[j].ri != ri
        decreases |cells| - i
      {
        assert CellOk(cells, items, i);
        prev, e, i := e, e.next, i + 1;
      }
      if e == null {
        KeyMissing(items, ri);
      } else {
        assert CellOk(cells, items, i);
        KeyRemoved(items, i);
        Unlink(prev, e, i);
      }
    }

    method Unlink(prev: Cell?<T>, e: Cell<T>, ghost i: nat)
      requires Valid() && i < |cells| && cells[i] == e && prev == Nth(cells, i - 1) && KeysDiffer(RemoveAt(items, i))
      modifies this, cells
      ensures Valid() && items == RemoveAt(old(items), i) && forall c :: c in cells ==> c in old(cells)
    {
      hide KeysDiffer;
      assert CellOk(cells, items, i);
      assert i > 0 ==> CellOk(cells, items, i - 1);
      ghost var before, was := cells, items;
      if prev != null {
        prev.next := e.next;
      } else {
        head := e.next;
      }
      cells, items := RemoveAt(cells, i), RemoveAt(items, i);
      forall j | 0 <= j < |cells|
        ensures CellOk(cells, items, j)
      {
        ghost var j' := if j < i then j else j + 1;
        assert old(CellOk(before, was, j')) && cells[j] == before[j'] && items[j] == was[j'];
      }
    }
  }
}
