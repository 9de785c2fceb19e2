/** A list of items with one current item, which is either an item of the list
    or a distinguished 'none' position, and a default item fixed at creation that
    is returned when no item is selected.

    `ListState` is the observable state as a value, with one function per
    operation of the library; `List` is the mutable list itself, whose methods
    update its fields in place and are tied to those functions. */
module Lists {

  /** The type of the items stored in a list. */
  type Item = int

  /** The current item: none, or the item at a position of the list. */
  datatype Position = None | At(index: nat)

  /** The observable state of a list: its items in order, the current position
      and the default item. */
  datatype ListState = ListState(items: seq<Item>, current: Position, defaultItem: Item)
  {
    /** The current position is none or a valid index, so an empty list is always
        at none. */
    predicate Valid() {
      current.At? ==> current.index < |items|
    }

    function First(): (r: ListState)
      requires Valid()
      ensures r.Valid() && r.items == items && r.defaultItem == defaultItem
    {
      if |items| == 0 then this else this.(current := At(0))
    }

    function Last(): (r: ListState)
      requires Valid()
      ensures r.Valid() && r.items == items && r.defaultItem == defaultItem
    {
      if |items| == 0 then this else this.(current := At(|items| - 1))
    }

    /** Whether no item is selected; a valid empty list is always at none. */
    function IsNone(): (b: bool)
      ensures b <==> !current.At?
      ensures Valid() && items == [] ==> b
    {
      current.None?
    }

    function After(): (r: (ListState, bool))
      requires Valid()
      ensures r.0.Valid() && r.0.items == items && r.0.defaultItem == defaultItem
    {
      match current
      case None => (this, false)
      case At(k) =>
        if k == |items| - 1 then (this.(current := None), true)
        else (this.(current := At(k + 1)), true)
    }

    function Before(): (r: (ListState, bool))
      requires Valid()
      ensures r.0.Valid() && r.0.items == items && r.0.defaultItem == defaultItem
    {
      match current
      case None => (this, false)
      case At(k) =>
        if k == 0 then (this.(current := None), true)
        else (this.(current := At(k - 1)), true)
    }

    /** The current item, which is an item of the list, or the default item at none. */
    function Get(): (x: Item)
      requires Valid()
      ensures current.At? ==> x in items && x == items[current.index]
      ensures current.None? ==> x == defaultItem
    {
      match current
      case None => defaultItem
      case At(k) => items[k]
    }

    function Set(x: Item): (r: (ListState, bool))
      requires Valid()
      ensures r.0.Valid() && |r.0.items| == |items| && r.0.current == current
      ensures r.0.defaultItem == defaultItem
    {
      match current
      case None => (this, false)
      case At(k) => (this.(items := items[k := x]), true)
    }

    function InsertAfter(x: Item): (r: ListState)
      requires Valid()
      ensures r.Valid() && |r.items| == |items| + 1 && r.defaultItem == defaultItem
    {
      match current
      case None => this.(items := [x] + items)
      case At(k) => this.(items := items[..k + 1] + [x] + items[k + 1..], current := At(k + 1))
    }

    function InsertBefore(x: Item): (r: ListState)
      requires Valid()
      ensures r.Valid() && |r.items| == |items| + 1 && r.defaultItem == defaultItem
    {
      match current
      case None => this.(items := items + [x])
      case At(k) => this.(items := items[..k] + [x] + items[k..])
    }

    function DeleteToAfter(): (r: (ListState, bool))
      requires Valid()
      ensures r.0.Valid() && r.0.defaultItem == defaultItem
      ensures |r.0.items| == if r.1 then |items| - 1 else |items|
    {
      match current
      case None => (this, false)
      case At(k) =>
        var rest := items[..k] + items[k + 1..];
        (ListState(rest, if k < |rest| then At(k) else None, defaultItem), true)
    }

    function DeleteToBefore(): (r: (ListState, bool))
      requires Valid()
      ensures r.0.Valid() && r.0.defaultItem == defaultItem
      ensures |r.0.items| == if r.1 then |items| - 1 else |items|
    {
      match current
      case None => (this, false)
      case At(k) =>
        var rest := items[..k] + items[k + 1..];
        (ListState(rest, if k > 0 then At(k - 1) else None, defaultItem), true)
    }
  }

  /** The state of a newly created list with default item e. */
  function NewList(e: Item): (r: ListState)
    ensures r.Valid() && r.IsNone() && r.Get() == e && r.items == []
  {
    ListState([], None, e)
  }

  /** The operations that change a list, for stating facts about any sequence of calls. */
  datatype Operation =
    | FirstOp | LastOp | AfterOp | BeforeOp | SetOp(x: Item)
    | InsertAfterOp(x: Item) | InsertBeforeOp(x: Item) | DeleteToAfterOp | DeleteToBeforeOp

  function Apply(s: ListState, op: Operation): ListState
    requires s.Valid()
  {
    match op
    case FirstOp => s.First()
    case LastOp => s.Last()
    case AfterOp => s.After().0
    case BeforeOp => s.Before().0
    case SetOp(x) => s.Set(x).0
    case InsertAfterOp(x) => s.InsertAfter(x)
    case InsertBeforeOp(x) => s.InsertBefore(x)
    case DeleteToAfterOp => s.DeleteToAfter().0
    case DeleteToBeforeOp => s.DeleteToBefore().0
  }

  function Run(s: ListState, ops: seq<Operation>): (r: ListState)
    requires s.Valid()
    decreases |ops|
  {
    if ops == [] then s
    else
      var next := Apply(s, ops[0]);
      assert next.Valid() by { ApplyKeepsInvariant(s, ops[0]); }
      Run(next, ops[1..])
  }

  lemma ApplyKeepsInvariant(s: ListState, op: Operation)
    requires s.Valid()
    ensures Apply(s, op).Valid() && Apply(s, op).defaultItem == s.defaultItem
  {
  }

  /** Every sequence of operations keeps the invariant and never changes the default
      item; from a new list, get at none therefore always returns the creation value. */
  lemma {:induction false} RunKeepsInvariant(s: ListState, ops: seq<Operation>)
    requires s.Valid()
    ensures Run(s, ops).Valid() && Run(s, ops).defaultItem == s.defaultItem
    ensures Run(s, ops).IsNone() ==> Run(s, ops).Get() == s.defaultItem
    decreases |ops|
  {
    if ops != [] {
      ApplyKeepsInvariant(s, ops[0]);
      RunKeepsInvariant(Apply(s, ops[0]), ops[1..]);
    }
  }

  /** An empty list has no item selected. */
  lemma EmptyIsNone(s: ListState)
    requires s.Valid() && s.items == []
    ensures s.IsNone() && s.Get() == s.defaultItem
  {
  }

  /** Inserting after the current item and then deleting towards the front
      restores the list and its current item. */
  lemma InsertAfterThenDeleteToBefore(s: ListState, x: Item)
    requires s.Valid() && s.current.At?
    ensures s.InsertAfter(x).Get() == x
    ensures s.InsertAfter(x).DeleteToBefore() == (s, true)
  {
    var k := s.current.index;
    var t := s.InsertAfter(x).items;
    assert t[..k + 1] + t[k + 2..] == s.items;
  }

  /** Inserting before the current item and then deleting towards the back
      restores the list and its current item. */
  lemma InsertBeforeThenDeleteToAfter(s: ListState, x: Item)
    requires s.Valid() && s.current.At?
    ensures s.InsertBefore(x).Get() == x
    ensures s.InsertBefore(x).DeleteToAfter() == (s, true)
  {
    var k := s.current.index;
    var t := s.InsertBefore(x).items;
    assert t[..k] + t[k + 1..] == s.items;
  }

  /** Inserting while no item is selected leaves no item selected. */
  lemma InsertAtNoneStaysNone(s: ListState, x: Item)
    requires s.Valid() && s.IsNone()
    ensures s.InsertAfter(x) == s.(items := [x] + s.items)
    ensures s.InsertBefore(x) == s.(items := s.items + [x])
    ensures s.InsertAfter(x).Get() == s.defaultItem && s.InsertBefore(x).Get() == s.defaultItem
  {
  }

  /** Moving forwards then backwards returns to the same item, away from the last item. */
  lemma AfterThenBefore(s: ListState)
    requires s.Valid() && s.current.At? && s.current.index < |s.items| - 1
    ensures s.After().1 && s.After().0.Before() == (s, true)
  {
  }

  /** Moving backwards then forwards returns to the same item, away from the first item. */
  lemma BeforeThenAfter(s: ListState)
    requires s.Valid() && s.current.At? && s.current.index > 0
    ensures s.Before().1 && s.Before().0.After() == (s, true)
  {
  }

  /** Set changes only the current item, which get then returns; at none it does nothing. */
  lemma SetThenGet(s: ListState, x: Item)
    requires s.Valid()
    ensures s.Set(x).1 <==> s.current.At?
    ensures s.current.At? ==> s.Set(x).0.Get() == x
    ensures s.current.At? ==> forall j :: 0 <= j < |s.items| && j != s.current.index ==>
                                s.Set(x).0.items[j] == s.items[j]
    ensures s.current.None? ==> s.Set(x) == (s, false)
    ensures s.Set(x).0.Set(x) == (s.Set(x).0, s.current.At?)
  {
    if s.current.At? {
      var k := s.current.index;
      assert s.items[k := x][k := x] == s.items[k := x];
    }
  }

  /** The state after calling after n times. */
  function AfterN(s: ListState, n: nat): (r: ListState)
    requires s.Valid()
    ensures r.Valid() && r.items == s.items && r.defaultItem == s.defaultItem
    decreases n
  {
    if n == 0 then s else AfterN(s.After().0, n - 1)
  }

  /** The state after calling before n times. */
  function BeforeN(s: ListState, n: nat): (r: ListState)
    requires s.Valid()
    ensures r.Valid() && r.items == s.items && r.defaultItem == s.defaultItem
    decreases n
  {
    if n == 0 then s else BeforeN(s.Before().0, n - 1)
  }

  /** Starting from any item and calling after n times visits the following items
      in order and reaches none just past the last item. */
  lemma {:induction false} WalkForwards(s: ListState, n: nat)
    requires s.Valid() && s.current.At? && s.current.index + n <= |s.items|
    ensures AfterN(s, n).current ==
              if s.current.index + n < |s.items| then At(s.current.index + n) else None
    decreases n
  {
    if n > 0 && s.current.index + 1 < |s.items| {
      var t := s.After().0;
      assert t.current == At(s.current.index + 1);
      WalkForwards(t, n - 1);
    }
  }

  /** Starting from any item and calling before n times visits the preceding items
      in reverse order and reaches none just before the first item. */
  lemma {:induction false} WalkBackwards(s: ListState, n: nat)
    requires s.Valid() && s.current.At? && n <= s.current.index + 1
    ensures BeforeN(s, n).current ==
              if n <= s.current.index then At(s.current.index - n) else None
    decreases n
  {
    if n > 0 && s.current.index > 0 {
      var t := s.Before().0;
      assert t.current == At(s.current.index - 1);
      WalkBackwards(t, n - 1);
    }
  }

  /** A full traversal: from first, j calls of after select item j and |items|
      calls end at none; from last, j calls of before select item |items| - 1 - j
      and |items| calls end at none. */
  lemma Traversal(s: ListState)
    requires s.Valid() && |s.items| > 0
    ensures AfterN(s.First(), |s.items|).IsNone()
    ensures BeforeN(s.Last(), |s.items|).IsNone()
    ensures forall j :: 0 <= j < |s.items| ==> AfterN(s.First(), j).Get() == s.items[j]
    ensures forall j :: 0 <= j < |s.items| ==> BeforeN(s.Last(), j).Get() == s.items[|s.items| - 1 - j]
  {
    WalkForwards(s.First(), |s.items|);
    WalkBackwards(s.Last(), |s.items|);
    forall j | 0 <= j < |s.items| ensures AfterN(s.First(), j).Get() == s.items[j] {
      WalkForwards(s.First(), j);
    }
    forall j | 0 <= j < |s.items| ensures BeforeN(s.Last(), j).Get() == s.items[|s.items| - 1 - j] {
      WalkBackwards(s.Last(), j);
    }
  }

  /** The state after inserting xs in order with insertBefore. */
  function InsertBeforeAll(s: ListState, xs: seq<Item>): (r: ListState)
    requires s.Valid()
    ensures r.Valid()
    decreases |xs|
  {
    if xs == [] then s else InsertBeforeAll(s.InsertBefore(xs[0]), xs[1..])
  }

  /** The state after inserting xs in order with insertAfter. */
  function InsertAfterAll(s: ListState, xs: seq<Item>): (r: ListState)
    requires s.Valid()
    ensures r.Valid()
    decreases |xs|
  {
    if xs == [] then s else InsertAfterAll(s.InsertAfter(xs[0]), xs[1..])
  }

  function Reverse(xs: seq<Item>): (r: seq<Item>)
    ensures |r| == |xs|
  {
    if xs == [] then [] else Reverse(xs[1..]) + [xs[0]]
  }

  /** At none, repeated insertBefore appends the items in order: a list can be built
      front to back without any item ever becoming current. */
  lemma {:induction false} BuildWithInsertBefore(s: ListState, xs: seq<Item>)
    requires s.Valid() && s.IsNone()
    ensures InsertBeforeAll(s, xs) == s.(items := s.items + xs)
    decreases |xs|
  {
    if xs != [] {
      var t := s.InsertBefore(xs[0]);
      BuildWithInsertBefore(t, xs[1..]);
      assert t.items + xs[1..] == s.items + xs;
    }
  }

  /** At none, repeated insertAfter prepends the items, so they end up in reverse
      order at the front of the list, and no item becomes current. */
  lemma {:induction false} BuildWithInsertAfter(s: ListState, xs: seq<Item>)
    requires s.Valid() && s.IsNone()
    ensures InsertAfterAll(s, xs) == s.(items := Reverse(xs) + s.items)
    decreases |xs|
  {
    if xs != [] {
      var t := s.InsertAfter(xs[0]);
      BuildWithInsertAfter(t, xs[1..]);
      assert Reverse(xs[1..]) + t.items == Reverse(xs) + s.items;
    }
  }

  /** The state after calling deleteToAfter n times. */
  function DeleteToAfterN(s: ListState, n: nat): (r: ListState)
    requires s.Valid()
    ensures r.Valid() && r.defaultItem == s.defaultItem
    decreases n
  {
    if n == 0 then s else DeleteToAfterN(s.DeleteToAfter().0, n - 1)
  }

  /** Calling deleteToAfter from the item at k up to |items| - k times removes
      exactly that suffix of the list. */
  lemma {:induction false} DeleteSuffix(s: ListState, n: nat)
    requires s.Valid() && s.current.At? && s.current.index + n <= |s.items|
    ensures DeleteToAfterN(s, n).items == s.items[..s.current.index] + s.items[s.current.index + n..]
    ensures DeleteToAfterN(s, n).current ==
              if s.current.index + n < |s.items| then s.current else None
    decreases n
  {
    if n > 0 {
      var k := s.current.index;
      var t := s.DeleteToAfter().0;
      assert t.items == s.items[..k] + s.items[k + 1..];
      if k + 1 < |s.items| {
        DeleteSuffix(t, n - 1);
        assert t.items[..k] == s.items[..k];
        assert t.items[k + n - 1..] == s.items[k + n..];
      } else {
        assert n == 1;
        assert s.items[k + n..] == [];
      }
    }
  }

  /** Starting at the first item, |items| calls of deleteToAfter empty the list. */
  lemma DeleteAll(s: ListState)
    requires s.Valid() && |s.items| > 0
    ensures DeleteToAfterN(s.First(), |s.items|) == NewList(s.defaultItem)
  {
    DeleteSuffix(s.First(), |s.items|);
  }

  /** Both deletions remove exactly the current item and keep the others in order;
      at none they do nothing and report false. */
  lemma DeleteRemovesCurrent(s: ListState)
    requires s.Valid()
    ensures s.DeleteToAfter().1 <==> s.current.At?
    ensures s.DeleteToBefore().1 <==> s.current.At?
    ensures s.current.None? ==> s.DeleteToAfter() == (s, false) && s.DeleteToBefore() == (s, false)
    ensures s.current.At? ==>
              var k, rest := s.current.index, s.DeleteToAfter().0.items;
              && s.DeleteToBefore().0.items == rest
              && s.items == rest[..k] + [s.Get()] + rest[k..]
              && multiset(rest) + multiset{s.Get()} == multiset(s.items)
  {
    if s.current.At? {
      var k, rest := s.current.index, s.DeleteToAfter().0.items;
      assert rest[..k] == s.items[..k] && rest[k..] == s.items[k + 1..];
      assert s.items == s.items[..k] + [s.items[k]] + s.items[k + 1..];
      calc {
        multiset(s.items);
        multiset(s.items[..k] + [s.items[k]] + s.items[k + 1..]);
        multiset(s.items[..k]) + multiset{s.items[k]} + multiset(s.items[k + 1..]);
        { assert rest == s.items[..k] + s.items[k + 1..]; }
        multiset(rest) + multiset{s.Get()};
      }
    }
  }

  /** A list: the items it stores, the current position and the default item given
      at creation. The methods are the operations of the library. */
  class List {
    var items: seq<Item>
    var current: Position
    const defaultItem: Item

    function State(): ListState
      reads this
    {
      ListState(items, current, defaultItem)
    }

    ghost predicate Valid()
      reads this
    {
      State().Valid()
    }

    /** newList: an empty list with default item e and no item selected. */
    constructor (e: Item)
      ensures Valid() && items == [] && current == None && defaultItem == e
      ensures State() == NewList(e)
    {
      items := [];
      current := None;
      defaultItem := e;
    }

    /** first: select the first item; an empty list is left at none. */
    method First()
      requires Valid()
      modifies this
      ensures Valid() && items == old(items)
      ensures |items| > 0 ==> current == At(0)
      ensures |items| == 0 ==> current == None
      ensures State() == old(State()).First()
    {
      if |items| > 0 {
        current := At(0);
      }
    }

    /** last: select the last item; an empty list is left at none. */
    method Last()
      requires Valid()
      modifies this
      ensures Valid() && items == old(items)
      ensures |items| > 0 ==> current == At(|items| - 1)
      ensures |items| == 0 ==> current == None
      ensures State() == old(State()).Last()
    {
      if |items| > 0 {
        current := At(|items| - 1);
      }
    }

    /** none: whether no item is selected. */
    method IsNone() returns (b: bool)
      requires Valid()
      ensures b <==> current == None
      ensures b == State().IsNone()
    {
      b := current.None?;
    }

    /** after: move one place forwards; from the last item to none. */
    method After() returns (moved: bool)
      requires Valid()
      modifies this
      ensures Valid() && items == old(items)
      ensures old(current) == None ==> !moved && current == None
      ensures old(current).At? && old(current).index == |items| - 1 ==> moved && current == None
      ensures old(current).At? && old(current).index < |items| - 1 ==>
                moved && current == At(old(current).index + 1)
      ensures (State(), moved) == old(State()).After()
    {
      match current
      case None =>
        moved := false;
      case At(k) =>
        current := if k == |items| - 1 then None else At(k + 1);
        moved := true;
    }

    /** before: move one place backwards; from the first item to none. */
    method Before() returns (moved: bool)
      requires Valid()
      modifies this
      ensures Valid() && items == old(items)
      ensures old(current) == None ==> !moved && current == None
      ensures old(current) == At(0) ==> moved && current == None
      ensures old(current).At? && old(current).index > 0 ==>
                moved && current == At(old(current).index - 1)
      ensures (State(), moved) == old(State()).Before()
    {
      match current
      case None =>
        moved := false;
      case At(k) =>
        current := if k == 0 then None else At(k - 1);
        moved := true;
    }

    /** get: the current item, or the default item at none. */
    method Get() returns (x: Item)
      requires Valid()
      ensures current == None ==> x == defaultItem
      ensures current.At? ==> x == items[current.index]
      ensures x == State().Get()
    {
      match current
      case None => x := defaultItem;
      case At(k) => x := items[k];
    }

    /** set: overwrite the current item; at none do nothing and return false. */
    method Set(x: Item) returns (done: bool)
      requires Valid()
      modifies this
      ensures Valid() && current == old(current)
      ensures done <==> old(current).At?
      ensures old(current) == None ==> items == old(items)
      ensures old(current).At? ==> items == old(items)[old(current).index := x]
      ensures (State(), done) == old(State()).Set(x)
    {
      match current
      case None =>
        done := false;
      case At(k) =>
        items := items[k := x];
        done := true;
    }

    /** insertAfter: insert x after the current item and select it; at none insert
        x at the front and stay at none. */
    method InsertAfter(x: Item)
      requires Valid()
      modifies this
      ensures Valid()
      ensures old(current) == None ==> items == [x] + old(items) && current == None
      ensures old(current).At? ==>
                var k := old(current).index;
                items == old(items)[..k + 1] + [x] + old(items)[k + 1..] && current == At(k + 1)
      ensures State() == old(State()).InsertAfter(x)
    {
      match current
      case None =>
        items := [x] + items;
      case At(k) =>
        items := items[..k + 1] + [x] + items[k + 1..];
        current := At(k + 1);
    }

    /** insertBefore: insert x before the current item and select it; at none
        append x at the end and stay at none. */
    method InsertBefore(x: Item)
      requires Valid()
      modifies this
      ensures Valid()
      ensures old(current) == None ==> items == old(items) + [x] && current == None
      ensures old(current).At? ==>
                var k := old(current).index;
                items == old(items)[..k] + [x] + old(items)[k..] && current == At(k)
      ensures State() == old(State()).InsertBefore(x)
    {
      match current
      case None =>
        items := items + [x];
      case At(k) =>
        items := items[..k] + [x] + items[k..];
    }

    /** deleteToAfter: delete the current item and select its successor, or none
        if it was the last; at none do nothing and return false. */
    method DeleteToAfter() returns (done: bool)
      requires Valid()
      modifies this
      ensures Valid()
      ensures done <==> old(current).At?
      ensures old(current) == None ==> items == old(items) && current == None
      ensures old(current).At? ==>
                var k := old(current).index;
                items == old(items)[..k] + old(items)[k + 1..] &&
                current == if k < |old(items)| - 1 then At(k) else None
      ensures (State(), done) == old(State()).DeleteToAfter()
    {
      match current
      case None =>
        done := false;
      case At(k) =>
        items := items[..k] + items[k + 1..];
        current := if k < |items| then At(k) else None;
        done := true;
    }

    /** deleteToBefore: delete the current item and select its predecessor, or none
        if it was the first; at none do nothing and return false. */
    method DeleteToBefore() returns (done: bool)
      requires Valid()
      modifies this
      ensures Valid()
      ensures done <==> old(current).At?
      ensures old(current) == None ==> items == old(items) && current == None
      ensures old(current).At? ==>
                var k := old(current).index;
                items == old(items)[..k] + old(items)[k + 1..] &&
                current == if k > 0 then At(k - 1) else None
      ensures (State(), done) == old(State()).DeleteToBefore()
    {
      match current
      case None =>
        done := false;
      case At(k) =>
        items := items[..k] + items[k + 1..];
        current := if k > 0 then At(k - 1) else None;
        done := true;
    }
  }

  /** What a caller can conclude from the method contracts alone: a new list, and
      insertion while no item is selected. */
  method UsageAtNone(a: Item, b: Item, c: Item, d: Item, e: Item)
  {
    var xs := new List(e);
    var none := xs.IsNone();
    var x := xs.Get();
    assert none && x == e;
    xs.First();
    xs.Last();
    none := xs.IsNone();
    assert none;
    xs.InsertBefore(b);
    xs.InsertBefore(c);
    xs.InsertAfter(a);
    assert xs.items == [a, b, c] && xs.current == None;
    xs.InsertBefore(d);
    assert xs.items == [a, b, c, d] && xs.current == None;
    var ok := xs.DeleteToBefore();
    assert !ok && xs.items == [a, b, c, d];
    ok := xs.Set(d);
    x := xs.Get();
    assert !ok && x == e && xs.items == [a, b, c, d];
  }

  /** Moving off either end of [a, b, c], and moving back and forth. */
  method UsageMoves(a: Item, b: Item, c: Item, e: Item)
  {
    var xs := new List(e);
    xs.InsertBefore(a);
    xs.InsertBefore(b);
    xs.InsertBefore(c);
    xs.Last();
    var ok := xs.After();
    assert ok && xs.current == None;
    ok := xs.After();
    assert !ok && xs.current == None && xs.items == [a, b, c];
    xs.First();
    ok := xs.After();
    ok := xs.After();
    ok := xs.Before();
    var x := xs.Get();
    assert x == b && xs.current == At(1);
  }

  /** Deleting at either end of [a, b, c]. */
  method UsageDeletes(a: Item, b: Item, c: Item, e: Item)
  {
    var xs := new List(e);
    xs.InsertBefore(a);
    xs.InsertBefore(b);
    xs.InsertBefore(c);
    xs.Last();
    var ok := xs.DeleteToAfter();
    assert ok && xs.items == [a, b] && xs.current == None;
    xs.InsertBefore(c);
    xs.First();
    ok := xs.DeleteToBefore();
    assert ok && xs.items == [b, c] && xs.current == None;
  }

  /** Inserting after a selected item selects the new item. */
  method UsageInsertAfter(a: Item, b: Item, c: Item, e: Item)
  {
    var xs := new List(e);
    xs.InsertBefore(b);
    xs.InsertBefore(c);
    xs.First();
    xs.InsertAfter(a);
    var x := xs.Get();
    assert xs.items == [b, a, c] && x == a;
  }
}
