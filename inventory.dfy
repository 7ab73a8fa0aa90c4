/** The food inventory shared by both programs: fridge and freezer items kept in
    insertion order by an InventoryManager. The two programs differ only in whether an
    item carries a category, so the item type takes the category's type as a parameter:
    the unit type for the program without categories, a string for the other. */
module Inventory {
  import opened Dates

  /** A stored item. Both kinds carry a name, a use-by date string, the frozen-on
      date string set when the item was made and a category; a fridge item sits on a numbered shelf
      of a numbered fridge, a freezer item at a free-form position. */
  datatype FoodItem<C> =
    | FridgeItem(name: string, useBy: string, frozenOn: string, category: C, fridgeNumber: int, shelfNumber: int)
    | FreezerItem(name: string, useBy: string, frozenOn: string, category: C, position: string)

  // ---------------------------------------------------------------------------
  // Specification of the store.

  /** Every use-by string converts all three fields of "%d-%d-%d". */
  predicate AllDatesParse<C>(s: seq<FoodItem<C>>)
  {
    forall i :: 0 <= i < |s| ==> ParseDate(s[i].useBy).Some?
  }

  /** The fields the expiry test reads were converted for every item; the queries read
      an uninitialised variable otherwise. */
  predicate AllExpiryDefined<C>(s: seq<FoodItem<C>>, today: Date)
  {
    forall i :: 0 <= i < |s| ==> ExpiryDefined(ScanFields(s[i].useBy, 2), today)
  }

  /** The expiry test of both programs on the fields converted from the use-by string. */
  predicate IsExpired<C>(item: FoodItem<C>, today: Date)
  {
    FieldsBefore(ScanFields(item.useBy, 2), today)
  }

  /** The expiry test both queries run on an item: sscanf the use-by string into year,
      month and day, then compare with today, reading only the fields it reaches. */
  method ExpiryTest<C>(item: FoodItem<C>, today: Date) returns (expired: bool)
    requires ExpiryDefined(ScanFields(item.useBy, 2), today)
    ensures expired <==> IsExpired(item, today)
  {
    var f := ScanFields(item.useBy, 2);
    expired := f[0] < today.year || (f[0] == today.year && f[1] < today.month)
      || (f[0] == today.year && f[1] == today.month && f[2] < today.day);
  }

  /** s without its first item named `name`; s itself when there is none. */
  function RemoveFirst<C>(s: seq<FoodItem<C>>, name: string): seq<FoodItem<C>>
  {
    if s == [] then []
    else if s[0].name == name then s[1..]
    else [s[0]] + RemoveFirst(s[1..], name)
  }

  /** A fridge item on shelf `shelfNumber` of fridge `fridgeNumber`; freezer items are on no shelf. */
  predicate OnShelf<C>(item: FoodItem<C>, fridgeNumber: int, shelfNumber: int)
  {
    match item
    case FridgeItem(_, _, _, _, f, s) => f == fridgeNumber && s == shelfNumber
    case FreezerItem(_, _, _, _, _) => false
  }

  /** The number of fridge items of s on the given shelf. */
  function ShelfCount<C>(s: seq<FoodItem<C>>, fridgeNumber: int, shelfNumber: int): nat
  {
    if s == [] then 0
    else ShelfCount(s[..|s| - 1], fridgeNumber, shelfNumber)
         + (if OnShelf(s[|s| - 1], fridgeNumber, shelfNumber) then 1 else 0)
  }

  /** The names of the expired items of s, in the order of s. */
  function ExpiredNames<C>(s: seq<FoodItem<C>>, today: Date): seq<string>
  {
    if s == [] then []
    else
      var last := s[|s| - 1];
      ExpiredNames(s[..|s| - 1], today) + (if IsExpired(last, today) then [last.name] else [])
  }

  /** The starting value of the oldest-date scan; only a use-by string below it can be chosen. */
  const Sentinel: string := "9999-99-99"

  /** s[k] is the item the oldest-item scan settles on: expired, below the sentinel,
      no expired item has a smaller use-by string, and every expired item before it
      has a greater one (on equal strings the first wins). */
  ghost predicate IsOldestAt<C>(s: seq<FoodItem<C>>, today: Date, k: int)
  {
    && 0 <= k < |s|
    && IsExpired(s[k], today)
    && StrLess(s[k].useBy, Sentinel)
    && (forall j :: 0 <= j < |s| && IsExpired(s[j], today) ==> !StrLess(s[j].useBy, s[k].useBy))
    && (forall j :: 0 <= j < k && IsExpired(s[j], today) ==> StrLess(s[k].useBy, s[j].useBy))
  }

  /** An expired item whose use-by string is below the sentinel. */
  ghost predicate HasCandidate<C>(s: seq<FoodItem<C>>, today: Date)
  {
    exists j :: 0 <= j < |s| && IsExpired(s[j], today) && StrLess(s[j].useBy, Sentinel)
  }

  /** What displayOldestItem shows. */
  datatype OldestReport<C> = EmptyInventory | NoExpiredItems | Oldest(item: FoodItem<C>)

  /** What displayExpiredItemNames shows; an empty list means "No expired items found." */
  datatype NamesReport = NoItems | Names(names: seq<string>)

  // ---------------------------------------------------------------------------
  // The store.

  class InventoryManager<C(==)> {
    var inventory: seq<FoodItem<C>>

    constructor ()
      ensures inventory == []
    {
      inventory := [];
    }

    /** addItem: push_back. */
    method AddItem(item: FoodItem<C>)
      modifies this
      ensures inventory == old(inventory) + [item]
    {
      inventory := inventory + [item];
    }

    /** removeItem: erase the first item with exactly this name, if any. */
    method RemoveItem(itemName: string)
      modifies this
      ensures inventory == RemoveFirst(old(inventory), itemName)
    {
      var i := 0;
      while i < |inventory|
        invariant 0 <= i <= |inventory|
        invariant inventory == old(inventory)
        invariant forall j :: 0 <= j < i ==> inventory[j].name != itemName
      {
        if inventory[i].name == itemName {
          RemoveFirstAt(inventory, itemName, i);
          inventory := inventory[..i] + inventory[i + 1..];
          return;
        }
        i := i + 1;
      }
      RemoveFirstAbsent(inventory, itemName);
    }

    /** displayOldestItem, with today's date passed in. */
    method OldestItem(today: Date) returns (r: OldestReport<C>)
      requires AllExpiryDefined(inventory, today)
      ensures r.EmptyInventory? <==> inventory == []
      ensures r.NoExpiredItems? <==> inventory != [] && !HasCandidate(inventory, today)
      ensures r.Oldest? ==> exists k :: IsOldestAt(inventory, today, k) && r.item == inventory[k]
    {
      if inventory == [] {
        return EmptyInventory;
      }
      var items := inventory;
      var oldestItem: Option<FoodItem<C>> := None;
      var oldestDate := Sentinel;
      ghost var at := -1;
      for i := 0 to |items|
        invariant at == ScanChoice(items[..i], today)
        invariant oldestItem.None? <==> at == -1
        invariant oldestItem.None? ==> oldestDate == Sentinel
        invariant oldestItem.Some? ==> oldestItem.value == items[at] && oldestDate == items[at].useBy
      {
        ScanChoiceStep(items, today, i);
        var item := items[i];
        var useBy := item.useBy;
        var expired := ExpiryTest(item, today);
        if expired && StrLess(useBy, oldestDate) {
          oldestItem := Some(item);
          oldestDate := useBy;
          at := i;
        }
      }
      assert items[..|items|] == items;
      ScanChoiceIsOldest(items, today);
      if oldestItem.Some? {
        assert IsOldestAt(inventory, today, at) && oldestItem.value == inventory[at];
        return Oldest(oldestItem.value);
      }
      assert !HasCandidate(inventory, today);
      return NoExpiredItems;
    }

    /** displayExpiredItemNames, with today's date passed in. */
    method ExpiredItemNames(today: Date) returns (r: NamesReport)
      requires AllExpiryDefined(inventory, today)
      ensures r == if inventory == [] then NoItems else Names(ExpiredNames(inventory, today))
    {
      if inventory == [] {
        return NoItems;
      }
      var names: seq<string> := [];
      for i := 0 to |inventory|
        invariant names == ExpiredNames(inventory[..i], today)
      {
        assert inventory[..i + 1][..i] == inventory[..i];
        var item := inventory[i];
        var expired := ExpiryTest(item, today);
        if expired {
          names := names + [item.name];
        }
      }
      assert inventory[..|inventory|] == inventory;
      return Names(names);
    }

    /** isShelfFull: stop counting at the second fridge item on the shelf. */
    method IsShelfFull(fridgeNumber: int, shelfNumber: int) returns (full: bool)
      ensures full <==> ShelfCount(inventory, fridgeNumber, shelfNumber) >= 2
    {
      var count := 0;
      for i := 0 to |inventory|
        invariant count == ShelfCount(inventory[..i], fridgeNumber, shelfNumber)
        invariant count < 2
      {
        assert inventory[..i + 1][..i] == inventory[..i];
        var item := inventory[i];
        if item.FridgeItem? && item.fridgeNumber == fridgeNumber && item.shelfNumber == shelfNumber {
          count := count + 1;
          if count >= 2 {
            ShelfCountPrefix(inventory, fridgeNumber, shelfNumber, i + 1);
            return true;
          }
        }
      }
      assert inventory[..|inventory|] == inventory;
      return false;
    }
  }

  // ---------------------------------------------------------------------------
  // Removal.

  /** Removing by name erases exactly the first item with that name. */
  lemma {:induction false} RemoveFirstAt<C>(s: seq<FoodItem<C>>, name: string, k: nat)
    requires k < |s| && s[k].name == name
    requires forall j :: 0 <= j < k ==> s[j].name != name
    ensures RemoveFirst(s, name) == s[..k] + s[k + 1..]
    ensures |RemoveFirst(s, name)| == |s| - 1
  {
    if k > 0 {
      RemoveFirstAt(s[1..], name, k - 1);
      assert s[1..][..k - 1] == s[1..k];
      assert s[..k] == [s[0]] + s[1..k];
    }
  }

  /** Removing a name no item has changes nothing, on an empty inventory too. */
  lemma {:induction false} RemoveFirstAbsent<C>(s: seq<FoodItem<C>>, name: string)
    requires forall j :: 0 <= j < |s| ==> s[j].name != name
    ensures RemoveFirst(s, name) == s
  {
    if s != [] {
      RemoveFirstAbsent(s[1..], name);
      assert s == [s[0]] + s[1..];
    }
  }

  /** Adding an item under a fresh name and then removing that name restores the inventory. */
  lemma AddThenRemove<C>(s: seq<FoodItem<C>>, item: FoodItem<C>)
    requires forall j :: 0 <= j < |s| ==> s[j].name != item.name
    ensures RemoveFirst(s + [item], item.name) == s
  {
    var t := s + [item];
    RemoveFirstAt(t, item.name, |s|);
    assert t[..|s|] == s && t[|s| + 1..] == [];
  }

  // ---------------------------------------------------------------------------
  // Shelves.

  lemma {:induction false} ShelfCountAppend<C>(a: seq<FoodItem<C>>, b: seq<FoodItem<C>>, f: int, sh: int)
    ensures ShelfCount(a + b, f, sh) == ShelfCount(a, f, sh) + ShelfCount(b, f, sh)
  {
    if b != [] {
      ShelfCountAppend(a, b[..|b| - 1], f, sh);
      assert (a + b)[..|a + b| - 1] == a + b[..|b| - 1];
    } else {
      assert a + b == a;
    }
  }

  /** Counting only ever grows along the inventory. */
  lemma ShelfCountPrefix<C>(s: seq<FoodItem<C>>, f: int, sh: int, n: nat)
    requires n <= |s|
    ensures ShelfCount(s[..n], f, sh) <= ShelfCount(s, f, sh)
  {
    assert s == s[..n] + s[n..];
    ShelfCountAppend(s[..n], s[n..], f, sh);
  }

  /** A shelf is full exactly when two distinct fridge items of the inventory are on it. */
  lemma {:induction false} ShelfFullIffTwoItems<C>(s: seq<FoodItem<C>>, f: int, sh: int)
    ensures ShelfCount(s, f, sh) >= 2 <==>
      exists i, j :: 0 <= i < j < |s| && OnShelf(s[i], f, sh) && OnShelf(s[j], f, sh)
  {
    if s != [] {
      var p := s[..|s| - 1];
      ShelfFullIffTwoItems(p, f, sh);
      ShelfCountOneIffOne(p, f, sh);
      if exists i, j :: 0 <= i < j < |s| && OnShelf(s[i], f, sh) && OnShelf(s[j], f, sh) {
        var i, j :| 0 <= i < j < |s| && OnShelf(s[i], f, sh) && OnShelf(s[j], f, sh);
        if j < |s| - 1 {
          assert OnShelf(p[i], f, sh) && OnShelf(p[j], f, sh);
        } else {
          assert OnShelf(p[i], f, sh);
        }
      }
      if ShelfCount(s, f, sh) >= 2 {
        if ShelfCount(p, f, sh) < 2 {
          var i :| 0 <= i < |p| && OnShelf(p[i], f, sh);
          assert OnShelf(s[i], f, sh) && OnShelf(s[|s| - 1], f, sh);
        } else {
          var i, j :| 0 <= i < j < |p| && OnShelf(p[i], f, sh) && OnShelf(p[j], f, sh);
          assert OnShelf(s[i], f, sh) && OnShelf(s[j], f, sh);
        }
      }
    }
  }

  lemma {:induction false} ShelfCountOneIffOne<C>(s: seq<FoodItem<C>>, f: int, sh: int)
    ensures ShelfCount(s, f, sh) >= 1 <==> exists i :: 0 <= i < |s| && OnShelf(s[i], f, sh)
  {
    if s != [] {
      var p := s[..|s| - 1];
      ShelfCountOneIffOne(p, f, sh);
      if exists i :: 0 <= i < |s| && OnShelf(s[i], f, sh) {
        var i :| 0 <= i < |s| && OnShelf(s[i], f, sh);
        if i < |s| - 1 {
          assert OnShelf(p[i], f, sh);
        }
      }
      if ShelfCount(p, f, sh) >= 1 {
        var i :| 0 <= i < |p| && OnShelf(p[i], f, sh);
        assert OnShelf(s[i], f, sh);
      }
    }
  }

  /** No shelf holds more than two fridge items. */
  ghost predicate WithinCapacity<C>(s: seq<FoodItem<C>>)
  {
    forall f, sh :: ShelfCount(s, f, sh) <= 2
  }

  /** The caller's discipline keeps every shelf within capacity: add a fridge item only
      when its shelf is not full; freezer items never fill a shelf. */
  lemma AddKeepsCapacity<C>(s: seq<FoodItem<C>>, item: FoodItem<C>)
    requires WithinCapacity(s)
    requires item.FridgeItem? ==> ShelfCount(s, item.fridgeNumber, item.shelfNumber) < 2
    ensures WithinCapacity(s + [item])
  {
    forall f, sh ensures ShelfCount(s + [item], f, sh) <= 2 {
      assert (s + [item])[..|s|] == s;
    }
  }

  /** Removal never adds to a shelf. */
  lemma RemoveKeepsCapacity<C>(s: seq<FoodItem<C>>, name: string)
    requires WithinCapacity(s)
    ensures WithinCapacity(RemoveFirst(s, name))
  {
    if k :| 0 <= k < |s| && s[k].name == name && forall j :: 0 <= j < k ==> s[j].name != name {
      RemoveFirstAt(s, name, k);
      forall f, sh ensures ShelfCount(RemoveFirst(s, name), f, sh) <= 2 {
        assert s == s[..k] + ([s[k]] + s[k + 1..]);
        ShelfCountAppend(s[..k], [s[k]] + s[k + 1..], f, sh);
        ShelfCountAppend([s[k]], s[k + 1..], f, sh);
        ShelfCountAppend(s[..k], s[k + 1..], f, sh);
      }
    } else {
      FirstMatchOrNone(s, name);
      RemoveFirstAbsent(s, name);
    }
  }

  /** Either no item has the name, or there is a first one. */
  lemma {:induction false} FirstMatchOrNone<C>(s: seq<FoodItem<C>>, name: string)
    ensures (forall j :: 0 <= j < |s| ==> s[j].name != name)
      || exists k :: 0 <= k < |s| && s[k].name == name && forall j :: 0 <= j < k ==> s[j].name != name
  {
    if s != [] && s[0].name != name {
      FirstMatchOrNone(s[1..], name);
      if exists k :: 0 <= k < |s[1..]| && s[1..][k].name == name && forall j :: 0 <= j < k ==> s[1..][j].name != name {
        var k :| 0 <= k < |s[1..]| && s[1..][k].name == name && forall j :: 0 <= j < k ==> s[1..][j].name != name;
        assert forall j :: 0 <= j < k + 1 ==> s[j].name != name;
      }
    }
  }

  // ---------------------------------------------------------------------------
  // Expired names.

  /** The expired names of two inventories laid end to end: insertion order is kept. */
  lemma {:induction false} ExpiredNamesAppend<C>(a: seq<FoodItem<C>>, b: seq<FoodItem<C>>, today: Date)
    ensures ExpiredNames(a + b, today) == ExpiredNames(a, today) + ExpiredNames(b, today)
  {
    if b == [] {
      assert a + b == a;
    } else {
      var p, last := b[..|b| - 1], b[|b| - 1];
      var tail := if IsExpired(last, today) then [last.name] else [];
      ExpiredNamesAppend(a, p, today);
      assert (a + b)[..|a + b| - 1] == a + p && (a + b)[|a + b| - 1] == last;
      assert ExpiredNames(a + b, today) == ExpiredNames(a + p, today) + tail;
      assert ExpiredNames(b, today) == ExpiredNames(p, today) + tail;
    }
  }

  /** A name is listed exactly when some expired item carries it. */
  lemma {:induction false} ExpiredNamesMembers<C>(s: seq<FoodItem<C>>, today: Date, n: string)
    ensures n in ExpiredNames(s, today) <==>
      exists i :: 0 <= i < |s| && IsExpired(s[i], today) && s[i].name == n
  {
    if s != [] {
      var p := s[..|s| - 1];
      ExpiredNamesMembers(p, today, n);
      if exists i :: 0 <= i < |s| && IsExpired(s[i], today) && s[i].name == n {
        var i :| 0 <= i < |s| && IsExpired(s[i], today) && s[i].name == n;
        if i < |s| - 1 {
          assert p[i] == s[i];
        }
      }
      if exists i :: 0 <= i < |p| && IsExpired(p[i], today) && p[i].name == n {
        var i :| 0 <= i < |p| && IsExpired(p[i], today) && p[i].name == n;
        assert s[i] == p[i];
      }
    }
  }

  /** The list is empty exactly when nothing is expired. */
  lemma {:induction false} ExpiredNamesEmpty<C>(s: seq<FoodItem<C>>, today: Date)
    ensures ExpiredNames(s, today) == [] <==> forall i :: 0 <= i < |s| ==> !IsExpired(s[i], today)
  {
    if s != [] {
      var p, last := s[..|s| - 1], s[|s| - 1];
      var tail := if IsExpired(last, today) then [last.name] else [];
      ExpiredNamesEmpty(p, today);
      assert ExpiredNames(s, today) == ExpiredNames(p, today) + tail;
      if ExpiredNames(s, today) == [] {
        assert ExpiredNames(p, today) == [] && tail == [];
        forall i | 0 <= i < |s|
          ensures !IsExpired(s[i], today)
        {
          if i < |p| {
            assert p[i] == s[i] && !IsExpired(p[i], today);
          } else {
            assert s[i] == last;
          }
        }
      } else if tail == [] {
        var i :| 0 <= i < |p| && IsExpired(p[i], today);
        assert s[i] == p[i];
      }
    }
  }

  // ---------------------------------------------------------------------------
  // The oldest item.

  /** The scan settles on at most one item. */
  lemma OldestIsUnique<C>(s: seq<FoodItem<C>>, today: Date, k1: int, k2: int)
    requires IsOldestAt(s, today, k1) && IsOldestAt(s, today, k2)
    ensures k1 == k2
  {
  }

  /** When every use-by string is a zero-padded "YYYY-MM-DD" date, the string order the
      scan uses is date order, so the chosen item has the earliest use-by date among the
      expired items. */
  lemma OldestIsEarliestDate<C>(s: seq<FoodItem<C>>, today: Date, k: int)
    requires forall i :: 0 <= i < |s| ==> IsPaddedDate(s[i].useBy)
    requires IsOldestAt(s, today, k)
    ensures forall j :: 0 <= j < |s| && IsExpired(s[j], today) ==>
      ParseDate(s[j].useBy).Some? && ParseDate(s[k].useBy).Some?
      && !IsBefore(ParseDate(s[j].useBy).value, ParseDate(s[k].useBy).value)
  {
    PaddedDateParses(s[k].useBy);
    forall j | 0 <= j < |s| && IsExpired(s[j], today)
      ensures ParseDate(s[j].useBy).Some? && ParseDate(s[k].useBy).Some?
      ensures !IsBefore(ParseDate(s[j].useBy).value, ParseDate(s[k].useBy).value)
    {
      PaddedDateParses(s[j].useBy);
      PaddedOrderIsDateOrder(s[j].useBy, s[k].useBy);
    }
  }

  /** There is an oldest item exactly when some expired item is below the sentinel. */
  lemma OldestExistsIffCandidate<C>(s: seq<FoodItem<C>>, today: Date)
    ensures HasCandidate(s, today) <==> exists k :: IsOldestAt(s, today, k)
  {
    ScanChoiceIsOldest(s, today);
    var at := ScanChoice(s, today);
    if at >= 0 {
      assert IsOldestAt(s, today, at);
    }
  }

  /** Where the oldest-item scan stands after the items of s: -1 while it has seen no
      expired item below the sentinel, otherwise the index of the item chosen so far. */
  function ScanChoice<C>(s: seq<FoodItem<C>>, today: Date): (at: int)
    ensures -1 <= at < |s|
    ensures at >= 0 ==> IsExpired(s[at], today) && StrLess(s[at].useBy, Sentinel)
  {
    if s == [] then -1
    else
      var prev := ScanChoice(s[..|s| - 1], today);
      var i := |s| - 1;
      if !IsExpired(s[i], today) then prev
      else if prev == -1 then (if StrLess(s[i].useBy, Sentinel) then i else prev)
      else if StrLess(s[i].useBy, s[prev].useBy) then
        StrLessTransitive(s[i].useBy, s[prev].useBy, Sentinel);
        i
      else prev
  }

  /** One more item: the scan replaces its choice by item i exactly when item i is expired
      and its use-by string is below the current one (the sentinel when there is none). */
  lemma ScanChoiceStep<C>(s: seq<FoodItem<C>>, today: Date, i: int)
    requires 0 <= i < |s|
    ensures var prev := ScanChoice(s[..i], today);
      ScanChoice(s[..i + 1], today) ==
        if IsExpired(s[i], today) && StrLess(s[i].useBy, if prev == -1 then Sentinel else s[prev].useBy)
        then i else prev
  {
    assert s[..i + 1][..i] == s[..i];
  }

  /** The scan's choice is the oldest item, and it makes none only when there is no
      candidate. */
  lemma {:induction false} ScanChoiceIsOldest<C>(s: seq<FoodItem<C>>, today: Date)
    ensures ScanChoice(s, today) == -1 <==> !HasCandidate(s, today)
    ensures ScanChoice(s, today) >= 0 ==> IsOldestAt(s, today, ScanChoice(s, today))
  {
    if s != [] {
      var i := |s| - 1;
      var p := s[..i];
      ScanChoiceIsOldest(p, today);
      var prev := ScanChoice(p, today);
      assert s[..i + 1] == s;
      if IsExpired(s[i], today) && StrLess(s[i].useBy, if prev == -1 then Sentinel else s[prev].useBy) {
        OldestStep(s, today, i, prev);
      } else {
        KeepOldest(s, today, i, prev);
      }
    }
  }

  /** One step of the scan that replaces the current choice (or the sentinel) by item i. */
  lemma OldestStep<C>(s: seq<FoodItem<C>>, today: Date, i: int, at: int)
    requires 0 <= i < |s| && -1 <= at < i
    requires IsExpired(s[i], today)
    requires at == -1 ==> StrLess(s[i].useBy, Sentinel) && !HasCandidate(s[..i], today)
    requires at >= 0 ==> IsOldestAt(s[..i], today, at) && StrLess(s[i].useBy, s[at].useBy)
    ensures IsOldestAt(s[..i + 1], today, i)
  {
    var p := s[..i + 1];
    assert forall j :: 0 <= j < i ==> s[..i][j] == p[j];
    if at >= 0 {
      StrLessTransitive(s[i].useBy, s[at].useBy, Sentinel);
    }
    forall j | 0 <= j < i + 1 && IsExpired(p[j], today)
      ensures !StrLess(p[j].useBy, p[i].useBy)
    {
      if j == i {
      } else if at >= 0 {
        if StrLess(p[j].useBy, p[i].useBy) {
          StrLessTransitive(p[j].useBy, p[i].useBy, s[at].useBy);
        }
      } else {
        if StrLess(p[j].useBy, p[i].useBy) {
          StrLessTransitive(p[j].useBy, p[i].useBy, Sentinel);
        }
      }
    }
    forall j | 0 <= j < i && IsExpired(p[j], today)
      ensures StrLess(p[i].useBy, p[j].useBy)
    {
      if at >= 0 {
        StrLessTotal(p[j].useBy, s[at].useBy);
        if p[j].useBy != s[at].useBy {
          StrLessTransitive(p[i].useBy, s[at].useBy, p[j].useBy);
        }
      } else {
        StrLessTotal(p[j].useBy, Sentinel);
        if p[j].useBy != Sentinel {
          StrLessTransitive(p[i].useBy, Sentinel, p[j].useBy);
        }
      }
    }
  }

  /** One step of the scan that keeps the current choice: item i is not expired, or its
      use-by string is not below the current one. */
  lemma KeepOldest<C>(s: seq<FoodItem<C>>, today: Date, i: int, at: int)
    requires 0 <= i < |s| && -1 <= at < i
    requires IsExpired(s[i], today) ==> !StrLess(s[i].useBy, if at == -1 then Sentinel else s[at].useBy)
    requires at == -1 ==> !HasCandidate(s[..i], today)
    requires at >= 0 ==> IsOldestAt(s[..i], today, at)
    ensures at == -1 ==> !HasCandidate(s[..i + 1], today)
    ensures at >= 0 ==> IsOldestAt(s[..i + 1], today, at)
  {
    var p, q := s[..i + 1], s[..i];
    if at == -1 {
      forall j | 0 <= j < |p| && IsExpired(p[j], today)
        ensures !StrLess(p[j].useBy, Sentinel)
      {
        if j < i {
          assert p[j] == q[j];
        }
      }
    } else {
      assert p[at] == q[at];
      forall j | 0 <= j < |p| && IsExpired(p[j], today)
        ensures !StrLess(p[j].useBy, p[at].useBy)
      {
        if j < i {
          assert p[j] == q[j];
        }
      }
      forall j | 0 <= j < at && IsExpired(p[j], today)
        ensures StrLess(p[at].useBy, p[j].useBy)
      {
        assert p[j] == q[j];
      }
    }
  }
}
