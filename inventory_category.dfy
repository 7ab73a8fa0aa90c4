/** The items of the program with categories: the store is Inventory's, each item
    carrying its category string. */
module InventoryCategory {
  import opened Dates
  import opened Inventory
  import opened Validation

  /** An item of this program carries a category. */
  type CategorisedItem = FoodItem<string>

  /** new FridgeItem(name, useBy, category, fridgeNumber, shelfNumber) on the day
      `today`: the arguments are stored unchanged and frozenOn reads back as today. */
  function NewFridgeItem(name: string, useBy: string, category: string, fridgeNumber: int, shelfNumber: int, today: Date): (item: CategorisedItem)
    ensures item.FridgeItem?
    ensures item.name == name && item.useBy == useBy && item.category == category
    ensures item.fridgeNumber == fridgeNumber && item.shelfNumber == shelfNumber
    ensures item.frozenOn == DateToString(today)
    ensures ParseDate(item.frozenOn) == Some(today)
  {
    FridgeItem(name, useBy, DateToString(today), category, fridgeNumber, shelfNumber)
  }

  /** new FreezerItem(name, useBy, category, position) on the day `today`. */
  function NewFreezerItem(name: string, useBy: string, category: string, position: string, today: Date): (item: CategorisedItem)
    ensures item.FreezerItem?
    ensures item.name == name && item.useBy == useBy && item.category == category
    ensures item.position == position
    ensures item.frozenOn == DateToString(today)
    ensures ParseDate(item.frozenOn) == Some(today)
  {
    FreezerItem(name, useBy, DateToString(today), category, position)
  }

  /** isValidDate lets an unpadded use-by string through, and then the oldest-item scan
      picks the wrong item: of two expired items, one due on 11 January written
      "2024-1-011" and one due on 15 January written "2024-01-15", the scan settles on the
      second, although the first is due earlier. */
  lemma UnpaddedDateChosenAsOldest(s: seq<CategorisedItem>, today: Date)
    requires |s| == 2
    requires s[0].useBy == "2024" + "-" + "1" + "-" + "011"
    requires s[1].useBy == "2024" + "-" + "01" + "-" + "15"
    requires today == Date(2024, 2, 1)
    ensures IsValidDate(s[0].useBy) && IsValidDate(s[1].useBy)
    ensures AllDatesParse(s) && AllExpiryDefined(s, today)
    ensures IsExpired(s[0], today) && IsExpired(s[1], today)
    ensures IsBefore(ParseDate(s[0].useBy).value, ParseDate(s[1].useBy).value)
    ensures IsOldestAt(s, today, 1)
  {
    var early, late := s[0].useBy, s[1].useBy;
    Jan11UnpaddedIsValid();
    Jan15IsValid();
    Jan15SortsFirst();
    assert ScanFields(early, 2) == [2024, 1, 11] && ScanFields(late, 2) == [2024, 1, 15];
    forall i | 0 <= i < |s|
      ensures ParseDate(s[i].useBy).Some? && ExpiryDefined(ScanFields(s[i].useBy, 2), today)
    {
      assert i == 0 || i == 1;
    }
    assert !StrLess(late, late);
    assert !StrLess(early, late) by {
      StrLessAsymmetric(late, early);
    }
    assert StrLess(late, Sentinel) by {
      assert late[0] == '2' && Sentinel[0] == '9';
    }
    forall j | 0 <= j < |s| && IsExpired(s[j], today)
      ensures !StrLess(s[j].useBy, late)
    {
      assert j == 0 || j == 1;
    }
  }
}
