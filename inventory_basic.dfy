/** The items of the program without categories: the store is Inventory's, with the
    unit type in place of the category. */
module InventoryBasic {
  import opened Dates
  import opened Inventory

  /** An item of this program carries no category. */
  type BasicItem = FoodItem<()>

  /** new FridgeItem(name, useBy, fridgeNumber, shelfNumber) on the day `today`: the
      arguments are stored unchanged and frozenOn reads back as today. */
  function NewFridgeItem(name: string, useBy: string, fridgeNumber: int, shelfNumber: int, today: Date): (item: BasicItem)
    ensures item.FridgeItem?
    ensures item.name == name && item.useBy == useBy
    ensures item.fridgeNumber == fridgeNumber && item.shelfNumber == shelfNumber
    ensures item.frozenOn == DateToString(today)
    ensures ParseDate(item.frozenOn) == Some(today)
  {
    FridgeItem(name, useBy, DateToString(today), (), fridgeNumber, shelfNumber)
  }

  /** new FreezerItem(name, useBy, position) on the day `today`. */
  function NewFreezerItem(name: string, useBy: string, position: string, today: Date): (item: BasicItem)
    ensures item.FreezerItem?
    ensures item.name == name && item.useBy == useBy && item.position == position
    ensures item.frozenOn == DateToString(today)
    ensures ParseDate(item.frozenOn) == Some(today)
  {
    FreezerItem(name, useBy, DateToString(today), (), position)
  }

  /** "2020" converts its year and nothing more, and sorts below the sentinel. */
  lemma YearOnlyFields()
    ensures ScanFields("2020", 2) == [2020] && ParseDate("2020") == None
    ensures StrLess("2020", Sentinel)
  {
    var u := "2020";
    assert u[..4] == u && u[..3] == "202" && "202"[..2] == "20" && "20"[..1] == "2";
    ScanIntDigits(u, 4);
    assert u[0] == '2' && Sentinel[0] == '9';
  }

  /** This program stores the use-by string unchecked. A string whose year alone converts
      still gets a defined expiry test when that year is not today's: "2020" is expired on
      1 February 2024, and as the only item it is the oldest, although it is no date. */
  lemma YearOnlyUseByIsOldest(item: BasicItem, today: Date)
    requires item.useBy == "2020" && today == Date(2024, 2, 1)
    ensures ScanFields(item.useBy, 2) == [2020] && ParseDate(item.useBy) == None
    ensures AllExpiryDefined([item], today) && IsExpired(item, today)
    ensures IsOldestAt([item], today, 0)
  {
    YearOnlyFields();
    var s := [item];
    assert s[0] == item && |s| == 1;
  }

  /** In the year of today the test goes on to read the month, which "2024" never
      converted: the source reads an uninitialised variable there. */
  lemma YearOnlyUseByThisYearIsUndefined(today: Date)
    requires today.year == 2024
    ensures ScanFields("2024", 2) == [2024]
    ensures !ExpiryDefined(ScanFields("2024", 2), today)
  {
    var u := "2024";
    assert u[..4] == u && u[..3] == "202" && "202"[..2] == "20" && "20"[..1] == "2";
    ScanIntDigits(u, 4);
  }
}
