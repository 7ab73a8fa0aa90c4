# Food inventory manager — a Dafny model

Two versions of a small command-line food inventory program share one in-memory core.
`2.cpp` has no categories. `3.cpp` gives each item a category and validates its input.
The core is a vector of fridge and freezer items, kept in the order they were added, and an
`InventoryManager` that supports these operations:

- appends an item;
- removes the first item with a given name;
- reports whether a fridge shelf already holds two items;
- finds the "oldest" expired item;
- lists the names of the expired items.

An item is expired when its use-by date, read with `sscanf("%d-%d-%d")`, is strictly
before today's date: the year is compared first, then the month, then the day. `sscanf`
may convert only a prefix of the fields: `"2020"` converts the year alone and
`"2024/01/15"` the year and nothing after it. The test short-circuits, so it reads the
month only when the year equals today's, and the day only when the month does too. It is
therefore well defined whenever the fields it reaches were converted, and reads an
uninitialised variable only otherwise. The model keeps the converted fields as a list
(`Dates.ScanFields`), states when the test is defined (`Dates.ExpiryDefined`) and
evaluates it on the fields it reaches (`Dates.FieldsBefore`). The
oldest item is chosen by comparing the use-by strings character by character with
`std::string`'s `<`. The scan starts from the sentinel `"9999-99-99"`, and on equal
strings the first item wins.

The model has five modules:

- `Dates` (`dates.dfy`) covers the date strings:
  - a `"%d"` conversion with white-space skipping, an optional sign and a maximal digit
    run, and the three-field `"%d-%d-%d"` parse built from it;
  - `to_string` and the unpadded frozen-on string `year-month-day`;
  - the expiry test;
  - the order of `std::string`.
- `Validation` (`validation.dfy`) covers `isValidDate`, `isInteger` and `stringToInt`
  from `3.cpp`.
- `Inventory` (`inventory.dfy`) holds the item datatype, the `InventoryManager` class
  and its specification. The item datatype `FoodItem<C>` models the `FoodItem`,
  `FridgeItem` and `FreezerItem` classes (2.cpp:8-84, 3.cpp:8-91): one variant per
  derived class, each with the fields of the base class and its own. The two programs
  differ only in whether an item has a category, so `FoodItem<C>` takes the category's
  type as a parameter.
- `InventoryBasic` (`inventory_basic.dfy`) gives the item constructors of `2.cpp`. Its
  items have no category, so the unit type stands in for it.
- `InventoryCategory` (`inventory_category.dfy`) gives the item constructors of `3.cpp`,
  whose category is a string.

The manager's vector is a `seq` field, and `addItem` and `removeItem` reassign it. Each
query is a method whose loop mirrors the source's loop. Each method is proved against a
specification function: `RemoveFirst`, `ShelfCount`, `ExpiredNames`, or `ScanChoice`,
whose choice satisfies the ghost predicate `IsOldestAt`. The properties of the specification are then proved as lemmas.

Today's date is passed in as a parameter. The display operations return values instead
of printing, and an empty inventory gives its own result:

- `OldestItem` returns `EmptyInventory`, `NoExpiredItems` or `Oldest(item)`;
- `ExpiredItemNames` returns `NoItems` or `Names(names)`. An empty list of
  names is the source's "No expired items found."

The oldest-item scan compares strings, not dates. `Inventory.OldestIsEarliestDate` and
`Dates.PaddedOrderIsDateOrder` prove that the two orders agree when every use-by string
is a zero-padded `YYYY-MM-DD`. However, `isValidDate` also accepts unpadded strings of
length 10. `Validation.Jan11UnpaddedIsValid` and `Validation.Jan15SortsFirst` show such a
pair: `"2024-1-011"` (11 January) and `"2024-01-15"` (15 January) are both accepted.
The string order puts 15 January first. `InventoryCategory.UnpaddedDateChosenAsOldest`
proves the consequence for any two-item inventory with these use-by strings on
1 February 2024: both items are expired, and the scan settles on the 15 January item
although the other is due earlier.

`2.cpp` stores the use-by string without any check (2.cpp:218-227), so a string that is
not a date at all takes part in the scans. `InventoryBasic.YearOnlyUseByIsOldest` shows
that `"2020"`, whose year alone converts, is expired on 1 February 2024 and is chosen as
the oldest item, although it does not parse as a date.
`InventoryBasic.YearOnlyUseByThisYearIsUndefined` shows the limit: in 2024 the test goes
on to read the month of `"2024"`, which was never converted.

Strings are read as the byte sequences the C++ programs handle. Each Dafny character
stands for one byte (a code below 256), so `|s|` is `length()`, and UTF-8 text enters the
model one byte per character.

## Model

| member | source | states |
|---|---|---|
| `InventoryBasic.NewFridgeItem` | 2.cpp:46-47 | a fridge item keeps the name, use-by string, fridge number and shelf number it was given; its frozen-on string is today's date written `year-month-day`, and it parses back to today (base constructor at 2.cpp:15-23) |
| `InventoryBasic.NewFreezerItem` | 2.cpp:71-72 | a freezer item keeps the name, use-by string and position it was given; its frozen-on string is today's date written `year-month-day`, and it parses back to today |
| `InventoryCategory.NewFridgeItem` | 3.cpp:51-52 | as in the program without categories, and the item also keeps its category (base constructor at 3.cpp:16-24; getters at 3.cpp:26-40) |
| `InventoryCategory.NewFreezerItem` | 3.cpp:77-78 | a freezer item keeps the name, use-by string, category and position it was given; its frozen-on string is today's date written `year-month-day`, and it parses back to today |
| `Inventory.InventoryManager.constructor` | 3.cpp:93-95 | a new manager holds an empty inventory (same at 2.cpp:86-88) |
| `Inventory.InventoryManager.AddItem` | 3.cpp:98-100 | the new inventory is the old one followed by the item, so earlier items are unchanged and the length grows by one (same at 2.cpp:91-93) |
| `Inventory.InventoryManager.RemoveItem` | 3.cpp:102-110 | the new inventory is the old one without its first item of that name, or unchanged when no item has the name (same at 2.cpp:95-103) |
| `Inventory.InventoryManager.OldestItem` | 3.cpp:112-148 | when the expiry test is defined for every item, the result is `EmptyInventory` exactly when the inventory is empty. It is `NoExpiredItems` exactly when the inventory is not empty and no expired item's use-by string is below `"9999-99-99"`. Otherwise it is the item the scan settles on: expired, with no expired item's use-by string smaller, and earlier on ties (same at 2.cpp:105-141) |
| `Inventory.InventoryManager.ExpiredItemNames` | 3.cpp:150-180 | when the expiry test is defined for every item: `NoItems` on an empty inventory; otherwise the names of the expired items, in insertion order (same at 2.cpp:143-173) |
| `Inventory.ExpiryTest` | 3.cpp:130-133 | on a use-by string whose reached fields were converted, the test is true exactly when the item is expired (same at 2.cpp:123-126) |
| `Inventory.InventoryManager.IsShelfFull` | 3.cpp:182-194 | true exactly when at least two fridge items are on that fridge and shelf, freezer items not counting, although the loop stops at the second one (same at 2.cpp:175-187) |
| `Inventory.RemoveFirstAt` | 3.cpp:103-107 | when item k is the first with the name, removal yields the items before k followed by those after k, one item fewer |
| `Inventory.RemoveFirstAbsent` | 3.cpp:103-109 | removing a name that no item has, on an empty inventory too, changes nothing |
| `Inventory.AddThenRemove` | 3.cpp:98-110 | adding an item under a fresh name and then removing that name restores the inventory |
| `Inventory.ShelfFullIffTwoItems` | 3.cpp:184-191 | the shelf count is at least two exactly when two distinct fridge items of the inventory are on that shelf |
| `Inventory.ShelfCountOneIffOne` | 3.cpp:184-187 | the shelf count is at least one exactly when some fridge item is on that shelf |
| `Inventory.ShelfCountAppend` | 3.cpp:184-187 | counting over two inventories laid end to end adds the counts |
| `Inventory.ShelfCountPrefix` | 3.cpp:188-190 | the count over a prefix never exceeds the count over the whole inventory, which justifies the early return |
| `Inventory.AddKeepsCapacity` | 3.cpp:325-329 | adding a fridge item only when its shelf is not full, or adding a freezer item, keeps every shelf at two items or fewer |
| `Inventory.RemoveKeepsCapacity` | 3.cpp:102-110 | removal keeps every shelf at two items or fewer |
| `Inventory.FirstMatchOrNone` | 3.cpp:103-104 | either no item has the name or there is a first item that has it |
| `Inventory.ExpiredNamesAppend` | 3.cpp:159-175 | the expired names of two inventories laid end to end are the names of the first followed by those of the second |
| `Inventory.ExpiredNamesMembers` | 3.cpp:170-174 | a name is listed exactly when some expired item carries it |
| `Inventory.ExpiredNamesEmpty` | 3.cpp:177-179 | the list is empty exactly when no item is expired |
| `Inventory.OldestIsUnique` | 3.cpp:134-137 | the scan's choice is unique: two positions that both satisfy it are equal |
| `Inventory.OldestExistsIffCandidate` | 3.cpp:124-141 | an oldest item exists exactly when some expired item's use-by string is below the sentinel |
| `Inventory.ScanChoice` | 3.cpp:124-139 | the scan's choice after the items seen so far is -1 (no choice) or the index of an item that is expired and whose use-by string is below the sentinel |
| `Inventory.ScanChoiceStep` | 3.cpp:134-137 | one more item replaces the scan's choice exactly when it is expired and its use-by string is strictly below the current one, or below the sentinel when there is none |
| `Inventory.ScanChoiceIsOldest` | 3.cpp:124-141 | the scan makes no choice exactly when no expired item is below the sentinel, and a choice it makes is the oldest item |
| `Inventory.OldestStep` | 3.cpp:134-137 | replacing the choice with an expired item whose string is smaller yields the oldest item of the longer prefix |
| `Inventory.KeepOldest` | 3.cpp:132-138 | keeping the choice when the item is not expired or not smaller preserves the oldest item of the longer prefix |
| `Inventory.OldestIsEarliestDate` | 3.cpp:132-136 | when all use-by strings are zero-padded dates, they parse, and no expired item has an earlier date than the chosen one |
| `Dates.ScanInt` | 3.cpp:130 | a `"%d"` conversion that succeeds consumes at least one character and no more than the string holds |
| `Dates.ScanFields` | 3.cpp:130 | `sscanf` with `"%d"` and `more` copies of `"-%d"` converts at most `more + 1` fields, stopping at the first conversion that fails (same at 2.cpp:123) |
| `Dates.ParseDate` | 3.cpp:130-133 | on a string that parses, the expiry test is defined for every today and agrees with `IsBefore` on the parsed date, so reading all three fields and comparing dates is the source's short-circuit test |
| `Dates.IsBefore` | 3.cpp:132-133 | the expiry test on a fully converted date: a date before today is not today and is in today's year or an earlier one |
| `Dates.IsBeforeIsStrictTotalOrder` | 3.cpp:132-133 | the expiry test (year, then month, then day) is irreflexive, transitive and total on distinct dates |
| `Dates.StrLess` | 3.cpp:134 | `std::string`'s `<`: no string is below itself, and none is below the empty string |
| `Dates.StrLessTransitive` | 3.cpp:134 | `std::string` order is transitive |
| `Dates.StrLessTotal` | 3.cpp:134 | of two distinct strings, one is below the other |
| `Dates.StrLessAsymmetric` | 3.cpp:134 | two strings are never each below the other |
| `Dates.StrLessConcat` | 3.cpp:134 | comparing strings whose first parts have equal length: the first parts decide unless they are equal |
| `Dates.SameWidthOrder` | 3.cpp:134 | on digit strings of the same length, string order is numeric order and string equality is numeric equality |
| `Dates.NatToStringDigits` | 3.cpp:23 | `to_string` of a non-negative number is a non-empty run of digits whose decimal value is the number |
| `Dates.ScanIntToString` | 3.cpp:23 | a `"%d"` conversion reads back every integer written by `to_string`, negative ones included, stopping at the first non-digit |
| `Dates.ScanIntDigits` | 3.cpp:209 | a `"%d"` conversion of a string that starts with a run of digits reads the run's decimal value and consumes exactly the run |
| `Dates.ScanMinus` | 3.cpp:209 | a `"%d"` conversion of `-` followed by a run of digits reads the negated value and consumes the sign and the run |
| `Dates.ParseDateFrom` | 3.cpp:130 | when the three `"%d"` conversions each stop exactly at the `-` that ends their field, the parse yields the three values read |
| `Dates.DashedDigitsParse` | 3.cpp:130 | three non-empty digit runs joined by `-` parse to their decimal values |
| `Dates.DateToString` | 3.cpp:23 | the frozen-on string of any date parses back to that date |
| `Dates.PaddedDateParses` | 3.cpp:130 | a zero-padded `YYYY-MM-DD` string parses to its three fields |
| `Dates.PaddedStrLess` | 3.cpp:134 | comparing two zero-padded dates as strings compares the year, then the month, then the day fields |
| `Dates.PaddedOrderIsDateOrder` | 3.cpp:132-134 | on zero-padded dates, string order is exactly the expiry order of the parsed dates |
| `Validation.IsValidDate` | 3.cpp:204-216 | a date that passes validation converts all three fields, so the expiry test is defined on it whatever today is |
| `Validation.PaddedDateValidity` | 3.cpp:204-216 | a zero-padded date is valid exactly when its month is from 1 to 12 and its day from 1 to 31 |
| `Validation.Feb31IsValid` | 3.cpp:212 | `"2023-02-31"` is accepted: the day is not checked against the month |
| `Validation.Jan11UnpaddedIsValid` | 3.cpp:205-213 | `"2024-1-011"` has length 10, parses to 11 January 2024 and is accepted |
| `Validation.Jan15IsValid` | 3.cpp:205-213 | `"2024-01-15"` parses to 15 January 2024 and is accepted |
| `Validation.SlashDateIsInvalid` | 3.cpp:209-210 | `"2024/01/15"` converts fewer than three fields and is refused |
| `Validation.Month13IsInvalid` | 3.cpp:212-213 | `"2024-13-01"` parses but is refused because month 13 is out of range |
| `Validation.Jan15SortsFirst` | 3.cpp:134 | `"2024-01-15"` is below `"2024-1-011"` in string order, although its date is later |
| `InventoryBasic.YearOnlyFields` | 2.cpp:123 | `"2020"` converts its year alone, does not parse as a date, and sorts below the sentinel |
| `InventoryBasic.YearOnlyUseByIsOldest` | 2.cpp:120-131 | an item with use-by string `"2020"`, stored unchecked, is expired on 1 February 2024 with a defined test and is the oldest item of a one-item inventory |
| `InventoryBasic.YearOnlyUseByThisYearIsUndefined` | 2.cpp:125-126 | in 2024 the test on `"2024"` reaches the month, which was never converted, so it is not defined |
| `InventoryCategory.UnpaddedDateChosenAsOldest` | 3.cpp:124-137 | with use-by strings `"2024-1-011"` and `"2024-01-15"`, both accepted by `isValidDate`, and today 1 February 2024, both items are expired, the first is due earlier, and yet the scan settles on the second |
| `Validation.IsInteger` | 3.cpp:233-243 | true exactly when the input is non-empty and every character is a digit |
| `Validation.StringToInt` | 3.cpp:245-260 | the result is what the loop accumulates, `result * 10 + (c - '0')` for each character, negated after a leading `-`; the empty input gives 0 |
| `Validation.AccumulatedDigits` | 3.cpp:255-257 | on a string of digits the accumulation is the decimal value |
| `Validation.IntValueOfInteger` | 3.cpp:280-285 | on input that passes `isInteger`, `stringToInt` yields the decimal value |
| `Validation.MinusDigits` | 3.cpp:247-259 | a leading `-` negates the decimal value of any digit run that follows, leading zeros included |
| `Validation.IntValueOfToString` | 3.cpp:250-259 | `stringToInt` inverts `to_string`, so a leading `-` negates |

## Left out

- The clock. `time` and `localtime` (3.cpp:18-23, 3.cpp:118-122, 3.cpp:161-165, and the same lines in 2.cpp) are replaced by a `today` parameter. `displayExpiredItemNames` reads the clock again for every item, so a run across midnight could mix two days. The model uses one date for the whole scan.
- Printing. `cout` and `displayDetails` (3.cpp:62-69, 3.cpp:84-90) are replaced by returned values.
- The command-line loop. `main`, `getValidDate` and the reads from `cin` are interactive I/O and are not modelled. This includes the category-number switch inside `main`, which leaves the previous category in place on an invalid number. The shelf check before adding is captured by `Inventory.AddKeepsCapacity`.
- Memory management. `delete` in `removeItem` and the destructor have no counterpart in the model. Items are values, so the vector of pointers becomes a sequence of items.
- Inventory.InventoryManager.OldestItem: requires the expiry test to be defined for every item, that is, every field the short-circuit reaches was converted. Otherwise the source reads an uninitialised `int`, which is undefined behaviour, and the model says nothing about that case. Partial conversions whose test is defined are modelled. `3.cpp` only stores strings that pass `isValidDate`, and those always satisfy the requirement.
- Inventory.InventoryManager.ExpiredItemNames: requires the expiry test to be defined for every item, for the same reason.
- Validation.StringToInt: computes with unbounded integers, so C++ `int` overflow on long inputs is not modelled.
- Dates.ScanInt: reads digit runs of any length into an unbounded integer. The overflow behaviour of `sscanf` on out-of-range fields is not modelled.
- Dates.StrLess: compares characters by code, which is `std::string`'s `unsigned char` comparison when every character stands for a byte. A Dafny character of code 256 or above has no byte counterpart, and for such strings the model's order is not the source's.
- Validation.IsValidDate: `|date| == 10` counts characters, and the source's `length()` counts bytes. They agree when each character is one byte. Read as Unicode text they differ: `"2024-01-1é"` has 10 characters but 11 bytes in UTF-8, so the source refuses it. `"2024-1-1é"` has 9 characters but 10 bytes and parses to 1 January 2024, so the source accepts it.
- Validation.StringToInt: `input[i] - '0'` is taken on the character's code, 0 to 255 for a byte. Where `char` is signed, the source sees bytes 128 to 255 as -128 to -1, so on such non-ASCII input its result differs from the model's. On digits and `-` the two agree.
- Dates.IsSpace and Dates.IsDigit follow the "C" locale for ASCII characters. Locale-dependent classification is not modelled.
