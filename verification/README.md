# Electricity billing ledger — a Dafny model

A model of the customer ledger behind the Electricity Billing System window
(`ElectricityBillingGUI`). The window keeps an ordered list of `User`
records (name, meter number, units consumed). Four buttons act on it:

- **Add User** appends a record once the units field parses.
- **Display Users** lists the records, or says "No users found!".
- **Generate Bill** bills the first record with the meter number at Rs. 5 per unit.
- **Delete User** removes every record with the meter number.

The whole list is written to a snapshot file after each successful add or
delete. It is read back once, when the window opens.

Modules:

- `Wrappers` (`wrappers.dfy`): the `Option` type.
- `JavaText` (`java_text.dfy`): Java's `String.trim` is written as its two
  index loops. It sits under the search-field guard that the bill and delete
  buttons share.
- `CustomerLedger` (`customer_ledger.dfy`): the `User` record and the ledger.
  It covers first-match lookup (`FindIndex`, `Find`, and the loop
  `ScanForMeter`), remove-all deletion (`Remove`, `Delete`, and the loop
  `RemoveIf`) and the flat-rate `Bill`, with lemmas on order, uniqueness
  and duplicates.
- `BillingApp` (`billing_app.dfy`): each button handler is a pure function.
  It returns the list it leaves, the message it shows and whether it calls
  `saveUsers`. A `Session` pairs the list with the snapshot file, and lemmas
  relate the buttons to one another.

Modelling choices:

- Java's `double` is `real`, so `units * 5.0` is exact.
- `Double.parseDouble` is an input of type `Option<real>`. `None` means it threw.
- The snapshot file is reduced to what `loadUsers` reads back from it
  (`Option<Ledger>`). `None` means the file is missing or cannot be read.
- The outcome of each write is a parameter (`WriteResult`).
- Add stores the meter number exactly as typed, while bill and delete trim the search text. A record whose meter number has a blank at either end can therefore never be billed or deleted; `UntrimmedRecordUnreachable` states this.
- Delete reports only whether something was removed, as `removeIf` does. It does not report how many records went; `CountWithMeter` gives that count for the proofs.

## Model

| member | source | states |
|---|---|---|
| `JavaText.Trim` | ElectricityBillingGUI.java:162 | the trimmed search text is empty exactly when every character is at most U+0020; otherwise it starts and ends with a character above U+0020 |
| `JavaText.TrimDecomposes` | ElectricityBillingGUI.java:162 | the search text is a blank prefix, then the trimmed text, then a blank suffix |
| `JavaText.TrimStripsExactlyBlankEnds` | ElectricityBillingGUI.java:182 | trimming any blank-padded text whose middle has non-blank ends returns exactly that middle, so trimming removes nothing else |
| `JavaText.KeyTrimsToItself` | ElectricityBillingGUI.java:182 | a meter number with no blank at either end is left as typed |
| `JavaText.TrimIdempotent` | ElectricityBillingGUI.java:162 | trimming already-trimmed text changes nothing |
| `JavaText.Query` | ElectricityBillingGUI.java:162-167 | the guard rejects the search text exactly when it is blank throughout; an accepted key has non-blank ends |
| `JavaText.QueryIgnoresPadding` | ElectricityBillingGUI.java:182-187 | search text with blanks around a key is accepted and searches for the bare key |
| `CustomerLedger.CountWithMeter` | ElectricityBillingGUI.java:189 | the number of records with a meter number is zero exactly when none has it |
| `CustomerLedger.FindIndex` | ElectricityBillingGUI.java:169-175 | the index found holds the meter number and no earlier index does; nothing is found exactly when no record has it |
| `CustomerLedger.Find` | ElectricityBillingGUI.java:169-177 | the record found has the meter number and sits at a position before which no record has it; "not found" exactly when no record has it |
| `CustomerLedger.ScanForMeter` | ElectricityBillingGUI.java:169-177 | the for-each loop returns the first record with an exactly equal meter number, or not-found exactly when there is none |
| `CustomerLedger.FindCons` | ElectricityBillingGUI.java:169-175 | the scan stops at the front record when it matches and otherwise continues past it |
| `CustomerLedger.Remove` | ElectricityBillingGUI.java:189 | no record with the meter number survives; the survivors keep their order (a subsequence); the length drops by exactly the number of matches; with no match the list is unchanged |
| `CustomerLedger.Delete` | ElectricityBillingGUI.java:189 | `removeIf` reports a removal exactly when some record had the meter number, and leaves the list identical when none did |
| `CustomerLedger.RemoveIf` | ElectricityBillingGUI.java:189 | one pass keeping the non-matching records yields the same list and flag as `Remove`/`Delete` |
| `CustomerLedger.Bill` | ElectricityBillingGUI.java:171 | the bill is 0 for 0 units, non-negative for non-negative units, and divided by the rate 5.0 gives back the units |
| `CustomerLedger.BillMonotone` | ElectricityBillingGUI.java:171 | more units never give a smaller bill |
| `CustomerLedger.BillAdditive` | ElectricityBillingGUI.java:171 | the bill is linear in the units: no tiers and no fixed charge |
| `CustomerLedger.RemoveDistributes` | ElectricityBillingGUI.java:189 | deleting from a concatenation is deleting from each part, so relative order is preserved |
| `CustomerLedger.RemoveKeepsOthers` | ElectricityBillingGUI.java:189 | every record with a different meter number survives deletion |
| `CustomerLedger.SubsequenceWithoutMeterBound` | ElectricityBillingGUI.java:189 | an order-preserving selection free of the meter number is no longer than the count of other records |
| `CustomerLedger.RemoveIsDetermined` | ElectricityBillingGUI.java:189 | any order-preserving selection without the meter number that keeps as many records as there are non-matching ones is exactly the deletion result |
| `CustomerLedger.RemoveIdempotent` | ElectricityBillingGUI.java:189 | deleting the same meter number twice equals deleting it once |
| `CustomerLedger.RemoveLeavesOtherLookups` | ElectricityBillingGUI.java:169-189 | deleting one meter number does not change which record the bill button finds for any other meter number |
| `CustomerLedger.FindAfterAppend` | ElectricityBillingGUI.java:137-177 | after an append, an existing first match stays the first match; otherwise the appended record is found when its meter matches, and nothing is found when it does not |
| `CustomerLedger.CountAfterAppend` | ElectricityBillingGUI.java:137 | appending counts once more towards the new record's meter number, with no uniqueness check |
| `CustomerLedger.DuplicateShadowedButDeletedTogether` | ElectricityBillingGUI.java:137-189 | with a repeated meter number, the bill button keeps finding the older record while delete removes old and new together |
| `BillingApp.AddUser` | ElectricityBillingGUI.java:127-143 | unparsed units: list unchanged, no save, "Enter valid units!"; parsed units: length grows by one, earlier records unchanged and in order, new record last, save requested |
| `BillingApp.DisplayUsers` | ElectricityBillingGUI.java:145-158 | the "No users found!" sentinel appears exactly when the list is empty; otherwise the whole list in insertion order |
| `BillingApp.GenerateBill` | ElectricityBillingGUI.java:161-178 | blank search text is refused; "User not found!" exactly when no record has the trimmed meter number; otherwise the first such record is billed at units × 5.0 |
| `BillingApp.DeleteUser` | ElectricityBillingGUI.java:181-197 | blank search text is refused with the list unchanged; otherwise all matches are removed; a save (and "User deleted successfully!") happens exactly when something was removed, and a non-blank search that removes nothing replies "User not found!" with the list unchanged |
| `BillingApp.Handle` | ElectricityBillingGUI.java:93-116 | a click that saves nothing leaves the list unchanged; only add and delete ever save |
| `BillingApp.LoadUsers` | ElectricityBillingGUI.java:209-215 | a missing or unreadable file yields the empty list; a readable one yields its list |
| `BillingApp.SaveUsers` | ElectricityBillingGUI.java:200-206 | a successful write loads back as exactly the saved list; a failed open leaves the old file; a failed write leaves a file that loads as empty |
| `BillingApp.Start` | ElectricityBillingGUI.java:77 | right after loading, memory and file agree |
| `BillingApp.Step` | ElectricityBillingGUI.java:127-197 | a click that does not save leaves list and file untouched; one that saves with a successful write leaves file and memory in agreement |
| `BillingApp.RunStaysInSync` | ElectricityBillingGUI.java:200-215 | if every write succeeds, a restart after any run of clicks reloads exactly the list in memory |
| `BillingApp.FailedSaveDiverges` | ElectricityBillingGUI.java:200-206 | a failed save is not rolled back: memory holds the added record while a restart would load none |
| `BillingApp.BillFindsIffDeleteRemoves` | ElectricityBillingGUI.java:161-197 | the bill button bills a record exactly when the delete button would remove one |
| `BillingApp.NoBillAfterDelete` | ElectricityBillingGUI.java:161-197 | after delete with non-blank search text, billing the same text gives "User not found!" |
| `BillingApp.BillAfterAdd` | ElectricityBillingGUI.java:127-178 | billing a just-added meter number as typed bills the new record only when that meter number is non-empty, is its own trimmed form and was new; otherwise the reply is what it was before the add |
| `BillingApp.DeleteAfterAdd` | ElectricityBillingGUI.java:127-197 | deleting a just-added meter number as typed: blank text is refused; a meter number that is its own trimmed form removes the new record with every older one and saves; a padded one removes only the older records with the trimmed key, keeping the new record |
| `BillingApp.UntrimmedRecordUnreachable` | ElectricityBillingGUI.java:129-189 | a record whose meter number has a blank at an end is never the billed record and survives every delete, since add stores the meter number as typed while searches trim |
| `BillingApp.TwoCustomerSession` | ElectricityBillingGUI.java:127-197 | Alice (M1, 100 units) and Bob (M2, 0 units) are listed in order; M1 bills 500.0; deleting " M2 " leaves Alice alone; M2 is then not found |

## Left out

- Swing presentation: frames, labels, text fields, the "Clear Screen" button, clearing the form after an add, and the splash screen with its 2-second timer (ElectricityBillingGUI.java:24-60, 70-124). These are layout and event wiring.
- Java object serialisation in `saveUsers`/`loadUsers`. The file is only what `loadUsers` can read back, and each write's success or failure is an input. A failed save ends in one of two ways: the open failed and the old file stays, or the write failed and left a truncated, unreadable file. A failure on close comes after the full write and counts as a successful write. The printed stack trace is not modelled.
- `Double.parseDouble` is not modelled. Its result is an input of type `Option<real>`.
- AddUser: uses `real` for `double`. NaN, infinities, rounding and negative zero are not modelled, though `parseDouble` accepts "NaN" and "Infinity".
- Bill: exact over `real`. The `double` product can round, and rounding is not modelled.
- A snapshot file that deserialises to something other than a user list makes the cast in `loadUsers` throw an uncaught `ClassCastException`, and the window never opens (ElectricityBillingGUI.java:211-212). The `Option<Ledger>` snapshot cannot represent such a file.
- Rendering the bill amount and the user listing as text (ElectricityBillingGUI.java:153-155, 172). A reply carries the record and the amount, not the formatted string.
- Java strings are sequences of UTF-16 code units. Here they are Dafny `char` sequences; `String.trim` and `String.equals` only compare single characters, so the two agree.
