# ItemService as a verified table model

This project models `ItemService`, the Spring service that keeps `Item`
records (`id`, `name`, `quantity`) in a Google spreadsheet. The "DB" tab acts
as a table: row 1 is a header, and each later row holds id, name and quantity
in columns A, B and C. The "Logs" tab is an append-only audit trail of
`[timestamp, action, details]` rows.

Here the spreadsheet is held in memory. `ItemService.db` is the DB tab as a
sequence of rows, and each row is the list of cell texts the spreadsheet
returns for it. `ItemService.logs` is the Logs tab. The service's spreadsheet
calls become operations on these sequences:

- `get` reads `db`.
- `append` concatenates rows at the end.
- `update` of `A r:C r` overwrites cells A..C of one row.
- `clear` of `A r:C r` blanks those three cells.

Modules:

- `Wrappers`: `Option` and `Result`. The error half of a `Result` stands for
  the exception the Java code throws.
- `Decimal`: `Long.parseLong` and `Integer.parseInt` as a decimal parser with
  the 64-bit and 32-bit range checks. Also the canonical decimal text that a
  written number reads back as, and the round trips between the two.
- `ItemTable`: the pure parts of the service and the lemmas about them.
  - `FindRow` is the scan of `findRowById`.
  - `ReadAll` is the stream pipeline of `readAll`.
  - `ItemRow`, `ItemRows`, `WriteItem` and `ClearRow` are the rows that the
    mutating operations write.
- `Service`: the class `ItemService` with the `db` and `logs` state.
  - `FindRowById` is the imperative loop.
  - `Create`, `CreateBatch`, `Update`, `Delete` and `LogAction` are the
    mutating operations.

A sheet with no header row behaves unexpectedly under this code. The first
row ever created takes the header's place, so `readAll` and `findRowById`
never see it (`CreateOnEmptySheet`).

## Model

| member | source | states |
|---|---|---|
| Decimal.ParseLong | src/main/java/com/crud/Sheets/service/ItemService.java:126 | a cell parses to a `long` only with its decimal value (optional sign, then digits), and fails (the NumberFormatException) exactly when the text is not decimal or the value lies outside the 64-bit range |
| Decimal.ParseInt | src/main/java/com/crud/Sheets/service/ItemService.java:62 | a quantity cell parses to an `int` only with its decimal value, and fails exactly when the text is not decimal or the value lies outside the 32-bit range |
| Decimal.NatText | src/main/java/com/crud/Sheets/service/ItemService.java:31 | the digits written for a natural number read back as that number, with no leading zero |
| Decimal.DecimalText | src/main/java/com/crud/Sheets/service/ItemService.java:31 | the text written for any integer (`Long.toString` form) parses back to that integer |
| Decimal.CanonicalRoundTrip | src/main/java/com/crud/Sheets/service/ItemService.java:56 | a canonical decimal cell (no `+`, no leading zero, no `-0`) parses, and writing the parsed number back gives the same text |
| Decimal.LongRoundTrip | src/main/java/com/crud/Sheets/service/ItemService.java:126 | an id written as text reads back as the same `long` |
| Decimal.IntRoundTrip | src/main/java/com/crud/Sheets/service/ItemService.java:62 | a quantity written as text reads back as the same `int` |
| ItemTable.FindFrom | src/main/java/com/crud/Sheets/service/ItemService.java:122-136 | from list index `i` on, returns -1 or the 1-based row of the first row whose column A parses to `id`, and no row before it matches |
| ItemTable.FindRow | src/main/java/com/crud/Sheets/service/ItemService.java:114-139 | returns -1 or a sheet row in `2..|rows|`, never the header; a found row's column A parses to `id` and no earlier data row's does; -1 exactly when no data row's does; empty and non-numeric rows never match |
| Service.ItemService.FindRowById | src/main/java/com/crud/Sheets/service/ItemService.java:114-139 | the index loop from 1 with its early return returns the row `FindRow` specifies |
| ItemTable.ReadAll | src/main/java/com/crud/Sheets/service/ItemService.java:44-47 | an empty sheet, or one holding only the header, reads as no items |
| ItemTable.ReadAllItemAt | src/main/java/com/crud/Sheets/service/ItemService.java:49-66 | a successful read has one item per data row whose id parses, in sheet order; the item of row `k` sits after those of the surviving rows above it; name defaults to "Nome não disponível" without column B, quantity to 0 without column C |
| ItemTable.ReadAllFails | src/main/java/com/crud/Sheets/service/ItemService.java:55-62 | the read fails exactly when some data row has a numeric id and a column C that is not an `int`; the error carries the first such cell in sheet order |
| ItemTable.BadRowFails | src/main/java/com/crud/Sheets/service/ItemService.java:62 | one row with a numeric id and a bad quantity makes the whole read fail |
| ItemTable.FailingRow | src/main/java/com/crud/Sheets/service/ItemService.java:49-66 | a failed decode names the quantity cell of the first row with a bad quantity |
| ItemTable.DecodeRowsConcat | src/main/java/com/crud/Sheets/service/ItemService.java:49-66 | decoding two blocks of rows: the first block's error wins, otherwise the item lists concatenate in order |
| ItemTable.DecodeRowsCount | src/main/java/com/crud/Sheets/service/ItemService.java:51-65 | a successful decode yields exactly as many items as rows whose id parses |
| ItemTable.DecodeRowsWithoutId | src/main/java/com/crud/Sheets/service/ItemService.java:49-66 | rows none of which holds `id` decode to items none of which has that id |
| ItemTable.ReadAllAt | src/main/java/com/crud/Sheets/service/ItemService.java:49-66 | a successful read splits at any data row into the items above it, that row's item, and the items below it |
| ItemTable.DecodeSplit | src/main/java/com/crud/Sheets/service/ItemService.java:49-66 | decoding rows around one row that does not fail gives the items above, that row's item, then the items below |
| ItemTable.ReadAllReplace | src/main/java/com/crud/Sheets/service/ItemService.java:49-66 | replacing one item row by a row that does not fail replaces that item in place and keeps all other items |
| ItemTable.FindRowAgreesWithReadAll | src/main/java/com/crud/Sheets/service/ItemService.java:122-138 | on a sheet that reads without error, `findRowById` finds -1 exactly when no read item has the id; otherwise its row holds the first read item with that id |
| ItemTable.ItemRow | src/main/java/com/crud/Sheets/service/ItemService.java:30-31 | the row `[id, name, quantity]` that `create` writes decodes back to the same item |
| ItemTable.ItemRows | src/main/java/com/crud/Sheets/service/ItemService.java:96-104 | `createBatch` builds one row per item in input order, and the rows decode back to exactly the items |
| ItemTable.WriteItem | src/main/java/com/crud/Sheets/service/ItemService.java:74-76 | the row after the A..C overwrite holds the item's three cells, keeps columns from D on, and decodes to the item |
| ItemTable.ClearRow | src/main/java/com/crud/Sheets/service/ItemService.java:88-90 | the row after clearing A..C is blank in those cells, keeps columns from D on, and is dropped by the decoder |
| ItemTable.ReadAllAfterAppend | src/main/java/com/crud/Sheets/service/ItemService.java:95-112 | after `createBatch` a successful read gives the old items followed by the new ones in input order; a failing read still fails the same way |
| ItemTable.ReadAllAfterCreate | src/main/java/com/crud/Sheets/service/ItemService.java:29-37 | after `create` a successful read gives the old items followed by the new item |
| ItemTable.CreateOnEmptySheet | src/main/java/com/crud/Sheets/service/ItemService.java:29-37 | on a sheet with no header the created row becomes the header and neither `readAll` nor `findRowById` sees it |
| ItemTable.ReadAllAfterUpdate | src/main/java/com/crud/Sheets/service/ItemService.java:69-82 | after a successful `update` the found row's item is replaced, at the same position, by the body's item, and all other items are kept |
| ItemTable.ReadAllAfterDelete | src/main/java/com/crud/Sheets/service/ItemService.java:85-93 | after `delete` of a found id that id's first item disappears and all other items keep their order |
| ItemTable.FindRowAfterAppend | src/main/java/com/crud/Sheets/service/ItemService.java:29-37 | appending rows (there is no duplicate check) never changes a row already found; a new match can only be among the appended rows |
| ItemTable.FindRowAfterUpdate | src/main/java/com/crud/Sheets/service/ItemService.java:69-82 | after `update` the row is found again under the path id only if the body carries the same id; otherwise a later duplicate or nothing is found |
| ItemTable.FindRowAfterDelete | src/main/java/com/crud/Sheets/service/ItemService.java:85-93 | after `delete` the cleared row is never found again; only a later duplicate can be |
| Service.ItemService.LogAction | src/main/java/com/crud/Sheets/service/ItemService.java:141-151 | appends exactly one `[timestamp, action, details]` entry to the Logs sheet and changes nothing else |
| Service.ItemService.Create | src/main/java/com/crud/Sheets/service/ItemService.java:29-37 | appends the item's row after the existing rows, keeps every existing row, and logs exactly one CREATE entry |
| Service.ItemService.CreateBatch | src/main/java/com/crud/Sheets/service/ItemService.java:95-113 | appends one row per item in input order after the existing rows and logs exactly one CREATE_BATCH entry "n itens criados.", also for n = 0 |
| Service.ItemService.Update | src/main/java/com/crud/Sheets/service/ItemService.java:69-83 | an unknown id is a NotFound error with neither sheet changed; otherwise only cells A..C of the found row change, to the body's id, name and quantity, the header and row count are kept, and exactly one UPDATE entry is logged |
| Service.ItemService.Delete | src/main/java/com/crud/Sheets/service/ItemService.java:85-93 | a found id has cells A..C of its row cleared in place with no row moved and exactly one DELETE entry logged; an unknown id changes nothing and logs nothing |

## Left out

- Sheets API I/O (`execute()`, transport errors, `IOException`) and the credential and client setup in `GoogleSheetsConfig` are not modelled. Every call is assumed to succeed.
- The REST controller `SheetsController` is not modelled: it only forwards to the service and returns fixed strings.
- The race between `findRowById` and the later write or clear is not modelled. Concurrent callers are outside a sequential model.
- The log timestamp is an input (`now`) rather than the wall clock formatted as `yyyy-MM-dd HH:mm:ss`.
- A1 range strings and the `RAW` input option are not modelled. Writes are index operations on `db`.
- Sheets' "append after the last row of the table" is modelled as appending at the end of `db`. When the last rows have been cleared, Sheets would reuse them instead.
- Numbers written to cells are modelled as their canonical decimal text. Spreadsheet number cells hold doubles and display them through a number format. Ids beyond 2^53 and formats such as digit grouping are not modelled.
- Decimal.ParseLong: accepts ASCII digits only. Java's `Character.digit` also accepts other Unicode decimal digits.
- Decimal.ParseInt: accepts ASCII digits only, for the same reason.
- Java `null`s are not modelled. A request body with a null id or name would make `List.of` throw in `create` and `update`, and a null `values` from the API is modelled as an empty sheet.
- The log details for CREATE and UPDATE use Lombok's `@Data` `toString` format, `Item(id=…, name=…, quantity=…)` (`Service.ItemText`). That code is generated, so its exact text is not in the repository.
- Service.ItemService.FindRowById: the loop index is a Java `int`. Its overflow beyond 2^31 rows is not modelled, since a sheet cannot hold that many rows.
