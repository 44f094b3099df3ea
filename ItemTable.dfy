/**
  The "DB" sheet as a table of rows, and the pure parts of `ItemService`:
  the id scan of `findRowById`, the row decoder of `readAll`, and the rows
  that `create`, `createBatch`, `update` and `delete` write.

  Row 0 of the sheet is the header. A row is the list of cell texts the
  spreadsheet returns for it (trailing empty cells are omitted); column A is
  the id, B the name and C the quantity.
 */
module ItemTable {
  import opened Wrappers
  import opened Decimal

  type Row = seq<string>

  /** `com.crud.Sheets.model.Item`. */
  datatype Item = Item(id: Long, name: string, quantity: Int32)

  /** The exceptions of the service that are not I/O failures. */
  datatype ServiceError =
    | NotFound(id: Long)          // update of an id that no row holds
    | NumberFormat(input: string) // a quantity cell that is not an int

  /** Name given to a row that has no column B. */
  const MissingName: string := "Nome não disponível"

  /** The id a row holds in column A, if the cell parses as a `long`. */
  function IdCell(row: Row): Option<Long>
  {
    if |row| == 0 then None else ParseLong(row[0])
  }

  // ---------------------------------------------------------------- findRowById

  /** The scan of `findRowById` from list index `i` on: a 1-based sheet row, or -1. */
  function FindFrom(rows: seq<Row>, id: Long, i: nat): (r: int)
    ensures r == -1 || i + 1 <= r <= |rows|
    ensures r != -1 ==> IdCell(rows[r - 1]) == Some(id)
    ensures r != -1 ==> forall k :: i <= k < r - 1 ==> IdCell(rows[k]) != Some(id)
    ensures r == -1 ==> forall k :: i <= k < |rows| ==> IdCell(rows[k]) != Some(id)
    decreases |rows| - i
  {
    if i >= |rows| then -1
    else if IdCell(rows[i]) == Some(id) then i + 1
    else FindFrom(rows, id, i + 1)
  }

  /**
    The sheet row `findRowById` returns: the first data row (never the header)
    whose column A parses to `id`, or -1. Empty rows and rows whose column A is
    not a number are passed over.
   */
  function FindRow(rows: seq<Row>, id: Long): (r: int)
    ensures r == -1 || 2 <= r <= |rows|
    ensures r != -1 ==> IdCell(rows[r - 1]) == Some(id)
    ensures r != -1 ==> forall k :: 1 <= k < r - 1 ==> IdCell(rows[k]) != Some(id)
    ensures r == -1 <==> forall k :: 1 <= k < |rows| ==> IdCell(rows[k]) != Some(id)
  {
    FindFrom(rows, id, 1)
  }

  // -------------------------------------------------------------------- readAll

  /** What the `map` step of `readAll` makes of one data row. */
  datatype Decoded =
    | Dropped                  // empty row, or column A not a `long`
    | Parsed(item: Item)
    | BadQuantity(cell: string) // column C present but not an `int`: the exception escapes

  function DecodeRow(row: Row): Decoded
  {
    match IdCell(row)
    case None => Dropped
    case Some(id) =>
      var name := if |row| > 1 then row[1] else MissingName;
      if |row| > 2 then
        match ParseInt(row[2])
        case None => BadQuantity(row[2])
        case Some(q) => Parsed(Item(id, name, q))
      else Parsed(Item(id, name, 0))
  }

  /** The stream of `readAll` over the data rows, in order; the first bad quantity aborts it. */
  function DecodeRows(rows: seq<Row>): Result<seq<Item>, ServiceError>
    decreases |rows|
  {
    if rows == [] then Ok([])
    else
      match DecodeRow(rows[0])
      case Dropped => DecodeRows(rows[1..])
      case BadQuantity(c) => Err(NumberFormat(c))
      case Parsed(it) =>
        match DecodeRows(rows[1..])
        case Err(e) => Err(e)
        case Ok(rest) => Ok([it] + rest)
  }

  /** `readAll` on the rows of the sheet. */
  function ReadAll(values: seq<Row>): (r: Result<seq<Item>, ServiceError>)
    ensures |values| <= 1 ==> r == Ok([])
  {
    if |values| == 0 then Ok([]) else DecodeRows(values[1..])
  }

  /** The items a single row contributes when it does not abort the read. */
  function RowItems(row: Row): seq<Item>
  {
    if DecodeRow(row).Parsed? then [DecodeRow(row).item] else []
  }

  /** Number of rows whose column A parses as a `long`: those the decoder keeps. */
  function Survivors(rows: seq<Row>): nat
    decreases |rows|
  {
    if rows == [] then 0 else (if IdCell(rows[0]).Some? then 1 else 0) + Survivors(rows[1..])
  }

  /** Reading two blocks of rows one after the other. */
  function Chain(x: Result<seq<Item>, ServiceError>, y: Result<seq<Item>, ServiceError>): Result<seq<Item>, ServiceError>
  {
    if x.Err? then x else if y.Err? then y else Ok(x.value + y.value)
  }

  // ----------------------------------------------------------------- row writers

  /** The cells `[id, name, quantity]` that `create`, `createBatch` and `update` write. */
  function ItemRow(item: Item): (row: Row)
    ensures |row| == 3 && row[1] == item.name
    ensures DecodeRow(row) == Parsed(item)
  {
    LongRoundTrip(item.id);
    IntRoundTrip(item.quantity);
    [DecimalText(item.id), item.name, DecimalText(item.quantity)]
  }

  /** The row list `createBatch` builds, one row per item in input order. */
  function ItemRows(items: seq<Item>): (rows: seq<Row>)
    ensures |rows| == |items|
    ensures forall i :: 0 <= i < |items| ==> rows[i] == ItemRow(items[i])
    ensures DecodeRows(rows) == Ok(items)
    decreases |items|
  {
    if items == [] then []
    else
      var rest := ItemRows(items[1..]);
      assert ([ItemRow(items[0])] + rest)[1..] == rest;
      assert [items[0]] + items[1..] == items;
      [ItemRow(items[0])] + rest
  }

  /** A row after `update` overwrote its cells A..C; columns from D on are kept. */
  function WriteItem(row: Row, item: Item): (r: Row)
    ensures |r| == if |row| > 3 then |row| else 3
    ensures r[..3] == ItemRow(item)
    ensures forall k :: 3 <= k < |row| ==> r[k] == row[k]
    ensures DecodeRow(r) == Parsed(item)
  {
    var head := ItemRow(item);
    var r := head + (if |row| > 3 then row[3..] else []);
    assert r[..3] == head;
    r
  }

  /** A row after `delete` cleared its cells A..C; columns from D on are kept. */
  function ClearRow(row: Row): (r: Row)
    ensures |row| <= 3 ==> r == []
    ensures |row| > 3 ==> |r| == |row|
    ensures forall k :: 3 <= k < |row| ==> r[k] == row[k]
    ensures forall k :: 0 <= k < |r| && k < 3 ==> r[k] == ""
    ensures IdCell(r) == None && DecodeRow(r) == Dropped
  {
    if |row| <= 3 then [] else ["", "", ""] + row[3..]
  }

  // --------------------------------------------------------------------- lemmas

  /** Reading a sheet in two blocks: the first block's error wins, otherwise the items concatenate. */
  lemma {:induction false} DecodeRowsConcat(a: seq<Row>, b: seq<Row>)
    ensures DecodeRows(a + b) == Chain(DecodeRows(a), DecodeRows(b))
    decreases |a|
  {
    if a == [] {
      assert a + b == b;
      assert DecodeRows(b).Ok? ==> [] + DecodeRows(b).value == DecodeRows(b).value;
    } else {
      assert (a + b)[0] == a[0];
      assert (a + b)[1..] == a[1..] + b;
      DecodeRowsConcat(a[1..], b);
      match DecodeRow(a[0])
      case Dropped =>
      case BadQuantity(_) =>
      case Parsed(it) =>
        if DecodeRows(a[1..]).Ok? && DecodeRows(b).Ok? {
          assert [it] + (DecodeRows(a[1..]).value + DecodeRows(b).value)
              == ([it] + DecodeRows(a[1..]).value) + DecodeRows(b).value;
        }
    }
  }

  /** A successful read returns one item per row whose id parses. */
  lemma {:induction false} DecodeRowsCount(rows: seq<Row>)
    requires DecodeRows(rows).Ok?
    ensures |DecodeRows(rows).value| == Survivors(rows)
    decreases |rows|
  {
    if rows != [] {
      DecodeRowsCount(rows[1..]);
    }
  }

  /** A successful read of rows none of which holds `id` yields no item with that id. */
  lemma {:induction false} DecodeRowsWithoutId(rows: seq<Row>, id: Long)
    requires DecodeRows(rows).Ok?
    requires forall k :: 0 <= k < |rows| ==> IdCell(rows[k]) != Some(id)
    ensures forall j :: 0 <= j < |DecodeRows(rows).value| ==> DecodeRows(rows).value[j].id != id
    decreases |rows|
  {
    if rows != [] {
      var rest := rows[1..];
      forall k | 0 <= k < |rest| ensures IdCell(rest[k]) != Some(id) {
        assert rest[k] == rows[k + 1];
      }
      DecodeRowsWithoutId(rest, id);
    }
  }

  /**
    Where data row `k` lands in a successful `readAll`: the rows before it give
    the first `Survivors(rows[1..k])` items, then come its own item (if any) and
    the items of the rows after it.
   */
  lemma ReadAllAt(rows: seq<Row>, k: nat)
    requires 1 <= k < |rows| && ReadAll(rows).Ok?
    ensures DecodeRows(rows[1..k]).Ok? && DecodeRows(rows[k + 1..]).Ok?
    ensures !DecodeRow(rows[k]).BadQuantity?
    ensures |DecodeRows(rows[1..k]).value| == Survivors(rows[1..k])
    ensures ReadAll(rows).value
         == DecodeRows(rows[1..k]).value + RowItems(rows[k]) + DecodeRows(rows[k + 1..]).value
  {
    assert rows[1..] == rows[1..k] + ([rows[k]] + rows[k + 1..]);
    DecodeRowsConcat(rows[1..k], [rows[k]] + rows[k + 1..]);
    DecodeRowsConcat([rows[k]], rows[k + 1..]);
    assert ([rows[k]])[1..] == [];
    DecodeRowsCount(rows[1..k]);
  }

  /**
    What a successful `readAll` holds: exactly one item per data row whose
    column A parses, in sheet order (row `k`'s item sits after those of the
    surviving rows above it), with the name defaulting to `MissingName` when
    column B is absent and the quantity to 0 when column C is absent.
   */
  lemma ReadAllItemAt(rows: seq<Row>, k: nat)
    requires 1 <= k < |rows| && ReadAll(rows).Ok?
    requires IdCell(rows[k]).Some?
    ensures var s := ReadAll(rows).value;
            var row := rows[k];
            var p := Survivors(rows[1..k]);
            |s| == Survivors(rows[1..]) && p < |s| && (|row| > 2 ==> ParseInt(row[2]).Some?)
    ensures var s := ReadAll(rows).value;
            var row := rows[k];
            var p := Survivors(rows[1..k]);
            p < |s| && (|row| > 2 ==> ParseInt(row[2]).Some?) &&
            s[p] == Item(IdCell(row).value,
                         if |row| > 1 then row[1] else MissingName,
                         if |row| > 2 then ParseInt(row[2]).value else 0)
  {
    ReadAllAt(rows, k);
    DecodeRowsCount(rows[1..]);
    var s := ReadAll(rows).value;
    var a := DecodeRows(rows[1..k]).value;
    assert s == a + [DecodeRow(rows[k]).item] + DecodeRows(rows[k + 1..]).value;
    assert s[|a|] == DecodeRow(rows[k]).item;
  }

  /** Row `k` is the first one that aborts the decoder. */
  predicate FirstBadQuantity(rows: seq<Row>, k: nat)
  {
    k < |rows| && DecodeRow(rows[k]).BadQuantity? &&
    forall j :: 0 <= j < k ==> !DecodeRow(rows[j]).BadQuantity?
  }

  /** Any row with a bad quantity makes the whole read fail. */
  lemma {:induction false} BadRowFails(rows: seq<Row>, k: nat)
    requires k < |rows| && DecodeRow(rows[k]).BadQuantity?
    ensures DecodeRows(rows).Err?
    decreases k
  {
    if k > 0 {
      assert rows[1..][k - 1] == rows[k];
      BadRowFails(rows[1..], k - 1);
    }
  }

  /** A failed read names the quantity cell of the first row with a bad quantity. */
  lemma {:induction false} FailingRow(rows: seq<Row>) returns (k: nat)
    requires DecodeRows(rows).Err?
    ensures FirstBadQuantity(rows, k) && DecodeRows(rows).error == NumberFormat(rows[k][2])
    decreases |rows|
  {
    if DecodeRow(rows[0]).BadQuantity? {
      k := 0;
    } else {
      var rest := rows[1..];
      var k' := FailingRow(rest);
      k := k' + 1;
      assert rest[k'] == rows[k];
      forall j | 0 <= j < k ensures !DecodeRow(rows[j]).BadQuantity? {
        if j > 0 { assert rows[j] == rest[j - 1]; }
      }
    }
  }

  /**
    `readAll` fails exactly when some data row has a numeric id and a column C
    that is not an `int`; the exception carries the first such cell, since the
    rows are decoded in sheet order. A non-numeric quantity in a row whose id is
    not numeric is never looked at.
   */
  lemma ReadAllFails(rows: seq<Row>)
    ensures ReadAll(rows).Err? <==>
              exists k :: 1 <= k < |rows| && IdCell(rows[k]).Some? && |rows[k]| > 2 && ParseInt(rows[k][2]).None?
    ensures ReadAll(rows).Err? ==>
              exists k :: 1 <= k < |rows| && IdCell(rows[k]).Some? && |rows[k]| > 2 && ParseInt(rows[k][2]).None? &&
                ReadAll(rows).error == NumberFormat(rows[k][2]) &&
                forall j :: 1 <= j < k ==> !(IdCell(rows[j]).Some? && |rows[j]| > 2 && ParseInt(rows[j][2]).None?)
  {
    if |rows| > 0 {
      var data := rows[1..];
      if exists k :: 1 <= k < |rows| && IdCell(rows[k]).Some? && |rows[k]| > 2 && ParseInt(rows[k][2]).None? {
        var k :| 1 <= k < |rows| && IdCell(rows[k]).Some? && |rows[k]| > 2 && ParseInt(rows[k][2]).None?;
        assert data[k - 1] == rows[k];
        BadRowFails(data, k - 1);
      }
      if ReadAll(rows).Err? {
        var k := FailingRow(data);
        assert data[k] == rows[k + 1];
        forall j | 1 <= j < k + 1
          ensures !(IdCell(rows[j]).Some? && |rows[j]| > 2 && ParseInt(rows[j][2]).None?)
        {
          assert rows[j] == data[j - 1];
        }
      }
    }
  }

  /** Replacing data row `k`, which held an item, by a row that does not abort the read. */
  lemma ReadAllReplace(rows: seq<Row>, k: nat, row: Row)
    requires 1 <= k < |rows| && ReadAll(rows).Ok?
    requires IdCell(rows[k]).Some? && !DecodeRow(row).BadQuantity?
    ensures DecodeRow(rows[k]).Parsed?
    ensures var s := ReadAll(rows).value;
            var p := Survivors(rows[1..k]);
            p < |s| && s[p] == DecodeRow(rows[k]).item &&
            ReadAll(rows[k := row]) == Ok(s[..p] + RowItems(row) + s[p + 1..])
  {
    var rows' := rows[k := row];
    ReadAllAt(rows, k);
    assert rows'[1..] == rows[1..k] + ([row] + rows[k + 1..]);
    var a := DecodeRows(rows[1..k]);
    var c := DecodeRows(rows[k + 1..]);
    DecodeSplit(rows[1..k], row, rows[k + 1..]);
    var s := ReadAll(rows).value;
    var p := Survivors(rows[1..k]);
    assert s == a.value + [DecodeRow(rows[k]).item] + c.value;
    assert s[..p] == a.value && s[p + 1..] == c.value;
  }

  /** Decoding a single row. */
  lemma DecodeSingle(row: Row)
    ensures DecodeRows([row]) == if DecodeRow(row).BadQuantity? then Err(NumberFormat(DecodeRow(row).cell)) else Ok(RowItems(row))
  {
    assert [row][0] == row && [row][1..] == [];
    if DecodeRow(row).Parsed? {
      assert [DecodeRow(row).item] + [] == RowItems(row);
    }
  }

  /** A row that does not abort the read, put in front of rows that read successfully. */
  lemma DecodeCons(row: Row, c: seq<Row>)
    requires DecodeRows(c).Ok? && !DecodeRow(row).BadQuantity?
    ensures DecodeRows([row] + c) == Ok(RowItems(row) + DecodeRows(c).value)
  {
    DecodeSingle(row);
    DecodeRowsConcat([row], c);
  }

  /** Decoding rows around one middle row that does not abort the read. */
  lemma DecodeSplit(a: seq<Row>, row: Row, c: seq<Row>)
    requires DecodeRows(a).Ok? && DecodeRows(c).Ok? && !DecodeRow(row).BadQuantity?
    ensures DecodeRows(a + ([row] + c)) == Ok(DecodeRows(a).value + RowItems(row) + DecodeRows(c).value)
  {
    var x, y, ri := DecodeRows(a).value, DecodeRows(c).value, RowItems(row);
    DecodeCons(row, c);
    DecodeRowsConcat(a, [row] + c);
    assert x + (ri + y) == x + ri + y;
  }

  /**
    `findRowById` and `readAll` agree: on a sheet that reads without error, the
    row found for `id` holds the first item with that id, at position
    `Survivors` of the rows above it; and -1 means no item has that id.
   */
  lemma FindRowAgreesWithReadAll(rows: seq<Row>, id: Long)
    requires ReadAll(rows).Ok?
    ensures var s := ReadAll(rows).value;
            FindRow(rows, id) == -1 <==> forall j :: 0 <= j < |s| ==> s[j].id != id
    ensures var s := ReadAll(rows).value;
            var r := FindRow(rows, id);
            r != -1 ==>
              var p := Survivors(rows[1..r - 1]);
              p < |s| && s[p].id == id && forall j :: 0 <= j < p ==> s[j].id != id
  {
    var s := ReadAll(rows).value;
    var r := FindRow(rows, id);
    if r == -1 {
      if |rows| > 0 {
        var data := rows[1..];
        forall k | 0 <= k < |data| ensures IdCell(data[k]) != Some(id) {
          assert data[k] == rows[k + 1];
        }
        DecodeRowsWithoutId(data, id);
      }
    } else {
      ReadAllAt(rows, r - 1);
      var above := rows[1..r - 1];
      var a := DecodeRows(above).value;
      forall k | 0 <= k < |above| ensures IdCell(above[k]) != Some(id) {
        assert above[k] == rows[k + 1];
      }
      DecodeRowsWithoutId(above, id);
      assert s == a + RowItems(rows[r - 1]) + DecodeRows(rows[r..]).value;
      assert s[|a|] == DecodeRow(rows[r - 1]).item;
      assert forall j :: 0 <= j < |a| ==> s[j] == a[j];
    }
  }

  /** `readAll` after `createBatch`: the new items follow the old ones, in input order. */
  lemma ReadAllAfterAppend(rows: seq<Row>, items: seq<Item>)
    requires |rows| >= 1
    ensures ReadAll(rows).Ok? ==> ReadAll(rows + ItemRows(items)) == Ok(ReadAll(rows).value + items)
    ensures ReadAll(rows).Err? ==> ReadAll(rows + ItemRows(items)) == ReadAll(rows)
  {
    var added := ItemRows(items);
    assert (rows + added)[1..] == rows[1..] + added;
    assert DecodeRows(added) == Ok(items);
    DecodeRowsConcat(rows[1..], added);
  }

  /** `readAll` after `create`: the new item comes last. */
  lemma ReadAllAfterCreate(rows: seq<Row>, item: Item)
    requires |rows| >= 1
    ensures ReadAll(rows).Ok? ==> ReadAll(rows + [ItemRow(item)]) == Ok(ReadAll(rows).value + [item])
    ensures ReadAll(rows).Err? ==> ReadAll(rows + [ItemRow(item)]) == ReadAll(rows)
  {
    assert ItemRows([item]) == [ItemRow(item)];
    ReadAllAfterAppend(rows, [item]);
  }

  /**
    On a sheet with no header, the first created row takes the header's place,
    so neither `readAll` nor `findRowById` ever sees it.
   */
  lemma CreateOnEmptySheet(item: Item)
    ensures ReadAll([ItemRow(item)]) == Ok([])
    ensures FindRow([ItemRow(item)], item.id) == -1
  {
  }

  /**
    `readAll` after `update`: the item of the found row is replaced, in the same
    position, by the item of the request body; every other item is kept.
   */
  lemma ReadAllAfterUpdate(rows: seq<Row>, id: Long, item: Item)
    requires FindRow(rows, id) != -1 && ReadAll(rows).Ok?
    ensures var s := ReadAll(rows).value;
            var r := FindRow(rows, id);
            var p := Survivors(rows[1..r - 1]);
            p < |s| && s[p].id == id &&
            ReadAll(rows[r - 1 := WriteItem(rows[r - 1], item)]) == Ok(s[..p] + [item] + s[p + 1..])
  {
    var r := FindRow(rows, id);
    ReadAllReplace(rows, r - 1, WriteItem(rows[r - 1], item));
  }

  /**
    `readAll` after `delete`: the item of the found row disappears; every other
    item is kept, in order.
   */
  lemma ReadAllAfterDelete(rows: seq<Row>, id: Long)
    requires FindRow(rows, id) != -1 && ReadAll(rows).Ok?
    ensures var s := ReadAll(rows).value;
            var r := FindRow(rows, id);
            var p := Survivors(rows[1..r - 1]);
            p < |s| && s[p].id == id &&
            ReadAll(rows[r - 1 := ClearRow(rows[r - 1])]) == Ok(s[..p] + s[p + 1..])
  {
    var r := FindRow(rows, id);
    var cleared := ClearRow(rows[r - 1]);
    assert RowItems(cleared) == [];
    ReadAllReplace(rows, r - 1, cleared);
    var s := ReadAll(rows).value;
    var p := Survivors(rows[1..r - 1]);
    assert s[..p] + [] + s[p + 1..] == s[..p] + s[p + 1..];
  }

  /** Appended rows never shadow an id that is already found: the first match wins. */
  lemma FindRowAfterAppend(rows: seq<Row>, extra: seq<Row>, id: Long)
    ensures FindRow(rows, id) != -1 ==> FindRow(rows + extra, id) == FindRow(rows, id)
    ensures FindRow(rows, id) == -1 ==> FindRow(rows + extra, id) == -1 || FindRow(rows + extra, id) > |rows|
  {
    var r := FindRow(rows, id);
    if r != -1 {
      assert (rows + extra)[r - 1] == rows[r - 1];
    }
  }

  /**
    After `update`, the row is found again under the body's id only: if that id
    differs from the one searched for, a later duplicate (or nothing) is found.
   */
  lemma FindRowAfterUpdate(rows: seq<Row>, id: Long, item: Item)
    requires FindRow(rows, id) != -1
    ensures var r := FindRow(rows, id);
            var r' := FindRow(rows[r - 1 := WriteItem(rows[r - 1], item)], id);
            (item.id == id ==> r' == r) && (item.id != id ==> r' == -1 || r' > r)
  {
    var r := FindRow(rows, id);
    var rows' := rows[r - 1 := WriteItem(rows[r - 1], item)];
    assert IdCell(rows'[r - 1]) == Some(item.id);
  }

  /** After `delete`, the cleared row is never found again: only a later duplicate can be. */
  lemma FindRowAfterDelete(rows: seq<Row>, id: Long)
    requires FindRow(rows, id) != -1
    ensures var r := FindRow(rows, id);
            var r' := FindRow(rows[r - 1 := ClearRow(rows[r - 1])], id);
            r' == -1 || r' > r
  {
    var r := FindRow(rows, id);
    assert IdCell(rows[r - 1 := ClearRow(rows[r - 1])][r - 1]) == None;
  }
}
