/**
  `ItemService` with the two sheets it writes held in memory: `db` is the "DB"
  sheet (row 0 the header) and `logs` the "Logs" sheet. Every spreadsheet call
  becomes an operation on these sequences; the wall-clock timestamp of a log
  entry is the parameter `now`.
 */
module Service {
  import opened Wrappers
  import opened Decimal
  import opened ItemTable

  datatype Action = Create | Update | Delete | CreateBatch
  {
    /** The text written in the action column of the "Logs" sheet. */
    function Name(): string
    {
      match this
      case Create => "CREATE"
      case Update => "UPDATE"
      case Delete => "DELETE"
      case CreateBatch => "CREATE_BATCH"
    }
  }

  /** One row `[timestamp, action, details]` of the "Logs" sheet. */
  datatype LogEntry = LogEntry(timestamp: string, action: Action, details: string)

  /** The text Lombok's generated `Item.toString()` gives. */
  function ItemText(item: Item): string
  {
    "Item(id=" + DecimalText(item.id) + ", name=" + item.name + ", quantity=" + DecimalText(item.quantity) + ")"
  }

  class ItemService {
    var db: seq<Row>
    var logs: seq<LogEntry>

    constructor (rows: seq<Row>, entries: seq<LogEntry>)
      ensures db == rows && logs == entries
    {
      db := rows;
      logs := entries;
    }

    /**
      `findRowById`: the index loop from 1 that returns `i + 1` at the first row
      whose column A parses to `id`, and passes over empty and non-numeric rows.
     */
    method FindRowById(id: Long) returns (r: int)
      ensures r == FindRow(db, id)
    {
      var i := 1;
      while i < |db|
        invariant 1 <= i
        invariant FindFrom(db, id, i) == FindRow(db, id)
      {
        if |db[i]| != 0 {
          match ParseLong(db[i][0])
          case Some(cellId) =>
            if cellId == id {
              return i + 1;
            }
          case None =>
            // NumberFormatException: the row is passed over
        }
        i := i + 1;
      }
      return -1;
    }

    /** `logAction`: appends one entry to the "Logs" sheet and touches nothing else. */
    method LogAction(action: Action, details: string, now: string)
      modifies this`logs
      ensures logs == old(logs) + [LogEntry(now, action, details)]
    {
      logs := logs + [LogEntry(now, action, details)];
    }

    /** `create`: appends the item's row after the existing rows and logs CREATE. */
    method Create(item: Item, now: string)
      modifies this
      ensures db == old(db) + [ItemRow(item)]
      ensures logs == old(logs) + [LogEntry(now, Action.Create, "Item criado: " + ItemText(item))]
    {
      db := db + [ItemRow(item)];
      LogAction(Action.Create, "Item criado: " + ItemText(item), now);
    }

    /**
      `createBatch`: appends one row per item, in input order, in a single
      append, then logs one CREATE_BATCH entry with the count, even for none.
     */
    method CreateBatch(items: seq<Item>, now: string)
      modifies this
      ensures db == old(db) + ItemRows(items)
      ensures logs == old(logs) + [LogEntry(now, Action.CreateBatch, DecimalText(|items|) + " itens criados.")]
    {
      db := db + ItemRows(items);
      LogAction(Action.CreateBatch, DecimalText(|items|) + " itens criados.", now);
    }

    /**
      `update`: an unknown id is an error and changes neither sheet; otherwise
      cells A..C of the found row get the body's id, name and quantity (the id
      comes from the body, not from the path), no other row changes, and one
      UPDATE entry is logged.
     */
    method Update(id: Long, item: Item, now: string) returns (res: Result<(), ServiceError>)
      modifies this
      ensures res.Err? <==> FindRow(old(db), id) == -1
      ensures res.Err? ==> res.error == NotFound(id) && db == old(db) && logs == old(logs)
      ensures res.Ok? ==>
                var r := FindRow(old(db), id);
                db == old(db)[r - 1 := WriteItem(old(db)[r - 1], item)] &&
                logs == old(logs) + [LogEntry(now, Action.Update, "Item atualizado: " + ItemText(item))]
      ensures |db| == |old(db)| && (|db| > 0 ==> db[0] == old(db)[0])
    {
      var rowIndex := FindRowById(id);
      if rowIndex == -1 {
        return Err(NotFound(id));
      }
      db := db[rowIndex - 1 := WriteItem(db[rowIndex - 1], item)];
      LogAction(Action.Update, "Item atualizado: " + ItemText(item), now);
      res := Ok(());
    }

    /**
      `delete`: a found id has cells A..C of its row cleared in place (no row
      moves) and one DELETE entry logged; an unknown id changes nothing and
      logs nothing.
     */
    method Delete(id: Long, now: string)
      modifies this
      ensures var r := FindRow(old(db), id);
              if r == -1 then db == old(db) && logs == old(logs)
              else db == old(db)[r - 1 := ClearRow(old(db)[r - 1])] &&
                   logs == old(logs) + [LogEntry(now, Action.Delete, "Item deletado com ID: " + DecimalText(id))]
      ensures |db| == |old(db)| && (|db| > 0 ==> db[0] == old(db)[0])
    {
      var rowIndex := FindRowById(id);
      if rowIndex != -1 {
        db := db[rowIndex - 1 := ClearRow(db[rowIndex - 1])];
        LogAction(Action.Delete, "Item deletado com ID: " + DecimalText(id), now);
      }
    }
  }
}
