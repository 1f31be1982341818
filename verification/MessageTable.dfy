/**
 * The server's message table and its idempotency key: sender, sending device and the id the
 * client chose.  An empty device or client id is stored as NULL, which the unique index and
 * every comparison treat as different from anything.
 */
module MessageTable {
  import opened Wrappers

  datatype Key = Key(sender: int, device: string, clientMessageId: string)

  /** A deleted message keeps its row, without its content. */
  datatype Row<C> = Row(
    id: int,
    sender: int,
    device: Option<string>,
    clientMessageId: Option<string>,
    content: C,
    edited: bool,
    deleted: bool)

  /** `lastId` is the largest id ever handed out. */
  datatype Table<C> = Table(rows: seq<Row<C>>, lastId: nat)

  function Nullable(text: string): Option<string> {
    if text == "" then None else Some(text)
  }

  predicate Matches<C>(row: Row<C>, key: Key) {
    row.sender == key.sender && row.device == Some(key.device) && row.clientMessageId == Some(key.clientMessageId)
  }

  /** The row stored under a key, if there is one. */
  function Lookup<C(==)>(rows: seq<Row<C>>, key: Key): (found: Option<Row<C>>)
    ensures found.Some? ==> found.value in rows && Matches(found.value, key)
    ensures found.None? && key.clientMessageId != "" ==> forall row | row in rows :: !Matches(row, key)
  {
    if key.clientMessageId == "" || rows == [] then None
    else if Matches(rows[0], key) then Some(rows[0])
    else Lookup(rows[1..], key)
  }

  /** Whether the unique index refuses a row under this key. */
  predicate Conflicts<C(==)>(rows: seq<Row<C>>, key: Key) {
    key.device != "" && key.clientMessageId != "" && exists row :: row in rows && Matches(row, key)
  }

  function NewRow<C>(id: int, key: Key, content: C): Row<C> {
    Row(id, key.sender, Nullable(key.device), Nullable(key.clientMessageId), content, false, false)
  }

  function Insert<C>(t: Table<C>, key: Key, content: C): Table<C> {
    Table(t.rows + [NewRow(t.lastId + 1, key, content)], t.lastId + 1)
  }

  /** One undisturbed store: the id of the row under the key, inserted if there was none; -1 on failure. */
  function Store<C(==)>(t: Table<C>, key: Key, content: C): (Table<C>, int) {
    var existing := Lookup(t.rows, key);
    if existing.Some? then (t, existing.value.id)
    else (Insert(t, key, content), t.lastId + 1)
  }

  /** Replaces the content of a message that has not been deleted; whether there was one. */
  function Edit<C>(t: Table<C>, id: int, content: C): (Table<C>, bool) {
    (t.(rows := seq(|t.rows|, i requires 0 <= i < |t.rows| =>
                      if id > 0 && t.rows[i].id == id && !t.rows[i].deleted
                      then t.rows[i].(content := content, edited := true) else t.rows[i])),
     id > 0 && exists i :: 0 <= i < |t.rows| && t.rows[i].id == id && !t.rows[i].deleted)
  }

  /** Leaves the row as a tombstone with blank content. */
  function Delete<C>(t: Table<C>, id: int, blank: C): Table<C> {
    t.(rows := seq(|t.rows|, i requires 0 <= i < |t.rows| =>
                     if id > 0 && t.rows[i].id == id
                     then t.rows[i].(content := blank, deleted := true) else t.rows[i]))
  }

  class Messages<C(==)> {
    var rows: seq<Row<C>>
    var lastId: nat

    ghost function Contents(): Table<C>
      reads this
    {
      Table(rows, lastId)
    }

    constructor ()
      ensures Contents() == Table([], 0)
    {
      rows, lastId := [], 0;
    }

    method GetMessageByClientKey(key: Key) returns (found: Option<Row<C>>)
      ensures found == Lookup(rows, key)
    {
      if key.clientMessageId == "" {
        return None;
      }
      for i := 0 to |rows|
        invariant Lookup(rows, key) == Lookup(rows[i..], key)
      {
        if Matches(rows[i], key) {
          return Some(rows[i]);
        }
        assert rows[i..][1..] == rows[i + 1..];
      }
      return None;
    }

    method SendMessage(key: Key, content: C) returns (id: int)
      modifies this
      ensures (Contents(), id) == Store(old(Contents()), key, content)
    {
      var existing := GetMessageByClientKey(key);
      if existing.Some? {
        return existing.value.id;
      }
      lastId := lastId + 1;
      rows := rows + [NewRow(lastId, key, content)];
      return lastId;
    }

    method EditMessage(id: int, content: C) returns (ok: bool)
      modifies this
      ensures (Contents(), ok) == Edit(old(Contents()), id, content)
    {
      ok := false;
      if id <= 0 {
        assert rows == Edit(old(Contents()), id, content).0.rows;
        return;
      }
      for k := 0 to |rows|
        invariant |rows| == |old(rows)| && lastId == old(lastId)
        invariant forall i | k <= i < |rows| :: rows[i] == old(rows)[i]
        invariant forall i | 0 <= i < k ::
                    rows[i] == (if old(rows)[i].id == id && !old(rows)[i].deleted
                                then old(rows)[i].(content := content, edited := true) else old(rows)[i])
        invariant ok <==> exists i :: 0 <= i < k && old(rows)[i].id == id && !old(rows)[i].deleted
      {
        if rows[k].id == id && !rows[k].deleted {
          rows := rows[k := rows[k].(content := content, edited := true)];
          ok := true;
        }
      }
      assert rows == Edit(old(Contents()), id, content).0.rows;
    }

    method DeleteMessage(id: int, blank: C) returns (ok: bool)
      modifies this
      ensures ok == (id > 0)
      ensures Contents() == Delete(old(Contents()), id, blank)
    {
      if id <= 0 {
        assert rows == Delete(old(Contents()), id, blank).rows;
        return false;
      }
      for k := 0 to |rows|
        invariant |rows| == |old(rows)| && lastId == old(lastId)
        invariant forall i | k <= i < |rows| :: rows[i] == old(rows)[i]
        invariant forall i | 0 <= i < k ::
                    rows[i] == (if old(rows)[i].id == id
                                then old(rows)[i].(content := blank, deleted := true) else old(rows)[i])
      {
        if rows[k].id == id {
          rows := rows[k := rows[k].(content := blank, deleted := true)];
        }
      }
      return true;
    }
  }
}
