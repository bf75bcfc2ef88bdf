/** The HTTP endpoints over the storage operations: read_item, update_item
    and delete_item answer with the row the storage call gives back, and with
    404 "Item not found" when it gives back None. create_item and read_items
    hand the storage result back unchanged, so `ItemTable.Create` and `List`
    model them as they are. */
module Api {
  import opened Records
  import opened Storage

  const NotFoundStatus: int := 404
  const NotFoundDetail: string := "Item not found"

  /** What an endpoint answers: the record, or an HTTP error with its detail. */
  datatype Response = Found(item: Item) | HttpError(status: int, detail: string)

  /** The check the three endpoints share: a row is the response body, None
      becomes the not-found error. */
  function Respond(result: Option<Item>): (resp: Response)
  {
    if result.None? then HttpError(NotFoundStatus, NotFoundDetail) else Found(result.value)
  }

  /** read_item: the row keyed `id`, or 404 exactly when there is none. */
  function ReadItem(rows: seq<Item>, id: int): (resp: Response)
    ensures resp.HttpError? <==> id !in Ids(rows)
    ensures resp.HttpError? ==> resp.status == 404 && resp.detail == "Item not found"
    ensures resp.Found? ==> resp.item.id == id && resp.item in rows
  {
    Respond(Get(rows, id))
  }

  /** On a table whose ids are unique, read_item answers with each row when
      asked for its id. */
  lemma ReadStoredItem(rows: seq<Item>, k: nat)
    requires UniqueIds(rows)
    requires k < |rows|
    ensures ReadItem(rows, rows[k].id) == Found(rows[k])
  {
    GetFindsRow(rows, k);
  }

  /** update_item: the overwritten row, or 404 with nothing written exactly
      when no row is keyed `id`. */
  method UpdateItem(table: ItemTable, id: int, item: ItemCreate) returns (resp: Response)
    requires table.Valid()
    modifies table
    ensures table.Valid()
    ensures resp.HttpError? <==> id !in old(Ids(table.rows))
    ensures resp.HttpError? ==> resp == HttpError(404, "Item not found") && table.rows == old(table.rows)
    ensures resp.Found? ==> resp.item == Stored(id, item) && ReadItem(table.rows, id) == resp
    ensures table.rows == Replaced(old(table.rows), id, Stored(id, item))
  {
    var updated := table.Update(id, item);
    resp := Respond(updated);
  }

  /** delete_item: the row as it was before it was taken out, or 404 with
      nothing written exactly when no row is keyed `id`. */
  method DeleteItem(table: ItemTable, id: int) returns (resp: Response)
    requires table.Valid()
    modifies table
    ensures table.Valid()
    ensures resp.HttpError? <==> id !in old(Ids(table.rows))
    ensures resp.HttpError? ==> resp == HttpError(404, "Item not found") && table.rows == old(table.rows)
    ensures resp.Found? ==> resp == old(ReadItem(table.rows, id))
    ensures ReadItem(table.rows, id) == HttpError(404, "Item not found")
    ensures table.rows == Without(old(table.rows), id)
  {
    var deleted := table.Delete(id);
    resp := Respond(deleted);
  }

  /** A client session on a new database: create a record, read it, replace
      its fields, delete it, and read it again. */
  method Session()
  {
    var table := new ItemTable();
    var id := FreshId(table.rows);
    assert id == 1;
    var created := table.Create(WithoutDescription("Milk", 2), id, 0);
    assert created == Item(1, "Milk", 2, None);

    var read := ReadItem(table.rows, 1);
    assert read == Found(created);

    var updated := UpdateItem(table, 1, ItemCreate("Milk", 4, Some("2%")));
    assert updated == Found(Item(1, "Milk", 4, Some("2%")));

    var deleted := DeleteItem(table, 1);
    assert deleted == updated;

    read := ReadItem(table.rows, 1);
    assert read == HttpError(404, "Item not found");
    assert List(table.rows, DefaultSkip, DefaultLimit) == [];
  }
}
