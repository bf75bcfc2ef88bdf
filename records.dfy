/** The shopping-item record and the request payload it is built from. */
module Records {

  datatype Option<+T> = None | Some(value: T)

  /** The request body of create and update (ShoppingItemCreate): name and
      quantity are required, description is optional. */
  datatype ItemCreate = ItemCreate(name: string, quantity: int, description: Option<string>)

  /** One row of the shopping_items table; `id` is its primary key. */
  datatype Item = Item(id: int, name: string, quantity: int, description: Option<string>)

  /** A payload in which the client left out `description`: the schema's
      default for it is None. */
  function WithoutDescription(name: string, quantity: int): ItemCreate
  {
    ItemCreate(name, quantity, None)
  }

  /** The three mutable fields of a row, as a payload. */
  function Fields(row: Item): (item: ItemCreate)
  {
    ItemCreate(row.name, row.quantity, row.description)
  }

  /** The row that stores `item` under primary key `id`: it holds exactly the
      payload's fields, and a row is the row that stores its own fields. */
  function Stored(id: int, item: ItemCreate): (row: Item)
    ensures row.id == id && Fields(row) == item
    ensures forall r: Item :: r.id == id && Fields(r) == item ==> r == row
  {
    Item(id, item.name, item.quantity, item.description)
  }
}
