/** The shopping_items table and the five storage operations on it
    (get_shopping_item, get_shopping_items, create_shopping_item,
    update_shopping_item, delete_shopping_item). The database is replaced by
    an in-memory sequence of rows, in the order the storage engine yields
    them. */
module Storage {
  import opened Records

  /** The offset and page size `get_shopping_items` and `read_items` use when
      the caller gives none. */
  const DefaultSkip: int := 0
  const DefaultLimit: int := 100

  /** The primary keys in use. */
  function Ids(rows: seq<Item>): (ids: set<int>)
  {
    set k | 0 <= k < |rows| :: rows[k].id
  }

  /** The primary-key constraint: no two rows share an id. */
  predicate UniqueIds(rows: seq<Item>)
  {
    forall i, j :: 0 <= i < j < |rows| ==> rows[i].id != rows[j].id
  }

  /** get_shopping_item: the first row whose id is `id`, or None when there is
      none. */
  function Get(rows: seq<Item>, id: int): (found: Option<Item>)
    ensures found.None? <==> id !in Ids(rows)
    ensures found.Some? ==> found.value.id == id
    ensures found.Some? ==> exists k :: 0 <= k < |rows| && rows[k] == found.value &&
                                        forall j :: 0 <= j < k ==> rows[j].id != id
  {
    if rows == [] then None
    else if rows[0].id == id then Some(rows[0])
    else
      var found := Get(rows[1..], id);
      assert Ids(rows) == {rows[0].id} + Ids(rows[1..]) by {
        forall x | x in Ids(rows) ensures x in {rows[0].id} + Ids(rows[1..]) {
          var k :| 0 <= k < |rows| && rows[k].id == x;
          if k > 0 { assert rows[1..][k - 1].id == x; }
        }
      }
      if found.Some? then
        var k :| 0 <= k < |rows[1..]| && rows[1..][k] == found.value &&
                 forall j :: 0 <= j < k ==> rows[1..][j].id != id;
        assert rows[k + 1] == found.value;
        assert forall j :: 0 <= j < k + 1 ==> rows[j].id != id by {
          forall j | 0 < j < k + 1 ensures rows[j].id != id {
            assert rows[j] == rows[1..][j - 1];
          }
        }
        found
      else found
  }

  /** The position of the first row `get_shopping_items` returns: a negative
      offset counts as none, and an offset past the end leaves nothing. */
  function Offset(rows: seq<Item>, skip: int): (start: nat)
  {
    if skip < 0 then 0 else if skip < |rows| then skip else |rows|
  }

  /** get_shopping_items: skip the first `skip` rows, then take at most `limit`
      of the rest. A negative limit means no limit, as SQLite reads it. */
  function List(rows: seq<Item>, skip: int, limit: int): (page: seq<Item>)
    ensures 0 <= limit ==> |page| <= limit
    ensures var start := if skip < 0 then 0 else skip;
            start + |page| <= |rows| || page == []
    ensures var start := if skip < 0 then 0 else skip;
            forall k :: 0 <= k < |page| ==> start + k < |rows| && page[k] == rows[start + k]
    ensures var start := if skip < 0 then 0 else skip;
            |page| == limit || start + |page| >= |rows|
  {
    var rest := rows[Offset(rows, skip)..];
    if limit < 0 || |rest| <= limit then rest else rest[..limit]
  }

  /** A key above every key in use: one the engine may assign to a new row,
      so the freshness `Create` asks of its key can always be met. */
  function FreshId(rows: seq<Item>): (id: int)
    ensures 1 <= id
    ensures forall k :: 0 <= k < |rows| ==> rows[k].id < id
    ensures id !in Ids(rows)
  {
    if rows == [] then 1
    else
      var above := FreshId(rows[1..]);
      assert forall k :: 1 <= k < |rows| ==> rows[k] == rows[1..][k - 1];
      if rows[0].id < above then above else rows[0].id + 1
  }

  /** The table with every row keyed `id` overwritten by `row`. */
  function Replaced(rows: seq<Item>, id: int, row: Item): (replaced: seq<Item>)
  {
    seq(|rows|, k requires 0 <= k < |rows| => if rows[k].id == id then row else rows[k])
  }

  /** The table with every row keyed `id` taken out. */
  function Without(rows: seq<Item>, id: int): (rest: seq<Item>)
  {
    if rows == [] then []
    else if rows[0].id == id then Without(rows[1..], id)
    else [rows[0]] + Without(rows[1..], id)
  }

  /** On a table whose ids are unique, `Get` finds every row by its id. */
  lemma {:induction false} GetFindsRow(rows: seq<Item>, k: nat)
    requires UniqueIds(rows)
    requires k < |rows|
    ensures Get(rows, rows[k].id) == Some(rows[k])
  {
    if k > 0 {
      assert rows[0].id != rows[k].id;
      assert rows[1..][k - 1] == rows[k];
      GetFindsRow(rows[1..], k - 1);
    }
  }

  /** Every row `get_shopping_items` returns is the row `get_shopping_item`
      returns for its id. */
  lemma ListedRowsAreFound(rows: seq<Item>, skip: int, limit: int, k: nat)
    requires UniqueIds(rows)
    requires k < |List(rows, skip, limit)|
    ensures Get(rows, List(rows, skip, limit)[k].id) == Some(List(rows, skip, limit)[k])
  {
    var start := if skip < 0 then 0 else skip;
    GetFindsRow(rows, start + k);
  }

  /** With the default offset and page size, a listing is the first hundred
      rows; on an empty table it is empty. */
  lemma ListDefaults(rows: seq<Item>)
    ensures List(rows, DefaultSkip, DefaultLimit) == rows[..if |rows| < 100 then |rows| else 100]
    ensures rows == [] ==> List(rows, DefaultSkip, DefaultLimit) == []
  {
  }

  /** Two consecutive pages read the same rows as one page that spans both. */
  lemma ListPagesJoin(rows: seq<Item>, skip: nat, first: nat, second: nat)
    ensures List(rows, skip, first) + List(rows, skip + first, second) == List(rows, skip, first + second)
  {
    var a, b, c := List(rows, skip, first), List(rows, skip + first, second), List(rows, skip, first + second);
    if |a| < first {
      assert b == [];
    } else {
      assert |a + b| == |c|;
      forall k | 0 <= k < |c| ensures (a + b)[k] == c[k] {
        if k >= |a| { assert (a + b)[k] == b[k - |a|]; }
      }
    }
  }

  /** Overwriting the rows keyed `id` changes what `Get` finds for `id` only. */
  lemma {:induction false} GetReplaced(rows: seq<Item>, id: int, row: Item, x: int)
    requires row.id == id
    ensures Get(Replaced(rows, id, row), x) == if x == id && id in Ids(rows) then Some(row) else Get(rows, x)
  {
    if rows != [] {
      assert Replaced(rows, id, row)[1..] == Replaced(rows[1..], id, row);
      GetReplaced(rows[1..], id, row, x);
    }
  }

  /** Overwriting the rows keyed `id` leaves every page of the listing the
      same length, with the same rows in the same places, except that the
      rows keyed `id` are overwritten there too. */
  lemma ListReplaced(rows: seq<Item>, id: int, row: Item, skip: int, limit: int)
    ensures List(Replaced(rows, id, row), skip, limit) == Replaced(List(rows, skip, limit), id, row)
  {
    var after, before := List(Replaced(rows, id, row), skip, limit), List(rows, skip, limit);
    assert |after| == |before|;
    forall k | 0 <= k < |after| ensures after[k] == Replaced(before, id, row)[k] {
      var start := if skip < 0 then 0 else skip;
      assert after[k] == Replaced(rows, id, row)[start + k];
    }
  }

  /** A create whose payload leaves out `description` stores a row whose
      description is None, and `Get` finds that row under its key. */
  lemma {:induction false} CreatedWithoutDescription(rows: seq<Item>, at: nat, id: int, name: string, quantity: int)
    requires at <= |rows|
    requires id !in Ids(rows)
    ensures Get(rows[..at] + [Stored(id, WithoutDescription(name, quantity))] + rows[at..], id)
            == Some(Item(id, name, quantity, None))
  {
    GetInserted(rows, at, Stored(id, WithoutDescription(name, quantity)), id);
  }

  /** Overwriting a row with one of the same id keeps the ids unique. */
  lemma ReplacedKeepsUnique(rows: seq<Item>, id: int, row: Item)
    requires UniqueIds(rows)
    requires row.id == id
    ensures UniqueIds(Replaced(rows, id, row))
  {
  }

  /** On a table whose ids are unique, overwriting the rows keyed `id` is
      overwriting the one row at its position. */
  lemma ReplacedAt(rows: seq<Item>, k: nat, row: Item)
    requires UniqueIds(rows)
    requires k < |rows| && row.id == rows[k].id
    ensures Replaced(rows, row.id, row) == rows[k := row]
  {
  }

  /** Taking out the rows keyed `id` leaves `Get` finding nothing for `id` and
      the same rows as before for every other key. */
  lemma {:induction false} GetWithout(rows: seq<Item>, id: int, x: int)
    ensures Get(Without(rows, id), x) == if x == id then None else Get(rows, x)
  {
    if rows != [] {
      GetWithout(rows[1..], id, x);
    }
  }

  /** Taking rows out keeps the ids unique. */
  lemma {:induction false} WithoutKeepsUnique(rows: seq<Item>, id: int)
    requires UniqueIds(rows)
    ensures UniqueIds(Without(rows, id))
    ensures Ids(Without(rows, id)) == Ids(rows) - {id}
  {
    forall x ensures x in Ids(Without(rows, id)) <==> x in Ids(rows) - {id} {
      GetWithout(rows, id, x);
    }
    if rows != [] {
      var rest := rows[1..];
      WithoutKeepsUnique(rest, id);
      assert rows[0].id !in Ids(rest) by {
        forall k | 0 <= k < |rest| ensures rest[k].id != rows[0].id {
          assert rest[k] == rows[k + 1];
        }
      }
      if rows[0].id != id {
        var w := [rows[0]] + Without(rest, id);
        forall i, j | 0 <= i < j < |w| ensures w[i].id != w[j].id {
          var tail := Without(rest, id);
          assert w[j] == tail[j - 1];
          if i > 0 {
            assert w[i] == tail[i - 1];
          } else {
            assert tail[j - 1].id in Ids(tail);
          }
        }
      }
    }
  }

  /** On a table whose ids are unique, taking out the rows keyed `id` is
      taking out the one row at its position. */
  lemma {:induction false} WithoutAt(rows: seq<Item>, k: nat)
    requires UniqueIds(rows)
    requires k < |rows|
    ensures Without(rows, rows[k].id) == rows[..k] + rows[k + 1..]
  {
    var rest := rows[1..];
    if k == 0 {
      WithoutMissing(rest, rows[0].id);
    } else {
      assert rest[k - 1] == rows[k];
      WithoutAt(rest, k - 1);
      assert rows[..k] + rows[k + 1..] == [rows[0]] + (rest[..k - 1] + rest[k..]);
    }
  }

  /** Taking out a key that is not in use leaves the table as it is. */
  lemma {:induction false} WithoutMissing(rows: seq<Item>, id: int)
    requires forall k :: 0 <= k < |rows| ==> rows[k].id != id
    ensures Without(rows, id) == rows
  {
    if rows != [] {
      WithoutMissing(rows[1..], id);
    }
  }

  /** Adding a row under a key not in use makes `Get` find it under that key
      and changes nothing `Get` finds under any other key. */
  lemma {:induction false} GetInserted(rows: seq<Item>, at: nat, row: Item, x: int)
    requires at <= |rows|
    requires row.id !in Ids(rows)
    ensures Get(rows[..at] + [row] + rows[at..], x) == if x == row.id then Some(row) else Get(rows, x)
  {
    var grown := rows[..at] + [row] + rows[at..];
    if at > 0 {
      var rest := rows[1..];
      assert row.id !in Ids(rest) by {
        forall k | 0 <= k < |rest| ensures rest[k].id != row.id {
          assert rest[k] == rows[k + 1];
        }
      }
      GetInserted(rest, at - 1, row, x);
      assert grown[1..] == rest[..at - 1] + [row] + rest[at - 1..];
      assert grown[0] == rows[0];
      assert rows[0].id != row.id;
    } else {
      assert grown == [row] + rows;
      assert grown[1..] == rows;
    }
  }

  /** Adding a row under a key not in use keeps the ids unique. */
  lemma InsertedKeepsUnique(rows: seq<Item>, at: nat, row: Item)
    requires UniqueIds(rows)
    requires at <= |rows|
    requires row.id !in Ids(rows)
    ensures UniqueIds(rows[..at] + [row] + rows[at..])
    ensures Ids(rows[..at] + [row] + rows[at..]) == Ids(rows) + {row.id}
  {
    var grown := rows[..at] + [row] + rows[at..];
    forall i, j | 0 <= i < j < |grown| ensures grown[i].id != grown[j].id {
      if j < at {
      } else if j == at {
        assert grown[i] == rows[i];
      } else if i == at {
        assert grown[j] == rows[j - 1];
      } else if i < at {
        assert grown[i] == rows[i] && grown[j] == rows[j - 1];
      } else {
        assert grown[i] == rows[i - 1] && grown[j] == rows[j - 1];
      }
    }
    forall x | x in Ids(grown) ensures x in Ids(rows) + {row.id} {
      var k :| 0 <= k < |grown| && grown[k].id == x;
      if k < at { assert grown[k] == rows[k]; }
      else if k > at { assert grown[k] == rows[k - 1]; }
    }
    forall x | x in Ids(rows) ensures x in Ids(grown) {
      var k :| 0 <= k < |rows| && rows[k].id == x;
      if k < at { assert grown[k] == rows[k]; }
      else { assert grown[k + 1] == rows[k]; }
    }
    assert grown[at] == row;
  }

  /** The shopping_items table of one database. */
  class ItemTable {
    /** The table's rows, in the order the storage engine yields them. */
    var rows: seq<Item>

    /** The primary-key constraint holds. */
    ghost predicate Valid()
      reads this
    {
      UniqueIds(rows)
    }

    /** The table as `create_all` makes it in a new database: empty. */
    constructor ()
      ensures Valid()
      ensures rows == []
    {
      rows := [];
    }

    /** create_shopping_item: store `item` as a new row. The storage engine
        picks the new row's key `id`, one not in use, and its position `at`
        among the rows it yields. */
    method Create(item: ItemCreate, id: int, at: nat) returns (created: Item)
      requires Valid()
      requires id !in Ids(rows)
      requires at <= |rows|
      modifies this
      ensures Valid()
      ensures created.id == id && Fields(created) == item
      ensures rows == old(rows[..at]) + [created] + old(rows[at..])
      ensures Ids(rows) == old(Ids(rows)) + {id}
      ensures forall x :: Get(rows, x) == if x == id then Some(created) else old(Get(rows, x))
    {
      created := Stored(id, item);
      InsertedKeepsUnique(rows, at, created);
      forall x ensures Get(rows[..at] + [created] + rows[at..], x) == if x == id then Some(created) else Get(rows, x) {
        GetInserted(rows, at, created, x);
      }
      rows := rows[..at] + [created] + rows[at..];
    }

    /** update_shopping_item: when a row keyed `id` exists, overwrite its name,
        quantity and description with the payload's (no merge with the old
        values) and return it; otherwise write nothing and return None. */
    method Update(id: int, item: ItemCreate) returns (updated: Option<Item>)
      requires Valid()
      modifies this
      ensures Valid()
      ensures updated.Some? <==> id in old(Ids(rows))
      ensures updated.Some? ==> updated.value.id == id && Fields(updated.value) == item
      ensures rows == Replaced(old(rows), id, Stored(id, item))
      ensures updated.None? ==> rows == old(rows)
      ensures |rows| == |old(rows)|
      ensures Ids(rows) == old(Ids(rows))
      ensures forall x :: Get(rows, x) == if x == id then updated else old(Get(rows, x))
    {
      updated := Get(rows, id);
      if updated.Some? {
        var k :| 0 <= k < |rows| && rows[k] == updated.value && forall j :: 0 <= j < k ==> rows[j].id != id;
        var row := updated.value;
        row := row.(name := item.name);
        row := row.(quantity := item.quantity);
        row := row.(description := item.description);
        ReplacedAt(rows, k, row);
        ReplacedKeepsUnique(rows, id, row);
        forall x ensures Get(rows[k := row], x) == if x == id then Some(row) else Get(rows, x) {
          GetReplaced(rows, id, row, x);
        }
        rows := rows[k := row];
        updated := Some(row);
        assert Ids(rows) == old(Ids(rows)) by {
          forall x ensures x in Ids(rows) <==> x in old(Ids(rows)) {
            assert Get(rows, x).Some? <==> old(Get(rows, x)).Some?;
          }
        }
      } else {
        assert forall k :: 0 <= k < |rows| ==> rows[k].id != id;
        assert Replaced(rows, id, Stored(id, item)) == rows;
      }
    }

    /** delete_shopping_item: when a row keyed `id` exists, take it out of the
        table and return it as it was; otherwise write nothing and return
        None. */
    method Delete(id: int) returns (deleted: Option<Item>)
      requires Valid()
      modifies this
      ensures Valid()
      ensures deleted == old(Get(rows, id))
      ensures rows == Without(old(rows), id)
      ensures deleted.None? ==> rows == old(rows)
      ensures |rows| == if deleted.Some? then |old(rows)| - 1 else |old(rows)|
      ensures Ids(rows) == old(Ids(rows)) - {id}
      ensures forall x :: Get(rows, x) == if x == id then None else old(Get(rows, x))
    {
      deleted := Get(rows, id);
      WithoutKeepsUnique(rows, id);
      forall x ensures Get(Without(rows, id), x) == if x == id then None else Get(rows, x) {
        GetWithout(rows, id, x);
      }
      if deleted.Some? {
        var k :| 0 <= k < |rows| && rows[k] == deleted.value;
        WithoutAt(rows, k);
        rows := rows[..k] + rows[k + 1..];
      } else {
        WithoutMissing(rows, id);
      }
    }
  }
}
