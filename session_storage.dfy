/**
 * The session-record store returned by `createDynamoTableSessionStorage`:
 * `createData` allocates a fresh id by drawing candidates until one is not in
 * the table, `readData` returns an item without its key and TTL attributes,
 * `updateData` replaces an item wholesale, `deleteData` removes one.
 *
 * Randomness is a parameter: `draws` is the sequence of 8-byte values the
 * random source would hand out, in order.
 */
module SessionStorage {
  import opened Wrappers
  import opened HexId
  import opened Items
  import opened DocClient

  /**
   * Why `createData` yields no id: every supplied draw collided (the source
   * would still be looping), or the store refused the item.
   */
  datatype CreateError = NoFreshCandidate | PutRejected(cause: StoreError)

  /** The candidate ids the draws encode, in the order they are drawn. */
  function CandidateIds(draws: seq<seq<byte>>): (ids: seq<string>)
    ensures |ids| == |draws|
  {
    seq(|draws|, i requires 0 <= i < |draws| => EncodeId(draws[i]))
  }

  /** Draws of 8 random bytes give candidates that are all well-formed session ids. */
  lemma CandidateIdsAreSessionIds(draws: seq<seq<byte>>)
    requires forall i :: 0 <= i < |draws| ==> |draws[i]| == IdBytes
    ensures forall i :: 0 <= i < |draws| ==> IsSessionId(CandidateIds(draws)[i])
  {
    forall i | 0 <= i < |draws|
      ensures IsSessionId(CandidateIds(draws)[i])
    {
      DrawIsSessionId(draws[i]);
    }
  }

  /** The index of the first candidate at or after `from` that is not yet in the table, if any. */
  function FirstFree(table: Table, ids: seq<string>, from: nat): (r: Option<nat>)
    requires from <= |ids|
    ensures r.Some? ==> from <= r.value < |ids| && ids[r.value] !in table
    ensures r.Some? ==> forall j :: from <= j < r.value ==> ids[j] in table
    ensures r.None? ==> forall j :: from <= j < |ids| ==> ids[j] in table
    decreases |ids| - from
  {
    if from == |ids| then None
    else if ids[from] !in table then Some(from)
    else FirstFree(table, ids, from + 1)
  }

  /**
   * The outcome of `createData` and the table it leaves behind, given the
   * candidate ids in the order they are drawn.
   */
  function Create(table: Table, idx: string, ttl: Option<string>, data: Attributes, expires: Option<int>,
                  ids: seq<string>): (r: (Result<string, CreateError>, Table))
    ensures r.0 == Err(NoFreshCandidate) <==> FirstFree(table, ids, 0).None?
    ensures r.0.Ok? ==> r.0.value in ids && r.0.value !in table
    ensures r.0.Err? ==> r.1 == table
  {
    match FirstFree(table, ids, 0)
    case None => (Err(NoFreshCandidate), table)
    case Some(i) =>
      match Put(table, idx, ItemLiteral(idx, ttl, ids[i], data, expires))
      case Ok(next) => (Ok(ids[i]), next)
      case Err(e) => (Err(PutRejected(e)), table)
  }

  /** What `readData` returns for `id`. */
  function Read(table: Table, idx: string, ttl: Option<string>, id: string): (r: Option<Attributes>)
    ensures r.None? <==> id !in table
    ensures r.Some? ==> forall a :: a in r.value <==> a in table[id] && a != idx && !(StripsTtl(ttl) && a == ttl.value)
    ensures r.Some? ==> forall a :: a in r.value ==> r.value[a] == table[id][a]
  {
    match Get(table, id)
    case None => None
    case Some(item) => Some(Stripped(item, idx, ttl))
  }

  /** The table after `updateData`, or the store's refusal. */
  function Update(table: Table, idx: string, ttl: Option<string>, id: string, data: Attributes,
                  expires: Option<int>): (r: Result<Table, StoreError>)
    ensures r.Ok? <==> if idx in data then data[idx].Str? else TtlAttribute(ttl) != idx
    ensures r.Ok? && idx !in data ==> id in r.value && r.value[id] == NewItem(idx, ttl, id, data, expires)
  {
    Put(table, idx, ItemLiteral(idx, ttl, id, data, expires))
  }

  /**
   * The store accepts the item built for create or update exactly when its
   * key attribute ends up a string: data that sets the key attribute decides,
   * otherwise it holds the id unless the TTL attribute has the same name.
   */
  lemma PutAcceptsLiteral(table: Table, idx: string, ttl: Option<string>, id: string, data: Attributes,
                          expires: Option<int>)
    ensures Put(table, idx, ItemLiteral(idx, ttl, id, data, expires)).Ok?
        <==> if idx in data then data[idx].Str? else TtlAttribute(ttl) != idx
  {
  }

  /**
   * A returned id is candidate `i`, was absent from the table, and every
   * earlier candidate was already taken.
   */
  lemma CreateReturnsFreshId(table: Table, idx: string, ttl: Option<string>, data: Attributes,
                             expires: Option<int>, ids: seq<string>) returns (i: nat)
    requires Create(table, idx, ttl, data, expires, ids).0.Ok?
    ensures i < |ids| && Create(table, idx, ttl, data, expires, ids).0.value == ids[i]
    ensures ids[i] !in table
    ensures forall j :: 0 <= j < i ==> ids[j] in table
  {
    i := FirstFree(table, ids, 0).value;
  }

  /**
   * `createData` gives up only when every candidate collides, leaves the
   * table alone when it yields no id, and is refused only when the key
   * attribute of the item does not end up holding the id.
   */
  lemma CreateFailures(table: Table, idx: string, ttl: Option<string>, data: Attributes,
                       expires: Option<int>, ids: seq<string>)
    ensures Create(table, idx, ttl, data, expires, ids).0 == Err(NoFreshCandidate)
        <==> forall j :: 0 <= j < |ids| ==> ids[j] in table
    ensures Create(table, idx, ttl, data, expires, ids).0.Err? ==> Create(table, idx, ttl, data, expires, ids).1 == table
    ensures idx !in data && TtlAttribute(ttl) != idx && (exists j :: 0 <= j < |ids| && ids[j] !in table)
        ==> Create(table, idx, ttl, data, expires, ids).0.Ok?
  {
  }

  /**
   * When the data does not name the key attribute, the new item is stored
   * under the returned id, shaped by `NewItem`, and no other key changes.
   */
  lemma CreateStoresItem(table: Table, idx: string, ttl: Option<string>, data: Attributes,
                         expires: Option<int>, ids: seq<string>)
    requires idx !in data
    requires Create(table, idx, ttl, data, expires, ids).0.Ok?
    ensures var (r, next) := Create(table, idx, ttl, data, expires, ids);
            next == table[r.value := NewItem(idx, ttl, r.value, data, expires)]
  {
  }

  /**
   * When the data sets the key attribute to another string, the item lands
   * under that string, replacing any record already stored there, while the
   * returned id stays absent from the table and no other key changes.
   */
  lemma CreateWithKeyInData(table: Table, idx: string, ttl: Option<string>, data: Attributes,
                            expires: Option<int>, ids: seq<string>)
    requires idx in data && data[idx].Str?
    requires Create(table, idx, ttl, data, expires, ids).0.Ok?
    requires Create(table, idx, ttl, data, expires, ids).0.value != data[idx].s
    ensures var (r, next) := Create(table, idx, ttl, data, expires, ids);
            r.value !in next && data[idx].s in next && next[data[idx].s] == NewItem(idx, ttl, r.value, data, expires)
    ensures var (r, next) := Create(table, idx, ttl, data, expires, ids);
            forall k :: k != data[idx].s ==> (k in next <==> k in table)
  {
  }

  /**
   * Reading right after a create returns exactly the data written, provided
   * the data holds no `undefined`, does not use the key or TTL attribute
   * names, and either a TTL name is configured or no expiry was given.
   */
  lemma ReadAfterCreate(table: Table, idx: string, ttl: Option<string>, data: Attributes,
                        expires: Option<int>, ids: seq<string>)
    requires Marshalled(data) && idx !in data && TtlAttribute(ttl) !in data
    requires StripsTtl(ttl) || expires.None?
    requires Create(table, idx, ttl, data, expires, ids).0.Ok?
    ensures var (r, next) := Create(table, idx, ttl, data, expires, ids);
            Read(next, idx, ttl, r.value) == Some(data)
  {
    CreateStoresItem(table, idx, ttl, data, expires, ids);
    var (r, next) := Create(table, idx, ttl, data, expires, ids);
    ReadNewItem(next, idx, ttl, r.value, data, expires);
  }

  /** The read-back of a freshly written item, under the conditions of ReadAfterCreate. */
  lemma ReadNewItem(table: Table, idx: string, ttl: Option<string>, id: string, data: Attributes,
                    expires: Option<int>)
    requires Marshalled(data) && idx !in data && TtlAttribute(ttl) !in data
    requires StripsTtl(ttl) || expires.None?
    requires id in table && table[id] == NewItem(idx, ttl, id, data, expires)
    ensures Read(table, idx, ttl, id) == Some(data)
  {
    var item := table[id];
    var fields := Read(table, idx, ttl, id).value;
    assert fields == Stripped(item, idx, ttl);
    forall a | a in data
      ensures a in fields && fields[a] == data[a]
    {
      assert a in item && a != idx;
    }
    forall a | a in fields
      ensures a in data
    {
      assert a in item && a != idx;
    }
    assert fields.Keys == data.Keys;
    assert fields == data;
  }

  /**
   * Without a usable TTL name, `readData` does not strip the expiry: it comes
   * back as an extra attribute (named "undefined" when no TTL name is set).
   */
  lemma ReadKeepsExpiryWithoutTtlName(table: Table, idx: string, ttl: Option<string>, id: string,
                                      data: Attributes, ms: int)
    requires !StripsTtl(ttl)
    requires Marshalled(data) && idx !in data && TtlAttribute(ttl) !in data && TtlAttribute(ttl) != idx
    requires id in table && table[id] == NewItem(idx, ttl, id, data, Some(ms))
    ensures Read(table, idx, ttl, id) == Some(data[TtlAttribute(ttl) := Num(RoundSeconds(ms))])
  {
    var item := table[id];
    var fields := Read(table, idx, ttl, id).value;
    var expected := data[TtlAttribute(ttl) := Num(RoundSeconds(ms))];
    assert fields == Stripped(item, idx, ttl);
    forall a | a in expected
      ensures a in fields && fields[a] == expected[a]
    {
      assert a in item && a != idx;
    }
    forall a | a in fields
      ensures a in expected
    {
      assert a in item && a != idx;
    }
    assert fields.Keys == expected.Keys;
    assert fields == expected;
  }

  /**
   * `updateData` needs no existing item and replaces the whole item: the
   * table afterwards holds the freshly built item at `id`, attributes of the
   * previous item that the data does not name are gone, and no other key
   * changes.
   */
  lemma UpdateReplaces(table: Table, idx: string, ttl: Option<string>, id: string, data: Attributes,
                       expires: Option<int>)
    requires idx !in data && TtlAttribute(ttl) != idx
    ensures Update(table, idx, ttl, id, data, expires).Ok?
    ensures Update(table, idx, ttl, id, data, expires).value == table[id := NewItem(idx, ttl, id, data, expires)]
    ensures id in table ==> forall a :: a in table[id] && a !in data && a != idx && a != TtlAttribute(ttl)
                                   ==> a !in Update(table, idx, ttl, id, data, expires).value[id]
  {
  }

  /** Reading after an update returns the data of that update, under the conditions of ReadAfterCreate. */
  lemma ReadAfterUpdate(table: Table, idx: string, ttl: Option<string>, id: string, data: Attributes,
                        expires: Option<int>)
    requires Marshalled(data) && idx !in data && TtlAttribute(ttl) !in data && TtlAttribute(ttl) != idx
    requires StripsTtl(ttl) || expires.None?
    ensures Read(Update(table, idx, ttl, id, data, expires).value, idx, ttl, id) == Some(data)
  {
    UpdateReplaces(table, idx, ttl, id, data, expires);
    ReadNewItem(Update(table, idx, ttl, id, data, expires).value, idx, ttl, id, data, expires);
  }

  /** After a delete, reading the id finds nothing, and deleting again changes nothing. */
  lemma ReadAfterDelete(table: Table, idx: string, ttl: Option<string>, id: string)
    ensures Read(Delete(table, id), idx, ttl, id) == None
    ensures Delete(Delete(table, id), id) == Delete(table, id)
  {
  }

  /**
   * In a table the store keeps well keyed, an item `readData` finds under
   * `id` held `id` itself under the key attribute, and what comes back holds
   * no `undefined` value.
   */
  lemma ReadFindsKeyedItem(table: Table, idx: string, ttl: Option<string>, id: string)
    requires WellKeyed(table, idx)
    ensures Read(table, idx, ttl, id).Some? ==> idx in table[id] && table[id][idx] == Str(id)
    ensures Read(table, idx, ttl, id).Some? ==> Marshalled(Read(table, idx, ttl, id).value)
  {
  }

  /** The session storage object: its configuration and the table it reads and writes. */
  class DynamoSessionStorage {
    /** Name of the key attribute (`props.idx`). */
    const idx: string
    /** Name of the TTL attribute (`props.ttl`), if configured. */
    const ttl: Option<string>
    /** The session table. */
    var table: Table

    ghost predicate Valid()
      reads this
    {
      WellKeyed(table, idx)
    }

    constructor (idx: string, ttl: Option<string>, table: Table)
      requires WellKeyed(table, idx)
      ensures Valid()
      ensures this.idx == idx && this.ttl == ttl && this.table == table
    {
      this.idx := idx;
      this.ttl := ttl;
      this.table := table;
    }

    /**
     * `createData(data, expires)`: tries the draws in order, skipping every
     * candidate id already in the table, and writes the item under the first
     * one that is not.
     */
    method CreateData(data: Attributes, expires: Option<int>, draws: seq<seq<byte>>)
      returns (r: Result<string, CreateError>)
      requires Valid()
      requires forall i :: 0 <= i < |draws| ==> |draws[i]| == IdBytes
      modifies this
      ensures Valid()
      ensures (r, table) == Create(old(table), idx, ttl, data, expires, CandidateIds(draws))
      ensures r.Ok? ==> IsSessionId(r.value) && r.value !in old(table)
    {
      ghost var ids := CandidateIds(draws);
      var current := table;
      var i := 0;
      // Skip every candidate whose lookup finds an item (the `continue`).
      while i < |draws| && Get(current, EncodeId(draws[i])).Some?
        invariant 0 <= i <= |draws|
        invariant FirstFree(current, ids, 0) == FirstFree(current, ids, i)
      {
        assert EncodeId(draws[i]) == ids[i];
        i := i + 1;
      }
      if i == |draws| {
        return Err(NoFreshCandidate);
      }
      var id := EncodeId(draws[i]);
      assert id == ids[i] && FirstFree(current, ids, 0) == Some(i);
      DrawIsSessionId(draws[i]);
      var put := Put(current, idx, ItemLiteral(idx, ttl, id, data, expires));
      match put {
        case Ok(next) =>
          table := next;
          r := Ok(id);
        case Err(e) =>
          r := Err(PutRejected(e));
      }
    }

    /** `readData(id)`: the stored item without its key and TTL attributes, or nothing. */
    method ReadData(id: string) returns (r: Option<Attributes>)
      requires Valid()
      ensures r == Read(table, idx, ttl, id)
      ensures r.Some? ==> Marshalled(r.value)
    {
      var got := Get(table, id);
      if got.Some? {
        GetKeyed(table, idx, id);
        r := Some(Stripped(got.value, idx, ttl));
      } else {
        r := None;
      }
    }

    /** `updateData(id, data, expires)`: puts a freshly built item, whether or not `id` exists. */
    method UpdateData(id: string, data: Attributes, expires: Option<int>) returns (r: Result<(), StoreError>)
      requires Valid()
      modifies this
      ensures Valid()
      ensures match Update(old(table), idx, ttl, id, data, expires)
              case Ok(next) => r.Ok? && table == next
              case Err(e) => r == Err(e) && table == old(table)
    {
      var put := Put(table, idx, ItemLiteral(idx, ttl, id, data, expires));
      match put {
        case Ok(next) =>
          table := next;
          r := Ok(());
        case Err(e) =>
          r := Err(e);
      }
    }

    /** `deleteData(id)`: removes `id`, present or not; every other key keeps its item. */
    method DeleteData(id: string)
      requires Valid()
      modifies this
      ensures Valid()
      ensures table == Delete(old(table), id)
    {
      table := Delete(table, id);
    }
  }
}
