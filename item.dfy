/**
 * Session items as the store sees them. An item is a map from attribute names
 * to values; the object literal written for create and update puts the key
 * attribute first, the expiry attribute second and spreads the session data
 * last, and the document client drops every attribute whose value is
 * `undefined` before the item reaches the table (`removeUndefinedValues`).
 */
module Items {
  import opened Wrappers

  /** A JavaScript value as it can appear in session data. */
  datatype Value = Undefined | Null | Bool(b: bool) | Num(n: int) | Str(s: string)

  type Attributes = map<string, Value>

  /** An item the document client would accept: no attribute holds `undefined`. */
  predicate Marshalled(item: Attributes) {
    forall a :: a in item ==> item[a] != Undefined
  }

  /** The effect of `removeUndefinedValues: true` on an item. */
  function RemoveUndefined(obj: Attributes): (item: Attributes)
    ensures Marshalled(item)
    ensures forall a :: a in item <==> a in obj && obj[a] != Undefined
    ensures forall a :: a in item ==> item[a] == obj[a]
  {
    map a | a in obj && obj[a] != Undefined :: obj[a]
  }

  /**
   * `Math.round(ms / 1000)` for an integral millisecond timestamp: the nearest
   * whole second, halves rounded up (towards positive infinity).
   */
  function RoundSeconds(ms: int): (s: int)
    ensures 1000 * s - 500 <= ms < 1000 * s + 500
  {
    (ms + 500) / 1000
  }

  /** No other whole number of seconds lies within half a second of `ms`. */
  lemma RoundSecondsUnique(ms: int, s: int)
    requires 1000 * s - 500 <= ms < 1000 * s + 500
    ensures s == RoundSeconds(ms)
  {
  }

  /**
   * The attribute name the literal `[props.ttl]` produces: the configured name,
   * or the string "undefined" when no name is configured.
   */
  function TtlAttribute(ttl: Option<string>): (name: string)
    ensures ttl.Some? ==> name == ttl.value
    ensures ttl.None? ==> name == "undefined"
  {
    match ttl
    case Some(name) => name
    case None => "undefined"
  }

  /**
   * `if (props.ttl)`: JavaScript truthiness of the configured TTL name, true
   * exactly when a name is configured and it is not the empty string.
   */
  function StripsTtl(ttl: Option<string>): (strips: bool)
    ensures strips ==> ttl.Some? && TtlAttribute(ttl) == ttl.value && |ttl.value| > 0
    ensures !strips ==> ttl.None? || ttl.value == ""
  {
    ttl.Some? && ttl.value != ""
  }

  /**
   * The object literal `{[idx]: id, [ttl]: expires ? Math.round(...) : undefined, ...data}`,
   * before the document client removes `undefined` values. `expires` is the
   * expiry date's `getTime()` in milliseconds, absent when no date is given.
   */
  function ItemLiteral(idx: string, ttl: Option<string>, id: string, data: Attributes, expires: Option<int>): (obj: Attributes)
    ensures forall a :: a in obj <==> a in data || a == idx || a == TtlAttribute(ttl)
    ensures forall a :: a in data ==> obj[a] == data[a]
    ensures idx !in data && idx != TtlAttribute(ttl) ==> obj[idx] == Str(id)
    ensures TtlAttribute(ttl) !in data && expires.Some? ==> obj[TtlAttribute(ttl)] == Num(RoundSeconds(expires.value))
    ensures TtlAttribute(ttl) !in data && expires.None? ==> obj[TtlAttribute(ttl)] == Undefined
  {
    var expiry := if expires.Some? then Num(RoundSeconds(expires.value)) else Undefined;
    map[idx := Str(id)][TtlAttribute(ttl) := expiry] + data
  }

  /**
   * The item that reaches the table for create and update: data attributes
   * win over the key and expiry attributes, the key attribute holds the id,
   * the expiry attribute is present exactly when an expiry is given, and
   * nothing else is added.
   */
  function NewItem(idx: string, ttl: Option<string>, id: string, data: Attributes, expires: Option<int>): (item: Attributes)
    ensures Marshalled(item)
    ensures forall a :: a in data ==> (a in item <==> data[a] != Undefined)
    ensures forall a :: a in data && a in item ==> item[a] == data[a]
    ensures idx !in data && idx != TtlAttribute(ttl) ==> idx in item && item[idx] == Str(id)
    ensures TtlAttribute(ttl) !in data ==> (TtlAttribute(ttl) in item <==> expires.Some?)
    ensures TtlAttribute(ttl) !in data && expires.Some? ==> item[TtlAttribute(ttl)] == Num(RoundSeconds(expires.value))
    ensures forall a :: a in item ==> a in data || a == idx || a == TtlAttribute(ttl)
  {
    RemoveUndefined(ItemLiteral(idx, ttl, id, data, expires))
  }

  /**
   * What `readData` hands back for a stored item: the key attribute removed,
   * the TTL attribute removed when a TTL name is configured, everything else
   * untouched.
   */
  function Stripped(item: Attributes, idx: string, ttl: Option<string>): (fields: Attributes)
    ensures forall a :: a in fields <==> a in item && a != idx && !(StripsTtl(ttl) && a == ttl.value)
    ensures forall a :: a in fields ==> fields[a] == item[a]
  {
    var withoutKey := item - {idx};
    if StripsTtl(ttl) then withoutKey - {ttl.value} else withoutKey
  }

  /**
   * `readData` removes the attribute the literal wrote the expiry under
   * exactly when the TTL name is truthy; otherwise that attribute, unless it
   * is the key attribute, comes back with the data.
   */
  lemma StripsWrittenTtl(item: Attributes, idx: string, ttl: Option<string>)
    ensures StripsTtl(ttl) ==> TtlAttribute(ttl) !in Stripped(item, idx, ttl)
    ensures !StripsTtl(ttl) && TtlAttribute(ttl) != idx
        ==> (TtlAttribute(ttl) in Stripped(item, idx, ttl) <==> TtlAttribute(ttl) in item)
  {
  }
}
