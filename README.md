# DynamoDB session storage — Dafny model

This project models the session-record store that `createDynamoTableSessionStorage`
builds for a Remix application on top of a DynamoDB table. The model covers
four parts:

- **Session ids.** `createData` draws 8 random bytes and writes each byte as two
  lowercase hexadecimal digits. `x.toString(16)` is padded with `padStart(2, "0")`,
  and the pairs are joined into a 16-character id (`HexId`).
- **Collision-retry allocation.** `createData` looks up each candidate id. It
  skips candidates that already have an item. It writes the new item under the
  first free candidate and returns that id (`SessionStorage.CreateData`, specified
  by `SessionStorage.Create`).
- **Item shaping.** The object literal `{[idx]: id, [ttl]: expiry, ...data}` is
  built the same way for create and update. The expiry is `Math.round(ms / 1000)`
  when an expiry date is given and `undefined` otherwise. The document client then
  drops `undefined` attributes (`removeUndefinedValues: true`) (`Items`).
- **CRUD on the table.** The table is a finite map from key strings to items. An
  item is a map from attribute names to values (`DocClient`). A put stores the
  item under the value of its own key attribute. `readData` strips the key
  attribute, and also the TTL attribute when a TTL name is configured.
  `updateData` is a full replace with no existence check. `deleteData` removes a
  key unconditionally (`SessionStorage.DynamoSessionStorage`).

Files: `wrappers.dfy` (Option, Result), `hex_id.dfy` (module `HexId`), `item.dfy`
(module `Items`), `doc_client.dfy` (module `DocClient`) and `session_storage.dfy`
(module `SessionStorage`, holding the class `DynamoSessionStorage`).

Modelling choices that follow the code:

- **The random source is a parameter.** `CreateData` receives `draws`, the
  sequence of 8-byte values `crypto.randomBytes(8)` would return, in order.
  `CandidateIds(draws)` are the ids they encode.
  - The source loops until a free id turns up.
  - The model stops when the supplied draws run out, with `NoFreshCandidate`. It
    gives that answer only when every supplied candidate collided.
- **Where a put stores the item.** DynamoDB files an item under its own key
  attribute. Data is spread last, so session data that sets the key attribute
  decides where the item goes:
  - if the data sets it to another string, the item is stored under that string,
    and the returned id stays absent (`CreateWithKeyInData`). A record already
    stored under that string, possibly another session's, is replaced by the new
    item;
  - if the data sets it to a non-string or `undefined`, the put is refused
    (`PutAcceptsLiteral`).
- **The computed key `[props.ttl]`.** When no TTL name is configured, this key is
  the attribute name `"undefined"`. `readData` strips the TTL attribute only
  `if (props.ttl)`, so such an expiry is stored and then returned by reads
  (`ReadKeepsExpiryWithoutTtlName`).
- **Rounding of the expiry.** `Math.round(getTime() / 1000)` on an integral
  millisecond count equals `(ms + 500) / 1000` with floor division: the nearest
  second, halves rounded up. This is rounding, not `floor(ms / 1000)`: the two
  differ whenever `ms % 1000 >= 500` (`app/dynamoSessionStorage.js:61`, `:93`).

## Model

| member | source | states |
|---|---|---|
| `HexId.ToString16` | app/dynamoSessionStorage.js:40 | `x.toString(16)` is never empty, and is a single digit exactly when `x` is below 16 |
| `HexId.ToString16Digits` | app/dynamoSessionStorage.js:40 | `x.toString(16)` consists of lowercase hex digits, denotes `x`, and has no leading zero |
| `HexId.PadStart` | app/dynamoSessionStorage.js:40 | `padStart(width, c)` is as long as the longer of the input and `width` |
| `HexId.PadStartShape` | app/dynamoSessionStorage.js:40 | `padStart(width, c)` ends with the input and is `c` everywhere in front of it |
| `HexId.ByteHex` | app/dynamoSessionStorage.js:40 | a byte is written as exactly two characters: the digit of its high nibble, then that of its low nibble |
| `HexId.EncodeId` | app/dynamoSessionStorage.js:39-41 | the joined id has two characters per drawn byte |
| `HexId.EncodeIdIsHex` | app/dynamoSessionStorage.js:39-41 | every character of an id is one of `0-9a-f` |
| `HexId.DrawIsSessionId` | app/dynamoSessionStorage.js:34-41 | an 8-byte draw always gives a 16-character lowercase hex id |
| `HexId.DecodeEncode` | app/dynamoSessionStorage.js:35-41 | reading an id back two digits at a time recovers exactly the drawn bytes |
| `HexId.EncodeDecode` | app/dynamoSessionStorage.js:35-41 | any string that decodes to some bytes is the id those bytes encode (the decoder is an exact inverse) |
| `HexId.EncodeIdInjective` | app/dynamoSessionStorage.js:35-41 | distinct draws give distinct ids |
| `HexId.SessionIdSpace` | app/dynamoSessionStorage.js:35-38 | every 16-character lowercase hex string is the id of some 8-byte draw, so the id space is all 2^64 of them |
| `SessionStorage.Create` | app/dynamoSessionStorage.js:32-70 | `createData` as a function of the candidates: it runs out exactly when no candidate is free; a returned id is a candidate that was absent from the table; a call that yields no id leaves the table unchanged (further properties in `CreateReturnsFreshId`, `CreateFailures`, `CreateStoresItem`, `CreateWithKeyInData`) |
| `SessionStorage.CandidateIdsAreSessionIds` | app/dynamoSessionStorage.js:33-41 | every candidate drawn in the retry loop is a well-formed session id |
| `DocClient.Get` | app/dynamoSessionStorage.js:43-50 | a lookup by key finds nothing exactly when the key is absent, and otherwise the stored item |
| `DocClient.GetKeyed` | app/dynamoSessionStorage.js:72-79 | in a well-keyed table, the item a lookup finds holds the looked-up key under the key attribute and no `undefined` value |
| `SessionStorage.FirstFree` | app/dynamoSessionStorage.js:33-53 | the loop stops at the first candidate whose lookup finds no item; all earlier candidates were taken; with none free, all candidates were taken |
| `SessionStorage.CreateReturnsFreshId` | app/dynamoSessionStorage.js:43-53 | a returned id is one of the candidates, was absent from the table before the call, and every candidate drawn before it was present |
| `SessionStorage.CreateFailures` | app/dynamoSessionStorage.js:51-68 | allocation runs out exactly when every candidate collides; a call that yields no id leaves the table unchanged; when some candidate is free, the data does not set the key attribute and the TTL name differs from the key name, an id is always returned (with the TTL name equal to the key name the put is refused, `PutAcceptsLiteral`) |
| `SessionStorage.CreateStoresItem` | app/dynamoSessionStorage.js:55-68 | when the data does not set the key attribute, the table afterwards is the old table plus the new item under the returned id, and no other key changes |
| `SessionStorage.CreateWithKeyInData` | app/dynamoSessionStorage.js:58-64 | when the data sets the key attribute to another string, the item is stored under that string, replacing any record already there, the returned id is still absent, and no other key changes |
| `SessionStorage.PutAcceptsLiteral` | app/dynamoSessionStorage.js:55-66 | the built item is accepted exactly when its key attribute ends up a string: the data's value when the data sets it, else the id unless the TTL attribute shares its name |
| `Items.RemoveUndefined` | app/dynamoSessionStorage.js:23-26 | `removeUndefinedValues` keeps exactly the attributes whose value is not `undefined`, unchanged |
| `Items.RoundSeconds` | app/dynamoSessionStorage.js:61 | the stored expiry is within half a second of `getTime() / 1000`, halves rounded up |
| `Items.RoundSecondsUnique` | app/dynamoSessionStorage.js:61 | no other whole second satisfies that bound, so the rounding is `Math.round` |
| `Items.TtlAttribute` | app/dynamoSessionStorage.js:60 | the computed key `[props.ttl]` is the configured TTL name, or the string `"undefined"` when none is configured |
| `Items.ItemLiteral` | app/dynamoSessionStorage.js:58-64 | the literal has exactly the data's attributes plus the key and TTL attributes; the spread data wins; otherwise the key attribute holds the id (unless the TTL attribute shares its name) and the TTL attribute holds the rounded expiry, or `undefined` when no expiry is given |
| `Items.NewItem` | app/dynamoSessionStorage.js:58-64 | the stored item holds every defined data attribute unchanged (data wins over the key and TTL attributes), the id under the key attribute, the rounded expiry exactly when one is given, no `undefined`, and nothing else |
| `DocClient.Put` | app/dynamoSessionStorage.js:55-66 | a put succeeds exactly when the item's key attribute is a string; it then replaces the item under that key with the item minus `undefined` values, changes no other key, and keeps every item filed under its own key |
| `Items.Stripped` | app/dynamoSessionStorage.js:80-83 | a read removes the key attribute and, when a TTL name is configured, the TTL attribute; every other attribute is kept unchanged |
| `Items.StripsTtl` | app/dynamoSessionStorage.js:82 | `if (props.ttl)` holds exactly when a TTL name is configured and is not empty; the TTL attribute is then the configured name |
| `Items.StripsWrittenTtl` | app/dynamoSessionStorage.js:82 | a read removes the attribute the expiry was written under exactly when the TTL name is truthy; otherwise that attribute, unless it is the key attribute, is returned whenever the item holds it |
| `SessionStorage.Read` | app/dynamoSessionStorage.js:71-85 | reading an id without an item gives absent, not an error; otherwise the item's attributes minus the key attribute and (if configured) the TTL attribute |
| `SessionStorage.ReadFindsKeyedItem` | app/dynamoSessionStorage.js:71-85 | in a table the store keeps well keyed, an item a read finds under an id holds that id under the key attribute, and the read returns no `undefined` value |
| `SessionStorage.DynamoSessionStorage.ReadData` | app/dynamoSessionStorage.js:71-85 | the method returns what `Read` specifies for the current table, and what it returns holds no `undefined` value |
| `SessionStorage.ReadNewItem` | app/dynamoSessionStorage.js:80-84 | reading a freshly built item returns exactly its data when the data has no `undefined` and does not use the key or TTL names, and a TTL name is configured or no expiry was given |
| `SessionStorage.ReadAfterCreate` | app/dynamoSessionStorage.js:55-84 | reading the id `createData` returned gives back exactly the data, under the same conditions |
| `SessionStorage.ReadKeepsExpiryWithoutTtlName` | app/dynamoSessionStorage.js:60-62 | without a usable TTL name and with an expiry given, a read returns the data plus the rounded expiry under the literal's TTL key (`"undefined"` when unset), provided the data holds no `undefined`, names neither the key nor the TTL attribute, and the TTL name differs from the key name |
| `SessionStorage.Update` | app/dynamoSessionStorage.js:86-98 | an update is accepted exactly when the item's key attribute ends up a string (the data's value when the data sets it, else the id unless the TTL name equals the key name); when the data does not set the key attribute, the id then holds the freshly built item |
| `SessionStorage.UpdateReplaces` | app/dynamoSessionStorage.js:86-98 | when the data does not set the key attribute and the TTL name differs from the key name, an update is accepted and needs no existing item; the table afterwards has the freshly built item at the id, previous attributes the data does not name are gone, and no other key changes |
| `SessionStorage.ReadAfterUpdate` | app/dynamoSessionStorage.js:86-98 | reading after an update returns exactly the update's data, provided the data holds no `undefined`, names neither the key nor the TTL attribute, the TTL name differs from the key name, and a TTL name is configured or no expiry is given; without a TTL name an expiry comes back as an extra attribute (`ReadKeepsExpiryWithoutTtlName`) |
| `SessionStorage.DynamoSessionStorage.UpdateData` | app/dynamoSessionStorage.js:86-99 | the table becomes the one `Update` yields, or stays unchanged with the store's refusal returned; table invariant kept |
| `DocClient.Delete` | app/dynamoSessionStorage.js:100-109 | delete removes the key whether or not it was present, and every other key keeps its item |
| `SessionStorage.ReadAfterDelete` | app/dynamoSessionStorage.js:100-109 | after a delete, reading the id gives absent, and deleting twice is the same as deleting once |
| `SessionStorage.DynamoSessionStorage.DeleteData` | app/dynamoSessionStorage.js:100-109 | the table becomes the old table without the id; table invariant kept |
| `SessionStorage.DynamoSessionStorage.CreateData` | app/dynamoSessionStorage.js:32-70 | the outcome and the new table are those `Create` gives for the candidates of the draws; a returned id is a 16-character hex id absent before the call; table invariant kept |
| `SessionStorage.DynamoSessionStorage.constructor` | app/dynamoSessionStorage.js:21-28 | the storage starts from a table the store keeps well keyed, with the configured key and TTL names |

## Left out

- DynamoDB client construction, the region, the table name and the `send` transport with `GetCommand`, `PutCommand` and `DeleteCommand` (app/dynamoSessionStorage.js:22-28, 43-50, 55-66, 72-79, 87-98, 101-108). The table is a map, and each command is a function on it.
- Store errors other than a refused put (network, throttling, permissions) are not modelled. DynamoDB's rejection of an empty-string key value and of an empty attribute name is not modelled either: `DocClient.Put` stores such items, `DocClient.Get` finds nothing under the empty key and `DocClient.Delete` removes nothing, where DynamoDB refuses `GetCommand` and `DeleteCommand` with an empty key, so `readData("")` and `deleteData("")` throw in the source.
- SessionStorage.ReadKeepsExpiryWithoutTtlName: with the TTL name set to `""` and an expiry given, DynamoDB refuses the put because of the empty attribute name. The model stores the item, and the lemma describes reading back that attribute. Its statement is only realistic when no TTL name is configured.
- The clock, and DynamoDB's deletion of items whose TTL attribute has passed, are not modelled. The table never loses an item by itself. So `ReadAfterCreate` and `ReadAfterUpdate` hold only when no expiry deletion runs between the write and the read.
- `crypto.randomBytes`: randomness is external, so its draws are a parameter.
- SessionStorage.DynamoSessionStorage.CreateData: the source loops forever until a free id turns up. The model only sees a finite supply of draws and answers `NoFreshCandidate` when that supply is used up.
- `createSessionStorage` and the cookie codec, which handle the framework wiring and cookie signing (app/dynamoSessionStorage.js:30-31).
- The whole of app/session.server.js is not part of this model. That covers cookie configuration, the environment check, redirects, the user lookup, and the `getUserId`/`requireUser`/`createUserSession`/`logout` helpers.
- Read consistency. `DocClient.Get` always sees the latest table, like a strongly consistent read. The source's `GetCommand`s do not set `ConsistentRead`, so DynamoDB serves eventually consistent reads that may miss a recent write (app/dynamoSessionStorage.js:44-49, 73-78). `ReadAfterCreate`, `ReadAfterUpdate` and `ReadAfterDelete`, and the collision check behind `Create`, `CreateReturnsFreshId` and `CreateData` ("absent from the table before the call"), hold only when each read sees the previous write.
- Concurrency and `async`/`await`. Every store call is a sequential step. The race between the lookup and the put of two concurrent `createData` calls is not modelled.
- Items.RoundSeconds: computes in exact integer arithmetic. The rounding error of the floating-point division `getTime() / 1000` is not modelled; it can only matter for timestamps near the end of the `Date` range. Invalid dates (`NaN`) are not modelled.
- Session values are limited to `undefined`, `null`, booleans, integers and strings. Nested objects and arrays are not modelled, so `removeUndefinedValues` inside nested maps is not modelled either. Non-integral numbers are not modelled.
- SessionStorage.DynamoSessionStorage.ReadData: the source deletes attributes from the fetched object in place. The model builds the stripped map as a new value, because no other code can see the fetched object.
