# Identity transaction family: a Dafny model

This project models the ledger-side logic of the Sawtooth identity
transaction family. A transaction carries a payload with four fields:
`Action`, `Name`, `Date_of_birth` and `Gender`. The processor validates the
payload. It looks the name up at a state address derived from the family
namespace, the name and the signer's public key. It then creates, updates or
deletes an identity record, checking that the record exists and who owns it.

Several names can hash to one address, so each address holds a *bucket*:
the serialized list of its records, keyed by name once loaded. Each
invocation reads state through its own cache. A load asks the host once per
address and records an absent address too. A write goes to the cache and to
the host together. A bucket that becomes empty is removed from state.

Modules, one per source component:

- `Common` (common.dfy): `Option`, `Result` and the error taxonomy.
- `Addressing` (addressing.dfy): the namespace and the 70-hex-digit address.
  SHA-512 is the parameter `h: Sha512`. Its result is known only to be 128
  lowercase hex digits.
- `Payloads` (payload.dfy): decoding and the ordered validation checks.
- `IdentityState` (state.dfy): records, buckets, (de)serialization, and the
  cache over the host's state (`store`).
- `Handler` (handler.dfy): family registration, `apply` and whole
  invocations (`Process`), plus the invariants of the host's state.
- `Client` (client.dfy): the client's prefix and address, and the payloads it
  builds for create, delete and update.

State is the pair `State(store, cache)`. Here `store: map<Address, seq<Identity>>`
is the host's state, and `cache: map<Address, Option<seq<Identity>>>` is the
invocation's cache, where `None` means the address is known to be absent.
Every operation is a pure function from a state to a result and a new
state. `Serialize` has to pick the dictionary's iteration order, which the
model leaves unspecified. It is therefore a ghost function, and so is every
operation that writes.

The source has evident defects. The model follows the evident intent, and
the Dafny comments say where:

- The signer is never passed to the state code (`self._signer` in
  `_make_identity_address` and in `Identity.__init__`). Here it is passed
  explicitly as `Ctx.signer`. It keys the address suffix and becomes the
  owner of every created record.
- `_make_identity_address` slices the hash object of the key instead of its
  hex digest. The model slices the digest.
- `identity_state.py:24-25` are stray lines, and `_serialize` returns an
  undefined name (`serialized_identity`). Neither is modelled.
- A cached absence (`None`) is handed to `_deserialize`. Here it reads as the
  empty bucket. See Findings.
- `handler.py:76` passes the looked-up record where the name is meant. The
  model deletes the payload's name.
- `_update_identity` returns nothing. The model returns the mutated record.
- In the client, line 110 compares with `=` and line 266 lacks a comma. The
  model reads them as `==` and as a four-key dictionary.
- Decoding a payload (`identity_payload.py:23-31`) catches only `ValueError`.
  A missing key raises `KeyError`, and most undecodable bytes raise
  `UnpicklingError` or `EOFError`. Those escape `apply` as exceptions that
  are not `InvalidTransaction`. The model rejects all of them with
  `MalformedPayload`, an ordinary rejection. The claim in `Handler.Process`
  that a rejection is never an internal error rests on that reading.
- The client's `update` (`identity_client.py:97-124`) reads back the record
  with `show(name)` (`identity_client.py:173-194`). That returns the
  unpickled contents of the address, which is the whole bucket: a list of
  `Identity` objects (`identity_state.py:224-228`). `update` then indexes it
  as `old_payload["Date_of_birth"]` and `old_payload["Gender"]`. That raises
  `TypeError`, or, when unpickling fails, `show` returns `None` and `update`
  raises `IdentityException`. So as written, a client update never sends
  anything. The model's parameter `current` is the record of `name` inside
  the bucket at the client's address. `Client.ClientUpdateChangesOneField`
  and `Client.ClientRenameLooksUpNewName` hold under that reading.

Behaviour worth noting:

- Addresses are keyed by the signer. A name created by one key is invisible
  to a key whose hash suffix differs. That key's create of the same name
  succeeds at its own address. Its update is rejected because the record is
  missing, not because of ownership (`Handler.SameNameOtherSigner`). With
  records always stored where they belong, the ownership rejection needs two
  keys whose 58-digit suffixes collide (`Handler.NotOwnerNeedsSuffixCollision`).
- Update looks the record up by the payload's name and writes it back under
  that same name. No record ever moves between addresses. A rename from the
  client sends the new name, so it is rejected unless the new name already
  exists (`Client.ClientRenameLooksUpNewName`). No migration rule is invented.
- Gender must be exactly one of the eight tokens
  `m f M F male female Male Female`. The match is case-sensitive.
- A date of birth is required for every action, delete included. The
  client's delete sends an empty one, so every client delete is rejected
  (`Client.ClientDeleteIsRejected`).
- Each rejection message of the source is its own error (`ActionRequired`,
  `InvalidAction`, ...).

## Model

| member | source | states |
|---|---|---|
| `Addressing.Namespace` | sawtooth_identity/processor/identity_state.py:21 | the namespace is the first 6 hex digits of the hash of "identity" |
| `Addressing.MakeAddress` | sawtooth_identity/processor/identity_state.py:27-30 | an address has 70 hex digits: the namespace, then the first 6 digits of H(name), then the last 58 digits of H(signer key) |
| `Addressing.AddressEquality` | sawtooth_identity/processor/identity_state.py:27-30 | two addresses are equal exactly when their name parts and their key parts are equal |
| `Addressing.CollidingNamesShareAddress` | sawtooth_identity/processor/identity_state.py:27-30 | names whose hashes share the first 6 digits map to one address under one key |
| `Addressing.DistinctKeysDistinctAddresses` | sawtooth_identity/processor/identity_state.py:27-30 | one name under keys with different hash suffixes gets two different addresses |
| `Payloads.Validate` | sawtooth_identity/processor/identity_payload.py:33-75 | a payload is accepted exactly when action, name, date of birth and gender all pass; an accepted payload is kept unchanged; an empty action, a non-action, an empty name or one containing '\|', an empty date of birth (for every action) and a gender outside the 8 tokens are each rejected |
| `Payloads.Parse` | sawtooth_identity/processor/identity_payload.py:22-31 | undecodable bytes and a dictionary missing any of the four keys are malformed; a dictionary holding the four keys, whatever else it holds, gets exactly validation's verdict on their four values; an accepted payload carries those values and is valid |
| `Payloads.Encode` | sawtooth_identity/identity_client.py:264-270 | the client's dictionary has exactly the keys Action, Name, Date_of_birth and Gender, holding the payload's action, name, date of birth and gender |
| `Payloads.ParseEncode` | sawtooth_identity/identity_client.py:264-273 | decoding the dictionary the client builds gives back the payload exactly when it is valid, and otherwise the validation rejection |
| `Payloads.FirstFailure` | sawtooth_identity/processor/identity_payload.py:33-70 | reference semantics of an ordered check list: no rejection exactly when all checks pass, otherwise the rejection of a failing check before which every check passes |
| `Payloads.ValidateReportsFirstFailure` | sawtooth_identity/processor/identity_payload.py:33-70 | validation rejects with the first failing check in source order, and accepts when none fails |
| `Payloads.GenderIsCaseSensitive` | sawtooth_identity/processor/identity_payload.py:69-70 | "MALE" is rejected as an invalid gender while "Male" is accepted |
| `IdentityState.Deserialize` | sawtooth_identity/processor/identity_state.py:192-211 | the loaded bucket keys every record by its own name, and its keys are exactly the names in the list |
| `IdentityState.DeserializeKeepsLast` | sawtooth_identity/processor/identity_state.py:203-207 | for each name, the record kept is the last one of that name in the list |
| `IdentityState.DeserializeDrawsFromList` | sawtooth_identity/processor/identity_state.py:203-207 | every record kept comes from the list |
| `IdentityState.Serialize` | sawtooth_identity/processor/identity_state.py:213-228 | the list has one entry per bucket entry |
| `IdentityState.SerializeEnumerates` | sawtooth_identity/processor/identity_state.py:224-226 | when every key is its record's name, the list holds each bucket record once, with distinct names covering exactly the keys |
| `IdentityState.DeserializeEnumeration` | sawtooth_identity/processor/identity_state.py:192-211 | loading a list that holds each record of a bucket once, under distinct names covering its keys, gives back that bucket |
| `IdentityState.DeserializeSerialize` | sawtooth_identity/processor/identity_state.py:192-228 | deserialize(serialize(b)) == b whenever every key of b equals its record's name |
| `IdentityState.SerializeDeserialize` | sawtooth_identity/processor/identity_state.py:192-228 | re-serializing a loaded list with distinct names gives the same records, as many of them |
| `IdentityState.Fresh` | sawtooth_identity/processor/identity_state.py:49-62 | a new invocation works over the host's state with an empty cache, which agrees with the host |
| `IdentityState.LoadIdentities` | sawtooth_identity/processor/identity_state.py:149-190 | loading never writes the host; a cache hit changes nothing; a miss caches the host's entry or the absence, and returns the stored bucket or the empty one; with a coherent cache the result is always the host's bucket and the cache stays coherent |
| `IdentityState.CachedLoadIgnoresStore` | sawtooth_identity/processor/identity_state.py:155-161 | a cached address is answered without consulting the host: any other host state gives the same bucket |
| `IdentityState.GetIdentity` | sawtooth_identity/processor/identity_state.py:65-77 | the record returned has the looked-up name, and with a coherent cache it is the one the host holds |
| `IdentityState.StoreIdentities` | sawtooth_identity/processor/identity_state.py:125-136 | the bucket is written to the host and the cache together, no other address changes, and reading it back gives the bucket when its keys are its records' names |
| `IdentityState.DeleteAddress` | sawtooth_identity/processor/identity_state.py:138-147 | the address leaves the host, the cache records its absence, and nothing else changes |
| `IdentityState.SetIdentity` | sawtooth_identity/processor/identity_state.py:111-123 | afterwards cache and host hold the same non-empty bucket at the address, which is the old bucket with only `name` added or overwritten; other addresses are unchanged |
| `IdentityState.DeleteIdentity` | sawtooth_identity/processor/identity_state.py:80-108 | a name not in the bucket raises an internal error with no write; only the name's address changes; a stored bucket is never empty |
| `IdentityState.DeleteIdentityRemovesOnlyName` | sawtooth_identity/processor/identity_state.py:90-108 | deleting a held name succeeds and leaves the other records stored; an emptied bucket's address is removed and marked absent in the cache |
| `IdentityState.LoadIdentitiesAsWritten` | sawtooth_identity/processor/identity_state.py:155-161 | as written, a cached absence fails to deserialize; any other load behaves as the corrected one |
| `IdentityState.SetIdentityAsWritten` | sawtooth_identity/processor/identity_state.py:111-123 | as written, storing a record fails exactly when its address is cached as absent, and otherwise does what the corrected store does |
| `IdentityState.CreateAtFreshAddressFailsAsWritten` | sawtooth_identity/processor/identity_state.py:182-188 | as written, looking up a name at an empty address and then storing a record there fails on the cached absence |
| `IdentityState.CreateAtFreshAddress` | sawtooth_identity/processor/identity_state.py:182-188 | reading the cached absence as empty, the same sequence stores a bucket holding just the new record |
| `Handler.Family` | sawtooth_identity/processor/handler.py:34-44 | the handler advertises family "identity", versions ["0.1"], and one namespace that prefixes every derived address |
| `Handler.UpdateIdentity` | sawtooth_identity/processor/handler.py:116-119 | the update takes name, date of birth and gender from the payload and keeps the owner |
| `Handler.Apply` | sawtooth_identity/processor/handler.py:46-114 | an unhandled action is rejected before any state access; a rejection writes nothing and is never an internal error; only the payload name's address can change, and it is never left holding an empty list |
| `Handler.Process` | sawtooth_identity/processor/handler.py:46-65 | a malformed or invalid payload is rejected with the validation error and no write; every rejection leaves the host's state unchanged |
| `Handler.ApplyDelete` | sawtooth_identity/processor/handler.py:70-76 | deleting an absent name is rejected with no write; otherwise only that name leaves its bucket, and an emptied address leaves the state |
| `Handler.ApplyCreate` | sawtooth_identity/processor/handler.py:78-92 | creating an existing name is rejected with no write; otherwise the bucket gains the record with the payload's name, date of birth and gender, owned by the signer, under the payload's name |
| `Handler.ApplyUpdate` | sawtooth_identity/processor/handler.py:95-114 | updating an absent name or one owned by another key is rejected with no write; otherwise the record under the payload's name gets the payload's fields and keeps its owner |
| `Handler.ApplyPreservesWellPlaced` | sawtooth_identity/processor/handler.py:68-112 | every invocation keeps each record at the address of its own name and its owner's key, and leaves no empty bucket stored |
| `Handler.FoundOwnerSharesSuffix` | sawtooth_identity/processor/handler.py:101-104 | a record found under the signer's key has the looked-up name and an owner whose hash suffix equals the signer's |
| `Handler.NotOwnerNeedsSuffixCollision` | sawtooth_identity/processor/handler.py:101-104 | an ownership rejection happens only when owner and signer differ but their 58-digit hash suffixes collide |
| `Handler.CreateThenLookup` | sawtooth_identity/processor/handler.py:78-92 | a valid create of an absent name makes the lookup return exactly the payload's fields with the signer as owner |
| `Handler.SameNameOtherSigner` | sawtooth_identity/processor/handler.py:68-104 | after one key creates a name, a key with a different suffix still sees it absent, creates it successfully, and has its update rejected for a missing record |
| `Handler.DeleteLastRemovesAddress` | sawtooth_identity/processor/identity_state.py:98-108 | deleting the only record at an address removes the address from state |
| `Handler.DeleteKeepsBucketMate` | sawtooth_identity/processor/identity_state.py:90-104 | deleting one of two names sharing an address leaves the other retrievable, unchanged |
| `Client.Prefix` | sawtooth_identity/identity_client.py:206-207 | the client's prefix is 6 characters long and is the processor's namespace, the first 6 hex digits of the hash of "identity" |
| `Client.ClientAddress` | sawtooth_identity/identity_client.py:209-213 | the client's address for a name and key equals the processor's address, and its prefix equals the namespace |
| `Client.ClientAddressCollides` | sawtooth_identity/identity_client.py:209-213 | under one key, names whose hashes share the first 6 digits go to one address |
| `Client.CreatePayload` | sawtooth_identity/identity_client.py:81-88 | a client create carries the given name, date of birth and gender, and is valid exactly when they pass validation |
| `Client.ClientCreateStoresRecord` | sawtooth_identity/identity_client.py:81-88 | a valid client create succeeds exactly when the name is not yet stored under the signer's key, and then stores the given fields owned by the signer; otherwise it is rejected as existing and changes nothing |
| `Client.DeletePayload` | sawtooth_identity/identity_client.py:90-95 | a client delete sends an empty date of birth and an empty gender |
| `Client.UpdatePayload` | sawtooth_identity/identity_client.py:97-124 | with no existing record it fails; 'name' sends the value as the name with the old date of birth and gender; 'date_of_birth' and 'gender' replace only that field; another parameter fails |
| `Client.ClientDeleteIsRejected` | sawtooth_identity/identity_client.py:255-270 | every client delete is rejected by validation (for a well-formed name, for its missing date of birth) and never changes state |
| `Client.ClientUpdateChangesOneField` | sawtooth_identity/identity_client.py:106-124 | a client update of date of birth or gender on one's own record changes exactly that field |
| `Client.ClientRenameLooksUpNewName` | sawtooth_identity/identity_client.py:102-105 | a client rename to a name that is not stored is rejected as a missing record, and the old record stays where it was |

## Left out

- Pickle byte encoding. A payload arrives as `Wire`: either undecodable or
  a dictionary of strings. A stored bucket is the list of its records.
  Payload fields of other Python types are not modelled.
- The failure of `_deserialize` on corrupt stored data
  (`identity_state.py:208-209`). The host's state always holds record lists
  in this model.
- SHA-512 itself. It is the parameter `h`. Only the digest's length and hex
  alphabet are used.
- The host's timeouts (`TIMEOUT = 3`), failures of `get_state`, `set_state`
  and `delete_state`, and concurrency and ordering between invocations. The
  host's calls always succeed here.
- `_display` and all logging.
- In the client: HTTP requests, authentication headers, YAML and base64
  parsing, key loading, signing, transaction and batch construction,
  `list`, and `show`. The record that `update` reads back is the parameter
  `current` (see the note on `update` above).
- The command-line front end, the processor's entry point and the message
  factory.
- Serialize: the dictionary's iteration order is left unspecified. Its
  contract fixes only the list's length. The content and order facts come
  from `SerializeEnumerates`.

## Findings

| source | as written | input that shows it | evidently intended | confidence | as-written member | corrected member |
|---|---|---|---|---|---|---|
| sawtooth_identity/processor/identity_state.py:155-161 | a cached `None` (an address known to be absent, cached at line 187) is passed to `_deserialize`, whose `pickle.loads(None)` raises | a create of a name whose address holds nothing: `get_identity` caches the absence, then `set_identity` loads it again; this shows once the signer is passed to the state code, since as written `_make_identity_address` already fails at line 30 on the undefined `self._signer` | a cached absence is the empty bucket, so the create stores a bucket holding just the new record | high (not executed) | `IdentityState.SetIdentityAsWritten`, `IdentityState.CreateAtFreshAddressFailsAsWritten` | `IdentityState.CreateAtFreshAddress` |
