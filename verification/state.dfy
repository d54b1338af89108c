/** The per-invocation view of ledger state used by the transaction handler.

    The host's state holds, at each address, a serialized bucket: the list of
    identity records whose names and owner key hash to that address. Each
    invocation owns a cache from address to the serialized bucket it last saw
    there, `None` standing for an address known to be empty. Reads are lazy (the
    host is asked once per address, then the cache answers) and writes go
    through (the cache and the host are updated together). The host's
    get/set/delete calls are modelled as reading and updating `store`. */
module IdentityState {
  import opened Common
  import opened Addressing

  /** An identity record. `owner` is the signer's public key, fixed when the
      record is created. */
  datatype Identity = Identity(name: string, dateOfBirth: string, gender: string, owner: string)

  type Address = string

  /** The records at one address, keyed by name. */
  type Bucket = map<string, Identity>

  /** A serialized bucket: its records as a list. */
  type Blob = seq<Identity>

  datatype State = State(store: map<Address, Blob>, cache: map<Address, Option<Blob>>)

  /** What one invocation acts with: the hash function and the public key of
      the transaction's signer. The signer keys every address the invocation
      touches and owns every record it creates. */
  datatype Ctx = Ctx(h: Sha512, signer: string)

  function AddressOf(ctx: Ctx, name: string): Address {
    MakeAddress(ctx.h, name, ctx.signer)
  }

  // ---------------------------------------------------------------------------
  // Serialization of buckets

  predicate KeysMatchNames(b: Bucket) {
    forall n :: n in b ==> b[n].name == n
  }

  function NamesOf(data: Blob): set<string> {
    set i | 0 <= i < |data| :: data[i].name
  }

  predicate NamesUnique(data: Blob) {
    forall i, j :: 0 <= i < j < |data| ==> data[i].name != data[j].name
  }

  /** No later record in `data` has the name of the record at `i`. */
  predicate IsLastOfName(data: Blob, i: int)
    requires 0 <= i < |data|
  {
    forall j :: i < j < |data| ==> data[j].name != data[i].name
  }

  /** `_deserialize`: every record is keyed by its own name, a later record
      replacing an earlier one of the same name. */
  function Deserialize(data: Blob): (b: Bucket)
    ensures KeysMatchNames(b)
    ensures b.Keys == NamesOf(data)
  {
    if data == [] then map[]
    else
      var init, last := data[..|data| - 1], data[|data| - 1];
      assert NamesOf(data) == NamesOf(init) + {last.name} by {
        assert forall i :: 0 <= i < |init| ==> init[i] == data[i];
      }
      Deserialize(init)[last.name := last]
  }

  /** The record kept for a name is the last one of that name in the list. */
  lemma {:induction false} DeserializeKeepsLast(data: Blob, i: int)
    requires 0 <= i < |data| && IsLastOfName(data, i)
    ensures Deserialize(data)[data[i].name] == data[i]
  {
    var init := data[..|data| - 1];
    if i < |init| {
      assert init[i] == data[i];
      assert IsLastOfName(init, i);
      DeserializeKeepsLast(init, i);
    }
  }

  /** Every record kept is one of the list's records. */
  lemma {:induction false} DeserializeDrawsFromList(data: Blob, n: string)
    requires n in Deserialize(data)
    ensures Deserialize(data)[n] in data
  {
    var init, last := data[..|data| - 1], data[|data| - 1];
    if n != last.name {
      DeserializeDrawsFromList(init, n);
      assert Deserialize(data)[n] in init;
    }
  }

  /** `data` lists each record of `b` exactly once. */
  predicate Enumerates(data: Blob, b: Bucket) {
    && NamesUnique(data)
    && NamesOf(data) == b.Keys
    && forall i :: 0 <= i < |data| ==> data[i].name in b && b[data[i].name] == data[i]
  }

  /** `_serialize`: the bucket's records as a list, in the dictionary's
      iteration order, which is left unspecified here. */
  ghost function Serialize(b: Bucket): (data: Blob)
    ensures |data| == |b|
    decreases |b|
  {
    if b == map[] then []
    else
      var k :| k in b;
      var rest := b - {k};
      assert |rest| == |b| - 1 by {
        assert rest.Keys == b.Keys - {k};
      }
      Serialize(rest) + [b[k]]
  }

  lemma EnumeratesSnoc(front: Blob, rest: Bucket, r: Identity)
    requires Enumerates(front, rest)
    requires r.name !in rest
    ensures Enumerates(front + [r], rest[r.name := r])
  {
    var data, b := front + [r], rest[r.name := r];
    forall i | 0 <= i < |front|
      ensures data[i] == front[i] && data[i].name in rest && data[i].name != r.name
    {
      assert front[i].name in NamesOf(front);
    }
    assert NamesUnique(data);
    assert NamesOf(data) == b.Keys by {
      forall n | n in b
        ensures n in NamesOf(data)
      {
        if n == r.name {
          assert data[|front|].name == n;
        } else {
          assert n in NamesOf(front);
          var i :| 0 <= i < |front| && front[i].name == n;
          assert data[i].name == n;
        }
      }
    }
  }

  /** When every key is its record's name, serializing lists each record once. */
  lemma {:induction false} SerializeEnumerates(b: Bucket)
    requires KeysMatchNames(b)
    ensures Enumerates(Serialize(b), b)
    decreases |b|
  {
    if b != map[] {
      var k :| k in b && Serialize(b) == Serialize(b - {k}) + [b[k]];
      var rest := b - {k};
      assert |rest| < |b| by {
        assert rest.Keys == b.Keys - {k};
      }
      SerializeEnumerates(rest);
      EnumeratesSnoc(Serialize(rest), rest, b[k]);
      assert rest[k := b[k]] == b;
    }
  }

  /** Loading a list that enumerates a bucket finds each name's record. */
  lemma EnumeratedEntry(data: Blob, b: Bucket, n: string)
    requires Enumerates(data, b) && n in b
    ensures n in Deserialize(data) && Deserialize(data)[n] == b[n]
  {
    assert n in NamesOf(data);
    var i :| 0 <= i < |data| && data[i].name == n;
    assert IsLastOfName(data, i);
    DeserializeKeepsLast(data, i);
  }

  /** Loading a list that enumerates a bucket gives back the bucket. */
  lemma DeserializeEnumeration(data: Blob, b: Bucket)
    requires Enumerates(data, b)
    ensures Deserialize(data) == b
  {
    var d := Deserialize(data);
    assert d.Keys == b.Keys;
    assert forall n :: n in b ==> d[n] == b[n] by {
      forall n | n in b
        ensures d[n] == b[n]
      {
        EnumeratedEntry(data, b, n);
      }
    }
  }

  /** Reading back what was written gives back the bucket, provided every key
      is its record's name. */
  lemma {:induction false} DeserializeSerialize(b: Bucket)
    requires KeysMatchNames(b)
    ensures Deserialize(Serialize(b)) == b
  {
    SerializeEnumerates(b);
    DeserializeEnumeration(Serialize(b), b);
  }

  /** A list whose names are distinct has as many names as records. */
  lemma {:induction false} UniqueNamesCount(data: Blob)
    requires NamesUnique(data)
    ensures |NamesOf(data)| == |data|
  {
    if data != [] {
      var init := data[..|data| - 1];
      assert NamesUnique(init);
      UniqueNamesCount(init);
      assert NamesOf(data) == NamesOf(init) + {data[|data| - 1].name} by {
        assert forall i :: 0 <= i < |init| ==> init[i] == data[i];
      }
      assert data[|data| - 1].name !in NamesOf(init);
    }
  }

  /** Writing back what was read gives the same records, as many of them, when
      their names are distinct: a permutation of the list. */
  lemma {:induction false} SerializeDeserialize(data: Blob)
    requires NamesUnique(data)
    ensures |Serialize(Deserialize(data))| == |data|
    ensures forall r :: r in Serialize(Deserialize(data)) <==> r in data
  {
    var b := Deserialize(data);
    var s := Serialize(b);
    SerializeEnumerates(b);
    UniqueNamesCount(data);
    assert |b| == |b.Keys|;
    forall r | r in s
      ensures r in data
    {
      var i :| 0 <= i < |s| && s[i] == r;
      DeserializeDrawsFromList(data, r.name);
    }
    forall r | r in data
      ensures r in s
    {
      var i :| 0 <= i < |data| && data[i] == r;
      assert IsLastOfName(data, i);
      DeserializeKeepsLast(data, i);
      assert r.name in NamesOf(s);
      var j :| 0 <= j < |s| && s[j].name == r.name;
      assert s[j] == r;
    }
  }

  // ---------------------------------------------------------------------------
  // The store and the cache

  /** What the host holds at `a`. */
  function StoreEntry(store: map<Address, Blob>, a: Address): Option<Blob> {
    if a in store then Some(store[a]) else None
  }

  /** The bucket an entry denotes: nothing stored is the empty bucket. A cached
      `None` is read this way too. */
  function Contents(entry: Option<Blob>): Bucket {
    match entry
    case None => map[]
    case Some(data) => Deserialize(data)
  }

  /** The bucket the host holds at `a`. */
  function Stored(store: map<Address, Blob>, a: Address): Bucket {
    Contents(StoreEntry(store, a))
  }

  /** The record the host holds for `name` under the signer's key. */
  function Lookup(ctx: Ctx, store: map<Address, Blob>, name: string): Option<Identity> {
    var b := Stored(store, AddressOf(ctx, name));
    if name in b then Some(b[name]) else None
  }

  /** Every cached entry agrees with the host. */
  ghost predicate Coherent(st: State) {
    forall a :: a in st.cache ==> st.cache[a] == StoreEntry(st.store, a)
  }

  /** The state an invocation starts from: an empty cache over the host. */
  function Fresh(store: map<Address, Blob>): (st: State)
    ensures st.store == store && st.cache == map[]
    ensures Coherent(st)
  {
    State(store, map[])
  }

  datatype Loaded = Loaded(bucket: Bucket, st: State)

  /** `_load_identities`: ask the cache, and only on a miss ask the host,
      caching what it returned or, when nothing is stored, the absence. */
  function LoadIdentities(ctx: Ctx, st: State, name: string): (l: Loaded)
    ensures l.st.store == st.store
    ensures AddressOf(ctx, name) in l.st.cache
    ensures l.st.cache - {AddressOf(ctx, name)} == st.cache - {AddressOf(ctx, name)}
    ensures KeysMatchNames(l.bucket)
    ensures AddressOf(ctx, name) in st.cache ==> l.st == st
    ensures AddressOf(ctx, name) !in st.cache ==> l.bucket == Stored(st.store, AddressOf(ctx, name))
    ensures AddressOf(ctx, name) !in st.cache ==>
      l.st.cache[AddressOf(ctx, name)] == StoreEntry(st.store, AddressOf(ctx, name))
    ensures AddressOf(ctx, name) !in st.cache && AddressOf(ctx, name) !in st.store
            ==> l.bucket == map[] && l.st.cache[AddressOf(ctx, name)] == None
    ensures Coherent(st) ==> Coherent(l.st) && l.bucket == Stored(st.store, AddressOf(ctx, name))
  {
    var a := AddressOf(ctx, name);
    if a in st.cache then
      Loaded(Contents(st.cache[a]), st)
    else if a in st.store then
      var data := st.store[a];
      Loaded(Deserialize(data), st.(cache := st.cache[a := Some(data)]))
    else
      Loaded(map[], st.(cache := st.cache[a := None]))
  }

  /** A cache hit does not depend on the host: the same cache over any other
      store answers the same. */
  lemma CachedLoadIgnoresStore(ctx: Ctx, st: State, other: map<Address, Blob>, name: string)
    requires AddressOf(ctx, name) in st.cache
    ensures LoadIdentities(ctx, st.(store := other), name).bucket == LoadIdentities(ctx, st, name).bucket
    ensures LoadIdentities(ctx, st, name).st == st
  {
  }

  datatype Found = Found(identity: Option<Identity>, st: State)

  /** `get_identity`: the record stored for `name`, if any. */
  function GetIdentity(ctx: Ctx, st: State, name: string): (f: Found)
    ensures f.st.store == st.store
    ensures f.identity.Some? ==> f.identity.value.name == name
    ensures Coherent(st) ==> Coherent(f.st) && f.identity == Lookup(ctx, st.store, name)
  {
    var l := LoadIdentities(ctx, st, name);
    Found(if name in l.bucket then Some(l.bucket[name]) else None, l.st)
  }

  /** `_store_identity`: serialize the bucket and write it to the cache and
      the host together. */
  ghost function StoreIdentities(ctx: Ctx, st: State, name: string, b: Bucket): (st': State)
    ensures AddressOf(ctx, name) in st'.store
    ensures st'.cache == st.cache[AddressOf(ctx, name) := Some(st'.store[AddressOf(ctx, name)])]
    ensures st'.store - {AddressOf(ctx, name)} == st.store - {AddressOf(ctx, name)}
    ensures st'.cache - {AddressOf(ctx, name)} == st.cache - {AddressOf(ctx, name)}
    ensures |st'.store[AddressOf(ctx, name)]| == |b|
    ensures KeysMatchNames(b) ==> Stored(st'.store, AddressOf(ctx, name)) == b
    ensures Coherent(st) ==> Coherent(st')
  {
    var a := AddressOf(ctx, name);
    var data := Serialize(b);
    assert KeysMatchNames(b) ==> Deserialize(data) == b by {
      if KeysMatchNames(b) {
        DeserializeSerialize(b);
      }
    }
    State(st.store[a := data], st.cache[a := Some(data)])
  }

  /** `_delete_identity`: remove the address from the host and record its
      absence in the cache. */
  function DeleteAddress(ctx: Ctx, st: State, name: string): (st': State)
    ensures AddressOf(ctx, name) !in st'.store
    ensures st'.cache == st.cache[AddressOf(ctx, name) := None]
    ensures st'.store - {AddressOf(ctx, name)} == st.store - {AddressOf(ctx, name)}
    ensures st'.cache - {AddressOf(ctx, name)} == st.cache - {AddressOf(ctx, name)}
    ensures Stored(st'.store, AddressOf(ctx, name)) == map[]
    ensures Coherent(st) ==> Coherent(st')
  {
    var a := AddressOf(ctx, name);
    State(st.store - {a}, st.cache[a := None])
  }

  /** `set_identity`: add or overwrite `name` in its bucket and write the
      bucket through. */
  ghost function SetIdentity(ctx: Ctx, st: State, name: string, rec: Identity): (st': State)
    ensures AddressOf(ctx, name) in st'.store
    ensures st'.cache == st.cache[AddressOf(ctx, name) := Some(st'.store[AddressOf(ctx, name)])]
    ensures st'.store - {AddressOf(ctx, name)} == st.store - {AddressOf(ctx, name)}
    ensures st'.store[AddressOf(ctx, name)] != []
    ensures Coherent(st) ==> Coherent(st')
    ensures Coherent(st) && rec.name == name ==>
      Stored(st'.store, AddressOf(ctx, name)) == Stored(st.store, AddressOf(ctx, name))[name := rec]
  {
    var l := LoadIdentities(ctx, st, name);
    StoreIdentities(ctx, l.st, name, l.bucket[name := rec])
  }

  /** The result of a step that may be rejected, with the state it leaves. */
  datatype Step = Step(res: Result<(), Error>, st: State)

  /** `delete_identity`: remove `name` from its bucket; store what remains, or
      remove the address when nothing remains. A name not in the bucket is an
      internal error and nothing is written. */
  ghost function DeleteIdentity(ctx: Ctx, st: State, name: string): (o: Step)
    ensures name !in LoadIdentities(ctx, st, name).bucket ==>
      o.res == Failure(NoSuchIdentity) && o.st.store == st.store
    ensures o.st.store - {AddressOf(ctx, name)} == st.store - {AddressOf(ctx, name)}
    ensures o.st.cache - {AddressOf(ctx, name)} == st.cache - {AddressOf(ctx, name)}
    ensures AddressOf(ctx, name) in o.st.store ==> o.st.store[AddressOf(ctx, name)] != [] || o.res.Failure?
    ensures Coherent(st) ==> Coherent(o.st)
  {
    var l := LoadIdentities(ctx, st, name);
    if name !in l.bucket then
      Step(Failure(NoSuchIdentity), l.st)
    else
      var rest := l.bucket - {name};
      if rest != map[] then
        Step(Success(()), StoreIdentities(ctx, l.st, name, rest))
      else
        Step(Success(()), DeleteAddress(ctx, l.st, name))
  }

  /** Deleting a name the host holds succeeds and removes that name only; the
      bucket's other records stay stored, and when none remain the address is
      removed from the host and its absence cached. */
  lemma DeleteIdentityRemovesOnlyName(ctx: Ctx, st: State, name: string)
    requires Coherent(st)
    requires name in Stored(st.store, AddressOf(ctx, name))
    ensures var o := DeleteIdentity(ctx, st, name);
      && o.res.Success?
      && Stored(o.st.store, AddressOf(ctx, name)) == Stored(st.store, AddressOf(ctx, name)) - {name}
      && (Stored(st.store, AddressOf(ctx, name)) - {name} == map[] ==>
            && AddressOf(ctx, name) !in o.st.store
            && AddressOf(ctx, name) in o.st.cache && o.st.cache[AddressOf(ctx, name)] == None)
  {
    var l := LoadIdentities(ctx, st, name);
    assert KeysMatchNames(l.bucket - {name});
  }

  // ---------------------------------------------------------------------------
  // The load as the source writes it

  /** `_load_identities` exactly as written: a cached absence is handed to the
      deserializer, which cannot decode it. */
  function LoadIdentitiesAsWritten(ctx: Ctx, st: State, name: string): (r: Result<Loaded, Error>)
    ensures AddressOf(ctx, name) in st.cache && st.cache[AddressOf(ctx, name)] == None
            ==> r == Failure(UndecodableCacheEntry)
    ensures !(AddressOf(ctx, name) in st.cache && st.cache[AddressOf(ctx, name)] == None)
            ==> r == Success(LoadIdentities(ctx, st, name))
  {
    var a := AddressOf(ctx, name);
    if a in st.cache && st.cache[a] == None then Failure(UndecodableCacheEntry)
    else Success(LoadIdentities(ctx, st, name))
  }

  /** `set_identity` over the as-written load. */
  ghost function SetIdentityAsWritten(ctx: Ctx, st: State, name: string, rec: Identity): (r: Result<State, Error>)
    ensures r.Failure? <==> AddressOf(ctx, name) in st.cache && st.cache[AddressOf(ctx, name)] == None
    ensures r.Failure? ==> r.error == UndecodableCacheEntry
    ensures r.Success? ==> r.value == SetIdentity(ctx, st, name, rec)
  {
    match LoadIdentitiesAsWritten(ctx, st, name)
    case Failure(e) => Failure(e)
    case Success(l) => Success(StoreIdentities(ctx, l.st, name, l.bucket[name := rec]))
  }

  /** As written, creating the first record at an address fails: looking the
      name up caches the address's absence, and storing the new record loads
      that cached absence again. */
  lemma CreateAtFreshAddressFailsAsWritten(ctx: Ctx, store: map<Address, Blob>, name: string, rec: Identity)
    requires AddressOf(ctx, name) !in store
    ensures var f := GetIdentity(ctx, Fresh(store), name);
      f.identity == None && SetIdentityAsWritten(ctx, f.st, name, rec) == Failure(UndecodableCacheEntry)
  {
  }

  /** With a cached absence read as the empty bucket, the same sequence stores
      a bucket holding just the new record. */
  lemma CreateAtFreshAddress(ctx: Ctx, store: map<Address, Blob>, name: string, rec: Identity)
    requires AddressOf(ctx, name) !in store
    requires rec.name == name
    ensures var f := GetIdentity(ctx, Fresh(store), name);
      f.identity == None && Stored(SetIdentity(ctx, f.st, name, rec).store, AddressOf(ctx, name)) == map[name := rec]
  {
  }
}
