/** The identity transaction handler: decode and validate the payload, look
    the name up at its address under the signer's key, then create, update or
    delete it, with existence and ownership checks. */
module Handler {
  import opened Common
  import opened Addressing
  import opened Payloads
  import opened IdentityState

  datatype FamilyInfo = FamilyInfo(name: string, versions: seq<string>, namespaces: seq<string>)

  const FamilyVersion := "0.1"

  /** What the handler advertises to the host for routing: one family, one
      version, one namespace, and that namespace covers every address the
      handler derives. */
  function Family(h: Sha512): (f: FamilyInfo)
    ensures f.name == FamilyName && f.versions == [FamilyVersion]
    ensures |f.namespaces| == 1 && |f.namespaces[0]| == PrefixLength
    ensures forall name, key :: f.namespaces[0] <= MakeAddress(h, name, key)
  {
    FamilyInfo(FamilyName, [FamilyVersion], [Namespace(h)])
  }

  /** `_update_identity`: overwrite the three payload fields; the owner is
      kept. The source returns nothing; the mutated record is returned here. */
  function UpdateIdentity(rec: Identity, p: Payload): (r: Identity)
    ensures r.owner == rec.owner
    ensures r.name == p.name && r.dateOfBirth == p.dateOfBirth && r.gender == p.gender
  {
    rec.(name := p.name, dateOfBirth := p.dateOfBirth, gender := p.gender)
  }

  /** `apply` after the payload has been decoded. Every lookup and write is at
      the payload name's address under the signer's key. A delete removes the
      name the payload carries (the source passes the looked-up record where
      the name is meant). */
  ghost function Apply(ctx: Ctx, p: Payload, st: State): (o: Step)
    ensures p.action !in Actions ==> o == Step(Failure(UnhandledAction), st)
    ensures o.res.Failure? ==> o.st.store == st.store
    ensures o.res.Failure? ==> !o.res.error.IsInternal()
    ensures o.st.store - {AddressOf(ctx, p.name)} == st.store - {AddressOf(ctx, p.name)}
    ensures o.res.Success? && AddressOf(ctx, p.name) in o.st.store ==> o.st.store[AddressOf(ctx, p.name)] != []
    ensures Coherent(st) ==> Coherent(o.st)
  {
    if p.action !in Actions then
      Step(Failure(UnhandledAction), st)
    else
      var f := GetIdentity(ctx, st, p.name);
      if p.action == "delete" then
        if f.identity.None? then
          Step(Failure(NameDoesNotExist), f.st)
        else
          DeleteIdentity(ctx, f.st, p.name)
      else if p.action == "create" then
        if f.identity.Some? then
          Step(Failure(IdentityAlreadyExists), f.st)
        else
          var rec := Identity(p.name, p.dateOfBirth, p.gender, ctx.signer);
          Step(Success(()), SetIdentity(ctx, f.st, p.name, rec))
      else
        if f.identity.None? then
          Step(Failure(UpdateRequiresExisting), f.st)
        else if f.identity.value.owner != ctx.signer then
          Step(Failure(NotOwner), f.st)
        else
          Step(Success(()), SetIdentity(ctx, f.st, p.name, UpdateIdentity(f.identity.value, p)))
  }

  datatype Outcome = Outcome(res: Result<(), Error>, store: map<Address, Blob>)

  /** One invocation as the host sees it: decode the payload, then apply it
      with a fresh cache over the host's state. */
  ghost function Process(ctx: Ctx, w: Wire, store: map<Address, Blob>): (o: Outcome)
    ensures Parse(w).Failure? ==> o == Outcome(Failure(Parse(w).error), store)
    ensures o.res.Failure? ==> o.store == store
    ensures o.res.Failure? ==> !o.res.error.IsInternal()
    ensures Parse(w).Success? ==>
      o.store - {AddressOf(ctx, Parse(w).value.name)} == store - {AddressOf(ctx, Parse(w).value.name)}
  {
    match Parse(w)
    case Failure(e) => Outcome(Failure(e), store)
    case Success(p) =>
      var s := Apply(ctx, p, Fresh(store));
      Outcome(s.res, s.st.store)
  }

  // ---------------------------------------------------------------------------
  // What each action does to the host's state

  /** Delete rejects an absent name and writes nothing; otherwise it removes
      that name alone, and removes the address when the bucket empties. */
  lemma ApplyDelete(ctx: Ctx, p: Payload, st: State)
    requires Coherent(st) && p.action == "delete"
    ensures var o, a := Apply(ctx, p, st), AddressOf(ctx, p.name);
      && (Lookup(ctx, st.store, p.name).None? ==> o.res == Failure(NameDoesNotExist) && o.st.store == st.store)
      && (Lookup(ctx, st.store, p.name).Some? ==>
            && o.res.Success?
            && Stored(o.st.store, a) == Stored(st.store, a) - {p.name}
            && (Stored(st.store, a) - {p.name} == map[] ==> a !in o.st.store))
  {
    var f := GetIdentity(ctx, st, p.name);
    if f.identity.Some? {
      DeleteIdentityRemovesOnlyName(ctx, f.st, p.name);
    }
  }

  /** Create rejects a name already present and writes nothing; otherwise it
      adds a record with the payload's fields, owned by the signer, under the
      payload's name, leaving the bucket's other records as they were. */
  lemma ApplyCreate(ctx: Ctx, p: Payload, st: State)
    requires Coherent(st) && p.action == "create"
    ensures var o, a := Apply(ctx, p, st), AddressOf(ctx, p.name);
      && (Lookup(ctx, st.store, p.name).Some? ==> o.res == Failure(IdentityAlreadyExists) && o.st.store == st.store)
      && (Lookup(ctx, st.store, p.name).None? ==>
            && o.res.Success?
            && Stored(o.st.store, a)
               == Stored(st.store, a)[p.name := Identity(p.name, p.dateOfBirth, p.gender, ctx.signer)])
  {
  }

  /** Update rejects an absent name and a record the signer does not own,
      writing nothing; otherwise it replaces the record's name, date of birth
      and gender under the key it was looked up by, keeping its owner. */
  lemma ApplyUpdate(ctx: Ctx, p: Payload, st: State)
    requires Coherent(st) && p.action == "update"
    ensures var o, a := Apply(ctx, p, st), AddressOf(ctx, p.name);
      && (Lookup(ctx, st.store, p.name).None? ==> o.res == Failure(UpdateRequiresExisting) && o.st.store == st.store)
      && (Lookup(ctx, st.store, p.name).Some? && Lookup(ctx, st.store, p.name).value.owner != ctx.signer ==>
            o.res == Failure(NotOwner) && o.st.store == st.store)
      && (Lookup(ctx, st.store, p.name).Some? && Lookup(ctx, st.store, p.name).value.owner == ctx.signer ==>
            && o.res.Success?
            && Stored(o.st.store, a)
               == Stored(st.store, a)[p.name := Identity(p.name, p.dateOfBirth, p.gender, ctx.signer)])
  {
  }

  // ---------------------------------------------------------------------------
  // Invariants of the host's state

  /** Every record of bucket `b` belongs at address `a`. */
  ghost predicate PlacedAt(h: Sha512, b: Bucket, a: Address) {
    forall n :: n in b ==> a == MakeAddress(h, n, b[n].owner)
  }

  /** Every record the host holds sits at the address derived from its own
      name and its owner's key, and no address holds an empty bucket. */
  ghost predicate WellPlaced(h: Sha512, store: map<Address, Blob>) {
    forall a :: a in store ==> store[a] != [] && PlacedAt(h, Stored(store, a), a)
  }

  /** Changing only the bucket at `a` keeps the store well placed when the new
      bucket belongs there and is not stored empty. */
  lemma WellPlacedAfterWrite(h: Sha512, store: map<Address, Blob>, store': map<Address, Blob>, a: Address)
    requires WellPlaced(h, store)
    requires store' - {a} == store - {a}
    requires a in store' ==> store'[a] != []
    requires PlacedAt(h, Stored(store', a), a)
    ensures WellPlaced(h, store')
  {
    forall a' | a' in store'
      ensures store'[a'] != [] && PlacedAt(h, Stored(store', a'), a')
    {
      if a' != a {
        assert a' in store' - {a};
        assert a' in store && store'[a'] == store[a'];
        assert Stored(store', a') == Stored(store, a');
      }
    }
  }

  /** Every invocation, accepted or rejected, keeps the host's state well
      placed. */
  lemma ApplyPreservesWellPlaced(ctx: Ctx, p: Payload, st: State)
    requires Coherent(st) && WellPlaced(ctx.h, st.store)
    ensures WellPlaced(ctx.h, Apply(ctx, p, st).st.store)
  {
    var o, a := Apply(ctx, p, st), AddressOf(ctx, p.name);
    if o.res.Success? {
      var oldBucket := Stored(st.store, a);
      if p.action == "delete" {
        ApplyDelete(ctx, p, st);
        PlacedAfterRemove(ctx.h, oldBucket, a, p.name);
      } else {
        var rec := Identity(p.name, p.dateOfBirth, p.gender, ctx.signer);
        if p.action == "create" {
          ApplyCreate(ctx, p, st);
        } else if p.action == "update" {
          ApplyUpdate(ctx, p, st);
        }
        PlacedAfterSet(ctx.h, oldBucket, a, rec);
      }
      WellPlacedAfterWrite(ctx.h, st.store, o.st.store, a);
    }
  }

  lemma PlacedAfterSet(h: Sha512, b: Bucket, a: Address, rec: Identity)
    requires PlacedAt(h, b, a) && a == MakeAddress(h, rec.name, rec.owner)
    ensures PlacedAt(h, b[rec.name := rec], a)
  {
  }

  lemma PlacedAfterRemove(h: Sha512, b: Bucket, a: Address, name: string)
    requires PlacedAt(h, b, a)
    ensures PlacedAt(h, b - {name}, a)
  {
  }

  /** A record found under the signer's key was created by a key whose hash
      ends like the signer's: the owner and the signer differ only when their
      58-digit suffixes collide. */
  lemma FoundOwnerSharesSuffix(ctx: Ctx, store: map<Address, Blob>, name: string)
    requires WellPlaced(ctx.h, store)
    requires Lookup(ctx, store, name).Some?
    ensures Lookup(ctx, store, name).value.name == name
    ensures Suffix(ctx.h, Lookup(ctx, store, name).value.owner) == Suffix(ctx.h, ctx.signer)
  {
    var a := AddressOf(ctx, name);
    var rec := Lookup(ctx, store, name).value;
    assert a == MakeAddress(ctx.h, name, rec.owner);
    AddressEquality(ctx.h, name, ctx.signer, name, rec.owner);
  }

  /** Hence an update is refused for ownership only under such a collision. */
  lemma NotOwnerNeedsSuffixCollision(ctx: Ctx, p: Payload, store: map<Address, Blob>)
    requires WellPlaced(ctx.h, store)
    requires Apply(ctx, p, Fresh(store)).res == Failure(NotOwner)
    ensures Lookup(ctx, store, p.name).Some?
    ensures var owner := Lookup(ctx, store, p.name).value.owner;
      owner != ctx.signer && Suffix(ctx.h, owner) == Suffix(ctx.h, ctx.signer)
  {
    ApplyUpdate(ctx, p, Fresh(store));
    FoundOwnerSharesSuffix(ctx, store, p.name);
  }

  // ---------------------------------------------------------------------------
  // Invocations end to end

  /** A valid create of an absent name makes the name visible with exactly
      the payload's fields and the signer as owner. */
  lemma CreateThenLookup(ctx: Ctx, p: Payload, store: map<Address, Blob>)
    requires IsValid(p) && p.action == "create"
    requires Lookup(ctx, store, p.name).None?
    ensures var o := Process(ctx, Encode(p), store);
      && o.res.Success?
      && Lookup(ctx, o.store, p.name) == Some(Identity(p.name, p.dateOfBirth, p.gender, ctx.signer))
  {
    ParseEncode(p);
    ApplyCreate(ctx, p, Fresh(store));
  }

  /** Addresses are keyed by the signer, so a name one key has created is not
      seen by a key whose hash suffix differs: that key's create of the same
      name succeeds, at another address, and its update finds nothing. */
  lemma SameNameOtherSigner(h: Sha512, k1: string, k2: string, p: Payload, store: map<Address, Blob>)
    requires IsValid(p) && p.action == "create"
    requires Suffix(h, k1) != Suffix(h, k2)
    requires Lookup(Ctx(h, k1), store, p.name).None? && Lookup(Ctx(h, k2), store, p.name).None?
    ensures var s1 := Process(Ctx(h, k1), Encode(p), store).store;
      && Lookup(Ctx(h, k1), s1, p.name).Some?
      && Lookup(Ctx(h, k2), s1, p.name).None?
      && Process(Ctx(h, k2), Encode(p), s1).res.Success?
      && Process(Ctx(h, k2), Encode(p.(action := "update")), s1).res == Failure(UpdateRequiresExisting)
  {
    var c1, c2 := Ctx(h, k1), Ctx(h, k2);
    var a1, a2 := AddressOf(c1, p.name), AddressOf(c2, p.name);
    DistinctKeysDistinctAddresses(h, p.name, k1, k2);
    CreateThenLookup(c1, p, store);
    var s1 := Process(c1, Encode(p), store).store;
    assert StoreEntry(s1, a2) == StoreEntry(store, a2) by {
      assert a2 in s1 <==> a2 in s1 - {a1};
      assert a2 in store <==> a2 in store - {a1};
    }
    CreateThenLookup(c2, p, s1);
    var u := p.(action := "update");
    ParseEncode(u);
    ApplyUpdate(c2, u, Fresh(s1));
  }

  /** Deleting the only record at an address removes the address from the
      host's state. */
  lemma DeleteLastRemovesAddress(ctx: Ctx, p: Payload, store: map<Address, Blob>)
    requires IsValid(p) && p.action == "delete"
    requires Stored(store, AddressOf(ctx, p.name)).Keys == {p.name}
    ensures var o := Process(ctx, Encode(p), store);
      o.res.Success? && AddressOf(ctx, p.name) !in o.store
  {
    ParseEncode(p);
    ApplyDelete(ctx, p, Fresh(store));
    var b := Stored(store, AddressOf(ctx, p.name));
    assert (b - {p.name}).Keys == {};
  }

  /** Two names sharing an address coexist; deleting one leaves the other
      retrievable with the same record. */
  lemma DeleteKeepsBucketMate(ctx: Ctx, p: Payload, other: string, store: map<Address, Blob>)
    requires IsValid(p) && p.action == "delete"
    requires other != p.name && AddressOf(ctx, other) == AddressOf(ctx, p.name)
    requires Lookup(ctx, store, p.name).Some? && Lookup(ctx, store, other).Some?
    ensures var o := Process(ctx, Encode(p), store);
      && o.res.Success?
      && Lookup(ctx, o.store, p.name).None?
      && Lookup(ctx, o.store, other) == Lookup(ctx, store, other)
  {
    ParseEncode(p);
    ApplyDelete(ctx, p, Fresh(store));
  }
}
