/** The client's side of the protocol: the address it derives for a name, the
    payloads it builds for create and delete, and how `update` merges the one
    changed field into the record it reads back. Signing, batching and the
    REST calls are not modelled; the record the client reads for a name is a
    parameter. */
module Client {
  import opened Common
  import opened Addressing
  import opened Payloads
  import opened IdentityState
  import opened Handler

  /** `_get_prefix`. */
  function Prefix(h: Sha512): (s: string)
    ensures |s| == PrefixLength
    ensures s == Namespace(h)
  {
    h(FamilyName)[..PrefixLength]
  }

  /** `_get_address`: the client derives the same address as the handler. */
  function ClientAddress(h: Sha512, name: string, publicKey: string): (a: string)
    ensures a == MakeAddress(h, name, publicKey)
  {
    Prefix(h) + h(name)[..InfixLength] + h(publicKey)[DigestLength - SuffixLength..]
  }

  /** Under one key, two names whose hashes share their first six hex digits
      are sent to one address. */
  lemma ClientAddressCollides(h: Sha512, n1: string, n2: string, publicKey: string)
    requires h(n1)[..InfixLength] == h(n2)[..InfixLength]
    ensures ClientAddress(h, n1, publicKey) == ClientAddress(h, n2, publicKey)
  {
    CollidingNamesShareAddress(h, n1, n2, publicKey);
  }

  /** `create`. */
  function CreatePayload(name: string, dateOfBirth: string, gender: string): (p: Payload)
    ensures p.action == "create"
    ensures p.name == name && p.dateOfBirth == dateOfBirth && p.gender == gender
    ensures IsValid(p) <==> name != "" && Separator !in name && dateOfBirth != "" && gender in Genders
  {
    Payload("create", name, dateOfBirth, gender)
  }

  /** A valid create from the client succeeds exactly when the name is not yet
      stored under the signer's key; it then stores the given fields owned by
      the signer, and otherwise it changes nothing. */
  lemma ClientCreateStoresRecord(ctx: Ctx, name: string, dateOfBirth: string, gender: string,
                                 store: map<Address, Blob>)
    requires name != "" && Separator !in name && dateOfBirth != "" && gender in Genders
    ensures var o := Process(ctx, Encode(CreatePayload(name, dateOfBirth, gender)), store);
      && (o.res.Success? <==> Lookup(ctx, store, name).None?)
      && (o.res.Success? ==> Lookup(ctx, o.store, name) == Some(Identity(name, dateOfBirth, gender, ctx.signer)))
      && (o.res.Failure? ==> o.res.error == IdentityAlreadyExists && o.store == store)
  {
    var p := CreatePayload(name, dateOfBirth, gender);
    ParseEncode(p);
    ApplyCreate(ctx, p, Fresh(store));
  }

  /** `delete`: the date of birth and gender take their empty defaults. */
  function DeletePayload(name: string): (p: Payload)
    ensures p.action == "delete" && p.name == name
    ensures p.dateOfBirth == "" && p.gender == ""
  {
    Payload("delete", name, "", "")
  }

  datatype ClientError =
    | NoExistingIdentity   // IdentityException: nothing stored for the name
    | UnknownParameter     // none of the three branches assigns the fields

  /** `update`: resend the record read back for `name` with one field
      replaced. Renaming sends the new name, so the handler looks up the new
      name, not the old one. An unknown parameter leaves the date of birth
      and gender unassigned, which raises before anything is sent. */
  function UpdatePayload(name: string, parameter: string, value: string, current: Option<Identity>)
    : (r: Result<Payload, ClientError>)
    ensures current.None? <==> r == Failure(NoExistingIdentity)
    ensures r.Success? ==> r.value.action == "update"
    ensures current.Some? && parameter == "name" ==>
      r == Success(Payload("update", value, current.value.dateOfBirth, current.value.gender))
    ensures current.Some? && parameter == "date_of_birth" ==>
      r == Success(Payload("update", name, value, current.value.gender))
    ensures current.Some? && parameter == "gender" ==>
      r == Success(Payload("update", name, current.value.dateOfBirth, value))
    ensures current.Some? && parameter !in {"name", "date_of_birth", "gender"} ==> r == Failure(UnknownParameter)
  {
    match current
    case None => Failure(NoExistingIdentity)
    case Some(rec) =>
      if parameter == "name" then Success(Payload("update", value, rec.dateOfBirth, rec.gender))
      else if parameter == "date_of_birth" then Success(Payload("update", name, value, rec.gender))
      else if parameter == "gender" then Success(Payload("update", name, rec.dateOfBirth, value))
      else Failure(UnknownParameter)
  }

  /** Every delete the client builds is rejected by payload validation, since
      the date of birth it sends is empty; for a well-formed name the
      rejection is the missing date of birth. No client delete changes state. */
  lemma ClientDeleteIsRejected(ctx: Ctx, name: string, store: map<Address, Blob>)
    ensures Parse(Encode(DeletePayload(name))).Failure?
    ensures name != "" && Separator !in name ==>
      Parse(Encode(DeletePayload(name))) == Failure(DateOfBirthRequired)
    ensures Process(ctx, Encode(DeletePayload(name)), store).store == store
  {
    ParseEncode(DeletePayload(name));
  }

  /** Changing the date of birth or the gender of one's own record through the
      client changes that field and nothing else. */
  lemma ClientUpdateChangesOneField(ctx: Ctx, name: string, parameter: string, value: string,
                                    store: map<Address, Blob>)
    requires parameter == "date_of_birth" || parameter == "gender"
    requires Lookup(ctx, store, name).Some? && Lookup(ctx, store, name).value.owner == ctx.signer
    requires UpdatePayload(name, parameter, value, Lookup(ctx, store, name)).Success?
    requires IsValid(UpdatePayload(name, parameter, value, Lookup(ctx, store, name)).value)
    ensures var rec := Lookup(ctx, store, name).value;
      var o := Process(ctx, Encode(UpdatePayload(name, parameter, value, Lookup(ctx, store, name)).value), store);
      && o.res.Success?
      && Lookup(ctx, o.store, name) == Some(if parameter == "gender" then rec.(gender := value)
                                            else rec.(dateOfBirth := value))
  {
    var p := UpdatePayload(name, parameter, value, Lookup(ctx, store, name)).value;
    ParseEncode(p);
    ApplyUpdate(ctx, p, Fresh(store));
  }

  /** A rename through the client is an update of the new name: when the new
      name is not stored under the signer's key it is rejected, and the
      record under the old name is left where it was. */
  lemma ClientRenameLooksUpNewName(ctx: Ctx, name: string, value: string, store: map<Address, Blob>)
    requires Lookup(ctx, store, name).Some?
    requires Lookup(ctx, store, value).None?
    requires IsValid(UpdatePayload(name, "name", value, Lookup(ctx, store, name)).value)
    ensures var o := Process(ctx, Encode(UpdatePayload(name, "name", value, Lookup(ctx, store, name)).value), store);
      && o.res == Failure(UpdateRequiresExisting)
      && Lookup(ctx, o.store, name) == Lookup(ctx, store, name)
  {
    var p := UpdatePayload(name, "name", value, Lookup(ctx, store, name)).value;
    ParseEncode(p);
    ApplyUpdate(ctx, p, Fresh(store));
  }
}
