/** The transaction payload: a dictionary with the keys Action, Name,
    Date_of_birth and Gender, decoded and then validated by a fixed sequence of
    checks of which the first that fails decides the rejection. */
module Payloads {
  import opened Common

  datatype Payload = Payload(action: string, name: string, dateOfBirth: string, gender: string)

  /** What decoding the payload bytes yields: nothing usable, or a dictionary
      of string fields. Byte-level pickle decoding is not modelled. */
  datatype Wire = Undecodable | Dict(fields: map<string, string>)

  const ActionKey := "Action"
  const NameKey := "Name"
  const DateOfBirthKey := "Date_of_birth"
  const GenderKey := "Gender"

  const Actions: set<string> := {"create", "update", "delete"}
  const Genders: set<string> := {"m", "f", "M", "F", "male", "female", "Male", "Female"}
  const Separator := '|'

  /** Everything the constructor demands of an accepted payload, in no
      particular order. */
  predicate IsValid(p: Payload) {
    && p.action in Actions
    && p.name != "" && Separator !in p.name
    && p.dateOfBirth != ""
    && p.gender in Genders
  }

  /** The checks of `IdentityPayload.__init__`. The date of birth is checked
      only for being non-empty, whatever the action. */
  function Validate(p: Payload): (r: Result<Payload, Error>)
    ensures r.Success? <==> IsValid(p)
    ensures r.Success? ==> r.value == p
    ensures r.Failure? ==> !r.error.IsInternal()
    ensures p.action == "" ==> r == Failure(ActionRequired)
    ensures p.action !in Actions ==> r.Failure?
    ensures p.name == "" || Separator in p.name ==> r.Failure?
    ensures p.dateOfBirth == "" ==> r.Failure?
    ensures p.gender !in Genders ==> r.Failure?
  {
    if p.action == "" then Failure(ActionRequired)
    else if p.action !in Actions then Failure(InvalidAction)
    else if p.name == "" then Failure(NameRequired)
    else if Separator in p.name then Failure(NameContainsSeparator)
    else if p.dateOfBirth == "" then Failure(DateOfBirthRequired)
    else if p.gender == "" then Failure(GenderRequired)
    else if p.gender !in Genders then Failure(InvalidGender)
    else Success(p)
  }

  /** `IdentityPayload.from_bytes`: decode, then validate. A dictionary that
      lacks one of the four keys is as malformed as undecodable bytes. The
      source turns only a `ValueError` into a rejection; the `KeyError` of a
      missing key and the unpickling errors of bad bytes escape it, and here
      they are all read as the intended rejection. */
  function Parse(w: Wire): (r: Result<Payload, Error>)
    ensures w.Undecodable? ==> r == Failure(MalformedPayload)
    ensures r.Success? ==> w.Dict? && IsValid(r.value)
    ensures r.Success? ==> {ActionKey, NameKey, DateOfBirthKey, GenderKey} <= w.fields.Keys
    ensures r.Success? ==> && r.value.action == w.fields[ActionKey]
                           && r.value.name == w.fields[NameKey]
                           && r.value.dateOfBirth == w.fields[DateOfBirthKey]
                           && r.value.gender == w.fields[GenderKey]
    ensures w.Dict? && !({ActionKey, NameKey, DateOfBirthKey, GenderKey} <= w.fields.Keys)
            ==> r == Failure(MalformedPayload)
    ensures w.Dict? && {ActionKey, NameKey, DateOfBirthKey, GenderKey} <= w.fields.Keys ==>
      r == Validate(Payload(w.fields[ActionKey], w.fields[NameKey], w.fields[DateOfBirthKey], w.fields[GenderKey]))
  {
    match w
    case Undecodable => Failure(MalformedPayload)
    case Dict(f) =>
      if ActionKey in f && NameKey in f && DateOfBirthKey in f && GenderKey in f then
        Validate(Payload(f[ActionKey], f[NameKey], f[DateOfBirthKey], f[GenderKey]))
      else
        Failure(MalformedPayload)
  }

  /** The dictionary a client builds for a payload before pickling it. */
  function Encode(p: Payload): (w: Wire)
    ensures w.Dict? && w.fields.Keys == {ActionKey, NameKey, DateOfBirthKey, GenderKey}
    ensures && w.fields[ActionKey] == p.action && w.fields[NameKey] == p.name
            && w.fields[DateOfBirthKey] == p.dateOfBirth && w.fields[GenderKey] == p.gender
  {
    Dict(map[ActionKey := p.action, NameKey := p.name,
             DateOfBirthKey := p.dateOfBirth, GenderKey := p.gender])
  }

  /** Decoding what a client encoded gives back the payload exactly when it is
      valid, and otherwise the rejection validation gives. */
  lemma ParseEncode(p: Payload)
    ensures Parse(Encode(p)) == Validate(p)
    ensures IsValid(p) <==> Parse(Encode(p)) == Success(p)
  {
    var f := Encode(p).fields;
    assert f[ActionKey] == p.action && f[NameKey] == p.name;
    assert f[DateOfBirthKey] == p.dateOfBirth && f[GenderKey] == p.gender;
  }

  /** An independent statement of the check order: the list of checks, each
      with the rejection it raises. */
  datatype Check = Check(passes: bool, rejection: Error)

  function Checks(p: Payload): seq<Check> {
    [ Check(p.action != "", ActionRequired),
      Check(p.action in Actions, InvalidAction),
      Check(p.name != "", NameRequired),
      Check(Separator !in p.name, NameContainsSeparator),
      Check(p.dateOfBirth != "", DateOfBirthRequired),
      Check(p.gender != "", GenderRequired),
      Check(p.gender in Genders, InvalidGender) ]
  }

  /** The rejection of the first check in `cs` that does not pass. */
  function FirstFailure(cs: seq<Check>): (r: Option<Error>)
    ensures r.None? <==> forall i :: 0 <= i < |cs| ==> cs[i].passes
    ensures r.Some? ==> exists i :: 0 <= i < |cs| && !cs[i].passes && cs[i].rejection == r.value
                                    && forall j :: 0 <= j < i ==> cs[j].passes
  {
    if cs == [] then None
    else if !cs[0].passes then Some(cs[0].rejection)
    else
      var r := FirstFailure(cs[1..]);
      assert r.Some? ==> exists i :: 1 <= i < |cs| && !cs[i].passes && cs[i].rejection == r.value
                                     && forall j :: 0 <= j < i ==> cs[j].passes by {
        if r.Some? {
          var k :| 0 <= k < |cs[1..]| && !cs[1..][k].passes && cs[1..][k].rejection == r.value
                   && forall j :: 0 <= j < k ==> cs[1..][j].passes;
          assert cs[k + 1] == cs[1..][k];
          forall j | 0 <= j < k + 1
            ensures cs[j].passes
          {
            if j > 0 { assert cs[j] == cs[1..][j - 1]; }
          }
        }
      }
      r
  }

  /** Validation rejects with the first failing check, and accepts exactly
      when no check fails. */
  lemma {:induction false} ValidateReportsFirstFailure(p: Payload)
    ensures FirstFailure(Checks(p)).None? ==> Validate(p) == Success(p)
    ensures FirstFailure(Checks(p)).Some? ==> Validate(p) == Failure(FirstFailure(Checks(p)).value)
  {
    var cs := Checks(p);
    var s1 := cs[1..];
    var s2 := s1[1..];
    var s3 := s2[1..];
    var s4 := s3[1..];
    var s5 := s4[1..];
    var s6 := s5[1..];
    var s7 := s6[1..];
    assert s7 == [];
    assert FirstFailure(s6) == (if !cs[6].passes then Some(cs[6].rejection) else None);
    assert FirstFailure(s5) == (if !cs[5].passes then Some(cs[5].rejection) else FirstFailure(s6));
    assert FirstFailure(s4) == (if !cs[4].passes then Some(cs[4].rejection) else FirstFailure(s5));
    assert FirstFailure(s3) == (if !cs[3].passes then Some(cs[3].rejection) else FirstFailure(s4));
    assert FirstFailure(s2) == (if !cs[2].passes then Some(cs[2].rejection) else FirstFailure(s3));
    assert FirstFailure(s1) == (if !cs[1].passes then Some(cs[1].rejection) else FirstFailure(s2));
  }

  /** Gender tokens are matched case-sensitively. */
  lemma GenderIsCaseSensitive()
    ensures Validate(Payload("create", "alice", "1990-01-01", "MALE")) == Failure(InvalidGender)
    ensures Validate(Payload("create", "alice", "1990-01-01", "Male")).Success?
  {
  }
}
