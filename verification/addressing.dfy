/** The state-addressing scheme of the identity transaction family.

    An address is the family's 6-hex-digit namespace, then the first 6 hex
    digits of the hash of the identity's name, then the last 58 hex digits of
    the hash of the signer's public key: 70 hex digits in all. SHA-512 itself
    is not modelled; it is the parameter `h`, of which only the shape of the
    result (128 lowercase hex digits) is known. */
module Addressing {

  const HexDigits := "0123456789abcdef"

  predicate IsHex(s: string) {
    forall i :: 0 <= i < |s| ==> s[i] in HexDigits
  }

  const DigestLength := 128

  /** `hexdigest()` of a SHA-512 hash. */
  type Digest = s: string | |s| == DigestLength && IsHex(s) witness seq(128, _ => '0')

  /** A hash function rendering its input as a hex digest. */
  type Sha512 = string -> Digest

  const FamilyName := "identity"
  const PrefixLength := 6
  const InfixLength := 6
  const SuffixLength := 58
  const AddressLength := PrefixLength + InfixLength + SuffixLength

  /** IDENTITY_NAMESPACE: the leading hex digits of the hash of the family name. */
  function Namespace(h: Sha512): (ns: string)
    ensures |ns| == PrefixLength && IsHex(ns)
    ensures ns <= h(FamilyName)
  {
    h(FamilyName)[..PrefixLength]
  }

  /** The part of an address that depends on the identity's name. */
  function Infix(h: Sha512, name: string): (s: string)
    ensures |s| == InfixLength && IsHex(s)
    ensures s <= h(name)
  {
    h(name)[..InfixLength]
  }

  /** The part of an address that depends on the signer's public key: the
      hash's last 58 digits (Python's `[-58:]`). */
  function Suffix(h: Sha512, key: string): (s: string)
    ensures |s| == SuffixLength && IsHex(s)
    ensures h(key) == h(key)[..DigestLength - SuffixLength] + s
  {
    h(key)[DigestLength - SuffixLength..]
  }

  /** `_make_identity_address`, with the signer's key passed in explicitly and
      the hex digest (not the hash object) of the key sliced. */
  function MakeAddress(h: Sha512, name: string, key: string): (a: string)
    ensures |a| == AddressLength && IsHex(a)
    ensures a[..PrefixLength] == Namespace(h)
    ensures a[PrefixLength..PrefixLength + InfixLength] == Infix(h, name)
    ensures a[PrefixLength + InfixLength..] == Suffix(h, key)
  {
    var a := Namespace(h) + Infix(h, name) + Suffix(h, key);
    assert a[..PrefixLength] == Namespace(h);
    assert a[PrefixLength..PrefixLength + InfixLength] == Infix(h, name);
    a
  }

  /** Two addresses agree exactly when their name parts and their key parts
      agree: the namespace carries no information. */
  lemma AddressEquality(h: Sha512, n1: string, k1: string, n2: string, k2: string)
    ensures MakeAddress(h, n1, k1) == MakeAddress(h, n2, k2)
        <==> Infix(h, n1) == Infix(h, n2) && Suffix(h, k1) == Suffix(h, k2)
  {
    var a1, a2 := MakeAddress(h, n1, k1), MakeAddress(h, n2, k2);
    if Infix(h, n1) == Infix(h, n2) && Suffix(h, k1) == Suffix(h, k2) {
      assert a1 == Namespace(h) + Infix(h, n1) + Suffix(h, k1);
    }
  }

  /** Distinct names whose hashes share their first six digits land on one
      address under one key; this is why an address holds a bucket. */
  lemma CollidingNamesShareAddress(h: Sha512, n1: string, n2: string, key: string)
    requires h(n1)[..InfixLength] == h(n2)[..InfixLength]
    ensures MakeAddress(h, n1, key) == MakeAddress(h, n2, key)
  {
    AddressEquality(h, n1, key, n2, key);
  }

  /** The same name under two keys whose hash suffixes differ gives two
      different addresses. */
  lemma DistinctKeysDistinctAddresses(h: Sha512, name: string, k1: string, k2: string)
    requires Suffix(h, k1) != Suffix(h, k2)
    ensures MakeAddress(h, name, k1) != MakeAddress(h, name, k2)
  {
    AddressEquality(h, name, k1, name, k2);
  }
}
