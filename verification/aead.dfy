/** The Ascon-128 AEAD, consumed as an external primitive. It is modelled as
    an oracle (a pair of functions) constrained only by the two promises the
    protocol relies on; its internals are not part of this model. */
module Aead {
  import opened Wrappers
  import opened Bytes

  const NonceLength: nat := 16
  /** Length of the authentication tag appended to every ciphertext. */
  const TagLength: nat := 16

  /** `encrypt(key, nonce, associateddata, plaintext)` and
      `decrypt(key, nonce, associateddata, ciphertext)`; decryption yields
      `None` when the tag does not verify. */
  datatype Oracle = Oracle(
    encrypt: (seq<byte>, seq<byte>, seq<byte>, seq<byte>) -> seq<byte>,
    decrypt: (seq<byte>, seq<byte>, seq<byte>, seq<byte>) -> Option<seq<byte>>)

  /** The ciphertext is the plaintext length plus the tag. */
  ghost predicate LengthAxiom(o: Oracle) {
    forall key, nonce, ad, pt :: |o.encrypt(key, nonce, ad, pt)| == |pt| + TagLength
  }

  /** Decrypting under the same key, nonce and associated data returns the plaintext. */
  ghost predicate CorrectnessAxiom(o: Oracle) {
    forall key, nonce, ad, pt :: o.decrypt(key, nonce, ad, o.encrypt(key, nonce, ad, pt)) == Some(pt)
  }

  /** The oracle behaves as an AEAD for the purposes of this model. */
  ghost predicate Sound(o: Oracle) {
    LengthAxiom(o) && CorrectnessAxiom(o)
  }

  /** The associated data used throughout the protocol: always empty. */
  const NoAssociatedData: seq<byte> := []

  // --- a keyed toy oracle showing the two axioms can hold together ---

  function ToyTag(key: seq<byte>): (t: seq<byte>)
    ensures |t| == TagLength
  {
    seq(TagLength, i requires 0 <= i => if i < |key| then key[i] else 0)
  }

  function ToyOracle(): Oracle {
    Oracle(
      (key, nonce, ad, pt) => pt + ToyTag(key),
      (key, nonce, ad, ct) =>
        if |ct| >= TagLength && ct[|ct| - TagLength..] == ToyTag(key)
        then Some(ct[..|ct| - TagLength]) else None)
  }

  lemma ToyOracleIsSound()
    ensures Sound(ToyOracle())
  {
    var o := ToyOracle();
    forall key, nonce, ad, pt
      ensures o.decrypt(key, nonce, ad, o.encrypt(key, nonce, ad, pt)) == Some(pt)
    {
      var ct := pt + ToyTag(key);
      assert ct[|ct| - TagLength..] == ToyTag(key);
      assert ct[..|ct| - TagLength] == pt;
    }
  }
}
