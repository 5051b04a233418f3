/** Authenticated encryption, as arbitrary functions with the properties it is used for. */
module Aead {
  import opened Bytes
  import opened Results

  const TAG_LEN := 16

  type Nonce = s: Bytes | |s| == 12 witness Zeros(12)

  type Salt = s: Bytes | |s| == 16 witness Zeros(16)

  /** Key, nonce, associated data, then plaintext or ciphertext-and-tag. */
  datatype Cipher = Cipher(
    seal: (Bytes, Nonce, Bytes, Bytes) -> Bytes,
    open: (Bytes, Nonce, Bytes, Bytes) -> Option<Bytes>)

  /** Both directions move lengths by one tag. */
  ghost predicate Tagged(a: Cipher) {
    && (forall key, nonce, aad, plain :: |a.seal(key, nonce, aad, plain)| == |plain| + TAG_LEN)
    && (forall key, nonce, aad, sealed ::
          a.open(key, nonce, aad, sealed).Some? ==> |a.open(key, nonce, aad, sealed).value| + TAG_LEN == |sealed|)
  }

  /** Opening undoes sealing. */
  ghost predicate Correct(a: Cipher) {
    && Tagged(a)
    && forall key, nonce, aad, plain :: a.open(key, nonce, aad, a.seal(key, nonce, aad, plain)) == Some(plain)
  }

  /** Under `key`, exactly what its holder sealed can be opened. */
  ghost predicate Ideal(a: Cipher, key: Bytes, sealed: iset<(Nonce, Bytes, Bytes)>) {
    && Tagged(a)
    && forall nonce, aad, plain, ciphertext ::
         a.open(key, nonce, aad, ciphertext) == Some(plain)
         <==> (nonce, aad, plain) in sealed && ciphertext == a.seal(key, nonce, aad, plain)
  }

  // ---------------------------------------------------------------- a cipher that is correct

  /** A cipher whose tags show the key. */
  function KeyMark(key: Bytes): (mark: Bytes)
    ensures |mark| == TAG_LEN
  {
    if |key| == TAG_LEN then key else Zeros(TAG_LEN)
  }

  function MarkingCipher(): Cipher {
    Cipher(
      (key, nonce, aad, plain) => plain + KeyMark(key),
      (key, nonce, aad, sealed) =>
        if |sealed| >= TAG_LEN && sealed[|sealed| - TAG_LEN..] == KeyMark(key)
        then Some(sealed[..|sealed| - TAG_LEN]) else None)
  }

  lemma MarkingCipherCorrect()
    ensures Correct(MarkingCipher())
  {
    forall key: Bytes, nonce: Nonce, aad: Bytes, plain: Bytes
      ensures MarkingCipher().open(key, nonce, aad, MarkingCipher().seal(key, nonce, aad, plain)) == Some(plain)
    {
      var sealed := plain + KeyMark(key);
      assert sealed[|sealed| - TAG_LEN..] == KeyMark(key) && sealed[..|sealed| - TAG_LEN] == plain;
    }
  }

  lemma OtherKeyFails(key: Bytes, nonce: Nonce, aad: Bytes, key': Bytes, nonce': Nonce, aad': Bytes)
    requires KeyMark(key) != KeyMark(key')
    ensures MarkingCipher().open(key', nonce', aad', MarkingCipher().seal(key, nonce, aad, [])) == None
  {
    hide KeyMark;
    var sealed := [] + KeyMark(key);
    assert sealed[|sealed| - TAG_LEN..] == KeyMark(key);
  }

  // ---------------------------------------------------------------- a cipher that is ideal

  function Padding(): (Bytes, Nonce, Bytes, Bytes) -> Bytes {
    (key, nonce, aad, plain) => plain + Zeros(TAG_LEN)
  }

  /** A cipher under each of whose keys exactly what the book says opens. */
  ghost function BookCipher(book: Bytes -> iset<(Nonce, Bytes, Bytes)>): Cipher {
    Cipher(
      Padding(),
      (key, nonce, aad, sealed) =>
        if |sealed| >= TAG_LEN && sealed[|sealed| - TAG_LEN..] == Zeros(TAG_LEN)
           && (nonce, aad, sealed[..|sealed| - TAG_LEN]) in book(key)
        then Some(sealed[..|sealed| - TAG_LEN]) else None)
  }

  lemma BookIsIdeal(book: Bytes -> iset<(Nonce, Bytes, Bytes)>, key: Bytes)
    ensures Ideal(BookCipher(book), key, book(key))
  {
    var a := BookCipher(book);
    forall nonce: Nonce, aad: Bytes, plain: Bytes, ciphertext: Bytes
      ensures a.open(key, nonce, aad, ciphertext) == Some(plain)
              <==> (nonce, aad, plain) in book(key) && ciphertext == a.seal(key, nonce, aad, plain)
    {
      var n := |ciphertext| - TAG_LEN;
      if ciphertext == plain + Zeros(TAG_LEN) {
        assert ciphertext[n..] == Zeros(TAG_LEN) && ciphertext[..n] == plain;
      }
      if n >= 0 && ciphertext[n..] == Zeros(TAG_LEN) {
        assert ciphertext == ciphertext[..n] + Zeros(TAG_LEN);
      }
    }
  }

  lemma IdealIsTagged(a: Cipher, key: Bytes, sealed: iset<(Nonce, Bytes, Bytes)>)
    requires Ideal(a, key, sealed)
    ensures Tagged(a)
  {
    hide Tagged;
  }
}
