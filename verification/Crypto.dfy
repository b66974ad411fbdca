/**
 * The cryptography of src/DSSE.cpp. HMAC and AES are parameters: `mac` and `keystream` are any
 * functions at all. Counter mode (NIST SP 800-38A, section 6.5) is the exclusive or of the message
 * with the keystream of a key and an initialisation vector.
 */
module Crypto {
  import opened Octets

  const KEYLEN: nat := 32
  const IVLEN: nat := 16
  const TAG1: byte := 0x31 // '1'
  const TAG2: byte := 0x32 // '2'

  datatype Suite = Suite(mac: (Bytes, Bytes) -> Bytes, keystream: (Bytes, Bytes, nat) -> byte) {
    // Digests are KEYLEN bytes long.
    ghost predicate Valid() {
      forall k, m :: |mac(k, m)| == KEYLEN
    }
  }

  /** What strlen sees of a string: the bytes before its first NUL. */
  function CStr(w: Word): Word {
    if w == [] || w[0] == 0 then [] else [w[0]] + CStr(w[1..])
  }

  function MacKey(cr: Suite, key: Bytes, tag: byte, w: Word): Bytes {
    cr.mac(key, [tag] + CStr(w))
  }

  function MacLong(cr: Suite, key: Bytes, counter: u64): Bytes {
    cr.mac(key, PutU64(counter))
  }

  /** The label of entry `c` of word `w` under a master key, and the revocation id of (w, c). */
  function Label(cr: Suite, master: Bytes, w: Word, c: u64): Bytes {
    MacLong(cr, MacKey(cr, master, TAG1, w), c)
  }

  /**
   * No two labels of the vocabulary collide under `master`. For a finite vocabulary there are fewer
   * labels than digests, so this can hold; it rules out words that differ only behind a NUL.
   */
  ghost predicate CollisionFree(cr: Suite, master: Bytes, vocabulary: set<Word>) {
    forall w, w', c, c' | w in vocabulary && w' in vocabulary && Label(cr, master, w, c) == Label(cr, master, w', c') ::
      w == w' && c == c'
  }

  /** What strlen returns for a word: the position of its first NUL, or its size if it has none. */
  predicate IsStrlen(w: Word, n: nat) {
    n <= |w| && 0 !in w[..n] && (n < |w| ==> w[n] == 0)
  }

  /** Exactly the bytes before the first NUL are hashed. */
  lemma {:induction false} CStrIs(w: Word, n: nat)
    requires IsStrlen(w, n)
    ensures CStr(w) == w[..n]
  {
    if n > 0 {
      assert w[0] == w[..n][0] && w[1..][..n - 1] == w[..n][1..];
      CStrIs(w[1..], n - 1);
    }
  }

  /** A vocabulary with two words that agree up to the first NUL is never collision free. */
  lemma NulTruncates(cr: Suite, master: Bytes, vocabulary: set<Word>, w: Word, n: nat, w': Word, n': nat)
    requires w in vocabulary && w' in vocabulary && w != w'
    requires IsStrlen(w, n) && IsStrlen(w', n') && w[..n] == w'[..n']
    ensures !CollisionFree(cr, master, vocabulary)
  {
    CStrIs(w, n);
    CStrIs(w', n');
    assert Label(cr, master, w, 0) == Label(cr, master, w', 0);
  }

  /** Counter mode: the same operation encrypts and decrypts. */
  function CtrXor(cr: Suite, key: Bytes, iv: Bytes, text: Bytes): (out: Bytes)
    ensures |out| == |text|
  {
    seq<byte>(|text|, i requires 0 <= i < |text| => XorByte(text[i], cr.keystream(key, iv, i)))
  }

  const ZERO_IV: Bytes := [0, 0, 0, 0, 0, 0, 0, 0, 0, 0, 0, 0, 0, 0, 0, 0]

  function EncryptBytes(cr: Suite, key: Bytes, msg: Bytes): (ctext: Bytes)
    ensures |ctext| == IVLEN + |msg|
  {
    ZERO_IV + CtrXor(cr, key, ZERO_IV, msg)
  }

  function DecryptBytes(cr: Suite, key: Bytes, ctext: Bytes): (msg: Bytes)
    requires |ctext| >= IVLEN
    ensures |msg| == |ctext| - IVLEN
  {
    CtrXor(cr, key, ctext[..IVLEN], ctext[IVLEN..])
  }

  lemma DecryptEncrypt(cr: Suite, key: Bytes, msg: Bytes)
    ensures DecryptBytes(cr, key, EncryptBytes(cr, key, msg)) == msg
  {
    var ctext := EncryptBytes(cr, key, msg);
    assert ctext[..IVLEN] == ZERO_IV && ctext[IVLEN..] == CtrXor(cr, key, ZERO_IV, msg);
    forall i | 0 <= i < |msg|
      ensures DecryptBytes(cr, key, ctext)[i] == msg[i]
    {
      XorTwice(msg[i], cr.keystream(key, ZERO_IV, i));
    }
  }

  function EncryptLong(cr: Suite, key: Bytes, value: u64): (ctext: Bytes)
    ensures |ctext| == 24
  {
    EncryptBytes(cr, key, PutU64(value))
  }

  // Reads the first 24 bytes only.
  function DecryptLong(cr: Suite, key: Bytes, ctext: Bytes): u64
    requires |ctext| >= 24
  {
    GetU64(DecryptBytes(cr, key, ctext[..24]))
  }

  /** Whatever stands behind the 24 bytes encrypt_long writes, decrypt_long returns the value. */
  lemma DecryptLongIgnoresTail(cr: Suite, key: Bytes, value: u64, tail: Bytes)
    ensures DecryptLong(cr, key, EncryptLong(cr, key, value) + tail) == value
  {
    var ctext := EncryptLong(cr, key, value);
    assert (ctext + tail)[..24] == ctext;
    DecryptEncrypt(cr, key, PutU64(value));
    GetPut(value);
  }

  function EncryptBlock(cr: Suite, key: Bytes, values: seq<u64>): (ctext: Bytes)
    ensures |ctext| == IVLEN + 8 * |values|
  {
    EncryptBytes(cr, key, EncodeBlock(values))
  }

  function DecryptBlock(cr: Suite, key: Bytes, ctext: Bytes, count: nat): (values: seq<u64>)
    requires |ctext| >= IVLEN + 8 * count
    ensures |values| == count
  {
    DecodeBlock(DecryptBytes(cr, key, ctext), count)
  }

  lemma DecryptEncryptBlock(cr: Suite, key: Bytes, values: seq<u64>)
    ensures DecryptBlock(cr, key, EncryptBlock(cr, key, values), |values|) == values
  {
    DecryptEncrypt(cr, key, EncodeBlock(values));
    DecodeEncode(values);
  }
}
