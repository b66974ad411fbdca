/**
 * What is hashed and what is encrypted, said of words, bytes and bits alone: the keys a search sends, when
 * labels collide, and every bit of a ciphertext.
 */
module Wire {
  import opened Octets
  import opened Crypto
  import opened CoreSpec

  // ---------------------------------------------------------------- keys and labels

  /** A derived key is the digest of the digit and of the word up to its first NUL. */
  lemma KeysAre(cr: Suite, master: Bytes, w: Word, n: nat)
    requires IsStrlen(w, n)
    ensures K1Of(cr, master, w) == cr.mac(master, [0x31] + w[..n])
    ensures K2Of(cr, master, w) == cr.mac(master, [0x32] + w[..n])
    ensures forall c :: Label(cr, master, w, c) == cr.mac(cr.mac(master, [0x31] + w[..n]), PutU64(c))
  {
    CStrIs(w, n);
  }

  /** The five keys of a search: two of the index, two of the additions and one of the revocations. */
  lemma SearchKeys(cr: Suite, c: ClientState, w: Word, n: nat)
    requires IsStrlen(w, n)
    ensures var t := SearchClient(cr, c, w);
            && t.k1 == cr.mac(c.key, [0x31] + w[..n]) && t.k2 == cr.mac(c.key, [0x32] + w[..n])
            && t.k1plus == cr.mac(c.kplus, [0x31] + w[..n]) && t.k2plus == cr.mac(c.kplus, [0x32] + w[..n])
            && t.k1minus == cr.mac(c.kminus, [0x31] + w[..n])
  {
    CStrIs(w, n);
  }

  /** The digests of words without a NUL under their counters, as the labels of an index. */
  ghost predicate DigestsApart(cr: Suite, master: Bytes, vocabulary: set<Word>) {
    forall w, w', c: u64, c': u64 | w in vocabulary && w' in vocabulary
        && cr.mac(cr.mac(master, [0x31] + w), PutU64(c)) == cr.mac(cr.mac(master, [0x31] + w'), PutU64(c')) ::
      w == w' && c == c'
  }

  lemma NoNul(w: Word)
    requires 0 !in w
    ensures IsStrlen(w, |w|) && w[..|w|] == w
  {
  }

  lemma PlainLabel(cr: Suite, master: Bytes, w: Word, c: u64)
    requires 0 !in w
    ensures Label(cr, master, w, c) == cr.mac(cr.mac(master, [0x31] + w), PutU64(c))
  {
    NoNul(w);
    KeysAre(cr, master, w, |w|);
  }

  /** Words without a NUL have colliding labels only if digests collide: any other byte tells words apart. */
  lemma LabelsApartIff(cr: Suite, master: Bytes, vocabulary: set<Word>)
    requires forall w | w in vocabulary :: 0 !in w
    ensures CollisionFree(cr, master, vocabulary) <==> DigestsApart(cr, master, vocabulary)
  {
    hide Label, PutU64;
    forall w, c: u64 | w in vocabulary
      ensures Label(cr, master, w, c) == cr.mac(cr.mac(master, [0x31] + w), PutU64(c))
    {
      PlainLabel(cr, master, w, c);
    }
  }

  /** It is enough that words get different keys, and counters different labels under these keys. */
  lemma KeysApart(cr: Suite, master: Bytes, vocabulary: set<Word>)
    requires forall w | w in vocabulary :: 0 !in w
    requires forall w, w' | w in vocabulary && w' in vocabulary
        && cr.mac(master, [0x31] + w) == cr.mac(master, [0x31] + w') :: w == w'
    requires forall w, w', c: u64, c': u64 | w in vocabulary && w' in vocabulary
        && cr.mac(cr.mac(master, [0x31] + w), PutU64(c)) == cr.mac(cr.mac(master, [0x31] + w'), PutU64(c')) ::
          cr.mac(master, [0x31] + w) == cr.mac(master, [0x31] + w') && c == c'
    ensures CollisionFree(cr, master, vocabulary)
  {
    hide CollisionFree, PutU64;
    LabelsApartIff(cr, master, vocabulary);
  }

  // ---------------------------------------------------------------- bits

  /** Bit `k` of a number, counted from the lowest. */
  function Bit(v: nat, k: nat): (b: nat)
    ensures b < 2
  {
    if k == 0 then v % 2 else Bit(v / 2, k - 1)
  }

  lemma {:induction false} XorBit(a: nat, b: nat, k: nat)
    ensures Bit(Xor(a, b), k) == (Bit(a, k) + Bit(b, k)) % 2
  {
    hide Xor;
    var low, high := (a % 2 + b % 2) % 2, Xor(a / 2, b / 2);
    XorUnfold(a, b);
    PopBit(low, high);
    if k > 0 {
      XorBit(a / 2, b / 2, k - 1);
    }
  }

  function Pow2(m: nat): (n: nat)
    ensures n >= 1
  {
    if m == 0 then 1 else 2 * Pow2(m - 1)
  }

  // The bits of a number put together from its lower `m` bits and the rest.
  lemma {:induction false} BitsOfParts(low: nat, high: nat, m: nat, k: nat)
    requires low < Pow2(m)
    ensures k < m ==> Bit(low + Pow2(m) * high, k) == Bit(low, k)
    ensures k >= m ==> Bit(low + Pow2(m) * high, k) == Bit(high, k - m)
  {
    if m > 0 {
      var half := Pow2(m - 1) * high;
      assert Pow2(m) * high == 2 * half;
      Halves(low, half);
      if k > 0 {
        BitsOfParts(low / 2, high, m - 1, k - 1);
      }
    }
  }

  lemma Halves(low: nat, half: nat)
    ensures (low + 2 * half) / 2 == low / 2 + half && (low + 2 * half) % 2 == low % 2
  {
  }

  lemma BitsOfByte(v: nat, k: nat)
    ensures k < 8 ==> Bit(Low(v), k) == Bit(v, k)
    ensures Bit(High(v), k) == Bit(v, k + 8)
  {
    hide Bit, Low, High;
    SplitByte(v);
    assert Pow2(8) == 0x100;
    BitsOfParts(Low(v), High(v), 8, k);
    BitsOfParts(Low(v), High(v), 8, k + 8);
  }

  // What is left of a number without its lowest `i` bytes.
  function Rest(v: nat, i: nat): nat { if i == 0 then v else High(Rest(v, i - 1)) }

  lemma {:induction false} BitsOfRest(v: nat, i: nat, k: nat)
    ensures Bit(Rest(v, i), k) == Bit(v, 8 * i + k)
  {
    if i > 0 {
      hide Bit, High;
      BitsOfByte(Rest(v, i - 1), k);
      BitsOfRest(v, i - 1, k + 8);
    }
  }

  lemma ByteOfRest(value: u64, i: nat)
    requires i < 8
    ensures PutU64(value)[i] == Low(Rest(value, i))
  {
    hide PutU64, High, Low;
    PutIs(value);
    assert Rest(value, 1) == High(value) && Rest(value, 2) == High(Rest(value, 1));
    assert Rest(value, 3) == High(Rest(value, 2)) && Rest(value, 4) == High(Rest(value, 3));
    assert Rest(value, 5) == High(Rest(value, 4)) && Rest(value, 6) == High(Rest(value, 5));
    assert Rest(value, 7) == High(Rest(value, 6));
    LastByte(Rest(value, 7));
  }

  lemma LastByte(v: nat)
    ensures v < 0x100 ==> Low(v) == v
  {
  }

  /** putu64 writes bits 8i to 8i+7 into byte i. */
  lemma PutBit(value: u64, i: nat, k: nat)
    requires i < 8 && k < 8
    ensures Bit(PutU64(value)[i], k) == Bit(value, 8 * i + k)
  {
    hide Bit, PutU64, Rest;
    ByteOfRest(value, i);
    BitsOfByte(Rest(value, i), k);
    BitsOfRest(value, i, k);
  }

  // ---------------------------------------------------------------- ciphertexts

  // The initialisation vector.
  const ZEROS: Bytes := seq<byte>(16, _ => 0)

  /**
   * encrypt_bytes: sixteen zero bytes, then the message, every bit of it added to the bit of the keystream
   * at its place.
   */
  lemma EncryptedBit(cr: Suite, key: Bytes, msg: Bytes, i: nat, k: nat)
    requires i < |msg|
    ensures var ctext := EncryptBytes(cr, key, msg);
            && |ctext| == 16 + |msg| && ctext[..16] == ZEROS
            && Bit(ctext[16 + i], k) == (Bit(msg[i], k) + Bit(cr.keystream(key, ZEROS, i), k)) % 2
  {
    hide Bit;
    assert ZERO_IV == ZEROS;
    XorBit(msg[i], cr.keystream(key, ZEROS, i), k);
  }

  /** An encrypted block: bit 8i+k of value j is found, added to the keystream, in bit k of byte 16+8j+i. */
  lemma BlockBit(cr: Suite, key: Bytes, values: seq<u64>, j: nat, i: nat, k: nat)
    requires j < |values| && i < 8 && k < 8
    ensures var ctext := EncryptBlock(cr, key, values);
            && |ctext| == 16 + 8 * |values| && ctext[..16] == ZEROS
            && Bit(ctext[16 + (8 * j + i)], k)
               == (Bit(values[j], 8 * i + k) + Bit(cr.keystream(key, ZEROS, 8 * j + i), k)) % 2
  {
    hide Bit, EncryptBytes, EncodeBlock, PutU64;
    var msg := EncodeBlock(values);
    EncryptedBit(cr, key, msg, 8 * j + i, k);
    SlotOfBlock(values, j);
    assert msg[8 * j + i] == msg[8 * j..8 * j + 8][i];
    PutBit(values[j], i, k);
  }

  /** An encrypted file id is a block of one value. */
  lemma LongIsBlock(cr: Suite, key: Bytes, value: u64)
    ensures EncryptLong(cr, key, value) == EncryptBlock(cr, key, [value])
  {
    assert EncodeBlock([value]) == PutU64(value);
  }
}
