/** AddServer keeps the entries and revocations of the model, under labels (src/DSSE.cpp). */
module AddProof {
  import opened Octets
  import opened Crypto
  import opened CoreSpec
  import History

  /** Dplus holds the entries of the model, each under the label of its word and counter, and no others. */
  ghost predicate AddedHold(cr: Suite, kplus: Bytes, vocabulary: set<Word>, dplus: map<Bytes, Bytes>,
      entries: map<(Word, u64), u64>) {
    forall w, c: u64 | w in vocabulary ::
        EntryHolds(cr, K2Of(cr, kplus, w), dplus, Label(cr, kplus, w, c), entries, w, c)
  }

  ghost predicate EntryHolds(cr: Suite, k2: Bytes, dict: map<Bytes, Bytes>, lbl: Bytes,
      entries: map<(Word, u64), u64>, w: Word, c: u64) {
    && (lbl in dict <==> (w, c) in entries)
    && (lbl in dict ==> |dict[lbl]| >= 24 && DecryptLong(cr, k2, dict[lbl]) == entries[(w, c)])
  }

  ghost predicate RevsHold(cr: Suite, kminus: Bytes, vocabulary: set<Word>, srev: set<Bytes>,
      revoked: set<(Word, u64)>) {
    forall w, id: u64 | w in vocabulary :: Label(cr, kminus, w, id) in srev <==> (w, id) in revoked
  }

  ghost predicate ServerHolds(cr: Suite, c: ClientState, vocabulary: set<Word>, s: ServerState,
      m: History.Model) {
    AddedHold(cr, c.kplus, vocabulary, s.dplus, m.entries) && RevsHold(cr, c.kminus, vocabulary, s.srev, m.revoked)
  }

  lemma LabelsDiffer(cr: Suite, master: Bytes, vocabulary: set<Word>, w: Word, w': Word, c: u64, c': u64)
    requires CollisionFree(cr, master, vocabulary) && w in vocabulary && w' in vocabulary
    ensures Label(cr, master, w, c) == Label(cr, master, w', c') <==> w == w' && c == c'
  {
  }

  /** A pair made for word `w` is decrypted to the id, whatever its unwritten bytes are. */
  lemma PairDecrypts(cr: Suite, size: nat, c: ClientState, id: u64, w: Word, p: AddPair)
    requires IsAddPair(cr, size, c, id, w, p)
    ensures |p.fileId| >= 24 && DecryptLong(cr, K2Of(cr, c.kplus, w), p.fileId) == id
  {
    hide DecryptBytes, EncryptLong;
    DecryptLongIgnoresTail(cr, K2Of(cr, c.kplus, w), id, p.fileId[24..]);
    assert p.fileId[..24] + p.fileId[24..] == p.fileId;
  }

  // A new entry under a free label.
  lemma EntryAdded(cr: Suite, kplus: Bytes, vocabulary: set<Word>, dplus: map<Bytes, Bytes>,
      entries: map<(Word, u64), u64>, w: Word, n: u64, id: u64, entry: Bytes)
    requires CollisionFree(cr, kplus, vocabulary) && w in vocabulary
    requires AddedHold(cr, kplus, vocabulary, dplus, entries)
    requires |entry| >= 24 && DecryptLong(cr, K2Of(cr, kplus, w), entry) == id
    ensures AddedHold(cr, kplus, vocabulary, dplus[Label(cr, kplus, w, n) := entry], entries[(w, n) := id])
  {
    hide Label, DecryptLong, K2Of, CollisionFree;
    var dplus', entries' := dplus[Label(cr, kplus, w, n) := entry], entries[(w, n) := id];
    forall x, c: u64 | x in vocabulary
      ensures EntryHolds(cr, K2Of(cr, kplus, x), dplus', Label(cr, kplus, x, c), entries', x, c)
    {
      assert EntryHolds(cr, K2Of(cr, kplus, x), dplus, Label(cr, kplus, x, c), entries, x, c);
      LabelsDiffer(cr, kplus, vocabulary, x, w, c, n);
    }
  }

  lemma RevocationCleared(cr: Suite, kminus: Bytes, vocabulary: set<Word>, srev: set<Bytes>,
      revoked: set<(Word, u64)>, w: Word, id: u64)
    requires CollisionFree(cr, kminus, vocabulary) && w in vocabulary && RevsHold(cr, kminus, vocabulary, srev, revoked)
    ensures RevsHold(cr, kminus, vocabulary, srev - {Label(cr, kminus, w, id)}, revoked - {(w, id)})
  {
    hide Label, CollisionFree;
    forall x, i: u64 | x in vocabulary
      ensures Label(cr, kminus, x, i) in srev - {Label(cr, kminus, w, id)} <==> (x, i) in revoked - {(w, id)}
    {
      LabelsDiffer(cr, kminus, vocabulary, x, w, i, id);
    }
  }

  /** AddServer does to Dplus and Srev what the model does to entries and revocations, with the same bit. */
  lemma AddOneHolds(cr: Suite, size: nat, c: ClientState, vocabulary: set<Word>, s: ServerState, r: seq<byte>,
      p: AddPair, w: Word, id: u64, m: History.Model)
    requires CollisionFree(cr, c.kplus, vocabulary) && CollisionFree(cr, c.kminus, vocabulary) && w in vocabulary
    requires ServerHolds(cr, c, vocabulary, s, m)
    requires IsAddPair(cr, size, c, id, w, p) && CountOf(c.dcount, w) == CountOf(m.counts, w)
    ensures var (s', r') := AddOne(s, r, p); var (m', bits) := History.PutPair(m, r, id, w);
            ServerHolds(cr, c, vocabulary, s', m') && r' == bits
  {
    hide Label, DecryptLong, EncryptLong, K2Of, CollisionFree, AddedHold;
    var n := CountOf(m.counts, w);
    PairDecrypts(cr, size, c, id, w, p);
    RevocationCleared(cr, c.kminus, vocabulary, s.srev, m.revoked, w, id);
    EntryAdded(cr, c.kplus, vocabulary, s.dplus, m.entries, w, n, id, p.fileId);
    TokenUsed(cr, c.kplus, vocabulary, s.dplus, m.entries, w, n);
  }

  lemma TokenUsed(cr: Suite, kplus: Bytes, vocabulary: set<Word>, dplus: map<Bytes, Bytes>,
      entries: map<(Word, u64), u64>, w: Word, c: u64)
    requires AddedHold(cr, kplus, vocabulary, dplus, entries) && w in vocabulary
    ensures Label(cr, kplus, w, c) in dplus <==> (w, c) in entries
  {
    hide Label, DecryptLong, K2Of;
    assert EntryHolds(cr, K2Of(cr, kplus, w), dplus, Label(cr, kplus, w, c), entries, w, c);
  }

  /** A request whose pairs were made with the counters of the model. */
  ghost predicate HonestPairs(cr: Suite, size: nat, c: ClientState, vocabulary: set<Word>, id: u64, w: seq<Word>,
      l: seq<AddPair>, counts: map<Word, u64>) {
    && |l| == |w|
    && forall i | 0 <= i < |w| ::
         w[i] in vocabulary && IsAddPair(cr, size, c, id, w[i], l[i])
             && CountOf(c.dcount, w[i]) == CountOf(counts, w[i])
  }

  lemma HonestInit(cr: Suite, size: nat, c: ClientState, vocabulary: set<Word>, id: u64, w: seq<Word>,
      l: seq<AddPair>, counts: map<Word, u64>)
    requires HonestPairs(cr, size, c, vocabulary, id, w, l, counts) && w != []
    ensures HonestPairs(cr, size, c, vocabulary, id, w[..|w| - 1], l[..|w| - 1], counts)
  {
    hide IsAddPair;
  }

  /** AddServer on an honest request is the addition of the model, with the same reply. */
  lemma {:induction false} AddServerHolds(cr: Suite, size: nat, c: ClientState, vocabulary: set<Word>, s: ServerState,
      l: seq<AddPair>, w: seq<Word>, id: u64, m: History.Model)
    requires CollisionFree(cr, c.kplus, vocabulary) && CollisionFree(cr, c.kminus, vocabulary)
    requires ServerHolds(cr, c, vocabulary, s, m)
    requires HonestPairs(cr, size, c, vocabulary, id, w, l, m.counts)
    ensures var (s', r) := AddServer(s, l); var (m', bits) := History.PutAll(m, id, w);
            ServerHolds(cr, c, vocabulary, s', m') && r == bits
    decreases |l|
  {
    hide CollisionFree, IsAddPair, AddedHold, RevsHold, AddOne, History.PutPair;
    if w != [] {
      var n := |l| - 1;
      HonestInit(cr, size, c, vocabulary, id, w, l, m.counts);
      AddServerHolds(cr, size, c, vocabulary, s, l[..n], w[..n], id, m);
      var (s1, r1) := AddServer(s, l[..n]);
      History.CountsStay(m, id, w[..n]);
      AddOneHolds(cr, size, c, vocabulary, s1, r1, l[n], w[n], id, History.PutAll(m, id, w[..n]).0);
    }
  }

  // ---------------------------------------------------------------- searching Dplus

  /** Probing Dplus for a word and decrypting finds what the model finds, and reads safely. */
  lemma {:induction false} AddedFound(cr: Suite, size: nat, kplus: Bytes, vocabulary: set<Word>,
      dplus: map<Bytes, Bytes>, entries: map<(Word, u64), u64>, w: Word, c: nat)
    requires AddedHold(cr, kplus, vocabulary, dplus, entries) && w in vocabulary && c <= TWO64
    ensures var found := Probe(cr, dplus, K1Of(cr, kplus, w), c);
            && Gather(cr, size, BASIC, K2Of(cr, kplus, w), [], found) == History.Found(entries, w, c)
            && Readable(cr, size, BASIC, K2Of(cr, kplus, w), [], found)
    decreases TWO64 - c
  {
    hide DecryptLong, MacLong, MacKey;
    var k1, k2 := K1Of(cr, kplus, w), K2Of(cr, kplus, w);
    if c < TWO64 {
      assert EntryHolds(cr, k2, dplus, Label(cr, kplus, w, c), entries, w, c);
      assert MacLong(cr, k1, c) == Label(cr, kplus, w, c);
      if (w, c) in entries {
        AddedFound(cr, size, kplus, vocabulary, dplus, entries, w, c + 1);
        var e, rest := dplus[MacLong(cr, k1, c)], Probe(cr, dplus, k1, c + 1);
        assert Probe(cr, dplus, k1, c) == [e] + rest;
        assert ([e] + rest)[0] == e && ([e] + rest)[1..] == rest;
        assert EntryIds(cr, size, BASIC, k2, [], e) == [entries[(w, c)]];
      }
    }
  }
}
