/** The size of the index and the shape of its pointers (src/DSSE.cpp, SetupClientPacked and SetupClientPointer). */
module Layout {
  import opened Octets
  import opened Crypto
  import opened CoreSpec
  import opened SpecFacts
  import opened SetupProof
  import opened IndexProof

  // ---------------------------------------------------------------- rounding up

  function Ceil(n: nat, size: nat): nat
    requires size >= 1
  {
    (n + (size - 1)) / size
  }

  lemma CeilIs(n: nat, size: nat, k: nat)
    requires size >= 1 && n <= k * size && (k > 0 ==> (k - 1) * size < n)
    ensures Ceil(n, size) == k
  {
    var q := Ceil(n, size);
    DivBounds(n + (size - 1), size);
    if q < k {
      MulMonotone(q + 1, k, size);
      if k > 0 {
        MulMonotone(q, k - 1, size);
      }
    } else if q > k {
      MulMonotone(k + 1, q, size);
    }
  }

  lemma CeilBounds(n: nat, size: nat)
    requires size >= 1
    ensures n <= Ceil(n, size) * size
    ensures Ceil(n, size) > 0 ==> (Ceil(n, size) - 1) * size < n
  {
    DivBounds(n + (size - 1), size);
    var q := Ceil(n, size);
    assert q > 0 ==> (q - 1) * size == q * size - size;
  }

  lemma Associate(k: nat, size: nat)
    ensures k * size * size == k * (size * size)
  {
  }

  lemma TwiceAbove(n: nat, q: nat, k: nat, size: nat)
    requires n <= q * size && q <= k * size
    ensures n <= k * (size * size)
  {
    MulMonotone(q, k * size, size);
    Associate(k, size);
  }

  lemma TwiceBelow(n: nat, q: nat, k: nat, size: nat)
    requires k > 0 && q > 0 && (q - 1) * size < n && (k - 1) * size < q
    ensures (k - 1) * (size * size) < n
  {
    MulMonotone((k - 1) * size, q - 1, size);
    Associate(k - 1, size);
  }

  lemma SquarePositive(size: nat)
    requires size >= 1
    ensures size * size >= 1
  {
    MulMonotone(1, size, size);
  }

  /** A block of pointers to blocks of ids covers size * size ids. */
  lemma CeilTwice(n: nat, size: nat)
    requires size >= 1
    ensures size * size >= 1 && Ceil(Ceil(n, size), size) == Ceil(n, size * size)
  {
    hide Ceil;
    var q := Ceil(n, size);
    var k := Ceil(q, size);
    SquarePositive(size);
    CeilBounds(n, size);
    CeilBounds(q, size);
    TwiceAbove(n, q, k, size);
    if k > 0 {
      TwiceBelow(n, q, k, size);
    }
    CeilIs(n, size * size, k);
  }

  lemma {:induction false} ChunkCount(values: seq<u64>, size: nat)
    requires size >= 1
    ensures |Chunks(values, size)| == Ceil(|values|, size)
  {
    if |values| > size {
      ChunkCount(values[size..], size);
      var k := Ceil(|values| - size, size);
      CeilBounds(|values| - size, size);
      assert (k + 1) * size == k * size + size;
      assert k > 0 ==> (k - 1) * size + size == k * size;
      CeilIs(|values|, size, k + 1);
    } else if values != [] {
      CeilIs(|values|, size, 1);
    } else {
      CeilIs(0, size, 0);
    }
  }

  // ---------------------------------------------------------------- the number of entries

  /** Entries of D for a list of `n` ids. */
  function EntryCount(version: int, size: nat, n: nat): nat
    requires size >= 1
  {
    SquarePositive(size);
    if version == BASIC then n else if version == PACKED then Ceil(n, size) else Ceil(n, size * size)
  }

  /** Every token counts once. */
  function TotalEntries(version: int, size: nat, tokens: seq<Word>, fileids: map<Word, seq<u64>>): nat
    requires size >= 1 && Indexed(tokens, fileids)
  {
    if tokens == [] then 0
    else
      (if tokens[0] in tokens[1..] then 0 else EntryCount(version, size, |fileids[tokens[0]]|))
      + TotalEntries(version, size, tokens[1..], fileids)
  }

  /** Every occurrence of a token counts. */
  function TotalBlocks(size: nat, tokens: seq<Word>, fileids: map<Word, seq<u64>>): nat
    requires size >= 1 && Indexed(tokens, fileids)
  {
    if tokens == [] then 0 else Ceil(|fileids[tokens[0]]|, size) + TotalBlocks(size, tokens[1..], fileids)
  }

  lemma IndexBlockCount(version: int, size: nat, fids: seq<u64>, base: nat)
    requires size >= 1 && (version == BASIC || version == PACKED || version == POINTERS)
    ensures |IndexBlocks(version, size, fids, base)| == EntryCount(version, size, |fids|)
    ensures |ArrayBlocks(version, size, fids)| == if version == POINTERS then Ceil(|fids|, size) else 0
  {
    hide Chunks, Pointers;
    ChunkCount(fids, size);
    ChunkCount(fids, 1);
    ChunkCount(Pointers(base, |Chunks(fids, size)|), size);
    CeilTwice(|fids|, size);
  }

  // The labels of the words of the index.
  ghost function AllLabels(cr: Suite, size: nat, version: int, key: Bytes, tokens: seq<Word>,
      fileids: map<Word, seq<u64>>): set<Bytes>
    requires size >= 1 && Indexed(tokens, fileids)
  {
    if tokens == [] then {}
    else
      var n := EntryCount(version, size, |fileids[tokens[0]]|);
      (if n <= TWO64 then LabelsBelow(cr, K1Of(cr, key, tokens[0]), n) else {})
      + AllLabels(cr, size, version, key, tokens[1..], fileids)
  }

  lemma EntryCountSmall(version: int, size: nat, n: nat)
    requires size >= 1
    ensures EntryCount(version, size, n) <= n
  {
    SquarePositive(size);
    CeilAtMost(n, size);
    CeilAtMost(n, size * size);
  }

  lemma CeilAtMost(n: nat, size: nat)
    requires size >= 1
    ensures Ceil(n, size) <= n
  {
    CeilBounds(n, size);
    var q := Ceil(n, size);
    if q > 0 {
      MulMonotone(1, size, q - 1);
    }
  }

  lemma {:induction false} AllLabelsAre(cr: Suite, size: nat, version: int, key: Bytes, tokens: seq<Word>,
      fileids: map<Word, seq<u64>>, lbl: Bytes)
    requires size >= 1 && Indexed(tokens, fileids)
    ensures lbl in AllLabels(cr, size, version, key, tokens, fileids)
            <==> exists w, c: u64 ::
                   w in tokens && c < EntryCount(version, size, |fileids[w]|) && lbl == Label(cr, key, w, c)
  {
    hide EntryCount;
    if tokens != [] {
      var t := tokens[0];
      var n := EntryCount(version, size, |fileids[t]|);
      EntryCountSmall(version, size, |fileids[t]|);
      AllLabelsAre(cr, size, version, key, tokens[1..], fileids, lbl);
      LabelsBelowAre(cr, K1Of(cr, key, t), n, lbl);
      assert tokens == [t] + tokens[1..];
      forall c: u64
        ensures MacLong(cr, K1Of(cr, key, t), c) == Label(cr, key, t, c)
      {
      }
    }
  }

  lemma {:induction false} AllLabelsSize(cr: Suite, size: nat, version: int, key: Bytes, vocabulary: set<Word>,
      tokens: seq<Word>, fileids: map<Word, seq<u64>>)
    requires size >= 1 && Indexed(tokens, fileids)
    requires CollisionFree(cr, key, vocabulary) && forall w | w in tokens :: w in vocabulary
    ensures |AllLabels(cr, size, version, key, tokens, fileids)| == TotalEntries(version, size, tokens, fileids)
  {
    hide EntryCount, CollisionFree, Label, K1Of;
    if tokens != [] {
      var t, rest := tokens[0], tokens[1..];
      var n := EntryCount(version, size, |fileids[t]|);
      EntryCountSmall(version, size, |fileids[t]|);
      AllLabelsSize(cr, size, version, key, vocabulary, rest, fileids);
      CountersOfWord(cr, key, vocabulary, t);
      LabelsBelowSize(cr, K1Of(cr, key, t), n);
      var mine, others := LabelsBelow(cr, K1Of(cr, key, t), n), AllLabels(cr, size, version, key, rest, fileids);
      if t in rest {
        forall lbl | lbl in mine
          ensures lbl in others
        {
          Shared(cr, size, version, key, rest, fileids, t, lbl);
        }
        assert mine + others == others;
      } else {
        forall lbl | lbl in mine
          ensures lbl !in others
        {
          NotShared(cr, size, version, key, vocabulary, tokens, fileids, lbl);
        }
        assert mine !! others;
      }
    }
  }

  lemma Shared(cr: Suite, size: nat, version: int, key: Bytes, tokens: seq<Word>, fileids: map<Word, seq<u64>>,
      w: Word, lbl: Bytes)
    requires size >= 1 && Indexed(tokens, fileids) && w in tokens
    requires EntryCount(version, size, |fileids[w]|) <= TWO64
    requires lbl in LabelsBelow(cr, K1Of(cr, key, w), EntryCount(version, size, |fileids[w]|))
    ensures lbl in AllLabels(cr, size, version, key, tokens, fileids)
  {
    hide EntryCount, AllLabels, LabelsBelow;
    AllLabelsAre(cr, size, version, key, tokens, fileids, lbl);
    LabelsBelowAre(cr, K1Of(cr, key, w), EntryCount(version, size, |fileids[w]|), lbl);
    var c: u64 :| c < EntryCount(version, size, |fileids[w]|) && lbl == MacLong(cr, K1Of(cr, key, w), c);
    assert lbl == Label(cr, key, w, c);
  }

  lemma NotShared(cr: Suite, size: nat, version: int, key: Bytes, vocabulary: set<Word>, tokens: seq<Word>,
      fileids: map<Word, seq<u64>>, lbl: Bytes)
    requires size >= 1 && Indexed(tokens, fileids) && tokens != [] && tokens[0] !in tokens[1..]
    requires CollisionFree(cr, key, vocabulary) && forall w | w in tokens :: w in vocabulary
    requires EntryCount(version, size, |fileids[tokens[0]]|) <= TWO64
    requires lbl in LabelsBelow(cr, K1Of(cr, key, tokens[0]), EntryCount(version, size, |fileids[tokens[0]]|))
    ensures lbl !in AllLabels(cr, size, version, key, tokens[1..], fileids)
  {
    hide EntryCount, AllLabels, LabelsBelow;
    AllLabelsAre(cr, size, version, key, tokens[1..], fileids, lbl);
    LabelsBelowAre(cr, K1Of(cr, key, tokens[0]), EntryCount(version, size, |fileids[tokens[0]]|), lbl);
    var c: u64 :| lbl == MacLong(cr, K1Of(cr, key, tokens[0]), c);
    assert lbl == Label(cr, key, tokens[0], c);
    assert forall w | w in tokens[1..] :: w in tokens && w != tokens[0];
  }

  /**
   * Size accounting: D gets one entry per id (Basic), per block (Packed) or per block of pointers
   * (Pointer) of each word, no two of them under one label, and A one block per `size` ids of each
   * occurrence of a word.
   */
  lemma IndexSize(cr: Suite, size: nat, version: int, key: Bytes, vocabulary: set<Word>, tokens: seq<Word>,
      fileids: map<Word, seq<u64>>, l: seq<SetupPair>)
    requires size >= 1 && Indexed(tokens, fileids)
    requires version == BASIC || version == PACKED || version == POINTERS
    requires IsSetupRequest(cr, size, version, key, tokens, fileids, l)
    requires CollisionFree(cr, key, vocabulary) && forall w | w in tokens :: w in vocabulary
    ensures |Dict(l)| == TotalEntries(version, size, tokens, fileids)
    ensures |SetupArray(cr, size, version, key, tokens, fileids)|
            == if version == POINTERS then TotalBlocks(size, tokens, fileids) else 0
  {
    hide Dict, IsSetupRequest, SetupArray, CollisionFree, AllLabels, Label, EntryCount, HasBase;
    var labels := AllLabels(cr, size, version, key, tokens, fileids);
    forall lbl
      ensures lbl in Dict(l) <==> lbl in labels
    {
      AllLabelsAre(cr, size, version, key, tokens, fileids, lbl);
      LabelStored(cr, size, version, key, vocabulary, tokens, fileids, l, lbl);
    }
    assert Dict(l).Keys == labels;
    AllLabelsSize(cr, size, version, key, vocabulary, tokens, fileids);
    ArraySize(cr, size, version, key, tokens, fileids);
  }

  lemma LabelStored(cr: Suite, size: nat, version: int, key: Bytes, vocabulary: set<Word>, tokens: seq<Word>,
      fileids: map<Word, seq<u64>>, l: seq<SetupPair>, lbl: Bytes)
    requires size >= 1 && Indexed(tokens, fileids)
    requires version == BASIC || version == PACKED || version == POINTERS
    requires IsSetupRequest(cr, size, version, key, tokens, fileids, l)
    requires CollisionFree(cr, key, vocabulary) && forall w | w in tokens :: w in vocabulary
    ensures lbl in Dict(l)
            <==> exists w, c: u64 ::
                   w in tokens && c < EntryCount(version, size, |fileids[w]|) && lbl == Label(cr, key, w, c)
  {
    hide Dict, IsSetupRequest, CollisionFree, Label, EntryCount, HasBase, EncryptBlock, BlocksAt;
    forall w | w in tokens
      ensures BlockCount(version, size, fileids[w]) == EntryCount(version, size, |fileids[w]|)
    {
      IndexBlockCount(version, size, fileids[w], 0);
    }
    if lbl in Dict(l) {
      var q := SomeEntry(l, lbl);
      RequestHas(cr, size, version, key, tokens, fileids, l, q);
      var w, base: nat, c: nat :| IsEntry(cr, size, version, key, tokens, fileids, w, base, c, q);
      BaseInTokens(size, version, tokens, fileids, 0, w, base);
      BlocksSized(size, version, fileids[w], base);
      assert U64(c) < EntryCount(version, size, |fileids[w]|) by {
        BlocksAtIs(size, version, fileids, w, base);
      }
    }
    if w, c: u64 :| w in tokens && c < EntryCount(version, size, |fileids[w]|) && lbl == Label(cr, key, w, c) {
      EntriesAre(cr, size, version, key, vocabulary, tokens, fileids, l, w, c);
    }
  }

  lemma BlocksAtIs(size: nat, version: int, fileids: map<Word, seq<u64>>, w: Word, base: nat)
    requires size >= 1 && w in fileids
    ensures BlocksAt(size, version, fileids, w, base) == IndexBlocks(version, size, fileids[w], base)
  {
  }

  lemma {:induction false} ArraySize(cr: Suite, size: nat, version: int, key: Bytes, tokens: seq<Word>,
      fileids: map<Word, seq<u64>>)
    requires size >= 1 && Indexed(tokens, fileids)
    requires version == BASIC || version == PACKED || version == POINTERS
    ensures |SetupArray(cr, size, version, key, tokens, fileids)|
            == if version == POINTERS then TotalBlocks(size, tokens, fileids) else 0
  {
    hide EncryptBlocks, ArrayBlocks, Ceil;
    if tokens != [] {
      ArraySize(cr, size, version, key, tokens[1..], fileids);
      IndexBlockCount(version, size, fileids[tokens[0]], 0);
    }
  }

  // ---------------------------------------------------------------- pointers

  /** Blocks begin with a value of the list; INVALID only fills the end of the last one. */
  lemma {:induction false} ChunkShape(values: seq<u64>, size: nat, i: nat, j: nat)
    requires size >= 1 && i < |Chunks(values, size)| && j < size
    ensures i * size < |values|
    ensures Chunks(values, size)[i][j] == if i * size + j < |values| then values[i * size + j] else INVALID
  {
    if i > 0 {
      ChunkShape(values[size..], size, i - 1, j);
      assert i * size == (i - 1) * size + size;
    }
  }

  /** Where the blocks of a word begin in the array. */
  function BaseOf(size: nat, tokens: seq<Word>, fileids: map<Word, seq<u64>>, w: Word): nat
    requires size >= 1 && Indexed(tokens, fileids) && w in tokens
  {
    if tokens[0] == w then 0 else |Chunks(fileids[tokens[0]], size)| + BaseOf(size, tokens[1..], fileids, w)
  }

  /** With distinct tokens, that is the place of its one occurrence. */
  lemma {:induction false} BaseIs(size: nat, tokens: seq<Word>, fileids: map<Word, seq<u64>>, start: nat, w: Word,
      base: nat)
    requires size >= 1 && Indexed(tokens, fileids) && Distinct(tokens)
    requires HasBase(size, POINTERS, tokens, fileids, start, w, base)
    ensures w in tokens && base == start + BaseOf(size, tokens, fileids, w)
  {
    hide Chunks;
    BaseInTokens(size, POINTERS, tokens, fileids, start, w, base);
    var next := start + |Chunks(fileids[tokens[0]], size)|;
    if tokens[0] == w {
      var b := BaseOfToken(size, POINTERS, tokens[1..], fileids, next, w);
    } else {
      BaseIs(size, tokens[1..], fileids, next, w, base);
    }
  }

  /** Position `i` of the array lies in the stretch of `w`. */
  predicate InStretch(size: nat, tokens: seq<Word>, fileids: map<Word, seq<u64>>, w: Word, i: nat)
    requires size >= 1 && Indexed(tokens, fileids)
  {
    w in tokens && BaseOf(size, tokens, fileids, w) <= i < BaseOf(size, tokens, fileids, w) + |Chunks(fileids[w], size)|
  }

  lemma ArrayStep(cr: Suite, size: nat, key: Bytes, tokens: seq<Word>, fileids: map<Word, seq<u64>>)
    requires size >= 1 && Indexed(tokens, fileids) && tokens != []
    ensures |SetupArray(cr, size, POINTERS, key, tokens, fileids)|
            == |Chunks(fileids[tokens[0]], size)| + |SetupArray(cr, size, POINTERS, key, tokens[1..], fileids)|
  {
    hide Chunks;
  }

  /** The stretches of the words cover the array. */
  lemma {:induction false} StretchOf(cr: Suite, size: nat, key: Bytes, tokens: seq<Word>, fileids: map<Word, seq<u64>>,
      i: nat) returns (w: Word)
    requires size >= 1 && Indexed(tokens, fileids) && Distinct(tokens)
    requires i < |SetupArray(cr, size, POINTERS, key, tokens, fileids)|
    ensures w in tokens && InStretch(size, tokens, fileids, w, i)
  {
    hide Chunks;
    var n := |Chunks(fileids[tokens[0]], size)|;
    ArrayStep(cr, size, key, tokens, fileids);
    if i < n {
      w := tokens[0];
    } else {
      w := StretchOf(cr, size, key, tokens[1..], fileids, i - n);
    }
  }

  /** And do not overlap. */
  lemma {:induction false} StretchesApart(size: nat, tokens: seq<Word>, fileids: map<Word, seq<u64>>, w: Word,
      w': Word, i: nat)
    requires size >= 1 && Indexed(tokens, fileids)
    requires InStretch(size, tokens, fileids, w, i) && InStretch(size, tokens, fileids, w', i)
    ensures w == w'
  {
    hide Chunks;
    if w != tokens[0] && w' != tokens[0] {
      StretchesApart(size, tokens[1..], fileids, w, w', i - |Chunks(fileids[tokens[0]], size)|);
    }
  }

  /** The entry under counter `c` of `w`, decrypted. */
  function StoredBlock(cr: Suite, size: nat, key: Bytes, d: map<Bytes, Bytes>, w: Word, c: u64): (pointers: seq<u64>)
    requires Label(cr, key, w, c) in d && |d[Label(cr, key, w, c)]| >= BlockBytes(size)
    ensures |pointers| == size
  {
    DecryptBlock(cr, K2Of(cr, key, w), d[Label(cr, key, w, c)], size)
  }

  /** What Setup stored there: the next position of an occurrence of the word, or INVALID behind its end. */
  lemma SlotsAt(cr: Suite, size: nat, key: Bytes, vocabulary: set<Word>, tokens: seq<Word>,
      fileids: map<Word, seq<u64>>, l: seq<SetupPair>, w: Word, c: u64) returns (at: nat)
    requires size >= 1 && Indexed(tokens, fileids)
    requires IsSetupRequest(cr, size, POINTERS, key, tokens, fileids, l)
    requires CollisionFree(cr, key, vocabulary) && (forall t | t in tokens :: t in vocabulary) && w in vocabulary
    requires |SetupArray(cr, size, POINTERS, key, tokens, fileids)| <= INVALID
    requires Label(cr, key, w, c) in Dict(l)
    ensures w in tokens && |Dict(l)[Label(cr, key, w, c)]| == BlockBytes(size)
    ensures HasBase(size, POINTERS, tokens, fileids, 0, w, at)
    ensures var n := |Chunks(fileids[w], size)|;
            && c * size < n && at + n <= |SetupArray(cr, size, POINTERS, key, tokens, fileids)|
            && forall slot | 0 <= slot < size ::
                 StoredBlock(cr, size, key, Dict(l), w, c)[slot]
                 == if c * size + slot < n then at + c * size + slot else INVALID
  {
    hide HasBase, BlocksAt, Chunks, Pointers, Label, EncryptBlock, DecryptBlock, Dict, IsSetupRequest, SetupArray,
         CollisionFree, EncryptBlocks, K2Of;
    EntriesAre(cr, size, POINTERS, key, vocabulary, tokens, fileids, l, w, c);
    at :| && HasBase(size, POINTERS, tokens, fileids, 0, w, at)
          && c < |BlocksAt(size, POINTERS, fileids, w, at)|
          && Dict(l)[Label(cr, key, w, c)]
             == EncryptBlock(cr, K2Of(cr, key, w), BlocksAt(size, POINTERS, fileids, w, at)[c]);
    BlocksAtIs(size, POINTERS, fileids, w, at);
    BlocksSized(size, POINTERS, fileids[w], at);
    DecryptEncryptBlock(cr, K2Of(cr, key, w), BlocksAt(size, POINTERS, fileids, w, at)[c]);
    StretchFits(cr, size, key, tokens, fileids, w, at);
    forall slot | 0 <= slot < size
      ensures var n, q := |Chunks(fileids[w], size)|, c * size + slot;
              c * size < n && BlocksAt(size, POINTERS, fileids, w, at)[c][slot] == if q < n then at + q else INVALID
    {
      ChunkShape(Pointers(at, |Chunks(fileids[w], size)|), size, c, slot);
      if c * size + slot < |Chunks(fileids[w], size)| {
        PointerAt(at, |Chunks(fileids[w], size)|, c * size + slot);
      }
    }
    assert StoredBlock(cr, size, key, Dict(l), w, c)[0] == BlocksAt(size, POINTERS, fileids, w, at)[c][0];
  }

  lemma StretchFits(cr: Suite, size: nat, key: Bytes, tokens: seq<Word>, fileids: map<Word, seq<u64>>, w: Word, at: nat)
    requires size >= 1 && Indexed(tokens, fileids) && HasBase(size, POINTERS, tokens, fileids, 0, w, at)
    ensures w in tokens && at + |Chunks(fileids[w], size)| <= |SetupArray(cr, size, POINTERS, key, tokens, fileids)|
  {
    hide HasBase, SetupArray, Chunks, K2Of, IndexBlocks, EncryptBlocks;
    BaseInTokens(size, POINTERS, tokens, fileids, 0, w, at);
    AllPlaced(cr, size, POINTERS, key, tokens, fileids, [], w, at);
    assert [] + SetupArray(cr, size, POINTERS, key, tokens, fileids)
        == SetupArray(cr, size, POINTERS, key, tokens, fileids);
  }

  /** With distinct tokens, every word has one stretch of the array. */
  lemma SlotIs(cr: Suite, size: nat, key: Bytes, vocabulary: set<Word>, tokens: seq<Word>,
      fileids: map<Word, seq<u64>>, l: seq<SetupPair>, w: Word, c: u64, slot: nat)
    requires size >= 1 && Indexed(tokens, fileids) && Distinct(tokens)
    requires IsSetupRequest(cr, size, POINTERS, key, tokens, fileids, l)
    requires CollisionFree(cr, key, vocabulary) && (forall t | t in tokens :: t in vocabulary) && w in vocabulary
    requires |SetupArray(cr, size, POINTERS, key, tokens, fileids)| <= INVALID
    requires Label(cr, key, w, c) in Dict(l) && slot < size
    ensures w in tokens && |Dict(l)[Label(cr, key, w, c)]| == BlockBytes(size)
    ensures var base, n, q := BaseOf(size, tokens, fileids, w), |Chunks(fileids[w], size)|, c * size + slot;
            && StoredBlock(cr, size, key, Dict(l), w, c)[slot] == (if q < n then base + q else INVALID)
            && (q < n ==> InStretch(size, tokens, fileids, w, base + q))
  {
    hide HasBase, Chunks, Label, Dict, IsSetupRequest, SetupArray, CollisionFree, BaseOf, StoredBlock;
    var at := SlotsAt(cr, size, key, vocabulary, tokens, fileids, l, w, c);
    BaseIs(size, tokens, fileids, 0, w, at);
  }

  lemma PointerAt(base: nat, n: nat, q: nat)
    requires q < n && base + q < INVALID
    ensures Pointers(base, n)[q] == base + q
  {
    assert U64(base + q) == base + q;
  }

  lemma SameSlot(c: nat, slot: nat, c': nat, slot': nat, size: nat)
    requires slot < size && slot' < size && c * size + slot == c' * size + slot'
    ensures c == c' && slot == slot'
  {
    if c < c' {
      MulMonotone(c + 1, c', size);
      NextOffset(c, size);
    } else if c' < c {
      MulMonotone(c' + 1, c, size);
      NextOffset(c', size);
    }
  }

  /**
   * Pointer integrity: in every stored block the pointers come first and INVALID only behind them, the
   * first slot is a pointer, and every pointer is a position of the array.
   */
  lemma PointersFirst(cr: Suite, size: nat, key: Bytes, vocabulary: set<Word>, tokens: seq<Word>,
      fileids: map<Word, seq<u64>>, l: seq<SetupPair>, w: Word, c: u64)
    requires size >= 1 && Indexed(tokens, fileids)
    requires IsSetupRequest(cr, size, POINTERS, key, tokens, fileids, l)
    requires CollisionFree(cr, key, vocabulary) && (forall t | t in tokens :: t in vocabulary) && w in vocabulary
    requires |SetupArray(cr, size, POINTERS, key, tokens, fileids)| <= INVALID
    requires Label(cr, key, w, c) in Dict(l)
    ensures |Dict(l)[Label(cr, key, w, c)]| == BlockBytes(size)
    ensures var p := StoredBlock(cr, size, key, Dict(l), w, c);
            && p[0] != INVALID
            && (forall i, j | 0 <= i < j < size && p[i] == INVALID :: p[j] == INVALID)
            && (forall i | 0 <= i < size && p[i] != INVALID ::
                p[i] < |SetupArray(cr, size, POINTERS, key, tokens, fileids)|)
  {
    hide HasBase, Chunks, Label, Dict, IsSetupRequest, SetupArray, CollisionFree, StoredBlock;
    var at := SlotsAt(cr, size, key, vocabulary, tokens, fileids, l, w, c);
  }

  ghost predicate PointsTo(cr: Suite, size: nat, key: Bytes, d: map<Bytes, Bytes>, w: Word, c: u64, slot: nat, i: nat) {
    && slot < size && Label(cr, key, w, c) in d && |d[Label(cr, key, w, c)]| >= BlockBytes(size)
    && StoredBlock(cr, size, key, d, w, c)[slot] == i
  }

  /** Pointer integrity: every block of the array is pointed to, from exactly one slot of one entry of one word. */
  lemma PointersCover(cr: Suite, size: nat, key: Bytes, vocabulary: set<Word>, tokens: seq<Word>,
      fileids: map<Word, seq<u64>>, l: seq<SetupPair>, i: nat)
    requires size >= 1 && Indexed(tokens, fileids) && Distinct(tokens)
    requires IsSetupRequest(cr, size, POINTERS, key, tokens, fileids, l)
    requires CollisionFree(cr, key, vocabulary) && (forall t | t in tokens :: t in vocabulary)
    requires i < |SetupArray(cr, size, POINTERS, key, tokens, fileids)| <= INVALID
    ensures exists w, c: u64, slot: nat :: w in vocabulary && PointsTo(cr, size, key, Dict(l), w, c, slot, i)
    ensures forall w, c: u64, slot: nat, w', c': u64, slot': nat |
              && w in vocabulary && PointsTo(cr, size, key, Dict(l), w, c, slot, i)
              && w' in vocabulary && PointsTo(cr, size, key, Dict(l), w', c', slot', i) ::
              w == w' && c == c' && slot == slot'
  {
    hide HasBase, BlocksAt, Chunks, Pointers, Label, EncryptBlock, DecryptBlock, Dict, IsSetupRequest, SetupArray,
         CollisionFree, BaseOf, StoredBlock, InStretch;
    var w := StretchOf(cr, size, key, tokens, fileids, i);
    var c, slot := PointerOf(cr, size, key, vocabulary, tokens, fileids, l, w, i);
    assert PointsTo(cr, size, key, Dict(l), w, c, slot, i);
    forall w', c': u64, slot': nat | w' in vocabulary && PointsTo(cr, size, key, Dict(l), w', c', slot', i)
      ensures w' == w && c' == c && slot' == slot
    {
      SlotIs(cr, size, key, vocabulary, tokens, fileids, l, w, c, slot);
      SlotIs(cr, size, key, vocabulary, tokens, fileids, l, w', c', slot');
      StretchesApart(size, tokens, fileids, w, w', i);
      SameSlot(c, slot, c', slot', size);
    }
  }

  lemma PointerOf(cr: Suite, size: nat, key: Bytes, vocabulary: set<Word>, tokens: seq<Word>,
      fileids: map<Word, seq<u64>>, l: seq<SetupPair>, w: Word, i: nat)
    returns (c: u64, slot: nat)
    requires size >= 1 && Indexed(tokens, fileids) && Distinct(tokens)
    requires IsSetupRequest(cr, size, POINTERS, key, tokens, fileids, l)
    requires CollisionFree(cr, key, vocabulary) && (forall t | t in tokens :: t in vocabulary)
    requires i < |SetupArray(cr, size, POINTERS, key, tokens, fileids)| <= INVALID
    requires InStretch(size, tokens, fileids, w, i)
    ensures PointsTo(cr, size, key, Dict(l), w, c, slot, i)
  {
    hide HasBase, BlocksAt, Chunks, Pointers, Label, EncryptBlock, Dict, IsSetupRequest, SetupArray, CollisionFree,
         BaseOf, StoredBlock, DecryptBlock;
    var base, n := BaseOf(size, tokens, fileids, w), |Chunks(fileids[w], size)|;
    var q := i - base;
    DivBounds(q, size);
    BlocksSized(size, POINTERS, fileids[w], 0);
    BlocksSized(size, POINTERS, fileids[w], base);
    ChunkCount(Pointers(base, n), size);
    CeilBound(q / size, n, size);
    c, slot := q / size, q - q / size * size;
    EntriesAre(cr, size, POINTERS, key, vocabulary, tokens, fileids, l, w, c);
    SlotIs(cr, size, key, vocabulary, tokens, fileids, l, w, c, slot);
  }
}
