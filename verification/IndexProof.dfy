/** The dictionary SetupServer builds, and what probing it for a word returns. */
module IndexProof {
  import opened Octets
  import opened Crypto
  import opened Ordering
  import opened CoreSpec
  import opened SpecFacts
  import opened SetupProof

  // ---------------------------------------------------------------- the dictionary

  /** No two pairs disagree about a token. */
  ghost predicate Functional(pairs: seq<SetupPair>) {
    forall p, q | p in pairs && q in pairs && p.token == q.token :: p == q
  }

  lemma {:induction false} DictLookup(pairs: seq<SetupPair>)
    ensures forall k :: k in Dict(pairs) <==> exists p :: p in pairs && p.token == k
    ensures Functional(pairs) ==> forall p | p in pairs :: Dict(pairs)[p.token] == p.fileId
  {
    if pairs != [] {
      var init, last := pairs[..|pairs| - 1], pairs[|pairs| - 1];
      DictLookup(init);
      assert forall p :: p in pairs <==> p in init || p == last;
      if Functional(pairs) {
        forall p | p in pairs
          ensures Dict(pairs)[p.token] == p.fileId
        {
          if p.token != last.token {
            assert p in init;
          }
        }
      }
    }
  }

  /** The dictionary depends on the pairs only, not on their order: sorting the list is harmless. */
  lemma OrderIrrelevant(xs: seq<SetupPair>, ys: seq<SetupPair>)
    requires Functional(xs) && (forall p :: p in xs <==> p in ys)
    ensures Dict(xs) == Dict(ys)
  {
    DictLookup(xs);
    DictLookup(ys);
    assert Functional(ys);
    forall k | k in Dict(xs)
      ensures k in Dict(ys) && Dict(xs)[k] == Dict(ys)[k]
    {
      var p :| p in xs && p.token == k;
    }
    forall k | k in Dict(ys)
      ensures k in Dict(xs)
    {
      var p :| p in ys && p.token == k;
    }
  }

  /** A setup request: the lines of the index in any order. */
  ghost predicate IsSetupRequest(cr: Suite, size: nat, version: int, key: Bytes, tokens: seq<Word>,
      fileids: map<Word, seq<u64>>, l: seq<SetupPair>)
    requires size >= 1 && Indexed(tokens, fileids)
  {
    forall p :: p in l <==> p in HandOver(version, size, SetupLines(cr, size, version, key, tokens, fileids, 0))
  }

  lemma HandOverAre(version: int, size: nat, lines: seq<TokenPair>, p: SetupPair)
    ensures p in HandOver(version, size, lines)
            <==> exists x :: x in lines && p == SetupPair(x.l, Prefix(x.d, EntryBytes(version, size)))
  {
    var pairs := HandOver(version, size, lines);
    if p in pairs {
      var i :| 0 <= i < |pairs| && pairs[i] == p;
      assert lines[i] in lines;
    }
    if x :| x in lines && p == SetupPair(x.l, Prefix(x.d, EntryBytes(version, size))) {
      var i :| 0 <= i < |lines| && lines[i] == x;
      assert pairs[i] == p;
    }
  }

  /** What SetupClient returns is a setup request. */
  lemma SortedIsRequest(cr: Suite, size: nat, version: int, key: Bytes, tokens: seq<Word>, fileids: map<Word, seq<u64>>)
    requires size >= 1 && Indexed(tokens, fileids)
    ensures IsSetupRequest(cr, size, version, key, tokens, fileids,
                           HandOver(version, size,
                                    Sort(SetupLines(cr, size, version, key, tokens, fileids, 0), PairKey)))
  {
    var lines := SetupLines(cr, size, version, key, tokens, fileids, 0);
    var sorted := Sort(lines, PairKey);
    hide SetupLines, HandOver, Sort, EntryBytes;
    assert forall x :: x in sorted <==> x in multiset(sorted);
    assert forall x :: x in lines <==> x in multiset(lines);
    forall p: SetupPair
      ensures p in HandOver(version, size, sorted) <==> p in HandOver(version, size, lines)
    {
      HandOverAre(version, size, sorted, p);
      HandOverAre(version, size, lines, p);
    }
  }

  // ---------------------------------------------------------------- the entries of a word

  // The number of blocks does not depend on where they stand.
  lemma {:induction false} SameChunks(xs: seq<u64>, ys: seq<u64>, size: nat)
    requires size >= 1 && |xs| == |ys|
    ensures |Chunks(xs, size)| == |Chunks(ys, size)|
  {
    if |xs| > size {
      SameChunks(xs[size..], ys[size..], size);
    }
  }

  /** How many entries of D a list needs. */
  function BlockCount(version: int, size: nat, fids: seq<u64>): nat
    requires size >= 1
  {
    |IndexBlocks(version, size, fids, 0)|
  }

  lemma BlocksSized(size: nat, version: int, fids: seq<u64>, base: nat)
    requires size >= 1 && |fids| < TWO64
    ensures var blocks := IndexBlocks(version, size, fids, base);
            && |blocks| == BlockCount(version, size, fids) < TWO64
            && forall i | 0 <= i < |blocks| :: |blocks[i]| == if version == BASIC then 1 else size
  {
    hide Chunks;
    var n := |Chunks(fids, size)|;
    SameChunks(Pointers(base, n), Pointers(0, n), size);
  }

  /** Entry `c` of an occurrence of word `w`, as the server gets it. */
  ghost predicate IsEntry(cr: Suite, size: nat, version: int, key: Bytes, tokens: seq<Word>,
      fileids: map<Word, seq<u64>>, w: Word, base: nat, c: nat, p: SetupPair)
    requires size >= 1 && Indexed(tokens, fileids)
  {
    && HasBase(size, version, tokens, fileids, 0, w, base)
    && var blocks := BlocksAt(size, version, fileids, w, base);
       c < |blocks| && p == SetupPair(Label(cr, key, w, U64(c)), EncryptBlock(cr, K2Of(cr, key, w), blocks[c]))
  }

  lemma {:induction false} BaseInTokens(size: nat, version: int, tokens: seq<Word>, fileids: map<Word, seq<u64>>,
      start: nat, w: Word, base: nat)
    requires size >= 1 && Indexed(tokens, fileids) && HasBase(size, version, tokens, fileids, start, w, base)
    ensures w in tokens && At(fileids, w) == fileids[w]
  {
    hide ArrayBlocks;
    if !(tokens[0] == w && base == start) {
      var next := start + |ArrayBlocks(version, size, fileids[tokens[0]])|;
      BaseInTokens(size, version, tokens[1..], fileids, next, w, base);
    }
  }

  lemma LineHandedOver(size: nat, version: int, lbl: Bytes, ctext: Bytes)
    requires |ctext| == EntryBytes(version, size) <= BlockBytes(size)
    ensures var x := SetupLine(size, lbl, ctext);
            x.l == lbl && |x.d| >= EntryBytes(version, size) && x.d[..EntryBytes(version, size)] == ctext
  {
  }

  /** A request has exactly the entries of its words. */
  lemma RequestHas(cr: Suite, size: nat, version: int, key: Bytes, tokens: seq<Word>, fileids: map<Word, seq<u64>>,
      l: seq<SetupPair>, p: SetupPair)
    requires size >= 1 && Indexed(tokens, fileids)
    requires IsSetupRequest(cr, size, version, key, tokens, fileids, l)
    ensures p in l
            <==> exists w, base: nat, c: nat :: IsEntry(cr, size, version, key, tokens, fileids, w, base, c, p)
  {
    hide SetupLines, HandOver, Label, EncryptBlock, SetupLine, EntryBytes, BlockBytes, HasBase, BlocksAt;
    var lines := SetupLines(cr, size, version, key, tokens, fileids, 0);
    HandOverAre(version, size, lines, p);
    if p in l {
      var x :| x in lines && p == SetupPair(x.l, Prefix(x.d, EntryBytes(version, size)));
      LinesAre(cr, size, version, key, tokens, fileids, 0, x);
      var w, base: nat, c: nat :| HasBase(size, version, tokens, fileids, 0, w, base)
                                  && IsLine(cr, size, key, w, BlocksAt(size, version, fileids, w, base), c, x);
      EntryOfLine(cr, size, version, key, tokens, fileids, w, base, c);
      assert IsEntry(cr, size, version, key, tokens, fileids, w, base, c, p);
    }
    if w, base: nat, c: nat :| IsEntry(cr, size, version, key, tokens, fileids, w, base, c, p) {
      var blocks := BlocksAt(size, version, fileids, w, base);
      var x := SetupLine(size, Label(cr, key, w, U64(c)), EncryptBlock(cr, K2Of(cr, key, w), blocks[c]));
      assert IsLine(cr, size, key, w, blocks, c, x);
      LinesAre(cr, size, version, key, tokens, fileids, 0, x);
      EntryOfLine(cr, size, version, key, tokens, fileids, w, base, c);
    }
  }

  lemma EntryOfLine(cr: Suite, size: nat, version: int, key: Bytes, tokens: seq<Word>, fileids: map<Word, seq<u64>>,
      w: Word, base: nat, c: nat)
    requires size >= 1 && Indexed(tokens, fileids) && HasBase(size, version, tokens, fileids, 0, w, base)
    requires c < |BlocksAt(size, version, fileids, w, base)|
    ensures var ctext := EncryptBlock(cr, K2Of(cr, key, w), BlocksAt(size, version, fileids, w, base)[c]);
            var x := SetupLine(size, Label(cr, key, w, U64(c)), ctext);
            && x.l == Label(cr, key, w, U64(c))
            && |x.d| >= EntryBytes(version, size) && x.d[..EntryBytes(version, size)] == ctext
  {
    hide HasBase, Label, EncryptBlock, IndexBlocks;
    BaseInTokens(size, version, tokens, fileids, 0, w, base);
    BlocksSized(size, version, fileids[w], base);
    var blocks := BlocksAt(size, version, fileids, w, base);
    LineHandedOver(size, version, Label(cr, key, w, U64(c)), EncryptBlock(cr, K2Of(cr, key, w), blocks[c]));
  }

  // The value under a key comes from one of its pairs.
  lemma {:induction false} SomeEntry(l: seq<SetupPair>, k: Bytes) returns (q: SetupPair)
    requires k in Dict(l)
    ensures q in l && q.token == k && Dict(l)[k] == q.fileId
  {
    var init, last := l[..|l| - 1], l[|l| - 1];
    if k == last.token {
      q := last;
    } else {
      q := SomeEntry(init, k);
    }
  }

  /**
   * The dictionary has, for every word of the vocabulary, the labels below its number of blocks, and
   * under each the encrypted block of some occurrence of the word.
   */
  lemma EntriesAre(cr: Suite, size: nat, version: int, key: Bytes, vocabulary: set<Word>, tokens: seq<Word>,
      fileids: map<Word, seq<u64>>, l: seq<SetupPair>, w: Word, c: u64)
    requires size >= 1 && Indexed(tokens, fileids)
    requires IsSetupRequest(cr, size, version, key, tokens, fileids, l)
    requires CollisionFree(cr, key, vocabulary) && (forall t | t in tokens :: t in vocabulary) && w in vocabulary
    ensures Label(cr, key, w, c) in Dict(l) <==> w in tokens && c < BlockCount(version, size, At(fileids, w))
    ensures Label(cr, key, w, c) in Dict(l) ==>
              exists base: nat ::
                && HasBase(size, version, tokens, fileids, 0, w, base)
                && c < |BlocksAt(size, version, fileids, w, base)|
                && Dict(l)[Label(cr, key, w, c)]
                    == EncryptBlock(cr, K2Of(cr, key, w), BlocksAt(size, version, fileids, w, base)[c])
  {
    hide HasBase, Label, EncryptBlock, Dict, IsSetupRequest, IndexBlocks, BlockCount;
    var lbl := Label(cr, key, w, c);
    if lbl in Dict(l) {
      var q := SomeEntry(l, lbl);
      RequestHas(cr, size, version, key, tokens, fileids, l, q);
      var w', base: nat, c': nat :| IsEntry(cr, size, version, key, tokens, fileids, w', base, c', q);
      BaseInTokens(size, version, tokens, fileids, 0, w', base);
      BlocksSized(size, version, fileids[w'], base);
      assert w' == w && c' == c;
    }
    if w in tokens && c < BlockCount(version, size, At(fileids, w)) {
      var base := BaseOfToken(size, version, tokens, fileids, 0, w);
      BlocksSized(size, version, fileids[w], base);
      var p := SetupPair(lbl, EncryptBlock(cr, K2Of(cr, key, w), BlocksAt(size, version, fileids, w, base)[c]));
      assert IsEntry(cr, size, version, key, tokens, fileids, w, base, c, p);
      RequestHas(cr, size, version, key, tokens, fileids, l, p);
      DictLookup(l);
    }
  }

  lemma {:induction false} BaseUnique(size: nat, version: int, tokens: seq<Word>, fileids: map<Word, seq<u64>>,
      start: nat, w: Word, base: nat, base': nat)
    requires size >= 1 && Indexed(tokens, fileids) && Distinct(tokens)
    requires HasBase(size, version, tokens, fileids, start, w, base)
    requires HasBase(size, version, tokens, fileids, start, w, base')
    ensures base == base'
  {
    hide ArrayBlocks;
    var next := start + |ArrayBlocks(version, size, fileids[tokens[0]])|;
    if tokens[0] == w {
      var b := BaseOfToken(size, version, tokens[1..], fileids, next, w);
    } else {
      BaseUnique(size, version, tokens[1..], fileids, next, w, base, base');
    }
  }

  lemma EntryUnique(cr: Suite, size: nat, version: int, key: Bytes, vocabulary: set<Word>, tokens: seq<Word>,
      fileids: map<Word, seq<u64>>, p: SetupPair, q: SetupPair, w: Word, base: nat, c: nat, w': Word, base': nat,
      c': nat)
    requires size >= 1 && Indexed(tokens, fileids) && Distinct(tokens)
    requires CollisionFree(cr, key, vocabulary) && (forall t | t in tokens :: t in vocabulary)
    requires IsEntry(cr, size, version, key, tokens, fileids, w, base, c, p)
    requires IsEntry(cr, size, version, key, tokens, fileids, w', base', c', q) && p.token == q.token
    ensures p == q
  {
    hide HasBase, Label, EncryptBlock, IndexBlocks;
    BaseInTokens(size, version, tokens, fileids, 0, w, base);
    BaseInTokens(size, version, tokens, fileids, 0, w', base');
    BlocksSized(size, version, fileids[w], base);
    BlocksSized(size, version, fileids[w'], base');
    assert w == w' && c == c';
    BaseUnique(size, version, tokens, fileids, 0, w, base, base');
  }

  /** With distinct tokens, the dictionary is the same for every order of the lines. */
  lemma RequestFunctional(cr: Suite, size: nat, version: int, key: Bytes, vocabulary: set<Word>, tokens: seq<Word>,
      fileids: map<Word, seq<u64>>, l: seq<SetupPair>, l': seq<SetupPair>)
    requires size >= 1 && Indexed(tokens, fileids) && Distinct(tokens)
    requires IsSetupRequest(cr, size, version, key, tokens, fileids, l)
    requires IsSetupRequest(cr, size, version, key, tokens, fileids, l')
    requires CollisionFree(cr, key, vocabulary) && (forall t | t in tokens :: t in vocabulary)
    ensures Functional(l) && Dict(l) == Dict(l')
  {
    hide SetupLines, HandOver, Dict, IsEntry, CollisionFree;
    forall p, q | p in l && q in l && p.token == q.token
      ensures p == q
    {
      RequestHas(cr, size, version, key, tokens, fileids, l, p);
      RequestHas(cr, size, version, key, tokens, fileids, l, q);
      var w, base: nat, c: nat :| IsEntry(cr, size, version, key, tokens, fileids, w, base, c, p);
      var w', base': nat, c': nat :| IsEntry(cr, size, version, key, tokens, fileids, w', base', c', q);
      EntryUnique(cr, size, version, key, vocabulary, tokens, fileids, p, q, w, base, c, w', base', c');
    }
    OrderIrrelevant(l, l');
  }

  // ---------------------------------------------------------------- the array

  /** The blocks of every occurrence stand at its place in the array, and its index points there. */
  lemma {:induction false} AllPlaced(cr: Suite, size: nat, version: int, key: Bytes, tokens: seq<Word>,
      fileids: map<Word, seq<u64>>, before: seq<Bytes>, w: Word, base: nat)
    requires size >= 1 && Indexed(tokens, fileids) && HasBase(size, version, tokens, fileids, |before|, w, base)
    ensures Placed(cr, size, version, K2Of(cr, key, w), At(fileids, w), BlocksAt(size, version, fileids, w, base),
                   before + SetupArray(cr, size, version, key, tokens, fileids), base)
  {
    hide SetupArray, EncryptBlocks, ArrayBlocks, IndexBlocks, K2Of;
    var t := tokens[0];
    var mine := EncryptBlocks(cr, K2Of(cr, key, t), ArrayBlocks(version, size, fileids[t]));
    var rest := SetupArray(cr, size, version, key, tokens[1..], fileids);
    SetupArrayStep(cr, size, version, key, tokens, fileids, 0);
    assert tokens[0..] == tokens;
    assert before + (mine + rest) == (before + mine) + rest;
    if w == t && base == |before| {
      assert (before + mine + rest)[base..base + |mine|] == mine;
    } else {
      AllPlaced(cr, size, version, key, tokens[1..], fileids, before + mine, w, base);
    }
  }

  // Blocks may be appended to the array.
  lemma PlacedGrows(cr: Suite, size: nat, version: int, k2: Bytes, fids: seq<u64>, blocks: seq<seq<u64>>,
      a: seq<Bytes>, more: seq<Bytes>, base: nat)
    requires size >= 1 && Placed(cr, size, version, k2, fids, blocks, a, base)
    ensures Placed(cr, size, version, k2, fids, blocks, a + more, base)
  {
    hide EncryptBlocks, ArrayBlocks, IndexBlocks;
    var n := |ArrayBlocks(version, size, fids)|;
    assert (a + more)[base..base + n] == a[base..base + n];
  }

  lemma {:induction false} ArraySized(cr: Suite, size: nat, version: int, key: Bytes, tokens: seq<Word>,
      fileids: map<Word, seq<u64>>, i: nat)
    requires size >= 1 && Indexed(tokens, fileids)
    requires i < |SetupArray(cr, size, version, key, tokens, fileids)|
    ensures |SetupArray(cr, size, version, key, tokens, fileids)[i]| == BlockBytes(size)
  {
    hide Chunks, EncryptBlock;
    var n := |ArrayBlocks(version, size, fileids[tokens[0]])|;
    if i >= n {
      ArraySized(cr, size, version, key, tokens[1..], fileids, i - n);
    }
  }

  lemma {:induction false} ChunkElements(values: seq<u64>, size: nat, i: nat, p: u64)
    requires size >= 1 && i < |Chunks(values, size)| && p in Chunks(values, size)[i]
    ensures p == INVALID || p in values
  {
    if |values| > size && i > 0 {
      ChunkElements(values[size..], size, i - 1, p);
    }
  }

  // ---------------------------------------------------------------- what Setup achieves

  /** For every word, a search reads its list off the dictionary and the array; and it reads safely. */
  ghost predicate IndexHolds(cr: Suite, size: nat, version: int, key: Bytes, vocabulary: set<Word>,
      d: map<Bytes, Bytes>, a: seq<Bytes>, lists: map<Word, seq<u64>>) {
    forall w | w in vocabulary ::
        WordHolds(cr, size, version, K1Of(cr, key, w), K2Of(cr, key, w), d, a, Delivered(version, At(lists, w)))
  }

  ghost predicate WordHolds(cr: Suite, size: nat, version: int, k1: Bytes, k2: Bytes, d: map<Bytes, Bytes>,
      a: seq<Bytes>, ids: seq<u64>) {
    var entries := Probe(cr, d, k1, 0);
    && Gather(cr, size, version, k2, a, entries) == ids
    && Readable(cr, size, version, k2, a, entries)
    && InRange(cr, size, version, k2, a, entries)
  }

  /** The lists of the words that Setup indexes. */
  function SetupLists(tokens: seq<Word>, fileids: map<Word, seq<u64>>): map<Word, seq<u64>> {
    map w | w in tokens && w in fileids :: fileids[w]
  }

  // ---------------------------------------------------------------- occurrences agree

  // Pointers to two copies of the same blocks lead to the same ids.
  lemma {:induction false} SameFollow(cr: Suite, size: nat, k2: Bytes, a: seq<Bytes>, b: nat, b': nat, n: nat, pad: nat)
    requires b + n <= |a| <= INVALID && b' + n <= |a| && a[b..b + n] == a[b'..b' + n]
    ensures Follow(cr, size, k2, a, Pointers(b, n) + Padding(pad))
            == Follow(cr, size, k2, a, Pointers(b', n) + Padding(pad))
    decreases n
  {
    hide Used, DecryptBlock, Pointers;
    if n == 0 {
      PointersAppend(b, 0);
      PointersAppend(b', 0);
    } else {
      PointerHead(b, n, pad);
      PointerHead(b', n, pad);
      assert a[b] == a[b..b + n][0] && a[b'] == a[b'..b' + n][0];
      assert a[b + 1..b + n] == a[b..b + n][1..] && a[b' + 1..b' + n] == a[b'..b' + n][1..];
      SameFollow(cr, size, k2, a, b + 1, b' + 1, n - 1, pad);
    }
  }

  lemma PointerHead(b: nat, n: nat, pad: nat)
    requires n > 0 && b < INVALID
    ensures var ps := Pointers(b, n) + Padding(pad);
            ps != [] && ps[0] == b && ps[1..] == Pointers(b + 1, n - 1) + Padding(pad)
  {
    assert U64(b + 0) == b;
    PointersStep(b, n, 1);
    assert (Pointers(b, n) + Padding(pad))[1..] == Pointers(b, n)[1..] + Padding(pad);
  }

  // Block `c` of the pointers from `base` on.
  lemma {:induction false} PointerChunk(base: nat, n: nat, size: nat, c: nat)
    requires size >= 1 && c < |Chunks(Pointers(base, n), size)|
    ensures c * size <= n
    ensures var m := Min(size, n - c * size);
            Chunks(Pointers(base, n), size)[c] == Pointers(base + c * size, m) + Padding(size - m)
    decreases c
  {
    hide Chunks, Pointers;
    NoBlocks(Pointers(base, n), size);
    var k := Min(size, n);
    ChunksStep(Pointers(base, n), size);
    PointersStep(base, n, k);
    if c > 0 {
      NoBlocks(Pointers(base + k, n - k), size);
      PointerChunk(base + k, n - k, size, c - 1);
      NextOffset(c - 1, size);
    }
  }

  lemma SamePointerIds(cr: Suite, size: nat, k2: Bytes, a: seq<Bytes>, fids: seq<u64>, base: nat, base': nat, c: nat)
    requires size >= 1 && |a| <= INVALID
    requires Placed(cr, size, POINTERS, k2, fids, IndexBlocks(POINTERS, size, fids, base), a, base)
    requires Placed(cr, size, POINTERS, k2, fids, IndexBlocks(POINTERS, size, fids, base'), a, base')
    requires c < |IndexBlocks(POINTERS, size, fids, base)| == |IndexBlocks(POINTERS, size, fids, base')|
    ensures Follow(cr, size, k2, a, IndexBlocks(POINTERS, size, fids, base)[c])
            == Follow(cr, size, k2, a, IndexBlocks(POINTERS, size, fids, base')[c])
  {
    hide Chunks, EncryptBlocks, Follow, Pointers;
    var n, q := |Chunks(fids, size)|, c * size;
    PointerChunk(base, n, size, c);
    PointerChunk(base', n, size, c);
    var m := Min(size, n - q);
    SameStretch(a, base, base', n, q, m);
    SameFollow(cr, size, k2, a, base + q, base' + q, m, size - m);
  }

  lemma SameStretch(a: seq<Bytes>, b: nat, b': nat, n: nat, q: nat, m: nat)
    requires b + n <= |a| && b' + n <= |a| && a[b..b + n] == a[b'..b' + n] && q + m <= n
    ensures a[b + q..b + q + m] == a[b' + q..b' + q + m]
  {
    var x, y := a[b + q..b + q + m], a[b' + q..b' + q + m];
    forall i | 0 <= i < m
      ensures x[i] == y[i]
    {
      assert a[b..b + n][q + i] == a[b'..b' + n][q + i];
    }
  }

  /** An entry stands for the same ids, whichever occurrence of its word it comes from. */
  lemma SameIds(cr: Suite, size: nat, version: int, k2: Bytes, a: seq<Bytes>, fids: seq<u64>, base: nat, base': nat,
      c: nat)
    requires size >= 1 && |fids| < TWO64 && |a| <= INVALID
    requires version == BASIC || version == PACKED || version == POINTERS
    requires Placed(cr, size, version, k2, fids, IndexBlocks(version, size, fids, base), a, base)
    requires Placed(cr, size, version, k2, fids, IndexBlocks(version, size, fids, base'), a, base')
    requires c < BlockCount(version, size, fids)
    ensures |IndexBlocks(version, size, fids, base)| == |IndexBlocks(version, size, fids, base')| > c
    ensures EntryIds(cr, size, version, k2, a, EncryptBlock(cr, k2, IndexBlocks(version, size, fids, base)[c]))
            == EntryIds(cr, size, version, k2, a, EncryptBlock(cr, k2, IndexBlocks(version, size, fids, base')[c]))
  {
    hide EncryptBlocks, EncryptBlock, Follow, EntryIds, Placed, BlockCount;
    BlocksSized(size, version, fids, base);
    BlocksSized(size, version, fids, base');
    if version == POINTERS {
      hide IndexBlocks;
      SamePointerIds(cr, size, k2, a, fids, base, base', c);
      EntryPacked(cr, size, k2, a, IndexBlocks(version, size, fids, base)[c]);
      EntryPacked(cr, size, k2, a, IndexBlocks(version, size, fids, base')[c]);
    } else {
      hide Chunks;
    }
  }

  lemma {:induction false} SameGather(cr: Suite, size: nat, version: int, k2: Bytes, a: seq<Bytes>, xs: seq<Bytes>,
      ys: seq<Bytes>)
    requires |xs| == |ys|
    requires forall i | 0 <= i < |xs| ::
               EntryIds(cr, size, version, k2, a, xs[i]) == EntryIds(cr, size, version, k2, a, ys[i])
    ensures Gather(cr, size, version, k2, a, xs) == Gather(cr, size, version, k2, a, ys)
  {
    hide EntryIds;
    if xs != [] {
      SameGather(cr, size, version, k2, a, xs[1..], ys[1..]);
    }
  }

  /** What probing finds for a word: for every counter the encrypted block of some occurrence. */
  lemma ProbeWord(cr: Suite, size: nat, version: int, key: Bytes, vocabulary: set<Word>, tokens: seq<Word>,
      fileids: map<Word, seq<u64>>, l: seq<SetupPair>, w: Word)
    requires size >= 1 && Indexed(tokens, fileids)
    requires IsSetupRequest(cr, size, version, key, tokens, fileids, l)
    requires CollisionFree(cr, key, vocabulary) && (forall t | t in tokens :: t in vocabulary) && w in vocabulary
    ensures var entries := Probe(cr, Dict(l), K1Of(cr, key, w), 0);
            && |entries| == (if w in tokens then BlockCount(version, size, At(fileids, w)) else 0)
            && forall c | 0 <= c < |entries| ::
                 Occurs(cr, size, version, key, tokens, fileids, w, c, entries[c])
  {
    hide HasBase, EncryptBlock, Dict, IsSetupRequest, CollisionFree, MacLong, MacKey, IndexBlocks, BlockCount;
    var k1, k2, entries := K1Of(cr, key, w), K2Of(cr, key, w), Probe(cr, Dict(l), K1Of(cr, key, w), 0);
    var n := if w in tokens then BlockCount(version, size, At(fileids, w)) else 0;
    if w in tokens {
      BlocksSized(size, version, fileids[w], 0);
    }
    forall c: u64
      ensures MacLong(cr, k1, c) in Dict(l) <==> c < n
    {
      EntriesAre(cr, size, version, key, vocabulary, tokens, fileids, l, w, c);
    }
    ProbeRange(cr, Dict(l), k1, 0);
    var end: u64 := n;
    assert MacLong(cr, k1, end) !in Dict(l) && |entries| == n;
    forall c | 0 <= c < |entries|
      ensures Occurs(cr, size, version, key, tokens, fileids, w, c, entries[c])
    {
      EntriesAre(cr, size, version, key, vocabulary, tokens, fileids, l, w, c);
      assert entries[c - 0] == Dict(l)[MacLong(cr, k1, c)];
      assert MacLong(cr, k1, c) == Label(cr, key, w, c);
      var base: nat :| && HasBase(size, version, tokens, fileids, 0, w, base)
                       && c < |BlocksAt(size, version, fileids, w, base)|
                       && Dict(l)[Label(cr, key, w, c)]
                          == EncryptBlock(cr, k2, BlocksAt(size, version, fileids, w, base)[c]);
      assert StoredAt(cr, size, version, key, tokens, fileids, w, base, c, entries[c]);
    }
  }

  ghost predicate StoredAt(cr: Suite, size: nat, version: int, key: Bytes, tokens: seq<Word>,
      fileids: map<Word, seq<u64>>, w: Word, base: nat, c: nat, entry: Bytes)
    requires size >= 1 && Indexed(tokens, fileids)
  {
    && HasBase(size, version, tokens, fileids, 0, w, base) && c < |BlocksAt(size, version, fileids, w, base)|
    && entry == EncryptBlock(cr, K2Of(cr, key, w), BlocksAt(size, version, fileids, w, base)[c])
  }

  ghost predicate Occurs(cr: Suite, size: nat, version: int, key: Bytes, tokens: seq<Word>,
      fileids: map<Word, seq<u64>>, w: Word, c: nat, entry: Bytes)
    requires size >= 1 && Indexed(tokens, fileids)
  {
    exists base: nat :: StoredAt(cr, size, version, key, tokens, fileids, w, base, c, entry)
  }

  lemma BlocksReadable(cr: Suite, size: nat, version: int, k2: Bytes, fids: seq<u64>, blocks: seq<seq<u64>>,
      m: seq<Bytes>, more: seq<Bytes>, base: nat)
    requires size >= 1 && Placed(cr, size, version, k2, fids, blocks, m, base)
    requires version == BASIC || version == PACKED || version == POINTERS
    requires |m + more| <= INVALID && forall i | 0 <= i < |m| :: |m[i]| == BlockBytes(size)
    ensures Readable(cr, size, version, k2, m + more, EncryptBlocks(cr, k2, blocks))
    ensures InRange(cr, size, version, k2, m + more, EncryptBlocks(cr, k2, blocks))
  {
    hide Chunks, DecryptBlock, EncryptBlock;
    var a := m + more;
    forall e | e in EncryptBlocks(cr, k2, blocks)
      ensures if version == BASIC then |e| >= 24 else |e| == BlockBytes(size)
      ensures version == POINTERS ==>
                forall p | p in DecryptBlock(cr, k2, e, size) ::
                    (p < |a| ==> |a[p]| == BlockBytes(size)) && (p == INVALID || p < |a|)
    {
      var i :| 0 <= i < |blocks| && e == EncryptBlock(cr, k2, blocks[i]);
      DecryptEncryptBlock(cr, k2, blocks[i]);
      if version == POINTERS {
        var n := |Chunks(fids, size)|;
        forall p | p in blocks[i]
          ensures (p < |a| ==> |a[p]| == BlockBytes(size)) && (p == INVALID || p < |a|)
        {
          ChunkElements(Pointers(base, n), size, i, p);
          if p != INVALID {
            var q :| 0 <= q < n && p == Pointers(base, n)[q];
            assert p == U64(base + q) == base + q;
          }
        }
      }
    }
  }

  /** After Setup, in all three versions, every word has its list, whatever is appended to the array. */
  lemma SetupEstablishes(cr: Suite, size: nat, version: int, key: Bytes, vocabulary: set<Word>, tokens: seq<Word>,
      fileids: map<Word, seq<u64>>, l: seq<SetupPair>, more: seq<Bytes>)
    requires size >= 1 && Indexed(tokens, fileids)
    requires version == BASIC || version == PACKED || version == POINTERS
    requires IsSetupRequest(cr, size, version, key, tokens, fileids, l)
    requires CollisionFree(cr, key, vocabulary) && (forall t | t in tokens :: t in vocabulary)
    requires |SetupArray(cr, size, version, key, tokens, fileids) + more| <= INVALID
    ensures IndexHolds(cr, size, version, key, vocabulary, Dict(l),
                       SetupArray(cr, size, version, key, tokens, fileids) + more, SetupLists(tokens, fileids))
  {
    hide HasBase, Dict, IsSetupRequest, CollisionFree, SetupArray, Gather, Readable, InRange, Delivered, Probe, K1Of,
         K2Of, BlockBytes, Occurs, BlockCount;
    var m, lists := SetupArray(cr, size, version, key, tokens, fileids), SetupLists(tokens, fileids);
    forall w | w in vocabulary
      ensures WordHolds(cr, size, version, K1Of(cr, key, w), K2Of(cr, key, w), Dict(l), m + more,
                        Delivered(version, At(lists, w)))
    {
      ProbeWord(cr, size, version, key, vocabulary, tokens, fileids, l, w);
      var entries := Probe(cr, Dict(l), K1Of(cr, key, w), 0);
      if w in tokens {
        WordDelivered(cr, size, version, key, tokens, fileids, more, w, entries);
      } else {
        assert entries == [];
        DeliveredNothing(version);
        NothingThere(cr, size, version, K2Of(cr, key, w), m + more);
      }
    }
  }

  lemma DeliveredNothing(version: int)
    ensures Delivered(version, []) == []
  {
  }

  lemma NothingThere(cr: Suite, size: nat, version: int, k2: Bytes, a: seq<Bytes>)
    ensures Gather(cr, size, version, k2, a, []) == []
    ensures Readable(cr, size, version, k2, a, []) && InRange(cr, size, version, k2, a, [])
  {
  }

  // One occurrence, its blocks in the array that may have been extended.
  lemma OccurrencePlaced(cr: Suite, size: nat, version: int, key: Bytes, tokens: seq<Word>,
      fileids: map<Word, seq<u64>>, more: seq<Bytes>, w: Word, base: nat)
    requires size >= 1 && Indexed(tokens, fileids) && HasBase(size, version, tokens, fileids, 0, w, base)
    requires version == BASIC || version == PACKED || version == POINTERS
    requires |SetupArray(cr, size, version, key, tokens, fileids) + more| <= INVALID
    ensures w in tokens
    ensures var k2, a := K2Of(cr, key, w), SetupArray(cr, size, version, key, tokens, fileids) + more;
            var blocks := IndexBlocks(version, size, fileids[w], base);
            && Placed(cr, size, version, k2, fileids[w], blocks, a, base)
            && Readable(cr, size, version, k2, a, EncryptBlocks(cr, k2, blocks))
            && InRange(cr, size, version, k2, a, EncryptBlocks(cr, k2, blocks))
  {
    hide HasBase, SetupArray, EncryptBlocks, IndexBlocks, Placed, Readable, InRange, K2Of;
    var k2, m := K2Of(cr, key, w), SetupArray(cr, size, version, key, tokens, fileids);
    BaseInTokens(size, version, tokens, fileids, 0, w, base);
    AllPlaced(cr, size, version, key, tokens, fileids, [], w, base);
    assert [] + m == m;
    var blocks := IndexBlocks(version, size, fileids[w], base);
    PlacedGrows(cr, size, version, k2, fileids[w], blocks, m, more, base);
    forall i | 0 <= i < |m|
      ensures |m[i]| == BlockBytes(size)
    {
      ArraySized(cr, size, version, key, tokens, fileids, i);
    }
    BlocksReadable(cr, size, version, k2, fileids[w], blocks, m, more, base);
  }

  lemma WordDelivered(cr: Suite, size: nat, version: int, key: Bytes, tokens: seq<Word>, fileids: map<Word, seq<u64>>,
      more: seq<Bytes>, w: Word, entries: seq<Bytes>)
    requires size >= 1 && Indexed(tokens, fileids) && w in tokens
    requires version == BASIC || version == PACKED || version == POINTERS
    requires |SetupArray(cr, size, version, key, tokens, fileids) + more| <= INVALID
    requires |entries| == BlockCount(version, size, fileids[w])
    requires forall c | 0 <= c < |entries| ::
               Occurs(cr, size, version, key, tokens, fileids, w, c, entries[c])
    ensures var k2, a := K2Of(cr, key, w), SetupArray(cr, size, version, key, tokens, fileids) + more;
            && Gather(cr, size, version, k2, a, entries) == Delivered(version, fileids[w])
            && Readable(cr, size, version, k2, a, entries)
            && InRange(cr, size, version, k2, a, entries)
  {
    hide HasBase, SetupArray, Placed, Gather, Delivered, K2Of, IndexBlocks, BlockCount, EntryIds, Readable, InRange,
         EncryptBlock;
    var k2, a := K2Of(cr, key, w), SetupArray(cr, size, version, key, tokens, fileids) + more;
    var first := BaseOfToken(size, version, tokens, fileids, 0, w);
    OccurrencePlaced(cr, size, version, key, tokens, fileids, more, w, first);
    var blocks := IndexBlocks(version, size, fileids[w], first);
    BlocksSized(size, version, fileids[w], first);
    GatherDelivers(cr, size, version, k2, fileids[w], blocks, a, first);
    var ys := EncryptBlocks(cr, k2, blocks);
    forall c | 0 <= c < |entries|
      ensures EntryIds(cr, size, version, k2, a, entries[c]) == EntryIds(cr, size, version, k2, a, ys[c])
      ensures Readable(cr, size, version, k2, a, [entries[c]]) && InRange(cr, size, version, k2, a, [entries[c]])
    {
      var base: nat :| StoredAt(cr, size, version, key, tokens, fileids, w, base, c, entries[c]);
      OccurrencePlaced(cr, size, version, key, tokens, fileids, more, w, base);
      SameIds(cr, size, version, k2, a, fileids[w], first, base, c);
      var mine := EncryptBlocks(cr, k2, IndexBlocks(version, size, fileids[w], base));
      assert entries[c] == mine[c];
      OneReadable(cr, size, version, k2, a, mine, c);
    }
    SameGather(cr, size, version, k2, a, entries, ys);
    AllReadable(cr, size, version, k2, a, entries);
  }

  lemma OneReadable(cr: Suite, size: nat, version: int, k2: Bytes, a: seq<Bytes>, entries: seq<Bytes>, c: nat)
    requires c < |entries| && Readable(cr, size, version, k2, a, entries) && InRange(cr, size, version, k2, a, entries)
    ensures Readable(cr, size, version, k2, a, [entries[c]]) && InRange(cr, size, version, k2, a, [entries[c]])
  {
    hide DecryptBlock;
    assert entries[c] in entries;
  }

  lemma AllReadable(cr: Suite, size: nat, version: int, k2: Bytes, a: seq<Bytes>, entries: seq<Bytes>)
    requires forall c | 0 <= c < |entries| ::
               Readable(cr, size, version, k2, a, [entries[c]]) && InRange(cr, size, version, k2, a, [entries[c]])
    ensures Readable(cr, size, version, k2, a, entries) && InRange(cr, size, version, k2, a, entries)
  {
    hide DecryptBlock;
    forall e | e in entries
      ensures Readable(cr, size, version, k2, a, [e]) && InRange(cr, size, version, k2, a, [e]) && e in [e]
    {
      var c :| 0 <= c < |entries| && entries[c] == e;
    }
  }
}
