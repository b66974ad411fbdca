/**
 * The three index layouts of src/DSSE.cpp store the same lists: searching the dictionary and the array
 * that Setup sends gives every word its list of file ids, in order.
 */
module SetupProof {
  import opened Octets
  import opened Crypto
  import opened Ordering
  import opened CoreSpec
  import opened SpecFacts

  // ---------------------------------------------------------------- reading a list back

  /** What a search returns for the list of a word: only Basic keeps the value INVALID. */
  function Delivered(version: int, fids: seq<u64>): seq<u64> {
    if version == BASIC then fids else Used(fids)
  }

  lemma {:induction false} UsedConcat(xs: seq<u64>, ys: seq<u64>)
    ensures Used(xs + ys) == Used(xs) + Used(ys)
  {
    if xs == [] {
      assert xs + ys == ys;
    } else {
      assert (xs + ys)[0] == xs[0] && (xs + ys)[1..] == xs[1..] + ys;
      UsedConcat(xs[1..], ys);
    }
  }

  lemma {:induction false} UsedPadding(n: nat)
    ensures Used(Padding(n)) == []
  {
    if n > 0 {
      assert Padding(n)[1..] == Padding(n - 1);
      UsedPadding(n - 1);
    }
  }

  /** The layouts agree on a list if and only if it does not contain INVALID. */
  lemma {:induction false} DeliveredIsAll(fids: seq<u64>)
    ensures Used(fids) == fids <==> INVALID !in fids
    ensures INVALID !in Used(fids) && |Used(fids)| <= |fids|
  {
    if fids != [] {
      DeliveredIsAll(fids[1..]);
      assert fids == [fids[0]] + fids[1..];
      if fids[0] == INVALID {
        assert |Used(fids)| < |fids|;
      } else {
        assert Used(fids)[1..] == Used(fids[1..]);
      }
    }
  }

  /** Every id below 2^64 - 1 is delivered as often as it is in the list, and in Basic the last one, too. */
  lemma {:induction false} DeliveredIds(version: int, fids: seq<u64>, id: u64)
    ensures multiset(Delivered(version, fids))[id]
            == if version == 0 || id < 0xFFFF_FFFF_FFFF_FFFF then multiset(fids)[id] else 0
  {
    if fids != [] && version != 0 {
      var rest := fids[1..];
      DeliveredIds(version, rest, id);
      assert fids == [fids[0]] + rest;
      assert multiset(fids) == multiset{fids[0]} + multiset(rest);
      if fids[0] != INVALID {
        assert multiset(Used(fids)) == multiset{fids[0]} + multiset(Used(rest));
      } else {
        assert Used(fids) == Used(rest);
      }
    }
  }

  /** A list of such ids is delivered as it is. */
  lemma {:induction false} OrdinaryDelivered(version: int, fids: seq<u64>)
    requires version == 0 || forall i | 0 <= i < |fids| :: fids[i] < 0xFFFF_FFFF_FFFF_FFFF
    ensures Delivered(version, fids) == fids
  {
    if version != 0 {
      DeliveredIsAll(fids);
    }
  }

  // One entry, decrypted.
  lemma EntryBasic(cr: Suite, size: nat, k2: Bytes, a: seq<Bytes>, value: u64)
    ensures EntryIds(cr, size, BASIC, k2, a, EncryptBlock(cr, k2, [value])) == [value]
  {
    hide EncryptBytes, DecryptBytes, GetU64, PutU64;
    assert EncodeBlock([value]) == PutU64(value);
    DecryptLongIgnoresTail(cr, k2, value, []);
    assert EncryptLong(cr, k2, value) + [] == EncryptLong(cr, k2, value);
  }

  lemma EntryPacked(cr: Suite, size: nat, k2: Bytes, a: seq<Bytes>, block: seq<u64>)
    requires |block| == size
    ensures EntryIds(cr, size, PACKED, k2, a, EncryptBlock(cr, k2, block)) == Used(block)
    ensures EntryIds(cr, size, POINTERS, k2, a, EncryptBlock(cr, k2, block)) == Follow(cr, size, k2, a, block)
  {
    hide EncryptBlock, DecryptBlock, Used, Follow;
    DecryptEncryptBlock(cr, k2, block);
  }

  lemma GatherStep(cr: Suite, size: nat, version: int, k2: Bytes, a: seq<Bytes>, blocks: seq<seq<u64>>)
    requires blocks != []
    ensures Gather(cr, size, version, k2, a, EncryptBlocks(cr, k2, blocks))
            == EntryIds(cr, size, version, k2, a, EncryptBlock(cr, k2, blocks[0]))
               + Gather(cr, size, version, k2, a, EncryptBlocks(cr, k2, blocks[1..]))
  {
    hide EntryIds, EncryptBlock;
    assert EncryptBlocks(cr, k2, blocks)[1..] == EncryptBlocks(cr, k2, blocks[1..]);
  }

  lemma {:induction false} GatherBasic(cr: Suite, size: nat, k2: Bytes, a: seq<Bytes>, fids: seq<u64>)
    ensures Gather(cr, size, BASIC, k2, a, EncryptBlocks(cr, k2, Chunks(fids, 1))) == fids
  {
    hide EntryIds, EncryptBlock, EncryptBlocks, Chunks;
    NoBlocks(fids, 1);
    if fids != [] {
      ChunksStep(fids, 1);
      assert Chunks(fids, 1)[0] == [fids[0]];
      GatherStep(cr, size, BASIC, k2, a, Chunks(fids, 1));
      EntryBasic(cr, size, k2, a, fids[0]);
      GatherBasic(cr, size, k2, a, fids[1..]);
    }
  }

  lemma {:induction false} GatherPacked(cr: Suite, size: nat, k2: Bytes, a: seq<Bytes>, fids: seq<u64>)
    requires size >= 1
    ensures Gather(cr, size, PACKED, k2, a, EncryptBlocks(cr, k2, Chunks(fids, size))) == Used(fids)
  {
    hide EntryIds, EncryptBlock, EncryptBlocks, Chunks;
    NoBlocks(fids, size);
    if fids != [] {
      var n := Min(size, |fids|);
      ChunksStep(fids, size);
      GatherStep(cr, size, PACKED, k2, a, Chunks(fids, size));
      EntryPacked(cr, size, k2, a, fids[..n] + Padding(size - n));
      GatherPacked(cr, size, k2, a, fids[n..]);
      UsedConcat(fids[..n], Padding(size - n));
      UsedPadding(size - n);
      UsedConcat(fids[..n], fids[n..]);
      assert fids[..n] + fids[n..] == fids;
    }
  }

  // ---------------------------------------------------------------- pointers

  ghost predicate AllUsed(pointers: seq<u64>) {
    forall i | 0 <= i < |pointers| :: pointers[i] != INVALID
  }

  lemma {:induction false} FollowConcat(cr: Suite, size: nat, k2: Bytes, a: seq<Bytes>, ps: seq<u64>, qs: seq<u64>)
    requires AllUsed(ps)
    ensures Follow(cr, size, k2, a, ps + qs) == Follow(cr, size, k2, a, ps) + Follow(cr, size, k2, a, qs)
  {
    hide Used, DecryptBlock;
    if ps == [] {
      assert ps + qs == qs;
    } else {
      assert (ps + qs)[0] == ps[0] && (ps + qs)[1..] == ps[1..] + qs;
      assert AllUsed(ps[1..]);
      FollowConcat(cr, size, k2, a, ps[1..], qs);
    }
  }

  /** Nothing behind INVALID is followed, and a pointer out of range is passed over. */
  lemma FollowStops(cr: Suite, size: nat, k2: Bytes, a: seq<Bytes>, ps: seq<u64>, p: u64, qs: seq<u64>)
    requires AllUsed(ps)
    ensures p == 0xFFFF_FFFF_FFFF_FFFF ==> Follow(cr, size, k2, a, ps + [p] + qs) == Follow(cr, size, k2, a, ps)
    ensures |a| <= p < 0xFFFF_FFFF_FFFF_FFFF ==>
              Follow(cr, size, k2, a, ps + [p] + qs) == Follow(cr, size, k2, a, ps + qs)
  {
    hide Used, DecryptBlock;
    FollowConcat(cr, size, k2, a, ps, [p] + qs);
    FollowConcat(cr, size, k2, a, ps, qs);
    assert ps + [p] + qs == ps + ([p] + qs);
    assert ([p] + qs)[1..] == qs;
  }

  lemma FollowPadding(cr: Suite, size: nat, k2: Bytes, a: seq<Bytes>, n: nat)
    ensures Follow(cr, size, k2, a, Padding(n)) == []
  {
  }

  lemma FollowChunk(cr: Suite, size: nat, k2: Bytes, a: seq<Bytes>, pointers: seq<u64>, n: nat, pad: nat)
    requires AllUsed(pointers) && n <= |pointers|
    ensures Follow(cr, size, k2, a, pointers)
            == Follow(cr, size, k2, a, pointers[..n] + Padding(pad)) + Follow(cr, size, k2, a, pointers[n..])
  {
    hide Follow;
    FollowConcat(cr, size, k2, a, pointers[..n], Padding(pad));
    FollowPadding(cr, size, k2, a, pad);
    FollowConcat(cr, size, k2, a, pointers[..n], pointers[n..]);
    assert pointers[..n] + pointers[n..] == pointers;
  }

  lemma {:induction false} GatherPointer(cr: Suite, size: nat, k2: Bytes, a: seq<Bytes>, pointers: seq<u64>)
    requires size >= 1 && AllUsed(pointers)
    ensures Gather(cr, size, POINTERS, k2, a, EncryptBlocks(cr, k2, Chunks(pointers, size)))
            == Follow(cr, size, k2, a, pointers)
  {
    hide EntryIds, EncryptBlock, EncryptBlocks, Chunks, Follow;
    NoBlocks(pointers, size);
    if pointers == [] {
      FollowPadding(cr, size, k2, a, 0);
      assert Padding(0) == pointers;
    } else {
      var n := Min(size, |pointers|);
      ChunksStep(pointers, size);
      GatherStep(cr, size, POINTERS, k2, a, Chunks(pointers, size));
      EntryPacked(cr, size, k2, a, pointers[..n] + Padding(size - n));
      GatherPointer(cr, size, k2, a, pointers[n..]);
      FollowChunk(cr, size, k2, a, pointers, n, size - n);
    }
  }

  /** Where the array holds the blocks of `fids`, the pointers to them lead to `fids`. */
  lemma {:induction false} FollowBlocks(cr: Suite, size: nat, k2: Bytes, a: seq<Bytes>, base: nat, fids: seq<u64>)
    requires size >= 1
    requires var n := |Chunks(fids, size)|;
             base + n <= |a| <= INVALID && a[base..base + n] == EncryptBlocks(cr, k2, Chunks(fids, size))
    ensures Follow(cr, size, k2, a, Pointers(base, |Chunks(fids, size)|)) == Used(fids)
    decreases |fids|
  {
    hide Chunks, EncryptBlock, DecryptBlock, Follow, Pointers, Used;
    NoBlocks(fids, size);
    if fids == [] {
      FollowPadding(cr, size, k2, a, 0);
      assert Pointers(base, 0) == Padding(0) && Used(fids) == fids by {
        UsedPadding(0);
        assert Padding(0) == fids;
      }
    } else {
      var blocks, n := Chunks(fids, size), Min(size, |fids|);
      ChunksStep(fids, size);
      PointersStep(base, |blocks|, 1);
      FirstPointer(base, |blocks|);
      assert a[base] == a[base..base + |blocks|][0] == EncryptBlock(cr, k2, blocks[0]);
      assert a[base + 1..base + |blocks|] == a[base..base + |blocks|][1..];
      DecryptEncryptBlock(cr, k2, blocks[0]);
      FollowBlocks(cr, size, k2, a, base + 1, fids[n..]);
      FollowFirst(cr, size, k2, a, Pointers(base, |blocks|));
      UsedConcat(fids[..n], Padding(size - n));
      UsedPadding(size - n);
      UsedConcat(fids[..n], fids[n..]);
      assert fids[..n] + fids[n..] == fids;
    }
  }

  lemma FirstPointer(base: nat, count: nat)
    requires count > 0 && base < INVALID
    ensures Pointers(base, count)[0] == base
  {
    assert U64(base + 0) == base;
  }

  lemma FollowFirst(cr: Suite, size: nat, k2: Bytes, a: seq<Bytes>, pointers: seq<u64>)
    requires pointers != [] && pointers[0] != INVALID && pointers[0] < |a| && |a[pointers[0]]| >= BlockBytes(size)
    ensures Follow(cr, size, k2, a, pointers)
            == Used(DecryptBlock(cr, k2, a[pointers[0]], size)) + Follow(cr, size, k2, a, pointers[1..])
  {
    hide DecryptBlock, Used;
  }

  /** The blocks of the word are the ones of the array at some position, and the index points there. */
  ghost predicate Placed(cr: Suite, size: nat, version: int, k2: Bytes, fids: seq<u64>, blocks: seq<seq<u64>>,
      a: seq<Bytes>, base: nat)
    requires size >= 1
  {
    var placed := ArrayBlocks(version, size, fids);
    && base + |placed| <= |a|
    && a[base..base + |placed|] == EncryptBlocks(cr, k2, placed)
    && blocks == IndexBlocks(version, size, fids, base)
  }

  /** All three layouts deliver the list. */
  lemma GatherDelivers(cr: Suite, size: nat, version: int, k2: Bytes, fids: seq<u64>, blocks: seq<seq<u64>>,
      a: seq<Bytes>, base: nat)
    requires size >= 1 && |a| <= INVALID && Placed(cr, size, version, k2, fids, blocks, a, base)
    requires version == BASIC || version == PACKED || version == POINTERS
    ensures Gather(cr, size, version, k2, a, EncryptBlocks(cr, k2, blocks)) == Delivered(version, fids)
  {
    hide Gather, EncryptBlocks, Chunks, Used, Follow;
    if version == BASIC {
      GatherBasic(cr, size, k2, a, fids);
    } else if version == PACKED {
      GatherPacked(cr, size, k2, a, fids);
    } else {
      var n := |Chunks(fids, size)|;
      forall i | 0 <= i < n
        ensures Pointers(base, n)[i] != INVALID
      {
        assert Pointers(base, n)[i] == U64(base + i) == base + i < INVALID;
      }
      GatherPointer(cr, size, k2, a, Pointers(base, n));
      FollowBlocks(cr, size, k2, a, base, fids);
    }
  }

  /**
   * The three layouts of one list agree: decrypting the blocks of Packed and following those of Pointer
   * give the same ids, and the entries of Basic do if and only if the list does not contain INVALID.
   */
  lemma LayoutsAgree(cr: Suite, size: nat, k2: Bytes, fids: seq<u64>, blocks: seq<seq<u64>>, a: seq<Bytes>, base: nat)
    requires size >= 1 && |a| <= INVALID && Placed(cr, size, POINTERS, k2, fids, blocks, a, base)
    ensures Gather(cr, size, PACKED, k2, [], EncryptBlocks(cr, k2, Chunks(fids, size)))
            == Gather(cr, size, POINTERS, k2, a, EncryptBlocks(cr, k2, blocks))
    ensures Gather(cr, size, BASIC, k2, [], EncryptBlocks(cr, k2, Chunks(fids, 1)))
            == Gather(cr, size, POINTERS, k2, a, EncryptBlocks(cr, k2, blocks))
            <==> INVALID !in fids
  {
    hide Gather, EncryptBlocks, Chunks, Used, Placed;
    GatherBasic(cr, size, k2, [], fids);
    GatherPacked(cr, size, k2, [], fids);
    GatherDelivers(cr, size, POINTERS, k2, fids, blocks, a, base);
    DeliveredIsAll(fids);
  }

  // ---------------------------------------------------------------- the lines of the index

  predicate Distinct(words: seq<Word>) {
    forall i, j | 0 <= i < j < |words| :: words[i] != words[j]
  }

  /** An occurrence of `w` among the tokens finds `base` blocks in the array; a token may be given more than once. */
  ghost predicate HasBase(size: nat, version: int, tokens: seq<Word>, fileids: map<Word, seq<u64>>, start: nat, w: Word,
      base: nat)
    requires size >= 1 && Indexed(tokens, fileids)
  {
    && tokens != []
    && ((tokens[0] == w && base == start)
        || HasBase(size, version, tokens[1..], fileids,
                   start + |ArrayBlocks(version, size, fileids[tokens[0]])|, w, base))
  }

  /** The blocks that such an occurrence stores in D. */
  function BlocksAt(size: nat, version: int, fileids: map<Word, seq<u64>>, w: Word, base: nat): seq<seq<u64>>
    requires size >= 1
  {
    IndexBlocks(version, size, At(fileids, w), base)
  }

  lemma {:induction false} BaseOfToken(size: nat, version: int, tokens: seq<Word>, fileids: map<Word, seq<u64>>,
      start: nat, w: Word) returns (base: nat)
    requires size >= 1 && Indexed(tokens, fileids)
    ensures w in tokens <==> HasBase(size, version, tokens, fileids, start, w, base)
    ensures w !in tokens ==> forall b: nat :: !HasBase(size, version, tokens, fileids, start, w, b)
  {
    hide ArrayBlocks;
    base := start;
    if tokens != [] {
      assert tokens == [tokens[0]] + tokens[1..];
      if tokens[0] != w {
        var next := start + |ArrayBlocks(version, size, fileids[tokens[0]])|;
      base := BaseOfToken(size, version, tokens[1..], fileids, next, w);
      }
    }
  }

  /** Line `c` of word `w`. */
  ghost predicate IsLine(cr: Suite, size: nat, key: Bytes, w: Word, blocks: seq<seq<u64>>, c: nat, p: TokenPair) {
    c < |blocks| && p == SetupLine(size, Label(cr, key, w, U64(c)), EncryptBlock(cr, K2Of(cr, key, w), blocks[c]))
  }

  lemma {:induction false} WordLinesAre(cr: Suite, size: nat, key: Bytes, w: Word, blocks: seq<seq<u64>>, c: nat,
      i: nat)
    requires i < |blocks|
    ensures |WordLines(cr, size, key, w, blocks, c)| == |blocks|
    ensures WordLines(cr, size, key, w, blocks, c)[i]
            == SetupLine(size, Label(cr, key, w, U64(c + i)), EncryptBlock(cr, K2Of(cr, key, w), blocks[i]))
  {
    hide Label, EncryptBlock, SetupLine;
    if i > 0 {
      WordLinesAre(cr, size, key, w, blocks[1..], c + 1, i - 1);
    } else if |blocks| > 1 {
      WordLinesAre(cr, size, key, w, blocks[1..], c + 1, 0);
    }
  }

  ghost predicate HasLine(cr: Suite, size: nat, version: int, key: Bytes, tokens: seq<Word>,
      fileids: map<Word, seq<u64>>, start: nat, p: TokenPair)
    requires size >= 1 && Indexed(tokens, fileids)
  {
    exists w, base: nat, c: nat ::
      && HasBase(size, version, tokens, fileids, start, w, base)
      && IsLine(cr, size, key, w, BlocksAt(size, version, fileids, w, base), c, p)
  }

  lemma LineOfWord(cr: Suite, size: nat, key: Bytes, w: Word, blocks: seq<seq<u64>>, p: TokenPair)
    ensures p in WordLines(cr, size, key, w, blocks, 0) <==> exists c: nat :: IsLine(cr, size, key, w, blocks, c, p)
  {
    hide Label, EncryptBlock, SetupLine, WordLines;
    var lines := WordLines(cr, size, key, w, blocks, 0);
    if p in lines {
      if blocks == [] {
        NoLines(cr, size, key, w, 0);
      } else {
        WordLinesAre(cr, size, key, w, blocks, 0, 0);
        var c: nat :| c < |lines| && lines[c] == p;
        WordLinesAre(cr, size, key, w, blocks, 0, c);
        assert IsLine(cr, size, key, w, blocks, c, p);
      }
    }
    if c: nat :| IsLine(cr, size, key, w, blocks, c, p) {
      WordLinesAre(cr, size, key, w, blocks, 0, c);
      assert lines[c] == p;
    }
  }

  /** The index has exactly the lines of its words. */
  lemma {:induction false} LinesAre(cr: Suite, size: nat, version: int, key: Bytes, tokens: seq<Word>,
      fileids: map<Word, seq<u64>>, start: nat, p: TokenPair)
    requires size >= 1 && Indexed(tokens, fileids)
    ensures p in SetupLines(cr, size, version, key, tokens, fileids, start)
            <==> HasLine(cr, size, version, key, tokens, fileids, start, p)
  {
    hide IndexBlocks, ArrayBlocks, WordLines, HasLine, IsLine, SetupLines, HasBase;
    if tokens == [] {
      SetupEnds(cr, size, version, key, tokens, fileids, start);
      NoLineAtAll(cr, size, version, key, fileids, start, p);
    } else {
      var t, fids := tokens[0], fileids[tokens[0]];
      var next := start + |ArrayBlocks(version, size, fids)|;
      LinesAre(cr, size, version, key, tokens[1..], fileids, next, p);
      LineOfWord(cr, size, key, t, IndexBlocks(version, size, fids, start), p);
      SetupLinesStep(cr, size, version, key, tokens, fileids, 0, start);
      assert tokens[0..] == tokens;
      HasLineStep(cr, size, version, key, tokens, fileids, start, p);
    }
  }

  lemma HasLineStep(cr: Suite, size: nat, version: int, key: Bytes, tokens: seq<Word>, fileids: map<Word, seq<u64>>,
      start: nat, p: TokenPair)
    requires size >= 1 && Indexed(tokens, fileids) && tokens != []
    ensures var t := tokens[0]; var fids := fileids[t];
            HasLine(cr, size, version, key, tokens, fileids, start, p)
            <==> HasLine(cr, size, version, key, tokens[1..], fileids, start + |ArrayBlocks(version, size, fids)|, p)
                 || exists c: nat :: IsLine(cr, size, key, t, IndexBlocks(version, size, fids, start), c, p)
  {
    hide IsLine, IndexBlocks, ArrayBlocks;
    var t, fids := tokens[0], fileids[tokens[0]];
    var next := start + |ArrayBlocks(version, size, fids)|;
    if w, base: nat, c: nat :| HasBase(size, version, tokens[1..], fileids, next, w, base)
                               && IsLine(cr, size, key, w, BlocksAt(size, version, fileids, w, base), c, p) {
      assert HasBase(size, version, tokens, fileids, start, w, base);
    }
    if c: nat :| IsLine(cr, size, key, t, IndexBlocks(version, size, fids, start), c, p) {
      assert HasBase(size, version, tokens, fileids, start, t, start);
      assert IsLine(cr, size, key, t, BlocksAt(size, version, fileids, t, start), c, p);
    }
  }

  lemma NoLineAtAll(cr: Suite, size: nat, version: int, key: Bytes, fileids: map<Word, seq<u64>>, start: nat,
      p: TokenPair)
    requires size >= 1
    ensures !HasLine(cr, size, version, key, [], fileids, start, p)
  {
  }
}
