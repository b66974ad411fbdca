/** The class DSSE::Core of src/DSSE.cpp: client and server halves of every operation. */
module Core {
  import opened Octets
  import opened Crypto
  import opened Ordering
  import opened CoreSpec
  import opened SpecFacts

  class Core {
    const cr: Suite
    const size: nat // B
    var version: int
    // client
    var key: Bytes
    var kplus: Bytes
    var kminus: Bytes
    var dcount: map<Word, u64>
    // server
    var d: map<Bytes, Bytes>
    var a: seq<Bytes>
    var dplus: map<Bytes, Bytes>
    var srev: set<Bytes>
    var dirtyD: bool

    function Client(): ClientState
      reads this
    {
      ClientState(version, key, kplus, kminus, dcount)
    }

    function Server(): ServerState
      reads this
    {
      ServerState(version, d, a, dplus, srev, dirtyD)
    }

    constructor (cr: Suite, size: nat)
      ensures this.cr == cr && this.size == size
      ensures Client() == ClientState(BASIC, Zeros(KEYLEN), Zeros(KEYLEN), Zeros(KEYLEN), map[])
      ensures Server() == ServerState(BASIC, map[], [], map[], {}, false)
    {
      this.cr, this.size := cr, size;
      version, dirtyD := BASIC, false;
      key, kplus, kminus := Zeros(KEYLEN), Zeros(KEYLEN), Zeros(KEYLEN);
      dcount, d, a, dplus, srev := map[], map[], [], map[], {};
    }

    // ---------------------------------------------------------------- setup

    /**
     * Build the index under three new random keys. An unknown version ends the program, a token without
     * a list throws, when the keys are already replaced (`ok` is false). The counters of earlier
     * additions are kept.
     */
    method SetupClient(newVersion: int, tokens: seq<Word>, fileids: map<Word, seq<u64>>, newKey: Bytes,
        newKplus: Bytes, newKminus: Bytes)
      returns (ok: bool, l: seq<SetupPair>, m: seq<Bytes>)
      requires size >= 1 && ListsFit(tokens, fileids)
      modifies `version, `key, `kplus, `kminus
      ensures ok <==> (newVersion == BASIC || newVersion == PACKED || newVersion == POINTERS) && Listed(tokens, fileids)
      ensures !ok ==> Client() == if newVersion == BASIC || newVersion == PACKED || newVersion == POINTERS
                                  then old(Client()).(key := newKey, kplus := newKplus, kminus := newKminus)
                                  else old(Client())
      ensures ok ==> Client() == ClientState(newVersion, newKey, newKplus, newKminus, old(dcount))
      ensures ok ==> l == HandOver(newVersion, size,
              Sort(SetupLines(cr, size, newVersion, newKey, tokens, fileids, 0), PairKey))
      ensures ok ==> m == SetupArray(cr, size, newVersion, newKey, tokens, fileids)
    {
      l, m := [], [];
      if newVersion == BASIC {
        ok, l := SetupClientBasic(tokens, fileids, newKey, newKplus, newKminus);
      } else if newVersion == PACKED {
        ok, l := SetupClientPacked(tokens, fileids, newKey, newKplus, newKminus);
      } else if newVersion == POINTERS {
        ok, l, m := SetupClientPointer(tokens, fileids, newKey, newKplus, newKminus);
      } else {
        return false, l, m;
      }
      if !ok {
        return;
      }
      if newVersion != POINTERS {
        BasicHasNoArray(cr, size, newVersion, newKey, tokens, fileids);
      }
      version := newVersion;
    }

    static lemma {:induction false} BasicHasNoArray(cr: Suite, size: nat, version: int, key: Bytes, tokens: seq<Word>,
        fileids: map<Word, seq<u64>>)
      requires size >= 1 && Indexed(tokens, fileids) && version != POINTERS
      ensures SetupArray(cr, size, version, key, tokens, fileids) == []
    {
      if tokens != [] {
        BasicHasNoArray(cr, size, version, key, tokens[1..], fileids);
      }
    }

    method AddWordBasic(w: Word, fids: seq<u64>, l0: seq<TokenPair>) returns (l: seq<TokenPair>)
      requires |fids| < TWO64
      ensures l == l0 + WordLines(cr, size, key, w, Chunks(fids, 1), 0)
    {
      hide WordLines, Chunks, SetupLine, EncryptBytes;
      var k1, k2 := MacKey(cr, key, TAG1, w), MacKey(cr, key, TAG2, w);
      l := l0;
      assert fids[0..] == fids;
      for c := 0 to |fids|
        invariant l + WordLines(cr, size, key, w, Chunks(fids[c..], 1), c)
                == l0 + WordLines(cr, size, key, w, Chunks(fids, 1), 0)
      {
        ChunksStep(fids[c..], 1);
        WordLinesStep(cr, size, key, w, Chunks(fids[c..], 1), c);
        assert Chunks(fids[c..], 1)[0] == [fids[c]] && fids[c..][1..] == fids[c + 1..];
        assert EncodeBlock([fids[c]]) == PutU64(fids[c]);
        l := l + [SetupLine(size, MacLong(cr, k1, c), EncryptBytes(cr, k2, PutU64(fids[c])))];
      }
      NoBlocks([], 1);
      NoLines(cr, size, key, w, |fids|);
    }

    method SetupClientBasic(tokens: seq<Word>, fileids: map<Word, seq<u64>>, newKey: Bytes, newKplus: Bytes,
        newKminus: Bytes)
      returns (ok: bool, out: seq<SetupPair>)
      requires size >= 1 && ListsFit(tokens, fileids)
      modifies `key, `kplus, `kminus
      ensures key == newKey && kplus == newKplus && kminus == newKminus
      ensures ok <==> Listed(tokens, fileids)
      ensures ok ==> out == HandOver(BASIC, size,
              Sort(SetupLines(cr, size, BASIC, newKey, tokens, fileids, 0), PairKey))
    {
      hide SetupLines, SetupArray, WordLines, EncryptBlocks, Sort, HandOver;
      key, kplus, kminus := newKey, newKplus, newKminus;
      var l: seq<TokenPair> := [];
      assert tokens[0..] == tokens;
      for t := 0 to |tokens|
        invariant key == newKey && kplus == newKplus && kminus == newKminus
        invariant forall k | 0 <= k < t :: tokens[k] in fileids
        invariant Listed(tokens, fileids) ==>
                    l + SetupLines(cr, size, BASIC, newKey, tokens[t..], fileids, 0)
                    == SetupLines(cr, size, BASIC, newKey, tokens, fileids, 0)
      {
        if tokens[t] !in fileids {
          return false, [];
        }
        if Listed(tokens, fileids) {
          SetupLinesStep(cr, size, BASIC, newKey, tokens, fileids, t, 0);
        }
        l := AddWordBasic(tokens[t], fileids[tokens[t]], l);
      }
      SetupEnds(cr, size, BASIC, newKey, tokens, fileids, 0);
      assert l + [] == l;
      ok, out := true, HandOver(BASIC, size, Sort(l, PairKey));
    }

    /** Write `value` into slot `k` of a block whose first `k` slots hold `values`. */
    static method PutSlot(value: u64, block: array<byte>, k: nat, ghost values: seq<u64>)
      requires 8 * k + 8 <= block.Length && |values| == k
      requires block[..8 * k] == EncodeBlock(values)
      modifies block
      ensures block[..8 * (k + 1)] == EncodeBlock(values + [value])
    {
      PutU64At(value, block, 8 * k);
      EncodeAppend(values, value);
      assert block[..8 * k] == EncodeBlock(values);
      assert block[..8 * k + 8] == block[..8 * k] + block[8 * k..8 * k + 8];
    }

    /** The block of the file ids from position `offset` on. */
    method PackedBlock(fids: seq<u64>, offset: nat) returns (block: array<byte>)
      requires size >= 1 && offset < |fids|
      ensures fresh(block) && block[..] == EncodeBlock(Chunks(fids[offset..], size)[0])
    {
      hide Chunks, EncodeBlock;
      block := new byte[8 * size];
      ghost var rest := fids[offset..];
      ghost var n := Min(size, |rest|);
      ghost var values := rest[..n] + Padding(size - n);
      ChunksStep(rest, size);
      PointersAppend(0, 0);
      assert block[..0] == values[..0] == [];
      for fidc := 0 to size
        invariant block[..8 * fidc] == EncodeBlock(values[..fidc])
      {
        var value := if offset + fidc < |fids| then fids[offset + fidc] else INVALID;
        PutSlot(value, block, fidc, values[..fidc]);
        assert values[..fidc + 1] == values[..fidc] + [value];
      }
      assert values[..size] == values && block[..8 * size] == block[..];
    }

    method AddWordPacked(w: Word, fids: seq<u64>, l0: seq<TokenPair>) returns (l: seq<TokenPair>)
      requires size >= 1 && |fids| < TWO64
      ensures l == l0 + WordLines(cr, size, key, w, Chunks(fids, size), 0)
    {
      hide WordLines, Chunks, SetupLine, EncryptBytes;
      var k1, k2 := MacKey(cr, key, TAG1, w), MacKey(cr, key, TAG2, w);
      l := l0;
      var c := 0;
      assert fids[0..] == fids;
      CeilBound(0, |fids|, size);
      while c < (|fids| + (size - 1)) / size
        invariant c < (|fids| + (size - 1)) / size <==> c * size < |fids|
        invariant c <= |fids|
        invariant l + WordLines(cr, size, key, w, Chunks(fids[Min(c * size, |fids|)..], size), c)
                  == l0 + WordLines(cr, size, key, w, Chunks(fids, size), 0)
      {
        ghost var rest := fids[c * size..];
        NextOffset(c, size);
        CeilBound(c + 1, |fids|, size);
        ChunksStep(rest, size);
        WordLinesStep(cr, size, key, w, Chunks(rest, size), c);
        assert rest[Min(size, |rest|)..] == fids[Min((c + 1) * size, |fids|)..];
        var block := PackedBlock(fids, c * size);
        l := l + [SetupLine(size, MacLong(cr, k1, c), EncryptBytes(cr, k2, block[..]))];
        c := c + 1;
      }
      NoBlocks([], size);
      NoLines(cr, size, key, w, c);
    }

    method SetupClientPacked(tokens: seq<Word>, fileids: map<Word, seq<u64>>, newKey: Bytes, newKplus: Bytes,
        newKminus: Bytes)
      returns (ok: bool, out: seq<SetupPair>)
      requires size >= 1 && ListsFit(tokens, fileids)
      modifies `key, `kplus, `kminus
      ensures key == newKey && kplus == newKplus && kminus == newKminus
      ensures ok <==> Listed(tokens, fileids)
      ensures ok ==> out == HandOver(PACKED, size,
              Sort(SetupLines(cr, size, PACKED, newKey, tokens, fileids, 0), PairKey))
    {
      hide SetupLines, SetupArray, WordLines, EncryptBlocks, Sort, HandOver;
      key, kplus, kminus := newKey, newKplus, newKminus;
      var l: seq<TokenPair> := [];
      assert tokens[0..] == tokens;
      for t := 0 to |tokens|
        invariant key == newKey && kplus == newKplus && kminus == newKminus
        invariant forall k | 0 <= k < t :: tokens[k] in fileids
        invariant Listed(tokens, fileids) ==>
                    l + SetupLines(cr, size, PACKED, newKey, tokens[t..], fileids, 0)
                    == SetupLines(cr, size, PACKED, newKey, tokens, fileids, 0)
      {
        if tokens[t] !in fileids {
          return false, [];
        }
        if Listed(tokens, fileids) {
          SetupLinesStep(cr, size, PACKED, newKey, tokens, fileids, t, 0);
        }
        l := AddWordPacked(tokens[t], fileids[tokens[t]], l);
      }
      SetupEnds(cr, size, PACKED, newKey, tokens, fileids, 0);
      assert l + [] == l;
      ok, out := true, HandOver(PACKED, size, Sort(l, PairKey));
    }

    /** Fill a block with the file ids from `start` on, padded with INVALID. */
    method FillFileIds(fids: seq<u64>, start: nat, block: array<byte>) returns (i: nat)
      requires size >= 1 && start < |fids| && block.Length == 8 * size
      modifies block
      ensures i == Min(start + size, |fids|)
      ensures block[..] == EncodeBlock(Chunks(fids[start..], size)[0])
    {
      hide Chunks, EncodeBlock;
      i := start;
      ghost var rest := fids[start..];
      ghost var n := Min(size, |rest|);
      ghost var values := rest[..n] + Padding(size - n);
      ChunksStep(rest, size);
      PointersAppend(0, 0);
      assert block[..0] == values[..0] == [];
      for k := 0 to size
        invariant i == Min(start + k, |fids|)
        invariant block[..8 * k] == EncodeBlock(values[..k])
      {
        var value := INVALID;
        if i < |fids| {
          value := fids[i];
          i := i + 1;
        }
        PutSlot(value, block, k, values[..k]);
        assert values[..k + 1] == values[..k] + [value];
      }
      assert values[..size] == values && block[..8 * size] == block[..];
    }

    /** Encrypt the next block of file ids and append it to the array. */
    method AppendBlock(k2: Bytes, fids: seq<u64>, start: nat, m0: seq<Bytes>,
        fileIdBlock: array<byte>) returns (i: nat, m: seq<Bytes>)
      requires size >= 1 && start < |fids| && fileIdBlock.Length == 8 * size
      modifies fileIdBlock
      ensures start < i <= |fids|
      ensures m == m0 + [EncryptBlock(cr, k2, Chunks(fids[start..], size)[0])]
      ensures Chunks(fids[i..], size) == Chunks(fids[start..], size)[1..]
      ensures i == |fids| <==> |Chunks(fids[start..], size)| == 1
    {
      ghost var rest := fids[start..];
      ChunksStep(rest, size);
      i := FillFileIds(fids, start, fileIdBlock);
      assert rest[Min(size, |rest|)..] == fids[i..];
      m := m0 + [EncryptBytes(cr, k2, fileIdBlock[..])];
    }

    /** Fill the pointer block with INVALID from slot `k` on. */
    method PadPointers(pointerBlock: array<byte>, k: nat, ghost values: seq<u64>)
      requires |values| == k <= size && pointerBlock.Length == 8 * size
      requires pointerBlock[..8 * k] == EncodeBlock(values)
      modifies pointerBlock
      ensures pointerBlock[..] == EncodeBlock(values + Padding(size - k))
    {
      hide EncodeBlock;
      assert values + Padding(0) == values;
      for j := k to size
        invariant pointerBlock[..8 * j] == EncodeBlock(values + Padding(j - k))
      {
        PutSlot(INVALID, pointerBlock, j, values + Padding(j - k));
        assert values + Padding(j - k) + [INVALID] == values + Padding(j + 1 - k);
      }
      assert pointerBlock[..8 * size] == pointerBlock[..];
    }

    /**
     * One entry of D: append up to `size` blocks of file ids to the array and fill the pointer block
     * with their positions; once the ids are used up, the remaining pointers are INVALID.
     */
    method FillPointers(k2: Bytes, fids: seq<u64>, start: nat, m0: seq<Bytes>, pointerBlock: array<byte>,
        fileIdBlock: array<byte>)
      returns (i: nat, m: seq<Bytes>)
      requires size >= 1 && start < |fids|
      requires pointerBlock != fileIdBlock && pointerBlock.Length == fileIdBlock.Length == 8 * size
      modifies pointerBlock, fileIdBlock
      ensures start < i <= |fids|
      ensures var blocks := Chunks(fids[start..], size); var n := Min(size, |blocks|);
              && Chunks(fids[i..], size) == blocks[n..]
              && m == m0 + EncryptBlocks(cr, k2, blocks[..n])
              && pointerBlock[..] == EncodeBlock(Pointers(|m0|, n) + Padding(size - n))
    {
      hide Chunks, EncryptBlocks, EncodeBlock, Pointers, EncryptBlock;
      i, m := start, m0;
      ghost var blocks := Chunks(fids[start..], size);
      NoBlocks(fids[start..], size);
      PointersAppend(|m0|, 0);
      assert blocks[0..] == blocks && pointerBlock[..0] == [];
      assert m0 + EncryptBlocks(cr, k2, blocks[..0]) == m0;
      var j := 0;
      while j < size
        invariant j <= size && j <= |blocks| && start <= i <= |fids|
        invariant j > 0 ==> start < i
        invariant j < size ==> i < |fids|
        invariant i < |fids| <==> j < |blocks|
        invariant Chunks(fids[i..], size) == blocks[j..]
        invariant m == m0 + EncryptBlocks(cr, k2, blocks[..j])
        invariant pointerBlock[..8 * j] == EncodeBlock(Pointers(|m0|, j))
      {
        i, m := AppendBlock(k2, fids, i, m, fileIdBlock);
        NoBlocks(fids[i..], size);
        EncryptBlocksAppend(cr, k2, blocks, j);
        PutSlot(U64(|m| - 1), pointerBlock, j, Pointers(|m0|, j));
        PointersAppend(|m0|, j);
        j := j + 1;
        // out of file ids: fill the remaining pointers with INVALID
        if i >= |fids| {
          PadPointers(pointerBlock, j, Pointers(|m0|, j));
          return;
        }
      }
      assert Pointers(|m0|, size) + Padding(0) == Pointers(|m0|, size);
      assert pointerBlock[..8 * size] == pointerBlock[..];
    }

    method AddWordPointer(w: Word, fids: seq<u64>, l0: seq<TokenPair>, m0: seq<Bytes>) returns (l: seq<TokenPair>,
        m: seq<Bytes>)
      requires size >= 1 && |fids| < TWO64
      ensures l == l0 + WordLines(cr, size, key, w, IndexBlocks(POINTERS, size, fids, |m0|), 0)
      ensures m == m0 + EncryptBlocks(cr, K2Of(cr, key, w), ArrayBlocks(POINTERS, size, fids))
    {
      var k1, k2 := MacKey(cr, key, TAG1, w), MacKey(cr, key, TAG2, w);
      hide Chunks, EncryptBlocks, EncodeBlock, Pointers, WordLines, SetupLine, EncryptBytes, MacLong, MacKey;
      var pointerBlock, fileIdBlock := new byte[8 * size], new byte[8 * size];
      l, m := l0, m0;
      ghost var blocks := Chunks(fids, size);
      ghost var lines := WordLines(cr, size, key, w, IndexBlocks(POINTERS, size, fids, |m0|), 0);
      assert fids[0..] == fids;
      var i, c: nat := 0, 0;
      while i < |fids|
        invariant c <= i <= |fids| && |m| - |m0| <= |blocks| && |m| >= |m0|
        invariant Chunks(fids[i..], size) == blocks[|m| - |m0|..]
        invariant m == m0 + EncryptBlocks(cr, k2, blocks[..|m| - |m0|])
        invariant l + WordLines(cr, size, key, w, Chunks(Pointers(|m|, |m0| + |blocks| - |m|), size), c) == l0 + lines
      {
        NoBlocks(fids[i..], size);
        PointerRound(cr, size, key, w, blocks, |m|, |m| - |m0|, c);
        i, m := FillPointers(k2, fids, i, m, pointerBlock, fileIdBlock);
        l := l + [SetupLine(size, MacLong(cr, k1, c), EncryptBytes(cr, k2, pointerBlock[..]))];
        c := c + 1;
      }
      NoBlocks(fids[i..], size);
      NoBlocks([], size);
      NoLines(cr, size, key, w, c);
      assert blocks[..|m| - |m0|] == blocks && Pointers(|m|, 0) == [];
    }

    method SetupClientPointer(tokens: seq<Word>, fileids: map<Word, seq<u64>>, newKey: Bytes, newKplus: Bytes,
        newKminus: Bytes)
      returns (ok: bool, out: seq<SetupPair>, m: seq<Bytes>)
      requires size >= 1 && ListsFit(tokens, fileids)
      modifies `key, `kplus, `kminus
      ensures key == newKey && kplus == newKplus && kminus == newKminus
      ensures ok <==> Listed(tokens, fileids)
      ensures ok ==> out == HandOver(POINTERS, size,
              Sort(SetupLines(cr, size, POINTERS, newKey, tokens, fileids, 0), PairKey))
      ensures ok ==> m == SetupArray(cr, size, POINTERS, newKey, tokens, fileids)
    {
      hide SetupLines, SetupArray, WordLines, EncryptBlocks, IndexBlocks, ArrayBlocks, K2Of, Sort, HandOver;
      key, kplus, kminus := newKey, newKplus, newKminus;
      var l: seq<TokenPair> := [];
      m := [];
      assert tokens[0..] == tokens;
      for t := 0 to |tokens|
        invariant key == newKey && kplus == newKplus && kminus == newKminus
        invariant forall k | 0 <= k < t :: tokens[k] in fileids
        invariant Listed(tokens, fileids) ==>
                    && l + SetupLines(cr, size, POINTERS, newKey, tokens[t..], fileids, |m|)
                       == SetupLines(cr, size, POINTERS, newKey, tokens, fileids, 0)
                    && m + SetupArray(cr, size, POINTERS, newKey, tokens[t..], fileids)
                       == SetupArray(cr, size, POINTERS, newKey, tokens, fileids)
      {
        if tokens[t] !in fileids {
          return false, [], [];
        }
        if Listed(tokens, fileids) {
          SetupLinesStep(cr, size, POINTERS, newKey, tokens, fileids, t, |m|);
          SetupArrayStep(cr, size, POINTERS, newKey, tokens, fileids, t);
        }
        l, m := AddWordPointer(tokens[t], fileids[tokens[t]], l, m);
      }
      SetupEnds(cr, size, POINTERS, newKey, tokens, fileids, |m|);
      assert l + [] == l && m + [] == m;
      ok, out := true, HandOver(POINTERS, size, Sort(l, PairKey));
    }

    method SetupServer(newVersion: int, l: seq<SetupPair>, m: seq<Bytes>)
      modifies this
      ensures Server() == CoreSpec.SetupServer(old(Server()), newVersion, l, m)
      ensures unchanged(`key, `kplus, `kminus, `dcount)
    {
      d, a, dplus := map[], [], map[];
      dirtyD := true;
      for i := 0 to |l|
        invariant d == Dict(l[..i]) && dplus == map[] && dirtyD
        invariant unchanged(`key, `kplus, `kminus, `dcount, `srev)
      {
        assert l[..i + 1][..i] == l[..i];
        d := d[l[i].token := l[i].fileId];
      }
      assert l[..|l|] == l;
      a := m;
      version := newVersion;
    }

    // ---------------------------------------------------------------- search

    method SearchClient(w: Word) returns (t: Trapdoor)
      ensures t == CoreSpec.SearchClient(cr, Client(), w)
    {
      var k1, k2 := MacKey(cr, key, TAG1, w), MacKey(cr, key, TAG2, w);
      var k1plus, k2plus := MacKey(cr, kplus, TAG1, w), MacKey(cr, kplus, TAG2, w);
      t := Trapdoor(k1, k2, k1plus, k2plus, MacKey(cr, kminus, TAG1, w));
    }

    /** An unknown version ends the program (`ok` is false). */
    method SearchServer(t: Trapdoor) returns (ok: bool, ids: seq<u64>)
      requires Searchable(t)
      ensures ok <==> version == BASIC || version == PACKED || version == POINTERS
      ensures ok ==> ids == Search(cr, size, Server(), t)
    {
      ids := [];
      if version == BASIC {
        ids := SearchServerBasic(t);
      } else if version == PACKED {
        ids := SearchServerPacked(t);
      } else if version == POINTERS {
        ids := SearchServerPointer(t);
      } else {
        return false, ids;
      }
      ok := true;
    }

    /** The loops below end: labels of one key differ, and no map holds 2^64 entries. */
    ghost predicate Searchable(t: Trapdoor)
      reads this
    {
      && CountersDistinct(cr, t.k1) && CountersDistinct(cr, t.k1plus)
      && |d| < TWO64 && |dplus| < TWO64
      && SafeSearch(cr, size, Server(), t)
    }

    /** The second loop of every search, over the added entries. */
    method SearchAdded(t: Trapdoor, ids0: seq<u64>) returns (ids: seq<u64>)
      requires Searchable(t)
      ensures ids == ids0 + Remaining(cr, size, BASIC, t.k2plus, [], t.k1minus, srev, dplus, t.k1plus, 0)
    {
      hide Live, Gather, EntryIds, Probe, DecryptLong, MacLong, Readable, CountersDistinct, Search, Remaining;
      ids := ids0;
      var c: nat := 0;
      while true
        invariant Counting(cr, dplus, t.k1plus, c)
        invariant ids + Remaining(cr, size, BASIC, t.k2plus, [], t.k1minus, srev, dplus, t.k1plus, c)
                  == ids0 + Remaining(cr, size, BASIC, t.k2plus, [], t.k1minus, srev, dplus, t.k1plus, 0)
        decreases |dplus| - c
      {
        CountingStep(cr, dplus, t.k1plus, c);
        RemainingStep(cr, size, BASIC, t.k2plus, [], t.k1minus, srev, dplus, t.k1plus, c);
        var l := MacLong(cr, t.k1plus, c);
        if l !in dplus {
          break;
        }
        EntryReadable(cr, size, BASIC, t.k2plus, [], dplus, t.k1plus, c);
        var id := DecryptLong(cr, t.k2plus, dplus[l]);
        LiveBasic(cr, size, t.k2plus, [], t.k1minus, srev, dplus[l]);
        if MacLong(cr, t.k1minus, id) !in srev {
          ids := ids + [id];
        }
        c := c + 1;
      }
    }

    /** Append the live ids of one decrypted block. */
    method CollectBlock(t: Trapdoor, block: Bytes, ids0: seq<u64>) returns (ids: seq<u64>)
      requires |block| == 8 * size
      ensures ids == ids0 + Live(cr, t.k1minus, srev, Used(DecodeBlock(block, size)))
    {
      hide Live, Used, MacLong, GetU64;
      ids := ids0;
      ghost var values := DecodeBlock(block, size);
      assert values[0..] == values;
      for i := 0 to size
        invariant ids + Live(cr, t.k1minus, srev, Used(values[i..])) == ids0 + Live(cr, t.k1minus, srev, Used(values))
      {
        UsedStep(cr, t.k1minus, srev, values, i);
        var value := GetU64(block[8 * i..8 * i + 8]);
        if value < INVALID {
          if MacLong(cr, t.k1minus, value) !in srev {
            ids := ids + [value];
          }
        }
      }
      UsedStep(cr, t.k1minus, srev, values, size);
    }

    /** Follow the pointers of one decrypted block. */
    method CollectPointers(t: Trapdoor, block: Bytes, ids0: seq<u64>) returns (ids: seq<u64>)
      requires |block| == 8 * size
      requires PointersReadable(a, size, DecodeBlock(block, size))
      ensures ids == ids0 + Live(cr, t.k1minus, srev, Follow(cr, size, t.k2, a, DecodeBlock(block, size)))
    {
      hide Live, Follow, Used, DecryptBytes, PointersReadable, MacLong, GetU64;
      ids := ids0;
      ghost var pointers := DecodeBlock(block, size);
      assert pointers[0..] == pointers;
      for i := 0 to size
        invariant ids + Live(cr, t.k1minus, srev, Follow(cr, size, t.k2, a, pointers[i..]))
                  == ids0 + Live(cr, t.k1minus, srev, Follow(cr, size, t.k2, a, pointers))
      {
        FollowStep(cr, size, t.k2, a, t.k1minus, srev, pointers, i);
        var index := GetU64(block[8 * i..8 * i + 8]);
        assert index == pointers[i];
        PointerReadable(a, size, pointers, i);
        if index == INVALID {
          return;
        }
        if index < |a| {
          var fileIdBlock := DecryptBytes(cr, t.k2, a[index]);
          ids := CollectBlock(t, fileIdBlock, ids);
        }
      }
      FollowStep(cr, size, t.k2, a, t.k1minus, srev, pointers, size);
    }

    method SearchServerBasic(t: Trapdoor) returns (ids: seq<u64>)
      requires Searchable(t) && version == BASIC
      ensures ids == Search(cr, size, Server(), t)
    {
      hide Live, Gather, EntryIds, Probe, DecryptBytes, DecryptLong, MacLong, Readable, CountersDistinct, Search,
           Remaining, PointersReadable, DecodeBlock, Used, Follow;
      ids := [];
      var c: nat := 0;
      while true
        invariant Counting(cr, d, t.k1, c)
        invariant ids + Remaining(cr, size, BASIC, t.k2, a, t.k1minus, srev, d, t.k1, c)
                  == Remaining(cr, size, BASIC, t.k2, a, t.k1minus, srev, d, t.k1, 0)
        decreases |d| - c
      {
        CountingStep(cr, d, t.k1, c);
        RemainingStep(cr, size, BASIC, t.k2, a, t.k1minus, srev, d, t.k1, c);
        var l := MacLong(cr, t.k1, c);
        if l !in d {
          break;
        }
        EntryReadable(cr, size, BASIC, t.k2, a, d, t.k1, c);
        var id := DecryptLong(cr, t.k2, d[l]);
        LiveBasic(cr, size, t.k2, a, t.k1minus, srev, d[l]);
        if MacLong(cr, t.k1minus, id) !in srev {
          ids := ids + [id];
        }
        c := c + 1;
      }
      ids := SearchAdded(t, ids);
      SearchIsRemaining(cr, size, Server(), t);
    }

    method SearchServerPacked(t: Trapdoor) returns (ids: seq<u64>)
      requires Searchable(t) && version == PACKED
      ensures ids == Search(cr, size, Server(), t)
    {
      hide Live, Gather, EntryIds, Probe, DecryptBytes, DecryptLong, MacLong, Readable, CountersDistinct, Search,
           Remaining, PointersReadable, DecodeBlock, Used, Follow;
      ids := [];
      var c: nat := 0;
      while true
        invariant Counting(cr, d, t.k1, c)
        invariant ids + Remaining(cr, size, PACKED, t.k2, a, t.k1minus, srev, d, t.k1, c)
                  == Remaining(cr, size, PACKED, t.k2, a, t.k1minus, srev, d, t.k1, 0)
        decreases |d| - c
      {
        CountingStep(cr, d, t.k1, c);
        RemainingStep(cr, size, PACKED, t.k2, a, t.k1minus, srev, d, t.k1, c);
        var l := MacLong(cr, t.k1, c);
        if l !in d {
          break;
        }
        EntryReadable(cr, size, PACKED, t.k2, a, d, t.k1, c);
        var block := DecryptBytes(cr, t.k2, d[l]);
        LivePacked(cr, size, t.k2, a, d[l]);
        ids := CollectBlock(t, block, ids);
        c := c + 1;
      }
      ids := SearchAdded(t, ids);
      SearchIsRemaining(cr, size, Server(), t);
    }

    method SearchServerPointer(t: Trapdoor) returns (ids: seq<u64>)
      requires Searchable(t) && version == POINTERS
      ensures ids == Search(cr, size, Server(), t)
    {
      hide Live, Gather, EntryIds, Probe, DecryptBytes, DecryptLong, MacLong, Readable, CountersDistinct, Search,
           Remaining, PointersReadable, DecodeBlock, Used, Follow;
      ids := [];
      var c: nat := 0;
      while true
        invariant Counting(cr, d, t.k1, c)
        invariant ids + Remaining(cr, size, POINTERS, t.k2, a, t.k1minus, srev, d, t.k1, c)
                  == Remaining(cr, size, POINTERS, t.k2, a, t.k1minus, srev, d, t.k1, 0)
        decreases |d| - c
      {
        CountingStep(cr, d, t.k1, c);
        RemainingStep(cr, size, POINTERS, t.k2, a, t.k1minus, srev, d, t.k1, c);
        var l := MacLong(cr, t.k1, c);
        if l !in d {
          break;
        }
        EntryReadable(cr, size, POINTERS, t.k2, a, d, t.k1, c);
        var block := DecryptBytes(cr, t.k2, d[l]);
        LivePointer(cr, size, t.k2, a, d[l]);
        ids := CollectPointers(t, block, ids);
        c := c + 1;
      }
      ids := SearchAdded(t, ids);
      SearchIsRemaining(cr, size, Server(), t);
    }

    // ---------------------------------------------------------------- add

    /**
     * One pair per word, under the word's next counter. Bytes 24 and on of the ciphertext buffer are
     * whatever was on the stack.
     */
    method AddClient(id: u64, words: seq<Word>) returns (l: seq<AddPair>, w: seq<Word>)
      requires size >= 1
      modifies `dcount
      ensures IsAddRequest(cr, size, old(Client()), id, words, l, w)
      ensures dcount == Touch(old(dcount), words)
    {
      hide Touch, IsAddPair, LexLess;
      ghost var client := Client();
      var lines := AddLines(id, words);
      var sorted := Sort(lines, PairKey);
      SortSorts(lines, PairKey);
      WordsRearranged(sorted, lines);
      forall k | 0 <= k < |sorted|
        ensures sorted[k] in lines
      {
        assert sorted[k] in multiset(sorted);
      }
      l, w := CopyOut(sorted);
    }

    static method CopyOut(lines: seq<TokenPair>) returns (l: seq<AddPair>, w: seq<Word>)
      ensures |l| == |lines| && w == WordsOf(lines)
      ensures forall k | 0 <= k < |l| :: l[k] == AddPair(lines[k].l, lines[k].d, lines[k].r)
    {
      l, w := [], [];
      for i := 0 to |lines|
        invariant |l| == |w| == i
        invariant forall k | 0 <= k < i :: l[k] == AddPair(lines[k].l, lines[k].d, lines[k].r) && w[k] == lines[k].w
      {
        l, w := l + [AddPair(lines[i].l, lines[i].d, lines[i].r)], w + [lines[i].w];
      }
    }

    method AddLines(id: u64, words: seq<Word>) returns (lines: seq<TokenPair>)
      requires size >= 1
      modifies `dcount
      ensures dcount == Touch(old(dcount), words)
      ensures WordsOf(lines) == words
      ensures forall p | p in lines :: IsAddPair(cr, size, old(Client()), id, p.w, AddPair(p.l, p.d, p.r))
    {
      hide Touch, WordsOf;
      TouchStarts(dcount);
      lines := [];
      assert WordsOf(lines) == [];
      for i := 0 to |words|
        invariant dcount == Touch(old(dcount), words[..i])
        invariant unchanged(`key, `kplus, `kminus, `version)
        invariant WordsOf(lines) == words[..i]
        invariant forall p | p in lines :: IsAddPair(cr, size, old(Client()), id, p.w, AddPair(p.l, p.d, p.r))
      {
        TouchStep(old(dcount), words, i);
        dcount := dcount[words[i] := CountOf(dcount, words[i])];
        var line := AddLine(id, words[i]);
        WordsConcat(lines, [line]);
        WordsOfOne(line);
        assert words[..i + 1] == words[..i] + [words[i]];
        lines := lines + [line];
      }
      assert words[..|words|] == words;
    }

    method AddLine(id: u64, w: Word) returns (line: TokenPair)
      requires size >= 1 && w in dcount
      ensures line.w == w && IsAddPair(cr, size, Client(), id, w, AddPair(line.l, line.d, line.r))
    {
      var k1plus, k2plus := MacKey(cr, kplus, TAG1, w), MacKey(cr, kplus, TAG2, w);
      var k1minus := MacKey(cr, kminus, TAG1, w);
      assert |Zeros(BlockBytes(size) - 24)| == BlockBytes(size) - 24;
      var tail: Bytes :| |tail| == BlockBytes(size) - 24;
      var ctext := EncryptLong(cr, k2plus, id);
      assert (ctext + tail)[..24] == ctext;
      line := TokenPair(w, MacLong(cr, k1plus, dcount[w]), ctext + tail, MacLong(cr, k1minus, id));
    }

    method AddServer(l: seq<AddPair>) returns (r: seq<byte>)
      modifies `srev, `dplus
      ensures (Server(), r) == CoreSpec.AddServer(old(Server()), l)
    {
      r := [];
      for i := 0 to |l|
        invariant (Server(), r) == CoreSpec.AddServer(old(Server()), l[..i])
        invariant unchanged(`version, `d, `a, `dirtyD)
      {
        var p := l[i];
        assert l[..i + 1][..i] == l[..i];
        if p.revId in srev {
          r := r + [1];
          srev := srev - {p.revId};
        } else if p.token in dplus {
          // "warning: token already in Dplus"
        } else {
          dplus := dplus[p.token := p.fileId];
          r := r + [0];
        }
      }
      assert l[..|l|] == l;
    }

    /** `ok` is false when the reply has a zero bit without a word: `W.at` throws. */
    method AddClient2(r: seq<byte>, w: seq<Word>) returns (ok: bool)
      modifies `dcount
      ensures (dcount, ok) == CoreSpec.AddClient2(old(dcount), r, w)
    {
      for i := 0 to |r|
        invariant (dcount, true) == CoreSpec.AddClient2(old(dcount), r[..i], w)
      {
        assert r[..i + 1][..i] == r[..i];
        if r[i] == 0 {
          if i >= |w| {
            ThrowEnds(old(dcount), r, w, i + 1);
            return false;
          }
          dcount := dcount[w[i] := U64(CountOf(dcount, w[i]) + 1)];
        }
      }
      assert r[..|r|] == r;
      ok := true;
    }

    // ---------------------------------------------------------------- delete

    method DeleteClient(id: u64, words: seq<Word>) returns (l: seq<Bytes>)
      ensures IsDeleteRequest(cr, Client(), id, words, l)
    {
      l := [];
      for i := 0 to |words|
        invariant l == RevIds(cr, Client(), id, words)[..i]
      {
        l := l + [MacLong(cr, MacKey(cr, kminus, TAG1, words[i]), id)];
      }
      assert l == RevIds(cr, Client(), id, words);
      SortSorts(l, (x: Bytes) => x);
      l := Sort(l, (x: Bytes) => x);
    }

    method DeleteServer(l: seq<Bytes>)
      modifies `srev
      ensures Server() == CoreSpec.DeleteServer(old(Server()), l)
    {
      for i := 0 to |l|
        invariant srev == old(srev) + set x | x in l[..i]
      {
        assert l[..i + 1] == l[..i] + [l[i]];
        srev := srev + {l[i]};
      }
      assert l[..|l|] == l;
    }
  }
}
