/** Facts about the functions of CoreSpec that both the methods of Core and the protocol proofs use. */
module SpecFacts {
  import opened Octets
  import opened Crypto
  import opened Ordering
  import opened CoreSpec

  function Min(a: nat, b: nat): nat { if a <= b then a else b }

  // ---------------------------------------------------------------- blocks

  lemma ChunksStep(values: seq<u64>, size: nat)
    requires size >= 1 && values != []
    ensures Chunks(values, size) != []
    ensures var n := Min(size, |values|);
            && Chunks(values, size)[0] == values[..n] + Padding(size - n)
            && Chunks(values, size)[1..] == Chunks(values[n..], size)
  {
  }

  lemma PointersStep(base: nat, count: nat, n: nat)
    requires n <= count
    ensures Pointers(base, count)[..n] == Pointers(base, n)
    ensures Pointers(base, count)[n..] == Pointers(base + n, count - n)
  {
  }

  lemma PointersAppend(base: nat, n: nat)
    ensures Pointers(base, n) + [U64(base + n)] == Pointers(base, n + 1)
    ensures Pointers(base, 0) == [] && EncodeBlock([]) == []
  {
  }

  lemma EncryptBlocksAppend(cr: Suite, k2: Bytes, blocks: seq<seq<u64>>, n: nat)
    requires n < |blocks|
    ensures EncryptBlocks(cr, k2, blocks[..n + 1])
            == EncryptBlocks(cr, k2, blocks[..n]) + [EncryptBlock(cr, k2, blocks[n])]
  {
  }

  lemma EncryptBlocksSplit(cr: Suite, k2: Bytes, blocks: seq<seq<u64>>, q: nat, n: nat)
    requires q + n <= |blocks|
    ensures blocks[q..][..n] == blocks[q..q + n] && blocks[q..][n..] == blocks[q + n..]
    ensures EncryptBlocks(cr, k2, blocks[..q]) + EncryptBlocks(cr, k2, blocks[q..][..n])
            == EncryptBlocks(cr, k2, blocks[..q + n])
  {
  }

  // One round of the pointer layout: `n` more blocks, and one more line that points to them.
  lemma PointerRound(cr: Suite, size: nat, key: Bytes, w: Word, blocks: seq<seq<u64>>, base: nat, q: nat, c: u64)
    requires size >= 1 && q < |blocks|
    ensures var left := |blocks| - q; var n := Min(size, left);
            && EncryptBlocks(cr, K2Of(cr, key, w), blocks[..q]) + EncryptBlocks(cr, K2Of(cr, key, w), blocks[q..][..n])
               == EncryptBlocks(cr, K2Of(cr, key, w), blocks[..q + n])
            && blocks[q..][n..] == blocks[q + n..]
            && WordLines(cr, size, key, w, Chunks(Pointers(base, left), size), c)
               == [SetupLine(size, MacLong(cr, K1Of(cr, key, w), c),
                   EncryptBlock(cr, K2Of(cr, key, w), Pointers(base, n) + Padding(size - n)))]
                  + WordLines(cr, size, key, w, Chunks(Pointers(base + n, left - n), size), c + 1)
  {
    hide Chunks, EncryptBlocks, Pointers, WordLines, SetupLine, EncryptBlock, MacLong, K1Of, K2Of;
    var left := |blocks| - q;
    var n := Min(size, left);
    ChunksStep(Pointers(base, left), size);
    PointersStep(base, left, n);
    WordLinesStep(cr, size, key, w, Chunks(Pointers(base, left), size), c);
    EncryptBlocksSplit(cr, K2Of(cr, key, w), blocks, q, n);
  }

  // One more line of a word, and one more word of the index.
  lemma WordLinesStep(cr: Suite, size: nat, key: Bytes, w: Word, blocks: seq<seq<u64>>, c: u64)
    requires blocks != []
    ensures WordLines(cr, size, key, w, blocks, c)
            == [SetupLine(size, MacLong(cr, K1Of(cr, key, w), c), EncryptBlock(cr, K2Of(cr, key, w), blocks[0]))]
               + WordLines(cr, size, key, w, blocks[1..], c + 1)
  {
    hide MacKey, MacLong, EncryptBlock, SetupLine;
  }

  lemma SetupLinesStep(cr: Suite, size: nat, version: int, key: Bytes, tokens: seq<Word>,
      fileids: map<Word, seq<u64>>, t: nat, base: nat)
    requires size >= 1 && Indexed(tokens, fileids) && t < |tokens|
    ensures var fids := fileids[tokens[t]];
            SetupLines(cr, size, version, key, tokens[t..], fileids, base)
            == WordLines(cr, size, key, tokens[t], IndexBlocks(version, size, fids, base), 0)
               + SetupLines(cr, size, version, key, tokens[t + 1..], fileids, base + |ArrayBlocks(version, size, fids)|)
  {
    hide WordLines, IndexBlocks, ArrayBlocks;
    assert tokens[t..][1..] == tokens[t + 1..];
  }

  lemma SetupArrayStep(cr: Suite, size: nat, version: int, key: Bytes, tokens: seq<Word>,
      fileids: map<Word, seq<u64>>, t: nat)
    requires size >= 1 && Indexed(tokens, fileids) && t < |tokens|
    ensures SetupArray(cr, size, version, key, tokens[t..], fileids)
            == EncryptBlocks(cr, K2Of(cr, key, tokens[t]), ArrayBlocks(version, size, fileids[tokens[t]]))
               + SetupArray(cr, size, version, key, tokens[t + 1..], fileids)
  {
    assert tokens[t..][1..] == tokens[t + 1..];
  }

  lemma SetupEnds(cr: Suite, size: nat, version: int, key: Bytes, tokens: seq<Word>, fileids: map<Word, seq<u64>>,
      base: nat)
    requires size >= 1 && Indexed(tokens, fileids)
    ensures SetupLines(cr, size, version, key, tokens[|tokens|..], fileids, base) == []
    ensures SetupArray(cr, size, version, key, tokens[|tokens|..], fileids) == []
  {
  }

  lemma NoBlocks(values: seq<u64>, size: nat)
    requires size >= 1
    ensures Chunks(values, size) == [] <==> values == []
  {
  }

  lemma NoLines(cr: Suite, size: nat, key: Bytes, w: Word, c: nat)
    ensures WordLines(cr, size, key, w, [], c) == []
  {
  }

  lemma EncodeAppend(values: seq<u64>, value: u64)
    ensures EncodeBlock(values + [value]) == EncodeBlock(values) + PutU64(value)
  {
    assert (values + [value])[..|values|] == values;
  }

  // Loop bound of the packed layout: c < ceil(n / size).
  lemma {:induction false} CeilBound(c: nat, n: nat, size: nat)
    requires size >= 1
    ensures c < (n + (size - 1)) / size <==> c * size < n
  {
    var q := (n + (size - 1)) / size;
    DivBounds(n + (size - 1), size);
    if c < q {
      MulMonotone(c + 1, q, size);
    } else {
      MulMonotone(q, c, size);
    }
  }

  lemma DivBounds(x: nat, y: nat)
    requires y >= 1
    ensures x / y * y <= x < x / y * y + y
  {
  }

  lemma MulMonotone(a: nat, b: nat, size: nat)
    requires a <= b
    ensures a * size <= b * size
  {
  }

  lemma NextOffset(c: nat, size: nat)
    requires size >= 1
    ensures (c + 1) * size == c * size + size && c <= c * size
  {
  }

  // ---------------------------------------------------------------- probing

  /** Under this key, no two counters have the same label. */
  ghost predicate CountersDistinct(cr: Suite, k1: Bytes) {
    forall c: u64, c': u64 | MacLong(cr, k1, c) == MacLong(cr, k1, c') :: c == c'
  }

  lemma CountersOfWord(cr: Suite, master: Bytes, vocabulary: set<Word>, w: Word)
    requires CollisionFree(cr, master, vocabulary) && w in vocabulary
    ensures CountersDistinct(cr, K1Of(cr, master, w))
  {
    forall c: u64, c': u64 | MacLong(cr, K1Of(cr, master, w), c) == MacLong(cr, K1Of(cr, master, w), c')
      ensures c == c'
    {
      assert Label(cr, master, w, c) == Label(cr, master, w, c');
    }
  }

  ghost function LabelsBelow(cr: Suite, k1: Bytes, c: nat): set<Bytes>
    requires c <= TWO64
  {
    if c == 0 then {} else LabelsBelow(cr, k1, c - 1) + {MacLong(cr, k1, c - 1)}
  }

  lemma {:induction false} LabelsBelowAre(cr: Suite, k1: Bytes, c: nat, l: Bytes)
    requires c <= TWO64
    ensures l in LabelsBelow(cr, k1, c) <==> exists i: u64 :: i < c && l == MacLong(cr, k1, i)
  {
    if c > 0 {
      LabelsBelowAre(cr, k1, c - 1, l);
      if exists i: u64 :: i < c && l == MacLong(cr, k1, i) {
        var i: u64 :| i < c && l == MacLong(cr, k1, i);
        assert i < c - 1 || i == c - 1;
      }
    }
  }

  lemma {:induction false} LabelsBelowSize(cr: Suite, k1: Bytes, c: nat)
    requires c <= TWO64 && CountersDistinct(cr, k1)
    ensures |LabelsBelow(cr, k1, c)| == c
  {
    if c > 0 {
      LabelsBelowSize(cr, k1, c - 1);
      LabelsBelowAre(cr, k1, c - 1, MacLong(cr, k1, c - 1));
    }
  }

  lemma SubsetSize<T>(a: set<T>, b: set<T>)
    requires a <= b
    ensures |a| <= |b|
  {
    assert |b - a| + |a| == |b| by { assert b == (b - a) + a; }
  }

  /** A counter below which every label is present is at most the size of the dictionary. */
  lemma CounterBounded(cr: Suite, k1: Bytes, c: nat, dict: map<Bytes, Bytes>)
    requires c <= TWO64 && CountersDistinct(cr, k1)
    requires forall i | 0 <= i < c :: MacLong(cr, k1, i) in dict
    ensures c <= |dict|
  {
    LabelsBelowSize(cr, k1, c);
    forall l | l in LabelsBelow(cr, k1, c)
      ensures l in dict
    {
      LabelsBelowAre(cr, k1, c, l);
    }
    SubsetSize(LabelsBelow(cr, k1, c), dict.Keys);
  }

  // What probing returns: the entries under consecutive labels, up to the first gap.
  lemma {:induction false} ProbeRange(cr: Suite, dict: map<Bytes, Bytes>, k1: Bytes, c: nat)
    requires c <= TWO64
    ensures var end := c + |Probe(cr, dict, k1, c)|;
            && end <= TWO64
            && (forall i | c <= i < end ::
                MacLong(cr, k1, i) in dict && Probe(cr, dict, k1, c)[i - c] == dict[MacLong(cr, k1, i)])
            && (end < TWO64 ==> MacLong(cr, k1, end) !in dict)
    decreases TWO64 - c
  {
    hide MacLong;
    if c < TWO64 && MacLong(cr, k1, c) in dict {
      ProbeRange(cr, dict, k1, c + 1);
      var rest := Probe(cr, dict, k1, c + 1);
      assert Probe(cr, dict, k1, c) == [dict[MacLong(cr, k1, c)]] + rest;
    }
  }

  /** A probing loop finds at most as many entries as there are, so it ends after one more probe. */
  lemma ProbeBounded(cr: Suite, dict: map<Bytes, Bytes>, k1: Bytes)
    requires CountersDistinct(cr, k1)
    ensures |Probe(cr, dict, k1, 0)| <= |dict|
  {
    ProbeRange(cr, dict, k1, 0);
    CounterBounded(cr, k1, |Probe(cr, dict, k1, 0)|, dict);
  }

  /** Probing is determined by where the run of present labels ends. */
  lemma {:induction false} ProbeIs(cr: Suite, dict: map<Bytes, Bytes>, k1: Bytes, c: nat, entries: seq<Bytes>)
    requires c + |entries| < TWO64
    requires forall i | c <= i < c + |entries| ::
            MacLong(cr, k1, i) in dict && dict[MacLong(cr, k1, i)] == entries[i - c]
    requires MacLong(cr, k1, c + |entries|) !in dict
    ensures Probe(cr, dict, k1, c) == entries
    decreases |entries|
  {
    if entries != [] {
      ProbeIs(cr, dict, k1, c + 1, entries[1..]);
      assert MacLong(cr, k1, c) in dict;
    }
  }

  // ---------------------------------------------------------------- filtering

  lemma {:induction false} LiveConcat(cr: Suite, k1minus: Bytes, srev: set<Bytes>, xs: seq<u64>, ys: seq<u64>)
    ensures Live(cr, k1minus, srev, xs + ys) == Live(cr, k1minus, srev, xs) + Live(cr, k1minus, srev, ys)
  {
    hide LiveId;
    if xs == [] {
      assert xs + ys == ys;
    } else {
      LiveConcat(cr, k1minus, srev, xs[1..], ys);
      assert (xs + ys)[0] == xs[0] && (xs + ys)[1..] == xs[1..] + ys;
    }
  }

  // ---------------------------------------------------------------- the probing loops

  /** Every counter below `c` has its label in the dictionary. */
  ghost predicate Counting(cr: Suite, dict: map<Bytes, Bytes>, k1: Bytes, c: nat) {
    c <= TWO64 && forall i | 0 <= i < c :: MacLong(cr, k1, i) in dict
  }

  // The counter does not reach 2^64, and the loop ends after at most |dict| + 1 probes.
  lemma CountingStep(cr: Suite, dict: map<Bytes, Bytes>, k1: Bytes, c: nat)
    requires CountersDistinct(cr, k1) && |dict| < TWO64 && Counting(cr, dict, k1, c)
    ensures c <= |dict|
    ensures MacLong(cr, k1, c) in dict ==> c < |dict| && Counting(cr, dict, k1, c + 1)
  {
    CounterBounded(cr, k1, c, dict);
    if MacLong(cr, k1, c) in dict {
      CounterBounded(cr, k1, c + 1, dict);
    }
  }

  // The entry a loop finds is one of the probed ones, so it can be read.
  lemma EntryProbed(cr: Suite, dict: map<Bytes, Bytes>, k1: Bytes, c: u64)
    requires Counting(cr, dict, k1, c + 1)
    ensures MacLong(cr, k1, c) in dict && dict[MacLong(cr, k1, c)] in Probe(cr, dict, k1, 0)
  {
    ProbeRange(cr, dict, k1, 0);
    var n := |Probe(cr, dict, k1, 0)|;
    assert n > c;
    assert Probe(cr, dict, k1, 0)[c - 0] == dict[MacLong(cr, k1, c)];
  }

  lemma EntryReadable(cr: Suite, size: nat, version: int, k2: Bytes, a: seq<Bytes>, dict: map<Bytes, Bytes>,
      k1: Bytes, c: u64)
    requires Counting(cr, dict, k1, c + 1)
    requires Readable(cr, size, version, k2, a, Probe(cr, dict, k1, 0))
    ensures MacLong(cr, k1, c) in dict
    ensures Readable(cr, size, version, k2, a, [dict[MacLong(cr, k1, c)]])
    ensures var e := dict[MacLong(cr, k1, c)]; if version == BASIC then |e| >= 24 else |e| == BlockBytes(size)
  {
    hide Probe, MacLong, DecryptBytes, DecodeBlock;
    EntryProbed(cr, dict, k1, c);
  }

  /** The ids still to come from counter `c` on. */
  function Remaining(cr: Suite, size: nat, version: int, k2: Bytes, a: seq<Bytes>, k1minus: Bytes, srev: set<Bytes>,
      dict: map<Bytes, Bytes>, k1: Bytes, c: nat): seq<u64>
    requires c <= TWO64
  {
    Live(cr, k1minus, srev, Gather(cr, size, version, k2, a, Probe(cr, dict, k1, c)))
  }

  lemma SearchIsRemaining(cr: Suite, size: nat, s: ServerState, t: Trapdoor)
    ensures Search(cr, size, s, t)
            == Remaining(cr, size, s.version, t.k2, s.a, t.k1minus, s.srev, s.d, t.k1, 0)
               + Remaining(cr, size, BASIC, t.k2plus, [], t.k1minus, s.srev, s.dplus, t.k1plus, 0)
  {
  }

  lemma RemainingStep(cr: Suite, size: nat, version: int, k2: Bytes, a: seq<Bytes>, k1minus: Bytes, srev: set<Bytes>,
      dict: map<Bytes, Bytes>, k1: Bytes, c: u64)
    ensures Remaining(cr, size, version, k2, a, k1minus, srev, dict, k1, c)
            == if MacLong(cr, k1, c) in dict
               then Live(cr, k1minus, srev, EntryIds(cr, size, version, k2, a, dict[MacLong(cr, k1, c)]))
                    + Remaining(cr, size, version, k2, a, k1minus, srev, dict, k1, c + 1)
               else []
  {
    hide EntryIds, MacLong;
    if MacLong(cr, k1, c) in dict {
      var e, rest := dict[MacLong(cr, k1, c)], Probe(cr, dict, k1, c + 1);
      assert Probe(cr, dict, k1, c) == [e] + rest;
      assert ([e] + rest)[1..] == rest;
      LiveConcat(cr, k1minus, srev, EntryIds(cr, size, version, k2, a, e), Gather(cr, size, version, k2, a, rest));
    }
  }

  // What one round of the loops appends.
  lemma LiveBasic(cr: Suite, size: nat, k2: Bytes, a: seq<Bytes>, k1minus: Bytes, srev: set<Bytes>, e: Bytes)
    requires |e| >= 24
    ensures var id := DecryptLong(cr, k2, e);
            Live(cr, k1minus, srev, EntryIds(cr, size, BASIC, k2, a, e))
                == if MacLong(cr, k1minus, id) in srev then [] else [id]
  {
    hide DecryptLong, MacLong;
    var id := DecryptLong(cr, k2, e);
    assert [id][1..] == [];
  }

  lemma LivePacked(cr: Suite, size: nat, k2: Bytes, a: seq<Bytes>, e: Bytes)
    requires |e| == BlockBytes(size)
    ensures EntryIds(cr, size, PACKED, k2, a, e) == Used(DecodeBlock(DecryptBytes(cr, k2, e), size))
  {
  }

  lemma LivePointer(cr: Suite, size: nat, k2: Bytes, a: seq<Bytes>, e: Bytes)
    requires |e| == BlockBytes(size) && Readable(cr, size, POINTERS, k2, a, [e])
    ensures PointersReadable(a, size, DecodeBlock(DecryptBytes(cr, k2, e), size))
    ensures EntryIds(cr, size, POINTERS, k2, a, e)
            == Follow(cr, size, k2, a, DecodeBlock(DecryptBytes(cr, k2, e), size))
  {
    assert e in [e];
  }

  lemma UsedStep(cr: Suite, k1minus: Bytes, srev: set<Bytes>, values: seq<u64>, i: nat)
    requires i <= |values|
    ensures Live(cr, k1minus, srev, Used(values[i..]))
            == if i == |values| then []
               else (if values[i] == INVALID || MacLong(cr, k1minus, values[i]) in srev then [] else [values[i]])
                    + Live(cr, k1minus, srev, Used(values[i + 1..]))
  {
    hide MacLong;
    if i < |values| {
      assert values[i..][1..] == values[i + 1..];
      LiveConcat(cr, k1minus, srev, if values[i] == INVALID then [] else [values[i]], Used(values[i + 1..]));
    }
  }

  /** Pointers in range lead to whole blocks. */
  ghost predicate PointersReadable(a: seq<Bytes>, size: nat, pointers: seq<u64>) {
    forall p | p in pointers :: p < |a| ==> |a[p]| == BlockBytes(size)
  }

  lemma PointerReadable(a: seq<Bytes>, size: nat, pointers: seq<u64>, i: nat)
    requires PointersReadable(a, size, pointers) && i < |pointers|
    ensures pointers[i] < |a| ==> |a[pointers[i]]| == BlockBytes(size)
  {
  }

  lemma FollowStep(cr: Suite, size: nat, k2: Bytes, a: seq<Bytes>, k1minus: Bytes, srev: set<Bytes>,
      pointers: seq<u64>, i: nat)
    requires i <= |pointers|
    requires PointersReadable(a, size, pointers)
    ensures Live(cr, k1minus, srev, Follow(cr, size, k2, a, pointers[i..]))
            == if i == |pointers| || pointers[i] == INVALID then []
               else (if pointers[i] < |a|
                     then Live(cr, k1minus, srev, Used(DecodeBlock(DecryptBytes(cr, k2, a[pointers[i]]), size)))
                     else [])
                    + Live(cr, k1minus, srev, Follow(cr, size, k2, a, pointers[i + 1..]))
  {
    hide MacLong, DecryptBytes, Used, DecodeBlock;
    if i < |pointers| && pointers[i] != INVALID {
      var p := pointers[i];
      assert p in pointers && pointers[i..][1..] == pointers[i + 1..];
      LiveConcat(cr, k1minus, srev,
        if p < |a| then Used(DecryptBlock(cr, k2, a[p], size)) else [],
        Follow(cr, size, k2, a, pointers[i + 1..]));
    }
  }

  // ---------------------------------------------------------------- requests

  function WordsOf(lines: seq<TokenPair>): (words: seq<Word>)
    ensures |words| == |lines|
  {
    seq<Word>(|lines|, i requires 0 <= i < |lines| => lines[i].w)
  }

  lemma WordsConcat(xs: seq<TokenPair>, ys: seq<TokenPair>)
    ensures WordsOf(xs + ys) == WordsOf(xs) + WordsOf(ys)
  {
  }

  lemma WordsOfOne(x: TokenPair)
    ensures WordsOf([x]) == [x.w] && WordsOf([]) == []
  {
  }

  // Take the first element out of both of two rearranged sequences.
  lemma TakeOut<T>(xs: seq<T>, ys: seq<T>) returns (k: nat)
    requires multiset(xs) == multiset(ys) && xs != []
    ensures k < |ys| && ys[k] == xs[0] && multiset(xs[1..]) == multiset(ys[..k] + ys[k + 1..])
  {
    var x := xs[0];
    assert xs == [x] + xs[1..];
    assert x in multiset(ys);
    k :| 0 <= k < |ys| && ys[k] == x;
    Without(ys, k);
    Without(xs, 0);
    assert xs[..0] + xs[1..] == xs[1..];
    Cancel(multiset(xs[1..]), multiset(ys[..k] + ys[k + 1..]), x);
  }

  lemma Cancel<T>(a: multiset<T>, b: multiset<T>, x: T)
    requires a + multiset{x} == b + multiset{x}
    ensures a == b
  {
    forall y
      ensures a[y] == b[y]
    {
      assert (a + multiset{x})[y] == (b + multiset{x})[y];
    }
  }

  lemma Without<T>(ys: seq<T>, k: nat)
    requires k < |ys|
    ensures multiset(ys) == multiset(ys[..k] + ys[k + 1..]) + multiset{ys[k]}
  {
    var front, back := ys[..k], ys[k + 1..];
    assert ys == front + ([ys[k]] + back);
    assert multiset(ys) == multiset(front) + multiset([ys[k]] + back);
  }

  lemma {:induction false} WordsRearranged(xs: seq<TokenPair>, ys: seq<TokenPair>)
    requires multiset(xs) == multiset(ys)
    ensures multiset(WordsOf(xs)) == multiset(WordsOf(ys))
  {
    hide WordsOf;
    if xs == [] {
      assert |ys| == |multiset(ys)|;
    } else {
      var k := TakeOut(xs, ys);
      var front, back := ys[..k], ys[k + 1..];
      WordsRearranged(xs[1..], front + back);
      assert xs == [xs[0]] + xs[1..] && ys == front + ([xs[0]] + back);
      WordsConcat([xs[0]], xs[1..]);
      WordsConcat([xs[0]], back);
      WordsConcat(front, [xs[0]] + back);
      WordsConcat(front, back);
      WordsOfOne(xs[0]);
    }
  }

  // After `W.at` throws nothing more is counted.
  lemma {:induction false} ThrowEnds(dcount: map<Word, u64>, r: seq<byte>, w: seq<Word>, i: nat)
    requires i <= |r| && !AddClient2(dcount, r[..i], w).1
    ensures AddClient2(dcount, r, w) == AddClient2(dcount, r[..i], w)
  {
    if i == |r| {
      assert r[..i] == r;
    } else {
      assert r[..|r| - 1][..i] == r[..i];
      ThrowEnds(dcount, r[..|r| - 1], w, i);
    }
  }

  /** AddClient2 throws if and only if a zero bit has no word. */
  lemma {:induction false} ThrowsIff(dcount: map<Word, u64>, r: seq<byte>, w: seq<Word>)
    ensures AddClient2(dcount, r, w).1 <==> forall i | |w| <= i < |r| :: r[i] != 0
  {
    if r != [] {
      ThrowsIff(dcount, r[..|r| - 1], w);
      assert forall i | 0 <= i < |r| - 1 :: r[..|r| - 1][i] == r[i];
    }
  }

  lemma TouchStarts(dcount: map<Word, u64>)
    ensures Touch(dcount, []) == dcount
  {
  }

  lemma TouchStep(dcount: map<Word, u64>, words: seq<Word>, i: nat)
    requires i < |words|
    ensures var t := Touch(dcount, words[..i]); Touch(dcount, words[..i + 1]) == t[words[i] := CountOf(t, words[i])]
    ensures CountOf(Touch(dcount, words[..i]), words[i]) == CountOf(dcount, words[i])
  {
    assert words[..i + 1] == words[..i] + [words[i]];
    assert forall x :: x in words[..i + 1] <==> x in words[..i] || x == words[i];
  }
}
