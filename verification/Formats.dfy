/** The file formats of src/storage.cpp: what the writers print and what the readers parse. */
module Formats {
  import opened Octets
  import opened Crypto
  import opened Streams

  const COLON: byte := 58
  const COMMA: byte := 44
  const NEWLINE: byte := 10
  const SPACE: byte := 32

  // A stretch of a file that is a concatenation.
  lemma Split(data: Bytes, q: nat, a: Bytes, b: Bytes)
    requires q + |a + b| <= |data| && data[q..q + |a + b|] == a + b
    ensures data[q..q + |a|] == a && data[q + |a|..q + |a| + |b|] == b
  {
    assert data[q..q + |a|] == data[q..q + |a + b|][..|a|];
    assert data[q + |a|..q + |a| + |b|] == data[q..q + |a + b|][|a|..];
  }

  lemma Stretch(data: Bytes, before: Bytes, e: Bytes)
    requires before + e <= data
    ensures data[|before|..|before| + |e|] == e
    ensures before != [] ==> data[|before| - 1] == before[|before| - 1]
  {
    assert data[|before|..|before| + |e|] == (before + e)[|before|..];
    assert before != [] ==> data[|before| - 1] == (before + e)[|before| - 1];
  }

  lemma PrefixOf(a: Bytes, b: Bytes, c: Bytes)
    requires a <= b <= c
    ensures a <= c
  {
  }

  // ---------------------------------------------------------------- netstrings

  function Netstring(s: Bytes): Bytes { Dec(|s|) + [COLON] + s + [COMMA] }

  function ReadString(s: Stream): (bool, Bytes, Stream) { ReadStringInto(s, []) }

  /**
   * True on success and on end of file; the caller looks at eofbit to tell them apart. Without a length
   * or a character behind it the variable keeps what it holds before.
   */
  function ReadStringInto(s: Stream, before: Bytes): (bool, Bytes, Stream)
  {
    var (s1, size) := ExtractU64(s);
    if s1.eof then (true, [], s1)
    else if s1.fail then (false, before, s1)
    else
      var (s2, c0) := ExtractChar(s1);
      if s2.fail then (false, before, s2)
      else
        var (s3, str) := ReadBytes(s2, size);
        var (s4, c1) := ExtractChar(s3);
        (!s4.fail && c0 == COLON && c1 == COMMA, str, s4)
  }

  // A stream only moves forward, and a string that was read took at least one byte.
  lemma ReadStringMoves(s: Stream)
    ensures var (ok, _, t) := ReadString(s); t.data == s.data && t.pos >= s.pos && (ok && !t.eof ==> t.pos > s.pos)
  {
  }

  // Where the stream ends up does not depend on the variable, and what is read well does not either.
  lemma SameString(s: Stream, before: Bytes)
    ensures ReadStringInto(s, before).0 == ReadString(s).0 && ReadStringInto(s, before).2 == ReadString(s).2
    ensures ReadString(s).0 ==> ReadStringInto(s, before).1 == ReadString(s).1
  {
  }

  /** Whatever bytes the payload has, the netstring behind optional white space is read back. */
  lemma NetstringRead(s: Stream, q: nat, payload: Bytes)
    requires |payload| < TWO64
    requires s.Good() && s.pos <= q && q + |Netstring(payload)| <= |s.data|
    requires forall i | s.pos <= i < q :: IsSpace(s.data[i])
    requires s.data[q..q + |Netstring(payload)|] == Netstring(payload)
    ensures ReadString(s) == (true, payload, s.(pos := q + |Netstring(payload)|))
  {
    hide Dec, ExtractU64, ExtractNumber;
    NetstringFields(s.data, q, payload);
    var n := q + |Dec(|payload|)|;
    ExtractDecU64(s, q, |payload|);
    SkipsSpaces(s.data, n, n);
    SkipsSpaces(s.data, n + 1 + |payload|, n + 1 + |payload|);
    var s1, s2, s3 := s.(pos := n), s.(pos := n + 1), s.(pos := n + 1 + |payload|);
    assert ExtractU64(s) == (s1, |payload|) && ExtractChar(s1) == (s2, COLON);
    assert ReadBytes(s2, |payload|) == (s3, payload);
  }

  lemma NetstringFields(data: Bytes, q: nat, payload: Bytes)
    requires q + |Netstring(payload)| <= |data| && data[q..q + |Netstring(payload)|] == Netstring(payload)
    ensures var n := q + |Dec(|payload|)|;
            && |Netstring(payload)| == n - q + |payload| + 2
            && data[q..n] == Dec(|payload|) && data[n] == COLON
            && data[n + 1..n + 1 + |payload|] == payload && data[n + 1 + |payload|] == COMMA
  {
    hide Dec;
    var n := q + |Dec(|payload|)|;
    Split(data, q, Dec(|payload|) + [COLON] + payload, [COMMA]);
    Split(data, q, Dec(|payload|) + [COLON], payload);
    Split(data, q, Dec(|payload|), [COLON]);
    assert data[n] == data[n..n + 1][0] && data[n + 1 + |payload|] == data[n + 1 + |payload|..n + 2 + |payload|][0];
  }

  // ---------------------------------------------------------------- D and Dplus

  function Entry(k: Bytes, v: Bytes): Bytes { k + Netstring(v) }

  function PrintEntries(order: seq<Bytes>, m: map<Bytes, Bytes>): Bytes
    requires forall k | k in order :: k in m
  {
    if order == [] then [] else PrintEntries(order[..|order| - 1], m) + Entry(order[|order| - 1], m[order[|order| - 1]])
  }

  predicate NoRepeats<T(==)>(order: seq<T>) {
    forall i, j | 0 <= i < j < |order| :: order[i] != order[j]
  }

  /** What writeMap keeps: the entries whose key is KEYLEN bytes long. */
  function Keep32(m: map<Bytes, Bytes>): map<Bytes, Bytes> {
    map k | k in m && |k| == KEYLEN :: m[k]
  }

  /** The file writeMap may print, in whatever order the map is traversed. */
  ghost predicate IsMapFile(file: Bytes, m: map<Bytes, Bytes>) {
    exists order: seq<Bytes> :: PrintsMap(file, m, order)
  }

  ghost predicate PrintsMap(file: Bytes, m: map<Bytes, Bytes>, order: seq<Bytes>) {
    && NoRepeats(order)
    && (forall k :: k in order <==> k in Keep32(m))
    && file == PrintEntries(order, m)
  }

  function ReadMap(s: Stream, m: map<Bytes, Bytes>): (bool, map<Bytes, Bytes>)
    decreases |s.data| - s.pos
  {
    var (s1, k) := ReadBytes(s, KEYLEN);
    if s1.eof then (true, m)
    else
      var (ok, v, s2) := ReadString(s1);
      if !ok || s2.eof then (false, m)
      else
        ReadStringMoves(s1);
        ReadMap(s2, m[k := v])
  }

  lemma ReadMapStep(s: Stream, m: map<Bytes, Bytes>, k: Bytes, v: Bytes)
    requires s.Good() && |k| == KEYLEN && |v| < TWO64
    requires s.pos + |Entry(k, v)| <= |s.data| && s.data[s.pos..s.pos + |Entry(k, v)|] == Entry(k, v)
    ensures ReadMap(s, m) == ReadMap(s.(pos := s.pos + |Entry(k, v)|), m[k := v])
  {
    hide ReadString, Netstring;
    var e := Entry(k, v);
    assert e[..KEYLEN] == k && e[KEYLEN..] == Netstring(v);
    assert forall i | 0 <= i < |e| :: s.data[s.pos + i] == e[i];
    assert s.data[s.pos..s.pos + KEYLEN] == k;
    var s1 := s.(pos := s.pos + KEYLEN);
    assert ReadBytes(s, KEYLEN) == (s1, k);
    assert s.data[s1.pos..s1.pos + |Netstring(v)|] == Netstring(v);
    NetstringRead(s1, s1.pos, v);
  }

  ghost predicate Payloads(m: map<Bytes, Bytes>) {
    forall k | k in m :: |m[k]| < TWO64
  }

  function Merge<K, V>(acc: map<K, V>, order: seq<K>, m: map<K, V>): map<K, V>
    requires forall k | k in order :: k in m
  {
    acc + map k | k in order :: m[k]
  }

  lemma MergeStep<K, V>(acc: map<K, V>, order: seq<K>, m: map<K, V>, n: nat)
    requires (forall k | k in order :: k in m) && n < |order|
    ensures Merge(acc, order[..n + 1], m) == Merge(acc, order[..n], m)[order[n] := m[order[n]]]
    ensures Merge(acc, order[..0], m) == acc
    ensures order[..n + 1][..n] == order[..n] && order[..n + 1][n] == order[n]
  {
    assert order[..n + 1] == order[..n] + [order[n]];
  }

  lemma MergeAll<K, V>(acc: map<K, V>, order: seq<K>, m: map<K, V>)
    requires forall k :: k in order <==> k in m
    ensures Merge(acc, order[..|order|], m) == acc + m
  {
    assert order[..|order|] == order;
  }

  lemma MergeKeep(acc: map<Bytes, Bytes>, order: seq<Bytes>, m: map<Bytes, Bytes>)
    requires forall k :: k in order <==> k in Keep32(m)
    ensures Merge(acc, order, m) == acc + Keep32(m)
  {
  }

  // The reader takes the entries that a file begins with, one after the other.
  lemma {:induction false} ReadEntries(file: Bytes, order: seq<Bytes>, m: map<Bytes, Bytes>, n: nat,
      acc: map<Bytes, Bytes>)
    requires (forall k | k in order :: k in m && |k| == KEYLEN) && Payloads(m)
    requires PrintEntries(order, m) <= file && n <= |order|
    ensures |PrintEntries(order[..n], m)| <= |file|
    ensures ReadMap(Open(file), acc)
            == ReadMap(Input(file, |PrintEntries(order[..n], m)|, false, false), Merge(acc, order[..n], m))
  {
    hide ReadMap, Entry, Merge, PrintEntries;
    if n == 0 {
      PrintPrefix(order, m, 0);
      PrintEntriesEnds(order, m, acc);
    } else {
      var k, before := order[n - 1], PrintEntries(order[..n - 1], m);
      ReadEntries(file, order, m, n - 1, acc);
      PrintPrefix(order, m, n);
      PrintPrefix(order, m, n - 1);
      MergeStep(acc, order, m, n - 1);
      PrintEntriesStep(order, m, n - 1);
      PrefixOf(before + Entry(k, m[k]), PrintEntries(order, m), file);
      Stretch(file, before, Entry(k, m[k]));
      ReadMapStep(Input(file, |before|, false, false), Merge(acc, order[..n - 1], m), k, m[k]);
    }
  }

  lemma PrintEntriesStep(order: seq<Bytes>, m: map<Bytes, Bytes>, n: nat)
    requires (forall k | k in order :: k in m) && n < |order|
    ensures PrintEntries(order[..n + 1], m) == PrintEntries(order[..n], m) + Entry(order[n], m[order[n]])
  {
    assert order[..n + 1][..n] == order[..n];
  }

  lemma PrintEntriesEnds(order: seq<Bytes>, m: map<Bytes, Bytes>, acc: map<Bytes, Bytes>)
    requires forall k | k in order :: k in m
    ensures PrintEntries(order[..0], m) == [] && Merge(acc, order[..0], m) == acc
    ensures order[..|order|] == order
  {
  }

  lemma {:induction false} PrintPrefix(order: seq<Bytes>, m: map<Bytes, Bytes>, n: nat)
    requires (forall k | k in order :: k in m) && n <= |order|
    ensures PrintEntries(order[..n], m) <= PrintEntries(order, m)
  {
    if n < |order| {
      var init := order[..|order| - 1];
      assert init[..n] == order[..n];
      PrintPrefix(init, m, n);
    } else {
      assert order[..n] == order;
    }
  }

  /**
   * readMap adds what writeMap printed to the entries in memory: those with keys of KEYLEN bytes, with
   * arbitrary payloads.
   */
  lemma MapRoundTrip(file: Bytes, m: map<Bytes, Bytes>, acc: map<Bytes, Bytes>)
    requires IsMapFile(file, m) && Payloads(m)
    ensures ReadMap(Open(file), acc) == (true, acc + Keep32(m))
  {
    var order :| PrintsMap(file, m, order);
    assert forall k | k in order :: k in Keep32(m);
    hide PrintEntries, Merge;
    ReadEntries(file, order, m, |order|, acc);
    PrintEntriesEnds(order, m, acc);
    MergeKeep(acc, order, m);
  }

  // ---------------------------------------------------------------- Srev

  function PrintRevs(order: seq<Bytes>): Bytes {
    if order == [] then [] else PrintRevs(order[..|order| - 1]) + order[|order| - 1]
  }

  function Rev32(s: set<Bytes>): set<Bytes> { set v | v in s && |v| == KEYLEN }

  ghost predicate IsRevFile(file: Bytes, revs: set<Bytes>) {
    exists order: seq<Bytes> :: PrintsRevs(file, revs, order)
  }

  ghost predicate PrintsRevs(file: Bytes, revs: set<Bytes>, order: seq<Bytes>) {
    NoRepeats(order) && (forall v :: v in order <==> v in Rev32(revs)) && file == PrintRevs(order)
  }

  function ReadRevs(s: Stream, revs: set<Bytes>): set<Bytes>
    requires s.Good()
    decreases |s.data| - s.pos
  {
    var (s1, v) := ReadBytes(s, KEYLEN);
    if s1.eof then revs else ReadRevs(s1, revs + {v})
  }

  lemma {:induction false} PrintRevsSize(order: seq<Bytes>, n: nat)
    requires (forall v | v in order :: |v| == KEYLEN) && n <= |order|
    ensures |PrintRevs(order)| == KEYLEN * |order|
    ensures n < |order| ==> PrintRevs(order)[KEYLEN * n..KEYLEN * (n + 1)] == order[n]
  {
    if order != [] {
      var init := order[..|order| - 1];
      PrintRevsSize(init, if n < |init| then n else 0);
      if n < |init| {
        assert PrintRevs(order)[KEYLEN * n..KEYLEN * (n + 1)] == PrintRevs(init)[KEYLEN * n..KEYLEN * (n + 1)];
      }
    }
  }

  lemma {:induction false} ReadAllRevs(order: seq<Bytes>, n: nat, revs: set<Bytes>)
    requires (forall v | v in order :: |v| == KEYLEN) && n <= |order|
    requires KEYLEN * n <= |PrintRevs(order)|
    ensures ReadRevs(Input(PrintRevs(order), KEYLEN * n, false, false), revs) == revs + set v | v in order[n..]
    decreases |order| - n
  {
    PrintRevsSize(order, n);
    if n < |order| {
      ReadAllRevs(order, n + 1, revs + {order[n]});
      assert order[n..] == [order[n]] + order[n + 1..];
    }
  }

  lemma RevsRoundTrip(file: Bytes, revs: set<Bytes>)
    requires IsRevFile(file, revs)
    ensures ReadRevs(Open(file), {}) == Rev32(revs)
  {
    var order :| PrintsRevs(file, revs, order);
    ReadAllRevs(order, 0, {});
    assert order[0..] == order;
  }

  // ---------------------------------------------------------------- A

  function PrintBlocks(a: seq<Bytes>): Bytes {
    if a == [] then [] else PrintBlocks(a[..|a| - 1]) + Netstring(a[|a| - 1])
  }

  /**
   * A new empty block is pushed before it is known whether there is one to read; then the block at position
   * `i` is overwritten, which is an old one if the vector held any.
   */
  function ReadBlocksInto(s: Stream, a: seq<Bytes>, i: nat): (bool, seq<Bytes>)
    requires i <= |a|
    decreases |s.data| - s.pos
  {
    var pushed := a + [[]];
    var (ok, block, s1) := ReadStringInto(s, pushed[i]);
    var next := pushed[i := block];
    if !ok then (false, next)
    else if s1.eof then (true, next)
    else
      ReadStringMoves(s);
      SameString(s, pushed[i]);
      ReadBlocksInto(s1, next, i + 1)
  }

  // What a vector is after `n` empty strings were pushed and the first blocks were overwritten.
  function Overwrite(a0: seq<Bytes>, blocks: seq<Bytes>, n: nat): seq<Bytes>
    requires |blocks| <= n
  {
    blocks + (a0 + seq<Bytes>(n, _ => []))[|blocks|..]
  }

  lemma {:induction false} PrintBlocksPrefix(a: seq<Bytes>, n: nat)
    requires n <= |a|
    ensures PrintBlocks(a[..n]) <= PrintBlocks(a)
  {
    if n < |a| {
      assert a[..|a| - 1][..n] == a[..n];
      PrintBlocksPrefix(a[..|a| - 1], n);
    } else {
      assert a[..n] == a;
    }
  }

  lemma {:induction false} ReadSomeBlocks(file: Bytes, a: seq<Bytes>, n: nat, a0: seq<Bytes>)
    requires n <= |a| && (forall b | b in a :: |b| < TWO64) && PrintBlocks(a) <= file
    ensures |PrintBlocks(a[..n])| <= |file|
    ensures ReadBlocksInto(Open(file), a0, 0)
            == ReadBlocksInto(Input(file, |PrintBlocks(a[..n])|, false, false), Overwrite(a0, a[..n], n), n)
  {
    hide Netstring, PrintBlocks, ReadBlocksInto;
    PrintBlocksPrefix(a, n);
    if n == 0 {
      PrintBlocksEnds(a);
      assert Overwrite(a0, a[..0], 0) == a0;
    } else {
      var before := PrintBlocks(a[..n - 1]);
      ReadSomeBlocks(file, a, n - 1, a0);
      PrintBlocksPrefix(a, n - 1);
      PrintBlocksStep(a, n - 1);
      PrefixOf(before + Netstring(a[n - 1]), PrintBlocks(a), file);
      Stretch(file, before, Netstring(a[n - 1]));
      ReadBlocksStep(Input(file, |before|, false, false), a0, a[..n - 1], a[n - 1]);
    }
  }

  lemma ReadBlocksStep(s: Stream, a0: seq<Bytes>, blocks: seq<Bytes>, block: Bytes)
    requires s.Good() && |block| < TWO64
    requires s.pos + |Netstring(block)| <= |s.data| && s.data[s.pos..s.pos + |Netstring(block)|] == Netstring(block)
    ensures var n := |blocks|;
            ReadBlocksInto(s, Overwrite(a0, blocks, n), n)
            == ReadBlocksInto(s.(pos := s.pos + |Netstring(block)|), Overwrite(a0, blocks + [block], n + 1), n + 1)
  {
    hide ReadString, ReadStringInto, Netstring;
    var n := |blocks|;
    OverwriteStep(a0, blocks, block);
    NetstringRead(s, s.pos, block);
    SameString(s, (Overwrite(a0, blocks, n) + [[]])[n]);
  }

  lemma OverwriteStep(a0: seq<Bytes>, blocks: seq<Bytes>, block: Bytes)
    ensures var n := |blocks|;
            && |Overwrite(a0, blocks, n)| == |a0| + n
            && (Overwrite(a0, blocks, n) + [[]])[n := block] == Overwrite(a0, blocks + [block], n + 1)
  {
    var n := |blocks|;
    var x, y := (Overwrite(a0, blocks, n) + [[]])[n := block], Overwrite(a0, blocks + [block], n + 1);
    assert |x| == |y|;
    forall i | 0 <= i < |x|
      ensures x[i] == y[i]
    {
    }
  }

  lemma PrintBlocksStep(a: seq<Bytes>, n: nat)
    requires n < |a|
    ensures PrintBlocks(a[..n + 1]) == PrintBlocks(a[..n]) + Netstring(a[n])
    ensures a[..n + 1] == a[..n] + [a[n]]
  {
    assert a[..n + 1][..n] == a[..n];
  }

  lemma PrintBlocksEnds(a: seq<Bytes>)
    ensures PrintBlocks(a[..0]) == [] && a[..0] == [] && a[..|a|] == a
  {
  }

  /**
   * readBlocks writes the blocks over those that are there, then one empty block, and as many blocks as it
   * wrote are new at the end.
   */
  lemma BlocksRoundTrip(a: seq<Bytes>, a0: seq<Bytes>)
    requires forall b | b in a :: |b| < TWO64
    ensures ReadBlocksInto(Open(PrintBlocks(a)), a0, 0) == (true, Overwrite(a0, a + [[]], |a| + 1))
    ensures Overwrite([], a + [[]], |a| + 1) == a + [[]]
  {
    hide PrintBlocks, Overwrite;
    var file := PrintBlocks(a);
    ReadSomeBlocks(file, a, |a|, a0);
    assert a[..|a|] == a;
    OverwriteStep(a0, a, []);
    BlocksEnd(Input(file, |file|, false, false), Overwrite(a0, a, |a|), |a|);
    OverwriteNothing(a);
  }

  lemma BlocksEnd(s: Stream, a: seq<Bytes>, i: nat)
    requires s.Good() && s.pos == |s.data| && i <= |a|
    ensures ReadBlocksInto(s, a, i) == (true, (a + [[]])[i := []])
  {
    assert SkipSpace(s.data, s.pos) == |s.data|;
  }

  lemma OverwriteNothing(a: seq<Bytes>)
    ensures Overwrite([], a + [[]], |a| + 1) == a + [[]]
  {
  }

  // ---------------------------------------------------------------- Dcount

  function CountEntry(w: Word, v: u64): Bytes { Netstring(w) + Dec(v) + [NEWLINE] }

  function PrintCounts(order: seq<Word>, m: map<Word, u64>): Bytes
    requires forall w | w in order :: w in m
  {
    if order == [] then []
    else PrintCounts(order[..|order| - 1], m) + CountEntry(order[|order| - 1], m[order[|order| - 1]])
  }

  ghost predicate PrintsCounts(file: Bytes, m: map<Word, u64>, order: seq<Word>) {
    NoRepeats(order) && (forall w :: w in order <==> w in m) && file == PrintCounts(order, m)
  }

  ghost predicate IsCountFile(file: Bytes, m: map<Word, u64>) {
    exists order: seq<Word> :: PrintsCounts(file, m, order)
  }

  function ReadCounts(s: Stream, m: map<Word, u64>): (bool, map<Word, u64>)
    decreases |s.data| - s.pos
  {
    var (ok, token, s1) := ReadString(s);
    if !ok then (false, m)
    else if s1.eof then (true, m)
    else
      var (s2, v) := ExtractU64(s1);
      if s2.fail then (false, m)
      else
        ReadStringMoves(s);
        ReadCounts(s2, m[token := v])
  }

  // Where the reader stands behind the first entries: before the last line feed.
  function BeforeNewline(printed: nat): nat { if printed == 0 then 0 else printed - 1 }

  ghost predicate EndsLine(printed: Bytes) { printed == [] || printed[|printed| - 1] == NEWLINE }

  lemma CountFields(data: Bytes, q: nat, w: Word, v: u64)
    requires q + |CountEntry(w, v)| <= |data| && data[q..q + |CountEntry(w, v)|] == CountEntry(w, v)
    ensures var n, d := |Netstring(w)|, |Dec(v)|;
            && |CountEntry(w, v)| == n + d + 1
            && data[q..q + n] == Netstring(w) && data[q + n..q + n + d] == Dec(v) && data[q + n + d] == NEWLINE
  {
    hide Netstring, Dec;
    var n, d := |Netstring(w)|, |Dec(v)|;
    Split(data, q, Netstring(w) + Dec(v), [NEWLINE]);
    Split(data, q, Netstring(w), Dec(v));
    assert data[q + n + d] == data[q + n + d..q + n + d + 1][0];
  }

  lemma ReadCountStep(s: Stream, q: nat, m: map<Word, u64>, w: Word, v: u64)
    requires s.Good() && |w| < TWO64 && s.pos == BeforeNewline(q)
    requires q + |CountEntry(w, v)| <= |s.data| && s.data[q..q + |CountEntry(w, v)|] == CountEntry(w, v)
    requires q > 0 ==> s.data[q - 1] == NEWLINE
    ensures ReadCounts(s, m) == ReadCounts(s.(pos := BeforeNewline(q + |CountEntry(w, v)|)), m[w := v])
  {
    hide ReadString, Netstring, Dec, ExtractU64, CountEntry;
    var n, d := |Netstring(w)|, |Dec(v)|;
    CountFields(s.data, q, w, v);
    NetstringRead(s, q, w);
    var s1 := s.(pos := q + n);
    ExtractDecU64(s1, q + n, v);
    var s2 := s.(pos := q + n + d);
    assert ReadString(s) == (true, w, s1) && ExtractU64(s1) == (s2, v);
  }

  lemma {:induction false} CountsPrefix(order: seq<Word>, m: map<Word, u64>, n: nat)
    requires (forall w | w in order :: w in m) && n <= |order|
    ensures PrintCounts(order[..n], m) <= PrintCounts(order, m)
    ensures EndsLine(PrintCounts(order[..n], m))
  {
    if n < |order| {
      assert order[..|order| - 1][..n] == order[..n];
      CountsPrefix(order[..|order| - 1], m, n);
    } else {
      assert order[..n] == order;
    }
  }

  lemma {:induction false} ReadSomeCounts(file: Bytes, order: seq<Word>, m: map<Word, u64>, n: nat,
      acc: map<Word, u64>)
    requires (forall w | w in order :: w in m && |w| < TWO64) && n <= |order| && PrintCounts(order, m) <= file
    ensures |PrintCounts(order[..n], m)| <= |file|
    ensures ReadCounts(Open(file), acc)
            == ReadCounts(Input(file, BeforeNewline(|PrintCounts(order[..n], m)|), false, false),
                Merge(acc, order[..n], m))
  {
    hide ReadCounts, CountEntry, Merge, PrintCounts;
    if n == 0 {
      CountsPrefix(order, m, 0);
      PrintCountsEnds(order, m, acc);
    } else {
      var w, before := order[n - 1], PrintCounts(order[..n - 1], m);
      ReadSomeCounts(file, order, m, n - 1, acc);
      CountsPrefix(order, m, n);
      CountsPrefix(order, m, n - 1);
      MergeStep(acc, order, m, n - 1);
      PrintCountsStep(order, m, n - 1);
      PrefixOf(before + CountEntry(w, m[w]), PrintCounts(order, m), file);
      Stretch(file, before, CountEntry(w, m[w]));
      ReadCountStep(Input(file, BeforeNewline(|before|), false, false), |before|,
          Merge(acc, order[..n - 1], m), w, m[w]);
    }
  }

  lemma PrintCountsStep(order: seq<Word>, m: map<Word, u64>, n: nat)
    requires (forall x | x in order :: x in m) && n < |order|
    ensures PrintCounts(order[..n + 1], m) == PrintCounts(order[..n], m) + CountEntry(order[n], m[order[n]])
  {
    assert order[..n + 1][..n] == order[..n];
  }

  lemma PrintCountsEnds(order: seq<Word>, m: map<Word, u64>, acc: map<Word, u64>)
    requires forall x | x in order :: x in m
    ensures PrintCounts(order[..0], m) == [] && Merge(acc, order[..0], m) == acc
    ensures order[..|order|] == order
  {
  }

  // With nothing but white space left, both readers stop.
  lemma AtEnd(s: Stream, counts: map<Word, u64>, names: map<u64, Bytes>)
    requires s.Good() && forall i | s.pos <= i < |s.data| :: IsSpace(s.data[i])
    ensures ReadCounts(s, counts) == (true, counts)
    ensures ReadNames(s, names) == (true, names)
  {
    SkipsSpaces(s.data, s.pos, |s.data|);
    assert ExtractU64(s) == (Input(s.data, |s.data|, true, true), 0);
  }

  lemma LastLine(file: Bytes, counts: map<Word, u64>, names: map<u64, Bytes>)
    requires EndsLine(file)
    ensures ReadCounts(Input(file, BeforeNewline(|file|), false, false), counts) == (true, counts)
    ensures ReadNames(Input(file, BeforeNewline(|file|), false, false), names) == (true, names)
  {
    hide ReadCounts, ReadNames;
    AtEnd(Input(file, BeforeNewline(|file|), false, false), counts, names);
  }

  /** readMapCount adds exactly what writeMapCount printed to the counters in memory. */
  lemma CountsRoundTrip(file: Bytes, m: map<Word, u64>, acc: map<Word, u64>)
    requires IsCountFile(file, m) && forall w | w in m :: |w| < TWO64
    ensures ReadCounts(Open(file), acc) == (true, acc + m)
  {
    var order :| PrintsCounts(file, m, order);
    hide PrintCounts, Merge, ReadCounts;
    ReadSomeCounts(file, order, m, |order|, acc);
    PrintCountsEnds(order, m, acc);
    MergeAll(acc, order, m);
    CountsPrefix(order, m, |order|);
    LastLine(file, acc + m, map[]);
  }

  // ---------------------------------------------------------------- fileidMap

  function NameEntry(id: u64, name: Bytes): Bytes { Dec(id) + [SPACE] + Netstring(name) + [NEWLINE] }

  function PrintNames(order: seq<u64>, m: map<u64, Bytes>): Bytes
    requires forall id | id in order :: id in m
  {
    if order == [] then []
    else PrintNames(order[..|order| - 1], m) + NameEntry(order[|order| - 1], m[order[|order| - 1]])
  }

  ghost predicate PrintsNames(file: Bytes, m: map<u64, Bytes>, order: seq<u64>) {
    NoRepeats(order) && (forall id :: id in order <==> id in m) && file == PrintNames(order, m)
  }

  ghost predicate IsNameFile(file: Bytes, m: map<u64, Bytes>) {
    exists order: seq<u64> :: PrintsNames(file, m, order)
  }

  function ReadNames(s: Stream, m: map<u64, Bytes>): (bool, map<u64, Bytes>)
    decreases |s.data| - s.pos
  {
    var (s1, id) := ExtractU64(s);
    if s1.eof then (true, m)
    else
      var (ok, name, s2) := ReadString(s1);
      if !ok || s2.eof then (false, m)
      else
        ReadStringMoves(s1);
        ReadNames(s2, m[id := name])
  }

  lemma NameFields(data: Bytes, q: nat, id: u64, name: Bytes)
    requires q + |NameEntry(id, name)| <= |data| && data[q..q + |NameEntry(id, name)|] == NameEntry(id, name)
    ensures var d, n := |Dec(id)|, |Netstring(name)|;
            && |NameEntry(id, name)| == d + n + 2
            && data[q..q + d] == Dec(id) && data[q + d] == SPACE
            && data[q + d + 1..q + d + 1 + n] == Netstring(name)
  {
    hide Netstring, Dec;
    var d := |Dec(id)|;
    Split(data, q, Dec(id) + [SPACE] + Netstring(name), [NEWLINE]);
    Split(data, q, Dec(id) + [SPACE], Netstring(name));
    Split(data, q, Dec(id), [SPACE]);
    assert data[q + d] == data[q + d..q + d + 1][0];
  }

  lemma ReadNameStep(s: Stream, q: nat, m: map<u64, Bytes>, id: u64, name: Bytes)
    requires s.Good() && |name| < TWO64 && s.pos == BeforeNewline(q)
    requires q + |NameEntry(id, name)| <= |s.data| && s.data[q..q + |NameEntry(id, name)|] == NameEntry(id, name)
    requires q > 0 ==> s.data[q - 1] == NEWLINE
    ensures ReadNames(s, m) == ReadNames(s.(pos := BeforeNewline(q + |NameEntry(id, name)|)), m[id := name])
  {
    hide ReadString, Netstring, Dec, ExtractU64, NameEntry;
    var d, n := |Dec(id)|, |Netstring(name)|;
    NameFields(s.data, q, id, name);
    ExtractDecU64(s, q, id);
    var s1 := s.(pos := q + d);
    NetstringRead(s1, q + d + 1, name);
    var s2 := s.(pos := q + d + 1 + n);
    assert ExtractU64(s) == (s1, id) && ReadString(s1) == (true, name, s2);
  }

  lemma {:induction false} NamesPrefix(order: seq<u64>, m: map<u64, Bytes>, n: nat)
    requires (forall id | id in order :: id in m) && n <= |order|
    ensures PrintNames(order[..n], m) <= PrintNames(order, m)
    ensures EndsLine(PrintNames(order[..n], m))
  {
    if n < |order| {
      assert order[..|order| - 1][..n] == order[..n];
      NamesPrefix(order[..|order| - 1], m, n);
    } else {
      assert order[..n] == order;
    }
  }

  lemma {:induction false} ReadSomeNames(file: Bytes, order: seq<u64>, m: map<u64, Bytes>, n: nat,
      acc: map<u64, Bytes>)
    requires (forall id | id in order :: id in m && |m[id]| < TWO64) && n <= |order| && PrintNames(order, m) <= file
    ensures |PrintNames(order[..n], m)| <= |file|
    ensures ReadNames(Open(file), acc)
            == ReadNames(Input(file, BeforeNewline(|PrintNames(order[..n], m)|), false, false),
                Merge(acc, order[..n], m))
  {
    hide ReadNames, NameEntry, Merge, PrintNames;
    if n == 0 {
      NamesPrefix(order, m, 0);
      PrintNamesEnds(order, m, acc);
    } else {
      var id, before := order[n - 1], PrintNames(order[..n - 1], m);
      ReadSomeNames(file, order, m, n - 1, acc);
      NamesPrefix(order, m, n);
      NamesPrefix(order, m, n - 1);
      MergeStep(acc, order, m, n - 1);
      PrintNamesStep(order, m, n - 1);
      PrefixOf(before + NameEntry(id, m[id]), PrintNames(order, m), file);
      Stretch(file, before, NameEntry(id, m[id]));
      ReadNameStep(Input(file, BeforeNewline(|before|), false, false), |before|, Merge(acc, order[..n - 1], m),
          id, m[id]);
    }
  }

  lemma PrintNamesStep(order: seq<u64>, m: map<u64, Bytes>, n: nat)
    requires (forall x | x in order :: x in m) && n < |order|
    ensures PrintNames(order[..n + 1], m) == PrintNames(order[..n], m) + NameEntry(order[n], m[order[n]])
  {
    assert order[..n + 1][..n] == order[..n];
  }

  lemma PrintNamesEnds(order: seq<u64>, m: map<u64, Bytes>, acc: map<u64, Bytes>)
    requires forall x | x in order :: x in m
    ensures PrintNames(order[..0], m) == [] && Merge(acc, order[..0], m) == acc
    ensures order[..|order|] == order
  {
  }

  /** readFileidMap adds exactly what writeFileidMap printed to the names in memory. */
  lemma NamesRoundTrip(file: Bytes, m: map<u64, Bytes>, acc: map<u64, Bytes>)
    requires IsNameFile(file, m) && forall id | id in m :: |m[id]| < TWO64
    ensures ReadNames(Open(file), acc) == (true, acc + m)
  {
    var order :| PrintsNames(file, m, order);
    hide PrintNames, Merge, ReadNames;
    ReadSomeNames(file, order, m, |order|, acc);
    PrintNamesEnds(order, m, acc);
    MergeAll(acc, order, m);
    NamesPrefix(order, m, |order|);
    LastLine(file, map[], acc + m);
  }
}
