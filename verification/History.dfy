/**
 * What a history of requests means. The model is the system without encryption: for every word the list
 * given to Setup, the ids stored under its counters, the client's counter, and the revoked pairs. The
 * plain meaning is just a set of (word, id) pairs.
 */
module History {
  import opened Octets
  import opened CoreSpec
  import opened SetupProof

  /** Setup carries the counters its client had; they are empty for a new client. Words may repeat in an addition. */
  datatype Op =
    | SetupOp(version: int, lists: map<Word, seq<u64>>, counts: map<Word, u64>)
    | AddOp(id: u64, words: seq<Word>)
    | DeleteOp(id: u64, words: seq<Word>)

  datatype Model = Model(version: int, lists: map<Word, seq<u64>>, entries: map<(Word, u64), u64>,
                         counts: map<Word, u64>, revoked: set<(Word, u64)>)

  const EMPTY: Model := Model(BASIC, map[], map[], map[], {})

  function Pairs(id: u64, words: seq<Word>): set<(Word, u64)> { set w | w in words :: (w, id) }

  /** One pair clears a revocation, or is stored under the counter of its word, or is dropped without a bit. */
  function PutPair(m: Model, r: seq<byte>, id: u64, w: Word): (Model, seq<byte>) {
    var key := (w, CountOf(m.counts, w));
    if (w, id) in m.revoked then (m.(revoked := m.revoked - {(w, id)}), r + [1])
    else if key in m.entries then (m, r)
    else (m.(entries := m.entries[key := id]), r + [0])
  }

  function PutAll(m: Model, id: u64, words: seq<Word>): (Model, seq<byte>) {
    if words == [] then (m, [])
    else
      var (m', r) := PutAll(m, id, words[..|words| - 1]);
      PutPair(m', r, id, words[|words| - 1])
  }

  /** An addition stores its pairs; then the client counts bit i of the reply for word i. */
  function Apply(m: Model, op: Op): Model {
    match op
    case SetupOp(version, lists, counts) => Model(version, lists, map[], counts, {})
    case AddOp(id, words) =>
      var (m', r) := PutAll(m, id, words);
      m'.(counts := AddClient2(m'.counts, r, words).0)
    case DeleteOp(id, words) => m.(revoked := m.revoked + Pairs(id, words))
  }

  function ModelOf(h: seq<Op>): Model {
    if h == [] then EMPTY else Apply(ModelOf(h[..|h| - 1]), h[|h| - 1])
  }

  function Kept(revoked: set<(Word, u64)>, w: Word, ids: seq<u64>): seq<u64> {
    if ids == [] then []
    else (if (w, ids[0]) in revoked then [] else [ids[0]]) + Kept(revoked, w, ids[1..])
  }

  /** The ids under the counters of a word, up to the first counter without one. */
  function Found(entries: map<(Word, u64), u64>, w: Word, c: nat): (ids: seq<u64>)
    requires c <= TWO64
    ensures c + |ids| <= TWO64
    decreases TWO64 - c
  {
    if c < TWO64 && (w, c) in entries then [entries[(w, c)]] + Found(entries, w, c + 1) else []
  }

  function Loaded(m: Model, w: Word): seq<u64> { Delivered(m.version, At(m.lists, w)) }

  function Added(m: Model, w: Word): seq<u64> { Found(m.entries, w, 0) }

  /**
   * The answer to a search: the setup list, from which only Basic does not drop INVALID, then the ids
   * found under the counters, all without the revoked ones.
   */
  function Answer(m: Model, w: Word): seq<u64> {
    Kept(m.revoked, w, Loaded(m, w)) + Kept(m.revoked, w, Added(m, w))
  }

  // ---------------------------------------------------------------- the plain meaning

  /** Setup loads, Add inserts, Delete removes. */
  ghost predicate Holds(h: seq<Op>, w: Word, id: u64) {
    if h == [] then false
    else
      match h[|h| - 1]
      case SetupOp(_, lists, _) => id in At(lists, w)
      case AddOp(i, words) => (i == id && w in words) || Holds(h[..|h| - 1], w, id)
      case DeleteOp(i, words) => !(i == id && w in words) && Holds(h[..|h| - 1], w, id)
  }

  /** Packed and Pointer lose the id INVALID. */
  predicate Drops(op: Op) {
    op.SetupOp? && op.version != BASIC && exists w | w in op.lists :: INVALID in op.lists[w]
  }

  function Room(revoked: set<(Word, u64)>, id: u64, x: Word): nat { if (x, id) in revoked then 1 else 0 }

  /**
   * An addition appends to what is found for `x` if it names `x`, once more than a revocation absorbs,
   * and the client's counter stands where the entries of `x` end.
   */
  predicate Appends(m: Model, id: u64, words: seq<Word>, x: Word) {
    multiset(words)[x] > Room(m.revoked, id, x) && CountOf(m.counts, x) == |Added(m, x)|
  }

  /** An addition is lost on a pair that is not appended and was not there before, revoked or not. */
  predicate Lost(m: Model, op: Op) {
    && op.AddOp?
    && exists w | w in op.words :: !Appends(m, op.id, op.words, w) && op.id !in At(m.lists, w) && op.id !in Added(m, w)
  }

  ghost predicate NothingLost(h: seq<Op>) {
    forall n | 0 <= n < |h| :: !Drops(h[n]) && !Lost(ModelOf(h[..n]), h[n])
  }

  /** No counter can reach 2^64 in an addition. */
  ghost predicate NoWrap(h: seq<Op>) {
    forall n | 0 <= n < |h| :: Fits(ModelOf(h[..n]), h[n])
  }

  predicate Fits(m: Model, op: Op) {
    op.AddOp? ==> forall w | w in op.words :: CountOf(m.counts, w) + |op.words| < TWO64
  }

  // ---------------------------------------------------------------- one addition

  /** What an addition does to the entries and revocations of word `x`. */
  lemma {:induction false} PutEffect(m: Model, id: u64, words: seq<Word>, x: Word)
    ensures var (m', r) := PutAll(m, id, words); var k, n := CountOf(m.counts, x), multiset(words)[x];
            && m'.version == m.version && m'.lists == m.lists && m'.counts == m.counts && |r| <= |words|
            && (forall i: u64 :: (x, i) in m'.revoked <==> (x, i) in m.revoked && !(i == id && n > 0))
            && (forall c: u64 ::
                  (x, c) in m'.entries <==> (x, c) in m.entries || (c == k && n > Room(m.revoked, id, x)))
            && (forall c: u64 | (x, c) in m.entries :: m'.entries[(x, c)] == m.entries[(x, c)])
            && ((x, k) !in m.entries && n > Room(m.revoked, id, x) ==> m'.entries[(x, k)] == id)
  {
    if words != [] {
      var init, w := words[..|words| - 1], words[|words| - 1];
      assert words == init + [w];
      assert multiset(words)[x] == multiset(init)[x] + if w == x then 1 else 0;
      PutEffect(m, id, init, x);
      hide PutAll;
      PutLast(m, id, words);
    }
  }

  lemma PutLast(m: Model, id: u64, words: seq<Word>)
    requires words != []
    ensures var n := |words| - 1; var (m', r) := PutAll(m, id, words[..n]);
            PutAll(m, id, words) == PutPair(m', r, id, words[n])
    ensures PutAll(m, id, words[..|words| - 1]).0.counts == m.counts
  {
    CountsStay(m, id, words[..|words| - 1]);
  }

  lemma {:induction false} CountsStay(m: Model, id: u64, words: seq<Word>)
    ensures PutAll(m, id, words).0.counts == m.counts
  {
    if words != [] {
      CountsStay(m, id, words[..|words| - 1]);
    }
  }

  /** What is found for `x` when an entry may have been stored under counter `k`, with nothing behind it. */
  lemma {:induction false} FoundGrows(e: map<(Word, u64), u64>, e': map<(Word, u64), u64>, x: Word, k: u64, id: u64,
      stored: bool, c: nat)
    requires c <= TWO64
    requires forall i: u64 :: (x, i) in e' <==> (x, i) in e || (i == k && stored)
    requires forall i: u64 | (x, i) in e :: e'[(x, i)] == e[(x, i)]
    requires (x, k) !in e && stored ==> e'[(x, k)] == id && forall i: u64 | i > k :: (x, i) !in e
    ensures Found(e', x, c) == Found(e, x, c) + if stored && c + |Found(e, x, c)| == k then [id] else []
    decreases TWO64 - c
  {
    if c < TWO64 {
      FoundGrows(e, e', x, k, id, stored, c + 1);
      if (x, c) in e {
        assert Found(e, x, c) == [e[(x, c)]] + Found(e, x, c + 1);
      }
    }
    FoundEnds(e, x, c);
  }

  lemma {:induction false} FoundEnds(e: map<(Word, u64), u64>, x: Word, c: nat)
    requires c <= TWO64
    ensures var end := c + |Found(e, x, c)|;
            && (forall i: u64 | c <= i < end :: (x, i) in e && Found(e, x, c)[i - c] == e[(x, i)])
            && (end < TWO64 ==> (x, end) !in e)
    decreases TWO64 - c
  {
    if c < TWO64 && (x, c) in e {
      FoundEnds(e, x, c + 1);
      assert Found(e, x, c) == [e[(x, c)]] + Found(e, x, c + 1);
    }
  }

  /** No entry lies beyond the client's counter. */
  ghost predicate WellCounted(m: Model) {
    forall w, c | (w, c) in m.entries :: c <= CountOf(m.counts, w)
  }

  lemma CountUnfold(dcount: map<Word, u64>, r: seq<byte>, w: seq<Word>)
    requires r != [] && |r| <= |w|
    ensures var n := |r| - 1; var (counts, ok) := AddClient2(dcount, r[..n], w);
            var next := if r[n] == 0 then counts[w[n] := U64(CountOf(counts, w[n]) + 1)] else counts;
            ok ==> AddClient2(dcount, r, w) == (next, true)
  {
  }

  // The last bit of a reply.
  lemma CountStep(dcount: map<Word, u64>, r: seq<byte>, w: seq<Word>, x: Word)
    requires r != [] && |r| <= |w|
    requires var n := |r| - 1; var (counts, ok) := AddClient2(dcount, r[..n], w);
             ok && (r[n] == 0 ==> CountOf(counts, w[n]) < TWO64 - 1)
    ensures AddClient2(dcount, r, w).1
    ensures var n := |r| - 1;
            CountOf(AddClient2(dcount, r, w).0, x)
            == CountOf(AddClient2(dcount, r[..n], w).0, x) + if r[n] == 0 && w[n] == x then 1 else 0
  {
    hide AddClient2;
    CountUnfold(dcount, r, w);
  }

  lemma {:induction false} CountsGrow(dcount: map<Word, u64>, r: seq<byte>, w: seq<Word>, x: Word)
    requires |r| <= |w| && forall y | y in w :: CountOf(dcount, y) + |r| < TWO64
    ensures AddClient2(dcount, r, w).1
    ensures CountOf(dcount, x) <= CountOf(AddClient2(dcount, r, w).0, x) <= CountOf(dcount, x) + |r|
  {
    if r != [] {
      hide AddClient2;
      var n := |r| - 1;
      assert w[n] in w;
      CountsGrow(dcount, r[..n], w, x);
      CountsGrow(dcount, r[..n], w, w[n]);
      CountStep(dcount, r, w, x);
    }
  }

  lemma ApplyCounted(m: Model, op: Op)
    requires WellCounted(m) && Fits(m, op)
    ensures WellCounted(Apply(m, op))
  {
    hide PutAll, AddClient2;
    var m' := Apply(m, op);
    if op.AddOp? {
      forall w, c | (w, c) in m'.entries
        ensures c <= CountOf(m'.counts, w)
      {
        PutEffect(m, op.id, op.words, w);
        CountsGrow(m.counts, PutAll(m, op.id, op.words).1, op.words, w);
      }
    }
  }

  lemma {:induction false} AllCounted(h: seq<Op>)
    requires NoWrap(h)
    ensures WellCounted(ModelOf(h))
  {
    hide Apply, Fits;
    if h != [] {
      WrapPrefix(h, |h| - 1);
      AllCounted(h[..|h| - 1]);
      ApplyCounted(ModelOf(h[..|h| - 1]), h[|h| - 1]);
    }
  }

  lemma WrapPrefix(h: seq<Op>, n: nat)
    requires NoWrap(h) && n <= |h|
    ensures NoWrap(h[..n])
  {
    hide Fits, ModelOf;
    forall k | 0 <= k < n
      ensures Fits(ModelOf(h[..n][..k]), h[..n][k])
    {
      assert h[..n][..k] == h[..k];
    }
  }

  lemma LossPrefix(h: seq<Op>, n: nat)
    requires NothingLost(h) && n <= |h|
    ensures NothingLost(h[..n])
  {
    hide Lost, Drops, ModelOf;
    forall k | 0 <= k < n
      ensures !Drops(h[..n][k]) && !Lost(ModelOf(h[..n][..k]), h[..n][k])
    {
      assert h[..n][..k] == h[..k];
    }
  }

  /** What one operation does to the answers. */
  lemma ApplyFinds(m: Model, op: Op, w: Word)
    requires WellCounted(m)
    ensures var m' := Apply(m, op);
            match op
            case SetupOp(version, lists, _) =>
              && m'.lists == lists && Loaded(m', w) == Delivered(version, At(lists, w))
              && Added(m', w) == [] && m'.revoked == {}
            case AddOp(id, words) =>
              && m'.lists == m.lists && Loaded(m', w) == Loaded(m, w)
              && Added(m', w) == Added(m, w) + (if Appends(m, id, words, w) then [id] else [])
              && (Appends(m, id, words, w) ==> w in words)
              && (forall i: u64 :: (w, i) in m'.revoked <==> (w, i) in m.revoked && !(i == id && w in words))
            case DeleteOp(id, words) =>
              && m'.lists == m.lists && Loaded(m', w) == Loaded(m, w) && Added(m', w) == Added(m, w)
              && (forall i: u64 :: (w, i) in m'.revoked <==> (w, i) in m.revoked || (i == id && w in words))
  {
    hide PutAll, AddClient2, Delivered;
    if op.AddOp? {
      PutEffect(m, op.id, op.words, w);
      var k := CountOf(m.counts, w);
      FoundGrows(m.entries, PutAll(m, op.id, op.words).0.entries, w, k, op.id,
          multiset(op.words)[w] > Room(m.revoked, op.id, w), 0);
    }
  }

  // ---------------------------------------------------------------- membership

  lemma {:induction false} KeptHas(revoked: set<(Word, u64)>, w: Word, ids: seq<u64>, id: u64)
    ensures id in Kept(revoked, w, ids) <==> id in ids && (w, id) !in revoked
  {
    if ids != [] {
      KeptHas(revoked, w, ids[1..], id);
      assert ids == [ids[0]] + ids[1..];
    }
  }

  lemma AnswerHas(m: Model, w: Word, id: u64)
    ensures id in Answer(m, w) <==> (id in Loaded(m, w) || id in Added(m, w)) && (w, id) !in m.revoked
  {
    hide Kept;
    KeptHas(m.revoked, w, Loaded(m, w), id);
    KeptHas(m.revoked, w, Added(m, w), id);
  }

  // A setup list is answered without INVALID, in Basic with it.
  lemma LoadedHas(m: Model, w: Word, id: u64)
    ensures id in Loaded(m, w) <==> id in At(m.lists, w) && (m.version == BASIC || id != INVALID)
  {
    UsedHas(At(m.lists, w), id);
  }

  lemma {:induction false} UsedHas(ids: seq<u64>, id: u64)
    ensures id in Used(ids) <==> id in ids && id != INVALID
  {
    if ids != [] {
      UsedHas(ids[1..], id);
      assert ids == [ids[0]] + ids[1..];
    }
  }

  // If nothing was dropped, the lists are answered whole.
  lemma {:induction false} LoadedWhole(h: seq<Op>, w: Word, id: u64)
    requires NothingLost(h)
    ensures id in Loaded(ModelOf(h), w) <==> id in At(ModelOf(h).lists, w)
  {
    hide Lost, PutAll, AddClient2, Loaded;
    if h == [] {
      LoadedHas(EMPTY, w, id);
    } else {
      var init, op := h[..|h| - 1], h[|h| - 1];
      LossPrefix(h, |init|);
      LoadedWhole(init, w, id);
      LoadedHas(ModelOf(h), w, id);
      LoadedHas(ModelOf(init), w, id);
      if op.AddOp? {
        PutEffect(ModelOf(init), op.id, op.words, w);
      }
    }
  }

  // As long as nothing was lost, answers and plain meaning agree.
  lemma {:induction false} AnswersAgree(h: seq<Op>, w: Word, id: u64)
    requires NoWrap(h) && NothingLost(h)
    ensures id in Answer(ModelOf(h), w) <==> Holds(h, w, id)
  {
    hide Answer, Apply, Loaded, Added, NothingLost, NoWrap, Drops, Appends;
    AnswerHas(ModelOf(h), w, id);
    if h == [] {
      NothingThere(w, id);
    } else {
      var init, op := h[..|h| - 1], h[|h| - 1];
      WrapPrefix(h, |init|);
      LossPrefix(h, |init|);
      AnswersAgree(init, w, id);
      AnswerHas(ModelOf(init), w, id);
      LoadedWhole(h, w, id);
      LoadedWhole(init, w, id);
      AllCounted(init);
      ApplyFinds(ModelOf(init), op, w);
      LastKept(h);
    }
  }

  lemma LastKept(h: seq<Op>)
    requires NothingLost(h) && h != []
    ensures !Lost(ModelOf(h[..|h| - 1]), h[|h| - 1])
  {
    hide Lost, ModelOf;
  }

  lemma NothingThere(w: Word, id: u64)
    ensures id !in Answer(EMPTY, w)
  {
  }

  /** After the first `n` operations every answer is the plain meaning. */
  ghost predicate AgreesAt(h: seq<Op>, n: nat)
    requires n <= |h|
  {
    forall w, id :: id in Answer(ModelOf(h[..n]), w) <==> Holds(h[..n], w, id)
  }

  /**
   * At every point of a history all answers are the plain meaning, if and only if no Setup drops an id
   * and no addition loses one.
   */
  lemma SetMeaning(h: seq<Op>)
    requires NoWrap(h)
    ensures (forall n | 0 <= n <= |h| :: AgreesAt(h, n)) <==> NothingLost(h)
  {
    hide Answer, ModelOf, Holds, Drops, Lost, NoWrap;
    if NothingLost(h) {
      forall n, w, id | 0 <= n <= |h|
        ensures id in Answer(ModelOf(h[..n]), w) <==> Holds(h[..n], w, id)
      {
        WrapPrefix(h, n);
        LossPrefix(h, n);
        AnswersAgree(h[..n], w, id);
      }
      assert forall n | 0 <= n <= |h| :: AgreesAt(h, n);
    } else {
      var n :| 0 <= n < |h| && (Drops(h[n]) || Lost(ModelOf(h[..n]), h[n]));
      WrapPrefix(h, n);
      var w, id := LossShows(h[..n], h[n]);
      assert h[..n] + [h[n]] == h[..n + 1];
      assert !AgreesAt(h, n + 1);
    }
  }

  /** Right after an operation that loses a pair, it is missing from the answer. */
  lemma LossShows(h: seq<Op>, op: Op) returns (w: Word, id: u64)
    requires NoWrap(h) && (Drops(op) || Lost(ModelOf(h), op))
    ensures id !in Answer(ModelOf(h + [op]), w) && Holds(h + [op], w, id)
  {
    hide Answer, Apply, Loaded, Added, Appends, Delivered;
    var m, m' := ModelOf(h), ModelOf(h + [op]);
    assert (h + [op])[..|h|] == h;
    assert m' == Apply(m, op);
    AllCounted(h);
    if op.SetupOp? {
      w :| w in op.lists && INVALID in op.lists[w];
      id := INVALID;
      DeliveredHas(op.version, op.lists[w], id);
    } else {
      w :| w in op.words && !Appends(m, op.id, op.words, w) && op.id !in At(m.lists, w) && op.id !in Added(m, w);
      id := op.id;
      LoadedHas(m, w, id);
    }
    ApplyFinds(m, op, w);
    AnswerHas(m', w, id);
  }

  lemma DeliveredHas(version: int, ids: seq<u64>, id: u64)
    ensures id in Delivered(version, ids) <==> id in ids && (version == BASIC || id != INVALID)
  {
    UsedHas(ids, id);
  }

  // ---------------------------------------------------------------- duplicates

  predicate NoRepeat(ids: seq<u64>) {
    forall i, j | 0 <= i < j < |ids| :: ids[i] != ids[j]
  }

  /** Setup lists are delivered without repetition, and only absent pairs are appended. */
  ghost predicate Tidy(m: Model, op: Op) {
    match op
    case SetupOp(version, lists, _) => forall w :: NoRepeat(Delivered(version, At(lists, w)))
    case AddOp(id, words) => forall w | w in words && Appends(m, id, words, w) ::
        id !in Loaded(m, w) && id !in Added(m, w)
    case DeleteOp(_, _) => true
  }

  ghost predicate AllTidy(h: seq<Op>) {
    forall n | 0 <= n < |h| :: Tidy(ModelOf(h[..n]), h[n])
  }

  lemma {:induction false} KeptNoRepeat(revoked: set<(Word, u64)>, w: Word, ids: seq<u64>)
    requires NoRepeat(ids)
    ensures NoRepeat(Kept(revoked, w, ids))
  {
    if ids != [] {
      KeptNoRepeat(revoked, w, ids[1..]);
      KeptHas(revoked, w, ids[1..], ids[0]);
    }
  }

  lemma {:induction false} KeptConcat(revoked: set<(Word, u64)>, w: Word, xs: seq<u64>, ys: seq<u64>)
    ensures Kept(revoked, w, xs + ys) == Kept(revoked, w, xs) + Kept(revoked, w, ys)
  {
    if xs == [] {
      assert xs + ys == ys;
    } else {
      assert (xs + ys)[0] == xs[0] && (xs + ys)[1..] == xs[1..] + ys;
      KeptConcat(revoked, w, xs[1..], ys);
    }
  }

  lemma NoRepeatAppend(ids: seq<u64>, id: u64)
    requires NoRepeat(ids) && id !in ids
    ensures NoRepeat(ids + [id])
  {
  }

  // The stored ids of a word, revoked or not, are distinct throughout a tidy history.
  lemma {:induction false} StoredNoRepeat(h: seq<Op>, w: Word)
    requires NoWrap(h) && AllTidy(h)
    ensures var m := ModelOf(h); NoRepeat(Loaded(m, w) + Added(m, w))
  {
    hide Apply, Loaded, Added, Appends, NoWrap, Delivered, NoRepeat;
    if h == [] {
      NothingStored(w);
    } else {
      var init, op := h[..|h| - 1], h[|h| - 1];
      TidyPrefix(h, |init|);
      WrapPrefix(h, |init|);
      StoredNoRepeat(init, w);
      var m := ModelOf(init);
      assert Tidy(ModelOf(h[..|h| - 1]), h[|h| - 1]);
      AllCounted(init);
      ApplyFinds(m, op, w);
      match op
      case SetupOp(version, lists, _) =>
        assert Delivered(version, At(lists, w)) + [] == Delivered(version, At(lists, w));
      case AddOp(id, words) =>
        if Appends(m, id, words, w) {
          NoRepeatAppend(Loaded(m, w) + Added(m, w), id);
          assert Loaded(m, w) + (Added(m, w) + [id]) == (Loaded(m, w) + Added(m, w)) + [id];
        } else {
          assert Added(m, w) + [] == Added(m, w);
        }
      case DeleteOp(_, _) =>
    }
  }

  lemma NothingStored(w: Word)
    ensures NoRepeat(Loaded(EMPTY, w) + Added(EMPTY, w))
  {
  }

  lemma TidyPrefix(h: seq<Op>, n: nat)
    requires AllTidy(h) && n <= |h|
    ensures AllTidy(h[..n])
  {
    hide Tidy, ModelOf;
    forall k | 0 <= k < n
      ensures Tidy(ModelOf(h[..n][..k]), h[..n][k])
    {
      assert h[..n][..k] == h[..k];
    }
  }

  /**
   * No answer ever repeats an id, if and only if setup lists are delivered without repetition and only
   * absent pairs are appended: adding a revoked pair again clears the revocation instead.
   */
  lemma NoDuplicates(h: seq<Op>)
    requires NoWrap(h)
    ensures (forall n, w | 0 <= n <= |h| :: NoRepeat(Answer(ModelOf(h[..n]), w))) <==> AllTidy(h)
  {
    hide Answer, ModelOf, Tidy, NoWrap, NoRepeat;
    if AllTidy(h) {
      forall n, w | 0 <= n <= |h|
        ensures NoRepeat(Answer(ModelOf(h[..n]), w))
      {
        TidyPrefix(h, n);
        WrapPrefix(h, n);
        TidyAnswers(h[..n], w);
      }
    } else {
      var n :| 0 <= n < |h| && !Tidy(ModelOf(h[..n]), h[n]);
      WrapPrefix(h, n);
      var w := UntidyRepeats(h[..n], h[n]);
      assert h[..n] + [h[n]] == h[..n + 1];
    }
  }

  lemma TidyAnswers(h: seq<Op>, w: Word)
    requires NoWrap(h) && AllTidy(h)
    ensures NoRepeat(Answer(ModelOf(h), w))
  {
    hide Loaded, Added, ModelOf, NoWrap, AllTidy, NoRepeat, Kept;
    var m := ModelOf(h);
    StoredNoRepeat(h, w);
    KeptConcat(m.revoked, w, Loaded(m, w), Added(m, w));
    KeptNoRepeat(m.revoked, w, Loaded(m, w) + Added(m, w));
  }

  lemma {:induction false} KeepAll(revoked: set<(Word, u64)>, w: Word, ids: seq<u64>)
    requires forall id | id in ids :: (w, id) !in revoked
    ensures Kept(revoked, w, ids) == ids
  {
    if ids != [] {
      KeepAll(revoked, w, ids[1..]);
    }
  }

  lemma UntidyRepeats(h: seq<Op>, op: Op) returns (w: Word)
    requires NoWrap(h) && !Tidy(ModelOf(h), op)
    ensures !NoRepeat(Answer(ModelOf(h + [op]), w))
  {
    hide Apply, Loaded, Added, Appends, Kept, Delivered, NoRepeat;
    var m := ModelOf(h);
    assert (h + [op])[..|h|] == h && ModelOf(h + [op]) == Apply(m, op);
    AllCounted(h);
    match op
    case SetupOp(version, lists, _) =>
      w :| !NoRepeat(Delivered(version, At(lists, w)));
      ApplyFinds(m, op, w);
      KeepAll({}, w, Delivered(version, At(lists, w)));
      KeepAll({}, w, []);
      assert Delivered(version, At(lists, w)) + [] == Delivered(version, At(lists, w));
    case AddOp(id, words) =>
      w :| w in words && Appends(m, id, words, w) && (id in Loaded(m, w) || id in Added(m, w));
      ApplyFinds(m, op, w);
      PresentRepeats(Apply(m, op), w, Loaded(m, w) + Added(m, w), id);
      assert Loaded(m, w) + (Added(m, w) + [id]) == (Loaded(m, w) + Added(m, w)) + [id];
  }

  lemma PresentRepeats(m: Model, w: Word, ids: seq<u64>, id: u64)
    requires id in ids && (w, id) !in m.revoked && Loaded(m, w) + Added(m, w) == ids + [id]
    ensures !NoRepeat(Answer(m, w))
  {
    hide Kept, Loaded, Added;
    KeptConcat(m.revoked, w, Loaded(m, w), Added(m, w));
    KeptConcat(m.revoked, w, ids, [id]);
    KeptHas(m.revoked, w, ids, id);
    KeptHas(m.revoked, w, [id], id);
    var before, last := Kept(m.revoked, w, ids), Kept(m.revoked, w, [id]);
    assert Answer(m, w) == before + last;
    var i :| 0 <= i < |before| && before[i] == id;
    var j :| 0 <= j < |last| && last[j] == id;
    assert Answer(m, w)[i] == Answer(m, w)[|before| + j];
  }
}
