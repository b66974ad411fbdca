/**
 * Histories whose additions name distinct words: the system keeps plain lists of appended ids. And what
 * an addition with repeated words does to the agreement of counters and entries.
 */
module Orderly {
  import opened Octets
  import opened CoreSpec
  import opened SetupProof
  import opened History

  ghost predicate OrderlyAdds(h: seq<Op>) {
    forall n | 0 <= n < |h| && h[n].AddOp? :: Distinct(h[n].words)
  }

  /** The Setup in force; before the first one, an empty index. */
  function LastSetup(h: seq<Op>): (op: Op)
    ensures op.SetupOp?
  {
    if h == [] then SetupOp(BASIC, map[], map[])
    else if h[|h| - 1].SetupOp? then h[|h| - 1]
    else LastSetup(h[..|h| - 1])
  }

  /** The counter of a word when its index was set up: its entries begin there. */
  function OldCount(h: seq<Op>, w: Word): u64 { CountOf(LastSetup(h).counts, w) }

  /** The pairs deleted since Setup and not added again. */
  function Revoked(h: seq<Op>): set<(Word, u64)> {
    if h == [] then {}
    else
      match h[|h| - 1]
      case SetupOp(_, _, _) => {}
      case AddOp(id, words) => Revoked(h[..|h| - 1]) - Pairs(id, words)
      case DeleteOp(id, words) => Revoked(h[..|h| - 1]) + Pairs(id, words)
  }

  /** The ids added to a word since Setup, in order, where clearing a revocation adds none. */
  function Appended(h: seq<Op>, w: Word): seq<u64> {
    if h == [] then []
    else
      match h[|h| - 1]
      case SetupOp(_, _, _) => []
      case AddOp(id, words) =>
        Appended(h[..|h| - 1], w) + if w in words && (w, id) !in Revoked(h[..|h| - 1]) then [id] else []
      case DeleteOp(_, _) => Appended(h[..|h| - 1], w)
  }

  // ---------------------------------------------------------------- the machine keeps these lists

  lemma {:induction false} MachineKeeps(h: seq<Op>)
    ensures ModelOf(h).version == LastSetup(h).version && ModelOf(h).lists == LastSetup(h).lists
    ensures ModelOf(h).revoked == Revoked(h)
  {
    hide PutAll, AddClient2;
    if h != [] {
      var init, op := h[..|h| - 1], h[|h| - 1];
      MachineKeeps(init);
      var m := ModelOf(init);
      if op.AddOp? {
        PutEffect(m, op.id, op.words, []);
        forall x: (Word, u64)
          ensures x in ModelOf(h).revoked <==> x in Revoked(h)
        {
          PutEffect(m, op.id, op.words, x.0);
          assert x == (x.0, x.1);
        }
        assert ModelOf(h).revoked == Revoked(h);
      }
    }
  }

  lemma OnceOnly(words: seq<Word>, w: Word)
    requires Distinct(words)
    ensures multiset(words)[w] == if w in words then 1 else 0
  {
    if w in words {
      var i :| 0 <= i < |words| && words[i] == w;
      assert words == words[..i] + [w] + words[i + 1..];
      assert w !in words[..i] && w !in words[i + 1..];
      assert w !in multiset(words[..i]) && w !in multiset(words[i + 1..]);
    } else {
      assert w !in multiset(words);
    }
  }

  /** With distinct words and free counters, bit i says whether pair i cleared a revocation. */
  lemma {:induction false} DistinctReply(m: Model, id: u64, words: seq<Word>)
    requires Distinct(words) && forall w | w in words :: (w, CountOf(m.counts, w)) !in m.entries
    ensures var r := PutAll(m, id, words).1;
            |r| == |words| && forall i | 0 <= i < |r| :: r[i] == if (words[i], id) in m.revoked then 1 else 0
  {
    if words != [] {
      var init, w := words[..|words| - 1], words[|words| - 1];
      DistinctReply(m, id, init);
      assert w !in init && w !in multiset(init);
      PutEffect(m, id, init, w);
      hide PutAll;
      PutLast(m, id, words);
    }
  }

  /** AddClient2 counts every word with a zero bit, and nothing else. */
  lemma {:induction false} CountsMove(dcount: map<Word, u64>, r: seq<byte>, w: seq<Word>, x: Word)
    requires |r| <= |w| && Distinct(w)
    requires forall i | 0 <= i < |r| :: r[i] == 0 ==> CountOf(dcount, w[i]) < TWO64 - 1
    ensures AddClient2(dcount, r, w).1
    ensures CountOf(AddClient2(dcount, r, w).0, x)
            == CountOf(dcount, x) + if exists i :: 0 <= i < |r| && w[i] == x && r[i] == 0 then 1 else 0
  {
    if r != [] {
      hide AddClient2;
      var n := |r| - 1;
      CountsMove(dcount, r[..n], w, x);
      CountsMove(dcount, r[..n], w, w[n]);
      CountStep(dcount, r, w, x);
    }
  }

  lemma OrderlyPrefix(h: seq<Op>, n: nat)
    requires OrderlyAdds(h) && n <= |h|
    ensures OrderlyAdds(h[..n])
  {
  }

  /** The entries of a word are the appended ids, under the counters from the old one up to the client's. */
  ghost predicate EntriesAppended(h: seq<Op>, w: Word) {
    var m, first, ids := ModelOf(h), OldCount(h, w), Appended(h, w);
    && CountOf(m.counts, w) == first + |ids|
    && (forall c: u64 :: (w, c) in m.entries <==> first <= c < first + |ids|)
    && (forall c: u64 | first <= c < first + |ids| :: m.entries[(w, c)] == ids[c - first])
  }

  lemma {:induction false} OrderlyEntries(h: seq<Op>, w: Word)
    requires OrderlyAdds(h) && NoWrap(h)
    ensures EntriesAppended(h, w)
  {
    hide PutAll, AddClient2, Revoked, NoWrap;
    if h != [] {
      var init, op := h[..|h| - 1], h[|h| - 1];
      WrapPrefix(h, |init|);
      OrderlyPrefix(h, |init|);
      OrderlyEntries(init, w);
      if op.AddOp? {
        forall x | x in op.words
          ensures EntriesAppended(init, x)
        {
          OrderlyEntries(init, x);
        }
        LastFits(h);
        AddAppends(init, op.id, op.words, w);
      }
    }
  }

  lemma LastFits(h: seq<Op>)
    requires NoWrap(h) && h != []
    ensures Fits(ModelOf(h[..|h| - 1]), h[|h| - 1])
  {
    hide Fits, ModelOf;
  }

  lemma AddAppends(h: seq<Op>, id: u64, words: seq<Word>, w: Word)
    requires EntriesAppended(h, w) && (forall x | x in words :: EntriesAppended(h, x))
    requires Distinct(words) && Fits(ModelOf(h), AddOp(id, words))
    ensures var m := ModelOf(h); var (m', r) := PutAll(m, id, words);
            var counts := AddClient2(m.counts, r, words).0;
            var ids := Appended(h, w) + if w in words && (w, id) !in Revoked(h) then [id] else [];
            var first := OldCount(h, w);
            && m'.counts == m.counts && CountOf(counts, w) == first + |ids|
            && (forall c: u64 :: (w, c) in m'.entries <==> first <= c < first + |ids|)
            && (forall c: u64 | first <= c < first + |ids| :: m'.entries[(w, c)] == ids[c - first])
  {
    hide PutAll, AddClient2, Revoked, Appended, ModelOf, OldCount;
    var m := ModelOf(h);
    MachineKeeps(h);
    PutEffect(m, id, words, w);
    OnceOnly(words, w);
    forall x | x in words
      ensures (x, CountOf(m.counts, x)) !in m.entries
    {
      assert EntriesAppended(h, x);
    }
    DistinctReply(m, id, words);
    CountsMove(m.counts, PutAll(m, id, words).1, words, w);
    BitOf(m, id, words, PutAll(m, id, words).1, w);
  }

  lemma BitOf(m: Model, id: u64, words: seq<Word>, r: seq<byte>, w: Word)
    requires |r| == |words| && forall i | 0 <= i < |r| :: r[i] == if (words[i], id) in m.revoked then 1 else 0
    ensures (exists i :: 0 <= i < |r| && words[i] == w && r[i] == 0) <==> w in words && (w, id) !in m.revoked
  {
    if w in words && (w, id) !in m.revoked {
      var i :| 0 <= i < |words| && words[i] == w;
      assert r[i] == 0;
    }
  }

  lemma {:induction false} FoundIs(e: map<(Word, u64), u64>, w: Word, c: nat, ids: seq<u64>)
    requires c + |ids| < TWO64 && (w, c + |ids|) !in e
    requires forall i | c <= i < c + |ids| :: (w, i) in e && e[(w, i)] == ids[i - c]
    ensures Found(e, w, c) == ids
    decreases |ids|
  {
    if ids != [] {
      FoundIs(e, w, c + 1, ids[1..]);
      assert (w, c) in e && ids == [ids[0]] + ids[1..];
    }
  }

  /** The appended ids are found if and only if the client began to count at zero. */
  lemma AddedAre(h: seq<Op>, w: Word)
    requires OrderlyAdds(h) && NoWrap(h)
    ensures Added(ModelOf(h), w) == if OldCount(h, w) == 0 then Appended(h, w) else []
  {
    hide ModelOf, Appended, NoWrap, OldCount, Found;
    OrderlyEntries(h, w);
    var e, ids := ModelOf(h).entries, Appended(h, w);
    if OldCount(h, w) == 0 {
      assert CountOf(ModelOf(h).counts, w) == |ids|;
      FoundIs(e, w, 0, ids);
    } else {
      assert (w, 0) !in e;
      FoundIs(e, w, 0, []);
    }
  }

  /** What is left of the list given to Setup, from which only Basic does not drop INVALID. */
  function LoadedLeft(h: seq<Op>, w: Word): seq<u64> {
    Kept(Revoked(h), w, Delivered(LastSetup(h).version, At(LastSetup(h).lists, w)))
  }

  /** What is left of the ids added since. */
  function AppendedLeft(h: seq<Op>, w: Word): seq<u64> { Kept(Revoked(h), w, Appended(h, w)) }

  /** The answer in terms of the requests alone: ids added to a word that was counted before are not found. */
  lemma AnswerOfLists(h: seq<Op>, w: Word)
    requires OrderlyAdds(h) && NoWrap(h)
    ensures Answer(ModelOf(h), w) == LoadedLeft(h, w) + if OldCount(h, w) == 0 then AppendedLeft(h, w) else []
  {
    hide ModelOf, Appended, NoWrap, OldCount, Added, Revoked, LastSetup, Delivered;
    MachineKeeps(h);
    AddedAre(h, w);
  }

  /**
   * With distinct words, an addition is lost if and only if it names a pair that Setup did not load and
   * either the counter of its word is left from before Setup, or the pair is revoked and was never added.
   */
  lemma OrderlyLost(h: seq<Op>, id: u64, words: seq<Word>)
    requires OrderlyAdds(h) && NoWrap(h) && Distinct(words)
    ensures Lost(ModelOf(h), AddOp(id, words))
            <==> exists w | w in words ::
                   id !in At(LastSetup(h).lists, w)
                       && (OldCount(h, w) > 0 || ((w, id) in Revoked(h) && id !in Appended(h, w)))
  {
    hide ModelOf, Appended, NoWrap, OldCount, Added, Revoked, LastSetup;
    MachineKeeps(h);
    forall w | w in words
      ensures !Appends(ModelOf(h), id, words, w) && id !in Added(ModelOf(h), w)
              <==> OldCount(h, w) > 0 || ((w, id) in Revoked(h) && id !in Appended(h, w))
    {
      AddedAre(h, w);
      OnceOnly(words, w);
      OrderlyEntries(h, w);
    }
  }

  /**
   * An added pair is found afterwards: it is in the setup list, or its word was counted from zero and the
   * pair is not revoked, or was appended before it was revoked.
   */
  ghost predicate Sticks(h: seq<Op>, id: u64, w: Word) {
    || id in At(LastSetup(h).lists, w)
    || (OldCount(h, w) == 0 && ((w, id) !in Revoked(h) || id in Appended(h, w)))
  }

  /** Every id given to Setup is stored, and every addition sticks: said of the requests alone. */
  ghost predicate AllStick(h: seq<Op>) {
    forall n | 0 <= n < |h| ::
      && !Drops(h[n])
      && (h[n].AddOp? ==> forall w | w in h[n].words :: Sticks(h[..n], h[n].id, w))
  }

  lemma NothingLostIff(h: seq<Op>)
    requires OrderlyAdds(h) && NoWrap(h)
    ensures NothingLost(h) <==> AllStick(h)
  {
    hide ModelOf, NoWrap, Lost, Drops, Sticks;
    forall n | 0 <= n < |h| && h[n].AddOp?
      ensures Lost(ModelOf(h[..n]), h[n]) <==> exists w | w in h[n].words :: !Sticks(h[..n], h[n].id, w)
    {
      WrapPrefix(h, n);
      OrderlyPrefix(h, n);
      LostUnstuck(h[..n], h[n].id, h[n].words);
    }
    forall n | 0 <= n < |h| && !h[n].AddOp?
      ensures !Lost(ModelOf(h[..n]), h[n])
    {
      OnlyAddsLose(ModelOf(h[..n]), h[n]);
    }
  }

  lemma OnlyAddsLose(m: Model, op: Op)
    requires !op.AddOp?
    ensures !Lost(m, op)
  {
  }

  lemma LostUnstuck(h: seq<Op>, id: u64, words: seq<Word>)
    requires OrderlyAdds(h) && NoWrap(h) && Distinct(words)
    ensures Lost(ModelOf(h), AddOp(id, words)) <==> exists w | w in words :: !Sticks(h, id, w)
  {
    hide ModelOf, Appended, NoWrap, OldCount, Revoked, LastSetup, Lost;
    OrderlyLost(h, id, words);
  }

  // ---------------------------------------------------------------- the same requests

  /** Versions and counters aside the same request; only whether an old counter is zero matters. */
  ghost predicate SameRequest(a: Op, b: Op) {
    match a
    case SetupOp(_, lists, counts) =>
      b.SetupOp? && b.lists == lists && forall w :: CountOf(counts, w) == 0 <==> CountOf(b.counts, w) == 0
    case AddOp(id, words) => b.AddOp? && b.id == id && forall w :: w in words <==> w in b.words
    case DeleteOp(id, words) => b.DeleteOp? && b.id == id && forall w :: w in words <==> w in b.words
  }

  ghost predicate SameRequests(h: seq<Op>, h': seq<Op>) {
    |h| == |h'| && forall n | 0 <= n < |h| :: SameRequest(h[n], h'[n])
  }

  lemma {:induction false} SameLists(h: seq<Op>, h': seq<Op>, w: Word)
    requires SameRequests(h, h')
    ensures Revoked(h) == Revoked(h') && Appended(h, w) == Appended(h', w)
    ensures LastSetup(h).lists == LastSetup(h').lists && (OldCount(h, w) == 0 <==> OldCount(h', w) == 0)
  {
    if h != [] {
      var n := |h| - 1;
      SameLists(h[..n], h'[..n], w);
      assert SameRequest(h[n], h'[n]);
      if !h[n].SetupOp? {
        assert Pairs(h[n].id, h[n].words) == Pairs(h[n].id, h'[n].words);
      }
    }
  }

  lemma {:induction false} KeptUsed(revoked: set<(Word, u64)>, w: Word, ids: seq<u64>)
    ensures Kept(revoked, w, Used(ids)) == Kept(revoked, w, ids) <==> INVALID !in ids || (w, INVALID) in revoked
    ensures |Kept(revoked, w, Used(ids))| <= |Kept(revoked, w, ids)|
  {
    if ids != [] {
      KeptUsed(revoked, w, ids[1..]);
      assert ids == [ids[0]] + ids[1..];
      var rest, all := Used(ids[1..]), Kept(revoked, w, ids[1..]);
      var head := if (w, ids[0]) in revoked then [] else [ids[0]];
      assert Kept(revoked, w, ids) == head + all;
      if ids[0] == INVALID {
        assert Used(ids) == rest;
      } else {
        assert Used(ids)[0] == ids[0] && Used(ids)[1..] == rest;
        assert Kept(revoked, w, Used(ids)) == head + Kept(revoked, w, rest);
        SameHead(head, Kept(revoked, w, rest), all);
      }
    }
  }

  lemma SameHead(head: seq<u64>, xs: seq<u64>, ys: seq<u64>)
    ensures head + xs == head + ys <==> xs == ys
  {
    if head + xs == head + ys {
      assert xs == (head + xs)[|head|..] && ys == (head + xs)[|head|..];
    }
  }

  lemma SameTail(xs: seq<u64>, ys: seq<u64>, tail: seq<u64>)
    ensures xs + tail == ys + tail <==> xs == ys
  {
    if xs + tail == ys + tail {
      assert xs == (xs + tail)[..|xs|] && ys == (ys + tail)[..|xs|];
    }
  }

  /**
   * The same requests are answered alike in two versions, if and only if both or neither are Basic, or
   * the setup list does not contain INVALID, or that pair is deleted.
   */
  lemma VersionsAnswer(h: seq<Op>, h': seq<Op>, w: Word)
    requires OrderlyAdds(h) && NoWrap(h) && OrderlyAdds(h') && NoWrap(h') && SameRequests(h, h')
    ensures Answer(ModelOf(h), w) == Answer(ModelOf(h'), w)
            <==> (LastSetup(h).version == BASIC <==> LastSetup(h').version == BASIC)
                 || INVALID !in At(LastSetup(h).lists, w) || (w, INVALID) in Revoked(h)
  {
    hide ModelOf, Appended, NoWrap, OldCount, Answer, Revoked, LastSetup, Kept, Used, OrderlyAdds, SameRequests;
    AnswerOfLists(h, w);
    AnswerOfLists(h', w);
    SameLists(h, h', w);
    var ids := At(LastSetup(h).lists, w);
    var tail := if OldCount(h, w) == 0 then Kept(Revoked(h), w, Appended(h, w)) else [];
    SameTail(Kept(Revoked(h), w, Used(ids)), Kept(Revoked(h), w, ids), tail);
    KeptUsed(Revoked(h), w, ids);
  }

  // ---------------------------------------------------------------- repeated words

  /** The entries of every word lie from its old counter up to the client's counter, without a hole. */
  ghost predicate InStep(h: seq<Op>) {
    forall w :: InStepAt(ModelOf(h), OldCount(h, w), w)
  }

  ghost predicate InStepAt(m: Model, first: u64, w: Word) {
    first <= CountOf(m.counts, w) && forall c: u64 :: (w, c) in m.entries <==> first <= c < CountOf(m.counts, w)
  }

  lemma OrderlyInStep(h: seq<Op>)
    requires OrderlyAdds(h) && NoWrap(h)
    ensures InStep(h)
  {
    hide ModelOf, Appended, NoWrap, OldCount, OrderlyAdds;
    forall w
      ensures InStepAt(ModelOf(h), OldCount(h, w), w)
    {
      OrderlyEntries(h, w);
    }
  }

  /** The pairs that get a bit: a first pair of a word does, a second one if the first cleared a revocation. */
  function Answered(revoked: set<(Word, u64)>, id: u64, words: seq<Word>): (pos: seq<nat>)
    ensures |pos| <= |words|
    ensures forall i | 0 <= i < |pos| :: i <= pos[i] < |words|
    ensures forall i, j | 0 <= i < j < |pos| :: pos[i] < pos[j]
  {
    if words == [] then []
    else
      var init, x := words[..|words| - 1], words[|words| - 1];
      Answered(revoked, id, init) + if multiset(init)[x] <= Room(revoked, id, x) then [|init|] else []
  }

  /** How often a zero bit meets word `x`. */
  function ZeroBits(r: seq<byte>, w: seq<Word>, x: Word): nat
    requires |r| <= |w|
  {
    if r == [] then 0
    else ZeroBits(r[..|r| - 1], w, x) + if r[|r| - 1] == 0 && w[|r| - 1] == x then 1 else 0
  }

  function WordsAt(words: seq<Word>, pos: seq<nat>): (at: seq<Word>)
    requires forall i | 0 <= i < |pos| :: pos[i] < |words|
    ensures |at| == |pos|
  {
    seq<Word>(|pos|, i requires 0 <= i < |pos| => words[pos[i]])
  }

  lemma {:induction false} ZerosSame(r: seq<byte>, w: seq<Word>, v: seq<Word>, x: Word)
    requires |r| <= |w| && |r| <= |v| && forall i | 0 <= i < |r| :: r[i] == 0 ==> (w[i] == x <==> v[i] == x)
    ensures ZeroBits(r, w, x) == ZeroBits(r, v, x)
  {
    if r != [] {
      ZerosSame(r[..|r| - 1], w, v, x);
    }
  }

  lemma AnsweredLast(revoked: set<(Word, u64)>, id: u64, words: seq<Word>)
    requires words != []
    ensures var n := |words| - 1; var before := Answered(revoked, id, words[..n]);
            Answered(revoked, id, words)
            == before + if multiset(words[..n])[words[n]] <= Room(revoked, id, words[n]) then [n] else []
  {
  }

  lemma ZerosAppend(r: seq<byte>, b: byte, w: seq<Word>, x: Word)
    requires |r| < |w|
    ensures ZeroBits(r + [b], w, x) == ZeroBits(r, w, x) + if b == 0 && w[|r|] == x then 1 else 0
  {
    assert (r + [b])[..|r|] == r;
  }

  /** A reply has one bit for each answered pair, and a zero for each word with a new entry. */
  lemma {:induction false} ReplyAnswers(m: Model, id: u64, words: seq<Word>, x: Word)
    requires forall w | w in words :: (w, CountOf(m.counts, w)) !in m.entries
    ensures var r, pos := PutAll(m, id, words).1, Answered(m.revoked, id, words);
            |r| == |pos| && ZeroBits(r, WordsAt(words, pos), x)
                == if multiset(words)[x] > Room(m.revoked, id, x) then 1 else 0
  {
    if words != [] {
      hide PutAll, Answered, ZeroBits;
      var n := |words| - 1;
      var init, w := words[..n], words[n];
      assert words == init + [w];
      ReplyAnswers(m, id, init, x);
      PutEffect(m, id, init, w);
      PutLast(m, id, words);
      AnsweredLast(m.revoked, id, words);
      var r0, pos0 := PutAll(m, id, init).1, Answered(m.revoked, id, init);
      var pos := Answered(m.revoked, id, words);
      ZerosSame(r0, WordsAt(init, pos0), WordsAt(words, pos), x);
      if |pos| > |pos0| {
        var b: byte := if (w, id) in PutAll(m, id, init).0.revoked then 1 else 0;
        ZerosAppend(r0, b, WordsAt(words, pos), x);
        assert PutAll(m, id, words).1 == r0 + [b];
      } else {
        assert PutAll(m, id, words).1 == r0;
      }
    }
  }

  lemma {:induction false} CountsZeros(dcount: map<Word, u64>, r: seq<byte>, w: seq<Word>, x: Word)
    requires |r| <= |w| && forall y | y in w :: CountOf(dcount, y) + |r| < TWO64
    ensures CountOf(AddClient2(dcount, r, w).0, x) == CountOf(dcount, x) + ZeroBits(r, w, x)
  {
    if r != [] {
      hide AddClient2;
      var n := |r| - 1;
      assert w[n] in w;
      CountsZeros(dcount, r[..n], w, x);
      CountsGrow(dcount, r[..n], w, w[n]);
      CountStep(dcount, r, w, x);
    }
  }

  /** Equal words stand next to each other, as in a sorted request. */
  ghost predicate Grouped(words: seq<Word>) {
    forall i, j, k | 0 <= i < j < k < |words| && words[i] == words[k] :: words[j] == words[i]
  }

  /** Every zero bit meets the word whose pair was stored. */
  ghost predicate BitsMeet(r: seq<byte>, words: seq<Word>, pos: seq<nat>)
    requires |r| == |pos| <= |words| && forall i | 0 <= i < |pos| :: pos[i] < |words|
  {
    forall i | 0 <= i < |r| && r[i] == 0 :: words[i] == words[pos[i]]
  }

  lemma {:induction false} ZerosGrow(r: seq<byte>, n: nat, w: seq<Word>, x: Word)
    requires n <= |r| <= |w|
    ensures ZeroBits(r[..n], w, x) <= ZeroBits(r, w, x)
    ensures (forall i | n <= i < |r| :: w[i] != x) ==> ZeroBits(r[..n], w, x) == ZeroBits(r, w, x)
  {
    if n < |r| {
      assert r[..|r| - 1][..n] == r[..n];
      ZerosGrow(r[..|r| - 1], n, w, x);
    } else {
      assert r[..n] == r;
    }
  }

  // A word that another one follows does not come again.
  lemma NotLater(words: seq<Word>, pos: seq<nat>, k: nat, j: nat)
    requires Grouped(words) && k <= j < |pos| && k <= pos[k] <= pos[j] < |words| && words[k] != words[pos[k]]
    ensures words[pos[j]] != words[k]
  {
  }

  // The first zero bit that meets a wrong word is one too many for that word.
  lemma WrongCount(r: seq<byte>, words: seq<Word>, pos: seq<nat>, k: nat)
    requires |r| == |pos| <= |words| && Grouped(words)
    requires forall i | 0 <= i < |pos| :: i <= pos[i] < |words|
    requires forall i, j | 0 <= i < j < |pos| :: pos[i] < pos[j]
    requires k < |r| && r[k] == 0 && words[k] != words[pos[k]]
    requires forall i | 0 <= i < k && r[i] == 0 :: words[i] == words[pos[i]]
    ensures ZeroBits(r, words, words[k]) > ZeroBits(r, WordsAt(words, pos), words[k])
  {
    hide ZeroBits, Grouped;
    var x, v := words[k], WordsAt(words, pos);
    forall j | k <= j < |r|
      ensures v[j] != x
    {
      NotLater(words, pos, k, j);
    }
    ZerosGrow(r, k, v, x);
    ZerosSame(r[..k], words, v, x);
    ZerosGrow(r, k + 1, words, x);
    ZerosAppend(r[..k], r[k], words, x);
    assert r[..k + 1] == r[..k] + [r[k]];
  }

  lemma ZerosTell(r: seq<byte>, words: seq<Word>, pos: seq<nat>)
    requires |r| == |pos| <= |words| && Grouped(words)
    requires forall i | 0 <= i < |pos| :: i <= pos[i] < |words|
    requires forall i, j | 0 <= i < j < |pos| :: pos[i] < pos[j]
    ensures (forall x :: ZeroBits(r, words, x) == ZeroBits(r, WordsAt(words, pos), x)) <==> BitsMeet(r, words, pos)
  {
    if BitsMeet(r, words, pos) {
      forall x
        ensures ZeroBits(r, words, x) == ZeroBits(r, WordsAt(words, pos), x)
      {
        ZerosSame(r, words, WordsAt(words, pos), x);
      }
    } else {
      var k := FirstWrong(r, words, pos);
      WrongCount(r, words, pos, k);
    }
  }

  lemma {:induction false} FirstWrong(r: seq<byte>, words: seq<Word>, pos: seq<nat>) returns (k: nat)
    requires |r| == |pos| <= |words| && forall i | 0 <= i < |pos| :: pos[i] < |words|
    requires !BitsMeet(r, words, pos)
    ensures k < |r| && r[k] == 0 && words[k] != words[pos[k]]
    ensures forall i | 0 <= i < k && r[i] == 0 :: words[i] == words[pos[i]]
  {
    var n := |r| - 1;
    if BitsMeet(r[..n], words, pos[..n]) {
      k := n;
    } else {
      k := FirstWrong(r[..n], words, pos[..n]);
    }
  }

  /** Pair `i` is stored: the first pair of its word, or the second one if the first clears a revocation. */
  predicate StoresPair(revoked: set<(Word, u64)>, id: u64, words: seq<Word>, i: nat)
    requires i < |words|
  {
    multiset(words[..i])[words[i]] == Room(revoked, id, words[i])
  }

  /**
   * Every stored pair finds its own word at the place of its bit, which is the number of bits before it:
   * a condition on the request and the revocations.
   */
  ghost predicate CountsRight(revoked: set<(Word, u64)>, id: u64, words: seq<Word>) {
    forall i | 0 <= i < |words| && StoresPair(revoked, id, words, i) ::
      words[|Answered(revoked, id, words[..i])|] == words[i]
  }

  /** The zero bits of a reply are those of the stored pairs. */
  lemma {:induction false} ZeroIsStored(m: Model, id: u64, words: seq<Word>, k: nat)
    requires forall w | w in words :: (w, CountOf(m.counts, w)) !in m.entries
    requires k < |Answered(m.revoked, id, words)|
    ensures var r, pos := PutAll(m, id, words).1, Answered(m.revoked, id, words);
            && |r| == |pos| && (r[k] == 0 <==> StoresPair(m.revoked, id, words, pos[k]))
            && |Answered(m.revoked, id, words[..pos[k]])| == k
  {
    hide PutAll, Answered;
    var n := |words| - 1;
    AnsweredNone(m.revoked, id);
    var init, w := words[..n], words[n];
    assert words == init + [w];
    PutEffect(m, id, init, w);
    PutLast(m, id, words);
    AnsweredLast(m.revoked, id, words);
    ReplyAnswers(m, id, init, w);
    ReplyAnswers(m, id, words, w);
    if k < |Answered(m.revoked, id, init)| {
      ZeroIsStored(m, id, init, k);
      var i := Answered(m.revoked, id, init)[k];
      assert init[..i] == words[..i];
    }
  }

  lemma AnsweredNone(revoked: set<(Word, u64)>, id: u64)
    ensures Answered(revoked, id, []) == []
  {
  }

  /** A stored pair is answered. */
  lemma {:induction false} StoredAnswered(revoked: set<(Word, u64)>, id: u64, words: seq<Word>, i: nat)
    requires i < |words| && StoresPair(revoked, id, words, i)
    ensures var pos, k := Answered(revoked, id, words), |Answered(revoked, id, words[..i])|;
            k < |pos| && pos[k] == i
  {
    hide Answered;
    var n := |words| - 1;
    AnsweredLast(revoked, id, words);
    if i < n {
      assert words[..n][..i] == words[..i];
      StoredAnswered(revoked, id, words[..n], i);
    }
  }

  // The condition on the reply is the one on the request.
  lemma MeetIsRight(m: Model, id: u64, words: seq<Word>)
    requires forall w | w in words :: (w, CountOf(m.counts, w)) !in m.entries
    ensures var r, pos := PutAll(m, id, words).1, Answered(m.revoked, id, words);
            |r| == |pos| && (BitsMeet(r, words, pos) <==> CountsRight(m.revoked, id, words))
  {
    hide PutAll, Answered, StoresPair;
    var r, pos := PutAll(m, id, words).1, Answered(m.revoked, id, words);
    ReplyAnswers(m, id, words, []);
    forall k | 0 <= k < |pos|
      ensures r[k] == 0 <==> StoresPair(m.revoked, id, words, pos[k])
      ensures |Answered(m.revoked, id, words[..pos[k]])| == k
    {
      ZeroIsStored(m, id, words, k);
    }
    forall i | 0 <= i < |words| && StoresPair(m.revoked, id, words, i)
      ensures var k := |Answered(m.revoked, id, words[..i])|; k < |pos| && pos[k] == i
    {
      StoredAnswered(m.revoked, id, words, i);
    }
  }

  /**
   * An addition, words possibly repeated, leaves client and server in step if and only if every stored
   * pair finds its own word at the place of its bit.
   */
  lemma RepeatsInStep(h: seq<Op>, id: u64, words: seq<Word>)
    requires InStep(h) && Fits(ModelOf(h), AddOp(id, words)) && Grouped(words)
    ensures InStep(h + [AddOp(id, words)]) <==> CountsRight(Revoked(h), id, words)
  {
    hide PutAll, AddClient2, Answered, Grouped, BitsMeet, InStepAt, ModelOf, OldCount, ZeroBits, CountsRight, Revoked;
    var r, pos := PutAll(ModelOf(h), id, words).1, Answered(ModelOf(h).revoked, id, words);
    var h' := h + [AddOp(id, words)];
    MachineKeeps(h);
    CountersFree(h, words);
    MeetIsRight(ModelOf(h), id, words);
    WordInStep(h, id, words, []);
    ZerosTell(r, words, pos);
    if InStep(h') {
      forall w
        ensures ZeroBits(r, words, w) == ZeroBits(r, WordsAt(words, pos), w)
      {
        assert InStepAt(ModelOf(h'), OldCount(h', w), w);
        WordInStep(h, id, words, w);
      }
    } else {
      var w :| !InStepAt(ModelOf(h'), OldCount(h', w), w);
      WordInStep(h, id, words, w);
    }
  }

  // In step, the next counter of a word is free.
  lemma CountersFree(h: seq<Op>, words: seq<Word>)
    requires InStep(h)
    ensures forall x | x in words :: (x, CountOf(ModelOf(h).counts, x)) !in ModelOf(h).entries
  {
    hide ModelOf, OldCount;
    forall x | x in words
      ensures (x, CountOf(ModelOf(h).counts, x)) !in ModelOf(h).entries
    {
      assert InStepAt(ModelOf(h), OldCount(h, x), x);
    }
  }

  lemma WordInStep(h: seq<Op>, id: u64, words: seq<Word>, w: Word)
    requires InStep(h) && Fits(ModelOf(h), AddOp(id, words))
    ensures var r, pos := PutAll(ModelOf(h), id, words).1, Answered(ModelOf(h).revoked, id, words);
            && |r| == |pos|
            && (InStepAt(ModelOf(h + [AddOp(id, words)]), OldCount(h + [AddOp(id, words)], w), w)
                <==> ZeroBits(r, words, w) == ZeroBits(r, WordsAt(words, pos), w))
  {
    hide PutAll, AddClient2, Answered, OldCount, ZeroBits;
    var op, m := AddOp(id, words), ModelOf(h);
    var r, pos := PutAll(m, id, words).1, Answered(m.revoked, id, words);
    assert (h + [op])[..|h|] == h;
    var m' := Apply(m, op);
    assert ModelOf(h + [op]) == m';
    SameStart(h, op, w);
    CountersFree(h, words);
    assert InStepAt(m, OldCount(h, w), w);
    ReplyAnswers(m, id, words, w);
    PutEffect(m, id, words, w);
    CountsZeros(m.counts, r, words, w);
    var first, a := OldCount(h, w), CountOf(m'.counts, w);
    var b := CountOf(m.counts, w) + ZeroBits(r, WordsAt(words, pos), w);
    forall c: u64
      ensures (w, c) in m'.entries <==> first <= c < b
    {
    }
    assert b < TWO64;
    SameInterval(m'.entries, w, first, a, b);
  }

  lemma SameStart(h: seq<Op>, op: Op, w: Word)
    requires op.AddOp?
    ensures OldCount(h + [op], w) == OldCount(h, w)
  {
    assert (h + [op])[..|h|] == h;
  }

  lemma SameInterval(e: map<(Word, u64), u64>, w: Word, first: u64, a: u64, b: u64)
    requires first <= a && first <= b && forall c: u64 :: (w, c) in e <==> first <= c < b
    ensures (forall c: u64 :: (w, c) in e <==> first <= c < a) <==> a == b
  {
    if a < b {
      assert (w, a) in e;
    } else if b < a {
      assert (w, b) !in e;
    }
  }

  /** How many pairs of a word get a bit: one for a revocation, and one if its next counter is free. */
  function Allowance(m: Model, id: u64, x: Word): nat {
    Room(m.revoked, id, x) + if (x, CountOf(m.counts, x)) in m.entries then 0 else 1
  }

  /** A reply has one bit per pair if and only if no word is repeated beyond its allowance. */
  lemma {:induction false} ReplyComplete(m: Model, id: u64, words: seq<Word>)
    ensures |PutAll(m, id, words).1| <= |words|
    ensures |PutAll(m, id, words).1| == |words| <==> forall x :: multiset(words)[x] <= Allowance(m, id, x)
  {
    if words != [] {
      hide PutAll;
      var init, x := words[..|words| - 1], words[|words| - 1];
      assert words == init + [x];
      assert multiset(words)[x] == multiset(init)[x] + 1;
      assert forall y | y != x :: multiset(words)[y] == multiset(init)[y];
      ReplyComplete(m, id, init);
      PutEffect(m, id, init, x);
      PutLast(m, id, words);
    }
  }

  /** In step, every word has room for one pair, and one more if its pair is revoked. */
  lemma InStepAllowance(h: seq<Op>, id: u64, x: Word)
    requires InStep(h)
    ensures Allowance(ModelOf(h), id, x) == 1 + Room(Revoked(h), id, x)
  {
    hide ModelOf, OldCount, Revoked;
    MachineKeeps(h);
    CountersFree(h, [x]);
    assert x in [x];
  }

  // A word that is not named stays in step.
  lemma UnnamedInStep(h: seq<Op>, id: u64, words: seq<Word>, w: Word)
    requires InStep(h) && Fits(ModelOf(h), AddOp(id, words)) && w !in words
    ensures InStepAt(ModelOf(h + [AddOp(id, words)]), OldCount(h + [AddOp(id, words)], w), w)
  {
    hide PutAll, AddClient2, Answered, OldCount, ModelOf, InStepAt;
    var r, pos := PutAll(ModelOf(h), id, words).1, Answered(ModelOf(h).revoked, id, words);
    WordInStep(h, id, words, w);
    ZerosSame(r, words, WordsAt(words, pos), w);
  }
}
