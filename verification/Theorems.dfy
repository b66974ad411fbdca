/** What every run of the client, the server and its restarts guarantees. */
module Theorems {
  import opened Octets
  import opened Crypto
  import opened CoreSpec
  import opened SpecFacts
  import opened SetupProof
  import opened IndexProof
  import opened AddProof
  import opened Persistence
  import Formats
  import FileIndex
  import opened Protocol
  import opened ProtocolProof
  import History
  import opened Orderly

  // ---------------------------------------------------------------- the search law

  lemma {:induction false} LiveIsKept(p: Params, c: ClientState, srev: set<Bytes>, revoked: set<(Word, u64)>, w: Word,
      ids: seq<u64>)
    requires RevsHold(p.cr, c.kminus, p.vocabulary, srev, revoked) && w in p.vocabulary
    ensures Live(p.cr, K1Of(p.cr, c.kminus, w), srev, ids) == History.Kept(revoked, w, ids)
  {
    if ids != [] {
      assert MacLong(p.cr, K1Of(p.cr, c.kminus, w), ids[0]) == Label(p.cr, c.kminus, w, ids[0]);
      LiveIsKept(p, c, srev, revoked, w, ids[1..]);
    }
  }

  /** A search for `w` meets no pointer outside the array. */
  ghost predicate NoStrayPointer(p: Params, s: System, w: Word) {
    var t := SearchClient(p.cr, s.client, w);
    InRange(p.cr, p.size, s.server.version, t.k2, s.server.a, Probe(p.cr, s.server.d, t.k1, 0))
  }

  lemma SoundAnswers(p: Params, s: System, model: History.Model, m: seq<Bytes>, w: Word)
    requires p.Valid() && Sound(p, s, model, m) && w in p.vocabulary
    ensures SearchResult(p, s, w) == History.Answer(model, w)
    ensures SafeSearch(p.cr, p.size, s.server, SearchClient(p.cr, s.client, w))
    ensures NoStrayPointer(p, s, w)
  {
    hide CollisionFree, InFlight, AddedHold, RevsHold, Gather, Probe, Live, Readable, InRange, K1Of, K2Of,
         History.Kept, Delivered, History.Found;
    var loaded, added := History.Loaded(model, w), History.Added(model, w);
    assert WordHolds(p.cr, p.size, s.server.version, K1Of(p.cr, s.client.key, w), K2Of(p.cr, s.client.key, w),
        s.server.d, s.server.a, loaded);
    AddedFound(p.cr, p.size, s.client.kplus, p.vocabulary, s.server.dplus, model.entries, w, 0);
    LiveIsKept(p, s.client, s.server.srev, model.revoked, w, loaded);
    LiveIsKept(p, s.client, s.server.srev, model.revoked, w, added);
  }

  /**
   * After every run, restarts included and also while an addition is under way, a search returns what
   * the model answers, reads no memory outside its buffers and follows no pointer out of range.
   */
  lemma SearchLaw(p: Params, s0: System, es: seq<Event>, w: Word)
    requires p.Valid() && IsRun(p, s0, es) && w in p.vocabulary
    ensures SearchResult(p, After(p, s0, es), w) == History.Answer(History.ModelOf(Ops(es)), w)
    ensures SafeSearch(p.cr, p.size, After(p, s0, es).server, SearchClient(p.cr, After(p, s0, es).client, w))
    ensures NoStrayPointer(p, After(p, s0, es), w)
  {
    hide Sound, SearchResult, SafeSearch, NoStrayPointer, History.Answer, History.ModelOf, Ops, Runs, After;
    RunInv(p, s0, es);
    SoundAnswers(p, After(p, s0, es), History.ModelOf(Ops(es)), LastArray(p, es), w);
  }

  /**
   * If additions name distinct words, a search returns the list given to Setup (without INVALID, except
   * in Basic), followed by the ids added since, in order, if the client counted the word from zero; all
   * without the revoked pairs.
   */
  lemma ListLaw(p: Params, s0: System, es: seq<Event>, w: Word)
    requires p.Valid() && IsRun(p, s0, es) && w in p.vocabulary && OrderlyAdds(Ops(es))
    ensures var h := Ops(es);
            SearchResult(p, After(p, s0, es), w)
            == LoadedLeft(h, w) + if OldCount(h, w) == 0 then AppendedLeft(h, w) else []
  {
    hide *;
    SearchLaw(p, s0, es, w);
    RunFits(p, s0, es);
    AnswerOfLists(Ops(es), w);
  }

  /**
   * In every version each id given to Setup that is below 2^64 - 1 is found, until it is deleted and as
   * soon as it is added again, as often as its list has it. In Basic this holds of the last id, too.
   */
  lemma LoadedFound(p: Params, s0: System, es: seq<Event>, w: Word, id: u64)
    requires p.Valid() && IsRun(p, s0, es) && w in p.vocabulary
    requires (w, id) !in Revoked(Ops(es)) && (LastSetup(Ops(es)).version == 0 || id < 0xFFFF_FFFF_FFFF_FFFF)
    ensures multiset(SearchResult(p, After(p, s0, es), w))[id] >= multiset(At(LastSetup(Ops(es)).lists, w))[id]
  {
    hide Runs, After, Ops, SearchResult, History.ModelOf, History.Answer, Revoked, LastSetup, Delivered;
    var h := Ops(es);
    var m := History.ModelOf(h);
    SearchLaw(p, s0, es, w);
    MachineKeeps(h);
    DeliveredIds(m.version, At(m.lists, w), id);
    AnswerCounts(m, w, id);
  }

  lemma AnswerCounts(m: History.Model, w: Word, id: u64)
    requires (w, id) !in m.revoked
    ensures multiset(History.Answer(m, w))[id] >= multiset(Delivered(m.version, At(m.lists, w)))[id]
  {
    hide History.Kept, Delivered, History.Added;
    KeptCounts(m.revoked, w, History.Loaded(m, w), id);
    var kept := History.Kept(m.revoked, w, History.Loaded(m, w));
    var others := History.Kept(m.revoked, w, History.Added(m, w));
    assert multiset(kept + others) == multiset(kept) + multiset(others);
  }

  lemma {:induction false} KeptCounts(revoked: set<(Word, u64)>, w: Word, ids: seq<u64>, id: u64)
    requires (w, id) !in revoked
    ensures multiset(History.Kept(revoked, w, ids))[id] == multiset(ids)[id]
  {
    if ids != [] {
      var rest := ids[1..];
      KeptCounts(revoked, w, rest, id);
      assert ids == [ids[0]] + rest;
      assert multiset(ids) == multiset{ids[0]} + multiset(rest);
      var kept := History.Kept(revoked, w, rest);
      assert multiset([ids[0]] + kept) == multiset{ids[0]} + multiset(kept);
      assert [] + kept == kept;
    }
  }

  /**
   * Setup empties Dplus but keeps the revocation list: with any keys and any list from before, a search
   * then returns what was loaded without the ids that the old list revokes under the new key.
   */
  lemma SetupAnswers(p: Params, s: ServerState, c: ClientState, version: int, tokens: seq<Word>,
      fileids: map<Word, seq<u64>>, l: seq<SetupPair>, w: Word)
    requires p.Valid() && Indexed(tokens, fileids) && Known(p, tokens) && w in p.vocabulary
    requires version == BASIC || version == PACKED || version == POINTERS
    requires IsSetupRequest(p.cr, p.size, version, c.key, tokens, fileids, l)
    requires CollisionFree(p.cr, c.key, p.vocabulary)
    requires |SetupArray(p.cr, p.size, version, c.key, tokens, fileids)| <= INVALID
    ensures var m := SetupArray(p.cr, p.size, version, c.key, tokens, fileids);
            var ids := Delivered(version, At(SetupLists(tokens, fileids), w));
            var answer := Search(p.cr, p.size, SetupServer(s, version, l, m), SearchClient(p.cr, c, w));
            && answer == Live(p.cr, K1Of(p.cr, c.kminus, w), s.srev, ids)
            && (answer == ids <==> forall id | id in ids :: Label(p.cr, c.kminus, w, id) !in s.srev)
  {
    hide IsSetupRequest, SetupArray, CollisionFree, Dict, Delivered, SetupLists, Gather, Live, Label, K1Of, K2Of;
    var m := SetupArray(p.cr, p.size, version, c.key, tokens, fileids);
    var ids := Delivered(version, At(SetupLists(tokens, fileids), w));
    assert m + [] == m;
    SetupEstablishes(p.cr, p.size, version, c.key, p.vocabulary, tokens, fileids, l, []);
    assert WordHolds(p.cr, p.size, version, K1Of(p.cr, c.key, w), K2Of(p.cr, c.key, w), Dict(l), m, ids);
    NoneProbed(p, K1Of(p.cr, c.kplus, w), K2Of(p.cr, c.kplus, w), K1Of(p.cr, c.kminus, w), s.srev);
    AllLive(p.cr, c.kminus, w, s.srev, ids);
  }

  lemma NoneProbed(p: Params, k1: Bytes, k2: Bytes, k1minus: Bytes, srev: set<Bytes>)
    ensures Live(p.cr, k1minus, srev, Gather(p.cr, p.size, BASIC, k2, [], Probe(p.cr, map[], k1, 0))) == []
  {
  }

  lemma {:induction false} AllLive(cr: Suite, kminus: Bytes, w: Word, srev: set<Bytes>, ids: seq<u64>)
    ensures var live := Live(cr, K1Of(cr, kminus, w), srev, ids);
            && |live| <= |ids| && (live == ids <==> forall id | id in ids :: Label(cr, kminus, w, id) !in srev)
  {
    if ids != [] {
      AllLive(cr, kminus, w, srev, ids[1..]);
      assert ids == [ids[0]] + ids[1..];
      assert MacLong(cr, K1Of(cr, kminus, w), ids[0]) == Label(cr, kminus, w, ids[0]);
      if Label(cr, kminus, w, ids[0]) !in srev {
        assert Live(cr, K1Of(cr, kminus, w), srev, ids)[1..] == Live(cr, K1Of(cr, kminus, w), srev, ids[1..]);
      }
    }
  }

  // ---------------------------------------------------------------- counters and replies

  // The addition that is answered but not counted is the last operation.
  lemma {:induction false} ReplyIsLast(p: Params, s0: System, es: seq<Event>)
    requires p.Valid() && IsRun(p, s0, es) && After(p, s0, es).flight.Replied?
    ensures var h, f := Ops(es), After(p, s0, es).flight; h != [] && h[|h| - 1] == History.AddOp(f.id, f.w)
  {
    hide Enabled, Step, Runs, After, LastEnabled, Ops;
    var init, ev := es[..|es| - 1], es[|es| - 1];
    LastStep(p, s0, es);
    OpsLast(es);
    ReplyStep(p, After(p, s0, init), ev);
    if ev.RestartServer? {
      assert init[0] == es[0];
      ReplyIsLast(p, s0, init);
      assert Ops(es) == Ops(init);
    }
  }

  // Only an answer, or a restart of the server behind it, leaves a reply to be counted.
  lemma ReplyStep(p: Params, s: System, ev: Event)
    requires p.Valid() && Enabled(p, s, ev) && Step(p, s, ev).flight.Replied?
    ensures var f := Step(p, s, ev).flight;
            if ev.ServeAdd? then f.id == ev.id && f.w == ev.w else ev.RestartServer? && f == s.flight
  {
    hide LoadServer, LoadClient, AddServer, AddClient2, IsSetupRequest, FreshKeys, SetupArray, IsAddRequest,
         IsDeleteRequest, Saves, SavesClient;
  }

  predicate ZeroBit(r: seq<byte>, w: seq<Word>, x: Word)
    requires |r| <= |w|
  {
    exists i | 0 <= i < |r| :: w[i] == x && r[i] == 0
  }

  /**
   * With no addition under way, the counters with an entry in Dplus are exactly those from the old
   * counter (zero for a new client) to the client's counter; between reply and count the server is ahead
   * by one for the words with bit 0.
   */
  lemma CounterAgreement(p: Params, s0: System, es: seq<Event>, w: Word, c: u64)
    requires p.Valid() && IsRun(p, s0, es) && w in p.vocabulary && OrderlyAdds(Ops(es))
    ensures var s := After(p, s0, es);
            && (s.flight.Replied? ==> |s.flight.r| <= |s.flight.w|)
            && (Label(p.cr, s.client.kplus, w, c) in s.server.dplus
                <==> OldCount(Ops(es), w) <= c < CountOf(s.client.dcount, w)
                         + if s.flight.Replied? && ZeroBit(s.flight.r, s.flight.w, w) then 1 else 0)
  {
    hide Label, Stored, ListsHold, KeysSafe, RevsHold, AddedHold, Runs, After, History.ModelOf, Ops, OldCount,
         IsAddPair, LastArray, AddClient2, OrderlyAdds;
    RunInv(p, s0, es);
    RunFits(p, s0, es);
    var s, model := After(p, s0, es), History.ModelOf(Ops(es));
    OrderlyInStep(Ops(es));
    TokenUsed(p.cr, s.client.kplus, p.vocabulary, s.server.dplus, model.entries, w, c);
    assert InStepAt(model, OldCount(Ops(es), w), w);
    if s.flight.Replied? {
      ReplyIsLast(p, s0, es);
      LastDistinct(Ops(es));
      CountsMove(s.client.dcount, s.flight.r, s.flight.w, w);
    }
  }

  lemma LastDistinct(h: seq<History.Op>)
    requires OrderlyAdds(h) && h != [] && h[|h| - 1].AddOp?
    ensures Distinct(h[|h| - 1].words)
  {
  }

  /** The reply has one bit per pair; bit i is 0 exactly when pair i was not revoked. */
  ghost predicate IsReply(w: seq<Word>, id: u64, revoked: set<(Word, u64)>, r: seq<byte>) {
    |r| == |w| && forall i | 0 <= i < |w| :: r[i] == if (w[i], id) in revoked then 1 else 0
  }

  /**
   * The reply of AddServer to distinct words: one bit per pair, in the order of the words; no token is
   * in Dplus before, so the branch for such a token is never taken, and pair i is there afterwards
   * exactly when its bit is 0.
   */
  lemma ReplyAligned(p: Params, s0: System, es: seq<Event>, ev: Event)
    requires p.Valid() && IsRun(p, s0, es) && ev.ServeAdd? && Enabled(p, After(p, s0, es), ev)
    requires OrderlyAdds(Ops(es)) && Distinct(ev.w)
    ensures var s := After(p, s0, es); var s' := Step(p, s, ev); var l := s.flight.l;
            && s'.flight.Replied? && IsReply(ev.w, ev.id, Revoked(Ops(es)), s'.flight.r)
            && |l| == |ev.w|
            && forall i | 0 <= i < |l| ::
                 && IsAddPair(p.cr, p.size, s.client, ev.id, ev.w[i], l[i])
                 && l[i].token !in s.server.dplus
                 && (l[i].token in s'.server.dplus <==> s'.flight.r[i] == 0)
  {
    hide Label, ListsHold, CollisionFree, RevsHold, AddedHold, Runs, After, History.ModelOf, Ops, EncryptLong,
         AddServer, LastArray, History.PutAll, OldCount, Stored, Revoked, OrderlyAdds;
    RunInv(p, s0, es);
    RunFits(p, s0, es);
    var s, h, w := After(p, s0, es), Ops(es), ev.w;
    var model := History.ModelOf(h);
    AddServerHolds(p.cr, p.size, s.client, p.vocabulary, s.server, s.flight.l, w, ev.id, model);
    MachineKeeps(h);
    OrderlyInStep(h);
    forall i | 0 <= i < |w|
      ensures (w[i], CountOf(model.counts, w[i])) !in model.entries
      ensures s.flight.l[i].token !in s.server.dplus
    {
      assert InStepAt(model, OldCount(h, w[i]), w[i]);
      TokenUsed(p.cr, s.client.kplus, p.vocabulary, s.server.dplus, model.entries, w[i], CountOf(model.counts, w[i]));
    }
    DistinctReply(model, ev.id, w);
    var s1, model1 := AddServer(s.server, s.flight.l).0, History.PutAll(model, ev.id, w).0;
    forall i | 0 <= i < |w|
      ensures s.flight.l[i].token in s1.dplus <==> (w[i], ev.id) !in model.revoked
    {
      TokenUsed(p.cr, s.client.kplus, p.vocabulary, s1.dplus, model1.entries, w[i], CountOf(model.counts, w[i]));
      History.PutEffect(model, ev.id, w, w[i]);
      OnceOnly(w, w[i]);
    }
  }

  lemma SoundEnds(p: Params, s: System, model: History.Model, m: seq<Bytes>, w: Word)
    requires p.Valid() && Sound(p, s, model, m) && w in p.vocabulary
    ensures var t := SearchClient(p.cr, s.client, w);
            && CountersDistinct(p.cr, t.k1) && CountersDistinct(p.cr, t.k1plus)
            && |Probe(p.cr, s.server.d, t.k1, 0)| <= |s.server.d|
            && |Probe(p.cr, s.server.dplus, t.k1plus, 0)| <= |s.server.dplus|
  {
    hide ListsHold, ServerHolds, InFlight, ArrayHolds, Probe;
    CountersOfWord(p.cr, s.client.key, p.vocabulary, w);
    CountersOfWord(p.cr, s.client.kplus, p.vocabulary, w);
    ProbeBounded(p.cr, s.server.d, K1Of(p.cr, s.client.key, w));
    ProbeBounded(p.cr, s.server.dplus, K1Of(p.cr, s.client.kplus, w));
  }

  /** Both probing loops of a search end: no more entries are found than there are. */
  lemma SearchEnds(p: Params, s0: System, es: seq<Event>, w: Word)
    requires p.Valid() && IsRun(p, s0, es) && w in p.vocabulary
    ensures var s := After(p, s0, es); var t := SearchClient(p.cr, s.client, w);
            && CountersDistinct(p.cr, t.k1) && CountersDistinct(p.cr, t.k1plus)
            && |Probe(p.cr, s.server.d, t.k1, 0)| <= |s.server.d|
            && |Probe(p.cr, s.server.dplus, t.k1plus, 0)| <= |s.server.dplus|
  {
    hide Runs, After, Ops, LastArray, Sound, Probe, CountersDistinct, History.ModelOf;
    RunInv(p, s0, es);
    SoundEnds(p, After(p, s0, es), History.ModelOf(Ops(es)), LastArray(p, es), w);
  }

  // ---------------------------------------------------------------- sets of ids

  lemma RunPrefix(p: Params, s0: System, es: seq<Event>, n: nat)
    requires p.Valid() && IsRun(p, s0, es) && 1 <= n <= |es|
    ensures IsRun(p, s0, es[..n])
  {
    if n == |es| {
      assert es[..n] == es;
    } else {
      assert es[..|es| - 1][..n] == es[..n] && es[..|es| - 1][0] == es[0];
      RunPrefix(p, s0, es[..|es| - 1], n);
    }
  }

  /** After the first `n` events, every search answers as the set of pairs does. */
  ghost predicate AnswersAsSet(p: Params, s0: System, es: seq<Event>, n: nat)
    requires p.Valid() && IsRun(p, s0, es) && 1 <= n <= |es|
  {
    RunPrefix(p, s0, es, n);
    forall w, id | w in p.vocabulary :: id in SearchResult(p, After(p, s0, es[..n]), w)
        <==> History.Holds(Ops(es[..n]), w, id)
  }

  // The operations of a prefix of the run are a prefix of its operations.
  lemma {:induction false} OpsPrefix(es: seq<Event>, n: nat)
    requires n <= |es|
    ensures Ops(es[..n]) <= Ops(es)
  {
    if n == |es| {
      assert es[..n] == es;
    } else {
      assert es[..|es| - 1][..n] == es[..n];
      OpsPrefix(es[..|es| - 1], n);
    }
  }

  // The first `n` events perform the first `k` operations, for every `n`, and for some `n` for every `k`.
  lemma {:induction false} EventOf(es: seq<Event>, k: nat) returns (n: nat)
    requires k < |Ops(es)|
    ensures 1 <= n <= |es| && Ops(es[..n]) == Ops(es)[..k + 1]
  {
    hide OpOf;
    var init := es[..|es| - 1];
    AtMostOne(es[|es| - 1]);
    if k + 1 <= |Ops(init)| {
      n := EventOf(init, k);
      assert init[..n] == es[..n];
    } else {
      n := |es|;
      assert es[..n] == es;
    }
  }

  /** The words an operation names are in the vocabulary. */
  ghost predicate NamesKnown(p: Params, h: seq<History.Op>) {
    forall k | 0 <= k < |h| ::
      if h[k].SetupOp? then forall w | w in h[k].lists :: w in p.vocabulary else Known(p, h[k].words)
  }

  lemma {:induction false} RunNames(p: Params, s0: System, es: seq<Event>)
    requires p.Valid() && IsRun(p, s0, es)
    ensures NamesKnown(p, Ops(es))
  {
    hide Enabled, Step, OpOf, Known, Inv, Runs, After, LastEnabled, NamesKnown, Ops;
    var init, ev := es[..|es| - 1], es[|es| - 1];
    LastStep(p, s0, es);
    OpsLast(es);
    AtMostOne(ev);
    if init == [] {
      NoNames(p);
    } else {
      assert init[0] == es[0];
      RunNames(p, s0, init);
      RunInv(p, s0, init);
    }
    if OpOf(ev) == [] {
      assert Ops(es) == Ops(init);
    } else {
      EventNames(p, After(p, s0, init), ev);
      NamesAppend(p, Ops(init), OpOf(ev)[0]);
      assert OpOf(ev) == [OpOf(ev)[0]];
    }
  }

  lemma NoNames(p: Params)
    ensures NamesKnown(p, Ops([]))
  {
  }

  lemma NamesAppend(p: Params, h: seq<History.Op>, op: History.Op)
    requires NamesKnown(p, h)
    requires if op.SetupOp? then forall w | w in op.lists :: w in p.vocabulary else Known(p, op.words)
    ensures NamesKnown(p, h + [op])
  {
    hide Known;
  }

  lemma EventNames(p: Params, s: System, ev: Event)
    requires p.Valid() && Enabled(p, s, ev) && OpOf(ev) != []
    requires ev.Setup? || exists model, m :: Inv(p, s, model, m)
    ensures var op := OpOf(ev)[0];
            if op.SetupOp? then forall w | w in op.lists :: w in p.vocabulary else Known(p, op.words)
  {
    hide IsAddPair, Stored, ListsHold, ServerHolds, KeysSafe, ArrayHolds, AddServer, Saves, FreshKeys, IsSetupRequest,
         SetupArray, IsDeleteRequest;
    if ev.ServeAdd? {
      var model, m :| Inv(p, s, model, m);
    }
  }

  // A word outside the vocabulary has no ids.
  lemma {:induction false} Unnamed(p: Params, h: seq<History.Op>, w: Word)
    requires NamesKnown(p, h) && History.NoWrap(h) && w !in p.vocabulary
    ensures History.Answer(History.ModelOf(h), w) == [] && forall id :: !History.Holds(h, w, id)
    ensures History.Loaded(History.ModelOf(h), w) == [] && History.Added(History.ModelOf(h), w) == []
  {
    hide History.Apply, History.Loaded, History.Added, History.NoWrap, History.Appends, Delivered;
    if h == [] {
      NoneNamed(w);
    } else {
      var init, op := h[..|h| - 1], h[|h| - 1];
      History.WrapPrefix(h, |init|);
      assert forall k | 0 <= k < |init| :: init[k] == h[k];
      Unnamed(p, init, w);
      History.AllCounted(init);
      History.ApplyFinds(History.ModelOf(init), op, w);
      if op.SetupOp? {
        DeliveredNothing(op.version);
      }
    }
  }

  lemma NoneNamed(w: Word)
    ensures History.Answer(History.EMPTY, w) == [] && forall id :: !History.Holds([], w, id)
    ensures History.Loaded(History.EMPTY, w) == [] && History.Added(History.EMPTY, w) == []
  {
  }

  // What searching shows after `n` events is what the model shows for all words.
  lemma AnswersShown(p: Params, s0: System, es: seq<Event>, w: Word)
    requires p.Valid() && IsRun(p, s0, es)
    ensures w in p.vocabulary ==> SearchResult(p, After(p, s0, es), w) == History.Answer(History.ModelOf(Ops(es)), w)
    ensures w !in p.vocabulary ==>
              History.Answer(History.ModelOf(Ops(es)), w) == [] && forall id :: !History.Holds(Ops(es), w, id)
  {
    hide SearchResult, Runs, After, History.Answer, History.Holds, History.ModelOf, History.NoWrap, NamesKnown, Ops;
    if w in p.vocabulary {
      SearchLaw(p, s0, es, w);
    } else {
      RunFits(p, s0, es);
      RunNames(p, s0, es);
      Unnamed(p, Ops(es), w);
    }
  }

  lemma SetsMatch(p: Params, s0: System, es: seq<Event>, n: nat, k: nat)
    requires p.Valid() && IsRun(p, s0, es) && 1 <= n <= |es| && k <= |Ops(es)| && Ops(es[..n]) == Ops(es)[..k]
    ensures AnswersAsSet(p, s0, es, n) <==> History.AgreesAt(Ops(es), k)
  {
    hide SearchResult, Runs, After, History.Answer, History.Holds, History.ModelOf, Ops;
    RunPrefix(p, s0, es, n);
    var run := es[..n];
    if AnswersAsSet(p, s0, es, n) {
      forall w, id
        ensures id in History.Answer(History.ModelOf(Ops(run)), w) <==> History.Holds(Ops(run), w, id)
      {
        AnswersShown(p, s0, run, w);
      }
    } else {
      var w, id :| w in p.vocabulary
                   && !(id in SearchResult(p, After(p, s0, run), w) <==> History.Holds(Ops(run), w, id));
      AnswersShown(p, s0, run, w);
    }
  }

  lemma OnceMatches(p: Params, s0: System, es: seq<Event>, n: nat, k: nat)
    requires p.Valid() && IsRun(p, s0, es) && 1 <= n <= |es| && k <= |Ops(es)| && Ops(es[..n]) == Ops(es)[..k]
    ensures AnswersOnce(p, s0, es, n)
            <==> forall w :: History.NoRepeat(History.Answer(History.ModelOf(Ops(es)[..k]), w))
  {
    hide SearchResult, Runs, After, History.Answer, History.Holds, History.ModelOf, Ops;
    RunPrefix(p, s0, es, n);
    var run := es[..n];
    if AnswersOnce(p, s0, es, n) {
      forall w
        ensures History.NoRepeat(History.Answer(History.ModelOf(Ops(run)), w))
      {
        AnswersShown(p, s0, run, w);
      }
    } else {
      var w :| w in p.vocabulary && !History.NoRepeat(SearchResult(p, After(p, s0, run), w));
      AnswersShown(p, s0, run, w);
    }
  }

  /**
   * Throughout a run the system is a plain map from words to sets of ids, in which Setup loads, Add
   * inserts and Delete removes, if and only if no Setup of Packed or Pointer is given the id INVALID and
   * no addition loses a pair that was not there before: because it is revoked and named only once, or
   * because the client's counter does not stand where the entries of the word end.
   */
  lemma RefinesSets(p: Params, s0: System, es: seq<Event>)
    requires p.Valid() && IsRun(p, s0, es)
    ensures (forall n | 1 <= n <= |es| :: AnswersAsSet(p, s0, es, n)) <==> History.NothingLost(Ops(es))
  {
    hide AnswersAsSet, AnswersOnce, Runs, After, History.AgreesAt, History.NothingLost, History.NoWrap, Ops;
    var h := Ops(es);
    RunFits(p, s0, es);
    History.SetMeaning(h);
    if forall n | 1 <= n <= |es| :: AnswersAsSet(p, s0, es, n) {
      forall k | 0 <= k <= |h|
        ensures History.AgreesAt(h, k)
      {
        if k == 0 {
          NothingYet(h);
        } else {
          var n := EventOf(es, k - 1);
          SetsMatch(p, s0, es, n, k);
        }
      }
    } else {
      var n :| 1 <= n <= |es| && !AnswersAsSet(p, s0, es, n);
      OpsPrefix(es, n);
      assert Ops(es[..n]) == h[..|Ops(es[..n])|];
      SetsMatch(p, s0, es, n, |Ops(es[..n])|);
    }
  }

  lemma NothingYet(h: seq<History.Op>)
    ensures History.AgreesAt(h, 0) && forall w :: History.NoRepeat(History.Answer(History.ModelOf(h[..0]), w))
  {
    assert h[..0] == [];
    forall w
      ensures History.Answer(History.ModelOf([]), w) == []
    {
      NoneNamed(w);
    }
  }

  /**
   * With distinct words in every addition, the system is that map if and only if no Setup of Packed or
   * Pointer is given INVALID, no pair is added that was deleted without ever having been indexed, and no
   * pair is added to a word that its client had counted before Setup; pairs of the setup list excepted.
   */
  lemma RefinesSetsDistinct(p: Params, s0: System, es: seq<Event>)
    requires p.Valid() && IsRun(p, s0, es) && OrderlyAdds(Ops(es))
    ensures (forall n | 1 <= n <= |es| :: AnswersAsSet(p, s0, es, n)) <==> AllStick(Ops(es))
  {
    hide *;
    RunFits(p, s0, es);
    RefinesSets(p, s0, es);
    NothingLostIff(Ops(es));
  }

  /** After the first `n` events, no search repeats an id. */
  ghost predicate AnswersOnce(p: Params, s0: System, es: seq<Event>, n: nat)
    requires p.Valid() && IsRun(p, s0, es) && 1 <= n <= |es|
  {
    RunPrefix(p, s0, es, n);
    forall w | w in p.vocabulary :: History.NoRepeat(SearchResult(p, After(p, s0, es[..n]), w))
  }

  /**
   * Throughout a run no search repeats an id, if and only if setup lists are delivered without
   * repetition and only absent pairs are appended.
   */
  lemma NoDuplicateAnswers(p: Params, s0: System, es: seq<Event>)
    requires p.Valid() && IsRun(p, s0, es)
    ensures (forall n | 1 <= n <= |es| :: AnswersOnce(p, s0, es, n)) <==> History.AllTidy(Ops(es))
  {
    hide AnswersAsSet, AnswersOnce, Runs, After, History.AllTidy, History.NoWrap, Ops, History.Answer, History.NoRepeat,
         History.ModelOf;
    var h := Ops(es);
    RunFits(p, s0, es);
    History.NoDuplicates(h);
    if forall n | 1 <= n <= |es| :: AnswersOnce(p, s0, es, n) {
      forall k, w | 0 <= k <= |h|
        ensures History.NoRepeat(History.Answer(History.ModelOf(h[..k]), w))
      {
        if k == 0 {
          NothingYet(h);
        } else {
          var n := EventOf(es, k - 1);
          OnceMatches(p, s0, es, n, k);
        }
      }
    } else {
      var n :| 1 <= n <= |es| && !AnswersOnce(p, s0, es, n);
      OpsPrefix(es, n);
      assert Ops(es[..n]) == h[..|Ops(es[..n])|];
      OnceMatches(p, s0, es, n, |Ops(es[..n])|);
    }
  }

  // ---------------------------------------------------------------- variants

  /**
   * Two runs with the same requests (the same tokens, lists, ids and words, in distinct additions) answer
   * alike, whatever their versions, block sizes, keys, list orders and restarts, if and only if both or
   * neither are Basic, or the setup list does not contain INVALID, or that pair is deleted.
   */
  lemma VariantsAgree(p: Params, s0: System, es: seq<Event>, p': Params, s0': System, es': seq<Event>, w: Word)
    requires p.Valid() && IsRun(p, s0, es) && p'.Valid() && IsRun(p', s0', es')
    requires SameRequests(Ops(es), Ops(es')) && OrderlyAdds(Ops(es)) && OrderlyAdds(Ops(es'))
    requires w in p.vocabulary && w in p'.vocabulary
    ensures SearchResult(p, After(p, s0, es), w) == SearchResult(p', After(p', s0', es'), w)
            <==> (LastSetup(Ops(es)).version == BASIC <==> LastSetup(Ops(es')).version == BASIC)
                 || INVALID !in At(LastSetup(Ops(es)).lists, w) || (w, INVALID) in Revoked(Ops(es))
  {
    hide *;
    SearchLaw(p, s0, es, w);
    SearchLaw(p', s0', es', w);
    RunFits(p, s0, es);
    RunFits(p', s0', es');
    VersionsAnswer(Ops(es), Ops(es'), w);
  }

  // ---------------------------------------------------------------- restarts

  predicate IsRestart(ev: Event) { ev.RestartServer? || ev.RestartClient? }

  /** The run without its restarts. */
  function WithoutRestarts(es: seq<Event>): seq<Event> {
    if es == [] then []
    else WithoutRestarts(es[..|es| - 1]) + if IsRestart(es[|es| - 1]) then [] else [es[|es| - 1]]
  }

  /** Two states that differ only in the spare block behind the array and in useless revocation ids. */
  ghost predicate Alike(s: System, t: System) {
    && s.client == t.client && s.flight == t.flight && s.disk == t.disk
    && AlikeServers(s.server, t.server)
  }

  ghost predicate AlikeServers(s: ServerState, t: ServerState) {
    && s.version == t.version && s.d == t.d && s.dplus == t.dplus && s.dirtyD == t.dirtyD
    && Formats.Rev32(s.srev) == Formats.Rev32(t.srev)
  }

  lemma {:induction false} AddServerAlike(s: ServerState, t: ServerState, l: seq<AddPair>)
    requires AlikeServers(s, t) && forall q | q in l :: |q.revId| == KEYLEN
    ensures AddServer(s, l).1 == AddServer(t, l).1 && AlikeServers(AddServer(s, l).0, AddServer(t, l).0)
  {
    if l != [] {
      AddServerAlike(s, t, l[..|l| - 1]);
      var q := l[|l| - 1];
      var s1, t1 := AddServer(s, l[..|l| - 1]).0, AddServer(t, l[..|l| - 1]).0;
      assert q in l;
      SameRevs(s1.srev, t1.srev, q.revId);
    }
  }

  lemma SameRevs(a: set<Bytes>, b: set<Bytes>, v: Bytes)
    requires Formats.Rev32(a) == Formats.Rev32(b) && |v| == KEYLEN
    ensures v in a <==> v in b
    ensures Formats.Rev32(a - {v}) == Formats.Rev32(b - {v})
  {
    assert v in Formats.Rev32(a) <==> v in a;
    assert v in Formats.Rev32(b) <==> v in b;
    assert forall x :: x in Formats.Rev32(a - {v}) <==> x in Formats.Rev32(a) && x != v;
    assert forall x :: x in Formats.Rev32(b - {v}) <==> x in Formats.Rev32(b) && x != v;
  }

  lemma SavesAlike(s: ServerState, t: ServerState, before: Disk, after: Disk)
    requires AlikeServers(s, t) && (s.dirtyD ==> s.a == t.a) && Saves(s, before, after)
    ensures Saves(t, before, after)
  {
    RevFileOf32(after.srev.value, s.srev, t.srev);
  }

  lemma FreshAlike(p: Params, ev: Event, s: ServerState, t: ServerState)
    requires p.Valid() && ev.Setup? && AlikeServers(s, t) && FreshKeys(p, ev, s)
    ensures FreshKeys(p, ev, t)
  {
    hide Label, CollisionFree;
    forall w, id: u64 | w in p.vocabulary
      ensures Label(p.cr, ev.kminus, w, id) !in t.srev
    {
      LabelSize(p.cr, ev.kminus, w, id);
      SameRevs(s.srev, t.srev, Label(p.cr, ev.kminus, w, id));
    }
  }

  lemma SetupAlike(p: Params, s: System, t: System, ev: Event)
    requires p.Valid() && ev.Setup? && Enabled(p, s, ev) && Alike(s, t)
    ensures Enabled(p, t, ev) && Alike(Step(p, s, ev), Step(p, t, ev))
  {
    hide IsSetupRequest, FreshKeys, SetupArray, Saves, Dict, Formats.Rev32;
    FreshAlike(p, ev, s.server, t.server);
    SavesAlike(SetupServer(s.server, ev.version, ev.l, SentArray(p, ev)),
        SetupServer(t.server, ev.version, ev.l, SentArray(p, ev)), s.disk, ev.files);
  }

  lemma ServeAddAlike(p: Params, s: System, t: System, ev: Event, model: History.Model, m: seq<Bytes>)
    requires p.Valid() && ev.ServeAdd? && Enabled(p, s, ev) && Alike(s, t) && Inv(p, s, model, m)
    ensures Enabled(p, t, ev) && Alike(Step(p, s, ev), Step(p, t, ev))
  {
    hide Saves, AddServer, Formats.Rev32, ListsHold, ServerHolds, Stored, KeysSafe, Label, EncryptLong;
    forall q | q in s.flight.l
      ensures |q.revId| == KEYLEN
    {
      var i :| 0 <= i < |s.flight.l| && s.flight.l[i] == q;
      assert IsAddPair(p.cr, p.size, s.client, s.flight.id, s.flight.w[i], q);
      LabelSize(p.cr, s.client.kminus, s.flight.w[i], s.flight.id);
    }
    AddServerAlike(s.server, t.server, s.flight.l);
    NotDirty(s.server, s.flight.l);
    SavesAlike(AddServer(s.server, s.flight.l).0, AddServer(t.server, s.flight.l).0, s.disk, ev.files);
  }

  lemma {:induction false} NotDirty(s: ServerState, l: seq<AddPair>)
    ensures AddServer(s, l).0.dirtyD == s.dirtyD
  {
    if l != [] {
      NotDirty(s, l[..|l| - 1]);
    }
  }

  lemma DeleteAlike(p: Params, s: System, t: System, ev: Event, model: History.Model, m: seq<Bytes>)
    requires p.Valid() && ev.Delete? && Enabled(p, s, ev) && Alike(s, t) && Inv(p, s, model, m)
    ensures Enabled(p, t, ev) && Alike(Step(p, s, ev), Step(p, t, ev))
  {
    hide Saves, Formats.IsMapFile, ListsHold, ServerHolds, Stored, KeysSafe, IsDeleteRequest;
    var revs := set x | x in ev.revIds;
    assert Formats.Rev32(s.server.srev + revs) == Formats.Rev32(s.server.srev) + Formats.Rev32(revs);
    assert Formats.Rev32(t.server.srev + revs) == Formats.Rev32(t.server.srev) + Formats.Rev32(revs);
    SavesAlike(DeleteServer(s.server, ev.revIds), DeleteServer(t.server, ev.revIds), s.disk, ev.files);
  }

  lemma StepAlike(p: Params, s: System, t: System, ev: Event, model: History.Model, m: seq<Bytes>)
    requires p.Valid() && Enabled(p, s, ev) && Alike(s, t) && !IsRestart(ev)
    requires ev.Setup? || Inv(p, s, model, m)
    ensures Enabled(p, t, ev) && Alike(Step(p, s, ev), Step(p, t, ev))
  {
    match ev
    case Setup(_, _, _, _, _, _, _, _, _) => SetupAlike(p, s, t, ev);
    case AskAdd(_, _, _, _) => AskAlike(p, s, t, ev);
    case ServeAdd(_, _, _) => ServeAddAlike(p, s, t, ev, model, m);
    case CountAdd => AskAlike(p, s, t, ev);
    case Delete(_, _, _, _) => DeleteAlike(p, s, t, ev, model, m);
  }

  lemma AskAlike(p: Params, s: System, t: System, ev: Event)
    requires p.Valid() && (ev.AskAdd? || ev.CountAdd?) && Enabled(p, s, ev) && Alike(s, t)
    ensures Enabled(p, t, ev) && Alike(Step(p, s, ev), Step(p, t, ev))
  {
    hide IsAddRequest, Touch, AddClient2, Formats.Rev32;
  }

  lemma RestartAlike(p: Params, s: System, t: System, ev: Event, model: History.Model, m: seq<Bytes>)
    requires p.Valid() && Enabled(p, s, ev) && Alike(s, t) && IsRestart(ev) && Inv(p, s, model, m)
    ensures Alike(Step(p, s, ev), t)
  {
    hide ListsHold, ServerHolds, KeysSafe, InFlight, LoadServer, Formats.IsMapFile, Formats.IsRevFile;
    if ev.RestartServer? {
      LoadStored(s.disk, s.server, m);
      assert Formats.Rev32(Formats.Rev32(s.server.srev)) == Formats.Rev32(s.server.srev);
    } else {
      RestartClientSame(p, s, ev, model, m);
    }
  }

  // Leaving out the restarts leaves a run, of the same meaning and with a like state.
  lemma {:induction false} ErasedRun(p: Params, s0: System, es: seq<Event>)
    requires p.Valid() && IsRun(p, s0, es)
    ensures IsRun(p, s0, WithoutRestarts(es)) && Ops(WithoutRestarts(es)) == Ops(es)
    ensures Alike(After(p, s0, es), After(p, s0, WithoutRestarts(es)))
  {
    hide Enabled, Step, Inv, Alike, AlikeServers, OpOf;
    var init, ev := es[..|es| - 1], es[|es| - 1];
    var kept := WithoutRestarts(es);
    LastStep(p, s0, es);
    if init == [] {
      assert WithoutRestarts(init) == [] && kept == [ev] && es == [ev];
      AlikeSelf(After(p, s0, es));
    } else {
      assert init[0] == es[0];
      ErasedRun(p, s0, init);
      var rest := WithoutRestarts(init);
      var s, t, model, m := After(p, s0, init), After(p, s0, rest), History.ModelOf(Ops(init)), LastArray(p, init);
      RunInv(p, s0, init);
      if IsRestart(ev) {
        assert kept == rest;
        RestartAlike(p, s, t, ev, model, m);
        RestartSilent(ev);
      } else {
        assert kept == rest + [ev] && kept[0] == rest[0];
        StepAlike(p, s, t, ev, model, m);
        Extend(p, s0, rest, ev);
      }
    }
  }

  lemma AlikeSelf(s: System)
    ensures Alike(s, s)
  {
  }

  lemma RestartSilent(ev: Event)
    requires IsRestart(ev)
    ensures OpOf(ev) == []
  {
  }

  /**
   * Once a Setup has been handled, saving and reloading the server or the client, at any point and any
   * number of times, is invisible: the run without the restarts is possible too, and every search
   * answers the same after both.
   */
  lemma RestartsInvisible(p: Params, s0: System, es: seq<Event>, w: Word)
    requires p.Valid() && IsRun(p, s0, es) && w in p.vocabulary
    ensures IsRun(p, s0, WithoutRestarts(es))
    ensures SearchResult(p, After(p, s0, es), w) == SearchResult(p, After(p, s0, WithoutRestarts(es)), w)
  {
    hide SearchResult, Runs, After, Ops, WithoutRestarts, Alike, History.Answer;
    ErasedRun(p, s0, es);
    SearchLaw(p, s0, es, w);
    SearchLaw(p, s0, WithoutRestarts(es), w);
  }

  /** Restarts do not pile up: the server's array is the one sent, or has one empty block more. */
  lemma OneSpareBlock(p: Params, s0: System, es: seq<Event>)
    requires p.Valid() && IsRun(p, s0, es)
    ensures var a, m := After(p, s0, es).server.a, LastArray(p, es); a == m || a == m + [[]]
  {
    hide Runs, After, Ops, LastArray, ListsHold, ServerHolds, Stored, InFlight, KeysSafe;
    RunInv(p, s0, es);
  }

  // ---------------------------------------------------------------- files

  lemma OneEvent(p: Params, s0: System, ev: Event)
    requires p.Valid() && ev.Setup? && Enabled(p, s0, ev)
    ensures IsRun(p, s0, [ev]) && After(p, s0, [ev]) == Step(p, s0, ev)
  {
    hide Step, Enabled;
    assert [] + [ev] == [ev];
    Extend(p, s0, [], ev);
  }

  /** Right after SetupFiles, a search for a word returns the ids of the files that contain it, in every version. */
  lemma FilesFound(p: Params, s0: System, ev: Event, tk: FileIndex.Tokenizer, files: seq<Bytes>, w: Word)
    requires p.Valid() && ev.Setup? && Enabled(p, s0, ev) && w in p.vocabulary && |files| < INVALID
    requires FileIndex.ListsHold(tk, files, ev.fileids, ev.tokens)
    ensures SearchResult(p, Step(p, s0, ev), w) == FileIndex.Postings(tk, files, w)
  {
    hide SearchResult, FileIndex.Postings, Used, History.Apply, History.Answer, Delivered;
    var es := [ev];
    assert es[..0] == [] && Ops(es[..0]) == [];
    OneEvent(p, s0, ev);
    hide Step, Enabled, Runs, After;
    SearchLaw(p, s0, es, w);
    FileIndex.ListsIndexed(tk, files, ev.fileids, ev.tokens);
    var op := OpOf(ev)[0];
    assert Ops(es) == [op] && [op][..0] == [];
    assert History.ModelOf(Ops(es)) == History.Apply(History.EMPTY, op);
    AnswerLoaded(op, w);
    if w in ev.tokens {
      DeliveredWhole(ev.version, ev.fileids[w]);
    } else {
      DeliveredNothing(ev.version);
    }
  }

  lemma AnswerLoaded(op: History.Op, w: Word)
    requires op.SetupOp?
    ensures History.Answer(History.Apply(History.EMPTY, op), w) == Delivered(op.version, At(op.lists, w))
  {
    hide Delivered;
    History.KeepAll({}, w, Delivered(op.version, At(op.lists, w)));
    assert History.Answer(History.Apply(History.EMPTY, op), w) == Delivered(op.version, At(op.lists, w)) + [];
  }

  lemma DeliveredWhole(version: int, fids: seq<u64>)
    requires INVALID !in fids
    ensures Delivered(version, fids) == fids
  {
    DeliveredIsAll(fids);
  }
}
