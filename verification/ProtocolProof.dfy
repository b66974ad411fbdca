/** Every event keeps the invariant of the state machine. */
module ProtocolProof {
  import opened Octets
  import opened Crypto
  import opened Ordering
  import opened CoreSpec
  import opened SetupProof
  import opened IndexProof
  import opened AddProof
  import opened Formats
  import opened Persistence
  import opened Protocol
  import History

  // ---------------------------------------------------------------- setup

  /** Every key the server stores is a digest, and every value fits in a file. */
  ghost predicate Storable(dict: map<Bytes, Bytes>) {
    Payloads(dict) && Keep32(dict) == dict
  }

  lemma LabelSize(cr: Suite, master: Bytes, w: Word, c: u64)
    requires cr.Valid()
    ensures |Label(cr, master, w, c)| == KEYLEN
  {
  }

  lemma SetupStorable(p: Params, ev: Event)
    requires p.Valid() && ev.Setup? && Indexed(ev.tokens, ev.fileids)
    requires IsSetupRequest(p.cr, p.size, ev.version, ev.key, ev.tokens, ev.fileids, ev.l)
    ensures Storable(Dict(ev.l)) && SmallBlocks(SentArray(p, ev))
  {
    hide Label, EncryptBlock, Dict, IsSetupRequest, SetupArray;
    var dict := Dict(ev.l);
    forall k | k in dict
      ensures |k| == KEYLEN && |dict[k]| < TWO64
    {
      var q := SomeEntry(ev.l, k);
      EntrySize(p, ev, q);
    }
    assert Keep32(dict) == dict;
    var m := SentArray(p, ev);
    forall b | b in m
      ensures |b| < TWO64
    {
      var i :| 0 <= i < |m| && m[i] == b;
      ArraySized(p.cr, p.size, ev.version, ev.key, ev.tokens, ev.fileids, i);
    }
  }

  lemma EntrySize(p: Params, ev: Event, q: SetupPair)
    requires p.Valid() && ev.Setup? && Indexed(ev.tokens, ev.fileids)
    requires IsSetupRequest(p.cr, p.size, ev.version, ev.key, ev.tokens, ev.fileids, ev.l)
    requires q in ev.l
    ensures |q.token| == KEYLEN && |q.fileId| < TWO64
  {
    hide HasBase, Label, EncryptBlock, IsSetupRequest, IndexBlocks;
    RequestHas(p.cr, p.size, ev.version, ev.key, ev.tokens, ev.fileids, ev.l, q);
    var w, base: nat, c: nat :| IsEntry(p.cr, p.size, ev.version, ev.key, ev.tokens, ev.fileids, w, base, c, q);
    BaseInTokens(p.size, ev.version, ev.tokens, ev.fileids, 0, w, base);
    BlocksSized(p.size, ev.version, ev.fileids[w], base);
    LabelSize(p.cr, ev.key, w, U64(c));
  }

  lemma SetupInv(p: Params, s: System, ev: Event)
    requires p.Valid() && ev.Setup? && Enabled(p, s, ev)
    ensures Inv(p, Step(p, s, ev), History.Apply(History.EMPTY, OpOf(ev)[0]), SentArray(p, ev))
  {
    hide IsSetupRequest, SetupArray, Dict, CollisionFree, IndexHolds, SetupLists, IsMapFile, IsRevFile, PrintBlocks,
         Label, IsAddPair;
    var m := SentArray(p, ev);
    SetupStorable(p, ev);
    assert m + [] == m;
    SetupEstablishes(p.cr, p.size, ev.version, ev.key, p.vocabulary, ev.tokens, ev.fileids, ev.l, []);
    SetupEstablishes(p.cr, p.size, ev.version, ev.key, p.vocabulary, ev.tokens, ev.fileids, ev.l, [[]]);
    NothingAdded(p.cr, ev.kplus, p.vocabulary);
  }

  lemma NothingAdded(cr: Suite, kplus: Bytes, vocabulary: set<Word>)
    ensures AddedHold(cr, kplus, vocabulary, map[], map[])
  {
  }

  // ---------------------------------------------------------------- add

  // The counters may change, for words that can be stored.
  lemma KeysSafeWith(p: Params, c: ClientState, dcount: map<Word, u64>)
    requires p.Valid() && KeysSafe(p, c) && dcount.Keys <= c.dcount.Keys + p.vocabulary
    ensures KeysSafe(p, c.(dcount := dcount))
  {
    hide CollisionFree;
  }

  lemma TouchCounts(dcount: map<Word, u64>, words: seq<Word>)
    ensures SameCounts(Touch(dcount, words), dcount)
  {
  }

  lemma SameWords(xs: seq<Word>, ys: seq<Word>)
    requires multiset(xs) == multiset(ys)
    ensures |xs| == |ys| && forall w :: w in xs <==> w in ys
  {
    assert |multiset(xs)| == |multiset(ys)|;
    assert forall w :: w in xs <==> w in multiset(xs);
    assert forall w :: w in ys <==> w in multiset(ys);
  }

  lemma AskAddSound(p: Params, s: System, ev: Event, model: History.Model, m: seq<Bytes>)
    requires p.Valid() && ev.AskAdd? && Enabled(p, s, ev) && Sound(p, s, model, m)
    ensures Sound(p, Step(p, s, ev), model, m)
  {
    hide CollisionFree, ListsHold, ArrayHolds, AddedHold, RevsHold, Sorted, Label, EncryptLong, KeysSafe, Touch;
    SameWords(ev.words, ev.w);
    TouchCounts(s.client.dcount, ev.words);
    TouchKeys(s.client.dcount, ev.words);
    KeysSafeWith(p, s.client, Touch(s.client.dcount, ev.words));
    var client := s.client.(dcount := Touch(s.client.dcount, ev.words));
    forall i | 0 <= i < |ev.w|
      ensures ev.w[i] in p.vocabulary && IsAddPair(p.cr, p.size, client, ev.id, ev.w[i], ev.pairs[i])
    {
      assert ev.w[i] in ev.words;
    }
  }

  lemma TouchKeys(dcount: map<Word, u64>, words: seq<Word>)
    ensures Touch(dcount, words).Keys == dcount.Keys + set w | w in words
  {
  }

  lemma {:induction false} SameCountsMove(a: map<Word, u64>, b: map<Word, u64>, r: seq<byte>, w: seq<Word>)
    requires SameCounts(a, b)
    ensures SameCounts(AddClient2(a, r, w).0, AddClient2(b, r, w).0) && AddClient2(a, r, w).1 == AddClient2(b, r, w).1
  {
    if r != [] {
      var n := |r| - 1;
      SameCountsMove(a, b, r[..n], w);
      var a1, b1 := AddClient2(a, r[..n], w).0, AddClient2(b, r[..n], w).0;
      assert r[..|r| - 1] == r[..n];
      forall x
        ensures CountOf(AddClient2(a, r, w).0, x) == CountOf(AddClient2(b, r, w).0, x)
      {
        assert CountOf(a1, x) == CountOf(b1, x);
        assert n < |w| ==> CountOf(a1, w[n]) == CountOf(b1, w[n]);
      }
    }
  }

  lemma {:induction false} CountedKeys(dcount: map<Word, u64>, r: seq<byte>, w: seq<Word>)
    ensures AddClient2(dcount, r, w).0.Keys <= dcount.Keys + set x | x in w
  {
    if r != [] {
      CountedKeys(dcount, r[..|r| - 1], w);
    }
  }

  lemma ServeAddSound(p: Params, s: System, ev: Event, model: History.Model, m: seq<Bytes>)
    requires p.Valid() && ev.ServeAdd? && Enabled(p, s, ev) && Sound(p, s, model, m)
    ensures Sound(p, Step(p, s, ev), History.Apply(model, OpOf(ev)[0]), m)
  {
    hide CollisionFree, ListsHold, ServerHolds, Saves, AddServer, IsAddPair, History.PutAll, AddClient2;
    var w, l := s.flight.w, s.flight.l;
    AddServerHolds(p.cr, p.size, s.client, p.vocabulary, s.server, l, w, ev.id, model);
    AddServerKeeps(s.server, l);
    History.PutEffect(model, ev.id, w, []);
    var (model', r) := History.PutAll(model, ev.id, w);
    SameCountsMove(s.client.dcount, model.counts, r, w);
    SavedHolds(p, s.client, AddServer(s.server, l).0, model', AddClient2(model.counts, r, w).0);
    SameListsHold(p, s.server.version, s.client.key, s.server.d, m, model, History.Apply(model, OpOf(ev)[0]));
  }

  // Adding changes nothing but Dplus and Srev.
  lemma {:induction false} AddServerKeeps(s: ServerState, l: seq<AddPair>)
    ensures var s' := AddServer(s, l).0;
            s'.version == s.version && s'.d == s.d && s'.a == s.a && s'.dirtyD == s.dirtyD
  {
    if l != [] {
      AddServerKeeps(s, l[..|l| - 1]);
    }
  }

  lemma {:induction false} ReplyShort(s: ServerState, l: seq<AddPair>)
    ensures |AddServer(s, l).1| <= |l|
  {
    if l != [] {
      ReplyShort(s, l[..|l| - 1]);
    }
  }

  lemma SavedHolds(p: Params, c: ClientState, s: ServerState, model: History.Model, counts: map<Word, u64>)
    requires ServerHolds(p.cr, c, p.vocabulary, s, model)
    ensures ServerHolds(p.cr, c, p.vocabulary, Saved(s), model.(counts := counts))
  {
    hide AddedHold, RevsHold;
  }

  lemma SameListsHold(p: Params, version: int, key: Bytes, d: map<Bytes, Bytes>, m: seq<Bytes>, model: History.Model,
      model': History.Model)
    requires ListsHold(p, version, key, d, m, model) && model'.version == model.version && model'.lists == model.lists
    ensures ListsHold(p, version, key, d, m, model')
  {
    hide IndexHolds;
  }

  lemma CountAddSound(p: Params, s: System, ev: Event, model: History.Model, m: seq<Bytes>)
    requires p.Valid() && ev.CountAdd? && Enabled(p, s, ev) && Sound(p, s, model, m)
    ensures AddClient2(s.client.dcount, s.flight.r, s.flight.w).1
    ensures Sound(p, Step(p, s, ev), model, m)
  {
    hide CollisionFree, ListsHold, ArrayHolds, AddedHold, RevsHold, AddClient2, KeysSafe;
    var w, r := s.flight.w, s.flight.r;
    History.CountsGrow(s.client.dcount, r, w, []);
    CountedKeys(s.client.dcount, r, w);
    KeysSafeWith(p, s.client, AddClient2(s.client.dcount, r, w).0);
  }

  // ---------------------------------------------------------------- delete

  lemma DeleteSound(p: Params, s: System, ev: Event, model: History.Model, m: seq<Bytes>)
    requires p.Valid() && ev.Delete? && Enabled(p, s, ev) && Sound(p, s, model, m)
    ensures Sound(p, Step(p, s, ev), History.Apply(model, OpOf(ev)[0]), m)
  {
    hide CollisionFree, ListsHold, AddedHold, RevsHold, Saves, InFlight, IsDeleteRequest, Known, History.Pairs;
    DeleteRevokes(p, s.client, ev.id, ev.words, ev.revIds, s.server.srev, model.revoked);
    SameFlight(p, s, Step(p, s, ev), model.counts);
    SameListsHold(p, s.server.version, s.client.key, s.server.d, m, model, History.Apply(model, OpOf(ev)[0]));
  }

  lemma SameFlight(p: Params, s: System, s': System, counts: map<Word, u64>)
    requires s'.client == s.client && s'.flight == s.flight && InFlight(p, s, counts)
    ensures InFlight(p, s', counts)
  {
  }

  lemma DeleteRevokes(p: Params, c: ClientState, id: u64, words: seq<Word>, l: seq<Bytes>, srev: set<Bytes>,
      revoked: set<(Word, u64)>)
    requires CollisionFree(p.cr, c.kminus, p.vocabulary) && Known(p, words)
    requires IsDeleteRequest(p.cr, c, id, words, l)
    requires RevsHold(p.cr, c.kminus, p.vocabulary, srev, revoked)
    ensures RevsHold(p.cr, c.kminus, p.vocabulary, srev + (set x | x in l), revoked + History.Pairs(id, words))
  {
    hide CollisionFree, Label, Sorted;
    forall w, i: u64 | w in p.vocabulary
      ensures Label(p.cr, c.kminus, w, i) in srev + (set x | x in l) <==> (w, i) in revoked + History.Pairs(id, words)
    {
      RevIdsHave(p, c, id, words, l, w, i);
    }
  }

  lemma RevIdsHave(p: Params, c: ClientState, id: u64, words: seq<Word>, l: seq<Bytes>, w: Word, i: u64)
    requires CollisionFree(p.cr, c.kminus, p.vocabulary) && Known(p, words) && w in p.vocabulary
    requires IsDeleteRequest(p.cr, c, id, words, l)
    ensures Label(p.cr, c.kminus, w, i) in l <==> i == id && w in words
  {
    hide CollisionFree, Label, Sorted;
    var ids := RevIds(p.cr, c, id, words);
    var lbl := Label(p.cr, c.kminus, w, i);
    assert lbl in l <==> lbl in multiset(l);
    assert lbl in ids <==> lbl in multiset(ids);
    if lbl in ids {
      var k :| 0 <= k < |ids| && ids[k] == lbl;
      assert words[k] in words;
      LabelsDiffer(p.cr, c.kminus, p.vocabulary, w, words[k], i, id);
    }
    if i == id && w in words {
      var k :| 0 <= k < |words| && words[k] == w;
      assert ids[k] == lbl;
    }
  }

  // ---------------------------------------------------------------- the directory

  // What the server stores after an addition fits in a file.
  lemma {:induction false} AddServerStorable(s: ServerState, l: seq<AddPair>)
    requires Storable(s.dplus) && forall q | q in l :: |q.token| == KEYLEN && |q.fileId| < TWO64
    ensures Storable(AddServer(s, l).0.dplus)
  {
    if l != [] {
      AddServerStorable(s, l[..|l| - 1]);
      var s1 := AddServer(s, l[..|l| - 1]).0;
      var q := l[|l| - 1];
      assert q in l;
      assert Keep32(s1.dplus[q.token := q.fileId]) == s1.dplus[q.token := q.fileId];
    }
  }

  lemma PairsStorable(p: Params, c: ClientState, id: u64, w: seq<Word>, l: seq<AddPair>, counts: map<Word, u64>)
    requires p.Valid() && HonestPairs(p.cr, p.size, c, p.vocabulary, id, w, l, counts)
    ensures forall q | q in l :: |q.token| == KEYLEN && |q.fileId| < TWO64
  {
    hide Label, EncryptLong;
    forall q | q in l
      ensures |q.token| == KEYLEN && |q.fileId| < TWO64
    {
      var i :| 0 <= i < |l| && l[i] == q;
      LabelSize(p.cr, c.kplus, w[i], CountOf(c.dcount, w[i]));
    }
  }

  lemma ServeAddStored(p: Params, s: System, ev: Event, model: History.Model, m: seq<Bytes>)
    requires p.Valid() && ev.ServeAdd? && Enabled(p, s, ev) && Inv(p, s, model, m)
    ensures Stored(Step(p, s, ev).disk, Step(p, s, ev).server, m)
  {
    hide CollisionFree, ListsHold, ServerHolds, HonestPairs, IsMapFile, IsRevFile, PrintBlocks, AddServer, Keep32,
         KeysSafe, SameCounts;
    PairsStorable(p, s.client, ev.id, s.flight.w, s.flight.l, model.counts);
    AddServerStorable(s.server, s.flight.l);
    AddServerKeeps(s.server, s.flight.l);
  }

  lemma DeleteStored(p: Params, s: System, ev: Event, model: History.Model, m: seq<Bytes>)
    requires p.Valid() && ev.Delete? && Enabled(p, s, ev) && Inv(p, s, model, m)
    ensures Stored(Step(p, s, ev).disk, Step(p, s, ev).server, m)
  {
    hide CollisionFree, ListsHold, ServerHolds, InFlight, IsMapFile, IsRevFile, PrintBlocks, KeysSafe,
         IsDeleteRequest;
  }

  // ---------------------------------------------------------------- restarts

  lemma RestartServerInv(p: Params, s: System, model: History.Model, m: seq<Bytes>)
    requires p.Valid() && Inv(p, s, model, m)
    ensures Inv(p, Step(p, s, RestartServer), model, m)
  {
    hide CollisionFree, ListsHold, AddedHold, RevsHold, IsMapFile, IsRevFile, PrintBlocks, InFlight, LoadServer,
         Rev32;
    LoadStored(s.disk, s.server, m);
    RevsOf32(p, s.client, s.server.srev, model.revoked);
    RevFileAgain(s.disk.srev.value, s.server.srev);
    SameFlight(p, s, Step(p, s, RestartServer), model.counts);
  }

  lemma RevFileAgain(file: Bytes, revs: set<Bytes>)
    requires IsRevFile(file, revs)
    ensures IsRevFile(file, Rev32(revs))
  {
    assert Rev32(Rev32(revs)) == Rev32(revs);
    RevFileOf32(file, revs, Rev32(revs));
  }

  lemma RevsOf32(p: Params, c: ClientState, srev: set<Bytes>, revoked: set<(Word, u64)>)
    requires p.Valid() && RevsHold(p.cr, c.kminus, p.vocabulary, srev, revoked)
    ensures RevsHold(p.cr, c.kminus, p.vocabulary, Rev32(srev), revoked)
  {
    hide Label;
    forall w, id: u64 | w in p.vocabulary
      ensures Label(p.cr, c.kminus, w, id) in Rev32(srev) <==> (w, id) in revoked
    {
      LabelSize(p.cr, c.kminus, w, id);
    }
  }

  lemma RestartClientSame(p: Params, s: System, ev: Event, model: History.Model, m: seq<Bytes>)
    requires p.Valid() && ev.RestartClient? && Enabled(p, s, ev) && Sound(p, s, model, m)
    ensures Step(p, s, ev) == s
  {
    hide CollisionFree, ListsHold, ServerHolds, Stored, InFlight, LoadClient, SavesClient;
    ClientRoundTrip(s.client, ev.clientFiles);
  }

  // ---------------------------------------------------------------- whole runs

  /** The array of the last Setup. */
  ghost function LastArray(p: Params, es: seq<Event>): seq<Bytes>
    requires p.size >= 1
  {
    if es == [] then []
    else
      var ev := es[|es| - 1];
      if ev.Setup? && Indexed(ev.tokens, ev.fileids) then SentArray(p, ev)
      else LastArray(p, es[..|es| - 1])
  }

  /** What the model is after an event. */
  function Next(model: History.Model, ev: Event): History.Model {
    if OpOf(ev) == [] then model else History.Apply(model, OpOf(ev)[0])
  }

  /** Requests, replies and client restarts keep memory and model together. */
  lemma StepSound(p: Params, s: System, ev: Event, model: History.Model, m: seq<Bytes>)
    requires p.Valid() && Enabled(p, s, ev) && !ev.Setup? && !ev.RestartServer? && Sound(p, s, model, m)
    ensures Sound(p, Step(p, s, ev), Next(model, ev), m)
  {
    hide Sound, Enabled, Step;
    match ev
    case AskAdd(_, _, _, _) => AskAddSound(p, s, ev, model, m);
    case ServeAdd(_, _, _) => ServeAddSound(p, s, ev, model, m);
    case CountAdd => CountAddSound(p, s, ev, model, m);
    case Delete(_, _, _, _) => DeleteSound(p, s, ev, model, m);
    case RestartClient(_) => RestartClientSame(p, s, ev, model, m);
  }

  lemma StepInv(p: Params, s: System, ev: Event, model: History.Model, m: seq<Bytes>)
    requires p.Valid() && Enabled(p, s, ev) && !ev.Setup? && Inv(p, s, model, m)
    ensures Inv(p, Step(p, s, ev), Next(model, ev), m)
  {
    hide Sound, Enabled, Step, Stored;
    if ev.RestartServer? {
      RestartServerInv(p, s, model, m);
    } else {
      StepSound(p, s, ev, model, m);
      match ev
      case AskAdd(_, _, _, _) => DiskStays(p, s, ev);
      case ServeAdd(_, _, _) => ServeAddStored(p, s, ev, model, m);
      case CountAdd => DiskStays(p, s, ev);
      case Delete(_, _, _, _) => DeleteStored(p, s, ev, model, m);
      case RestartClient(_) => DiskStays(p, s, ev);
    }
  }

  lemma DiskStays(p: Params, s: System, ev: Event)
    requires p.Valid() && Enabled(p, s, ev) && (ev.AskAdd? || ev.CountAdd? || ev.RestartClient?)
    ensures Step(p, s, ev).disk == s.disk && Step(p, s, ev).server == s.server
  {
    hide Enabled;
  }

  lemma SetupForgets(model: History.Model, op: History.Op)
    requires op.SetupOp?
    ensures History.Apply(model, op) == History.Apply(History.EMPTY, op)
  {
  }

  /** The invariant holds after every run. */
  lemma {:induction false} RunInv(p: Params, s0: System, es: seq<Event>)
    requires p.Valid() && IsRun(p, s0, es)
    ensures Inv(p, After(p, s0, es), History.ModelOf(Ops(es)), LastArray(p, es))
  {
    hide Inv, Enabled, Step, History.Apply, SetupArray;
    var init, ev := es[..|es| - 1], es[|es| - 1];
    LastStep(p, s0, es);
    var s := After(p, s0, init);
    OpsStep(es);
    if ev.Setup? {
      SetupInv(p, s, ev);
      SetupForgets(History.ModelOf(Ops(init)), OpOf(ev)[0]);
      SetupIndexed(p, s, ev);
    } else {
      assert init[0] == es[0];
      RunInv(p, s0, init);
      StepInv(p, s, ev, History.ModelOf(Ops(init)), LastArray(p, init));
    }
  }

  lemma SetupIndexed(p: Params, s: System, ev: Event)
    requires p.Valid() && ev.Setup? && Enabled(p, s, ev)
    ensures Indexed(ev.tokens, ev.fileids)
  {
  }

  lemma OpsStep(es: seq<Event>)
    requires es != []
    ensures var init, ev := es[..|es| - 1], es[|es| - 1];
            History.ModelOf(Ops(es)) == Next(History.ModelOf(Ops(init)), ev)
  {
    hide History.Apply, SetupLists;
    var init, ev := es[..|es| - 1], es[|es| - 1];
    if OpOf(ev) == [] {
      assert Ops(es) == Ops(init);
    } else {
      assert Ops(es)[..|Ops(es)| - 1] == Ops(init);
    }
  }

  lemma OpsLast(es: seq<Event>)
    requires es != []
    ensures Ops(es) == Ops(es[..|es| - 1]) + OpOf(es[|es| - 1])
  {
  }

  /** In a run no counter wraps around. */
  lemma {:induction false} RunFits(p: Params, s0: System, es: seq<Event>)
    requires p.Valid() && IsRun(p, s0, es)
    ensures History.NoWrap(Ops(es))
  {
    hide Enabled, Step, History.Fits, History.ModelOf, OpOf;
    var init, ev := es[..|es| - 1], es[|es| - 1];
    var h := Ops(init);
    if init != [] {
      assert init[0] == es[0];
      RunFits(p, s0, init);
    }
    if OpOf(ev) == [] {
      assert Ops(es) == h;
    } else {
      assert Ops(es) == h + [OpOf(ev)[0]] by { AtMostOne(ev); }
      EventFits(p, s0, es);
      FitsAppend(h, OpOf(ev)[0]);
    }
  }

  lemma AtMostOne(ev: Event)
    ensures |OpOf(ev)| <= 1
  {
  }

  lemma FitsAppend(h: seq<History.Op>, op: History.Op)
    requires History.NoWrap(h) && History.Fits(History.ModelOf(h), op)
    ensures History.NoWrap(h + [op])
  {
    hide History.Fits, History.ModelOf;
    forall n | 0 <= n < |h + [op]|
      ensures History.Fits(History.ModelOf((h + [op])[..n]), (h + [op])[n])
    {
      assert n < |h| ==> (h + [op])[..n] == h[..n];
      assert n == |h| ==> (h + [op])[..n] == h;
    }
  }

  lemma EventFits(p: Params, s0: System, es: seq<Event>)
    requires p.Valid() && IsRun(p, s0, es) && OpOf(es[|es| - 1]) != []
    ensures History.Fits(History.ModelOf(Ops(es[..|es| - 1])), OpOf(es[|es| - 1])[0])
  {
    hide Runs, After, LastEnabled, Enabled, Step, Sound, Stored, History.Fits, History.ModelOf, Ops;
    var init, ev := es[..|es| - 1], es[|es| - 1];
    LastStep(p, s0, es);
    if ev.ServeAdd? {
      assert init != [] && init[0] == es[0];
      RunInv(p, s0, init);
      FlightFits(p, After(p, s0, init), ev, History.ModelOf(Ops(init)), LastArray(p, init));
    } else {
      OthersFit(History.ModelOf(Ops(init)), OpOf(ev)[0]);
    }
  }

  lemma OthersFit(model: History.Model, op: History.Op)
    requires !op.AddOp?
    ensures History.Fits(model, op)
  {
  }

  lemma FlightFits(p: Params, s: System, ev: Event, model: History.Model, m: seq<Bytes>)
    requires p.Valid() && ev.ServeAdd? && Enabled(p, s, ev) && Sound(p, s, model, m)
    ensures History.Fits(model, OpOf(ev)[0])
  {
    hide ListsHold, ServerHolds, KeysSafe, ArrayHolds, HonestPairs, SameCounts, AddServer, Saves, Sorted;
  }
}
