/**
 * Where the protocol stops keeping its promises, and exactly when: repeated words in one addition,
 * counters that outlive a Setup, restarts before the first Setup.
 */
module Limits {
  import opened Octets
  import opened Crypto
  import opened Ordering
  import opened CoreSpec
  import opened SpecFacts
  import opened IndexProof
  import opened AddProof
  import opened Persistence
  import opened Streams
  import Formats
  import opened Protocol
  import opened ProtocolProof
  import opened Theorems
  import opened Orderly
  import History

  // ---------------------------------------------------------------- repeated words

  // The reply is that of the model.
  lemma ReplyOfModel(p: Params, s0: System, es: seq<Event>, ev: Event)
    requires p.Valid() && IsRun(p, s0, es) && ev.ServeAdd? && Enabled(p, After(p, s0, es), ev)
    ensures Step(p, After(p, s0, es), ev).flight.Replied?
    ensures Step(p, After(p, s0, es), ev).flight.r == History.PutAll(History.ModelOf(Ops(es)), ev.id, ev.w).1
  {
    hide Label, ListsHold, CollisionFree, Runs, After, History.ModelOf, Ops, IsAddPair, AddServer, LastArray,
         History.PutAll, Stored, ServerHolds;
    RunInv(p, s0, es);
    var s := After(p, s0, es);
    AddServerHolds(p.cr, p.size, s.client, p.vocabulary, s.server, s.flight.l, ev.w, ev.id, History.ModelOf(Ops(es)));
  }

  /**
   * After every run, the reply has as many bits as there are pairs, and so lines up with the words, if
   * and only if no word is named more often than it has room: once if its next counter is free, and once
   * more if its pair is revoked. In step the next counters are free.
   */
  lemma AlignedIff(p: Params, s0: System, es: seq<Event>, ev: Event)
    requires p.Valid() && IsRun(p, s0, es) && ev.ServeAdd? && Enabled(p, After(p, s0, es), ev)
    ensures Step(p, After(p, s0, es), ev).flight.Replied?
    ensures |Step(p, After(p, s0, es), ev).flight.r| == |ev.w|
            <==> forall x :: multiset(ev.w)[x] <= Allowance(History.ModelOf(Ops(es)), ev.id, x)
    ensures InStep(Ops(es)) ==>
              forall x :: Allowance(History.ModelOf(Ops(es)), ev.id, x) == 1 + History.Room(Revoked(Ops(es)), ev.id, x)
  {
    hide *;
    ReplyOfModel(p, s0, es, ev);
    ReplyComplete(History.ModelOf(Ops(es)), ev.id, ev.w);
    if InStep(Ops(es)) {
      forall x
        ensures Allowance(History.ModelOf(Ops(es)), ev.id, x) == 1 + History.Room(Revoked(Ops(es)), ev.id, x)
      {
        InStepAllowance(Ops(es), ev.id, x);
      }
    }
  }

  // Keys with the same label differ only behind it.
  lemma LabelFirst(a: AddPair, b: AddPair)
    requires |a.token| == |b.token| && a.token != b.token && !LexLess(AddKey(b), AddKey(a))
    ensures LexLess(a.token, b.token)
  {
    var i := FirstDiff(a.token, b.token);
    assert AddKey(a) == [] + a.token + (a.fileId + a.revId) && AddKey(b) == [] + b.token + (b.fileId + b.revId);
    FieldDecides([], b.token, a.token, b.fileId + b.revId, a.fileId + a.revId, i);
    FirstDifference(a.token, b.token, i);
  }

  lemma {:induction false} FirstDiff(a: Bytes, b: Bytes) returns (i: nat)
    requires |a| == |b| && a != b
    ensures i < |a| && a[..i] == b[..i] && a[i] != b[i]
  {
    if a[0] != b[0] {
      i := 0;
    } else {
      assert a == [a[0]] + a[1..] && b == [b[0]] + b[1..];
      i := FirstDiff(a[1..], b[1..]);
      assert a[..i + 1] == [a[0]] + a[1..][..i] && b[..i + 1] == [b[0]] + b[1..][..i];
      i := i + 1;
    }
  }

  /** A sorted request has equal words next to each other. */
  lemma RequestGrouped(p: Params, c: ClientState, id: u64, w: seq<Word>, l: seq<AddPair>)
    requires p.Valid() && CollisionFree(p.cr, c.kplus, p.vocabulary) && Known(p, w)
    requires |l| == |w| && Sorted(l, AddKey) && forall i | 0 <= i < |w| :: IsAddPair(p.cr, p.size, c, id, w[i], l[i])
    ensures Grouped(w)
  {
    hide Label, CollisionFree, EncryptLong, LexLess, AddKey;
    forall i, j, k | 0 <= i < j < k < |w| && w[i] == w[k]
      ensures w[j] == w[i]
    {
      LabelSize(p.cr, c.kplus, w[i], CountOf(c.dcount, w[i]));
      LabelSize(p.cr, c.kplus, w[j], CountOf(c.dcount, w[j]));
      if l[i].token != l[j].token {
        LabelFirst(l[i], l[j]);
        LabelFirst(l[j], l[k]);
        Transitive(l[i].token, l[j].token, l[k].token);
        Irreflexive(l[i].token);
      }
      LabelsDiffer(p.cr, c.kplus, p.vocabulary, w[i], w[j], CountOf(c.dcount, w[i]), CountOf(c.dcount, w[j]));
    }
  }

  lemma FlightGrouped(p: Params, s0: System, es: seq<Event>, ev: Event)
    requires p.Valid() && IsRun(p, s0, es) && ev.ServeAdd? && Enabled(p, After(p, s0, es), ev)
    ensures Grouped(ev.w) && Known(p, ev.w)
    ensures History.Fits(History.ModelOf(Ops(es)), History.AddOp(ev.id, ev.w))
  {
    hide ListsHold, CollisionFree, Runs, After, History.ModelOf, Ops, IsAddPair, LastArray, Stored, ServerHolds,
         Sorted, Grouped, Saves;
    RunInv(p, s0, es);
    var s := After(p, s0, es);
    RequestGrouped(p, s.client, ev.id, ev.w, s.flight.l);
  }

  /** In memory, the labels of every word in Dplus run from its old counter up to the client's counter. */
  ghost predicate InStepMemory(p: Params, s: System, h: seq<History.Op>) {
    forall w | w in p.vocabulary :: InStepWord(p, s, OldCount(h, w), w)
  }

  ghost predicate InStepWord(p: Params, s: System, first: u64, w: Word) {
    && first <= CountOf(s.client.dcount, w)
    && forall c: u64 :: Label(p.cr, s.client.kplus, w, c) in s.server.dplus
        <==> first <= c < CountOf(s.client.dcount, w)
  }

  lemma MemoryIsModel(p: Params, s: System, model: History.Model, m: seq<Bytes>, first: u64, w: Word)
    requires p.Valid() && Sound(p, s, model, m) && s.flight.Idle? && w in p.vocabulary
    ensures InStepWord(p, s, first, w) <==> InStepAt(model, first, w)
  {
    hide Label, ListsHold, ArrayHolds, KeysSafe, AddedHold, RevsHold;
    forall c: u64
      ensures Label(p.cr, s.client.kplus, w, c) in s.server.dplus <==> (w, c) in model.entries
    {
      TokenUsed(p.cr, s.client.kplus, p.vocabulary, s.server.dplus, model.entries, w, c);
    }
    assert CountOf(s.client.dcount, w) == CountOf(model.counts, w);
  }

  /**
   * Once its reply is counted, an addition with any words, repeated or not, has kept client and server in
   * step if and only if every pair to be stored finds its own word at the place of its bit: the bits
   * before it are those of first pairs, and of second pairs whose first clears a revocation.
   */
  lemma InStepIff(p: Params, s0: System, es: seq<Event>, ev: Event)
    requires p.Valid() && IsRun(p, s0, es) && InStep(Ops(es))
    requires ev.ServeAdd? && Enabled(p, After(p, s0, es), ev)
    ensures IsRun(p, s0, es + [ev, CountAdd])
    ensures InStepMemory(p, After(p, s0, es + [ev, CountAdd]), Ops(es))
            <==> CountsRight(Revoked(Ops(es)), ev.id, ev.w)
  {
    hide Enabled, Step, Runs, After, Ops, LastArray, Inv, Sound, History.ModelOf, History.PutAll, History.Fits,
         Grouped, CountsRight, InStep, InStepMemory, Revoked, OldCount, Known;
    var op, h := History.AddOp(ev.id, ev.w), Ops(es);
    FlightGrouped(p, s0, es, ev);
    RepeatsInStep(h, ev.id, ev.w);
    TwoMore(p, s0, es, ev);
    var all := es + [ev, CountAdd];
    RunInv(p, s0, all);
    InvSound(p, After(p, s0, all), History.ModelOf(h + [op]), LastArray(p, all));
    StepsTold(p, After(p, s0, all), h, op, LastArray(p, all));
  }

  lemma InvSound(p: Params, s: System, model: History.Model, m: seq<Bytes>)
    requires Inv(p, s, model, m)
    ensures Sound(p, s, model, m)
  {
    hide Sound;
  }

  // The run goes on with the answer and its count.
  lemma TwoMore(p: Params, s0: System, es: seq<Event>, ev: Event)
    requires p.Valid() && IsRun(p, s0, es) && ev.ServeAdd? && Enabled(p, After(p, s0, es), ev)
    ensures IsRun(p, s0, es + [ev, CountAdd]) && Ops(es + [ev, CountAdd]) == Ops(es) + [History.AddOp(ev.id, ev.w)]
    ensures After(p, s0, es + [ev, CountAdd]).flight.Idle?
  {
    hide AddServer, AddClient2, Saves, Runs, After, Ops;
    var one := es + [ev];
    assert es + [ev, CountAdd] == one + [CountAdd] && one[0] == es[0];
    Extend(p, s0, es, ev);
    Extend(p, s0, one, CountAdd);
  }

  lemma StepsTold(p: Params, s: System, h: seq<History.Op>, op: History.Op, m: seq<Bytes>)
    requires p.Valid() && Sound(p, s, History.ModelOf(h + [op]), m) && s.flight.Idle?
    requires InStep(h) && op.AddOp? && Known(p, op.words) && History.Fits(History.ModelOf(h), op)
    ensures InStepMemory(p, s, h) <==> InStep(h + [op])
  {
    hide Sound, History.ModelOf, OldCount, InStepAt, InStepWord;
    var model := History.ModelOf(h + [op]);
    forall w
      ensures OldCount(h + [op], w) == OldCount(h, w)
      ensures w in p.vocabulary ==> (InStepWord(p, s, OldCount(h, w), w) <==> InStepAt(model, OldCount(h + [op], w), w))
      ensures w !in p.vocabulary ==> InStepAt(model, OldCount(h + [op], w), w)
    {
      SameStart(h, op, w);
      if w in p.vocabulary {
        MemoryIsModel(p, s, model, m, OldCount(h, w), w);
      } else {
        assert InStepAt(History.ModelOf(h), OldCount(h, w), w);
        UnnamedInStep(h, op.id, op.words, w);
      }
    }
    if InStepMemory(p, s, h) {
      forall w
        ensures InStepAt(model, OldCount(h + [op], w), w)
      {
        assert w in p.vocabulary ==> InStepWord(p, s, OldCount(h, w), w);
      }
    } else {
      var w :| w in p.vocabulary && !InStepWord(p, s, OldCount(h, w), w);
      assert !InStepAt(model, OldCount(h + [op], w), w);
    }
  }

  // ---------------------------------------------------------------- stale counters

  /**
   * SetupServer forgets the added entries, SetupClient keeps the counters. However many additions and
   * deletions follow, the ids added to a word are found if and only if its client had not counted it
   * before Setup, or none of them is left.
   */
  lemma StaleCounter(p: Params, s0: System, es: seq<Event>, w: Word)
    requires p.Valid() && IsRun(p, s0, es) && w in p.vocabulary && OrderlyAdds(Ops(es))
    ensures var h := Ops(es);
            SearchResult(p, After(p, s0, es), w) == LoadedLeft(h, w) + AppendedLeft(h, w)
            <==> OldCount(h, w) == 0 || AppendedLeft(h, w) == []
  {
    hide *;
    ListLaw(p, s0, es, w);
  }

  // ---------------------------------------------------------------- before the first Setup

  /** A server process started on a directory without the file D, and any client. */
  ghost predicate Blank(p: Params, s: System) {
    s.server == FRESH && s.disk.d.None? && s.flight.Idle? && KeysSafe(p, s.client)
  }

  /** Any client meets such a server on a directory in which nothing was ever saved. */
  lemma EmptyStart(p: Params, c: ClientState)
    requires KeysSafe(p, c)
    ensures Blank(p, System(c, LoadServer(NO_FILES).1, NO_FILES, Idle))
  {
    hide KeysSafe;
    EmptyDirectory();
  }

  /** Additions, deletions and client restarts only. */
  ghost predicate NoSetup(es: seq<Event>) {
    forall ev | ev in es :: !ev.Setup? && !ev.RestartServer?
  }

  /** What the requests mean when there is no index yet. */
  function BlankOps(c: ClientState, es: seq<Event>): seq<History.Op> {
    [History.SetupOp(BASIC, map[], c.dcount)] + Ops(es)
  }

  lemma BlankSound(p: Params, s: System)
    requires p.Valid() && Blank(p, s)
    ensures Sound(p, s, History.ModelOf(BlankOps(s.client, [])), [])
  {
    hide KeysSafe;
    var op := History.SetupOp(BASIC, map[], s.client.dcount);
    assert BlankOps(s.client, []) == [op] && [op][..0] == [];
    assert History.ModelOf([op]) == History.Apply(History.EMPTY, op);
    NothingAdded(p.cr, s.client.kplus, p.vocabulary);
  }

  /** Memory follows the model, and no file D is written. */
  lemma {:induction false} BlankRun(p: Params, s0: System, es: seq<Event>)
    requires p.Valid() && Blank(p, s0) && Runs(p, s0, es) && NoSetup(es)
    ensures Sound(p, After(p, s0, es), History.ModelOf(BlankOps(s0.client, es)), [])
    ensures After(p, s0, es).disk.d.None?
  {
    hide Sound, Enabled, Step, History.Apply, Blank;
    if es == [] {
      BlankSound(p, s0);
      BlankDisk(p, s0);
    } else {
      var init, ev := es[..|es| - 1], es[|es| - 1];
      var s := After(p, s0, init);
      BlankRun(p, s0, init);
      StepSound(p, s, ev, History.ModelOf(BlankOps(s0.client, init)), []);
      StillNoD(p, s, ev, History.ModelOf(BlankOps(s0.client, init)));
      var h0, h := BlankOps(s0.client, init), BlankOps(s0.client, es);
      AtMostOne(ev);
      if OpOf(ev) == [] {
        assert h == h0;
      } else {
        assert h[..|h| - 1] == h0 && h[|h| - 1] == OpOf(ev)[0];
      }
    }
  }

  lemma BlankDisk(p: Params, s: System)
    requires Blank(p, s)
    ensures s.disk.d.None?
  {
  }

  lemma StillNoD(p: Params, s: System, ev: Event, model: History.Model)
    requires p.Valid() && Enabled(p, s, ev) && !ev.Setup? && !ev.RestartServer? && Sound(p, s, model, [])
            && s.disk.d.None?
    ensures Step(p, s, ev).disk.d.None?
  {
    hide ListsHold, ServerHolds, KeysSafe, InFlight, Formats.IsMapFile, Formats.IsRevFile, AddServer;
    if ev.ServeAdd? {
      AddServerKeeps(s.server, s.flight.l);
    }
  }

  /** Without the file D a restarted server answers nothing. */
  lemma NothingAnswered(p: Params, s: System, w: Word)
    requires p.Valid() && s.disk.d.None?
    ensures SearchResult(p, Step(p, s, RestartServer), w) == []
  {
  }

  /** A search before the first Setup ends, reads safely, and finds a version it knows. */
  lemma BlankSearch(p: Params, s0: System, es: seq<Event>, w: Word)
    requires p.Valid() && Blank(p, s0) && Runs(p, s0, es) && NoSetup(es) && w in p.vocabulary
    ensures var s := After(p, s0, es); var t := SearchClient(p.cr, s.client, w);
            && s.server.version == 0
            && CountersDistinct(p.cr, t.k1) && CountersDistinct(p.cr, t.k1plus)
            && SafeSearch(p.cr, p.size, s.server, t)
  {
    hide Runs, After, Sound, Blank, SearchResult, SafeSearch, CountersDistinct;
    BlankRun(p, s0, es);
    BlankVersion(s0.client, es);
    var s, model := After(p, s0, es), History.ModelOf(BlankOps(s0.client, es));
    SoundVersion(p, s, model, []);
    SoundEnds(p, s, model, [], w);
    SoundAnswers(p, s, model, [], w);
  }

  lemma SoundVersion(p: Params, s: System, model: History.Model, m: seq<Bytes>)
    requires Sound(p, s, model, m)
    ensures s.server.version == model.version
  {
    hide KeysSafe, ServerHolds, InFlight, IndexHolds;
  }

  lemma BlankVersion(c: ClientState, es: seq<Event>)
    requires NoSetup(es)
    ensures History.ModelOf(BlankOps(c, es)).version == BASIC
  {
    hide History.ModelOf, BlankOps;
    BlankSetup(c, es);
    MachineKeeps(BlankOps(c, es));
  }

  /**
   * Restarted on the directory of such a run, the server is again one that has not seen a Setup: what the
   * run saved is the version Basic, and additions that cannot be loaded.
   */
  lemma {:induction false} StillBlank(p: Params, s0: System, es: seq<Event>)
    requires p.Valid() && Blank(p, s0) && LoadServer(s0.disk).1 == FRESH && Runs(p, s0, es) && NoSetup(es)
    ensures LoadServer(After(p, s0, es).disk).1 == FRESH
    ensures After(p, s0, es).flight.Idle? ==> Blank(p, Step(p, After(p, s0, es), RestartServer))
  {
    hide Sound, Enabled, Step, Blank, LoadServer, Runs, LastEnabled, History.ModelOf, BlankOps;
    var s, model := After(p, s0, es), History.ModelOf(BlankOps(s0.client, es));
    BlankRun(p, s0, es);
    if es != [] {
      var init, ev := es[..|es| - 1], es[|es| - 1];
      LastStep(p, s0, es);
      assert forall e | e in init :: e in es;
      StillBlank(p, s0, init);
      BlankRun(p, s0, init);
      assert ev in es;
      BlankVersion(s0.client, init);
      StillLoads(p, After(p, s0, init), ev, History.ModelOf(BlankOps(s0.client, init)));
    }
    LoadedBlank(p, s, model);
  }

  lemma StillLoads(p: Params, s: System, ev: Event, model: History.Model)
    requires p.Valid() && Enabled(p, s, ev) && !ev.Setup? && !ev.RestartServer? && Sound(p, s, model, [])
    requires s.disk.d.None? && LoadServer(s.disk).1 == FRESH && model.version == BASIC
    ensures LoadServer(Step(p, s, ev).disk).1 == FRESH
  {
    hide ListsHold, ServerHolds, KeysSafe, InFlight, Formats.IsMapFile, Formats.IsRevFile, AddServer, ExtractInt,
         NothingLeft, LoadClient, AddClient2, IsAddRequest, IsDeleteRequest, SavesClient;
    StillNoD(p, s, ev, model);
    SoundVersion(p, s, model, []);
    if ev.ServeAdd? {
      AddServerKeeps(s.server, s.flight.l);
    }
    ExtractPrintedInt(BASIC);
  }

  lemma LoadedBlank(p: Params, s: System, model: History.Model)
    requires p.Valid() && Sound(p, s, model, []) && s.disk.d.None? && LoadServer(s.disk).1 == FRESH
    ensures s.flight.Idle? ==> Blank(p, Step(p, s, RestartServer))
  {
    hide ListsHold, ServerHolds, KeysSafe, LoadServer;
  }

  // No counter wraps around before the first Setup either.
  lemma {:induction false} BlankFits(p: Params, s0: System, es: seq<Event>)
    requires p.Valid() && Blank(p, s0) && Runs(p, s0, es) && NoSetup(es)
    ensures History.NoWrap(BlankOps(s0.client, es))
  {
    hide Sound, Enabled, Step, History.Apply, Blank, History.Fits, History.ModelOf, Runs, After, LastEnabled;
    if es == [] {
      BlankStart(s0.client);
    } else {
      var init, ev := es[..|es| - 1], es[|es| - 1];
      LastStep(p, s0, es);
      BlankFits(p, s0, init);
      var h0, h := BlankOps(s0.client, init), BlankOps(s0.client, es);
      AtMostOne(ev);
      if OpOf(ev) == [] {
        assert h == h0;
      } else {
        assert h == h0 + [OpOf(ev)[0]];
        BlankRun(p, s0, init);
        if ev.ServeAdd? {
          FlightFits(p, After(p, s0, init), ev, History.ModelOf(h0), []);
        } else {
          assert ev in es;
          OthersFit(History.ModelOf(h0), OpOf(ev)[0]);
        }
        FitsAppend(h0, OpOf(ev)[0]);
      }
    }
  }

  lemma BlankStart(c: ClientState)
    ensures History.NoWrap(BlankOps(c, []))
  {
  }

  /** Before the first Setup, a search answers what the model does, and nothing after a restart. */
  lemma BlankAnswers(p: Params, s0: System, es: seq<Event>, w: Word)
    requires p.Valid() && Blank(p, s0) && Runs(p, s0, es) && NoSetup(es) && w in p.vocabulary
    ensures SearchResult(p, After(p, s0, es), w) == History.Answer(History.ModelOf(BlankOps(s0.client, es)), w)
    ensures SearchResult(p, Step(p, After(p, s0, es), RestartServer), w) == []
  {
    hide Sound, Runs, After, Step, SearchResult, History.ModelOf, BlankOps, Blank, History.Answer;
    BlankRun(p, s0, es);
    NothingAnswered(p, After(p, s0, es), w);
    SoundAnswers(p, After(p, s0, es), History.ModelOf(BlankOps(s0.client, es)), [], w);
  }

  /**
   * Before the first Setup the server saves Dplus and Srev, but a restart cannot load them, because it
   * stops at the missing file D. After any additions of distinct words and any deletions, a restart
   * changes no answer if and only if no word that the client counts from zero has an added id that was
   * not deleted again.
   */
  lemma RestartBeforeSetup(p: Params, s0: System, es: seq<Event>)
    requires p.Valid() && Blank(p, s0) && Runs(p, s0, es) && NoSetup(es) && OrderlyAdds(Ops(es))
    ensures var s := After(p, s0, es);
            (forall w | w in p.vocabulary :: SearchResult(p, Step(p, s, RestartServer), w) == SearchResult(p, s, w))
            <==> forall w | w in p.vocabulary ::
                   CountOf(s0.client.dcount, w) > 0 || AppendedLeft(BlankOps(s0.client, es), w) == []
  {
    hide Sound, Runs, After, Step, SearchResult, History.ModelOf, Blank, History.Answer, History.NoWrap, AppendedLeft,
         LoadedLeft, BlankOps, Ops;
    var s, h := After(p, s0, es), BlankOps(s0.client, es);
    BlankFits(p, s0, es);
    BlankOrderly(s0.client, es);
    BlankSetup(s0.client, es);
    forall w | w in p.vocabulary
      ensures SearchResult(p, Step(p, s, RestartServer), w) == SearchResult(p, s, w)
              <==> CountOf(s0.client.dcount, w) > 0 || AppendedLeft(h, w) == []
    {
      BlankAnswers(p, s0, es, w);
      AnswerOfLists(h, w);
      NothingLoaded(h, w);
    }
  }

  lemma BlankOrderly(c: ClientState, es: seq<Event>)
    requires OrderlyAdds(Ops(es))
    ensures OrderlyAdds(BlankOps(c, es))
  {
    var h := BlankOps(c, es);
    assert forall n | 1 <= n < |h| :: h[n] == Ops(es)[n - 1];
  }

  lemma NothingLoaded(h: seq<History.Op>, w: Word)
    requires LastSetup(h).lists == map[]
    ensures LoadedLeft(h, w) == []
  {
    DeliveredNothing(LastSetup(h).version);
  }

  lemma {:induction false} BlankSetup(c: ClientState, es: seq<Event>)
    requires NoSetup(es)
    ensures LastSetup(BlankOps(c, es)) == History.SetupOp(BASIC, map[], c.dcount)
  {
    var h := BlankOps(c, es);
    if es == [] {
      assert h == [History.SetupOp(BASIC, map[], c.dcount)];
    } else {
      var init, ev := es[..|es| - 1], es[|es| - 1];
      BlankSetup(c, init);
      assert ev in es;
      if OpOf(ev) == [] {
        assert h == BlankOps(c, init);
      } else {
        assert h[..|h| - 1] == BlankOps(c, init) && h[|h| - 1] == OpOf(ev)[0];
      }
    }
  }
}
