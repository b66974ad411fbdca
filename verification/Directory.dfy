/** What the two directories hold: after any run, and as text. */
module Directory {
  import opened Octets
  import opened Crypto
  import opened CoreSpec
  import opened AddProof
  import opened Streams
  import opened Formats
  import opened Persistence
  import opened Protocol
  import opened ProtocolProof
  import History

  // ---------------------------------------------------------------- the index is written once

  /** The directory that the last Setup left. */
  function LastFiles(es: seq<Event>): Disk {
    if es == [] then NO_FILES
    else if es[|es| - 1].Setup? then es[|es| - 1].files
    else LastFiles(es[..|es| - 1])
  }

  lemma IndexStays(p: Params, s: System, ev: Event, model: History.Model, m: seq<Bytes>)
    requires p.Valid() && Enabled(p, s, ev) && !ev.Setup? && Sound(p, s, model, m)
    ensures Step(p, s, ev).disk.d == s.disk.d && Step(p, s, ev).disk.a == s.disk.a
  {
    hide ListsHold, ServerHolds, KeysSafe, InFlight, IsMapFile, IsRevFile, AddServer, LoadServer, LoadClient,
         IsAddRequest, IsDeleteRequest, SavesClient, PrintBlocks, AddClient2;
    if ev.ServeAdd? {
      AddServerKeeps(s.server, s.flight.l);
    }
  }

  /** No addition, deletion or restart writes the files D and A again: they are those of the last Setup. */
  lemma {:induction false} IndexSavedOnce(p: Params, s0: System, es: seq<Event>)
    requires p.Valid() && IsRun(p, s0, es)
    ensures After(p, s0, es).disk.d == LastFiles(es).d && After(p, s0, es).disk.a == LastFiles(es).a
    ensures !After(p, s0, es).server.dirtyD
  {
    hide Enabled, Step, Runs, After, LastEnabled, Sound, History.ModelOf, LastArray, Stored;
    var init, ev := es[..|es| - 1], es[|es| - 1];
    LastStep(p, s0, es);
    RunInv(p, s0, es);
    NotDirty(p, After(p, s0, es), History.ModelOf(Ops(es)), LastArray(p, es));
    if ev.Setup? {
      SetupWrites(p, After(p, s0, init), ev);
    } else {
      assert init[0] == es[0];
      IndexSavedOnce(p, s0, init);
      RunInv(p, s0, init);
      IndexStays(p, After(p, s0, init), ev, History.ModelOf(Ops(init)), LastArray(p, init));
    }
  }

  lemma SetupWrites(p: Params, s: System, ev: Event)
    requires p.Valid() && Enabled(p, s, ev) && ev.Setup?
    ensures Step(p, s, ev).disk == ev.files
  {
    hide Enabled;
  }

  lemma NotDirty(p: Params, s: System, model: History.Model, m: seq<Bytes>)
    requires Sound(p, s, model, m)
    ensures !s.server.dirtyD
  {
    hide KeysSafe, ListsHold, ServerHolds, InFlight;
  }

  // ---------------------------------------------------------------- the counted words

  /** The words with a counter: those the client had at Setup, and all that were ever to be added since. */
  function Counted(es: seq<Event>): set<Word> {
    if es == [] then {}
    else
      match es[|es| - 1]
      case Setup(_, _, _, _, _, _, counts, _, _) => counts.Keys
      case AskAdd(_, words, _, _) => Counted(es[..|es| - 1]) + set w | w in words
      case _ => Counted(es[..|es| - 1])
  }

  ghost predicate FlightCounted(s: System) {
    match s.flight
    case Idle => true
    case Asked(_, w, _) => forall x | x in w :: x in s.client.dcount
    case Replied(_, w, _) => forall x | x in w :: x in s.client.dcount
  }

  lemma CountedStep(p: Params, s: System, ev: Event, counted: set<Word>)
    requires p.Valid() && Enabled(p, s, ev) && FlightCounted(s) && s.client.dcount.Keys == counted
    requires ev.RestartClient? ==> Step(p, s, ev) == s
    ensures FlightCounted(Step(p, s, ev))
    ensures Step(p, s, ev).client.dcount.Keys
            == match ev
               case Setup(_, _, _, _, _, _, counts, _, _) => counts.Keys
               case AskAdd(_, words, _, _) => counted + set w | w in words
               case _ => counted
  {
    hide Saves, AddServer, LoadServer, LoadClient, IsDeleteRequest, SavesClient, AddClient2, Touch, FreshKeys,
         IsAddPair;
    match ev
    case AskAdd(_, words, _, w) =>
      TouchKeys(s.client.dcount, words);
      SameWords(words, w);
    case CountAdd =>
      CountedKeys(s.client.dcount, s.flight.r, s.flight.w);
      KeysKept(s.client.dcount, s.flight.r, s.flight.w);
    case _ =>
  }

  lemma {:induction false} KeysKept(dcount: map<Word, u64>, r: seq<byte>, w: seq<Word>)
    ensures dcount.Keys <= AddClient2(dcount, r, w).0.Keys
  {
    if r != [] {
      KeysKept(dcount, r[..|r| - 1], w);
    }
  }

  /** After every run the file Dcount has a line for exactly these words, also for those never stored. */
  lemma {:induction false} CountedWords(p: Params, s0: System, es: seq<Event>)
    requires p.Valid() && IsRun(p, s0, es)
    ensures After(p, s0, es).client.dcount.Keys == Counted(es) && FlightCounted(After(p, s0, es))
  {
    hide Enabled, Step, Runs, After, LastEnabled, Sound, History.ModelOf, LastArray, Stored, FlightCounted;
    var init, ev := es[..|es| - 1], es[|es| - 1];
    LastStep(p, s0, es);
    if init != [] {
      assert init[0] == es[0];
      CountedWords(p, s0, init);
      if ev.RestartClient? {
        RunInv(p, s0, init);
        RestartClientSame(p, After(p, s0, init), ev, History.ModelOf(Ops(init)), LastArray(p, init));
      }
      CountedStep(p, After(p, s0, init), ev, Counted(init));
    } else {
      SetupCounts(p, After(p, s0, init), ev);
    }
  }

  lemma SetupCounts(p: Params, s: System, ev: Event)
    requires p.Valid() && Enabled(p, s, ev) && ev.Setup?
    ensures FlightCounted(Step(p, s, ev)) && Step(p, s, ev).client.dcount == ev.counts
  {
    hide Enabled;
  }

  // ---------------------------------------------------------------- the size of added entries

  /** Every added entry is as long as an encrypted block, though it holds one id. */
  ghost predicate BlockSized(p: Params, dplus: map<Bytes, Bytes>) {
    forall k | k in dplus :: |dplus[k]| == 16 + 8 * p.size
  }

  lemma {:induction false} AddedSized(p: Params, s: ServerState, l: seq<AddPair>)
    requires BlockSized(p, s.dplus) && forall q | q in l :: |q.fileId| == 16 + 8 * p.size
    ensures BlockSized(p, AddServer(s, l).0.dplus)
  {
    if l != [] {
      AddedSized(p, s, l[..|l| - 1]);
      assert l[|l| - 1] in l;
    }
  }

  lemma SizesKept(p: Params, s: System, ev: Event, model: History.Model, m: seq<Bytes>)
    requires p.Valid() && Enabled(p, s, ev) && !ev.Setup? && Inv(p, s, model, m) && BlockSized(p, s.server.dplus)
    ensures BlockSized(p, Step(p, s, ev).server.dplus)
  {
    hide ListsHold, ServerHolds, KeysSafe, IsMapFile, IsRevFile, PrintBlocks, AddServer, LoadServer, LoadClient, Saves,
         AddClient2, Label, EncryptLong, ArrayHolds;
    match ev
    case ServeAdd(_, _, _) =>
      forall q | q in s.flight.l
        ensures |q.fileId| == 16 + 8 * p.size
      {
        var i :| 0 <= i < |s.flight.l| && s.flight.l[i] == q;
      }
      AddedSized(p, s.server, s.flight.l);
    case RestartServer =>
      LoadStored(s.disk, s.server, m);
    case _ =>
  }

  lemma {:induction false} AddedSizes(p: Params, s0: System, es: seq<Event>)
    requires p.Valid() && IsRun(p, s0, es)
    ensures BlockSized(p, After(p, s0, es).server.dplus)
  {
    hide Enabled, Step, Runs, After, LastEnabled, Inv, History.ModelOf, LastArray, BlockSized;
    var init, ev := es[..|es| - 1], es[|es| - 1];
    LastStep(p, s0, es);
    if ev.Setup? {
      SetupEmpties(p, After(p, s0, init), ev);
    } else {
      assert init[0] == es[0];
      AddedSizes(p, s0, init);
      RunInv(p, s0, init);
      SizesKept(p, After(p, s0, init), ev, History.ModelOf(Ops(init)), LastArray(p, init));
    }
  }

  lemma SetupEmpties(p: Params, s: System, ev: Event)
    requires p.Valid() && Enabled(p, s, ev) && ev.Setup?
    ensures BlockSized(p, Step(p, s, ev).server.dplus)
  {
    hide Enabled;
  }

  // ---------------------------------------------------------------- the files as text

  lemma {:induction false} OrderSize<T>(order: seq<T>, elements: set<T>)
    requires NoRepeats(order) && forall x :: x in order <==> x in elements
    ensures |order| == |elements|
  {
    if order == [] {
      assert elements == {};
    } else {
      var init, last := order[..|order| - 1], order[|order| - 1];
      assert order == init + [last];
      assert last !in init;
      OrderSize(init, elements - {last});
      assert elements == elements - {last} + {last};
    }
  }

  lemma OnlyOne<T>(order: seq<T>, x: T)
    requires NoRepeats(order) && forall y :: y in order <==> y == x
    ensures order == [x] && order[..|order| - 1] == []
  {
    OrderSize(order, {x});
    assert order[0] in order;
  }

  lemma SmallNumerals()
    ensures Dec(1) == [49] && Dec(2) == [50] && Dec(10) == [49, 48] && Dec(12) == [49, 50]
  {
  }

  lemma OneEntry(file: Bytes, m: map<Bytes, Bytes>, k: Bytes)
    requires IsMapFile(file, m) && Keep32(m).Keys == {k}
    ensures file == k + Netstring(m[k])
  {
    var order: seq<Bytes> :| PrintsMap(file, m, order);
    OnlyOne(order, k);
    assert PrintEntries(order, m) == [] + Entry(k, m[k]);
    assert [] + Entry(k, m[k]) == Entry(k, m[k]);
  }

  lemma NoEntry(file: Bytes)
    requires IsMapFile(file, map[])
    ensures file == []
  {
    var order: seq<Bytes> :| PrintsMap(file, map[], order);
    OrderSize(order, {});
  }

  lemma OneRev(file: Bytes, revs: set<Bytes>, r: Bytes)
    requires IsRevFile(file, revs) && Rev32(revs) == {r}
    ensures file == r
  {
    var order: seq<Bytes> :| PrintsRevs(file, revs, order);
    OnlyOne(order, r);
    assert PrintRevs(order) == [] + r;
    assert [] + r == r;
  }

  /**
   * The directory of a Packed server with an entry `7 8` under `k`, a block `5`, nothing added and `r`
   * revoked, each of them 32 bytes. What has another length is left out.
   */
  lemma ServerText(k: Bytes, r: Bytes, before: Disk, after: Disk)
    requires |k| == |r| == 32
    requires Saves(ServerState(1, map[k := [7, 8], [1] := [2]], [[5]], map[], {r, [1]}, true), before, after)
    ensures after == Disk(Some([49]), Some(k + [50, 58, 7, 8, 44]), Some([49, 58, 5, 44]), Some([]), Some(r))
  {
    hide IsMapFile, IsRevFile, Dec;
    var d: map<Bytes, Bytes> := map[k := [7, 8], [1] := [2]];
    SmallNumerals();
    assert Keep32(d).Keys == {k};
    OneEntry(after.d.value, d, k);
    assert Rev32({r, [1]}) == {r};
    OneRev(after.srev.value, {r, [1]}, r);
    NoEntry(after.dplus.value);
    assert PrintBlocks([[5]]) == [] + Netstring([5]);
    assert [] + Netstring([5]) == [49, 58, 5, 44];
    assert Netstring([7, 8]) == [50, 58, 7, 8, 44];
  }

  /** The directory of a Pointer client that has counted the word `ab` ten times. */
  lemma ClientText(key: Bytes, kplus: Bytes, kminus: Bytes, disk: ClientDisk)
    requires SavesClient(ClientState(2, key, kplus, kminus, map[[97, 98] := 10]), disk)
    ensures disk == ClientDisk(Some([50]), Some(key), Some(kplus), Some(kminus),
                               Some([50, 58, 97, 98, 44, 49, 48, 10]))
  {
    hide Dec;
    var counts: map<Word, u64> := map[[97, 98] := 10];
    SmallNumerals();
    var order: seq<Word> :| PrintsCounts(disk.dcount.value, counts, order);
    OnlyOne(order, [97, 98]);
    var line := CountEntry([97, 98], 10);
    assert PrintCounts(order, counts) == [] + line;
    assert [] + line == [50, 58, 97, 98, 44, 49, 48, 10];
  }

  /** The file of names, if the file `f` has the id 12. */
  lemma NamesText(file: Bytes)
    requires IsNameFile(file, map[12 := [102]])
    ensures file == [49, 50, 32, 49, 58, 102, 44, 10]
  {
    hide Dec;
    var names: map<u64, Bytes> := map[12 := [102]];
    SmallNumerals();
    var order: seq<u64> :| PrintsNames(file, names, order);
    OnlyOne(order, 12);
    var line := NameEntry(12, [102]);
    assert PrintNames(order, names) == [] + line;
    assert [] + line == [49, 50, 32, 49, 58, 102, 44, 10];
  }
}
