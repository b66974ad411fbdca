/**
 * Requests can always be made, and concrete runs on a small keyed digest: one that meets every condition
 * of the theorems, and one for each way in which a promise is broken.
 */
module Witness {
  import opened Octets
  import opened Crypto
  import opened Ordering
  import opened CoreSpec
  import opened SpecFacts
  import opened SetupProof
  import opened IndexProof
  import opened Persistence
  import opened Protocol
  import opened ProtocolProof
  import opened Theorems
  import opened Orderly
  import opened Limits
  import History
  import Formats
  import Streams

  // ---------------------------------------------------------------- files

  lemma {:induction false} SomeOrder<T>(s: set<T>) returns (order: seq<T>)
    ensures Formats.NoRepeats(order) && forall x :: x in order <==> x in s
  {
    if s == {} {
      order := [];
    } else {
      var x :| x in s;
      order := SomeOrder(s - {x});
      order := order + [x];
    }
  }

  lemma SomeMapFile(m: map<Bytes, Bytes>) returns (file: Bytes)
    ensures Formats.IsMapFile(file, m)
  {
    hide Formats.Entry;
    var order := SomeOrder(Formats.Keep32(m).Keys);
    file := Formats.PrintEntries(order, m);
    assert Formats.PrintsMap(file, m, order);
  }

  lemma SomeRevFile(revs: set<Bytes>) returns (file: Bytes)
    ensures Formats.IsRevFile(file, revs)
  {
    var order := SomeOrder(Formats.Rev32(revs));
    file := Formats.PrintRevs(order);
    assert Formats.PrintsRevs(file, revs, order);
  }

  /** Every server state can be saved. */
  lemma SomeSave(s: ServerState, before: Disk) returns (after: Disk)
    ensures Saves(s, before, after)
  {
    hide Formats.IsMapFile, Formats.IsRevFile, Formats.PrintBlocks;
    var d := SomeMapFile(s.d);
    var dplus := SomeMapFile(s.dplus);
    var srev := SomeRevFile(s.srev);
    after := Disk(Some(Streams.DecInt(s.version)),
                  if s.dirtyD then Some(d) else before.d,
                  if s.dirtyD then Some(Formats.PrintBlocks(s.a)) else before.a, Some(dplus), Some(srev));
  }

  // ---------------------------------------------------------------- runs can go on

  /** A new index can be set up at any time, by a new client or by the one that is there. */
  lemma MoreSetup(p: Params, s0: System, es: seq<Event>, version: int, tokens: seq<Word>,
      fileids: map<Word, seq<u64>>, key: Bytes, counts: map<Word, u64>) returns (more: seq<Event>)
    requires p.Valid() && Runs(p, s0, es) && After(p, s0, es).flight.Idle?
    requires version == BASIC || version == PACKED || version == POINTERS
    requires Indexed(tokens, fileids) && Known(p, tokens)
    requires |key| == KEYLEN && CollisionFree(p.cr, key, p.vocabulary)
    requires forall w, id: u64 | w in p.vocabulary :: Label(p.cr, key, w, id) !in After(p, s0, es).server.srev
    requires |SetupArray(p.cr, p.size, version, key, tokens, fileids)| < INVALID
    requires counts == map[] || counts == After(p, s0, es).client.dcount
    requires forall w | w in counts :: |w| < TWO64
    ensures es <= more && IsRunFrom(es, more) && Runs(p, s0, more)
    ensures Ops(more) == Ops(es) + [History.SetupOp(version, SetupLists(tokens, fileids), counts)]
    ensures After(p, s0, more).flight.Idle? && After(p, s0, more).server.srev == After(p, s0, es).server.srev
    ensures After(p, s0, more).client.dcount == counts
  {
    hide SetupArray, CollisionFree, Label, Dict, SetupLines, HandOver, Sort, IsSetupRequest, Saves, SetupLists;
    var s := After(p, s0, es);
    var l := HandOver(version, p.size, Sort(SetupLines(p.cr, p.size, version, key, tokens, fileids, 0), PairKey));
    SortedIsRequest(p.cr, p.size, version, key, tokens, fileids);
    var m := SetupArray(p.cr, p.size, version, key, tokens, fileids);
    var files := SomeSave(SetupServer(s.server, version, l, m), s.disk);
    var ev := Setup(version, tokens, fileids, key, key, key, counts, l, files);
    Extend(p, s0, es, ev);
    more := es + [ev];
  }

  ghost predicate IsRunFrom(es: seq<Event>, more: seq<Event>) {
    more != [] && (es == [] ==> more[0].Setup?) && (es != [] ==> more[0] == es[0])
  }

  /** Any words can be deleted from any file. */
  lemma MoreDelete(p: Params, s0: System, es: seq<Event>, id: u64, words: seq<Word>) returns (more: seq<Event>)
    requires p.Valid() && IsRun(p, s0, es) && After(p, s0, es).flight.Idle? && Known(p, words)
    ensures IsRun(p, s0, more) && Ops(more) == Ops(es) + [History.DeleteOp(id, words)]
    ensures After(p, s0, more).flight.Idle? && After(p, s0, more).client == After(p, s0, es).client
  {
    hide Label, RevIds, Sort, Saves, Sorted;
    var s := After(p, s0, es);
    var ids := RevIds(p.cr, s.client, id, words);
    var l := Sort(ids, (x: Bytes) => x);
    SortSorts(ids, (x: Bytes) => x);
    var files := SomeSave(DeleteServer(s.server, l), s.disk);
    var ev := Delete(id, words, l, files);
    Extend(p, s0, es, ev);
    more := es + [ev];
  }

  function Line(cr: Suite, size: nat, c: ClientState, id: u64, w: Word): TokenPair {
    var rest := if BlockBytes(size) >= 24 then BlockBytes(size) - 24 else 0;
    TokenPair(w, Label(cr, c.kplus, w, CountOf(c.dcount, w)), EncryptLong(cr, K2Of(cr, c.kplus, w), id) + Zeros(rest),
              Label(cr, c.kminus, w, id))
  }

  lemma LinePair(cr: Suite, size: nat, c: ClientState, id: u64, w: Word)
    requires size >= 1
    ensures var x := Line(cr, size, c, id, w); x.w == w && IsAddPair(cr, size, c, id, w, AddPair(x.l, x.d, x.r))
  {
    hide Label, EncryptLong;
    var ctext := EncryptLong(cr, K2Of(cr, c.kplus, w), id);
    assert |Zeros(BlockBytes(size) - 24)| == BlockBytes(size) - 24;
    assert (ctext + Zeros(BlockBytes(size) - 24))[..24] == ctext;
  }

  /** A request can be made for any words. */
  lemma SomeRequest(cr: Suite, size: nat, c: ClientState, id: u64, words: seq<Word>)
    returns (l: seq<AddPair>, w: seq<Word>)
    requires size >= 1
    ensures IsAddRequest(cr, size, c, id, words, l, w) && multiset(w) == multiset(words) && |l| == |w|
  {
    hide IsAddPair, Line, LexLess;
    var lines := seq<TokenPair>(|words|, i requires 0 <= i < |words| => Line(cr, size, c, id, words[i]));
    var sorted := Sort(lines, PairKey);
    SortSorts(lines, PairKey);
    WordsRearranged(sorted, lines);
    w := WordsOf(sorted);
    l := seq<AddPair>(|sorted|, i requires 0 <= i < |sorted| => AddPair(sorted[i].l, sorted[i].d, sorted[i].r));
    forall i | 0 <= i < |words|
      ensures lines[i].w == words[i]
    {
      LinePair(cr, size, c, id, words[i]);
    }
    assert WordsOf(lines) == words;
    forall i | 0 <= i < |l|
      ensures IsAddPair(cr, size, c, id, w[i], l[i])
    {
      assert sorted[i] in multiset(sorted);
      var k :| 0 <= k < |lines| && lines[k] == sorted[i];
      LinePair(cr, size, c, id, words[k]);
    }
    forall i, j | 0 <= i < j < |l|
      ensures !LexLess(AddKey(l[j]), AddKey(l[i]))
    {
      assert AddKey(l[i]) == PairKey(sorted[i]) && AddKey(l[j]) == PairKey(sorted[j]);
    }
  }

  /** Any words can be added to any file, and the exchange carried through, also before the first Setup. */
  lemma MoreAdd(p: Params, s0: System, es: seq<Event>, id: u64, words: seq<Word>)
    returns (more: seq<Event>, w: seq<Word>)
    requires p.Valid() && Runs(p, s0, es) && After(p, s0, es).flight.Idle? && Known(p, words)
    requires KeysSafe(p, After(p, s0, es).client)
    requires forall x | x in words :: CountOf(After(p, s0, es).client.dcount, x) + |words| < TWO64
    ensures es <= more && Runs(p, s0, more) && Ops(more) == Ops(es) + [History.AddOp(id, w)]
    ensures forall ev | ev in more && ev !in es :: ev.AskAdd? || ev.ServeAdd? || ev.CountAdd?
    ensures multiset(w) == multiset(words)
    ensures After(p, s0, more).flight.Idle? && After(p, s0, more).server.srev <= After(p, s0, es).server.srev
    ensures forall x ::
              CountOf(After(p, s0, more).client.dcount, x) <= CountOf(After(p, s0, es).client.dcount, x) + |words|
    ensures exists c, l :: Requested(p, c, id, words, l, w)
  {
    hide IsAddRequest, Saves, AddServer, AddClient2, Runs, After, Ops, Touch, KeysSafe;
    var s := After(p, s0, es);
    var l;
    l, w := SomeRequest(p.cr, p.size, s.client, id, words);
    var ask := AskAdd(id, words, l, w);
    Extend(p, s0, es, ask);
    var s1 := Step(p, s, ask);
    var files := SomeSave(AddServer(s1.server, l).0, s1.disk);
    var serve := ServeAdd(id, w, files);
    Extend(p, s0, es + [ask], serve);
    Extend(p, s0, es + [ask] + [serve], CountAdd);
    more := es + [ask] + [serve] + [CountAdd];
    RevsShrink(s1.server, l);
    TouchCounts(s.client.dcount, words);
    ReplyShort(s1.server, l);
    assert |w| == |words| && forall x | x in w :: x in words by {
      SameWords(words, w);
    }
    forall x
      ensures CountOf(After(p, s0, more).client.dcount, x) <= CountOf(s.client.dcount, x) + |words|
    {
      History.CountsGrow(s1.client.dcount, AddServer(s1.server, l).1, w, x);
    }
    assert Requested(p, s.client, id, words, l, w);
  }

  // The keys of a run are safe.
  lemma RunKeys(p: Params, s0: System, es: seq<Event>)
    requires p.Valid() && IsRun(p, s0, es)
    ensures KeysSafe(p, After(p, s0, es).client)
  {
    hide KeysSafe, ListsHold, ArrayHolds, Stored, InFlight, Runs, After;
    RunInv(p, s0, es);
  }

  ghost predicate Requested(p: Params, c: ClientState, id: u64, words: seq<Word>, l: seq<AddPair>, w: seq<Word>) {
    KeysSafe(p, c) && IsAddRequest(p.cr, p.size, c, id, words, l, w)
  }

  lemma {:induction false} RevsShrink(s: ServerState, l: seq<AddPair>)
    ensures AddServer(s, l).0.srev <= s.srev
  {
    if l != [] {
      RevsShrink(s, l[..|l| - 1]);
    }
  }

  // ---------------------------------------------------------------- a small system

  /** A digest of KEYLEN bytes that keeps a short message and what it needs of the key. */
  function Digest(k: Bytes, m: Bytes): (d: Bytes)
    ensures |d| == KEYLEN
  {
    if |m| == 8 && |k| >= 24 then k[..24] + m
    else ((if k == [] then [0] else k[..1]) + m + Zeros(KEYLEN))[..KEYLEN]
  }

  function KeyOf(b: byte): Bytes { seq<byte>(KEYLEN, _ => b) }

  const A: Word := [97]
  const B: Word := [98]

  /** Two words, blocks of one id, a keystream of zeros. */
  function Small(): Params {
    Params(Suite((k: Bytes, m: Bytes) => Digest(k, m), (_: Bytes, _: Bytes, _: nat) => 0), 1, {A, B})
  }

  function Start(): System {
    System(FRESH_CLIENT, FRESH, Disk(None, None, None, None, None), Idle)
  }

  lemma SmallValid()
    ensures Small().Valid()
  {
  }

  lemma SmallLabel(key: Bytes, w: Word, c: u64)
    requires |key| == KEYLEN && (w == A || w == B)
    ensures Label(Small().cr, key, w, c) == ([key[0], TAG1] + w + Zeros(21)) + PutU64(c)
  {
    assert CStr(w) == [w[0]] + CStr(w[1..]) && w == [w[0]];
    var k1 := MacKey(Small().cr, key, TAG1, w);
    var m := [TAG1] + w;
    assert k1 == Digest(key, m) == (key[..1] + m + Zeros(KEYLEN))[..KEYLEN];
    assert k1[..24] == [key[0], TAG1] + w + Zeros(21);
  }

  /** Under every key the labels of the two words differ. */
  lemma SmallCollisionFree(key: Bytes)
    requires |key| == KEYLEN
    ensures CollisionFree(Small().cr, key, {A, B})
  {
    hide Label;
    forall w, w', c: u64, c': u64 | w in {A, B} && w' in {A, B}
        && Label(Small().cr, key, w, c) == Label(Small().cr, key, w', c')
      ensures w == w' && c == c'
    {
      SmallLabel(key, w, c);
      SmallLabel(key, w', c');
      var x, y := [key[0], TAG1] + w + Zeros(21), [key[0], TAG1] + w' + Zeros(21);
      assert x == (x + PutU64(c))[..24] && y == (y + PutU64(c'))[..24];
      assert x[2] == w[0] && y[2] == w'[0];
      assert PutU64(c) == (x + PutU64(c))[24..] && PutU64(c') == (y + PutU64(c'))[24..];
      GetPut(c);
      GetPut(c');
    }
  }

  // ---------------------------------------------------------------- runs of the small system

  /** Set up the small system under a key, with no revocation ids around. */
  lemma SmallSetup(es: seq<Event>, version: int, tokens: seq<Word>, fileids: map<Word, seq<u64>>,
      keep: bool) returns (more: seq<Event>)
    requires var p := Small();
             && p.Valid() && Runs(p, Start(), es) && (es == [] || es[0].Setup?)
             && After(p, Start(), es).flight.Idle? && After(p, Start(), es).server.srev == {}
             && forall w | w in After(p, Start(), es).client.dcount :: |w| < TWO64
    requires version == BASIC || version == PACKED || version == POINTERS
    requires Indexed(tokens, fileids) && (forall w | w in tokens :: w == A || w == B)
    requires |SetupArray(Small().cr, 1, version, KeyOf(1), tokens, fileids)| < INVALID
    ensures Small().Valid() && IsRun(Small(), Start(), more)
    ensures After(Small(), Start(), more).flight.Idle? && After(Small(), Start(), more).server.srev == {}
    ensures After(Small(), Start(), more).client.dcount
            == if keep then After(Small(), Start(), es).client.dcount else map[]
    ensures Ops(more)
            == Ops(es) + [History.SetupOp(version, SetupLists(tokens, fileids),
                After(Small(), Start(), more).client.dcount)]
  {
    hide SetupArray, CollisionFree, Label, Runs, After, Ops, SetupLists, Digest;
    var p, s0 := Small(), Start();
    SmallCollisionFree(KeyOf(1));
    var counts := if keep then After(p, s0, es).client.dcount else map[];
    more := MoreSetup(p, s0, es, version, tokens, fileids, KeyOf(1), counts);
  }

  // With no addition under way the client's counters are those of the model, and can be stored.
  lemma RunCounts(p: Params, s0: System, es: seq<Event>, x: Word)
    requires p.Valid() && IsRun(p, s0, es) && After(p, s0, es).flight.Idle?
    ensures CountOf(After(p, s0, es).client.dcount, x) == CountOf(History.ModelOf(Ops(es)).counts, x)
    ensures forall w | w in After(p, s0, es).client.dcount :: |w| < TWO64
  {
    hide ListsHold, ArrayHolds, Stored, CollisionFree, Runs, After, Ops, History.ModelOf, LastArray;
    RunInv(p, s0, es);
  }

  lemma NoLists()
    ensures SetupLists([], map[]) == map[] && Indexed([], map[])
    ensures forall version, key :: SetupArray(Small().cr, 1, version, key, [], map[]) == []
  {
  }

  // What the small system answers to requests with distinct words.
  lemma SmallAnswer(es: seq<Event>, w: Word)
    requires Small().Valid() && IsRun(Small(), Start(), es) && (w == A || w == B) && OrderlyAdds(Ops(es))
    ensures var h := Ops(es);
            SearchResult(Small(), After(Small(), Start(), es), w)
            == LoadedLeft(h, w) + if OldCount(h, w) == 0 then AppendedLeft(h, w) else []
  {
    hide Runs, After, Ops, SearchResult, OrderlyAdds, LoadedLeft, AppendedLeft, Digest;
    ListLaw(Small(), Start(), es, w);
  }

  lemma OneWord(w: seq<Word>, x: Word)
    requires multiset(w) == multiset([x])
    ensures w == [x]
  {
    assert |w| == |multiset(w)| == 1;
    assert w[0] in multiset(w);
  }

  /** The first Setup of the small system. */
  lemma SmallSetupFirst(version: int, tokens: seq<Word>, fileids: map<Word, seq<u64>>) returns (es: seq<Event>)
    requires version == BASIC || version == PACKED || version == POINTERS
    requires Indexed(tokens, fileids) && (forall w | w in tokens :: w == A || w == B)
    requires |SetupArray(Small().cr, 1, version, KeyOf(1), tokens, fileids)| < INVALID
    ensures Small().Valid() && IsRun(Small(), Start(), es)
    ensures After(Small(), Start(), es).flight.Idle? && After(Small(), Start(), es).server.srev == {}
    ensures After(Small(), Start(), es).client.dcount == map[]
    ensures Ops(es) == [History.SetupOp(version, SetupLists(tokens, fileids), map[])]
  {
    hide SetupArray, SetupLists, IsRun;
    SmallValid();
    es := SmallSetup([], version, tokens, fileids, false);
  }

  // The histories of the runs below.
  const EMPTY_SETUP: History.Op := History.SetupOp(BASIC, map[], map[])
  const LOST: seq<History.Op> := [EMPTY_SETUP, History.DeleteOp(1, [A]), History.AddOp(1, [A])]
  const DROPPED: seq<History.Op> := [History.SetupOp(PACKED, map[A := [INVALID]], map[])]
  const COUNTED: seq<History.Op> := [EMPTY_SETUP, History.AddOp(1, [A])]

  function Stale(counts: map<Word, u64>): seq<History.Op> {
    [EMPTY_SETUP, History.AddOp(1, [A]), History.SetupOp(BASIC, map[], counts), History.AddOp(2, [A])]
  }

  lemma LostMeans()
    ensures OrderlyAdds(LOST) && History.Holds(LOST, A, 1)
    ensures LoadedLeft(LOST, A) == [] && AppendedLeft(LOST, A) == []
  {
    hide Delivered;
    var h := LOST;
    assert h[..2] == [h[0], h[1]] && h[..2][..1] == [h[0]];
    assert (A, 1) in Revoked(h[..2]);
    assert LastSetup(h) == LastSetup(h[..2]) == LastSetup(h[..2][..1]) == h[0];
    DeliveredNothing(BASIC);
    assert Appended(h, A) == Appended(h[..2], A) == Appended(h[..2][..1], A) == [];
  }

  /**
   * A pair that was deleted before it was ever indexed is lost when it is added: the addition only
   * clears the revocation.
   */
  lemma LostAddition() returns (es: seq<Event>)
    ensures Small().Valid() && IsRun(Small(), Start(), es) && Ops(es) == LOST && OrderlyAdds(Ops(es))
    ensures SearchResult(Small(), After(Small(), Start(), es), A) == [] && History.Holds(Ops(es), A, 1)
  {
    hide Runs, After, SearchResult, Ops, SetupArray, SetupLists, History.Holds, OrderlyAdds, LoadedLeft, AppendedLeft,
         Known;
    SmallValid();
    NoLists();
    LostMeans();
    var es1 := SmallSetupFirst(BASIC, [], map[]);
    SmallKnown();
    var es2 := MoreDelete(Small(), Start(), es1, 1, [A]);
    var w;
    RunKeys(Small(), Start(), es2);
    es, w := MoreAdd(Small(), Start(), es2, 1, [A]);
    OneWord(w, A);
    assert Ops(es) == LOST;
    SmallAnswer(es, A);
  }

  lemma SmallKnown()
    ensures Known(Small(), [A]) && Known(Small(), [B]) && Known(Small(), [A, A, B])
  {
  }

  lemma DroppedMeans()
    ensures OrderlyAdds(DROPPED) && History.Holds(DROPPED, A, INVALID)
    ensures LoadedLeft(DROPPED, A) == [] && AppendedLeft(DROPPED, A) == []
  {
    assert [INVALID][1..] == [] && Used([INVALID]) == [];
  }

  /** Packed and Pointer lose the id INVALID. */
  lemma DroppedId() returns (es: seq<Event>)
    ensures Small().Valid() && IsRun(Small(), Start(), es) && Ops(es) == DROPPED
    ensures SearchResult(Small(), After(Small(), Start(), es), A) == [] && History.Holds(Ops(es), A, INVALID)
  {
    hide Runs, After, SearchResult, Ops, History.Holds, OrderlyAdds, LoadedLeft, AppendedLeft;
    SmallValid();
    DroppedMeans();
    var fileids := map[A := [INVALID]];
    assert SetupLists([A], fileids) == fileids;
    es := SmallSetupFirst(PACKED, [A], fileids);
    SmallAnswer(es, A);
  }

  lemma StaleMeans(counts: map<Word, u64>)
    ensures OrderlyAdds(COUNTED) && Appended(COUNTED, A) == [1] && OldCount(COUNTED, A) == 0
    ensures OrderlyAdds(Stale(counts)) && History.Holds(Stale(counts), A, 2)
            && OldCount(Stale(counts), A) == CountOf(counts, A)
    ensures LoadedLeft(Stale(counts), A) == []
  {
    hide Delivered;
    var h := Stale(counts);
    assert COUNTED[..1] == [COUNTED[0]];
    assert LastSetup(COUNTED) == LastSetup(COUNTED[..1]) == EMPTY_SETUP;
    assert LastSetup(h) == LastSetup(h[..3]) == h[2];
    DeliveredNothing(BASIC);
  }

  /** The ids added by a client that counted the word before Setup are not found. */
  lemma StaleClient() returns (es: seq<Event>)
    ensures Small().Valid() && IsRun(Small(), Start(), es)
    ensures exists counts :: Ops(es) == Stale(counts) && CountOf(counts, A) == 1
    ensures SearchResult(Small(), After(Small(), Start(), es), A) == [] && History.Holds(Ops(es), A, 2)
  {
    hide Runs, After, SearchResult, Ops, SetupArray, SetupLists, History.Holds, OrderlyAdds, LoadedLeft, AppendedLeft,
         Known, History.ModelOf, History.NoWrap, Appended, OldCount;
    SmallValid();
    NoLists();
    SmallKnown();
    var es1 := SmallSetupFirst(BASIC, [], map[]);
    RunKeys(Small(), Start(), es1);
    var es2, w := MoreAdd(Small(), Start(), es1, 1, [A]);
    OneWord(w, A);
    assert Ops(es2) == COUNTED;
    RunCounts(Small(), Start(), es2, A);
    RunFits(Small(), Start(), es2);
    StaleMeans(map[]);
    OrderlyEntries(COUNTED, A);
    var es3 := SmallSetup(es2, BASIC, [], map[], true);
    var counts := After(Small(), Start(), es3).client.dcount;
    RunKeys(Small(), Start(), es3);
    es, w := MoreAdd(Small(), Start(), es3, 2, [A]);
    OneWord(w, A);
    StaleMeans(counts);
    assert Ops(es) == Stale(counts);
    SmallAnswer(es, A);
  }

  // ---------------------------------------------------------------- repeated words

  const REPEATED: seq<History.Op> := [EMPTY_SETUP, History.AddOp(1, [A, A, B])]
  const AGAIN: seq<History.Op> := [EMPTY_SETUP, History.AddOp(1, [A, A, B]), History.AddOp(2, [B])]

  lemma Mixed(w: seq<Word>)
    requires multiset(w) == multiset([A, A, B])
    ensures w == [A, A, B] || w == [A, B, A] || w == [B, A, A]
  {
    assert |w| == |multiset(w)| == 3;
    OneOf(w, 0);
    OneOf(w, 1);
    OneOf(w, 2);
    assert w == [w[0], w[1], w[2]];
    assert multiset(w)[B] == 1 && A[0] != B[0];
  }

  lemma OneOf(w: seq<Word>, i: nat)
    requires i < |w| && multiset(w) == multiset([A, A, B])
    ensures w[i] == A || w[i] == B
  {
    assert w[i] in multiset(w);
    assert w[i] in multiset([A, A, B]);
    assert w[i] in [A, A, B];
  }

  lemma LabelOrder(c: ClientState, id: u64, x: AddPair, y: AddPair)
    requires |c.kplus| == KEYLEN && IsAddPair(Small().cr, 1, c, id, A, x) && IsAddPair(Small().cr, 1, c, id, B, y)
    ensures LexLess(AddKey(x), AddKey(y))
  {
    hide LexLess, EncryptLong, Digest, Label;
    SmallLabel(c.kplus, A, CountOf(c.dcount, A));
    SmallLabel(c.kplus, B, CountOf(c.dcount, B));
    var s, t := AddKey(x), AddKey(y);
    assert s[..2] == [c.kplus[0], TAG1] && t[..2] == [c.kplus[0], TAG1] && s[2] == 97 && t[2] == 98;
    FirstDifference(s, t, 2);
  }

  /** In the sorted request the two pairs of A come first. */
  lemma SmallOrder(c: ClientState, id: u64, l: seq<AddPair>, w: seq<Word>)
    requires Requested(Small(), c, id, [A, A, B], l, w)
    ensures w == [A, A, B]
  {
    hide CollisionFree, LexLess, Label, EncryptLong, AddKey, Digest, IsAddPair;
    Mixed(w);
    if w == [A, B, A] {
      LabelOrder(c, id, l[2], l[1]);
    } else if w == [B, A, A] {
      LabelOrder(c, id, l[1], l[0]);
    }
  }

  // One more pair, and one more counted bit.
  lemma OneMore(m: History.Model, id: u64, words: seq<Word>, w: Word)
    ensures var (m', r) := History.PutAll(m, id, words);
            History.PutAll(m, id, words + [w]) == History.PutPair(m', r, id, w)
  {
    assert (words + [w])[..|words|] == words;
  }

  lemma OneBit(dcount: map<Word, u64>, r: seq<byte>, w: seq<Word>)
    requires |r| < |w| && AddClient2(dcount, r, w).1
    ensures var counts := AddClient2(dcount, r, w).0;
            AddClient2(dcount, r + [0], w) == (counts[w[|r|] := U64(CountOf(counts, w[|r|]) + 1)], true)
  {
    assert (r + [0])[..|r|] == r;
  }

  /** The second pair of A gets no bit, and so the bit of B is counted for A. */
  lemma RepeatedModel()
    ensures History.PutAll(History.ModelOf([EMPTY_SETUP]), 1, [A, A, B]).1 == [0, 0]
    ensures var m := History.ModelOf(REPEATED);
            && m.entries == map[(A, 0) := 1, (B, 0) := 1] && m.revoked == {} && m.lists == map[]
            && CountOf(m.counts, A) == 2 && CountOf(m.counts, B) == 0
  {
    hide History.PutAll, AddClient2;
    var m0 := History.ModelOf([EMPTY_SETUP]);
    assert [EMPTY_SETUP][..0] == [] && REPEATED[..1] == [EMPTY_SETUP];
    assert m0 == History.Model(BASIC, map[], map[], map[], {});
    NoPairs(m0, 1, [A, A, B]);
    OneMore(m0, 1, [], A);
    OneMore(m0, 1, [A], A);
    OneMore(m0, 1, [A, A], B);
    assert [] + [A] == [A] && [A] + [A] == [A, A] && [A, A] + [B] == [A, A, B];
    var m1 := m0.(entries := map[(A, 0) := 1]);
    assert A[0] != B[0];
    var none: seq<byte>, one: seq<byte> := [], [0];
    assert none + [0] == one && one + [0] == [0, 0];
    assert m0.entries[(A, 0) := 1] == m1.entries && m1.entries[(B, 0) := 1] == map[(A, 0) := 1, (B, 0) := 1];
    assert History.PutPair(m0, [], 1, A) == (m1, [0]);
    assert History.PutPair(m1, [0], 1, A) == (m1, [0]);
    assert History.PutPair(m1, [0], 1, B) == (m1.(entries := map[(A, 0) := 1, (B, 0) := 1]), [0, 0]);
    OneBit(map[], [], [A, A, B]);
    OneBit(map[], [0], [A, A, B]);
  }

  lemma NoPairs(m: History.Model, id: u64, w: seq<Word>)
    ensures History.PutAll(m, id, []) == (m, []) && AddClient2(m.counts, [], w) == (m.counts, true)
  {
  }

  lemma AgainMeans()
    ensures 2 !in History.Answer(History.ModelOf(AGAIN), B) && History.Holds(AGAIN, B, 2) && !InStep(REPEATED)
  {
    var m, op := History.ModelOf(REPEATED), History.AddOp(2, [B]);
    RepeatedModel();
    assert AGAIN[..2] == REPEATED;
    assert History.ModelOf(AGAIN) == History.Apply(m, op);
    assert History.PutAll(m, 2, [B][..0]) == (m, []);
    assert History.PutAll(m, 2, [B]) == (m, []);
    assert History.ModelOf(AGAIN) == m;
    assert REPEATED[..1] == [EMPTY_SETUP] && LastSetup(REPEATED) == LastSetup([EMPTY_SETUP]) == EMPTY_SETUP;
    assert (B, 0) in m.entries && !InStepAt(m, OldCount(REPEATED, B), B);
    assert History.Found(m.entries, B, 0) == [1] by {
      FoundIs(m.entries, B, 0, [1]);
    }
    History.AnswerHas(m, B, 2);
    DeliveredNothing(BASIC);
  }

  /**
   * A word that is named twice gets one bit, so the client counts the next word for it: the next addition
   * of that word is lost.
   */
  lemma RepeatedWord() returns (es: seq<Event>)
    ensures Small().Valid() && IsRun(Small(), Start(), es) && Ops(es) == AGAIN && !InStep(REPEATED)
    ensures 2 !in SearchResult(Small(), After(Small(), Start(), es), B) && History.Holds(Ops(es), B, 2)
  {
    hide Runs, After, SearchResult, Ops, SetupArray, SetupLists, History.Holds, Known, History.ModelOf,
         History.Answer, InStep, Requested, Digest;
    SmallValid();
    NoLists();
    SmallKnown();
    var es1 := SmallSetupFirst(BASIC, [], map[]);
    RunKeys(Small(), Start(), es1);
    var es2, w := MoreAdd(Small(), Start(), es1, 1, [A, A, B]);
    var c, l :| Requested(Small(), c, 1, [A, A, B], l, w);
    SmallOrder(c, 1, l, w);
    RunKeys(Small(), Start(), es2);
    es, w := MoreAdd(Small(), Start(), es2, 2, [B]);
    OneWord(w, B);
    assert Ops(es) == AGAIN;
    AgainMeans();
    SearchLaw(Small(), Start(), es, B);
  }

  // ---------------------------------------------------------------- before the first Setup

  lemma StartBlank()
    ensures Small().Valid() && Blank(Small(), Start()) && Runs(Small(), Start(), [])
  {
    hide CollisionFree, Digest, Label;
    SmallValid();
    SmallCollisionFree(FRESH_CLIENT.key);
  }

  lemma FirstMeans()
    ensures AppendedLeft(COUNTED, A) == [1] && LoadedLeft(COUNTED, A) == [] && OldCount(COUNTED, A) == 0
  {
    StaleMeans(map[]);
    assert COUNTED[..1] == [COUNTED[0]];
    assert LastSetup(COUNTED) == LastSetup(COUNTED[..1]) == EMPTY_SETUP;
    assert Revoked(COUNTED) == Revoked(COUNTED[..1]) == {};
    History.KeepAll({}, A, [1]);
    DeliveredNothing(BASIC);
  }

  /** A pair that was added before the first Setup is found, but not after a restart of the server. */
  lemma RestartLoses() returns (es: seq<Event>)
    ensures Small().Valid() && Blank(Small(), Start()) && Runs(Small(), Start(), es) && NoSetup(es)
    ensures Ops(es) == [History.AddOp(1, [A])]
    ensures var s := After(Small(), Start(), es);
            && SearchResult(Small(), s, A) == [1]
            && SearchResult(Small(), Step(Small(), s, RestartServer), A) == []
  {
    hide Runs, After, SearchResult, Ops, Known, Blank, History.Answer, History.ModelOf, History.NoWrap, OldCount, Step,
         LoadedLeft, AppendedLeft, Requested, Digest, OrderlyAdds;
    StartBlank();
    BlankKeys(Small(), Start());
    SmallKnown();
    StartIs(Small());
    var w;
    es, w := MoreAdd(Small(), Start(), [], 1, [A]);
    OneWord(w, A);
    assert BlankOps(Start().client, es) == COUNTED;
    BlankFits(Small(), Start(), es);
    StaleMeans(map[]);
    FirstMeans();
    AnswerOfLists(COUNTED, A);
    BlankAnswers(Small(), Start(), es, A);
  }

  lemma BlankKeys(p: Params, s: System)
    requires Blank(p, s)
    ensures KeysSafe(p, s.client)
  {
  }

  lemma StartIs(p: Params)
    requires p.Valid() && Runs(p, Start(), [])
    ensures After(p, Start(), []) == Start() && Ops([]) == [] && Start().client.dcount == map[] && Start().flight.Idle?
  {
  }

  // ---------------------------------------------------------------- a run without any loss

  const GOOD: seq<History.Op> := [History.SetupOp(POINTERS, map[A := [7]], map[]), History.AddOp(8, [A]),
                                  History.DeleteOp(7, [A]), History.AddOp(7, [A])]

  // The history, step by step.
  lemma GoodSteps()
    ensures LastSetup(GOOD) == LastSetup(GOOD[..3]) == LastSetup(GOOD[..1]) == GOOD[0]
    ensures Revoked(GOOD[..1]) == {} && Revoked(GOOD) == {}
    ensures Appended(GOOD, A) == [8]
  {
    var h := GOOD;
    assert h[..3][..2] == h[..2] && h[..2][..1] == h[..1];
    assert h[..1][0] == h[0] && h[..2][1] == h[1] && h[..3][2] == h[2];
    assert LastSetup(h[..2]) == LastSetup(h[..1]) == h[0];
    assert Revoked(h[..1]) == {} && Revoked(h[..2]) == {};
    assert Revoked(h[..3]) == {(A, 7)};
    assert Revoked(h) == {};
    assert Appended(h[..1], A) == [];
    assert Appended(h[..2], A) == [8];
    assert Appended(h[..3], A) == [8];
  }

  lemma GoodMeans()
    ensures OrderlyAdds(GOOD) && AllStick(GOOD)
    ensures OldCount(GOOD, A) == 0 && LoadedLeft(GOOD, A) == [7] && AppendedLeft(GOOD, A) == [8]
  {
    hide LastSetup, Revoked, Appended, Used;
    GoodSteps();
    DeliveredIsAll([7]);
    History.KeepAll({}, A, [7]);
    History.KeepAll({}, A, [8]);
    hide History.Kept;
    assert Sticks(GOOD[..1], 8, A);
    assert Sticks(GOOD[..3], 7, A);
    assert forall n | 0 <= n < |GOOD| && GOOD[n].AddOp? :: n == 1 || n == 3;
  }

  lemma GoodIndex()
    ensures SetupLists([A], map[A := [7]]) == map[A := [7]] && Indexed([A], map[A := [7]])
    ensures |SetupArray(Small().cr, 1, POINTERS, KeyOf(1), [A], map[A := [7]])| == 1
  {
    hide EncryptBlock;
    assert [A][1..] == [] && [7][1..] == [];
    assert |Chunks([7], 1)| == 1;
  }

  /** Setup, additions and deletions that meet every condition of the theorems, and what is found then. */
  lemma GoodRun() returns (es: seq<Event>)
    ensures Small().Valid() && IsRun(Small(), Start(), es) && Ops(es) == GOOD
    ensures OrderlyAdds(Ops(es)) && AllStick(Ops(es)) && History.NoWrap(Ops(es)) && InStep(Ops(es))
    ensures SearchResult(Small(), After(Small(), Start(), es), A) == [7, 8]
  {
    hide Runs, After, SearchResult, Ops, SetupLists, SetupArray, OrderlyAdds, AllStick, LoadedLeft, AppendedLeft,
         Known, OldCount, History.NoWrap, InStep, Requested, Digest;
    SmallValid();
    SmallKnown();
    GoodMeans();
    GoodIndex();
    var es1 := SmallSetupFirst(POINTERS, [A], map[A := [7]]);
    RunKeys(Small(), Start(), es1);
    var es2, w := MoreAdd(Small(), Start(), es1, 8, [A]);
    OneWord(w, A);
    var es3 := MoreDelete(Small(), Start(), es2, 7, [A]);
    RunKeys(Small(), Start(), es3);
    es, w := MoreAdd(Small(), Start(), es3, 7, [A]);
    OneWord(w, A);
    assert Ops(es) == GOOD;
    SmallAnswer(es, A);
    RunFits(Small(), Start(), es);
    OrderlyInStep(GOOD);
  }
}
