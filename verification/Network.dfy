/**
 * DSSE::Server (src/DSSEServer.cpp) and DSSE::Client (src/DSSEClient.cpp) with the network between them
 * taken out: a request is a method call. Every call is a sequence of steps of the state machine.
 */
module Network {
  import opened Octets
  import opened Crypto
  import opened Ordering
  import opened CoreSpec
  import opened IndexProof
  import opened Persistence
  import opened Protocol
  import opened ProtocolProof
  import opened Theorems
  import opened Limits
  import opened SpecFacts
  import opened Core
  import opened Storage
  import FileIndex
  import History
  import Formats
  import Streams

  class Server {
    const core: Core
    var disk: Disk

    /** A process that has just started on a directory; a failed load is only a warning. */
    constructor (cr: Suite, size: nat, disk: Disk)
      ensures core.cr == cr && core.size == size && fresh(core)
      ensures this.disk == disk && core.Server() == LoadServer(disk).1
    {
      core := new Core(cr, size);
      this.disk := disk;
      new;
      var _ := LoadServerFromStorage(core, disk);
    }

    method Save()
      modifies this, core`dirtyD
      ensures Saves(old(core.Server()), old(disk), disk)
      ensures core.Server() == Saved(old(core.Server()))
    {
      disk := SaveServerToStorage(core, disk);
    }

    method HandleSetup(version: int, l: seq<SetupPair>, m: seq<Bytes>)
      modifies this, core
      ensures Saves(SetupServer(old(core.Server()), version, l, m), old(disk), disk)
      ensures core.Server() == Saved(SetupServer(old(core.Server()), version, l, m))
    {
      core.SetupServer(version, l, m);
      Save();
    }

    /** A search changes nothing, so it is the one request after which nothing is saved. */
    method HandleSearch(t: Trapdoor) returns (ok: bool, ids: seq<u64>)
      requires core.Searchable(t)
      ensures ok <==> core.version == BASIC || core.version == PACKED || core.version == POINTERS
      ensures ok ==> ids == CoreSpec.Search(core.cr, core.size, core.Server(), t)
    {
      ok, ids := core.SearchServer(t);
    }

    /** The bitmap travels as a list of booleans. */
    method HandleAdd(l: seq<AddPair>) returns (reply: seq<bool>)
      modifies this, core`srev, core`dplus, core`dirtyD
      ensures Saves(AddServer(old(core.Server()), l).0, old(disk), disk)
      ensures core.Server() == Saved(AddServer(old(core.Server()), l).0)
      ensures reply == ToBools(AddServer(old(core.Server()), l).1)
    {
      var r := core.AddServer(l);
      reply := [];
      for i := 0 to |r|
        invariant reply == ToBools(r[..i])
        invariant (core.Server(), r) == AddServer(old(core.Server()), l) && disk == old(disk)
      {
        assert r[..i + 1] == r[..i] + [r[i]];
        reply := reply + [r[i] != 0];
      }
      assert r[..|r|] == r;
      Save();
    }

    method HandleDelete(l: seq<Bytes>)
      modifies this, core`srev, core`dirtyD
      ensures Saves(DeleteServer(old(core.Server()), l), old(disk), disk)
      ensures core.Server() == Saved(DeleteServer(old(core.Server()), l))
    {
      core.DeleteServer(l);
      Save();
    }
  }

  function ToBools(r: seq<byte>): (bits: seq<bool>)
    ensures |bits| == |r|
  {
    seq<bool>(|r|, i requires 0 <= i < |r| => r[i] != 0)
  }

  function FromBools(bits: seq<bool>): (r: seq<byte>)
    ensures |r| == |bits|
  {
    seq<byte>(|bits|, i requires 0 <= i < |bits| => if bits[i] then 1 else 0)
  }

  /** Nothing of the bitmap is lost on the way. */
  lemma {:induction false} BitmapTravels(s: ServerState, l: seq<AddPair>)
    ensures var r := AddServer(s, l).1;
            FromBools(ToBools(r)) == r && forall i | 0 <= i < |r| :: ToBools(r)[i] <==> r[i] == 1
  {
    if l != [] {
      BitmapTravels(s, l[..|l| - 1]);
      var (s1, r1) := AddServer(s, l[..|l| - 1]);
      var r := AddServer(s, l).1;
      assert r == r1 || r == r1 + [0] || r == r1 + [1];
      forall i | 0 <= i < |r|
        ensures FromBools(ToBools(r))[i] == r[i] && (ToBools(r)[i] <==> r[i] == 1)
      {
        if i < |r1| {
          assert FromBools(ToBools(r1))[i] == r1[i] && (ToBools(r1)[i] <==> r1[i] == 1);
        }
      }
    }
  }

  // AddServer answers at most one bit per pair, so AddClient2 finds a word for every bit.
  lemma ReplyFits(p: Params, s: System, id: u64, words: seq<Word>, l: seq<AddPair>, w: seq<Word>)
    requires IsAddRequest(p.cr, p.size, s.client, id, words, l, w)
    ensures AddClient2(Touch(s.client.dcount, words), AddServer(s.server, l).1, w).1
  {
    hide AddServer, AddClient2, Touch, IsAddPair, Sorted;
    ReplyShort(s.server, l);
    WordForEach(Touch(s.client.dcount, words), AddServer(s.server, l).1, w);
  }

  lemma {:induction false} WordForEach(dcount: map<Word, u64>, r: seq<byte>, w: seq<Word>)
    requires |r| <= |w|
    ensures AddClient2(dcount, r, w).1
  {
    if r != [] {
      WordForEach(dcount, r[..|r| - 1], w);
    }
  }

  /** The state of a client and a server with no request under way. */
  function SystemOf(client: Client, server: Server): System
    reads client, client.core, server, server.core
  {
    System(client.core.Client(), server.core.Server(), server.disk, Idle)
  }

  /**
   * After every run a client may search for any word of the vocabulary: the loops end and no buffer is
   * overrun, as long as no map holds 2^64 entries.
   */
  lemma ReachableSearchable(p: Params, s0: System, es: seq<Event>, client: Client, server: Server, w: Word)
    requires Match(p, client, server) && IsRun(p, s0, es) && w in p.vocabulary
    requires SystemOf(client, server) == After(p, s0, es)
    requires |server.core.d| < TWO64 && |server.core.dplus| < TWO64
    ensures server.core.Searchable(CoreSpec.SearchClient(p.cr, client.core.Client(), w))
    ensures server.core.version == BASIC || server.core.version == PACKED || server.core.version == POINTERS
  {
    hide After, SafeSearch, SearchResult, Inv, Sound;
    SearchLaw(p, s0, es, w);
    SearchEnds(p, s0, es, w);
    RunInv(p, s0, es);
    VersionKnown(p, After(p, s0, es), History.ModelOf(Ops(es)), LastArray(p, es));
  }

  /** And so it can before the first Setup, with a server started on an empty directory. */
  lemma BlankSearchable(p: Params, s0: System, es: seq<Event>, client: Client, server: Server, w: Word)
    requires Match(p, client, server) && Blank(p, s0) && Runs(p, s0, es) && NoSetup(es) && w in p.vocabulary
    requires SystemOf(client, server) == After(p, s0, es)
    requires |server.core.d| < TWO64 && |server.core.dplus| < TWO64
    ensures server.core.Searchable(CoreSpec.SearchClient(p.cr, client.core.Client(), w))
    ensures server.core.version == BASIC
  {
    hide After, Runs, SafeSearch, Blank, CountersDistinct, K1Of;
    BlankSearch(p, s0, es, w);
  }

  lemma VersionKnown(p: Params, s: System, model: History.Model, m: seq<Bytes>)
    requires Inv(p, s, model, m)
    ensures s.server.version == BASIC || s.server.version == PACKED || s.server.version == POINTERS
  {
  }

  /** Client and server use the parameters of the state machine, and are different processes. */
  ghost predicate Match(p: Params, client: Client, server: Server)
    reads client, server
  {
    && p.Valid() && client.core != server.core
    && client.core.cr == p.cr && client.core.size == p.size
    && server.core.cr == p.cr && server.core.size == p.size
  }

  class Client {
    const core: Core
    var lastFileid: u64
    var fileidMap: map<u64, Bytes>

    constructor (cr: Suite, size: nat)
      ensures fresh(core) && core.cr == cr && core.size == size && core.dcount == map[]
      ensures lastFileid == 0 && fileidMap == map[]
    {
      core := new Core(cr, size);
      lastFileid, fileidMap := 0, map[];
    }

    /**
     * Setup. A client that has added words before keeps its counters. With an unknown version or a token
     * without a list nothing is sent (`ok` is false).
     */
    method Setup(ghost p: Params, server: Server, version: int, tokens: seq<Word>, fileids: map<Word, seq<u64>>,
        key: Bytes, kplus: Bytes, kminus: Bytes)
      returns (ok: bool, ghost ev: Event)
      requires Match(p, this, server) && forall w | w in core.dcount :: |w| < TWO64
      requires ListsFit(tokens, fileids) && Known(p, tokens)
      requires Indexed(tokens, fileids) ==> |SetupArray(p.cr, p.size, version, key, tokens, fileids)| < INVALID
      requires FreshKeys(p, Event.Setup(version, tokens, fileids, key, kplus, kminus, map[], [], server.disk),
              server.core.Server())
      modifies core, server, server.core
      ensures ok <==> (version == BASIC || version == PACKED || version == POINTERS) && Listed(tokens, fileids)
      ensures !ok ==> server.core.Server() == old(server.core.Server()) && server.disk == old(server.disk)
      ensures ok ==>
                && ev.Setup? && ev.version == version && ev.tokens == tokens && ev.fileids == fileids
                    && ev.counts == old(core.dcount)
                && Enabled(p, old(SystemOf(this, server)), ev)
                && SystemOf(this, server) == Step(p, old(SystemOf(this, server)), ev)
    {
      hide SetupLines, SetupArray, IsSetupRequest, HandOver, Sort, Saves, CollisionFree, Label, Dict;
      var l, m;
      ok, l, m := core.SetupClient(version, tokens, fileids, key, kplus, kminus);
      if !ok {
        ev := CountAdd;
        return;
      }
      SortedIsRequest(p.cr, p.size, version, key, tokens, fileids);
      server.HandleSetup(version, l, m);
      ev := Event.Setup(version, tokens, fileids, key, kplus, kminus, core.dcount, l, server.disk);
    }

    method Search(ghost p: Params, server: Server, w: Word) returns (ok: bool, ids: seq<u64>)
      requires Match(p, this, server)
      requires server.core.Searchable(CoreSpec.SearchClient(p.cr, core.Client(), w))
      ensures ok <==> server.core.version == BASIC || server.core.version == PACKED || server.core.version == POINTERS
      ensures ok ==> ids == SearchResult(p, SystemOf(this, server), w)
    {
      var t := core.SearchClient(w);
      ok, ids := server.HandleSearch(t);
    }

    /** The exchange of an addition, of any words: three steps. No bit of the reply lacks a word. */
    method Add(ghost p: Params, server: Server, id: u64, words: seq<Word>) returns (ok: bool, ghost ask: Event,
        ghost serve: Event)
      requires Match(p, this, server)
      requires Known(p, words) && forall x | x in words :: CountOf(core.dcount, x) + |words| < TWO64
      modifies core`dcount, server, server.core
      ensures ok && ask.AskAdd? && ask.id == id && ask.words == words && serve.ServeAdd? && serve.id == id
      ensures Enabled(p, old(SystemOf(this, server)), ask)
      ensures Enabled(p, Step(p, old(SystemOf(this, server)), ask), serve)
      ensures SystemOf(this, server) == Step(p, Step(p, Step(p, old(SystemOf(this, server)), ask), serve), CountAdd)
    {
      hide AddServer, IsAddRequest, AddClient2, Touch, Saves;
      ghost var s0 := SystemOf(this, server);
      var l, w := core.AddClient(id, words);
      ask := AskAdd(id, words, l, w);
      assert Enabled(p, s0, ask);
      var reply := server.HandleAdd(l);
      serve := ServeAdd(id, w, server.disk);
      BitmapTravels(s0.server, l);
      var r := FromBools(reply);
      ReplyFits(p, s0, id, words, l, w);
      ok := core.AddClient2(r, w);
    }

    method Delete(ghost p: Params, server: Server, id: u64, words: seq<Word>) returns (ghost ev: Event)
      requires Match(p, this, server) && Known(p, words)
      modifies server, server.core
      ensures ev.Delete? && ev.id == id && ev.words == words
      ensures Enabled(p, old(SystemOf(this, server)), ev)
      ensures SystemOf(this, server) == Step(p, old(SystemOf(this, server)), ev)
    {
      hide IsDeleteRequest, Saves, DeleteServer;
      var l := core.DeleteClient(id, words);
      server.HandleDelete(l);
      ev := Event.Delete(id, words, l, server.disk);
    }

    /** Every named id was allocated before. */
    ghost predicate NamesBelow()
      reads this
    {
      forall id | id in fileidMap :: id < lastFileid
    }

    /** Index a list of files and set up with the result; the lists are there, so only the version can be wrong. */
    method SetupFiles(ghost p: Params, server: Server, tk: FileIndex.Tokenizer, version: int, files: seq<Bytes>,
        key: Bytes, kplus: Bytes, kminus: Bytes)
      returns (ok: bool, ghost ev: Event)
      requires Match(p, this, server) && forall w | w in core.dcount :: |w| < TWO64
      requires FileIndex.TokenSets(tk) && |files| < INVALID - 1
      requires forall f, w | f in files && FileIndex.Contains(tk, f, w) :: w in p.vocabulary
      requires forall fileids, tokens | FileIndex.ListsHold(tk, files, fileids, tokens) && Indexed(tokens, fileids) ::
                 |SetupArray(p.cr, p.size, version, key, tokens, fileids)| < INVALID
      requires FreshKeys(p, Event.Setup(version, [], map[], key, kplus, kminus, map[], [], server.disk),
              server.core.Server())
      modifies this, core, server, server.core
      ensures ok <==> version == BASIC || version == PACKED || version == POINTERS
      ensures ok ==>
                && ev.Setup? && ev.version == version && FileIndex.ListsHold(tk, files, ev.fileids, ev.tokens)
                && ev.counts == old(core.dcount)
                && Enabled(p, old(SystemOf(this, server)), ev)
                && SystemOf(this, server) == Step(p, old(SystemOf(this, server)), ev)
      ensures ok ==> lastFileid == |FileIndex.FirstSeen(tk, files)| + 1 && NamesBelow()
      ensures ok ==> forall f | f in files && tk(f).Some? ::
                FileIndex.IdOf(tk, files, f) in fileidMap && fileidMap[FileIndex.IdOf(tk, files, f)] == f
      ensures ok ==> forall id | id in fileidMap ::
                fileidMap[id] in files && tk(fileidMap[id]).Some? && FileIndex.IdOf(tk, files, fileidMap[id]) == id
      ensures !ok ==> unchanged(this)
      ensures !ok ==> server.core.Server() == old(server.core.Server()) && server.disk == old(server.disk)
    {
      hide SetupArray, CollisionFree, Label, FileIndex.IdOf, FileIndex.FirstSeen, Step, Enabled;
      var fileids, tokens, names, last := FileIndex.IndexFiles(tk, files);
      FileIndex.ListsIndexed(tk, files, fileids, tokens);
      ok, ev := Setup(p, server, version, tokens, fileids, key, kplus, kminus);
      if !ok {
        return;
      }
      lastFileid := last;
      fileidMap := names;
    }

    /** Add a file under the next id, which no file has yet. */
    method AddFileByName(ghost p: Params, server: Server, tk: FileIndex.Tokenizer, filename: Bytes)
      returns (ok: bool, ghost ask: Event, ghost serve: Event)
      requires Match(p, this, server) && NamesBelow() && lastFileid < TWO64 - 1 && FileIndex.TokenSets(tk)
      requires forall w | FileIndex.Contains(tk, filename, w) ::
                 w in p.vocabulary && CountOf(core.dcount, w) + |tk(filename).value| < TWO64
      modifies this, core`dcount, server, server.core
      ensures !tk(filename).Some? ==> !ok && SystemOf(this, server) == old(SystemOf(this, server)) && unchanged(this)
      ensures tk(filename).Some? ==>
                && ask.AskAdd? && ask.id == old(lastFileid) && ask.words == tk(filename).value
                    && serve.ServeAdd? && serve.id == ask.id
                && Enabled(p, old(SystemOf(this, server)), ask)
                && Enabled(p, Step(p, old(SystemOf(this, server)), ask), serve)
                && SystemOf(this, server)
                    == Step(p, Step(p, Step(p, old(SystemOf(this, server)), ask), serve), CountAdd)
      ensures ok <==> tk(filename).Some?
      ensures ok ==>
                && old(lastFileid) !in old(fileidMap)
                && fileidMap == old(fileidMap)[old(lastFileid) := filename]
                && lastFileid == old(lastFileid) + 1
      ensures NamesBelow()
    {
      ask, serve := CountAdd, CountAdd;
      var words := tk(filename);
      if words.None? {
        return false, ask, serve;
      }
      hide Step, Enabled;
      var fileid := lastFileid;
      ok, ask, serve := Add(p, server, fileid, words.value);
      if ok {
        fileidMap := fileidMap[fileid := filename];
        lastFileid := lastFileid + 1;
      }
    }

    /** Client::Save: the core, the file names and the next id. */
    method Save() returns (disk: ClientDisk, names: Bytes, last: Bytes)
      ensures SavesClient(core.Client(), disk) && Formats.IsNameFile(names, fileidMap)
              && last == Streams.Dec(lastFileid)
    {
      disk := SaveClientToStorage(core);
      names := WriteFileidMap(fileidMap);
      last := Streams.Dec(lastFileid);
    }

    /** Client::Load: the core, then the file names and the next id. */
    method Load(disk: ClientDisk, names: Option<Bytes>, last: Option<Bytes>) returns (ok: bool)
      modifies this, core`version, core`key, core`kplus, core`kminus, core`dcount
      ensures core.Client() == LoadClientInto(old(core.Client()), disk).1
      ensures (ok, fileidMap, lastFileid)
              == if LoadClientInto(old(core.Client()), disk).0
                 then LoadExtra(names, last, old(fileidMap), old(lastFileid))
                 else (false, old(fileidMap), old(lastFileid))
    {
      hide LoadClientInto, Formats.ReadNames;
      ok := LoadClientFromStorage(core, disk);
      if !ok || names.None? {
        return false;
      }
      ok, fileidMap := ReadFileidMap(names.value, fileidMap);
      if !ok || last.None? {
        return false;
      }
      var input := new InFile(last.value);
      lastFileid := input.GetU64Into(lastFileid);
      ok := !input.s.fail;
    }
  }
}
