/**
 * The client, the server and the server's directory as one state machine, and its behaviour over whole
 * runs. An event carries every choice the code leaves open: the random keys, the order of a sorted list,
 * the bytes left on the stack, the order in which a map is written to a file.
 */
module Protocol {
  import opened Octets
  import opened Crypto
  import opened Ordering
  import opened CoreSpec
  import opened IndexProof
  import opened AddProof
  import opened Persistence
  import History

  datatype Params = Params(cr: Suite, size: nat, vocabulary: set<Word>) {
    ghost predicate Valid() {
      cr.Valid() && size >= 1 && BlockBytes(size) < TWO64 && forall w | w in vocabulary :: |w| < TWO64
    }
  }

  /** At most one addition is under way: requested, or answered and not yet counted by the client. */
  datatype Flight = Idle | Asked(id: u64, w: seq<Word>, l: seq<AddPair>) | Replied(id: u64, w: seq<Word>, r: seq<byte>)

  datatype System = System(client: ClientState, server: ServerState, disk: Disk, flight: Flight)

  datatype Event =
    | Setup(version: int, tokens: seq<Word>, fileids: map<Word, seq<u64>>, key: Bytes, kplus: Bytes, kminus: Bytes,
            counts: map<Word, u64>, l: seq<SetupPair>, files: Disk)
    | AskAdd(id: u64, words: seq<Word>, pairs: seq<AddPair>, w: seq<Word>)
    | ServeAdd(id: u64, w: seq<Word>, files: Disk)
    | CountAdd
    | Delete(id: u64, words: seq<Word>, revIds: seq<Bytes>, files: Disk)
    | RestartServer
    | RestartClient(clientFiles: ClientDisk)

  // The server saves after every request that is not a search.
  function Saved(s: ServerState): ServerState { s.(dirtyD := false) }

  function SentArray(p: Params, ev: Event): seq<Bytes>
    requires p.size >= 1 && ev.Setup? && Indexed(ev.tokens, ev.fileids)
  {
    SetupArray(p.cr, p.size, ev.version, ev.key, ev.tokens, ev.fileids)
  }

  ghost predicate Known(p: Params, words: seq<Word>) { forall w | w in words :: w in p.vocabulary }

  /** Keys are KEYLEN bytes and new: labels do not collide, and no revocation id around is one of the new key. */
  ghost predicate FreshKeys(p: Params, ev: Event, s: ServerState)
    requires ev.Setup?
  {
    && |ev.key| == |ev.kplus| == |ev.kminus| == KEYLEN
    && CollisionFree(p.cr, ev.key, p.vocabulary)
    && CollisionFree(p.cr, ev.kplus, p.vocabulary)
    && CollisionFree(p.cr, ev.kminus, p.vocabulary)
    && forall w, id: u64 | w in p.vocabulary :: Label(p.cr, ev.kminus, w, id) !in s.srev
  }

  ghost predicate Enabled(p: Params, s: System, ev: Event)
    requires p.Valid()
  {
    match ev
    case Setup(version, tokens, fileids, key, kplus, kminus, counts, l, files) =>
      && s.flight.Idle?
      && (counts == map[] || counts == s.client.dcount) && (forall w | w in counts :: |w| < TWO64)
      && (version == BASIC || version == PACKED || version == POINTERS)
      && Indexed(tokens, fileids) && Known(p, tokens)
      && IsSetupRequest(p.cr, p.size, version, key, tokens, fileids, l)
      && FreshKeys(p, ev, s.server)
      && |SentArray(p, ev)| < INVALID
      && Saves(SetupServer(s.server, version, l, SentArray(p, ev)), s.disk, files)
    case AskAdd(id, words, l, w) =>
      && s.flight.Idle?
      && Known(p, words)
      && IsAddRequest(p.cr, p.size, s.client, id, words, l, w)
      && forall x | x in words :: CountOf(s.client.dcount, x) + |words| < TWO64
    case ServeAdd(id, w, files) =>
      s.flight.Asked? && s.flight.id == id && s.flight.w == w && Saves(AddServer(s.server, s.flight.l).0, s.disk, files)
    case CountAdd => s.flight.Replied?
    case Delete(id, words, l, files) =>
      && s.flight.Idle? && Known(p, words)
      && IsDeleteRequest(p.cr, s.client, id, words, l)
      && Saves(DeleteServer(s.server, l), s.disk, files)
    case RestartServer => true
    case RestartClient(files) => s.flight.Idle? && SavesClient(s.client, files)
  }

  /** Setup is run by a new client, without counters, or by the one that is there, which keeps its counters. */
  ghost function Step(p: Params, s: System, ev: Event): System
    requires p.Valid() && Enabled(p, s, ev)
  {
    match ev
    case Setup(version, tokens, fileids, key, kplus, kminus, counts, l, files) =>
      System(ClientState(version, key, kplus, kminus, counts),
             Saved(SetupServer(s.server, version, l, SentArray(p, ev))), files, Idle)
    case AskAdd(id, words, l, w) =>
      s.(client := s.client.(dcount := Touch(s.client.dcount, words)), flight := Asked(id, w, l))
    case ServeAdd(id, w, files) =>
      var (server, r) := AddServer(s.server, s.flight.l);
      s.(server := Saved(server), disk := files, flight := Replied(id, w, r))
    case CountAdd =>
      s.(client := s.client.(dcount := AddClient2(s.client.dcount, s.flight.r, s.flight.w).0), flight := Idle)
    case Delete(id, words, l, files) => s.(server := Saved(DeleteServer(s.server, l)), disk := files)
    case RestartServer => s.(server := LoadServer(s.disk).1)
    case RestartClient(files) => s.(client := LoadClient(files).1)
  }

  /** The events of a run are enabled one after the other. */
  ghost predicate Runs(p: Params, s0: System, es: seq<Event>)
    requires p.Valid()
    decreases |es|, 1
  {
    es == [] || (Runs(p, s0, es[..|es| - 1]) && LastEnabled(p, s0, es))
  }

  ghost predicate LastEnabled(p: Params, s0: System, es: seq<Event>)
    requires p.Valid() && es != [] && Runs(p, s0, es[..|es| - 1])
    decreases |es|, 0
  {
    Enabled(p, After(p, s0, es[..|es| - 1]), es[|es| - 1])
  }

  ghost function After(p: Params, s0: System, es: seq<Event>): System
    requires p.Valid() && Runs(p, s0, es)
    decreases |es|, 2
  {
    if es == [] then s0
    else
      assert LastEnabled(p, s0, es);
      Step(p, After(p, s0, es[..|es| - 1]), es[|es| - 1])
  }

  // How a run ends.
  lemma LastStep(p: Params, s0: System, es: seq<Event>)
    requires p.Valid() && Runs(p, s0, es) && es != []
    ensures var init, ev := es[..|es| - 1], es[|es| - 1];
            && Runs(p, s0, init) && Enabled(p, After(p, s0, init), ev)
            && After(p, s0, es) == Step(p, After(p, s0, init), ev)
  {
    hide Enabled, Step;
    assert LastEnabled(p, s0, es);
  }

  /** A run begins with Setup, against a server in any state whatever. */
  ghost predicate IsRun(p: Params, s0: System, es: seq<Event>)
    requires p.Valid()
  {
    es != [] && es[0].Setup? && Runs(p, s0, es)
  }

  // ---------------------------------------------------------------- what a run means

  /** The operation an event performs on the index, if any. An addition takes effect on the server. */
  function OpOf(ev: Event): seq<History.Op> {
    match ev
    case Setup(version, tokens, fileids, _, _, _, counts, _, _) =>
      [History.SetupOp(version, SetupLists(tokens, fileids), counts)]
    case ServeAdd(id, w, _) => [History.AddOp(id, w)]
    case Delete(id, words, _, _) => [History.DeleteOp(id, words)]
    case _ => []
  }

  function Ops(es: seq<Event>): seq<History.Op> {
    if es == [] then [] else Ops(es[..|es| - 1]) + OpOf(es[|es| - 1])
  }

  /** A run goes on with an enabled event. */
  lemma Extend(p: Params, s0: System, es: seq<Event>, ev: Event)
    requires p.Valid() && Runs(p, s0, es) && Enabled(p, After(p, s0, es), ev)
    ensures Runs(p, s0, es + [ev]) && After(p, s0, es + [ev]) == Step(p, After(p, s0, es), ev)
    ensures Ops(es + [ev]) == Ops(es) + OpOf(ev)
  {
    hide Enabled, Step, OpOf;
    var more := es + [ev];
    assert more[..|more| - 1] == es && more[|more| - 1] == ev;
    assert LastEnabled(p, s0, more);
  }

  /** What searching for `w` returns in state `s`. */
  function SearchResult(p: Params, s: System, w: Word): seq<u64> {
    Search(p.cr, p.size, s.server, SearchClient(p.cr, s.client, w))
  }

  // ---------------------------------------------------------------- the invariant

  ghost predicate SameCounts(a: map<Word, u64>, b: map<Word, u64>) {
    forall w :: CountOf(a, w) == CountOf(b, w)
  }

  /** The counters of the model are those the client has once it has counted the reply under way. */
  ghost predicate InFlight(p: Params, s: System, counts: map<Word, u64>) {
    match s.flight
    case Idle => SameCounts(s.client.dcount, counts)
    case Asked(id, w, l) =>
      && SameCounts(s.client.dcount, counts) && HonestPairs(p.cr, p.size, s.client, p.vocabulary, id, w, l, counts)
      && Sorted(l, AddKey)
      && forall x | x in w :: CountOf(counts, x) + |w| < TWO64
    case Replied(id, w, r) =>
      && Known(p, w) && |r| <= |w| && (forall x | x in w :: CountOf(s.client.dcount, x) + |w| < TWO64)
      && SameCounts(AddClient2(s.client.dcount, r, w).0, counts)
  }

  ghost predicate KeysSafe(p: Params, c: ClientState) {
    && CollisionFree(p.cr, c.key, p.vocabulary)
    && CollisionFree(p.cr, c.kplus, p.vocabulary)
    && CollisionFree(p.cr, c.kminus, p.vocabulary)
    && ClientStorable(c)
  }

  ghost predicate ArrayHolds(s: ServerState, m: seq<Bytes>) {
    && (s.version == BASIC || s.version == PACKED || s.version == POINTERS)
    && !s.dirtyD && (s.a == m || s.a == m + [[]])
  }

  /** The lists of Setup can be read, from the array that was sent and from the array that is loaded. */
  ghost predicate ListsHold(p: Params, version: int, key: Bytes, d: map<Bytes, Bytes>, m: seq<Bytes>,
      model: History.Model) {
    && version == model.version
    && IndexHolds(p.cr, p.size, version, key, p.vocabulary, d, m, model.lists)
    && IndexHolds(p.cr, p.size, version, key, p.vocabulary, d, m + [[]], model.lists)
  }

  /** Client and server in memory are the model, under labels and encrypted. */
  ghost predicate Sound(p: Params, s: System, model: History.Model, m: seq<Bytes>) {
    && KeysSafe(p, s.client)
    && ArrayHolds(s.server, m)
    && ListsHold(p, s.server.version, s.client.key, s.server.d, m, model)
    && ServerHolds(p.cr, s.client, p.vocabulary, s.server, model)
    && InFlight(p, s, model.counts)
  }

  /** And the directory describes the server. */
  ghost predicate Inv(p: Params, s: System, model: History.Model, m: seq<Bytes>) {
    Sound(p, s, model, m) && Stored(s.disk, s.server, m)
  }
}
