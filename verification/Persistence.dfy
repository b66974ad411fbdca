/** Saving the server state to a directory and loading it into a fresh process (src/storage.cpp). */
module Persistence {
  import opened Octets
  import opened Crypto
  import opened CoreSpec
  import opened Streams
  import opened Formats

  datatype Option<T> = None | Some(value: T)

  /** The files of the server's directory; None is a file that does not exist. */
  datatype Disk = Disk(version: Option<Bytes>, d: Option<Bytes>, a: Option<Bytes>, dplus: Option<Bytes>,
      srev: Option<Bytes>)

  const FRESH: ServerState := ServerState(BASIC, map[], [], map[], {}, false)

  /** SaveServerToStorage: D and A are written only when they changed. */
  ghost predicate Saves(s: ServerState, before: Disk, after: Disk) {
    && after.version == Some(DecInt(s.version))
    && (if s.dirtyD
        then after.d.Some? && IsMapFile(after.d.value, s.d) && after.a == Some(PrintBlocks(s.a))
        else after.d == before.d && after.a == before.a)
    && after.dplus.Some? && IsMapFile(after.dplus.value, s.dplus)
    && after.srev.Some? && IsRevFile(after.srev.value, s.srev)
  }

  /**
   * LoadServerFromStorage: it stops at the first file that is missing or malformed. Entries of D and Dplus
   * are added to those in memory, Srev is replaced and the blocks of A are overwritten.
   */
  function LoadServerInto(s: ServerState, disk: Disk): (bool, ServerState) {
    if disk.version.None? then (false, s)
    else
      var (vs, version) := ExtractIntInto(Open(disk.version.value), s.version);
      var s1 := s.(version := version);
      if vs.fail || disk.d.None? then (false, s1)
      else
        var (dOk, d) := ReadMap(Open(disk.d.value), s.d);
        if dOk then LoadChanges(s1.(d := d), disk) else (false, s1.(d := d))
  }

  // The files that are written after every change, and A.
  function LoadChanges(s: ServerState, disk: Disk): (bool, ServerState) {
    if disk.dplus.None? then (false, s)
    else
      var (plusOk, dplus) := ReadMap(Open(disk.dplus.value), s.dplus);
      var s1 := s.(dplus := dplus);
      if !plusOk || disk.srev.None? then (false, s1)
      else
        var s2 := s1.(srev := ReadRevs(Open(disk.srev.value), {}));
        if disk.a.None? then (false, s2)
        else
          var (aOk, a) := ReadBlocksInto(Open(disk.a.value), s.a, 0);
          (aOk, s2.(a := a))
  }

  /** In a process that has just started. */
  function LoadServer(disk: Disk): (bool, ServerState) { LoadServerInto(FRESH, disk) }

  /** A directory in which nothing was ever saved. */
  const NO_FILES: Disk := Disk(None, None, None, None, None)

  /** A server process started there is an empty one of version Basic, though loading fails. */
  lemma EmptyDirectory()
    ensures LoadServer(NO_FILES) == (false, ServerState(0, map[], [], map[], {}, false))
    ensures FRESH == ServerState(0, map[], [], map[], {}, false)
  {
  }

  /** Loading stops at the first file that is missing, and leaves what belongs to the files behind it. */
  lemma LoadStops(s: ServerState, disk: Disk)
    ensures var (ok, t) := LoadServerInto(s, disk);
            && t.dirtyD == s.dirtyD
            && (disk.version.None? ==> !ok && t == s)
            && (disk.d.None? ==> !ok && t == s.(version := t.version))
            && (disk.dplus.None? ==> !ok && t == s.(version := t.version, d := t.d))
            && (disk.srev.None? ==> !ok && t == s.(version := t.version, d := t.d, dplus := t.dplus))
            && (disk.a.None? ==> !ok && t.a == s.a)
  {
    hide ReadMap, ReadRevs, ReadBlocksInto, ExtractIntInto;
  }

  predicate Fits32(v: int) { -0x8000_0000 <= v < 0x8000_0000 }

  ghost predicate SmallBlocks(a: seq<Bytes>) {
    forall b | b in a :: |b| < TWO64
  }

  /** The directory describes the state, where `m` is the array that Setup sent. */
  ghost predicate Stored(disk: Disk, s: ServerState, m: seq<Bytes>) {
    && disk.version == Some(DecInt(s.version)) && Fits32(s.version)
    && disk.d.Some? && IsMapFile(disk.d.value, s.d) && Payloads(s.d) && Keep32(s.d) == s.d
    && disk.a == Some(PrintBlocks(m)) && SmallBlocks(m)
    && disk.dplus.Some? && IsMapFile(disk.dplus.value, s.dplus) && Payloads(s.dplus) && Keep32(s.dplus) == s.dplus
    && disk.srev.Some? && IsRevFile(disk.srev.value, s.srev)
  }

  /**
   * Loading what was stored gives the state back, with one empty block behind the array and without
   * revocation ids of the wrong length.
   */
  lemma LoadStored(disk: Disk, s: ServerState, m: seq<Bytes>)
    requires Stored(disk, s, m)
    ensures LoadServer(disk) == (true, ServerState(s.version, s.d, m + [[]], s.dplus, Rev32(s.srev), false))
  {
    hide LoadServerInto, Stored, Overwrite;
    LoadOver(FRESH, disk, s, m);
    OverwriteNothing(m);
    assert map[] + s.d == s.d && map[] + s.dplus == s.dplus;
  }

  /**
   * Into memory that is not empty: entries of the directory replace those under the same label and leave
   * the others, revocation ids replace all, blocks replace those at the same position.
   */
  lemma LoadOver(s0: ServerState, disk: Disk, s: ServerState, m: seq<Bytes>)
    requires Stored(disk, s, m)
    ensures LoadServerInto(s0, disk)
            == (true, ServerState(s.version, s0.d + s.d, Overwrite(s0.a, m + [[]], |m| + 1), s0.dplus + s.dplus,
                                  Rev32(s.srev), s0.dirtyD))
  {
    hide ExtractInt, NothingLeft, ReadMap, ReadRevs, ReadBlocksInto, PrintBlocks, IsMapFile, IsRevFile, Overwrite;
    ExtractPrintedInt(s.version);
    MapRoundTrip(disk.d.value, s.d, s0.d);
    MapRoundTrip(disk.dplus.value, s.dplus, s0.dplus);
    RevsRoundTrip(disk.srev.value, s.srev);
    BlocksRoundTrip(m, s0.a);
  }

  lemma RevFileOf32(file: Bytes, revs: set<Bytes>, others: set<Bytes>)
    requires Rev32(revs) == Rev32(others)
    ensures IsRevFile(file, revs) <==> IsRevFile(file, others)
  {
    if order :| PrintsRevs(file, revs, order) {
      assert PrintsRevs(file, others, order);
    }
    if order :| PrintsRevs(file, others, order) {
      assert PrintsRevs(file, revs, order);
    }
  }

  // ---------------------------------------------------------------- the client

  /** The files of the client's directory that SaveClientToStorage writes; None is a file that does not exist. */
  datatype ClientDisk =
    ClientDisk(version: Option<Bytes>, key: Option<Bytes>, kplus: Option<Bytes>, kminus: Option<Bytes>,
               dcount: Option<Bytes>)

  ghost predicate SavesClient(c: ClientState, disk: ClientDisk) {
    && disk.version == Some(DecInt(c.version))
    && disk.key == Some(c.key) && disk.kplus == Some(c.kplus) && disk.kminus == Some(c.kminus)
    && disk.dcount.Some? && IsCountFile(disk.dcount.value, c.dcount)
  }

  /** `readBytes`: the whole buffer has to be there; behind what could be read it keeps what it held before. */
  function LoadBytes(file: Option<Bytes>, before: Bytes): (bool, Bytes) {
    if file.None? then (false, before)
    else
      var (s, bytes) := ReadBytes(Open(file.value), |before|);
      (s.Good(), if s.Good() then bytes else file.value + before[|file.value|..])
  }

  const FRESH_CLIENT: ClientState := ClientState(BASIC, NulBytes(KEYLEN), NulBytes(KEYLEN), NulBytes(KEYLEN), map[])

  /** LoadClientFromStorage: it stops at the first failure; counters are added to those in memory. */
  function LoadClientInto(c: ClientState, disk: ClientDisk): (bool, ClientState) {
    if disk.version.None? then (false, c)
    else
      var (vs, version) := ExtractIntInto(Open(disk.version.value), c.version);
      var c1 := c.(version := version);
      if vs.fail then (false, c1)
      else
        var (keyOk, key) := LoadBytes(disk.key, c.key);
        if keyOk then LoadKeys(c1.(key := key), disk) else (false, c1.(key := key))
  }

  function LoadKeys(c: ClientState, disk: ClientDisk): (bool, ClientState) {
    var (plusOk, kplus) := LoadBytes(disk.kplus, c.kplus);
    var c1 := c.(kplus := kplus);
    if !plusOk then (false, c1)
    else
      var (minusOk, kminus) := LoadBytes(disk.kminus, c.kminus);
      var c2 := c1.(kminus := kminus);
      if !minusOk || disk.dcount.None? then (false, c2)
      else
        var (countsOk, dcount) := ReadCounts(Open(disk.dcount.value), c.dcount);
        (countsOk, c2.(dcount := dcount))
  }

  function LoadClient(disk: ClientDisk): (bool, ClientState) { LoadClientInto(FRESH_CLIENT, disk) }

  ghost predicate ClientStorable(c: ClientState) {
    && Fits32(c.version) && |c.key| == |c.kplus| == |c.kminus| == KEYLEN
    && forall w | w in c.dcount :: |w| < TWO64
  }

  /** A saved client is loaded as it was. */
  lemma ClientRoundTrip(c: ClientState, disk: ClientDisk)
    requires SavesClient(c, disk) && ClientStorable(c)
    ensures LoadClient(disk) == (true, c)
  {
    hide LoadClientInto, SavesClient;
    LoadClientOver(FRESH_CLIENT, c, disk);
    assert map[] + c.dcount == c.dcount;
  }

  /** By a client in use as well, which keeps the counters of words that the saved one has not counted. */
  lemma LoadClientOver(c0: ClientState, c: ClientState, disk: ClientDisk)
    requires SavesClient(c, disk) && ClientStorable(c) && |c0.key| == |c0.kplus| == |c0.kminus| == KEYLEN
    ensures LoadClientInto(c0, disk) == (true, c.(dcount := c0.dcount + c.dcount))
  {
    hide ExtractInt, NothingLeft, ReadCounts, IsCountFile, LoadBytes;
    ExtractPrintedInt(c.version);
    CountsRoundTrip(disk.dcount.value, c.dcount, c0.dcount);
    KeyFile(disk.key, c0.key);
    KeyFile(disk.kplus, c0.kplus);
    KeyFile(disk.kminus, c0.kminus);
    assert c.key[..KEYLEN] == c.key && c.kplus[..KEYLEN] == c.kplus && c.kminus[..KEYLEN] == c.kminus;
  }

  /** A key file must be as long as the key, or longer; a shorter one still overwrites what it can. */
  lemma KeyFile(file: Option<Bytes>, before: Bytes)
    ensures LoadBytes(file, before)
            == if file.None? then (false, before)
               else if |file.value| < |before| then (false, file.value + before[|file.value|..])
               else (true, file.value[..|before|])
  {
  }

  /** A client process without files has zero keys, no counters and version Basic. */
  lemma EmptyClient()
    ensures LoadClient(ClientDisk(None, None, None, None, None)) == (false, FRESH_CLIENT)
    ensures FRESH_CLIENT.version == 0 && FRESH_CLIENT.dcount == map[]
    ensures FRESH_CLIENT.key == FRESH_CLIENT.kplus == FRESH_CLIENT.kminus == seq<byte>(32, _ => 0)
  {
  }

  /** The same for the files of the client. */
  lemma LoadClientStops(c: ClientState, disk: ClientDisk)
    ensures var (ok, t) := LoadClientInto(c, disk);
            && (disk.version.None? ==> !ok && t == c)
            && (disk.key.None? ==> !ok && t == c.(version := t.version))
            && (disk.kplus.None? ==> !ok && t == c.(version := t.version, key := t.key))
            && (disk.kminus.None? ==> !ok && t == c.(version := t.version, key := t.key, kplus := t.kplus))
            && (disk.dcount.None? ==> !ok && t.dcount == c.dcount)
  {
    hide ReadCounts, ExtractIntInto;
  }

  /** The file names and the next id: loadExtraState adds names to those in memory. */
  function LoadExtra(names: Option<Bytes>, last: Option<Bytes>, m0: map<u64, Bytes>, n0: u64)
      : (bool, map<u64, Bytes>, u64)
  {
    if names.None? then (false, m0, n0)
    else
      var (ok, m) := ReadNames(Open(names.value), m0);
      if !ok || last.None? then (false, m, n0)
      else
        var (s, n) := ExtractU64Into(Open(last.value), n0);
        (!s.fail, m, n)
  }

  /** A number that was written to a file is read back. */
  lemma FileidRoundTrip(id: u64)
    ensures ExtractU64(Open(Dec(id))) == (Input(Dec(id), |Dec(id)|, true, false), id) && !NothingLeft(Open(Dec(id)))
  {
    assert Dec(id)[0..|Dec(id)|] == Dec(id);
    ExtractDecU64(Open(Dec(id)), 0, id);
  }

  /** Saved names are added to those in memory, and the saved next id replaces it; a missing file changes nothing. */
  lemma ExtraRoundTrip(names: Bytes, m: map<u64, Bytes>, n: u64, m0: map<u64, Bytes>, n0: u64)
    requires IsNameFile(names, m) && forall id | id in m :: |m[id]| < TWO64
    ensures LoadExtra(Some(names), Some(Dec(n)), m0, n0) == (true, m0 + m, n)
    ensures LoadExtra(Some(names), None, m0, n0) == (false, m0 + m, n0)
    ensures forall last :: LoadExtra(None, last, m0, n0) == (false, m0, n0)
  {
    hide ReadNames, IsNameFile, ExtractU64, NothingLeft;
    NamesRoundTrip(names, m, m0);
    FileidRoundTrip(n);
  }
}
