/**
 * What the methods of DSSE::Core compute (src/DSSE.cpp), as functions of the two halves of its state.
 * `size` is the number of 64-bit slots of a block, the constant B of the source; it is any positive number.
 */
module CoreSpec {
  import opened Octets
  import opened Crypto
  import opened Ordering

  // enum Version: Basic, Packed, Pointer
  const BASIC: int := 0
  const PACKED: int := 1
  const POINTERS: int := 2

  datatype SetupPair = SetupPair(token: Bytes, fileId: Bytes)
  datatype AddPair = AddPair(token: Bytes, fileId: Bytes, revId: Bytes)
  datatype Trapdoor = Trapdoor(k1: Bytes, k2: Bytes, k1plus: Bytes, k2plus: Bytes, k1minus: Bytes)

  datatype ClientState = ClientState(version: int, key: Bytes, kplus: Bytes, kminus: Bytes, dcount: map<Word, u64>)
  datatype ServerState = ServerState(version: int, d: map<Bytes, Bytes>, a: seq<Bytes>,
                                     dplus: map<Bytes, Bytes>, srev: set<Bytes>, dirtyD: bool)

  // The low 64 bits.
  function U64(n: nat): u64 { n % TWO64 }

  function CountOf(dcount: map<Word, u64>, w: Word): u64 {
    if w in dcount then dcount[w] else 0
  }

  function At<T>(m: map<Word, seq<T>>, w: Word): seq<T> {
    if w in m then m[w] else []
  }

  function K1Of(cr: Suite, master: Bytes, w: Word): Bytes { MacKey(cr, master, TAG1, w) }
  function K2Of(cr: Suite, master: Bytes, w: Word): Bytes { MacKey(cr, master, TAG2, w) }

  function BlockBytes(size: nat): nat { IVLEN + 8 * size }

  // ---------------------------------------------------------------- setup, client side

  function Padding(n: nat): seq<u64> { seq<u64>(n, _ => INVALID) }

  /** `values` cut into blocks of `size`, the last one filled up with INVALID. */
  function Chunks(values: seq<u64>, size: nat): (blocks: seq<seq<u64>>)
    requires size >= 1
    ensures forall i | 0 <= i < |blocks| :: |blocks[i]| == size
    ensures |blocks| <= |values|
  {
    if values == [] then []
    else if |values| <= size then [values + Padding(size - |values|)]
    else [values[..size]] + Chunks(values[size..], size)
  }

  function Pointers(base: nat, count: nat): (pointers: seq<u64>)
    ensures |pointers| == count
  {
    seq<u64>(count, i requires 0 <= i < count => U64(base + i))
  }

  /** The blocks stored in D for one word; `base` is the number of blocks already in the array. */
  function IndexBlocks(version: int, size: nat, fids: seq<u64>, base: nat): (blocks: seq<seq<u64>>)
    requires size >= 1
  {
    if version == BASIC then Chunks(fids, 1)
    else if version == PACKED then Chunks(fids, size)
    else Chunks(Pointers(base, |Chunks(fids, size)|), size)
  }

  /** The blocks stored in the array A for one word. */
  function ArrayBlocks(version: int, size: nat, fids: seq<u64>): seq<seq<u64>>
    requires size >= 1
  {
    if version == POINTERS then Chunks(fids, size) else []
  }

  function Zeros(n: nat): Bytes { seq<byte>(n, _ => 0) }

  // A token_pair of Setup; the buffers are zeroed first, and d is ENCRYPTED_BLOCK_SIZE long.
  function SetupLine(size: nat, lbl: Bytes, ctext: Bytes): TokenPair {
    var rest := if |ctext| <= BlockBytes(size) then BlockBytes(size) - |ctext| else 0;
    TokenPair([], lbl, ctext + Zeros(rest), Zeros(KEYLEN))
  }

  /** The lines of word `w` for `blocks`, the first of them under counter `c`. */
  function WordLines(cr: Suite, size: nat, key: Bytes, w: Word, blocks: seq<seq<u64>>, c: nat): seq<TokenPair> {
    if blocks == [] then []
    else [SetupLine(size, Label(cr, key, w, U64(c)), EncryptBlock(cr, K2Of(cr, key, w), blocks[0]))]
         + WordLines(cr, size, key, w, blocks[1..], c + 1)
  }

  function EncryptBlocks(cr: Suite, k2: Bytes, blocks: seq<seq<u64>>): (out: seq<Bytes>)
    ensures |out| == |blocks|
  {
    seq<Bytes>(|blocks|, i requires 0 <= i < |blocks| => EncryptBlock(cr, k2, blocks[i]))
  }

  /** Every token has a list, where `fileids.at` would throw. */
  predicate Listed(tokens: seq<Word>, fileids: map<Word, seq<u64>>) {
    forall w | w in tokens :: w in fileids
  }

  // No list is longer than a vector can be.
  ghost predicate ListsFit(tokens: seq<Word>, fileids: map<Word, seq<u64>>) {
    forall w | w in tokens && w in fileids :: |fileids[w]| < TWO64
  }

  ghost predicate Indexed(tokens: seq<Word>, fileids: map<Word, seq<u64>>) {
    Listed(tokens, fileids) && ListsFit(tokens, fileids)
  }

  /** All lines of the index, in the order the setup loop makes them. */
  function SetupLines(cr: Suite, size: nat, version: int, key: Bytes, tokens: seq<Word>, fileids: map<Word, seq<u64>>,
      base: nat): seq<TokenPair>
    requires size >= 1 && Indexed(tokens, fileids)
  {
    if tokens == [] then []
    else
      var w, fids := tokens[0], fileids[tokens[0]];
      WordLines(cr, size, key, w, IndexBlocks(version, size, fids, base), 0)
      + SetupLines(cr, size, version, key, tokens[1..], fileids, base + |ArrayBlocks(version, size, fids)|)
  }

  /** The array of encrypted file id blocks. */
  function SetupArray(cr: Suite, size: nat, version: int, key: Bytes, tokens: seq<Word>,
      fileids: map<Word, seq<u64>>): seq<Bytes>
    requires size >= 1 && Indexed(tokens, fileids)
  {
    if tokens == [] then []
    else
      EncryptBlocks(cr, K2Of(cr, key, tokens[0]), ArrayBlocks(version, size, fileids[tokens[0]]))
      + SetupArray(cr, size, version, key, tokens[1..], fileids)
  }

  // Bytes of a ciphertext handed to the server.
  function EntryBytes(version: int, size: nat): nat {
    if version == BASIC then 24 else BlockBytes(size)
  }

  function Prefix(bytes: Bytes, n: nat): Bytes { if n <= |bytes| then bytes[..n] else bytes }

  function HandOver(version: int, size: nat, lines: seq<TokenPair>): (pairs: seq<SetupPair>)
    ensures |pairs| == |lines|
  {
    seq<SetupPair>(|lines|, i requires 0 <= i < |lines| =>
      SetupPair(lines[i].l, Prefix(lines[i].d, EntryBytes(version, size))))
  }

  // ---------------------------------------------------------------- setup, server side

  /** Insert the pairs one after the other; a later pair replaces an earlier one. */
  function Dict(pairs: seq<SetupPair>): map<Bytes, Bytes> {
    if pairs == [] then map[]
    else
      var p := pairs[|pairs| - 1];
      Dict(pairs[..|pairs| - 1])[p.token := p.fileId]
  }

  function SetupServer(s: ServerState, version: int, pairs: seq<SetupPair>, m: seq<Bytes>): ServerState {
    ServerState(version, Dict(pairs), m, map[], s.srev, true)
  }

  // ---------------------------------------------------------------- search

  function SearchClient(cr: Suite, c: ClientState, w: Word): Trapdoor {
    Trapdoor(K1Of(cr, c.key, w), K2Of(cr, c.key, w), K1Of(cr, c.kplus, w), K2Of(cr, c.kplus, w), K1Of(cr, c.kminus, w))
  }

  /** The entries found by counting up from `c` until a label is missing. */
  function Probe(cr: Suite, dict: map<Bytes, Bytes>, k1: Bytes, c: nat): (entries: seq<Bytes>)
    requires c <= TWO64
    decreases TWO64 - c
  {
    if c < TWO64 && MacLong(cr, k1, c) in dict then [dict[MacLong(cr, k1, c)]] + Probe(cr, dict, k1, c + 1) else []
  }

  /** The slots of a block that hold a value. */
  function Used(values: seq<u64>): seq<u64> {
    if values == [] then []
    else (if values[0] == INVALID then [] else [values[0]]) + Used(values[1..])
  }

  /** The file ids behind a block of pointers into `a`: stop at INVALID, skip what is out of range. */
  function Follow(cr: Suite, size: nat, k2: Bytes, a: seq<Bytes>, pointers: seq<u64>): seq<u64> {
    if pointers == [] || pointers[0] == INVALID then []
    else
      (if pointers[0] < |a| && |a[pointers[0]]| >= BlockBytes(size)
       then Used(DecryptBlock(cr, k2, a[pointers[0]], size))
       else [])
      + Follow(cr, size, k2, a, pointers[1..])
  }

  /** The file ids one entry of D stands for. */
  function EntryIds(cr: Suite, size: nat, version: int, k2: Bytes, a: seq<Bytes>, entry: Bytes): seq<u64> {
    if |entry| < EntryBytes(version, size) then []
    else if version == BASIC then [DecryptLong(cr, k2, entry)]
    else if version == PACKED then Used(DecryptBlock(cr, k2, entry, size))
    else Follow(cr, size, k2, a, DecryptBlock(cr, k2, entry, size))
  }

  function Gather(cr: Suite, size: nat, version: int, k2: Bytes, a: seq<Bytes>, entries: seq<Bytes>): seq<u64> {
    if entries == [] then []
    else EntryIds(cr, size, version, k2, a, entries[0]) + Gather(cr, size, version, k2, a, entries[1..])
  }

  function LiveId(cr: Suite, k1minus: Bytes, srev: set<Bytes>, id: u64): seq<u64> {
    if MacLong(cr, k1minus, id) in srev then [] else [id]
  }

  /** The ids that are not on the revocation list. */
  function Live(cr: Suite, k1minus: Bytes, srev: set<Bytes>, ids: seq<u64>): seq<u64> {
    if ids == [] then []
    else LiveId(cr, k1minus, srev, ids[0]) + Live(cr, k1minus, srev, ids[1..])
  }

  function Search(cr: Suite, size: nat, s: ServerState, t: Trapdoor): seq<u64> {
    Live(cr, t.k1minus, s.srev, Gather(cr, size, s.version, t.k2, s.a, Probe(cr, s.d, t.k1, 0)))
    + Live(cr, t.k1minus, s.srev, Gather(cr, size, BASIC, t.k2plus, [], Probe(cr, s.dplus, t.k1plus, 0)))
  }

  /**
   * No read outside a buffer: entries have the length the search expects, and so have the blocks
   * that pointers in range lead to.
   */
  ghost predicate Readable(cr: Suite, size: nat, version: int, k2: Bytes, a: seq<Bytes>, entries: seq<Bytes>) {
    forall e | e in entries ::
      && (if version == BASIC then |e| >= 24 else |e| == BlockBytes(size))
      && (version == POINTERS ==>
            forall p | p in DecryptBlock(cr, k2, e, size) :: p < |a| ==> |a[p]| == BlockBytes(size))
  }

  /** Every pointer slot is INVALID or a position of the array: the branch for a pointer out of range is dead. */
  ghost predicate InRange(cr: Suite, size: nat, version: int, k2: Bytes, a: seq<Bytes>, entries: seq<Bytes>) {
    version == POINTERS ==>
      forall e | e in entries :: |e| >= BlockBytes(size) && forall p | p in DecryptBlock(cr, k2, e, size) ::
          p == INVALID || p < |a|
  }

  ghost predicate SafeSearch(cr: Suite, size: nat, s: ServerState, t: Trapdoor) {
    && Readable(cr, size, s.version, t.k2, s.a, Probe(cr, s.d, t.k1, 0))
    && Readable(cr, size, BASIC, t.k2plus, [], Probe(cr, s.dplus, t.k1plus, 0))
  }

  // ---------------------------------------------------------------- add

  /** The pair that AddClient makes for word `w`: only 24 bytes of the ciphertext are written. */
  ghost predicate IsAddPair(cr: Suite, size: nat, c: ClientState, id: u64, w: Word, p: AddPair) {
    && p.token == Label(cr, c.kplus, w, CountOf(c.dcount, w))
    && |p.fileId| == BlockBytes(size) >= 24
    && p.fileId[..24] == EncryptLong(cr, K2Of(cr, c.kplus, w), id)
    && p.revId == Label(cr, c.kminus, w, id)
  }

  function AddKey(p: AddPair): Bytes { p.token + p.fileId + p.revId }

  /** A request AddClient may make: a sorted rearrangement, with the words in the order of the pairs. */
  ghost predicate IsAddRequest(cr: Suite, size: nat, c: ClientState, id: u64, words: seq<Word>, l: seq<AddPair>,
      w: seq<Word>) {
    && |l| == |w|
    && multiset(w) == multiset(words)
    && (forall i | 0 <= i < |l| :: IsAddPair(cr, size, c, id, w[i], l[i]))
    && Sorted(l, AddKey)
  }

  // `Dcount[w]` creates a missing entry.
  function Touch(dcount: map<Word, u64>, words: seq<Word>): map<Word, u64> {
    map w | w in dcount.Keys + (set x | x in words) :: CountOf(dcount, w)
  }

  function AddOne(s: ServerState, r: seq<byte>, p: AddPair): (ServerState, seq<byte>) {
    if p.revId in s.srev then (s.(srev := s.srev - {p.revId}), r + [1])
    else if p.token in s.dplus then (s, r)
    else (s.(dplus := s.dplus[p.token := p.fileId]), r + [0])
  }

  function AddServer(s: ServerState, l: seq<AddPair>): (ServerState, seq<byte>) {
    if l == [] then (s, [])
    else
      var (s', r) := AddServer(s, l[..|l| - 1]);
      AddOne(s', r, l[|l| - 1])
  }

  /** Count up the words with a zero bit; false if a bit has no word (`W.at` throws). */
  function AddClient2(dcount: map<Word, u64>, r: seq<byte>, w: seq<Word>): (map<Word, u64>, bool) {
    if r == [] then (dcount, true)
    else
      var i := |r| - 1;
      var (counts, ok) := AddClient2(dcount, r[..i], w);
      if !ok || r[i] != 0 then (counts, ok)
      else if i >= |w| then (counts, false)
      else (counts[w[i] := U64(CountOf(counts, w[i]) + 1)], true)
  }

  // ---------------------------------------------------------------- delete

  function RevIds(cr: Suite, c: ClientState, id: u64, words: seq<Word>): seq<Bytes> {
    seq<Bytes>(|words|, i requires 0 <= i < |words| => Label(cr, c.kminus, words[i], id))
  }

  ghost predicate IsDeleteRequest(cr: Suite, c: ClientState, id: u64, words: seq<Word>, l: seq<Bytes>) {
    multiset(l) == multiset(RevIds(cr, c, id, words)) && Sorted(l, (x: Bytes) => x)
  }

  function DeleteServer(s: ServerState, l: seq<Bytes>): ServerState {
    s.(srev := s.srev + set x | x in l)
  }
}
