/** The readers and writers of src/storage.cpp, on a directory that is a record of file contents. */
module Storage {
  import opened Octets
  import opened Crypto
  import opened Streams
  import opened Formats
  import opened Persistence
  import opened Core

  /** An open std::ifstream. */
  class InFile {
    var s: Stream

    constructor (data: Bytes)
      ensures s == Open(data)
    {
      s := Open(data);
    }

    // Into a variable that holds `before`.
    method GetU64Into(before: u64) returns (v: u64)
      modifies this
      ensures (s, v) == ExtractU64Into(old(s), before)
    {
      var r := ExtractU64Into(s, before);
      s, v := r.0, r.1;
    }

    method GetU64() returns (v: u64)
      modifies this
      ensures (s, v) == ExtractU64(old(s))
    {
      var r := ExtractU64(s);
      s, v := r.0, r.1;
    }

    method GetIntInto(before: int) returns (v: int)
      modifies this
      ensures (s, v) == ExtractIntInto(old(s), before)
    {
      var r := ExtractIntInto(s, before);
      s, v := r.0, r.1;
    }

    method GetChar() returns (c: byte)
      modifies this
      ensures (s, c) == ExtractChar(old(s))
    {
      var r := ExtractChar(s);
      s, c := r.0, r.1;
    }

    method Read(n: nat) returns (bytes: Bytes)
      modifies this
      ensures (s, bytes) == ReadBytes(old(s), n)
    {
      var r := ReadBytes(s, n);
      s, bytes := r.0, r.1;
    }
  }

  /** Into a string that holds `before`. */
  method ReadStringFrom(input: InFile, before: Bytes) returns (ok: bool, str: Bytes)
    modifies input
    ensures (ok, str, input.s) == ReadStringInto(old(input.s), before)
  {
    str := before;
    var size := input.GetU64();
    if input.s.eof {
      return true, [];
    }
    if input.s.fail {
      return false, str;
    }
    var c0 := input.GetChar();
    if input.s.fail {
      return false, str;
    }
    str := input.Read(size);
    var c1 := input.GetChar();
    ok := !input.s.fail && c0 == COLON && c1 == COMMA;
  }

  // ---------------------------------------------------------------- D and Dplus

  method WriteMap(m: map<Bytes, Bytes>) returns (file: Bytes)
    ensures IsMapFile(file, m)
  {
    hide Netstring;
    file := [];
    ghost var order: seq<Bytes> := [];
    var rest := m.Keys;
    while rest != {}
      invariant rest <= m.Keys
      invariant NoRepeats(order) && forall k :: k in order <==> k in Keep32(m) && k !in rest
      invariant file == PrintEntries(order, m)
      decreases rest
    {
      var k :| k in rest;
      if |k| == KEYLEN {
        assert (order + [k])[..|order|] == order;
        file := file + (k + Netstring(m[k]));
        order := order + [k];
      }
      rest := rest - {k};
    }
    assert PrintsMap(file, m, order);
  }

  method ReadMapFile(file: Bytes, m0: map<Bytes, Bytes>) returns (ok: bool, m: map<Bytes, Bytes>)
    ensures (ok, m) == ReadMap(Open(file), m0)
  {
    hide ReadStringInto;
    m := m0;
    var input := new InFile(file);
    while true
      invariant fresh(input) && input.s.data == file
      invariant ReadMap(input.s, m) == ReadMap(Open(file), m0)
      decreases |file| - input.s.pos
    {
      var k := input.Read(KEYLEN);
      if input.s.eof {
        break;
      }
      ReadStringMoves(input.s);
      var good, v := ReadStringFrom(input, []);
      if !good || input.s.eof {
        return false, m;
      }
      m := m[k := v];
    }
    ok := true;
  }

  // ---------------------------------------------------------------- Srev

  method WriteRevlist(revs: set<Bytes>) returns (file: Bytes)
    ensures IsRevFile(file, revs)
  {
    file := [];
    ghost var order: seq<Bytes> := [];
    var rest := revs;
    while rest != {}
      invariant rest <= revs
      invariant NoRepeats(order) && forall v :: v in order <==> v in Rev32(revs) && v !in rest
      invariant file == PrintRevs(order)
      decreases rest
    {
      var v :| v in rest;
      if |v| == KEYLEN {
        assert (order + [v])[..|order|] == order;
        file := file + v;
        order := order + [v];
      }
      rest := rest - {v};
    }
    assert PrintsRevs(file, revs, order);
  }

  method ReadRevlist(file: Bytes) returns (revs: set<Bytes>)
    ensures revs == ReadRevs(Open(file), {})
  {
    revs := {};
    var input := new InFile(file);
    while true
      invariant fresh(input) && input.s.data == file && input.s.Good()
      invariant ReadRevs(input.s, revs) == ReadRevs(Open(file), {})
      decreases |file| - input.s.pos
    {
      var v := input.Read(KEYLEN);
      if input.s.eof {
        break;
      }
      revs := revs + {v};
    }
  }

  // ---------------------------------------------------------------- A

  method WriteBlocks(a: seq<Bytes>) returns (file: Bytes)
    ensures file == PrintBlocks(a)
  {
    file := [];
    for i := 0 to |a|
      invariant file == PrintBlocks(a[..i])
    {
      assert a[..i + 1][..i] == a[..i];
      file := file + Netstring(a[i]);
    }
    assert a[..|a|] == a;
  }

  /** Push an empty string, then read into the string at position `i`, which is an old one if there were any. */
  method ReadBlocksFile(file: Bytes, a0: seq<Bytes>) returns (ok: bool, a: seq<Bytes>)
    ensures (ok, a) == ReadBlocksInto(Open(file), a0, 0)
  {
    hide ReadStringInto;
    a := a0;
    var i := 0;
    var input := new InFile(file);
    while true
      invariant fresh(input) && input.s.data == file
      invariant i <= |a| && ReadBlocksInto(input.s, a, i) == ReadBlocksInto(Open(file), a0, 0)
      decreases |file| - input.s.pos
    {
      ReadStringMoves(input.s);
      a := a + [[]];
      SameString(input.s, a[i]);
      var good, block := ReadStringFrom(input, a[i]);
      a := a[i := block];
      if !good {
        return false, a;
      }
      if input.s.eof {
        break;
      }
      i := i + 1;
    }
    ok := true;
  }

  // ---------------------------------------------------------------- Dcount and fileidMap

  method WriteMapCount(m: map<Word, u64>) returns (file: Bytes)
    ensures IsCountFile(file, m)
  {
    hide Netstring, Dec;
    file := [];
    ghost var order: seq<Word> := [];
    var rest := m.Keys;
    while rest != {}
      invariant rest <= m.Keys
      invariant NoRepeats(order) && forall w :: w in order <==> w in m && w !in rest
      invariant file == PrintCounts(order, m)
      decreases rest
    {
      var w :| w in rest;
      assert (order + [w])[..|order|] == order;
      file := file + (Netstring(w) + Dec(m[w]) + [NEWLINE]);
      order := order + [w];
      rest := rest - {w};
    }
    assert PrintsCounts(file, m, order);
  }

  method ReadMapCount(file: Bytes, m0: map<Word, u64>) returns (ok: bool, m: map<Word, u64>)
    ensures (ok, m) == ReadCounts(Open(file), m0)
  {
    hide ReadStringInto, ExtractU64;
    m := m0;
    var input := new InFile(file);
    while true
      invariant fresh(input) && input.s.data == file
      invariant ReadCounts(input.s, m) == ReadCounts(Open(file), m0)
      decreases |file| - input.s.pos
    {
      ReadStringMoves(input.s);
      var good, token := ReadStringFrom(input, []);
      if !good {
        return false, m;
      }
      if input.s.eof {
        break;
      }
      ExtractMoves(input.s);
      var v := input.GetU64();
      if input.s.fail {
        return false, m;
      }
      m := m[token := v];
    }
    ok := true;
  }

  lemma ExtractMoves(s: Stream)
    ensures ExtractU64(s).0.data == s.data && ExtractU64(s).0.pos >= s.pos
  {
  }

  method WriteFileidMap(m: map<u64, Bytes>) returns (file: Bytes)
    ensures IsNameFile(file, m)
  {
    hide Netstring, Dec;
    file := [];
    ghost var order: seq<u64> := [];
    var rest := m.Keys;
    while rest != {}
      invariant rest <= m.Keys
      invariant NoRepeats(order) && forall id :: id in order <==> id in m && id !in rest
      invariant file == PrintNames(order, m)
      decreases rest
    {
      var id :| id in rest;
      assert (order + [id])[..|order|] == order;
      file := file + (Dec(id) + [SPACE] + Netstring(m[id]) + [NEWLINE]);
      order := order + [id];
      rest := rest - {id};
    }
    assert PrintsNames(file, m, order);
  }

  method ReadFileidMap(file: Bytes, m0: map<u64, Bytes>) returns (ok: bool, m: map<u64, Bytes>)
    ensures (ok, m) == ReadNames(Open(file), m0)
  {
    hide ReadStringInto, ExtractU64;
    m := m0;
    var input := new InFile(file);
    while true
      invariant fresh(input) && input.s.data == file
      invariant ReadNames(input.s, m) == ReadNames(Open(file), m0)
      decreases |file| - input.s.pos
    {
      ExtractMoves(input.s);
      var id := input.GetU64();
      if input.s.eof {
        break;
      }
      ReadStringMoves(input.s);
      var good, name := ReadStringFrom(input, []);
      if !good || input.s.eof {
        return false, m;
      }
      m := m[id := name];
    }
    ok := true;
  }

  // ---------------------------------------------------------------- the server's state

  method SaveServerToStorage(core: Core, before: Disk) returns (after: Disk)
    modifies core`dirtyD
    ensures Saves(old(core.Server()), before, after)
    ensures core.Server() == old(core.Server()).(dirtyD := false)
  {
    after := before.(version := Some(DecInt(core.version)));
    if core.dirtyD {
      var d := WriteMap(core.d);
      var a := WriteBlocks(core.a);
      after := after.(d := Some(d), a := Some(a));
      core.dirtyD := false;
    }
    var dplus := WriteMap(core.dplus);
    var srev := WriteRevlist(core.srev);
    after := after.(dplus := Some(dplus), srev := Some(srev));
  }

  method LoadServerFromStorage(core: Core, disk: Disk) returns (ok: bool)
    modifies core`version, core`d, core`dplus, core`srev, core`a
    ensures (ok, core.Server()) == LoadServerInto(old(core.Server()), disk)
  {
    if disk.version.None? {
      return false;
    }
    hide ReadMap, ReadRevs, ReadBlocksInto, ExtractIntInto, LoadChanges;
    var input := new InFile(disk.version.value);
    core.version := input.GetIntInto(core.version);
    if input.s.fail || disk.d.None? {
      return false;
    }
    ok, core.d := ReadMapFile(disk.d.value, core.d);
    if ok {
      ok := LoadChangedFiles(core, disk);
    }
  }

  method LoadChangedFiles(core: Core, disk: Disk) returns (ok: bool)
    modifies core`dplus, core`srev, core`a
    ensures (ok, core.Server()) == LoadChanges(old(core.Server()), disk)
  {
    hide ReadMap, ReadRevs, ReadBlocksInto;
    if disk.dplus.None? {
      return false;
    }
    ok, core.dplus := ReadMapFile(disk.dplus.value, core.dplus);
    if !ok || disk.srev.None? {
      return false;
    }
    core.srev := ReadRevlist(disk.srev.value);
    if disk.a.None? {
      return false;
    }
    ok, core.a := ReadBlocksFile(disk.a.value, core.a);
  }

  // ---------------------------------------------------------------- the client's state

  method SaveClientToStorage(core: Core) returns (disk: ClientDisk)
    ensures SavesClient(core.Client(), disk)
  {
    var dcount := WriteMapCount(core.dcount);
    disk := ClientDisk(Some(DecInt(core.version)), Some(core.key), Some(core.kplus), Some(core.kminus), Some(dcount));
  }

  method ReadBytesFile(file: Option<Bytes>, before: Bytes) returns (ok: bool, bytes: Bytes)
    ensures (ok, bytes) == LoadBytes(file, before)
  {
    if file.None? {
      return false, before;
    }
    var input := new InFile(file.value);
    bytes := input.Read(|before|);
    ok := input.s.Good();
    if !ok {
      bytes := file.value + before[|file.value|..];
    }
  }

  method LoadClientFromStorage(core: Core, disk: ClientDisk) returns (ok: bool)
    modifies core`version, core`key, core`kplus, core`kminus, core`dcount
    ensures (ok, core.Client()) == LoadClientInto(old(core.Client()), disk)
  {
    if disk.version.None? {
      return false;
    }
    hide ReadCounts, ExtractIntInto, LoadBytes, LoadKeys;
    var input := new InFile(disk.version.value);
    core.version := input.GetIntInto(core.version);
    if input.s.fail {
      return false;
    }
    ok, core.key := ReadBytesFile(disk.key, core.key);
    if ok {
      ok := LoadKeyFiles(core, disk);
    }
  }

  method LoadKeyFiles(core: Core, disk: ClientDisk) returns (ok: bool)
    modifies core`kplus, core`kminus, core`dcount
    ensures (ok, core.Client()) == LoadKeys(old(core.Client()), disk)
  {
    hide ReadCounts, LoadBytes;
    ok, core.kplus := ReadBytesFile(disk.kplus, core.kplus);
    if !ok {
      return false;
    }
    ok, core.kminus := ReadBytesFile(disk.kminus, core.kminus);
    if !ok || disk.dcount.None? {
      return false;
    }
    ok, core.dcount := ReadMapCount(disk.dcount.value, core.dcount);
  }
}
