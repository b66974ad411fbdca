/**
 * Files that end too early, as a crash in the middle of a save leaves them: for every place of the cut, whether
 * loading notices it, and what it loads.
 */
module Cuts {
  import opened Octets
  import opened Streams
  import opened Formats
  import opened Grammar

  // The first of the lengths that exceeds the cut.
  lemma {:induction false} Between(len: nat -> nat, size: nat, k: nat) returns (n: nat)
    requires len(0) <= k < len(size)
    ensures n < size && len(n) <= k < len(n + 1)
  {
    if len(size - 1) <= k {
      n := size - 1;
    } else {
      n := Between(len, size - 1, k);
    }
  }

  // A file that is cut inside its next piece.
  lemma CutPiece(file: Bytes, before: Bytes, piece: Bytes, k: nat)
    requires before + piece <= file && |before| <= k < |before| + |piece|
    ensures before <= file[..k] && file[..k][|before|..] == piece[..k - |before|]
  {
    assert file[..k] == (before + piece)[..k];
  }

  /** A netstring cut inside its length counts as the end of the file; cut anywhere else it is an error. */
  lemma CutString(s: Stream, q: nat, payload: Bytes, j: nat)
    requires s.Good() && |payload| < TWO64 && s.pos <= q && q + j == |s.data| && j < |Netstring(payload)|
    requires (forall i | s.pos <= i < q :: IsSpace(s.data[i])) && s.data[q..] == Netstring(payload)[..j]
    ensures ReadString(s).0 == (j <= |Dec(|payload|)|)
    ensures ReadString(s).0 ==> ReadString(s).2.eof
  {
    hide Dec, Netstring, ReadStringInto;
    if j <= |Dec(|payload|)| {
      CutLength(s, q, payload, j);
    } else {
      CutBehind(s, q, payload, j);
    }
  }

  lemma CutLength(s: Stream, q: nat, payload: Bytes, j: nat)
    requires s.Good() && |payload| < TWO64 && s.pos <= q && q + j == |s.data| && j <= |Dec(|payload|)|
    requires (forall i | s.pos <= i < q :: IsSpace(s.data[i])) && s.data[q..] == Netstring(payload)[..j]
    ensures ReadString(s).0 && ReadString(s).2.eof
  {
    hide Dec, ReadStringInto;
    var d := Dec(|payload|);
    assert Netstring(payload)[..j] == d[..j];
    assert s.data[q..|s.data|] == d[..j];
    EndTaken(s, q, q);
  }

  lemma CutBehind(s: Stream, q: nat, payload: Bytes, j: nat)
    requires s.Good() && |payload| < TWO64 && s.pos <= q && q + j == |s.data|
    requires |Dec(|payload|)| < j < |Netstring(payload)|
    requires (forall i | s.pos <= i < q :: IsSpace(s.data[i])) && s.data[q..] == Netstring(payload)[..j]
    ensures !ReadString(s).0
  {
    hide Dec, ExtractU64, ReadBytes, ExtractChar;
    var d := Dec(|payload|);
    var e := q + |d|;
    var whole := Netstring(payload);
    assert whole[..|d|] == d && whole[|d|] == COLON;
    assert forall i | 0 <= i < j :: s.data[q + i] == s.data[q..][i] == whole[i];
    assert s.data[q..e] == d;
    ExtractDecU64(s, q, |payload|);
    var c := CharRead(s.(pos := e));
    SkipsSpaces(s.data, e, e);
    OnePlace(s.data, e, e, c);
    PayloadRead(s.(pos := e + 1), |payload|);
    if |payload| <= |s.data| - (e + 1) {
      assert e + 1 + |payload| == |s.data|;
      var m := CharRead(s.(pos := |s.data|));
    }
  }

  // ---------------------------------------------------------------- D and Dplus

  /**
   * A file of entries, cut behind `k` bytes, loads without an error if and only if the cut is less than 32
   * bytes behind the end of an entry; either way the entries before the cut are loaded.
   */
  lemma MapCut(file: Bytes, order: seq<Bytes>, m: map<Bytes, Bytes>, k: nat, acc: map<Bytes, Bytes>)
    returns (n: nat)
    requires (forall x | x in order :: x in m && |x| == 32) && file == PrintEntries(order, m)
    requires Payloads(m) && k < |file|
    ensures n < |order| && |PrintEntries(order[..n], m)| <= k < |PrintEntries(order[..n + 1], m)|
    ensures ReadMap(Open(file[..k]), acc) == (k - |PrintEntries(order[..n], m)| < 32, Merge(acc, order[..n], m))
  {
    hide PrintEntries, Entry, ReadMap, Merge;
    var len := (i: nat) => if i <= |order| then |PrintEntries(order[..i], m)| else 0;
    PrintEntriesEnds(order, m, acc);
    n := Between(len, |order|, k);
    var before, x := PrintEntries(order[..n], m), order[n];
    PrintEntriesStep(order, m, n);
    PrintPrefix(order, m, n + 1);
    CutPiece(file, before, Entry(x, m[x]), k);
    assert order[..n][..n] == order[..n];
    ReadEntries(file[..k], order[..n], m, n, acc);
    EntryCut(Input(file[..k], |before|, false, false), Merge(acc, order[..n], m), x, m[x], k - |before|);
  }

  lemma EntryCut(s: Stream, acc: map<Bytes, Bytes>, x: Bytes, v: Bytes, j: nat)
    requires s.Good() && |x| == 32 && |v| < TWO64 && s.pos + j == |s.data| && j < |Entry(x, v)|
    requires s.data[s.pos..] == Entry(x, v)[..j]
    ensures ReadMap(s, acc) == (j < 32, acc)
  {
    hide Netstring, ReadStringInto;
    if j >= 32 {
      var s1 := s.(pos := s.pos + 32);
      assert s.data[s1.pos..] == s.data[s.pos..][32..];
      assert Entry(x, v)[..j][32..] == Netstring(v)[..j - 32];
      CutString(s1, s1.pos, v, j - 32);
    }
  }

  // ---------------------------------------------------------------- Srev

  /** Whatever a file holds, readRevlist takes its whole pieces of 32 bytes and passes over what is left. */
  lemma {:induction false} RevsAre(data: Bytes, i: nat, revs: set<Bytes>)
    requires 32 * i <= |data|
    ensures ReadRevs(Input(data, 32 * i, false, false), revs)
            == revs + set j | i <= j < |data| / 32 :: data[32 * j..32 * j + 32]
    decreases |data| - 32 * i
  {
    if 32 * i + 32 <= |data| {
      RevsAre(data, i + 1, revs + {data[32 * i..32 * i + 32]});
    }
  }

  // ---------------------------------------------------------------- A

  /**
   * A file of blocks, cut behind `k` bytes, loads without an error if and only if the cut is behind a block
   * or within the length of the next; the blocks before are loaded.
   */
  lemma BlocksCut(a: seq<Bytes>, k: nat, a0: seq<Bytes>) returns (n: nat)
    requires (forall b | b in a :: |b| < TWO64) && k < |PrintBlocks(a)|
    ensures n < |a| && |PrintBlocks(a[..n])| <= k < |PrintBlocks(a[..n + 1])|
    ensures var (ok, blocks) := ReadBlocksInto(Open(PrintBlocks(a)[..k]), a0, 0);
            && ok == (k - |PrintBlocks(a[..n])| <= |Dec(|a[n]|)|)
            && |blocks| == |a0| + n + 1 && blocks[..n] == a[..n] && (ok ==> blocks[n] == [])
  {
    hide PrintBlocks, Netstring, ReadBlocksInto, Dec;
    var len := (i: nat) => if i <= |a| then |PrintBlocks(a[..i])| else 0;
    PrintBlocksEnds(a);
    n := Between(len, |a|, k);
    var file, before := PrintBlocks(a), PrintBlocks(a[..n]);
    PrintBlocksStep(a, n);
    PrintBlocksPrefix(a, n + 1);
    CutPiece(file, before, Netstring(a[n]), k);
    assert a[..n][..n] == a[..n];
    ReadSomeBlocks(file[..k], a[..n], n, a0);
    BlockCut(Input(file[..k], |before|, false, false), Overwrite(a0, a[..n], n), n, a[n], k - |before|);
  }

  lemma BlockCut(s: Stream, a: seq<Bytes>, n: nat, block: Bytes, j: nat)
    requires s.Good() && |block| < TWO64 && s.pos + j == |s.data| && j < |Netstring(block)| && n <= |a|
    requires s.data[s.pos..] == Netstring(block)[..j]
    ensures var (ok, blocks) := ReadBlocksInto(s, a, n);
            && ok == (j <= |Dec(|block|)|)
            && |blocks| == |a| + 1 && blocks[..n] == a[..n] && (ok ==> blocks[n] == [])
  {
    hide Netstring, Dec;
    CutString(s, s.pos, block, j);
    SameString(s, (a + [[]])[n]);
  }

  // ---------------------------------------------------------------- Dcount

  /** A number without its last digits. */
  function Shortened(v: u64, missing: int): u64 {
    if missing <= 0 then v else Shortened(v / 10, missing - 1)
  }

  lemma {:induction false} DecPrefix(v: u64, i: nat)
    requires i <= |Dec(v)|
    ensures Value(Dec(v)[..i]) == Shortened(v, |Dec(v)| - i)
  {
    var d := Dec(v);
    if i == |d| {
      assert d[..i] == d;
      ValueDec(v);
    } else if v < 10 {
      assert d[..i] == [];
      assert Shortened(v, 1) == Shortened(0, 0);
    } else {
      assert d[..i] == Dec(v / 10)[..i];
      DecPrefix(v / 10, i);
    }
  }

  /** A counter without the digits that a cut behind `j` bytes of its line takes away. */
  function CutCounter(w: Word, v: u64, j: nat): u64 {
    Shortened(v, |Netstring(w)| + |Dec(v)| - j)
  }

  /**
   * What is left of a line of Dcount, cut behind `j` bytes: nothing and no error within the length of the
   * word, an error behind it up to the counter, and then, without an error, a counter with digits missing.
   */
  lemma LineCut(s: Stream, q: nat, acc: map<Word, u64>, w: Word, v: u64, j: nat)
    requires s.Good() && |w| < TWO64 && s.pos == BeforeNewline(q) && q + j == |s.data| && j < |CountEntry(w, v)|
    requires q > 0 ==> s.data[q - 1] == NEWLINE
    requires s.data[q..] == CountEntry(w, v)[..j]
    ensures ReadCounts(s, acc)
            == if j <= |Dec(|w|)| then (true, acc)
               else if j <= |Netstring(w)| then (false, acc)
               else (true, acc[w := CutCounter(w, v, j)])
  {
    hide Netstring, Dec, ReadStringInto, ExtractU64;
    var n := |Netstring(w)|;
    if j < n {
      assert CountEntry(w, v)[..j] == Netstring(w)[..j];
      CutString(s, q, w, j);
    } else {
      assert CountEntry(w, v)[..j] == Netstring(w) + Dec(v)[..j - n];
      assert s.data[q..q + n] == Netstring(w);
      NetstringRead(s, q, w);
      NetstringLonger(w);
      CounterCut(s.(pos := q + n), v, j - n);
      if j > n {
        EndOfCounts(Input(s.data, |s.data|, true, false), acc[w := CutCounter(w, v, j)]);
      }
    }
  }

  lemma NetstringLonger(w: Word)
    ensures |Netstring(w)| > |Dec(|w|)|
  {
  }

  lemma CounterCut(s: Stream, v: u64, i: nat)
    requires s.Good() && i <= |Dec(v)| && s.pos + i == |s.data| && s.data[s.pos..] == Dec(v)[..i]
    ensures i == 0 ==> ExtractU64(s).0.fail
    ensures i > 0 ==> ExtractU64(s) == (Input(s.data, |s.data|, true, false), Shortened(v, |Dec(v)| - i))
  {
    hide Dec, Value;
    var d := Dec(v)[..i];
    assert s.data[s.pos..|s.data|] == d;
    if i > 0 {
      assert s.data[s.pos] == s.data[s.pos..][0] == Dec(v)[0];
      SkipsSpaces(s.data, s.pos, s.pos);
      DigitsTaken(s.data, s.pos, |s.data|);
      DecPrefix(v, i);
    }
  }

  lemma EndOfCounts(s: Stream, m: map<Word, u64>)
    requires s.eof
    ensures ReadCounts(s, m) == (true, m)
  {
  }

  /**
   * A file of counters, cut behind `k` bytes: the lines before the cut are loaded. It is an error if and only
   * if the cut is behind the length of a word and not behind the first digit of its counter; behind that,
   * the counter loses the digits that are missing.
   */
  lemma CountsCut(file: Bytes, order: seq<Word>, m: map<Word, u64>, k: nat, acc: map<Word, u64>) returns (n: nat)
    requires PrintsCounts(file, m, order) && (forall w | w in m :: |w| < TWO64) && k < |file|
    ensures n < |order| && |PrintCounts(order[..n], m)| <= k < |PrintCounts(order[..n + 1], m)|
    ensures var w := order[n]; var j := k - |PrintCounts(order[..n], m)|;
            ReadCounts(Open(file[..k]), acc)
            == if j <= |Dec(|w|)| then (true, Merge(acc, order[..n], m))
               else if j <= |Netstring(w)| then (false, Merge(acc, order[..n], m))
               else (true, Merge(acc, order[..n], m)[w := CutCounter(w, m[w], j)])
  {
    hide PrintCounts, CountEntry, ReadCounts, Merge, Netstring, Dec;
    var len := (i: nat) => if i <= |order| then |PrintCounts(order[..i], m)| else 0;
    PrintCountsEnds(order, m, acc);
    n := Between(len, |order|, k);
    var before, w := PrintCounts(order[..n], m), order[n];
    PrintCountsStep(order, m, n);
    CountsPrefix(order, m, n + 1);
    CountsPrefix(order, m, n);
    CutPiece(file, before, CountEntry(w, m[w]), k);
    assert order[..n][..n] == order[..n];
    ReadSomeCounts(file[..k], order[..n], m, n, acc);
    LineCut(Input(file[..k], BeforeNewline(|before|), false, false), |before|, Merge(acc, order[..n], m), w, m[w],
            k - |before|);
  }

  // ---------------------------------------------------------------- the names

  /** A line of names, cut behind `j` bytes. */
  lemma NameCut(s: Stream, q: nat, acc: map<u64, Bytes>, id: u64, name: Bytes, j: nat)
    requires s.Good() && |name| < TWO64 && s.pos == BeforeNewline(q) && q + j == |s.data| && j < |NameEntry(id, name)|
    requires q > 0 ==> s.data[q - 1] == NEWLINE
    requires s.data[q..] == NameEntry(id, name)[..j]
    ensures ReadNames(s, acc)
            == if j <= |Dec(id)| then (true, acc)
               else if j <= |Dec(id)| + |Netstring(name)| then (false, acc)
               else (true, acc[id := name])
  {
    hide Netstring, Dec, ReadString, ExtractU64, NameEntry, ReadNames;
    var d, n := |Dec(id)|, |Netstring(name)|;
    if j <= d {
      IdCut(s, q, id, name, j);
      NoIdLeft(s, acc);
    } else {
      NameFieldsCut(s.data, q, id, name, j);
      ExtractDecU64(s, q, id);
      if j <= d + n {
        CutString(s.(pos := q + d), q + d + 1, name, j - d - 1);
      } else {
        NetstringRead(s.(pos := q + d), q + d + 1, name);
        EndOfNames(s.(pos := |s.data|), acc[id := name]);
      }
      NameRead(s, acc);
    }
  }

  lemma NoIdLeft(s: Stream, acc: map<u64, Bytes>)
    requires ExtractU64(s).0.eof
    ensures ReadNames(s, acc) == (true, acc)
  {
    hide ExtractU64;
  }

  lemma NameRead(s: Stream, acc: map<u64, Bytes>)
    requires !ExtractU64(s).0.eof
    ensures var (s1, id) := ExtractU64(s); var (ok, name, s2) := ReadString(s1);
            ReadNames(s, acc) == if !ok || s2.eof then (false, acc) else ReadNames(s2, acc[id := name])
  {
    hide ExtractU64, ReadString;
  }

  lemma NameFieldsCut(data: Bytes, q: nat, id: u64, name: Bytes, j: nat)
    requires q + j == |data| && |Dec(id)| < j < |NameEntry(id, name)| && data[q..] == NameEntry(id, name)[..j]
    ensures var d, n := |Dec(id)|, |Netstring(name)|;
            && |NameEntry(id, name)| == d + n + 2
            && data[q..q + d] == Dec(id) && data[q + d] == SPACE
            && data[q + d + 1..] == Netstring(name)[..j - d - 1]
            && (j > d + n ==> data[q + d + 1..q + d + 1 + n] == Netstring(name))
  {
    hide Netstring, Dec;
    var d, n, e := |Dec(id)|, |Netstring(name)|, NameEntry(id, name);
    assert e[..d] == Dec(id) && e[d] == SPACE && e[d + 1..d + 1 + n] == Netstring(name);
    assert data[q + d + 1..] == data[q..][d + 1..] == e[..j][d + 1..] == e[d + 1..j];
    assert e[d + 1..j] == Netstring(name)[..j - d - 1];
    assert data[q..q + d] == data[q..][..d] == e[..d];
    assert data[q + d] == data[q..][d] == e[d];
  }

  lemma EndOfNames(s: Stream, names: map<u64, Bytes>)
    requires s.Good() && s.pos == |s.data|
    ensures ReadNames(s, names) == (true, names)
  {
    hide ReadNames;
    AtEnd(s, map[], names);
  }

  lemma IdCut(s: Stream, q: nat, id: u64, name: Bytes, j: nat)
    requires s.Good() && s.pos <= q && q + j == |s.data| && j <= |Dec(id)|
    requires s.data[q..] == NameEntry(id, name)[..j] && forall i | s.pos <= i < q :: IsSpace(s.data[i])
    ensures ExtractU64(s).0.eof
  {
    hide Dec, Value;
    assert NameEntry(id, name)[..j] == Dec(id)[..j];
    assert s.data[q..|s.data|] == Dec(id)[..j];
    if j == 0 {
      SkipsSpaces(s.data, s.pos, |s.data|);
    } else {
      assert s.data[q] == s.data[q..][0] == Dec(id)[0];
      SkipsSpaces(s.data, s.pos, q);
      DigitsTaken(s.data, q, |s.data|);
    }
  }

  /** A file of names, cut behind `k` bytes, is an error if and only if the cut is behind an id and within its name. */
  lemma NamesCut(file: Bytes, order: seq<u64>, m: map<u64, Bytes>, k: nat, acc: map<u64, Bytes>) returns (n: nat)
    requires PrintsNames(file, m, order) && (forall id | id in m :: |m[id]| < TWO64) && k < |file|
    ensures n < |order| && |PrintNames(order[..n], m)| <= k < |PrintNames(order[..n + 1], m)|
    ensures var id := order[n]; var j := k - |PrintNames(order[..n], m)|;
            ReadNames(Open(file[..k]), acc)
            == if j <= |Dec(id)| then (true, Merge(acc, order[..n], m))
               else if j <= |Dec(id)| + |Netstring(m[id])| then (false, Merge(acc, order[..n], m))
               else (true, Merge(acc, order[..n], m)[id := m[id]])
  {
    hide PrintNames, NameEntry, ReadNames, Merge, Netstring, Dec;
    var len := (i: nat) => if i <= |order| then |PrintNames(order[..i], m)| else 0;
    PrintNamesEnds(order, m, acc);
    n := Between(len, |order|, k);
    var before, id := PrintNames(order[..n], m), order[n];
    PrintNamesStep(order, m, n);
    NamesPrefix(order, m, n + 1);
    NamesPrefix(order, m, n);
    CutPiece(file, before, NameEntry(id, m[id]), k);
    assert order[..n][..n] == order[..n];
    ReadSomeNames(file[..k], order[..n], m, n, acc);
    NameCut(Input(file[..k], BeforeNewline(|before|), false, false), |before|, Merge(acc, order[..n], m), id, m[id],
            k - |before|);
  }
}
