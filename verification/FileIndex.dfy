/** The inverted index that Client::SetupFiles builds, and its allocation of file ids (src/DSSEClient.cpp). */
module FileIndex {
  import opened Octets
  import opened CoreSpec
  import opened SetupProof
  import opened Persistence

  /** The tokens of a file, each once; None when the file cannot be read. */
  type Tokenizer = Bytes -> Option<seq<Word>>

  ghost predicate TokenSets(tk: Tokenizer) {
    forall f :: tk(f).Some? ==> Distinct(tk(f).value)
  }

  predicate Contains(tk: Tokenizer, f: Bytes, w: Word) { tk(f).Some? && w in tk(f).value }

  /** The readable files in the order of their first occurrence; the file at position k gets id k + 1. */
  function FirstSeen(tk: Tokenizer, files: seq<Bytes>): (seen: seq<Bytes>)
    ensures |seen| <= |files|
  {
    if files == [] then []
    else
      var seen, f := FirstSeen(tk, files[..|files| - 1]), files[|files| - 1];
      if tk(f).Some? && f !in seen then seen + [f] else seen
  }

  function Position(seen: seq<Bytes>, f: Bytes): (k: nat)
    requires f in seen
    ensures k < |seen| && seen[k] == f && f !in seen[..k]
  {
    if seen[0] == f then 0
    else
      assert seen == [seen[0]] + seen[1..];
      var k := 1 + Position(seen[1..], f);
      assert seen[..k] == [seen[0]] + seen[1..][..k - 1];
      k
  }

  lemma {:induction false} SeenAre(tk: Tokenizer, files: seq<Bytes>, f: Bytes)
    ensures f in FirstSeen(tk, files) <==> f in files && tk(f).Some?
  {
    if files != [] {
      SeenAre(tk, files[..|files| - 1], f);
      assert files == files[..|files| - 1] + [files[|files| - 1]];
    }
  }

  lemma {:induction false} SeenGrows(tk: Tokenizer, files: seq<Bytes>, n: nat)
    requires n <= |files|
    ensures FirstSeen(tk, files[..n]) <= FirstSeen(tk, files)
  {
    if n == |files| {
      assert files[..n] == files;
    } else {
      assert files[..|files| - 1][..n] == files[..n];
      SeenGrows(tk, files[..|files| - 1], n);
    }
  }

  lemma {:induction false} SeenDistinct(tk: Tokenizer, files: seq<Bytes>)
    ensures Distinct(FirstSeen(tk, files))
  {
    if files != [] {
      SeenDistinct(tk, files[..|files| - 1]);
    }
  }

  /** The id of a readable file of the list. */
  function IdOf(tk: Tokenizer, files: seq<Bytes>, f: Bytes): u64
    requires f in files && tk(f).Some? && |files| < INVALID
  {
    SeenAre(tk, files, f);
    1 + Position(FirstSeen(tk, files), f)
  }

  // Ids do not change when the list grows.
  lemma IdStays(tk: Tokenizer, files: seq<Bytes>, n: nat, f: Bytes)
    requires n <= |files| < INVALID && f in files[..n] && tk(f).Some?
    ensures f in files && IdOf(tk, files, f) == IdOf(tk, files[..n], f)
  {
    SeenAre(tk, files[..n], f);
    SeenAre(tk, files, f);
    SeenGrows(tk, files, n);
    SeenDistinct(tk, files);
    var seen := FirstSeen(tk, files);
    var k := Position(FirstSeen(tk, files[..n]), f);
    assert seen[k] == f;
  }

  /** The ids of the files with token `w`, in the order of the list. */
  function Postings(tk: Tokenizer, files: seq<Bytes>, w: Word): seq<u64>
    requires |files| < INVALID
  {
    if files == [] then []
    else
      var f := files[|files| - 1];
      Postings(tk, files[..|files| - 1], w) + if Contains(tk, f, w) then [IdOf(tk, files, f)] else []
  }

  /** A list contains an id exactly when it is the id of a file with that token. */
  lemma {:induction false} PostingsAre(tk: Tokenizer, files: seq<Bytes>, w: Word, id: u64)
    requires |files| < INVALID
    ensures id in Postings(tk, files, w) <==> exists f :: f in files && Contains(tk, f, w) && id == IdOf(tk, files, f)
  {
    if files != [] {
      var init, last := files[..|files| - 1], files[|files| - 1];
      PostingsAre(tk, init, w, id);
      assert files == init + [last];
      forall f | f in init && Contains(tk, f, w)
        ensures IdOf(tk, files, f) == IdOf(tk, init, f)
      {
        IdStays(tk, files, |init|, f);
      }
    }
  }

  predicate Increasing(ids: seq<u64>) {
    forall i, j | 0 <= i < j < |ids| :: ids[i] < ids[j]
  }

  /** No file with tokens stands in the list twice. */
  ghost predicate NoFileTwice(tk: Tokenizer, files: seq<Bytes>) {
    forall i, j, w | 0 <= i < j < |files| && Contains(tk, files[j], w) :: files[i] != files[j]
  }

  lemma IncreasingAppend(ids: seq<u64>, id: u64)
    requires Increasing(ids) && forall x | x in ids :: x < id
    ensures Increasing(ids + [id])
  {
    assert forall i | 0 <= i < |ids| :: ids[i] in ids;
  }

  lemma {:induction false} PostingsIncrease(tk: Tokenizer, files: seq<Bytes>, w: Word)
    requires NoFileTwice(tk, files) && |files| < INVALID
    ensures Increasing(Postings(tk, files, w))
  {
    if files != [] {
      var init, last := files[..|files| - 1], files[|files| - 1];
      PostingsIncrease(tk, init, w);
      if Contains(tk, last, w) {
        assert last !in init;
        SeenAre(tk, init, last);
        var seen := FirstSeen(tk, init);
        assert FirstSeen(tk, files) == seen + [last];
        SeenAre(tk, files, last);
        var k := Position(seen + [last], last);
        assert forall m | 0 <= m < |seen| :: seen[m] in seen;
        assert (seen + [last])[k] == last && k == |seen|;
        forall id | id in Postings(tk, init, w)
          ensures id < IdOf(tk, files, last)
        {
          PostingsAre(tk, init, w, id);
        }
        IncreasingAppend(Postings(tk, init, w), IdOf(tk, files, last));
      }
    }
  }

  lemma {:induction false} TwiceShows(tk: Tokenizer, files: seq<Bytes>, i: nat, j: nat, w: Word)
    requires i < j < |files| < INVALID && files[i] == files[j] && Contains(tk, files[j], w)
    ensures !Increasing(Postings(tk, files, w))
  {
    var init, last := files[..|files| - 1], files[|files| - 1];
    if j < |init| {
      TwiceShows(tk, init, i, j, w);
      var ids := Postings(tk, init, w);
      var a, b :| 0 <= a < b < |ids| && ids[a] >= ids[b];
      var all := Postings(tk, files, w);
      assert all[a] == ids[a] && all[b] == ids[b];
    } else {
      var ids := Postings(tk, init, w);
      assert init[i] == last;
      IdStays(tk, files, |init|, last);
      PostingsAre(tk, init, w, IdOf(tk, init, last));
      var a :| 0 <= a < |ids| && ids[a] == IdOf(tk, init, last);
      var all := Postings(tk, files, w);
      assert all[a] == all[|ids|];
    }
  }

  /** All lists are strictly increasing, if and only if no file with tokens is listed twice. */
  lemma ListsIncrease(tk: Tokenizer, files: seq<Bytes>)
    requires |files| < INVALID
    ensures (forall w :: Increasing(Postings(tk, files, w))) <==> NoFileTwice(tk, files)
  {
    if NoFileTwice(tk, files) {
      forall w
        ensures Increasing(Postings(tk, files, w))
      {
        PostingsIncrease(tk, files, w);
      }
    } else {
      var i, j, w :| 0 <= i < j < |files| && Contains(tk, files[j], w) && files[i] == files[j];
      TwiceShows(tk, files, i, j, w);
    }
  }

  // ---------------------------------------------------------------- the loops

  /** The two maps between file names and ids are inverse to each other on 1, ..., last - 1. */
  ghost predicate NamesHold(seen: seq<Bytes>, toId: map<Bytes, u64>, toName: map<u64, Bytes>, last: u64) {
    && last == |seen| + 1
    && (forall f :: f in toId <==> f in seen)
    && (forall id :: id in toName <==> 1 <= id < last)
    && forall k | 0 <= k < |seen| :: toId[seen[k]] == k + 1 && toName[k + 1] == seen[k]
  }

  lemma NewName(seen: seq<Bytes>, toId: map<Bytes, u64>, toName: map<u64, Bytes>, last: u64, f: Bytes)
    requires NamesHold(seen, toId, toName, last) && f !in seen && last < INVALID
    ensures NamesHold(seen + [f], toId[f := last], toName[last := f], last + 1)
  {
  }

  /** Every indexed word has its postings, and stands in the list of tokens once. */
  ghost predicate ListsHold(tk: Tokenizer, files: seq<Bytes>, fileids: map<Word, seq<u64>>, tokens: seq<Word>)
    requires |files| < INVALID
  {
    && (forall w :: At(fileids, w) == Postings(tk, files, w))
    && TokensHold(fileids, tokens)
  }

  ghost predicate TokensHold(fileids: map<Word, seq<u64>>, tokens: seq<Word>) {
    && Distinct(tokens)
    && (forall w :: w in tokens <==> w in fileids)
    && (forall w | w in fileids :: fileids[w] != [])
  }

  /** `id` was appended to the lists of the words of `words`, and to no other. */
  ghost predicate Pushed(before: map<Word, seq<u64>>, after: map<Word, seq<u64>>, words: seq<Word>, id: u64) {
    forall w :: At(after, w) == At(before, w) + if w in words then [id] else []
  }

  lemma PushedStep(before: map<Word, seq<u64>>, after: map<Word, seq<u64>>, words: seq<Word>, j: nat, id: u64)
    requires Distinct(words) && j < |words| && Pushed(before, after, words[..j], id)
    ensures Pushed(before, after[words[j] := At(after, words[j]) + [id]], words[..j + 1], id)
  {
    assert words[..j + 1] == words[..j] + [words[j]] && words[j] !in words[..j];
  }

  lemma TokensStep(fileids: map<Word, seq<u64>>, tokens: seq<Word>, w: Word, id: u64)
    requires TokensHold(fileids, tokens)
    ensures TokensHold(fileids[w := At(fileids, w) + [id]], if w in fileids then tokens else tokens + [w])
  {
  }

  lemma FileDone(tk: Tokenizer, files: seq<Bytes>, i: nat, before: map<Word, seq<u64>>, after: map<Word, seq<u64>>,
      tokens: seq<Word>, tokens': seq<Word>)
    requires i < |files| < INVALID && tk(files[i]).Some?
    requires ListsHold(tk, files[..i], before, tokens) && TokensHold(after, tokens')
    requires files[i] in files[..i + 1] && Pushed(before, after, tk(files[i]).value, IdOf(tk, files[..i + 1], files[i]))
    ensures ListsHold(tk, files[..i + 1], after, tokens')
  {
    hide IdOf, TokensHold;
    assert files[..i + 1][..i] == files[..i];
  }

  lemma FileSkipped(tk: Tokenizer, files: seq<Bytes>, i: nat, fileids: map<Word, seq<u64>>, tokens: seq<Word>)
    requires i < |files| < INVALID && tk(files[i]).None? && ListsHold(tk, files[..i], fileids, tokens)
    ensures ListsHold(tk, files[..i + 1], fileids, tokens) && FirstSeen(tk, files[..i + 1]) == FirstSeen(tk, files[..i])
  {
    hide IdOf, TokensHold;
    assert files[..i + 1][..i] == files[..i];
  }

  method AddPostings(words: seq<Word>, id: u64, fileids0: map<Word, seq<u64>>, tokens0: seq<Word>)
    returns (fileids: map<Word, seq<u64>>, tokens: seq<Word>)
    requires Distinct(words) && TokensHold(fileids0, tokens0)
    ensures Pushed(fileids0, fileids, words, id) && TokensHold(fileids, tokens)
  {
    fileids, tokens := fileids0, tokens0;
    assert Pushed(fileids0, fileids, words[..0], id);
    hide Pushed, Distinct;
    for j := 0 to |words|
      invariant Pushed(fileids0, fileids, words[..j], id)
      invariant TokensHold(fileids, tokens)
    {
      var word := words[j];
      PushedStep(fileids0, fileids, words, j, id);
      TokensStep(fileids, tokens, word, id);
      // add the word to the list of tokens if it is new
      if word !in fileids {
        tokens := tokens + [word];
      }
      fileids := fileids[word := At(fileids, word) + [id]];
    }
    assert words[..|words|] == words;
  }

  method IndexFiles(tk: Tokenizer, files: seq<Bytes>)
    returns (fileids: map<Word, seq<u64>>, tokens: seq<Word>, names: map<u64, Bytes>, last: u64)
    requires TokenSets(tk) && |files| < INVALID - 1
    ensures ListsHold(tk, files, fileids, tokens)
    ensures last == |FirstSeen(tk, files)| + 1
    ensures forall id :: id in names <==> 1 <= id < last
    ensures forall f | f in files && tk(f).Some? :: IdOf(tk, files, f) in names && names[IdOf(tk, files, f)] == f
    ensures forall id | id in names :: names[id] in files && tk(names[id]).Some? && IdOf(tk, files, names[id]) == id
  {
    hide ListsHold, TokensHold, Pushed, NamesHold, FirstSeen, IdOf, TokenSets, Distinct;
    var toId: map<Bytes, u64> := map[];
    fileids, tokens, names, last := map[], [], map[], 1;
    IndexStart(tk, files);
    for i := 0 to |files|
      invariant ListsHold(tk, files[..i], fileids, tokens)
      invariant NamesHold(FirstSeen(tk, files[..i]), toId, names, last)
    {
      var f := files[i];
      var words := tk(f);
      if words.Some? {
        // allocate an id if this is a new file name
        NamesStep(tk, files, i, toId, names, last);
        if f !in toId {
          toId, names := toId[f := last], names[last := f];
          last := last + 1;
        }
        ghost var before, tokens0 := fileids, tokens;
        ListsTokens(tk, files[..i], fileids, tokens);
        TokensDistinct(tk, f);
        fileids, tokens := AddPostings(words.value, toId[f], fileids, tokens);
        FileDone(tk, files, i, before, fileids, tokens0, tokens);
      } else {
        FileSkipped(tk, files, i, fileids, tokens);
      }
    }
    assert files[..|files|] == files;
    NamesFound(tk, files, toId, names, last);
  }

  lemma IndexStart(tk: Tokenizer, files: seq<Bytes>)
    requires |files| < INVALID
    ensures ListsHold(tk, files[..0], map[], []) && NamesHold(FirstSeen(tk, files[..0]), map[], map[], 1)
  {
  }

  lemma TokensDistinct(tk: Tokenizer, f: Bytes)
    requires TokenSets(tk) && tk(f).Some?
    ensures Distinct(tk(f).value)
  {
  }

  // One readable file: a new name gets the next id, a known one keeps its own.
  lemma NamesStep(tk: Tokenizer, files: seq<Bytes>, i: nat, toId: map<Bytes, u64>, names: map<u64, Bytes>, last: u64)
    requires i < |files| < INVALID - 1 && tk(files[i]).Some? && NamesHold(FirstSeen(tk, files[..i]), toId, names, last)
    ensures files[i] in files[..i + 1] && last < INVALID
    ensures var f := files[i]; var seen, id := FirstSeen(tk, files[..i + 1]), IdOf(tk, files[..i + 1], f);
            if f in toId then NamesHold(seen, toId, names, last) && toId[f] == id
            else NamesHold(seen, toId[f := last], names[last := f], last + 1) && last == id
  {
    var f, seen := files[i], FirstSeen(tk, files[..i]);
    assert files[..i + 1][..i] == files[..i] && f == files[..i + 1][i];
    SeenDistinct(tk, files[..i + 1]);
    if f !in toId {
      NewName(seen, toId, names, last, f);
      assert FirstSeen(tk, files[..i + 1]) == seen + [f] && (seen + [f])[|seen|] == f;
    }
  }

  lemma NamesFound(tk: Tokenizer, files: seq<Bytes>, toId: map<Bytes, u64>, names: map<u64, Bytes>, last: u64)
    requires |files| < INVALID && NamesHold(FirstSeen(tk, files), toId, names, last)
    ensures last == |FirstSeen(tk, files)| + 1
    ensures forall id :: id in names <==> 1 <= id < last
    ensures forall f | f in files && tk(f).Some? :: IdOf(tk, files, f) in names && names[IdOf(tk, files, f)] == f
    ensures forall id | id in names :: names[id] in files && tk(names[id]).Some? && IdOf(tk, files, names[id]) == id
  {
    forall f | f in files && tk(f).Some?
      ensures IdOf(tk, files, f) in names && names[IdOf(tk, files, f)] == f
    {
      SeenAre(tk, files, f);
      assert FirstSeen(tk, files)[Position(FirstSeen(tk, files), f)] == f;
    }
    forall id | id in names
      ensures names[id] in files && tk(names[id]).Some? && IdOf(tk, files, names[id]) == id
    {
      var seen := FirstSeen(tk, files);
      assert names[(id - 1) + 1] == seen[id - 1];
      SeenAre(tk, files, names[id]);
      SeenDistinct(tk, files);
    }
  }

  lemma ListsTokens(tk: Tokenizer, files: seq<Bytes>, fileids: map<Word, seq<u64>>, tokens: seq<Word>)
    requires |files| < INVALID && ListsHold(tk, files, fileids, tokens)
    ensures TokensHold(fileids, tokens)
  {
  }

  lemma {:induction false} PostingsShort(tk: Tokenizer, files: seq<Bytes>, w: Word)
    requires |files| < INVALID
    ensures |Postings(tk, files, w)| <= |files|
  {
    if files != [] {
      PostingsShort(tk, files[..|files| - 1], w);
    }
  }

  /** The index that was built can be given to Setup, and no list contains INVALID. */
  lemma ListsIndexed(tk: Tokenizer, files: seq<Bytes>, fileids: map<Word, seq<u64>>, tokens: seq<Word>)
    requires |files| < INVALID && ListsHold(tk, files, fileids, tokens)
    ensures Indexed(tokens, fileids) && Distinct(tokens)
    ensures forall w | w in tokens :: INVALID !in fileids[w] && exists f :: f in files && Contains(tk, f, w)
  {
    forall w | w in tokens
      ensures |fileids[w]| < TWO64 && INVALID !in fileids[w] && exists f :: f in files && Contains(tk, f, w)
    {
      assert At(fileids, w) == Postings(tk, files, w);
      PostingsShort(tk, files, w);
      PostingsAre(tk, files, w, INVALID);
      PostingsAre(tk, files, w, fileids[w][0]);
    }
  }
}
