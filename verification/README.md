# Verification of the searchable-encryption index

This project models the client/server index of `src/` and proves what it promises. A client builds an
encrypted inverted index, sends it to a server, and later searches it, adds words to files and deletes
words from files. The server keeps a dictionary `D`, an array `A` of encrypted blocks (only in one of the
three layouts), a dictionary `Dplus` of later additions and a set `Srev` of revocation ids, and writes
them to a directory after every request that changes them. The client keeps three keys and one counter
per word.

Check everything with `dafny verify dfyconfig.toml` (Dafny 4.11).

## How it is built

* **Code.** `Core.dfy`, `Storage.dfy`, `FileIndex.dfy` and `Network.dfy` hold the classes, methods and loops of
  the source. Each method is proved to compute a function of `CoreSpec.dfy`, `Streams.dfy`, `Formats.dfy` or
  `Persistence.dfy`, and the calls of `Network.Client` are proved to be steps of the state machine below.
* **State machine.** `Protocol.dfy` puts client, server, the server's directory and the addition under way
  into one state. Events are Setup, the three steps of an addition, Delete, and restarts of server and client.
  An event carries every choice the code leaves open: random keys, the order of a sorted list, the
  uninitialised bytes of a ciphertext buffer, the order in which a map is written to a file. Setup is run by a
  new client or by the one that is there, whose counters it keeps. An addition may name any words, also repeatedly,
  and the token list of a Setup may repeat tokens.
* **Meaning.** `History.dfy` is the system without encryption: lists, counters, entries and revoked pairs, for all
  requests. `Orderly.dfy` reduces it to plain lists of added ids when the words of each addition are distinct, and
  says what repeated words do. `History.Holds` is the plainest meaning: Setup loads, Add inserts, Delete removes.
* **Proofs.** `SetupProof.dfy` and `IndexProof.dfy` treat Setup in the three layouts, `AddProof.dfy` an addition,
  `ProtocolProof.dfy` the invariant, `Theorems.dfy` whole runs. `Limits.dfy` treats the edges of the protocol and
  `Layout.dfy` the size and the pointers of the index. `Witness.dfy` shows that requests can always be made and
  gives concrete runs.
* **Bytes.** `Wire.dfy` says which bytes are hashed and what every bit of a ciphertext is, `Grammar.dfy` which text
  the file formats are, `Cuts.dfy` what becomes of a file that ends too early, and `Directory.dfy` what the
  directories hold after a run.

## Main results

All of them hold for every block size `B >= 1` and for every run: any number of Setups, by new or used clients,
against a server in any earlier state, with any additions, deletions and restarts between them.

* `Theorems.SearchLaw`: a search returns what the system without encryption answers; nothing of another word
  appears, no buffer is overrun and no pointer is out of range.
* `Theorems.ListLaw`: when additions name distinct words, that is the list given to Setup (without the id INVALID,
  unless the version is Basic), followed by the ids added since if the client counted the word from zero, in order,
  all without the revoked pairs.
* `Theorems.LoadedFound`: in every version each id below 2^64 - 1 that was given to Setup is found until it is deleted,
  and again when it is added again. `Theorems.SetupAnswers`: with any keys and any revocation list from before, a
  search after Setup returns the whole list if and only if the old list revokes none of its ids under the new key.
* `Theorems.RefinesSets`: the system is a plain map from words to sets of ids if and only if no Setup of Packed or
  Pointer is given INVALID and no addition names a new pair that is not appended: because it is revoked and named
  only once, or because the client's counter does not stand where the entries of the word end.
  `Theorems.RefinesSetsDistinct` says the same of the requests alone, for distinct words.
* `Theorems.VariantsAgree`: the same requests are answered alike, whatever the block sizes, keys, list orders and
  restarts, if and only if both or neither index is Basic, or the setup list does not contain INVALID, or that
  pair is deleted.
* `Theorems.RestartsInvisible`: saving and reloading at any point changes no answer, although `D` and `A` are
  written only when they changed and the loaded array has one block too many.
* `Theorems.NoDuplicateAnswers`: no answer repeats an id if and only if setup lists are delivered without
  repetition and only absent pairs are appended.
* `Theorems.CounterAgreement`, `Theorems.ReplyAligned`: for distinct words the counters of client and server agree
  at rest and are off by exactly the unanswered bits in between, and the reply lines up with the words.
* `Directory.IndexSavedOnce`, `Directory.CountedWords`: `D` and `A` on disk are those of the last Setup after any run,
  and the client has a counter for exactly the words it had one for at Setup or was ever to add since.
* `Wire.SearchKeys`, `Wire.BlockBit`: the five keys of a search are digests of `1` or `2` and the word up to its first
  NUL, and bit by bit a ciphertext is the little-endian ids plus the keystream behind sixteen zero bytes.
* `Grammar.DecIff`, `Grammar.NetstringIff`, `Grammar.ReadStringIff`: what is printed is the decimal numeral and the
  netstring, and `readString` accepts exactly the strings of a small grammar, which is wider.
* `Layout.PointersCover`, `Layout.PointersFirst`: for distinct tokens every block of the array is pointed to from
  exactly one slot of one entry of one word; in any index pointers come before INVALID, and no entry is all padding.

Where a promise fails, the condition under which it holds is proved to be exact, for all inputs:

* `Limits.AlignedIff`: a reply has one bit per pair if and only if no word is named more often than it has room:
  once if the entry at its counter is free, as it is for every word when client and server are in step, and once
  more if the pair is revoked.
* `Limits.InStepIff`: an addition of any words keeps client and server in step if and only if every pair that will
  be stored finds its own word at the place of its bit. Which pairs are stored, and how many bits precede them,
  follows from the request and the revocations alone.
* `Limits.StaleCounter`: however many requests follow a Setup, the ids added to a word are found if and only if the
  client had not counted it before that Setup, or none of them is left. `SetupClient` keeps the counters, while
  `SetupServer` forgets the entries.
* `Limits.RestartBeforeSetup`: before the first Setup, and for distinct words, a restart of the server changes no
  answer if and only if every word has been counted by that client before or has no added id left, because loading
  stops at the missing file `D`.

* `Cuts.MapCut`, `Cuts.BlocksCut`, `Cuts.CountsCut`, `Cuts.NamesCut`: for every place at which a file is cut off, whether
  loading reports an error and what it loads. A cut within 32 bytes behind an entry of `D` or `Dplus`, within the
  length of a netstring of `A` or `Dcount`, or within an id goes unnoticed; one within the digits of a counter loads a
  wrong counter.

`Witness.LostAddition`, `Witness.DroppedId`, `Witness.RepeatedWord`, `Witness.StaleClient` and `Witness.RestartLoses`
are runs in which the promises fail, and `Witness.GoodRun` is one that meets every condition.

## Idealised cryptography

HMAC and AES are parameters: `mac` is any function with digests of 32 bytes and `keystream` any function. Counter
mode (NIST SP 800-38A, section 6.5) is the exclusive or with that keystream, so decryption is proved, not
assumed. The one assumption is that for the keys of a run no two labels of a vocabulary collide
(`Crypto.CollisionFree`). A vocabulary is a finite set of words, so there are far fewer labels than digests.
It cannot contain two words that agree up to a NUL byte, since `mac_key` measures words with `strlen`
(`Crypto.NulTruncates`). For words without a NUL it says no more than that the digests themselves do not collide
(`Wire.LabelsApartIff`, `Wire.KeysApart`). Fresh keys also do not reproduce revocation ids of earlier keys
(`Protocol.FreshKeys`). `Witness.SmallCollisionFree` gives a digest that meets these assumptions.

Where the code and its comments differ, the model follows the code: the second argument of Setup maps tokens to
file ids, not file ids to tokens as the comment in `src/DSSE.h` lines 78-79 says, and `readString` skips white
space that the netstring format (D. J. Bernstein, "Netstrings", section 2) does not allow.

## Model

| member | source | states |
|---|---|---|
| Theorems.SearchLaw | src/DSSE.cpp:491-543 | after every run, with any words in additions and counters kept or not, searching for a word of the vocabulary gives what the system without encryption answers, in all versions; reads stay inside buffers and no pointer is out of range |
| Theorems.ListLaw | src/DSSE.cpp:491-543 | when additions name distinct words, a search gives the setup list (without INVALID except in Basic), then the ids added since, in order, if the client counted the word from zero; all minus the revoked pairs |
| Theorems.LoadedFound | src/DSSE.cpp:491-519 | after every run, in every version, an id given to Setup that is below 2^64 - 1 (in Basic any id) and not deleted since, or added again, is found at least as often as its list has it |
| Theorems.SetupAnswers | src/DSSE.cpp:443-457 | Setup empties Dplus and keeps Srev: with any keys a search then returns the list without the ids revoked before under the new key, so the whole list iff there are none |
| Theorems.RefinesSets | src/DSSE.cpp:735-805 | the answers at every point of a run are those of a map from words to id sets (Setup loads its raw lists, Add inserts, Delete removes) iff no Setup of Packed or Pointer is given INVALID and no addition names an absent pair that is not appended |
| Theorems.RefinesSetsDistinct | src/DSSE.cpp:735-805 | for distinct words, the same in terms of requests: iff no Setup of Packed or Pointer is given INVALID, no pair is added that was deleted but never indexed, and none to a word counted before Setup, pairs of the setup list excepted |
| Theorems.RestartsInvisible | src/storage.cpp:406-442 | dropping all server and client restarts from a run leaves a run in which every search answers the same |
| Theorems.OneSpareBlock | src/storage.cpp:362-378 | however often the server restarts, its array is the one Setup sent or that array and one empty block |
| Theorems.VariantsAgree | src/DSSE.cpp:477-488 | two runs with the same tokens, lists, ids and distinct words give the same sequence for a word, across versions, block sizes, keys, list orders and restarts, iff both or neither are Basic, or its list has no INVALID, or that pair is deleted |
| Theorems.CounterAgreement | src/DSSE.cpp:688-778 | with distinct words, at rest the counters with an entry in Dplus are exactly those from the counter at Setup (zero for a new client) to Dcount; between reply and count the server is ahead by one exactly for the words with bit 0 |
| Theorems.ReplyAligned | src/DSSE.cpp:745-762 | for distinct words the reply has one bit per pair and pair i belongs to word i; its bit is 1 iff it was revoked; no token is in Dplus before, so the warning branch is never taken, and token i is there afterwards iff bit i is 0 |
| Theorems.SearchEnds | src/DSSE.cpp:497-541 | the probing loops find at most as many entries as the maps hold, so they end |
| Theorems.NoDuplicateAnswers | src/DSSE.cpp:745-762 | no search repeats an id at any point of a run iff setup lists are delivered without repetition and only absent pairs are appended |
| Theorems.FilesFound | src/DSSEClient.cpp:36-75 | right after SetupFiles, searching for a word returns exactly the ids of the files containing it, in every version |
| History.SetMeaning | src/DSSE.cpp:745-805 | without encryption: answers equal the set meaning at every point iff no Setup drops an id and no addition loses a pair |
| History.NoDuplicates | src/DSSE.cpp:745-762 | without encryption: no answer at any point repeats an id iff lists are delivered without repetition and only absent pairs are appended |
| History.PutEffect | src/DSSE.cpp:745-762 | what an addition of any words does to the entries and revocations of one word |
| History.ApplyFinds | src/DSSE.cpp:735-805 | what one operation does to the setup list, the found ids and the revocations of a word |
| Orderly.OrderlyEntries | src/DSSE.cpp:735-778 | with distinct words the entries of a word are its added ids, under the counters from the old one up to the client's |
| Orderly.OrderlyLost | src/DSSE.cpp:749-752 | with distinct words an addition loses a pair iff Setup did not load it and its word was counted before Setup or it is revoked and was never added |
| Orderly.VersionsAnswer | src/DSSE.cpp:567-579 | without encryption: the same requests are answered alike iff both or neither are Basic, or INVALID is not in the list or deleted |
| Orderly.CountsMove | src/DSSE.cpp:767-778 | for distinct words each word with bit 0 is counted once, nothing else changes, and nothing is thrown |
| Orderly.RepeatsInStep | src/DSSE.cpp:735-778 | without encryption: an addition of any words in sorted order keeps counters and entries in step iff each pair to be stored (the first of its word, or the second if the first clears a revocation) finds its own word at the index given by the number of bits before it |
| Orderly.ReplyComplete | src/DSSE.cpp:745-762 | without encryption: in every state a reply has one bit per pair iff no word is named more often than it has room, which is one for a free next counter and one for a revocation |
| Limits.AlignedIff | src/DSSE.cpp:745-762 | after every run and for any words, the reply has one bit per pair iff no word is named more often than it has room; in step that is once, or twice when its pair is revoked |
| Limits.InStepIff | src/DSSE.cpp:735-778 | once its reply is counted, an addition of any words has kept Dplus and Dcount in step iff, by the request and the revocations alone, each pair to be stored finds its own word at the index given by the number of bits before it |
| Limits.RequestGrouped | src/DSSE.cpp:716-732 | in a sorted request equal words stand next to each other |
| Limits.StaleCounter | src/DSSE.cpp:237-255 | over whole runs: an answer contains all that is left of the ids added since Setup iff the counter of the word was zero at Setup or nothing is left |
| Limits.RestartBeforeSetup | src/storage.cpp:435-442 | after any additions of distinct words and any deletions on a directory without D, a restart changes no answer iff each word was counted by the client before or has no added id left |
| Limits.BlankAnswers | src/storage.cpp:435-442 | before the first Setup, with any words in additions, a search answers what the system without encryption does, and nothing after a restart of the server |
| Limits.EmptyStart | src/server.cpp:25-30 | a server process started on an empty directory, together with any client, is in the state from which runs before the first Setup begin |
| Limits.BlankSearch | src/DSSE.cpp:477-488 | before the first Setup, too, the version is known, the probing loops end and reads are safe |
| Limits.StillBlank | src/storage.cpp:435-442 | restarted on the directory of a run without Setup, the server is again one that has not seen a Setup |
| Witness.LostAddition | src/DSSE.cpp:749-752 | a run: a pair deleted before it was indexed is added and not found |
| Witness.DroppedId | src/DSSE.cpp:571-572 | a run: INVALID is given to a Packed Setup and not found |
| Witness.RepeatedWord | src/DSSE.cpp:755-778 | a run: after an addition that names a word twice, the next addition of another word is not found |
| Witness.StaleClient | src/DSSE.cpp:237-255 | a run: after a second Setup by the same client an added pair is not found |
| Witness.RestartLoses | src/storage.cpp:435-442 | a run: a pair added before the first Setup is found, and not found after a restart of the server |
| Witness.GoodRun | src/DSSE.cpp:443-805 | a run that meets the conditions of all theorems, and what it answers |
| Witness.SmallCollisionFree | src/DSSE.cpp:77-87 | a keyed digest under which the labels of two words never collide, for every key |
| Witness.MoreSetup | src/DSSE.cpp:237-255 | from every state at rest a Setup with any index can follow |
| Witness.MoreAdd | src/DSSE.cpp:688-778 | from every state at rest, also before the first Setup, an addition of any words can follow |
| Witness.MoreDelete | src/DSSE.cpp:780-805 | from every state at rest a deletion of any words can follow |
| ProtocolProof.RunInv | src/DSSE.cpp:443-805 | the invariant of client, server, directory and addition under way holds after every run |
| ProtocolProof.SetupInv | src/DSSE.cpp:443-457 | Setup establishes the invariant from any state of server and directory |
| ProtocolProof.AskAddSound | src/DSSE.cpp:688-733 | preparing an addition keeps memory and model together; the request is honest and sorted |
| ProtocolProof.ServeAddSound | src/DSSE.cpp:735-763 | serving an addition performs the addition of the model |
| ProtocolProof.CountAddSound | src/DSSE.cpp:767-778 | counting the reply gives the client the counters of the model and never throws |
| ProtocolProof.DeleteSound | src/DSSE.cpp:780-805 | a deletion revokes exactly its pairs |
| ProtocolProof.ServeAddStored | src/storage.cpp:406-424 | after an addition the directory describes the server again |
| ProtocolProof.StepInv | src/DSSEServer.cpp:155-163 | every event after Setup keeps memory, model and directory together |
| ProtocolProof.RestartServerInv | src/storage.cpp:435-442 | saving and reloading the server keeps the invariant |
| ProtocolProof.RestartClientSame | src/storage.cpp:426-433 | saving and reloading the client changes nothing |
| SetupProof.GatherDelivers | src/DSSE.cpp:377-440 | decrypting the blocks of a word reproduces its list in order, in all three layouts, for every block size |
| SetupProof.GatherBasic | src/DSSE.cpp:272-292 | Basic: one entry per id gives back the whole list |
| SetupProof.GatherPacked | src/DSSE.cpp:326-347 | Packed: the padded blocks give back the list without INVALID |
| SetupProof.GatherPointer | src/DSSE.cpp:629-657 | Pointer: searching the pointer blocks is following all pointers, the early stop included |
| SetupProof.FollowBlocks | src/DSSE.cpp:404-407 | pointers to where the blocks of a list stand in the array lead to that list |
| SetupProof.DeliveredIsAll | src/DSSE.cpp:567-579 | a list is delivered whole iff it does not contain INVALID |
| SetupProof.DeliveredIds | src/DSSE.cpp:567-579 | in every version each id below 2^64 - 1 is delivered as often as it is in the list; 2^64 - 1 only in Basic |
| SetupProof.OrdinaryDelivered | src/DSSE.cpp:567-579 | a list of ids below 2^64 - 1 is delivered as it is |
| SetupProof.FollowStops | src/DSSE.cpp:629-645 | nothing behind a pointer 2^64 - 1 is followed, and a pointer out of range is passed over |
| SetupProof.LayoutsAgree | src/DSSE.cpp:330-340 | the stored blocks of one list decrypt to the same ids in Packed and Pointer, and in Basic iff the list does not contain INVALID |
| IndexProof.SetupEstablishes | src/DSSE.cpp:443-457 | after Setup, in all versions, for every order of the list and with tokens given once or repeatedly, each word is read back as its list, whatever is appended to the array |
| IndexProof.EntriesAre | src/DSSE.cpp:449-453 | the dictionary has a label of a word iff its counter is below the number of blocks of its list, and there the encrypted block of an occurrence of the word |
| IndexProof.RequestHas | src/DSSE.cpp:257-302 | the request holds a pair iff it is an entry of some occurrence of a token |
| IndexProof.AllPlaced | src/DSSE.cpp:401-407 | every occurrence of a token has its blocks at its place in the shared array, and its index blocks point exactly there |
| IndexProof.SameIds | src/DSSE.cpp:388-418 | the entries of two occurrences of one token stand for the same ids |
| IndexProof.BlocksReadable | src/DSSE.cpp:632-645 | every stored pointer is INVALID or in range of the array and leads to a whole block, also when blocks are appended |
| IndexProof.OrderIrrelevant | src/DSSE.cpp:449-453 | the dictionary is the same for every order of the pairs |
| IndexProof.RequestFunctional | src/DSSE.cpp:449-453 | with distinct tokens all orders of the lines of an index, whatever the labels, give one dictionary, and no two lines disagree |
| IndexProof.SortedIsRequest | src/DSSE.cpp:294-302 | the sorted list that is handed over has exactly the lines of the index |
| Layout.IndexSize | src/DSSE.cpp:449-455 | D has one entry per id, per block or per block of pointers of each word, none sharing a label, and A one block per B ids of each occurrence of a word |
| Layout.CeilTwice | src/DSSE.cpp:388-407 | pointer blocks number ceil(n / B^2) |
| Layout.ChunkCount | src/DSSE.cpp:326 | a list of n ids makes ceil(n / B) blocks |
| Layout.PointersCover | src/DSSE.cpp:401-407 | with distinct tokens, every position of A is the value of exactly one slot of one stored entry of one word |
| Layout.PointersFirst | src/DSSE.cpp:409-417 | in every stored entry pointers precede INVALID, the first slot is a pointer and every pointer is a position of A |
| Layout.ChunkShape | src/DSSE.cpp:409-417 | slot j of block i is value i*B+j, and INVALID only beyond the list; no block is all padding |
| SpecFacts.ProbeBounded | src/DSSE.cpp:497-506 | counting up to the first missing label takes at most one probe more than there are entries |
| SpecFacts.ThrowsIff | src/DSSE.cpp:767-778 | AddClient2 throws iff a zero bit has no word |
| Core.Core.constructor | src/DSSE.cpp:25-34 | a new Core has zero keys and empty maps and is not dirty |
| Core.Core.SetupClient | src/DSSE.cpp:237-255 | dispatch on the version; an unknown one ends, a token without a list throws after the keys are replaced; the list is the sorted lines of the index; counters are kept |
| Core.Core.SetupClientBasic | src/DSSE.cpp:257-303 | the loops compute the lines of the Basic layout, or throw iff a token has no list |
| Core.Core.SetupClientPacked | src/DSSE.cpp:305-359 | the loops compute the lines of the Packed layout, or throw iff a token has no list |
| Core.Core.SetupClientPointer | src/DSSE.cpp:361-441 | the triple loop computes the lines of the Pointer layout and the array, or throws iff a token has no list |
| Core.Core.FillPointers | src/DSSE.cpp:388-418 | one pointer block: blocks appended, positions written, rest padded after the early break |
| Core.Core.FillFileIds | src/DSSE.cpp:391-399 | one block of ids from a shared position on, padded with INVALID |
| Core.Core.SetupServer | src/DSSE.cpp:443-457 | D is rebuilt from the list, A replaced, Dplus emptied, Srev kept, dirtyD set |
| Core.Core.SearchClient | src/DSSE.cpp:459-475 | the five derived keys |
| Core.Core.SearchServer | src/DSSE.cpp:477-488 | dispatch on the version; an unknown one ends |
| Core.Core.SearchServerBasic | src/DSSE.cpp:491-543 | the loops terminate and return the search function |
| Core.Core.SearchServerPacked | src/DSSE.cpp:547-607 | the loops terminate and return the search function |
| Core.Core.SearchServerPointer | src/DSSE.cpp:610-685 | the nested loops terminate and return the search function |
| Core.Core.SearchAdded | src/DSSE.cpp:521-541 | the loop over Dplus, the same in the three searches |
| Core.Core.CollectBlock | src/DSSE.cpp:567-580 | the used and live ids of one block, in order |
| Core.Core.CollectPointers | src/DSSE.cpp:629-658 | follows one pointer block: stops at INVALID, skips what is out of range |
| Core.Core.AddClient | src/DSSE.cpp:688-733 | a sorted request whose pair i is made for word i, with unwritten bytes left arbitrary; missing counters are created |
| Core.Core.AddServer | src/DSSE.cpp:735-763 | clears a revocation, or inserts, or drops a pair without a bit |
| Core.Core.AddClient2 | src/DSSE.cpp:767-778 | counts the words with bit 0; throws on a zero bit without a word |
| Core.Core.DeleteClient | src/DSSE.cpp:780-796 | the sorted revocation ids of the words |
| Core.Core.DeleteServer | src/DSSE.cpp:799-805 | the ids join the revocation list |
| AddProof.AddServerHolds | src/DSSE.cpp:735-763 | on a request made with the counters of the model AddServer does what the model does, under labels and encrypted, with the same reply; words may repeat |
| AddProof.AddOneHolds | src/DSSE.cpp:745-762 | one pair: Dplus, Srev and the bits change as entries, revocations and bits of the model do |
| AddProof.PairDecrypts | src/DSSE.cpp:704-717 | the ciphertext of a pair decrypts to the id, whatever its unwritten bytes are |
| AddProof.AddedFound | src/DSSE.cpp:521-541 | probing Dplus for a word and decrypting gives the ids the model finds, and reads safely |
| Octets.GetPut | src/DSSE.cpp:89-110 | getu64 inverts putu64 |
| Octets.PutGet | src/DSSE.cpp:89-110 | putu64 inverts getu64 |
| Octets.PutU64At | src/DSSE.cpp:101-110 | eight bytes of the buffer are written, the others are unchanged |
| Octets.DecodeEncode | src/DSSE.cpp:567-569 | a block of values is read back |
| Crypto.DecryptEncrypt | src/DSSE.cpp:140-173 | decrypt_bytes inverts encrypt_bytes at every length |
| Crypto.DecryptLongIgnoresTail | src/DSSE.cpp:158-179 | decrypt_long returns the value, whatever follows the 24 bytes |
| Crypto.DecryptEncryptBlock | src/DSSE.cpp:342-345 | an encrypted block is read back |
| Crypto.NulTruncates | src/DSSE.cpp:77-86 | two words that agree up to their first NUL share all their labels, so no vocabulary with both is free of collisions |
| Crypto.CStrIs | src/DSSE.cpp:77-87 | exactly the bytes before the first NUL are hashed, all of them if there is none |
| Wire.KeysAre | src/DSSE.cpp:77-87 | the derived keys and the labels as digests of the digit and the bytes before the first NUL |
| Wire.SearchKeys | src/DSSE.cpp:459-475 | the five keys of a search as digests under the three master keys |
| Wire.LabelsApartIff | src/DSSE.cpp:77-87 | for words without a NUL the labels are free of collisions iff the digests under words and counters are |
| Wire.KeysApart | src/DSSE.cpp:77-87 | for words without a NUL it suffices that words get different keys and counters different labels under them |
| Wire.PutBit | src/DSSE.cpp:101-110 | bits 8i to 8i+7 of the number are byte i |
| Wire.EncryptedBit | src/DSSE.cpp:140-156 | sixteen zero bytes, then each bit of the message plus the bit of the keystream at its place |
| Wire.BlockBit | src/DSSE.cpp:342-345 | where each bit of each id of an encrypted block stands |
| Wire.LongIsBlock | src/DSSE.cpp:158-162 | an encrypted id is an encrypted block of one id |
| Ordering.CompareTokenPair | src/DSSE.cpp:195-222 | the three loops compute the lexicographic order of label, ciphertext and revocation id |
| Ordering.Irreflexive | src/DSSE.cpp:195-222 | the order is irreflexive |
| Ordering.Transitive | src/DSSE.cpp:195-222 | the order is transitive |
| Ordering.Total | src/DSSE.cpp:195-222 | different keys are ordered one way or the other |
| Ordering.PrefixFirst | src/DSSE.cpp:195-222 | a proper prefix comes first |
| Ordering.SortSorts | src/DSSE.cpp:294 | sorting by the order sorts |
| Formats.NetstringRead | src/storage.cpp:18-53 | a netstring with any payload, behind white space, is read back and leaves the stream right behind it |
| Formats.MapRoundTrip | src/storage.cpp:56-108 | readMap adds the entries with 32-byte keys to those in memory, for any payloads and any order of writing |
| Formats.RevsRoundTrip | src/storage.cpp:171-208 | readRevlist recovers the ids of 32 bytes |
| Formats.BlocksRoundTrip | src/storage.cpp:345-378 | readBlocks overwrites with the blocks written and one empty block, and leaves as many more at the end; into an empty vector these blocks are all |
| Formats.CountsRoundTrip | src/storage.cpp:110-169 | readMapCount adds exactly what writeMapCount printed to the counters in memory |
| Formats.NamesRoundTrip | src/storage.cpp:238-283 | readFileidMap adds exactly what writeFileidMap printed to the names in memory |
| Grammar.DecIff | src/storage.cpp:18-20 | a number is printed as the one numeral without a leading zero whose digits, times powers of ten, add up to it |
| Grammar.DecIntIff | src/storage.cpp:315-328 | a negative int has a minus sign in front |
| Grammar.NetstringIff | src/storage.cpp:18-20 | writeString prints decimal length, colon, payload, comma, and nothing else |
| Grammar.NumberInto | src/storage.cpp:25-35 | reading a number, with all outcomes: nothing left, no digit, too large, a sign; in terms of weighed digits |
| Grammar.ReadStringIff | src/storage.cpp:22-53 | readString accepts a string iff it is signed length, colon, payload, comma with blanks between, and reports the end of file iff only blanks, a sign and digits are left |
| Cuts.CutString | src/storage.cpp:22-53 | a netstring cut within its length reads as the end of the file, and cut behind it as an error |
| Cuts.MapCut | src/storage.cpp:78-108 | a map file cut anywhere loads without error iff the cut is less than 32 bytes behind an entry; the entries before it are loaded |
| Cuts.RevsAre | src/storage.cpp:190-208 | readRevlist takes the whole pieces of 32 bytes of any file |
| Cuts.BlocksCut | src/storage.cpp:362-388 | a file of blocks cut anywhere loads without error iff the cut is behind a block or within the length of the next; the blocks before it are loaded |
| Cuts.CountsCut | src/storage.cpp:133-169 | a file of counters cut anywhere: error iff behind the length of a word up to the start of its counter; behind that the counter loses its missing digits |
| Cuts.NamesCut | src/storage.cpp:254-283 | a file of names cut anywhere: error iff the cut is behind an id and within its name |
| Streams.ExtractDecU64 | src/storage.cpp:25-35 | a printed number is read back; eofbit is set only at the very end |
| Streams.ExtractPrintedInt | src/storage.cpp:315-343 | a printed 32-bit int is read back |
| Persistence.LoadStored | src/storage.cpp:406-442 | what was saved is loaded, with one empty block behind the array |
| Persistence.LoadOver | src/storage.cpp:435-442 | loading into any Core: entries replace those under the same label and leave others, Srev is replaced, blocks are overwritten by position |
| Persistence.EmptyDirectory | src/storage.cpp:435-442 | on an empty directory loading fails and leaves an empty server of version Basic |
| Persistence.LoadStops | src/storage.cpp:435-442 | a missing file fails, and leaves what belongs to the files behind it |
| Persistence.ClientRoundTrip | src/storage.cpp:390-433 | a saved client is loaded as it was |
| Persistence.LoadClientOver | src/storage.cpp:426-433 | the same into a client in use, which keeps the counters of other words |
| Persistence.EmptyClient | src/storage.cpp:426-433 | on an empty directory loading fails and leaves zero keys and no counters |
| Persistence.LoadClientStops | src/storage.cpp:426-433 | a missing file fails, and leaves what belongs to the files behind it |
| Persistence.KeyFile | src/storage.cpp:226-235 | a key is read iff its file has at least its size; a shorter file overwrites the first bytes and fails |
| Directory.IndexSavedOnce | src/storage.cpp:406-424 | after every run the files D and A are those of the last Setup, and D is not dirty |
| Directory.CountedWords | src/DSSE.cpp:688-733 | after every run the client has a counter for exactly the words counted at Setup or named in a request to add since |
| Directory.AddedSizes | src/DSSE.cpp:704-733 | after every run each entry of Dplus has the size of an encrypted block |
| Directory.ServerText | src/storage.cpp:406-424 | a small server directory as text; keys and revocations of another length than 32 are left out |
| Directory.ClientText | src/storage.cpp:390-404 | a small client directory as text |
| Directory.NamesText | src/storage.cpp:238-252 | a small file of names as text |
| Persistence.FileidRoundTrip | src/storage.cpp:285-313 | the next file id is read back |
| Persistence.ExtraRoundTrip | src/storage.cpp:444-454 | saved names are added to those in memory and the saved next id replaces it; a missing file ends loading and changes nothing |
| Storage.ReadStringFrom | src/storage.cpp:25-53 | the branches of readString compute the specified parse |
| Storage.WriteMap | src/storage.cpp:56-76 | prints the entries with 32-byte keys in some order |
| Storage.ReadMapFile | src/storage.cpp:78-108 | the loop computes the specified parse |
| Storage.WriteRevlist | src/storage.cpp:171-188 | prints the ids of 32 bytes in some order |
| Storage.ReadRevlist | src/storage.cpp:190-208 | the loop computes the specified parse |
| Storage.WriteBlocks | src/storage.cpp:345-360 | prints the blocks in order |
| Storage.ReadBlocksFile | src/storage.cpp:362-388 | the loop pushes a block and reads into the one at its index, from the first on, as the specified parse does for any vector |
| Storage.WriteMapCount | src/storage.cpp:110-131 | prints the counters in some order |
| Storage.ReadMapCount | src/storage.cpp:133-169 | the loop inserts what the specified parse yields into the given map |
| Storage.WriteFileidMap | src/storage.cpp:238-252 | prints the names in some order |
| Storage.ReadFileidMap | src/storage.cpp:254-283 | the loop inserts what the specified parse yields into the given map |
| Storage.SaveServerToStorage | src/storage.cpp:406-424 | writes version, Dplus and Srev, and D and A only when dirty; clears dirtyD |
| Storage.LoadServerFromStorage | src/storage.cpp:435-442 | loads file by file into any Core, merging D and Dplus, replacing Srev and overwriting A, and stops at the first that is missing or malformed |
| Storage.SaveClientToStorage | src/storage.cpp:390-404 | writes version, keys and counters |
| Storage.LoadClientFromStorage | src/storage.cpp:426-433 | loads file by file into any Core, merging the counters, and stops at the first failure |
| FileIndex.IndexFiles | src/DSSEClient.cpp:37-65 | every word has its postings and stands in the token list once; names and ids are inverse maps on 1 to last - 1, in both directions |
| FileIndex.PostingsAre | src/DSSEClient.cpp:53-61 | a list contains an id iff it is the id of a file with that token |
| FileIndex.ListsIncrease | src/DSSEClient.cpp:43-61 | all lists are strictly increasing iff no file with tokens is listed twice |
| FileIndex.ListsIndexed | src/DSSEClient.cpp:43-67 | the index that was built is fit for Setup and free of INVALID |
| Network.Server.constructor | src/server.cpp:25-30 | a server process starts from its directory; a failed load is only a warning |
| Network.Server.HandleSetup | src/DSSEServer.cpp:30-46 | Setup on the core, then a save |
| Network.Server.HandleSearch | src/DSSEServer.cpp:75-84 | the search of the core, nothing saved |
| Network.Server.HandleAdd | src/DSSEServer.cpp:86-108 | the addition on the core, the bitmap as booleans, then a save |
| Network.Server.HandleDelete | src/DSSEServer.cpp:110-125 | the deletion on the core, then a save |
| Network.Server.Save | src/DSSEServer.cpp:157-163 | what SaveServerToStorage writes |
| Network.BitmapTravels | src/DSSEServer.cpp:99-103 | the bitmap survives its transport as booleans, where true is bit 1 |
| Network.Client.Setup | src/DSSEClient.cpp:97-136 | is the Setup step of the state machine, with the counters the client has and tokens given once or repeatedly; nothing is sent if SetupClient ends or throws |
| Network.Client.Search | src/DSSEClient.cpp:138-164 | returns the search result of the state machine |
| Network.ReachableSearchable | src/DSSE.cpp:477-488 | in every reachable state at rest a search can be carried out: its loops end and no buffer is overrun |
| Network.BlankSearchable | src/DSSE.cpp:477-488 | the same before the first Setup, with a server started on an empty directory |
| Network.Client.Add | src/DSSEClient.cpp:166-198 | is the three steps of an addition, for any words, and never throws |
| Network.Client.Delete | src/DSSEClient.cpp:200-221 | is the Delete step |
| Network.Client.SetupFiles | src/DSSEClient.cpp:36-75 | indexes the files, performs the Setup step and keeps the names; server and names stay as they are if Setup fails |
| Network.Client.AddFileByName | src/DSSEClient.cpp:77-95 | succeeds iff the file can be read; then adds it under the next id, which no file has, and records the name; otherwise nothing changes |
| Network.Client.Save | src/storage.cpp:444-448 | writes core, names and next id |
| Network.Client.Load | src/storage.cpp:450-454 | loads core, names and next id from the files that are there into any client, and stops at the first failure |

## Left out

- HMAC, AES, `/dev/urandom`: library code; only digest length, absence of collisions and the keystream are used.
- ZeroMQ, protobuf, sockets: a request is a method call with reliable delivery and one request at a time; messages
  that cannot be parsed, search keys of the wrong length and the signed 64-bit ids of a search reply are not modelled.
- Failures of files and directories (`mkdir`, write errors), and runs that go on after a crash in the middle of a save
  or of an addition. What a single file that was cut off loads as is treated in `Cuts`.
- A length in a file that memory cannot hold, for which `readString` throws.
- Streams.ExtractNumber: white space and digits are those of the "C" locale, and a value too large for the type
  sets the failure flag; other locales are not modelled.
- Sizes: lists, strings, arrays and maps have fewer than 2^64 elements and Setup makes fewer than 2^64 - 1 blocks, as
  in any process; no addition brings a counter to 2^64, so its wrap-around does not occur.
- Theorems.VariantsAgree: asks for distinct words in every addition. With repeated words the order of the labels,
  which depends on the keys, decides which word is counted, so two systems need not agree.
- Limits.RestartBeforeSetup: asks for distinct words in every addition; `Limits.BlankAnswers` gives both answers for
  any words.
- Layout.PointersCover: asks for distinct tokens. A token given twice has its blocks in the array twice, and the
  dictionary keeps one entry per label, so it cannot point to both.
- Ordering.Sort: stands for `std::sort`; only that the result is a sorted rearrangement is used.
- `tokenize` is a parameter, a function from file names to lists of distinct words.
- `Client::Filename`, the command-line programs, `bench.cpp`, `client_test.cpp`, `dsse-prototype.py` and `Benchmarks/`.
- Secrecy: only what the system answers is treated, not what the server learns.
