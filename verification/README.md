# Verified model of dacha

A Dafny model of ten pieces of the dacha repository, with proofs of what they promise. Each piece keeps the
form of its source: objects that change are classes, loops are loops, and pure parts are functions and lemmas.

| piece | files | main results |
|---|---|---|
| Huffman coding | `PackageMerge`, `CodeLengths`, `LengthLimited`, `LengthLimitedBuild`, `CanonicalCodes`, `HuffmanTree`, `HuffmanCodec`, `Sorting` | package-merge is optimal and its Kraft sum is 1; canonical codes exist exactly when the Kraft sum is at most 1; encoding and decoding return the message |
| Bit streams | `BitStrings`, `BitIo`, `ResumableReader` | bit-exact readers and writers; saving and reloading bits between chunks is invisible |
| Automata | `Automata`, `AutomataOps`, `FiniteStateMachine`, `DisjointSets`, `EpsilonRemoval`, `EpsilonBuild`, `Powerset`, `PowersetBuild` | each operation is the language operation it is named after; the exact language after removing epsilon edges; the powerset construction ends and decides the language |
| Pipe | `Pipe` | every interleaving conserves bytes and close results, and never blocks both sides |
| Build graph | `BuildGraph` | success exactly on known acyclic graphs, each key built once after its dependencies |
| Poly1305 | `Limbs`, `U1305`, `Poly1305` | limb arithmetic refines arithmetic modulo 2^130 - 5; the tag is the polynomial of section 2.5 of RFC 7539 |
| Waker list | `WakerList`, `WakeAll` | waking ends and wakes exactly the wakers that are not unlinked before their turn |
| Packet ring | `SegmentedBuffer` | the ring is a queue that keeps the longest suffix of packets that fits |
| Streaming hash | `MerkleDamgard`, `ByteOrder` | any split of a message hashes to the fold over its padding of section 5.1 of FIPS 180-4 |
| DER | `Base128`, `Der`, `DerTree`, `DerIo`, `DerSetOf` | trees are read by exactly the schemas that accept them, if their tag numbers can be written and read (sections 8.1.2 and 8.1.3 of ITU-T X.690) |

`Prelude` holds what the pieces share. `dafny verify dfyconfig.toml` checks everything.

## How to read the proofs

- An object has a `Valid` predicate and an abstract value (`Bits`, `Written`, `View`, `items`, `segments`,
  `message`, ...). Its methods say what the new abstract value is; the lemmas are about that value.
- A panic or an error of the source is a result: an `Option`, a `Result` or a boolean. A `requires` is used where
  the source states a demand on its caller.
- Machine arithmetic is explicit where it matters: limbs of Poly1305 have a 64-bit type, canonical codes wrap
  modulo 2^64, DER tag numbers run out of their 8-octet buffer, lengths are 64-bit words.

## Where the code does not meet a plain reading of its purpose

- Package-merge computes denominations as shifts of a signed 32-bit one. At limit 32 the sign bit spreads and the total
  is never the wanted one (`LengthLimitedBuild.SpreadCoinNeeded`), from 33 on the shift panics;
  `LengthLimitedBuild.BuildLengthLimitedTree` has the exact condition.
- Removing epsilon edges can add words (`EpsilonRemoval.AddsAWord`). `EpsilonRemoval.KeepsLanguageExactly` says
  for which epsilon edges it never does.
- Bytes written after close can be lost to the reader (`Pipe.WriteAfterCloseLosesOrder`);
  `Pipe.OrderSafeExactly` says which writes can do that and which cannot.
- A tag number with a zero base-128 digit before the last one is written but not read back
  (`Base128.ZeroDigitRefused`); `Base128.VarintReadBack` is the exact condition. The comment in the source speaks of leading zeros only, the code refuses any zero digit.
- Length octets longer than needed are accepted, so an element need not be written back as it was read
  (`Der.LongLengthAccepted`); `Der.AcceptedElement` is the exact condition.
- The hash pads to a multiple of the length width instead of the chunk size (`MerkleDamgards.PaddingMissesBoundary`);
  `MerkleDamgards.PaddingWorksExactly` says for which chunk sizes that is right.
- A packet of more than 255 bytes is stored with a cut length byte and not read back;
  `SegmentedBuffers.WriteThenRead` is the exact condition.

## Model

| member | source | states |
|---|---|---|
| `LengthLimitedBuild.BuildLengthLimitedTree` | pkg/compression/src/huffman.rs:160-328 | Succeeds for two or more symbols exactly when there are between 2 and 2^L distinct ones and L is at most 31; otherwise the panic or error of the source: the shift from L = 33 on, the total at L = 32, too few packages or a single symbol; the lengths are in 1..L, their Kraft sum is exactly 1, a rarer symbol, and of two equally frequent ones the smaller, never has the shorter code, and no assignment of lengths 1..L with Kraft sum at most 1 gives fewer bits in total |
| `LengthLimitedBuild.CountSymbols` | pkg/compression/src/huffman.rs:178-183 | Counts every symbol of the input |
| `LengthLimitedBuild.Histogram` | pkg/compression/src/huffman.rs:178-202 | Lists each distinct symbol once with its number of occurrences, in ascending order of count and then of symbol |
| `LengthLimitedBuild.BuildDenomList` | pkg/compression/src/huffman.rs:209-229 | One coin per symbol, in count order, whose denomination is the 32-bit shift: 2^i up to 30, the spread sign bit at 31, a panic from 32 on |
| `LengthLimitedBuild.PackagePairs` | pkg/compression/src/huffman.rs:232-247 | Combines neighbours two by two and drops an odd last item |
| `LengthLimitedBuild.MergeBy` | pkg/common/src/algorithms/merge.rs:8-64 | Order-keeping merge of two lists, taking the left item on ties |
| `LengthLimitedBuild.AllPackages` | pkg/compression/src/huffman.rs:257-264 | The list after all rounds of packaging and merging, or the panic of a shift by 32 |
| `LengthLimitedBuild.TakeCoins` | pkg/compression/src/huffman.rs:266-295 | In 64-bit arithmetic: with coins of the denomination intended it takes whole packages until the wanted total is reached and counts each symbol's coins in them; with a spread sign bit among those needed it overflows or misses the total |
| `LengthLimitedBuild.CollectLengths` | pkg/compression/src/huffman.rs:303-325 | The counts as a list sorted by symbol |
| `LengthLimitedBuild.ChosenListCorrect` | pkg/compression/src/huffman.rs:266-327 | The list returned has the Kraft sum, the order and the optimality claimed |
| `LengthLimitedBuild.CountsComplete` | pkg/compression/src/huffman.rs:266-301 | Every symbol of the input is among the coins selected and nothing else is |
| `LengthLimitedBuild.PackageWorth` | pkg/compression/src/huffman.rs:232-264 | Every package of round k holds coins meant to add up to exactly 2^k, and up to round 31 they do |
| `LengthLimitedBuild.TopCoin` | pkg/compression/src/huffman.rs:232-264 | One of the first n - 1 packages holds a coin of the last level |
| `LengthLimitedBuild.SpreadCoinNeeded` | pkg/compression/src/huffman.rs:218-295 | At L = 32 a coin with a spread sign bit is among those needed |
| `LengthLimited.PackageCount` | pkg/compression/src/huffman.rs:232-264 | After k rounds, the number of symbols less the number of packages is the number of symbols over 2^k, rounded up |
| `LengthLimited.EnoughPackages` | pkg/compression/src/huffman.rs:269-301 | There are n - 1 packages at the end exactly when n <= 2^L |
| `LengthLimited.OccurrencesSelected` | pkg/compression/src/huffman.rs:269-295 | The number of coins of a symbol inside the packages taken is the number of levels that select it |
| `LengthLimited.ChosenLengthsCorrect` | pkg/compression/src/huffman.rs:266-327 | The selected lengths are in 1..L, descend with the counts and have Kraft sum exactly 1 |
| `LengthLimited.ChosenLengthsCheapest` | pkg/compression/src/huffman.rs:160-328 | No other lengths up to L with Kraft sum at most 1 have a smaller total of count times length |
| `CodeLengths.NothingCheaper` | pkg/compression/src/huffman.rs:204-264 | Any set of coins with enough denomination weighs at least as much as the prefix of the merged list that package-merge takes |
| `CodeLengths.CoinsTakenNonDecreasing` | pkg/compression/src/huffman.rs:209-295 | A lower level never selects more coins than the level above it |
| `CodeLengths.KraftOfSelection` | pkg/compression/src/huffman.rs:266-322 | Nested selections of total worth n - 1 give lengths of Kraft sum 1 |
| `CodeLengths.SelectionWorth` | pkg/compression/src/huffman.rs:232-264 | The packages taken are worth the denominations of the coins selected level by level |
| `CodeLengths.SelectionWeight` | pkg/compression/src/huffman.rs:232-264 | The value of the packages taken is the weight of the coins selected level by level |
| `CodeLengths.WeightIsCost` | pkg/compression/src/huffman.rs:266-322 | The weight of a selection is the total of count times length |
| `PackageMerge.ListsAscending` | pkg/compression/src/huffman.rs:232-264 | All package lists and merged lists ascend in value |
| `PackageMerge.MergePrefixCheapest` | pkg/compression/src/huffman.rs:249-264 | A prefix of a merge is at most as heavy as any two prefixes of its parts with as many items |
| `PackageMerge.TakenPrefix` | pkg/compression/src/huffman.rs:249-264 | A prefix of a merge is made of a prefix of each part |
| `CanonicalCodes.CanonicalCodesFromLens` | pkg/compression/src/huffman.rs:378-419 | Produces codes exactly when the Kraft sum of the lengths is at most 1; they are the canonical ones and prefix-free |
| `CanonicalCodes.FitExactlyWhenKraftValid` | pkg/compression/src/huffman.rs:362-419 | Every code fits its length, with 64-bit wrap-around counted, exactly when the Kraft sum is at most 1 |
| `CanonicalCodes.CodesPrefixFree` | pkg/compression/src/huffman.rs:378-419 | No canonical code is a prefix of another |
| `CanonicalCodes.CodeStartsAfter` | pkg/compression/src/huffman.rs:378-419 | A code starts where the code space of the codes before it ends, shorter codes first and then in the order of the symbols (section 3.2.2 of RFC 1951) |
| `CanonicalCodes.EntriesPrefixFree` | pkg/compression/src/huffman.rs:378-419 | The list of codes is prefix-free |
| `CanonicalCodes.CodeToVec` | pkg/compression/src/huffman.rs:362-373 | The bits of a code, most significant first; fails exactly when the code does not fit |
| `CanonicalCodes.MaxLength` | pkg/compression/src/huffman.rs:379 | The largest length |
| `CanonicalCodes.CountLengths` | pkg/compression/src/huffman.rs:381-389 | How many codes there are of each length |
| `CanonicalCodes.FirstCodes` | pkg/compression/src/huffman.rs:391-398 | The first code of each length, in 64-bit arithmetic |
| `HuffmanTree.HuffmanTree.Insert` | pkg/compression/src/huffman.rs:84-119 | Succeeds exactly when no code held is a prefix of the new one or the other way round; adds that code and no other; a failure says which conflict it is, and the tree the walk leaves is the old one |
| `HuffmanTree.FailureCreatesNothing` | pkg/compression/src/huffman.rs:87-115 | The walk creates missing nodes on its way, but none before it fails |
| `HuffmanTree.HuffmanTree.ReadCode` | pkg/compression/src/huffman.rs:122-149 | Told by the codes held alone: a symbol exactly when the unread bits start with its code, and that code is what was read; an invalid prefix exactly when some start of the unread bits neither begins nor extends a code, found at its first such bit; out of bits exactly when the unread bits are a proper prefix of a code; empty exactly when no code is held; unconsumed bits are kept |
| `HuffmanTree.InsertOutcome` | pkg/compression/src/huffman.rs:84-119 | Which conflict each error stands for, in both directions |
| `HuffmanTree.InsertAdds` | pkg/compression/src/huffman.rs:84-119 | The codes of the tree after an insertion are the old ones and the new one |
| `HuffmanTree.InsertFull` | pkg/compression/src/huffman.rs:84-119 | Every branch of the tree still leads to a symbol after an insertion |
| `HuffmanTree.WalkFindsCode` | pkg/compression/src/huffman.rs:122-149 | Reading a code that the tree holds returns its symbol and takes exactly its bits |
| `HuffmanTree.WalkAnswers` | pkg/compression/src/huffman.rs:122-149 | Every walk down a tree answers as the codes it holds demand, in both directions for every outcome |
| `HuffmanTree.CodeAnswers` | pkg/compression/src/huffman.rs:122-149 | With a code at the front there is one possible answer |
| `HuffmanCodec.HuffmanEncoder.constructor` | pkg/compression/src/huffman.rs:336-346 | The encoder's table holds exactly the codes of the list |
| `HuffmanCodec.HuffmanEncoder.WriteSymbol` | pkg/compression/src/huffman.rs:348-357 | Appends the code of the symbol, or fails and appends nothing when there is none |
| `HuffmanCodec.TreeFromCanonicalLens` | pkg/compression/src/huffman.rs:73-82 | Builds a tree exactly when the Kraft sum is at most 1; it holds exactly the canonical codes |
| `HuffmanCodec.Encode` | pkg/compression/src/huffman.rs:348-357 | The bytes are the codes of the message followed by fewer than eight zero bits |
| `HuffmanCodec.Decode` | pkg/compression/src/huffman.rs:122-149 | Reads the message back from bytes that start with its code |
| `HuffmanCodec.EncodeThenDecode` | pkg/compression/src/huffman.rs:333-441 | For every Kraft-valid list, every message of coded symbols and either bit order, encoding, finishing and decoding returns the message |
| `HuffmanCodec.DenseSymbolLengths` | pkg/compression/src/huffman.rs:426-441 | Lengths indexed by symbol, zero for the absent ones, with the same Kraft sum |
| `HuffmanCodec.CompressAndBack` | pkg/compression/src/huffman.rs:160-441 | Package-merge, canonical codes, encoder and tree together return any message of 2 to 2^L distinct symbols, for L up to 31 |
| `HuffmanCodec.EncodedSize` | pkg/compression/src/huffman.rs:348-357 | The number of bits written is the total that package-merge minimises |
| `BitStrings.ReverseBitsReverses` | pkg/common/src/bits.rs:425-484 | Reversing the bits of a number turns its low-first bits into high-first ones |
| `BitIo.StreamBit` | pkg/common/src/bits.rs:450-478 | Which bit of which byte each bit of the stream is, in either order |
| `BitIo.BitVector.Clear` | pkg/common/src/bits.rs:62-65 | No bits are left |
| `BitIo.BitVector.Push` | pkg/common/src/bits.rs:75-86 | Appends one bit to the bits held in the bytes |
| `BitIo.BitVector.PushFullMsb` | pkg/common/src/bits.rs:88-92 | Appends the eight bits of a byte, most significant first |
| `BitIo.BitVector.Get` | pkg/common/src/bits.rs:101-107 | The i-th bit, or nothing past the end |
| `BitIo.BitReader.constructor` | pkg/common/src/bits.rs:351-359 | A reader whose unread bits are those of its input |
| `BitIo.BitReader.Load` | pkg/common/src/bits.rs:367-397 | Puts saved bits in front of the input, and refuses when bits are buffered already |
| `BitIo.BitReader.ReadBits` | pkg/common/src/bits.rs:425-484 | Takes the next n bits, bit i of the value being the i-th unread bit; the end of the input is reported as such exactly when not one bit is left, and as too few bits exactly when some but not enough are; unconsumed bits are kept |
| `BitIo.BitReader.Consume` | pkg/common/src/bits.rs:503-512 | Makes the bits read so far unrecoverable and no others |
| `BitIo.BitReader.IntoUnconsumedBits` | pkg/common/src/bits.rs:520-527 | Exactly the bits read or buffered but not consumed |
| `BitIo.BitWriter.constructor` | pkg/common/src/bits.rs:693-703 | A writer in either bit order that has written nothing |
| `BitIo.BitWriter.WriteBits` | pkg/common/src/bits.rs:721-751 | Appends the low bits of a value, low bit first or high bit first as the writer is set |
| `BitIo.BitWriter.Finish` | pkg/common/src/bits.rs:753-774 | Fills the last byte with fewer than eight zero bits |
| `BitIo.BitWriter.WriteBitVec` | pkg/common/src/bits.rs:665-671 | Appends the bits of a vector in order |
| `ResumableReader.ReadAll` | pkg/common/src/bits.rs:361-527 | For every cut of a stream into chunks, consuming after each whole value and carrying the unconsumed bits into a fresh reader gives the values of the whole stream |
| `ResumableReader.ReadValueExtends` | pkg/common/src/bits.rs:425-484 | A value that can be read is read the same when more bits follow |
| `ResumableReader.TryValue` | pkg/common/src/bits.rs:425-484 | Reads one value or runs out without losing an unconsumed bit |
| `ResumableReader.ReadChunk` | pkg/common/src/bits.rs:425-527 | Reads the values of one chunk and leaves the rest unconsumed |
| `ResumableReader.NextChunk` | pkg/common/src/bits.rs:361-397 | Continues in a fresh reader with the saved bits in front |
| `AutomataOps.JoinIsUnion` | pkg/automata/src/fsm.rs:196-216 | The joined machine accepts the union of the languages |
| `AutomataOps.ThenIsConcatenation` | pkg/automata/src/fsm.rs:218-245 | The machine accepts the concatenation of the languages, for machines with epsilon edges and any starts and accepting states |
| `AutomataOps.LoopIsPlus` | pkg/automata/src/fsm.rs:247-256 | The machine accepts one or more words of the language in a row |
| `AutomataOps.ReverseIsReversal` | pkg/automata/src/fsm.rs:594-608 | The machine accepts the reversed words |
| `AutomataOps.SingleStartKeepsLanguage` | pkg/automata/src/fsm.rs:258-279 | One start state and the same language |
| `FiniteStateMachine.FiniteStateMachine.AddState` | pkg/automata/src/fsm.rs:107-112 | Adds a state with the next number |
| `FiniteStateMachine.FiniteStateMachine.Join` | pkg/automata/src/fsm.rs:199-216 | Updates the machine in place to accept the union |
| `FiniteStateMachine.FiniteStateMachine.Then` | pkg/automata/src/fsm.rs:220-245 | Updates the machine in place to accept the concatenation |
| `FiniteStateMachine.FiniteStateMachine.ThenLoop` | pkg/automata/src/fsm.rs:249-256 | Updates the machine in place to accept one or more repetitions |
| `FiniteStateMachine.FiniteStateMachine.WithSingleStart` | pkg/automata/src/fsm.rs:263-279 | Leaves one start state and the language as it was |
| `FiniteStateMachine.FiniteStateMachine.Reverse` | pkg/automata/src/fsm.rs:596-608 | Updates the machine in place to accept the reversed words |
| `FiniteStateMachine.FiniteStateMachine.HasEpsilon` | pkg/automata/src/fsm.rs:281-289 | Whether there is an epsilon edge |
| `FiniteStateMachine.FiniteStateMachine.UsedSymbolSet` | pkg/automata/src/fsm.rs:294-303 | The symbols on the edges |
| `FiniteStateMachine.FiniteStateMachine.WithoutEpsilons` | pkg/automata/src/fsm.rs:309-392 | Accepts exactly the words of the machine with every epsilon edge made two-way: never fewer words, and the same ones when every epsilon edge can be gone back over by epsilon edges |
| `FiniteStateMachine.FiniteStateMachine.ComputeDfa` | pkg/automata/src/fsm.rs:469-592 | One start, at most one successor per symbol, exactly one per used symbol when the input had one start and no epsilon edges, and then the same language; following successors decides the language |
| `FiniteStateMachine.FiniteStateMachine.AcceptsWord` | pkg/automata/src/fsm.rs:430-450 | Follows one successor per symbol from a start state and rejects when there is none |
| `FiniteStateMachine.Decide` | pkg/automata/src/fsm.rs:430-592 | Building the powerset machine and following it decides the language of every machine with one start and no epsilon edges |
| `FiniteStateMachine.DecideAny` | pkg/automata/src/fsm.rs:430-592 | For any machine it decides the language with a single start and two-way epsilon edges: it accepts every word of the machine, and no other when the epsilon edges return |
| `FiniteStateMachine.FiniteStateMachine.Lookup` | pkg/automata/src/fsm.rs:178-194 | The least successor on a symbol, if any |
| `DisjointSets.DisjointSets.constructor` | pkg/common/src/algorithms/disjoint_sets.rs:29-38 | Every element in a set of its own |
| `DisjointSets.DisjointSets.FindSet` | pkg/common/src/algorithms/disjoint_sets.rs:62-69 | Returns the root and shortens paths without changing any set |
| `DisjointSets.DisjointSets.FindSetMin` | pkg/common/src/algorithms/disjoint_sets.rs:73-78 | Returns the least element of the set |
| `DisjointSets.DisjointSets.UnionSets` | pkg/common/src/algorithms/disjoint_sets.rs:81-110 | Joins the two sets and no others, by rank, keeping the least elements |
| `EpsilonBuild.Closures` | pkg/automata/src/fsm.rs:315-322 | Groups the states exactly by the epsilon-connected components |
| `EpsilonBuild.StateMapping` | pkg/automata/src/fsm.rs:326-353 | Numbers the components |
| `EpsilonBuild.Quotient` | pkg/automata/src/fsm.rs:355-391 | The machine on components: no epsilon edge, and every other edge, start and accepting state carried over |
| `EpsilonRemoval.QuotientLanguage` | pkg/automata/src/fsm.rs:309-392 | Merging epsilon-connected components gives exactly the language of the machine with two-way epsilon edges |
| `EpsilonRemoval.NeverLosesWords` | pkg/automata/src/fsm.rs:305-392 | No word is lost |
| `EpsilonRemoval.ReturningKeepsLanguage` | pkg/automata/src/fsm.rs:305-392 | The language is kept when every epsilon edge can be gone back over by epsilon edges |
| `EpsilonRemoval.ReturningComponents` | pkg/automata/src/fsm.rs:315-322 | Every epsilon edge can be gone back over if and only if all states of a component reach each other by epsilon edges |
| `EpsilonRemoval.KeepsLanguageExactly` | pkg/automata/src/fsm.rs:305-392 | Every epsilon edge can be gone back over by epsilon edges if and only if the language is kept for every choice of the other edges, starts and accepting states |
| `EpsilonRemoval.AddsAWord` | pkg/automata/src/fsm.rs:305-392 | A machine with one epsilon edge whose language grows |
| `PowersetBuild.PowersetOf` | pkg/automata/src/fsm.rs:482-592 | The worklist ends and yields the powerset machine |
| `PowersetBuild.NextSet` | pkg/automata/src/fsm.rs:511-542 | The states reached on a symbol, and whether one of them accepts |
| `PowersetBuild.AddSuccessor` | pkg/automata/src/fsm.rs:511-567 | Adds the edge, and the target set when it is new |
| `PowersetBuild.Visit` | pkg/automata/src/fsm.rs:509-568 | Adds exactly one successor per used symbol |
| `PowersetBuild.StatesBounded` | pkg/automata/src/fsm.rs:506-569 | There are never more sets in the worklist than subsets of states, so it ends |
| `Powerset.OneSuccessor` | pkg/automata/src/fsm.rs:469-592 | Exactly one successor per state and used symbol, none on the others |
| `Powerset.PowersetDecides` | pkg/automata/src/fsm.rs:430-592 | Following successors accepts exactly the words of the original machine, also words with unused symbols |
| `Powerset.PowersetLanguage` | pkg/automata/src/fsm.rs:469-592 | The powerset machine has the language of the original |
| `Powerset.RunSetReads` | pkg/automata/src/fsm.rs:469-592 | The set of states reached is the set of states some path reads the word to |
| `Pipe.StepKeepsInv` | pkg/common/src/pipe.rs:30-113 | Every step of reader or writer keeps conservation of bytes, the buffer bound and the notification invariants |
| `Pipe.RunKeepsInv` | pkg/common/src/pipe.rs:30-135 | The invariants hold in every state of every run |
| `Pipe.BytesInOrder` | pkg/common/src/pipe.rs:30-113 | Over every interleaving without bytes written after a close notice that a reader may see, bytes read and bytes buffered are the bytes written, at most 4096 are buffered, and the end is told only after every byte |
| `Pipe.ResultsInOrder` | pkg/common/src/pipe.rs:58-106 | In every run the reader has been told, in order and unchanged, the arguments of the calls to close whose notice was sent, but for one that may still be in the channel; it is told that the writer was never closed only after the writer was dropped, and a write is refused only after the reader was |
| `Pipe.ToldExactly` | pkg/common/src/pipe.rs:94-106 | In every state of every run, the next thing a waiting reader is told is the first result sent that it has not been told, and that the writer was never closed exactly when there is none, no message either, and the writer is gone |
| `Pipe.RefusedExactly` | pkg/common/src/pipe.rs:48-50 | A waiting write fails exactly when the reader was dropped and no wake-up is left, and adds no byte |
| `Pipe.OrderSafeExactly` | pkg/common/src/pipe.rs:30-113 | In every state of every run, a step is allowed if and only if no continuation of allowed steps breaks the order: only bytes after a close notice are forbidden, and only while a reader may see the notice or has seen it |
| `Pipe.BadWriteBreaksOrder` | pkg/common/src/pipe.rs:30-106 | Every forbidden write has a continuation in which the reader is told of the end before a byte |
| `Pipe.AbandonedCloseIsHarmless` | pkg/common/src/pipe.rs:58-63 | A close that is given up before its notice is placed forbids nothing |
| `Pipe.NeverBothStuck` | pkg/common/src/pipe.rs:34-92 | A reader parked with nothing to receive means an empty buffer, a parked writer a full one, so they are never both stuck |
| `Pipe.NoDeadlock` | pkg/common/src/pipe.rs:30-113 | While a write and a read are both under way, one of them can take a step |
| `Pipe.CallsReturn` | pkg/common/src/pipe.rs:30-113 | At most six steps in a row bring neither a byte nor a return |
| `Pipe.WriteAfterCloseLosesOrder` | pkg/common/src/pipe.rs:30-106 | A run with a write after close, from the empty pipe, in which the reader sees the end before the byte |
| `Pipe.PipeBuffer.WriteLocked` | pkg/common/src/pipe.rs:35-45 | The block of the writer that runs under the lock: all bytes or as many as there is room for, a message for the reader, and nothing exactly when the buffer is full |
| `Pipe.PipeBuffer.ReadLocked` | pkg/common/src/pipe.rs:75-92 | The block of the reader that runs under the lock, shifting the buffer byte by byte: as many bytes as asked for or all there are, a message for the writer, and nothing exactly when the buffer is empty |
| `BuildGraph.Builder.BuildTarget` | pkg/builder/src/builder.rs:97-143 | Succeeds exactly when every reachable key is known, the graph is acyclic and nothing reachable fails or was built before; then it builds each reachable key exactly once, after its dependencies, and returns the root; a cycle gives the recursion error; the errors about missing nodes and building before dependencies never occur; success or not, what was built before is kept and what was added is safe: only targets below the root, each once, after its dependencies, and none that fails or was built before |
| `BuildGraph.Builder.ExpandNode` | pkg/builder/src/builder.rs:171-265 | Expands depth first; a failure comes with a path in the graph that explains it |
| `BuildGraph.Builder.ExpandDeps` | pkg/builder/src/builder.rs:212-238 | Expands every dependency of a node and records its users |
| `BuildGraph.Builder.ExecuteNode` | pkg/builder/src/builder.rs:360-430 | Builds a leaf whose dependencies are built and makes leaves of the users that have become ready; a failure marks nothing as built |
| `BuildGraph.OrderedIsAcyclic` | pkg/builder/src/builder.rs:180-265 | A list in which every key comes after its dependencies rules out a cycle and holds everything reachable |
| `U1305.ModulusValue` | pkg/crypto/src/chacha20.rs:192-197 | The limbs of the modulus are those of 2^130 - 5 |
| `U1305.U1305.Add` | pkg/crypto/src/chacha20.rs:268-279 | Adds limb by limb with carries |
| `U1305.U1305.GreaterEq` | pkg/crypto/src/chacha20.rs:314-326 | Compares the numbers by subtracting with borrows |
| `U1305.U1305.Sub` | pkg/crypto/src/chacha20.rs:292-312 | Subtracts limb by limb with borrows |
| `U1305.U1305.MaybeSubModulus` | pkg/crypto/src/chacha20.rs:328-336 | Reduces a number below twice the modulus |
| `U1305.U1305.AddModN` | pkg/crypto/src/chacha20.rs:281-284 | Addition modulo 2^130 - 5, fully reduced |
| `U1305.Products` | pkg/crypto/src/chacha20.rs:339-353 | The schoolbook product with the upper half folded in times five, each limb within 64 bits |
| `U1305.CarryPass` | pkg/crypto/src/chacha20.rs:359-365 | One carry pass keeps the number, bounds the carry and leaves 26-bit limbs |
| `U1305.CarryThrice` | pkg/crypto/src/chacha20.rs:355-368 | Three passes keep the number modulo 2^130 - 5; the carry is zero after the third |
| `U1305.U1305.MulModN` | pkg/crypto/src/chacha20.rs:338-376 | Multiplication modulo 2^130 - 5, fully reduced, without overflow of a 64-bit limb |
| `Poly1305.FromLeBytesValue` | pkg/crypto/src/chacha20.rs:205-243 | The five overlapping windows of the sixteen bytes are the limbs of their little-endian number |
| `Poly1305.AddPow2` | pkg/crypto/src/chacha20.rs:286-290 | Setting a bit above the number adds that power of two |
| `Poly1305.ToLeBytes` | pkg/crypto/src/chacha20.rs:246-266 | The sixteen low bytes of the number |
| `Poly1305.BlockLimbs` | pkg/crypto/src/chacha20.rs:547-563 | The limbs of a block with its final bit, below the modulus |
| `Poly1305.BlockIsBytes` | pkg/crypto/src/chacha20.rs:547-563 | A block is the little-endian number of its bytes, padded with zeros to sixteen where asked for, and a one byte |
| `Poly1305.BlockAt` | pkg/crypto/src/chacha20.rs:546-560 | Block i covers bytes 16 i to 16 i + 16 of the data, or what is left of them |
| `Poly1305.Poly1305.constructor` | pkg/crypto/src/chacha20.rs:449-507 | r is the first half of the key, bit by bit under the mask of section 2.5 of RFC 7539, and s the second half |
| `Poly1305.ClampIsMask` | pkg/crypto/src/chacha20.rs:495-506 | Clamping keeps exactly the bits of the mask 0x0ffffffc0ffffffc0ffffffc0fffffff |
| `Poly1305.Poly1305.AddBlock` | pkg/crypto/src/chacha20.rs:546-567 | One step of the polynomial, fully reduced |
| `Poly1305.Poly1305.Update` | pkg/crypto/src/chacha20.rs:543-568 | Takes in the blocks of the data in order, the last one short or padded |
| `Poly1305.Poly1305.Finish` | pkg/crypto/src/chacha20.rs:570-574 | The tag is the polynomial in r over all blocks modulo 2^130 - 5, plus s, modulo 2^128 |
| `Poly1305.AccumulatedIsPolynomial` | pkg/crypto/src/chacha20.rs:543-568 | Reducing after every block gives the polynomial modulo 2^130 - 5 |
| `Poly1305.Authenticate` | pkg/crypto/src/chacha20.rs:449-574 | For every key and every sequence of updates, the tag of section 2.5 of RFC 7539 over the blocks, with r the first half of the key under the mask given there |
| `WakerLists.Waker.Detach` | pkg/executor/src/waker.rs:123-132 | The neighbours point past the waker and no other pointer changes |
| `WakerLists.Waker.Unlink` | pkg/executor/src/waker.rs:122-133 | Takes the waker out through its pointer to the previous slot; the list stays well linked |
| `WakerLists.Waker.Poll` | pkg/executor/src/waker.rs:139-145 | Ready exactly when the waker is in no list |
| `WakerLists.WakerList.Insert` | pkg/executor/src/waker.rs:31-51 | Puts the waker at the head, and panics without a change when it is listed already |
| `WakerLists.WakerList.IsEmpty` | pkg/executor/src/waker.rs:83-85 | Whether there are no wakers |
| `WakerLists.WakerList.RunCallback` | pkg/executor/src/waker.rs:77-78 | A callback's insertions and removals, around the marker |
| `WakerLists.WakerList.WakeAll` | pkg/executor/src/waker.rs:63-80 | Ends for all callbacks, wakes as the model on sequences says and leaves a well-linked list without the marker |
| `WakeAll.WakeEveryone` | pkg/executor/src/waker.rs:53-80 | On the linked list: nobody is woken twice or out of order, only wakers listed at the call are woken, exactly those not unlinked before their turn when nothing panics, and the list then holds what the callbacks made of it; a panic means that the last callback inserted a waker that was listed |
| `WakeAll.WokenExactlyWhenKept` | pkg/executor/src/waker.rs:53-80 | A waker listed at the call is woken if and only if no callback that runs before its turn unlinks it |
| `WakeAll.WokenOnceInOrder` | pkg/executor/src/waker.rs:63-80 | Nobody is woken twice, and the order of the list is kept |
| `WakeAll.WokenWereWaiting` | pkg/executor/src/waker.rs:61-80 | Nobody inserted during the call is woken |
| `WakeAll.PanicNeedsListed` | pkg/executor/src/waker.rs:38-51 | A panic has one cause: the last callback inserted a waker that was listed, and still is |
| `WakeAll.LeftBehind` | pkg/executor/src/waker.rs:63-80 | The list left behind is what the callbacks' insertions and removals make of an empty list |
| `SegmentedBuffers.SegmentedBuffer.Write` | pkg/common/src/segmented_buffer.rs:34-44 | Keeps exactly the packets that still fit, oldest dropped first, followed by the length byte and the bytes of the new one; up to 255 bytes that is the new packet |
| `SegmentedBuffers.WriteThenRead` | pkg/common/src/segmented_buffer.rs:34-107 | A packet written into an empty ring and read comes back exactly when it has at most 255 bytes; otherwise only as many of its bytes as the cut length says |
| `SegmentedBuffers.SegmentedBuffer.AppendPartial` | pkg/common/src/segmented_buffer.rs:46-68 | Evicts whole packets only, never the one being written, and appends up to the end of the array |
| `SegmentedBuffers.SegmentedBuffer.Peek` | pkg/common/src/segmented_buffer.rs:71-78 | The first byte of the ring, which is the length of the oldest packet in a ring of packets |
| `SegmentedBuffers.SegmentedBuffer.Read` | pkg/common/src/segmented_buffer.rs:81-107 | On any ring, takes the first byte for a length and copies that many bytes out, or panics when there are fewer; in a ring of packets that removes the oldest packet and copies it out unchanged |
| `SegmentedBuffers.SegmentedBuffer.IsEmpty` | pkg/common/src/segmented_buffer.rs:25-27 | Whether the ring is empty, and so without packets |
| `SegmentedBuffers.SegmentedBuffer.Clear` | pkg/common/src/segmented_buffer.rs:29-32 | No packets are left |
| `SegmentedBuffers.SegmentedBuffer.constructor` | pkg/common/src/segmented_buffer.rs:17-23 | A buffer without packets |
| `SegmentedBuffers.KeptIsLongestSuffix` | pkg/common/src/segmented_buffer.rs:34-60 | The packets kept are the longest suffix that fits with the new packet |
| `SegmentedBuffers.OverrunIsFull` | pkg/common/src/segmented_buffer.rs:47-53 | The overrun test holds exactly when the room is missing |
| `MerkleDamgards.MerkleDamgard.Update` | pkg/crypto/src/md.rs:70-100 | The state is always the fold over the whole chunks of everything hashed, with the rest pending |
| `MerkleDamgards.MerkleDamgard.Finish` | pkg/crypto/src/md.rs:105-148 | The fold over the message under its standard padding; it fails exactly when the scratch buffer is too short or the padding misses the chunk boundary |
| `MerkleDamgards.MerkleDamgard.constructor` | pkg/crypto/src/md.rs:56-68 | The empty message |
| `MerkleDamgards.MerkleDamgard.Clone` | pkg/crypto/src/md.rs:37-51 | A copy with a pending chunk of its own |
| `MerkleDamgards.FoldConcat` | pkg/crypto/src/md.rs:70-100 | Hashing a first part leaves its hash and its tail, and nothing else matters later |
| `MerkleDamgards.PaddingAlwaysWorks` | pkg/crypto/src/md.rs:109-145 | With chunks of 64 bytes and a 64-bit length, or 128 and 128, every message can be finished |
| `MerkleDamgards.PaddingWorksExactly` | pkg/crypto/src/md.rs:109-145 | Every message can be finished if and only if the chunk size in bytes is the length width in bits |
| `MerkleDamgards.PaddingMissesBoundary` | pkg/crypto/src/md.rs:117-119 | Chunks of 128 bytes with a 64-bit length fail on the empty message |
| `MerkleDamgards.PaddingIsStandard` | pkg/crypto/src/md.rs:109-140 | Byte by byte, a one bit, the least number of zeros that reaches a chunk boundary, and the length in bits, each octet the digit in base 256 of its place in the width and order promised (section 5.1 of FIPS 180-4) |
| `ByteOrder.LeDigits` | pkg/crypto/src/md.rs:134-140 | Octet i, least significant first, is digit i in base 256 |
| `ByteOrder.BeDigits` | pkg/crypto/src/md.rs:134-140 | Octet i from the end, most significant first, is digit i in base 256 |
| `MerkleDamgards.PaddingIsInjective` | pkg/crypto/src/md.rs:109-140 | Different messages stay different when padded |
| `MerkleDamgards.RemainderReaches` | pkg/common/src/lib.rs:210-217 | The distance to the next multiple of the block size |
| `MerkleDamgards.Hash` | pkg/crypto/src/md.rs:56-148 | Any split of a message into updates gives the fold over the message under its standard padding |
| `Base128.SerializeVarint` | pkg/asn/src/encoding.rs:75-93 | The base-128 octets; runs off its buffer exactly for numbers of more than 56 bits |
| `Base128.ParseVarint` | pkg/asn/src/encoding.rs:43-72 | Reads at most nine octets and refuses a zero digit before the last |
| `Base128.VarintDigits` | pkg/asn/src/encoding.rs:75-93 | Octet i from the end is digit i in base 128, with the top bit set on all but the last |
| `Base128.VarintIsShortest` | pkg/asn/src/encoding.rs:75-93 | The first of several octets has a digit that is not zero |
| `Base128.VarintReadBack` | pkg/asn/src/encoding.rs:43-93 | A number below 2^56 is read back if and only if none of its digits but the last is zero |
| `Base128.AcceptedIsWritten` | pkg/asn/src/encoding.rs:43-93 | Every accepted encoding is the one that is written for its value |
| `Base128.ZeroDigitRefused` | pkg/asn/src/encoding.rs:43-93 | 2^14 is written as 0x81 0x80 0x00 and then refused |
| `Der.SerializeIdentifier` | pkg/asn/src/encoding.rs:122-135 | The identifier octets; fails exactly when the number does not fit |
| `Der.FirstOctet` | pkg/asn/src/encoding.rs:122-130 | The first identifier octet: classes at 0x00, 0x40, 0x80 and 0xC0 and constructed 0x20 above primitive (section 8.1.2 of ITU-T X.690) |
| `Der.IdentifierReadBack` | pkg/asn/src/encoding.rs:103-135 | Identifiers are read back exactly when their number is readable |
| `Der.AcceptedIdentifierIsWritten` | pkg/asn/src/encoding.rs:103-135 | Every accepted identifier is the one that is written |
| `Der.SerializeLength` | pkg/asn/src/encoding.rs:175-196 | The shortest length octets |
| `Der.MinimalDigits` | pkg/asn/src/encoding.rs:175-196 | Length octet i from the end is digit i in base 256 |
| `Der.LengthReadBack` | pkg/asn/src/encoding.rs:146-196 | Every length is read back, in its short or long form |
| `Der.AcceptedLength` | pkg/asn/src/encoding.rs:146-196 | An accepted length is the one that is written if and only if its form is the shortest |
| `Der.ElementReadBack` | pkg/asn/src/encoding.rs:207-242 | An element is read back with exactly its octets taken, or refused, as its tag number is readable or not |
| `Der.AcceptedElement` | pkg/asn/src/encoding.rs:207-242 | An accepted element is the one that is written if and only if its length octets are the shortest |
| `Der.LongLengthAccepted` | pkg/asn/src/encoding.rs:146-242 | An element with the length octets 0x81 0x05 is accepted and not written back |
| `DerTree.ReadBackAs` | pkg/asn/src/encoding.rs:594-611 | For every tree that can be written and every schema, reading the written bytes succeeds if and only if the tree has what the schema asks for, and more only where it is extensible, and the tag numbers asked for are readable; the result is the part asked for and the bytes after the tree |
| `DerTree.LeftOver` | pkg/asn/src/encoding.rs:604-606 | Elements after the last field of a sequence that is not extensible give the error that the reader is not finished |
| `DerTree.ReadBack` | pkg/asn/src/encoding.rs:594-611 | Any nested tree is read back with nothing left over if and only if all its tag numbers are readable |
| `DerTree.ExpectReadBack` | pkg/asn/src/encoding.rs:336-394 | A written element gives its contents to the one who asks for its tag and form, and the error about the tag or the form to anyone else |
| `DerIo.DerWriter.WriteTag` | pkg/asn/src/encoding.rs:790-795 | Writes the implicit tag if one is set, clears it and notes where the element starts |
| `DerIo.DerWriter.WriteLength` | pkg/asn/src/encoding.rs:797-799 | Appends the length octets |
| `DerIo.DerWriter.WriteOctetString` | pkg/asn/src/encoding.rs:878-882 | Appends a primitive element |
| `DerIo.DerWriter.WriteSequence` | pkg/asn/src/encoding.rs:917-927 | Appends a constructed element with the bytes of its children as contents |
| `DerIo.DerWriter.WriteTree` | pkg/asn/src/encoding.rs:804-814 | Appends any tree under its own tags, or under the implicit tag that is set already; fails exactly when a tag number does not fit |
| `DerIo.DerReader.ReadElement` | pkg/asn/src/encoding.rs:336-394 | The contents of the next element, or the error, leaving the input alone on an error |
| `DerIo.DerReader.ReadSequence` | pkg/asn/src/encoding.rs:594-611 | Reads the children from the contents and insists that nothing is left, unless the sequence is extensible, as `DerTree.ReadBackAs` pins for every written tree |
| `DerIo.DerReader.ReadTree` | pkg/asn/src/encoding.rs:437-449 | Reads a tree of the expected shape, under its tag or the implicit tag that is set already |
| `DerIo.WriteThenReadAs` | pkg/asn/src/encoding.rs:594-927 | Writing any tree and reading it by any schema returns the part the schema asks for and leaves the bytes after it, if and only if the tag numbers can be written and the schema accepts the tree |
| `DerIo.WriteThenRead` | pkg/asn/src/encoding.rs:594-927 | Writing any tree and reading it back by its own shape returns the tree and leaves the bytes after it, if and only if its tag numbers can be written and read |
| `DerSetOf.WriteSetOf` | pkg/asn/src/encoding.rs:992-1015 | Writes the elements in the order of their bytes, under the implicit tag if one is set |
| `DerSetOf.ReadSetOf` | pkg/asn/src/encoding.rs:660-684 | Reads the elements, refusing them when they are not in order, under the implicit tag if one is set |
| `DerSetOf.SetReadBack` | pkg/asn/src/encoding.rs:660-1015 | A set of items is read back sorted by their bytes, each item as far as the schema asks, if and only if the tag number of the set is readable and the schema accepts every item |
| `DerSetOf.SetReadsExactly` | pkg/asn/src/encoding.rs:660-684 | Elements in any order under the tag of a set are read if and only if their bytes ascend, the tag is readable and the schema accepts every element; out of order has an error of its own |
| `DerSetOf.LeqLexicographic` | pkg/asn/src/encoding.rs:665-669 | The order is lexicographic: the first octet that differs decides, and a proper start comes first |
| `DerSetOf.SetBytesCanonical` | pkg/asn/src/encoding.rs:992-1015 | The order in which the items are given does not matter |

## Left out

- LengthLimitedBuild.BuildLengthLimitedTree: an arithmetic overflow panics, as in a build with overflow checks; the values of packages are unbounded integers, because so many symbols do not fit in memory.
- CanonicalCodes.CanonicalCodesFromLens: lengths are below 64, because shifts of a 64-bit word by 64 or more are not defined in the source.
- HuffmanTree.HuffmanTree.Insert: the tree is a value and the walk a recursive function that keeps every node it creates, instead of a loop over pointers; codes are not empty, as the source asserts.
- BitIo.BitWriter.WriteBits: at most 64 bits in the high-first order, because the source shifts a word by the distance; the conversion of a writer to a bit vector is not modelled.
- BitIo.BitReader.ReadBits: reads come from bytes in memory and at most 64 bits at a time; errors of the underlying stream are not modelled.
- ResumableReader.ReadAll: a value is any sequence of bit reads, each chosen from the values read before it, that takes at least one bit and ends its reads of no bits.
- FiniteStateMachine.FiniteStateMachine.AcceptsWord: symbols are numbers, and tags and transducer outputs are not modelled.
- `FiniteStateMachine::minimal` is not modelled: its second pass feeds several start states into component merging, so the language claim does not carry over.
- Pipe.RunKeepsInv: one reader and one writer, whose waiting calls may be abandoned and which may be dropped; tasks and wakers are not modelled.
- BuildGraph.Builder.BuildTarget: which targets exist, what they depend on and which builds fail are given; configs built during the build, BUILD files and rule evaluation are not modelled.
- Poly1305.Authenticate: encryption, key generation and the layout of the authenticated data are not modelled.
- WakerLists.WakerList.WakeAll: call number i of a callback performs an arbitrary finite list of insertions into and removals from this list; other lists and re-entered calls are not modelled, and a panic ends the call with the marker dropped.
- SegmentedBuffers.SegmentedBuffer.Write: writing into a ring that holds a packet of more than 255 bytes is not modelled, because the source documents that there are none; reading from one is.
- MerkleDamgards.MerkleDamgard.Finish: messages are shorter than 2^61 bytes, and the compression function is any function; the round functions of the hashes are not modelled.
- DerIo.DerReader.ReadTree: trees are octet strings and sequences, extensible or not, under arbitrary implicit tags; integers, object identifiers, text, times, choices, optional fields and the recorded slices are not modelled.
- `read_set` and `write_set` for fields with distinct tags are not modelled; they would repeat the argument for set-of.
- GCM, RSA, TLS, AES, SHA rounds, Deflate and the other codecs, the CNC planner, and the file, device, graphics and network code are not modelled.
