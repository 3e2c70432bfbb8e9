# Verified models of libcw's core algorithms

This project models seven pieces of the repository in Dafny and proves what they promise. Verify it with
`dafny verify dfyconfig.toml`.

**2-3 tree multimap** (`B23Shape`, `B23Heap`, `B23Arena`, `B23Relink`, `B23Steps`, `B23Tree`; `src/core/cwB23Tree.h`).
The tree is a heap structure of `Node` objects with parent links. `B23Shape.InsertShape` is the textbook insertion on
values; the imperative `Insert` splits leaves in place, walks up through parent links and absorbs or splits nodes, and is
proved to make exactly that tree. From it follow balance, key order, size bounds, and that the tree is the multimap of all
insertions. `B23Arena.Arena` models the node blocks and the free list; the node that the middle split never releases is
accounted for as leaked.

**Streaming signal blocks** (`Stride`, `Sums`, `ShiftBuf`, `Ola`, `Chain`, `Convolve`; `src/core/cwAudioTransforms.h`,
`src/core/cwDsp.h`). Buffers with moving and wrapping indices are tied to stream definitions: windows of a stream, sums of
overlapping frames, linear convolution. Samples are reals and windows are arbitrary vectors.

**Worker pool** (`WorkerPool`; `py/gen_wavetables/multiproc.py`). The dispatcher, the workers and their two queues are a
state machine whose steps interleave freely; a run may also sleep at any time, which covers the polling delays and failed
non-blocking gets.

**Dataset files** (`RecordCache`, `RowCodec`, `Dataset`; `src/core/cwDataSets.cpp`). The cache over a file of
length-prefixed records is compared with the list of the records; the writer and reader of rows are proved inverse where
they are; and the three together give back every row that was written.

**Lexer** (`LexMatch`, `LexTable`, `LexGrammar`, `Lexer`; `src/core/cwLex.cpp`). Each matcher's loop is proved against a
description of its token; the choice among matches, the token stream and the filters are proved over all texts and tables.
`LexGrammar` says by characters alone what a token of each type is, and a new lexer is proved to find the longest of these.

**WAV files** (`Bytes`, `Pcm`, `WavFile`, `WavAudio`; `src/core/cwAudioFile.cpp`). Packing of samples, the chunk loop, and block by
block interleaving and de-interleaving, up to the round trip from a writer to a reader.

**DNS names** (`DnsName`; `apps/fdr/cwMdns.cpp`), after sections 3.1 and 4.1.4 of RFC 1035.

## Where the code falls short, and exactly when

- The cache's test for the last record (`src/core/cwDataSets.cpp:702`) leaves out the four bytes of the record's header. A
  pass is sound exactly when the last record has a body and no refill ends inside the last four bytes of a record
  (`RecordCache.CacheSoundExactlyWhen`); `RecordCache.TornRecordIsCounted` is a file on which it goes wrong.
- `_write_column_to_buf` checks only the product of the dimensions, and stores them before it does. A row comes back exactly
  when every column has a dimension, its fixed dimensions are as declared, and its bytes fill its dimensions
  (`RowCodec.RowRoundTripExactlyWhen`). The second fails for an accepted value of the wrong shape
  (`RowCodec.WrongShapeIsAccepted`), the third after a refused value, whose dimensions go out with the value before it
  (`RowCodec.RefusedWriteIsMisread`).
- The overlap-add ring adds stale samples when the window is longer than one hop and shorter than two
  (`Ola.OverlapAddExactlyWhen`, `Ola.StaleSamples`).
- The carried part of a block convolution must hold one block, which fails exactly for a response of one sample and a
  block size that is a power of two (`Convolve.CarryHoldsBlock`).
- The pool's documentation forbids `None` tasks. With such a task, or with tasks and no process, no run returns; in all other
  cases some run does (`WorkerPool.CanReturnExactlyWhen`). With a process and no such task every run that can only sleep
  has returned (`WorkerPool.MaximalRunReturns`). Results arrive in order of completion, not of the tasks.
- With priority for user tokens the longest user token beats an identifier as long as all tokens added have ids in the user
  range (`Lexer.UserTokensWin`). The id of a built-in matcher that is absent is accepted, too (`Lexer.TableGrows`), and then
  the token loses wherever an identifier is found that is at least as long and no user token matches
  (`Lexer.LowIdWinsExactlyWhen`, with an example in `Lexer.LowIdLoses`).
- Opening a WAV file takes the data size rounded up to an even number, so the frame count is one too large exactly for mono
  files of an odd number of one-byte samples (`WavFile.FramesFoundExactlyWhen`).
- `format_name` accepts empty labels and then adds more zeros than one; reading stops at the first
  (`DnsName.NameRoundTripExactlyWhen`). `calc_name_byte_count` reports a name that its limit cuts off as malformed, but not
  when the cut is right behind a label (`DnsName.CalcNameByteCount`).
- `_readInt` ends with a read error whenever more frames are asked for than are left, since a read of no bytes fails; the
  zero filling behind its loop is never reached. It delivers the frames there are before, except from a file whose frame
  count is one too large: there the block that would hold the frame too many is lost as a whole, and only the whole blocks
  before it are delivered (`WavAudio.Reader.ReadInt`).
- `set_window_sample_count` does not compare the window with the hop. With a window shorter than the hop, and only then, there
  are blocks after which `exec` shifts by more samples than it holds, so that its count of samples to move is negative
  (`ShiftBuf.SafeExactlyWhen`, if blocks may hold a sample; with an example in `ShiftBuf.TwoSamplesOverrun`).
- `_alloc_node` clears the head of the free list before it reads its link, and so loses all other nodes of the list: none
  exactly if it had one node (`B23Arena.Arena.TakeFree`). `_free_node` makes longer lists (`B23Arena.Arena.FreeNode`), but an
  insertion releases nodes only while the list is empty.
- `seek` computes the place of a frame in 32 bits, so it stands at the frame exactly when that place is below 4 GB
  (`WavAudio.Reader.Seek`).

## Model

| member | source | states |
|---|---|---|
| B23Shape.InsertKeepsBalance | src/core/cwB23Tree.h:427-549 | Insertion into a tree with all leaves at one depth gives such a tree, or two of the same height around one pair. |
| B23Shape.InsertInOrder | src/core/cwB23Tree.h:580-625 | Read from left to right, the new tree is the old sorted list with the pair inserted, through every leaf split, absorption and three-way split. |
| B23Shape.ListInsertValues | src/core/cwB23Tree.h:262-287 | The value list of the inserted key is the new value before the old list; every other key's list is unchanged. |
| B23Shape.SizeBounds | src/core/cwB23Tree.h:104-110 | A balanced tree of height h holds between 2^(h+1)-1 and 3^(h+1)-1 keys. |
| B23Shape.BuildRepresents | src/core/cwB23Tree.h:627-633 | After any sequence of insertions the tree is balanced and ordered, maps each key to its values, newest first, has exactly the inserted keys, and meets the size bounds. |
| B23Shape.InsertRepresents | src/core/cwB23Tree.h:580-633 | One insertion takes a tree that represents a log of insertions to one that represents the longer log. |
| B23Relink.SplitLeaf | src/core/cwB23Tree.h:427-454 | Splitting a full leaf in place leaves a 2-node over two leaves with the three pairs in order. |
| B23Relink.AbsorbLow | src/core/cwB23Tree.h:475-502 | A 2-node takes in a split low child: pairs, links and parent links of the resulting 3-node. |
| B23Relink.AbsorbHigh | src/core/cwB23Tree.h:475-502 | The same for a split high child. |
| B23Relink.SplitAtLow | src/core/cwB23Tree.h:504-524 | A 3-node with a split low child becomes a 2-node of two 2-nodes, relinked in place. |
| B23Relink.SplitAtHigh | src/core/cwB23Tree.h:527-532 | The same for a split high child. |
| B23Relink.SplitAtMid | src/core/cwB23Tree.h:533-540 | The same for a split middle child, whose two halves go to different nodes. |
| B23Arena.Arena.AllocNode | src/core/cwB23Tree.h:302-330 | A node comes from the free list, or else from a block, is none of those in use, and is blank; in use, free and never used partition all slots, and the free list is empty afterwards. |
| B23Arena.Arena.FreeNode | src/core/cwB23Tree.h:371-379 | A released node loses its values, leaves those in use and heads the free list, which may have any length; every slot stays accounted for. |
| B23Arena.Arena.TakeFree | src/core/cwB23Tree.h:306-311 | The head of the free list is taken and the others are lost, these and no other slots; so all slots stay accounted for exactly when the list had one node. |
| B23Tree.TwoThreeTree.SplitMiddle | src/core/cwB23Tree.h:533-540 | The middle split uses two new nodes and does not release the child, which is then in use but not in the tree. |
| B23Tree.TwoThreeTree.InsertUp | src/core/cwB23Tree.h:551-578 | The upward walk ends, with the whole tree relinked as the recursive insertion says; the node at the top stays; live and leaked nodes are exactly those in use. |
| B23Tree.TwoThreeTree.InsertDown | src/core/cwB23Tree.h:580-625 | Insertion from the root object makes the tree of the recursive insertion below the same object. |
| B23Tree.TwoThreeTree.Insert | src/core/cwB23Tree.h:627-633 | The heap structure stays valid and represents all insertions so far; the root object, once there, is never replaced. |
| B23Tree.TwoThreeTree.KeyToNode | src/core/cwB23Tree.h:113-164 | Search visits at most height + 1 nodes and finds a node and slot, with all values of the key, exactly when the key was inserted. |
| ShiftBuf.ShiftBuffer.Create | src/core/cwAudioTransforms.h:365-388 | Creation succeeds exactly when hop <= window <= largest window. |
| ShiftBuf.ShiftBuffer.SetWindowSampleCount | src/core/cwAudioTransforms.h:464-473 | The window size changes exactly when it is no larger than the largest, at any point of a stream; no sample is touched, and no later block can overrun exactly when the next call cannot and the window is not shorter than the hop. |
| ShiftBuf.SafeExactlyWhen | src/core/cwAudioTransforms.h:411-461 | Whatever is held: no sizes of blocks ever make a call shift more than it holds exactly when the next call does not and the window is not shorter than the hop. |
| ShiftBuf.TwoSamplesOverrun | src/core/cwAudioTransforms.h:420-431 | A block of two samples and one further call overrun a buffer with a window of two and a hop of four. |
| ShiftBuf.ShiftBuffer.Exec | src/core/cwAudioTransforms.h:411-461 | Each call takes in the block or, after a true one, moves one hop; it returns true exactly when a window is complete, and then exposes the samples from k hops on. No sample is lost, also with a window shorter than the hop, as long as the shift finds a hop of samples. |
| ShiftBuf.ShiftBuffer.Feed | src/core/cwAudioTransforms.h:411-461 | Calling until false delivers, in order, the windows that the stream gained, and ends. |
| ShiftBuf.DrainedIs | src/core/cwAudioTransforms.h:411-461 | After draining, the windows delivered from n samples are (n-wnd)/hop+1, or none if n is less than wnd. |
| Ola.StepEmitsSums | src/core/cwAudioTransforms.h:264-288 | Each output sample of a call is the sum over all frames so far at its stream position. |
| Ola.StepHoldsSums | src/core/cwAudioTransforms.h:264-308 | After each call every ring cell in use holds the partial sum of its stream position. |
| Ola.RunIsOverlapAdd | src/core/cwAudioTransforms.h:264-308 | For every sequence of frames the output is mathematical overlap-add, for windows of two hops or more, multiple or not, and of one hop. |
| Ola.OverlapAddExactlyWhen | src/core/cwAudioTransforms.h:281-302 | These are exactly the window sizes for which this holds. |
| Ola.StaleSamples | src/core/cwAudioTransforms.h:281-302 | Three frames of ones show it fail for every window between one hop and two. |
| Ola.OverlapAdd.Exec | src/core/cwAudioTransforms.h:264-308 | The in-place ring leaves the sums of the new hop to be handed out: sample i of it, at stream position t, is the sum over all frames so far of w[t-k*hop] times sample t-k*hop of the raw frame k, for every window w. |
| Ola.SumIsWeighted | src/core/cwAudioTransforms.h:264-308 | The partial sums of windowed frames are sums of products of the window and the raw frames, each as far as the index is in the window. |
| Ola.OverlapAdd.ExecOut | src/core/cwAudioTransforms.h:310-320 | The samples of a hop are handed out once, in order, in blocks, and then nothing. |
| Chain.Reconstruct | src/core/cwAudioTransforms.h:264-461 | A shift buffer that feeds an overlap-add object with a unity window of r hops, for every stream and any cut of it into blocks: each window of the whole stream gives one hop of output, and output sample t is the input sample times the number of windows over it, t/hop+1 and at most r. |
| Convolve.CircularIsLinear | src/core/cwDsp.h:1031-1044 | A circular convolution of length n does not alias when the two lengths together are at most n+1. |
| Convolve.NextPowerOfTwo | src/core/cwMath.cpp:96-128 | The bit loop finds the least power of two that is not below the argument; for zero the result is two. |
| Convolve.CarryHoldsBlock | src/core/cwDsp.h:974-995 | The carried vector holds a block exactly when not both the response has one sample and the block size is a power of two. |
| Convolve.Convolver.Exec | src/core/cwDsp.h:1029-1066 | Each call emits the exact next block of the linear convolution of all input, also for a short block: output sample i is the sum over m of scale*h[m] times input sample i-m, on the response and the scale that the object was made with. |
| Convolve.BlockAdvances | src/core/cwDsp.h:1046-1063 | Adding, shifting and zeroing keeps the carried vector the exact rest of the linear convolution. |
| Convolve.Convolver.ShiftAndAdd | src/core/cwDsp.h:1049-1063 | The in-place shift, zero and add of the carried vector. |
| Convolve.Apply | src/core/cwDsp.h:1069-1104 | Every output sample i is the sum over m of scale*h[m]*x[i-m] on the caller's response and signal, as far as there are such samples, and zero behind the end, also for an empty signal. |
| Convolve.ConvIsSum | src/core/cwDsp.h:1029-1104 | The convolution with the scaled response is the sum of the products of scale, response and signal. |
| Convolve.Flush | src/core/cwDsp.h:1091-1099 | The final flush writes the tail of the convolution and zeros. |
| WorkerPool.StepPlaces | py/gen_wavetables/multiproc.py:20-40 | No step changes in how many places a task is; only sending adds one. |
| WorkerPool.StepConserves | py/gen_wavetables/multiproc.py:60-115 | Every step keeps each sent task in exactly one place, and the pending count at sent less collected, at most the number of processes. |
| WorkerPool.DispatchedMeansDone | py/gen_wavetables/multiproc.py:60-115 | When distribution ends there is one result for each task, no task was None, and no work is left anywhere. |
| WorkerPool.StepKeepsOrder | py/gen_wavetables/multiproc.py:20-47 | If no task is None, every step keeps this: each sentinel sent waits or has ended one worker, and there is none before all results are in. |
| WorkerPool.ReturnedMeansClean | py/gen_wavetables/multiproc.py:160-174 | On return every worker has ended, each on one sentinel, and both queues are empty. |
| WorkerPool.StepAdvances | py/gen_wavetables/multiproc.py:20-47 | Every step but sleeping lowers the weighted count of remaining stages. |
| WorkerPool.SomeStepIsEnabled | py/gen_wavetables/multiproc.py:60-174 | With a process and no None task, some step other than sleeping is possible until the return. |
| WorkerPool.RunIsOrderly | py/gen_wavetables/multiproc.py:20-174 | Every run keeps all of this and takes no more working steps than there were stages at first. |
| WorkerPool.MaximalRunReturns | py/gen_wavetables/multiproc.py:20-174 | With a process and no None task, a run has returned exactly when nothing but sleeping is left to do, and it takes a bounded number of working steps. |
| WorkerPool.CanReturnExactlyWhen | py/gen_wavetables/multiproc.py:120-174 | The pool can return exactly when there are no tasks, or there is a process and no task is None. |
| RecordCache.RefillCounts | src/core/cwDataSets.cpp:683-712 | A refill counts exactly the whole records and leaves the file behind them, unless it ends inside the last four bytes of a record: then it counts that one too and leaves the file inside it. |
| RecordCache.CacheSoundExactlyWhen | src/core/cwDataSets.cpp:683-812 | All refills of a pass are good exactly when the last record has a body and no refill ends inside the last four bytes of a record. |
| RecordCache.TornRecordIsCounted | src/core/cwDataSets.cpp:702-706 | Two records and a buffer for which a refill counts a record that it did not read to its end. |
| RecordCache.OneRefillIsSound | src/core/cwDataSets.cpp:745-777 | A buffer that takes the whole file is always good. |
| RecordCache.Cache.CountAndAlign | src/core/cwDataSets.cpp:667-712 | The loop counts what the definition says for any bytes, and moves the file back accordingly. |
| RecordCache.Cache.ShuffleToc | src/core/cwDataSets.cpp:714-728 | Whatever is drawn, the table still lists every record of the cache once, each where it stands. |
| RecordCache.Cache.Refill | src/core/cwDataSets.cpp:745-777 | A refill at a record lists the records that the buffer holds and leaves the file at the next one. |
| RecordCache.Cache.Rewind | src/core/cwDataSets.cpp:779-798 | The cache is at the first record again. |
| RecordCache.Cache.Advance | src/core/cwDataSets.cpp:800-811 | The cache holds at least one of the records behind it. |
| RecordCache.Cache.Read | src/core/cwDataSets.cpp:837-865 | The bytes returned are those of the next record (with shuffling, of the one in its slot), and the end is reported exactly behind the last. |
| RecordCache.Cache.Seek | src/core/cwDataSets.cpp:867-903 | Seeking ends, fails exactly for an index beyond the records, and makes the requested record the next, from any state. |
| RecordCache.Cache.ReadAll | src/core/cwDataSets.cpp:837-865 | A pass returns the list of records; with shuffling, every record exactly once in some order. |
| RecordCache.OrderIsFull | src/core/cwDataSets.cpp:714-728 | As many different numbers below n as n leave none out, so a shuffled pass misses no record. |
| RecordCache.EncodeAppend | src/core/cwDataSets.cpp:376-391 | A record written behind others is the last in the file. |
| RowCodec.Writer.WriteColumn | src/core/cwDataSets.cpp:85-149 | A value is accepted exactly when its size and type fit; its dimensions are stored even when it is refused, and the largest so far are the larger of each two. |
| RowCodec.MaxDims | src/core/cwDataSets.cpp:105-110 | Each of the largest dimensions is at least both and equal to one of them. |
| RowCodec.AcceptedIsComplete | src/core/cwDataSets.cpp:85-149 | An accepted value fills its dimensions. |
| RowCodec.Writer.WriteRecord | src/core/cwDataSets.cpp:358-406 | The file grows by one record, whose length field is the length of its body, so it stays the list of the rows. |
| RowCodec.ColumnLayout | src/core/cwDataSets.cpp:376-393 | In a record each varying dimension of a column stands in four bytes, the lowest first, behind those of the varying dimensions before it, and the value behind them all. |
| RowCodec.Reader.ParseVarRecord | src/core/cwDataSets.cpp:1130-1171 | Every field is what the record says, whatever record was read before. |
| RowCodec.ColumnReadBack | src/core/cwDataSets.cpp:1144-1166 | The bytes of a column, wherever they stand and whatever was refused before, give it back exactly when they fill its dimensions and these are as declared. |
| RowCodec.RowRoundTripExactlyWhen | src/core/cwDataSets.cpp:1130-1171 | Reading a written row gives back dimensions, element counts and bytes of all columns exactly when every column's bytes fill its dimensions, its fixed dimensions are the declared ones, and it has a dimension. |
| RowCodec.RefusedWriteIsMisread | src/core/cwDataSets.cpp:105-115 | After a refused value the record has new dimensions before old bytes, and the reader takes eight bytes where there are four. |
| RowCodec.HeaderServesFixedRows | src/core/cwDataSets.cpp:1052-1098 | Without varying dimensions the offsets made from the header are right for every row. |
| RowCodec.WrongShapeIsAccepted | src/core/cwDataSets.cpp:100-116 | A value of the wrong shape that the writer accepts. |
| Dataset.DatasetReader.ParseRecord | src/core/cwDataSets.cpp:1174-1214 | From the record of any sound row of the columns in the header, dimensions, element counts and bytes of all columns come back, with or without varying dimensions, whatever record was read before. |
| Dataset.DatasetReader.ReadAll | src/core/cwDataSets.cpp:1174-1214 | A pass hands out every row of the dataset exactly once, in order unless it shuffles. |
| Dataset.ReadBack | src/core/cwDataSets.cpp:1030-1214 | What a writer's calls put behind a header, a cache and a reader with the writer's columns turn back into all rows written, each once, and in order unless they are shuffled. |
| LexMatch.SpaceMatcher | src/core/cwLex.cpp:100-107 | The longest run of white space. |
| LexMatch.RealMatcher | src/core/cwLex.cpp:109-188 | Sign, digits with at most one point, exponent and f, of which one mark must be there. |
| LexMatch.IntMatcher | src/core/cwLex.cpp:190-250 | Sign, digits and a u, which is an error behind a sign. |
| LexMatch.HexMatcher | src/core/cwLex.cpp:252-265 | 0x and the digits behind it, even none, but not as the last two characters. |
| LexMatch.IdentMatcher | src/core/cwLex.cpp:268-279 | A letter or underscore and the run of word characters behind it. |
| LexMatch.QStrMatcher | src/core/cwLex.cpp:282-310 | Up to the first quote without an escape, or an error. |
| LexMatch.QCharMatcher | src/core/cwLex.cpp:312-368 | One character or one escape between quotes, or an error. |
| LexMatch.BlockCmtMatcher | src/core/cwLex.cpp:371-387 | Up to the first end mark, or an error. |
| LexMatch.LineCmtMatcher | src/core/cwLex.cpp:389-406 | Up to and with the next newline, or to the end of the text. |
| LexMatch.ScanTo | src/core/cwLex.cpp:78-91 | The position behind the first occurrence of a string. |
| LexMatch.StartsWith | src/core/cwLex.cpp:93-97 | Comparing stops at the first difference, never behind the NUL. |
| LexTable.MatchFits | src/core/cwLex.cpp:93-406 | No match reaches behind the text. |
| LexTable.RealBeatsInt | src/core/cwLex.cpp:109-250 | Where there is a real, the integer there is shorter and no error. |
| LexTable.BuiltInsNeverTie | src/core/cwLex.cpp:510-520 | No two built-in matchers match equally long, so their order does not matter. |
| LexTable.IdentStandsAlone | src/core/cwLex.cpp:268-279 | Where there is an identifier no other built-in matcher matches. |
| LexTable.MaximalMunch | src/core/cwLex.cpp:709-735 | Without priority the longest match wins; ties go to the earliest matcher, or to the first user token among them if the earliest is an identifier. |
| LexTable.PriorityForUser | src/core/cwLex.cpp:726-731 | With priority the longest user token beats an identifier, however short. |
| LexTable.PriorityNeedsIdent | src/core/cwLex.cpp:726-731 | Priority matters only where an identifier matches. |
| LexGrammar.BuiltInFindsLongest | src/core/cwLex.cpp:100-406 | Where a built-in matcher finds no error, what it finds is by its characters a token of its kind, and nothing longer there is. |
| LexGrammar.BuiltInFaults | src/core/cwLex.cpp:190-387 | Matchers find errors exactly where the characters are a signed integer with a u, a quote that nothing closes, or a block comment that does not end. |
| LexGrammar.TokenHasOneType | src/core/cwLex.h:17-31 | Characters that are a token of one type are none of another. |
| Lexer.NewLexerFinds | src/core/cwLex.cpp:686-792 | A lexer as it is created finds the longest token that stands there by the characters, under the id of its type; it fails exactly at an error or, unless it returns unknown characters, where no token starts. |
| Lexer.NewSuffixes | src/core/cwLex.cpp:172-241 | The suffix flags of such a lexer say that a real ends in an f and an integer in a u. |
| Lexer.OneOfEach | src/core/cwLex.h:17-31 | White space, an integer, a hexadecimal number, an identifier and a line comment get the ids 3, 5, 6, 7 and 11. |
| Lexer.OneReal | src/core/cwLex.cpp:109-188 | The text -1.5e+3f is one token with the id 4. |
| Lexer.OneOfEachInQuotes | src/core/cwLex.cpp:282-387 | A string with an escaped quote, a quoted escape and a block comment with its begin mark in it get the ids 8, 9 and 10. |
| Lexer.TokenIsLongest | src/core/cwLex.cpp:686-792 | Without priority no enabled matcher finds more than the token found. |
| Lexer.BuiltInsAreTable | src/core/cwLex.cpp:511-521 | A new lexer's table has its one identifier matcher before all others that are not built in. |
| Lexer.TableGrows | src/core/cwLex.cpp:633-656 | A token or function added keeps the table so exactly when its id is in the user range. |
| Lexer.UserTokensWin | src/core/cwLex.cpp:686-792 | With priority, in such a table, the token at an identifier is the longest that a user matcher finds there, and the identifier only if none does. |
| Lexer.LowIdWinsExactlyWhen | src/core/cwLex.cpp:709-735 | With a token added under an id below the user range this still holds at an identifier exactly when that token does not match there, is longer than what is found without it, or what is found is another user's. |
| Lexer.LowIdLoses | src/core/cwLex.cpp:466-482 | The string ab under the id of quoted characters loses to the identifier abc. |
| Lexer.ScanAdvances | src/core/cwLex.cpp:693-792 | Each token has at least one character and ends within the text. |
| Lexer.StreamTiles | src/core/cwLex.cpp:745-786 | The tokens follow each other without gap or overlap from the start to where lexing ends, each on the line that the newlines before it give. |
| Lexer.Lexer.TryMatchers | src/core/cwLex.cpp:704-735 | The matcher loop makes the choice that the definition says, or finds an error exactly when an enabled matcher does. |
| Lexer.Lexer.GetNextToken | src/core/cwLex.cpp:686-792 | A call goes to the next token of the stream that the filter keeps, so that space and comments are returned only if their flags say so; at the end it reports the end once, and afterwards, as after an error, only errors. With no matchers added, the token has the id of what stands there by the characters, is the longest there, and has the flags of its suffix; a failure means an error by the characters or an unknown one. |
| Lexer.Lexer.GetAll | src/core/cwLex.cpp:686-792 | All calls together give the filtered stream, with the same end for every filter; with no matchers added, each token has the id of its characters. |
| Lexer.FilterHoldsBack | src/core/cwLex.cpp:762-781 | What the filter holds back is space, if the flag for space is off, and comments of both kinds, if the flag for comments is. |
| Lexer.NewlinesAre | src/core/cwLex.cpp:745-786 | The line of a token is the number of newlines before it. |
| Lexer.FilterIndependence | src/core/cwLex.cpp:762-781 | Holding back space or comments of a stream from which others are held back already gives what holding back both at once gives; and nothing is lost when nothing is held back. |
| Lexer.Lexer.RegisterToken | src/core/cwLex.cpp:466-482 | A token is added exactly when neither its id, unless that is the invalid one, nor its string is there; and the table stays as above exactly when the id is in the user range. |
| Lexer.Lexer.RegisterMatcher | src/core/cwLex.cpp:647-656 | The same for a function of the user, which has no string. |
| Lexer.Lexer.EnableToken | src/core/cwLex.cpp:658-671 | The first matcher with the id changes, or the call fails; the table stays as above. |
| Pcm.UnpackPack | src/core/cwAudioFile.cpp:805-834 | Reading a packed sample truncates it to its width, so it comes back exactly when it is in range, for one to four bytes. |
| Pcm.PackedBytes | src/core/cwAudioFile.cpp:1716-1812 | Byte k of a sample of two to four bytes is its k-th digit to base 256, and a sample of one byte has 128 added. |
| Pcm.NumberIs | src/core/cwAudioFile.cpp:735-834 | Reading gives the two's complement number of any bytes, the lowest first, or of one byte less 128. |
| Pcm.PackUnpack | src/core/cwAudioFile.cpp:735-834 | Writing the number that any bytes stand for gives these bytes. |
| Bytes.WordAt | src/core/cwAudioFile.cpp:122-134 | A word is read from four bytes exactly when these are its digits to base 256, the lowest first. |
| Bytes.HalfwordAt | src/core/cwAudioFile.cpp:136-148 | The same for two bytes. |
| WavFile.Open | src/core/cwAudioFile.cpp:443-538 | The chunk loop computes the format and the broadcast text that the definition says for any bytes, and reports a read failure or a syntax error as it does; files whose chunks are read as those of an AIFF file, among them RIFF files of two odd form types, are recognised exactly. |
| WavFile.ChunkOrder | src/core/cwAudioFile.cpp:365-413 | Two WAV files that differ in the order of their format and data chunks open with the same result, but for the place of the samples. |
| WavFile.OtherChunks | src/core/cwAudioFile.cpp:478-527 | A file opens with the same format and frames whatever chunks of other kinds stand before, between and behind its format and its samples, which are found at their place. |
| WavFile.FoundIs | src/core/cwAudioFile.cpp:365-413 | Channels, rate and bits are the numbers in the format chunk, and the frames are the bytes of samples divided by channels times bytes. |
| WavFile.BextFromBody | src/core/cwAudioFile.cpp:415-441 | The 346 bytes of broadcast data are kept. |
| WavFile.AiffExactlyWhen | src/core/cwAudioFile.cpp:208-259 | Which files, by their first bytes, are read as AIFF files. |
| WavFile.HeaderHas | src/core/cwAudioFile.cpp:606-640 | The fields of a written header stand where a reader looks for them. |
| WavFile.HeaderBytes | src/core/cwAudioFile.cpp:606-640 | All 44 bytes of a header by their values, with the byte rate and the frame size, for any numbers. |
| WavFile.OpenWritten | src/core/cwAudioFile.cpp:478-527 | Opening a file with such a header gives back channels, width, rate and format, and the place of the samples if there are any. |
| WavFile.FramesFoundExactlyWhen | src/core/cwAudioFile.cpp:202-204 | The frame count comes back exactly when the file is not mono with an odd number of one-byte samples. |
| WavFile.EvenIs | src/core/cwAudioFile.cpp:202-204 | Chunk sizes are rounded up to even numbers in 32 bits. |
| WavAudio.SlotsApart | src/core/cwAudioFile.cpp:1716-1812 | No two samples overlap in the interleaved bytes. |
| WavAudio.Writer.Interleave | src/core/cwAudioFile.cpp:1711-1812 | A block holds every sample of every channel in its place. |
| WavAudio.Writer.WriteInt | src/core/cwAudioFile.cpp:1695-1831 | The file holds the audio written so far and the new frames, over all blocks of 1024: behind the header frame by frame and channel by channel, byte k of a sample of two to four bytes being v/256^k%256, and a sample of one byte (v+128)%256. |
| WavAudio.AnyBytes | src/core/cwAudioFile.cpp:699-865 | Any bytes behind a header are those of the audio whose numbers they stand for, so that what is proved of reading holds for every file. |
| WavAudio.Writer.Close | src/core/cwAudioFile.cpp:606-640 | The header is that of the samples written, which stay as they are, byte for byte. |
| WavAudio.OpenFile | src/core/cwAudioFile.cpp:443-538 | Opening a closed file gives back its format, and its frame count or, for mono files of an odd number of one-byte samples, one more. |
| WavAudio.Reopen | src/core/cwAudioFile.cpp:1459-1482 | A reader of any closed file with a frame is at the first frame of the audio written, whether its frame count is right or one too large. |
| WavAudio.Reader.ReadInt | src/core/cwAudioFile.cpp:699-865 | Every buffer gets the samples of its channel, in blocks of 8192, added or in place, and these are the two's complement numbers of the bytes in the file; the call succeeds exactly when there are enough frames, and else delivers those there are or, if the frame count is one too large, the whole blocks among them. |
| WavAudio.Reader.Seek | src/core/cwAudioFile.cpp:1585-1596 | The file stands at the frame exactly when the place of that is below 4 GB, and else at that place less a multiple of 4 GB. |
| WavAudio.RoundTrip | src/core/cwAudioFile.cpp:1459-1482 | Creating a file, any calls to write, closing, opening and reading give each buffer the samples of its channel, cut to the width, and so the channel itself exactly when all of it is in range. |
| WavAudio.SamplesComeBackExactlyWhen | src/core/cwAudioFile.cpp:805-834 | What is read is what was written exactly when all samples are in range. |
| DnsName.FormatName | apps/fdr/cwMdns.cpp:261-306 | Every label is written behind its length, with a zero behind the last; a pointer is copied. |
| DnsName.CalcPtrStringByteCount | apps/fdr/cwMdns.cpp:533-547 | The text length of the labels that a pointer leads to. |
| DnsName.CalcNameByteCount | apps/fdr/cwMdns.cpp:549-612 | The bytes that a name takes, and those of its text with a zero; and what a limit that cuts the name off does. |
| DnsName.GetPtrName | apps/fdr/cwMdns.cpp:638-655 | The labels of the other name are copied behind the text so far. |
| DnsName.GetName | apps/fdr/cwMdns.cpp:657-697 | The text of all labels, those behind a pointer too, with dots and a zero, and nothing behind it. |
| DnsName.NameRoundTripExactlyWhen | apps/fdr/cwMdns.cpp:261-306 | A written name reads as the name exactly when none of its labels is empty, or the name is. |
| DnsName.RoundTrip | apps/fdr/cwMdns.cpp:549-697 | Writing a name, counting, and reading it into a buffer of just the counted size gives its leading labels and a zero, and so the name exactly when none of its labels is empty, or the name is. |
| DnsName.PointerIs | apps/fdr/cwMdns.cpp:568-569 | For every offset x below 0x4000 the pointer bytes 0xc0+x/256 and x%256 lead to x. |
| DnsName.PointerRoundTrip | apps/fdr/cwMdns.cpp:549-697 | A name written anywhere below offset 0x4000 of a message, other bytes, and labels with a pointer to that name: the count is that of the labels, the pointer and the whole text, and what is read is the labels, a dot, the other name and a zero. |
| DnsName.TwoLabels | apps/fdr/cwMdns.cpp:261-306 | The bytes written for a.b, and for a pointer. |

## Left out

- Removal and printing in the 2-3 tree: `remove_key` is unfinished in the source. Keys are integers, one of them null.
- Value blocks and the free list of values: value chains are sequences; only the arena of nodes is modelled.
- B23Tree.TwoThreeTree.Insert: requires that the key is not the null key, as the source's own emptiness test does.
- ShiftBuf.ShiftBuffer.Exec: requires a hop of samples for a shift; the call that overruns is counted, not carried out.
- ShiftBuf.ShiftBuffer.Feed: the loop is that of the callers, with blocks of at most the announced size.
- Convolve.Apply: requires lengths for which the source's own assertions hold: a response of two samples or more, or, for an
  empty signal, one that the transform made for it takes (`src/core/cwDsp.h:456-460`); transform, product and inverse
  transform are taken as circular convolution.
- Floating-point rounding, window shapes, and the other audio transforms: samples are reals.
- WorkerPool.StepConserves: tasks are numbers and a result is known by its task; the user functions are not modelled.
- Operating-system queues and processes: queues are sequences, a get that fails is a sleep.
- RecordCache.Cache.Read: the position in the buffer is an offset, not a pointer; read errors of the device are left out.
- RecordCache.Cache.Refill: the source's assertion that the first record fits the buffer is met because all records must.
- Dataset.ReadBack: requires records that no refill tears and rows that hold whole values of the declared dimensions, which
  is exactly what `RecordCache.CacheSoundExactlyWhen` and `RowCodec.RowRoundTripExactlyWhen` ask for; the columns are handed
  from the writer to the reader without the bytes of the header.
- RowCodec.Writer.WriteRecord: the file header with labels and extreme values is left out; element counts and byte counts
  wrap at 32 bits as in the source, while offsets inside a record do not.
- Dataset batches, conversion to text, and the random access functions above the cache.
- Lexer column numbers, which restart at another base after a newline, and the conversion of tokens to numbers.
- Lexer.Lexer.RegisterMatcher: the functions of the user are pure and stay within the text.
- Characters are ASCII in the classes of the C locale.
- The chunks of AIFF files, and swapped samples: the source does not advance its buffers between blocks on that path. Float samples.
- WavFile.Open: positions are unbounded, where the source adds chunk sizes in 32 bits and so may go back for a chunk that
  claims to end past 4 GB; of the text chunk with broadcast data the bytes are kept, not its fields.
- WavAudio.Reader.ReadInt: what is read after a seek beyond 4 GB, from a place that is not that of the current frame.
- WavAudio.RoundTrip: at least one frame, and a file of less than 4 GB.
- WavAudio.Writer.Close: at most 32767 channels, since the source keeps their number in a short integer.
- Sums of samples are unbounded, where the source's may overflow; errors of the device are left out.
- DnsName.FormatName: only with dots as separators and a zero at the end; lengths over 63 are written as they are and
  fall outside the round trip.
- DnsName.GetName: requires a well-formed name of labels of at most 63 bytes, since the source reads without limits and
  takes longer lengths as signed; a pointer behind a pointer ends the name, as in the source.
- The message sizing of the DNS responder, marked as faulty by its author.
- Network applications, command lines, plotting, logging and dynamic loading.
