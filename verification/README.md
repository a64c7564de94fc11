# Verified model of the OpenDDS core

A Dafny model of the hard core of OpenDDS (the DDS middleware) with proofs of what that code is for. Three parts:

**A. DisjointSequence** — a set of sequence numbers kept as a sorted list of ranges, with the RTPS bitmap codec (the
SequenceNumberSet of section 9.4.2.6 of RTPS v2.1). `SequenceRanges` is the vocabulary; `RangeInsertion`, `RangeGaps`
and `RangeQueries` are what inserting and asking does to a list of ranges; `Bits`, `BitmapScan`, `BitmapDecode`,
`BitmapExact` and `BitmapValues` the decoder; `BitmapFill`, `BitmapEncode` and `RangeFills` the encoder;
`DisjointSequences` the class itself with its in-place loops; `BitmapRoundTrip` encoding followed by decoding;
`DisjointScenarios` calls that show the limits. `Basics` holds what several modules share.

**B. DataSampleHeader** — marshaling, parsing, the partial-header test, fragmentation and reassembly. `Wire` is the
byte order, `SampleHeaders` the layout, `HeaderOctets` the same octet by octet in plain arithmetic, `HeaderCodec` the
parser, `Fragmentation` the theory of splitting and joining, `FragmentFill` how full and how many fragments are,
`SampleSplitting` the code on octets, `TransportReassembly` the list of fragment ranges that arrivals are put into,
`ReassemblyRuns` the object that keeps such a list per sample.

**C. Protocol state machines** — `SequenceRepair`, `AssociationHandshake` and `AssociationCounts` (DataWriterImpl),
`HistoricGate`, `Liveliness`, `SampleCache` (DataReaderImpl), `EndpointMatching` and `EndpointRuns` (DiscoveryBase),
`Durability` (DataDurabilityCache). Each callback or locked section is one step; the theorems are about every run of
steps.

## What holds, and where the code departs from it

- Inserting a range adds exactly its numbers and keeps the list sorted, disjoint and merged, with two exceptions.
  First, `insert_bitmap_range` computes `first - 1` in a type that clamps 0 to 1, so a lowest range `[0..0]` is not
  merged with a range starting at 1 (`InsertBitmapRange` gives the exact condition, `ReachUnmerged` the calls).
  Second, `insert_i` at the largest number adds nothing, and erases what it should have absorbed, iff `Suppressed`
  (`ErasesLoses`, `LostAtTheEnd`). A list that may have the first flaw is called separated, one without it normal.
  Every operation is proved on every separated list, with the exact condition under which it keeps its promise:
  `missing_sequence_ranges`, the acknowledgement property of `cumulative_ack` and the inverted `to_bitmap` iff the
  list is normal; `disjoint` and `last_ack` iff it is normal or has more than two ranges; `contains`, the members
  after an insertion (the second exception aside) and the plain `to_bitmap` always. `UnmergedZero` shows what the
  others answer.
- Decoding a bitmap adds exactly the marked numbers (number 0 aside) if no all-zero word follows a word ending in 1
  (`NothingSpills`), and above all members only then (`ExactIffRunsClose`). Otherwise an all-zero word is stepped over
  without ending an open run of ones, which spills into it. `ExactIff` is the exact condition for any set, told by the
  words and the members alone; `ZeroWordSpill` is a concrete bitmap.
- The decoder reads a word past the end of the bitmap iff a run of ones ends at a number from which members reach past
  the last word: `ReadsPastIffRunEndsPast` where no all-zero word follows a word ending in 1, `ReadsPastIff` wherever
  `SpillsKnown` holds; `PastTheBitmap` is such a call.
- The list of newly added sub-ranges that `insert_i` can return is right iff `ReportsAll`; when nothing near the range
  is present but something above it is, collecting it runs off the end of the list (`Overruns`). `MisreportedGaps` has
  both.
- Encoding writes exactly the members (or gaps), except that the tail of a word that is first written by a range lying
  inside it keeps what the buffer held. `ExactIffStaleBitsZero` is the exact condition, met by every zeroed buffer;
  `StaleBit` encodes four numbers and leaves a wrong 1.
- Encoding and then decoding rebuilds the list of a set that fits iff the set is not `Interrupted`: no range above the
  lowest ends where a word ends with a word or more of numbers missing after it and members above (`RoundTrip`,
  `RunsCloseIff`). `NotRebuilt` is the set of 1, 33 and 100.
- Splitting and joining restores payload, length and flags, but returns the filter entries in order only when the cut
  fell inside the entry list; `SplitThenJoin` is the exact condition, where the header documentation promises the
  original header without condition, and `EntriesComeBackReversed` a sample. `SplitOctets` says when `split` has no
  payload, no tail or no room to work with; `SplitParts` says when repeating it makes progress.
- Fragments that arrive in any order, in two or more chunks, deliver the sample with the last chunk (`AnyOrder`). In
  general an arrival delivers iff every fragment has then arrived exactly once (`DeliveryIff`): a fragment that comes
  twice before that stalls its sample for good (`RepeatStalls`), and a first arrival is never delivered by itself.
- A data sample for an empty instance of a full cache makes the reader look at an oldest sample that is not there
  (`StoreData`, reached by `SecondInstance`).
- Removing a reader between the two association callbacks makes the writer forget it only under the condition of
  `RemovalForgets`; `StaleCompletion` shows a removed reader being completed.
- The total change of the match status is the difference from the last time a listener was told. The current change is
  so iff the count it is measured from is the one last told (`StatusOfRun`): every removal restarts it, so that a
  match is forgotten when somebody unknown is removed (`ForgottenChange`).
- Replaying durable data delivers everything iff no slot is empty (and the writer accepts it): after a cleanup timer
  has emptied a slot, `get_data` reads through its null pointer (`ReplayAfterCleanup`).

Conventions: a `std::set` or list iterator is an index, `|s|` is `end()`; integers are unbounded and 32-bit
conversions are written out; clocks, reactor timers, QoS compatibility, transport outcomes and listener presence are
parameters.

## Model

| member | source | states |
|---|---|---|
| SequenceRanges.NormalIffZeroMerged | dds/DCPS/DisjointSequence.cpp:150-197 | a list kept by the operations is in normal form iff `[0..0]` is not left next to a range starting at 1 |
| SequenceRanges.NormalUnique | dds/DCPS/DisjointSequence.h:32-58 | normal form is canonical: two lists with the same members are the same list |
| SequenceRanges.SeparatedUnique | dds/DCPS/DisjointSequence.cpp:150-197 | a list left by the operations is determined by its members and by whether 0 is merged with 1 |
| SequenceRanges.InsertedUnion | dds/DCPS/DisjointSequence.cpp:27-86 | the reference insertion adds exactly the numbers of the range |
| SequenceRanges.InsertedNormal | dds/DCPS/DisjointSequence.cpp:27-86 | the reference insertion keeps normal form |
| SequenceRanges.LowerBound | dds/DCPS/DisjointSequence.cpp:33-37 | the first range that ends at or after the number |
| SequenceRanges.SetInsert | dds/DCPS/DisjointSequence.cpp:81-85 | insertion into a std::set ordered by range end: an equal end suppresses it |
| RangeInsertion.CoveredByLowerBound | dds/DCPS/DisjointSequence.cpp:33-37 | the range is wholly present iff the single range found by lower_bound spans it |
| RangeInsertion.MergeWindowInserts | dds/DCPS/DisjointSequence.cpp:39-86 | replacing the searched window adds exactly the range, and merges 0 with 1 iff it reaches down to 1 |
| RangeInsertion.WindowInserts | dds/DCPS/DisjointSequence.cpp:39-86 | past its early return insert_i adds exactly the range and changes the list, by something new or by merging 0 with 1 |
| RangeInsertion.SuppressedErases | dds/DCPS/DisjointSequence.cpp:39-86 | when range and highest range both end at the largest number and are not merged, what the range would have absorbed is erased and the range is not inserted |
| RangeInsertion.ErasesLoses | dds/DCPS/DisjointSequence.cpp:39-86 | such an insertion adds no number and leaves nothing between its start and the highest range |
| DisjointSequences.DisjointSequence.FindWindow | dds/DCPS/DisjointSequence.cpp:39-60 | the window the range absorbs and its replacement, also where incrementing the largest number wraps |
| DisjointScenarios.LostAtTheEnd | dds/DCPS/DisjointSequence.cpp:39-86 | inserting 4 up to the largest number into 3..5 and 10 up to the largest number loses 3 to 5 |
| RangeGaps.GapsExactIff | dds/DCPS/DisjointSequence.cpp:62-79 | the gaps collected from a non-empty window are exactly what is new iff the first range absorbed ends by the start of the new one or is a single number other than 1, and 0 and 1 are not absorbed unmerged |
| RangeGaps.RestExact | dds/DCPS/DisjointSequence.cpp:68-78 | the gaps after the first one are exactly what is missing between the ranges absorbed and up to the end |
| RangeGaps.OverrunsIff | dds/DCPS/DisjointSequence.cpp:62-75 | the gap iterator passes its end iff nothing in or next to the range is present but something above it is |
| RangeInsertion.InsertedIsUnique | dds/DCPS/DisjointSequence.cpp:27-86 | a normal list with the right members is the reference insertion |
| RangeInsertion.IterWindowInserts | dds/DCPS/DisjointSequence.cpp:150-197 | replacing the walked window adds exactly the range; normal form is lost iff the clamp hides a neighbour 0 |
| RangeInsertion.IterFindsHole | dds/DCPS/DisjointSequence.cpp:161-179 | the range at the iterator spans the new one iff nothing new is inserted |
| DisjointSequences.DisjointSequence.constructor | dds/DCPS/DisjointSequence.inl:53-57 | starts empty |
| DisjointSequences.DisjointSequence.InsertI | dds/DCPS/DisjointSequence.cpp:27-86 | rejects an inverted range, overruns iff asked for gaps next to nothing; otherwise, unless Suppressed, old set union the range, true iff the list changed, the list of the reference insertion on normal lists, and the gaps exactly what is new iff ReportsAll; if Suppressed, true and Erases |
| DisjointSequences.DisjointSequence.CollectGaps | dds/DCPS/DisjointSequence.cpp:62-79 | the loop yields the gaps of the window |
| DisjointScenarios.MisreportedGaps | dds/DCPS/DisjointSequence.cpp:27-86 | inserting 3..10 into 5..8 does not report what is new, and inserting 1 there overruns |
| DisjointSequences.DisjointSequence.Seek | dds/DCPS/DisjointSequence.cpp:158-168 | walking from a left-behind iterator finds the same place as a fresh search |
| DisjointSequences.DisjointSequence.RightEdge | dds/DCPS/DisjointSequence.cpp:181-190 | the right edge and high end of the ranges the new one absorbs |
| DisjointSequences.DisjointSequence.InsertBitmapRange | dds/DCPS/DisjointSequence.cpp:150-197 | same set and same boolean as the searched insertion, same list iff not ClampMiss, and the iterator ends on the range holding the new one |
| DisjointSequences.DisjointSequence.InsertBitmap | dds/DCPS/DisjointSequence.cpp:88-148 | the word-skipping, range-skipping decoder terminates with old set union exactly the marked numbers (in binary digits of the words where no zero word follows an odd one), true iff the set grew, normal form kept iff 1 is not next to a hidden 0, and reads a word past the bitmap iff a run ends in a range reaching past it |
| DisjointSequences.DisjointSequence.CloseRun | dds/DCPS/DisjointSequence.cpp:120-137 | inserting a run and skipping to the end of its range loses no position, and tells whether the skip read past the bitmap |
| DisjointSequences.DisjointSequence.SkipAhead | dds/DCPS/DisjointSequence.cpp:128-136 | index, bit and word after the skip, and that the word lies past the bitmap iff the range does |
| BitmapDecode.RunClosesOnce | dds/DCPS/DisjointSequence.cpp:128-136 | ending a run reads past the bitmap iff the range it ends in reaches past it |
| DisjointScenarios.SkipAheadRestarts | dds/DCPS/DisjointSequence.cpp:128-136 | with a range ending 2^32 - 1 past the base each pass of the decoder returns to bit 0 with the same set and iterator |
| DisjointSequences.DisjointSequence.InsertRun | dds/DCPS/DisjointSequence.cpp:120-147 | inserting an open run settles all positions before it |
| BitmapScan.AcrossZeroWord | dds/DCPS/DisjointSequence.cpp:102-112 | stepping over an all-zero word leaves an open run open across all its positions |
| BitmapScan.AcrossCoveredRange | dds/DCPS/DisjointSequence.cpp:120-137 | a run ended by an already present number skips exactly the rest of that number's range |
| BitmapScan.NothingSpills | dds/DCPS/DisjointSequence.cpp:102-112 | if no all-zero word follows a word ending in 1, only set bits are inserted, into any set |
| BitmapScan.ExactIffRunsClose | dds/DCPS/DisjointSequence.cpp:102-112 | above all members the decoder inserts exactly the set bits iff no all-zero word follows a word ending in 1 and number 0 is not asked for |
| BitmapValues.DecodedByValue | dds/DCPS/DisjointSequence.cpp:88-148 | where no zero word follows an odd word, decoding adds to any set exactly the numbers whose binary digit of weight 2^(31 - k % 32) in word k / 32 is 1 |
| Bits.RowIsBinary | dds/DCPS/DisjointSequence.cpp:114-116 | the bits of a word, read from the most significant one, are the binary digits of its integer value |
| Bits.BitByValue | dds/DCPS/DisjointSequence.cpp:114-116 | bit b of a word is its digit of weight 2^(31 - b), for every word and b |
| Bits.SetBits | dds/DCPS/DisjointSequence.cpp:270-275 | setting a run of bits changes exactly those bits |
| Bits.ClearBits | dds/DCPS/DisjointSequence.cpp:259-268 | clearing a run of bits changes exactly those bits |
| DisjointScenarios.ThirdBit | dds/DCPS/DisjointSequence.cpp:88-148 | the bitmap 0x20000000 at 10 inserts 12 |
| BitmapExact.ExactIff | dds/DCPS/DisjointSequence.cpp:88-148 | into any set the decoder inserts exactly the set bits iff SpillsKnown, a condition on words and members, holds and number 0 is not asked for in vain |
| BitmapExact.NoNewSpillIff | dds/DCPS/DisjointSequence.cpp:102-136 | nothing new is spilled into iff after every 1 followed by all-zero words their numbers are members or a run ended earlier in the stretch of members of the 1 |
| BitmapExact.EndsBeforeSkips | dds/DCPS/DisjointSequence.cpp:120-136 | a run that ends in a stretch of members makes the decoder skip the rest of the stretch |
| BitmapExact.SkipsOnlyFor | dds/DCPS/DisjointSequence.cpp:120-136 | nothing else makes it skip, as long as nothing new was spilled into |
| BitmapExact.ReadsPastIff | dds/DCPS/DisjointSequence.cpp:128-136 | where nothing new is spilled into, a word past the bitmap is read iff a run, with the zero words it spills over, ends at a number from which members reach past the last word |
| BitmapExact.ReadsPastIffRunEndsPast | dds/DCPS/DisjointSequence.cpp:128-136 | if no all-zero word follows a word ending in 1: iff a 1 is followed by a 0 whose number starts a stretch of members reaching past the last word |
| BitmapExact.EndsPastReads | dds/DCPS/DisjointSequence.cpp:128-136 | such an end of a run reads past the bitmap whatever else is spilled |
| DisjointScenarios.PastTheBitmap | dds/DCPS/DisjointSequence.cpp:128-136 | a bitmap of one word and two bits at 10, inserted into 11..100, reads a second word |
| BitmapScan.ZeroWordSpill | dds/DCPS/DisjointSequence.cpp:102-112 | a 34-bit bitmap whose decoding inserts a number whose bit is 0 |
| BitmapDecode.DecodeSkipAhead | dds/DCPS/DisjointSequence.cpp:128-136 | the skip-ahead lands on the first position not decided by the range, or past the bitmap |
| BitmapDecode.SettleRun | dds/DCPS/DisjointSequence.cpp:120-147 | an inserted run makes the set agree with the bitmap up to it |
| BitmapFill.FillBitmapRange | dds/DCPS/DisjointSequence.cpp:233-294 | for any low, also below num_bits: marks the range clamped to the bitmap, true iff it fitted, and says bit by bit what happens to everything else |
| BitmapFill.MarkRange | dds/DCPS/DisjointSequence.cpp:247-294 | word by word the result is the specified fill |
| BitmapFill.LowWord | dds/DCPS/DisjointSequence.cpp:259-275 | the low word keeps earlier bits, clears the gap before the range, sets the range |
| BitmapEncode.EncodeOneMore | dds/DCPS/DisjointSequence.cpp:233-294 | one more ascending range extends the encoding by exactly that range, whatever the buffer held |
| BitmapEncode.EncodingDone | dds/DCPS/DisjointSequence.cpp:199-231 | after the last range that fits, every bit below num_bits is right except stale ones, and nothing marked lies above |
| BitmapEncode.ExactIffStaleBitsZero | dds/DCPS/DisjointSequence.cpp:259-275 | the bitmap is exact iff the buffer held no 1 at a stale position; always on a zeroed buffer |
| DisjointScenarios.StaleBit | dds/DCPS/DisjointSequence.cpp:247-294 | inserting 1, 3, 40 and 80 and encoding them into a buffer of ones sets exactly the bits of 3, 40 and 80 and leaves bits 39 to 63 set, which stand for 41 to 65 |
| RangeFills.FillsCoverWanted | dds/DCPS/DisjointSequence.cpp:199-231 | the positions handed to fill_bitmap_range are exactly the members above the base, or, inverted, the gaps between them |
| RangeFills.WantedBeyond | dds/DCPS/DisjointSequence.cpp:210-231 | a fill that does not fit means a wanted number was left out, and the last one fitting means none was |
| RangeFills.FilledTells | dds/DCPS/DisjointSequence.cpp:199-231 | both kinds of bitmap are exact up to num_bits, nothing wanted lies between num_bits and the end, and the answer says whether anything lies beyond |
| RangeFills.TellsIff | dds/DCPS/DisjointSequence.cpp:199-231 | from a zeroed buffer the bitmap tells exactly the members, or inverted the gaps, iff it is not inverted or the list is normal |
| RangeFills.EncodedByValue | dds/DCPS/DisjointSequence.cpp:199-231 | from a zeroed buffer binary digit k is 1 iff the number k above the lowest range is a member or, inverted, a gap; nothing wanted lies between num_bits and the end, and the answer says whether anything lies beyond |
| DisjointSequences.DisjointSequence.FillBounds | dds/DCPS/DisjointSequence.cpp:205-226 | the bounds after conversion to 32 bits: unchanged, except that the gap of -1 between 0 and 1 becomes everything |
| DisjointSequences.DisjointSequence.ToBitmap | dds/DCPS/DisjointSequence.cpp:199-231 | encodes all wanted positions that fit, also when it returns false, and returns true iff none was left out; in binary digits of the words from a zeroed buffer; inverted on a list that is not normal it writes all ones and returns false |
| DisjointSequences.DisjointSequence.MarkAll | dds/DCPS/DisjointSequence.cpp:205-231 | the loop hands every range that starts inside the bitmap to fill_bitmap_range, in order |
| BitmapRoundTrip.Rebuilt | dds/DCPS/DisjointSequence.cpp:88-231 | decoding an encoded set over its lowest range rebuilds its list, merged or not, iff no all-zero word follows a word ending in 1 |
| BitmapRoundTrip.RunsCloseIff | dds/DCPS/DisjointSequence.cpp:88-231 | the bitmap of a set that fits has no all-zero word after a word ending in 1 iff the set is not interrupted |
| BitmapRoundTrip.RoundTrip | dds/DCPS/DisjointSequence.cpp:88-231 | to_bitmap then insert rebuilds the range list of any set that fitted iff the set is not interrupted |
| DisjointScenarios.NotRebuilt | dds/DCPS/DisjointSequence.cpp:88-231 | the set of 1, 33 and 100, built by insertion, is not rebuilt |
| DisjointSequences.DisjointSequence.Low | dds/DCPS/DisjointSequence.inl:13-17 | the least member |
| DisjointSequences.DisjointSequence.High | dds/DCPS/DisjointSequence.inl:19-23 | the greatest member |
| DisjointSequences.DisjointSequence.CumulativeAck | dds/DCPS/DisjointSequence.inl:25-31 | everything from the least member to it is present, and the next number is missing iff the list is normal; SEQUENCENUMBER_UNKNOWN if empty |
| DisjointSequences.DisjointSequence.LastAck | dds/DCPS/DisjointSequence.inl:33-39 | everything from it to the greatest member is present, and the number before it is missing iff the list is normal or has more than two ranges; SEQUENCENUMBER_UNKNOWN if empty |
| DisjointSequences.DisjointSequence.Disjoint | dds/DCPS/DisjointSequence.inl:47-51 | right about an internal gap iff the list is normal or has more than two ranges |
| RangeQueries.GapIffManyRanges | dds/DCPS/DisjointSequence.inl:47-51 | more than one range means a gap iff the list is normal or has more than two ranges |
| DisjointSequences.DisjointSequence.Contains | dds/DCPS/DisjointSequence.cpp:327-333 | membership |
| DisjointSequences.DisjointSequence.MissingSequenceRanges | dds/DCPS/DisjointSequence.cpp:296-317 | present and missing ranges partition the span of the set iff the list is normal; otherwise everything from 1 on is reported missing ahead of the gaps |
| RangeQueries.MissedExactIff | dds/DCPS/DisjointSequence.cpp:296-317 | the missing ranges are exactly the gaps iff the list is normal; otherwise 1 up to the largest number is reported first |
| DisjointScenarios.RebuildFromPresent | dds/DCPS/DisjointSequence.cpp:319-325 | inserting the present ranges one by one into an empty set gives the same members, and the same list iff it was normal |
| DisjointScenarios.ReachUnmerged | dds/DCPS/DisjointSequence.cpp:150-174 | inserting 0 and then a bitmap for 1 leaves two ranges |
| DisjointScenarios.UnmergedZero | dds/DCPS/DisjointSequence.cpp:199-317 | on that list: a gap that is not there, an acknowledgement of 0 with 1 present, 1 up to the largest number missing, and gaps encoded as all ones |
| Wire.AcrossHosts | dds/DCPS/Serializer.inl:622-636 | a number written by any host and read by any host comes back, and the bytes between depend only on the declared order |
| SampleHeaders.FlagsRoundTrip | dds/DCPS/DataSampleHeader.cpp:193-308 | the ten flags come back from the two octets they are packed into |
| HeaderOctets.FlagsByValue | dds/DCPS/DataSampleHeader.h:57-70 | for any two octets, which binary digit of which octet each of the ten flags is read from |
| HeaderOctets.FlagOctets | dds/DCPS/DataSampleHeader.cpp:291-308 | the two octets written are 1, 2, 4, ... 128 and 1, 2 times the flags in their order |
| HeaderOctets.U32ByValue | dds/DCPS/Serializer.inl:622-636 | on every host a number is read as its four octets weighted little-endian iff bit 0 of octet 2 is 1, else big-endian |
| HeaderOctets.Put32ByValue | dds/DCPS/Serializer.inl:622-636 | on every host the four octets written weigh up to the number |
| HeaderOctets.CompleteByOctets | dds/DCPS/DataSampleHeader.cpp:120-170 | a buffer is complete iff it is as long as digits 8, 16 and 32 of octet 2 and its count of entries say |
| HeaderOctets.PartialByOctets | dds/DCPS/DataSampleHeader.cpp:120-170 | partial is false exactly on buffers with message id below 12, submessage id below 5 and that length |
| HeaderOctets.LayoutByOctets | dds/DCPS/DataSampleHeader.cpp:172-283 | every field read from a complete buffer, with its offset, width, order and sign in plain arithmetic |
| HeaderOctets.AbsentKept | dds/DCPS/DataSampleHeader.cpp:248-282 | fields declared absent keep their old values |
| HeaderOctets.MarshalByOctets | dds/DCPS/DataSampleHeader.cpp:285-359 | every field written, in the same arithmetic, with the payload behind |
| HeaderOctets.MarshaledOctets | dds/DCPS/DataSampleHeader.cpp:285-312 | octets 2 and 3 as sums of flags and octets 4 to 7 as the length in the declared order |
| SampleHeaders.MarshalLength | dds/DCPS/DataSampleHeader.cpp:285-359 | size of a marshaled header with its entries |
| SampleHeaders.MarshalIsComplete | dds/DCPS/DataSampleHeader.cpp:172-359 | a marshaled header is recognised as complete by any host, its length is the marshaled size, and the payload follows |
| SampleHeaders.LayoutOfMarshal | dds/DCPS/DataSampleHeader.cpp:172-359 | for every header, both byte orders and any pair of hosts, every marshaled field comes back |
| SampleHeaders.PartialIffIncomplete | dds/DCPS/DataSampleHeader.cpp:120-170 | on every buffer partial is the exact negation of holding a whole header with valid ids, whatever the uninitialised length |
| SampleHeaders.CompletePrefix | dds/DCPS/DataSampleHeader.cpp:120-170 | a prefix is complete iff it reaches the end of the header |
| SampleHeaders.PartialOnPrefixes | dds/DCPS/DataSampleHeader.cpp:120-170 | partial is true on exactly the proper prefixes of a valid header's encoding |
| HeaderCodec.DataSampleHeader.Init | dds/DCPS/DataSampleHeader.cpp:172-283 | on every complete buffer the fields are what the octets say in plain arithmetic, absent ones keep their values, exactly the header is consumed and the payload left |
| HeaderCodec.DataSampleHeader.InitFields | dds/DCPS/DataSampleHeader.cpp:172-283 | the step-by-step parser yields the layout's fields |
| HeaderCodec.LayoutBySteps | dds/DCPS/DataSampleHeader.cpp:172-283 | reading a complete header in these steps gives its layout |
| HeaderCodec.DataSampleHeader.InitMessage | dds/DCPS/DataSampleHeader.cpp:175-191 | the two ids, or failure iff they are not both there |
| HeaderCodec.DataSampleHeader.InitFlags | dds/DCPS/DataSampleHeader.cpp:193-221 | the ten flags, or failure iff the two octets are not both there |
| HeaderCodec.DataSampleHeader.InitTimes | dds/DCPS/DataSampleHeader.cpp:223-246 | length, sequence number and timestamp, or failure iff they are not all there |
| HeaderCodec.DataSampleHeader.InitLifespan | dds/DCPS/DataSampleHeader.cpp:248-260 | the lifespan iff flagged |
| HeaderCodec.DataSampleHeader.InitIds | dds/DCPS/DataSampleHeader.cpp:262-275 | publication id, and publisher id iff flagged |
| HeaderCodec.DataSampleHeader.InitEntries | dds/DCPS/DataSampleHeader.cpp:277-282 | the filter entries iff flagged, or failure iff they are not all there |
| SampleSplitting.AddCfentries | dds/DCPS/DataSampleHeader.cpp:336-359 | the entries are chained between header block and continuation; null entries are an empty list |
| SampleSplitting.WriteSample | dds/DCPS/DataSampleHeader.cpp:285-359 | header block, flagged entries and continuation together are a marshaled sample |
| SampleSplitting.ReadHeader | dds/DCPS/DataSampleHeader.cpp:172-283 | reading a marshaled sample gives back its header and payload |
| SampleSplitting.SplitOctets | dds/DCPS/DataSampleHeader.cpp:387-456 | for every sample and size: no payload, no tail or wrapped room for entries, each iff its condition; otherwise the two marshaled blocks of the specified split, the first exactly size octets long for a payload cut and less than 16 short of it for an entry cut |
| SampleSplitting.CutEntries | dds/DCPS/DataSampleHeader.cpp:406-434 | with no room for payload the entry list is cut, last entries first |
| SampleSplitting.CutPayload | dds/DCPS/DataSampleHeader.cpp:436-456 | otherwise the payload is cut where the head is full |
| SampleSplitting.TakeEntries | dds/DCPS/DataSampleHeader.cpp:412-421 | the loop takes the last entries in reverse and leaves the others |
| SampleSplitting.JoinHeaders | dds/DCPS/DataSampleHeader.cpp:458-477 | refuses unless first is flagged as continued and the sequence numbers agree; otherwise second with both lengths added modulo 2^32 and the entries of first appended in reverse |
| Fragmentation.SplitParts | dds/DCPS/DataSampleHeader.cpp:361-456 | payload and bag of entries are preserved, the head fits, both parts describe themselves, and the tail is strictly smaller iff there was room for an entry or an octet |
| Fragmentation.SplitFlags | dds/DCPS/DataSampleHeader.cpp:387-456 | only length, fragment and filter information changes; head continues, tail does not |
| FragmentFill.SplitFills | dds/DCPS/DataSampleHeader.cpp:387-456 | a payload cut fills the head to exactly the size and gives it all entries; an entry cut takes the last entries, as many as fit, and no payload |
| FragmentFill.FragmentsFilled | dds/DCPS/transport/framework/TransportQueueElement.cpp:42-58 | every fragment but the last wastes fewer than 16 octets |
| FragmentFill.FragmentCount | dds/DCPS/transport/framework/TransportQueueElement.cpp:42-58 | the number of fragments is the payload divided by the room per fragment, rounded up; with filter entries it is bounded likewise |
| Fragmentation.SplitThenJoin | dds/DCPS/DataSampleHeader.h:204-214 | one split then join restores the header iff the cut fell inside the entries or they read the same backwards; all else is always restored |
| Fragmentation.CutEntriesThenJoin | dds/DCPS/DataSampleHeader.cpp:387-477 | entries cut: the header is restored exactly |
| Fragmentation.CutPayloadThenJoin | dds/DCPS/DataSampleHeader.cpp:387-477 | payload cut: the header is restored with its entries reversed |
| Fragmentation.EntriesComeBackReversed | dds/DCPS/DataSampleHeader.cpp:387-477 | a sample whose two entries are swapped after one split and one join |
| Fragmentation.FragmentsHoldSample | dds/DCPS/transport/framework/TransportQueueElement.cpp:42-58 | repeated splitting ends; every fragment fits, all but the last are flagged, together they hold the payload and the bag of entries |
| Fragmentation.JoinAnyBracketing | dds/DCPS/transport/framework/TransportReassembly.cpp:64-118 | however joins of neighbouring fragments are bracketed, the result is the same up to the order of entries |
| Fragmentation.Reassembly | dds/DCPS/DataSampleHeader.cpp:361-477 | fragmenting and joining in any bracketing restores payload, length, flags and the bag of entries |
| SampleSplitting.FragmentOctets | dds/DCPS/transport/framework/TransportQueueElement.cpp:42-58 | splitting the tail of marshaled octets until it fits yields exactly the specified fragments |
| SampleSplitting.ReassembleOctets | dds/DCPS/DataSampleHeader.cpp:458-477 | parsing and left-folding join over the octets of the fragments gives back payload, header and bag of entries |
| TransportReassembly.FragmentIsChunk | dds/DCPS/transport/framework/TransportReassembly.cpp:216-223 | a single fragment under its own number is a chunk of its sample |
| TransportReassembly.JoinChunks | dds/DCPS/transport/framework/TransportReassembly.cpp:64-118 | neighbouring chunks always join, to a chunk |
| TransportReassembly.PutCounts | dds/DCPS/transport/framework/TransportReassembly.cpp:45-148 | insertion, overlapping or not, neither loses nor invents a fragment number; a failed join loses none |
| TransportReassembly.PutSpaced | dds/DCPS/transport/framework/TransportReassembly.cpp:45-148 | inserting a range that overlaps nothing keeps the list in order with a gap between neighbours |
| TransportReassembly.PutChunks | dds/DCPS/transport/framework/TransportReassembly.cpp:45-148 | inserting a chunk of a sample among chunks of it never fails, and every range still holds the joined header and the payload of its fragments |
| TransportReassembly.Insert | dds/DCPS/transport/framework/TransportReassembly.cpp:45-148 | the walk over the list does the specified insertion, errors included |
| TransportReassembly.CoalesceNext | dds/DCPS/transport/framework/TransportReassembly.cpp:107-138 | the range that follows is joined iff it now meets |
| TransportReassembly.WholeIff | dds/DCPS/transport/framework/TransportReassembly.cpp:254-262 | one range with the first fragment and no more-fragments flag means that every fragment is held exactly once |
| TransportReassembly.DeliveryIff | dds/DCPS/transport/framework/TransportReassembly.cpp:225-276 | for every sequence of chunks, in any order and overlap, none delivered so far: the last one delivers iff it is not the only one and every fragment has arrived exactly once; otherwise exactly what arrived is kept |
| TransportReassembly.AnyOrder | dds/DCPS/transport/framework/TransportReassembly.cpp:225-276 | the fragments of any sample, in two or more chunks in any order: only the last arrival delivers, it delivers payload, header and bag of entries, and nothing is kept |
| TransportReassembly.RepeatStalls | dds/DCPS/transport/framework/TransportReassembly.cpp:225-276 | a fragment that came twice before the sample was complete: no later arrival ever delivers it |
| ReassemblyRuns.KeysDiffer | dds/DCPS/transport/framework/TransportReassembly.cpp:238-238 | two chunks have the same key iff publication and sequence number both agree |
| ReassemblyRuns.Reassembler.Take | dds/DCPS/transport/framework/TransportReassembly.cpp:238-276 | one arrival for its key; other keys are untouched |
| ReassemblyRuns.Reassembler.ReassembleI | dds/DCPS/transport/framework/TransportReassembly.cpp:225-276 | whatever arrived before, what is kept for every sample and what this arrival delivers is what the arrivals of that sample alone would give |
| ReassemblyRuns.Reassembler.Reassemble | dds/DCPS/transport/framework/TransportReassembly.cpp:209-214 | the same where fragments are numbered from 1 |
| ReassemblyRuns.ReassembleAll | dds/DCPS/transport/framework/TransportReassembly.cpp:225-276 | over a whole run of interleaved samples every arrival delivers what the arrivals of its own sample give |
| ReassemblyRuns.EachSampleDelivered | dds/DCPS/transport/framework/TransportReassembly.cpp:225-276 | for any interleaving, of the arrivals of a sample exactly the last one delivers, and it delivers that sample |
| SequenceRepair.SoundAt | dds/DCPS/DataWriterImpl.cpp:1733-1860 | a sound run is sound at each of its messages |
| SequenceRepair.GapIffRepair | dds/DCPS/DataWriterImpl.cpp:2653-2680 | in every run numbers are consecutive, and a message carries the repair flag iff it leaves a gap for some current reader, addressed or not |
| SequenceRepair.RepairIffMissed | dds/DCPS/DataWriterImpl.cpp:2653-2680 | told by the events: the flag is raised iff the message is not the first and some current reader was not sent the number before it since it joined |
| SequenceRepair.JoinerNeedsRepair | dds/DCPS/DataWriterImpl.cpp:331-372 | the first message after a reader joins a writer that has sent something carries the flag, unless the last number is sent to that reader again |
| SequenceRepair.CurrentIff | dds/DCPS/DataWriterImpl.cpp:217-224 | the current readers are those that joined and did not leave since |
| SequenceRepair.DataWriter.AddReader | dds/DCPS/DataWriterImpl.cpp:217-224 | a joining reader keeps the run sound; joining twice changes nothing |
| SequenceRepair.DataWriter.RemoveReader | dds/DCPS/DataWriterImpl.cpp:593-664 | a leaving reader keeps the run sound |
| SequenceRepair.DataWriter.NeedSequenceRepair | dds/DCPS/DataWriterImpl.cpp:2660-2678 | true iff some reader expects another number than the last one used |
| SequenceRepair.DataWriter.TakeNumber | dds/DCPS/DataWriterImpl.cpp:2095-2108 | the next number, with the flag decided before it is taken |
| SequenceRepair.DataWriter.TrackSequenceNumber | dds/DCPS/DataWriterImpl.cpp:1829-1860 | exactly the readers not filtered out now expect the current number |
| SequenceRepair.DataWriter.Write | dds/DCPS/DataWriterImpl.cpp:1733-1822 | appends one message with its number, flag and addressees to the run and keeps it sound, also when enqueuing fails |
| SequenceRepair.DataWriter.Control | dds/DCPS/DataWriterImpl.cpp:2000-2050 | a numbered control message addresses all readers; the others take no number |
| SequenceRepair.DataWriter.Resend | dds/DCPS/DataWriterImpl.cpp:540-556 | a durable reader's expected number rises to the highest resent one |
| AssociationHandshake.RunConsistent | dds/DCPS/DataWriterImpl.cpp:253-710 | in every interleaving the two waiting sets are disjoint, handle keys are the readers, and current_count is their number |
| AssociationHandshake.RemovalChangesCount | dds/DCPS/DataWriterImpl.cpp:665-692 | the count changes iff a fully associated reader was removed, so the last-handle index is in range |
| AssociationHandshake.ExactlyOnce | dds/DCPS/DataWriterImpl.cpp:253-411 | without removal the two callbacks, in either order and with anything in between, complete a reader exactly once; one alone leaves it waiting |
| AssociationHandshake.NeverWithoutBoth | dds/DCPS/DataWriterImpl.cpp:253-411 | in every run, removals included, a reader completes at most as often as each callback came |
| AssociationHandshake.RemovalForgets | dds/DCPS/DataWriterImpl.cpp:593-664 | removal forgets a reader iff no association_complete is stored for it and it is not both associated and pending |
| AssociationHandshake.StaleCompletion | dds/DCPS/DataWriterImpl.cpp:593-664 | a removed reader that is completed by the transport callback of its next association |
| AssociationCounts.CallbackStatus | dds/DCPS/DataWriterImpl.cpp:412-531 | a newly matched reader is counted in both counts and changes and named by the last handle, a listener zeroing the changes; any other callback leaves the status alone |
| AssociationCounts.RemovalStatus | dds/DCPS/DataWriterImpl.cpp:674-705 | total_count stays, current_count is the number of readers left, and the last handle is that of the associated reader named last in the list |
| AssociationCounts.RemovalLeaves | dds/DCPS/DataWriterImpl.cpp:630-664 | exactly which readers stay associated, pending and stored after removing any list |
| AssociationCounts.StatusOfRun | dds/DCPS/DataWriterImpl.cpp:253-710 | in every run total_count is the number of readers newly matched, total_count_change the difference from the last listener call, and current_count_change so iff no removal restarted it from another count |
| AssociationCounts.HandlesOfRun | dds/DCPS/DataWriterImpl.cpp:412-480 | every handle kept is the participant's handle of its reader |
| AssociationCounts.ForgottenChange | dds/DCPS/DataWriterImpl.cpp:674-684 | removing somebody unknown makes the status forget a match nobody was told of |
| AssociationHandshake.DataWriter.TransportAssocDone | dds/DCPS/DataWriterImpl.cpp:253-330 | the specified step; a failed association and the passive side change nothing |
| AssociationHandshake.DataWriter.AssociationCompleteCallback | dds/DCPS/DataWriterImpl.cpp:373-411 | the specified step |
| AssociationHandshake.DataWriter.AssociationCompleteI | dds/DCPS/DataWriterImpl.cpp:412-531 | the reader is associated and counted once, however often this is called, and a listener consumes the changes |
| AssociationHandshake.DataWriter.RemoveAssociations | dds/DCPS/DataWriterImpl.cpp:593-710 | the specified step, keeping the writer consistent, with duplicates and unknown ids allowed |
| AssociationHandshake.DataWriter.UpdateStatus | dds/DCPS/DataWriterImpl.cpp:674-705 | the status after a removal, the last handle read only if a reader was fully associated, the changes consumed by the listener asked |
| AssociationHandshake.DataWriter.TakeOut | dds/DCPS/DataWriterImpl.cpp:630-664 | each id leaves the associated readers or else the pending ones |
| HistoricGate.InsertKeepsOrder | dds/DCPS/DataReaderImpl.cpp:3207-3217 | held samples stay in ascending order, one per number, the first one winning |
| HistoricGate.WhileWaiting | dds/DCPS/DataReaderImpl.cpp:3207-3225 | while waiting nothing is processed, and the first sample of every number is held in ascending order |
| HistoricGate.WholeRun | dds/DCPS/DataReaderImpl.cpp:3186-3235 | in a whole run the held samples are processed once, marked historic, at the first resume; later resumes do nothing |
| HistoricGate.RunPlainly | dds/DCPS/DataReaderImpl.cpp:3186-3235 | told by the events: first every number received while waiting, once, ascending and marked historic; then exactly what is historic itself or newer than all of these, in order of arrival |
| HistoricGate.NoLiveDuplicate | dds/DCPS/DataReaderImpl.cpp:3217-3223 | no live sample with a number up to the last delivered as history is processed |
| HistoricGate.Hold | dds/DCPS/DataReaderImpl.cpp:3213-3216 | the search puts a sample where the ordered map does |
| HistoricGate.WriterInfo.CheckHistoric | dds/DCPS/DataReaderImpl.cpp:3207-3225 | a sample passes iff the gate is open and it does not repeat delivered history; while waiting it is held |
| HistoricGate.WriterInfo.DataReceived | dds/DCPS/DataReaderImpl.cpp:3207-3225 | the specified step |
| HistoricGate.WriterInfo.ResumeSampleProcessing | dds/DCPS/DataReaderImpl.cpp:3186-3205 | the specified step, from the control message or the timer |
| HistoricGate.WriterInfo.DeliverHistoric | dds/DCPS/DataReaderImpl.cpp:3227-3235 | re-entering data_received, every held sample passes the gate in order |
| Liveliness.CountUpdate | dds/DCPS/DataReaderImpl.cpp:2096-2243 | changing a writer's state moves one writer between the counts |
| Liveliness.DataReader.AddWriter | dds/DCPS/DataReaderImpl.cpp:254-270 | an added writer is in neither count |
| Liveliness.DataReader.WriterBecameAlive | dds/DCPS/DataReaderImpl.cpp:2096-2168 | counts stay equal to the numbers of writers per state, changes to the difference from the last look, and the negative-count exit is unreachable |
| Liveliness.DataReader.WriterBecameDead | dds/DCPS/DataReaderImpl.cpp:2170-2243 | the same for a writer becoming dead |
| Liveliness.DataReader.RemoveWriter | dds/DCPS/DataReaderImpl.cpp:2052-2094 | the same for a removed writer |
| Liveliness.DataReader.NotifyLivelinessChange | dds/DCPS/DataReaderImpl.cpp:2760-2774 | a listener consumes the changes; without one they accumulate |
| Liveliness.DataReader.GetLivelinessChangedStatus | dds/DCPS/DataReaderImpl.cpp:983-997 | returns the true counts and what changed since the last look, and restarts the changes |
| SampleCache.SumUpdate | dds/DCPS/DataReaderImpl_T.h:1870-1882 | changing one instance changes the total by the difference |
| SampleCache.StoredWithinLimits | dds/DCPS/DataReaderImpl_T.h:1819-1995 | a stored data sample never takes its instance beyond its old length and both limits, nor the cache beyond its old total and max_samples |
| SampleCache.DataReader.CountSamples | dds/DCPS/DataReaderImpl_T.h:1870-1882 | the number of samples in all instances |
| SampleCache.DataReader.MakeRoom | dds/DCPS/DataReaderImpl_T.h:1822-1929 | reads an absent oldest sample iff max_samples is hit and the instance is empty; refuses iff a limit is hit and the oldest sample is unread; otherwise discards at most a read sample |
| SampleCache.FullPlainly | dds/DCPS/DataReaderImpl_T.h:1822-1929 | on the lists: at a limit an unread oldest sample refuses the new one, a read one is given up, and only that |
| SampleCache.DataReader.StoreData | dds/DCPS/DataReaderImpl_T.h:1819-1995 | stored, counted rejected, or stopped at an absent oldest sample, each iff its condition on the lists; exactly which samples are there afterwards; the one that depth drops counted lost iff unread; and every sample that arrived is unread, seen, lost or rejected |
| SampleCache.SecondInstance | dds/DCPS/DataReaderImpl_T.h:1870-1896 | with room for one sample in all, the first sample of a second instance reaches that case |
| SampleCache.DataReader.StoreControl | dds/DCPS/DataReaderImpl_T.h:1931-1965 | dispose and unregister are exempt from limits and stored iff they change the instance state |
| SampleCache.DataReader.ReadSample | dds/DCPS/DataReaderImpl_T.h:255-275 | reading keeps the account of samples |
| SampleCache.DataReader.TakeSample | dds/DCPS/DataReaderImpl_T.h:338-360 | taking keeps the account of samples |
| EndpointMatching.MatchPairDecides | dds/DCPS/DiscoveryBase.h:755-1070 | matching one pair decides exactly that pair, from what is known, compatible, deferred and matched already |
| EndpointMatching.MatchPairConsistent | dds/DCPS/DiscoveryBase.h:921-1058 | both sides are updated together |
| EndpointMatching.MatchedPlainly | dds/DCPS/DiscoveryBase.h:906-919 | after a match loop two local endpoints list each other iff compatible, and a local one lists a remote one iff compatible and it did so already or the remote one is not deferred |
| EndpointMatching.RegisterConsistent | dds/DCPS/DiscoveryBase.h:318-400 | a fresh local endpoint starts unmatched, on its topic iff permitted |
| EndpointMatching.DiscoverConsistent | dds/DCPS/RTPS/Sedp.cpp:1640-1678 | a discovered endpoint, of consistent type or not, disturbs no match |
| EndpointMatching.ForgetForgets | dds/DCPS/DiscoveryBase.h:205-244 | a removed or ignored endpoint is unknown, on no topic and in no matched set, and nothing else changes |
| EndpointMatching.IgnoreTopicConsistent | dds/DCPS/DiscoveryBase.h:245-263 | ignoring a topic breaks exactly the matches with endpoints on it |
| EndpointRuns.StartSound | dds/DCPS/DiscoveryBase.h:670-688 | the copy a match loop starts with is of one topic, and what in it is local is on that topic |
| EndpointRuns.LoopPairsMatchable | dds/DCPS/DiscoveryBase.h:670-688 | every pair a loop comes to is of opposite kinds on one topic, each local side still on it, however old the copy is |
| EndpointRuns.StepSane | dds/DCPS/DiscoveryBase.h:205-1070 | every step, with any number of loops running on stale copies, keeps tables and loops sound |
| EndpointRuns.RunSane | dds/DCPS/DiscoveryBase.h:205-1070 | every interleaving of match loops, each with its own copy of the endpoint set, with registrations, discoveries, removals and ignores stays consistent |
| EndpointRuns.MatchingIsMutual | dds/DCPS/DiscoveryBase.h:921-1058 | after any run from the start local matches are mutual and every match is a known endpoint of the other kind on the same topic |
| EndpointRuns.ForgottenStaysUnmatched | dds/DCPS/DiscoveryBase.h:670-688 | a match loop still holding a removed endpoint in its copy of the set cannot bring it back |
| EndpointMatching.EndpointManager.Match | dds/DCPS/DiscoveryBase.h:755-1070 | the specified pair step |
| EndpointMatching.EndpointManager.MatchEndpoints | dds/DCPS/DiscoveryBase.h:670-688 | the endpoint ends up matched with every endpoint on its topic exactly as the policy decides, and no other match changes |
| EndpointMatching.EndpointManager.RemoveAssoc | dds/DCPS/DiscoveryBase.h:690-721 | one side forgets the other |
| EndpointMatching.EndpointManager.UnmatchEndpoints | dds/DCPS/DiscoveryBase.h:670-688 | no local endpoint on the topic lists the endpoint any more |
| EndpointMatching.EndpointManager.AddLocal | dds/DCPS/DiscoveryBase.h:318-404 | a new endpoint and a local one on its topic list each other iff compatible, whatever is deferred; it lists a discovered one iff compatible and that one is not deferred; it is on its topic iff permitted, and matched with nobody if not permitted or not announced |
| EndpointMatching.EndpointManager.RemoveLocal | dds/DCPS/DiscoveryBase.h:406-427 | a local endpoint is forgotten; an unknown id changes nothing |
| EndpointMatching.EndpointManager.AddDiscovered | dds/DCPS/RTPS/Sedp.cpp:1640-1709 | a local endpoint on the topic lists a discovered one of consistent type iff compatible and the discovered one is not deferred; one of inconsistent type is remembered, off its topic and listed by nobody |
| EndpointMatching.EndpointManager.RemoveDiscovered | dds/DCPS/DiscoveryBase.h:205-244 | a discovered endpoint is forgotten; an unknown id changes nothing |
| EndpointMatching.EndpointManager.IgnoreTopicName | dds/DCPS/DiscoveryBase.h:245-263 | the nested loops break exactly the matches of the topic |
| Durability.CachedIsNewest | dds/DCPS/DataDurabilityCache.cpp:483-513 | what is cached is the newest part of the non-coherent samples, at most depth long, all of them if they fit |
| Durability.CachedPlainly | dds/DCPS/DataDurabilityCache.cpp:483-513 | a sample is cached iff it is among the last depth and outside coherent sets, in order |
| Durability.CopySamples | dds/DCPS/DataDurabilityCache.cpp:499-633 | the copy loop keeps the non-coherent samples among the last depth, in order |
| Durability.FindSlot | dds/DCPS/DataDurabilityCache.cpp:580-598 | the first empty slot, or one past the end |
| Durability.PutConsistent | dds/DCPS/DataDurabilityCache.cpp:580-711 | storing in a free slot with its own timer keeps slots and timers consistent |
| Durability.TimersAreDisjoint | dds/DCPS/DataDurabilityCache.cpp:87-122 | no two pending timers share a slot and no queue is in two slots |
| Durability.DurabilityCache.Insert | dds/DCPS/DataDurabilityCache.cpp:470-713 | nothing for no data or depth 0, failure for negative depth; otherwise the samples outside coherent sets among the last history_depth, or max_samples_per_instance for KEEP_ALL, in the first free slot, with a timer iff there is a cleanup delay, undone if scheduling fails |
| Durability.DurabilityCache.Timeout | dds/DCPS/DataDurabilityCache.cpp:87-122 | frees exactly the queue whose insertion scheduled this timer and touches no other |
| Durability.WriteQueue | dds/DCPS/DataDurabilityCache.cpp:797-842 | writes up to the first refused sample |
| Durability.DurabilityCache.GetData | dds/DCPS/DataDurabilityCache.cpp:715-865 | delivers everything in slot order iff no slot is empty, the first queue is not, and all is accepted; otherwise exactly the samples before the stopping point were written, those of the stopping queue remaining cached |
| Durability.ReplaySlots | dds/DCPS/DataDurabilityCache.cpp:742-864 | writes and empties the queues in slot order up to the first slot that is empty or sample that is refused, and says which |
| Durability.ContentsAt | dds/DCPS/DataDurabilityCache.cpp:794-842 | what is written is slot by slot, and in each slot sample by sample |
| Durability.ReplayAfterCleanup | dds/DCPS/DataDurabilityCache.cpp:747-750 | after insert and cleanup, replay reads through a null queue |

## Left out

- DisjointSequences.DisjointSequence.InsertI: the gap list of a suppressed insertion, and lists reaching beyond the largest sequence number, which no sequence number can.
- DisjointSequences.DisjointSequence.InsertBitmap: bitmaps whose numbers reach a range extending 2^32 - 1 or more past the base, where the 32-bit index wraps and the loop need not end (`SkipAheadRestarts`), and more than 2^31 - 1 bits, where adding them to the base goes through a signed int.
- DisjointSequences.DisjointSequence.ToBitmap: sets spanning 2^32 or more above cumulative_ack, where positions are truncated, and buffers of more than 0x07FFFFFE words, where bit indices wrap.
- SampleSplitting.SplitOctets: what the code does after reading an absent payload or tail, or with a wrapped number of entries; the model stops there.
- SampleCache.DataReader.StoreData: what the code does after reading an absent oldest sample; the position at which a sample is added is a parameter, covering both the reception and the source-timestamp order.
- TransportReassembly.Insert: fragments without data, which only data_unavailable produces, and data_unavailable and get_gaps themselves.
- ReassemblyRuns.Reassembler.ReassembleI: chunks are given with the fragment numbers they stand for; parsing them from the octets is SampleSplitting.ReadHeader.
- EndpointRuns.RunSane: assumes that a GUID issued to a local endpoint is never issued again and that remote GUIDs carry another prefix.
- BitmapExact.ReadsPastIff: where a run spills into new numbers only one direction is stated without the decoder's state (EndsPastReads); InsertBitmap has the exact condition with it.
- Durability.DurabilityCache.Insert: is one step, though the code schedules the timer after releasing its lock; concurrent growth of the slot array in between, allocation failures and the file-system copy are not modelled.
- HistoricGate.WholeRun: covers one waiting round of one writer; re-arming the gate and the order between delivery and later live samples while the lock is dropped are not modelled.
- AssociationHandshake.StaleCompletion: stopping the association in progress at the transport is not modelled, so the next transport callback belongs to a new association or was on its way.
- AssociationHandshake.DataWriter.AssociationCompleteI: built-in topic writers and an absent participant, which leave the status alone; the resending to a durable reader is in SequenceRepair.
- Message-block ownership, reference counts, allocators and multi-block chains: blocks are flat octet sequences.
- Listener re-entrance: a listener call is part of the step that makes it.
- Serializer alignment, strings and floating-point types: sample headers use none of them.
- Security plugins (only whether they permit an endpoint), crypto tokens, transports, sockets and real clocks.
- CoherentChangeControl, topic reference counts, partitions, QoS compatibility, FACE wrappers, configuration: outside the core modelled here.
