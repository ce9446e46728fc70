# Verified models of notf

This project models the parts of the notf repository whose correctness is not visible from reading one
function, and proves what those parts are for. Every claim below is a theorem about the model, for all inputs
or for every run.

| part | files | what is proved |
|---|---|---|
| DEFLATE decoding | `Canonical`, `Lookup`, `BitReversal`, `HuffmanTable`, `Lz77`, `Deflate`, `Inflate` | the length checks are the Kraft inequality; the fast table and the preshifted slow path decode exactly the canonical prefix code; the block loop refines a fold of literals and copies, reads back every block that section 3.2.5 of RFC 1951 can encode, and ends on all inputs exactly when its code does not idle on zeros |
| PNG de-interlacing | `Interlacing` | the seven passes fill every pixel of the image from exactly one place |
| Seed sequences | `Words`, `Mixing`, `Rounds`, `Diffusion`, `SeedSeq` | `param` undoes `seed`, which is a bijection; a change of one input spreads to every word; `fast_exp(x, -1)` inverts odd words |
| MPSC queue | `MpscQueue` | memory safety, order, no loss and no leak in every interleaving, and no thread ever waits |
| Operator network | `OperatorTable`, `Removal`, `Emission`, `Deliveries`, `Network` | on every network, with cycles or without, removal ends and takes exactly the least cascade; an emission fails exactly on cycles and otherwise delivers once per walk, depth first, values of the right schema |
| Schemas | `Schema`, `SchemaUniqueness`, `SchemaTwins`, `StaticLayout`, `DynamicLayout` | exactly which schemas can be read back, which layouts have one of their own, when both writers agree, and what the list check lets through |
| MessagePack | `MsgPack`, `MsgPackOrder`, `MsgPackRoundTrip`, `MsgPackTruncated`, `MsgPackShortest`, `MsgPackFormat`, `MsgPackKeys`, `MsgPackEquality`, `MsgPackStream` | round trip with any following bytes, equal nesting limits, refusal of truncated bytes, no shorter form than the one written but for two sizes of extensions, exactly which values keep their meaning, and which the library finds equal to what they are read back as |
| Mnemonics | `Mnemonic`, `Sequences` | the syllables are a prefix code; the round trip is the identity exactly on palindromes |
| Event loop | `EventLoop`, `EventHistory` | in every run the weight, the counter and the queue are what the steps so far explain; no finished event is left without a frame before the loop idles, nor, under an exact condition, when it is closed; at most 1000 events between frames |
| Recursive mutex | `RecursiveMutex` | holder and counter are exact for every thread outside its own calls, and only threads that have nothing to do with the mutex wait |

Code that changes state is modelled as methods on classes and arrays, each proved against a specification
function, about which the lemmas are stated. The queue, the event loop and the mutex are state machines with
one step for each access to shared state.

## Where the code falls short of its promise

- A block whose literal code gives the all-zero code to symbol 286 or 287, which have length 0, can make
  `stbi__parse_huffman_block` run forever on the zeros behind the end of the input
  (`Lz77.EndsExactlyWhenNotIdle` says exactly when, `Lz77.IdlingCodesNeverEnd` gives such codes).
- Schemas can be misread from 254 words on, because a pointer can equal the id of a number or a string
  (`SchemaUniqueness.SchemasAreUniqueExactlyUpTo253`). Two layouts then share a schema exactly if the body behind
  such a pointer can move to a slot nearby that holds this id (`SchemaTwins.OwnSchemaExactly`), and only then does a
  list accept entries of different layouts behind a list or a map (`DynamicLayout.ListCheckConfusesTwinsExactly`).
- A MessagePack map loses an entry when two of its keys are numerically equal but differ in their sign type
  (`MsgPackKeys.MeaningIsKeptExactly`, `MsgPackKeys.EqualNumbersCollide`). `operator==` does not find a value equal
  to what it is read back as if the largest signed integer is in it, or a map whose keys are not read back in their
  order, as when a signed key is larger than an unsigned one (`MsgPackEquality.EqualToReadBackExactly`,
  `MsgPackEquality.ReorderedKeysShow`).
- Extensions of 255 and of 65535 bytes are written with a longer header than the format has for them
  (`MsgPackShortest.LargestExtensionsAreLonger`).
- `mnemonic_to_number` does not undo `number_to_mnemonic`: it reads the digits in the opposite order
  (`Mnemonic.RoundTripsExactlyPalindromes`). The syllable limit wraps around from 10 syllables on, and from 32 on
  it is 0, by which the code then divides (`Mnemonic.LimitIsExactUpTo9`, `Mnemonic.LimitVanishesFrom32`).
- When the event queue is closed, events that have finished, or finish later, may never be rendered
  (`EventLoop.ClosingRendersExactly` says exactly when, `EventLoop.FinishedEventsCanBeSkipped` gives a run).

## Model

| member | source | states |
|---|---|---|
| Canonical.ChecksAreKraft | thirdparty/stb_image_2.22/stb_image.h:3892-3912 | the two length checks accept a list exactly when its Kraft sum is at most one |
| Canonical.CodesArePrefixFree | thirdparty/stb_image_2.22/stb_image.h:3901-3912 | the codes that are assigned, section 3.2.2 of RFC 1951, are no prefixes of each other |
| Canonical.CodesAreOrdered | thirdparty/stb_image_2.22/stb_image.h:3901-3912 | the two rules of section 3.2.2 of RFC 1951: codes of one length increase with their symbols, and shorter codes lie before longer ones |
| BitReversal.BitReverse16Reverses | thirdparty/stb_image_2.22/stb_image.h:3870-3877 | the masks and shifts are the reversal of 16 bits, whatever stands above them |
| BitReversal.BitReverseReverses | thirdparty/stb_image_2.22/stb_image.h:3879-3885 | reversing 16 bits and shifting reverses any smaller number of bits |
| Lookup.MatchIsUnique | thirdparty/stb_image_2.22/stb_image.h:3997-4009 | at most one symbol's code is what a stream continues with |
| Lookup.MatchesByReversal | thirdparty/stb_image_2.22/stb_image.h:3920-3926 | a symbol matches exactly when its code is the reversal of that many stream bits |
| Lookup.RangeHasMatch | thirdparty/stb_image_2.22/stb_image.h:3984-3994 | an aligned lookahead between two preshifted end codes is matched by a symbol of that length, and its distance from the first code is the rank of that symbol |
| Lookup.BelowMaxHasMatch | thirdparty/stb_image_2.22/stb_image.h:3985-3988 | a lookahead below a preshifted end code is matched by a symbol of at most that length |
| HuffmanTable.ZHuffman.Build | thirdparty/stb_image_2.22/stb_image.h:3887-3932 | succeeds exactly when the Kraft sum is at most one, and then all six tables represent the canonical code |
| HuffmanTable.ZHuffman.AssignRanges | thirdparty/stb_image_2.22/stb_image.h:3901-3913 | first codes, first symbols and preshifted end codes of all lengths, or refusal at the first length that overflows |
| HuffmanTable.ZHuffman.EnterSymbols | thirdparty/stb_image_2.22/stb_image.h:3914-3930 | every symbol is in its slot, and every fast entry is the symbol whose short code its index ends in, or 0 if there is none |
| HuffmanTable.SlotsDiffer | thirdparty/stb_image_2.22/stb_image.h:3917-3920 | no two symbols are stored at the same place |
| Inflate.FastMiss | thirdparty/stb_image_2.22/stb_image.h:4001-4008 | a miss in the fast table means that the aligned lookahead is at least maxcode[9] |
| Inflate.SlowHit | thirdparty/stb_image_2.22/stb_image.h:3985-3994 | the first length whose end code lies above the lookahead is that of the matching symbol, found at the computed index |
| Inflate.StreamBits | thirdparty/stb_image_2.22/stb_image.h:3954-3967 | section 3.1.1 of RFC 1951: the bits of the stream are those of its bytes in order, lowest bit first |
| Inflate.ZBuf.FillBits | thirdparty/stb_image_2.22/stb_image.h:3954-3967 | more than 24 bits are buffered and the stream, which continues with zeros, is the same |
| Inflate.ZBuf.ZReceive | thirdparty/stb_image_2.22/stb_image.h:3969-3977 | the next n bits of the stream, which loses them |
| Inflate.ZBuf.DecodeSlowly | thirdparty/stb_image_2.22/stb_image.h:3979-3995 | the symbol whose code the stream continues with, which loses the code; -1 and nothing consumed exactly if there is none |
| Inflate.ZBuf.Decode | thirdparty/stb_image_2.22/stb_image.h:3997-4009 | the same, by fast table and slow path together |
| Inflate.FitsFromReached | thirdparty/stb_image_2.22/stb_image.h:4017-4020 | whether more bytes fit does not depend on how often the buffer was doubled before |
| Inflate.ZBuf.ZExpand | thirdparty/stb_image_2.22/stb_image.h:4011-4028 | earlier output is kept, and it succeeds exactly when the buffer may be doubled until the bytes fit |
| Lz77.CopyIsPeriodic | thirdparty/stb_image_2.22/stb_image.h:4075-4081 | a copy that overlaps itself repeats the last distance bytes |
| Lz77.CopyOfLast | thirdparty/stb_image_2.22/stb_image.h:4076-4078 | a copy of distance 1 is a run of the last byte |
| Inflate.ZBuf.RunOfOne | thirdparty/stb_image_2.22/stb_image.h:4076-4078 | the fast path for distance 1 writes what the general copy means |
| Inflate.ZBuf.CopyBytes | thirdparty/stb_image_2.22/stb_image.h:4079-4081 | the general copy, byte by byte within one buffer |
| Inflate.ZBuf.Match | thirdparty/stb_image_2.22/stb_image.h:4066-4081 | one match refines its step of the fold: distance code, extra bits, both failures, growth and copy, which at distance 0 takes the bytes that were in memory before |
| Inflate.ZBuf.ParseHuffmanBlock | thirdparty/stb_image_2.22/stb_image.h:4044-4084 | after any number of steps the block loop has ended exactly if the fold has, and then with the output and the rest of the stream that the fold has, or with a failure exactly if the fold fails; `Deflate.EncodedIsDecoded` says what the fold makes of a block |
| Deflate.EncodedIsDecoded | thirdparty/stb_image_2.22/stb_image.h:4044-4084 | every block of literals and copies that fits into the buffer, encoded by section 3.2.5 of RFC 1951 with any valid codes and followed by anything, is expanded to just these literals and copies, and what follows is left |
| Deflate.TokenIsRead | thirdparty/stb_image_2.22/stb_image.h:4047-4081 | one literal or copy of this encoding is one step of the block loop, with the rest of the stream left |
| Deflate.LengthsAreAdjacent | thirdparty/stb_image_2.22/stb_image.h:4030-4036 | the lengths of one code with all its extra bits end where those of the next begin, but for the last code, which begins one early |
| Deflate.DistancesAreAdjacent | thirdparty/stb_image_2.22/stb_image.h:4038-4042 | the same for distances, without exception |
| Deflate.LengthTable | thirdparty/stb_image_2.22/stb_image.h:4030-4036 | codes 4e + q with e extra bits start at 3 + q * 2^e |
| Deflate.DistanceTable | thirdparty/stb_image_2.22/stb_image.h:4038-4042 | codes 2e + q with e extra bits start at 1 + q * 2^e |
| Deflate.LengthIsCoded | thirdparty/stb_image_2.22/stb_image.h:4030-4036 | every length from 3 to 258 has a code and extra bits by the structure of section 3.2.5 that mean it by the tables |
| Deflate.LengthIsCodedOnce | thirdparty/stb_image_2.22/stb_image.h:4030-4036 | and no other code with other extra bits means it, if it is less than 258 |
| Deflate.DistanceIsCoded | thirdparty/stb_image_2.22/stb_image.h:4038-4042 | every distance from 1 to 32768 has a code and extra bits that mean it by the tables |
| Deflate.DistanceIsCodedOnce | thirdparty/stb_image_2.22/stb_image.h:4038-4042 | and no other code with other extra bits means it |
| Lz77.RunExtends | thirdparty/stb_image_2.22/stb_image.h:4044-4084 | a finished block keeps all earlier output and stays within the limit of the buffer |
| Lz77.EndsExactlyWhenNotIdle | thirdparty/stb_image_2.22/stb_image.h:4047-4083 | a pair of codes ends on every stream and every output exactly when it does not idle on zeros |
| Lz77.IdlingCodesNeverEnd | thirdparty/stb_image_2.22/stb_image.h:4030-4036 | there are valid codes with which a block reads the zeros behind the end of the input forever: the symbol 286 alone and the shortest distance alone |
| Lz77.ValidCodesEnd | thirdparty/stb_image_2.22/stb_image.h:4044-4084 | codes that use only valid symbols end on every stream |
| Lz77.ValidCodesReadWritten | thirdparty/stb_image_2.22/stb_image.h:4068-4081 | and what comes out does not depend on what was in memory before it was written |
| Lz77.FuelIsEnough | thirdparty/stb_image_2.22/stb_image.h:4047-4083 | a fold that has ended has one result, however many more steps it is allowed |
| Interlacing.EveryPixelHasOnePlace | thirdparty/stb_image_2.22/stb_image.h:4620-4637 | a pixel lies in the image and has this pass by the pattern of section 8.2 of the PNG specification exactly when this place of this pass is stored there |
| Interlacing.AreasAddUp | thirdparty/stb_image_2.22/stb_image.h:4626-4627 | the areas of the seven passes add up to width times height |
| Interlacing.CellsDiffer | thirdparty/stb_image_2.22/stb_image.h:4636-4639 | no two places of any passes are stored at the same index |
| Interlacing.CellsAreInImage | thirdparty/stb_image_2.22/stb_image.h:4636-4639 | every index that is written lies in the image, and every one that is read in its pass |
| Interlacing.Deinterlace | thirdparty/stb_image_2.22/stb_image.h:4617-4650 | in the end every pixel of every pass is where it belongs, none overwritten by a later one |
| SeedSequence.FastExp | thirdparty/randutils/randutils.hpp:234-245 | square and multiply computes the power modulo 2^32 |
| Mixing.OddPowerIsOne | thirdparty/randutils/randutils.hpp:336-337 | the power 2^32 of every odd word is 1 |
| Mixing.PowMinusOneInverts | thirdparty/randutils/randutils.hpp:336-337 | the power -1, that is 2^32 - 1, of every odd word is its inverse |
| SeedSequence.Inverse | thirdparty/randutils/randutils.hpp:336-337 | fast_exp(x, -1) is the one inverse of an odd word |
| Mixing.HashInverse | thirdparty/randutils/randutils.hpp:303-309 | the k-th hash call of a round can be undone, and every word is some call's result |
| Mixing.MixInverse | thirdparty/randutils/randutils.hpp:310-314 | mixing can be undone in its first argument, both ways |
| Mixing.MixInjectiveInSource | thirdparty/randutils/randutils.hpp:310-314 | mixing different words into the same one gives different words |
| SeedSequence.SeedSeq.MixEntropy | thirdparty/randutils/randutils.hpp:298-330 | the store becomes the round of the input, which may be the store itself; `Diffusion.InputReachesEveryWord` says how the round mixes |
| SeedSequence.SeedSeq.Seed | thirdparty/randutils/randutils.hpp:280-288 | the store becomes the seeding of the input, with one or two mix rounds by its size |
| SeedSequence.SeedSeq.Stir | thirdparty/randutils/randutils.hpp:290-294 | the store becomes the round of itself |
| SeedSequence.SeedSeq.Backtrack | thirdparty/randutils/randutils.hpp:340-368 | replaying the loops backwards, with the hash constant running down, undoes one round in place |
| SeedSequence.SeedSeq.Param | thirdparty/randutils/randutils.hpp:332-370 | the result is the input that was seeded, if there were as many words as the store has |
| Rounds.ParamUndoesSeed | thirdparty/randutils/randutils.hpp:280-370 | for every count and as many words, param recovers what seed absorbed |
| Rounds.SeedReachesEveryStore | thirdparty/randutils/randutils.hpp:280-370 | every store is the seeding of what param recovers from it |
| Rounds.SeedIsBijection | thirdparty/randutils/randutils.hpp:280-330 | with any further inputs fixed, seeding is a bijection between the first inputs and the stores |
| Rounds.SeedInjectiveWhenShort | thirdparty/randutils/randutils.hpp:317-322 | fewer inputs than the store has words still give different stores |
| Rounds.SeedInjectiveInEachInput | thirdparty/randutils/randutils.hpp:327-329 | changing any one of any number of inputs changes the store |
| Rounds.SeedPadded | thirdparty/randutils/randutils.hpp:318-322 | inputs that are missing count as zeros |
| Diffusion.InputReachesEveryWord | thirdparty/randutils/randutils.hpp:317-326 | if one input that has a slot changes, all words differ after the row of that slot |
| Diffusion.InputStaysUntilItsRow | thirdparty/randutils/randutils.hpp:323-326 | until then the word of its own slot differs and no other does |
| Diffusion.LateInputReachesEveryWord | thirdparty/randutils/randutils.hpp:298-330 | a change of the last input that has a slot, or of any one that has none, changes every word of the round, whatever further inputs there are |
| Diffusion.RoundsBySize | thirdparty/randutils/randutils.hpp:280-288 | stores of one or two words go through a second round, larger ones do not |
| Diffusion.HashAndMixValues | thirdparty/randutils/randutils.hpp:302-314 | the hash of 1 by the first call of a round, and 2 mixed into 1, are these words |
| MpscQueue.StepKeepsInv | archive/mpsc_queue.hpp:50-86 | every step of every thread keeps the invariant of chain, links, private nodes, items and memory |
| MpscQueue.EveryAccessIsSafe | archive/mpsc_queue.hpp:63-86 | in every run no step reads, writes or frees a node that is not allocated, or reads a field that was not written |
| MpscQueue.EveryRunIsFifo | archive/mpsc_queue.hpp:65-86 | in every run the popped items are the first in the order in which their pushes exchanged the head, and each other is in exactly one node of the chain |
| MpscQueue.LinkedPushesAreReachable | archive/mpsc_queue.hpp:70-71 | once no push is between exchange and link, the links lead from the tail through the whole chain and no further |
| MpscQueue.PopMissesExactly | archive/mpsc_queue.hpp:77-80 | pop finds nothing exactly when nothing is pending or the oldest push has not been linked |
| MpscQueue.PushNeverWaits | archive/mpsc_queue.hpp:65-72 | in every run, whatever all others do, a producer can take the next step of its push, and is one nearer to the end of its five then |
| MpscQueue.PopNeverWaits | archive/mpsc_queue.hpp:77-86 | so can the consumer, in five steps or in two that find nothing and change nothing |
| MpscQueue.DrainingFreesEverything | archive/mpsc_queue.hpp:56-61 | after all pushes, the destructor pops every item that was pushed and leaves no node allocated |
| OperatorNetwork.Network.Subscribe | pynotf/prototype/main.py:310-327 | succeeds exactly when the three assertions hold, adds the edge on both sides unless the operator has completed, keeps the edges symmetric, and keeps that receivers get values of their schema and that an operator that is not multicast has at most one subscriber |
| OperatorNetwork.AcceptedEdgeFits | pynotf/prototype/main.py:310-323 | an edge that passes the assertions fits the schemas and is the only one of an operator that is not multicast |
| OperatorNetwork.PrunedFits | pynotf/prototype/main.py:463-476 | removals keep both |
| OperatorNetwork.EmissionFits | pynotf/prototype/main.py:403-429 | and so do emissions |
| OperatorNetwork.Network.RemoveUpstream | pynotf/prototype/main.py:294-300 | the edge is gone from the list, and the result says whether it was there |
| OperatorNetwork.Network.Unsubscribe | pynotf/prototype/main.py:334-354 | cuts one edge on both sides, and removes the least cascade of an internal operator that loses its last subscriber; terminates on every symmetric network, also while other removals are under way |
| OperatorNetwork.Network.Remove | pynotf/prototype/main.py:463-476 | on every symmetric network, with cycles or without, it terminates, and the table loses exactly the least cascade of the operator and all edges to it, stays symmetric, and keeps every other external operator |
| OperatorTable.CascadeIsLeast | pynotf/prototype/main.py:352-354 | without cycles every cascade is the least set that has the operator and every internal one all of whose subscribers it has |
| OperatorTable.CascadeIsUnique | pynotf/prototype/main.py:352-354 | so without cycles there is only one cascade |
| OperatorTable.LeastCascadeIsUnique | pynotf/prototype/main.py:352-354 | on every network there is at most one least cascade |
| OperatorTable.CyclesAllowTwoCascades | pynotf/prototype/main.py:352-354 | with a cycle a cascade need not be the least one: two internal operators that only subscribe to each other stay, although the set with them is a cascade too |
| OperatorTable.CascadeLeadsToX | pynotf/prototype/main.py:467-476 | on every network, whatever disappears leads to the removed operator along subscriptions |
| OperatorTable.PrunedIsSymmetric | pynotf/prototype/main.py:463-476 | taking out a set of operators with all their edges keeps the edges symmetric |
| OperatorTable.AcyclicIsRanked | pynotf/prototype/main.py:352-354 | every symmetric network without a cycle has the ranks by which its cascades are unique |
| OperatorTable.RankedIsAcyclic | pynotf/prototype/main.py:352-354 | and only those have ranks |
| Removal.RemovalIsCascade | pynotf/prototype/main.py:467-476 | cutting the edges one by one, with whatever falls on the way, ends in the least cascade of the table before |
| OperatorNetwork.Network.EmitNext | pynotf/prototype/main.py:403-429 | deliveries, stored values and statuses are those of the specification; on success every status is as before |
| OperatorNetwork.Network.Run | pynotf/prototype/main.py:365-388 | one delivery: completed operators ignore it, printers end it, relays pass it on |
| OperatorNetwork.Network.Next | pynotf/prototype/main.py:394-395 | terminates; fails exactly when the specification does, and leaves the operators on the failing walk emitting; every entry of the log is the emitted value, or the empty one if an operator without an input schema is on the way after the first, and comes depth first in the order of subscribers; on success nothing but values has changed, each to the last one of its schema that was to be stored |
| Emission.FailsExactlyOnCycles | pynotf/prototype/main.py:412-414 | emitting runs into the cyclic assertion exactly when a walk through relays comes back to an operator it has passed |
| Emission.DeliversOncePerWalk | pynotf/prototype/main.py:419-429 | otherwise it delivers along every walk exactly once, and nothing else, the value that arrives along that walk |
| Deliveries.ValueAtTheEnd | pynotf/prototype/main.py:384 | along any walk the emitted value arrives, or the empty one if some operator after the first has no input schema |
| Deliveries.LogHoldsValues | pynotf/prototype/main.py:365-388 | so it does in every delivery, also of an emission that runs into a cycle |
| Deliveries.DeliversDepthFirst | pynotf/prototype/main.py:424-426 | deliveries come depth first, and to the subscribers of one operator in the order in which they are listed |
| Deliveries.StoredIsLast | pynotf/prototype/main.py:386-388 | an operator holds the last value of its own schema that it was to store, or what it held before |
| Deliveries.DeliveredValuesFit | pynotf/prototype/main.py:310-312 | in a network in which every edge fits, every operator is given values of its input schema |
| Emission.StopsEmitting | pynotf/prototype/main.py:428-429 | ending an emission changes nothing but the status back to what it was |
| Schema.DecodesExactlyUnambiguous | apps/scratch/structured_buffer.cpp:28-36 | a decoder that follows the pointers recovers a layout exactly when none of its pointers is the id of a number or a string |
| Schema.SmallSchemaDecodes | apps/scratch/structured_buffer.cpp:28-36 | schemas of up to 253 words are read back |
| SchemaUniqueness.UnambiguousHasNoPrefix | apps/scratch/structured_buffer.cpp:28-36 | a layout whose words are the first words of an unambiguous layout is that layout |
| SchemaUniqueness.UnambiguousIsUnique | apps/scratch/structured_buffer.cpp:455-460 | no other layout has the schema of an unambiguous one, whatever its size |
| SchemaUniqueness.SchemasAreUniqueExactlyUpTo253 | apps/scratch/structured_buffer.cpp:28-36 | for every n, all layouts of n words have schemas of their own exactly if n is at most 253 |
| SchemaUniqueness.CollidingSchemas | apps/scratch/structured_buffer.cpp:28-36 | a map with a pointer of 252 has the schema of another map |
| SchemaUniqueness.SchemasOf254WordsCollide | apps/scratch/structured_buffer.cpp:28-36 | two such layouts of 254 words |
| SchemaTwins.OwnSchemaExactly | apps/scratch/structured_buffer.cpp:28-36 | no other layout has the schema of a layout exactly if none of its bodies starts at an index that is the inline id in another slot, of any map, with no further body between the two in the order in which children are written |
| SchemaTwins.TwinOf | apps/scratch/structured_buffer.cpp:202-229 | where a body can move in this way there is another layout with the same words, and without maps that have no children if there were none |
| SchemaTwins.ReadFromSameWords | apps/scratch/structured_buffer.cpp:202-229 | two layouts that are written at the same place of one schema are the same, or both have twins, or one of them has just one more body at its end, for which the other has a slot |
| SchemaTwins.UnambiguousHasNoTwin | apps/scratch/structured_buffer.cpp:28-36 | no such body is there in a layout of up to 253 words or without pointers that are inline ids |
| SchemaTwins.AmbiguousWithoutTwin | apps/scratch/structured_buffer.cpp:28-36 | a map of a list and 249 strings has the pointer 252, the id of a number, and still a schema of its own |
| SchemaTwins.TwinAcrossMaps | apps/scratch/structured_buffer.cpp:28-36 | a list behind the pointer 252 can also move out of its map into a slot of the map around it |
| Schema.NestedSchemaIsShifted | apps/scratch/structured_buffer.cpp:202-229 | a layout written k words further on has the same words, but for its pointers, which are k larger |
| Schema.PointersLeadForward | apps/scratch/structured_buffer.cpp:211-222 | pointers lead forward, stay within the layout, and lead to a list or a map |
| Schema.SchemaOfTheTest | apps/scratch/structured_buffer.cpp:540-575 | the 13 words that the original asserts of its test layout |
| StaticLayout.GetSizeIsWritten | apps/scratch/structured_buffer.cpp:192-195 | get_size, which counts inline elements twice and takes them off again, is the number of words written |
| StaticLayout.WriteSchema | apps/scratch/structured_buffer.cpp:126-208 | overwrites exactly get_size() words of the array with the encoding, truncated to 8 bits, and returns the index behind them |
| StaticLayout.WriteChildren | apps/scratch/structured_buffer.cpp:224-229 | the slots and the bodies of all children, and nothing else, are overwritten |
| StaticLayout.WriteChild | apps/scratch/structured_buffer.cpp:211-222 | one slot, and behind a pointer the child at the write index |
| StaticLayout.WritersAgreeExactly | apps/scratch/structured_buffer.cpp:202-229 | the static words are the numbers that the dynamic writer appends exactly if every map has fewer than 256 children and every pointer is below 256 |
| StaticLayout.WritersAgreeExactlyUpTo257 | apps/scratch/structured_buffer.cpp:202-229 | for every n, the writers agree on all layouts of n words exactly if n is at most 257 |
| StaticLayout.PointerIsTruncated | apps/scratch/structured_buffer.cpp:218-220 | a map of 254 children has a pointer that is truncated to 0 |
| DynamicLayout.DynamicSchema.ProduceSubschema | apps/scratch/structured_buffer.cpp:375-415 | appends the encoding of the element's layout, with slots that are resized first and set as the children are appended |
| DynamicLayout.ProduceList | apps/scratch/structured_buffer.cpp:451-462 | accepts entries of one layout; what it accepts are scalars only or, if the first layout has a schema of its own, entries of one layout |
| DynamicLayout.ListCheckIsExact | apps/scratch/structured_buffer.cpp:455-460 | for entries that are no scalars the check is exactly equality of layouts, if that of the first has a schema of its own, as all of up to 253 words have |
| DynamicLayout.ListCheckConfusesTwinsExactly | apps/scratch/structured_buffer.cpp:455-460 | behind a given list or map the check lets entries of another layout through exactly if the layout of the first has a twin |
| DynamicLayout.FieldsAgree | apps/scratch/structured_buffer.cpp:285-291 | scalars have an empty schema, so any mix of numbers and strings passes, and none passes with a list or a map |
| MsgPackRoundTrip.ReadsWhatWasWritten | src/common/msgpack.cpp:233-321 | the bytes of a value followed by any others are read back as its normal form and leave just the others, or fail for depth exactly when writing does |
| MsgPackRoundTrip.UintIsRead | src/common/msgpack.cpp:50-57 | unsigned integers of all widths are read back |
| MsgPackRoundTrip.IntIsRead | src/common/msgpack.cpp:60-68 | signed integers are read back in value, those that are not negative as unsigned ones |
| MsgPackRoundTrip.ExtensionHeaderIsRead | src/common/msgpack.cpp:136-158 | every size of an extension is read back from its header, also at the limits that leave the largest size to the next width |
| MsgPackTruncated.TruncatedIsRefused | src/common/msgpack.cpp:172-181 | a value of which the last bytes are missing, however many, is a parse error, never another value |
| MsgPackTruncated.ParseOfMore | src/common/msgpack.cpp:253-321 | unless the stream has ended too early, what follows it changes nothing |
| MsgPackShortest.ShortestIsWritten | src/common/msgpack.cpp:49-161 | no bytes that are read as a value are shorter than those it is written as, but for the waste of the extensions of 255 and of 65535 bytes in it |
| MsgPackShortest.SerializedIsShortest | src/common/msgpack.cpp:233-251 | the same for what a value is read back as, if no two keys of a map mean the same |
| MsgPackShortest.LargestExtensionsAreLonger | src/common/msgpack.cpp:136-158 | an extension of 255 or 65535 bytes is written with a header one or two bytes longer than the shortest that is read |
| MsgPackFormat.FirstBytes | src/common/msgpack.cpp:253-321 | what the MessagePack specification assigns to each of the 256 first bytes |
| MsgPackFormat.WireIsBigEndian | src/common/msgpack.cpp:29-37 | numbers are written with the most significant byte first |
| MsgPackFormat.ContainerBytes | src/common/msgpack.cpp:104-161 | elements are written in their order, a key before its value, and the type of an extension before its data |
| MsgPackKeys.MeaningIsKeptExactly | src/common/msgpack.cpp:211-219 | reading back keeps what a value means, numerically and without regard to the order of entries, exactly when no map in it has two keys that mean the same |
| MsgPackKeys.ReadBackKeeps | src/common/msgpack.cpp:211-219 | reading back never adds entries, and loses none exactly for these values |
| MsgPackKeys.EqualNumbersCollide | src/common/msgpack.cpp:211-219 | for every n the keys Int(n) and Uint(n) collide, and the second entry is lost |
| MsgPackKeys.SignsAreToldApart | src/common/msgpack.cpp:211-219 | the reader itself keeps Int(n) and Uint(n) as two keys |
| MsgPackOrder.Flip | include/notf/common/msgpack.hpp:248 | the order of values is antisymmetric: exchanging two values turns their order around |
| MsgPackOrder.Compose | include/notf/common/msgpack.hpp:248 | and transitive, also with values that it does not tell apart |
| MsgPackOrder.EmplacedIsSorted | src/common/msgpack.cpp:216 | emplacing keeps a map sorted by this order |
| MsgPackOrder.SameIsSameMeaning | src/common/msgpack.cpp:216 | among values that were read back, the order tells two apart exactly if they do not mean the same |
| MsgPackFormat.BytesAreLexicographic | include/notf/common/msgpack.hpp:248 | strings are in lexicographic order of unsigned characters, binary data of signed ones |
| MsgPackFormat.RealsAreOrdered | include/notf/common/msgpack.hpp:248 | floats, and doubles, are ordered by the values that IEEE 754 gives their bits |
| MsgPackOrder.ReadBackIsNormal | src/common/msgpack.cpp:253-321 | what is read back has sorted maps and no signed integer that is not negative |
| MsgPackEquality.EqualToReadBackExactly | include/notf/common/msgpack.hpp:221-243 | by operator== a value is equal to what it is read back as exactly if it has no NaN, not the largest signed integer, and no map two neighbouring keys of which are not read back in increasing order |
| MsgPackEquality.ScalarKeysKeepOrderExactly | include/notf/common/msgpack.hpp:248 | keys that are no arrays or maps are read back in their order exactly if every signed one is smaller than every unsigned one |
| MsgPackEquality.ReorderedKeysShow | include/notf/common/msgpack.hpp:221-243 | a map with the keys Int(5) and Uint(3) is read back with Uint(3) first, and not equal |
| MsgPackEquality.IntegersCompareEqualExactly | include/notf/common/msgpack.hpp:144-158 | by operator== an integer is equal to what it is read back as, except for the largest signed one |
| MsgPackStream.WriteData | src/common/msgpack.cpp:29-37 | appends the bytes of memory in reverse |
| MsgPackStream.WriteUint | src/common/msgpack.cpp:49-57 | appends the form that `MsgPackShortest.ShortestIsWritten` finds the shortest that is read |
| MsgPackStream.WriteInt | src/common/msgpack.cpp:59-68 | the same, in two's complement if negative |
| MsgPackStream.WriteString | src/common/msgpack.cpp:70-85 | appends header and reversed characters |
| MsgPackStream.WriteBinary | src/common/msgpack.cpp:87-100 | appends header and reversed bytes |
| MsgPackStream.WriteExtension | src/common/msgpack.cpp:136-161 | appends header, type and reversed bytes |
| MsgPackStream.WriteArray | src/common/msgpack.cpp:104-118 | appends header and elements, and fails exactly when an element is nested too deeply |
| MsgPackStream.WriteMap | src/common/msgpack.cpp:120-134 | the same for keys and values in the order of the map |
| MsgPackStream.Serialize | src/common/msgpack.cpp:233-251 | appends the bytes of the value, which `MsgPackShortest.SerializedIsShortest` finds the shortest, and fails exactly when depth and height exceed the limit |
| MsgPackStream.ReadData | src/common/msgpack.cpp:172-181 | the bytes in reverse, or a parse error exactly when the stream has too few |
| MsgPackStream.ReadArray | src/common/msgpack.cpp:202-209 | elements in order up to the first exception |
| MsgPackStream.ReadMap | src/common/msgpack.cpp:211-219 | entries sorted by their keys, dropping those with a key that the order does not tell from one that is already there |
| MsgPackStream.Deserialize | src/common/msgpack.cpp:253-321 | the value, the exception and the unread bytes are those of the specification |
| Mnemonic.SyllablesArePrefixFree | src/common/mnemonic.cpp:17-38 | at most one of the 100 syllables begins a word |
| Mnemonic.SyllableParts | src/common/mnemonic.cpp:17-38 | each row of five syllables is a consonant with the vowels a, i, u, e, o |
| Mnemonic.OnsetsAreSorted | src/common/mnemonic.cpp:17-38 | and the rows are in the order of the alphabet |
| Mnemonic.SplitsWords | src/common/mnemonic.cpp:71-85 | every sequence of syllables is split into exactly these |
| Mnemonic.SplitIsWord | src/common/mnemonic.cpp:71-85 | nothing but sequences of syllables can be split |
| Mnemonic.Exp | include/notf/meta/numeric.hpp:61-70 | the power, modulo 2^64 |
| Mnemonic.NumberToMnemonic | src/common/mnemonic.cpp:54-67 | the syllables of the digits to the base 100, lowest first, of the number or its rest by the limit, and a division by zero exactly from 32 syllables on |
| Mnemonic.MnemonicToNumber | src/common/mnemonic.cpp:69-87 | the number of the digits it splits the word into, highest first and modulo 2^64, or nothing if it cannot |
| Mnemonic.RoundTripsExactlyPalindromes | src/common/mnemonic.cpp:54-87 | decoding finds exactly the encoded digits, and the number is the same exactly when they are a palindrome, even modulo 2^64 |
| Mnemonic.HundredIsReadAsOne | src/common/mnemonic.cpp:54-87 | 100 is read back as 1 |
| Mnemonic.LimitIsKept | src/common/mnemonic.cpp:55-63 | a word has no more syllables than asked for |
| Mnemonic.LimitIsExactUpTo9 | src/common/mnemonic.cpp:55 | the limit is the power of 100 for up to 9 syllables, and wraps around exactly from 10 on |
| Mnemonic.LimitVanishesFrom32 | src/common/mnemonic.cpp:55 | the limit is 0 exactly from 32 syllables on |
| EventLoop.StepKeepsInv | src/app/event_handler.cpp:54-104 | every step of the loop, of a fiber or of another thread keeps the invariant |
| EventLoop.IdleMeansRendered | src/app/event_handler.cpp:90-103 | in every run, when the loop is asleep on an empty open queue, all events that have finished have been rendered |
| EventLoop.AtMost1000BetweenFrames | src/app/event_handler.cpp:59-84 | in every run without blocking events at most 1000 events finish between two frames |
| EventLoop.FewerThan1000OnceWeighed | src/app/event_handler.cpp:79-84 | in every run fewer than 1000 are left unrendered behind the weight check |
| EventHistory.RunsAreExplained | src/app/event_handler.cpp:54-104 | in every run the weight is the sum of what the events weigh that returned since the last frame, each at least 0.001f, and 1 more before the first; the counter is how many these are; every event that was dispatched has returned or thrown, is blocked or about to run; what was put into the queue is dispatched in this order; and while it is open each event that has returned forces one more run |
| EventHistory.RendersExactly | src/app/event_handler.cpp:79-100 | in every run a frame is rendered exactly when the loop weighs these events and their sum is at least 1 or there was no frame yet, or when it finds the queue empty and some event has returned since the last frame |
| EventHistory.HeavyEventIsRendered | src/app/event_handler.cpp:64-84 | an event of weight 1 or more that returned since the last frame is rendered when the loop next weighs |
| EventHistory.LightEventsAreRenderedAt1000 | src/app/event_handler.cpp:64-84 | if none of them weighs more than 0.001f, a weighing after the first frame renders exactly when 1000 or more have returned |
| EventHistory.ThrowingOnlyEnds | src/app/event_handler.cpp:72-75 | an event that throws neither counts nor forces another run |
| EventLoop.ClosingRendersExactly | src/app/event_handler.cpp:79-104 | when the queue is closed in any state that the loop can reach, every way on that ends has all finished events rendered exactly if no event is blocked, queued or about to run, and either there is nothing to render, or the loop has just found the queue empty, or enough weight was handled and will be weighed again |
| EventLoop.LastFrameIsSkipped | src/app/event_handler.cpp:79-104 | otherwise there is a run that ends with finished events that were never rendered |
| EventLoop.FinishedEventsCanBeSkipped | src/app/event_handler.cpp:59-88 | a run to a state in which an event has finished and closing the queue skips its frame |
| RecursiveMutex.StepKeepsInv | include/notf/common/mutex.hpp:57-80 | every sub-step of every thread keeps the invariant |
| RecursiveMutex.HolderAndCounterAreExact | include/notf/common/mutex.hpp:82-87 | in every run a thread outside its own calls is the recorded holder exactly when it has acquired more often than released, and then the counter is the difference |
| RecursiveMutex.HoldersExcludeEachOther | include/notf/common/mutex.hpp:57-80 | in every run at most one thread holds the mutex or is inside a call that does |
| RecursiveMutex.CounterIsPositive | include/notf/common/mutex.hpp:76-78 | the assertion of unlock holds in every run |
| RecursiveMutex.OnlyOthersWait | include/notf/common/mutex.hpp:57-80 | in every run a thread inside a call can go on and is one step nearer to its end then; a thread outside can acquire the mutex exactly if no other thread holds it or is inside a call that does, and release it exactly if it is the recorded holder |

## Left out

- Inflate.ZBuf.ParseHuffmanBlock: the loop is followed for a given number of steps, since some blocks never end; `Lz77.EndsExactlyWhenNotIdle` says for which codes a number exists. When it fails, nothing is said about what was written so far.
- Inflate.ZBuf.ZExpand: `int` sizes do not overflow, the first buffer is not empty, and a failing reallocation is a largest size that can be allocated. What memory holds before it is written is a function of the index, which may be any. The local write pointer of the block loop is the field of the buffer.
- The zlib header, the code length alphabet, stored blocks and the fixed codes of inflate.
- Interlacing.Deinterlace: the pixels of each pass are given; unfiltering and the advance through the image data are not modelled, and a pixel is copied as a whole instead of byte by byte. Its result is stated per place of a pass; `Interlacing.EveryPixelHasOnePlace` says that these are all pixels.
- `seed_seq_fe` for word types other than 32 bits, `generate`, `auto_seeded_seed_seq` and `random_generator`.
- MpscQueue.EveryRunIsFifo: all accesses are sequentially consistent; that acquire and release order them enough is not modelled.
- OperatorNetwork.Network.Subscribe: for an operator that has completed, the callback that it calls immediately is not modelled, and neither is `on_subscribe`.
- OperatorNetwork.Network.Next: relays, properties and printers only, and no operator may be active at the start; emission of failures and completions, coroutines and operator factories are not modelled. The status is a field of its own, not three bits of the flags. The table is a map from handles that are never reused.
- Layouts without children are allowed, although the constructors assert that maps and lists are not empty; the theorems hold for them as well. `is_flat` and the values of structured buffers are not modelled.
- DynamicLayout.DynamicSchema.ProduceSubschema: machine words are unbounded, since a schema of 2^64 words does not fit into memory.
- MsgPackStream.Serialize: on a little-endian machine; after an exception nothing is said about what was written so far.
- MsgPackKeys.MeaningIsKeptExactly: NaN is ordered by its bytes, while the original has no order for maps with NaN among their keys. What is written may list the entries of a map in any order.
- MsgPackOrder.Flip: NaN is ordered by its bytes, while `operator<` of the original tells it apart from no float.
- MsgPackOrder.Compose: the same; with NaN `operator<` of the original is not transitive.
- MsgPackStream.ReadMap: the same; with NaN among the keys the original may drop an entry that is kept here.
- MsgPackStream.Deserialize: the same, for streams that hold such a map.
- MsgPackEquality.EqualToReadBackExactly: keys that are arrays or maps with a double inside are not covered, since for them it depends on how `operator==` compares a float with a double, which is a parameter.
- EventLoop.AtMost1000BetweenFrames: weights are real numbers, without rounding. Rendering does not switch fibers, and events that block may finish between any two steps of the loop.
- RecursiveMutex.HolderAndCounterAreExact: a thread releases only what it holds, as the standard library demands. `Mutex` is the simpler case.
- Windows, graphics, resources, timers and the thread pool are not part of this model.
