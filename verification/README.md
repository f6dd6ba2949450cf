# SST core: seven cores, modelled and proved

These modules model the parts of the SST simulation core whose correctness depends on an
invariant over many steps, and prove what those parts promise: exact decimal arithmetic, the
two start-up protocols of parallel runs, the memory pools, clocks, XML attributes and node
lists, checkpoint names, link restart, and the decision to end a run.

Where the source updates fields or buffers in place, the model is a class or an array method
that is proved against a function of the old state; the promises are lemmas about that
function. Concurrency is a transition system: a run is a sequence of states, each step is one
atomic action of one rank or thread, and the main lemmas hold for every run.

| module | models |
|---|---|
| Positional, Columns, Newton, Rounding | numbers as digit sequences: values, column sums, the residual of Newton's iteration, rounding to nearest even |
| Decimal | the class of `decimal_fixedpoint`: words of base 10^8, `+=`, `-=`, `*=`, `/=`, `inverse`, integer conversions |
| Numerals, DecimalDeposit, DecimalRead | `from_string`: what becomes of the digits, and reading a text |
| DecimalText, DecimalPrint, DecimalLoss | `toString`, that `from_string` reads what it prints, and the texts for which it does not |
| Schedule, LinkExchange, ExchangeSteps, ExchangeProgress, ExchangeProtocol, ExchangeMismatch | the all-pairs exchange of link IDs: who talks to whom, one reconciliation, the steps of all ranks, that they get to an end, all runs, and all runs of ranks that disagree |
| GraphDistribution, GraphScatter | splitting the configuration graph, and scattering it by halving the set of ranks |
| MemPool, MemPoolSystem, MemPoolSafety | pools and the shared overflow store; all threads together; what every interleaving keeps |
| XmlText, XmlRead, XmlAttribute, XmlRoundTrip | entity encoding, UTF-8, reading, attributes, and their round trip |
| XmlNode | the child lists of a document |
| CheckpointName | name formats, their expansion, the names of a run |
| LinkRestart | restoring links from a checkpoint |
| Clock, ClockRun | the handler vector and the firing times of a clock; runs of several clocks that share handlers |
| ExitCount | state bits and reference counts of primary components, and the end of the run |

## What the proofs found

- **The ID exchange does not report every mismatch.** The walk over the local links compares
  names but not the partner's rank, so a message that goes on with the name of the next local
  link, shared with another rank, passes (`LinkExchange.OverrunGoesUnnoticed`). The walk
  succeeds if and only if the names agree as sets or it overruns in that way
  (`LinkExchange.WalkDetectsMismatch`). The first check of the walk, on an empty message, is
  dead, because the number of entries is always part of the message; a missing link is found
  by the last check.
- **`toString` can print texts that `from_string` cannot read.** `DecimalText.PrintedTextReadsBack`
  holds for exactly the other texts, at every precision, and `DecimalLoss.ReadableIff` says which
  these are: rounding must not come within half a unit of the last printed digit of the capacity
  (else `1e+N` is printed), and without whole words the rounded number must be below 0.0001 and
  not zero (else the zero before the point has no word, which is the whole text of zero). Both
  kinds occur in every size (`DecimalLoss.AllNinesLost`, `DecimalLoss.NoWholeWordLost`). The
  sign comes back if and only if the number is not a negative zero, which is printed without one.
- **`from_string` misplaces digits if the last one is below the last place.** Up to seven places
  below, every word is the word it should be with its eight digits rotated by that many places,
  and the dropped digits are added to the lowest word (`DecimalDeposit.DepositBelow`). A text of
  at most eight digits is read in units of the last place, so that it is only right if it is zero
  (`DecimalDeposit.ShortTexts`); for longer ones `DecimalDeposit.CutOffIff` has the exact
  condition. With one fraction word, "1." and nine digits is read as ten and more
  (`DecimalLoss.WholePartTimesTen`), and "0." and nine nines leave more than the radix in a word,
  so that the number is not valid any more (`DecimalLoss.NinesExceedRadix`). Further below, the
  source stores outside the words.
- **The 64-bit column sums of `*=` cannot overflow for up to 1844 words**, however large the
  words are; with 1845, the largest words overflow (`Decimal.ColumnsFitExactly`).
- **`inverse` of a negative number stays positive**: the seed has lost the sign, and no step
  of the iteration brings it back (`Decimal.DecimalFixedPoint.Inverse`).
- **An XML attribute with a valid name and a well-formed value survives printing and parsing if
  and only if "&#x" does not occur in its value** (and the document does not end at its closing
  quote), because such text is passed through unescaped. In encodings other than UTF-8, every
  value is well-formed (`XmlRoundTrip.LegacyIsWhole`). A UTF-8 value that is not, but in which
  "&#x" does not occur, survives if and only if every sequence that the table of lengths sees in
  it ends inside the value and has no escaped byte after its first: a lone C3 takes the closing
  quote with it (`XmlRoundTrip.AttributeRoundTrip` has both). An ill-formed value with "&#x" may
  survive (`XmlRoundTrip.HiddenReference`). The table of UTF-8 lengths agrees with the encoder if
  and only if the code point is below 0x140000.
- **`numAlloc` counts failed allocations**, so the reported number of active entries is the
  number of blocks in use plus the number of failures (`MemPoolSafety.ActiveEntriesAreLive`).
- **`Exit` can be queued more than once**, although its comment says otherwise: with one thread
  it is queued each time the count drops to 0. That happens at most once if and only if, after
  the first time that everything is released and a later hold, it never comes to everything being
  released again (`ExitCount.QueuedOnceIff`; `ExitCount.QueuedTwice` is a run). Every check of a
  run changes nothing while something is held, and otherwise ends the run at the last drop
  (`ExitCount.EachCheck`), so that a further one with nothing counted between them changes
  nothing (`ExitCount.SecondCheckChangesNothing`).
- **A component that allows the end without ever having held it** takes away another component's
  count (`ExitCount.ReleaseWithoutHold`).
- **Unregistering a clock handler from another clock than its own erases the wrong entry.** The
  clock is chosen by period and priority alone (src/sst/core/simulation.cc:1484-1491) and erases
  whatever is at the handler's index. All vectors stay right if and only if the handler is
  inactive or the clock is its own (`Clock.Clock.UnregisterHandler`); after
  `ClockRun.WrongEntryErased`, an active handler is in no vector.

## Model

| member | source | states |
|---|---|---|
| Columns.ColumnsAreProduct | src/sst/core/decimal_fixedpoint.h:734-773 | the columns that the multiplication sums up are the product of the two numbers, up to multiples of the last column's weight |
| Decimal.ColumnsFitExactly | src/sst/core/decimal_fixedpoint.h:740-751 | a column of products and its carry fit 64 bits for all words if and only if there are at most 1844 of them |
| Decimal.DecimalFixedPoint.GreaterOrEqual | src/sst/core/decimal_fixedpoint.h:871-879 | the word-by-word comparison decides the order of the magnitudes; signs play no part |
| Decimal.DecimalFixedPoint.AddAssign | src/sst/core/decimal_fixedpoint.h:668-712 | the exact signed sum if and only if it fits the words; with equal signs the magnitude wraps; otherwise the sign is that of the larger magnitude |
| Decimal.DecimalFixedPoint.SubtractAssign | src/sst/core/decimal_fixedpoint.h:721-726 | the exact signed difference if and only if it fits the words, even if a number is subtracted from itself |
| Decimal.DecimalFixedPoint.MultiplyAssign | src/sst/core/decimal_fixedpoint.h:734-773 | for another object as operand, the magnitude is the product shifted down by the fraction words, rounded down, modulo the capacity; the sign is the exclusive or; the number stays valid even if it is multiplied by itself |
| Newton.ResidualSquares | src/sst/core/decimal_fixedpoint.h:810-819 | one step squares the residual, up to the truncation of its two products, in both directions |
| Newton.StepDoubles | src/sst/core/decimal_fixedpoint.h:810-819 | a step never overshoots and doubles the number of good digits |
| Newton.Converged | src/sst/core/decimal_fixedpoint.h:810-819 | when the good digits cover the words, the residual is at most six units of noise |
| Decimal.DecimalFixedPoint.NewtonStep | src/sst/core/decimal_fixedpoint.h:810-819 | one pass of the loop computes the truncated step, if nothing overflows |
| Decimal.DecimalFixedPoint.Inverse | src/sst/core/decimal_fixedpoint.h:793-823 | from a seed with seven good digits, the loop ends with a residual of at most six units of noise; a negative number keeps a positive result |
| Decimal.DecimalFixedPoint.DivideAssign | src/sst/core/decimal_fixedpoint.h:781-787 | the residual of the quotient is bounded by that of the inverse, for positive divisors |
| Decimal.DecimalFixedPoint.FromUint64 | src/sst/core/decimal_fixedpoint.h:148-169 | the integer modulo the capacity of the whole words, with the fraction cleared |
| Rounding.NearestEvenIsNearest | src/sst/core/decimal_fixedpoint.h:364-383 | the rounding is to a nearest multiple, and to the even one when two are equally near |
| Decimal.DecimalFixedPoint.ToLong | src/sst/core/decimal_fixedpoint.h:355-386 | the magnitude rounded to nearest even, with the sign, if it fits 63 bits |
| DecimalDeposit.DepositValue | src/sst/core/decimal_fixedpoint.h:123-140 | digits at or above the last place and inside the words are stored as exactly the number they denote |
| DecimalRead.DepositDigits | src/sst/core/decimal_fixedpoint.h:125-140 | the digit loop stores each digit in its word at its weight, and fails exactly on a character that is no digit or a word that does not exist |
| DecimalRead.FromString | src/sst/core/decimal_fixedpoint.h:90-141 | sign, point and exponent are taken from the text; if the last digit is at or above the last place, the number is valid and is exactly that of the text; otherwise it is valid if and only if the lowest word stays below the radix; a bad exponent leaves zero words |
| DecimalDeposit.LandsInsideIff | src/sst/core/decimal_fixedpoint.h:132-136 | every digit has a word exactly if the last is less than eight places below the last place and the first is inside the words |
| DecimalDeposit.DepositBelow | src/sst/core/decimal_fixedpoint.h:123-140 | for a last digit up to seven places below, each word is the right one with its digits rotated, and the dropped digits are added to the lowest |
| DecimalDeposit.CutOffIff | src/sst/core/decimal_fixedpoint.h:123-140 | then the words are those of the number cut off at the last place if and only if rotation changes none above the lowest and the dropped digits make up for it there; they stay below the radix if and only if the lowest does |
| DecimalDeposit.ShortTexts | src/sst/core/decimal_fixedpoint.h:123-140 | up to eight such digits are read in units of the last place, which is right if and only if they are all zero |
| DecimalLoss.WholePartTimesTen | src/sst/core/decimal_fixedpoint.h:123-140 | with one fraction word, nine decimals make ten times the digit before the point of it |
| DecimalLoss.NinesExceedRadix | src/sst/core/decimal_fixedpoint.h:123-140 | "0." and nine nines leave more than the radix in a word |
| DecimalPrint.RoundDigits | src/sst/core/decimal_fixedpoint.h:479-519 | the digit buffer is rounded to nearest even at the requested precision, and cleared below |
| DecimalPrint.ToString | src/sst/core/decimal_fixedpoint.h:447-660 | the text is the sign and the digits of the rounded magnitude in the notation its leading digit calls for |
| DecimalText.PrintedTextReadsBack | src/sst/core/decimal_fixedpoint.h:90-141 | for every number, reading a printed text restores the rounded magnitude if and only if rounding did not overflow and a zero before the point has a word; the sign comes back if and only if the number is not a negative zero |
| DecimalLoss.NothingKept | src/sst/core/decimal_fixedpoint.h:533-539 | the rounded digits are all zero if and only if the number is within half a unit of the last printed digit of the capacity |
| DecimalLoss.ReadableIff | src/sst/core/decimal_fixedpoint.h:533-628 | a printed text can be read back if and only if that is not so and, without whole words, the rounded number is not zero and below 0.0001 |
| DecimalLoss.LostText | src/sst/core/decimal_fixedpoint.h:533-628 | any other text, with that of zero without whole words, names a digit that has no word |
| DecimalLoss.AllNinesLost | src/sst/core/decimal_fixedpoint.h:533-539 | the largest number of any size is lost, at every precision short of all digits |
| DecimalLoss.NoWholeWordLost | src/sst/core/decimal_fixedpoint.h:605-628 | without whole words, zero and every number from 0.0001 on are lost |
| DecimalText.FullPrecisionRoundTrip | src/sst/core/decimal_fixedpoint.h:447-660 | at full precision every number with a whole word comes back word for word, in all notations, with its sign unless it is zero |
| Schedule.Plan | src/sst/core/main.cc:1216-1265 | the loop control picks in each iteration the rank so many places ahead to send to and the one behind to receive from, with the last one halved for even sizes |
| Schedule.SlotInvertsSchedule | src/sst/core/main.cc:1245-1265 | a sends to b in an iteration if and only if b receives from a in it, and it is the one the pair's distance gives |
| Schedule.EveryPairOnce | src/sst/core/link.h:463-472 | of any two different ranks exactly one sends to the other, exactly once, within floor(N/2) iterations; no rank sends to itself |
| LinkExchange.Pack | src/sst/core/main.cc:1269-1300 | what is sent is the names and IDs of exactly the links shared with that rank, in order |
| LinkExchange.Reconcile | src/sst/core/main.cc:1324-1389 | the receiving walk updates the IDs in place, or stops with the error the source reports |
| LinkExchange.WalkSucceeds | src/sst/core/main.cc:1344-1388 | the walk succeeds exactly if each name matches and no link of the partner is left over; then only IDs have changed, to those received |
| LinkExchange.WalkDetectsMismatch | src/sst/core/main.cc:1324-1388 | no error is reported if and only if both ranks name the same links, or the walk overran into another rank's links |
| LinkExchange.MismatchReported | src/sst/core/main.cc:1324-1388 | if no received name is that of a link to a third rank, an error is reported if and only if the names differ |
| LinkExchange.OverrunGoesUnnoticed | src/sst/core/main.cc:1344-1388 | a mismatch for which no error is reported |
| ExchangeProtocol.RunInv | src/sst/core/main.cc:1245-1393 | in every interleaving, no consistent exchange aborts, and every rank and channel is as its iteration says |
| ExchangeProgress.NeverStuck | src/sst/core/main.cc:1301-1393 | whatever the ranks have loaded, while one is in the loop some rank can go on, even if no message is ever buffered |
| ExchangeProgress.RunsAreBounded | src/sst/core/main.cc:1245-1393 | every run, on agreeing tables or not, ends within a number of steps that is fixed by the number of ranks |
| ExchangeProgress.StuckIsOver | src/sst/core/main.cc:1245-1393 | a run that cannot go on has aborted, or all ranks are done |
| ExchangeProtocol.EndsAgree | src/sst/core/main.cc:1206-1208 | when all ranks are done, both ends of every cross-rank link have one ID, and nothing else has changed |
| ExchangeProtocol.DistinctLinksKeepDistinctIds | src/sst/core/link.h:460-467 | two link ends finish with one ID if and only if they belong to one link |
| ExchangeProtocol.RankPrefixedIds | src/sst/core/link.h:463-464 | IDs with the rank in the upper 32 bits and a counter below are unique over all ranks |
| ExchangeProtocol.ExchangeReconciles | src/sst/core/main.cc:1194-1397 | a run that cannot go on has not aborted, and all ranks are done with agreeing IDs |
| ExchangeMismatch.ReconciledIff | src/sst/core/main.cc:1324-1388 | for any tables, a receiving walk reports no error if and only if both ranks name the same links or the walk overruns, whatever IDs have changed before |
| ExchangeMismatch.CompletedOrReported | src/sst/core/main.cc:1194-1397 | whatever the ranks have loaded, in a run that completes every receiving pair agrees or overruns, and a run that aborts has a pair that does neither |
| ExchangeMismatch.DisagreementReported | src/sst/core/main.cc:1194-1397 | a run that cannot go on has completed if and only if every receiving pair agrees or overruns, and has aborted with an error if and only if some pair does neither |
| GraphDistribution.FilterSeen | src/sst/core/model/configGraph.cc:515-594 | filtering what an interval of ranks sees of a link gives what each half sees of it |
| GraphDistribution.SplitsIntoParts | src/sst/core/model/configGraph.cc:623-651 | splitting the part of an interval of ranks gives the parts of its two halves |
| GraphScatter.FirstSplit | src/sst/core/main.cc:1145-1164 | rank 0 keeps the lower half of the ranks with their part, and sends the other with its part to its first rank |
| GraphScatter.SendUpperHalf | src/sst/core/main.cc:1170-1188 | one pass of the loop sends the upper half with its part and keeps the lower |
| GraphScatter.Scatter | src/sst/core/main.cc:1143-1189 | a rank that starts with an interval of ranks ends with its own part alone, having sent what the recursion says |
| GraphScatter.RunInv | src/sst/core/main.cc:1143-1189 | in every interleaving each rank holds an interval starting at itself with that interval's part, and what was sent is what it no longer holds |
| GraphScatter.ScatterCompletes | src/sst/core/main.cc:1135-1189 | when no rank can go on, each holds exactly its own part, each but rank 0 received exactly one message, and N - 1 were sent |
| GraphScatter.OwnPart | src/sst/core/model/configLink.cc:72-90 | every component is on the rank it is placed on and nowhere else, every link on the ranks of its ends, with the local end first and the other rank recorded |
| GraphScatter.RunsAreBounded | src/sst/core/main.cc:1143-1189 | every run ends after N - 1 sends and receipts |
| MemPool.AllocSize | src/sst/core/mempool.cc:126-134 | a block has room for its element and header; if aligned, it fills whole cache lines, the fewest possible |
| MemPool.MemPoolNoMutex.constructor | src/sst/core/mempool.cc:119-139 | an empty pool with this block size |
| MemPool.OverflowFreeList.Insert | src/sst/core/mempool.cc:64-78 | the list is added to those of its size, and no other size's lists change |
| MemPool.OverflowFreeList.Remove | src/sst/core/mempool.cc:80-94 | the list inserted last for the size is taken out, if there is one |
| MemPool.ListsOfWithLists | src/sst/core/mempool.cc:64-94 | changing one size's lists leaves every other size's alone, and keeps one entry for each size |
| MemPool.MemPoolNoMutex.AllocPool | src/sst/core/mempool.cc:237-252 | the blocks of the new arena go on the freelist, whose limit grows by as many |
| MemPool.MemPoolNoMutex.Alloc | src/sst/core/mempool.cc:149-187 | a block comes from the freelist, the overflow list, the shared store or a new arena, in this order |
| MemPool.MemPoolNoMutex.Release | src/sst/core/mempool.cc:190-204 | a block goes on the freelist up to its limit, then on the overflow list, which moves to the shared store when full |
| MemPoolSystem.GetMemPool | src/sst/core/mempool.cc:293-312 | the thread's first pool of the size, created if there is none |
| MemPoolSystem.BlocksDisjoint | src/sst/core/mempool.cc:237-252 | blocks lie inside their arena, do not overlap, and are aligned to cache lines if so configured |
| MemPoolSafety.NewKeeps | src/sst/core/mempool.cc:398-414 | an allocation keeps the invariant: each block in one place, counts, list lengths, headers |
| MemPoolSafety.NewPlaces | src/sst/core/mempool.cc:398-414 | what is handed out was not in use and has the size asked for |
| MemPoolSafety.DeleteKeeps | src/sst/core/mempool.cc:417-437 | a deletion, on any thread, keeps the invariant |
| MemPoolSafety.RunInv | src/sst/core/mempool.cc:149-204 | over every interleaving of all threads, each carved block is in exactly one place of its own size, lists keep their bounds, and headers tell what is in use |
| MemPoolSafety.HeaderTells | src/sst/core/mempool.cc:418-437 | a header is nonzero exactly if its block is in use, and is then the size that delete needs |
| MemPoolSafety.ActiveEntriesAreLive | src/sst/core/mempool.cc:358-373 | in every reachable state, allocations minus frees are the blocks in use plus the failed allocations |
| MemPoolSafety.ActiveEntries | src/sst/core/mempool.cc:358-373 | the usage report sums this over all pools of all threads |
| MemPoolSafety.Undeleted | src/sst/core/mempool.cc:375-395 | the report of undeleted items names exactly the blocks in use, each once |
| XmlText.EncodeString | external/tinyxml/tinyxml.cpp:52-133 | the text is escaped character by character, except that text from "&#x" up to a semicolon or the last character is passed through |
| XmlRead.ConvertUTF32ToUTF8 | external/tinyxml/tinyxmlparser.cpp:88-129 | the buffer, filled backwards, holds the UTF-8 form of the code point |
| XmlRead.Utf8RoundTrip | external/tinyxml/tinyxmlparser.cpp:88-129 | every code point below 0x200000 can be read back from its bytes, of which all but the first are continuations |
| XmlRead.TableAgrees | external/tinyxml/tinyxmlparser.cpp:66-85 | the table gives the written length if and only if the code point is below 0x140000 |
| XmlRead.ReadTextKeepingSpace | external/tinyxml/tinyxmlparser.cpp:577-640 | the reading loop that keeps all white space, up to the end tag |
| XmlAttribute.ReadName | external/tinyxml/tinyxmlparser.cpp:404-436 | a name is read up to the first character that cannot belong to it |
| XmlAttribute.ParseAttribute | external/tinyxml/tinyxmlparser.cpp:1395-1466 | name, equals sign and a value in either kind of quotes or none |
| XmlAttribute.PrintAttribute | external/tinyxml/tinyxml.cpp:1210-1233 | double quotes, or single quotes if the value has a double quote |
| XmlRoundTrip.AttributeRoundTrip | external/tinyxml/tinyxmlparser.cpp:1395-1466 | for a valid name and a value that is well-formed or has no "&#x", parsing a printed attribute gives both back and stops after the closing quote if and only if "&#x" does not occur in the value, the document goes on, and the value is whole, as every well-formed one is |
| XmlRoundTrip.ReadsBack | external/tinyxml/tinyxmlparser.cpp:441-534 | every printed whole value without "&#x" is read back as it was |
| XmlRoundTrip.ReadsNoMore | external/tinyxml/tinyxmlparser.cpp:441-534 | no printed well-formed value comes back longer, and one with "&#x" comes back shorter, or the reader does not stop at its quote |
| XmlRoundTrip.ReadsNoLess | external/tinyxml/tinyxmlparser.cpp:441-534 | no printed value without "&#x" comes back shorter, and one that is not whole comes back longer or not at all |
| XmlRoundTrip.ReferenceOccurs | external/tinyxml/tinyxml.cpp:60-84 | the condition is that the three characters occur somewhere in the value |
| XmlRoundTrip.ReferenceIsLost | external/tinyxml/tinyxml.cpp:60-84 | "&#x;" is printed as it is and read as one NUL |
| XmlRoundTrip.HiddenReference | external/tinyxml/tinyxml.cpp:60-84 | an ill-formed value with "&#x" that comes back as it was, because its ampersand is read as part of a sequence |
| XmlNode.Node.LinkEndChild | external/tinyxml/tinyxml.cpp:186-211 | the node, which has no parent or already names this one, becomes the last child; all lists stay in order and no other list changes; a forest stays one if and only if this is not below the node |
| XmlNode.Node.InsertBeforeChild | external/tinyxml/tinyxml.cpp:230-260 | the clone goes right before the given child, or nothing changes; a forest stays one if and only if this is not below the clone |
| XmlNode.Node.InsertAfterChild | external/tinyxml/tinyxml.cpp:263-293 | the clone goes right after the given child, or nothing changes; a forest stays one if and only if this is not below the clone |
| XmlNode.Node.ReplaceChild | external/tinyxml/tinyxml.cpp:296-332 | the clone takes the place of the child; the nodes that are not deleted stay in order, and a forest stays one |
| XmlNode.Node.RemoveChild | external/tinyxml/tinyxml.cpp:335-359 | the child is taken out of its list; the nodes that are not deleted stay in order, and a forest stays one |
| XmlNode.SplicedValid | external/tinyxml/tinyxml.cpp:230-293 | the pointer assignments of an insertion leave every list of the document in order |
| XmlNode.DeletedValid | external/tinyxml/tinyxml.cpp:296-359 | those of a removal or replacement do, once the child and everything below it is gone |
| XmlNode.JoinedRanked | external/tinyxml/tinyxml.cpp:186-332 | linking a node that has no parent and is not above its new parent, in place of children or not, makes no cycle |
| XmlNode.InsertedAcyclic | external/tinyxml/tinyxml.cpp:186-293 | an insertion makes a cycle if and only if the new parent is below the new child |
| XmlNode.ExchangedRanked | external/tinyxml/tinyxml.cpp:335-359 | taking a child out makes no cycle |
| XmlNode.ExchangedAcyclic | external/tinyxml/tinyxml.cpp:296-359 | replacing or removing a child of a forest leaves a forest |
| CheckpointName.ParseCheckpointNameFormat | src/sst/core/config.cc:676-728 | a format is accepted if and only if it is not empty, has at most one slash, and every percent sign starts one of the three directives; the option is set even if it is rejected |
| CheckpointName.CreateNameFromFormat | src/sst/core/checkpointAction.cc:32-65 | directives are replaced, other characters kept |
| CheckpointName.UsesIfMentioned | src/sst/core/checkpointAction.cc:109-121 | in an accepted format, searching for the text of a directive tells whether it is used |
| CheckpointName.ExpandEqual | src/sst/core/checkpointAction.cc:32-65 | two expansions are equal if and only if no directive tells the checkpoints apart, even if fields are adjacent |
| CheckpointName.SplitSameFor | src/sst/core/checkpointAction.cc:95-107 | splitting at the slash cuts through no directive |
| CheckpointName.NamesAreUnique | src/sst/core/checkpointAction.cc:95-121 | two checkpoints share directory and file name if and only if the format uses neither %n nor, at different times, %t; the same holds for the whole path |
| CheckpointName.CheckpointAction.CreateCheckpoint | src/sst/core/checkpointAction.cc:154-198 | the names are made with the current ID, which then goes up |
| CheckpointName.CheckpointAction.Execute | src/sst/core/checkpointAction.cc:144-152 | one checkpoint at a multiple of the period, and the next is due at the next multiple |
| CheckpointName.CheckpointAction.Check | src/sst/core/checkpointAction.cc:253-272 | one checkpoint if one is due or was requested, and the period is added only if it was due |
| CheckpointName.CheckpointAction.WrittenNamesDiffer | src/sst/core/checkpointAction.cc:109-121 | over a whole run, two checkpoints share names only if the format cannot tell them apart |
| LinkRestart.LinkPair | src/sst/core/linkPair.h:42-47 | two new links that are each other's pair |
| LinkRestart.Restart.Unpack | src/sst/core/link.cc:224-426 | unpacking one end makes a pair or completes the one that its other end has made, and keeps every restored link consistent |
| LinkRestart.Restart.RestoreFields | src/sst/core/link.cc:313-375 | the saved fields go to the link or to its pair, and latencies are added to what is there |
| LinkRestart.Restart.RestoredLink | src/sst/core/link.cc:286-375 | in every order of unpacking, both ends of an ID are one symmetric pair with the whole latency of each direction |
| LinkRestart.Restart.TrackedWhileOneEnd | src/sst/core/link.cc:291-310 | the tracker holds an ID exactly while one end of that link has been restored here |
| LinkRestart.OneIdChanged | src/sst/core/link.cc:286-311 | restoring an end of one link leaves all other links consistent |
| LinkRestart.SplitLatencies | src/sst/core/link.cc:359-375 | restored apart, the link and the placeholder at the receiver add up to the same |
| LinkRestart.OrderDoesNotMatter | src/sst/core/link.cc:286-352 | in two simulations that have unpacked the same two ends in opposite orders, each end does the same |
| LinkRestart.SaveAndRestore | src/sst/core/link.cc:94-176 | saving and restoring both ends of a link of one partition gives the link back |
| LinkRestart.SyncJoined | src/sst/core/link.cc:94-176 | a link between partitions restored in one keeps the total latency of each direction |
| Clock.Clock.Schedule | src/sst/core/clock.cc:192-214 | the clock is queued once, for the first multiple of its period that it has not missed |
| Clock.Clock.GetNextCycle | src/sst/core/clock.cc:119-125 | the cycle after the current one: when scheduled, that for which the clock is queued |
| Clock.Clock.RegisterHandler | src/sst/core/clock.cc:33-71 | a handler is added at the end, left as it is, or refused if another clock has it active; the clock is then scheduled |
| Clock.Clock.RegisterHandlerRestart | src/sst/core/clock.cc:94-106 | a handler that was active in the checkpoint is added at the end |
| Clock.Clock.UnregisterHandler | src/sst/core/clock.cc:73-92 | the entry at the index of an active handler leaves the vector, and those behind it move up with their indices; all vectors are right afterwards if and only if the handler was not active on another clock |
| Clock.Clock.IsHandlerRegistered | src/sst/core/clock.cc:108-116 | whether the handler is in the vector |
| Clock.Clock.CallHandlers | src/sst/core/clock.cc:140-183 | each handler is called once in order, and exactly those that answered false remain, in order, with their positions as indices |
| Clock.Clock.Execute | src/sst/core/clock.cc:127-190 | the clock fires at the multiple of its period that its cycle gives, later than ever before, and is queued once for a period later, or stops if there is no handler |
| ClockRun.Simulation.Register | src/sst/core/clock.cc:33-71 | registering a handler on any of several clocks keeps the vectors and the timing of all of them |
| ClockRun.Simulation.Unregister | src/sst/core/simulation.cc:1484-1491 | so does unregistering one, if it is inactive or active on that clock; otherwise the vector of that clock is wrong |
| ClockRun.WrongEntryErased | src/sst/core/simulation.cc:1484-1491 | after a handler is unregistered from a clock that is not its own, another one is active and in no vector |
| ClockRun.Simulation.Fire | src/sst/core/clock.cc:127-190 | so does a clock that fires; its tick is added to those so far |
| ClockRun.Simulation.Play | src/sst/core/clock.cc:33-214 | every sequence of these, in the order of time and priority, keeps them all, up to a fatal registration or an unregistration from the wrong clock |
| ClockRun.Simulation.TicksInOrder | src/sst/core/clock.cc:127-190 | in every run, the ticks of a clock come at multiples of its period, each strictly later than the one before |
| Clock.RemainingMembers | src/sst/core/clock.cc:140-183 | the handlers that remain are exactly those that answered false |
| ExitCount.BitsSet | src/sst/core/baseComponent.h:1259-1291 | the setters change the bits they are meant to, and never leave both end bits set |
| ExitCount.BaseComponent.RegisterAsPrimaryComponent | src/sst/core/baseComponent.cc:857-874 | registering after wire-up is fatal; otherwise the component is primary, with its end bits kept |
| ExitCount.BaseComponent.PrimaryComponentDoNotEndSim | src/sst/core/baseComponent.cc:876-894 | a primary component that does not hold up the end yet sets its bits and has to be counted |
| ExitCount.BaseComponent.PrimaryComponentOKToEndSim | src/sst/core/baseComponent.cc:896-914 | one that does not allow the end yet sets its bits and has to be discounted |
| ExitCount.Exit.RefIncrement | src/sst/core/exit.cc:45-51 | the total and the thread's count go up |
| ExitCount.Exit.RefDecrement | src/sst/core/exit.cc:53-79 | both counts go down, the end time is noted when the thread or the run is out, and a check is queued in a run of one thread |
| ExitCount.Exit.CheckEnd | src/sst/core/exit.cc:87-132 | on one rank, the run ends if the count is 0 |
| ExitCount.StepKeeps | src/sst/core/exit.cc:45-132 | no call or check fails, and each keeps the counts equal to the components they stand for |
| ExitCount.RunInv | src/sst/core/exit.cc:45-132 | this holds over every interleaving, and in a run of one thread a check is queued whenever the count has dropped to 0 |
| ExitCount.SettledCount | src/sst/core/exit.cc:81-85 | with no call under way, the count is the number of components that hold up the end |
| ExitCount.EndsOnlyWhenAllAgree | src/sst/core/exit.cc:111-132 | a check that ends the run, whatever calls are under way, finds no component that holds it up but those not yet counted, none if no call is under way, and ends it no earlier than any thread ran out |
| ExitCount.ReleaseKeepsIff | src/sst/core/baseComponent.cc:896-914 | allowing the end keeps the counts right if and only if the component has held it before, or has no say |
| ExitCount.ReleaseWithoutHold | src/sst/core/baseComponent.cc:896-914 | otherwise the call is fatal if nothing is counted, and else takes away another component's count |
| ExitCount.QueuedOncePerDrop | src/sst/core/exit.cc:64-68 | in a run of one thread, the check is put into the queue once for each time the count drops to 0 |
| ExitCount.QueuedOnceIff | src/sst/core/exit.cc:87-92 | it is put there at most once if and only if, after a first release of everything and a later hold, it never comes to everything being released again |
| ExitCount.QueuedTwice | src/sst/core/exit.cc:87-92 | a run of one component in which it is queued twice before it is made |
| ExitCount.EachCheck | src/sst/core/exit.cc:111-132 | every queued check of a run changes nothing while something is held, and otherwise ends the run at the last drop |
| ExitCount.SecondCheckChangesNothing | src/sst/core/exit.cc:111-132 | a check after another changes nothing, if nothing is counted between them |

## Left out

- Decimal.DecimalFixedPoint.Inverse: the floating-point seed is a parameter, assumed to have seven good digits rounded down; accuracy is stated for positive numbers whose inverse fits, because of a negative one the seed loses the sign.
- Decimal.DecimalFixedPoint.DivideAssign: as for the inverse.
- Decimal.DecimalFixedPoint.MultiplyAssign: of a number multiplied by itself in place, which overwrites words that are still to be read, only validity and sign are stated.
- Decimal.DecimalFixedPoint.ToLong: there is a fraction word, because the source reads the word below the point; nothing is stated for magnitudes that round to 2^63 or more, where signed arithmetic overflows.
- DecimalRead.FromString: the exponent is an optionally signed integer, where the source accepts any floating-point text and truncates it; after a bad character, or a digit outside the words, where the source stores out of bounds, the words are not stated.
- `from_double`, `toDouble` and `toUnsignedLong`, and the comparison operators other than `>=`, which have the same shape.
- ExchangeProtocol.RunInv: the size and the data of a message are one channel entry, and MPI is a channel from each rank to each other; whether a send is buffered is left open.
- LinkExchange.Reconcile: the link ID that the component keeps and the final re-sorting of the link map are not part of the link's model.
- GraphScatter.RunInv: the set of ranks and the graph are sent as one message; statistics groups and restart data that the graph carries are not modelled.
- GraphDistribution.SplitsIntoParts: the graph is loaded on one rank without ghost components, so that each component is placed on some rank and no link is non-local at the start.
- MemPoolSafety.RunInv: each allocation or deletion is one step, since threads meet only inside the locked store; mmap returns fresh page-aligned memory, a block fits in an arena, and the option to align is fixed before the first pool. Items have at least one byte.
- The memory reported in bytes, and the release of arenas at the end.
- XmlRead.ReadTextKeepingSpace: the branch of the source that condenses white space, and comparison without case, are not modelled; attribute values use neither. Reading past the end of the text yields NUL.
- XmlRead.ConvertUTF32ToUTF8: bit operations are written as arithmetic on the low six bits.
- XmlNode.Node.ReplaceChild: the clone is a parameter, and the memory of the deleted nodes is only taken out of the document; the same holds for the other list operations. What is below a node is a ghost parameter.
- XML streams, row and column stamps, visitors, and all nodes but their lists.
- CheckpointName.CheckpointAction.CreateCheckpoint: the ID does not wrap at 32 bits; directories, barriers and the files' contents are left out.
- LinkRestart.Restart.Unpack: attached tools and pending events are left out, latencies do not wrap at 64 bits, and each end is unpacked once.
- Clock.Clock.Execute: handlers answer but do not register or unregister handlers themselves; the TimeVortex is the multiset of times for which the clock is queued, taken out in the order of time and priority; times do not wrap.
- Clock.Clock.RegisterHandler: warnings are left out.
- Clock.Clock.UnregisterHandler: the index of an active handler is inside the vector; the source erases out of bounds if a handler of another clock has an index beyond it.
- ClockRun.Simulation.Play: a run goes no further than the first handler unregistered from the wrong clock.
- XmlRoundTrip.AttributeRoundTrip: nothing is stated for values that are ill-formed UTF-8 and contain "&#x", which come back or do not.
- ExitCount.Exit.CheckEnd: the reduction over several ranks is left out, so the end of the run is stated for one rank.
- Name checks, rank comparison, link maps, factory loading and options: lookups and containers that would only add easy members.
