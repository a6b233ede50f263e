# A verified model of the YCSB-C driver

A Dafny 4.11 model of the YCSB-C benchmark driver: how it names and hashes keys,
how it draws keys and operations, how its latency histogram counts, how its
hashtable database stores records and owns memory, and what its load and run
phases do under every interleaving of client threads.

`dafny verify dfyconfig.toml` checks the whole project.

## What is modelled

| file | contents |
|---|---|
| `Fnv.dfy` | 64-bit FNV-1a over the eight octets of a word; injectivity on numbers sharing their upper 32 bits |
| `KeyName.dfy` | key names, their decoding, injectivity and sort order |
| `Zipfian.dfy` | the Zipfian generator: incremental zeta, eta, three-branch sampling, runs of calls |
| `Generators.dfy` | counter, weighted choice, uniform, scrambled and latest key choosers, rejection loop |
| `Buckets.dfy` | the 154-entry bucket table; linear search against arithmetic search |
| `HistogramSpec.dfy`, `HistogramStats.dfy`, `Histogram.dfy` | histograms as values, percentiles and variance against the recorded values, and the mutable object |
| `CStrings.dfy`, `Records.dfy` | NUL-terminated and hashed strings; the nested-map meaning of a record store |
| `HashtableHeap.dfy`, `HashtableDb.dfy` | the memory of the hashtable database, ownership of value strings, and the database object |
| `Workload.dfy` | field names and values, operation wiring, the part of the workload that produces keys and operations |
| `Phases.dfy` | the load and run phases as an interleaved step system |
| `Requests.dfy` | over all runs whose draws a key chooser can make: exactly when every request is found, and exactly when numbers of the run phase are requested |
| `Outcomes.dfy` | the merged histogram and the loaded records under every interleaving |
| `Playback.dfy` | any interleaved run played against the hashtable database object |
| `Client.dfy`, `Driver.dfy` | the client against the hashtable database, and its calls as runs of the step system; the loop of one client thread over client, database and histogram, and the final merge |
| `Options.dfy`, `Reals.dfy` | optional values; products and quotients of reals |

## Modelling decisions

- Unsigned 64-bit words are naturals below 2^64 with every reduction written out. Exclusive or is
  defined bit by bit on naturals; on unsigned words `& 0xff` and `>> 8` are `% 256` and `/ 256`.
- Doubles are exact reals. `std::pow` is a function parameter obeying a few laws (`PowLaws`, shown
  consistent by `PowLawsHaveAModel`); `sqrt` is a partial function parameter, a root wherever it is
  defined and defined on the non-negative reals.
- Every random draw is an argument: a real in [0, 1), or the value a generator returns. Where a client
  call needs more draws of the rejection loop than it is given, it reports that it has not settled.
- An operation whose C++ result would be undefined (a NaN converted to an integer, a division by zero,
  the trailing `assert(false)` of the weighted choice) yields `None`; the contracts say when that happens.
- Assertions of the original about its callers are preconditions: item counts between 2 and
  `kMaxNumItems`, `RaiseZeta` only upwards.
- Characters are octets; a `char *` taken from a string ends at its first NUL (`CStr`).
- The hashtable database keeps its pointers explicit: field tables and value strings have addresses in
  maps owned by the database object, freeing removes an address, and freeing requires it to be live.
  `std::unordered_map` keyed by hashed strings is a map keyed by contents, which is what its equality
  amounts to (`EqualIsContents`).
- In the step system one action is one atomic access to shared state: a `fetch_add` on the key counter,
  one draw of the key chooser, or one database call. A read-modify-write is two database calls. The
  operation picked and the key drawn are arbitrary, so what is shown of every run holds for every operation
  mix and request distribution. Where a condition is claimed to be necessary, the draws are restricted to
  a set of keys, in particular to those the wired chooser can draw (`Requests.dfy`). The database starts empty. Record indices are a parameter of the step system, required not
  to collide below 2^32; `SetupForValid` shows that the names built by the workload qualify, hashed or
  ordered.

## Where the code does not do what one would expect

- `ZipfianGenerator` with a non-zero base returns 0 and 1 from its first two branches without adding
  the base, as in the zipfian scan and field lengths, built with base 1. Every draw stays in range if and
  only if the base is 0 (`InRangeForEveryDrawIff`; `ZeroDraw` is a failing draw); `InRangeIff` says
  which draws do.
- A generator built over two items and then asked for more returns the item count itself for some draw;
  `BelowIff` gives the exact condition.
- `Percentile` divides by zero exactly for an empty first bucket with a threshold that is not positive
  (`DividesByZeroIff`): an empty histogram, or p <= 0.
- `HashtableDB::Update` on a missing record keeps the first value of a repeated field and leaks the
  others, although `core/db.h` says values are overwritten; `HashtableDB.Update` states exactly when.
- The client reads `"field" + NextFieldName()`, which names no field that `BuildValues` ever writes
  (`PlainRecordReadFindsNothing`), so a single-field read finds nothing however long the client has run
  (`ServedPlain`).
- `insert_key_sequence_` is set to the record count and never advanced. Keys inserted during the run phase
  are therefore requested only if loading stopped short of the record count: with uniform or latest
  requests and a few transactions per thread, no run requests one if and only if the remainder of the
  record count modulo the thread count is at most the first number loaded
  (`NeverRequestedByDistribution`; `NeverRequestedIff` for any set of keys and any number of transactions,
  `InsertUpTo` for a run that does request one). `latest` never requests key 0.
- Loading drops the remainder of the record count modulo the thread count. Every request of every run
  phase finds its record if and only if every key that can be drawn and accepted was loaded, or no thread
  has anything to do (`EveryRequestFoundIff`; `MissingRun` is otherwise a run whose request misses). With
  uniform requests that is a remainder and a start of 0, with latest a remainder at most the start and a
  start of at most 1 (`FoundByDistribution`).
- With fewer records than threads a load phase records nothing, and the percentiles printed for it divide
  by zero (`EmptyLoad`).
- Operation weights that cancel out to 0 make the weighted choice divide by it: the first value is then
  always chosen, or none is (`ChooseOverZero`). With no positive proportion no operation is registered and
  the trailing assertion is reached (`EveryDrawPicksIff`).

## Model

| member | source | states |
|---|---|---|
| `Fnv.XorSelfInverse` | core/utils.h:29 | exclusive or with the same word twice gives the word back |
| `Fnv.XorOctet` | core/utils.h:26-29 | exclusive or with an octet changes only the low octet and stays a 64-bit word |
| `Fnv.FNVHash64` | core/utils.h:22-33 | the loop computes the hash function the other results are about |
| `Fnv.HashIsFnv1a` | core/utils.h:19-33 | every word is the little-endian value of its eight octets, and its hash is FNV-1a of them |
| `Fnv.HashOfLetterA` | core/utils.h:19-33 | from the offset basis, FNV-1a of the text "a" is the value tabulated in draft-eastlake-fnv |
| `Fnv.MultiplyByPrimeInjective` | core/utils.h:20-30 | multiplying by the prime loses nothing modulo 2^64 |
| `Fnv.SmallCombinationVanishes` | core/utils.h:20-30 | no non-trivial small combination of the first three powers of the prime comes within 255 of a multiple of 2^64 |
| `Fnv.FourOctetsInjective` | core/utils.h:25-31 | four absorbed octets are determined by the resulting state |
| `Fnv.HashInjectiveOnLow32` | core/utils.h:22-35 | two words that agree above their low 32 bits share a hash only if equal |
| `Fnv.HashInjective` | core/utils.h:22-35 | distinct record numbers below 2^32 never collide |
| `KeyName.DecimalOfToString` | core/core_workload.h:220 | a printed number reads back as itself and consists of digits |
| `KeyName.KeyNameRoundTrip` | core/core_workload.h:216-224 | a key name decodes to the number (or hash) it was built from, for any padding |
| `KeyName.KeyNameShape` | core/core_workload.h:216-224 | a name is "user", zeros up to the padding and the digits of the number or its hash, and as long as the longer of padding and digits |
| `KeyName.KeyNameInjective` | core/core_workload.h:216-224 | names are distinct: for all numbers when ordered, for numbers sharing their upper 32 bits when hashed |
| `KeyName.LexIsNumeric` | core/core_workload.h:110-114 | on digit strings of one length lexicographic order is numeric order |
| `KeyName.LexTotal` | core/core_workload.h:110-114 | lexicographic order is total and puts a string before its extensions |
| `KeyName.SortOrderIffPadded` | core/core_workload.h:110-114 | ordered names up to a maximum sort numerically if and only if the padding covers its digits or all numbers have one digit |
| `Zipfian.PowLawsHaveAModel` | core/zipfian_generator.h:60-113 | the laws assumed of `std::pow` are satisfiable |
| `Zipfian.ZetaOfTwo` | core/zipfian_generator.h:31-109 | the second branch's bound 1 + 0.5^theta is zeta(2) |
| `Zipfian.ZetaGrowsBy` | core/zipfian_generator.h:70-77 | each term of zeta is (1/n)^theta |
| `Zipfian.ThirdBranchArgument` | core/zipfian_generator.h:59-113 | in the third branch eta is defined and the powered argument lies in [(2/n)^(1-theta), 1], below 1 and with eta positive for three or more items |
| `Zipfian.ArgumentLine` | core/zipfian_generator.h:59-113 | the powered argument is the linear function of the draw that is 1 at 1 and (2/n)^(1-theta) where the third branch begins |
| `Zipfian.SampleCases` | core/zipfian_generator.h:93-114 | which branch a draw takes and the range of what it returns; never undefined in a reachable state |
| `Zipfian.ExactSampler` | core/zipfian_generator.h:93-114 | over exactly its own items with base 0: 0 on [0, 1/zeta(n)), 1 on [1/zeta(n), zeta(2)/zeta(n)), at least 2 and below n elsewhere |
| `Zipfian.ItemInterval` | core/zipfian_generator.h:93-114 | item k >= 2 comes from exactly the draws whose powered argument lies between (k/n)^(1-theta) and ((k+1)/n)^(1-theta) |
| `Zipfian.ThirdBranchExact` | core/zipfian_generator.h:113 | the same interval in the third branch for any base and any number of items asked for |
| `Zipfian.SampleOnto` | core/zipfian_generator.h:93-114 | every item is drawn for some draw |
| `Zipfian.SampleMonotone` | core/zipfian_generator.h:93-114 | the item is a non-decreasing function of the draw |
| `Zipfian.BelowIff` | core/zipfian_generator.h:59-114 | every draw gives an item below the count asked for if and only if the generator has three items or more, or has never been asked for more than two |
| `Zipfian.TwoItemsOvershoot` | core/zipfian_generator.h:59-113 | otherwise some draw gives the count itself |
| `Zipfian.RunConsistent` | core/zipfian_generator.h:53-57 | after any run zeta is the from-scratch sum over the largest count seen, and eta belongs to it |
| `Zipfian.RunBelow` | core/zipfian_generator.h:93-114 | with three items or more, every result of every run of growing and shrinking counts is below its own call's count |
| `Zipfian.InRangeForEveryDrawIff` | core/zipfian_generator.h:93-114 | every draw lands in [base, base + n) if and only if the base is 0 |
| `Zipfian.ZeroDraw` | core/zipfian_generator.h:105-107 | the smallest draw gives 0, whatever the base |
| `Zipfian.InRangeIff` | core/zipfian_generator.h:105-113 | with any base, exactly which draws land in [base, base + n) |
| `Zipfian.ZipfianGenerator.Zeta` | core/zipfian_generator.h:70-77 | the incremental loop adds exactly the missing terms |
| `Zipfian.ZipfianGenerator.constructor` | core/zipfian_generator.h:26-37 | establishes the invariant with zeta over the items, then discards one sample |
| `Zipfian.ZipfianGenerator.RaiseZeta` | core/zipfian_generator.h:53-57 | keeps zeta equal to the from-scratch sum; its assertion is a precondition met at every call |
| `Zipfian.ZipfianGenerator.Next` | core/zipfian_generator.h:93-114 | one step of the specification: raises zeta and eta when needed and returns the sample, never undefined |
| `Generators.CounterGenerator.Next` | core/counter_generator.h:22 | hands out the old value and advances modulo 2^64 |
| `Generators.CounterGenerator.Last` | core/counter_generator.h:23 | the number before the counter, wrapping at zero |
| `Generators.PickIsSlice` | core/discrete_generator.h:53-58 | repeated subtraction picks i exactly when the draw lies in [prefix(i)/sum, prefix(i+1)/sum) |
| `Generators.PickExactly` | core/discrete_generator.h:48-62 | with non-negative weights of positive sum and a draw in [0, 1) some value is always picked: the trailing assertion is unreachable |
| `Generators.ChooseOverZero` | core/discrete_generator.h:48-62 | with weights summing to 0 the first value is chosen if its weight is positive, otherwise the trailing assertion is reached |
| `Generators.DiscreteGenerator.AddValue` | core/discrete_generator.h:39-45 | appends the value and keeps the sum equal to the total weight |
| `Generators.DiscreteGenerator.Next` | core/discrete_generator.h:48-62 | the loop returns the value at the chosen index and remembers it, for any weights, a zero sum included |
| `Generators.UniformGenerator.Next` | core/uniform_generator.h:35-38 | a number between the bounds, both inclusive |
| `Generators.Scramble` | core/scrambled_zipfian_generator.h:42-44 | scrambled keys stay in [base, base + items) |
| `Generators.ScrambleIsFnv1a` | core/scrambled_zipfian_generator.h:42-44 | the scrambled key is the base plus FNV-1a of the item's eight octets modulo the number of items |
| `Generators.ScrambledZipfianGenerator.Next` | core/scrambled_zipfian_generator.h:46-48 | FNV-1a of the inner generator's sample modulo the number of items, in range for every base |
| `Generators.LatestOffset` | core/skewed_latest_generator.h:36-39 | the unsigned subtraction never wraps |
| `Generators.SkewedLatestGenerator.constructor` | core/skewed_latest_generator.h:23-26 | builds the inner generator over Last() items and draws a first key in [1, Last()] |
| `Generators.SkewedLatestGenerator.Next` | core/skewed_latest_generator.h:36-39 | a key in [0, Last()], and in [1, Last()] unless a two-item generator was asked for more |
| `Generators.DrawRange` | core/core_workload.cc:141-157 | the range of keys each request distribution can draw as wired by `Init` |
| `Generators.DrawnExactly` | core/core_workload.cc:141-157 | exactly which keys a wired chooser draws: uniform [0, recordCount), latest [1, recordCount), zipfian the scrambled item numbers |
| `Generators.FirstAccepted` | core/core_workload.h:210-212 | the first draw not beyond the last key, all earlier ones being beyond it |
| `Generators.ScrambledCanDraw` | core/scrambled_zipfian_generator.h:42-48 | what the scrambled generator computes from a sample is a key its distribution can draw |
| `Generators.LatestCanDraw` | core/skewed_latest_generator.h:36-39 | what the latest generator computes from a sample is a key its distribution can draw |
| `Generators.RequestChooser.Next` | core/core_workload.cc:143-161 | whichever generator object was wired, it stays valid and returns the key its distribution makes of the random number |
| `Generators.OneDrawSuffices` | core/core_workload.h:208-214 | uniform, latest, and zipfian without inserts: the rejection loop stops after one draw |
| `Buckets.TableIsClosedForm` | utils/histogram.cc:12-167 | the 154-entry table is a closed form scaled by ten every 16 entries, ending in 1e200 |
| `Buckets.BucketSpec` | utils/histogram.cc:180-186 | a value lies between the limits of its bucket |
| `Buckets.FastIsSearch` | utils/histogram.cc:180-216 | the arithmetic bucket equals the searched one for every real |
| `HistogramSpec.MergeIsConcat` | utils/histogram.cc:228-239 | merging two histograms is recording one sequence of values after the other |
| `HistogramSpec.HistOfPermutation` | utils/histogram.cc:180-194 | only the multiset of recorded values matters |
| `HistogramSpec.AnyOrderAnyGrouping` | utils/histogram.cc:169-239 | any two ways of clearing, adding and merging the same values give identical histograms |
| `HistogramSpec.BucketsTotalNum` | utils/histogram.cc:186-237 | bucket counts total num, the number of values recorded |
| `HistogramSpec.CumCounts` | utils/histogram.cc:246-247 | cumulative bucket counts count the values of the first buckets |
| `HistogramSpec.MinMaxSpec` | utils/histogram.cc:187-190 | min and max bound every recorded value and are values or their initial constants |
| `HistogramSpec.MinMaxAttained` | utils/histogram.cc:170-190 | for values in [0, 1e200] min and max are recorded values |
| `HistogramStats.DividesByZeroIff` | utils/histogram.cc:243-255 | a percentile divides by zero exactly for an empty first bucket and an empty histogram or p <= 0 |
| `HistogramStats.EmptyPercentile` | utils/histogram.cc:243-264 | every percentile of an empty histogram divides by zero |
| `HistogramStats.PercentileInRange` | utils/histogram.cc:243-264 | for p > 0 and a non-empty histogram the percentile is defined and within [min, max] |
| `HistogramStats.PercentileMonotone` | utils/histogram.cc:243-264 | the percentile is monotone in p, across buckets and clamping |
| `HistogramStats.PercentileBucket` | utils/histogram.cc:244-251 | the search stops in the bucket of the value of rank ceil(num p / 100) |
| `HistogramStats.PercentileLinear` | utils/histogram.cc:243-264 | within the bucket the result times the values in it rises from the lower edge in proportion to the threshold less the values below it, unless clamped to min or max |
| `HistogramStats.PercentileBeyond` | utils/histogram.cc:263 | for p > 100 the result is the max |
| `HistogramStats.PercentileAccuracy` | utils/histogram.cc:243-264 | the result is within one bucket width of that value, and within a quarter of it between 4 and 9e9 |
| `HistogramStats.SpreadSpec` | utils/histogram.cc:272-277 | num times sum of squares minus squared sum is the sum over pairs of squared differences; zero only if all values are equal |
| `HistogramStats.VarianceSpec` | utils/histogram.cc:272-277 | the number under the root is never negative, and zero only if all values are equal |
| `HistogramStats.VarianceIsMeanSquare` | utils/histogram.cc:272-277 | the variance times the number of values is the sum of squared distances from the average, and times its square the sum over pairs of squared differences |
| `HistogramStats.AverageInRange` | utils/histogram.cc:266-270 | the average of a non-empty histogram lies between min and max |
| `HistogramStats.AverageIsMean` | utils/histogram.cc:266-270 | the average times the number of values is their sum |
| `Histograms.Histogram.Clear` | utils/histogram.cc:169-178 | leaves the empty histogram |
| `Histograms.Histogram.Add` | utils/histogram.cc:180-194 | records the value, by linear search |
| `Histograms.Histogram.AddFast` | utils/histogram.cc:196-226 | records the value with the same new state as `Add`; the division loop terminates |
| `Histograms.Histogram.Merge` | utils/histogram.cc:228-239 | adds another histogram in field by field, also when it is the same object |
| `Histograms.Histogram.Percentile` | utils/histogram.cc:243-264 | the loop computes the specified percentile |
| `Histograms.Histogram.Average` | utils/histogram.cc:266-270 | the mean of the recorded values |
| `Histograms.Histogram.StandardDeviation` | utils/histogram.cc:272-277 | the root is only taken of a non-negative number; the squared result times the number of values is the sum of squared distances from the average, and the result is zero exactly when all values are equal |
| `CStrings.SDBMHash` | lib/string.h:52-59 | the loop evaluates the base-65599 polynomial of the characters before the NUL, modulo 2^64 |
| `CStrings.Widen` | lib/string.h:54-56 | a character is sign-extended to 64 bits |
| `CStrings.StrLen` | lib/string.h:48 | the number of characters before the first NUL |
| `CStrings.SetValue` | lib/string.h:46-50 | stores a C string with its length and its hash |
| `CStrings.EqualIsContents` | lib/string.h:84-87 | hash-first equality is equality of contents |
| `Records.OverlayLookup` | core/db.h:66-76 | after an overlay a field holds the last value written to it, or what it held |
| `Records.FillLookup` | db/hashtable_db.cc:80-83 | after filling a new record a field holds the first value written to it |
| `Records.SelectConcat` | db/hashtable_db.cc:34-38 | requested fields are returned in request order |
| `Records.SelectMember` | db/hashtable_db.cc:34-38 | exactly the requested fields that exist are returned, with their values |
| `Records.SelectOne` | db/hashtable_db.cc:34-38 | one requested field is returned once if it exists |
| `Records.DeleteSpec` | db/hashtable_db.cc:118-127 | delete removes exactly the one record and fails only if there is none |
| `Records.InsertKeepsPrefix` | db/hashtable_db.cc:107-115 | insert keeps the longest conflict-free prefix and reports a conflict exactly when that is not everything |
| `Records.FirstConflictSpec` | db/hashtable_db.cc:107-114 | that prefix has distinct new names and the next pair conflicts |
| `Records.InsertOkIff` | db/hashtable_db.cc:107-115 | insert succeeds exactly on distinct names new to the record |
| `Records.UpdateOverlays` | db/hashtable_db.cc:73-96 | update overlays the pairs, on an existing record or with distinct names |
| `Records.RepeatedFieldDisagrees` | db/hashtable_db.cc:77-94 | a repeated field keeps its first value in a new record and its last in an existing one |
| `Records.KeyIndexInjective` | db/hashtable_db.cc:23 | within a table distinct keys have distinct indices; across tables they can collide |
| `HashtableHeap.StoreLeaked` | db/hashtable_db.cc:86-92 | storing a string gives it an owner and orphans exactly the string it replaces |
| `HashtableHeap.ReplaceField` | db/hashtable_db.cc:85-93 | replacing a value and freeing the old one updates the record and leaks nothing |
| `HashtableHeap.DropRecord` | db/lock_stl_db.hbak:40-46 | freeing a record's strings and table removes exactly that record and leaks nothing |
| `HashtableDb.HashtableDB.DeleteString` | db/lock_stl_db.hbak:54 | frees a string, which must be live: no double free |
| `HashtableDb.HashtableDB.TableInsert` | lib/stl_hashtable.h:60-65 | inserts under an absent key only |
| `HashtableDb.HashtableDB.TableUpdate` | lib/stl_hashtable.h:67-74 | replaces the value of a present key and returns the old one |
| `HashtableDb.HashtableDB.Entries` | lib/stl_hashtable.h:86-100 | without a start key, lists every entry of a field table exactly once |
| `HashtableDb.HashtableDB.KeyEntries` | lib/stl_hashtable.h:86-100 | with a start key and a limit, for any iteration order of the table: the stretch of that order from the start key on, as long as the limit and the table allow; empty if the key is not there |
| `HashtableDb.HashtableDB.Read` | db/hashtable_db.cc:21-41 | status and fields of the abstract record; the result is untouched when there is none |
| `HashtableDb.HashtableDB.Scan` | db/hashtable_db.cc:43-71 | always succeeds; one answer per scanned record, with the listing or the selection of the abstract record; a negative length never limits |
| `HashtableDb.HashtableDB.Update` | db/hashtable_db.cc:73-96 | contents as the nested map; leaks if and only if it creates a record from pairs that repeat a field |
| `HashtableDb.HashtableDB.Insert` | db/hashtable_db.cc:98-116 | contents and status as the nested map; leaks nothing |
| `HashtableDb.HashtableDB.DeleteFieldHashtable` | db/lock_stl_db.hbak:40-46 | frees each string of the table once, then the table |
| `HashtableDb.HashtableDB.Delete` | db/hashtable_db.cc:118-127 | contents and status as the nested map; leaks nothing |
| `HashtableDb.Replay` | db/hashtable_db.cc:21-127 | any sequential run of reads, inserts, updates and deletes matches the nested map in contents, statuses and read results, and garbage grows if and only if some update creates a missing record from repeated names |
| `HashtableDb.DistinctNeverLeaks` | db/hashtable_db.cc:73-96 | no run whose updates have distinct names contains such an update |
| `Workload.IndexInjective` | core/core_workload.h:216-224 | records of distinct numbers below 2^32 never collide in the database |
| `Workload.BuildValues` | core/core_workload.cc:196-203 | one pair per field, named "field" and its number, each name once |
| `Workload.ValuesOverlay` | core/core_workload.cc:196-203 | written over a record, field j holds payload j and every other field is kept |
| `Workload.OneValueOverlay` | core/core_workload.cc:205-210 | written over a record, the one drawn field holds the content and every other field is kept |
| `Workload.LoadedFields` | core/core_workload.cc:196-203 | a loaded record has exactly the fields field0 to field(n-1) |
| `Workload.SingleFieldReadFindsNothing` | core/client.h:76-79 | a single-field read of a loaded record finds no field |
| `Workload.StorePlain` | core/core_workload.cc:196-210 | inserting or updating with names of the form field(i) keeps every field of every record of that form |
| `Workload.PlainRecordReadFindsNothing` | core/client.h:76-79 | on any record of such fields a single-field read finds no field |
| `Workload.WireSpec` | core/core_workload.cc:125-139 | each registered operation carries its own, positive proportion |
| `Workload.WireExactly` | core/core_workload.cc:125-139 | each operation of positive proportion is registered exactly once, in the order of `Init`, and no other is |
| `Workload.WorkloadOwns` | core/core_workload.cc:125-139 | an operation is picked by exactly the draws in its share of [0, 1), after the shares of the operations before it |
| `Workload.OperationChosen` | core/core_workload.cc:125-139 | with some positive proportion every draw picks an operation of positive proportion |
| `Workload.EveryDrawPicksIff` | core/core_workload.cc:125-139 | every draw picks an operation if and only if some proportion is positive |
| `Workload.CoreWorkload.constructor` | core/core_workload.cc:123-141 | counter at the insert start, last key at the record count minus one, operations wired in order |
| `Workload.CoreWorkload.NextSequenceKey` | core/core_workload.h:203-206 | the name of the next number; the last requestable key does not move |
| `Workload.CoreWorkload.NextOperation` | core/core_workload.h:156 | the registered operation owning the draw |
| `Workload.CoreWorkload.NextTransactionKey` | core/core_workload.h:208-214 | over given chooser values, the name of the first accepted one and the number used |
| `Workload.CoreWorkload.DrawTransactionKey` | core/core_workload.h:208-214 | over a chooser object, the same: every value is the one drawn from its random number, all but the last are rejected, and the name is that of the last |
| `Workload.OneKeyDrawn` | core/core_workload.h:208-214 | with no room for new keys, the loop over a chooser object stops after one draw |
| `Workload.WireOperations` | core/core_workload.cc:125-139 | registers exactly the operations of positive proportion, in order |
| `Clients.Client.DoInsert` | core/client.h:40-45 | inserts a full record under the next counter value, field j holding payload j; succeeds exactly when the record is missing or shares no field; leaks nothing |
| `Clients.Client.TransactionRead` | core/client.h:72-83 | status and contents of the record of the accepted key |
| `Clients.Client.Write` | core/client.h:121-131 | sets the one drawn field, or every field of the payload, keeps all others, and creates the record if it is missing; leaks nothing |
| `Clients.Client.TransactionScan` | core/client.h:107-119 | changes nothing, succeeds, and answers for the records from the accepted key on in the table's iteration order, up to the scan length |
| `Clients.Client.TransactionUpdate` | core/client.h:85-131 | update and read-modify-write set the one drawn field, or every field of the payload, of the accepted key's record and touch nothing else; leak nothing |
| `Clients.Client.Execute` | core/client.h:49-69 | each of the five operations has the specified effect and outcome; only an insert advances the counter; nothing leaks |
| `Clients.Client.DoTransaction` | core/client.h:47-70 | the draw picks the operation by the wired weights; contents, counter and outcome follow from it and the other draws; nothing leaks |
| `Clients.EffectPlain` | core/client.h:47-139 | no client operation gives a record a field not named field(i) |
| `Clients.InsertIsActions` | core/client.h:40-45 | an uninterrupted `DoInsert` is a run of the step system with the same effect |
| `Clients.TransactionIsActions` | core/client.h:47-139 | an uninterrupted transaction of any of the five operations, rejected draws included, is a run of the step system with the same effect on store and counter and the same outcome |
| `Phases.SetupForValid` | core/core_workload.h:216-224 | the names a workload builds never collide below 2^32, hashed or ordered, with any padding |
| `Phases.FetchKeepsInv` | core/counter_generator.h:22 | an atomic fetch by any thread keeps the accounting of issued numbers |
| `Phases.InsertKeepsInv` | core/client.h:40-45 | the insert of a held number is new to the database and succeeds |
| `Phases.RequestKeepsInv` | core/client.h:72-131 | a read, scan, update or half of a read-modify-write finds its record and adds or removes none |
| `Phases.ChoiceKeepsInv` | core/client.h:47-64 | picking an operation or drawing a key, accepted or rejected, keeps the invariant |
| `Phases.RunKeepsInv` | ycsbc.cc:67-76 | the invariant holds in every state of every interleaving |
| `Phases.PhaseTotals` | ycsbc.cc:143-154 | the summed successes and the merged histogram both count threads times quota |
| `Phases.LoadCount` | ycsbc.cc:119-137 | the records loaded fall short of the record count by its remainder modulo the thread count |
| `Phases.LoadComplete` | ycsbc.cc:118-154 | under every interleaving loading issues exactly consecutive numbers, each once, and stores exactly that many distinct records, all successfully |
| `Phases.LoadTerminates` | ycsbc.cc:67-76 | loader threads never get stuck and finish after exactly two actions per record |
| `Phases.Progress` | ycsbc.cc:67-76 | in either phase, until all threads have returned some thread can move |
| `Phases.BothRun` | ycsbc.cc:118-224 | from number 0 with the thread count dividing the record count, every key requested in the run phase was loaded and is found, numbers issued in the run phase follow on and are never requested, and at the end every number issued has its record and every transaction has succeeded |
| `Phases.AllRequestableIff` | ycsbc.cc:119-147 | every acceptable key is loaded if and only if loading starts at 0 and the thread count divides the record count |
| `Requests.EveryRequestFoundIff` | ycsbc.cc:118-224 | for draws from any set of keys, every request of every run is found if and only if opCount < threads or every acceptable key of the set was loaded |
| `Requests.MissingRun` | ycsbc.cc:118-224 | a key that can be drawn and was not loaded is missed by some run |
| `Requests.FoundByDistribution` | core/core_workload.cc:141-157 | the same condition spelled out for uniform, latest and zipfian requests |
| `Requests.NeverRequestedIff` | core/core_workload.h:203-214 | for draws from any set of keys, no run requests a number handed out in the run phase if and only if no acceptable key of the set is in reach of the transactions |
| `Requests.InsertUpTo` | core/core_workload.h:203-214 | a run that hands out the numbers up to a reachable key and then requests it |
| `Requests.NeverRequestedByDistribution` | core/core_workload.cc:141-157 | for uniform and latest requests with enough transactions that is recordCount % threads <= start |
| `Outcomes.PhaseHistogram` | ycsbc.cc:67-154 | in either phase, under every interleaving, the merged histogram is that of the latencies of the operations that ended |
| `Outcomes.EmptyLoad` | ycsbc.cc:119-158 | with fewer records than threads the merged histogram is empty and has no percentiles |
| `Outcomes.LoadedPayloads` | core/client.h:40-45 | under every interleaving each loaded record consists of exactly the payload of the insert that carried its number |
| `Playback.Play` | db/hashtable_db.cc:21-116 | any interleaved run played against the database object ends with the contents and statuses of the step system, and garbage grows if and only if some update creates a missing record from repeated names |
| `Playback.StatusCounted` | core/client.h:44-69 | an operation counts as a success exactly when the call that ends it reports Ok |
| `Playback.DistinctRunsNeverLeak` | db/hashtable_db.cc:73-96 | a run whose updates have distinct names leaks nothing |
| `Playback.InvNeverLeaks` | db/hashtable_db.cc:73-96 | a run from a loaded state, in which every request finds its record, leaks nothing whatever is written |
| `Driver.DelegateClient` | ycsbc.cc:51-84 | over a client, its database and a histogram: contents, counter, returned count and recorded latencies are those of serving the rounds in order, and nothing leaks |
| `Driver.SequentialLoad` | ycsbc.cc:67-76 | loading under key numbers without a record, every insert succeeds, is timed, and adds the record drawn for it under the next number |
| `Driver.FilledRecords` | ycsbc.cc:67-76 | one new record per number, each with its own values, and what was there stays |
| `Driver.LoadFresh` | ycsbc.cc:117-154 | one thread loading n records into a new database ends with n records, n successes, no garbage and the histogram of the n latencies |
| `Driver.ServedPlain` | core/client.h:76-79 | however many rounds are served, a single-field read of any record finds nothing |
| `Driver.ServeIsActions` | ycsbc.cc:67-76 | the uninterrupted loop of a client thread is a run of the step system with the same store, counter, successes and latencies, other threads untouched |
| `Driver.MergeHistograms` | ycsbc.cc:152-154 | merging all into the first gives the histogram of everything recorded by any thread |

## Left out

- IEEE rounding, infinities and NaN arithmetic: reals are exact, and undefined results are `None`.
- The random engines and the internals of `pow` and `sqrt`: draws and functions are parameters.
- The iteration order of `std::unordered_map`: a scan is stated for any such order, given as an argument; in the step system a scan only requests its first key and succeeds.
- `db/rocksdb_db.cc`, `db/leveldb_db.cc`, `utils/rocksdb_config.h`: wrappers over libraries; the record store of `Records.dfy` stands in for them.
- The locked and TBB hashtables: database calls are atomic actions instead.
- The memory of key strings inside `StlHashtable`, its bucket array and load factor: ownership is proved for value strings and field tables.
- `StlHashtable` as objects of their own: its tables are maps inside the database object, so pointer aliasing is explicit rather than Dafny's.
- The latest and scrambled choosers inside the step system: its draws are arbitrary, or restricted to the keys a chooser can draw (`DrawnExactly`); how likely a draw is is not stated.
- The `isFinish` flag and the statistics thread: a "both" run uses the flag after deleting it, which the model does not represent.
- `Histogram::ToString`, perf contexts, timers and printing.
- Command-line and property parsing: parameters arrive parsed; thread count is at least 1 and counts are below 2^31.
- Field-length and scan-length generators, and `handleRocksdb`: they reuse the generators modelled here.
- Workload.CoreWorkload.NextTransactionKey: takes the chooser's successive values as a sequence, as do the client calls built on it; `DrawTransactionKey` runs the same loop over a chooser object. That a scrambled chooser over a larger key space is eventually accepted is a matter of probability and not stated.
- Generators.LatestCanDraw: speaks of a basis that does not move, as in `Init`, where the sequence behind `Last()` is never advanced.
