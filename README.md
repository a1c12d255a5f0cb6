# Springfield utilities in Dafny

This project models the utility core of the Springfield toolbox (`zenny.toybox.springfield`) and proves properties of that model. The central piece is the family of bidirectional maps: maps whose values are unique, so that every map has an inverse view. Around it sit the small helpers that the rest of the toolbox builds on.

Each Dafny module follows one Java source file:

| module | file | what it holds |
|---|---|---|
| `Wrappers` | `wrappers.dfy` | `Option` and `Outcome`. `None` stands for Java `null`; `Threw` stands for a thrown exception, named by an `Exception` value, and `Returned` for a normal return. |
| `Hashing` | `hashing.dfy` | `Hashing`: the object hash spreads and the 32-bit hash mixers. |
| `Snowflake` | `snowflake.dfy` | `SnowflakeIdGenerator`: the bit layout of ids and the `nextId` state machine. Clock readings are parameters. |
| `TailRecursion` | `tail_recursion.dfy` | `TailRecursion`: a trampoline of calls, driven step by step. |
| `CollectionUtils` | `collection_utils.dfy` | `CollectionUtils`: null-element and null-value tests, the array pass-through and the enum-map and linked-map builders. |
| `ThrowableUtils` | `throwable_utils.dfy` | `ThrowableUtils`: cause chains, the root cause, the flattened cause list and the rethrowing of unchecked throwables or of a throwable of a given type. |
| `Tuple` | `tuple.dfy` | `Tuple`: arity, element access, search, flattening equality and the hash code. |
| `OwaspEscapes` | `owasp_escapes.dfy` | `OwaspCharacterEscapes`: the escape table used by the Jackson character escaper. |
| `TypeConversion` | `type_conversion.dfy` | `DefaultTypeConversionService`: the converter registry and its cache. |
| `IdentityCard` | `identity_card.dfy` | `IdentityCardValidator`: 18-digit check digits and the 15-digit upgrade. |
| `BidirectionalMap` | `bidirectional_map.dfy` | `BidirectionalMap`: the uniqueness of values, the inverse view and the reference `put`. |
| `AbstractBidirectionalMap` | `abstract_bidirectional_map.dfy` | `AbstractBidirectionalMap`: the generic view-based operations. |
| `BijectedHashMap`, `BijectionHashMap` | `bijected_map.dfy`, `bijection_map.dfy` | The two `HashMap` subclasses that keep a reverse map. |
| `Interval` | `interval.dfy` | `Interval`: endpoints with infinities, the set operations on intervals, and the builders. |
| `HashedNodes` | `hashed_nodes.dfy` | One hash table of `HashedBidirectionalMap` (class `Nodes`): bins, resize and split, put/remove/get. |
| `TreeBins` | `tree_bins.dfy` | The tree bins of that table: search, insertion with `balanceInsertion`, rotation, deletion, splitting and moving the root to the front. |
| `HashedBidirectionalMap` | `hashed_bidirectional_map.dfy` | The coordinator: two `Nodes` tables, keyed by key and by value, kept mirrored. |
| `HashedIteration` | `hashed_iteration.dfy` | The iterators and spliterators over one table. |

Java `null` is modelled as `Option`. Exceptions are modelled as `Threw` outcomes that name the exception kind. A null dereference that the code would hit is modelled as a `NullPointer` exception rather than assumed away.

Where the code misbehaves, two definitions are given:
- a member named `...AsWritten` (or `Written...`) follows the code line by line;
- the corrected definition carries the proved property, and the rest of the model builds on it.

## Model

| member | source | states |
|---|---|---|
| Hashing.Hash | springfield-commons/src/main/java/zenny/toybox/springfield/util/algorithm/Hashing.java:65-68 | `hash(x)` smears `Optional.ofNullable(x).hashCode()`: null hashes as code 0, STANDARD returns the hash code itself, HASHMAP yields a value below 2^16 |
| Hashing.NullHashesAsZero | springfield-commons/src/main/java/zenny/toybox/springfield/util/algorithm/Hashing.java:65-68 | every hasher gives null the hash of an object whose hash code is 0 |
| Hashing.StandardIsIdentity | springfield-commons/src/main/java/zenny/toybox/springfield/util/algorithm/Hashing.java:11-17 | STANDARD's smear is the identity on 32-bit codes |
| Hashing.HashMapRange | springfield-commons/src/main/java/zenny/toybox/springfield/util/algorithm/Hashing.java:19-26 | HASHMAP's unsigned shift keeps only the upper half: the result is below 2^16 and ignores the lower 16 bits |
| Hashing.HashMapCollides | springfield-commons/src/main/java/zenny/toybox/springfield/util/algorithm/Hashing.java:19-26 | HASHMAP maps the codes 0 and 1 to the same hash |
| Hashing.MurmurSamples | springfield-commons/src/main/java/zenny/toybox/springfield/util/algorithm/Hashing.java:28-50 | MURMURHASH3 (`C2 * rotateLeft(code * C1, 15)` with wrap-around) fixes 0 and maps 1 to 0xc3539a5d |
| Hashing.Acc4Samples | springfield-commons/src/main/java/zenny/toybox/springfield/util/algorithm/Hashing.java:52-63 | ACC4's four shift/add/xor steps map 0 to 0xff83ef00 and 1 to 0xff83cee7 |
| Hashing.MurmurSteps | springfield-commons/src/main/java/zenny/toybox/springfield/util/algorithm/Hashing.java:48 | MURMURHASH3 is `C2 * rotateLeft(code * C1, 15)` with wrap-around, and multiplying by the inverses of C2 and then of C1 undoes the two multiplications |
| Hashing.RotateBack | springfield-commons/src/main/java/zenny/toybox/springfield/util/algorithm/Hashing.java:48 | a rotation left by 15 is undone by a rotation left by 17 |
| Hashing.MurmurRoundTrip | springfield-commons/src/main/java/zenny/toybox/springfield/util/algorithm/Hashing.java:46-49 | for every 32-bit code, `UnsmearMurmur` recovers the code from its MURMURHASH3 smear |
| Hashing.Acc4FirstStep | springfield-commons/src/main/java/zenny/toybox/springfield/util/algorithm/Hashing.java:56 | `h += ~(h << 9)` plus one is a multiplication by -511 modulo 2^32 |
| Hashing.UndoAcc4Step1Works | springfield-commons/src/main/java/zenny/toybox/springfield/util/algorithm/Hashing.java:56 | the first ACC4 step is undone by adding one and multiplying by the inverse of -511 |
| Hashing.Acc4ThirdStep | springfield-commons/src/main/java/zenny/toybox/springfield/util/algorithm/Hashing.java:58 | `h += h << 4` is a multiplication by 17, undone by multiplying by the inverse of 17 |
| Hashing.Acc4RoundTrip | springfield-commons/src/main/java/zenny/toybox/springfield/util/algorithm/Hashing.java:55-62 | for every 32-bit code, `UnsmearAcc4` recovers the code from its ACC4 smear, undoing the four steps in reverse order |
| Hashing.SmearInjective | springfield-commons/src/main/java/zenny/toybox/springfield/util/algorithm/Hashing.java:11-63 | STANDARD, MURMURHASH3 and ACC4 never map two distinct hash codes to one hash |
| Hashing.XorShift14Inverse | springfield-commons/src/main/java/zenny/toybox/springfield/util/algorithm/Hashing.java:57 | the step `h ^= h >>> 14` is undone by xor-ing in the shifts by 14 and 28 |
| Hashing.XorShift10Inverse | springfield-commons/src/main/java/zenny/toybox/springfield/util/algorithm/Hashing.java:59 | the step `h ^= h >>> 10` is undone by xor-ing in the shifts by 10, 20 and 30 |
| Snowflake.MaskConstants | springfield-commons/src/main/java/zenny/toybox/springfield/util/id/support/SnowflakeIdGenerator.java:20-30 | the masks `-1L ^ -1L << bits` are 31, 31 and 4095, and the shifts are 12, 17 and 22 |
| Snowflake.MaskIsModulo | springfield-commons/src/main/java/zenny/toybox/springfield/util/id/support/SnowflakeIdGenerator.java:86 | `sequence + 1 & SEQUENCE_MASK` is `(sequence + 1) mod 4096` |
| Snowflake.PackIsBitwiseOr | springfield-commons/src/main/java/zenny/toybox/springfield/util/id/support/SnowflakeIdGenerator.java:97-100 | for in-range fields the shifted ors equal the arithmetic layout used by the model |
| Snowflake.UnpackPack | springfield-commons/src/main/java/zenny/toybox/springfield/util/id/support/SnowflakeIdGenerator.java:97-100 | sequence, sub-identifier, identifier and timestamp delta can each be read back from the identifier |
| Snowflake.PackIncreases | springfield-commons/src/main/java/zenny/toybox/springfield/util/id/support/SnowflakeIdGenerator.java:97-100 | a later millisecond, or a later sequence in the same millisecond, gives a strictly larger identifier |
| Snowflake.TilNextMillis | springfield-commons/src/main/java/zenny/toybox/springfield/util/id/support/SnowflakeIdGenerator.java:107-121 | returns the first clock poll after `lastTimestamp`; every earlier poll was not after it; the alerter fires exactly when a poll failed |
| Snowflake.SnowflakeIdGenerator.constructor | springfield-commons/src/main/java/zenny/toybox/springfield/util/id/support/SnowflakeIdGenerator.java:52-71 | stores epoch, identifier and sub-identifier, sequence 0, last timestamp -1, nothing issued |
| Snowflake.SnowflakeIdGenerator.NextId | springfield-commons/src/main/java/zenny/toybox/springfield/util/id/support/SnowflakeIdGenerator.java:73-101 | throws IllegalStateException exactly when the clock moved backwards (state unchanged); otherwise the same millisecond bumps the sequence mod 4096 and on wrap takes as the new last timestamp the first poll after the old one (every poll before it was not later), a new millisecond resets it to 0, and the result is the packed identifier appended to the issued ones, which stay strictly increasing |
| Snowflake.Create | springfield-commons/src/main/java/zenny/toybox/springfield/util/id/support/SnowflakeIdGenerator.java:52-58 | rejects an epoch outside [0, now] or an identifier or sub-identifier outside [0, 31] with IllegalArgumentException, and otherwise builds a fresh generator with those settings |
| Snowflake.CreateWithLookups | springfield-commons/src/main/java/zenny/toybox/springfield/util/id/support/SnowflakeIdGenerator.java:42-50 | a null lookup stands for 0; the result is what the checking constructor gives for the looked-up values |
| Snowflake.IssuedDistinct | springfield-commons/src/main/java/zenny/toybox/springfield/util/id/support/SnowflakeIdGenerator.java:73-101 | no two identifiers issued by one generator are equal |
| TailRecursion.Invoke | springfield-commons/src/main/java/zenny/toybox/springfield/util/TailRecursion.java:102-108 | invoking a pending frame yields its next frame; invoking the last frame throws IllegalStateException |
| TailRecursion.Get | springfield-commons/src/main/java/zenny/toybox/springfield/util/TailRecursion.java:59-65 | `get()` returns the output exactly for the last frame, and throws IllegalStateException on a pending one |
| TailRecursion.EndsWith | springfield-commons/src/main/java/zenny/toybox/springfield/util/TailRecursion.java:79-81 | `endsWith(o)` is a finished frame whose `get()` is `o` |
| TailRecursion.CollectIsFirstDone | springfield-commons/src/main/java/zenny/toybox/springfield/util/TailRecursion.java:71-73 | `collect()` returns the output of the first finished frame of the invoke stream, and no earlier frame is finished |
| TailRecursion.EndsWithCollects | springfield-commons/src/main/java/zenny/toybox/springfield/util/TailRecursion.java:71-81 | collecting a finished frame returns its output without invoking |
| TailRecursion.AccumulateTerminates | springfield-commons/src/main/java/zenny/toybox/springfield/util/TailRecursion.java:18-23 | the documented accumulate step lowers its number on every pending frame |
| TailRecursion.AccumulateMatchesRecursion | springfield-commons/src/main/java/zenny/toybox/springfield/util/TailRecursion.java:18-39 | the trampolined accumulate equals the plain recursion, which is `total + n(n+1)/2 - 1` |
| TailRecursion.DocumentedExample | springfield-commons/src/main/java/zenny/toybox/springfield/util/TailRecursion.java:25 | `accumulate(5, 1).collect()` is 15 |
| CollectionUtils.HasNullElements | springfield-commons/src/main/java/zenny/toybox/springfield/util/CollectionUtils.java:23-35 | true exactly when the collection is non-null and holds a null element; a null collection gives false |
| CollectionUtils.HasNullValues | springfield-commons/src/main/java/zenny/toybox/springfield/util/CollectionUtils.java:37-49 | true exactly when the map is non-null and one of its values (keys are not looked at) is null |
| CollectionUtils.ToArray | springfield-commons/src/main/java/zenny/toybox/springfield/util/CollectionUtils.java:51-55 | returns its varargs array unchanged, null for null |
| CollectionUtils.ToEnumMap | springfield-commons/src/main/java/zenny/toybox/springfield/util/CollectionUtils.java:57-75 | null exactly when the enum class or the function is null or the enum has no constants; otherwise the map's keys are exactly the constants and each maps to `iteratee(constant)` |
| CollectionUtils.FindKey | springfield-commons/src/main/java/zenny/toybox/springfield/util/CollectionUtils.java:89-92 | the position of a key among the linked map's entries, -1 exactly when the key is absent |
| CollectionUtils.LinkedPut | springfield-commons/src/main/java/zenny/toybox/springfield/util/CollectionUtils.java:91 | `LinkedHashMap.put`: keys stay distinct, a new key is appended with its value, an existing key keeps its place and takes the new value, other entries are untouched |
| CollectionUtils.PutKeepsKeys | springfield-commons/src/main/java/zenny/toybox/springfield/util/CollectionUtils.java:90-92 | putting one more constant keeps every key already put and adds its own |
| CollectionUtils.PutKeepsLastValues | springfield-commons/src/main/java/zenny/toybox/springfield/util/CollectionUtils.java:90-92 | after each put, every entry holds the value of the last constant put with its key |
| CollectionUtils.PutKeepsFilled | springfield-commons/src/main/java/zenny/toybox/springfield/util/CollectionUtils.java:90-92 | the loop's invariant (distinct keys, all keys present, last value wins) survives one more put |
| CollectionUtils.ToLinkedMap | springfield-commons/src/main/java/zenny/toybox/springfield/util/CollectionUtils.java:77-95 | null exactly when an argument is null or the enum has no constants; otherwise keys are distinct, every constant's key is present, each key holds the value of the last constant that maps to it, and the keys stand in the order of their first constants, as a `LinkedHashMap` keeps them |
| CollectionUtils.PutConstants | springfield-commons/src/main/java/zenny/toybox/springfield/util/CollectionUtils.java:89-94 | the declaration-order loop yields distinct keys, all constants' keys, last value wins, and keys in the order of their first constants |
| CollectionUtils.PutKeepsFirstKeys | springfield-commons/src/main/java/zenny/toybox/springfield/util/CollectionUtils.java:90-92 | one more `put` appends the constant's key only when no earlier constant had it, keeping the insertion order of a `LinkedHashMap` |
| ThrowableUtils.MapCauses | springfield-commons/src/main/java/zenny/toybox/springfield/util/ThrowableUtils.java:230-256 | a null callback is rejected with IllegalArgumentException; a null throwable makes no callbacks; otherwise the callbacks are the causes in chain order, starting with the first cause (never the throwable itself), and the walk stops at the first cause whose own cause is null or at the first step where it catches the slow pointer |
| ThrowableUtils.MeetsWithinBound | springfield-commons/src/main/java/zenny/toybox/springfield/util/ThrowableUtils.java:237-254 | the tortoise-and-hare check terminates: on any chain the pointers meet, or the chain ends, before step 2·(number of throwables) |
| ThrowableUtils.ChainRepeats | springfield-commons/src/main/java/zenny/toybox/springfield/util/ThrowableUtils.java:243-245 | a chain longer than the number of throwables repeats an element |
| ThrowableUtils.RepeatNeverEnds | springfield-commons/src/main/java/zenny/toybox/springfield/util/ThrowableUtils.java:243-245 | a chain that repeats an element is a cycle and never reaches a null cause |
| ThrowableUtils.WalkPeriodic | springfield-commons/src/main/java/zenny/toybox/springfield/util/ThrowableUtils.java:243-245 | once the chain repeats with period p, every later element repeats after any multiple of p |
| ThrowableUtils.AcyclicChainVisitedOnce | springfield-commons/src/main/java/zenny/toybox/springfield/util/ThrowableUtils.java:243-255 | on a chain that ends after n causes, the walk stops exactly there and each cause is handed over once, in order |
| ThrowableUtils.GetRootCause | springfield-commons/src/main/java/zenny/toybox/springfield/util/ThrowableUtils.java:177-182 | the last cause the walk hands over, or null for a null throwable or one without a cause |
| ThrowableUtils.FlattenCauses | springfield-commons/src/main/java/zenny/toybox/springfield/util/ThrowableUtils.java:199-213 | as written: a null collector is rejected, a null throwable gives null, otherwise exactly the causes `mapCauses` hands over, in order |
| ThrowableUtils.FlattenCausesOmitsThrowable | springfield-commons/src/main/java/zenny/toybox/springfield/util/ThrowableUtils.java:184-185 | the first entry of the list as written, if any, is the throwable's cause, never the throwable that the documentation puts first |
| ThrowableUtils.FlattenCausesOfCauselessThrowable | springfield-commons/src/main/java/zenny/toybox/springfield/util/ThrowableUtils.java:184-185 | for a throwable without a cause the walk stops at once and the list as written is empty |
| ThrowableUtils.ChainIsWalk | springfield-commons/src/main/java/zenny/toybox/springfield/util/ThrowableUtils.java:184-185 | the documented list, the throwable followed by its causes, holds the chain from the throwable position by position |
| ThrowableUtils.FlattenCausesWithThrowable | springfield-commons/src/main/java/zenny/toybox/springfield/util/ThrowableUtils.java:184-213 | corrected: the null cases as in `flattenCauses`; otherwise the throwable followed by the causes `mapCauses` hands over, entry i being the i-th element of the chain from the throwable |
| ThrowableUtils.ThrowIfUnchecked | springfield-commons/src/main/java/zenny/toybox/springfield/util/ThrowableUtils.java:85-96 | rethrows the throwable exactly when it is a RuntimeException or an Error; null and checked throwables return normally |
| ThrowableUtils.ThrowIfInstanceOf | springfield-commons/src/main/java/zenny/toybox/springfield/util/ThrowableUtils.java:53-64 | a null declared type is rejected; otherwise the throwable is rethrown exactly when it is non-null and an instance of the type |
| Tuple.Of | springfield-commons/src/main/java/zenny/toybox/springfield/util/Tuple.java:28-41 | a null or zero-length array gives a tuple without elements; otherwise the array's elements in order |
| Tuple.XorSplit | springfield-commons/src/main/java/zenny/toybox/springfield/util/Tuple.java:98 | Java's `^` on hash codes, modelled bit by bit: the result splits into its high bits and its low bit |
| Tuple.XorZero | springfield-commons/src/main/java/zenny/toybox/springfield/util/Tuple.java:95-98 | 0, the starting total, is the identity of exclusive or |
| Tuple.XorAssociative | springfield-commons/src/main/java/zenny/toybox/springfield/util/Tuple.java:98 | exclusive or of hash codes is associative |
| Tuple.XorCommutative | springfield-commons/src/main/java/zenny/toybox/springfield/util/Tuple.java:98 | exclusive or of hash codes is commutative |
| Tuple.XorHashAppend | springfield-commons/src/main/java/zenny/toybox/springfield/util/Tuple.java:94-103 | the hash of a concatenation is the XOR of the hashes of the parts |
| Tuple.XorHashSnocNull | springfield-commons/src/main/java/zenny/toybox/springfield/util/Tuple.java:97 | a null element leaves the running hash alone |
| Tuple.XorHashSnoc | springfield-commons/src/main/java/zenny/toybox/springfield/util/Tuple.java:97-98 | a non-null element XORs its hash code into the running hash |
| Tuple.XorHashPrefix | springfield-commons/src/main/java/zenny/toybox/springfield/util/Tuple.java:96-100 | one more loop step extends the prefix's hash by the next non-null element's hash code |
| Tuple.XorHashSwap | springfield-commons/src/main/java/zenny/toybox/springfield/util/Tuple.java:94-103 | the hash code does not depend on the order of the elements |
| Tuple.CalculateHashCode | springfield-commons/src/main/java/zenny/toybox/springfield/util/Tuple.java:94-103 | the loop's total is the XOR of the hash codes of the non-null elements |
| Tuple.ElemEqReflexive | springfield-commons/src/main/java/zenny/toybox/springfield/util/Tuple.java:213-214 | every element is equal to itself; reference equality comes first in `nullSafeEquals` and `equals` |
| Tuple.TupleEqReflexive | springfield-commons/src/main/java/zenny/toybox/springfield/util/Tuple.java:208-211 | every tuple is equal to itself |
| Tuple.ListEqReflexive | springfield-commons/src/main/java/zenny/toybox/springfield/util/Tuple.java:222-228 | every element list is equal to itself position by position |
| Tuple.ElemEqSymmetric | springfield-commons/src/main/java/zenny/toybox/springfield/util/Tuple.java:208-231 | element equality is symmetric |
| Tuple.TupleEqSymmetric | springfield-commons/src/main/java/zenny/toybox/springfield/util/Tuple.java:208-231 | tuple equality is symmetric |
| Tuple.ListEqSymmetric | springfield-commons/src/main/java/zenny/toybox/springfield/util/Tuple.java:222-228 | the position-by-position comparison is symmetric |
| Tuple.ElemEqHash | springfield-commons/src/main/java/zenny/toybox/springfield/util/Tuple.java:94-103 | equal elements have equal hash codes, the `equals`/`hashCode` contract |
| Tuple.ListEqHash | springfield-commons/src/main/java/zenny/toybox/springfield/util/Tuple.java:94-103 | element lists equal position by position have equal XOR hashes |
| Tuple.ElemEqAsWrittenOutcome | springfield-commons/src/main/java/zenny/toybox/springfield/util/Tuple.java:208-231 | as written, `nullSafeEquals` on two elements answers plain equality unless both are tuples; for two tuples it answers true for one object and otherwise false for different flattened sizes, true when both flatten to nothing, and throws IllegalArgumentException (and only that) for two distinct tuples of one non-zero flattened size |
| Tuple.ElemEqAsWrittenAgrees | springfield-commons/src/main/java/zenny/toybox/springfield/util/Tuple.java:208-231 | where `nullSafeEquals` as written answers, its answer is the intended equality |
| Tuple.DistinctEqualTuplesThrow | springfield-commons/src/main/java/zenny/toybox/springfield/util/Tuple.java:114-122 | two distinct `(1)` tuples are equal, yet comparing them as written throws; an empty list tuple equals `Tuple.EMPTY` |
| Tuple.ContainsAsWritten | springfield-commons/src/main/java/zenny/toybox/springfield/util/Tuple.java:114-122 | as written, `contains` answers with the first comparison that does not say false, so an exception from a nested tuple's `equals` escapes, and answers false when every comparison says false |
| Tuple.Contains | springfield-commons/src/main/java/zenny/toybox/springfield/util/Tuple.java:114-122 | corrected: true exactly when some element is equal to the argument |
| Tuple.GetAsWritten | springfield-commons/src/main/java/zenny/toybox/springfield/util/Tuple.java:143-151 | as written, `get` succeeds exactly for 0 < index < size, returning that element, and otherwise throws IllegalArgumentException |
| Tuple.Get | springfield-commons/src/main/java/zenny/toybox/springfield/util/Tuple.java:143-151 | with the guard its message describes, `get` succeeds exactly for 0 <= index < size and returns that element |
| Tuple.GetAsWrittenRejectsFirst | springfield-commons/src/main/java/zenny/toybox/springfield/util/Tuple.java:145 | on a one-element tuple, `get(0)` as written throws while the corrected `get(0)` returns the element |
| Tuple.IndexOfAsWritten | springfield-commons/src/main/java/zenny/toybox/springfield/util/Tuple.java:153-161 | as written, `indexOf` returns -1 on an empty tuple and throws IllegalArgumentException on every non-empty one, whatever it looks for, because its first read is `get(0)` |
| Tuple.IndexOfAsWrittenFails | springfield-commons/src/main/java/zenny/toybox/springfield/util/Tuple.java:153-161 | as written, `indexOf` cannot find the element of a one-element tuple: it throws |
| Tuple.IndexOf | springfield-commons/src/main/java/zenny/toybox/springfield/util/Tuple.java:153-161 | corrected: the first position whose element is equal (by `ElemEq`, which compares nested tuples with `equals`) to the argument; -1 exactly when no element is |
| Tuple.ScanDownAsWritten | springfield-commons/src/main/java/zenny/toybox/springfield/util/Tuple.java:165-170 | the downward loop as written returns only positions above 0 whose comparison answers true, -1 only when it starts below 0, and throws only IllegalArgumentException |
| Tuple.LastIndexOfAsWritten | springfield-commons/src/main/java/zenny/toybox/springfield/util/Tuple.java:163-171 | as written, `lastIndexOf` returns -1 on an empty tuple; otherwise it returns only a position above 0 whose element `nullSafeEquals` the argument, and any exception is IllegalArgumentException |
| Tuple.ScanDownAsWrittenOutcome | springfield-commons/src/main/java/zenny/toybox/springfield/util/Tuple.java:163-171 | as written: the downward scan stops at the highest position above 0 whose `nullSafeEquals` does not answer false and returns it, or rethrows; with no such position it reaches `get(0)` and throws IllegalArgumentException |
| Tuple.LastIndexOfAsWrittenOutcome | springfield-commons/src/main/java/zenny/toybox/springfield/util/Tuple.java:163-171 | as written: -1 on an empty tuple; otherwise the last position above 0 whose comparison answers true, an exception where the comparison throws first, and IllegalArgumentException when no position above 0 stops the scan |
| Tuple.LastIndexOf | springfield-commons/src/main/java/zenny/toybox/springfield/util/Tuple.java:163-171 | corrected: the last position whose element is equal to the argument; -1 exactly when no element is |
| Tuple.SpliceAppend | springfield-commons/src/main/java/zenny/toybox/springfield/util/Tuple.java:178-189 | the flattening loop distributes over concatenation |
| Tuple.SpliceFlat | springfield-commons/src/main/java/zenny/toybox/springfield/util/Tuple.java:186-188 | elements that are not tuples pass through flattening unchanged |
| Tuple.SpliceMembers | springfield-commons/src/main/java/zenny/toybox/springfield/util/Tuple.java:178-189 | an element is in the flattened list exactly when it is a non-tuple element of the input or an element of a nested, non-null tuple |
| Tuple.SplicedHash | springfield-commons/src/main/java/zenny/toybox/springfield/util/Tuple.java:180-188 | the elements one element contributes hash to that element's own hash code (a nested tuple's hash is the XOR of its elements) |
| Tuple.SpliceKeepsHash | springfield-commons/src/main/java/zenny/toybox/springfield/util/Tuple.java:173-192 | flattening keeps the hash code |
| Tuple.Flatten | springfield-commons/src/main/java/zenny/toybox/springfield/util/Tuple.java:173-192 | a NullTuple flattens to itself; otherwise nested tuples are spliced in one level deep, nested NullTuples skipped, and the hash code is kept |
| Tuple.EqualsAsWritten | springfield-commons/src/main/java/zenny/toybox/springfield/util/Tuple.java:208-231 | as written, `equals` is true for the same object and false for a non-tuple; between distinct tuples it answers false for different flattened sizes, true when both flatten to nothing, and throws IllegalArgumentException otherwise |
| Tuple.EqualsAsWrittenFails | springfield-commons/src/main/java/zenny/toybox/springfield/util/Tuple.java:208-231 | as written, `(1).equals((1))` between two distinct `(1)` tuples throws |
| Tuple.Equals | springfield-commons/src/main/java/zenny/toybox/springfield/util/Tuple.java:208-231 | corrected: true for the same reference, false for a non-tuple, otherwise true exactly when `TupleEq` holds: the flattened element lists have one length and are equal position by position, nested tuples compared by `equals` again |
| Tuple.EqualTuplesHashAlike | springfield-commons/src/main/java/zenny/toybox/springfield/util/Tuple.java:203-231 | tuples equal by `equals` (`TupleEq`) have equal hash codes |
| Tuple.ToString | springfield-commons/src/main/java/zenny/toybox/springfield/util/Tuple.java:233-250 | the empty-tuple sign for no elements, otherwise the element texts joined by ", " between "(" and ")" |
| OwaspEscapes.OwaspCharacterEscapes.constructor | springfield-extensions/springfield-extensions-jackson/src/main/java/zenny/toybox/springfield/jackson/io/escaping/OwaspCharacterEscapes.java:12-19 | the 128-entry table keeps Jackson's standard JSON entry for every ASCII letter and digit and holds ESCAPE_CUSTOM everywhere else |
| OwaspEscapes.OwaspCharacterEscapes.GetEscapeCodesForAscii | springfield-extensions/springfield-extensions-jackson/src/main/java/zenny/toybox/springfield/jackson/io/escaping/OwaspCharacterEscapes.java:21-24 | returns the table itself, not a copy |
| OwaspEscapes.EscapeSequence | springfield-extensions/springfield-extensions-jackson/src/main/java/zenny/toybox/springfield/jackson/io/escaping/OwaspCharacterEscapes.java:26-30 | `\\u` followed by at least four lower-case hex digits: exactly six characters for a UTF-16 code unit, more for larger or negative values |
| OwaspEscapes.HexLength | springfield-extensions/springfield-extensions-jackson/src/main/java/zenny/toybox/springfield/jackson/io/escaping/OwaspCharacterEscapes.java:28 | how many digits the hex conversion prints for each range of values, so that `%04x` pads only below 0x1000 |
| OwaspEscapes.HexValueOfDigit | springfield-extensions/springfield-extensions-jackson/src/main/java/zenny/toybox/springfield/jackson/io/escaping/OwaspCharacterEscapes.java:28 | each printed hex digit reads back as its value |
| OwaspEscapes.EscapeRoundTrip | springfield-extensions/springfield-extensions-jackson/src/main/java/zenny/toybox/springfield/jackson/io/escaping/OwaspCharacterEscapes.java:26-30 | for every code unit in [0, 0xFFFF] the escape decodes back to that unit under the `\\uXXXX` rule of section 7 of RFC 8259 |
| TypeConversion.FirstMatch | springfield-data/springfield-data-mybatis/src/main/java/zenny/toybox/springfield/data/mybatis/repository/bridge/convert/support/DefaultTypeConversionService.java:73-83 | none exactly when no converter matches; otherwise a registered converter that matches |
| TypeConversion.FirstMatchAppend | springfield-data/springfield-data-mybatis/src/main/java/zenny/toybox/springfield/data/mybatis/repository/bridge/convert/support/DefaultTypeConversionService.java:96-97 | appending a converter never changes a source type's existing first match, and only supplies one where there was none |
| TypeConversion.FirstMatchIsEarliest | springfield-data/springfield-data-mybatis/src/main/java/zenny/toybox/springfield/data/mybatis/repository/bridge/convert/support/DefaultTypeConversionService.java:76-80 | a matching converter with no earlier match is the one the scan returns |
| TypeConversion.DefaultTypeConversionService.constructor | springfield-data/springfield-data-mybatis/src/main/java/zenny/toybox/springfield/data/mybatis/repository/bridge/convert/support/DefaultTypeConversionService.java:22-23 | starts with no converters and an empty cache |
| TypeConversion.DefaultTypeConversionService.FindConverter | springfield-data/springfield-data-mybatis/src/main/java/zenny/toybox/springfield/data/mybatis/repository/bridge/convert/support/DefaultTypeConversionService.java:73-83 | returns the first converter in registration order that matches the source type, none when none does |
| TypeConversion.DefaultTypeConversionService.GetConverter | springfield-data/springfield-data-mybatis/src/main/java/zenny/toybox/springfield/data/mybatis/repository/bridge/convert/support/DefaultTypeConversionService.java:58-71 | returns the first match of the current registry whether or not it was cached; caches a non-null answer for an uncached type and otherwise leaves the cache alone |
| TypeConversion.DefaultTypeConversionService.CanConvert | springfield-data/springfield-data-mybatis/src/main/java/zenny/toybox/springfield/data/mybatis/repository/bridge/convert/support/DefaultTypeConversionService.java:25-33 | false for a null source; otherwise true exactly when some registered converter matches |
| TypeConversion.DefaultTypeConversionService.Convert | springfield-data/springfield-data-mybatis/src/main/java/zenny/toybox/springfield/data/mybatis/repository/bridge/convert/support/DefaultTypeConversionService.java:35-56 | a null source is rejected; no matching converter gives TypeConverterNotFound; a delegate that throws or answers null gives TypeConversionFailed; otherwise the delegate's result |
| TypeConversion.DefaultTypeConversionService.Registered | springfield-data/springfield-data-mybatis/src/main/java/zenny/toybox/springfield/data/mybatis/repository/bridge/convert/support/DefaultTypeConversionService.java:92 | true exactly when a registered proxy has an equal delegate |
| TypeConversion.DefaultTypeConversionService.AddConverter | springfield-data/springfield-data-mybatis/src/main/java/zenny/toybox/springfield/data/mybatis/repository/bridge/convert/support/DefaultTypeConversionService.java:85-102 | null and already-registered converters change nothing; an unresolvable one is rejected by the proxy constructor with IllegalArgumentException; otherwise it is appended and the cache cleared, and every cached converter stays the first match of the registry |
| TypeConversion.CacheAgreesWithScan | springfield-data/springfield-data-mybatis/src/main/java/zenny/toybox/springfield/data/mybatis/repository/bridge/convert/support/DefaultTypeConversionService.java:58-71 | whatever the cache holds for a type is the first registered converter that matches it |
| IdentityCard.Lower | springfield-extensions/springfield-extensions-validation/src/main/java/zenny/toybox/springfield/validation/validator/IdentityCardValidator.java:87 | lower-casing keeps the length and maps each character on its own |
| IdentityCard.PowerWeight | springfield-extensions/springfield-extensions-validation/src/main/java/zenny/toybox/springfield/validation/validator/IdentityCardValidator.java:76-108 | the upgrade's weight table is `2^(17-i) mod 11`, the same weights the check loop uses (ISO 7064 MOD 11-2) |
| IdentityCard.UpgradedBody | springfield-extensions/springfield-extensions-validation/src/main/java/zenny/toybox/springfield/validation/validator/IdentityCardValidator.java:121-122 | the upgraded body is the first six digits, "19", then the remaining nine digits |
| IdentityCard.UpgradeAsWritten | springfield-extensions/springfield-extensions-validation/src/main/java/zenny/toybox/springfield/validation/validator/IdentityCardValidator.java:118-133 | as written: "#" exactly for input that is not 15 digits; otherwise the 17-character body plus the suffix indexed by the weighted sum of the 15 input digits |
| IdentityCard.Upgrade | springfield-extensions/springfield-extensions-validation/src/main/java/zenny/toybox/springfield/validation/validator/IdentityCardValidator.java:118-133 | corrected: the same body, with the suffix indexed by the weighted sum of the 17-digit body |
| IdentityCard.CheckSumOfDigits | springfield-extensions/springfield-extensions-validation/src/main/java/zenny/toybox/springfield/validation/validator/IdentityCardValidator.java:105-126 | on digits, the first 17 terms of the check loop are the upgrade's weighted sum |
| IdentityCard.WeightedSumPrefix | springfield-extensions/springfield-extensions-validation/src/main/java/zenny/toybox/springfield/validation/validator/IdentityCardValidator.java:124-126 | the weighted sum reads only its first n characters |
| IdentityCard.SuffixCompletes | springfield-extensions/springfield-extensions-validation/src/main/java/zenny/toybox/springfield/validation/validator/IdentityCardValidator.java:78-113 | each suffix brings the check sum of its remainder to 1 modulo 11, and lower-cases to a digit or 'x' |
| IdentityCard.CharValueInjective | springfield-extensions/springfield-extensions-validation/src/main/java/zenny/toybox/springfield/validation/validator/IdentityCardValidator.java:106-108 | a check character (digit, or 'x' read as 10) has a value in [0, 10], and distinct characters have distinct values |
| IdentityCard.CheckIffSuffix | springfield-extensions/springfield-extensions-validation/src/main/java/zenny/toybox/springfield/validation/validator/IdentityCardValidator.java:105-115 | an 18-character candidate passes the MOD 11-2 check exactly when its last character is the suffix the table gives for its body |
| IdentityCard.AddResidue | springfield-extensions/springfield-extensions-validation/src/main/java/zenny/toybox/springfield/validation/validator/IdentityCardValidator.java:108-111 | adding to a number or to its remainder modulo 11 leaves the same remainder |
| IdentityCard.SameResidue | springfield-extensions/springfield-extensions-validation/src/main/java/zenny/toybox/springfield/validation/validator/IdentityCardValidator.java:108-111 | two check values below 11 added to the same sum leave the same remainder only when they are equal |
| IdentityCard.LowerDigits | springfield-extensions/springfield-extensions-validation/src/main/java/zenny/toybox/springfield/validation/validator/IdentityCardValidator.java:87 | lower-casing leaves digits alone |
| IdentityCard.UpgradePassesCheck | springfield-extensions/springfield-extensions-validation/src/main/java/zenny/toybox/springfield/validation/validator/IdentityCardValidator.java:81-133 | the corrected upgrade of any 15 digits is an 18-character candidate that passes the check character test |
| IdentityCard.Decimal2 | springfield-extensions/springfield-extensions-validation/src/main/java/zenny/toybox/springfield/validation/validator/IdentityCardValidator.java:92 | `Integer.parseInt` of two digits |
| IdentityCard.Decimal4 | springfield-extensions/springfield-extensions-validation/src/main/java/zenny/toybox/springfield/validation/validator/IdentityCardValidator.java:96 | `Integer.parseInt` of four digits splits into its two halves |
| IdentityCard.FifteenDigitsAccepted | springfield-extensions/springfield-extensions-validation/src/main/java/zenny/toybox/springfield/validation/validator/IdentityCardValidator.java:81-116 | with the corrected upgrade, a 15-character value is accepted exactly when it is all digits, its region is listed and its 19yy birth date exists |
| IdentityCard.UpgradedFields | springfield-extensions/springfield-extensions-validation/src/main/java/zenny/toybox/springfield/validation/validator/IdentityCardValidator.java:92-122 | the upgraded number carries the region, the year 1900 + yy, the month and the day of the 15 digits |
| IdentityCard.AsWrittenSuffixIndex | springfield-extensions/springfield-extensions-validation/src/main/java/zenny/toybox/springfield/validation/validator/IdentityCardValidator.java:124-127 | the weighted sum of the sample's 15 digits indexes suffix 6 |
| IdentityCard.BodySuffixIndex | springfield-extensions/springfield-extensions-validation/src/main/java/zenny/toybox/springfield/validation/validator/IdentityCardValidator.java:105-113 | the weighted sum of the sample's 17-digit body indexes suffix 1 |
| IdentityCard.SampleBody | springfield-extensions/springfield-extensions-validation/src/main/java/zenny/toybox/springfield/validation/validator/IdentityCardValidator.java:121-122 | the body built from the sample number 110101800101001 |
| IdentityCard.UpgradeAsWrittenRejectsValidNumber | springfield-extensions/springfield-extensions-validation/src/main/java/zenny/toybox/springfield/validation/validator/IdentityCardValidator.java:118-133 | as written, the valid 15-digit number 110101800101001 (Beijing, born 1980-01-01) is upgraded with the wrong check character and rejected |
| IdentityCard.UpgradeAcceptsValidNumber | springfield-extensions/springfield-extensions-validation/src/main/java/zenny/toybox/springfield/validation/validator/IdentityCardValidator.java:81-133 | with the corrected upgrade the same number is accepted |
| IdentityCard.SampleFields | springfield-extensions/springfield-extensions-validation/src/main/java/zenny/toybox/springfield/validation/validator/IdentityCardValidator.java:92-97 | the region, year, month and day fields of the sample number |
| IdentityCard.ComputeCheckValue | springfield-extensions/springfield-extensions-validation/src/main/java/zenny/toybox/springfield/validation/validator/IdentityCardValidator.java:105-109 | the check loop's total is `Σ (2^c mod 11) · value(char[17-c])` with 'x' read as 10 |
| IdentityCard.ComputeWeightedSum | springfield-extensions/springfield-extensions-validation/src/main/java/zenny/toybox/springfield/validation/validator/IdentityCardValidator.java:124-126 | the upgrade loop's total is the weighted sum of the digits it reads |
| IdentityCard.CheckTarget | springfield-extensions/springfield-extensions-validation/src/main/java/zenny/toybox/springfield/validation/validator/IdentityCardValidator.java:86-113 | the checks after the upgrade, in order: lower-case, the 18-character pattern, a listed region, an existing birth date and a check sum of 1 modulo 11 |
| IdentityCard.ChinaIsValid | springfield-extensions/springfield-extensions-validation/src/main/java/zenny/toybox/springfield/validation/validator/IdentityCardValidator.java:81-116 | corrected: the CHINA rule, step by step: upgrade 15 characters, lower-case, 17 digits plus a digit or 'x', a listed region, an existing yyyy-MM-dd birth date, and a check sum of 1 modulo 11; the result is exactly `ChinaAccepts`, which runs the corrected upgrade |
| IdentityCard.ChinaIsValidAsWritten | springfield-extensions/springfield-extensions-validation/src/main/java/zenny/toybox/springfield/validation/validator/IdentityCardValidator.java:81-133 | as written: the same steps with the upgrade weighing the 15 input digits; the result is exactly `ChinaAcceptsAsWritten` |
| IdentityCard.ChinaAccepts | springfield-extensions/springfield-extensions-validation/src/main/java/zenny/toybox/springfield/validation/validator/IdentityCardValidator.java:81-116 | corrected: only a 15-digit number or an 18-character one can be accepted, and an 18-character one is accepted exactly when its lower-case form passes the checks |
| IdentityCard.ChinaAcceptsAsWritten | springfield-extensions/springfield-extensions-validation/src/main/java/zenny/toybox/springfield/validation/validator/IdentityCardValidator.java:81-133 | as written: only a 15-digit number or an 18-character one can be accepted, and on every input that is not 15 characters long the rule agrees with the corrected one |
| IdentityCard.Apply | springfield-extensions/springfield-extensions-validation/src/main/java/zenny/toybox/springfield/validation/validator/IdentityCardValidator.java:81-116 | corrected: the CHINA rule accepts only 15-digit or 18-character numbers; a custom rule answers with its own test |
| IdentityCard.Mode15 | springfield-extensions/springfield-extensions-validation/src/main/java/zenny/toybox/springfield/validation/validator/IdentityCardValidator.java:70 | a value of exactly 15 digits is unchanged by lower-casing |
| IdentityCard.Mode18 | springfield-extensions/springfield-extensions-validation/src/main/java/zenny/toybox/springfield/validation/validator/IdentityCardValidator.java:72 | a value of 17 digits followed by a digit or a small x is unchanged by lower-casing, so the lower-cased candidate is the one tested |
| IdentityCard.RuleRegistry.constructor | springfield-extensions/springfield-extensions-validation/src/main/java/zenny/toybox/springfield/validation/validator/IdentityCardValidator.java:21-27 | the static table starts with the CHINA rule only |
| IdentityCard.RuleRegistry.AddRule | springfield-extensions/springfield-extensions-validation/src/main/java/zenny/toybox/springfield/validation/validator/IdentityCardValidator.java:137-142 | a null locale or rule is rejected with IllegalArgumentException and changes nothing; otherwise the rule replaces any earlier one for that locale |
| IdentityCard.IdentityCardValidator.constructor | springfield-extensions/springfield-extensions-validation/src/main/java/zenny/toybox/springfield/validation/validator/IdentityCardValidator.java:23-24 | a fresh validator has no locale and no bypass |
| IdentityCard.IdentityCardValidator.Initialize | springfield-extensions/springfield-extensions-validation/src/main/java/zenny/toybox/springfield/validation/validator/IdentityCardValidator.java:144-150 | a region tag without text is rejected and changes nothing; otherwise it becomes the locale and the bypass flag is stored |
| IdentityCard.IdentityCardValidator.Dispatch | springfield-extensions/springfield-extensions-validation/src/main/java/zenny/toybox/springfield/validation/validator/IdentityCardValidator.java:152-164 | null is valid; without a rule for the locale the bypass flag decides; otherwise the locale's rule decides |
| IdentityCard.IdentityCardValidator.IsValid | springfield-extensions/springfield-extensions-validation/src/main/java/zenny/toybox/springfield/validation/validator/IdentityCardValidator.java:152-164 | corrected: with the CHINA rule registered for the locale, a non-null value is valid exactly when the corrected rule accepts it, hence only 15- or 18-character values are valid |
| BidirectionalMap.InverseIsBijective | springfield-commons/src/main/java/zenny/toybox/springfield/util/BidirectionalMap.java:11-16 | the inverse of a bidirectional map is bidirectional, and inverting twice gives the map back |
| BidirectionalMap.View.Inverse | springfield-commons/src/main/java/zenny/toybox/springfield/util/BidirectionalMap.java:34 | `inverse()` holds the backward direction as its forward one and the forward as its backward |
| BidirectionalMap.View.GetKey | springfield-commons/src/main/java/zenny/toybox/springfield/util/BidirectionalMap.java:25-26 | `getKey` answers null for an absent value, and on a bidirectional map answers a key that `get` maps back to the value |
| BidirectionalMap.ValuesAreUnique | springfield-commons/src/main/java/zenny/toybox/springfield/util/BidirectionalMap.java:11-13 | on a bidirectional map no two keys share a value |
| BidirectionalMap.GetOrDefaultKey | springfield-commons/src/main/java/zenny/toybox/springfield/util/BidirectionalMap.java:41-44 | the key held for the value when the value is present (even a null key), the default otherwise |
| BidirectionalMap.GetOrDefaultKeyFindsKey | springfield-commons/src/main/java/zenny/toybox/springfield/util/BidirectionalMap.java:41-44 | on a bidirectional map, looking up a key's value gives that key back |
| BidirectionalMap.ReplaceByKey | springfield-commons/src/main/java/zenny/toybox/springfield/util/BidirectionalMap.java:93-100 | answers false and changes nothing unless the value is present and held by the old key; otherwise it is `put(newKey, value)` followed by true, or the exception that put throws |
| BidirectionalMap.ReplaceByKeyActsOnHolder | springfield-commons/src/main/java/zenny/toybox/springfield/util/BidirectionalMap.java:93-100 | on a bidirectional map, replacing a key's own value under a new key succeeds with whatever put gives |
| BidirectionalMap.UnimplementedDefault | springfield-commons/src/main/java/zenny/toybox/springfield/util/BidirectionalMap.java:60-183 | the unimplemented defaults (putIfAbsent, replace, the compute and merge families, remove(k,v), replace(k,o,n)) leave the map unchanged and answer null, or false for the two boolean ones |
| BidirectionalMap.ReplaceAll | springfield-commons/src/main/java/zenny/toybox/springfield/util/BidirectionalMap.java:50-54 | the default `replaceAll` leaves the map unchanged |
| BidirectionalMap.ForcePutIsBijective | springfield-commons/src/main/java/zenny/toybox/springfield/util/BidirectionalMap.java:11-16 | the reference put (the key holds the value, and the entries that held either are dropped) keeps a map bidirectional, stores the pair and keeps every unrelated entry |
| BijectedHashMap.Previous | springfield-commons/src/main/java/zenny/toybox/springfield/util/BijectedHashMap.java:37-43 | `HashMap.get`/`put`/`remove` answer the value held for a key, null when absent |
| BijectedHashMap.PutAsWritten | springfield-commons/src/main/java/zenny/toybox/springfield/util/BijectedHashMap.java:35-38 | reverse[value] := key, then the forward map stores the value under the reverse map's previous key for it (null for a new value), answering that key's previous value |
| BijectedHashMap.PutEachStep | springfield-commons/src/main/java/zenny/toybox/springfield/util/BijectedHashMap.java:54-56 | `putAll` is `put` applied to each entry in turn |
| BijectedHashMap.RemoveAsWritten | springfield-commons/src/main/java/zenny/toybox/springfield/util/BijectedHashMap.java:40-46 | the forward entry goes, then the reverse entry keyed by the answer, even when the answer is null because the key was absent |
| BijectedHashMap.RemoveKey | springfield-commons/src/main/java/zenny/toybox/springfield/util/BijectedHashMap.java:40-46 | corrected: an absent key changes nothing; a present key loses its forward entry and only its own reverse entry |
| BijectedHashMap.RemoveKeyKeepsBijection | springfield-commons/src/main/java/zenny/toybox/springfield/util/BijectedHashMap.java:40-46 | the corrected removal keeps a bidirectional map bidirectional and removes exactly that key |
| BijectedHashMap.PutAsWrittenMisplacesValue | springfield-commons/src/main/java/zenny/toybox/springfield/util/BijectedHashMap.java:35-38 | `put(1, 2)` on an empty map leaves key 1 unmapped and maps null to 2 |
| BijectedHashMap.RemoveAsWrittenDropsNullValue | springfield-commons/src/main/java/zenny/toybox/springfield/util/BijectedHashMap.java:40-46 | removing an absent key from `{1: null}` drops the reverse entry of the null value and breaks the mirror |
| BijectedHashMap.BijectedHashMap.constructor | springfield-commons/src/main/java/zenny/toybox/springfield/util/BijectedHashMap.java:25-28 | both maps start empty |
| BijectedHashMap.BijectedHashMap.Copy | springfield-commons/src/main/java/zenny/toybox/springfield/util/BijectedHashMap.java:30-33 | an empty map followed by `putAll(m)` |
| BijectedHashMap.BijectedHashMap.Put | springfield-commons/src/main/java/zenny/toybox/springfield/util/BijectedHashMap.java:35-38 | the new state and answer are exactly `PutAsWritten` |
| BijectedHashMap.BijectedHashMap.BijectivePut | springfield-commons/src/main/java/zenny/toybox/springfield/util/BijectedHashMap.java:35-38 | corrected put: the result is the reference put, it answers the key's previous value, and it keeps the map bidirectional |
| BijectedHashMap.BijectedHashMap.Remove | springfield-commons/src/main/java/zenny/toybox/springfield/util/BijectedHashMap.java:40-46 | the new state and answer are exactly `RemoveAsWritten` |
| BijectedHashMap.BijectedHashMap.RemoveMapping | springfield-commons/src/main/java/zenny/toybox/springfield/util/BijectedHashMap.java:40-46 | corrected remove: the new state is `RemoveKey`, which keeps the map bidirectional |
| BijectedHashMap.BijectedHashMap.PutAll | springfield-commons/src/main/java/zenny/toybox/springfield/util/BijectedHashMap.java:48-57 | nothing for a null or empty argument; otherwise `put` for each entry in order |
| BijectedHashMap.BijectedHashMap.Clear | springfield-commons/src/main/java/zenny/toybox/springfield/util/BijectedHashMap.java:59-63 | both maps become empty |
| BijectedHashMap.BijectedHashMap.Values | springfield-commons/src/main/java/zenny/toybox/springfield/util/BijectedHashMap.java:65-68 | the reverse map's key set |
| BijectedHashMap.BijectedHashMap.RemoveValue | springfield-commons/src/main/java/zenny/toybox/springfield/util/BijectedHashMap.java:70-75 | answers the reverse map's key for the value and removes that key as `remove` does; on a bidirectional map that drops exactly the value's entry |
| BijectionHashMap.MirrorPutAsWritten | springfield-commons/src/main/java/zenny/toybox/springfield/util/BijectionHashMap.java:36-49 | a present key with an already mirrored value changes nothing and answers the value; otherwise the key's old value leaves the mirror (or the fresh key is removed, a no-op), then the pair is stored under the mirror's previous key for the value |
| BijectionHashMap.MirrorPutEachStep | springfield-commons/src/main/java/zenny/toybox/springfield/util/BijectionHashMap.java:65-67 | `putAll` is `put` applied to each entry in turn |
| BijectionHashMap.MirrorPutAsWrittenRebindsOnlyMirror | springfield-commons/src/main/java/zenny/toybox/springfield/util/BijectionHashMap.java:42-48 | re-putting a held value under a new key changes only the mirror, which then disagrees with the forward map |
| BijectionHashMap.MirrorPutAsWrittenKeepsOldValue | springfield-commons/src/main/java/zenny/toybox/springfield/util/BijectionHashMap.java:42-48 | `put(1, 3)` on `{1: 2}` keeps 1 mapped to 2 and maps null to 3 |
| BijectionHashMap.MirrorPutAsWrittenIgnoresHeldValue | springfield-commons/src/main/java/zenny/toybox/springfield/util/BijectionHashMap.java:38-40 | `put(1, 2)` on `{1: 1, 2: 2}` changes nothing |
| BijectionHashMap.BijectionHashMap.constructor | springfield-commons/src/main/java/zenny/toybox/springfield/util/BijectionHashMap.java:26-29 | both maps start empty |
| BijectionHashMap.BijectionHashMap.Copy | springfield-commons/src/main/java/zenny/toybox/springfield/util/BijectionHashMap.java:31-34 | an empty map followed by `putAll(m)` |
| BijectionHashMap.BijectionHashMap.Put | springfield-commons/src/main/java/zenny/toybox/springfield/util/BijectionHashMap.java:36-49 | the new state and answer are exactly `MirrorPutAsWritten` |
| BijectionHashMap.BijectionHashMap.BijectivePut | springfield-commons/src/main/java/zenny/toybox/springfield/util/BijectionHashMap.java:36-49 | corrected put: the result is the reference put, it answers the key's previous value, and it keeps the map bidirectional |
| BijectionHashMap.BijectionHashMap.Remove | springfield-commons/src/main/java/zenny/toybox/springfield/util/BijectionHashMap.java:51-57 | the forward entry goes, then the mirror entry keyed by the answer, null included |
| BijectionHashMap.BijectionHashMap.RemoveMapping | springfield-commons/src/main/java/zenny/toybox/springfield/util/BijectionHashMap.java:51-57 | corrected remove: only a present key's own mirror entry goes, keeping the map bidirectional |
| BijectionHashMap.BijectionHashMap.PutAll | springfield-commons/src/main/java/zenny/toybox/springfield/util/BijectionHashMap.java:59-68 | nothing for a null or empty argument; otherwise `put` for each entry in order |
| BijectionHashMap.BijectionHashMap.Clear | springfield-commons/src/main/java/zenny/toybox/springfield/util/BijectionHashMap.java:70-74 | both maps become empty |
| BijectionHashMap.BijectionHashMap.Values | springfield-commons/src/main/java/zenny/toybox/springfield/util/BijectionHashMap.java:76-79 | the mirror's key set |
| BijectionHashMap.BijectionHashMap.RemoveValue | springfield-commons/src/main/java/zenny/toybox/springfield/util/BijectionHashMap.java:81-86 | answers the mirror's key for the value and removes that key as `remove` does |
| AbstractBidirectionalMap.FirstIndex | springfield-commons/src/main/java/zenny/toybox/springfield/util/AbstractBidirectionalMap.java:217-235 | the position of the first entry whose key is null-safe-equal to the probe, none exactly when no entry has it |
| AbstractBidirectionalMap.ContainsIt | springfield-commons/src/main/java/zenny/toybox/springfield/util/AbstractBidirectionalMap.java:96-113 | true exactly when the iteration yields an entry whose key is null-safe-equal to the probe |
| AbstractBidirectionalMap.GetIt | springfield-commons/src/main/java/zenny/toybox/springfield/util/AbstractBidirectionalMap.java:150-169 | the value of the first entry with a matching key, null when none matches |
| AbstractBidirectionalMap.FirstIndexAt | springfield-commons/src/main/java/zenny/toybox/springfield/util/AbstractBidirectionalMap.java:151-165 | a matching entry with no earlier match is the one the scan stops at |
| AbstractBidirectionalMap.RemoveIt | springfield-commons/src/main/java/zenny/toybox/springfield/util/AbstractBidirectionalMap.java:217-242 | null exactly when no entry matches; otherwise `Optional.ofNullable` of the first match's value, and exactly that entry is removed through the iterator |
| AbstractBidirectionalMap.RemoveFirstMembers | springfield-commons/src/main/java/zenny/toybox/springfield/util/AbstractBidirectionalMap.java:217-242 | with unique keys, removing the first match keeps every other entry and only those |
| AbstractBidirectionalMap.RemoveKeepsMirror | springfield-commons/src/main/java/zenny/toybox/springfield/util/AbstractBidirectionalMap.java:206-215 | removing a key's entry and then the inverse entry keyed by its value keeps the two entry sets mirrored |
| AbstractBidirectionalMap.RemovedPairsMatch | springfield-commons/src/main/java/zenny/toybox/springfield/util/AbstractBidirectionalMap.java:206-215 | every surviving entry still has its reversed twin among the surviving inverse entries |
| AbstractBidirectionalMap.RemovedPairsMatchBack | springfield-commons/src/main/java/zenny/toybox/springfield/util/AbstractBidirectionalMap.java:206-215 | every surviving inverse entry still has its reversed twin among the surviving entries |
| AbstractBidirectionalMap.AsMap | springfield-commons/src/main/java/zenny/toybox/springfield/util/AbstractBidirectionalMap.java:421-438 | the entries seen as a map: exactly their keys |
| AbstractBidirectionalMap.Wrap | springfield-commons/src/main/java/zenny/toybox/springfield/util/AbstractBidirectionalMap.java:463-470 | Java's `int` sum: a value in [-2^31, 2^31) congruent to the exact sum modulo 2^32 |
| AbstractBidirectionalMap.WrapAdd | springfield-commons/src/main/java/zenny/toybox/springfield/util/AbstractBidirectionalMap.java:465-467 | wrapping after every addition equals wrapping once at the end |
| AbstractBidirectionalMap.SumRemoveAt | springfield-commons/src/main/java/zenny/toybox/springfield/util/AbstractBidirectionalMap.java:465-467 | taking one entry out of the sum subtracts its hash code |
| AbstractBidirectionalMap.SumPermutation | springfield-commons/src/main/java/zenny/toybox/springfield/util/AbstractBidirectionalMap.java:462-470 | the sum of hash codes does not depend on the order of the entries |
| AbstractBidirectionalMap.KeySetView.constructor | springfield-commons/src/main/java/zenny/toybox/springfield/util/AbstractBidirectionalMap.java:335-336 | the view belongs to its map |
| AbstractBidirectionalMap.KeySetView.Size | springfield-commons/src/main/java/zenny/toybox/springfield/util/AbstractBidirectionalMap.java:354-357 | the key set's size is the map's size |
| AbstractBidirectionalMap.KeySetView.Contains | springfield-commons/src/main/java/zenny/toybox/springfield/util/AbstractBidirectionalMap.java:379-383 | the key set's `contains` is the map's `containsKey` |
| AbstractBidirectionalMap.KeySetView.Remove | springfield-commons/src/main/java/zenny/toybox/springfield/util/AbstractBidirectionalMap.java:364-367 | refused with UnsupportedOperationException |
| AbstractBidirectionalMap.KeySetView.RemoveAll | springfield-commons/src/main/java/zenny/toybox/springfield/util/AbstractBidirectionalMap.java:369-372 | refused with UnsupportedOperationException |
| AbstractBidirectionalMap.KeySetView.Clear | springfield-commons/src/main/java/zenny/toybox/springfield/util/AbstractBidirectionalMap.java:374-377 | refused with UnsupportedOperationException |
| AbstractBidirectionalMap.ValuesView.constructor | springfield-commons/src/main/java/zenny/toybox/springfield/util/AbstractBidirectionalMap.java:335-336 | the view belongs to its map |
| AbstractBidirectionalMap.ValuesView.Size | springfield-commons/src/main/java/zenny/toybox/springfield/util/AbstractBidirectionalMap.java:354-357 | the values view's size is the map's size |
| AbstractBidirectionalMap.ValuesView.Contains | springfield-commons/src/main/java/zenny/toybox/springfield/util/AbstractBidirectionalMap.java:379-386 | the values view's `contains` is the map's `containsValue` |
| AbstractBidirectionalMap.ValuesView.Remove | springfield-commons/src/main/java/zenny/toybox/springfield/util/AbstractBidirectionalMap.java:364-367 | refused with UnsupportedOperationException |
| AbstractBidirectionalMap.ValuesView.RemoveAll | springfield-commons/src/main/java/zenny/toybox/springfield/util/AbstractBidirectionalMap.java:369-372 | refused with UnsupportedOperationException |
| AbstractBidirectionalMap.ValuesView.Clear | springfield-commons/src/main/java/zenny/toybox/springfield/util/AbstractBidirectionalMap.java:374-377 | refused with UnsupportedOperationException |
| AbstractBidirectionalMap.AbstractBidirectionalMap.constructor | springfield-commons/src/main/java/zenny/toybox/springfield/util/AbstractBidirectionalMap.java:34-42 | holds the subclass's entry sets; no view is created yet |
| AbstractBidirectionalMap.AbstractBidirectionalMap.IsEmpty | springfield-commons/src/main/java/zenny/toybox/springfield/util/AbstractBidirectionalMap.java:59-62 | empty exactly when the entry set is |
| AbstractBidirectionalMap.AbstractBidirectionalMap.ContainsKey | springfield-commons/src/main/java/zenny/toybox/springfield/util/AbstractBidirectionalMap.java:75-78 | whether the entry set holds the key |
| AbstractBidirectionalMap.AbstractBidirectionalMap.ContainsValue | springfield-commons/src/main/java/zenny/toybox/springfield/util/AbstractBidirectionalMap.java:91-94 | whether the inverse entry set holds the value as a key |
| AbstractBidirectionalMap.AbstractBidirectionalMap.Get | springfield-commons/src/main/java/zenny/toybox/springfield/util/AbstractBidirectionalMap.java:126-130 | the value of the first entry with that key, null otherwise |
| AbstractBidirectionalMap.AbstractBidirectionalMap.GetKey | springfield-commons/src/main/java/zenny/toybox/springfield/util/AbstractBidirectionalMap.java:144-148 | the key held for the value, found in the inverse entry set, null otherwise |
| AbstractBidirectionalMap.AbstractBidirectionalMap.Size | springfield-commons/src/main/java/zenny/toybox/springfield/util/AbstractBidirectionalMap.java:50-52 | `size()` counts the entry set, and on mirrored entry sets equals the inverse entry set's size |
| AbstractBidirectionalMap.MirroredSameSize | springfield-commons/src/main/java/zenny/toybox/springfield/util/AbstractBidirectionalMap.java:50-52 | mirrored entry sets, each holding the other's entries reversed with unique keys, have the same size |
| AbstractBidirectionalMap.AbstractBidirectionalMap.Put | springfield-commons/src/main/java/zenny/toybox/springfield/util/AbstractBidirectionalMap.java:181-184 | always throws UnsupportedOperationException |
| AbstractBidirectionalMap.AbstractBidirectionalMap.PutAll | springfield-commons/src/main/java/zenny/toybox/springfield/util/AbstractBidirectionalMap.java:259-264 | a null argument fails with NullPointerException, an empty one does nothing, any other fails on its first `put` |
| AbstractBidirectionalMap.AbstractBidirectionalMap.Remove | springfield-commons/src/main/java/zenny/toybox/springfield/util/AbstractBidirectionalMap.java:206-215 | answers the key's old value (or null); removes the key's entry and then the inverse entry keyed by that value; nothing else changes; and two mirrored entry sets stay mirrored |
| AbstractBidirectionalMap.AbstractBidirectionalMap.Clear | springfield-commons/src/main/java/zenny/toybox/springfield/util/AbstractBidirectionalMap.java:277-281 | empties both entry sets |
| AbstractBidirectionalMap.AbstractBidirectionalMap.KeySet | springfield-commons/src/main/java/zenny/toybox/springfield/util/AbstractBidirectionalMap.java:300-307 | the key set view is created on the first call and the same one returned afterwards; the entries are not touched |
| AbstractBidirectionalMap.AbstractBidirectionalMap.Values | springfield-commons/src/main/java/zenny/toybox/springfield/util/AbstractBidirectionalMap.java:326-333 | the values view is memoised in the same way |
| AbstractBidirectionalMap.AbstractBidirectionalMap.Equals | springfield-commons/src/main/java/zenny/toybox/springfield/util/AbstractBidirectionalMap.java:411-445 | true exactly for this map, or another map of the same size that maps each of this map's keys to the same value (a null value needs the key present) |
| AbstractBidirectionalMap.AbstractBidirectionalMap.HashCode | springfield-commons/src/main/java/zenny/toybox/springfield/util/AbstractBidirectionalMap.java:462-470 | the entries' hash codes summed with wrapping `int` addition |
| AbstractBidirectionalMap.EqualsMeansSameMap | springfield-commons/src/main/java/zenny/toybox/springfield/util/AbstractBidirectionalMap.java:411-445 | with unique keys, a map that `equals` accepts holds exactly this map's mappings |
| AbstractBidirectionalMap.AsMapOfDistinct | springfield-commons/src/main/java/zenny/toybox/springfield/util/AbstractBidirectionalMap.java:421-438 | with unique keys the entry set has one mapping per entry |
| AbstractBidirectionalMap.AsMapAt | springfield-commons/src/main/java/zenny/toybox/springfield/util/AbstractBidirectionalMap.java:427-438 | with unique keys each entry's key maps to that entry's value |
| AbstractBidirectionalMap.HashCodeOrderFree | springfield-commons/src/main/java/zenny/toybox/springfield/util/AbstractBidirectionalMap.java:462-470 | `hashCode` does not depend on the iteration order of the entry set |
| Interval.CompareTo | springfield-commons/src/main/java/zenny/toybox/springfield/util/Interval.java:559-571 | the endpoint comparison returns -1, 0 or 1 |
| Interval.EndpointOrder | springfield-commons/src/main/java/zenny/toybox/springfield/util/Interval.java:559-723 | endpoint comparison is antisymmetric and transitive, orders -∞ below every finite element below +∞, compares two finite ends by their elements and ignores closedness |
| Interval.CompareToNullable | springfield-commons/src/main/java/zenny/toybox/springfield/util/Interval.java:559-571 | comparing against a missing endpoint fails with a null dereference exactly when the receiver is finite; an infinity answers without looking |
| Interval.Infinity | springfield-commons/src/main/java/zenny/toybox/springfield/util/Interval.java:445-451 | builds the positive or negative infinity with the requested closedness |
| Interval.CopyOf | springfield-commons/src/main/java/zenny/toybox/springfield/util/Interval.java:432-439 | the copy keeps the element or the sign, takes the new closedness and compares exactly like the original |
| Interval.Make | springfield-commons/src/main/java/zenny/toybox/springfield/util/Interval.java:28-54 | the interval is empty exactly when an end is missing, the left end is above the right, or equal ends are not both closed; otherwise it keeps both ends |
| Interval.EmptyInterval | springfield-commons/src/main/java/zenny/toybox/springfield/util/Interval.java:24-26 | the one-type constructor builds the empty interval |
| Interval.EmptyIntervalHasNoMembers | springfield-commons/src/main/java/zenny/toybox/springfield/util/Interval.java:35-54 | ends that the emptiness test rejects enclose no integer |
| Interval.IsEmptyInterval | springfield-commons/src/main/java/zenny/toybox/springfield/util/Interval.java:35-54 | a missing end, ends in the wrong order, or coinciding ends one of which is open make the interval empty, and ends judged empty enclose no value |
| Interval.IsDegenerate | springfield-commons/src/main/java/zenny/toybox/springfield/util/Interval.java:291-293 | a degenerate interval is non-empty and closed at both ends; with a finite left end both ends are the same closed point, which is its one member, and with infinite ends it has no member |
| Interval.Contains | springfield-commons/src/main/java/zenny/toybox/springfield/util/Interval.java:239-263 | `contains(v)` is false for null and holds exactly when v lies between the ends, respecting their closedness |
| Interval.MakeMembers | springfield-commons/src/main/java/zenny/toybox/springfield/util/Interval.java:28-54 | a value belongs to the constructed interval exactly when it lies between the two ends, respecting their closedness |
| Interval.ContainsIffMember | springfield-commons/src/main/java/zenny/toybox/springfield/util/Interval.java:239-263 | `contains` answers false for null and otherwise holds exactly for the members of the interval |
| Interval.IsSubsetOf | springfield-commons/src/main/java/zenny/toybox/springfield/util/Interval.java:201-221 | null gives false, the empty interval is a subset of everything, and a non-empty receiver against an empty argument is the only case that can fail (with a null dereference) |
| Interval.SubsetSound | springfield-commons/src/main/java/zenny/toybox/springfield/util/Interval.java:201-221 | when `isSubsetOf` answers true every member of the receiver is a member of the argument |
| Interval.SubsetOfEmpty | springfield-commons/src/main/java/zenny/toybox/springfield/util/Interval.java:206-212 | a non-empty interval tested against the empty one throws a null dereference when it has a finite end, and answers false when both ends are infinite |
| Interval.SupersetMirrorsSubset | springfield-commons/src/main/java/zenny/toybox/springfield/util/Interval.java:175-199 | for non-empty intervals `a.isSupersetOf(b)` equals `b.isSubsetOf(a)`; an empty receiver is nobody's superset and every non-empty interval is a superset of the empty one |
| Interval.IsSupersetOf | springfield-commons/src/main/java/zenny/toybox/springfield/util/Interval.java:175-199 | a superset is a non-null argument whose every member is a member of the non-empty receiver |
| Interval.HasIntersectionWith | springfield-commons/src/main/java/zenny/toybox/springfield/util/Interval.java:223-237 | null never intersects; intervals that do not intersect share no member |
| Interval.SharedMemberIntersects | springfield-commons/src/main/java/zenny/toybox/springfield/util/Interval.java:223-237 | two intervals with a common member report an intersection |
| Interval.DisjointHaveNoCommonMember | springfield-commons/src/main/java/zenny/toybox/springfield/util/Interval.java:223-237 | when `hasIntersectionWith` answers false the two intervals share no member |
| Interval.MeetLeftMembers | springfield-commons/src/main/java/zenny/toybox/springfield/util/Interval.java:116-120 | the later of two left ends (closed on a tie only when both are) admits exactly the values both admit |
| Interval.MeetRightMembers | springfield-commons/src/main/java/zenny/toybox/springfield/util/Interval.java:117-123 | the earlier of two right ends, with the tie decided by the right-end comparison, admits exactly the values both admit |
| Interval.Meet | springfield-commons/src/main/java/zenny/toybox/springfield/util/Interval.java:116-125 | the interval built from the two meeting ends is well formed |
| Interval.IntersectWith | springfield-commons/src/main/java/zenny/toybox/springfield/util/Interval.java:94-126 | `intersect` throws the illegal-argument error exactly for a null argument and otherwise returns a well-formed interval |
| Interval.IntersectAsWritten | springfield-commons/src/main/java/zenny/toybox/springfield/util/Interval.java:94-126 | as written: an empty receiver is returned as is, an empty argument is returned as is, and the result is well formed |
| Interval.Intersect | springfield-commons/src/main/java/zenny/toybox/springfield/util/Interval.java:94-126 | the corrected intersection throws only for null and returns a well-formed interval |
| Interval.MeetMembers | springfield-commons/src/main/java/zenny/toybox/springfield/util/Interval.java:116-125 | the meeting interval of two non-empty intervals holds exactly their common members |
| Interval.IntersectMembers | springfield-commons/src/main/java/zenny/toybox/springfield/util/Interval.java:94-126 | the corrected intersection never throws for a present argument and holds exactly the common members |
| Interval.IntersectAsWrittenLosesEnd | springfield-commons/src/main/java/zenny/toybox/springfield/util/Interval.java:121-123 | [0, 4] ∩ (0, 5) as written drops 4, a member of both |
| Interval.HullLeftMembers | springfield-commons/src/main/java/zenny/toybox/springfield/util/Interval.java:155-159 | the earlier of two left ends (closed on a tie when either is) admits exactly the values either admits |
| Interval.HullRightMembers | springfield-commons/src/main/java/zenny/toybox/springfield/util/Interval.java:156-162 | the later of two right ends, with the tie decided by the right-end comparison, admits exactly the values either admits |
| Interval.Hull | springfield-commons/src/main/java/zenny/toybox/springfield/util/Interval.java:155-165 | the interval spanning two intervals is well formed |
| Interval.UnionAsWritten | springfield-commons/src/main/java/zenny/toybox/springfield/util/Interval.java:132-169 | as written: null throws, two empty intervals give the empty set, and any other failure is a null dereference |
| Interval.Union | springfield-commons/src/main/java/zenny/toybox/springfield/util/Interval.java:132-169 | the corrected union throws only for null and returns well-formed intervals |
| Interval.NoGap | springfield-commons/src/main/java/zenny/toybox/springfield/util/Interval.java:140-153 | when two intervals overlap or touch at a point one of them holds, every value between the outer ends belongs to one of them |
| Interval.HullMembers | springfield-commons/src/main/java/zenny/toybox/springfield/util/Interval.java:155-168 | for connected intervals the spanning interval holds exactly the members of either |
| Interval.UnionMembers | springfield-commons/src/main/java/zenny/toybox/springfield/util/Interval.java:132-169 | the corrected union never throws for a present argument and its intervals hold exactly the members of either operand |
| Interval.UnionAsWrittenGainsEnd | springfield-commons/src/main/java/zenny/toybox/springfield/util/Interval.java:160-162 | [0, 4] ∪ (0, 5) as written contains 5, a member of neither |
| Interval.UnionAsWrittenBridgesGap | springfield-commons/src/main/java/zenny/toybox/springfield/util/Interval.java:140-144 | [0, 1) ∪ (1, 2] as written is merged into one interval containing 1, a member of neither |
| Interval.UnionAsWrittenDereferencesEmpty | springfield-commons/src/main/java/zenny/toybox/springfield/util/Interval.java:135-146 | the union of [0, 1] with the empty interval dereferences the empty interval's missing ends |
| Interval.Remainders | springfield-commons/src/main/java/zenny/toybox/springfield/util/Interval.java:74-81 | the pieces of the receiver left before and after the argument are well formed |
| Interval.NoOverlapNoCommonMember | springfield-commons/src/main/java/zenny/toybox/springfield/util/Interval.java:64-67 | intervals that do not overlap share no member |
| Interval.DifferenceWith | springfield-commons/src/main/java/zenny/toybox/springfield/util/Interval.java:56-84 | `difference` throws the illegal-argument error exactly for a null argument and otherwise returns well-formed intervals |
| Interval.DifferenceAsWritten | springfield-commons/src/main/java/zenny/toybox/springfield/util/Interval.java:56-84 | as written: an empty operand or a non-intersecting argument leaves the receiver alone |
| Interval.Difference | springfield-commons/src/main/java/zenny/toybox/springfield/util/Interval.java:56-84 | the corrected difference throws only for null and returns well-formed intervals |
| Interval.FlippedLeft | springfield-commons/src/main/java/zenny/toybox/springfield/util/Interval.java:76 | the argument's left end with its closedness flipped, used as a right end, admits exactly the values the original end excludes |
| Interval.FlippedRight | springfield-commons/src/main/java/zenny/toybox/springfield/util/Interval.java:80 | the argument's right end with its closedness flipped, used as a left end, admits exactly the values the original end excludes |
| Interval.LeftCovered | springfield-commons/src/main/java/zenny/toybox/springfield/util/Interval.java:74-77 | a left end that is later, or equal and not strictly tighter, admits only values the other admits |
| Interval.RightCovered | springfield-commons/src/main/java/zenny/toybox/springfield/util/Interval.java:78-81 | a right end that is earlier, or equal and not strictly tighter, admits only values the other admits |
| Interval.LeftRemainderMembers | springfield-commons/src/main/java/zenny/toybox/springfield/util/Interval.java:74-77 | the left remainder holds exactly the members of the receiver below the argument |
| Interval.RightRemainderMembers | springfield-commons/src/main/java/zenny/toybox/springfield/util/Interval.java:78-81 | the right remainder holds exactly the members of the receiver above the argument |
| Interval.RemaindersMembers | springfield-commons/src/main/java/zenny/toybox/springfield/util/Interval.java:74-83 | with the remainders chosen by strict end comparison and closedness, their members are exactly those of the receiver that are not in the argument |
| Interval.DifferenceMembers | springfield-commons/src/main/java/zenny/toybox/springfield/util/Interval.java:56-84 | the corrected difference never throws for a present argument and its intervals hold exactly the receiver's members outside the argument |
| Interval.DifferenceAsWrittenLosesEnd | springfield-commons/src/main/java/zenny/toybox/springfield/util/Interval.java:74-77 | [0, 5] − (0, 3] as written drops 0, which is in the receiver and not in the argument |
| Interval.DifferenceAsWrittenGainsTouchPoint | springfield-commons/src/main/java/zenny/toybox/springfield/util/Interval.java:64-77 | [0, 3) − (3, 5] as written returns [0, 3], adding 3, which is not in the receiver |
| Interval.BuildEndpointAsWritten | springfield-commons/src/main/java/zenny/toybox/springfield/util/Interval.java:817-823 | as written: a set element gives a finite end with the builder's closedness, and neither element nor sign gives a null dereference |
| Interval.BuildEndpoint | springfield-commons/src/main/java/zenny/toybox/springfield/util/Interval.java:817-823 | corrected: a finite end as before, and an infinity with the chosen sign and the builder's closedness |
| Interval.BuildEndpointAsWrittenSwapsFlags | springfield-commons/src/main/java/zenny/toybox/springfield/util/Interval.java:822 | as written a closed negative infinity comes out as an open positive infinity, because the sign and closedness arguments are swapped |
| Interval.EndpointBuilder.constructor | springfield-commons/src/main/java/zenny/toybox/springfield/util/Interval.java:770-775 | a new endpoint builder has no element, no sign and is closed |
| Interval.EndpointBuilder.SetFinity | springfield-commons/src/main/java/zenny/toybox/springfield/util/Interval.java:777-784 | a null element is rejected with nothing changed; otherwise the element is set, the sign cleared and closedness kept |
| Interval.EndpointBuilder.SetInfinity | springfield-commons/src/main/java/zenny/toybox/springfield/util/Interval.java:786-799 | sets the sign, clears the element and keeps closedness |
| Interval.EndpointBuilder.SetBounded | springfield-commons/src/main/java/zenny/toybox/springfield/util/Interval.java:801-811 | sets closedness and keeps element and sign |
| Interval.EndpointBuilder.Build | springfield-commons/src/main/java/zenny/toybox/springfield/util/Interval.java:817-823 | yields the corrected endpoint of the builder's current state |
| Interval.EndpointOf | springfield-commons/src/main/java/zenny/toybox/springfield/util/Interval.java:756-759 | a missing builder gives no end; a builder with neither element nor sign fails with NullPointerException; an element gives the finite end with the builder's closedness; a sign gives the infinity of that sign with that closedness (corrected) |
| Interval.EndpointOfAsWritten | springfield-commons/src/main/java/zenny/toybox/springfield/util/Interval.java:817-823 | as written: the same, except that an infinity takes its sign from the closedness flag and its closedness from the sign |
| Interval.IntervalBuilder.constructor | springfield-commons/src/main/java/zenny/toybox/springfield/util/Interval.java:734-738 | a new interval builder has neither endpoint builder |
| Interval.IntervalBuilder.Left | springfield-commons/src/main/java/zenny/toybox/springfield/util/Interval.java:740-746 | returns the existing left endpoint builder, or a fresh one that it keeps; the right one is untouched |
| Interval.IntervalBuilder.Right | springfield-commons/src/main/java/zenny/toybox/springfield/util/Interval.java:748-754 | returns the existing right endpoint builder, or a fresh one that it keeps; the left one is untouched |
| Interval.IntervalBuilder.Build | springfield-commons/src/main/java/zenny/toybox/springfield/util/Interval.java:756-759 | corrected: builds the left end, then the right end, propagating the first failure, and otherwise constructs the interval from them; a missing builder gives the empty interval |
| Interval.IntervalBuilder.BuildAsWritten | springfield-commons/src/main/java/zenny/toybox/springfield/util/Interval.java:756-759 | as written: the same construction over the flag-swapping endpoint `build` |
| Interval.BuildAsWrittenEmptiesDownRay | springfield-commons/src/main/java/zenny/toybox/springfield/util/Interval.java:756-823 | a left end set to negative infinity with the default closedness and a right end at 0: as written the interval is empty, corrected it holds 0 and every value below |
| HashedNodes.JavaInt | springfield-commons/src/main/java/zenny/toybox/springfield/util/HashedBidirectionalMap.java:1531 | Java int arithmetic (the doubled threshold `oldThr << 1`) wraps into the int range and is congruent to the exact value modulo 2^32 |
| HashedNodes.IntCast | springfield-commons/src/main/java/zenny/toybox/springfield/util/HashedBidirectionalMap.java:1537-1541 | the `(int)` cast of a non-negative float truncates toward zero and saturates at `Integer.MAX_VALUE` |
| HashedNodes.TableSizeFor | springfield-commons/src/main/java/zenny/toybox/springfield/util/HashedBidirectionalMap.java:1388-1396 | `tableSizeFor` always gives a power of two in [1, 2^30], and for a capacity in [1, 2^30] the least power of two at least that capacity |
| HashedNodes.PowerOfTwoAsInt | springfield-commons/src/main/java/zenny/toybox/springfield/util/HashedBidirectionalMap.java:1380 | the initial threshold read as an int is a power of two between 1 and `MAXIMUM_CAPACITY` |
| HashedNodes.Index | springfield-commons/src/main/java/zenny/toybox/springfield/util/HashedBidirectionalMap.java:1431 | `n - 1 & hash` is a bucket of the table |
| HashedNodes.SplitIndex | springfield-commons/src/main/java/zenny/toybox/springfield/util/HashedBidirectionalMap.java:1550-1587 | when the table doubles a node of bucket `j` lands in `j` or `j + oldCap`, as its `hash & oldCap` bit says |
| HashedNodes.WithoutAt | springfield-commons/src/main/java/zenny/toybox/springfield/util/HashedBidirectionalMap.java:1494-1501 | unlinking the node of a key from a chain with distinct keys cuts out exactly that node and keeps the others in order |
| HashedNodes.Half | springfield-commons/src/main/java/zenny/toybox/springfield/util/HashedBidirectionalMap.java:1559-1587 | the lo and hi lists of a split keep only nodes of the chain whose `hash & oldCap` bit selects that half |
| HashedNodes.HalfMap | springfield-commons/src/main/java/zenny/toybox/springfield/util/HashedBidirectionalMap.java:1559-1587 | each half keeps exactly the mappings whose key hashes to that half, with their values |
| HashedNodes.FindNode | springfield-commons/src/main/java/zenny/toybox/springfield/util/HashedBidirectionalMap.java:1404-1418 | the bucket walk finds the first node with the hash and key, or reports that no node has them |
| HashedNodes.TableLookup | springfield-commons/src/main/java/zenny/toybox/springfield/util/HashedBidirectionalMap.java:1398-1421 | a key is mapped exactly when the bucket its hash selects maps it |
| HashedNodes.TablePut | springfield-commons/src/main/java/zenny/toybox/springfield/util/HashedBidirectionalMap.java:1431-1461 | replacing a key's bucket by one mapping the key to a value keeps the table sound and stores exactly that mapping |
| HashedNodes.TableRemove | springfield-commons/src/main/java/zenny/toybox/springfield/util/HashedBidirectionalMap.java:1494-1505 | replacing a key's bucket by one without the key keeps the table sound and removes exactly that key |
| HashedNodes.BinSet | springfield-commons/src/main/java/zenny/toybox/springfield/util/HashedBidirectionalMap.java:1455-1460 | overwriting the value of the found node stores the new value and leaves every bucket's keys and order alone |
| HashedNodes.BinAppend | springfield-commons/src/main/java/zenny/toybox/springfield/util/HashedBidirectionalMap.java:1431-1443 | appending a node for an absent key to its bucket's chain, as `putVal` does for a null or plain bucket, maps the key to the value (a tree bin is treated alike; see Left out) |
| HashedNodes.BinUnlink | springfield-commons/src/main/java/zenny/toybox/springfield/util/HashedBidirectionalMap.java:1494-1501 | unlinking the found node removes its key, and a bucket left without nodes is a null bucket |
| HashedNodes.BinSearch | springfield-commons/src/main/java/zenny/toybox/springfield/util/HashedBidirectionalMap.java:1404-1418 | the walk of `get`, `put` and `remove` finds a node exactly when the key is mapped, and that node carries the key's hash and value |
| HashedNodes.Split | springfield-commons/src/main/java/zenny/toybox/springfield/util/HashedBidirectionalMap.java:1549-1591 | the doubled table has the low half of old bucket `j` at `j` and the high half at `j + oldCap` |
| HashedNodes.SplitBin | springfield-commons/src/main/java/zenny/toybox/springfield/util/HashedBidirectionalMap.java:1551-1587 | a bucket after doubling keeps only nodes of the old bucket whose hash selects that half, never more than it had, and is a tree only if the old bucket was |
| HashedNodes.SplitLone | springfield-commons/src/main/java/zenny/toybox/springfield/util/HashedBidirectionalMap.java:1554-1555 | a bucket of one node moves whole to `hash & newCap - 1`, leaving the other half empty |
| HashedNodes.SplitKeepsTable | springfield-commons/src/main/java/zenny/toybox/springfield/util/HashedBidirectionalMap.java:1549-1591 | `resize` keeps every mapping and places every node in the bucket its hash selects in the doubled table |
| HashedNodes.EmptyHolds | springfield-commons/src/main/java/zenny/toybox/springfield/util/HashedBidirectionalMap.java:1546 | a freshly allocated table holds no mapping |
| HashedNodes.NothingHeld | springfield-commons/src/main/java/zenny/toybox/springfield/util/HashedBidirectionalMap.java:1513-1517 | a table that maps nothing has only null buckets |
| HashedNodes.TreeifyHolds | springfield-commons/src/main/java/zenny/toybox/springfield/util/HashedBidirectionalMap.java:1600-1614 | turning a non-empty bucket into a tree bin changes no mapping and no bucket's keys |
| HashedNodes.SplitChain | springfield-commons/src/main/java/zenny/toybox/springfield/util/HashedBidirectionalMap.java:1559-1579 | the relinking loop builds the lo and hi lists, each in chain order |
| HashedNodes.MoveBin | springfield-commons/src/main/java/zenny/toybox/springfield/util/HashedBidirectionalMap.java:1552-1588 | moving old bucket `j` fills buckets `j` and `j + oldCap` of the new table with its halves, nulls the old bucket and touches nothing else |
| HashedNodes.Transfer | springfield-commons/src/main/java/zenny/toybox/springfield/util/HashedBidirectionalMap.java:1549-1591 | the relinking loop of `resize` builds exactly the doubled table and nulls every old bucket |
| HashedNodes.GrownCapacity | springfield-commons/src/main/java/zenny/toybox/springfield/util/HashedBidirectionalMap.java:1523-1538 | the capacity `resize` allocates is positive |
| HashedNodes.Nodes.constructor | springfield-commons/src/main/java/zenny/toybox/springfield/util/HashedBidirectionalMap.java:1379-1383 | a new direction has no table, no mapping, no modification, and `tableSizeFor(initialCapacity)` as its threshold |
| HashedNodes.Nodes.Get | springfield-commons/src/main/java/zenny/toybox/springfield/util/HashedBidirectionalMap.java:1398-1421 | `get` answers a node exactly when the key is mapped, and the node carries the key's hash and current value |
| HashedNodes.Nodes.Put | springfield-commons/src/main/java/zenny/toybox/springfield/util/HashedBidirectionalMap.java:1423-1468 | `put` answers the old value wrapped when the key was mapped (overwriting it unless only-if-absent, with no modification) and null otherwise, when it adds the mapping and counts a modification |
| HashedNodes.Nodes.Link | springfield-commons/src/main/java/zenny/toybox/springfield/util/HashedBidirectionalMap.java:1431-1466 | the end of `put` for an absent key adds the mapping and counts one modification, keeping the table sound |
| HashedNodes.Nodes.Count | springfield-commons/src/main/java/zenny/toybox/springfield/util/HashedBidirectionalMap.java:1463-1466 | counting the new mapping keeps the contents, counts one modification and resizes past the threshold with the table sound |
| HashedNodes.Nodes.SetValue | springfield-commons/src/main/java/zenny/toybox/springfield/util/HashedBidirectionalMap.java:543-545 | overwriting a present key's node value changes only that mapping: no modification, same size, threshold, table and bucket layout |
| HashedNodes.Nodes.Remove | springfield-commons/src/main/java/zenny/toybox/springfield/util/HashedBidirectionalMap.java:1470-1508 | `remove` unlinks and answers the key's node exactly when the key is mapped and, with value matching, its value is the given one, counting a modification; otherwise nothing changes and it answers null |
| HashedNodes.Nodes.Unlink | springfield-commons/src/main/java/zenny/toybox/springfield/util/HashedBidirectionalMap.java:1494-1505 | unlinking the found node removes exactly its key from its own bucket and counts a modification |
| HashedNodes.Nodes.Detach | springfield-commons/src/main/java/zenny/toybox/springfield/util/HashedBidirectionalMap.java:1497-1504 | the stores of an unlink replace exactly one bucket, decrement the size and count a modification |
| HashedNodes.Nodes.Clear | springfield-commons/src/main/java/zenny/toybox/springfield/util/HashedBidirectionalMap.java:1510-1519 | `clear` always counts a modification and leaves an empty map with only null buckets in the same table |
| HashedNodes.Nodes.Resize | springfield-commons/src/main/java/zenny/toybox/springfield/util/HashedBidirectionalMap.java:1521-1593 | `resize` keeps every mapping, allocates the first table, doubles the table by splitting every bucket, or at the maximum capacity keeps the table and only lifts the threshold |
| HashedNodes.Nodes.Treeify | springfield-commons/src/main/java/zenny/toybox/springfield/util/HashedBidirectionalMap.java:1595-1616 | `treeify` resizes a table smaller than `MIN_TREEIFY_CAPACITY` and otherwise marks the hash's non-null bucket as a tree bin with the same nodes, changing no mapping |
| TreeBins.OrderedCheck | springfield-commons/src/main/java/zenny/toybox/springfield/util/HashedBidirectionalMap.java:1343-1367 | on a tree whose subtrees respect the hash order, `checkInvariants` holds exactly when no red node has two red children |
| TreeBins.CheckInvariantsMissesOrder | springfield-commons/src/main/java/zenny/toybox/springfield/util/HashedBidirectionalMap.java:1354-1366 | `checkInvariants` compares parents with children only: a tree 5 → 10 → 3 passes it, yet lookup for the held node of hash 3 misses it |
| TreeBins.FindSound | springfield-commons/src/main/java/zenny/toybox/springfield/util/HashedBidirectionalMap.java:759-785 | whatever `find` answers is a node of the tree with the hash and key looked for |
| TreeBins.FindComplete | springfield-commons/src/main/java/zenny/toybox/springfield/util/HashedBidirectionalMap.java:759-785 | on a hash-ordered tree `find` answers a node exactly when the tree holds one with that hash and key |
| TreeBins.TreeFindAgreesWithChain | springfield-commons/src/main/java/zenny/toybox/springfield/util/HashedBidirectionalMap.java:790-792 | in a valid tree bin `getTreeNode` answers exactly the chain's node of that hash and key, as the chain walk would |
| TreeBins.PlaceElements | springfield-commons/src/main/java/zenny/toybox/springfield/util/HashedBidirectionalMap.java:822-832 | linking a new leaf adds exactly that node to the tree |
| TreeBins.PlaceOrdered | springfield-commons/src/main/java/zenny/toybox/springfield/util/HashedBidirectionalMap.java:810-832 | descending by hash and linking the new leaf keeps the hash order |
| TreeBins.TreeifyValid | springfield-commons/src/main/java/zenny/toybox/springfield/util/HashedBidirectionalMap.java:797-838 | treeifying a chain with distinct keys gives a valid tree bin that keeps the red-black rules and passes `checkInvariants`, whose chain after `moveRootToFront` starts at the root |
| TreeBins.TreeifyKeeps | springfield-commons/src/main/java/zenny/toybox/springfield/util/HashedBidirectionalMap.java:797-836 | the tree built by inserting the chain node by node with `balanceInsertion` holds exactly the chain's nodes, is hash-ordered and keeps the red-black rules |
| TreeBins.RootToFrontKeeps | springfield-commons/src/main/java/zenny/toybox/springfield/util/HashedBidirectionalMap.java:1080-1098 | `moveRootToFront` keeps the chain's nodes and distinct keys and puts the root's node first |
| TreeBins.SearchExact | springfield-commons/src/main/java/zenny/toybox/springfield/util/HashedBidirectionalMap.java:865-884 | the probe of `putTreeVal`, including its one search of both subtrees, finds a node exactly when the ordered tree holds the hash and key |
| TreeBins.PutTreeValSpec | springfield-commons/src/main/java/zenny/toybox/springfield/util/HashedBidirectionalMap.java:861-904 | `putTreeVal` answers the node already holding the key and leaves the bin alone; otherwise it adds exactly the new node to tree and chain, keeps the bin valid, puts the new root first in the chain, and on a red-black tree keeps the red-black rules and so `checkInvariants` |
| TreeBins.RotateLeftKeeps | springfield-commons/src/main/java/zenny/toybox/springfield/util/HashedBidirectionalMap.java:1165-1182 | a left rotation keeps the in-order node sequence and at the root leaves a black root |
| TreeBins.RotateLeftOrdered | springfield-commons/src/main/java/zenny/toybox/springfield/util/HashedBidirectionalMap.java:1165-1182 | a left rotation keeps the hash order |
| TreeBins.RotateRightKeeps | springfield-commons/src/main/java/zenny/toybox/springfield/util/HashedBidirectionalMap.java:1184-1201 | a right rotation keeps the in-order node sequence and at the root leaves a black root |
| TreeBins.RotateRightOrdered | springfield-commons/src/main/java/zenny/toybox/springfield/util/HashedBidirectionalMap.java:1184-1201 | a right rotation keeps the hash order |
| TreeBins.RotationAloneBreaksColourTest | springfield-commons/src/main/java/zenny/toybox/springfield/util/HashedBidirectionalMap.java:1165-1182 | a rotation without recolouring can break the colour test of `checkInvariants` |
| TreeBins.Blacken | springfield-commons/src/main/java/zenny/toybox/springfield/util/HashedBidirectionalMap.java:1206-1207 | colouring the root black keeps the nodes and leaves a black root, as `balanceInsertion` does when the new node or a recoloured grandparent becomes the root |
| TreeBins.NoRedRedRedOk | springfield-commons/src/main/java/zenny/toybox/springfield/util/HashedBidirectionalMap.java:1343-1367 | a tree where no red node has a red child passes the colour test of `checkInvariants` |
| TreeBins.FixLeftElements | springfield-commons/src/main/java/zenny/toybox/springfield/util/HashedBidirectionalMap.java:1212-1230 | one pass of `balanceInsertion` with the parent on the left (recolouring, or a rotation of the parent and a right rotation of the grandparent) keeps the in-order node sequence |
| TreeBins.FixRightElements | springfield-commons/src/main/java/zenny/toybox/springfield/util/HashedBidirectionalMap.java:1231-1249 | one pass with the parent on the right keeps the in-order node sequence |
| TreeBins.InsElements | springfield-commons/src/main/java/zenny/toybox/springfield/util/HashedBidirectionalMap.java:1204-1250 | linking the new node and rebalancing puts it at the same place of the in-order sequence as linking alone |
| TreeBins.FixLeftOrdered | springfield-commons/src/main/java/zenny/toybox/springfield/util/HashedBidirectionalMap.java:1212-1230 | one pass of `balanceInsertion` with the parent on the left keeps the hash order |
| TreeBins.FixRightOrdered | springfield-commons/src/main/java/zenny/toybox/springfield/util/HashedBidirectionalMap.java:1231-1249 | one pass with the parent on the right keeps the hash order |
| TreeBins.InsOrdered | springfield-commons/src/main/java/zenny/toybox/springfield/util/HashedBidirectionalMap.java:1204-1250 | linking the new node and rebalancing keeps the hash order |
| TreeBins.FixLeftColours | springfield-commons/src/main/java/zenny/toybox/springfield/util/HashedBidirectionalMap.java:1212-1230 | one pass with the parent on the left keeps black heights balanced and unchanged, restores the colour rule below a black grandparent and leaves a red one violating it at most at its root |
| TreeBins.FixRightColours | springfield-commons/src/main/java/zenny/toybox/springfield/util/HashedBidirectionalMap.java:1231-1249 | the same for the parent on the right |
| TreeBins.InsColours | springfield-commons/src/main/java/zenny/toybox/springfield/util/HashedBidirectionalMap.java:1204-1250 | rebalanced insertion into a tree with the colour rule and balanced black heights keeps the heights; a black subtree keeps the colour rule and a red one breaks it at most at its root |
| TreeBins.Insert | springfield-commons/src/main/java/zenny/toybox/springfield/util/HashedBidirectionalMap.java:1204-1250 | linking a node and `balanceInsertion` leave a black root |
| TreeBins.InsertRedBlack | springfield-commons/src/main/java/zenny/toybox/springfield/util/HashedBidirectionalMap.java:1204-1250 | linking a node and `balanceInsertion` keep the red-black rules (no red node with a red child, equal black heights, a black root), and with them the colour test of `checkInvariants` |
| TreeBins.MoveRootToFront | springfield-commons/src/main/java/zenny/toybox/springfield/util/HashedBidirectionalMap.java:1078-1101 | `moveRootToFront` makes the root the chain's first node and keeps the other nodes in order |
| TreeBins.MoveRootKeepsDistinct | springfield-commons/src/main/java/zenny/toybox/springfield/util/HashedBidirectionalMap.java:1078-1098 | moving the root to the front keeps the chain's keys distinct |
| TreeBins.NotTooSmallHasFour | springfield-commons/src/main/java/zenny/toybox/springfield/util/HashedBidirectionalMap.java:987-990 | a tree that `removeTreeNode` keeps as a tree has at least four nodes |
| TreeBins.LeftmostOrdered | springfield-commons/src/main/java/zenny/toybox/springfield/util/HashedBidirectionalMap.java:994-997 | the successor found by going left has the least hash of the subtree, and taking it out keeps the order |
| TreeBins.DeleteElements | springfield-commons/src/main/java/zenny/toybox/springfield/util/HashedBidirectionalMap.java:992-1069 | deleting a held node from the tree removes exactly that node |
| TreeBins.DeleteOrdered | springfield-commons/src/main/java/zenny/toybox/springfield/util/HashedBidirectionalMap.java:992-1069 | deleting a held node keeps the hash order |
| TreeBins.DeleteHereOrdered | springfield-commons/src/main/java/zenny/toybox/springfield/util/HashedBidirectionalMap.java:993-1037 | replacing a node with two children by its successor keeps the hash order |
| TreeBins.Untreeify | springfield-commons/src/main/java/zenny/toybox/springfield/util/HashedBidirectionalMap.java:843-856 | `untreeify` of a valid bin gives a plain list of the same nodes |
| TreeBins.RemoveTreeNodeSpec | springfield-commons/src/main/java/zenny/toybox/springfield/util/HashedBidirectionalMap.java:965-1073 | `removeTreeNode` removes exactly the node; the bucket becomes a plain list of the other nodes exactly when it empties or the tree is too small, and otherwise stays a valid tree bin whose chain keeps the order, or when `movable` has the new root moved to the front |
| TreeBins.HalvesCover | springfield-commons/src/main/java/zenny/toybox/springfield/util/HashedBidirectionalMap.java:1118-1138 | splitting a tree bin's chain sends every node to exactly one half |
| TreeBins.SplitTreeAgrees | springfield-commons/src/main/java/zenny/toybox/springfield/util/HashedBidirectionalMap.java:1112-1160 | `split` of a tree bin gives each half the nodes and tree flag of the plain-list split; a plain half or a tree half left whole has its chain, a rebuilt tree half has it with the root moved to the front, and every tree half is a valid tree bin |
| HashedBidirectionalMap.Stored | springfield-commons/src/main/java/zenny/toybox/springfield/util/HashedBidirectionalMap.java:1455-1466 | after `Nodes.put` the key is held with the new value, or keeps its old one when it was held and only-if-absent, and every other mapping is unchanged |
| HashedBidirectionalMap.Rebind | springfield-commons/src/main/java/zenny/toybox/springfield/util/HashedBidirectionalMap.java:543-549 | rebinding a held key gives the forward map the new value for that key |
| HashedBidirectionalMap.RebindKeepsMirror | springfield-commons/src/main/java/zenny/toybox/springfield/util/HashedBidirectionalMap.java:543-549 | on a bidirectional map, rebinding a key to a value no other key holds keeps it bidirectional, and the old value leaves the inverse |
| HashedBidirectionalMap.WrittenPut | springfield-commons/src/main/java/zenny/toybox/springfield/util/HashedBidirectionalMap.java:314-327 | `doPut` as written stores the forward mapping like `Nodes.put`, throws exactly for a fresh key and otherwise answers the key's old value |
| HashedBidirectionalMap.IntendedPut | springfield-commons/src/main/java/zenny/toybox/springfield/util/HashedBidirectionalMap.java:314-327 | corrected `doPut` answers the old value (null for a fresh key) and stores the forward mapping like `Nodes.put` |
| HashedBidirectionalMap.IntendedPutKeepsMirror | springfield-commons/src/main/java/zenny/toybox/springfield/util/HashedBidirectionalMap.java:314-327 | corrected `doPut` keeps a bidirectional map bidirectional when no other key holds the value |
| HashedBidirectionalMap.WrittenPutDiffers | springfield-commons/src/main/java/zenny/toybox/springfield/util/HashedBidirectionalMap.java:314-327 | written and corrected `doPut` leave the same mappings for a fresh key, and agree entirely for a held key except `putIfAbsent` of a different value |
| HashedBidirectionalMap.FreshPutThrows | springfield-commons/src/main/java/zenny/toybox/springfield/util/HashedBidirectionalMap.java:315-320 | `put(1, 2)` on an empty map throws a null dereference after both tables already hold the pair |
| HashedBidirectionalMap.PutIfAbsentEditsInverse | springfield-commons/src/main/java/zenny/toybox/springfield/util/HashedBidirectionalMap.java:321-323 | `putIfAbsent(1, 2)` on {1 = 1} keeps 1 = 1 forward but rewrites the inverse to {2 = 1}, breaking the bijection |
| HashedBidirectionalMap.DuplicateValueKept | springfield-commons/src/main/java/zenny/toybox/springfield/util/HashedBidirectionalMap.java:321-323 | `put(1, 2)` on {1 = 1, 2 = 2} leaves two keys mapped to 2: the other holder of a value is not evicted |
| HashedBidirectionalMap.PairRemoved | springfield-commons/src/main/java/zenny/toybox/springfield/util/HashedBidirectionalMap.java:505-513 | `remove(key, value)` answers true exactly when the key holds the value, and otherwise changes nothing |
| HashedBidirectionalMap.PairRemovedKeepsMirror | springfield-commons/src/main/java/zenny/toybox/springfield/util/HashedBidirectionalMap.java:505-513 | a successful `remove(key, value)` is `remove(key)`, and either way a bidirectional map stays bidirectional |
| HashedBidirectionalMap.ReplacedIf | springfield-commons/src/main/java/zenny/toybox/springfield/util/HashedBidirectionalMap.java:521-533 | `replace(key, oldValue, newValue)` answers true exactly when the key holds `oldValue`, then rebinds it, and otherwise changes nothing |
| HashedBidirectionalMap.Replaced | springfield-commons/src/main/java/zenny/toybox/springfield/util/HashedBidirectionalMap.java:541-553 | `replace(key, value)` answers the old value, rebinding a held key; an absent key changes nothing and answers null |
| HashedBidirectionalMap.ReplaceKeepsMirror | springfield-commons/src/main/java/zenny/toybox/springfield/util/HashedBidirectionalMap.java:521-553 | both `replace`s keep a bidirectional map bidirectional when no other key holds the new value |
| HashedBidirectionalMap.KeyRemovedAsWritten | springfield-commons/src/main/java/zenny/toybox/springfield/util/HashedBidirectionalMap.java:2144-2147 | `keySet().remove` as written removes like `remove(key)` and answers true only when the key was held |
| HashedBidirectionalMap.KeyRemoved | springfield-commons/src/main/java/zenny/toybox/springfield/util/HashedBidirectionalMap.java:2144-2147 | corrected `keySet().remove` answers true exactly when the key was held |
| HashedBidirectionalMap.KeyRemovedMissesNullValue | springfield-commons/src/main/java/zenny/toybox/springfield/util/HashedBidirectionalMap.java:2146 | on {1 = null}, `keySet().remove(1)` removes the mapping yet answers false |
| HashedBidirectionalMap.ValueRemoved | springfield-commons/src/main/java/zenny/toybox/springfield/util/HashedBidirectionalMap.java:2197-2206 | `values().remove` answers whether the value was held and removes it with its key, which is removing the value from the inverse |
| HashedBidirectionalMap.ValueRemovedKeepsMirror | springfield-commons/src/main/java/zenny/toybox/springfield/util/HashedBidirectionalMap.java:2197-2206 | removing a value keeps a bidirectional map bidirectional and equals removing its key |
| HashedBidirectionalMap.EntrySetsMirror | springfield-commons/src/main/java/zenny/toybox/springfield/util/HashedBidirectionalMap.java:2008-2016 | on a bidirectional map an entry is in the entry set exactly when its reverse is in the inverse entry set |
| HashedBidirectionalMap.EntryRemoved | springfield-commons/src/main/java/zenny/toybox/springfield/util/HashedBidirectionalMap.java:2019-2027 | `entrySet().remove` answers true exactly for a contained entry and then removes its key; anything else changes nothing |
| HashedBidirectionalMap.InverseEntryRemoved | springfield-commons/src/main/java/zenny/toybox/springfield/util/HashedBidirectionalMap.java:2085-2093 | `inverseEntrySet().remove` that answers false changes nothing |
| HashedBidirectionalMap.InverseEntryRemovedMirrors | springfield-commons/src/main/java/zenny/toybox/springfield/util/HashedBidirectionalMap.java:2085-2093 | on a bidirectional map removing an inverse entry succeeds exactly for a contained inverse entry, keeps the map bidirectional and equals removing the entry from the inverse |
| HashedBidirectionalMap.EntrySetValue | springfield-commons/src/main/java/zenny/toybox/springfield/util/HashedBidirectionalMap.java:709-714 | an entry's `setValue` answers the old value and leaves the inverse table as it was |
| HashedBidirectionalMap.EntrySetValueBreaksMirror | springfield-commons/src/main/java/zenny/toybox/springfield/util/HashedBidirectionalMap.java:709-714 | setting a different value through an entry always breaks the bijection |
| HashedBidirectionalMap.MirrorSizes | springfield-commons/src/main/java/zenny/toybox/springfield/util/HashedBidirectionalMap.java:2058-2061 | the two directions of a bidirectional map have equally many entries |
| HashedBidirectionalMap.HashedBidirectionalMap.PutForward | springfield-commons/src/main/java/zenny/toybox/springfield/util/HashedBidirectionalMap.java:315 | `bi.put` answers the previous value wrapped, stores the forward mapping and leaves `di` untouched |
| HashedBidirectionalMap.HashedBidirectionalMap.PutInverse | springfield-commons/src/main/java/zenny/toybox/springfield/util/HashedBidirectionalMap.java:317 | `di.put` stores the inverse mapping and leaves `bi` untouched |
| HashedBidirectionalMap.HashedBidirectionalMap.RemoveForward | springfield-commons/src/main/java/zenny/toybox/springfield/util/HashedBidirectionalMap.java:349 | `bi.remove` removes and answers the key's node when it matches and leaves `di` untouched |
| HashedBidirectionalMap.HashedBidirectionalMap.RemoveInverse | springfield-commons/src/main/java/zenny/toybox/springfield/util/HashedBidirectionalMap.java:352 | `di.remove` removes and answers the value's node when held and leaves `bi` untouched |
| HashedBidirectionalMap.HashedBidirectionalMap.SetForward | springfield-commons/src/main/java/zenny/toybox/springfield/util/HashedBidirectionalMap.java:545 | overwriting a held key's forward value changes only that mapping |
| HashedBidirectionalMap.HashedBidirectionalMap.constructor | springfield-commons/src/main/java/zenny/toybox/springfield/util/HashedBidirectionalMap.java:175-189 | the checked constructor caps the capacity, defaults a null hasher to `HASHMAP` and makes two empty, unallocated tables with the same settings |
| HashedBidirectionalMap.HashedBidirectionalMap.Sharing | springfield-commons/src/main/java/zenny/toybox/springfield/util/HashedBidirectionalMap.java:209-212 | the private constructor shares the two given tables |
| HashedBidirectionalMap.HashedBidirectionalMap.Create | springfield-commons/src/main/java/zenny/toybox/springfield/util/HashedBidirectionalMap.java:175-189 | a negative capacity or non-positive load factor throws the illegal-argument error; otherwise the map is empty |
| HashedBidirectionalMap.HashedBidirectionalMap.Default | springfield-commons/src/main/java/zenny/toybox/springfield/util/HashedBidirectionalMap.java:149-163 | the default map is empty with load factor 0.75 and the `HASHMAP` hasher |
| HashedBidirectionalMap.HashedBidirectionalMap.Size | springfield-commons/src/main/java/zenny/toybox/springfield/util/HashedBidirectionalMap.java:221-224 | `size()` is the number of mappings |
| HashedBidirectionalMap.HashedBidirectionalMap.IsEmpty | springfield-commons/src/main/java/zenny/toybox/springfield/util/HashedBidirectionalMap.java:231-234 | `isEmpty()` holds exactly when there is no mapping |
| HashedBidirectionalMap.HashedBidirectionalMap.SizeCountsValues | springfield-commons/src/main/java/zenny/toybox/springfield/util/HashedBidirectionalMap.java:221-224 | on a mirrored map the size also counts the inverse entries |
| HashedBidirectionalMap.HashedBidirectionalMap.ContainsKey | springfield-commons/src/main/java/zenny/toybox/springfield/util/HashedBidirectionalMap.java:242-245 | `containsKey` holds exactly for a held key, which on a mirrored map is exactly a key some value maps back to |
| HashedBidirectionalMap.HashedBidirectionalMap.ContainsValue | springfield-commons/src/main/java/zenny/toybox/springfield/util/HashedBidirectionalMap.java:254-257 | `containsValue` holds exactly for a held value, which on a mirrored map is exactly a value some key maps to |
| HashedBidirectionalMap.HashedBidirectionalMap.Get | springfield-commons/src/main/java/zenny/toybox/springfield/util/HashedBidirectionalMap.java:277-280 | `get` answers the key's value or null, and on a mirrored map `getKey` of the answer leads back to the key |
| HashedBidirectionalMap.HashedBidirectionalMap.GetKey | springfield-commons/src/main/java/zenny/toybox/springfield/util/HashedBidirectionalMap.java:284-287 | `getKey` answers the value's key or null, and on a mirrored map `get` of the answer leads back to the value |
| HashedBidirectionalMap.HashedBidirectionalMap.GetOrDefault | springfield-commons/src/main/java/zenny/toybox/springfield/util/HashedBidirectionalMap.java:485-488 | `getOrDefault` answers the held value, null included, and the default for an absent key |
| HashedBidirectionalMap.HashedBidirectionalMap.DoPut | springfield-commons/src/main/java/zenny/toybox/springfield/util/HashedBidirectionalMap.java:314-327 | the two tables end as the written `doPut` on the mappings says, with its answer or exception |
| HashedBidirectionalMap.HashedBidirectionalMap.Put | springfield-commons/src/main/java/zenny/toybox/springfield/util/HashedBidirectionalMap.java:301-303 | `put` is the written `doPut`; on a mirrored map with a held key and a value no other key holds it stays mirrored, rebinds the key and answers its old value |
| HashedBidirectionalMap.HashedBidirectionalMap.PutIfAbsent | springfield-commons/src/main/java/zenny/toybox/springfield/util/HashedBidirectionalMap.java:496-498 | `putIfAbsent` is the written `doPut` with only-if-absent |
| HashedBidirectionalMap.HashedBidirectionalMap.DoPutIntended | springfield-commons/src/main/java/zenny/toybox/springfield/util/HashedBidirectionalMap.java:314-327 | the corrected `doPut` leaves the two tables as `IntendedPut` says |
| HashedBidirectionalMap.HashedBidirectionalMap.Remove | springfield-commons/src/main/java/zenny/toybox/springfield/util/HashedBidirectionalMap.java:338-357 | `remove(key)` removes the key and its value's inverse entry, answers the value, and keeps a mirrored map mirrored |
| HashedBidirectionalMap.HashedBidirectionalMap.RemoveMapping | springfield-commons/src/main/java/zenny/toybox/springfield/util/HashedBidirectionalMap.java:505-513 | `remove(key, value)` does what `PairRemoved` says and keeps a mirrored map mirrored |
| HashedBidirectionalMap.HashedBidirectionalMap.Rebinding | springfield-commons/src/main/java/zenny/toybox/springfield/util/HashedBidirectionalMap.java:543-549 | the shared rebinding step does what `Rebind` says and keeps the mirror when no other key holds the value |
| HashedBidirectionalMap.HashedBidirectionalMap.ReplaceIf | springfield-commons/src/main/java/zenny/toybox/springfield/util/HashedBidirectionalMap.java:521-533 | `replace(key, oldValue, newValue)` does what `ReplacedIf` says |
| HashedBidirectionalMap.HashedBidirectionalMap.Replace | springfield-commons/src/main/java/zenny/toybox/springfield/util/HashedBidirectionalMap.java:541-553 | `replace(key, value)` does what `Replaced` says |
| HashedBidirectionalMap.HashedBidirectionalMap.Clear | springfield-commons/src/main/java/zenny/toybox/springfield/util/HashedBidirectionalMap.java:380-384 | `clear` empties both tables, nulls every bucket and counts one modification in each |
| HashedBidirectionalMap.HashedBidirectionalMap.Inverse | springfield-commons/src/main/java/zenny/toybox/springfield/util/HashedBidirectionalMap.java:472-475 | `inverse()` is a new map over the same tables with the roles exchanged, holding the reversed mappings and keeping validity and the mirror |
| HashedBidirectionalMap.HashedBidirectionalMap.KeySetRemove | springfield-commons/src/main/java/zenny/toybox/springfield/util/HashedBidirectionalMap.java:2144-2147 | `keySet().remove` does what `KeyRemovedAsWritten` says and keeps a mirrored map mirrored |
| HashedBidirectionalMap.HashedBidirectionalMap.ValueSetRemove | springfield-commons/src/main/java/zenny/toybox/springfield/util/HashedBidirectionalMap.java:2197-2206 | `values().remove` does what `ValueRemoved` says and keeps a mirrored map mirrored |
| HashedBidirectionalMap.HashedBidirectionalMap.EntrySetContains | springfield-commons/src/main/java/zenny/toybox/springfield/util/HashedBidirectionalMap.java:2008-2016 | `entrySet().contains` holds exactly for an entry the map holds, which on a mirrored map is exactly when its reverse is an inverse entry |
| HashedBidirectionalMap.HashedBidirectionalMap.InverseEntrySetContains | springfield-commons/src/main/java/zenny/toybox/springfield/util/HashedBidirectionalMap.java:2074-2082 | `inverseEntrySet().contains` holds exactly for an entry of the inverse |
| HashedBidirectionalMap.HashedBidirectionalMap.EntrySetRemove | springfield-commons/src/main/java/zenny/toybox/springfield/util/HashedBidirectionalMap.java:2019-2027 | `entrySet().remove` does what `EntryRemoved` says and keeps a mirrored map mirrored |
| HashedBidirectionalMap.HashedBidirectionalMap.InverseEntrySetRemove | springfield-commons/src/main/java/zenny/toybox/springfield/util/HashedBidirectionalMap.java:2085-2093 | `inverseEntrySet().remove` does what `InverseEntryRemoved` says and keeps a mirrored map mirrored |
| HashedBidirectionalMap.HashedBidirectionalMap.SetEntryValue | springfield-commons/src/main/java/zenny/toybox/springfield/util/HashedBidirectionalMap.java:709-714 | an entry's `setValue` does what `EntrySetValue` says: only the forward node changes |
| HashedIteration.FlatListsContents | springfield-commons/src/main/java/zenny/toybox/springfield/util/HashedBidirectionalMap.java:1901-1922 | walking a sound table bucket by bucket, each along its chain, meets every mapping exactly once and nothing else |
| HashedIteration.StepInBucket | springfield-commons/src/main/java/zenny/toybox/springfield/util/HashedBidirectionalMap.java:1920 | taking a node with more of its chain behind it leaves exactly the rest of the walk |
| HashedIteration.StepOut | springfield-commons/src/main/java/zenny/toybox/springfield/util/HashedBidirectionalMap.java:1920-1923 | taking the last node of a chain and skipping to the next non-empty bucket leaves exactly the rest of the walk |
| HashedIteration.UnlinkBehind | springfield-commons/src/main/java/zenny/toybox/springfield/util/HashedBidirectionalMap.java:1935-1941 | unlinking the node returned last, which is not among the nodes still to come, leaves the walk with the same nodes ahead |
| HashedIteration.Skip | springfield-commons/src/main/java/zenny/toybox/springfield/util/HashedBidirectionalMap.java:1901-1903 | the bucket-skipping loop stops at the first node of the next non-empty bucket before the bound, or at the bound, passing over only empty buckets |
| HashedIteration.Walk | springfield-commons/src/main/java/zenny/toybox/springfield/util/HashedBidirectionalMap.java:1920-1923 | `nextNode`'s move goes on along the chain or to the next non-empty bucket, dropping exactly the node just taken from what is ahead |
| HashedIteration.HashedIterator.constructor | springfield-commons/src/main/java/zenny/toybox/springfield/util/HashedBidirectionalMap.java:1892-1905 | a new iterator records the sum of both modification counts and has every node of the table, in walk order, still to return |
| HashedIteration.HashedIterator.HasNext | springfield-commons/src/main/java/zenny/toybox/springfield/util/HashedBidirectionalMap.java:1907-1909 | `hasNext()` holds exactly when some node is still to come |
| HashedIteration.HashedIterator.NextNode | springfield-commons/src/main/java/zenny/toybox/springfield/util/HashedBidirectionalMap.java:1911-1925 | `nextNode()` fails fast after a modification behind its back, throws when nothing is left, and otherwise returns the first pending node, remembers it as current and moves on |
| HashedIteration.HashedIterator.Take | springfield-commons/src/main/java/zenny/toybox/springfield/util/HashedBidirectionalMap.java:1920-1923 | the moving-on part of `nextNode()` makes `next` the current node and drops it from what is pending |
| HashedIteration.HashedIterator.UnmapKey | springfield-commons/src/main/java/zenny/toybox/springfield/util/HashedBidirectionalMap.java:1937 | `nodes.remove(key)` removes the key from the iterated table only |
| HashedIteration.HashedIterator.UnmapValue | springfield-commons/src/main/java/zenny/toybox/springfield/util/HashedBidirectionalMap.java:1939 | `inverse.remove(value)` removes the value from the inverse table only |
| HashedIteration.HashedIterator.Unmap | springfield-commons/src/main/java/zenny/toybox/springfield/util/HashedBidirectionalMap.java:1936-1940 | both removals of `remove()` remove the key and its value's inverse entry |
| HashedIteration.HashedIterator.Remove | springfield-commons/src/main/java/zenny/toybox/springfield/util/HashedBidirectionalMap.java:1927-1942 | `remove()` without a current node throws the illegal-state error, after a modification behind its back fails fast, and otherwise removes the current mapping from both tables, takes the new counts and keeps the pending nodes; a bidirectional map stays bidirectional |
| HashedIteration.HashedIterator.Forget | springfield-commons/src/main/java/zenny/toybox/springfield/util/HashedBidirectionalMap.java:1935-1941 | the synchronised part of `remove()` forgets the current node, removes its mapping and keeps the pending nodes |
| HashedIteration.Step | springfield-commons/src/main/java/zenny/toybox/springfield/util/HashedBidirectionalMap.java:1708-1721 | one `tryAdvance` over the array hands over the first node still ahead and leaves the rest, or hands over nothing when none is left |
| HashedIteration.Drain | springfield-commons/src/main/java/zenny/toybox/springfield/util/HashedBidirectionalMap.java:1684-1694 | the loop of `forEachRemaining` hands over exactly the nodes still ahead, in order |
| HashedIteration.HashedSpliterator.constructor | springfield-commons/src/main/java/zenny/toybox/springfield/util/HashedBidirectionalMap.java:1630-1637 | a new spliterator keeps its origin, fence, estimate and expected count, and while in step has the nodes of its bucket range pending |
| HashedIteration.HashedSpliterator.Whole | springfield-commons/src/main/java/zenny/toybox/springfield/util/HashedBidirectionalMap.java:2149-2152 | a view's spliterator starts unfixed over the whole table |
| HashedIteration.HashedSpliterator.GetFence | springfield-commons/src/main/java/zenny/toybox/springfield/util/HashedBidirectionalMap.java:1639-1649 | `getFence()` on first use fixes the range end to the table length, the estimate to the size and the expected count; afterwards it changes nothing |
| HashedIteration.HashedSpliterator.EstimateSize | springfield-commons/src/main/java/zenny/toybox/springfield/util/HashedBidirectionalMap.java:1651-1654 | `estimateSize()` answers the estimate, which on first use is the number of mappings |
| HashedIteration.HashedSpliterator.TrySplit | springfield-commons/src/main/java/zenny/toybox/springfield/util/HashedBidirectionalMap.java:1662-1667 | `trySplit()` splits off `[lo, mid)` exactly when the range has more than one bucket and no bucket was entered, halving the estimate for both; the two pending sequences together are the old one |
| HashedIteration.HashedSpliterator.Shrink | springfield-commons/src/main/java/zenny/toybox/springfield/util/HashedBidirectionalMap.java:1666 | the shrinking step keeps `[mid, fence)` and half the estimate, giving up exactly the nodes of `[index, mid)` |
| HashedIteration.HashedSpliterator.TryAdvance | springfield-commons/src/main/java/zenny/toybox/springfield/util/HashedBidirectionalMap.java:1701-1724 | `tryAdvance` with a null action throws a null dereference; in step it hands over the first pending node and answers true, or answers false with nothing left; out of step it never answers true, and it hands a node to the action exactly when it then throws the concurrent-modification error |
| HashedIteration.HashedSpliterator.ForEachRemaining | springfield-commons/src/main/java/zenny/toybox/springfield/util/HashedBidirectionalMap.java:1669-1699 | `forEachRemaining` with a null action throws; in step it hands over every pending node in order and ends at the fence |
| HashedIteration.HashedSpliterator.Start | springfield-commons/src/main/java/zenny/toybox/springfield/util/HashedBidirectionalMap.java:1675-1683 | the opening of `forEachRemaining` fixes the range end and the expected count on first use, leaving the estimate |
| HashedIteration.HashedSpliterator.Characteristics | springfield-commons/src/main/java/zenny/toybox/springfield/util/HashedBidirectionalMap.java:1726-1729 | `characteristics()` reports SIZED exactly while unfixed or the estimate equals the size, and DISTINCT exactly for key and entry spliterators |
| HashedIteration.WalkTable | springfield-commons/src/main/java/zenny/toybox/springfield/util/HashedBidirectionalMap.java:2045-2049 | the nested loops of a view's `forEach` hand over every node of the table in walk order |
| HashedIteration.ForEach | springfield-commons/src/main/java/zenny/toybox/springfield/util/HashedBidirectionalMap.java:2154-2173 | a view's `forEach` with a null action throws a null dereference, and otherwise hands every node to the action when the map holds something |

## Left out

- Java `int`/`long` wrap-around is modelled only where the code relies on it (the hash mixers, `tableSizeFor`, the Snowflake bit fields). `size` and `modCount` of the hashed map are unbounded naturals.
- `Snowflake.SnowflakeIdGenerator.NextId`: the system clock is a parameter (the reading taken by each call). The `synchronized` lock, logging and the `setAlerter` callback (modelled only as an `alerted` flag) are not modelled. Overflow of the 64-bit timestamp shift is not modelled.
- ThrowableUtils: `throwAsUnchecked` (which returns on null and otherwise rethrows its argument unchecked through a generic cast) is out of scope, and so is `getStackTraceAsString` (text printing).
- Tuple: the hash code is an unbounded natural with XOR as a recursive function, not a 32-bit int. `get(int, Class)` casts, `readResolve`, the `asUnit`…`asDecade` factories and the `get0`…`get9` accessors are not modelled; they only call the modelled `get` and constructors.
- AbstractBidirectionalMap: `toString` and `clone` are not modelled. Key and value views are sets, not live iterators. The `ClassCastException`/`NullPointerException` catch in `equals` is not modelled, because the model's keys and values are typed.
- Interval: `Intervals.flatten` and the collection combinators (`differenceBetween`, `intersectBetween`, `unionBetween`, `symmetricDifference`) are not modelled. `hashCode`, `equals`, `toString`, the getter variants and `containsNegativeInfinity`/`containsPositiveInfinity` are not modelled. Elements are mathematical integers standing for any `Comparable`.
- IdentityCard: the regular expressions and `DateTimeFormatter` are replaced by predicates on digit strings. The locale is a string tag.
- IdentityCard.IsWhitespace: only the ASCII whitespace characters count, not the Unicode space separators that `Character.isWhitespace` also accepts, so `StringUtils.hasText` is modelled for ASCII text only.
- IdentityCard.Apply: the CHINA rule runs the corrected upgrade of 15-digit numbers, and so does `IdentityCard.IdentityCardValidator.IsValid`; the rule as written is `ChinaAcceptsAsWritten`, run by `ChinaIsValidAsWritten`.
- TypeConversion: `TypeConverterProxy.matches`, a reflective assignability test through Spring's `ResolvableType`, becomes membership of the source type in the set of types a converter accepts. `ConverterCacheKey.compareTo` and `toString` are not modelled.
- BijectedHashMap, BijectionHashMap: the capacity and load-factor constructors are not modelled; the model is a map value with no capacity, so the IllegalArgumentException that `HashMap(int, float)` and `HashMap(int)` throw for a negative capacity or a non-positive or NaN load factor is not modelled either.
- OwaspEscapes: `Character.isAlphabetic` is restricted to ASCII letters. The Jackson standard escape table is a parameter.
- TreeBins: keys are treated as non-`Comparable`, so `comparableClassFor`/`compareComparables` never decide order. `tieBreakOrder` (identity hash codes and class names) is a parameter ordering.
- TreeBins.Delete: `balanceDeletion` is not modelled. The node is unlinked, with the successor swapped in as `removeTreeNode` does, but nothing is recoloured or rotated afterwards. Rotations and recolouring keep the in-order sequence and the hash order (`RotateLeftKeeps`, `RotateLeftOrdered` and their mirrors), so lookups and the nodes held are the same as Java's; the shape, the colours and the root can differ.
- TreeBins.RemoveTreeNodeSpec: does not promise the red-black rules after a removal, because `balanceDeletion` is not modelled (see `TreeBins.Delete`). Which node `moveRootToFront` brings to the chain's front can therefore differ from Java's.
- TreeBins.PutTreeValSpec: keeps the red-black rules and `checkInvariants` for a tree that keeps the red-black rules, as every tree built by `treeify` and `putTreeVal` does. After a removal (see `TreeBins.Delete`) that is not promised, so neither is the colour part of `checkInvariants` after a later insertion.
- HashedNodes.Nodes.Link: a bucket is its node chain and a tree flag; the tree itself lives only in `TreeBins`. A new node is appended at the end of the chain in a tree bin too, where `putTreeVal` links it right after its tree parent and then moves the rebalanced root to the front (`TreeBins.PutTreeVal`). So the order in which the keys of a tree bin are iterated can differ from Java's; the nodes of every bucket, and so every mapping and lookup, are the same.
- HashedNodes.BinAppend: appends at the end of the chain for a tree bin as for a plain one, for the reason given for `HashedNodes.Nodes.Link`.
- HashedNodes.Nodes.Treeify: marks the bucket as a tree and keeps its chain order, where `treeify` moves the root of the built tree to the chain's front (`TreeBins.TreeifyValid`).
- HashedNodes.SplitBin: a half rebuilt as a tree keeps the chain order, where `split` moves the new root to the front (`TreeBins.SplitTreeAgrees` states the difference).
- HashedNodes.Nodes.Unlink: keeps the bucket marked as a tree while it has nodes, where `removeTreeNode` turns a tree too small for its test into a plain list, and with `movable` moves the new root to the chain's front (`TreeBins.RemoveTreeNodeSpec`). Only the tree flag and the chain order differ; the nodes are the same.
- HashedNodes: the load factor is a positive real rather than a `float`. Hash codes are inputs, and collisions are allowed.
- HashedBidirectionalMap: `putMapEntries`/`putAll`, `clone`, serialisation and the `Map` default methods the class overrides as unsupported stubs (`compute`, `computeIfAbsent`, `computeIfPresent`, `merge`, `forEach`, `replaceAll`) are not modelled. Memoisation of the view objects and `toString`/`hashCode` of a node are not modelled.
- HashedBidirectionalMap.HashedBidirectionalMap.DoPutIntended: the method states its new tables through `IntendedPut`. That the result stays mirrored is stated only by the lemma `IntendedPutKeepsMirror`.
- HashedBidirectionalMap.HashedBidirectionalMap.ReplaceIf: the result stays mirrored only through `ReplaceKeepsMirror`, which requires that no other key holds the new value.
- HashedBidirectionalMap.HashedBidirectionalMap.Replace: as for `ReplaceIf`.
- HashedBidirectionalMap.IntendedPutKeepsMirror: requires that no other key holds the new value, because the code never evicts the other holder (see `DuplicateValueKept`).
- HashedBidirectionalMap.ReplaceKeepsMirror: requires that no other key holds the new value, for the same reason.
- HashedIteration: the walk's `rest` is a snapshot of the chain after `next`, so it means something only while the table has not been modified since.
- HashedIteration.HashedSpliterator.TryAdvance: after a concurrent modification it states that the answer is never true and that a node was handed to the action exactly when the call ends in a ConcurrentModificationException, but not which node that was, because the walk's snapshot no longer describes the table.
- HashedIteration.ForEach: the `Consumer` is a pure boolean function that never touches the map, so the `ConcurrentModificationException` check after the loop never fires.
- HashedIteration.HashedIterator.NextNode: the key, value, entry and inverse-entry iterators all share this method; the projection of the node to a key, value or entry is not modelled.
- HashedIteration.HashedSpliterator.Characteristics: a distinct flag is an argument. Spliterators hand over nodes rather than keys or values. `ValueSet.spliterator` is the key spliterator over the inverse table (`ValueSpliterator` is never used).
- HashedIteration: `trySplit` is one Java expression; the model makes it two steps, the constructor of the new spliterator followed by `Shrink` of the receiver.

## Findings

| source | as written | input that shows it | evidently intended | confidence | as-written member | corrected member |
|---|---|---|---|---|---|---|
| springfield-commons/src/main/java/zenny/toybox/springfield/util/Interval.java:121-123 | `intersect` takes the closedness of the right end from the comparison of the left ends | [0, 4] ∩ (0, 5) gives (0, 4), losing 4 | the right end's closedness follows the right ends' comparison | high, not executed | Interval.IntersectAsWrittenLosesEnd | Interval.IntersectMembers |
| springfield-commons/src/main/java/zenny/toybox/springfield/util/Interval.java:160-162 | `union` takes the closedness of the right end from the comparison of the left ends | [0, 4] ∪ (0, 5) gives [0, 5], gaining 5 | the right end's closedness follows the right ends' comparison | high, not executed | Interval.UnionAsWrittenGainsEnd | Interval.UnionMembers |
| springfield-commons/src/main/java/zenny/toybox/springfield/util/Interval.java:140-144 | `union` merges two intervals that touch at an endpoint both exclude | [0, 1) ∪ (1, 2] gives one interval containing 1 | touching open ends stay two intervals | high, not executed | Interval.UnionAsWrittenBridgesGap | Interval.UnionMembers |
| springfield-commons/src/main/java/zenny/toybox/springfield/util/Interval.java:74-77 | `difference` keeps a left piece only when the receiver's left end compares strictly lower, and `compareTo` ignores closedness | [0, 5] − (0, 3] loses 0 | a closed receiver end beside an open argument end is kept | high, not executed | Interval.DifferenceAsWrittenLosesEnd | Interval.DifferenceMembers |
| springfield-commons/src/main/java/zenny/toybox/springfield/util/Interval.java:64-77 | `difference` tests overlap with `hasIntersectionWith`, which ignores closedness, then flips the argument's open end to closed | [0, 3) − (3, 5] gives [0, 3], adding 3 | a receiver that does not overlap the argument is returned unchanged | high, not executed | Interval.DifferenceAsWrittenGainsTouchPoint | Interval.DifferenceMembers |
| springfield-commons/src/main/java/zenny/toybox/springfield/util/Interval.java:822 | `EndpointBuilder.build` passes the sign and closedness arguments swapped | a closed negative infinity comes out as an open positive infinity | the infinity has the chosen sign | high, not executed | Interval.BuildEndpointAsWrittenSwapsFlags | Interval.BuildEndpoint |
| springfield-extensions/springfield-extensions-validation/src/main/java/zenny/toybox/springfield/validation/validator/IdentityCardValidator.java:124-126 | the upgrade weighs the 15 input digits, not the 17-digit body that carries the inserted "19" | 110101800101001 upgrades to a number its own validator rejects | the check digit is computed over the 17-digit body | high, not executed | IdentityCard.UpgradeAsWrittenRejectsValidNumber | IdentityCard.UpgradePassesCheck |
| springfield-commons/src/main/java/zenny/toybox/springfield/util/Tuple.java:145 | `get` accepts only `index > 0` | `get(0)` on a one-element tuple throws | `index >= 0`, as its own message says | high, not executed | Tuple.GetAsWrittenRejectsFirst | Tuple.Get |
| springfield-commons/src/main/java/zenny/toybox/springfield/util/Tuple.java:153-161 | `indexOf` reads through `get`, starting at 0 | `indexOf` on any non-empty tuple throws | the first matching position, or -1 | high, not executed | Tuple.IndexOfAsWrittenFails | Tuple.IndexOf |
| springfield-commons/src/main/java/zenny/toybox/springfield/util/Tuple.java:163-171 | `lastIndexOf` reads through `get`, ending at 0 | `lastIndexOf` of an element found only at 0 throws | the last matching position, or -1 | high, not executed | Tuple.LastIndexOfAsWrittenOutcome | Tuple.LastIndexOf |
| springfield-commons/src/main/java/zenny/toybox/springfield/util/Tuple.java:208-231 | `equals` compares elements through `get`, starting at 0 | `(1).equals((1))` with two distinct tuples throws | equal flattened elements give true | high, not executed | Tuple.EqualsAsWrittenFails | Tuple.Equals |
| springfield-commons/src/main/java/zenny/toybox/springfield/util/Tuple.java:114-122 | `contains` compares through `nullSafeEquals`, which calls `equals` on a nested tuple | `Tuple.of(Tuple.of(1)).contains(Tuple.of(1))` with two distinct `(1)` tuples throws | true, since the nested tuple equals the argument | high, not executed | Tuple.ContainsAsWritten | Tuple.Contains |
| springfield-commons/src/main/java/zenny/toybox/springfield/util/BijectedHashMap.java:35-38 | `put` stores the value under the key the reverse map answered | `put(1, 2)` on an empty map maps null to 2 and leaves 1 unmapped | the key holds the value, the reverse map the key | high, not executed | BijectedHashMap.PutAsWrittenMisplacesValue | BijectedHashMap.BijectedHashMap.BijectivePut |
| springfield-commons/src/main/java/zenny/toybox/springfield/util/BijectedHashMap.java:40-46 | `remove` drops the reverse entry keyed by its answer, even when that answer is null because the key was absent | removing an absent key from {1: null} drops the reverse entry of null | an absent key changes nothing | high, not executed | BijectedHashMap.RemoveAsWrittenDropsNullValue | BijectedHashMap.RemoveKeyKeepsBijection |
| springfield-commons/src/main/java/zenny/toybox/springfield/util/BijectionHashMap.java:42-48 | `put` on a present key updates only the mirror, removing the new key from it | `put(1, 3)` on {1: 2} keeps 1 mapped to 2 and maps null to 3 | the key holds the new value in both directions | high, not executed | BijectionHashMap.MirrorPutAsWrittenKeepsOldValue | BijectionHashMap.BijectionHashMap.BijectivePut |
| springfield-commons/src/main/java/zenny/toybox/springfield/util/BijectionHashMap.java:38-40 | `put` returns early whenever the value is already held, by any key | `put(1, 2)` on {1: 1, 2: 2} changes nothing | the key holds the value and the old holder loses it | high, not executed | BijectionHashMap.MirrorPutAsWrittenIgnoresHeldValue | BijectionHashMap.BijectionHashMap.BijectivePut |
| springfield-commons/src/main/java/zenny/toybox/springfield/util/HashedBidirectionalMap.java:315-320 | `doPut` dereferences the old node of a fresh key | `put(1, 2)` on an empty map throws a null dereference | a fresh key is inserted and null is answered | high, not executed | HashedBidirectionalMap.FreshPutThrows | HashedBidirectionalMap.IntendedPutKeepsMirror |
| springfield-commons/src/main/java/zenny/toybox/springfield/util/HashedBidirectionalMap.java:321-323 | with `onlyIfAbsent`, `doPut` still rewrites the inverse table | `putIfAbsent(1, 2)` on {1 = 1} keeps 1 = 1 forward but maps 2 to 1 backward | a present key leaves both tables alone | high, not executed | HashedBidirectionalMap.PutIfAbsentEditsInverse | HashedBidirectionalMap.IntendedPutKeepsMirror |
| springfield-commons/src/main/java/zenny/toybox/springfield/util/HashedBidirectionalMap.java:2146 | `keySet().remove` answers `remove(key) != null` | on {1 = null}, removing 1 removes it and answers false | true exactly when the key was held | high, not executed | HashedBidirectionalMap.KeyRemovedMissesNullValue | HashedBidirectionalMap.KeyRemoved |
| springfield-commons/src/main/java/zenny/toybox/springfield/util/ThrowableUtils.java:184-185 | `flattenCauses` collects what `mapCauses` hands over, which starts at the throwable's cause | a throwable without a cause flattens to an empty list | the documented list: the throwable first, followed by its cause hierarchy | medium, not executed | ThrowableUtils.FlattenCausesOfCauselessThrowable | ThrowableUtils.FlattenCausesWithThrowable |
