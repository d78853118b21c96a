# facil.io C standard library: machine-checked algorithms

This project models the self-contained algorithms of the facil.io C STL in Dafny
and proves what they compute. It covers four headers:

- `fio-stl/000 core.h`: multi-precision arithmetic (carry and borrow primitives,
  schoolbook, unrolled and Karatsuba multiplication, Montgomery multiplication),
  modular exponentiation, the prime sieve and the Miller-Rabin test, the grouped
  spin lock, the busy-byte slot allocator, the copying primitives, the
  constant-time comparison, the intrusive list and the UTF-8 codec;
- `fio-stl/002 glob matching.h`: the glob matcher;
- `fio-stl/002 atol.h`: number printers and readers in all bases;
- `fio-stl/001 memalt.h`: `fio_memcpy`, the scalar `memchr` and `fio_memcmp`.

`dafny verify dfyconfig.toml` checks everything.

## How the model is built

Loops that fill arrays are methods over arrays, with one loop where the source has
one; each is proved against a specification function (`Words.Val` for numbers in
64-bit words, `Numerals.Digits` and `Numerals.Number` for numerals,
`MemMove.Moved` for memory, `Glob.Leftmost` for the matcher, `Compare.Sign` for
the comparison, `Utf8.Encode` for characters, `LinkedList.Ring` for lists), and
what the source promises is proved about those functions. The two concurrency
protocols are transition systems with one step for each atomic operation, over any
number of threads. Machine words are natural numbers below 2^64 with every
wrap-around written out; `&`, `|` and `^` are functions on naturals. Pointers are
offsets into one array (`MemMove`) or into a text. An `errno` of E2BIG is a result.

What a pattern byte, a text byte, an atomic step or a test base is, is stated in
numbers, apart from the functions that the code shares with its specification:
`GlobBytes`, `TextBytes`, `PrimalityBases`, and the step lemmas of `SpinLock` and
`SlotAllocator`.

The order of reading is: `Words`, `CarryOps`, `LongMul`, `Karatsuba`, `InPlace`;
`Modular`, `Montgomery`, `MontgomeryInPlace`; `NumberTheory`, `Primality`,
`PrimalityBases`; `Glob`, `GlobMatcher`, `GlobTheory`, `GlobCompleteness`,
`GlobBytes`; `SpinLock`; `SlotAllocator`; `MemMove`; `Bitwise`, `Numerals`, `Swar`,
`SwarBits`, `Parsers`, `Dividers`, `GroupedReaders`, `TextToNumber`, `AtolMeaning`,
`DocumentedDigits`, `Printers`, `NumberToText`, `TextBytes`, `RoundTrips`;
`ByteLanes`, `MemChr`, `Compare`; `Utf8`; `LinkedList`. The flag `dividers` of the
readers is `FIO_ATOL_ALLOW_UNDERSCORE_DIVIDER`; their theorems hold for both
settings.

## Where the code and its documentation differ

The model follows the code.

- The comment at `fio-stl/002 glob matching.h:59-63` says that no more than one
  level of backtracking is needed. The loop at line 72 ends when the pattern runs
  out, without backtracking: `*a` does not match `aba` (`MissedMatch`).
  `LeftmostExact` states which matches are found, and `CompleteExactly` for which
  patterns these are all.
- `fio_atol` is documented (`fio-stl/002 atol.h:82-91`) to accept `x##` and `b##`
  without a leading zero. The code reads the digits after a bare `x` as binary,
  and a bare `b` with the octal reader, which reads nothing (`ReaderChosen`,
  `BareHexadecimal`, `BareBinary`).
- `fio_ltoa` is documented (`fio-stl/002 atol.h:102-116`) to add the prefixes 0x,
  0b and 0, and to print zero for an unsupported base. The code adds no prefix,
  and writes nothing for an unsupported base (`Ltoa`).
- `fio_u2i_limit` limits a value to the signed range, but when decimal digits
  exceed 64 bits `fio_atol` passes it the value of a shorter prefix, so the result
  is that value with E2BIG, not a limit (`LimitExactly`, `OverflowWithoutLimit`).
- The comments at `fio-stl/002 atol.h:635`, `677`, `807` and `890` allow
  dividers between digits. The fast paths do not: `1234_5` is read as 1234
  (`FirstDivider`, `FastGroupEnds`). The octal reader does not skip a divider when
  no further digit has room, and then reports no overflow although more digits
  follow (`OctalOverflowIsExact`, `OctalOverflowMissed`). The hexadecimal reader
  tests for a divider where it already knows that the byte is a digit, so it
  accepts none.
- `fio_c2i` is documented (`fio-stl/002 atol.h:134-145`) to return 255 for every
  byte that is no digit and no letter, and `fio_stol16u` (`211-218`) to take
  hexadecimal digits only. The table (`584-603`) has a second row of decimal
  digits, at the bytes 16 to 25, which the octal, hexadecimal and general readers
  accept (`TableExactly`, `StrayHexadecimal`, `StrayOctal`). `EndExactly` and
  `ReaderAsDocumented` say on which texts this matters. The decimal and binary
  readers have comparisons of their own. All results about readers hold for the
  table as it is.
- `fio_u*_montgomery_mul` passes `mN` both as an operand and as the `restrict`
  destination of the multiplication at `fio-stl/000 core.h:4721`. `MontgomeryMul`
  is the call with the operand read first. Statement by statement, all widths but
  the widest clear the operand before they read it (`MontgomeryMulInPlace`,
  `ClearedExactly`, `OneTimesOneFails`).
- `FIO_FOR_UNROLL` is documented (`fio-stl/000 core.h:1645-1668`) to perform a given
  number of iterations for any size of the loop. For sizes that are no powers of
  two it can perform more (`UnrollsExactly`, `ThreeOverruns`).
- `fio_has_zero_byte64` is documented (`fio-stl/000 core.h:3046-3050`) to leave all
  other bytes zero. A byte 1 directly above a zero byte is marked too
  (`FalseMarker`), and without one the documentation holds (`MarksZerosExactly`).
- The slot allocator probes start + k modulo the count. When the sum wraps and the
  count does not divide 2^64 a slot is probed twice and another one never, and the
  allocator can return NULL while that one is free (`CoversExactly`,
  `NullWhileFree`).
- The sieve never clears bit 1, and `fio_math_mod_expo64` returns 1 for exponent 0
  even modulo 1. Neither reaches the primality verdict.
- Montgomery multiplication drops the carry of t + mN. For large moduli that carry
  can be 1, and then the result is wrong (`MontgomeryExact`, `LargestModulusFails`);
  it is 0 for every modulus that `MontgomeryFits` admits.
- `fio_atol_xbase` adds a digit without a check when its number equals the limit;
  the sum can wrap without E2BIG (`AtolXbaseLoop`, `OtherBasesWrap`).

## Model

| member | source | states |
|---|---|---|
| CarryOps.AddC | fio-stl/000 core.h:3426-3443 | add with carry: result and carry-out, read as one number, are the exact sum |
| CarryOps.SubC128 | fio-stl/000 core.h:3486-3489 | subtract with borrow in 128-bit arithmetic: result and borrow-out give the exact difference |
| CarryOps.SubCPortable | fio-stl/000 core.h:3490-3498 | the branch without 128-bit integers gives the same exact difference |
| CarryOps.MulC | fio-stl/000 core.h:3512-3530 | two words give the exact double-word product, from either branch |
| CarryOps.MulCPortable | fio-stl/000 core.h:3518-3530 | the four half-word products and their dropped shifts add up to the exact product |
| CarryOps.Add | fio-stl/000 core.h:3446-3454 | the carry chain over `len` words, in place or not, computes the sum with its carry |
| CarryOps.Sub | fio-stl/000 core.h:3501-3509 | the borrow chain over `len` words computes the difference with its borrow |
| LongMul.Mac | fio-stl/000 core.h:3559-3562 | multiply-accumulate with a 128-bit carry never leaves its type and its carry fits one word |
| LongMul.Row | fio-stl/000 core.h:3551-3592 | a row, four columns at a time and then the rest, adds word times number at its place |
| LongMul.MulLong128 | fio-stl/000 core.h:3541-3592 | for every length the schoolbook loop with 128-bit carries leaves exactly the product, and nothing else changes |
| LongMul.SplitRow | fio-stl/000 core.h:3594-3631 | a fallback row with two carry chains adds word times number, up to its two pending carries |
| LongMul.SplitRowFits | fio-stl/000 core.h:3594-3631 | at the end of a fallback row the high carry is 0 and adding the low carry to the top word cannot wrap |
| LongMul.MulLongPortable | fio-stl/000 core.h:3541-3634 | the fallback loop gives the same product for every length, with its dropped carry proved 0 |
| LongMul.Mul256 | fio-stl/000 core.h:3640-3737 | the unrolled four-word multiplication gives the product |
| LongMul.Mul512 | fio-stl/000 core.h:3743-3803 | the eight-word multiplication gives the product |
| LongMul.MulNoRecurse | fio-stl/000 core.h:3961-3992 | the dispatcher without recursion gives the product for every length; length 0 writes one zero word |
| Karatsuba.PropagateBorrow | fio-stl/000 core.h:4060-4078 | a borrow is taken from the words above, and the borrow that remains is exact |
| Karatsuba.SubtractFrom | fio-stl/000 core.h:4060-4078 | subtracting a half product from the middle term never underflows when it is not larger |
| Karatsuba.CrossBound | fio-stl/000 core.h:3995-4105 | the middle term is the cross products, which fit the words they are added to |
| Karatsuba.TopWordUnused | fio-stl/000 core.h:4085-4105 | the words of the middle term that the recombination loop leaves out are zero, also when `len` is 2 |
| Karatsuba.Recombine | fio-stl/000 core.h:4085-4105 | adding the middle and high parts into `dest` leaves the whole product; both dropped carries are 0 |
| Karatsuba.MulKaratsuba | fio-stl/000 core.h:3995-4105 | for every even length from 2 on and all words, `dest` is exactly the product |
| Karatsuba.Mul | fio-stl/000 core.h:3922-3959 | the multiplication dispatcher gives the product for every length, whichever method it picks |
| Montgomery.VecAdd | fio-stl/000 core.h:4664-4676 | carry chain of fixed width, whose carry is computed by comparisons: exact sum |
| Montgomery.VecSub | fio-stl/000 core.h:4677-4689 | borrow chain of fixed width: exact difference and borrow |
| Montgomery.VecCmp | fio-stl/000 core.h:4690-4699 | the comparison returns the sign of the difference of the two numbers |
| Montgomery.MontgomeryMul | fio-stl/000 core.h:4709-4731 | for every word count and all inputs the code computes the reduction function `Redc` of a times b, with its dropped carry and truncations, when the operand of line 4721 is read before its target is written |
| InPlace.MulOver | fio-stl/000 core.h:3922-3959 | `fio_math_mul` with its first operand as its target, statement by statement: the product for the lengths that read first (1, and even lengths from 32 on), and 0 for all others |
| InPlace.WidthsThatClear | fio-stl/000 core.h:4740-4744 | of the widths of the source only that of 32 words reads first |
| MontgomeryInPlace.MontgomeryMulInPlace | fio-stl/000 core.h:4709-4731 | the call as it is written: `Redc` at the widths that read first, and at all others the high half of a times b, less N if it is not below N |
| MontgomeryInPlace.ClearedExactly | fio-stl/000 core.h:4720-4731 | at those widths the result is the reduced product if and only if N divides the low half of a times b |
| MontgomeryInPlace.OneTimesOneFails | fio-stl/000 core.h:4720-4731 | so at those widths 1 times 1 gives 0, for every modulus above 1 |
| Montgomery.LowHalfCleared | fio-stl/000 core.h:4716-4723 | with N times N_dash = -1 mod R the low half of t + mN is zero |
| Montgomery.MontgomeryCorrect | fio-stl/000 core.h:4709-4731 | for a, b < N and 2N <= R: the result is below N and result times R = ab mod N; the discarded carry is 0 |
| Montgomery.MontgomeryFits | fio-stl/000 core.h:4709-4731 | the same for every modulus with (N-1)^2 + (R-1)N < R^2, a bound on the modulus alone |
| Montgomery.ThreeFifthsFit | fio-stl/000 core.h:4709-4731 | which holds up to three fifths of R |
| Montgomery.MontgomeryExact | fio-stl/000 core.h:4709-4731 | without 2N <= R: the result is the reduced product if and only if the discarded carry is 0 |
| Montgomery.LargestModulusFails | fio-stl/000 core.h:4709-4731 | for every width, N = R - 1 has inputs for which the result is wrong |
| NumberTheory.SquareRootOfOne | fio-stl/000 core.h:3374-3385 | modulo a prime only 1 and -1 square to 1 |
| NumberTheory.Fermat | fio-stl/000 core.h:3362-3393 | the little theorem of Fermat, on which the test of a base rests |
| Primality.ModExpo64 | fio-stl/000 core.h:3326-3338 | square-and-multiply computes base^exp mod n; exponent 0 gives 1 |
| Primality.MarkMultiples | fio-stl/000 core.h:3355-3356 | the inner sieve loop clears exactly the multiples of i from i*i on |
| Primality.NoSmallDivisorIsPrime | fio-stl/000 core.h:3344-3359 | what the sieve leaves set, numbers without a divisor up to their square root, are the primes |
| Primality.IsPrimeTable | fio-stl/000 core.h:3344-3359 | for an arbitrary table limit and every entry: bit n is set if and only if n is prime, or n = 1 |
| Primality.OddPartSplit | fio-stl/000 core.h:3364-3368 | shifting out the low zero bits writes n-1 as an odd number times a power of two |
| Primality.RootsAreOne | fio-stl/000 core.h:3373-3385 | modulo a prime, a base whose squares never reach -1 was 1 from the start |
| Primality.PrimePasses | fio-stl/000 core.h:3373-3385 | a prime is a strong probable prime to every base it does not divide |
| Primality.Round | fio-stl/000 core.h:3373-3385 | one round of the test passes if and only if n is a strong probable prime to the base |
| PrimalityBases.BaseStep | fio-stl/000 core.h:3388-3391 | each base in numbers: 2 plus (n mod 2^16 + the base before less 2 + 0x618E9735) mod 2^32 mod (n - 4), and 3 in place of 2 |
| PrimalityBases.SecondBase | fio-stl/000 core.h:3388-3391 | the second base for every n above 4 |
| PrimalityBases.LargeBases | fio-stl/000 core.h:3388-3391 | from 2^32 + 4 on the k-th base is 2 + k * (n mod 2^16 + 0x618E9735) mod 2^32 |
| PrimalityBases.BasesDiffer | fio-stl/000 core.h:3388-3391 | so the ten bases are pairwise different |
| Primality.NextBase | fio-stl/000 core.h:3388-3391 | every generated base lies in [3, n-2], and in [3, n-3] from n = 6 on, so a prime never divides it |
| Primality.IsPrimeMaybe | fio-stl/000 core.h:3362-3393 | the test passes if and only if n is a strong probable prime to each base tried; so it never rejects a prime |
| Primality.IsUPrime | fio-stl/000 core.h:3400-3410 | no prime is ever rejected; below the table limit exactly the primes are accepted; above it exactly the odd numbers that are strong probable primes to all ten bases |
| PrimalityBases.SecondBaseRejects | fio-stl/000 core.h:3373-3391 | 829 * 1657 has the second base 781749, to which it is no strong probable prime |
| PrimalityBases.RejectsComposite | fio-stl/000 core.h:3400-3410 | so it is rejected |
| Glob.FirstAtIsFirst | fio-stl/002 glob matching.h:140-147 | the earliest position of a segment is a fit and no earlier one is |
| GlobMatcher.ScanSpans | fio-stl/002 glob matching.h:90-126 | the class loop accepts a byte if and only if some span of the parsed class holds it, and ends where the class ends |
| GlobMatcher.TryToken | fio-stl/002 glob matching.h:78-138 | one switch accepts a byte if and only if the token there accepts it |
| GlobMatcher.GlobMatch | fio-stl/002 glob matching.h:50-155 | for every pattern without a dangling backslash and every string the loop terminates and returns the leftmost-placement predicate |
| GlobBytes.RangeTakes | fio-stl/002 glob matching.h:90-129 | the pattern [lo-hi] takes the bytes between its ends in either order; behind ! or ^ it takes the others |
| GlobBytes.ClassTakes | fio-stl/002 glob matching.h:90-129 | a class of one byte, of one behind a backslash, and of the closing bracket |
| GlobBytes.DashTakes | fio-stl/002 glob matching.h:112-121 | a dash before the closing bracket stands for itself |
| GlobBytes.ByteTakes | fio-stl/002 glob matching.h:79-138 | ? takes any byte, a backslash and a byte that byte, an ordinary byte itself |
| GlobBytes.AsteriskTakes | fio-stl/002 glob matching.h:81-88 | * takes every string |
| GlobBytes.PiecesConcat | fio-stl/002 glob matching.h:72-154 | a pattern that begins with such pieces reads as the pieces and the rest |
| GlobBytes.PatternMeaning | fio-stl/002 glob matching.h:72-154 | a pattern of pieces, with classes of any number of elements, has the declarative match of its pieces, byte values written out |
| GlobBytes.PiecesMatched | fio-stl/002 glob matching.h:50-155 | without a star, or with a star at the end, the result is that match |
| GlobBytes.OrdinaryString | fio-stl/002 glob matching.h:50-155 | a pattern of ordinary bytes matches itself alone |
| GlobBytes.OrdinaryPrefix | fio-stl/002 glob matching.h:50-155 | with a star behind it, the strings that begin with it |
| GlobBytes.OrdinarySuffix | fio-stl/002 glob matching.h:50-155 | with a star before it, the strings that end in it are its match |
| GlobBytes.UnterminatedMatchesNothing | fio-stl/002 glob matching.h:97-123 | a class without a closing bracket matches nothing |
| GlobTheory.Soundness | fio-stl/002 glob matching.h:50-155 | result 1 implies the declarative match |
| GlobTheory.LeftmostExact | fio-stl/002 glob matching.h:50-155 | result 1 if and only if the string matches and the last segment does not also fit earlier, the other segments placed leftmost |
| GlobTheory.MatchesAfterStar | fio-stl/002 glob matching.h:59-63 | after a star, placing every earlier segment leftmost loses no match |
| GlobTheory.PlacedMeans | fio-stl/002 glob matching.h:72-154 | the loop accepts the last segment only at the end of the string, and only if it is found nowhere before |
| GlobTheory.CompleteWithoutStarOrWithTrailingStar | fio-stl/002 glob matching.h:72-154 | without a star, or with a star at the end, result 1 if and only if the declarative match holds |
| GlobTheory.MissedMatch | fio-stl/002 glob matching.h:59-72 | the pattern `*a` matches `aba`, and the result is 0 |
| GlobCompleteness.CompleteExactly | fio-stl/002 glob matching.h:72-154 | result 1 is the declarative match for every string if and only if the pattern has no star, ends in a star, or has a token that accepts no byte |
| GlobCompleteness.Missed | fio-stl/002 glob matching.h:59-72 | every other pattern has a string that it matches and the loop refuses |
| SpinLock.StepKeepsInv | fio-stl/000 core.h:1064-1098 | every atomic step keeps: the lock byte is the disjoint union of held bits and bits about to be given back |
| SpinLock.RunKeepsInv | fio-stl/000 core.h:1064-1098 | so does every interleaving of any number of threads |
| SpinLock.MutualExclusion | fio-stl/000 core.h:1064-1098 | after any run no two threads hold a common sublock, and held sublocks are set in the lock byte |
| SpinLock.NoResidue | fio-stl/000 core.h:1071-1075 | when all threads are between operations the set bits are exactly the held ones |
| SpinLock.FailedAttemptUndone | fio-stl/000 core.h:1068-1075 | a failed attempt undone at once restores the whole state |
| SpinLock.TryStep | fio-stl/000 core.h:1064-1075 | an attempt sets exactly the bits of a nonempty group, holds them all if none was set and none otherwise, and will give back those it has set |
| SpinLock.RollBackStep | fio-stl/000 core.h:1071-1075 | giving back clears exactly these bits |
| SpinLock.UnlockStep | fio-stl/000 core.h:1093-1098 | an unlock clears exactly the bits of its group |
| SpinLock.EmptyGroup | fio-stl/000 core.h:1065-1066 | an empty group acts as bit 0 alone, in both operations |
| SpinLock.DisjointGroups | fio-stl/000 core.h:1064-1075 | two groups without a common bit can both be taken |
| SpinLock.AcquiresWhenFree | fio-stl/000 core.h:1068-1070 | an attempt succeeds if and only if no thread owns any sublock of the group, not even in passing |
| SpinLock.HeldExactly | fio-stl/000 core.h:1064-1098 | after any run a thread holds a sublock if and only if its last step that touched it was a successful attempt |
| SpinLock.SpuriousFailure | fio-stl/000 core.h:1068-1075 | an attempt can fail on a sublock that nobody holds, because another failed attempt is being undone |
| SlotAllocator.StepKeepsInv | fio-stl/000 core.h:1285-1301 | every atomic step keeps: a busy byte is set exactly while one thread has its slot |
| SlotAllocator.NoDoubleCheckout | fio-stl/000 core.h:1285-1301 | over every interleaving no slot is checked out twice, and the busy bytes are the outstanding checkouts |
| SlotAllocator.BeginStep | fio-stl/000 core.h:1287 | a try draws the hint and leaves the next one modulo 2^64 |
| SlotAllocator.ProbeStep | fio-stl/000 core.h:1289-1293 | a probe of slot (start + i) mod 2^64 mod the count takes this slot alone if it is free, and else only counts |
| SlotAllocator.GiveUpStep | fio-stl/000 core.h:1294 | returning NULL changes neither a busy byte nor the hint nor what a thread has |
| SlotAllocator.FreeStep | fio-stl/000 core.h:1297-1301 | giving a slot back frees it and no other |
| SlotAllocator.HoldsExactly | fio-stl/000 core.h:1285-1301 | after any run a thread has a slot if and only if a probe of its own found it free and it has not given it back since |
| SlotAllocator.HintCounts | fio-stl/000 core.h:1286-1287 | the hint counts the tries modulo 2^64 |
| SlotAllocator.EverySlotProbed | fio-stl/000 core.h:1288-1293 | a try whose sums do not wrap, or whose count divides 2^64, probes every slot |
| SlotAllocator.IrregularMisses | fio-stl/000 core.h:1288-1293 | any other try misses the slot that `MissedSlot` names |
| SlotAllocator.CoversExactly | fio-stl/000 core.h:1288-1293 | so a try probes every slot if and only if it is regular |
| SlotAllocator.DistinctExactly | fio-stl/000 core.h:1288-1293 | the probes of a try are pairwise different if and only if start plus count does not wrap or the count divides 2^64 |
| SlotAllocator.GivesUpOnlyWhenAllSeen | fio-stl/000 core.h:1289-1294 | in any run a try that returns NULL has observed each slot busy if and only if it was regular |
| SlotAllocator.HintFromZero | fio-stl/000 core.h:1286-1294 | every hint is reached from hint 0 with nothing checked out |
| SlotAllocator.NullWhileFree | fio-stl/000 core.h:1286-1294 | from hint 0 a try is reached that returns NULL although one slot is free from before it begins until it gives up |
| SlotAllocator.SeenMeansBusy | fio-stl/000 core.h:1291 | a slot observed busy was checked out at that moment |
| MemMove.Copy | fio-stl/000 core.h:1699-1705 | a fixed-size copy of disjoint ranges moves the bytes |
| MemMove.MovedByte | fio-stl/001 memalt.h:146-201 | a moved memory byte by byte |
| MemMove.CopyUnsafe63 | fio-stl/000 core.h:1750-1783 | up to 63 bytes: a copy for each set bit of the length and an overlapping one at the end move exactly the bytes |
| MemMove.CopyUnsafe | fio-stl/000 core.h:1785-1816 | any length of disjoint memory, with the final copy that overlaps the one before |
| MemMove.CopySmall | fio-stl/001 memalt.h:157-187 | up to 64 bytes by two overlapping stores |
| MemMove.MoveUp | fio-stl/001 memalt.h:63-98 | forward copy through a buffer when the destination is below the source: the original source bytes arrive |
| MemMove.MoveDown | fio-stl/001 memalt.h:100-143 | backward copy through a buffer when the destination is above the source |
| MemMove.Memcpy | fio-stl/001 memalt.h:146-201 | for every length and every pair of offsets in one memory: the destination is the original source, nothing else changes; null pointers are ignored; which end of the destination is returned |
| Numerals.ValueOfDigits | fio-stl/002 atol.h:389-398 | the digits of a number stand for the number |
| Numerals.NumeralReadsBack | fio-stl/002 atol.h:727-743 | digits written in a text, followed by a byte that is no digit, read back as their value and end where they were written to end |
| DocumentedDigits.TableExactly | fio-stl/002 atol.h:584-603 | the digit table is the documented map if and only if the byte is not one of 16 to 25 |
| DocumentedDigits.EndExactly | fio-stl/002 atol.h:584-603 | a numeral, with dividers or without, ends where the documented one does if and only if no such byte that counts as a digit of the base stands there |
| DocumentedDigits.RunEndExactly | fio-stl/002 atol.h:584-603 | the same for a digit run |
| DocumentedDigits.LongestFitExactly | fio-stl/002 atol.h:819-835 | a reader of the longest prefix that fits gives the documented result if and only if no such byte ends the documented run, or the run overflows before it |
| DocumentedDigits.ReaderAsDocumented | fio-stl/002 atol.h:960-992 | the same for each reader that `fio_atol` may choose; the decimal and the binary reader are never affected |
| DocumentedDigits.StrayHexadecimal | fio-stl/002 atol.h:819-835 | the byte 17 alone is read by `fio_stol16u` as 1 |
| DocumentedDigits.StrayOctal | fio-stl/002 atol.h:960-992 | a zero and the byte 17 are read by `fio_atol` as 1, and both are consumed |
| Swar.EightDigitsCorrect | fio-stl/002 atol.h:651-657 | mask, multiply and shift, three times, turn eight digit bytes into the number they write |
| SwarBits.Gather8Of | fio-stl/002 atol.h:859-864 | three shifted ORs and a mask gather eight one-bit lanes into a byte in order |
| SwarBits.SpreadOf | fio-stl/002 atol.h:426-436 | multiply, mask and add spread the bits of a byte over eight digit characters in order |
| Parsers.OverflowIsExact | fio-stl/002 atol.h:727-743 | for a reader of the longest prefix that fits: overflow is reported if and only if the whole digit run does not fit 64 bits |
| Parsers.LongestPrefix | fio-stl/002 atol.h:819-835 | such a reader stops at the longest prefix whose number is below 2^64 |
| Parsers.Stol10u | fio-stl/002 atol.h:727-743 | reads the longest decimal prefix of [pos, end) that fits; E2BIG if and only if another digit follows |
| Parsers.Stol16u | fio-stl/002 atol.h:819-835 | the same in base 16, where a nonzero top digit leaves no room |
| Parsers.Atol16u | fio-stl/002 atol.h:788-816 | the same for a NUL-terminated string, after an optional 0x; without a digit only the zero of a prefix is consumed |
| TextBytes.HexadecimalRead | fio-stl/002 atol.h:788-816 | hexadecimal digits, behind 0x or 0X or without it, give their number |
| TextBytes.HexadecimalMissing | fio-stl/002 atol.h:810-815 | behind 0x without a digit only the zero is consumed, else nothing |
| Dividers.GroupedIsPlain | fio-stl/002 atol.h:627-636 | the number of a numeral with dividers is that of its digits written without them |
| Dividers.FirstDivider | fio-stl/002 atol.h:648-691 | a divider after the first digits is skipped if and only if the fast paths do not take these digits whole: not after 4 or 8 in base 10, not after a multiple of 4 in base 2 |
| Dividers.LaterDivider | fio-stl/002 atol.h:882-894 | behind a later group of digits a divider is skipped, but not after a multiple of 4 in base 2, and no other byte is |
| Dividers.Undivided | fio-stl/002 atol.h:23-25 | without a divider after the digit run the numeral is that run |
| Dividers.GroupedOverflowIsExact | fio-stl/002 atol.h:838-929 | for a reader of the longest prefix with dividers that fits: overflow is reported if and only if the whole numeral does not fit |
| GroupedReaders.Atol8u | fio-stl/002 atol.h:625-641 | with dividers or without: reads up to the end of the numeral, or until no further octal digit has room |
| GroupedReaders.OctalOverflowIsExact | fio-stl/002 atol.h:625-641 | E2BIG if and only if the numeral exceeds 64 bits and no divider stands at the cut; otherwise it is read whole. Its digits are those of the table |
| GroupedReaders.LeadingDigits | fio-stl/002 atol.h:648-650 | the loop that reads at its own count counts the leading digits, at most eight |
| GroupedReaders.FastStart | fio-stl/002 atol.h:648-670 | the eight-digit and four-digit fast paths give the number of the digits they consume |
| GroupedReaders.Atol10u | fio-stl/002 atol.h:644-697 | with dividers or without: the value of the numeral; on overflow that of the longest prefix that fits, or one digit less when no digit has room after it, and whether that digit is consumed |
| GroupedReaders.DecimalOverflowIsExact | fio-stl/002 atol.h:671-697 | so E2BIG is set if and only if the numeral exceeds 2^64-1 |
| GroupedReaders.AtolBin | fio-stl/002 atol.h:838-929 | with dividers or without: reads the longest binary prefix that fits, through the eight- and four-digit gathers; overflow is exact |
| GroupedReaders.BitsDivider | fio-stl/002 atol.h:882-894 | a divider behind the one to three digits left over by the blocks of eight and four is skipped, and the loop is then in step again |
| GroupedReaders.NoStepFits | fio-stl/002 atol.h:857-881 | a block that is not taken for want of room would have overflowed |
| TextToNumber.AtolXbaseLoop | fio-stl/002 atol.h:942-953 | reads the longest prefix that fits, with exact overflow, if and only if no prefix equals the limit before a digit that does not fit |
| TextToNumber.PowersOfTwoNeverWrap | fio-stl/002 atol.h:942-950 | bases that divide 2^64 never meet that case |
| TextToNumber.OtherBasesWrap | fio-stl/002 atol.h:942-950 | every other base has a numeral that does |
| TextToNumber.AtolXbase | fio-stl/002 atol.h:932-954 | the reader for any base, with the readers it forwards to |
| TextToNumber.U2iLimit | fio-stl/002 atol.h:454-473 | the value or its negation if it fits the signed range, else the nearest limit with E2BIG; a magnitude of 2^63 fits when negative |
| TextToNumber.Atol | fio-stl/002 atol.h:960-992 | sign, prefix and reader are chosen as the code chooses them, and the result is that of the reader, limited when decimal or negative |
| TextBytes.DecimalRead | fio-stl/002 atol.h:960-992 | a text that starts with a digit from 49 to 57 is read as its decimal numeral, behind a byte 43 as well, and negated behind a byte 45; E2BIG exactly outside int64; the position behind the numeral |
| TextBytes.DigitsRead | fio-stl/002 atol.h:960-992 | for digits alone the numeral is their number |
| TextBytes.PrefixedRead | fio-stl/002 atol.h:960-992 | behind 0, 0b or 0x in either case, and a sign, the digits of base 8, 2 or 16 are read as their number, with its E2BIG and position |
| TextBytes.NothingRead | fio-stl/002 atol.h:984-988 | without a digit and a prefix nothing is consumed, not even a sign |
| AtolMeaning.ReaderExact | fio-stl/002 atol.h:960-992 | each of the four readers reports exactly the numerals that exceed 64 bits and gives the value of the others, unless the octal reader meets a divider where no digit has room |
| AtolMeaning.LimitedMeaning | fio-stl/002 atol.h:454-473 | decimal or negative, unless the octal reader is cut short: E2BIG if and only if the signed value of the numeral is no int64, and otherwise the result is that value |
| AtolMeaning.UnlimitedMeaning | fio-stl/002 atol.h:960-992 | other numerals: E2BIG if and only if the value exceeds 64 bits and the octal reader is not cut short, otherwise the int64 with the same bits |
| AtolMeaning.CutShortReads | fio-stl/002 atol.h:625-641 | in that octal case the number so far is returned without E2BIG |
| AtolMeaning.OctalOverflowMissed | fio-stl/002 atol.h:625-641 | 2^63 in octal, a divider and one more digit is such a numeral |
| AtolMeaning.LimitExactly | fio-stl/002 atol.h:454-473 | on decimal overflow the result is the limit if and only if the digits fit 64 bits |
| AtolMeaning.OverflowWithoutLimit | fio-stl/002 atol.h:671-697 | `18446744073709551616` gives 1844674407370955161 with E2BIG and leaves its last digit unread |
| AtolMeaning.StepsBack | fio-stl/002 atol.h:684-697 | `18446744073709551620` gives 184467440737095516 with E2BIG and leaves two digits unread; with a divider before the last digit it leaves one |
| AtolMeaning.FastGroupEnds | fio-stl/002 atol.h:648-674 | `1234_5` gives 1234 and stops at the divider |
| AtolMeaning.ReaderChosen | fio-stl/002 atol.h:972-984 | which reader is chosen, exactly: the hexadecimal one if and only if 0x stands there, the binary one for 0b or a bare x, the octal one for another zero or a bare b |
| AtolMeaning.BareHexadecimal | fio-stl/002 atol.h:82-91 | `x1F` gives 1 |
| AtolMeaning.BareBinary | fio-stl/002 atol.h:82-91 | a bare b gives 0 and only a sign is consumed, whatever follows |
| Printers.Digits10u | fio-stl/002 atol.h:315-329 | the counter, four digits a step, returns the length of the numeral |
| Printers.Digits8u | fio-stl/002 atol.h:290-312 | the same in base 8, eight digits a step |
| Printers.DigitsXbase | fio-stl/002 atol.h:351-368 | the same in any base from 2 to 64 |
| Printers.DigitsBin | fio-stl/002 atol.h:280-287 | one digit for zero, else the bit length made even |
| Printers.Digits16u | fio-stl/002 atol.h:332-348 | the least even count of at least two hexadecimal digits that hold the number |
| Printers.AtMost64 | fio-stl/002 atol.h:998-1051 | a 64 bit number has at most 64 digits in any base |
| Printers.Ltoa10u | fio-stl/002 atol.h:389-398 | the digits and a NUL end at the given length, and no other byte changes |
| Printers.Ltoa8u | fio-stl/002 atol.h:379-387 | the same in base 8 |
| Printers.Ltoa16u | fio-stl/002 atol.h:400-411 | exactly the given count of hexadecimal digits, made even, with leading zeros |
| Printers.LtoaXbase | fio-stl/002 atol.h:439-451 | the same as base 10 in any base up to 36 |
| Printers.SpreadBytes | fio-stl/002 atol.h:426-436 | the big-endian store of the spread word puts each bit of the byte where its digit stands |
| Printers.LtoaBin | fio-stl/002 atol.h:413-437 | exactly the given count of binary digits, single steps first and then eight at a time |
| NumberToText.Ltoa | fio-stl/002 atol.h:998-1051 | the text of the number in each base, a NUL, its length, and no other byte; an unsupported base writes nothing |
| TextBytes.SignedPrint | fio-stl/002 atol.h:998-1051 | in bases other than 1, 2 and 16 the text is a byte 45 for a negative number and then the digits of its magnitude, 48 to 57 and 65 to 90, without a zero in front |
| TextBytes.BitsPrint | fio-stl/002 atol.h:998-1051 | in bases 1, 2 and 16 it is the 64 bits in the least even count of digits, at least two in base 16 |
| NumberToText.TextFits | fio-stl/002 atol.h:102-105 | every text fits the 68 bytes asked of the caller |
| RoundTrips.SignedDecimal | fio-stl/002 atol.h:960-1051 | for every int64, `fio_atol` of `fio_ltoa` in base 10 is the number, consumes exactly the returned length and sets no error |
| RoundTrips.SignedBits | fio-stl/002 atol.h:960-1051 | the same in base 16 behind 0x and in base 2 behind 0b |
| RoundTrips.OctalReadsBack | fio-stl/002 atol.h:960-1051 | the same in base 8 with a zero behind the sign |
| RoundTrips.UnsignedDecimal | fio-stl/002 atol.h:644-697 | for every uint64, counter, printer and decimal reader round trip |
| RoundTrips.Octal | fio-stl/002 atol.h:625-641 | the same in base 8 |
| RoundTrips.Hexadecimal | fio-stl/002 atol.h:788-835 | the same in base 16, for both readers |
| RoundTrips.Binary | fio-stl/002 atol.h:838-929 | the same in base 2, with the word-parallel printer and reader |
| RoundTrips.AnyBase | fio-stl/002 atol.h:932-954 | the same in every base from 3 to 36 |
| ByteLanes.WordInjective | fio-stl/001 memalt.h:301-305 | a word determines its bytes, so a word of the scan is zero only if all its bytes are |
| ByteLanes.XorBytes | fio-stl/001 memalt.h:301-305 | XOR with a repeated token leaves zero bytes exactly where the token was |
| MemChr.ZeroBytesMarked | fio-stl/000 core.h:3051-3056 | subtract, complement and mask mark the zero bytes of a word, and the bytes 1 that a borrow reaches |
| MemChr.LowestMarker | fio-stl/000 core.h:3051-3056 | no marker without a zero byte, and the lowest marker is at the first one |
| MemChr.FalseMarker | fio-stl/000 core.h:3046-3056 | the row 00 01 09 09 09 09 09 09 has the marks 80 80 and not 80 |
| MemChr.MarksZerosExactly | fio-stl/000 core.h:3046-3056 | the marks of an eight-byte row are its zero bytes, as documented, if and only if no byte 1 stands directly above a zero byte |
| MemChr.Bitmap | fio-stl/000 core.h:3093-3106 | the markers gathered to a bitmap, one bit for each byte in order |
| MemChr.MaskOf | fio-stl/001 memalt.h:293-296 | the three shifted ORs make every byte of the mask the token |
| MemChr.ChunkPlace | fio-stl/001 memalt.h:334-336 | the lowest bit of the bitmap is the place of the first occurrence in the word |
| MemChr.SearchBlock | fio-stl/001 memalt.h:300-309 | a block of 128 bytes: the first occurrence, or none |
| MemChr.Memchr | fio-stl/001 memalt.h:284-337 | for every buffer and length: the first index of the token, or none |
| Compare.SignZero | fio-stl/001 memalt.h:618-636 | the sign of the first difference is 0 if and only if the ranges are equal |
| Compare.SignOrder | fio-stl/001 memalt.h:618-636 | the signs are antisymmetric and transitive |
| Compare.ForUnroll | fio-stl/000 core.h:1669-1685 | for every step size: the indices from 0 are visited once each, in order, up to the remainder that the mask takes and as many whole groups as reach the count |
| Compare.UnrollsExactly | fio-stl/000 core.h:1669-1685 | these are the count if and only if whole groups fill what the mask leaves |
| Compare.PowersUnroll | fio-stl/000 core.h:1669-1685 | so they are for every step size that is a power of two |
| Compare.ThreeOverruns | fio-stl/000 core.h:1669-1685 | a step size of 3 makes 85 steps of a count of 1 |
| Compare.SinceNext | fio-stl/001 memalt.h:628-632 | the counter of bytes since the first difference stays exact |
| Compare.Memcmp | fio-stl/001 memalt.h:619-636 | for every length, from anywhere in two buffers or in one, the sign of the first differing byte, though it is tested only at the end of blocks; a null pointer is less than any other |
| Compare.CopyHead | fio-stl/000 core.h:2581-2609 | the pieces for the bits of the length cover exactly the first bytes modulo 64 of both ranges |
| Compare.OrWords | fio-stl/000 core.h:2610-2624 | the flag stays zero if and only if all words are equal |
| Compare.IsZeroMeans | fio-stl/000 core.h:2625-2627 | the final bit is 1 if and only if the flag is 0 |
| Compare.CtIsEq | fio-stl/000 core.h:2575-2628 | true if and only if the ranges are equal, for every length |
| Utf8.CodeLength | fio-stl/000 core.h:5051-5056 | the number of bytes of the encoding, 0 from 2^21 on |
| Utf8.ByteClass | fio-stl/000 core.h:5059-5075 | 1 to 4 for a lead byte, 8 for a continuation byte, 0 for others |
| Utf8.CharLength | fio-stl/000 core.h:5078-5100 | the announced length if and only if a lead byte is followed by that many continuation bytes, else 0 |
| Utf8.Write | fio-stl/000 core.h:5103-5121 | the encoding is written and nothing else; from 2^21 on one truncated byte and length 0 |
| Utf8.Read | fio-stl/000 core.h:5144-5160 | the payload of the character, which is consumed; nothing where there is none |
| Utf8.KnownEncodings | fio-stl/000 core.h:5103-5121 | the encodings of U+0024, U+00A2, U+20AC and U+10348 |
| Utf8.EncodingBytes | fio-stl/000 core.h:5103-5121 | the bytes of an encoding by its length, and the number in them |
| Utf8.CharacterBytes | fio-stl/000 core.h:5059-5100 | a character byte by byte |
| Utf8.EncodeDecodes | fio-stl/000 core.h:5103-5160 | every code point below 2^21 is decoded from its encoding |
| Utf8.DecodeEncodes | fio-stl/000 core.h:5078-5160 | a character is the encoding of its payload if and only if it is not longer than needed |
| Utf8.RoundTrip | fio-stl/000 core.h:5103-5160 | any sequence of code points below 2^21, written and read, comes back with every byte consumed |
| LinkedList.MutuallyInverse | fio-stl/000 core.h:2270-2273 | next and prev are inverse on the head and every element |
| LinkedList.RingLinks | fio-stl/000 core.h:2270-2273 | from the head next leads through the elements in order and back, prev the other way round |
| LinkedList.Push | fio-stl/000 core.h:2310-2316 | push appends |
| LinkedList.Unlink | fio-stl/000 core.h:2319-2323 | remove takes one element out and leaves its own links |
| LinkedList.RemoveReset | fio-stl/000 core.h:2326-2331 | remove-and-reset takes one element out and makes it a ring of its own |
| LinkedList.Pop | fio-stl/000 core.h:2334-2338 | pop takes the first element; of an empty list it returns the head and changes nothing |
| LinkedList.IsEmpty | fio-stl/000 core.h:2341-2342 | true if and only if there is no head, the head was never initialised, or there is no element |
| LinkedList.Each | fio-stl/000 core.h:2286-2295 | every element is visited once, in order, even when the body removes the current one; exactly those not removed remain |
| LinkedList.KeptExactly | fio-stl/000 core.h:2286-2295 | what remains of a list are exactly the elements that were not removed |
| LinkedList.KeptParts | fio-stl/000 core.h:2286-2295 | in their order |
| LinkedList.Run | fio-stl/000 core.h:2310-2338 | every run of operations leaves a ring of exactly the sequence that the sequence operations leave, and its pops return the nodes that theirs do |
| LinkedList.Queue | fio-stl/000 core.h:2310-2338 | pushing a sequence and popping any number of elements returns them in first-in first-out order and leaves the others |

## Left out

- TextToNumber.AtolXbase: base 0 divides by zero in the source and is excluded.
- Compare.ForUnroll: the count 2^64 - 1, for which the loop of the source never ends, and counts so near to it that the index of the last group wraps are excluded.
- TextToNumber.AtolXbaseLoop: the bases 2 and 10 are excluded; they have readers of their own and never reach the loop.
- SpinLock.MutualExclusion: memory orderings weaker than sequential consistency, and the waiting loop with its liveness, are not modelled.
- GlobMatcher.GlobMatch: patterns that end in a single backslash are excluded; there the source reads the byte after the pattern and its length wraps.
- LinkedList.Each: the body of the loop is the removal of the current element or nothing.
- SIMD, builtin and inline-assembly branches of all functions: other semantics than the portable branches. The index of the highest or lowest set bit is a function with its defining property.
- The modular product for platforms without 128-bit integers: its additions can wrap for moduli above 2^63.
- The zeroing of the Karatsuba scratch buffers before they are overwritten, and the sieve's packing of its table into words.
- `fio___math_mul_1024` and `fio_math_add2`: unused by the modelled functions.
- `fio_atol10`, `fio_stol10`, `fio_ltoa10`, `fio_digits10`: a sign in front of modelled functions.
- `fio_memset`, `fio_strlen`: only easier than the modelled memory routines.
- Floating point, the wide-number hexadecimal printers and readers, the pseudo-random generators, hashing and cryptography.
- `FIO_LIST_EACH_REVERSED` and the indexed lists.
- The variants of the UTF-8 functions without branches (`FIO_UTF8_ALLOW_IF` 0).
- Timing and constant-time claims.
- Logging, inclusion macros, OS patches and leak counters.
