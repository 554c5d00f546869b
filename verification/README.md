# Verification of the relay client's arithmetic, addresses, stamps and protocols

This project models, in Dafny, the hardest parts of the eCash messaging client and proves
properties of them:

- the big integers of `bn.js`: limb arrays changed in place, from the carry loops up to long
  division, the three multiplication kernels, binary extended gcd, reduction modulo the
  secp256k1 prime, Montgomery multiplication, windowed exponentiation, square roots, and
  printing and parsing in an arbitrary base (`JsNumber`, `Limbs`, `BigNum`, `Division`,
  `Multiplication`, `SelfProduct`, `Gcd`, `K256`, `Reduction`, `Montgomery`, `Radix`), with the number theory
  that the square root rests on (`Residues`, `Primes`);
- the CashAddr checksum (`CashAddr`), also as the code over GF(32) that it is (`CashAddrField`);
- stamps that three parties derive keys for separately (`HdKeys`, `Stamps`, `WalletFrame`,
  `StampRecovery`, `PartialReceipts`, `StampSender`);
- two small protocols: retried delivery (`Retry`) to a deduplicating mailbox (`Mailbox`,
  `MailboxContents`) and a pool of asynchronous workers (`WorkerPool`).

`dafny verify dfyconfig.toml` checks everything.

## How the model reads

A `BN` object has the fields `words`, `length` and `negative` of the source. `words` is a
sequence read and written like a JavaScript array (`Limbs.At`, `Limbs.Put`): an index never
written reads as zero. `Mag` and `Value` are the number the limbs stand for; `Canon` is the form
`strip` establishes. Doubles are integers, and `JsNumber.Exact` carries the obligation that a
double holds its integer exactly (below 2^53 in magnitude); `| 0`, `>> 26` and `>>> 26` wrap as they do in
JavaScript, and the contracts show where nothing wraps. A division of doubles rounds;
`JsNumber.TruncateQuotient`, through which every one goes that is not by a power of two, shows that
nothing is lost by it.

The checksum code uses bit-vectors: the specification is a 40-bit register, the method has the
source's two 32-bit patterns. `CashAddrField` defines multiplication in GF(32) apart from the
code and finds the register to be the remainder of a division by the published generator polynomial.

Points form an abstract cyclic group of order n (`HdKeys.Cyclic`, shown to have a model) and all
hashes are uninterpreted functions, so that nothing is used of them but that equal inputs hash
equally. 32-byte strings are the numbers they encode. Exceptions are `Result` values.

The mailbox relay is an object over its maps, and its runs are sequences of PUTs and DELETEs by
anyone; the client's retry loop acts on that object through a connection that may lose the request
or the reply, with others acting in between. The worker pool is a step relation whose runs are all
interleavings, and a program that follows any scheduler.

## What the code does differently from what one would expect

- `isub` of a negative number from itself doubles it, since flipping the sign of one operand flips
  the other (`BigNum.BN.ISub`).
- `iaddn` that brings a negative number exactly to zero leaves it marked negative; the contract
  of `BigNum.BN.IAddn` says that this is the only case.
- The comment in `K256.imulK` bounds the running word by 0x100000390; two limbs of all ones take it to
  0x1000003d0 (`K256.BoundIsReached`), the actual bound. No overflow follows.
- The branch of Montgomery `mul` that subtracts the modulus is never taken
  (`Montgomery.Mont.Reduce`).
- `sqrt` with a modulus 3 mod 4 returns a number whether or not there is a root: modulo 7 it answers 2
  for 3 (`Primes.NoRootOfThree`). For an odd prime the answer is a root exactly when there is one
  (`Reduction.Red.Sqrt`).
- `receiveMessage` counts the value of stamp outputs it then refuses
  (`Stamps.ForeignOutputIsCounted`); `Stamps.CountedValueIsRecorded` says exactly when the counted and
  the recorded value agree.
- `imuln` by a negative number is right for zero only (`BigNum.BN.IMuln`): 1 times -1 gives 2^26 - 1,
  because the high part is rounded towards zero and the low part downwards
  (`BigNum.OneTimesMinusOne`), and 2^25 times -2, where nothing is rounded, leaves a negative top word
  (`BigNum.NegativeTopWord`). Nothing in the repository calls it so.
- `x.imul(x)` gives the square exactly if x has one limb or ten, as long as the array holds nothing
  beyond the length (`Multiplication.IMul`). The kernel for ten limbs reads everything before it
  writes; the two others write the product over the words that later columns read, and what comes out
  then is never the square (`SelfProduct.NeverSquare`): 2^26 + 1 becomes 2 * 2^52 + 2 * 2^26 + 1
  (`Multiplication.SquareOfTwoLimbs`). `isqr` passes a clone.
- A message of which some outputs are refused may lose keys at a restart, since recovery numbers what
  was kept: `PartialReceipts.RestartRecovers` says exactly when not.
- `imaskn(0)` leaves a number without limbs (`BigNum.BN.IMaskn`).
- A PUT of several messages that is refused midway, for an address without a mailbox, has already
  notified messages it then forgets (`Mailbox.UnsteadyPutForgets`); the client sends one message at
  a time.
- `pAll` without workers returns at once with no results (`WorkerPool.FinishedIsComplete`).

## Model

| member | source | states |
|---|---|---|
| JsNumber.TruncatedRoundedQuotient | local_modules/bn.js/lib/bn.js:2289 | any correctly rounded double quotient of two integers below 2^53, truncated, is the integer quotient |
| JsNumber.TruncateQuotient | local_modules/bn.js/lib/bn.js:2289 | so `(a / d) | 0` is the integer quotient wherever that fits an int32, although the division is rounded |
| BigNum.BN.FromNumber | local_modules/bn.js/lib/bn.js:109-137 | every integer of magnitude below 2^53 gives the canonical number of that value and sign |
| BigNum.BN.Clone | local_modules/bn.js/lib/bn.js:305-319 | a fresh number of the same limbs, sign and value; the original is untouched |
| BigNum.BN.Strip | local_modules/bn.js/lib/bn.js:329-342 | keeps the value and leaves no leading zero limb and no negative zero |
| BigNum.BN.INeg | local_modules/bn.js/lib/bn.js:676-682 | negates the value; zero stays positive |
| BigNum.BN.UCmp | local_modules/bn.js/lib/bn.js:2763-2782 | orders two magnitudes without leading zeros |
| BigNum.BN.Cmp | local_modules/bn.js/lib/bn.js:2753-2761 | orders two signed values |
| BigNum.BN.Cmpn | local_modules/bn.js/lib/bn.js:2724-2751 | orders a signed value and a plain number of either sign |
| BigNum.BN.IAdd | local_modules/bn.js/lib/bn.js:843-895 | the value becomes the sum, for all four sign combinations and also when the operand is the number itself; canonical operands give a canonical sum and the operand is left as it was |
| BigNum.BN.ISub | local_modules/bn.js/lib/bn.js:918-981 | the value becomes the difference, except that a negative number subtracted from itself is doubled; the operand is left as it was |
| BigNum.BN.Add | local_modules/bn.js/lib/bn.js:898-916 | a fresh sum; both operands end as they began although their signs are flipped on the way |
| BigNum.BN.AddMagnitude | local_modules/bn.js/lib/bn.js:858-894 | the carry loops leave the sum of the magnitudes and a top limb only when it is not zero |
| BigNum.BN.SubMagnitude | local_modules/bn.js/lib/bn.js:949-980 | the borrow loops leave the larger magnitude minus the smaller, with no borrow left |
| BigNum.BN.IMuln | local_modules/bn.js/lib/bn.js:1887-1909 | scales the magnitude by a plain number below 2^26 in magnitude, every intermediate an exact double or an int32; the result is a number and the product if and only if the factor is not negative or the number is zero |
| BigNum.OneTimesMinusOne | local_modules/bn.js/lib/bn.js:1887-1909 | 1 times -1 gives 2^26 - 1 |
| BigNum.NegativeTopWord | local_modules/bn.js/lib/bn.js:1887-1909 | 2^25 times -2 leaves a negative top word, which is no number |
| BigNum.BN.IUShln | local_modules/bn.js/lib/bn.js:1948-1984 | multiplies the magnitude by 2^bits, for any number of bits |
| BigNum.BN.IUShrn | local_modules/bn.js/lib/bn.js:1995-2050 | divides the magnitude by 2^bits, rounding down; the sign survives unless the result is zero |
| BigNum.BN.IMaskn | local_modules/bn.js/lib/bn.js:2093-2115 | leaves the remainder by 2^bits of a non-negative number, with no limb at all when bits is zero |
| BigNum.BN.IAddn | local_modules/bn.js/lib/bn.js:2123-2144 | adds a plain number of either sign; the result is canonical if and only if it is not a negative number brought exactly to zero |
| BigNum.BN.ISubn | local_modules/bn.js/lib/bn.js:2164-2190 | subtracts a plain number of either sign, with the same exact condition |
| BigNum.BN.IAddnUnchecked | local_modules/bn.js/lib/bn.js:2146-2161 | the carry loop of `_iaddn` keeps all limbs in range and adds the number, growing by at most one limb |
| BigNum.BN.IShlnSubMul | local_modules/bn.js/lib/bn.js:2210-2244 | subtracts num * mul * 2^(26 shift) for any difference above -2^(26 (num.length + shift)); the result may be negative; words beyond `length` still read as zero |
| BigNum.BN.FinalCarry | local_modules/bn.js/lib/bn.js:2231-2234 | the carry left by the subtraction is 0 or -1, never anything else, and tells the sign of the difference |
| BigNum.BN.Modn | local_modules/bn.js/lib/bn.js:2455-2466 | the remainder of the magnitude by a plain number, every intermediate below 2^53 |
| BigNum.BN.IDivn | local_modules/bn.js/lib/bn.js:2468-2479 | the quotient of the magnitude by a plain number, rounded down |
| BigNum.BN.BitLength | local_modules/bn.js/lib/bn.js:617-621 | the length n with 2^(n-1) <= magnitude < 2^n |
| BigNum.BN.LowZeroBits | local_modules/bn.js/lib/bn.js:2518 | the number of trailing zero bits, as far as the lowest limb shows them |
| Division.EstimateWithinTwo | local_modules/bn.js/lib/bn.js:2284-2289 | the guessed digit from the top two words and the divisor's top word is never too small and at most two too big |
| Division.DivideDigit | local_modules/bn.js/lib/bn.js:2284-2302 | one digit: at most two corrections, the remainder ends in [0, b 2^(26 j)), and words beyond `length` read as zero |
| Division.GuessDigit | local_modules/bn.js/lib/bn.js:2284-2289 | the digit guessed with a double division is the integer quotient, capped at 2^26 - 1 |
| Division.Normalise | local_modules/bn.js/lib/bn.js:2249-2260 | scales both operands by the same power of two and gives the divisor a top word of at least 2^25 |
| Division.NormalisedDivision | local_modules/bn.js/lib/bn.js:2262-2309 | the digits written are those of the quotient and the rest is the remainder of the normalised operands |
| Division.WordDiv | local_modules/bn.js/lib/bn.js:2246-2318 | quotient and remainder of magnitudes, in each of the three modes |
| Division.TruncatedDivision | local_modules/bn.js/lib/bn.js:2320-2418 | Quot and Rem are the only pair with x = q y + r, abs(r) < abs(y) and r of x's sign |
| Division.DivideBy | local_modules/bn.js/lib/bn.js:2324-2418 | divmod: for all signed operands with a nonzero divisor, the truncated quotient and remainder, or the remainder in [0, abs(num)) when asked for; the divisor is left as it was |
| Division.UnsignedRemainder | local_modules/bn.js/lib/bn.js:2335-2382 | adding abs(y) to a negative truncated remainder gives the remainder in [0, abs(y)) |
| Division.UMod | local_modules/bn.js/lib/bn.js:2429-2431 | umod lands in [0, abs(num)) |
| Multiplication.ColumnsProduct | local_modules/bn.js/lib/bn.js:988-1027 | the sum of all columns of limb products is the product of the numbers |
| Multiplication.SmallTerm | local_modules/bn.js/lib/bn.js:1010-1015 | one term loses nothing and the high word grows by less than 2^26 |
| Multiplication.SmallColumn | local_modules/bn.js/lib/bn.js:1006-1016 | below 63 limbs in all the high word of a column stays under 31 * 2^26 |
| Multiplication.SmallMulTo | local_modules/bn.js/lib/bn.js:988-1027 | the signed product, canonical; written over its second operand, what the columns then read gives instead, and the product if there is one limb |
| Multiplication.OverwrittenValue | local_modules/bn.js/lib/bn.js:988-1027 | columns written over the operand they read add up to a_0 times the operand plus each further limb of a times what is already written |
| Multiplication.BigColumn | local_modules/bn.js/lib/bn.js:1619-1637 | three words hold a column of up to 1024 limbs, carried over exactly |
| Multiplication.BigMulTo | local_modules/bn.js/lib/bn.js:1610-1649 | the signed product, canonical, with no upper carry word at the end; written over its second operand, the overwritten sum without what is carried out of it |
| Multiplication.CombColumn | local_modules/bn.js/util/genCombMulTo10.js:28-45 | the three int32 sums of a column never wrap |
| Multiplication.Comb10MulTo | local_modules/bn.js/lib/bn.js:1030-1602 | the signed product of two ten-limb numbers, also when the output is an operand; canonical operands give a canonical product without a strip |
| Multiplication.MulTo | local_modules/bn.js/lib/bn.js:1656-1670 | whichever kernel the sizes select, below 1024 limbs: the signed product, if the output is no operand or there is one limb or ten each, and otherwise the overwritten sum |
| Multiplication.IMul | local_modules/bn.js/lib/bn.js:1883-1885 | the product in place; a number multiplied by itself becomes its square if and only if it has one limb or ten, provided nothing is stored beyond its length |
| SelfProduct.NeverSquare | local_modules/bn.js/lib/bn.js:988-1027 | from two limbs on the overwritten sum never is the square, whatever the number |
| Multiplication.SquareOfTwoLimbs | local_modules/bn.js/lib/bn.js:1883-1885 | 2^26 + 1 multiplied by itself in place becomes 2 * 2^52 + 2 * 2^26 + 1 |
| Gcd.GcdFromCombination | local_modules/bn.js/lib/bn.js:2557-2561 | a common divisor that is an integer combination is the greatest common divisor |
| Gcd.HalvingParity | local_modules/bn.js/lib/bn.js:2522-2525 | once both cofactors are even, or made even by adding yp and subtracting xp, halving them is exact |
| Gcd.HalveCofactors | local_modules/bn.js/lib/bn.js:2521-2528 | each halving of a cofactor pair is exact and keeps A xp + B yp = x |
| Gcd.RunToEnd | local_modules/bn.js/lib/bn.js:2517-2555 | the loop ends: x + y falls every round, y stays positive, the two are never both even, and the combinations hold throughout |
| Gcd.EGcd | local_modules/bn.js/lib/bn.js:2485-2562 | terminates with the gcd and cofactors a x0 + b p = gcd, where x0 is this, or this mod p when negative; the inputs are left as they were |
| Gcd.StripTwosModP | local_modules/bn.js/lib/bn.js:2587-2596 | halving x1 modulo an odd p keeps x1 * this = a mod p |
| Gcd.RunModP | local_modules/bn.js/lib/bn.js:2585-2617 | the loop keeps x1 * this = a and x2 * this = b mod p, ends with one of a, b at 1, and the cofactors stay bounded |
| Gcd.InvMp | local_modules/bn.js/lib/bn.js:2567-2631 | for every operand and every odd p, terminates and returns a factor that takes this to its gcd with p modulo p, the inverse where that is one; it is at most p times about six times the bits of the two numbers, since every subtraction is followed by a halving |
| Gcd.CoprimeGcd | local_modules/bn.js/lib/bn.js:2567-2631 | numbers with an integer combination that is one have no gcd but one |
| Gcd.InvM | local_modules/bn.js/lib/bn.js:2673-2675 | a factor in [0, num) that takes this to its gcd with num modulo num, for every modulus |
| K256.Split | local_modules/bn.js/lib/bn.js:3001-3033 | conserves hi * 2^256 + lo with lo below 2^256 |
| K256.ImulK | local_modules/bn.js/lib/bn.js:3035-3058 | multiplies by exactly 2^32 + 977, nothing carried out of the two added limbs |
| K256.BoundIsReached | local_modules/bn.js/lib/bn.js:3041-3047 | two limbs of all ones take the running word to the bound the comment gives and then beyond it |
| K256.FoldOnce | local_modules/bn.js/lib/bn.js:2960-2962 | one round keeps the residue modulo the prime and shrinks anything that exceeds 256 bits |
| K256.IReduce | local_modules/bn.js/lib/bn.js:2953-2983 | every non-negative input ends as its remainder modulo p in [0, p), p being the prime of SEC 2 section 2.4.1 |
| Reduction.Red.IMod | local_modules/bn.js/lib/bn.js:3150-3153 | the residue in [0, m), by whichever reduction the context has |
| Reduction.Red.Mul | local_modules/bn.js/lib/bn.js:3213-3216 | the product of residues modulo m, as a residue |
| Reduction.Red.Neg | local_modules/bn.js/lib/bn.js:3155-3161 | the residue of -a |
| Reduction.Red.IAdd | local_modules/bn.js/lib/bn.js:3173-3181 | the sum of residues modulo m, in place, also of a residue and itself |
| Reduction.PowBit | local_modules/bn.js/lib/bn.js:3316-3333 | res * a^current stays a^(bits read so far), with current < 2^currentLen, through squarings, skipped zeros and window products, in a plain or a Montgomery context |
| Reduction.PowLimb | local_modules/bn.js/lib/bn.js:3313-3335 | the same across limb boundaries |
| Reduction.Red.Pow | local_modules/bn.js/lib/bn.js:3293-3339 | a^num mod m for every exponent |
| Reduction.Power | local_modules/bn.js/lib/bn.js:3293-3339 | the same for whichever `mul` the context inherits: in a Montgomery context the converted power of the number that a is converted from |
| Reduction.Red.InvM | local_modules/bn.js/lib/bn.js:3283-3291 | the residue that takes a to its gcd with an odd modulus, the inverse if a has one, whatever sign `_invmp` returned |
| Reduction.Red.FindNonResidue | local_modules/bn.js/lib/bn.js:3252-3260 | the search returns a z with z^((m-1)/2) = -1, and fails to end only if no residue has that power |
| Reduction.Red.OrderExponent | local_modules/bn.js/lib/bn.js:3267-3271 | the least number of squarings that takes t to one, below the limit |
| Reduction.Red.TonelliStep | local_modules/bn.js/lib/bn.js:3272-3276 | r^2 = a t survives a round |
| Residues.HalfOrder | local_modules/bn.js/lib/bn.js:3266-3278 | where one has only two square roots, the power of t before the first that is 1 is -1 |
| Residues.RoundStaysReady | local_modules/bn.js/lib/bn.js:3266-3278 | a round leaves c of order 2^i and t of order at most 2^(i-1), so that m strictly decreases and `assert(i < m)` holds |
| Residues.StartIsReady | local_modules/bn.js/lib/bn.js:3262-3265 | so it is at the start, for a non-residue z and an a with Euler power 1 |
| Residues.RootHasEulerPower | local_modules/bn.js/lib/bn.js:3226-3281 | a number that has a root has Euler power 1, as far as Fermat's theorem holds for the root |
| Residues.FermatTwoRoots | local_modules/bn.js/lib/bn.js:3266-3278 | where Fermat's theorem holds one has only two square roots |
| Residues.NonResidueExists | local_modules/bn.js/lib/bn.js:3252-3260 | there, and for an odd modulus, some residue has power -1, so that the search ends: x^h - 1 has no more than h roots |
| Residues.RootsAreFound | local_modules/bn.js/lib/bn.js:3226-3281 | so a number that has a root meets what either branch needs to find it |
| Primes.PrimesSatisfyFermat | local_modules/bn.js/lib/bn.js:3226-3281 | Fermat's theorem holds for every prime modulus |
| Primes.NoRootOfThree | local_modules/bn.js/lib/bn.js:3233-3236 | modulo 7 the fast branch answers 2 for 3, which has no root |
| Reduction.Red.TonelliLoop | local_modules/bn.js/lib/bn.js:3265-3280 | whenever it returns, the result squared is a; from a ready start it always returns |
| Reduction.Red.SqrtFast | local_modules/bn.js/lib/bn.js:3233-3236 | modulus 3 mod 4: the result squared is a^((m+1)/2) |
| Reduction.Red.Sqrt | local_modules/bn.js/lib/bn.js:3226-3281 | for an odd modulus of which Fermat's theorem holds, so for every odd prime, the result is a root of a exactly when a has one; without it, a modulus 1 mod 4 never gives a number that is no root, a modulus 3 mod 4 always gives a number; even modulus: none |
| Montgomery.OddCoprime | local_modules/bn.js/lib/bn.js:3371 | R and an odd modulus have a combination that is one, so `_invmp` finds the inverse |
| Montgomery.MinvInverts | local_modules/bn.js/lib/bn.js:3373-3375 | the minv computed inverts m modulo R and lies in [0, R] |
| Montgomery.Mont.constructor | local_modules/bn.js/lib/bn.js:3361-3376 | for every odd m > 1 of up to 510 limbs: R = 2^(26 limbs), rinv R = 1 mod m, minv m = 1 mod R |
| Montgomery.ExactReduction | local_modules/bn.js/lib/bn.js:3397-3398 | t - c is an exact multiple of R, and the quotient lies in (-m, m) |
| Montgomery.Mont.Reduce | local_modules/bn.js/lib/bn.js:3397-3405 | t / R modulo m in [0, m), with one correction at most; the subtraction of m never happens |
| Montgomery.Mont.Mul | local_modules/bn.js/lib/bn.js:3410-3424 | a b / R modulo m in [0, m) |
| Montgomery.Mont.IMul | local_modules/bn.js/lib/bn.js:3389-3408 | the same in place, and of a number with itself where that has one limb or ten |
| Montgomery.Mont.ConvertTo | local_modules/bn.js/lib/bn.js:3379-3381 | num R modulo m, for numbers of either sign |
| Montgomery.Mont.ConvertFrom | local_modules/bn.js/lib/bn.js:3383-3387 | x / R modulo m in [0, m), also with a negative inverse of R |
| Montgomery.Mont.InvM | local_modules/bn.js/lib/bn.js:3426-3430 | a number whose product with a is R^2 times the gcd of a and m, modulo m |
| Montgomery.ConvertBack | local_modules/bn.js/lib/bn.js:3379-3387 | convertFrom undoes convertTo |
| Montgomery.ProductOfConverted | local_modules/bn.js/lib/bn.js:3410-3424 | mul of converted numbers is the conversion of their product mod m |
| Montgomery.InverseOfConverted | local_modules/bn.js/lib/bn.js:3426-3430 | a Montgomery inverse, converted back, is the inverse, up to the gcd with the modulus |
| Reduction.PowerConverted | local_modules/bn.js/lib/bn.js:3293-3339 | converted in, raised to a power by the inherited loop and converted out: x^num mod m |
| Reduction.ProductConverted | local_modules/bn.js/lib/bn.js:3379-3424 | converted in, multiplied and converted out: x y mod m |
| Reduction.InverseConverted | local_modules/bn.js/lib/bn.js:3379-3430 | converted in, inverted and converted out: a factor that takes x to its gcd with m |
| Radix.TablesAgree | local_modules/bn.js/lib/bn.js:407-423 | each group base is its base to the power of its group size and fits a limb |
| Radix.NumeralSplit | local_modules/bn.js/lib/bn.js:469-478 | a numeral split at digit k is the upper numeral and the lower one padded with zeros to k digits |
| Radix.PrintGroups | local_modules/bn.js/lib/bn.js:466-478 | printing group by group gives the plain positional numeral |
| Radix.ToString | local_modules/bn.js/lib/bn.js:461-489 | sign, zeros to a multiple of the padding and the numeral without leading zeros, for every integer and base 2 to 36 except 16 |
| Radix.LimbDigits | local_modules/bn.js/lib/bn.js:265-270 | the most digits that always fit a limb, and the base to that power |
| Radix.ParseChunk | local_modules/bn.js/lib/bn.js:236-258 | the positional value of a piece of text, exact in a double |
| Radix.ParseBase | local_modules/bn.js/lib/bn.js:260-303 | the positional value of all digits, whole limbs and rest |
| Radix.Parse | local_modules/bn.js/lib/bn.js:72-107 | the signed value of a text of digits with whitespace anywhere; minus zero is zero |
| Radix.PrintedValue | local_modules/bn.js/lib/bn.js:461-489 | the printed text denotes the number printed, and starts with a minus sign exactly when it is negative |
| Radix.PrintedShape | local_modules/bn.js/lib/bn.js:461-489 | behind its sign the printed text has as few zeros as bring its length to a multiple of the padding and then a numeral that starts with none, all in digits and small letters of the base |
| Radix.PrintAndParse | local_modules/bn.js/lib/bn.js:260-303 | parsing undoes printing, for every integer, base and padding |
| CashAddr.Polymod | local_modules/bitcore-lib-xec/lib/address.js:792-826 | the 8-bit and 32-bit words, signs included, compute the 40-bit register `CashAddr.Run` and the final xor; the lemmas of `CashAddrField` below say what that register is |
| CashAddr.AddGenerators | local_modules/bitcore-lib-xec/lib/address.js:808-813 | the two words of each generator are its 40 bits |
| CashAddr.JoinedNumber | local_modules/bitcore-lib-xec/lib/address.js:815-825 | the joined number is the unsigned 40-bit value also when the low word is negative |
| CashAddr.ChecksumToArray | local_modules/bitcore-lib-xec/lib/address.js:774-781 | the eight base-32 digits, highest first, although the number is divided with fractions |
| CashAddr.RunLinear | local_modules/bitcore-lib-xec/lib/address.js:792-814 | the code is linear over GF(2), for data of any length |
| CashAddrField.StepDivides | local_modules/bitcore-lib-xec/lib/address.js:783-813 | the five generators are multiples of one polynomial over GF(32), with x^5 + x^3 + 1 for the field: each symbol is one step of the division by the generator polynomial of the CashAddr specification, section "Checksum" |
| CashAddrField.RunScales | local_modules/bitcore-lib-xec/lib/address.js:792-814 | multiplying the start value and all symbols by an element of GF(32) multiplies the register: the code is linear over the field, for data of any length |
| CashAddrField.ScalePacked | local_modules/bitcore-lib-xec/lib/address.js:792-814 | multiplying a register multiplies each of the eight symbols packed in it |
| CashAddrField.GeneratorRest | local_modules/bitcore-lib-xec/lib/address.js:783-790 | x^8 leaves the coefficients 19, 3, 25, 11, 25, 3, 19, 1 of the generator polynomial |
| CashAddrField.PublishedAddressAccepted | local_modules/bitcore-lib-xec/test/address.js:70-76 | the check accepts an address published with the specification, which fixes the start value, the final xor, the separator and the bits taken from the prefix |
| CashAddr.RunZeros | local_modules/bitcore-lib-xec/lib/address.js:792-814 | the zero-symbol step loses nothing: a nonzero state never becomes zero |
| CashAddr.RunPacks | local_modules/bitcore-lib-xec/lib/address.js:792-814 | from a clear state eight symbols never overflow 40 bits |
| CashAddr.PackBase32 | local_modules/bitcore-lib-xec/lib/address.js:774-781 | packing the base-32 digits of a checksum gives the checksum back |
| CashAddr.ChecksumAccepted | local_modules/bitcore-lib-xec/lib/address.js:707-713 | for every data, appending the digits of the zero-padded polymod makes the polymod zero |
| CashAddr.BurstDetected | local_modules/bitcore-lib-xec/lib/address.js:305-316 | any change confined to eight consecutive symbols changes the polymod, for strings of every length |
| CashAddr.EncodePayload | local_modules/bitcore-lib-xec/lib/address.js:707-713 | the encoder's payload is accepted by the decoder's check, and no other last eight symbols would be; by `CashAddrField.PublishedAddressAccepted` that check is the published one |
| CashAddr.ValidChecksum | local_modules/bitcore-lib-xec/lib/address.js:305-316 | accepts exactly the payloads whose polymod with the prefix is zero |
| CashAddr.OneNetwork | local_modules/bitcore-lib-xec/lib/networks.js:175-203 | no payload is accepted for two of the three networks |
| CashAddr.OnePrefix | local_modules/bitcore-lib-xec/lib/address.js:305-316 | no payload is accepted for two prefixes of up to six letters whose symbols differ |
| CashAddr.FindPrefix | local_modules/bitcore-lib-xec/lib/address.js:337-349 | an address without prefix gets the one network that accepts it, or none |
| HdKeys.DerivationCommutes | local_modules/bitcore-lib-xec/lib/hdpublickey.js:152-183 | public derivation gives the public key of the private child, retries on the next index included, exactly when that child is not a hardened one; otherwise it fails |
| HdKeys.PathsCommute | local_modules/bitcore-lib-xec/lib/hdprivatekey.js:224-276 | along any path the public side succeeds exactly when the private side stays below the hardened indices, and both reach the same child |
| HdKeys.FirstChild | local_modules/bitcore-lib-xec/lib/hdprivatekey.js:224-276 | the child is the one at the first index, from the one asked for or its hardened counterpart on, whose sum of hash and key is no zero; its key and chain code come from the hash at its own index, of the secret key if that is hardened and of the public key if not, for both values of nonCompliant; derivation fails exactly if no index is left |
| HdKeys.HardenedFromSecret | local_modules/bitcore-lib-xec/lib/hdprivatekey.js:230-251 | a hardened child has a hardened index and depends on the secret key and its hash only, not on the curve or the hash of public keys |
| HdKeys.PublicFromPublic | local_modules/bitcore-lib-xec/lib/hdprivatekey.js:247-249 | a child below the hardened indices does not depend on the hash of secret keys |
| Stamps.RootsCommute | src/cashweb/relay/crypto.ts:113-173 | the stamp root keys of sender and recipient are two halves of one key, exactly when the digest is a valid key and the sum is not zero |
| Stamps.StealthRootsCommute | src/cashweb/relay/crypto.ts:43-111 | so are the stealth root keys, though each side knows only one secret |
| Stamps.RootIsSum | src/cashweb/relay/crypto.ts:145-173 | the recipient's root key is the secret behind the point of the digest plus the destination's point, if that is one, with the digest as chain code |
| Stamps.RootsDiffer | src/cashweb/relay/crypto.ts:145-173 | one destination has different root keys for different payloads, and different destinations have different ones for one payload |
| Stamps.StealthRootIsSum | src/cashweb/relay/crypto.ts:78-111 | the stealth root key is the stamp root key for the hash of the shared point |
| Stamps.VerifyStampCommitment | local-services/server.js:173-225 | the relay accepts exactly the stamps whose every listed output exists and pays to its derived address, and reports their total and number |
| Stamps.VerifyTransaction | local-services/server.js:200-223 | the same for one transaction |
| Stamps.ReceiveStamps | src/cashweb/relay/index.ts:1254-1320 | the recipient's loop gives what the fold over outputs says and leaves the wallet as the fold over inputs and outputs says, on every path, failures included; after an inbound message every recorded outpoint is in the wallet with a key that opens it |
| Stamps.OutboundTakesInputs | src/cashweb/relay/index.ts:1263-1277 | an outbound message takes exactly the inputs of the transactions it gets to out of the wallet, all of them when it succeeds |
| WalletFrame.InboundOnlyAdds | src/cashweb/relay/index.ts:1280-1318 | an inbound message, also one that fails, takes nothing out of the wallet, and whatever is new or changed is a listed output that pays to its child key, with that key |
| WalletFrame.InboundLeaves | src/cashweb/relay/index.ts:1280-1318 | every outpoint that is not a listed one paying to its child key is in the wallet as before, or not at all |
| WalletFrame.InboundPuts | src/cashweb/relay/index.ts:1289-1318 | every listed output that pays to its child key, in a transaction reached before anything fails, is in the wallet |
| WalletFrame.StampKeyFromBase | src/cashweb/relay/crypto.ts:113-173 | the child key the recipient derives step by step is child 44, 145, i, j of the stamp root key |
| WalletFrame.OutboundRecordsAll | src/cashweb/relay/index.ts:1306-1313 | a successful outbound message records every listed output at its place in the order of listing, whoever it pays to, and no keys |
| WalletFrame.InboundRecordsPayable | src/cashweb/relay/index.ts:1289-1318 | a successful inbound message records only listed outputs, each with the child key it pays to |
| Stamps.OutputAgreement | src/cashweb/relay/index.ts:1282-1303 | on each listed output relay and recipient agree, up to a hardened retry |
| Stamps.RelayedStampsAreReceived | src/cashweb/relay/index.ts:1258-1320 | every stamp the relay accepts is received in full by an inbound recipient, with the same total and the derived keys, except that an empty one, which the relay does not look into, fails where there is no base key |
| Stamps.EverythingListedIsCounted | src/cashweb/relay/index.ts:1280-1283 | the stamp value counts every listed output, those refused for their address included |
| Stamps.CountedValueIsRecorded | src/cashweb/relay/index.ts:1280-1318 | the counted value is never less than the recorded outpoints are worth, and equal exactly when every listed output pays to its child key or pays nothing |
| Stamps.ForeignOutputIsCounted | src/cashweb/relay/index.ts:1280-1303 | a message of one output of five satoshis to a foreign address is counted as five and records nothing |
| Stamps.TxsKept | src/cashweb/relay/index.ts:1263-1320 | all listed outputs are kept exactly when every one matches |
| Stamps.ReceivedKeysOpen | src/cashweb/relay/index.ts:1289-1318 | every recorded outpoint has a key that opens its address, whatever the message lists |
| StampRecovery.GroupStamps | src/cashweb/relay/index.ts:246-253 | the find-and-push loop groups outpoints by transaction id in the order of appearance |
| StampRecovery.DeriveReceivedStampKeys | src/cashweb/relay/index.ts:230-289 | whatever was persisted, every key returned opens the address it is returned for |
| StampRecovery.GroupingFindsTransactions | src/cashweb/relay/index.ts:243-253 | grouping finds the listed transactions again exactly when their ids differ and none lists nothing |
| PartialReceipts.RestartRecovers | src/cashweb/relay/index.ts:230-289 | every recorded outpoint gets back the key it was received with if what is kept is a prefix of each list, transactions that keep nothing come last and the others have different ids; where children have different addresses, only if so |
| PartialReceipts.MismatchLosesNoOther | src/cashweb/relay/index.ts:258-289 | recovery fails only where a key cannot be derived; every outpoint that pays to the child of its place is found, whatever stands beside it |
| StampSender.StampAddressGenerator.Next | src/cashweb/relay/constructors.ts:56-68 | hands out child 44, 145, n, j and counts n up, also between outputs of one transaction |
| StampSender.BuildStampTransactions | src/cashweb/relay/constructors.ts:41-77 | succeeds exactly when every child address exists; then transaction i lists output 0, which pays its planned amount to child 44, 145, i, 0, before the planned change, and the bundle satisfies the relay for the full amount |
| StampSender.SingleOutputStampsSurvive | src/cashweb/relay/constructors.ts:158-174 | such a stamp is accepted, received in full and recovered after a restart |
| Mailbox.Relay.PutMessages | local-services/server.js:315-346 | the object's maps and status after a PUT of any set, refused midway or not, with the array shared with the map or not; what they hold is stated by `MailboxContents.PutExactly` |
| Mailbox.Relay.GetMessages | local-services/server.js:303-313 | the messages of a time span; which these are is stated by `MailboxContents.BetweenPositions` |
| Mailbox.Relay.DeleteMessage | local-services/server.js:348-360 | the object's maps after a DELETE; what they hold is stated by `MailboxContents.DeleteExactly` |
| MailboxContents.PutExactly | local-services/server.js:315-346 | a PUT takes the messages up to the first whose address or digest is wrong: status 204 exactly if it takes all of a set that is not empty; to the mailbox it appends the new ones, to the notifications their digests, and each payload entry is that of the last message taken that writes it or as it was |
| MailboxContents.AdditionsAreNew | local-services/server.js:321-339 | what is appended are, in order and each once, the messages first of their digest and not held before, each whole, with its digest and the time of receipt |
| MailboxContents.PutKeeps | local-services/server.js:315-346 | a PUT, refused or not, keeps the old mailbox as a prefix of the new one and leaves all other mailboxes alone |
| MailboxContents.RefusedInAnyState | local-services/server.js:319-345 | an empty set or one with a wrong message is refused in every state of the relay |
| MailboxContents.BetweenPositions | local-services/server.js:303-313 | a GET answers exactly the messages received in the span, both ends included, in order and each as often as it is held |
| MailboxContents.PutThenGet | local-services/server.js:303-346 | every new message of an accepted PUT is answered whole, payload included, by a GET over a span that holds the time of the PUT |
| MailboxContents.DeleteExactly | local-services/server.js:348-360 | a DELETE leaves exactly the messages of other digests, in order, no payload entry of its own, and all other mailboxes and entries as they were |
| Mailbox.RunConsistent | local-services/server.js:315-361 | over every run of PUTs and DELETEs no mailbox holds two messages of one digest, and each stored message with a payload has an entry hashing to its digest |
| Mailbox.SteadyIffStoresOnce | local-services/server.js:319-345 | a PUT notifies a message exactly when it stores it for the first time, if and only if it is not refused midway on an address without a mailbox |
| Mailbox.UnsteadyPutForgets | local-services/server.js:319-345 | such a PUT notifies its first message without storing it |
| Mailbox.StoredAndNotifiedOnce | local-services/server.js:331-343 | between deletions a message is stored and notified at most once, whoever puts it and how often, whatever is put to other addresses, as long as no PUT to this one is refused midway before it has a mailbox |
| Mailbox.AcceptedPutStores | local-services/server.js:331-346 | a PUT answered 204 has stored every one of its messages |
| Retry.PushMessagesWithRetry | src/cashweb/relay/index.ts:775-803 | through lost requests, lost replies and other clients: the result is delivery exactly if the last attempt saw 204 and refusal with c exactly if it saw c from 400 to 499, no earlier attempt saw either, and without either maxAttempts are made; the first answered attempt of a set with a wrong message is the last; the relay ends as after that run, a delivered set is stored, and a single message is stored and notified at most once |
| Retry.OnePutPerAttempt | src/cashweb/relay/index.ts:780-803 | that run puts the set at most once per attempt |
| WorkerPool.RunKeeps | src/cashweb/relay/pAll.ts:6-17 | in every interleaving each item is claimed once, waited for by one worker or finished with its result in place |
| WorkerPool.BoundedConcurrency | src/cashweb/relay/pAll.ts:6-17 | never more calls under way than workers; the calls made are those finished and those under way |
| WorkerPool.RunsAreShort | src/cashweb/relay/pAll.ts:6-17 | every interleaving ends, within twice the items plus the workers |
| WorkerPool.NeverStuck | src/cashweb/relay/pAll.ts:6-17 | until all workers are done some worker can go on |
| WorkerPool.FinishedIsComplete | src/cashweb/relay/pAll.ts:1-25 | at the end every item has its own result and was called once, if and only if there is a worker or nothing to do |
| WorkerPool.PAll | src/cashweb/relay/pAll.ts:1-25 | under any scheduler, results[i] = func(queue[i]) for all i |

## Left out

- Multiplication.MulTo: not the floating-point Fourier kernel that takes over at 1024 limbs in all.
- Reduction.Red.Mul: so a context that multiplies has a modulus of at most 511 limbs, whose products
  stay below that; `imod`, `neg` and `iadd`, which form no product, and `invm` have no such bound.
- Montgomery.Mont.constructor: at most 510 limbs, since R and its inverse have one limb
  more than the modulus.
- Multiplication.IMul: for a number multiplied by itself, what is stored beyond its length are limbs, and
  where it is not zero only the sum that results is stated, not whether it is the square.
- Montgomery.Mont.IMul: not a number multiplied in place by itself unless it has one limb or ten; the
  reduction starts from a wrong product otherwise.
- Tags of reduction contexts (`red`) and the checks that two numbers share one; a context is an
  explicit object here.
- The primes p224, p192 and p25519 and the general pseudo-Mersenne `split` and `imulK`.
- `K256` keeps one scratch number between calls; here each call has its own.
- Base 16 printing and parsing, byte arrays, two's complement and the bitwise operations.
- BigNum.BN.IUShrn: without a hint and without a number that receives the bits shifted out.
- `divRound`.
- BigNum.BN.IMuln: by zero the result is not claimed canonical, because the code does not strip there,
  and by a negative number it is not claimed to have limbs in range, because the last carry is
  negative; numbers of -2^26 and below are not modelled.
- Gcd.InvMp: p is odd, which the code does not check; for an even one the loop ends as well, but halves
  factors that are not even, and what it returns is not modelled. The size bound is stated for up to
  2^25 / 3 bits.
- Reduction.Red.Sqrt: a search or a loop that would not end, and a failed assertion, are one result
  (null) here, so that the method terminates.
- Radix.Parse: characters that are no digits of the base, which the code does not check.
- Base 32 text, the conversion of bytes to 5-bit symbols, Base58Check and address types: the checksum
  results are about symbols.
- Elliptic-curve arithmetic, SHA-256, HMAC, AES and signatures: uninterpreted.
- Serialisation of keys, messages and transactions; a stamp transaction is its id, inputs
  and outputs.
- Several stamp outputs in one transaction on the sender's side: the generator then counts on
  between outputs, as `StampSender.StampAddressGenerator.Next` states, and the relay would look for
  other children. Coin selection and change are given from outside.
- Looking a recovered stamp up on the chain.
- Authorisation tokens, profiles, sockets and time: a notification is an entry in a list, a time a
  parameter.
- Payload entries are keyed by address and digest, not by their concatenation.
- Workers whose call fails, and queues that change while they are worked on.
