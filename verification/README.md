# A verified model of the dark-pool node

Traders' orders are split into Shamir shares over a prime field. The nodes of a
pod subtract the shares they hold, exchange the differences, reconstruct them,
and from the reconstructed differences decide whether two orders match without
any node seeing either order. All field arithmetic runs on a hand-written
1024-bit integer. This project models that stack in Dafny, from the carry of a
single word to the verdict of the matcher, and the components around it:
the generator that pairs orders, the confirmer that waits for the blockchain, the
settler that rebuilds orders, the assignment of nodes to pods, the peer table and
the search for peers.

`dafny verify dfyconfig.toml` checks everything.

## How the pieces fit

1. **Integers** (`Words`, `Bits`, `WordArith`, `WordDivision`, `Vectors`,
   `LongDivision`, `StackInt`, `IntArith`, `ModularArith`, `ModularInverse`,
   `Numerals`). A word is a natural number below 2^64 and every wrapping
   expression is written with an explicit remainder. Vectors are arrays whose
   meaning is the number `Val` that they spell; `Int1024` is a class of sixteen
   words and a cached length. `Valid` is the canonical form. `Loose` is the
   canonical form or the full length, which is what an overflowing single-word
   product leaves behind.
2. **Field and sharing** (`Residues`, `PrimeField`, `Primality`, `Lagrange`,
   `Shamir`, `Secrecy`). The prime of the source is *proved* prime with a Pocklington
   certificate, so no theorem rests on an assumption about it. Interpolation at
   zero is proved for every polynomial and every set of distinct points, and the
   loops of `Split` and `Join` are proved to compute it.
3. **Protocol** (`Joining`, `Smpc`, `SmpcSafety`). `Joiner` is a class with the
   shared cache of the source. The network is a state machine: calls of `Join`
   advance lock section by lock section, messages may be lost, duplicated,
   reordered and delivered anywhere, joiners may be replaced while a call still
   holds the old one.
4. **Matching and settlement** (`Orders`, `Matching`, `MatchingSafety`,
   `Settlement`). `MatchInRun` puts layers 2 to 4 together: in every run of the
   protocol the match callback is called at most once, with the plaintext predicate
   `OrdersMatch`, and is called unless an order expires or a join stays unanswered.
5. **Around them** (`Generation`, `Confirming`, `Pods`, `Identity`, `Dht`,
   `Swarm`).

A call that panics in the source returns `ok == false` or `panics == true` in the
model, with the exact condition. Random numbers, clocks, the network, the
contracts on the blockchain and the answers of other nodes are parameters or
nondeterministic choices; stores are maps.

## What turned out differently from what the comments promise

- `Split` ranges over the coefficients from the second one but reads them from the
  first, so the secret is also the linear coefficient and the last coefficient
  drawn is unused (shamir/shamir.go:154-157). The polynomial still has the secret
  as its constant term and degree below k, which is all that reconstruction needs.
  Secrecy is affected, not only the shape of the polynomial: k - 1 shares determine
  the secret, with one exactly stated exception (`ThresholdLowered`), and fewer
  never do (`FewSharesHide`).
- The carry and borrow formulas of the word-by-vector routines are right for every
  word exactly when the other operand is at most 2^63
  (`AddWordCarryExact`, `SubWordBorrowExact`); all callers pass 0 or 1.
- `Dec` and `Mul` do not always leave a canonical length. `Dec` does exactly when
  y - x is at most 2^1024 - 2^960; `Mul` fails exactly when a 16-word factor meets a
  one-word factor and the wrapped product is below 2^960
  (`BorrowKeepsLength`, `OverflowKeepsLength` show an input each). Products, powers
  and parsing stay right modulo 2^1024 on such values.
- The pod assignment does not always end: it does exactly under the condition of
  `PodsEndIff`, and `TwoDarknodes` is a list for which it does not.
- `Closer` is documented to return true for equal distances and returns false; the
  two differ exactly when a node is compared with itself (`CloserAtTies`).
- Connecting with an empty address list gives a threshold of 0, with which the first
  join that carries a share panics (`EmptyListPanics`). The list of a pod names the
  node itself, so a pod of one node has threshold 1.

## Model

| member | source | states |
|---|---|---|
| `WordArith.AddWW` | stackint/asm/arith.go:58-65 | carry and low word together are the exact sum of two words and a carry bit |
| `WordArith.MulWW` | stackint/asm/arith.go:79-92 | high and low word together are the exact product, although every intermediate wraps |
| `WordArith.MulWWCorrect` | stackint/asm/arith.go:79-92 | the four half-word products with their wrapped cross sums give the exact high word |
| `WordArith.MulAddWWW` | stackint/asm/arith.go:95-102 | product plus a word, exactly, without overflow of the pair |
| `WordArith.Nlz` | stackint/asm/arith.go:105-107 | the shift that brings the leading bit of a non-zero word to the top, and 64 for zero |
| `WordArith.AddCarryCorrect` | stackint/asm/arith.go:156-172 | the bitwise carry formula of vector addition is the true carry for all words |
| `WordArith.SubBorrowCorrect` | stackint/asm/arith.go:175-191 | the bitwise borrow formula of vector subtraction is the true borrow for all words |
| `WordArith.AddWordCarryExact` | stackint/asm/arith.go:194-210 | the one-word carry formula is right for every word if and only if the addend is at most 2^63 |
| `WordArith.SubWordBorrowExact` | stackint/asm/arith.go:212-228 | the one-word borrow formula is right for every word if and only if the subtrahend is at most 2^63 |
| `WordDivision.QuotientDigit` | stackint/asm/arith.go:125-134 | the estimate of a half-word digit, corrected by the loop, is the exact digit; the loop ends |
| `WordDivision.DivNormalised` | stackint/asm/arith.go:116-149 | the whole normalise, two digits, shift back sequence gives quotient and remainder, every wrapped expression having the true value |
| `WordDivision.DivWW` | stackint/asm/arith.go:111-149 | u1·2^64 + u0 = q·v + r with r < v when u1 < v, and all ones for both otherwise |
| `Vectors.AddVV` | stackint/asm/arith.go:156-172 | the vector sum with its carry out is the sum of the values, in place or not, and nothing outside the slice changes |
| `Vectors.SubVV` | stackint/asm/arith.go:175-191 | the vector difference with its borrow out |
| `Vectors.AddVW` | stackint/asm/arith.go:194-210 | vector plus word with its carry out for all words, and exactly which carry is lost: that of the lowest word, for some addends above 2^63 |
| `Vectors.SubVW` | stackint/asm/arith.go:212-228 | vector minus word with its borrow out for all words, and exactly which borrow is lost |
| `Vectors.ShlVU` | stackint/asm/arith.go:230-243 | a shift left is multiplication by the power of two, with the bits shifted out returned |
| `Vectors.ShrVU` | stackint/asm/arith.go:245-258 | a shift right is division by the power of two |
| `Vectors.MulAddVWW` | stackint/asm/arith.go:260-267 | vector times word plus word, with the word carried out |
| `Vectors.MulAddStep` | stackint/int1024_arithmetic.go:97-106 | one inner step of the schoolbook product: carry and word are exact although each addition wraps |
| `Vectors.MulRow` | stackint/int1024_arithmetic.go:93-109 | one row adds x·d at offset i and touches nothing else |
| `LongDivision.EstimateQuotient` | stackint/int1024_divmod.go:88-108 | the D3 test leaves the quotient of the top three words by the top two, or all ones when the top words are equal |
| `LongDivision.EstimateError` | stackint/int1024_divmod.go:88-108 | that estimate is the true quotient word or one more, also in the skipped case |
| `LongDivision.AddBack` | stackint/int1024_divmod.go:120-129 | when the estimate was one too large, adding the divisor back once restores the remainder and cancels the borrow |
| `LongDivision.DivideWindow` | stackint/int1024_divmod.go:87-130 | one round of D3 to D6 divides the window exactly and leaves its remainder in place |
| `LongDivision.QuotientLoop` | stackint/int1024_divmod.go:84-134 | all rounds: dividend = quotient·divisor + remainder, remainder below the divisor, quotient trimmed |
| `LongDivision.Divide` | stackint/int1024_double.go:52-143 | the same algorithm at any width with normalisation and shift back, as used for 1024-bit and 2048-bit dividends |
| `StackInt.Int1024.FromUint` | stackint/int1024.go:47-51 | canonical integer with the given value, in fresh words |
| `StackInt.Int1024.SetUint` | stackint/int1024.go:54-64 | whatever the integer was, it becomes the given word in canonical form |
| `StackInt.Int1024.ToUint` | stackint/int1024.go:68-77 | succeeds if and only if the value fits one word, and then returns it |
| `StackInt.Int1024.Clone` | stackint/int1024.go:341-351 | same value in fresh words |
| `StackInt.Int1024.SetLength` | stackint/int1024.go:451-460 | restores the canonical form from any words |
| `StackInt.Int1024.EqualsWordIs` | stackint/int1024_comparison.go:6-16 | the tests on length and lowest word decide equality of values |
| `StackInt.Int1024.Cmp` | stackint/int1024_comparison.go:19-37 | the comparison of lengths and then words is the comparison of values |
| `StackInt.Int1024.Inc` | stackint/int1024_arithmetic.go:15-50 | sum modulo 2^1024 in canonical form, also when both operands are the same object |
| `StackInt.Int1024.Dec` | stackint/int1024_arithmetic.go:62-84 | difference modulo 2^1024, canonical if and only if y - x is at most 2^1024 - 2^960; after a borrow the length is 16 |
| `IntArith.Add` | stackint/int1024_arithmetic.go:6-12 | sum modulo 2^1024 in a fresh integer |
| `IntArith.Sub` | stackint/int1024_arithmetic.go:53-59 | difference modulo 2^1024, exact when it is not negative, canonical under the same exact condition |
| `IntArith.BorrowKeepsLength` | stackint/int1024_arithmetic.go:76-80 | 0 - (2^1024 - 1) is 1 with length 16: not canonical |
| `IntArith.Product` | stackint/int1024_arithmetic.go:87-111 | the schoolbook rows together are the exact product, in any width that holds both lengths |
| `IntArith.MulAddWW` | stackint/int1024_arithmetic.go:153-165 | product with a word modulo 2^1024; canonical if and only if x has fewer than 16 words or the wrapped product is at least 2^960; a full length stays full |
| `IntArith.MulLong` | stackint/int1024_arithmetic.go:114-150 | product modulo 2^1024, always canonical |
| `IntArith.Mul` | stackint/int1024_arithmetic.go:168-195 | product modulo 2^1024 across all branches; not canonical exactly when a 16-word x meets a one-word y and the wrapped product is below 2^960, and then of length 16 |
| `IntArith.OverflowKeepsLength` | stackint/int1024_arithmetic.go:153-165 | 2^1023 times 2 is 0 with length 16: not canonical |
| `IntArith.DivW` | stackint/int1024_divmod.go:11-27 | in-place division by a word: value = new value·y + r, r < y, canonical |
| `IntArith.DivLarge` | stackint/int1024_divmod.go:53-147 | Algorithm D on two canonical integers, canonical quotient and remainder |
| `IntArith.DivMod` | stackint/int1024_divmod.go:30-45 | x = q·y + r, r < y, both canonical, for every x and every y > 0 across all branches |
| `IntArith.Mod` | stackint/int1024_arithmetic.go:204-217 | the residue of x modulo n |
| `ModularArith.SubModulo` | stackint/int1024_arithmetic.go:220-242 | (x - y) mod n in [0, n) also when x < y, with no wrapped intermediate in the result |
| `ModularArith.IsBitSet` | stackint/int1024_bitwise.go:174-184 | true if and only if the index is in range and that bit of the value is one |
| `ModularArith.AddReduced` | stackint/int1024_arithmetic.go:271-282 | sum of two residues modulo n without ever forming it |
| `ModularArith.AddModulo` | stackint/int1024_arithmetic.go:245-283 | (x + y) mod n for all x, y, also when the sum exceeds 2^1024 |
| `ModularArith.MulModulo` | stackint/int1024_arithmetic.go:286-298 | (x·y) mod n for all x, y, across its three paths |
| `ModularArith.MulModuloBig` | stackint/int1024_double.go:18-50 | the residue of the full 2048-bit product |
| `ModularInverse.EuclidStep` | stackint/int1024_arithmetic.go:314-322 | a round keeps lastX·B + X·A = n and both cofactors as signed combinations |
| `ModularInverse.CofactorsBounded` | stackint/int1024_arithmetic.go:314-322 | no cofactor exceeds n, so none overflows |
| `ModularInverse.EuclidEnd` | stackint/int1024_arithmetic.go:324-328 | the loop ends with 1 if and only if x and n are coprime |
| `ModularInverse.InverseOf` | stackint/int1024_arithmetic.go:329-337 | the final cofactor or its complement, as the sign says, is an inverse |
| `ModularInverse.Round` | stackint/int1024_arithmetic.go:314-322 | one round on the integers in place does a Euclid step |
| `ModularInverse.ModInverse` | stackint/int1024_arithmetic.go:303-338 | succeeds if and only if x and n are coprime, and then returns z in [1, n-1] with x·z mod n = 1 |
| `Numerals.Exp` | stackint/int1024_arithmetic.go:341-356 | repeated squaring computes the power modulo 2^1024, canonical whenever it fits |
| `Numerals.BlockSize` | stackint/int1024.go:108-113 | the loop finds 19, 16 and 63 digits for bases 10, 16 and 2 |
| `Numerals.BlockParses` | stackint/int1024.go:132-135 | a block of that size parses exactly when it consists of digits: it never overflows a word |
| `Numerals.ReadBlock` | stackint/int1024.go:126-142 | adds one block in front of the digits read so far, right modulo 2^1024 even after the running power has overflowed |
| `Numerals.FromString` | stackint/int1024.go:80-144 | after 0x accepts exactly hexadecimal digits of either case, after 0b binary ones, else decimal ones, at least one and any number of them, and returns their number in that base modulo 2^1024 in canonical form |
| `Numerals.StripIs` | stackint/int1024.go:84-94 | the digits and the base, character by character: zero, the letter and at least one more |
| `Numerals.DigitIs` | stackint/int1024.go:132 | the characters accepted as digits are 0 and 1 in base 2, 0-9 in base 10, and 0-9, a-f and A-F in base 16, no others |
| `Numerals.ReadHexadecimal` | stackint/int1024.go:80-144 | every number written in hexadecimal, in lower or upper case, and read after 0x is that number modulo 2^1024 |
| `Numerals.ReadBinary` | stackint/int1024.go:80-144 | every number written in binary and read after 0b is that number modulo 2^1024 |
| `Numerals.FormatBlock` | stackint/int1024.go:158-160 | nineteen digits that stand for the word |
| `Numerals.ToString` | stackint/int1024.go:147-170 | the usual decimal form of the value, without leading zeros |
| `Numerals.CanonicalIsDecimal` | stackint/int1024.go:147-170 | a string without a leading zero is the only decimal form of its number |
| `Numerals.DecimalReads` | stackint/int1024.go:147-170 | the decimal form is such a string and stands for its number |
| `Numerals.WriteThenRead` | stackint/int1024.go:80-170 | reading what was written gives the integer back, for every canonical integer |
| `Numerals.ReadThenWrite` | stackint/int1024.go:80-170 | writing what was read normalises the text, and is the identity on canonical decimal text below 2^1024 |
| `Primality.PrimeIsPrime` | shamir/shamir.go:26-27 | the modulus of the shares is prime |
| `Primality.Pocklington` | shamir/shamir.go:26-27 | the criterion behind it: a certificate whose prime factors of p - 1 multiply to at least the root of p proves p prime |
| `PrimeField.InverseExists` | shamir/shamir.go:248-257 | every number that is not a multiple of the prime has an inverse modulo it |
| `Lagrange.Interpolation` | shamir/shamir.go:176-210 | the Lagrange sum at zero over any distinct points gives the constant term of any polynomial of smaller degree |
| `Shamir.AddMod` | shamir/shamir.go:212-222 | (x + y) mod m for all words |
| `Shamir.SubMod` | shamir/shamir.go:224-234 | (x - y) mod m for all words, also when x < y |
| `Shamir.MulMod` | shamir/shamir.go:236-246 | (x·y) mod m for all words |
| `Shamir.InvMod` | shamir/shamir.go:248-257 | succeeds if and only if x and m are coprime, and then inverts |
| `Shamir.SubShare` | shamir/shamir.go:38-43 | keeps the index and subtracts the values modulo the prime |
| `Shamir.EvaluateShare` | shamir/shamir.go:148-158 | the inner loop evaluates the polynomial of the splitting at the share's index |
| `Shamir.Split` | shamir/shamir.go:123-171 | fails exactly for n < k or a secret outside the field, with which error; else gives n shares at 1..n of a polynomial of degree below k with the secret as constant term |
| `Shamir.BasisParts` | shamir/shamir.go:180-201 | the inner loop computes numerator and denominator of the Lagrange basis at zero |
| `Shamir.Join` | shamir/shamir.go:176-210 | panics exactly when two indices agree modulo the prime; else returns the Lagrange sum at zero |
| `Shamir.Reconstruction` | shamir/shamir.go:176-210 | k or more shares at distinct points of a polynomial of degree below k, in any order, join to its constant term |
| `Shamir.SplitReconstructs` | shamir/shamir.go:123-210 | any k different shares of a splitting, in any order, join without panic to the secret |
| `Shamir.DifferenceShare` | shamir/shamir.go:38-43 | the difference of two shares is a share of the difference of the polynomials |
| `Secrecy.RootsFixLinear` | shamir/shamir.go:146-158 | a polynomial over the field with as many distinct non-zero roots as its degree has a linear coefficient fixed by its constant term and the inverses of the roots |
| `Secrecy.ThresholdLowered` | shamir/shamir.go:133-158 | for k >= 2, k - 1 shares at distinct non-zero points determine the secret if and only if one plus the sum of the inverses of the points is not zero in the field |
| `Secrecy.FewSharesHide` | shamir/shamir.go:133-158 | for k >= 2, at most k - 2 shares at non-zero points never determine the secret |
| `Secrecy.SingleShareReveals` | shamir/shamir.go:133-158 | with threshold two every single share determines the secret |
| `Joining.Joiner.InsertJoin` | smpc/joiner.go:155-238 | for every threshold, the new join sets, the error and the callback fired, and the exact condition of a panic; without error a set that was not reconstructed holds the joins it held before and the new one under its index |
| `Joining.InsertionAccumulates` | smpc/joiner.go:155-238 | each error exactly when; a refused join changes nothing; a recorded one joins those of its identifier, none of which is lost; a reconstructed set keeps joins and values; a set is reconstructed if and only if it holds as many joins as the threshold |
| `Joining.InsertionCallback` | smpc/joiner.go:155-238 | the callback that fires or is left waiting is the one given or the one that was waiting; sets of other identifiers are untouched |
| `Joining.NothingForgotten` | smpc/joiner.go:155-238 | over any history of insertions, whatever was inserted is still there unless its set was reconstructed |
| `Joining.EnoughInserted` | smpc/joiner.go:155-238 | joins with as many different indices as the threshold, in any order and with other identifiers in between, bring about the reconstruction, after which no callback waits |
| `Joining.WaitingCallbackFires` | smpc/joiner.go:155-238 | a callback that waits has been called by the time of the reconstruction, unless another one took its place |
| `Joining.Joiner.Reconstruct` | smpc/joiner.go:201-215 | every value is what joining exactly k of the recorded shares gives; panics exactly when two shares sit at one point or the cache is empty |
| `Joining.Joiner.FillCache` | smpc/joiner.go:204-211 | the shared cache holds k shares of different joins, in the arbitrary order of the map; with threshold 0 the first write is out of bounds |
| `SmpcSafety.HonestValue` | smpc/joiner.go:201-215 | a value joined from honest shares is the secret |
| `SmpcSafety.HonestPanicsIff` | smpc/joiner.go:155-238 | inserting an honest join among honest ones panics if and only if the threshold is 0 and the join carries at least one and at most sixteen shares |
| `SmpcSafety.EmptyListPanics` | smpc/smpc.go:57-66 | connecting with an empty address list gives threshold 0, and the first join with a share then panics |
| `SmpcSafety.HonestInsertion` | smpc/joiner.go:155-238 | an insertion keeps the sets honest and a callback that fires gets the secrets |
| `SmpcSafety.FrozenByInsertion` | smpc/joiner.go:155-238 | once reconstructed, a set changes in nothing but its callback |
| `SmpcSafety.NextInv` | smpc/smpc.go:57-163 | every step of the network (connect, disconnect, each lock section of Join, receive, respond) keeps the invariant |
| `SmpcSafety.RunInv` | smpc/smpc.go:57-163 | the invariant holds in every state of every run |
| `SmpcSafety.Agreement` | smpc/smpc.go:57-163 | in every run every callback at every node receives exactly the secrets, each supplied callback fires at most once, and any two nodes agree |
| `SmpcSafety.RunNeverPanics` | smpc/smpc.go:77-163 | in no state of any run does inserting an honest join panic |
| `SmpcSafety.WaitingForJoins` | smpc/joiner.go:155-238 | in every state of every run a callback that waits does so in a set with fewer joins than the threshold |
| `SmpcSafety.CompletionFires` | smpc/joiner.go:195-238 | the insertion that brings a set to the threshold, or comes later, fires exactly the callback that was waiting or is given; before that nothing fires and that callback waits; reconstructed means at least as many joins as the threshold |
| `SmpcSafety.FrozenForever` | smpc/joiner.go:155-238 | over the rest of any run a reconstructed set keeps its joins and values |
| `SmpcSafety.KeptForever` | smpc/joiner.go:155-238 | over the rest of any run a set loses no join: it is there or the set is reconstructed |
| `SmpcSafety.EnoughJoins` | smpc/smpc.go:77-163 | in every run: once calls and messages have inserted joins with as many different indices as the threshold, in any order and with anything in between, the set is reconstructed and no callback waits |
| `SmpcSafety.CallbackAnswered` | smpc/smpc.go:77-102 | in every run the callback of a call whose set is reconstructed has been called, unless a later call for the same join took its place |
| `SmpcSafety.RunAnnounced` | smpc/smpc.go:77-102 | in every state of every run a call past its first step has left its join with its node, what a node keeps is the join of one of its own calls, and a call that returned without error has sent its join to the others |
| `SmpcSafety.ReceivedAnswered` | smpc/smpc.go:120-150 | in every run a join message received without error by a node that has its own join of that identifier is ever after waiting for its answer, or answered with a join of that node |
| `SmpcSafety.CanReceive` | smpc/smpc.go:104-163 | in every state of every run a message that was sent can be received by any connected node, with an error exactly when there are more than sixteen secrets; its join is then in the set, or the set is reconstructed |
| `SmpcSafety.CallCompletes` | smpc/smpc.go:77-102 | in every state of every run a call of a connected node can take all its steps, after which its join is kept by the node, inserted and sent |
| `SmpcSafety.Connected` | smpc/smpc.go:57-65 | a new empty joiner with the threshold of the list takes the place of the network; all other networks and nodes keep theirs, and the old joiner lives on for calls that hold it |
| `SmpcSafety.Disconnected` | smpc/smpc.go:68-74 | that network of that node is gone, nothing else |
| `SmpcSafety.QuorumsMeet` | smpc/smpc.go:58 | any two sets of nodes of a pod that reach the threshold share a node |
| `Orders.NewOrder` | order/order.go:212-227 | the identifier is the hash of the content, the nonce is reduced into the field, everything else is as given |
| `Orders.ContentDetermines` | order/order.go:325-347 | two orders have equal contents if and only if they agree in type, parity, settlement, expiry in seconds and all eight secret fields |
| `Orders.SplitOrder` | order/order.go:269-321 | fails exactly when n < k or a field is outside the prime field; else gives n fragments, the i-th holding the shares at i of eight polynomials whose constant terms are the fields |
| `Matching.BuildJoin` | ome/matcher.go:181-214 | for the seven stages the share of the right difference, subtracted in the right direction; an error for any other stage |
| `Matching.SignTests` | ome/matcher.go:216-226 | on values below half the prime the tests on the residue decide >, >= and = of the unshared values |
| `Matching.ZeroTest` | ome/matcher.go:224-226 | on values below the prime the zero test decides equality |
| `Matching.Matcher.Resolve` | ome/matcher.go:89-104 | different settlements mismatch at once with a stored result; else the first stage is entered |
| `Matching.Matcher.ResolveStage` | ome/matcher.go:106-126 | an expired pair is stored as rejected without a callback, else the join of the stage is requested |
| `Matching.Matcher.ResolveValues` | ome/matcher.go:128-179 | ignores anything but one value, else goes on to the stage that the sign says or concludes with a stored result |
| `MatchingSafety.StageDecides` | ome/matcher.go:128-179 | going on from a stage leaves the undecided part of the plaintext predicate unchanged; concluding decides it |
| `MatchingSafety.RunDecides` | ome/matcher.go:106-179 | from any stage, every verdict is the plaintext predicate, within the number of stages left |
| `MatchingSafety.RunConcludes` | ome/matcher.go:106-179 | when every join is answered and nothing expires, a verdict is reached |
| `MatchingSafety.StageJoinHonest` | ome/matcher.go:181-214 | the join a node builds from its fragments is honest in the sense of the protocol |
| `MatchingSafety.StageSecret` | ome/matcher.go:181-214 | the secret of a stage is the difference of the two orders' values modulo the prime |
| `MatchingSafety.ResolveAll` | ome/matcher.go:89-179 | the matcher's methods driven stage by stage give the verdict, the number of joins and the callback argument of the pure pipeline |
| `MatchingSafety.EndToEnd` | ome/matcher.go:89-226 | for all orders in range, all splittings, all quorums and all runs: the verdict is that settlement and tokens are equal and, ordering by exponent and then coefficient, buy price >= sell price, buy volume >= sell minimum and sell volume >= buy minimum; after at most seven joins |
| `MatchingSafety.Delivery` | smpc/joiner.go:155-238 | in any run, what is delivered to the call of a stage is the secret of that stage, it is delivered once, and to no other stage |
| `MatchingSafety.MatchInRun` | ome/matcher.go:89-226 | the matcher fed with every delivery of any run to its joins: at most one match callback, told the plaintext predicate on the two orders; at most seven joins, each of them honest; the stages follow each other as the first answer to each says; without a callback an order has expired, and is stored as rejected, or the last join has had no answer since it was made |
| `MatchingSafety.NoCallbackWaits` | ome/matcher.go:106-179 | when nothing expires, there is no callback only while the last stage asked for has not been answered since |
| `Settlement.Settler.SettleValues` | ome/settler.go:67-94 | both orders are rebuilt from sixteen values in order, and settled in the store only when the contract accepts |
| `Settlement.SettlementJoinHonest` | ome/settler.go:47-65 | the sixteen shares a node sends are honest |
| `Settlement.RebuildSame` | ome/settler.go:72-73 | rebuilding from an order's own values gives the order back, identifier included, for any hash function |
| `Settlement.SettlementRoundTrip` | ome/settler.go:47-80 | in every run of the protocol a settlement callback rebuilds exactly the two orders that were split |
| `Generation.Generator.Generate` | ome/generator.go:52-155 | for any sequence of epoch changes and notifications, the computations sent, each once, are for every epoch exactly those its share of the notifications calls for |
| `Generation.Generator.OnChangeEpoch` | ome/generator.go:92-121 | the current matrix becomes the previous one and the old previous one hears nothing more |
| `Generation.Generator.RouteNotification` | ome/generator.go:123-175 | an opening reaches the current matrix at depth 0, the previous one at depth 1 and none deeper; anything else reaches both; nothing reaches a missing one |
| `Generation.DeliveredByField` | ome/generator.go:123-175 | the same for what the matrices of an epoch are told over a whole run |
| `Generation.Generator.InsertOrderFragment` | ome/generator.go:234-301 | both fragments of everything sent are stored under the epoch of the computation, and the invariant is kept |
| `Generation.Generator.RemoveOrderFragment` | ome/generator.go:303-310 | a closed order is gone from both sides of that epoch |
| `Generation.LiveIsLiveAt` | ome/generator.go:234-310 | whatever a side stores was opened and neither closed nor replaced since |
| `Generation.LiveAtIsLive` | ome/generator.go:234-310 | whatever was opened and neither closed nor replaced since is stored |
| `Generation.EmittedIsOwed` | ome/generator.go:234-301 | the incremental join sends exactly the pairs of an opening and an earlier order that was still live, on the other side and of another trader |
| `Generation.ExactlyOnce` | ome/generator.go:213-310 | when no order opens twice, a pair gets one computation if the first was live when the second opened, and none otherwise |
| `Generation.DeliveredOnce` | ome/generator.go:123-175 | when no order opens twice in the run, none opens twice in a matrix |
| `Confirming.Confirmer.Confirm` | ome/confirmer.go:64-141 | for every interleaving of submissions, polls, stops and writes of others to the store: confirmations sharing an order are more than an hour apart, each rests on an observation made in the very poll that emitted it; every order of a match taken up is watched until a poll sees it deep or matched with one that is; and a poll that sees it final with its computation stored passes it on, if neither order was passed on before |
| `Confirming.Confirmer.Submit` | ome/confirmer.go:73-111 | both orders are watched unless one was seen confirmed |
| `Confirming.Confirmer.Poll` | ome/confirmer.go:113-141 | everything emitted was watched, seen final in this poll and paired by the contract; nothing starts being watched; an order stops being watched only when seen deep or matched with one that was; unless stopped, every order that is due is passed on; what was remembered for an hour is forgotten, nothing younger |
| `Confirming.Confirmer.CheckOrders` | ome/confirmer.go:160-222 | the same for one side, in any order, stopped only where it is told to |
| `Confirming.Confirmer.CheckOrder` | ome/confirmer.go:167-277 | a failed call or too few blocks change nothing; a deep order that is not confirmed is dropped, and it alone; a final one is accepted in the store and gives exactly one confirmation, unless stopped, unknown to the store (both orders are dropped) or passed on before (nothing else changes) |
| `Confirming.Confirmer.PassOn` | ome/confirmer.go:172-220 | the part for a final order: accepted in the store where it is known, then exactly one confirmation, unless stopped or one of its orders was passed on before |
| `Confirming.Confirmer.Emit` | ome/confirmer.go:212-220 | the emission is logged, its orders are no longer watched and are remembered |
| `Confirming.Confirmer.Forget` | ome/confirmer.go:132-137 | exactly the orders older than an hour are forgotten |
| `Confirming.Checked` | ome/confirmer.go:160-222 | what handling one order means for its poll: what stays watched, what is passed on and why an order of the other side may be dropped |
| `Confirming.PolledStep` | ome/confirmer.go:113-141 | one poll keeps that every match taken up is watched or settled, and that every order seen final with its computation stored is passed on |
| `Confirming.EmitSound` | ome/confirmer.go:205-220 | an emission of orders not remembered keeps emissions sharing an order an hour apart |
| `Confirming.ForgetSound` | ome/confirmer.go:132-137 | forgetting an order after an hour keeps every recent emission remembered |
| `Pods.Probe` | contract/binder.go:543-550 | the walk of a round ends at the first place circularly that is free and has a registered darknode, or with a registry failure, whenever a place exists that stops it |
| `Pods.WalkEndsIff` | contract/binder.go:539-550 | a walk ends if and only if the registry fails for some darknode or some free place has a registered one |
| `Pods.PodsEndIff` | contract/binder.go:517-566 | for every list, registry, minimum and epoch, the assignment ends if and only if the minimum is zero, there are too few darknodes, the registry fails for one of them, or all are registered |
| `Pods.TwoDarknodes` | contract/binder.go:538-555 | two darknodes of which one is not registered: after any number of questions the assignment is still going |
| `Pods.AssignPods` | contract/binder.go:517-566 | exactly when the assignment ends: an error exactly for too few darknodes or a registry failure, a panic exactly for minimum zero, else pods dealt in rounds from all places, the first at the epoch modulo the number of darknodes and each later one the first free one circularly from the one before plus the epoch; so each darknode is in exactly one pod, sizes differ by at most one and none is below the minimum |
| `Pods.ChangingRegistry` | contract/binder.go:517-566 | when the registry changes its answers between questions: an end is a registry failure, or each darknode is in exactly one pod with the same sizes |
| `Identity.Distance` | identity/address.go:20-40 | the bytewise exclusive or, or an error for a malformed address |
| `Identity.XorBits` | identity/address.go:20-40 | a bit of the distance is one if and only if the two identifiers differ there |
| `Identity.SamePrefixLength` | identity/address.go:44-65 | the number of leading bits shared, or an error for a malformed address |
| `Identity.PrefixGap` | identity/address.go:44-65 | sharing exactly p bits means a distance from 2^(159-p) to below 2^(160-p), and sharing all means being equal |
| `Identity.Closer` | identity/address.go:94-113 | the bytewise comparison is the strict comparison of distances as numbers |
| `Identity.CloserAtTies` | identity/address.go:91-113 | the code agrees with its comment, which promises true at equal distances, if and only if the two nodes differ |
| `Identity.GapUnique` | identity/address.go:94-113 | two different nodes are never equally far from a target |
| `Identity.GapZero` | identity/address.go:20-40 | distance zero is equality |
| `Dht.DHT.FindBucket` | dht/dht.go:169-182 | the bucket of the shared prefix, which is always in range; errors for malformed addresses and the own address |
| `Dht.DHT.UpdateBucket` | dht/dht.go:207-226 | the address moves to the end in place of what was known, the rest keeps its order; refused exactly when it is new and the bucket is full |
| `Dht.DHT.UpdateMultiAddress` | dht/dht.go:103-110 | keeps every peer once, in its bucket and within the maximum; the new set of peers; each error exactly when |
| `Dht.DHT.RemoveMultiAddress` | dht/dht.go:112-134 | exactly the peers of that address are gone, the rest keeps its order; each error exactly when |
| `Dht.DHT.FindMultiAddress` | dht/dht.go:136-146 | looking in one bucket agrees with the flat list of peers |
| `Dht.DHT.MultiAddresses` | dht/dht.go:184-186 | the contents of all buckets, each address once |
| `Dht.FlatIs` | dht/dht.go:257-271 | the flat list holds exactly the contents of the buckets, without repetition |
| `Dht.DHT.FindMultiAddressNeighbors` | dht/dht.go:148-167 | the nearest peers in strictly increasing distance, as many as asked for, every other peer being farther |
| `Swarm.Query` | swarm/swarm.go:156-233 | ends on every finite network, asks no node twice nor more than the depth allows, first come first served, when bootstrapping only those who answer a ping; what it finds was known or is named at the end of a chain; an exhaustive search without a failed call reports not-found only if the target was unknown and no chain leads to it; the table afterwards is the one before with every new peer noted in turn, so that with room for everyone nobody known is forgotten and everyone named is known |
| `Swarm.Search` | swarm/swarm.go:186-233 | the queue loop with its whitelist and blacklist: order, who was visited and asked, which peers were noted and what the table became; everyone named has been visited when it runs dry |
| `Swarm.FindStart` | swarm/swarm.go:161-184 | the search begins at exactly the peers strictly nearer than ourselves, at all others than the target when bootstrapping, in the order of the table; when it ends or breaks off at once |
| `Swarm.Extend` | swarm/swarm.go:214-228 | stops at the first peer that is the target; notes and queues exactly those not yet visited, in the order they are named, and the table becomes what noting them one by one makes of it |
| `Swarm.NotFoundUnreachable` | swarm/swarm.go:185-233 | when nobody is waiting and the target was not named, no chain leads to it |
| `Swarm.FoundReachable` | swarm/swarm.go:185-233 | whatever an asked node names is at the end of a chain |
| `Swarm.UpdateDHT` | swarm/swarm.go:240-253 | the whole new table: a peer other than ourselves becomes the most recent of its bucket when it is known there or there is room, or in place of the oldest that does not answer a ping; else the answer of the oldest is noted; and exactly when it fails |
| `Swarm.PruneDHT` | swarm/swarm.go:255-277 | makes room if and only if the oldest peer of the bucket does not answer, by removing it alone; if it answers, its answer is noted where there is room |
| `Swarm.RoomyAll` | swarm/swarm.go:156-277 | when all addresses fit in one bucket, noting peers one after another forgets nobody, and everyone noted is known |
| `Swarm.ServeQuery` | swarm/swarm.go:48-62 | answers with exactly the known peers strictly nearer than itself, in the order of the table; all of them with an error exactly when distances make no sense |

## Left out

- gRPC, HTTP, the Ethereum bindings and nonce retries, LevelDB, logging, the command-line tools and test utilities: input, output and foreign code.
- Encryption, signatures, Keccak, base58 and multi-address text: an order's hash is an arbitrary function, an address is its 20 bytes or malformed.
- The assembly variants of the word routines: the Go variants are modelled.
- Randomness: `Split` takes the drawn coefficients as a parameter and everything is proved for all of them; the rejection loop of the random integer is not part of this model.
- Byte and JSON codecs of shares, joins, messages and integers, the bitwise operators and public shifts: they would only add easy members.
- The resynchronisation of the order book: its loop can visit an entry more than once, so there is no exactly-once property to prove.
- The registry caches and the stream recycler.
- Fragment identifiers, pod hashes, and the timestamps of computations.
- LongDivision.Divide: the 1024-bit and the 2048-bit routines of the source are the same text at two widths; one method of any width stands for both.
- Vectors.ShlVU: the destination and the source start at the same word, as in every call of the source.
- ModularInverse.ModInverse: for n < 2, where no inverse exists in [1, n-1], only the condition of the panic is stated.
- Joining.Joiner.InsertJoin: after a panic nothing is said about the joiner, because the process ends.
- Generation.Generator.Generate: a notification is handled to its end by its matrix before the next event, and store calls succeed; a matrix that is shut down while it sends may in the source drop the rest of its last notification.
- Pods.PodsEndIff: about a registry whose answers stay the same during one assignment; for one that changes them `ChangingRegistry` says what a result is, not when there is one.
- Confirming.Confirmer.Confirm: polls and registrations hold the lock, so they are single steps; the unlocked reads of the confirmed orders by the submitter are any map at all. What the store holds, refuses and when the confirmer is stopped is given for each order of each poll. The call that asks the contract to confirm a match has no effect on the confirmer's state and is left out.
- Confirming.Confirmer.Poll: a sell order that is due may, as in the source, have been dropped earlier in the same poll by a final buy order matched with it whose computation was not stored when it was looked for; passing on is stated up to that case.
- Swarm.Query: what a node answers to the one query that it is sent is a function of where it is dialled; that not-found means unreachable is stated for nodes whose answer does not depend on which of its locations is dialled.
- The locks of the peer table: each operation is one step.
- The concurrent pings that start a bootstrap; the search that follows them is modelled.
