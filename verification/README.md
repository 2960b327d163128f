# Verified models of the simulation kernel's self-contained algorithms

This project models, in Dafny 4.11, the algorithms whose bodies the simulation-kernel headers contain in full,
and proves what they are for. `dafny verify dfyconfig.toml` checks everything.

- **Mersenne Twister** (`mersennetwister.h`). `recurrence.dfy` defines the infinite linear recurrence of section 2.1
  of Matsumoto and Nishimura (1998) and its transition; `tempering.dfy`, `generator.dfy` and `period.dfy` the state
  machine of draws, its runs, what the outputs reveal, equidistribution and periodicity; `seeding.dfy` and
  `keyseeding.dfy` the two deterministic seedings and which keys give which arrays; `draws.dfy` the bounded and the
  53-bit draws. `mtrand.dfy` is the class as it runs: an array of `unsigned long` overwritten in place, a cursor and a
  counter, every method tied to those definitions, and `runs.dfy` runs it. `words.dfy`, `cwords.dfy` and `machine.dfy` are the machine
  arithmetic, for a 32-bit and for a 64-bit `unsigned long`.
- **Finite state machines** (`cfsm.h`), `fsm.dfy`: case labels, the loop hidden in `FSM_Switch`, and its meaning in rounds
  of one Exit and one Enter body, for arbitrary user code (a function on the state code and on everything else).
- **Fingerprints** (`chasher.h`), `hasher.dfy`: the rotate-and-xor hash, its closed form, collisions and portability.
- **Cached iterators** (`cstlwatch.h`), `watcher.dfy`: `at(i)` of the list, set and map watchers, one algorithm.
- **String order** (`cstringpool.h`), `stringpool.dfy`: the comparator of the string pool.

How it is put together:

- A word is an `unsigned long` held in a `bv64`; on ILP32 each result is cut to 32 bits. The contracts of `MTRand` speak of
  32-bit words only and never of the platform, so the same calls give the same outputs on both, over every run
  (`SameRunFromWord`, `SameRunFromKey`). That covers the unmasked products and the underflow of `state[i] -= i`.
- The ghost field `words` is the 32-bit content of `state`; `Holds` says the array stores exactly that, so every stored
  word is below 2^32.
- `SameState(a, b)` compares the 19937 effective bits: the top bit of word 0 and all of words 1 to 623.
- `Tape(key, t)` is the word written in round t of the first seeding loop; it depends on the word written just before and
  on the one written N - 1 rounds earlier.
- The two loops of key seeding are separate methods here (`FirstPass`, `SecondPass`), with the store and the wrap-around
  they share in `Store`.
- What the main definitions mean is also stated in the source's own constants, apart from the definitions: `TermInLiterals`
  and `ImpulseResponse` for the recurrence, `InitUnwinds`, `RoundUnwinds` and `KeyArrayLayout` for the seedings,
  `NegativeIsSigned`, `ExtensionKeepsSigned` and `LessByDifference`, with known words of the published generator.
- An error raised by `opp_error` ends the run with an abnormal outcome.

Where the code and its comments differ, the code is followed:

- `mersennetwister.h:229-232` says that key seeding gives access to all 2^19937 - 1 initial states. It does not: word 0 is
  forced to 0x80000000, so no key starts outside one half of the effective states, and keys of 624 words or more start
  in exactly that half (`StartableExactly`, `StartableAtAllExactly`, `UnreachableState`).
- `cfsm.h:33-37` says that an infinite loop is assumed after FSM_MAXT = 64 transitions without a steady state. The error
  comes right after the 64th Exit body, before the state it led to is looked at: it is raised also when that transition
  has reached a steady state. What decides is the first 63 rounds (`OutcomesExactly`).

What the proofs show beyond the comments:

- A key of 623 words never determines the array uniquely, and never gives all arrays; below that key seeding is injective,
  above it onto (`InjectiveExactly`, `OntoExactly`).

## Model

| member | source | states |
|---|---|---|
| Recurrence.WindowX | Hiwis/src/include/mersennetwister.h:304-317 | The sequence restarted from any N consecutive terms continues as the original one |
| Recurrence.TimesAThenBack | Hiwis/src/include/mersennetwister.h:134-135 | The twist map can be undone, because the top bit of 0x9908b0df shows whether the constant was added |
| Recurrence.StepThenBack | Hiwis/src/include/mersennetwister.h:304-317 | Undoing a step gives back exactly the effective bits of the array before it |
| Recurrence.BackThenStep | Hiwis/src/include/mersennetwister.h:304-317 | Every array has a predecessor, up to the bits that never matter |
| Recurrence.TransitionInjective | Hiwis/src/include/mersennetwister.h:304-317 | After any number of steps two arrays agree on the 19937 effective bits if and only if they did before |
| Recurrence.TransitionBijective | Hiwis/src/include/mersennetwister.h:304-317 | Over any number of steps every effective state is reached from exactly one, given explicitly |
| Recurrence.SameStateSameSequence | Hiwis/src/include/mersennetwister.h:304-317 | Equal effective states give equal terms for ever: the lower bits of word 0 never matter |
| Recurrence.ZeroIsolated | Hiwis/src/include/mersennetwister.h:257 | The all-zero state is reached after any number of steps only from itself |
| Recurrence.RecurrenceLinear | Hiwis/src/include/mersennetwister.h:134-135 | The recurrence is linear over GF(2) at every term |
| Recurrence.TermInLiterals | Hiwis/src/include/mersennetwister.h:304-317 | Each term is the word 397 places on, xor the top bit of the word 624 places back, xor the lower bits of the word after that with the constant if they are odd |
| Recurrence.ImpulseResponse | Hiwis/src/include/mersennetwister.h:129-135 | A single nonzero word among 624 reaches the next term exactly from places 397, 0 and 1, with the stated bits; by linearity this fixes every term |
| Tempering.TemperBijective | Hiwis/src/include/mersennetwister.h:190-195 | The four tempering steps are a bijection on 32-bit words, with an explicit inverse |
| Tempering.TemperInLiterals | Hiwis/src/include/mersennetwister.h:192-195 | The steps shift by 11, 7, 15 and 18 with the masks 0x9d2c5680 and 0xefc60000, in this order |
| Tempering.RightIs | Hiwis/src/include/mersennetwister.h:192-192 | A step to the right adds in the word shifted by k |
| Tempering.LeftIs | Hiwis/src/include/mersennetwister.h:193-194 | A step to the left adds in the shifted word, masked after the shift |
| Generators.DrawTakesHead | Hiwis/src/include/mersennetwister.h:182-196 | One draw hands out the first element of the infinite future and leaves the rest of it, also across a reload |
| Generators.RunIsStream | Hiwis/src/include/mersennetwister.h:182-196 | Any number of draws yields the tempered recurrence in order, across any number of reloads; 0 <= left <= N throughout |
| Generators.SeededRun | Hiwis/src/include/mersennetwister.h:218-223 | After a seeding, output t is the tempered term N + t |
| Generators.KnownOutputs | Hiwis/src/include/mersennetwister.h:182-196 | From the array words of seed 5489 the first two outputs are the published 3499211612 and 581869302 |
| Generators.RunPosition | Hiwis/src/include/mersennetwister.h:187-191 | After n draws the array is a whole number of blocks further and the cursor accounts for the remainder |
| Generators.RunNeverZero | Hiwis/src/include/mersennetwister.h:257 | No run of any length from a nonzero effective state reaches the all-zero one |
| Generators.OutputsDetermineStream | Hiwis/src/include/mersennetwister.h:94-96 | Agreement on any N consecutive outputs means the same effective state and agreement on every output, before and after |
| Generators.OutputsPredict | Hiwis/src/include/mersennetwister.h:94-96 | Every output is computed from three of the N outputs before it, for every generator |
| Generators.SameFutureExactly | Hiwis/src/include/mersennetwister.h:182-196 | Two generators have the same future if and only if they are in the same effective state |
| Generators.OutputsDetermineArray | Hiwis/src/include/mersennetwister.h:94-96 | At a reload boundary N equal outputs mean equal arrays |
| Generators.Equidistributed | Hiwis/src/include/mersennetwister.h:6-9 | Any 623 consecutive outputs, anywhere in the stream, come from exactly one effective state for each value of the one free bit |
| Generators.SaveLoadRoundTrip | Hiwis/src/include/mersennetwister.h:346-364 | Loading a saved array restores array and position, for every position, hence every later run |
| Generators.SaveLayout | Hiwis/src/include/mersennetwister.h:346-353 | The image is the 624 words in order, then the number of words left |
| Period.StateRecurs | Hiwis/src/include/mersennetwister.h:6-9 | Every nonzero effective state returns to itself after at most 2^19937 - 1 steps |
| Period.PeriodExactly | Hiwis/src/include/mersennetwister.h:6-9 | The outputs of a seeded generator repeat with a period if and only if its effective state does |
| Period.StreamPeriodic | Hiwis/src/include/mersennetwister.h:6-9 | The output stream of every seeded generator repeats from its first output on, with a period of at most 2^19937 - 1 |
| Period.StatesArePower | Hiwis/src/include/mersennetwister.h:6-9 | The number of effective states is 2^19937 |
| Seeding.InitNonzero | Hiwis/src/include/mersennetwister.h:286-301 | No seed word fills the array with the all-zero effective state |
| Seeding.InitInjective | Hiwis/src/include/mersennetwister.h:286-301 | Two seed words start from the same effective state if and only if they are equal |
| Seeding.InitUnwinds | Hiwis/src/include/mersennetwister.h:286-301 | Word 0 is the seed, and word i gives word i - 1 by the inverse of the multiplier, with i itself as the summand |
| Seeding.GrowIs | Hiwis/src/include/mersennetwister.h:298-298 | A word is 1812433253 times the word before it, xored with its own upper two bits, plus the index |
| Seeding.KnownFills | Hiwis/src/include/mersennetwister.h:286-301 | The first words for seed 5489 and for the 19650218 of key seeding |
| Seeding.SlotsOnce | Hiwis/src/include/mersennetwister.h:248-256 | The second loop writes each slot 1 to N - 1 in exactly one round, wherever it starts |
| Seeding.SecondPassInjective | Hiwis/src/include/mersennetwister.h:248-256 | The second loop can be undone from the words it wrote, wherever it starts |
| Seeding.FinishBijective | Hiwis/src/include/mersennetwister.h:248-257 | The second loop is a bijection between the words it starts from and slots 1 to N - 1 |
| Seeding.SlotIsModulo | Hiwis/src/include/mersennetwister.h:248-256 | Slots follow each other in a circle of 623 |
| Seeding.SecondUnwinds | Hiwis/src/include/mersennetwister.h:250-253 | A written word plus its slot number, xor the mixed preceding word, is the word that was there |
| Seeding.KeyArrayLayout | Hiwis/src/include/mersennetwister.h:235-257 | Word 0 is 0x80000000; the first loop has max(624, length) rounds and the second starts in the slot after its last one |
| Seeding.ShareFromTape | Hiwis/src/include/mersennetwister.h:240-243 | A round that writes, overwrites and follows the same words has used the same key word |
| Seeding.RoundUnwinds | Hiwis/src/include/mersennetwister.h:238-247 | A written word minus its key word and index, xor the mixed preceding word, is the overwritten word, the first lap of which comes from seed 19650218 |
| Seeding.MixesInLiterals | Hiwis/src/include/mersennetwister.h:241-251 | The multipliers of the two loops are 1664525 and 1566083941 |
| Seeding.KnownRounds | Hiwis/src/include/mersennetwister.h:235-247 | The first two words written for the key 0x123, 0x234, 0x345, 0x456 |
| KeySeeding.ShortKeysInjective | Hiwis/src/include/mersennetwister.h:226-259 | Different keys of the same length up to 622 words give different arrays |
| KeySeeding.TwinCollides | Hiwis/src/include/mersennetwister.h:226-259 | Every key of 623 words has a different twin with the same array |
| KeySeeding.MissedByAll | Hiwis/src/include/mersennetwister.h:226-259 | Below 624 words there is an array, with word 0 as forced, that no key of that length gives |
| KeySeeding.LongKeyFibre | Hiwis/src/include/mersennetwister.h:226-259 | From 624 words on: for each choice of the leading words and each array there is exactly one key |
| KeySeeding.InjectiveExactly | Hiwis/src/include/mersennetwister.h:226-259 | Key seeding is injective at a length if and only if it is at most 622 |
| KeySeeding.OntoExactly | Hiwis/src/include/mersennetwister.h:226-259 | Key seeding reaches every array with word 0 as forced if and only if the length is at least 624 |
| KeySeeding.StartableExactly | Hiwis/src/include/mersennetwister.h:229-259 | With 624 words or more, the states that seeding can start from are exactly those whose predecessor has its top bit set |
| KeySeeding.StartableAtAllExactly | Hiwis/src/include/mersennetwister.h:229-232 | Some key of some length starts from a state if and only if its predecessor has its top bit set |
| KeySeeding.UnreachableState | Hiwis/src/include/mersennetwister.h:229-232 | A nonzero state that no key of any length starts from, against the comment |
| KeySeeding.WordSeedingNeverZero | Hiwis/src/include/mersennetwister.h:218-223 | No run after one-word seeding reaches the all-zero state |
| KeySeeding.KeySeedingNeverZero | Hiwis/src/include/mersennetwister.h:257-258 | No run after key seeding reaches the all-zero state |
| KeySeeding.SeedFromOutputs | Hiwis/src/include/mersennetwister.h:218-223 | Two seed words whose generators agree on any N consecutive outputs are equal |
| KeySeeding.KeyFromOutputs | Hiwis/src/include/mersennetwister.h:226-259 | Two keys of the same length up to 622 whose generators agree on any N consecutive outputs are equal |
| Machine.TwistIsNext | Hiwis/src/include/mersennetwister.h:129-135 | On either platform the branch-free twist of stored words is one application of the recurrence |
| Machine.TemperWide | Hiwis/src/include/mersennetwister.h:190-195 | On either platform the unmasked shifts give the 32-bit tempered word |
| Machine.GrowWide | Hiwis/src/include/mersennetwister.h:298 | On either platform the masked product is the 32-bit one |
| Machine.FirstPassWide | Hiwis/src/include/mersennetwister.h:240-243 | On either platform a round of the first loop writes the 32-bit result, and the key word above 32 bits is ignored |
| Machine.SecondPassWide | Hiwis/src/include/mersennetwister.h:250-253 | On either platform a round of the second loop writes the 32-bit result, despite the underflow |
| Machine.SmearWide | Hiwis/src/include/mersennetwister.h:202-207 | On either platform the five assignments compute the 32-bit mask |
| MersenneTwister.ReloadRound | Hiwis/src/include/mersennetwister.h:304-314 | Each round of the in-place reload writes the next term although cells it reads may be new |
| MersenneTwister.FirstPassCovers | Hiwis/src/include/mersennetwister.h:235-247 | On the caller's array: round r of the first loop adds r and the low half of `bigSeed[r]`, and some round writes the tape's word into slot s, for every r below the length and every s from 1 on |
| MersenneTwister.KeyOfWords | Hiwis/src/include/mersennetwister.h:242-242 | Key word r is `bigSeed[r] & 0xffffffff`, for every r |
| MersenneTwister.StageRound | Hiwis/src/include/mersennetwister.h:238-247 | Each round of the first loop overwrites and follows the words that the tape says |
| MersenneTwister.PassesMeet | Hiwis/src/include/mersennetwister.h:245-255 | The first loop leaves, read from the cursor on, its last N - 1 words, which the second loop starts from |
| MersenneTwister.MTRand.FromWord | Hiwis/src/include/mersennetwister.h:140-141 | Construction seeds from the low 32 bits of the word |
| MersenneTwister.MTRand.FromKey | Hiwis/src/include/mersennetwister.h:143-144 | Construction seeds from the key |
| MersenneTwister.MTRand.Initialize | Hiwis/src/include/mersennetwister.h:286-301 | The array is filled as the 32-bit definition says |
| MersenneTwister.MTRand.SeedWord | Hiwis/src/include/mersennetwister.h:218-223 | The generator is the seeded one of the 32-bit state machine |
| MersenneTwister.MTRand.SeedKey | Hiwis/src/include/mersennetwister.h:226-259 | For every key length from 1 on the generator is seeded from the array that the two passes define |
| MersenneTwister.MTRand.FirstPass | Hiwis/src/include/mersennetwister.h:235-247 | max(N, length) rounds stay in bounds and leave the array that the tape defines |
| MersenneTwister.MTRand.SecondPass | Hiwis/src/include/mersennetwister.h:248-256 | N - 1 rounds from any slot leave the array that the second pass defines |
| MersenneTwister.MTRand.Reload | Hiwis/src/include/mersennetwister.h:304-317 | The in-place reload leaves exactly the next N terms, the cursor at 0 and left = N |
| MersenneTwister.MTRand.RandInt | Hiwis/src/include/mersennetwister.h:182-196 | The output and the new state are those of one draw; the cursor stays at N - left |
| MersenneTwister.MTRand.RandIntUpTo | Hiwis/src/include/mersennetwister.h:198-215 | The result is in [0, n]: it is the first masked output that is at most n, and exactly the outputs up to it are used |
| MersenneTwister.MTRand.FirstAccepted | Hiwis/src/include/mersennetwister.h:200-214 | The mask and the rejection loop return the first accepted output |
| MersenneTwister.MTRand.Rand53 | Hiwis/src/include/mersennetwister.h:167-171 | In exact arithmetic the result is the numerator of two outputs over 2^53, and lies in [0, 1) |
| MersenneTwister.MTRand.Save | Hiwis/src/include/mersennetwister.h:346-353 | The array written is the image of the generator |
| MersenneTwister.MTRand.Load | Hiwis/src/include/mersennetwister.h:356-364 | The generator becomes the one of the image, cursor included |
| Runs.RandInts | Hiwis/src/include/mersennetwister.h:182-196 | n calls return the first n elements of the generator's future, in order |
| Runs.SameRunFromWord | Hiwis/src/include/mersennetwister.h:74-74 | With the same seed word a 32-bit and a 64-bit generator return the same outputs, those of the recurrence, in a run of any length |
| Runs.SameRunFromKey | Hiwis/src/include/mersennetwister.h:74-74 | The same for a key of any admitted length |
| Runs.CopyBySaving | Hiwis/src/include/mersennetwister.h:346-364 | A generator loaded from what another one saved returns what that one would, in a run of any length, and the saved one is unchanged |
| Draws.SmearLeast | Hiwis/src/include/mersennetwister.h:200-207 | The mask is the least 2^b - 1 not below n, and half of it is below n unless n = 0 |
| Draws.SmearInLiterals | Hiwis/src/include/mersennetwister.h:202-207 | The mask is of the form 2^b - 1, not below n, and its half is below n unless n = 0 |
| Draws.MaskAcceptsAll | Hiwis/src/include/mersennetwister.h:209-214 | For n = 2^b - 1, zero included, every output is accepted, so one draw is enough |
| Draws.MaskedInLiterals | Hiwis/src/include/mersennetwister.h:212-212 | What is compared with n is the output and the mask |
| Draws.EquallyLikely | Hiwis/src/include/mersennetwister.h:209-214 | Any two values up to n are masked out of equally many words, by an explicit one-to-one exchange |
| Draws.PairsPerInteger | Hiwis/src/include/mersennetwister.h:167-171 | Every integer below 2^53 and no other is a numerator, from exactly one pair of words per choice of the 11 discarded bits |
| Draws.NumeratorInLiterals | Hiwis/src/include/mersennetwister.h:167-171 | The numerator is the first word divided by 32, times 67108864, plus the second divided by 64 |
| FiniteStateMachine.LabelIsSwitchValue | Hiwis/src/include/cfsm.h:95-153 | For every state code, negative ones included, the label of a case is the value switched on |
| FiniteStateMachine.LabelsDistinct | Hiwis/src/include/cfsm.h:134-153 | A label matches if and only if the phase and the code, its top bit aside, do |
| FiniteStateMachine.SwitchValueIs | Hiwis/src/include/cfsm.h:95-95 | The value switched on is the doubled code, with the low bit set for Exit |
| FiniteStateMachine.NegativeIsSigned | Hiwis/src/include/cfsm.h:278-278 | A code is transient if and only if its signed value is negative |
| FiniteStateMachine.DeclaredKinds | Hiwis/src/include/cfsm.h:116-125 | FSM_Transient(k) is transient and FSM_Steady(k) steady for 1 <= k < 2^31, and 0 is steady |
| FiniteStateMachine.InRangeIsSigned | Hiwis/src/include/cfsm.h:134-134 | Doubling keeps the sign if and only if the signed value is from -2^30 to 2^30 - 1 |
| FiniteStateMachine.SwitchRunsDeclared | Hiwis/src/include/cfsm.h:95-153 | The switch runs exactly the block declared for the current state and phase, or none |
| FiniteStateMachine.RoundsRunDeclared | Hiwis/src/include/cfsm.h:80-153 | If no block stores a code out of range, every body of every round is the block declared for the state and the phase |
| FiniteStateMachine.LoopRound | Hiwis/src/include/cfsm.h:88-95 | Two passes of the for-loop are one Exit and one Enter body with the state-change check after them |
| FiniteStateMachine.RunBound | Hiwis/src/include/cfsm.h:37-95 | The first of 63 rounds that ends steady or changes the state in Enter decides and nothing runs after it; else the infinite-loop error after 127 bodies |
| FiniteStateMachine.OutcomesExactly | Hiwis/src/include/cfsm.h:37-95 | Exactly when each of the three outcomes occurs, in signed values and with the limits 63 and 127 written out, and the configuration and number of bodies that it leaves |
| FiniteStateMachine.BodiesAlternate | Hiwis/src/include/cfsm.h:80-95 | Exit first, then strictly by turns, each body in the state that the one before it left |
| FiniteStateMachine.QuietEnter | Hiwis/src/include/cfsm.h:84-95 | If Enter code never changes the state the state-change error is not raised |
| FiniteStateMachine.FsmSwitch | Hiwis/src/include/cfsm.h:88-95 | The loop as it runs has the outcome, final state and bodies of the recursive definition |
| Hasher.HashClosedForm | Hiwis/src/include/chasher.h:44-53 | The hash is the rotated start value xor every word rotated by the number of words after it |
| Hasher.RotIsRotation | Hiwis/src/include/chasher.h:44-48 | Any number of one-bit rotations is one true rotation by that number modulo 32 |
| Hasher.HashConcat | Hiwis/src/include/chasher.h:44-53 | Hashing a concatenation is hashing its parts one after the other |
| Hasher.HashInjective | Hiwis/src/include/chasher.h:44-48 | Whatever is merged later, hashes from two values are equal if and only if the values are |
| Hasher.OneWordMatters | Hiwis/src/include/chasher.h:44-53 | Sequences that differ in exactly one word have different hashes |
| Hasher.TwoChangesCancelExactly | Hiwis/src/include/chasher.h:44-53 | Changes of two words leave the hash as it was if and only if the second is the first one rotated by their distance |
| Hasher.CollisionExactly | Hiwis/src/include/chasher.h:44-53 | Sequences of equal length collide if and only if the mixture of their differences is zero |
| Hasher.FingerprintPortable | Hiwis/src/include/chasher.h:34-36 | Runs whose longs are from -2^31 to 2^31 - 1, and unsigned longs below 2^32, have the same hash on 32-bit and 64-bit platforms |
| Hasher.ExtensionKeepsSigned | Hiwis/src/include/chasher.h:69-69 | Widening a long keeps its signed value |
| Hasher.WidenedAlike | Hiwis/src/include/chasher.h:65-74 | Both platforms widen a long to the same 64 bits if and only if its value, signed or unsigned as declared, fits in 32 |
| Hasher.WordsInLiterals | Hiwis/src/include/chasher.h:50-74 | The words merged, lower half first, in literals, for every kind of argument |
| Hasher.MergeInLiterals | Hiwis/src/include/chasher.h:44-48 | One merge is the value rotated left by one bit, xor the word |
| Hasher.UnfitItemShows | Hiwis/src/include/chasher.h:65-74 | With a single long in question the hashes agree if and only if it fits |
| Hasher.Fingerprint.Reset | Hiwis/src/include/chasher.h:63-63 | The hash starts again from zero |
| Hasher.Fingerprint.Merge | Hiwis/src/include/chasher.h:44-48 | One merge extends the hashed sequence by the word |
| Hasher.Fingerprint.Merge2 | Hiwis/src/include/chasher.h:50-53 | A 64-bit value extends it by its lower and then its upper half |
| Hasher.Fingerprint.Add | Hiwis/src/include/chasher.h:65-74 | Each integer overload extends it by the words of the value, longs widened to 64 bits |
| Watchers.QueryAgrees | Hiwis/src/include/cstlwatch.h:117-134 | A query keeps the iterator at min(itPos, size) and agrees with indexing |
| Watchers.QueriesAgree | Hiwis/src/include/cstlwatch.h:117-134 | In any series of queries, in any order, each query for a position gets the element there or "out of bounds" |
| Watchers.ScanCost | Hiwis/src/include/cstlwatch.h:117-134 | A forward scan past the end takes one iterator step per element |
| Watchers.Watcher.At | Hiwis/src/include/cstlwatch.h:190-207 | The answer, the cache and the steps taken are those of the query; the iterator is never read before it is set |
| StringPool.StrictTotalOrder | Hiwis/src/include/cstringpool.h:38-44 | With signed or unsigned char the comparator is a strict total order: equal strings are the only incomparable ones |
| StringPool.LessByDifference | Hiwis/src/include/cstringpool.h:38-44 | The order by the first position where the strings differ: plain `char` if it is position 0, unsigned bytes after it |
| StringPool.AgreesWithStrcmpExactly | Hiwis/src/include/cstringpool.h:38-44 | It differs from the order of strcmp exactly where char is signed and the first characters lie on different sides of 128 |

## Left out

- MersenneTwister.MTRand.RandIntUpTo: the rejection loop ends only if an acceptable output lies ahead, which is a precondition, because no bound on the stream is known; n is below 2^32, as `mersennetwister.h:106` asks.
- MersenneTwister.MTRand.SeedKey: key lengths from 1 to 2^31 - 1, because length 0 reads outside the key and longer keys overflow the `int` loop counter.
- MersenneTwister.MTRand.Rand53: exact arithmetic, not IEEE doubles.
- FiniteStateMachine.SwitchRunsDeclared: state codes whose doubling keeps the sign; beyond them two codes share a label (`LabelsDistinct`).
- Hasher.UnfitItemShows: assumes that a 32-bit platform keeps the lower half of a value that does not fit.
- Watchers.Watcher.At: the queried position is an unbounded integer, so `itPos + 1` never overflows.
- Period.StateRecurs: an upper bound on the period, not its exact value 2^19937 - 1, which needs the primitivity of a polynomial of degree 19937 that the source only cites.
- Period.StreamPeriodic: the same upper bound.
- Generators.Equidistributed: counts over all effective states; over one period of the sequence only if the period has that exact value.
- `MTRand::seed()` without arguments and `hash`: /dev/urandom and clocks.
- `rand`, `randExc`, `randDblExc`, `randNorm` and the stream operators: floating-point scalings and text input and output.
- User code of a state machine that stores into the machine from outside its own blocks, debug printing and state names.
- `cHasher::add` for buffers, strings and doubles, `parse`, `equals` and `str`: bodies not part of this model.
- Conversion of `char` and `short` arguments to `uint32`: the hash model starts from the converted word.
- Changes to a watched container between calls, and the formatting of its elements.
- `cStringPool::get`, `peek` and `release`: only declared in the header.
- Left shifts of negative state codes are taken as in two's complement, as the header's own comment expects.
