# Verified models of six algorithms

Dafny models of the parts of this repository where a simple mathematical meaning is reached by a hard route, with proofs
that the meaning is reached for all inputs. `dafny verify dfyconfig.toml` checks the project.

| part | modules | meaning proved |
|---|---|---|
| double-array trie and its reader | `DoubleArray`, `TrieUpdates`, `TrieSearch`, `UnseenChild`, `TrieAppend`, `FixedMap`, `LostLine`, `NameTable` | a map from strings to insertion numbers; locating composes |
| magic multipliers | `MagicDivide` | exact division of every word by every divisor, for every width |
| shortest decimal digits | `Limbs`, `Bigint`, `RoundingInterval`, `DigitLoop`, `DecimalScale`, `ShortestDecimal`, `RoundWeed`, `Bcd`, `FloatText` | exact integers in limb vectors; the shortest and closest decimal that rounds back |
| tagged lock-free stack | `TaggedStack`, `StackRuns` | every interleaving refines last-in-first-out sequences, and every operation does what it was asked |
| word-parallel bit structures | `ZeroRange`, `PackedIndex`, `PlacementArray`, `CompressedArray` | the first run of zero bits; a bounded map in packed fields |
| text and stream codecs | `DecimalPrinter`, `IntegerParser`, `SpelledLiterals`, `TernaryTree`, `TernaryNodes`, `XxHash`, `XxHashAnswers` | numerals printed and read in three bases; a map with longest-prefix search; split-independent hashing with the known answers |

`Arith` holds facts on powers, products and quotients, `Wrappers` the option type.

How the models are built:

- What the source updates in place is a class here: the trie builder, limb vectors, the digit buffer, slot arrays, the
  tree nodes and the hasher. Loops are loops with invariants. Each method is proved against a value it represents: a map,
  a number, a sequence, a tree.
- The trie builder's methods are proved, on any arrays the code can be in, to leave exactly the table that `AppendedTo`
  of `TrieAppend` describes, with every write inside the arrays. What that means is proved about tables: `SearchAt` of
  `TrieSearch` is find as a function of any table, and the invariant `WellFormed` ties every used cell to the characters
  that lead to it, every leaf to the key that owns it, and every key to its leaf and its number. The maps it speaks of
  are ghost state (`Shape`).
- In `MagicDivide` the words wrap and the true quotients are ghost values beside them.
- `ShortestDecimal` works on limb vectors; `DigitLoop` says in integers, and `DecimalScale` and `RoundingInterval` in
  reals, what these vectors stand for. `FloatText.PrintShortest` puts the parts together.
- `TaggedStack` has one step per atomic load, next-read, next-write and compare-and-swap; the compare-and-swap may fail
  for no reason, and clients may write to nodes they own at any time, also while another thread still reads them. The
  abstract stacks remember what each thread was asked and what it answered.

What the proofs found in the code:

- `relocate` stops looking for children at code `char_cnt + char_off` (utils/nomenclate.cpp:166-168), one alphabet size
  plus an offset that is meant for characters, not for codes. With an offset below 1, which the program chooses when the
  smallest input byte is at most 2, children can be left behind. `UnseenChild.KeyKeptIff` says exactly for which keys
  find still answers right, `TrieAppend.AppendedStrands` says so of append in terms of the table before it, and
  `LostLine.ThirdLineLosesFirst` derives, from append alone, three lines whose third loses the first. The program's
  final check reports such a table.
- `find` takes the root for its own child on a character whose code is minus the base of the root. Such a character is
  outside the alphabet; `FixedMap.Builder.Find` states what is then looked up. The generated reader checks the alphabet
  first and has no such case.
- A line given twice keeps its first number, and the final validation fails.
- A single `0` is accepted by the integer parsers without being consumed, and a `0` followed by a character that
  starts no prefix is refused. Binary literals are always refused, since the digit test is a disjunction of two
  inequalities that cannot both be false.
- A counted hash update with no bytes on a stripe boundary mixes the stale buffer into the state.
- `compressed_array::emplace` leaks a slot when the value predicate rejects the new value.
- `round_weed` compares with `unsafe_range - 4 * scale`, which wraps when `4 * scale` is larger; the upper margin is
  kept exactly otherwise (`RoundWeed.BetweenIff`, `RoundWeed.AcceptedInNarrowRange`). The input of the latter is one the
  function allows; the printer, its only caller, scales the unsafe range and `scale` together by ten, so it does not
  arise there.
- `find_zero_range_first` started inside a word counts zeros before its start: `ZeroRange.RightIff` says when that shows.
  Started inside the last, partial word, the short search reads a word past the end when it finds nothing there.
- `generate_mul` is right for every width from two bits on, and for one bit it is not. In full-width words its shift is
  the shortest one for every divisor but 2^(W-1) + 1, for which a wrapped quotient makes the loop run on
  (`MagicDivide.GenerateMul`).
- `push` reads the link of its node after the node is in the stack, so its answer can be wrong when the node has been
  removed by then (`StackRuns.PushLands`, `StackRuns.LateAnswer`).
- The zero-stripping loops of `multiply` and `subtract_scaled` read the last limb of an emptied vector when the result
  is zero; the model stops at one limb.
- The digits of a subnormal number can start with zeros.

## Model

| member | source | states |
|---|---|---|
| `FixedMap.Build` | utils/nomenclate.cpp:656-674 | for every offset: the final check passes exactly when each line is found under its number in the table the appends have made, so never when a line is lost or comes twice; if no append strands a key, and with an offset of at least 1 none does, every distinct line is a key and nothing else, the check passes exactly when no line comes twice, and then line i has number i + 1 |
| `FixedMap.StoreAll` | utils/nomenclate.cpp:658-659 | the arrays run through exactly the tables that appending the lines one by one gives |
| `FixedMap.CheckAll` | utils/nomenclate.cpp:661-674 | whether each line is found under its number |
| `FixedMap.Builder.Append` | utils/nomenclate.cpp:269-322 | on any arrays the code can be in, the exact table that results, in all four cases, with every write and every tail access inside the arrays; on a well-formed table that the append strands nothing in, a new key gets the next number, every other keeps its own, and a key already there changes nothing |
| `FixedMap.Builder.Find` | utils/nomenclate.cpp:324-361 | for any arrays and any string what a search of the table gives; on a well-formed table that is the number of the string or 0, also for strings with the terminator or with characters outside the alphabet, which can make the root pass for its own child |
| `FixedMap.Builder.Relocate` | utils/nomenclate.cpp:151-212 | cell by cell, the table afterwards: seen children moved, their old cells vacated, grandchildren told of the new parent, the new leaf hung at the new base, which is the least one free for all of them |
| `FixedMap.Builder.ChildCodes` | utils/nomenclate.cpp:156-176 | the scan collects, in rising order, exactly the codes of the children it can see, and the new code |
| `FixedMap.Builder.ScanChildren` | utils/nomenclate.cpp:159-173 | one of its two loops adds exactly the codes it can see in its range |
| `FixedMap.Builder.MoveChildren` | utils/nomenclate.cpp:184-209 | moving the children one at a time is moving the set of them at once, wherever old and new places interleave |
| `FixedMap.Builder.FindRoom` | utils/nomenclate.cpp:156-175 | the codes to move and the least base that is free for them |
| `FixedMap.Builder.GetVacant` | utils/nomenclate.cpp:113-122 | the first vacant cell from a position on; the array only grows |
| `FixedMap.Builder.GetVacantSet` | utils/nomenclate.cpp:124-141 | the least base under which every code of the set falls on a vacant cell; every smaller base is blocked; the search ends |
| `FixedMap.Builder.UpdateChildren` | utils/nomenclate.cpp:143-149 | exactly the cells above the base whose parent was the old position name the new one |
| `FixedMap.Builder.AppendLeaf` | utils/nomenclate.cpp:80-94 | a new tail entry holding the rest of the key behind the old text |
| `FixedMap.Builder.CommonLength` | utils/nomenclate.cpp:97-111 | the length of the longest common prefix of the tail and the rest of the key |
| `FixedMap.Builder.FindPair` | utils/nomenclate.cpp:232-254 | the least base under which both characters of a split fall on vacant cells |
| `FixedMap.Builder.PushDown` | utils/nomenclate.cpp:221-230 | one turn of the unrolling loop: the leaf and all but the first character of its entry are in the least vacant cell for that character |
| `FixedMap.Builder.SplitHere` | utils/nomenclate.cpp:232-266 | both leaves stand under the least base free for both characters |
| `FixedMap.Builder.UnrollSuffix` | utils/nomenclate.cpp:214-267 | as many hand-downs as characters are shared, then the split |
| `FixedMap.Builder.InsertAtLeaf` | utils/nomenclate.cpp:291-307 | the leaf is unrolled for exactly the characters its tail shares with the rest of the key |
| `FixedMap.Builder.Place` | utils/nomenclate.cpp:280-290 | the new leaf is in its slot: at once when that is vacant, after a relocation otherwise |
| `FixedMap.Builder.CompactTails` | utils/nomenclate.cpp:363-376 | every tail entry spells what it spelled, so every search answers as before; the entries fill the new buffer in order without gaps |
| `FixedMap.AlphabetForFits` | utils/nomenclate.cpp:642-654 | the alphabet chosen from the bytes of the input has codes for exactly these bytes and the terminator next to them, so every line is legal; its offset is at least 1 exactly when the smallest byte is at least 3 |
| `FixedMap.SameSearch` | utils/nomenclate.cpp:363-376 | tables with the same cells and entries of the same texts answer alike |
| `TrieAppend.AppendedKeeps` | utils/nomenclate.cpp:269-322 | on a well-formed table an append that strands nothing keeps the invariant and stores exactly the one string, under the next number |
| `TrieAppend.AppendedStrands` | utils/nomenclate.cpp:151-322 | an append strands keys only with an offset below 1; it then stores its own string, find fails for at least one stored key, and it answers right for exactly those keys whose way leads through no child the scan misses, a condition on the table before |
| `TrieAppend.StopFacts` | utils/nomenclate.cpp:276-312 | the walk of append stops at an internal cell on the way to the string, at a leaf or at a slot that is no child |
| `TrieAppend.PlacedKeeps` | utils/nomenclate.cpp:280-290 | hanging a leaf, after a relocation that sees every child if the slot is in use, stores exactly one more key |
| `TrieAppend.JoinedKeeps` | utils/nomenclate.cpp:291-307 | joining a leaf stores the string unless it is the leaf's own |
| `TrieAppend.ChainKeeps` | utils/nomenclate.cpp:221-230 | any number of hand-downs keeps the stored map and shortens the shared part by as many |
| `TrieAppend.PushedKeeps` | utils/nomenclate.cpp:221-230 | one hand-down does |
| `TrieAppend.SplitAtKeeps` | utils/nomenclate.cpp:232-266 | the split at the end of the shared part stores exactly the new string, and nothing when it is the same |
| `TrieAppend.PushedSound` | utils/nomenclate.cpp:221-230 | a hand-down leaves no leaf without entry and no cell that is its own parent, on any table |
| `TrieAppend.SplitSound` | utils/nomenclate.cpp:232-266 | nor does a split |
| `TrieAppend.PlacedSound` | utils/nomenclate.cpp:151-212 | nor does a new leaf, with or without a relocation, even one that strands keys |
| `DoubleArray.PathInjective` | utils/nomenclate.cpp:324-361 | no two cells are reached by the same characters |
| `DoubleArray.LeafEndsPath` | utils/nomenclate.cpp:269-322 | no cell is reached through a leaf |
| `DoubleArray.NoChildNoKey` | utils/nomenclate.cpp:324-361 | a missing child on the way to a string means the string is not stored, stored prefixes and extensions notwithstanding |
| `DoubleArray.LeafDecides` | utils/nomenclate.cpp:336-348 | at a leaf on the way to a string, the string is stored exactly if the tail is the rest of it, and the leaf names its number |
| `DoubleArray.ExtendKeeps` | utils/nomenclate.cpp:113-122 | growing the array with vacant cells keeps the whole invariant |
| `DoubleArray.AddLeafKeeps` | utils/nomenclate.cpp:269-322 | hanging a leaf on a vacant slot keeps the invariant and stores exactly one more key |
| `DoubleArray.PushDownKeeps` | utils/nomenclate.cpp:221-230 | pushing a leaf down keeps the invariant and the stored map |
| `DoubleArray.RelocateKeeps` | utils/nomenclate.cpp:184-209 | moving all children of a cell to a free base keeps the invariant and the stored map: only positions are renamed, and every parent link follows |
| `TrieUpdates.SplitKeeps` | utils/nomenclate.cpp:232-266 | both leaves of a split stand on the paths of their keys; the stored map grows by the new key only |
| `TrieUpdates.RelocationMoves` | utils/nomenclate.cpp:151-212 | when the scan sees every child, the table apart from the new leaf is the old one with exactly the children moved |
| `TrieUpdates.RelocationKeeps` | utils/nomenclate.cpp:151-212 | then the invariant holds with exactly one more key |
| `TrieUpdates.MoveStep` | utils/nomenclate.cpp:184-209 | one turn of the moving loop, followed cell by cell |
| `TrieUpdates.HandedDown` | utils/nomenclate.cpp:221-230 | one turn of the unrolling loop shortens the shared part by one and keeps what the split needs |
| `TrieUpdates.ScanFacts` | utils/nomenclate.cpp:156-176 | which children the scan limit of lines 166-168 lets it see |
| `TrieSearch.SearchIsAnswer` | utils/nomenclate.cpp:324-361 | on a well-formed table the search answers every string with its number or 0; strings with the terminator and characters that lead from the root to the root included |
| `TrieSearch.SearchIsLookup` | utils/nomenclate.cpp:324-361 | over the alphabet it is a look-up in the stored map |
| `TrieSearch.AnswerBelow` | utils/nomenclate.cpp:331-360 | from any cell on the way to a string the search ends with the answer for the string |
| `TrieSearch.NoChildNoAnswer` | utils/nomenclate.cpp:331-335 | where no child is found, answering 0 is right |
| `TrieSearch.LeafAnswers` | utils/nomenclate.cpp:336-348 | comparing with the tail of a leaf gives the number of the string or 0 |
| `TrieSearch.WholeKey` | utils/nomenclate.cpp:354-360 | the terminator child at the end of the string names the number of the string |
| `TrieSearch.WellFormedFinds` | utils/nomenclate.cpp:661-674 | every key of a well-formed table is found under its number |
| `UnseenChild.KeyKeptIff` | utils/nomenclate.cpp:151-212 | after a relocation a stored key is found under its number if and only if no child that the scan misses is on its way; stated about what find answers |
| `UnseenChild.RelocationRightIff` | utils/nomenclate.cpp:151-212 | after a relocation every stored key is found under its number if and only if the scan sees every child of the parent |
| `UnseenChild.MissedKeyIsLost` | utils/nomenclate.cpp:166-209 | for a key below a missed child find no longer answers with its number, whatever the new base |
| `UnseenChild.KeptBelow` | utils/nomenclate.cpp:177-209 | from any cell on the way to a key that no missed child is on, the search in the new table still ends at its leaf |
| `UnseenChild.NewKeyFound` | utils/nomenclate.cpp:192-194 | the new key is found under its number, whatever happens to the others |
| `UnseenChild.ChildFollows` | utils/nomenclate.cpp:177-211 | a child that is not left behind is found from where its parent is now |
| `UnseenChild.StrayAnswer` | utils/nomenclate.cpp:166-209 | a search that gets below a missed child finds the number of some key from there, or nothing |
| `UnseenChild.OtherChild` | utils/nomenclate.cpp:166-211 | under the new base the code of a missed child leads to nothing, or to another missed child |
| `UnseenChild.OffsetSees` | utils/nomenclate.cpp:166-168 | an offset of at least 1 lets the scan see every child |
| `LostLine.ThirdLineLosesFirst` | utils/nomenclate.cpp:642-674 | three different lines over the bytes 1 and 2, in the alphabet the program takes: after any run of append on them find answers 0 for the first, which it found before the third, and the final check rejects the table |
| `LostLine.SecondLine` | utils/nomenclate.cpp:214-267 | the table after the second of these lines |
| `LostLine.ThirdLine` | utils/nomenclate.cpp:151-212 | appending the third relocates one child of two and leaves the slot of the first line's terminator vacant |
| `NameTable.LocateRel` | utils/nomenclate_tmpl.hpp:41-88 | from the place of any text read so far, reading on succeeds exactly when the whole text starts a stored string, and gives the place of the whole text |
| `NameTable.StandsOnce` | utils/nomenclate_tmpl.hpp:41-88 | a text has one place, so locating in two pieces is locating the pieces together |
| `NameTable.PiecesLocateWhole` | utils/nomenclate_tmpl.hpp:41-88 | locating a text and from there another one answers what locating the two together answers; a failure on the way is final |
| `NameTable.FindRel` | utils/nomenclate_tmpl.hpp:90-111 | the number of the string that reading on completes, or 0 |
| `NameTable.ReadTail` | utils/nomenclate_tmpl.hpp:73-87 | compares the rest of the text with the tail from a position on |
| `NameTable.Find` | utils/nomenclate_tmpl.hpp:113-117 | the same answers as the builder gives, for any characters in the input and for any table, compacted or not |
| `NameTable.TailDecides` | utils/nomenclate_tmpl.hpp:73-87 | inside a tail, reading on succeeds exactly on what is left of the tail |
| `NameTable.StandsOnKey` | utils/nomenclate_tmpl.hpp:41-88 | every place is on the way to a stored string |
| `NameTable.LeafPrefix` | utils/nomenclate_tmpl.hpp:41-88 | past a leaf a text starts a stored string exactly if it is part of the one key there |
| `MagicDivide.GenerateMul` | holam/aux/magic_div.cpp:17-70 | for every nonzero divisor, with or without promotion, multiply, shift, add, shift divides every word exactly if and only if the words have 2 bits or more; then the multiplier, W-bit part and extra bit, is the power of two divided by d and rounded up, below 2^(W+1), and the shift is at most W; without promotion no multiplier at all divides with a shorter shift if and only if d is not 2^(W-1) + 1 |
| `MagicDivide.ApplyDivides` | holam/aux/magic_div.cpp:104-117 | the multiply-shift-add-shift sequence is a division by the multiplier with its extra bit |
| `MagicDivide.SmallExcess` | holam/aux/magic_div.cpp:17-70 | the criterion of Hacker's Delight: a multiplier whose excess delta keeps nc * delta below 2^p divides every word exactly |
| `MagicDivide.InitialBound` | holam/aux/magic_div.cpp:24-28 | the bound nc is at least the last word that leaves remainder d - 1, in the promoted and in the wide computation |
| `MagicDivide.InitialQuotients` | holam/aux/magic_div.cpp:30-34 | quotients and remainders of 2^(W-1) by nc and of 2^(W-1) - 1 by d |
| `MagicDivide.Turn` | holam/aux/magic_div.cpp:39-59 | one turn doubles both true quotients, although the words may wrap, and records exactly when the true multiplier needs one bit more |
| `MagicDivide.LoopStep` | holam/aux/magic_div.cpp:37-61 | the arithmetic of that turn on wrapped words |
| `MagicDivide.AdjExact` | holam/aux/magic_div.cpp:47-57 | the overflow test on the wrapped second quotient is exact |
| `MagicDivide.GuardFails` | holam/aux/magic_div.cpp:60-65 | leaving the loop on the wrapped first quotient means the excess is small enough on the true one |
| `MagicDivide.StopsInTime` | holam/aux/magic_div.cpp:60-65 | with l bits in the divisor the first quotient has not wrapped at 2^(W+l) and the loop ends there |
| `MagicDivide.MultiplierFits` | holam/aux/magic_div.cpp:36-69 | the true multiplier is below 2^(W+1) |
| `MagicDivide.OneBitFails` | holam/aux/magic_div.cpp:17-70 | in words of one bit the loop runs on to 2^(2W), and the multiplier no longer fits: 1 divided by 1 comes out as 0 |
| `MagicDivide.Finish` | holam/aux/magic_div.cpp:60-69 | what the wrapped words are at the end divides exactly |
| `MagicDivide.Necessary` | holam/aux/magic_div.cpp:60-65 | the criterion is necessary: a multiplier that divides every word exceeds 2^p / d, and so little that the last word with remainder d - 1 does not notice |
| `MagicDivide.TooEarly` | holam/aux/magic_div.cpp:60-65 | as long as nc times the least excess is 2^p or more, no multiplier with that power divides |
| `MagicDivide.GuardHolds` | holam/aux/magic_div.cpp:60-65 | running on means that the power was too small, but for the one divisor whose first quotient has wrapped |
| `MagicDivide.QuotientWraps` | holam/aux/magic_div.cpp:37-45 | the first quotient can wrap before the last power for the divisor 2^(W-1) + 1 only, and only at the last power but one |
| `MagicDivide.OverrunGoesOn` | holam/aux/magic_div.cpp:60-65 | for that divisor the loop runs on to the last power |
| `MagicDivide.OverrunCouldStop` | holam/aux/magic_div.cpp:60-69 | although the power before has a multiplier that divides |
| `Limbs.BitSizeIsBitLen` | mina/mina/detail/bigint.hpp:79-85 | the size computed from the top limb is the bit length of the number |
| `Bigint.Num.AssignScalar` | mina/mina/detail/bigint.hpp:111-136 | value * 2^order, normalized |
| `Bigint.Num.ShiftLeft` | mina/mina/detail/bigint.hpp:138-159 | multiplies by 2^order in place |
| `Bigint.Num.AssignPow10` | mina/mina/detail/bigint.hpp:161-171 | 10^order, normalized |
| `Bigint.SmallPowers` | mina/mina/detail/bigint.hpp:18-23 | the table holds the powers of ten that fit a limb |
| `Bigint.Compare` | mina/mina/detail/bigint.hpp:173-192 | the sign of the difference, for all normalized numbers |
| `Bigint.SizesOrder` | mina/mina/detail/bigint.hpp:176-182 | numbers of different bit sizes are ordered by them |
| `Bigint.CompareSum` | mina/mina/detail/bigint.hpp:194-246 | the sign of l0 + l1 - r, though the sum is not built and the early exits are taken |
| `Bigint.CompareLimbs` | mina/mina/detail/bigint.hpp:214-245 | the limb loop of the comparison, with its carry, for any lengths |
| `Bigint.SumTooSmall` | mina/mina/detail/bigint.hpp:205-210 | the early exit on bit sizes is right |
| `Bigint.LastVerdict` | mina/mina/detail/bigint.hpp:226-245 | what the limb above the longer summand and the last carry decide |
| `Bigint.Num.MultiplyScalar` | mina/mina/detail/bigint.hpp:279-292 | multiplies by one limb in place |
| `Bigint.Num.Multiply` | mina/mina/detail/bigint.hpp:294-322 | the product of the numbers, normalized |
| `Bigint.Num.SubtractScaled` | mina/mina/detail/bigint.hpp:324-387 | subtracts r * 2^order when it fits; the result is normalized and exact |
| `Bigint.FitsBelow` | mina/mina/detail/bigint.hpp:329-331 | what is subtracted starts and ends inside the number |
| `Bigint.BorrowStep` | mina/mina/detail/bigint.hpp:337-361 | one limb of the subtraction: value done so far, borrow and carried bits stay accounted for |
| `Bigint.Num.DivideNear` | mina/mina/detail/bigint.hpp:389-413 | for a quotient that fits a limb: the exact quotient and the remainder in place, never going negative on the way |
| `Bigint.OneMore` | mina/mina/detail/bigint.hpp:407-410 | a last subtraction fits and so does the quotient |
| `Bigint.OrderFits` | mina/mina/detail/bigint.hpp:400-405 | a subtraction at one order below the difference of the bit sizes fits, and so does the quotient so far |
| `ShortestDecimal.BigintConvert` | mina/mina/detail/to_ascii_decimal_f.hpp:126-265 | the digits in the buffer and their exponent: the decimal rounds to the float, no decimal of fewer places does, none of as many places is closer, and if another one is as close the number is even; where the digits start is fixed by the float, and a normal number has no leading zero; at most 10, 18 or 36 digits for 24, 53 and 113 bits |
| `ShortestDecimal.OnlyOne` | mina/mina/detail/to_ascii_decimal_f.hpp:126-265 | there is only one such decimal, so the conversion is determined by the float |
| `ShortestDecimal.TieIsEven` | mina/mina/detail/to_ascii_decimal_f.hpp:252-253 | the even one of two neighbours in the integers is the even one of two equally close decimals |
| `ShortestDecimal.NoLeadingZero` | mina/mina/detail/to_ascii_decimal_f.hpp:178-196 | the digits of a normal number do not start with zero |
| `ShortestDecimal.AtLeast` | mina/mina/detail/to_ascii_decimal_f.hpp:178-196 | a decimal with no shorter one beside it is at least any power of ten the interval reaches |
| `ShortestDecimal.ReachesScaled` | mina/mina/detail/to_ascii_decimal_f.hpp:178-186 | the first comparison says whether the upper end of the interval reaches 10^k |
| `ShortestDecimal.SetUp` | mina/mina/detail/to_ascii_decimal_f.hpp:145-177 | the three scaling cases build exactly the scaled value, denominator and gaps |
| `ShortestDecimal.TenFold` | mina/mina/detail/to_ascii_decimal_f.hpp:187-195 | all three terms are multiplied by ten, also when the gaps are one copied value |
| `ShortestDecimal.FirstPlace` | mina/mina/detail/to_ascii_decimal_f.hpp:175-196 | the first place is the one the estimate names, or one above it exactly if the upper end of the interval reaches 10^k |
| `ShortestDecimal.OneDigit` | mina/mina/detail/to_ascii_decimal_f.hpp:204-263 | one turn: a digit in 0..9, and either the same state one place lower or the finished shortest decimal, closest and on a tie even |
| `ShortestDecimal.BoundTests` | mina/mina/detail/to_ascii_decimal_f.hpp:206-221 | the two tests say whether the decimals below and above are inside, ends included for an even mantissa only |
| `ShortestDecimal.LastDigit` | mina/mina/detail/to_ascii_decimal_f.hpp:223-263 | which of two acceptable digits ends the number: the nearer, on a tie the even one |
| `ShortestDecimal.DigitGoesOn` | mina/mina/detail/to_ascii_decimal_f.hpp:204-230 | with neither test met, digits so far and terms stand for the same number one place lower |
| `ShortestDecimal.DigitStops` | mina/mina/detail/to_ascii_decimal_f.hpp:231-263 | with a test met, the digits are the shortest and closest decimal, on a tie the even one |
| `ShortestDecimal.BestIsShortest` | mina/mina/detail/to_ascii_decimal_f.hpp:204-263 | stopping in the integers means shortest, closest and on a tie even in the reals |
| `ShortestDecimal.FewestDigits` | mina/mina/detail/to_ascii_decimal_f.hpp:126-265 | no decimal with fewer digits, at any exponent, rounds to the float |
| `ShortestDecimal.Capacity` | mina/mina/detail/float.hpp:22-36 | the place never leaves the buffer of the type |
| `RoundingInterval.IntervalIsNearest` | mina/mina/detail/to_ascii_decimal_f.hpp:129-164 | the interval is that of roundTiesToEven (section 4.3.1 of IEEE 754-2008): the reals that prefer the float to both neighbours, the lower gap half as wide at a power of two |
| `RoundingInterval.LowestNormalInside` | mina/mina/detail/to_ascii_decimal_f.hpp:129-134 | at the lowest normal number the interval used lies inside the true one |
| `DecimalScale.InsideIsRounding` | mina/mina/detail/to_ascii_decimal_f.hpp:149-177 | the integer test at any unit is the rounding interval of the float |
| `DecimalScale.DistanceIsGap` | mina/mina/detail/to_ascii_decimal_f.hpp:149-177 | integer distances are the real ones at one scale |
| `DecimalScale.ScaleMatches` | mina/mina/detail/to_ascii_decimal_f.hpp:149-177 | all three cases scale value, gaps and denominator by one common factor |
| `DecimalScale.EstimateRoom` | mina/mina/detail/to_ascii_decimal_f.hpp:116-196 | given 10^(k-1) < 2^(exp+p-1) <= 10^k, the scaled value with its upper gap stays below twice the denominator |
| `DecimalScale.BracketExists` | mina/mina/detail/to_ascii_decimal_f.hpp:116-124 | every power of two has a power of ten as the estimate is asked for |
| `DecimalScale.BracketUnique` | mina/mina/detail/to_ascii_decimal_f.hpp:116-124 | and only one |
| `DecimalScale.FewDigits` | mina/mina/detail/to_ascii_decimal_f.hpp:204-231 | while the loop goes on, 10^t is below 20/3 of 2^p |
| `DigitLoop.TakeDigit` | mina/mina/detail/to_ascii_decimal_f.hpp:204-205 | every digit is at most 9 |
| `DigitLoop.TestsDecide` | mina/mina/detail/to_ascii_decimal_f.hpp:206-221 | the tests on remainders decide membership of the two neighbouring decimals |
| `DigitLoop.GoOn` | mina/mina/detail/to_ascii_decimal_f.hpp:224-230 | with neither test met the state goes over one place lower |
| `DigitLoop.Stop` | mina/mina/detail/to_ascii_decimal_f.hpp:231-263 | with a test met the digit, raised or not, is at most 9 and ends the best decimal: none shorter, none closer, and even if another one is as close |
| `DigitLoop.NoTens` | mina/mina/detail/to_ascii_decimal_f.hpp:204-263 | as long as the loop goes on no decimal of a higher place is inside |
| `DigitLoop.NearestOfTwo` | mina/mina/detail/to_ascii_decimal_f.hpp:231-263 | the nearer of the two neighbours is the closest of all decimals of the place |
| `RoundWeed.Weed` | mina/mina/detail/to_ascii_decimal_f.hpp:267-304 | accepts exactly when the remainder it ends with, a whole number of steps from the start, is at least as near as any other reachable one to every possible distance and keeps the margins, unless the range wraps past the end of the type and has no room for the margins either; accepted, it lies between 2 * scale and unsafe_range - 4 * scale if and only if 4 * scale is at most unsafe_range |
| `RoundWeed.LastStep` | mina/mina/detail/to_ascii_decimal_f.hpp:273-303 | where the upper end of the range wraps, a remainder inside the margins that is not raised is the last reachable one |
| `RoundWeed.Margins` | mina/mina/detail/to_ascii_decimal_f.hpp:300-302 | what the wrapping margin test means: the upper margin is looked at only if unsafe_range is as wide |
| `RoundWeed.BetweenIff` | mina/mina/detail/to_ascii_decimal_f.hpp:300-302 | an accepted remainder is between both margins if and only if 4 * scale is at most unsafe_range |
| `RoundWeed.AcceptedInNarrowRange` | mina/mina/detail/to_ascii_decimal_f.hpp:267-304 | a remainder of 2 with unsafe_range 3 and scale 1 is nearest and accepted though there is no room for the upper margin |
| `RoundWeed.BeatsAll` | mina/mina/detail/to_ascii_decimal_f.hpp:277-298 | being nearer than the next steps is being nearer than all |
| `Bcd.Buffer.Push` | mina/mina/detail/to_ascii_decimal_f.hpp:225-226 | or-ing a digit into its nibble appends it |
| `Bcd.Buffer.HoldsDigits` | mina/mina/detail/to_ascii_decimal_f.hpp:225-260 | a reader of the words finds the digits pushed |
| `Bcd.ReadsBack` | mina/mina/detail/to_ascii_decimal_f.hpp:44-47 | a packed nibble is read back |
| `FloatText.BcdToAsciiF` | mina/mina/detail/to_ascii_decimal_f.hpp:26-107 | the text has a reading with the value digits * 10^exp exactly and is laid out as it should be: without exponent exactly if -6 <= length + exp < 21; then "0", zeros and the digits, the digits with the point among them (none before it when it comes first), or the digits, zeros and ".0"; otherwise one digit, a point exactly if there are more, the others, and the exponent |
| `FloatText.Positional` | mina/mina/detail/to_ascii_decimal_f.hpp:37-75 | the forms without exponent, for -6 <= length + exp < 21 |
| `FloatText.WriteLeading` | mina/mina/detail/to_ascii_decimal_f.hpp:38-48 | the form 0.000ddd: its reading, its value and its layout |
| `FloatText.WriteInside` | mina/mina/detail/to_ascii_decimal_f.hpp:49-62 | the form ddd.ddd |
| `FloatText.WriteTrailing` | mina/mina/detail/to_ascii_decimal_f.hpp:63-75 | the form ddd000.0 |
| `FloatText.WriteScientific` | mina/mina/detail/to_ascii_decimal_f.hpp:76-106 | the form with an exponent, for all other exponents |
| `FloatText.KnownTrailing` | mina/mina/detail/to_ascii_decimal_f.hpp:63-75 | the digits 125 at exponents 17 and 0 are written 12500000000000000000.0 and 125.0 |
| `FloatText.KnownInside` | mina/mina/detail/to_ascii_decimal_f.hpp:49-62 | at exponent -2 they are written 1.25 |
| `FloatText.KnownFirst` | mina/mina/detail/to_ascii_decimal_f.hpp:49-62 | at exponent -3 they are written .125 |
| `FloatText.KnownLeading` | mina/mina/detail/to_ascii_decimal_f.hpp:38-48 | at exponent -9 they are written 0.000000125 |
| `FloatText.KnownScientific` | mina/mina/detail/to_ascii_decimal_f.hpp:76-106 | at exponent -10 they are written 1.25e-8, and the digit 7 at exponent 21 is written 7e+21 |
| `FloatText.LeadingZeros` | mina/mina/detail/to_ascii_decimal_f.hpp:38-48 | 0.000ddd denotes the digits at their exponent |
| `FloatText.DotInside` | mina/mina/detail/to_ascii_decimal_f.hpp:49-62 | ddd.ddd denotes the digits at their exponent |
| `FloatText.TrailingZeros` | mina/mina/detail/to_ascii_decimal_f.hpp:63-75 | ddd000.0 denotes the digits at their exponent |
| `FloatText.Scientific` | mina/mina/detail/to_ascii_decimal_f.hpp:76-106 | d.ddde+nn denotes the digits at their exponent |
| `FloatText.PrintShortest` | mina/mina/detail/to_ascii_decimal_f.hpp:126-265 | from float to text: digits of the one decimal that rounds to the float, is of fewest places, closest among those and even on a tie, laid out for the place of their first digit, which does not vanish for a normal number |
| `FloatText.OneReading` | mina/mina/detail/to_ascii_decimal_f.hpp:26-107 | a text has one reading: integer digits, dot, fraction and exponent can be told from the text |
| `FloatText.TextRoundsBack` | mina/mina/detail/to_ascii_decimal_f.hpp:126-265 | whatever number is read from the printed text rounds back to the float |
| `TaggedStack.StepRefines` | yesod.old/cruft/yesod/stack.hpp:49-117 | every step of every thread keeps the invariant and is the abstract step that was asked of it: a begun push puts its node on the stack it names, a pop takes from the stack it names or finds it empty, a splice takes all of the one stack and puts it on the other |
| `StackRuns.RunsAreLifo` | yesod.old/cruft/yesod/stack.hpp:49-117 | every interleaving of any number of threads on any number of stacks is a run of plain last-in-first-out sequences, on which each thread does what it was asked and answers what they give |
| `StackRuns.PopAnswers` | yesod.old/cruft/yesod/stack.hpp:90-105 | in every run a pop begun on s ends with a turn that takes the top of s and answers with it, or at which s is empty and that answers null; its other turns change no stack |
| `StackRuns.PushLands` | yesod.old/cruft/yesod/stack.hpp:82-88 | a push of v begun on s puts v on top of s with one turn and changes no stack with the others; its answer says whether s was empty if nothing is removed from s until then |
| `StackRuns.SpliceMoves` | yesod.old/cruft/yesod/stack.hpp:49-75 | a splice of one stack into another takes all of the one with one turn and puts it on top of the other, in order, with its last one, or ends at a turn at which the one is empty |
| `StackRuns.LateAnswer` | yesod.old/cruft/yesod/stack.hpp:82-88 | a run in which a push on an empty stack answers that it was not empty, since its node has been popped and written to meanwhile |
| `StackRuns.StillPopping` | yesod.old/cruft/yesod/stack.hpp:90-105 | until it ends a begun pop stays one on the same stack |
| `StackRuns.StillPushing` | yesod.old/cruft/yesod/stack.hpp:108-117 | until its node is put on the stack a begun push stays one of the same node on the same stack |
| `StackRuns.StillSplicing` | yesod.old/cruft/yesod/stack.hpp:49-75 | a begun splice stays one of the same stacks, and what it has taken stays what it brings |
| `StackRuns.Finishes` | yesod.old/cruft/yesod/stack.hpp:49-117 | whatever the others have done so far, a thread that runs alone and whose CAS does not fail for no reason finishes, within a bound read off the state |
| `StackRuns.Nearer` | yesod.old/cruft/yesod/stack.hpp:49-117 | each of its turns brings it nearer |
| `TaggedStack.PopRefines` | yesod.old/cruft/yesod/stack.hpp:90-105 | a pop whose CAS succeeds removes the top of the stack it was asked for, installs the current successor of it, although pushes reuse the tag, and answers with it |
| `TaggedStack.PutRefines` | yesod.old/cruft/yesod/stack.hpp:108-117 | a push whose CAS succeeds puts the whole batch on top of the stack it was asked for, in order |
| `TaggedStack.TakeAllRefines` | yesod.old/cruft/yesod/stack.hpp:49-68 | a splice whose CAS succeeds moves the whole stack it was asked to empty to the thread |
| `TaggedStack.WalkKeeps` | yesod.old/cruft/yesod/stack.hpp:70-72 | the walk to the end of the taken chain stays inside it |
| `TaggedStack.OtherThreadKept` | yesod.old/cruft/yesod/stack.hpp:49-117 | no step disturbs what another thread relies on |
| `TaggedStack.NeverStuck` | yesod.old/cruft/yesod/stack.hpp:49-117 | every access a thread is about to make is to an existing node or head |
| `TaggedStack.OnePlace` | yesod.old/cruft/yesod/stack.hpp:82-117 | a node is with its client, at one position of one stack, or at one position of one batch, never two of these |
| `TaggedStack.NullMeansEmpty` | yesod.old/cruft/yesod/stack.hpp:90-96 | a pop step that reads the head is over exactly when the stack is empty, and then answers null |
| `TaggedStack.TellReads` | yesod.old/cruft/yesod/stack.hpp:82-88 | what a push reads back from its node, and when that is the right answer |
| `TaggedStack.InitialInv` | yesod.old/cruft/yesod/stack.hpp:46-47 | the invariant holds at the start |
| `ZeroRange.FindZeroRangeFirst` | yesod.old/yesod/bitset.hpp:446-454 | the least position that starts `length` clear bits inside the set, or the bit count if there is none, counted from where the search begins to count, which is `first` on a word boundary; from inside a word it is the answer for `first` if and only if no run that starts before `first` in that word is long enough |
| `ZeroRange.FindShort` | yesod.old/yesod/bitset.hpp:598-673 | the same for runs shorter than a word, from any position |
| `ZeroRange.FindLong` | yesod.old/yesod/bitset.hpp:675-729 | the same for longer runs, from any position |
| `ZeroRange.RightIff` | yesod.old/yesod/bitset.hpp:446-454 | the exact condition under which the answer is right for `first`: zeros counted before `first` do not complete a run |
| `ZeroRange.ShortStart` | yesod.old/yesod/bitset.hpp:613-631 | the word of `first`, entered inside it: a run in what is left of it, or all zeros at its top counted |
| `ZeroRange.LongStart` | yesod.old/yesod/bitset.hpp:686-698 | the same for longer runs |
| `ZeroRange.FindInWord` | yesod.old/yesod/bitset.hpp:95-120 | the same inside one word, from any bit |
| `ZeroRange.HalvingStep` | yesod.old/yesod/bitset.hpp:104-118 | one shift-and of the halving loop: windows of the new word are longer windows of the old one |
| `ZeroRange.CountFull` | yesod.old/yesod/bitset.hpp:105-109 | as many zero bits as places means all of them, and fewer than the length means no run |
| `ZeroRange.FoundInWord` | yesod.old/yesod/bitset.hpp:634-647 | a run found in a word, with the open run before it too short, is the first of all |
| `ZeroRange.NextWord` | yesod.old/yesod/bitset.hpp:633-655 | without one, the clear bits at the top stay open for the next word |
| `ZeroRange.ShortWord` | yesod.old/yesod/bitset.hpp:634-655 | one word of the search for short runs |
| `ZeroRange.LongWord` | yesod.old/yesod/bitset.hpp:701-714 | one word of the search for long runs |
| `ZeroRange.FindFirst` | yesod.old/yesod/bitset.hpp:358-443 | the first one or zero bit of a set of several words, from any position |
| `ZeroRange.FindFirstInWord` | yesod.old/yesod/bitset.hpp:77-93 | the first one or zero bit of a set of one word |
| `PackedIndex.GetReads` | yesod.old/yesod/detail/compressed_array.hpp:221-235 | the two-word expression reads the field, also across a word boundary |
| `PackedIndex.SetWrites` | yesod.old/yesod/detail/compressed_array.hpp:237-254 | writing a field changes its own bits only, also across a word boundary |
| `CompressedArray.ReadsNumber` | yesod.old/yesod/detail/compressed_array.hpp:221-235 | as a number: what is stored at the position |
| `CompressedArray.WritesNumber` | yesod.old/yesod/detail/compressed_array.hpp:237-254 | as a number: the stored one is replaced and no other |
| `CompressedArray.Compressed.GetIndex` | yesod.old/yesod/detail/compressed_array.hpp:221-235 | the slot number of the position |
| `CompressedArray.Compressed.SetIndex` | yesod.old/yesod/detail/compressed_array.hpp:237-254 | replaces the slot number of the position, all others stay |
| `CompressedArray.Compressed.constructor` | yesod.old/yesod/detail/compressed_array.hpp:42-49 | an empty map |
| `CompressedArray.Compressed.PtrAt` | yesod.old/yesod/detail/compressed_array.hpp:86-96 | looks the position up in the map |
| `CompressedArray.Compressed.Emplace` | yesod.old/yesod/detail/compressed_array.hpp:136-164 | for accepted values a map update; it fails exactly when the position is vacant and all 2^Order - 1 slots are in use; a rejected value leaves its position vacant and its slot in use |
| `CompressedArray.Compressed.EraseAt` | yesod.old/yesod/detail/compressed_array.hpp:166-176 | removes the position from the map and says whether it was there |
| `CompressedArray.Compressed.FindOccupied` | yesod.old/yesod/detail/compressed_array.hpp:191-214 | the least mapped position from any position on, or the size |
| `CompressedArray.Compressed.FindVacant` | yesod.old/yesod/detail/compressed_array.hpp:178-189 | the least unmapped position from any position on, or the size |
| `CompressedArray.Compressed.MoveFrom` | yesod.old/yesod/detail/compressed_array.hpp:51-68 | takes over the map of an array of another slot width, its least positions first, as many as there are slots; the whole map when they suffice |
| `CompressedArray.FirstFewMeans` | yesod.old/yesod/detail/compressed_array.hpp:51-68 | the positions taken over are exactly those with fewer others before them than there are slots |
| `CompressedArray.RoomForAll` | yesod.old/yesod/detail/compressed_array.hpp:51-68 | with a slot for each of them the whole map is taken over |
| `CompressedArray.PutNew` | yesod.old/yesod/detail/compressed_array.hpp:140-153 | taking a vacant slot keeps positions and slots one-to-one and updates the map |
| `CompressedArray.PutOld` | yesod.old/yesod/detail/compressed_array.hpp:154-163 | reusing the slot of a position does so too; a rejected value takes the position out |
| `CompressedArray.TakeOut` | yesod.old/yesod/detail/compressed_array.hpp:166-176 | giving a slot back does so too |
| `CompressedArray.Counted` | yesod.old/yesod/detail/compressed_array.hpp:136-164 | stored values and leaked slots together are the slots in use |
| `CompressedArray.FullMeans` | yesod.old/yesod/detail/compressed_array.hpp:141-143 | no vacant slot exactly when these are all slots |
| `CompressedArray.Vacant` | yesod.old/yesod/detail/compressed_array.hpp:191-214 | a position is vacant exactly when its field has no clear bit |
| `CompressedArray.OnesAreSet` | yesod.old/yesod/detail/compressed_array.hpp:191-214 | a field reads as the vacant number exactly when all its bits are ones |
| `PlacementArray.Slots.PtrAt` | yesod.old/yesod/detail/placement_array.hpp:77-91 | the value of a slot in use unless the predicate rejects it |
| `PlacementArray.Slots.Emplace` | yesod.old/yesod/detail/placement_array.hpp:103-122 | the slot is in use with the new value, all others stay |
| `PlacementArray.Slots.EraseAt` | yesod.old/yesod/detail/placement_array.hpp:124-138 | the slot is vacant, all others stay; says whether it was in use |
| `PlacementArray.Slots.FindVacant` | yesod.old/yesod/detail/placement_array.hpp:155-170 | the first vacant slot |
| `PlacementArray.Slots.FindOccupied` | yesod.old/yesod/detail/placement_array.hpp:172-184 | the first slot in use whose value is accepted |
| `PlacementArray.BitSet` | yesod.old/yesod/detail/placement_array.hpp:103-138 | setting one bit of one word changes one flag |
| `DecimalPrinter.PrintU8` | mina/mina/detail/to_ascii_decimal_u.hpp:56-69 | the canonical decimal numeral of every 8-bit value |
| `DecimalPrinter.PrintU16` | mina/mina/detail/to_ascii_decimal_u.hpp:72-103 | the canonical decimal numeral of every 16-bit value |
| `DecimalPrinter.PrintU32` | mina/mina/detail/to_ascii_decimal_u.hpp:106-134 | the canonical decimal numeral of every 32-bit value |
| `DecimalPrinter.PrintU64` | mina/mina/detail/to_ascii_decimal_u.hpp:137-172 | the canonical decimal numeral of every 64-bit value |
| `DecimalPrinter.PrintU128` | mina/mina/detail/to_ascii_decimal_u.hpp:175-219 | the canonical decimal numeral of every 128-bit value |
| `DecimalPrinter.PrintCoefficients` | mina/mina/detail/to_ascii_decimal_u.hpp:153-170 | the numeral of a sum of coefficients of powers of 10^8, carries included |
| `DecimalPrinter.BcdToAsciiU` | mina/mina/detail/to_ascii_decimal_u.hpp:30-50 | packed digits without leading zeros, and "0" for none |
| `DecimalPrinter.FirstNibble` | mina/mina/detail/to_ascii_decimal_u.hpp:34-43 | the highest set bit, rounded to its nibble, is where the digits start |
| `DecimalPrinter.ToBcd16` | mina/mina/detail/to_ascii_decimal_u.hpp:73-95 | the six packed decimal digits of a 16-bit value |
| `DecimalPrinter.ToBcd32` | mina/mina/detail/to_ascii_decimal_u.hpp:107-127 | the ten packed decimal digits of a 32-bit value |
| `DecimalPrinter.MagicQuotient` | mina/mina/detail/to_ascii_decimal_u.hpp:56-168 | when a multiply and shift is the division |
| `DecimalPrinter.Hundredth8` | mina/mina/detail/to_ascii_decimal_u.hpp:60-66 | the 8-bit multiply and shift divides every value by 100 |
| `DecimalPrinter.Hundredth16` | mina/mina/detail/to_ascii_decimal_u.hpp:81-91 | the 16-bit multiply, add and shift divides every value by 100, sums wrapped as the source wraps them |
| `DecimalPrinter.Hundredth32` | mina/mina/detail/to_ascii_decimal_u.hpp:115-123 | the 32-bit multiply and shift divides every value by 100 |
| `DecimalPrinter.TenMillionth` | mina/mina/detail/to_ascii_decimal_u.hpp:156-164 | the 64-bit multiply and shift divides every value by 10^8, its product fits 128 bits |
| `DecimalPrinter.NextCoefficient` | mina/mina/detail/to_ascii_decimal_u.hpp:156-168 | one turn: the low eight digits of the coefficient sum are packed and the rest is carried |
| `DecimalPrinter.Coefficients64` | mina/mina/detail/to_ascii_decimal_u.hpp:144-151 | the coefficients sum up to the value and fit their words |
| `DecimalPrinter.Coefficients128` | mina/mina/detail/to_ascii_decimal_u.hpp:182-198 | the coefficients sum up to the value and fit their words |
| `DecimalPrinter.CanonicalUnique` | mina/mina/detail/to_ascii_decimal_u.hpp:30-50 | a number has one canonical numeral |
| `DecimalPrinter.CanonicalIsSpelled` | mina/mina/detail/to_ascii_decimal_u.hpp:30-50 | the canonical numeral is the one spelled with the characters 0123456789 |
| `IntegerParser.ParseRun` | mina/mina/detail/from_ascii_numeric_i.hpp:18-55 | the smaller of the value of the digits and the largest value of the type; all digits are consumed; also for the digit loops of the hexadecimal and octal branches |
| `IntegerParser.FitsNext` | mina/mina/detail/from_ascii_numeric_i.hpp:35-45 | the two tests before a digit say exactly whether the next value fits |
| `IntegerParser.ParseU` | mina/mina/detail/from_ascii_numeric_i.hpp:57-196 | accepts exactly the literals, gives the smaller of their value and the largest one, and moves past them, past nothing otherwise |
| `IntegerParser.ParseRunNeg` | mina/mina/detail/from_ascii_numeric_i.hpp:198-234 | the same downwards |
| `IntegerParser.FitsNextNeg` | mina/mina/detail/from_ascii_numeric_i.hpp:215-224 | the two tests downwards, with division towards zero |
| `IntegerParser.ParseNeg` | mina/mina/detail/from_ascii_numeric_i.hpp:236-375 | the same downwards for all bases |
| `IntegerParser.ParseS` | mina/mina/detail/from_ascii_numeric_i.hpp:377-401 | the value cut off at both ends of the type; nothing is consumed when there is no literal |
| `IntegerParser.LongerIsLarger` | mina/mina/detail/from_ascii_numeric_i.hpp:51-52 | once too large, further digits do not bring the value back |
| `IntegerParser.PrintedIsRead` | mina/mina/detail/from_ascii_numeric_i.hpp:57-70 | a canonical numeral is read as its value, and all of it but a lone 0 is consumed |
| `IntegerParser.PrintThenParse` | mina/mina/detail/to_ascii_decimal_u.hpp:30-219 | print, then parse: the text is the numeral spelled with 0123456789, the value the same, for all five widths, and all of the text is consumed but for a lone 0 |
| `SpelledLiterals.ReadSpelled` | mina/mina/detail/from_ascii_numeric_i.hpp:57-196 | for every number, in decimal, behind 0 with the characters 01234567, or behind 0x or 0X with 0123456789abcdef or 0123456789ABCDEF, after zeros, anywhere in a text: read as the smaller of it and the largest value, and exactly its text is consumed |
| `SpelledLiterals.ReadSpelledDown` | mina/mina/detail/from_ascii_numeric_i.hpp:236-375 | the same downwards, cut off at the smallest value |
| `SpelledLiterals.ReadSpelledSigned` | mina/mina/detail/from_ascii_numeric_i.hpp:377-401 | the same behind a plus, a minus or no sign |
| `SpelledLiterals.SpelledIsLiteral` | mina/mina/detail/from_ascii_numeric_i.hpp:57-196 | the text of a number is the literal that stands there |
| `SpelledLiterals.AcceptedIff` | mina/mina/detail/from_ascii_numeric_i.hpp:57-196 | which texts are accepted at all, character by character |
| `SpelledLiterals.AlphabetIs` | mina/mina/detail/from_ascii_numeric_i.hpp:129-143 | the value of each digit is its place in the alphabet |
| `SpelledLiterals.DigitsAre` | mina/mina/detail/from_ascii_numeric_i.hpp:129-143 | which characters are digits |
| `TernaryNodes.Find` | utils/ubb/ext/tst_impl.hpp:65-97 | the value of the longest stored nonempty prefix of the filtered input, and the position just past it; nothing and no advance when there is none |
| `TernaryNodes.Add` | utils/ubb/ext/tst_impl.hpp:99-132 | the nodes represent the tree with the key added; the value there is handed back, an old one is kept; other nodes are untouched |
| `TernaryNodes.Remove` | utils/ubb/ext/tst_impl.hpp:134-165 | the nodes represent the tree with the key removed and useless nodes dropped |
| `TernaryNodes.Prune` | utils/ubb/ext/tst_impl.hpp:154-162 | a node without value and children goes, any other stays |
| `TernaryNodes.ForEach` | utils/ubb/ext/tst_impl.hpp:167-182 | the calls are the pairs of the tree, in order |
| `TernaryTree.PutGet` | utils/ubb/ext/tst_impl.hpp:99-132 | adding never replaces a value and changes no other key |
| `TernaryTree.DelGet` | utils/ubb/ext/tst_impl.hpp:134-165 | removing takes out its key and no other, prefixes and extensions included |
| `TernaryTree.PutBetween` | utils/ubb/ext/tst_impl.hpp:99-132 | adding keeps the order of the characters |
| `TernaryTree.DelBetween` | utils/ubb/ext/tst_impl.hpp:134-165 | removing and dropping nodes keeps it |
| `TernaryTree.TreeIsMap` | utils/ubb/ext/tst_impl.hpp:99-165 | after any sequence of adds and removes the tree is ordered and agrees with the map |
| `TernaryTree.WalkIsMap` | utils/ubb/ext/tst_impl.hpp:167-182 | the walk meets exactly the stored pairs, each key once, and the keys rise: by the first character that differs, an extension before what it extends |
| `TernaryTree.PairsStored` | utils/ubb/ext/tst_impl.hpp:167-182 | every pair met is stored |
| `TernaryTree.StoredIsMet` | utils/ubb/ext/tst_impl.hpp:167-182 | every stored pair is met |
| `TernaryTree.PairsRise` | utils/ubb/ext/tst_impl.hpp:167-182 | of two pairs the one met first has the key that comes before in that order |
| `TernaryTree.WalkOn` | utils/ubb/ext/tst_impl.hpp:77-86 | one matching step of find: the longest match so far is up to date |
| `TernaryTree.WalkSide` | utils/ubb/ext/tst_impl.hpp:87-90 | a step to a sibling keeps the longest match so far |
| `TernaryTree.WalkEnds` | utils/ubb/ext/tst_impl.hpp:76-96 | when the walk ends, what was found belongs to the longest stored prefix |
| `XxHash.HashChunks` | yesod.old/yesod/coder/xxhash.hpp:42-169 | for any split of the input into nonempty chunks and any choice of overload for each, the digest is the one-shot XXH32 of the concatenation |
| `XxHash.Hasher.Reset` | yesod.old/yesod/coder/xxhash.hpp:42-48 | starts an empty message under the seed, whatever the buffer holds |
| `XxHash.Hasher.UpdateEach` | yesod.old/yesod/coder/xxhash.hpp:53-63 | appends the bytes to the message |
| `XxHash.Hasher.UpdateBytes` | yesod.old/yesod/coder/xxhash.hpp:65-135 | appends the bytes; with none on a stripe boundary the stale buffer is mixed in |
| `XxHash.Hasher.UpdateByte` | yesod.old/yesod/coder/xxhash.hpp:57-61 | appends one byte |
| `XxHash.Hasher.UpdateBlocks` | yesod.old/yesod/coder/xxhash.hpp:83-102 | appends whole stripes and the rest after a stripe boundary |
| `XxHash.Hasher.Digest` | yesod.old/yesod/coder/xxhash.hpp:137-169 | the one-shot XXH32 of the bytes fed so far |
| `XxHashAnswers.Empty` | yesod.old/yesod/coder/xxhash.hpp:137-169 | the XXH32 of no bytes under seed 0 is 0x02cc5d05 |
| `XxHashAnswers.EmptySeeded` | yesod.old/yesod/coder/xxhash.hpp:137-169 | under seed 0x9e3779b1 it is 0x36b78ae7 |
| `XxHashAnswers.OneLetter` | yesod.old/yesod/coder/xxhash.hpp:137-169 | that of "a" under seed 0 is 0x550d7456 |
| `XxHashAnswers.ThreeLetters` | yesod.old/yesod/coder/xxhash.hpp:137-169 | that of "abc" under seed 0 is 0x32d153ff |
| `XxHashAnswers.Digits` | yesod.old/yesod/coder/xxhash.hpp:42-200 | that of "0123456789abcdef" under seed 0 is 0xc2c45b69 |
| `XxHashAnswers.DigitsSeeded` | yesod.old/yesod/coder/xxhash.hpp:42-200 | under seed 0x9e3779b1 it is 0x72e8faf9 |
| `XxHashAnswers.Sentence` | yesod.old/yesod/coder/xxhash.hpp:42-200 | that of "Nobody inspects the spammish repetition" under seed 0 is 0xe2293b2f |
| `XxHash.MixRest` | yesod.old/yesod/coder/xxhash.hpp:151-161 | the two loops over the buffer are the tail of XXH32 |
| `XxHash.Filled` | yesod.old/yesod/coder/xxhash.hpp:68-79 | filling up the buffer and taking it in when full keeps state and buffer in step with the message |
| `XxHash.Block` | yesod.old/yesod/coder/xxhash.hpp:83-93 | so does taking in a stripe straight from the input |
| `XxHash.Assembled` | yesod.old/yesod/coder/xxhash.hpp:137-169 | state and buffer hold all that the digest of the message needs |

## Left out

- FixedMap.Builder.Find: cells outside the array read as vacant, where the code reads past its vector.
- FixedMap.Builder.UpdateChildren: the same for children past the end of the array.
- ShortestDecimal.BigintConvert: the floating-point estimate of the power of ten is replaced by its contract 10^(k-1) < 2^(exp+p-1) <= 10^k.
- FloatText.PrintShortest: at the lowest normal number the interval used is narrower than the true one, as in the code, so a shorter decimal may exist there.
- FloatText.BcdToAsciiF: the cutoffs are those of the code, exponents are bounded so that the sums fit an `int`.
- StackRuns.RunsAreLifo: the tag is unbounded, memory is sequentially consistent and node memory stays mapped; `empty` is not modelled.
- StackRuns.Finishes: no bound on how long other threads can make a thread retry.
- ZeroRange.FindZeroRangeFirst: does not cover the reads past the end mentioned above (`StaysInside`).
- RoundWeed.Weed: says nothing of the case that both the range wraps past the end of the type and 4 * scale exceeds unsafe_range.
- PlacementArray.Slots.EraseAt: the branch for plain-data values, which makes a fresh value, is left out.
- PlacementArray.Slots.FindVacant: the branch for plain-data values, which passes over accepted values in vacant slots, is left out.
- CompressedArray.Compressed.Emplace: constructor arguments are a value, exceptions and allocators are not modelled; which slots leak is ghost state.
- TernaryNodes.Add: the loop over a pointer to a pointer is a recursion; the empty key, which the code answers with null, is not passed in.
- XxHash.Hasher.UpdateBytes: the two counted overloads, which differ in how they copy, are one method; the byte count is unbounded.
- IntegerParser.ParseU: the binary branch, which accepts nothing, is modelled as a refusal.
- DecimalPrinter.ToBcd32: the table of two-digit codes is a formula.
- Bigint.Num.AssignScalar: a shift of a word by its full width, which the language leaves undefined, is the mathematical shift.
- Bigint.Num.SubtractScaled: the loop for a shift by whole limbs and the one for a bit shift are one.
- The Grisu path around `round_weed` and its tables of powers of ten, infinities and NaNs, half and quarter precision.
- `bigint` addition, `multiply_pow10` and hexadecimal output.
- `bitset`: range set and reset, best-fit search, iteration.
- `compressed_array`: plain-data values, `reserve_at`, `release_at` and the full-width specialisation.
- The ternary tree's `clone` and allocator; big-endian hashing with swapped stripes.
- Reading input, choosing template tags and writing the generated tables of the name tool.
- Channels, read-copy-update lists, message packing, the B-tree, string encodings and the rest of the repository.
