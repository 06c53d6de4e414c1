# Classical and stream cipher exercises, modelled in Dafny

This project models two Rust programs of a cryptography coursework
repository and proves properties of the model.

The first program (`a1/src/main.rs`) is a toolkit for classical ciphers over
the 26-letter alphabet:

- mod-26 arithmetic: signed reduction, the exhaustive inverse search, `gcd`;
- letter/symbol conversions;
- the affine cipher;
- Vigenère decoding in place;
- the chi-squared search for the best Caesar shift of a letter histogram;
- the Kasiski key-length estimate built from repeated substrings;
- Vigenère key recovery for a given key length;
- the 2x2 Hill-cipher matrices and the inverse key.

The second program (`a2/src/main.rs`) holds the GF(2) stream-cipher exercises:

- `modb`, which reduces modulo 2 there;
- a bit matrix with `push`, `mul_n`, `lhs_mul` and `mul`;
- the Blum-Blum-Shub generator;
- digit-string conversions;
- keystream recovery from known plaintext with its window matrix;
- the linear recurrence and the period search that `p2` runs.

## How the model is built

- One module per component: `Modular`, `Letters`, `Affine`, `Vigenere`, `Frequency`, `KeyRecovery`, `Kasiski` and `Hill` for the first program; `Gf2`, `Bbs` and `Lfsr` for the second.
- Where the source changes things step by step, the model does too. Loops become `while` loops with invariants, and each method is proved against a specification function.
  - `de_vig` and `ceaser_1` work on arrays.
  - The `Matrix` and `BlumBlumShub` structs are classes whose methods update their fields.
  - The Kasiski `HashMap` is a `map`.
- Pure code becomes functions.
- Integers are unbounded. Most Rust integer operations that would trap (u8/usize overflow or underflow, division by or modulo zero, `unwrap` on a non-digit) become preconditions. The exceptions are the chi-squared sums and the signed Hill products, listed under "Left out".
- Rust's `as u8` truncation is written out where the value can be out of range.
- Rust's `%` on the non-negative value left by `modb_n`'s loop agrees with Dafny's Euclidean `%`.
- The expected letter counts come from a floating-point table. They are a parameter `expectedOf` of type `ExpectedCounts`: a function from the sample size to 26 counts.
- Kasiski's percentage is computed in `f64` in the source. Here it is the integer floor `100 * hits / total`, and 0 when there are no distances (Rust turns `NaN as usize` into 0).
- The `HashMap` iteration order is unknown. `KasiskiKeyLength` is therefore proved to be the Kasiski choice for every ordering of the distance multiset.

In three places the code departs from the textbook algorithm, and the model follows the code:

- `solve_vig` decodes by adding the recovered key (`de_vig`), not by subtracting it. The chosen shift is the rotation that aligns the histogram. `AddComplementIsSub` relates the two readings.
- `get_best_x2_shift` tries 27 rotations, not 26. `LastPassNeverWins` shows the 27th can never be chosen.
- The window scan of `kasiski` runs `i` over `0..len-key-1`. It therefore skips the last two windows of every length, and the model scans exactly those windows. A range that is too large makes `len - key - 1` underflow in the source; here that is a precondition.

## Model

| member | source | states |
|---|---|---|
| Modular.Reduce | a1/src/main.rs:106-113 | the reduced value lies in [0, m) and is congruent to x mod m |
| Modular.ReduceCongruent | a1/src/main.rs:106-113 | two values reduce to the same residue exactly when they are congruent |
| Modular.ReduceFixesRange | a1/src/main.rs:106-113 | values already in [0, m) are unchanged, and reduction is m-periodic |
| Modular.ReduceAdd | a1/src/main.rs:106-113 | reducing a summand first does not change the reduced sum |
| Modular.ReduceMul | a1/src/main.rs:106-113 | reducing a factor first does not change the reduced product |
| Modular.Mod26 | a1/src/main.rs:115-118 | `modb` yields a residue in [0, 26) |
| Modular.ModbN | a1/src/main.rs:106-113 | the add-m-while-negative loop followed by `%` computes the reduction of x mod m |
| Modular.ModbInv | a1/src/main.rs:119-129 | returns the least j in [0, 26) with modb(modb(x)·j) = 1, or -1 exactly when no such j exists |
| Modular.InverseFromSearch | a1/src/main.rs:119-129 | the recursive search from `from` finds the least inverse at or after `from`, or -1 exactly when there is none |
| Modular.InverseSearchUnique | a1/src/main.rs:119-129 | a value meets the description of `modb_inv` exactly when it equals ModInverse(x), so the search result is a function of x |
| Modular.UnitHasInverse | a1/src/main.rs:119-129 | the search finds an inverse exactly when x is a unit mod 26 |
| Modular.NoInverseForNonUnits | a1/src/main.rs:119-129 | a residue sharing the factor 2 or 13 with 26 has no j with modb(x·j) = 1 |
| Modular.Mod26Add | a1/src/main.rs:115-118 | congruent summands give equal reduced sums |
| Modular.Mod26Mul | a1/src/main.rs:115-118 | congruent factors give equal reduced products |
| Modular.GcdIsGreatest | a1/src/main.rs:424-433 | `gcd(a, b)` divides both a and b, and every common divisor divides it |
| Modular.Gcd | a1/src/main.rs:424-433 | Euclid's recursion `gcd(b, a % b)`; the result is 0 only for gcd(0, 0) and never exceeds a non-zero second argument |
| Modular.DividesMod | a1/src/main.rs:424-433 | a common divisor of a and b divides a mod b (why Euclid's step keeps the divisors) |
| Letters.CharCode | a1/src/main.rs:7-10 | `as u8` keeps the code of every character below 256 |
| Letters.CharToInt | a1/src/main.rs:7-10 | the result plus the base is the character's byte |
| Letters.IntToChar | a1/src/main.rs:11-14 | the character's code is the symbol plus the base |
| Letters.CharIntRoundTrip | a1/src/main.rs:7-14 | `char_to_int` and `int_to_char` with the same base undo each other |
| Letters.ToIntUpper | a1/src/main.rs:16-19 | an upper-case letter becomes a symbol in [0, 26) |
| Letters.FromIntLower | a1/src/main.rs:21-24 | a symbol in [0, 26) becomes a lower-case letter |
| Letters.StrUpperToInt | a1/src/main.rs:27-38 | one symbol per character, each the character's byte minus 65 |
| Letters.IntToStrLower | a1/src/main.rs:48-55 | one character per symbol, each with code symbol + 97 |
| Letters.UpperToLowerCase | a1/src/main.rs:27-55 | an upper-case text converts to symbols in [0, 26), and writing them out gives the same text in lower case |
| Letters.LowerText | a1/src/main.rs:48-55 | symbols of the alphabet are written out as a lower-case text of the same length |
| Affine.AffineSingle | a1/src/main.rs:56-59 | the result is a symbol congruent to c·a + b |
| Affine.DeaffineSingle | a1/src/main.rs:60-63 | the result is a symbol congruent to (c − b)·a1 |
| Affine.CancelInverse | a1/src/main.rs:56-63 | multiplying by a and then by its mod-26 inverse a1 gives x back mod 26 |
| Affine.AffineRoundTrip | a1/src/main.rs:56-63 | if a·a1 ≡ 1 (mod 26), decoding an encoded symbol gives it back |
| Affine.DeaffineRoundTrip | a1/src/main.rs:56-63 | if a·a1 ≡ 1 (mod 26), encoding a decoded symbol gives it back |
| Affine.AffineAll | a1/src/main.rs:65-72 | the encoded vector has the input's length and holds only symbols |
| Affine.DeaffineAll | a1/src/main.rs:74-81 | the decoded vector has the input's length and holds only symbols |
| Affine.AffineAllRoundTrip | a1/src/main.rs:65-81 | decoding an encoded vector restores it, and encoding a decoded vector restores it |
| Affine.EncodeAffine | a1/src/main.rs:65-72 | the loop over the copy encodes every entry with `affine_single` |
| Affine.DecodeAffine | a1/src/main.rs:74-81 | the loop over the copy decodes every entry with `deaffine_single` |
| Affine.UpperToLowerMorph | a1/src/main.rs:40-44 | the result has the text's length, and each of its letters is lower case and stands for (symbol of the input letter)·a + b mod 26 |
| Vigenere.VigAdd | a1/src/main.rs:83-90 | the decoded vector has the input's length and holds only symbols |
| Vigenere.VigSub | a1/src/main.rs:83-90 | the opposite shift has the input's length and holds only symbols |
| Vigenere.Complement | a1/src/main.rs:83-90 | the complement of a key is a key of the same length made of symbols |
| Vigenere.VigRoundTrip | a1/src/main.rs:83-90 | on symbols, adding and subtracting the same repeating key undo each other, in both orders |
| Vigenere.AddComplementIsSub | a1/src/main.rs:83-90 | adding the complement of a key is standard Vigenère decoding with that key |
| Vigenere.DeVig | a1/src/main.rs:83-90 | in place, every c[i] becomes (old c[i] + key[i mod |key|]) mod 26 |
| Vigenere.RotateNAt | a1/src/main.rs:92-104 | entry j of the k-fold right rotation is entry (j − k) mod n of the original |
| Vigenere.RotateFullCircle | a1/src/main.rs:92-104 | n single rotations of a length-n vector restore it |
| Vigenere.RotatePermutes | a1/src/main.rs:92-104 | one rotation keeps the multiset of entries |
| Vigenere.RotateKeepsSum | a1/src/main.rs:92-104 | one rotation keeps the sum of the entries |
| Vigenere.Ceaser1 | a1/src/main.rs:92-104 | in place, the array becomes its rotation right by one place: the last entry moves to the front, every other entry moves up one |
| Vigenere.SumAppend | a1/src/main.rs:343 | the sum of a concatenation is the sum of the sums |
| Vigenere.SumIncrement | a1/src/main.rs:663 | incrementing one histogram bin increments the total by one |
| Frequency.X2ZeroIff | a1/src/main.rs:330-339 | the chi-squared score is zero exactly when the observed counts equal the expected ones |
| Frequency.GetX2 | a1/src/main.rs:330-339 | the loop sums the squared differences of the observed counts and the expected counts for n letters |
| Frequency.Scores | a1/src/main.rs:341-359 | one (capped) score per rotation tried, 27 in all |
| Frequency.ArgminPrefixStep | a1/src/main.rs:351-355 | the strict `<` update keeps "least index of the least score so far" |
| Frequency.ArgminPrefixDone | a1/src/main.rs:341-359 | after all passes, the kept index is the least index of the minimum score |
| Frequency.ScoreAndRotate | a1/src/main.rs:349-356 | one pass scores the histogram rotated i places and leaves it rotated i + 1 places |
| Frequency.Keep | a1/src/main.rs:351-355 | after pass i the kept index and score are still the least index of the least score among passes 0..i |
| Frequency.GetBestX2Shift | a1/src/main.rs:341-359 | returns the least rotation in [0, 27) with the least score; on a 26-bin histogram the result is below 26 |
| Frequency.LastPassNeverWins | a1/src/main.rs:348 | on a 26-bin histogram the 27th pass sees the original again and is never chosen |
| Frequency.ExactShiftIsChosen | a1/src/main.rs:341-359 | if some rotation matches the expected counts exactly, the result matches exactly and is no later than the first such rotation |
| KeyRecovery.HistogramStep | a1/src/main.rs:661-665 | reading a symbol adds one to its bin in its own coset's histogram and changes the other histograms not at all |
| KeyRecovery.HistogramSumIsCosetSize | a1/src/main.rs:661-665 | histogram r holds exactly one count per position ≡ r (mod keysize) |
| KeyRecovery.CosetSizesSum | a1/src/main.rs:661-665 | the cosets partition the positions |
| KeyRecovery.HistogramsCoverText | a1/src/main.rs:655-665 | the counts of all keysize histograms sum to the length of the text |
| KeyRecovery.BuildHistograms | a1/src/main.rs:655-665 | builds exactly keysize histograms of 26 bins, histogram r counting the symbols at positions ≡ r (mod keysize) |
| KeyRecovery.RecoverKey | a1/src/main.rs:668-679 | one key symbol per coset, each the best chi-squared shift of that coset's histogram |
| KeyRecovery.DecodeText | a1/src/main.rs:682-684 | the copied symbols decoded in place by `de_vig` and written out in lower case |
| KeyRecovery.SolveVig | a1/src/main.rs:650-685 | the key has keysize symbols, each the best shift of its coset; the plaintext is the ciphertext decoded with the key, in lower case, with the ciphertext's length |
| Kasiski.WindowCount | a1/src/main.rs:522 | the number of windows scanned is 0 or leaves at least one position past the last window |
| Kasiski.OccFacts | a1/src/main.rs:521-527 | the recorded positions of a substring are strictly increasing, in range, and the text holds the substring at each |
| Kasiski.File | a1/src/main.rs:524-525 | `entry(..).or_insert(..).push(i)` adds the substring to the keys |
| Kasiski.ScanMapKeys | a1/src/main.rs:521-527 | after the scan a substring is a key exactly when its length is in range and it occurs at a scanned window |
| Kasiski.ScanMapValues | a1/src/main.rs:521-527 | after the scan the value of a key lists its occurrences in order |
| Kasiski.CollectWindows | a1/src/main.rs:514-527 | the map holds exactly the substrings of lengths [min, max) seen at a scanned window, each with all its positions in order |
| Kasiski.ScanLength | a1/src/main.rs:522-526 | the inner loop files every scanned window of one length under its text, bringing the map to the state after that length |
| Kasiski.PairsBeforeFacts | a1/src/main.rs:533-537 | the pairs with a first index below v1 number v1·(2k − v1 − 1)/2, and are positive on increasing positions |
| Kasiski.PairsCount | a1/src/main.rs:533-537 | k increasing positions give exactly k(k − 1)/2 distances, all positive |
| Kasiski.PairDistances | a1/src/main.rs:532-538 | the nested loops produce the distances val[v2] − val[v1] for v1 < v2, in loop order |
| Kasiski.ToDistances | a1/src/main.rs:531-539 | every list of positions is replaced by its pairwise distances, the keys kept |
| Kasiski.BagOfRemove | a1/src/main.rs:542-547 | the bag of all distances is independent of the order the entries are visited in |
| Kasiski.PushAll | a1/src/main.rs:544-546 | the loop appends every distance of one entry |
| Kasiski.Consolidate | a1/src/main.rs:542-547 | the consolidated vector holds exactly the multiset of all distances of all entries |
| Kasiski.Hits | a1/src/main.rs:562-567 | the number of distances divisible by m is at most their number |
| Kasiski.HitsAppend | a1/src/main.rs:562-567 | counting over a concatenation adds the counts |
| Kasiski.HitsPermutation | a1/src/main.rs:562-567 | the count of distances divisible by m depends only on their multiset |
| Kasiski.PercentIsFloor | a1/src/main.rs:568 | the percentage is the floor of 100·hits/total, and at most 100 |
| Kasiski.Percent | a1/src/main.rs:568 | the share of distances that a length divides, as a percentage: 0 when nothing is a hit, at most 100 when the hits do not exceed the total |
| Kasiski.Score | a1/src/main.rs:575-576 | the arbitrary value p·p·m of length m that `kasiski` maximises, p being its percentage |
| Kasiski.ChoiceIgnoresOrder | a1/src/main.rs:553-584 | the Kasiski choice is the same for any ordering of the distances |
| Kasiski.CountHits | a1/src/main.rs:562-567 | the loop counts the distances divisible by m |
| Kasiski.SelectKeyLength | a1/src/main.rs:553-584 | 0 when no length scores positively; otherwise the first length in [min, max) with the greatest p·p·m |
| Kasiski.OccurringIsSubstring | a1/src/main.rs:523 | a substring with a recorded position is a substring of the text |
| Kasiski.RetainIsRepeated | a1/src/main.rs:529 | `retain` keeps exactly the substrings seen at least twice |
| Kasiski.RepeatedWindowDistances | a1/src/main.rs:514-539 | the map after `retain` and the distance rewrite is the distance map of the text |
| Kasiski.KasiskiKeyLength | a1/src/main.rs:511-587 | for every ordering of the distance multiset, the result is the Kasiski choice; it is 0 or a length in [min, max) |
| Hill.Column | a1/src/main.rs:712-714 | the column vector has one single-entry row per value |
| Hill.Scale | a1/src/main.rs:738-745 | scaling keeps the shape of the matrix |
| Hill.ScaleEntries | a1/src/main.rs:738-745 | every scaled entry is a symbol congruent to entry·m |
| Hill.MulData | a1/src/main.rs:746-761 | the product has the shape of the column and only symbols |
| Hill.DotUpTo | a1/src/main.rs:752-758 | the fold of `mul` over the first n entries of a row against the first column of rhs; `MulData` and `MulPair` state what it gives |
| Hill.Matrix.constructor | a1/src/main.rs:783 | a matrix literal |
| Hill.Matrix.FromColumn | a1/src/main.rs:712-714 | `Matrix::new` builds the column vector of v |
| Hill.Matrix.MulN | a1/src/main.rs:738-745 | in place, every entry becomes modb(entry·m) |
| Hill.Matrix.Mul | a1/src/main.rs:746-761 | a fresh matrix whose row j is the reduced dot product of row j with the first column of rhs |
| Hill.ChunksFlatten | a1/src/main.rs:715-726 | the chunks join back into the input |
| Hill.ChunksCount | a1/src/main.rs:715-726 | there are ⌈len/n⌉ chunks |
| Hill.ChunksSizes | a1/src/main.rs:715-726 | every chunk has n values except perhaps the last, which is not empty |
| Hill.Chunks | a1/src/main.rs:715-726 | the pieces `from_str` turns into column vectors; `ChunksFlatten`, `ChunksCount` and `ChunksSizes` state what they are |
| Hill.FromStr | a1/src/main.rs:715-726 | one column matrix per chunk of n symbols of the text, in order |
| Hill.Adjugate | a1/src/main.rs:791-796 | the reduced adjugate is 2x2 |
| Hill.InverseData | a1/src/main.rs:785-802 | the inverse key is 2x2 |
| Hill.InverseKey | a1/src/main.rs:785-802 | the `p3a` computation returns the adjugate scaled by `modb_inv` of the determinant, for any 2x2 key |
| Hill.InverseEntries | a1/src/main.rs:785-802 | the inverse key's entries are congruent to the adjugate times the inverse determinant, which cancels the determinant |
| Hill.LinComb | a1/src/main.rs:746-761 | two-term combinations of congruent values are congruent |
| Hill.UnitCancels | a1/src/main.rs:785-802 | a value multiplied by a unit and its inverse comes back |
| Hill.ScaledEntry | a1/src/main.rs:738-745 | reducing an entry before scaling does not change the scaled entry |
| Hill.AdjugateIdentities | a1/src/main.rs:785-802 | adjugate times matrix, on either side, is the determinant times the identity |
| Hill.MulPair | a1/src/main.rs:746-761 | a 2x2 matrix times a two-entry column is the column of the two reduced dot products |
| Hill.Det | a1/src/main.rs:786 | the determinant ad − bc of the key |
| Hill.RoundTripEntry | a1/src/main.rs:746-761 | one entry of a round trip reduces to the original symbol |
| Hill.DecodeEncodeArith | a1/src/main.rs:746-761 | decoding after encoding, written as entry arithmetic, gives each symbol back |
| Hill.EncodeDecodeArith | a1/src/main.rs:746-761 | encoding after decoding, written as entry arithmetic, gives each symbol back |
| Hill.PairDecodeEncode | a1/src/main.rs:746-761 | with any matrix congruent to the scaled adjugate, decoding undoes encoding a pair of symbols |
| Hill.PairEncodeDecode | a1/src/main.rs:746-761 | with any matrix congruent to the scaled adjugate, encoding undoes decoding a pair of symbols |
| Hill.HillDecodeEncode | a1/src/main.rs:781-803 | if the determinant of the key is a unit mod 26, the inverse key of `p3a` decodes what the key encodes |
| Hill.HillEncodeDecode | a1/src/main.rs:781-803 | if the determinant of the key is a unit mod 26, the key encodes back what the inverse key decodes |
| Hill.P3aInverseKey | a1/src/main.rs:781-803 | for the key [[2, 3], [9, 6]], the inverse determinant is 19 and the inverse key is [[10, 21], [11, 12]] |
| Gf2.Bit | a2/src/main.rs:11-14 | `modb` yields 0 or 1, congruent to x mod 2 |
| Gf2.Modb | a2/src/main.rs:2-14 | `modb_n(x, 2)` yields 0 or 1, congruent to x mod 2 |
| Gf2.BitAdd | a2/src/main.rs:11-14 | reducing summands first gives the same bit: addition of bits is exclusive or |
| Gf2.ToU8 | a2/src/main.rs:58 | `as u8` leaves values in [0, 256) unchanged |
| Gf2.Scale | a2/src/main.rs:45-52 | scaling keeps the shape, leaves only bits, and every entry is congruent to entry·m mod 2 |
| Gf2.ScaleOfBinary | a2/src/main.rs:45-52 | on a bit matrix an odd factor changes nothing and an even factor clears every entry |
| Gf2.RowSumGrows | a2/src/main.rs:57-59 | the partial sums of `lhs_mul` only grow, so the final sum bounds every intermediate one |
| Gf2.RowSumParity | a2/src/main.rs:53-63 | reducing once at the end, as `lhs_mul` does, gives the GF(2) dot product of the sum of reduced products |
| Gf2.RowSum | a2/src/main.rs:57-59 | the running `u8` sum of `lhs_mul` before its final `% 2`; `RowSumGrows` and `RowSumParity` state its properties |
| Gf2.MulData | a2/src/main.rs:65-80 | the product has the shape of the column and only bits |
| Gf2.DotIsRowSum | a2/src/main.rs:53-80 | the fold of `mul` against a column equals the accumulation of `lhs_mul` on the same values |
| Gf2.Matrix.constructor | a2/src/main.rs:24-26 | `Matrix::new` has no rows |
| Gf2.Matrix.Push | a2/src/main.rs:28-30 | appends the vector as the new last row |
| Gf2.Matrix.MulN | a2/src/main.rs:45-52 | in place, every entry becomes modb(entry·m) |
| Gf2.Matrix.LhsMul | a2/src/main.rs:53-63 | lhs.len() entries, each (Σ_j lhs[j]·data[i][j] as u8) mod 2, each 0 or 1 |
| Gf2.Matrix.Mul | a2/src/main.rs:65-80 | a fresh matrix whose row j is the reduced dot product of row j with the first column of rhs |
| Gf2.LhsMulData | a2/src/main.rs:53-63 | one bit per entry of lhs |
| Gf2.LhsMulAgreesWithMul | a2/src/main.rs:53-80 | on a square matrix of small entries, `lhs_mul` and `mul` with the column of lhs give the same GF(2) products |
| Bbs.Step | a2/src/main.rs:103-106 | the new state is below n |
| Bbs.StepModFactor | a2/src/main.rs:99-106 | modulo either factor of n = p·q, the new state is the square of the old one |
| Bbs.OutputsSquare | a2/src/main.rs:103-106 | every output is the square of the previous one modulo n |
| Bbs.Outputs | a2/src/main.rs:103-115 | the first k states after the seed, exactly k of them |
| Bbs.BlumBlumShub.constructor | a2/src/main.rs:99-101 | the modulus is p·q and the state is the seed |
| Bbs.BlumBlumShub.Next | a2/src/main.rs:103-106 | the state becomes s² mod n, n unchanged, and the new state (< n) is returned |
| Bbs.Run | a2/src/main.rs:109-115 | k calls of `next` return the first k outputs of the generator |
| Bbs.SquareFits | a2/src/main.rs:104 | a state below n squares within a `usize` when (n − 1)² does |
| Lfsr.DigitChar | a2/src/main.rs:117-122 | the digit character of d has value d |
| Lfsr.StrToInts | a2/src/main.rs:117-119 | one value below 10 per character, whose digit character is that character |
| Lfsr.Decimal | a2/src/main.rs:120-122 | `to_string` of a `u8` is a non-empty digit string, one character long exactly for values below 10 |
| Lfsr.IntsToStr | a2/src/main.rs:120-122 | the output is all digits and at least as long as the input |
| Lfsr.IntsToStrLength | a2/src/main.rs:120-122 | the output has one character per value exactly when every value is below 10 |
| Lfsr.DigitsRoundTrip | a2/src/main.rs:117-122 | `str_to_ints(ints_to_str(v)) == v` when every value is below 10 |
| Lfsr.StringRoundTrip | a2/src/main.rs:117-122 | `ints_to_str(str_to_ints(s)) == s` for every digit string |
| Lfsr.Keystream | a2/src/main.rs:127-132 | one bit per plaintext position |
| Lfsr.KeystreamIsXor | a2/src/main.rs:127-132 | on bits the keystream is 1 exactly where plaintext and ciphertext differ, and plaintext plus keystream is the ciphertext mod 2 |
| Lfsr.Windows | a2/src/main.rs:146-149 | an m x m matrix whose entry (i, j) is keystream[i + j] |
| Lfsr.RowSumOfBits | a2/src/main.rs:53-63 | a sum of n products of bits is at most n |
| Lfsr.WindowsFit | a2/src/main.rs:151-152 | `lhs_mul` on the window matrix of a bit keystream with m < 256 cannot overflow |
| Lfsr.KeystreamOf | a2/src/main.rs:127-132 | the loop pushes (plain[i] + cipher[i]) mod 2 for every plaintext position |
| Lfsr.WindowMatrix | a2/src/main.rs:146-149 | m pushes build the window matrix, row i being keystream[i..i + m] |
| Lfsr.WindowProduct | a2/src/main.rs:151-152 | entry i of the product is the GF(2) dot product of window i with keystream[m..2m] |
| Lfsr.SolveLfsr | a2/src/main.rs:124-159 | the keystream, the window matrix, their product and the keystream written out, which reads back as the keystream and has the plaintext's length |
| Lfsr.NextTerm | a2/src/main.rs:175-179 | every new term is 0 or 1 |
| Lfsr.Extend | a2/src/main.rs:174-180 | k steps append exactly k values |
| Lfsr.ExtendFacts | a2/src/main.rs:174-180 | the extension keeps the start, every appended value obeys the recurrence, and a bit start stays binary |
| Lfsr.Recurrence | a2/src/main.rs:174-180 | the nested loops append, per step, (Σ_j modb(values[i + j]·c[j])) mod 2 |
| Lfsr.FindPeriod | a2/src/main.rs:184-200 | returns the least period p ≥ 4 whose last p values equal those p, 2p and 3p places earlier; None exactly when no such period exists; None stands for the source's panic when a comparison reached by the `\|\|` chain would index before the start |

## Left out

- Wordlist, `p2a` and `get_cipher_text`: file I/O, dictionary lookups and constant texts.
- The floating-point letter table and `get_expected_dist`'s rounding: the expected counts are the parameter `expectedOf`.
- `freidman_1` and `freidman_2`: floating-point index-of-coincidence estimates. Their coset histograms repeat the histogram construction of `solve_vig`, which is modelled.
- Kasiski.Percent: the `f64` percentage is modelled as the integer floor of 100·hits/total. This agrees with the source whenever the floating-point quotient does not round up to the next integer, which needs distance counts far beyond any text length.
- Kasiski.KasiskiKeyLength: the order in which the `HashMap` is visited is not modelled. The result is proved for every order, and `ChoiceIgnoresOrder` shows the order cannot change it.
- All `println!`/`print!` output, `main`, `p1`-`p3` of both programs, `p1a`-`p1c`, `p2b`, `p2c`, `p3b` and `to_text_string`, `to_data_string` and `matricies_to_str`: drivers and formatters.
- The unbounded brute-force searches of `p1c` (the `loop` at a1/src/main.rs:411-421) and `p2b` (the two `loop`s at a1/src/main.rs:480-493): they have no bound in the source. `p1a` and `p1b` run bounded `for` loops and are drivers, like the rest of the `p` functions.
- Lfsr.FindPeriod: the loop of `p2` that prints `values` by period is output only.
- Bbs.Run: `test_bbs` prints every output and its parity; the model returns the outputs and leaves the printing out.
- u8/usize overflow and underflow, modulo zero and `unwrap` on a non-digit become preconditions, except for the members named on the next two lines; the model does not say what the source does after such a trap.
- Frequency.GetX2, Frequency.GetBestX2Shift: the `isize` square cast to `usize` and its `usize` sum in `get_x2`, and the `usize` fold of the histogram total in `get_best_x2_shift`, are computed exactly, with no bound on the counts. `Capped` saturates a score at `usize::MAX`, where the source would trap in a debug build or wrap in a release build.
- Hill.Matrix.MulN, Hill.Matrix.Mul, Gf2.Matrix.MulN, Gf2.Matrix.Mul: the `isize` products and sums of `mul_n` and `mul`, in both programs, are computed exactly; their overflow is not modelled.
- Kasiski.KasiskiKeyLength: the source takes the byte length of the text and slices it by byte offsets. The model counts and slices characters, which agrees on ASCII text; on other text the source's lengths differ or a slice that cuts a character panics.
- `p4` and `p5` of the second program only print a heading.
- The second program's modules reuse `Modular.ModbN`, `Modular.UsizeMax`, `Hill.CanMul`, `Hill.DotUpTo` and `Hill.Column` for convenience. The two programs share no code, but the second one's `modb_n` and the fold of its `mul` are written the same way as the first one's, so one definition stands for both.
- Letters.StrUpperToInt: `solve_vig` loops to the byte length of the text and indexes the vector of symbols. These agree on ASCII text, which `AllUpper` ensures.
- `usize` is taken to be 64 bits wide.
