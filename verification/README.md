# Galois-field arithmetic, sample history and stress tree

A Dafny model of three parts of the repository, with proofs about them.

1. **`ext/gf-complete/src`**: arithmetic in GF(2^w). The reference is the product of binary
   polynomials modulo a polynomial of degree w (`Poly.Mul`). Shift, by-two, group-window,
   lazy split-table and Barrett-style multiplication, and the two-word forms of w = 64 and
   128, are proved equal to it for every modulus. The log-table forms are proved equal to it
   for the polynomials their builders accept, and those to be exactly the primitive ones
   (w >= 3); a number of carry-less folds is proved enough exactly for the polynomials that
   are sparse enough.
   Composite towers are other rings: their product is proved to be the one modulo
   x^2+sx+1 over the base, with ring laws at every height, and a field when that quadratic
   has no root. Both inversion routines are proved to give the inverse exactly when it
   exists. The region operations (alignment split, 64-bit lanes, remapped layouts, cached
   tables) are proved to apply the product to every word of byte memory.
2. **`webui/chunks.py`**: the four cascading sample lists and the two-level time search,
   as objects proved against a value-level cascade and a linear scan.
3. **`benchmarks/mstress/mstress_client.cc`**: the recursive tree creator with its shared
   path and the delete loop that decodes leaf indices.

Words and polynomials are `nat` (bit i is the coefficient of x^i), with bit operations
defined in `Bits.dfy`; machine widths, truncation and wrap-around are written out with
`Low(_, w)`. Hardware carry-less multiplication is the polynomial product `PMul`. Buffers
that the source updates in place are arrays; tables that live across calls, the sample
lists, the cursor and the client are classes. Times are `real`.

Files: `Bits`, `Poly`, `WordPair`, `WordList` (foundations); `Euclid`, `BitMatrix`
(inversion); `Multiply`, `WideMultiply`, `CarryFree`, `Doubling`, `Group`, `Powers`,
`LogTable`, `Composite` (multiplication); `SplitTable`, `Lanes`, `Region`, `RegionCheck`,
`AltMap`, `AltHalves`, `AltInPlace` (regions); `History`, `Monitor` (samples); `Lists`,
`Tree`, `Stress` (stress test).

What the proofs show that differs from what a reader of the code might assume:

- The log-table test never looks at a return to 1 or at the first visit to 0, yet it is
  exact for w >= 3 (`Powers.NoRepeatsIffPrimitive`); it would not be for w = 2.
- The by-two mask loop is driven by the polynomial copy only, so it leaves every mask empty
  for the polynomial x^w (`Lanes.InitExact`).
- `gf_set_region_data` places the aligned start past the end of a region shorter than the
  leading gap (`Region.PartitionExact`). Such calls are accepted and then change bytes
  beyond the region (`RegionCheck.ContainedExact`); with multiplier 1 and xor the last loop
  of `gf_multby_one` does not stop (`Region.MultiplyByOne`). On the Cauchy branch `d_top` is
  derived from `src` (`Region.CauchyTop`). The model follows the code.
- The comment in the carry-free code bounds the number of folds by (w-2)/z; the exact bound
  is `CarryFree.FoldsExact`.
- `log_tbl[0]` in the w = 16 zero-log table is -65536 because the macro is not
  parenthesised; -65534, the value after adding parentheses, would be wrong
  (`LogTable.SentinelExact`).
- The composite ALTMAP region needs distinct buffers: storing in place is wrong for every
  nonzero multiplier, adding in place for all but those of `AltInPlace.AddInPlaceExact`.
- Multiplier 1 skips the alignment test, so in the interleaved layout it can be applied
  between regions that are laid out differently (`AltMap.OneExact`).
- A history list configured for no entries still holds one; the bounds are stated for every
  capacity. Only a timestamp that is not positive or goes backwards can break the invariant.

## Model

| member | source | states |
|---|---|---|
| `Poly.MulComm` | ext/gf-complete/src/gf_w8.c:561-583 | the reference product (carry-less product modulo a polynomial of degree w) is commutative, for every modulus |
| `Poly.MulAssoc` | ext/gf-complete/src/gf_w8.c:561-583 | and associative, for all operands of any size |
| `Poly.MulXor` | ext/gf-complete/src/gf_w8.c:561-583 | and distributes over xor on both sides |
| `Poly.DivModUnique` | ext/gf-complete/src/gf_w32.c:643-680 | quotient and remainder of binary polynomials are determined by the division equation and the degree bound |
| `Poly.InvertibleIffCoprime` | ext/gf-complete/src/gf_w8.c:123-164 | an element has a multiplicative inverse exactly when its gcd with the modulus is 1 |
| `Poly.GcdGreatest` | ext/gf-complete/src/gf_w8.c:123-164 | the gcd that decides invertibility is a common divisor that every common divisor divides |
| `Euclid.Inverse` | ext/gf-complete/src/gf_w8.c:123-164 | for every width, modulus and operand the loop ends and returns -1 for 0, the inverse when the gcd is 1, and 0 otherwise; the quotient never exceeds w bits |
| `Euclid.InverseImplicit` | ext/gf-complete/src/gf_w32.c:285-327 | the same promise where the modulus is stored without its leading bit and the first remainder is truncated to w bits |
| `Euclid.InversePair` | ext/gf-complete/src/gf_w128.c:1151-1243 | the same for two-word operands; output is left untouched exactly for operand 0 |
| `Euclid.Divide` | ext/gf-complete/src/gf_w8.c:142-151 | one round: the remainder is e_im1 + c*e_i, of smaller degree than e_i with d its exact degree, and c is bounded by the degree difference |
| `Euclid.DivideTruncated` | ext/gf-complete/src/gf_w32.c:304-314 | that round when the dividend has lost its leading bit still yields the true remainder |
| `Euclid.DividePair` | ext/gf-complete/src/gf_w128.c:1201-1221 | that round on word pairs, with shifts that carry between the halves |
| `Euclid.NextRound` | ext/gf-complete/src/gf_w8.c:140-161 | loop invariant: both coefficient words keep y*b = e modulo p, the gcd is unchanged, the degrees fall strictly and the quotient stays below 2^w |
| `Euclid.InverseResultUnique` | ext/gf-complete/src/gf_w8.c:123-164 | the promise fixes the result: two words that meet it are equal |
| `BitMatrix.Invert` | ext/gf-complete/src/gf.c:529-574 | in-place elimination succeeds if and only if the matrix has trivial kernel, and then inv times the original matrix is the identity, although the pivot matrix is not updated during back-substitution |
| `BitMatrix.Triangulate` | ext/gf-complete/src/gf.c:536-562 | row swaps and xors keep inv * original = current and reach triangular form; a missing pivot means a kernel vector exists |
| `BitMatrix.BackSubstitute` | ext/gf-complete/src/gf.c:566-573 | clearing above the diagonal on inv alone yields the inverse |
| `BitMatrix.NoPivotSingular` | ext/gf-complete/src/gf.c:545-550 | a column without a pivot gives a nonzero kernel vector of the original matrix |
| `BitMatrix.CoprimeNotSingular` | ext/gf-complete/src/gf.c:576-595 | the multiplication matrix of an element coprime to the modulus is never singular |
| `BitMatrix.ComboIsMul` | ext/gf-complete/src/gf.c:581-591 | rows of the matrix selected by the bits of r sum to r*y modulo p |
| `BitMatrix.Inverse` | ext/gf-complete/src/gf.c:576-595 | the routine returns if and only if gcd(p, y) = 1, and row 0 of the inverted matrix is the inverse of y |
| `Powers.NoRepeatsIffPrimitive` | ext/gf-complete/src/gf_w8.c:845-867 | for every width of at least 3 the builder's test (no nonzero log overwritten, index 0 never noticed) accepts exactly the polynomials whose powers of x are distinct and of full period |
| `Powers.WidthTwoCounterexample` | ext/gf-complete/src/gf_w8.c:845-867 | at width 2 the same test would accept x^2+1, which is not primitive: the bound 3 is sharp |
| `Powers.PrimitiveCovers` | ext/gf-complete/src/gf_w8.c:845-863 | with a primitive polynomial every nonzero element is some power of x |
| `LogTable.Build` | ext/gf-complete/src/gf_w8.c:798-867 | the builder refuses if and only if the polynomial is not primitive; when it accepts, log and antilog are mutually inverse and antilog holds two periods |
| `LogTable.BuildByCycle` | ext/gf-complete/src/gf_w4.c:322-361 | the do-while builder with its early exit always ends and accepts if and only if the polynomial is primitive |
| `LogTable.LogSum` | ext/gf-complete/src/gf_w8.c:670-679 | antilog[log a + log b] is the ring product, with the index inside the table |
| `LogTable.LogDifference` | ext/gf-complete/src/gf_w8.c:681-694 | antilog[log a - log b + group size] times b is a, with the index inside the table |
| `LogTable.Multiply` | ext/gf-complete/src/gf_w8.c:670-679 | table multiplication is the ring product for all operands, 0 included |
| `LogTable.Divide` | ext/gf-complete/src/gf_w8.c:681-694 | division followed by multiplication gives back the dividend for every nonzero divisor, 0 is returned for divisor 0, and the result is a field element |
| `LogTable.FillInverse` | ext/gf-complete/src/gf_w8.c:876-884 | the do-while fill reaches every nonzero element, stores its inverse and changes nothing else; the table may lie inside the antilog array |
| `LogTable.FillInverseExt` | ext/gf-complete/src/gf_w8.c:820-826 | in the extended zero form, where the inverses are kept in the antilog array itself, the fill leaves everything multiplication reads as it was |
| `LogTable.FillInverseByLog` | ext/gf-complete/src/gf_w16.c:749-753 | the fill through logarithms stores the inverse of every nonzero element |
| `LogTable.BuildZero` | ext/gf-complete/src/gf_w8.c:839-874 | the zero-sentinel tables keep the test exact and put zeros wherever a sentinel index can land |
| `LogTable.MultiplySmallZero` | ext/gf-complete/src/gf_w8.c:647-657 | multiplication through the 510 sentinel is the ring product for all operands |
| `LogTable.MultiplyExtZero` | ext/gf-complete/src/gf_w8.c:625-634 | multiplication through the 512 sentinel, without any test for 0, is the ring product for all operands |
| `LogTable.BuildNegZero` | ext/gf-complete/src/gf_w16.c:1912-1937 | with log[0] = -2^w the table holds zeros at every index a zero operand can produce |
| `LogTable.MultiplyNegZero` | ext/gf-complete/src/gf_w16.c:1398-1407 | multiplication with the negative sentinel is the ring product for all operands and never leaves the table |
| `LogTable.SentinelExact` | ext/gf-complete/src/gf_w16.c:1912-1926 | a sentinel -s works for one zero operand if and only if s is at least the group size; the macro as written gives 2^w, the parenthesised reading would give 2^w - 2 and fail |
| `Multiply.ShiftMultiply` | ext/gf-complete/src/gf_w8.c:561-583 | shift, add and reduce returns the ring product for every width and modulus |
| `Multiply.Reduce` | ext/gf-complete/src/gf_w32.c:618-641 | clearing from the top bit down leaves the remainder |
| `Multiply.BytwoP` | ext/gf-complete/src/gf_w8.c:1557-1583 | doubling the product from the top bit of a returns the ring product |
| `Multiply.BytwoB` | ext/gf-complete/src/gf_w8.c:1585-1609 | doubling b while a is shifted down returns the ring product and ends when a is 0 |
| `Multiply.TimesTwoIsMul` | ext/gf-complete/src/gf_w8.c:1557-1583 | shift and conditional xor is multiplication by x, also with the leading bit left implicit |
| `WideMultiply.ShiftMultiply64` | ext/gf-complete/src/gf_w64.c:315-371 | the two-word shift form with bits carried between words returns the ring product for every operand and polynomial |
| `WideMultiply.ShiftMultiply128` | ext/gf-complete/src/gf_w128.c:195-291 | the four-word product and its reduction return the ring product |
| `WideMultiply.AddShifted` | ext/gf-complete/src/gf_w128.c:219-245 | the carried left shifts accumulate exactly the partial product of one word |
| `WideMultiply.ReduceTopWord` | ext/gf-complete/src/gf_w128.c:248-284 | clearing one word from the top keeps the value modulo the polynomial and empties that word |
| `WideMultiply.TimesTwoWordsIsMul` | ext/gf-complete/src/gf_w128.c:345-377 | doubling a two-word element with its carry is multiplication by x |
| `WideMultiply.BytwoP128` | ext/gf-complete/src/gf_w128.c:345-377 | by-two-p on word pairs is the ring product |
| `WideMultiply.BytwoB128` | ext/gf-complete/src/gf_w128.c:476-512 | by-two-b on word pairs is the ring product |
| `CarryFree.GkSetup` | ext/gf-complete/src/gf_w32.c:643-680 | the set-up loop returns exactly floor(x^(2w) / p), although its working word is left dirty above the current bit |
| `CarryFree.GkMultiplyIsMul` | ext/gf-complete/src/gf_w32.c:402-436 | the two-multiplication reduction with that quotient gives the ring product for all operands and polynomials: no correction step is needed |
| `CarryFree.FoldsExact` | ext/gf-complete/src/gf_w8.c:207-330 | for every modulus, k folds reduce every product of two elements if and only if k times the gap below the leading bit is at least w - 1 |
| `CarryFree.FoldsMod` | ext/gf-complete/src/gf_w8.c:207-330 | folding never changes the value modulo the polynomial |
| `CarryFree.FoldsLen` | ext/gf-complete/src/gf_w8.c:207-330 | each fold shortens an over-long word by exactly the gap, no more and no less |
| `CarryFree.FoldsTooFew` | ext/gf-complete/src/gf_w8.c:207-330 | below that count the square of x^(w-1) is left unreduced |
| `CarryFree.FoldCountExact` | ext/gf-complete/src/gf_w32.c:682-711 | for w = 4, 8, 16 and 32 and every modulus the initialisation picks the least number of folds, among those it can select, that reduces every product, and refuses exactly when even the greatest is too few |
| `CarryFree.FoldCountByTail` | ext/gf-complete/src/gf_w8.c:585-610 | the masks are bounds on the length of the polynomial below its leading bit: 2 for w = 4; 5, 6, 7 for w = 8; 9, 12, 13 for w = 16; 17, 22, 25 for w = 32 |
| `CarryFree.FoldCountSuffices` | ext/gf-complete/src/gf_w8.c:585-610 | for w = 4, 8, 16 and 32 every polynomial admitted by the masks gets enough folds for all operands |
| `Doubling.FillShift` | ext/gf-complete/src/gf_w32.c:723-741 | the doubling fill leaves shift[c] = c*b modulo p for every window value c |
| `Group.FillReduce` | ext/gf-complete/src/gf_w32.c:2427-2475 | the reduce table holds l*x^w modulo p at index l, for every window width |
| `Group.IndexInverse` | ext/gf-complete/src/gf_w32.c:2451-2462 | the index under which an entry is stored determines the multiple it came from |
| `Group.IndexOnto` | ext/gf-complete/src/gf_w32.c:2451-2462 | every window value is the index of some entry, so with IndexInverse the map is a bijection |
| `Group.MultiplySame` | ext/gf-complete/src/gf_w32.c:865-902 | the equal-window form returns the ring product for every width and window |
| `Group.MultiplyMixed` | ext/gf-complete/src/gf_w32.c:952-998 | unequal windows: collecting without reducing and then reducing from tshift downwards returns the ring product |
| `Group.ReduceWindows` | ext/gf-complete/src/gf_w32.c:991-996 | the descending pass clears every overflow position although higher bits stay dirty |
| `Group.MultiplyLowFirst` | ext/gf-complete/src/gf_w64.c:791-840 | the low-window-first form on two words returns the ring product |
| `Group.ReducePair` | ext/gf-complete/src/gf_w64.c:828-837 | the two-word reduction leaves the remainder in the bottom word |
| `Composite.MulAssoc` | ext/gf-complete/src/gf_w8.c:1333-1352 | the composite product is associative at every height of the tower, whether or not the quadratic has a root |
| `Composite.MulComm` | ext/gf-complete/src/gf_w16.c:1951-1969 | and commutative |
| `Composite.MulXor` | ext/gf-complete/src/gf_w16.c:1951-1969 | and distributes over xor |
| `Composite.MulOne` | ext/gf-complete/src/gf_w16.c:1951-1969 | 1 is neutral at every height |
| `Composite.AdjoinedRoot` | ext/gf-complete/src/gf_w8.c:1333-1352 | every element is lo + hi*X with X*X = s*X + 1: the product is the one modulo x^2+sx+1 |
| `Composite.EmbeddedMul` | ext/gf-complete/src/gf_w16.c:1951-1969 | on elements of the base field the two products agree |
| `Composite.DivisorNonZero` | ext/gf-complete/src/gf_w8.c:1399-1435 | the value inverted in the third branch is never 0 when x^2+sx+1 has no root |
| `Composite.InverseCorrect` | ext/gf-complete/src/gf_w8.c:1399-1435 | the three-branch inverse gives a*inv(a) = 1 for every nonzero a, by induction on the height |
| `Composite.NoZeroDivisors` | ext/gf-complete/src/gf_w128.c:1265-1319 | every level of the tower is a field again |
| `Composite.InverseUnique` | ext/gf-complete/src/gf_w16.c:2015-2052 | the formula is the only inverse |
| `Composite.RootMakesZeroDivisors` | ext/gf-complete/src/gf_w16.c:1951-1969 | the no-root condition is necessary: a root yields two nonzero elements with product 0 |
| `SplitTable.LazyTables.constructor` | ext/gf-complete/src/gf_w32.c:2376-2384 | a new table set has last_value 0, so no table is trusted |
| `SplitTable.LazyTables.FillRow` | ext/gf-complete/src/gf_w32.c:1535-1544 | the doubling fill of one row stores c*v for every c, leaves the other rows alone and returns the next row's base |
| `SplitTable.LazyTables.Prepare` | ext/gf-complete/src/gf_w32.c:1513-1545 | after the lazy refill all tables belong to val, whether or not it had to run |
| `SplitTable.LazyTables.Lookup` | ext/gf-complete/src/gf_w32.c:1548-1557 | the early-exit lookup loop adds exactly val times the word |
| `SplitTable.LazyTables.MultiplyWord` | ext/gf-complete/src/gf_w64.c:584-596 | one whole word through the tables |
| `SplitTable.LazyTables.MultiplyHalves` | ext/gf-complete/src/gf_w128.c:572-595 | the two-word form walks both halves with one table set |
| `SplitTable.LazyTables.MultiplyRegion` | ext/gf-complete/src/gf_w32.c:1496-1562 | every word becomes val*word (xored into the old word when asked), in place too; tables stay consistent with last_value |
| `SplitTable.AddTwice` | ext/gf-complete/src/gf_w32.c:1548-1560 | storing ignores the old word, adding to 0 is storing, and adding the same product twice restores the word |
| `SplitTable.Run` | ext/gf-complete/src/gf_w64.c:546-598 | over every sequence of region multiplications with any constants, between any buffers and in place, the tables are never stale: all buffers hold what the reference product gives |
| `Lanes.Ab2Doubles` | ext/gf-complete/src/gf_w8.c:94-98 | the AB2 macro doubles every lane independently modulo p: no borrow crosses lanes and the top lane survives wrap-around |
| `Lanes.Init` | ext/gf-complete/src/gf_w8.c:2233-2256 | the loop fills all lanes of the three masks if the polynomial has a nonzero low part, and leaves them all 0 otherwise |
| `Lanes.InitExact` | ext/gf-complete/src/gf_w8.c:2233-2256 | the initialised masks double all lane words correctly if and only if the polynomial is not x^w |
| `Lanes.TimesLaws` | ext/gf-complete/src/gf_w8.c:1611-1660 | lane-wise scaling is linear, and AB2 is scaling by x |
| `Lanes.WordFromTop` | ext/gf-complete/src/gf_w8.c:1611-1660 | the top-bit-first loop multiplies every lane of a word by val |
| `Lanes.WordFromBottom` | ext/gf-complete/src/gf_w8.c:2196-2227 | the low-bit-first loop multiplies every lane and adds to what was there |
| `Lanes.WordUnrolled` | ext/gf-complete/src/gf_w4.c:1469-1878 | each hand-unrolled case 2..15 multiplies every lane by its constant |
| `Lanes.MultiplyRegion` | ext/gf-complete/src/gf_w8.c:1611-1660 | a whole region lane by lane, xored or stored, source and destination may coincide |
| `Region.PartitionExact` | ext/gf-complete/src/gf.c:770-852 | prefix, aligned middle and suffix partition the region if and only if the region is at least as long as the leading gap; otherwise the computed start lies past the end |
| `Region.AcceptedExact` | ext/gf-complete/src/gf.c:783-842 | the set-up accepts a call if and only if source and destination lie alike to min(align, 16) and start and length are whole words; in the Cauchy case if and only if the length is a multiple of w |
| `Region.SlowMultiply` | ext/gf-complete/src/gf.c:646-702 | the word-by-word loop updates each unit once and nothing else; an end before the start means no work |
| `Region.MultiplyByOne` | ext/gf-complete/src/gf.c:896-1035 | multiplier 1: exactly the region is copied, and exactly the region xored whenever it is not shorter than the leading gap; for shorter ones exactly the bytes up to the boundary, and the aligned form does not end |
| `Region.UnalignedXor` | ext/gf-complete/src/gf.c:995-1035 | the form for differently placed regions xors exactly up to the larger of the region and the destination's gap to 16 bytes |
| `Region.AlignedXor` | ext/gf-complete/src/gf.c:963-992 | the form for regions placed alike xors exactly up to the larger of the region and its gap to 8 bytes, and ends if and only if the region is not the shorter one |
| `Region.NeverMeets` | ext/gf-complete/src/gf.c:982-991 | it runs away exactly when the address its last loop works on never equals the end of the region |
| `Region.ResultExact` | ext/gf-complete/src/gf.c:783-991 | a call is refused if and only if its multiplier is neither 0 nor 1 and the set-up does not accept it, and runs away if and only if it is xored, multiplier 1, placed alike, and ends before the next 8-byte boundary |
| `Region.EffectExact` | ext/gf-complete/src/gf.c:864-992 | multiplier 0 clears exactly the region or nothing, a copy changes exactly the region, and all other calls change exactly the region unless it ends before the first boundary |
| `Region.MultiplyParts` | ext/gf-complete/src/gf.c:770-862 | accepted exactly under the alignment conditions; then prefix, middle and suffix multiply every unit up to the larger of the region and its leading gap, and nothing else |
| `Region.MultiplyRegion` | ext/gf-complete/src/gf_w8.c:1611-1660 | the whole routine with its shortcuts for 0 and 1: the outcome, exactly which bytes change and to what, for regions of every length; memory stays well formed, so calls can follow one another |
| `RegionCheck.ContainedExact` | ext/gf-complete/src/gf.c:843-862 | for multipliers from 2 on: a call changes nothing beyond its region, whatever memory holds, if and only if the region is not shorter than its leading gap |
| `RegionCheck.ShortRegionAccepted` | ext/gf-complete/src/gf.c:820-850 | such a short region passes the set-up: one byte at an odd address with 8-byte alignment |
| `RegionCheck.CheckPasses` | ext/gf-complete/src/gf_general.c:264-317 | the checker's comparison holds for every element of the result, two per byte for w = 4, in plain and composite fields |
| `RegionCheck.ElementIsNibble` | ext/gf-complete/src/gf_w4.c:132-144 | elements of w = 4 are the halves of a byte, low half first |
| `RegionCheck.ElementIsWord` | ext/gf-complete/src/gf_w16.c:374-382 | elements of whole bytes are the words read lowest byte first |
| `RegionCheck.EffectIsProduct` | ext/gf-complete/src/gf.c:864-991 | the shortcuts for 0 and 1 give the product wherever the region is made of whole units |
| `Region.FastMultiply` | ext/gf-complete/src/gf_w8.c:1611-1660 | the 64-bit lane loop over the middle has the same effect as the word-by-word loop |
| `AltMap.MultiplyRegion` | ext/gf-complete/src/gf_w16.c:770-829 | over byte memory with prefix, 16+16 interleaved middle and suffix: extract_word(dest, i) afterwards is val times extract_word(src, i), xored into the old word when asked, for every index of the region, also in place |
| `AltMap.WordFromPlaces` | ext/gf-complete/src/gf_w16.c:408-427 | the three branches of extract_word read one high and one low byte of the region for every index |
| `AltMap.LayoutMiddle` | ext/gf-complete/src/gf_w16.c:418-426 | word r of a 32-byte block is 256 times byte r plus byte r + 16 of the block |
| `AltMap.LayoutEdge` | ext/gf-complete/src/gf_w16.c:416-417 | words before and after the middle are read low byte first |
| `AltMap.MultiplyInterleaved` | ext/gf-complete/src/gf_w16.c:790-827 | the middle: every word becomes the product of the two words before it and no other byte changes |
| `AltMap.OneExact` | ext/gf-complete/src/gf_w16.c:779-780 | multiplier 1 skips the alignment test: extraction commutes for every memory if and only if both regions have the same gap or neither has a middle |
| `AltMap.PlacesDisjoint` | ext/gf-complete/src/gf_w16.c:408-427 | different words use different bytes of the interleaved layout |
| `AltMap.FourLookups` | ext/gf-complete/src/gf_w16.c:808-811 | four nibble lookups across the split bytes sum to val times the joined word |
| `AltHalves.MultiplyRegion` | ext/gf-complete/src/gf_w16.c:2136-2171 | over byte memory with prefix, half-and-half middle and suffix, between distinct buffers: composite extract_word commutes with the multiplication at every index of the region |
| `AltHalves.LayoutMiddle` | ext/gf-complete/src/gf_w16.c:400-405 | word j of the middle has element j of the first half as its low half and element j of the second half as its high half |
| `AltHalves.LayoutEdge` | ext/gf-complete/src/gf_w16.c:384-399 | words before and after the middle are read as they stand |
| `AltHalves.MultiplyHalves` | ext/gf-complete/src/gf_w8.c:1318-1328 | five base-field region calls make every word of the middle the composite product |
| `AltHalves.MultiplyInPlace` | ext/gf-complete/src/gf_w16.c:2160-2164 | what the five calls leave in each word when source and destination are one buffer, storing or adding |
| `AltInPlace.StoreInPlaceExact` | ext/gf-complete/src/gf_w16.c:2160-2164 | in a field, storing in place is right for every word if and only if the multiplier is 0 |
| `AltInPlace.AddInPlaceExact` | ext/gf-complete/src/gf_w16.c:2160-2164 | in a field, adding in place is right for every word if and only if the multiplier is in the base field or, with u = 1 + v0, v0 = s^2*u^3 and v1 = s*u*v0 |
| `AltInPlace.ExceptionalExists` | ext/gf-complete/src/gf_w16.c:2160-2164 | multipliers of the second kind exist: 11 in the field built over GF(4) with s = 2 |
| `History.RunsKeep` | webui/chunks.py:97-154 | after every run of additions with positive non-decreasing timestamps, for all capacities and spans: each list is within capacity and newest first, lower lists are spaced by their timespan, firstTime and lastTime are the list ends, the concatenation never increases in time, and a non-empty list implies the one above is full |
| `History.PushKeeps` | webui/chunks.py:109-128 | one addition keeps all of that through the whole cascade |
| `History.PushFlat` | webui/chunks.py:109-128 | whatever the state, an addition puts the sample in front and loses at most one old sample, keeping the order of the rest |
| `History.PushExact` | webui/chunks.py:109-154 | the reason for every loss: lists hand their oldest sample down as long as they have no room and the next list is empty or its newest sample at least its timespan older; the sample stops at the first that does not, and all lists below are untouched |
| `History.RunsExact` | webui/chunks.py:97-154 | closed form of every list after every run: the latest samples it has taken, as many as it has room for, where it has taken what the list above gave up, thinned to its timespan |
| `History.WithoutExact` | webui/chunks.py:130-142 | removing an entry leaves the end times right if and only if the newest entry stays, nothing stays, or the next entry is as new |
| `History.RunsSubsequence` | webui/chunks.py:97-154 | after every run the lists read from the top are the additions, latest first, with some left out |
| `History.RunsRetain` | webui/chunks.py:97-154 | no sample is duplicated or invented over any run |
| `History.RunsWindow` | webui/chunks.py:115-128 | the topmost list is exactly the window of the latest additions |
| `History.DeltaExact` | webui/chunks.py:235-286 | the pair for every history, look-back and interval, over the samples alone: which sample it starts from, the first later one old enough, else the oldest unless it is as new; from the oldest sample the one before it and itself; a single sample alone |
| `History.NoDelta` | webui/chunks.py:236-241 | an empty history gives no pair |
| `History.DeltaOlder` | webui/chunks.py:259-271 | the older sample is the newest one at or before data1.time - deltaInterval, else the oldest of all, and is absent exactly when that has the same time |
| `History.DeltaOrdered` | webui/chunks.py:235-286 | the returned pair is never out of time order, and strictly ordered unless data1 was the oldest sample |
| `History.SkipList` | webui/chunks.py:288-296 | a list whose oldest sample is newer than the sought time can be skipped without changing the linear scan |
| `Monitor.SampleList.constructor` | webui/chunks.py:99-107 | a new list is empty, with both times 0, in front of the lists below it |
| `Monitor.SampleList.AddData` | webui/chunks.py:109-122 | the mutually recursive objects do exactly what the value-level cascade says to every list of the chain, with the depth it reaches fixed by room and timestamps |
| `Monitor.SampleList.Extract` | webui/chunks.py:130-142 | removal of any entry, with the end times kept as the source keeps them |
| `Monitor.ChunkDataManager.constructor` | webui/chunks.py:176-210 | four empty lists, linked from current to monthly, already satisfy the invariant |
| `Monitor.ChunkDataManager.Add` | webui/chunks.py:221-222 | an addition cascades down the four lists exactly as far as room and timestamps say, and keeps the invariant whenever the clock has not gone back |
| `Monitor.ChunkDataManager.GetDelta` | webui/chunks.py:235-286 | the two-level cursor search returns exactly what linear scans of the concatenated lists return, for every interval and look-back |
| `Monitor.ChunkDataManager.GetFirstTime` | webui/chunks.py:216-219 | the time of the oldest sample in any list, or nothing |
| `Monitor.ChunkDataManager.GetLastTime` | webui/chunks.py:213-214 | the time of the newest sample, or 0 |
| `Monitor.FindArrayIndexByTime` | webui/chunks.py:288-296 | skipping whole lists by their oldest time does not change what the linear scan finds |
| `Monitor.FindTimedData` | webui/chunks.py:298-304 | stepping sample by sample stops exactly where the linear scan does |
| `Monitor.DataIter.GetNext` | webui/chunks.py:433-446 | advances one position in the concatenation, across list borders, and stays put at the end |
| `Monitor.DataIter.GetPrev` | webui/chunks.py:454-467 | goes back one position across list borders, and stays put at the start |
| `Monitor.DataIter.SetLast` | webui/chunks.py:475-483 | moves to the oldest sample of all |
| `Monitor.DataIter.GetNextArray` | webui/chunks.py:421-431 | moves to the head of the next list only if that is not empty |
| `Tree.LeafIsDecoded` | benchmarks/mstress/mstress_client.cc:531-542 | for every height and fan-out the creator's k-th leaf is exactly the node decoded from index k, and there are n^levels leaves |
| `Tree.DecodingIsBijective` | benchmarks/mstress/mstress_client.cc:531-542 | indices below n^levels and leaves are in bijection |
| `Tree.UnderCount` | benchmarks/mstress/mstress.py:380-385 | the creator visits n + n^2 + ... + n^levels nodes, the plan's formula |
| `Tree.UnderDistinct` | benchmarks/mstress/mstress_client.cc:324-371 | no node is visited twice |
| `Tree.UnderIsTree` | benchmarks/mstress/mstress_client.cc:324-371 | exactly the nodes of the tree are visited |
| `Tree.UnderOrdered` | benchmarks/mstress/mstress_client.cc:324-371 | nodes are visited in preorder: a directory before what goes into it, siblings by number |
| `Tree.ItoaIsDecimal` | benchmarks/mstress/mstress_client.cc:182-187 | the number in a name is decimal: digits only, read back as itself, no leading zero |
| `Tree.SuffixInjective` | benchmarks/mstress/mstress_client.cc:324-371 | different nodes have different path strings, whatever the name prefix |
| `Stress.PopUndoesPush` | benchmarks/mstress/mstress_client.cc:88-108 | Pop after Push restores the path if and only if the name is not empty and does not start with a slash |
| `Stress.PopExact` | benchmarks/mstress/mstress_client.cc:100-108 | Pop accepts a path if and only if it is something followed by a slash and the name, and leaves that something |
| `Stress.Client.Push` | benchmarks/mstress/mstress_client.cc:88-98 | the pushed path, including the empty and the slash cases |
| `Stress.Client.Pop` | benchmarks/mstress/mstress_client.cc:100-108 | accepts exactly when the path ends in a slash and the name |
| `Stress.Client.CreatePaths` | benchmarks/mstress/mstress_client.cc:324-371 | the recursion makes the nodes in preorder, counts them and restores the shared path; it succeeds if and only if none exists, and else stops at the first that does, with exactly the ones before it made and counted |
| `Stress.FileSystem.Mkdirs` | benchmarks/mstress/mstress_client.cc:373-383 | every missing directory on the way is made, existing ones stay; a file in the way is the only error, and stops it there |
| `Stress.DirsExact` | benchmarks/mstress/mstress_client.cc:376-378 | the directories on the way to a path are the path itself and whatever is before one of its slashes |
| `Stress.Client.CreateAll` | benchmarks/mstress/mstress_client.cc:373-401 | the whole phase makes the base directory and the tree below it, inner nodes as directories and leaves of the wanted kind, and counts n + n^2 + ... + n^levels; it succeeds if and only if no tree node exists and no file is in the way of the base |
| `Stress.Client.DecodePath` | benchmarks/mstress/mstress_client.cc:526-544 | the divide-and-prepend loop spells the path of the decoded node |
| `Stress.Client.RemovePaths` | benchmarks/mstress/mstress_client.cc:524-558 | for any order of distinct indices it succeeds if and only if every leaf is there and of the right kind, and exactly those leaves go; else it stops at the first that is not |
| `Stress.Client.RunTest` | benchmarks/mstress/mstress_client.cc:324-558 | create everything, then delete all leaves in any order: no call fails, what was there is as it was, and all that is new is directories, the base and the inner ones |

## Left out

- SSE and SSSE3 region code: vector permutations of the scalar loops modelled here.
- Carry-less multiplication for w = 64 and w = 128: same folds over masked polynomials.
- Division through the zero-sentinel tables and the w = 128 group multiplication with its cached operand.
- Region forms of group, log, table and composite multiplication in standard layout: loops of the scalar operations.
- Split 8-by-8 multiplication, full multiplication tables and the two-byte region tables: precomputed ring products.
- Cauchy regions beyond their set-up, `gf_error_check`, scratch sizes, initialisation dispatch and `gf_method.c`.
- Random numbers, timing programs and examples of gf-complete.
- AltHalves.MultiplyRegion: the base field's region call is its element-by-element meaning, and `gf_w8_composite_multiply_region_alt` also returns early for multiplier 0.
- AltHalves.MultiplyInPlace: only the five calls on the middle; prefix and suffix in place are `Region.SlowMultiply`.
- Region.MultiplyRegion: the alignments are multiples of 8, as the routines with a 64-bit loop pass; routines that pass their word size instead only use the word loop.
- Region.MultiplyByOne: byte by byte, as without vector instructions.
- Composite.InverseCorrect: the base field's inverse is any inverse, not one particular routine; Euclid and BitMatrix supply it.
- Monitor: HTML output, sockets, threads, locks and configuration of the web monitor; the recorded server table is an uninterpreted value.
- Stress.Client.CreatePaths: `Mkdir` and `Create` only refuse existing paths; missing parents, network errors, the 512-byte name buffer and 32-bit counters are not modelled.
- Stress.Client.RemovePaths: the shuffle is any order of distinct indices, and n^levels is exact instead of a `long double`; the final recursive removal of the base directory is not modelled.
- The stat phase of the stress client, plan parsing, cluster scripts, plotting and sample clients.
