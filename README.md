# imgthin in Dafny

A model of the thinning core of the `imgthin` crate. The crate thins a binary
image, given as rows of `bool` with `true` as foreground, down to a
one-pixel-wide skeleton. It has two engines, and a Cargo feature picks one at
build time:

- **Default engine** (`src/default.rs`). This is the two-sub-iteration scheme of
  Zhang and Suen. In each sub-iteration, every foreground pixel whose eight
  neighbours satisfy the rule is marked in a mask, and the mask is subtracted
  from the image. Thinning stops as soon as a sub-iteration marks nothing.
- **Table engine** (`src/ysc_whh.rs`). Its rule is broadened: B_p may be up to 7,
  and A_p = 2 has an extra branch. The rule is precomputed into two 16 x 16
  tables indexed by two nibbles of the neighbour ring. The engine then looks
  pixels up in place while walking the image.

Both engines share `calculate_ap_and_bp` (`src/common.rs`) and the `BinImage`
type with its row-major iterator (`src/bin_image.rs`).

The Dafny modules follow the source files:

| module | file | source |
|---|---|---|
| `Wrappers` | `wrappers.dfy` | `Result`/`Option` and the error kind |
| `Common` | `common.dfy` | `src/common.rs`: the ring [P2..P9], A_p (`CrossingNumber`), B_p (`Count`) |
| `BinImages` | `bin_image.dfy` | `src/bin_image.rs`: pixel reads, neighbours, the default rule, the `BinImage` and `BinImageIntoIter` classes |
| `DefaultThinning` | `default.dfy` | `src/default.rs` |
| `TableThinning` | `ysc_whh.dfy` | `src/ysc_whh.rs` |

### How the source's form carries over

- **Classes.** `BinImage` is a class with a `pixels` field, and `set_value` updates it in place. `BinImageIntoIter` is a class with an `(x, y)` cursor. Its ghost `Remaining()` is the row-major sequence of triples still to come.
- **Loops.** The loops of `calculate_ap_and_bp`, `new`, `try_from`, `sub`, `make_table`, `recursive` and `imgthin` are Dafny loops with invariants. Each is proved equal to a specification function:
  - `CrossingNumber`/`Count` for A_p and B_p;
  - `Marks`, `Step` and `Thin` for the default engine;
  - `TableEntry`, `PassFrom` and `TableThin` for the table engine.
- **Lemmas.** Properties of the engines are proved as lemmas about those functions.

### Quirks of the source, modelled as written

- **Default engine exits early** (`src/default.rs:26-28`). It returns as soon as one sub-iteration of a round removes nothing. The other sub-iteration of that round is never tried:
  - if the First sub-iteration is empty, the image is returned without a Second sub-iteration;
  - if the Second sub-iteration is empty, the round ends without another First sub-iteration.

  `Thin` follows that structure. `ThinIsStable` states what does hold at the end: the rule of one of the two sub-iterations deletes nothing. Whether a further round would change the image is not claimed.
- **Table engine runs one pass** (`src/ysc_whh.rs:100,109-135`). The iterator is made once, before the outer `while flag` loop. The first inner loop exhausts it, so a second outer round visits no pixel, leaves `flag` false and stops. Thinning is therefore a single in-place pass with the First table. `TableThin` is exactly that pass, and `TableThinning.ImgThin` is proved equal to it.
- **Table lookups read a reflected ring** (`src/ysc_whh.rs:66-76` and `115-116`):
  - `make_table` hands the rule the digits of the column nibble, then of the row nibble, in the order 3,2,1,0,7,6,5,4.
  - `imgthin` builds the column nibble from P2..P5 and the row nibble from P6..P9, most significant bit first.
  - So each lookup evaluates the rule on the ring (P5,P4,P3,P2,P9,P8,P7,P6), not on (P2..P9). `LookupIsReflectedRule` states this. A_p and B_p are unchanged by the reflection, but the corner tests are applied to other neighbours.
- **Operator precedence in the A_p = 2 branch** (`src/ysc_whh.rs:28,37`). The source reads `a && X || Y`, which Rust parses as `(a && X) || Y`. `ChenHsu` keeps that parse. `ChenHsuPrecedence` shows it makes no difference, because A_p = 2 forces 2 <= B_p <= 6.
- **Reads outside the grid are background** (`src/bin_image.rs:84-113`). `get_neighbors` uses `unwrap_or(false)` and explicit guards at x = 0 and y = 0.

## Model

| member | source | states |
|---|---|---|
| Common.CalculateApAndBp | src/common.rs:8-35 | B_p is the number of foreground neighbours of the ring [P2..P9], and A_p is the number of background-to-foreground transitions going once round the ring (P9 back to P2 included) |
| Common.RisesEqualFalls | src/common.rs:21-31 | going round the closed ring, there are as many foreground-to-background transitions as background-to-foreground ones, so A_p is a true crossing count |
| Common.CrossingBound | src/common.rs:18-31 | A_p never exceeds the number of foreground neighbours, nor the number of background neighbours |
| Common.RingBounds | src/common.rs:8-35 | for eight neighbours: B_p <= 8, A_p <= min(B_p, 8 - B_p), and hence A_p <= 4 |
| Common.CrossingZeroIffUniform | src/common.rs:21-31 | A_p = 0 exactly when all neighbours are background or all are foreground |
| Common.RotateKeepsClassification | src/common.rs:18-31 | starting the ring at another neighbour changes neither A_p nor B_p |
| Common.ReverseKeepsClassification | src/common.rs:18-31 | walking the ring the other way round changes neither A_p nor B_p |
| Common.ReflectKeepsClassification | src/common.rs:18-31 | the ring as the lookup tables see it, (P5,P4,P3,P2,P9,P8,P7,P6), has the same A_p and B_p as (P2..P9) |
| Common.CountNot | src/common.rs:19 | B_p of the complemented ring is 8 - B_p (in general, the length minus the count) |
| Common.CountExtremes | src/common.rs:19 | B_p is 0 exactly when no neighbour is foreground, and the full length exactly when all are |
| Common.ClassificationExamples | src/default.rs:52-65 | the `test_calculate_ap_bp` cases: all foreground gives (0, 8), T,T,F,F,T,F,T,T gives (2, 5), all background gives (0, 0) |
| BinImages.GetValue | src/bin_image.rs:52-60 | the pixel at column x of row y when both are in range, otherwise `InvalidInput` |
| BinImages.GetNeighbors | src/bin_image.rs:79-115 | the nine values are P1 (the pixel itself) and P2..P9 clockwise from north, each read at its offset and background when off the grid |
| BinImages.SinglePixelNeighbors | src/bin_image.rs:79-115 | a lone pixel sees itself and eight background neighbours |
| BinImages.DeletableAt | src/bin_image.rs:117-130 | the default rule in full: 2 <= B_p <= 6, A_p = 1, and the two corner products of the sub-iteration are false |
| BinImages.CornersMeaning | src/bin_image.rs:124-127 | the First sub-iteration needs P4 or P6 background or both P2 and P8 background; the Second needs P2 or P8 background or both P4 and P6 background |
| BinImages.DeletableIgnoresCenter | src/bin_image.rs:117-130 | the rule depends only on the eight neighbours, never on the pixel itself |
| BinImages.Deletable | src/bin_image.rs:117-130 | `sub_iter` of the default engine; a pixel it deletes has a background 4-neighbour and at least two foreground neighbours |
| BinImages.Minus | src/bin_image.rs:207-219 | subtracting a mask clears exactly the masked pixels and keeps every other one, so the result lies inside the image |
| BinImages.MinusCount | src/bin_image.rs:207-219 | when the mask lies inside the image, subtracting it removes exactly as many foreground pixels as the mask has |
| BinImages.SubsetCount | src/bin_image.rs:207-219 | an image inside another has no more foreground pixels, and equally many only when the two are equal |
| BinImages.TriplesFromLength | src/bin_image.rs:156-178 | from cursor (x, y), the iterator yields (height - y) * width - x triples |
| BinImages.RowMajorFrom | src/bin_image.rs:156-178 | from the start of row y0, pixel (x, y) is yielded at position (y - y0) * width + x, as (x, y, value) |
| BinImages.TriplesInGrid | src/bin_image.rs:156-178 | every triple the iterator yields lies on the grid and carries that pixel's value |
| BinImages.BinImage.New | src/bin_image.rs:25-39 | a height x width grid, every pixel set to the fill colour |
| BinImages.BinImage.TryFrom | src/bin_image.rs:185-200 | `InvalidInput` exactly when some row's length differs from the first row's; otherwise an image holding the rows unchanged |
| BinImages.BinImage.Wrap | src/bin_image.rs:199 | an image holding the given rectangular rows unchanged |
| BinImages.BinImage.Clone | src/bin_image.rs:17-20 | the derived `clone`: a fresh image with the same pixels |
| BinImages.BinImage.SetValue | src/bin_image.rs:62-73 | in range: that one pixel becomes the value and nothing else changes; out of range: `InvalidInput` and the image is untouched |
| BinImages.BinImage.Sub | src/bin_image.rs:207-219 | a fresh image equal to this one with every foreground pixel of the right-hand side cleared |
| BinImages.BinImageIntoIter.constructor | src/bin_image.rs:144-150 | the cursor starts at (0, 0) and the whole image in row-major order remains |
| BinImages.BinImageIntoIter.Next | src/bin_image.rs:156-178 | `None` exactly when the cursor has passed the last row; otherwise the pixel under the cursor, and the cursor moves right, wrapping to the next row; the remaining sequence loses its head |
| DefaultThinning.Marks | src/default.rs:17-22 | the mask of one sub-iteration holds only foreground pixels of the image |
| DefaultThinning.Step | src/default.rs:24 | after one sub-iteration a pixel is foreground exactly when it was foreground and the rule, evaluated on the image before the sub-iteration, does not delete it; the shape is kept |
| DefaultThinning.Thin | src/default.rs:8-32 | the thinned image lies inside the input |
| DefaultThinning.ThinEarlyExit | src/default.rs:12-31 | if the First mask is empty, the image is returned unchanged; if the Second mask is empty, the result is the image minus the First mask; otherwise the round removes at least two pixels and thinning continues from the smaller image |
| DefaultThinning.ThinIsStable | src/default.rs:26-31 | on return, the rule of the First or of the Second sub-iteration marks nothing in the result |
| DefaultThinning.ThinShapeAndErosion | src/default.rs:8-32 | the result has the input's height and width, and every foreground pixel of the result was foreground in the input |
| DefaultThinning.MarkPixel | src/default.rs:17-22 | one turn of the marking loop: the mask then agrees with the full mask on every pixel the cursor has passed, and the count is the number of marks among them |
| DefaultThinning.FillMask | src/default.rs:13-22 | the mask built by walking the image equals the sub-iteration's mask, and `c` is its number of pixels |
| DefaultThinning.SubIteration | src/default.rs:12-24 | one sub-iteration yields a fresh image equal to the image minus its mask, and `c` is the number of pixels removed |
| DefaultThinning.Recursive | src/default.rs:8-32 | the returned image is `Thin` of the input; the loop ends because every full round removes pixels |
| DefaultThinning.ImgThin | src/default.rs:34-44 | a ragged grid gives exactly `InvalidInput`; otherwise the result is `Thin` of the rows, of the same shape and containing only foreground pixels the input had |
| TableThinning.ChenHsuPrecedence | src/ysc_whh.rs:19-42 | with A_p = 2, the bound 2 <= B_p <= 6 holds, so the rule reduces to the two corner alternatives whichever way `&&` and `\|\|` associate |
| TableThinning.ChenHsuAgreesOnSimplePoints | src/ysc_whh.rs:19-35 | with A_p = 1 and B_p != 7, the table engine's rule and the default rule agree on every pixel |
| TableThinning.ChenHsu | src/ysc_whh.rs:8-43 | `sub_iter` of the table engine, with `a && X \|\| Y` parsed as Rust does; a deleted pixel has A_p of 1 or 2 and 2 <= B_p <= 7 |
| TableThinning.ChenHsuExamples | src/ysc_whh.rs:144-280 | all nine `test_subiter` cases: an all-foreground ring is kept, and the other eight, including B_p = 7 and A_p = 2 rings in both sub-iterations, are deleted |
| TableThinning.BinToDec | src/ysc_whh.rs:87-94 | four flags, most significant first, give a value below 16 |
| TableThinning.NibbleRoundTrip | src/ysc_whh.rs:87-94 | `bin_to_dec` and the four binary digits that `make_table` formats are inverse to each other in both directions |
| TableThinning.BinToDecExamples | src/ysc_whh.rs:324-329 | the `test_bin_to_dec` cases: 1000 is 8, 1100 is 12, 1110 is 14 |
| TableThinning.Bits4 | src/ysc_whh.rs:50-64 | the four flags that `format!("{:04b}", n)` and the character parse produce are bits 3, 2, 1 and 0 of n, most significant first |
| TableThinning.TableEntry | src/ysc_whh.rs:53-78 | the entry in row i, column j negates the rule on bits 0..3 of j followed by bits 0..3 of i |
| TableThinning.LookupIsReflectedRule | src/ysc_whh.rs:66-116 | looking up the nibbles of P2..P5 and P6..P9 gives the negated rule on the reflected ring (P5,P4,P3,P2,P9,P8,P7,P6), which has the same A_p and B_p |
| TableThinning.TableExample | src/ysc_whh.rs:282-305 | `test_direct_computation_vs_table`: the indices are 7 and 12, entry (12, 7) of the Second table is true, and it equals the First rule on 0,1,1,1,1,1,0,0 |
| TableThinning.MakeRow | src/ysc_whh.rs:51-79 | the inner loop builds sixteen entries, entry j being the table entry for row i, column j |
| TableThinning.MakeTable | src/ysc_whh.rs:45-85 | sixteen rows of sixteen entries, each the table entry for its row and column |
| TableThinning.Lookup | src/ysc_whh.rs:113-121 | packing P2..P5 into the column index and P6..P9 into the row index and reading the table gives the negated rule on the reflected ring (P5,P4,P3,P2,P9,P8,P7,P6) |
| TableThinning.PassFrom | src/ysc_whh.rs:111-131 | the rest of a pass keeps the image's shape |
| TableThinning.PassStep | src/ysc_whh.rs:111-131 | one step of the pass writes the looked-up value (or `false` for background) at the cursor and continues from the next pixel |
| TableThinning.PassErodes | src/ysc_whh.rs:111-131 | a pass writes only clears: an image inside the walked one stays inside it |
| TableThinning.PassKeepsDone | src/ysc_whh.rs:111-131 | a pass never changes a pixel the cursor has already passed |
| TableThinning.TableThin | src/ysc_whh.rs:96-138 | the result of the single pass lies inside the input |
| TableThinning.ClearedStep | src/ysc_whh.rs:111-131 | writing a value at the cursor and moving on adds a cleared foreground pixel to the passed range exactly when that pixel is foreground and the value is false |
| TableThinning.RunPass | src/ysc_whh.rs:110-131 | running the shared iterator to its end leaves the written image equal to the pass from the cursor's starting point; `flag` is true exactly when some foreground pixel at or after that point ended up cleared |
| TableThinning.TableThinChanges | src/ysc_whh.rs:109-127 | the single pass changes the image exactly when it clears some foreground pixel, which is what the first pass's `flag` reports |
| TableThinning.ImgThin | src/ysc_whh.rs:96-138 | a ragged grid gives exactly `InvalidInput`; otherwise the result is the single First-table pass over the input |

## Left out

- **Image files.** PNG loading and saving (the example binary), the text fixture loader (`TryFrom<PathBuf>`) and `Display` are I/O. They are not part of this model.
- **File-based tests.** The tests that read `test_data/*.txt` cannot be stated without their fixtures:
  - `test_get_neighbors`, `test_sub` and `test_subiter` of `src/default.rs`;
  - `test_get_neighbors` and `test_sub` of `src/bin_image.rs`;
  - `test_make_table` and both `test_char_b` tests.
- **Feature switch.** The Cargo feature in `src/lib.rs` that picks an engine is not modelled. The two engines are two modules, `DefaultThinning` and `TableThinning`.
- **`get_width`, `get_height` and `get_pixels`.** These are the functions `Width` and `Height` and the field `pixels`.
- **`SubIter`.** It is the datatype `Common.SubIter`, and cloning it is implicit.
- **Panics, which become preconditions.** An empty grid or an empty first row makes the iterator's `height - 1` or `get_value(..).unwrap()` panic. So do both `imgthin` functions, which iterate the image. All of them require a rectangular grid to have at least one row and one column.
- **Rectangular images.** `BinImage` carries no class invariant. Instead, `Wrap`, `Clone` and `Sub` require rectangular rows. `New` and `TryFrom` only build rectangular images, and `SetValue` keeps the shape.
- **Sub precondition.** `Sub` requires the right-hand side's foreground to lie inside this image, because `set_value(..).unwrap()` would panic otherwise.
- **BinImages.BinImageIntoIter.Next.** It does not model the panic on an empty image, because the constructor requires a non-empty one.
- **Integer width.** Integers are unbounded, so the usize overflow of `x + 1` and `y + 1` in `get_neighbors` at `usize::MAX` is not modelled.
- **make_table strings.** `make_table` formats nibbles as strings of '0'/'1' and parses them back. The model uses the arithmetic digits `Bits4` instead, and its panic on another character cannot occur.
- **TableThinning.ImgThin `?` on `set_value`.** Both writes are at the iterator's own in-range coordinates, so the `?` is not modelled as an error branch.
- **Default-engine loop.** The two-element `for sub_iter in sub_iters` loop of `recursive` is unrolled into two `SubIteration` calls. The tail call is a `while` loop.
- **DefaultThinning.Thin.** Idempotence (a second thinning changes nothing) is not claimed, because the early exit can stop after a Second sub-iteration without re-checking the First rule.
