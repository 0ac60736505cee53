# libde265 motion decision and picture buffer, modelled in Dafny

This project models two sequential parts of libde265.

The first is the encoder's motion decision for one inter prediction block
(`libde265/encoder/algo/pb-mv.cc`):

- `sad` is the strided sum of absolute differences between two 8-bit windows.
- `Algo_PB_MV_Search::analyze` runs a full-pel exhaustive search. It visits
  every displacement of a window in raster order and skips blocks that leave
  the reference picture. It keeps the first candidate of least SAD.
- `Algo_PB_MV_Test::analyze` takes a Zero, Random, Horizontal or Vertical
  test vector.
- Both strategies then code the vector against the list-0 predictor
  (`mvd = raw - mvp`, `mv = mvp + mvd`). They write the block's motion syntax
  and motion field, and fill in the no-residual cost.

The second is the decoded-picture buffer `de265_image` (`libde265/image.c`):

- initialisation and release;
- allocation that reuses buffers (the three sample planes and three
  per-picture metadata arrays), with 16-byte aligned row pitches and
  format-dependent chroma sizes;
- `memset` fill, the row-by-row copy between pictures, and plane selection;
- the pending-task counter.

Layout:

| file | module | contents |
|---|---|---|
| `util.dfy` | `Util` | 8-bit samples, `Option`, `Abs` |
| `motion.dfy` | `Motion` | motion vectors and the motion field of a block |
| `block_cost.dfy` | `BlockCost` | the SAD specification, its properties, and the `sad` loop |
| `mv_search.dfy` | `MvSearch` | the search window loop and its first-minimum specification |
| `pb_mv.dfy` | `PbMv` | the coding block (a class) and the two `analyze` strategies |
| `plane_ops.dfy` | `PlaneOps` | `memcpy`/`memset` on planes, and the row copy with its specification |
| `picture.dfy` | `Picture` | the `Image` class: geometry, allocation, fill, copy, plane access, counter |

The picture and the coding block are classes whose methods update fields and
arrays in place. `sad`, the search loop and the copy loop are loop methods
proved against specification functions (`Sad`, `IsFirstMinimum`,
`CopyRows`); the fill is an in-place update of every array element, stated
directly in its postcondition. The predictor, the reference and input luma planes, the
distortion of the predicted block and the value `rand()` returns are
parameters.

## Model

| member | source | states |
|---|---|---|
| BlockCost.ComputeSad | libde265/encoder/algo/pb-mv.cc:141-159 | walking both windows with two running pointers (stride − w added at each row end) yields exactly the SAD of the two w×h windows |
| BlockCost.WindowPos | libde265/encoder/algo/pb-mv.cc:147-156 | every sample position the two pointers reach in a window that fits lies inside the buffer |
| BlockCost.RowSadZeroIff | libde265/encoder/algo/pb-mv.cc:148-152 | the SAD of one row is 0 iff the two runs of samples are equal |
| BlockCost.RowSadBound | libde265/encoder/algo/pb-mv.cc:148-152 | a row of n samples has SAD at most 255·n |
| BlockCost.SadZeroIff | libde265/encoder/algo/pb-mv.cc:141-159 | the SAD is 0 iff the two windows hold the same samples row by row (both directions) |
| BlockCost.SadBound | libde265/encoder/algo/pb-mv.cc:141-159 | the SAD of a w×h window is at most 255·w·h |
| MvSearch.FitsWindowIn | libde265/encoder/algo/pb-mv.cc:203-209 | a block that passes the bounds test is read only from inside the reference plane, and the input block only from inside the input plane |
| MvSearch.ScanSkip | libde265/encoder/algo/pb-mv.cc:203 | skipping an out-of-picture position keeps the loop state "best is the first minimum of the candidates visited so far" |
| MvSearch.ScanVisit | libde265/encoder/algo/pb-mv.cc:205-216 | replacing the kept candidate only on a strictly smaller cost keeps that loop state |
| MvSearch.ScanNextRow | libde265/encoder/algo/pb-mv.cc:200-201 | after the last column of a window row the scan continues at the first column of the next row in raster order |
| MvSearch.ScanDone | libde265/encoder/algo/pb-mv.cc:200-217 | after the last window row the kept candidate is the first minimum of all candidates, or none was below 0x7fffffff |
| MvSearch.SearchStep | libde265/encoder/algo/pb-mv.cc:202-216 | one pass of the inner loop body (bounds skip, SAD, strict-min update) advances the loop state by one position |
| MvSearch.FullPelSearch | libde265/encoder/algo/pb-mv.cc:198-216 | the result is a candidate of the window inside the picture with least SAD, and every earlier candidate in raster order costs strictly more; with no result, every candidate costs at least 0x7fffffff |
| MvSearch.FirstMinimumUnique | libde265/encoder/algo/pb-mv.cc:211-216 | the strict update makes the winner unique: two first minima of the same search are equal |
| MvSearch.CostBound | libde265/encoder/algo/pb-mv.cc:205-209 | every candidate's cost is at most 255·pbW·pbH |
| MvSearch.NoneOnlyWithoutCandidates | libde265/encoder/algo/pb-mv.cc:198-216 | when 255·pbW·pbH is below the start cost, the search finds nothing only if no position of the window lies inside the picture |
| MvSearch.CostZeroIffExactMatch | libde265/encoder/algo/pb-mv.cc:205-209 | a candidate costs 0 iff the reference block there equals the input block |
| MvSearch.ExactMatchWins | libde265/encoder/algo/pb-mv.cc:211-216 | if the zero displacement is a candidate and the reference equals the input there, the winner costs 0 and is an exact match, and it is the zero displacement unless an earlier candidate is also an exact match |
| PbMv.RandomComponent | libde265/encoder/algo/pb-mv.cc:70-73 | for range ≥ 0, each Random component lies in [−range, range] |
| PbMv.RandomComponentCovers | libde265/encoder/algo/pb-mv.cc:70-73 | every value of [−range, range] is produced by some draw |
| PbMv.TestPattern | libde265/encoder/algo/pb-mv.cc:64-84 | the Random pattern stays within [−range, range] in both components |
| PbMv.UniPredL0 | libde265/encoder/algo/pb-mv.cc:55-92 | the slot gets mvd = raw − mvp and mv = mvp + mvd = raw; merge off, merge index 0, PRED_L0, refIdx 0 in the syntax and in the motion field, mvp flag 0, list 0 used and list 1 not; the list-1 entries are left as they were |
| PbMv.SearchVector | libde265/encoder/algo/pb-mv.cc:214-215 | the raw search vector is a multiple of 4 in each component and divided by 4 gives back the candidate's displacement from (x, y) |
| PbMv.Commit | libde265/encoder/algo/pb-mv.cc:86-133 | only the chosen slot changes, to the coded decision; distortion is the predicted block's SSD, rate is 5 and rqt_root_cbf is 0 |
| PbMv.AnalyzeTest | libde265/encoder/algo/pb-mv.cc:33-136 | the slot holds the test pattern coded against the predictor: Zero gives mv (0,0) and mvd −mvp, Horizontal gives mvd (range − mvp.x, −mvp.y), Vertical gives mvd (−mvp.x, range − mvp.y), Random keeps mv within [−range, range]; the other slots are unchanged |
| PbMv.AnalyzeSearch | libde265/encoder/algo/pb-mv.cc:162-273 | with a result, the slot holds the first-minimum displacement ×4 coded against the predictor; without one, every candidate cost at least 0x7fffffff and the slot's stale list-0 mvd is what gets coded; the cost fields are set and the other slots are unchanged |
| Picture.AlignUp | libde265/image.c:78-79 | the pitch is a multiple of 16 and the least one not below the width |
| Picture.ChromaSizeAsWritten | libde265/image.c:66-76 | the allocator's chroma size as written: mono and 4:4:4 keep w×h, 4:2:0 halves both sides rounding up, 4:2:2 keeps the width and halves the height rounding up |
| Picture.ChromaSize | libde265/image.c:66-76 | the chroma plane is the least size whose subsampled grid covers the luma plane in each direction |
| Picture.ChromaSizeAsWrittenAgrees | libde265/image.c:66-76 | for mono, 4:2:0 and 4:4:4 the allocator's chroma size is that covering size |
| Picture.ChromaSizeAsWrittenWrongFor422 | libde265/image.c:74-76 | an 8×8 4:2:2 picture gets an 8×4 chroma plane, whose grid does not cover the luma rows |
| Picture.PuWidth | libde265/image.c:134 | the grid width in prediction units is not negative and, for a non-empty picture, not below the width in minimum coding blocks |
| Picture.PuHeight | libde265/image.c:135 | the same for the height |
| Picture.PbInfoAsWritten | libde265/image.c:137-144 | as written, the pb_info size always becomes puWidth·puHeight |
| Picture.PbInfoAsWrittenStaleStride | libde265/image.c:137-144 | as written, a 4-wide grid followed by an 8-wide grid of the same size keeps pitch 4, so units (4,0) and (0,1) share an entry |
| Picture.PbIndexInjective | libde265/image.c:139-140 | with the pitch equal to the grid width, distinct units get distinct entries inside the array |
| Picture.PbInfoResizedNoAlias | libde265/image.c:137-144 | with the pitch kept in step with the grid, every unit of the new grid has its own in-range entry whatever the old size was |
| Picture.AllocGeometry | libde265/image.c:64-87 | the new geometry records w, h, the format and border 0; both pitches are the aligned widths; the chroma size is the covering size, which is the allocator's own size for every format but 4:2:2 (see Findings) |
| Picture.Image.Init | libde265/image.c:43-53 | every field is zero except the two picture order values, which are −1 |
| Picture.Image.Free | libde265/image.c:149-165 | every field is zero afterwards, the buffers and metadata arrays included |
| Picture.Image.Alloc | libde265/image.c:57-146 | the planes and geometry are kept when size, format and border are unchanged, and are otherwise replaced by fresh planes of the new geometry (mono has no chroma planes); without a parameter set the metadata is untouched; with one, each array has its new size and is reallocated only when its size changed or it is missing |
| Picture.Image.ReallocPlanes | libde265/image.c:64-107 | fresh planes sized pitch × rows for luma and for both chroma planes unless mono, under the new geometry |
| Picture.Image.ResizeIntraPredMode | libde265/image.c:114-119 | the size becomes PicWidthInMinPUs·PicHeightInMinPUs, and the array is reallocated iff that size changed |
| Picture.Image.ResizeCbInfo | libde265/image.c:124-129 | the size becomes PicSizeInMinCbsY, and the array is reallocated iff the size changed or the array is missing |
| Picture.Image.ResizePbInfo | libde265/image.c:134-144 | size and pitch are those of the corrected layout PbInfoResized: the size becomes puWidth·puHeight, as written, and the pitch puWidth, which is the as-written pitch except when the size is unchanged and the grid width is not (see Findings); the array is reallocated iff the size changed or the array is missing |
| Picture.Image.Fill | libde265/image.c:168-181 | each plane given a value ≥ 0 holds that value in every byte, and each plane given a negative value is unchanged |
| PlaneOps.FillPlane | libde265/image.c:171 | memset sets every byte of the plane to the value |
| PlaneOps.CopyRun | libde265/image.c:187 | memcpy of n samples replaces exactly the destination run with the source run |
| PlaneOps.CopyPlane | libde265/image.c:186-188 | the row loop leaves the destination equal to the specification CopyRows of its old content |
| PlaneOps.CopyRowsRows | libde265/image.c:186-188 | after the copy, each of the first h destination rows holds the source row over the copied width |
| PlaneOps.CopyRowsOutside | libde265/image.c:186-188 | every destination byte outside the copied rows keeps its value |
| PlaneOps.CopyRowsPadding | libde265/image.c:186-188 | the bytes of a copied row past the copied width keep their value |
| Picture.CopyWindow | libde265/image.c:186-188 | copying one plane pair makes the windows equal row by row and leaves everything else in the destination unchanged |
| Picture.Image.CopyFrom | libde265/image.c:184-196 | luma rows match the source over its width and height; chroma rows likewise over the chroma size unless the source is mono, in which case the chroma planes are untouched; every byte outside the copied rows keeps its value |
| Picture.Image.GetImagePlane | libde265/image.c:199-207 | channel 0 is luma with the luma pitch, channels 1 and 2 the chroma planes with the chroma pitch, any other channel no plane and pitch 0 |
| Picture.Image.IncreasePendingTasks | libde265/image.c:210-213 | the counter grows by n |
| Picture.Image.DecreasePendingTasks | libde265/image.c:215-224 | the counter drops by n and stays non-negative, and the finished condition is broadcast iff it reaches 0 |
| Picture.PendingTasksScenario | libde265/image.c:210-224 | adding 3 tasks, then finishing 1 and 2, ends at 0 with exactly one broadcast |

## Left out

- The motion vector predictor (`fill_luma_motion_vector_predictors`), inter prediction (`generate_inter_prediction_samples`), the SSD distortion (`compute_distortion_ssd`), `set_mv_info`, `get_image` and `get_image_plane_at_pos` are not part of this model. They are defined in other libde265 files. The predictor, the planes and the distortion are parameters.
- `rand()` is not modelled; the value it returned is a parameter of the Random pattern.
- The `mCodeResidual` path is only an assertion failure in the source, so only the no-residual path is modelled. The unused locals are left out too.
- The mutex, the condition variable, `wait_for_completion` and the atomicity of the counter updates are left out. The broadcast is a returned flag.
- Allocation failure is left out; a reallocation is a fresh array and reuse is the same array reference.
- Border arithmetic is left out: the allocator always uses border 0, so every `+2*border` term is 0.
- PbMv.UniPredL0: the 16-bit storage of mvd and mv components is not modelled (the vectors are unbounded integers). Nor is C's `<<2` on a negative displacement, which the model writes as multiplication by 4.
- BlockCost.ComputeSad: the 32-bit `int` accumulator is unbounded here. BlockCost.SadBound shows the sum stays below 2^31 for every block up to 2^23 samples.
- Picture.Image.Fill: the value is limited to 0..255 rather than truncated to a byte as `memset` does. A chroma value ≥ 0 is only accepted when the chroma plane exists, because the source would write a mono picture's missing chroma plane.
- Picture.Image.CopyFrom: requires the destination to be at least as large as the source and the two pictures to share no plane. The source assumes both without checking.
- Picture.Image.CopyFrom: the source interleaves the Cb and Cr rows; the model copies Cb and then Cr. The planes are distinct, so the result is the same.
- Picture.Image.ReallocPlanes: when a picture switches to mono, the source drops the old chroma buffers without freeing them. The model only sets the planes to null, because memory release is not modelled.
- Picture.Image.GetImagePlane: the pitch is always returned; the source writes it only when the caller passes a pitch pointer.
- Picture.AllocGeometry: for 4:2:2 it records the corrected chroma size ((w+1)/2 × h) instead of the w × (h+1)/2 that image.c:74-76 computes. For mono, 4:2:0 and 4:4:4 it equals the allocator's size, and its postcondition says so. The as-written size is Picture.ChromaSizeAsWritten.
- Picture.Image.ReallocPlanes: allocates 4:2:2 chroma planes of the corrected size from Picture.AllocGeometry, not of image.c's size.
- Picture.Image.Alloc: inherits both corrections, the 4:2:2 chroma size from Picture.Image.ReallocPlanes and the pb_info pitch from Picture.Image.ResizePbInfo. On every other input its new state is that of de265_alloc_image.
- Picture.Image.ResizePbInfo: sets the pitch to puWidth on every call. image.c:140 sets it only when the array is reallocated, so the two differ when a grid of unchanged area has a new width. Its postcondition states agreement with Picture.PbInfoAsWritten in every other case.
- Metadata contents (`CB_ref_info`, `PB_ref_info`, intra modes) are left out; only the sizes, the pitch and the reallocation decisions are modelled.
- Picture.Image.Free: the release of the buffers is not modelled; what remains is the final `memset`, which resets every field to zero.
- The zero value of `PicState` and of the chroma format come from headers that are not part of this model. They are taken to be UnusedForReference and mono.

## Findings

| source | as written | input that shows it | evidently intended | confidence | as-written member | corrected member |
|---|---|---|---|---|---|---|
| libde265/image.c:74-76 | for 4:2:2 the chroma height is halved and the width kept | an 8×8 4:2:2 picture gets an 8×4 chroma plane | 4:2:2 halves the width and keeps the height (SubWidthC = 2, SubHeightC = 1 in Table 6-1 of ITU-T H.265), giving 4×8 | not executed | Picture.ChromaSizeAsWrittenWrongFor422 | Picture.ChromaSize |
| libde265/image.c:137-144 | pb_info_stride is set only when the pb_info size changes or the array is missing | a 4×8 unit grid followed by an 8×4 grid keeps size 32 and pitch 4, so units (4,0) and (0,1) both map to entry 4 | the pitch follows the grid width on every allocation | not executed | Picture.PbInfoAsWrittenStaleStride | Picture.PbInfoResizedNoAlias |

The allocator in the model (`Picture.AllocGeometry`, `Picture.Image.ResizePbInfo`, and through them `Picture.Image.ReallocPlanes` and `Picture.Image.Alloc`) uses the corrected behaviour. "## Left out" names each of these members and states where it departs from image.c. The as-written behaviour is `Picture.ChromaSizeAsWritten` and `Picture.PbInfoAsWritten`.
