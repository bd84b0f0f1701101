# Verified models of the kernel's compositor and core subsystems

This project models the parts of a small x86_64 kernel in which the hard reasoning lives, and proves
what they are for. Everything is stated for all inputs, all runs or all interleavings; where the
kernel does not keep a promise, a failing input is given together with the exact condition under which
the promise holds, or, where the list below says so, a bound on how far it is missed.

| file | subject |
|---|---|
| `Rects.dfy`, `Damage.dfy` | rectangle algebra and the bounded damage list |
| `Pixels.dfy` (`Pixels`, `SimdRows`), `Roots.dfy`, `Blit.dfy` | blending, vector rows, corner masks, scissored blits |
| `Scene.dfy` (`DepthOrder`, `Scene`) | stable depth sort and the from-scratch composite |
| `Bands.dfy`, `Compose.dfy` | horizontal bands, composing and publishing the damage |
| `Compositor.dfy` (`CompositorSpec`), `CompositorObjects.dfy` | the compositor as a state machine, and its objects |
| `Barrier.dfy`, `ParallelFrames.dfy` | the epoch / claim / done-count barrier between processors, and frames composed through it |
| `Heap.dfy`, `Pmm.dfy`, `Vmm.dfy` | heap, frame allocator, four-level page tables |
| `Xhci.dfy` | producer and event rings of the USB controller driver |
| `Raster.dfy`, `Flatten.dfy` | winding-number fill and bounding box; curve flattening |
| `RunQueue.dfy` | the circular run queue |
| `Vfs.dfy`, `TarArchive.dfy`, `VfsTree.dfy` | the file tree, the archive bytes, mounting and looking paths up |
| `Anim.dfy` (`Fixed`, `Easings`), `AnimRuns.dfy` | Q16.16 arithmetic, easing curves, animation runs |
| `Basics.dfy` (`Options`, `Division`) | the option type and arithmetic lemmas shared by the others |

The headline result is `CompositorSpec.EveryFrameShowsComposite`: over every run of registrations,
removals, moves, depth changes, pixel writes, marks and frames, after each frame every scanout pixel has
the colour that filling the background and blitting every surface in stable depth order would give it.
Writes and marks may come in any order, and a frame may fall between them. Every frame needs a damage
list that forgets nothing and a repaint request with a new background; the frame that is looked at also
needs marks that tell of every change, while earlier frames need not have had them.
`CompositorSpec.CarefulCallersSeeComposite` replaces that condition by books a caller can keep from the
calls it makes, and `CompositorSpec.FullRequestRecovers` shows that after any run at all a full repaint
starts a good one. `CompositorObjects.Compositor.Frame` ties the loops over slots, damage
rectangles, bands, rows and vector blocks to that state machine, for every instruction set and number of
processors. There the bands run one after another; `ParallelFrames.EveryRunIsSequential` shows that this is
no loss: over every interleaving of the claiming protocol and of the single pixel writes of all processors,
the screen between two calls is the one a single processor would have drawn. Colours are compared without
the ignored fourth byte. What the reference composite is, is stated without the code's own choice of blit:
`Scene.TopmostIsLaidOverRest` takes it apart from the top down, and `Scene.LaidMeans` says what one surface
leaves on a pixel from its fields alone.

Where code and documentation disagree, the code is followed:

- `damage_add` overwrites the first rectangle when the list overflows, although the header promises
  that correctness is preserved (src/compositor/damage.h:11). `DamageList.AddedCoversIff` gives the
  exact condition, `DamageList.OverflowDropsFirstRect` an input that loses a pixel.
- A partial mark after a full mark shrinks it (`CompositorSpec.MarkRectKeepsMarksIff`,
  `CompositorSpec.PartialMarkForgetsFullMark`).
- A removed surface keeps its snapshot, so its first frame after a new registration need not damage its
  whole rectangle (src/compositor/compositor.c:57-58); exactly when it does is
  `CompositorSpec.FirstFrameDamagesAllIff`, and `CompositorSpec.StaleSnapshotHidesSurface` is a surface
  that stays invisible.
- The barrier is safe for ever exactly from states with all workers parked and all of them awaited
  (`Barrier.SafeForeverIff`); booting leaves another state (`Barrier.BootIsNotQuiescent`,
  `Barrier.BootRace`), and so does asking one processor to compose while workers spin, where only
  `Barrier.OneBandIsAlwaysComposedOnce` remains.
- The vector rows are said to match the scalar loop byte for byte (src/compositor/blit_simd.c:21-22).
  Colours always do; whole words exactly under `SimdRows.VectorWordIsScalarIff`
  (`SimdRows.TransparentTexelDiffers` is the failing input).
- A contiguous allocation at frame 0 reads as failure although its frames are taken
  (`Pmm.FrameAllocator.AllocContig`, `Pmm.FrameZeroReadsAsFailure`), and a bitmap that would fit at
  address 0 is taken for no room (`Pmm.PlaceBitmap`).
- The base of a 2 MiB page is masked at bit 13 instead of bit 21 (`Vmm.MegaTranslatesIff`); the entries
  that matter have reserved bits set, which the processor rejects. Bit 7 of a level-1 entry selects a memory
  type; the kernel takes it for "huge" and reports the page as unmapped (`Vmm.PatPageReadsAsUnmapped`).
  `Vmm.TranslatesAsProcessorIff` is the exact condition for agreeing with the processor. A request to map no bytes maps a page
  unless it is aligned (`Vmm.EmptyRequestMapsAPage`).
- A block freed twice is said to be caught (src/mm/heap.c:116). No header ever loses its magic: the second
  call does nothing to the list, whether the block is still in it (`Heap.FreedTwiceIsSilent`) or has been
  merged away (`Heap.KernelHeap.Kfree`).
- An archive path that ends in two slashes never becomes a file (`Vfs.LastIsRecognised`). A prefix that
  uses all its 155 bytes loses the last one (`Vfs.FullPathIsArchivePathIff`, `Vfs.LongPrefixIsNotFound`),
  and a name that uses all its 100 bytes runs on into the next field (`TarArchive.HeaderIsReadIff`,
  `TarArchive.FullNameRunsOn`). A size that is padded with leading spaces is read as 0
  (`TarArchive.LeadingSpaceReadsAsZero`).
- `vfs_read` adds offset and count in 64 bits, and `sys_read` passes the caller's count on
  (src/arch/x86_64/syscall.c:130). The clip works exactly when the sum does not wrap
  (`VfsTree.ClipIsRightIff`, `VfsTree.HugeCountIsNotClipped`).
- The flattened polyline stays near the curve, but the curve need not stay near the polyline: a curve that
  returns to its start vanishes (`Flatten.ClosedLoopVanishes`), and one that runs past its end along its own
  chord is cut (`Flatten.OvershootIsCut`). `Flatten.CurveFollowsPolyline` and `Flatten.StaysBesideChord` say
  where it does.
- `FX_TO_INT_ROUND` does not round negative values to nearest (`Fixed.ToIntIsNearestIff`); −1.0
  becomes −2.
- The easing curves are said to return values in [0, ONE] (src/compositor/anim.c:115). `Easings.EaseRange`
  gives the range of each: `ease_out_back` leaves it exactly between two progress values; a Bezier curve
  with unit control points by at most 10/65536, and it does (`Easings.BezierOvershoots`).
- The Bezier axis is said to be monotone for unit control points (src/compositor/anim.c:159). The exact
  curve is (`Easings.ExactRises`), the rounded one dips (`Easings.AxisDips`) by at most 20/65536
  (`Easings.AxisDipsLittle`).
- A byte binding wraps exactly when its bounds miss the byte range (`AnimRuns.ByteStaysInBoundsIff`,
  `AnimRuns.HighBoundsWrap`).
- A timed animation whose tick is shorter than 1/65536 of its duration never moves
  (`AnimRuns.FinishesIff`).

## Model

| member | source | states |
|---|---|---|
| `Rects.Intersect` | src/compositor/rect.h:22-35 | holds exactly the pixels of both rectangles |
| `Rects.Union` | src/compositor/rect.h:37-46 | the least rectangle around both |
| `Rects.OverlapMeansSharedPixel` | src/compositor/rect.h:48-52 | the overlap test is true exactly when a pixel is shared |
| `Rects.BoundedStaysInt32` | src/compositor/rect.h:22-46 | for bounded rectangles no sum or difference leaves int32 and results stay bounded |
| `DamageList.Absorb` | src/compositor/damage.c:20-38 | the merge loop ends with a rectangle that overlaps none of the kept ones |
| `DamageList.AddedIsDisjoint` | src/compositor/damage.c:20-53 | every addition keeps at most sixteen non-empty, pairwise disjoint rectangles |
| `DamageList.AddedCovers` | src/compositor/damage.c:20-53 | under the condition no damaged pixel is forgotten |
| `DamageList.AddedCoversIff` | src/compositor/damage.c:20-53 | no damaged pixel is forgotten exactly when a slot is free, the new rectangle overlaps, or the old first one lies in the collapse of the others |
| `DamageList.AddedExactly` | src/compositor/damage.c:40-53 | an append without overlap covers the old pixels and the new ones and nothing else |
| `DamageList.OverflowDropsFirstRect` | src/compositor/damage.c:40-50 | seventeen separate dots: the first one is lost |
| `DamageList.ClippedIsIntersection` | src/compositor/damage.c:55-65 | clipping covers exactly the old pixels inside the bounds |
| `DamageList.ClippedIsDisjoint` | src/compositor/damage.c:55-65 | clipping keeps the rectangles disjoint, non-empty and inside the bounds |
| `DamageList.UnionAllIsBbox` | src/compositor/damage.c:67-72 | folding unions gives the least enclosing rectangle |
| `DamageList.AreaCountsCoveredPixels` | src/compositor/damage.c:74-81 | over a disjoint list the area sum is the number of covered pixels |
| `DamageList.Damage.Add` | src/compositor/damage.c:20-53 | the array and count hold exactly the specified list afterwards |
| `DamageList.Damage.MergeOnce` | src/compositor/damage.c:26-38 | one scan swallows the first overlapping rectangle by swap-remove, or reports none |
| `DamageList.Damage.Collapse` | src/compositor/damage.c:40-50 | the overflow branch leaves one rectangle around the new one and all but the first old one |
| `DamageList.Damage.Clip` | src/compositor/damage.c:55-65 | in-place compaction equals the clipped list, order kept |
| `DamageList.Damage.Bbox` | src/compositor/damage.c:67-72 | the bounding box of the list |
| `DamageList.Damage.AreaSum` | src/compositor/damage.c:74-81 | the sum of the areas |
| `Pixels.Mul8IsRoundedQuotient` | src/compositor/blit.c:177-180 | the division-free product is the quotient by 255, rounded |
| `Pixels.Mul8FitsIn16Bits` | src/compositor/blit_simd.c:71-76 | no intermediate value exceeds 16 bits |
| `Pixels.ChannelSum` | src/compositor/blit.c:187-248 | the clamps to 255 never fire and the blend is within one step of the exact mean |
| `Pixels.TwoProductsError` | src/compositor/blit.c:270-284 | two products in a row, as for texel alpha, surface alpha and outline, are off by less than one step |
| `Pixels.OverMixes` | src/compositor/blit.c:187-248 | a blend whose weight is off by less than one step is within two steps of the exact weighted mean |
| `Pixels.BlendPixel` | src/compositor/blit.c:259-300 | the shortcuts for 0 and 255 agree with the general blend; what happens to the ignored byte |
| `SimdRows.Mul8LaneIsScalar` | src/compositor/blit_simd.c:71-76 | no lane wraps: every lane equals the scalar product |
| `SimdRows.BlendBlockIsScalar` | src/compositor/blit_simd.c:90-139 | unpack, shuffle, multiply, pack of four pixels is four scalar pixels with the ignored byte 255 |
| `SimdRows.AlphaWord` | src/compositor/blit_simd.c:90-217 | vector and scalar words always have the same colour |
| `SimdRows.VectorWordIsScalarIff` | src/compositor/blit_simd.c:45-139 | a vector block stores the scalar word exactly when the old ignored byte was 255, the texel is not fully transparent, or the row is skipped |
| `SimdRows.TransparentTexelDiffers` | src/compositor/blit_simd.c:45-139 | a transparent texel over a zeroed pixel: the scalar loop leaves 0, the block stores 255 |
| `SimdRows.CopyRowSse2` | src/compositor/blit_simd.c:78-88 | every word of the run and no other is copied, for every length |
| `SimdRows.CopyRowAvx2` | src/compositor/blit_simd.c:155-167 | the same with blocks of eight |
| `SimdRows.AlphaRowSse2` | src/compositor/blit_simd.c:90-139 | every position of the run gets its word, blocks and tail, and no other position changes |
| `SimdRows.AlphaRowAvx2` | src/compositor/blit_simd.c:169-217 | the same with blocks of eight and an SSE2 tail |
| `Roots.Isqrt64` | src/compositor/path_raster.c:34-42 | Newton's iteration stops at the floor square root of every positive argument |
| `Roots.NewtonStaysAbove` | src/compositor/path_raster.c:34-42 | no Newton step falls below the root |
| `Roots.IsqrtU32` | src/compositor/blit.c:10-21 | the bit-by-bit root is the floor square root of every 32-bit argument |
| `Roots.CornerMask` | src/compositor/blit.c:23-52 | 0 outside the surface, 255 away from the corners |
| `Roots.MaskIsShade` | src/compositor/blit.c:23-52 | in a corner the mask is the shade of the distance from the arc's centre: all inside half a pixel, none outside half a pixel, linear between |
| `Roots.MaskIsMirrored` | src/compositor/blit.c:23-52 | the mask is mirror-symmetric in both axes when the arcs do not overlap |
| `Roots.MaskFallsWithDistance` | src/compositor/blit.c:23-52 | of any two pixels in the corners the one farther from its corner centre is not covered more |
| `Roots.MaskFallsOutwards` | src/compositor/blit.c:23-52 | in particular, coverage never rises going outwards along rows and columns of a corner |
| `Roots.RoundedCornerMask` | src/compositor/blit.c:23-52 | the computed mask, with the loop's root, is the specified one |
| `Blit.EffectiveClip` | src/compositor/blit.c:57-74 | exactly the pixels of destination and scissor |
| `Blit.ClipRect` | src/compositor/blit.c:76-103 | exactly the pixels of destination, scissor and rectangle; source offsets in step and in range |
| `Blit.CopyRow` | src/compositor/blit.c:302-308 | the same row on every instruction set |
| `Blit.AlphaRow` | src/compositor/blit.c:310-317 | the same colours on every instruction set |
| `Blit.MaskedRow` | src/compositor/blit.c:259-300 | each pixel of a corner row is laid with its mask coverage |
| `Blit.PlainCoverage` | src/compositor/blit.c:319-404 | outside the corner bands the rounded flavours are the plain ones |
| `Blit.PaintRow` | src/compositor/blit.c:319-404 | one destination row in any flavour, each pixel from its own texel |
| `Blit.FillScissor` | src/compositor/blit.c:111-123 | exactly the pixels of destination, scissor and rectangle get the colour |
| `Blit.BlitScissor` | src/compositor/blit.c:125-404 | exactly the pixels of destination, scissor and placed source are painted, each once, (X, Y) from texel (X − dx, Y − dy); no index leaves a buffer |
| `DepthOrder.SortIsStable` | src/compositor/compositor.c:125-140 | the result is every slot once, by depth, equal depths by slot number |
| `DepthOrder.SortCommutesWithPick` | src/compositor/compositor.c:127-140 | items that are dropped cannot disturb the order of the rest |
| `DepthOrder.SortIndices` | src/compositor/compositor.c:127-140 | the in-place insertion sort yields the stable order |
| `DepthOrder.InsertLast` | src/compositor/compositor.c:129-139 | the inner shifting loop inserts one key and leaves the rest |
| `Scene.CompositeFromInks` | src/compositor/parallel.c:40-80 | the composite depends only on which surfaces put ink on the pixel, and in which depth order |
| `Scene.InkMeans` | src/compositor/parallel.c:67-77 | from a surface's fields: an opaque one inks with its outline, another with the product of texel alpha, surface alpha and outline, to less than one step |
| `Scene.LaidMeans` | src/compositor/parallel.c:50-78 | what a surface leaves on a pixel, in all four flavours: opaque and uncut exactly its texel, a transparent texel nothing, otherwise the weighted mean to two steps |
| `Scene.NoInkLeaves` | src/compositor/parallel.c:50-58 | a surface that is hidden, fully transparent or elsewhere leaves the pixel alone |
| `Scene.TopmostIsLaidOverRest` | src/compositor/parallel.c:40-80 | the composite is the topmost surface laid over the composite of all the others |
| `Scene.TopmostOpaqueShows` | src/compositor/parallel.c:40-80 | an opaque surface on top, away from its corners, shows exactly its texel |
| `Scene.EmptySceneShowsBackground` | src/compositor/parallel.c:48 | without surfaces the background shows |
| `Bands.BandCount` | src/compositor/parallel.c:162-171 | one band per processor up to sixteen, as many as keep at least 32 rows each, at least one |
| `Bands.BandsPartitionBox` | src/compositor/parallel.c:173-177 | the bands are non-empty, disjoint and hold exactly the box |
| `Bands.BandsAreEven` | src/compositor/parallel.c:173-177 | the bands' heights differ by at most one row |
| `Bands.RunBand` | src/compositor/parallel.c:40-80 | a band's writes paint exactly its damaged pixels |
| `Bands.BandWritesStay` | src/compositor/parallel.c:40-80 | a band writes only its own pixels |
| `Bands.EveryInterleavingAgrees` | src/compositor/parallel.c:87-214 | every interleaving of all bands' writes leaves the buffer of one sequential pass |
| `Compose.LayOne` | src/compositor/parallel.c:50-78 | one surface over one rectangle: each pixel it covers ends as the surface's fields ask, every other keeps its colour |
| `Compose.ComposeSub` | src/compositor/parallel.c:48-79 | fill and all surfaces give the painted colour on the rectangle and touch nothing else |
| `Compose.ComposeBand` | src/compositor/parallel.c:40-80 | the damaged pixels of the band are painted, all others untouched |
| `Compose.ParallelCompose` | src/compositor/parallel.c:145-214 | all damaged pixels are painted whatever order the bands are claimed in |
| `Compose.ClampRect` | src/gpu/display.c:86-96 | exactly the on-screen pixels of the rectangle |
| `Compose.PresentRect` | src/gpu/display.c:98-105 | exactly the rectangle is copied to the scanout, across different strides |
| `Compose.PresentDamage` | src/gpu/display.c:116-126 | exactly the damaged pixels are copied to the scanout |
| `CompositorSpec.MarkRectKeepsMarksIff` | src/compositor/surface.c:101-133 | a partial mark keeps all earlier marks exactly when no full mark is pending, or it covers all, or it misses the surface |
| `CompositorSpec.PartialMarkForgetsFullMark` | src/compositor/surface.c:101-133 | a full mark followed by a one-pixel mark forgets the rest |
| `CompositorSpec.MovedIsDamaged` | src/compositor/compositor.c:143-227 | a surface whose placement changed is damaged where it was and where it is |
| `CompositorSpec.MarkedIsDamaged` | src/compositor/compositor.c:217-222 | in place, every marked pixel of a surface that shows is damaged |
| `CompositorSpec.DamageIsExactly` | src/compositor/compositor.c:196-227 | the damage of one surface, exactly: in place its marked pixels, otherwise where it was and where it is, and nothing while it does not show |
| `CompositorSpec.PartialMarkIsExact` | src/compositor/surface.c:107-133 | a partial mark on a clean surface marks exactly the pixels of the rectangle that the surface has |
| `CompositorSpec.NextFrameIsIdle` | src/compositor/compositor.c:187-241 | after a frame that painted, another one finds nothing to do and changes nothing |
| `CompositorSpec.CreatedMeans` | src/compositor/surface.c:16-56 | a new surface leaves every pixel as it is, and shows exactly its texels once they are opaque |
| `CompositorSpec.FirstFrameDamagesAllIff` | src/compositor/compositor.c:57-59 | the first frame after a registration damages the whole surface exactly when the snapshot is missing or different or a mark covers the surface |
| `CompositorSpec.RegisteredIsToldIff` | src/compositor/compositor.c:50-60 | a surface registered on the screen meets the frame condition exactly then, or when it shows nothing |
| `CompositorSpec.FewAdditionsKept` | src/compositor/compositor.c:187-227 | up to sixteen additions can never lose damage |
| `CompositorSpec.UntouchedPixel` | src/compositor/compositor.c:187-229 | a pixel the frame does not repaint is in no surface's damage and was not pending |
| `CompositorSpec.UnchangedComposite` | src/compositor/compositor.c:255-266 | where nothing differs from what was painted, what is on the screen is the composite |
| `CompositorSpec.FrameKeepsSync` | src/compositor/compositor.c:173-287 | a frame that forgets no damage leaves the screen in step with what was painted for each surface, told or not |
| `CompositorSpec.FrameShowsComposite` | src/compositor/compositor.c:173-287 | if the marks told of every change, one frame, early exit included, makes every scanout pixel the from-scratch composite |
| `CompositorSpec.RegisterKeepsSync` | src/compositor/compositor.c:50-60 | registering any surface keeps the invariant |
| `CompositorSpec.UnregisterKeepsSync` | src/compositor/compositor.c:62-78 | removing a surface leaves its old place pending |
| `CompositorSpec.UpdateKeepsSync` | src/compositor/surface.c:64-133 | moving, restyling, writing and marking keep the invariant |
| `CompositorSpec.StepKeepsSync` | src/compositor/compositor.c:42-287 | every operation keeps the invariant, and a frame whose marks told shows the composite |
| `CompositorSpec.RunKeepsSync` | src/compositor/compositor.c:42-287 | the invariant holds after every run from initialisation or from any moment with a full repaint pending |
| `CompositorSpec.EveryFrameShowsComposite` | src/compositor/compositor.c:173-287 | over every run, after every frame that finds the marks telling, whatever earlier frames found, each scanout pixel shows the from-scratch composite |
| `CompositorSpec.FullRequestRecovers` | src/compositor/compositor.c:80-82 | after any run at all, careless ones included, a full repaint request starts a good run |
| `CompositorSpec.BooksAreBacked` | src/compositor/surface.c:101-133 | books kept from the calls alone account for every unmarked change |
| `CompositorSpec.ClearIsTold` | src/compositor/compositor.c:196-227 | with nothing owed, every pixel that differs is in the damage |
| `CompositorSpec.CarefulCallersSeeComposite` | src/compositor/compositor.c:173-287 | after every frame that finds the books clear the screen shows the composite, whatever earlier frames found |
| `CompositorSpec.RedrawSettles` | src/desktop/boot_input_hint.c:61-73 | in every run, whatever was owed, marked and drawn for a surface, a full mark at the end makes the next frame show the composite if the others owe nothing |
| `CompositorSpec.NewWindowSettles` | src/desktop/simple_desktop.c:63-90 | in every run a new surface, placed and drawn into with or without marks, is shown by the next frame if the others owe nothing |
| `CompositorSpec.DrawingKeepsBooks` | src/compositor/surface.c:64-133 | over any sequence of writes, marks and moves of one surface the books of the others stay, and a surface no frame has seen owes nothing |
| `CompositorSpec.StaleSnapshotHidesSurface` | src/compositor/compositor.c:50-60 | a surface registered again with its old snapshot stays invisible |
| `CompositorObjects.Surface.Create` | src/compositor/surface.c:16-56 | refused exactly for zero or oversized dimensions, otherwise fresh and fully dirty |
| `CompositorObjects.Surface.MoveTo` | src/compositor/surface.c:72-75 | only the position changes, no mark is set |
| `CompositorObjects.Surface.SetZ` | src/compositor/surface.c:77-80 | user surfaces stay below the cursor layer |
| `CompositorObjects.Surface.SetCornerRadius` | src/compositor/surface.c:87-94 | the largest radius up to the one asked for, and up to 64, with which opposite arcs do not overlap |
| `CompositorObjects.Surface.MarkDirty` | src/compositor/surface.c:101-105 | the whole surface is marked |
| `CompositorObjects.Surface.MarkDirtyRect` | src/compositor/surface.c:107-133 | the clamped box joins the earlier partial mark |
| `CompositorObjects.SortedSlotsPaintComposite` | src/compositor/compositor.c:247-253 | painting the sorted slots is the reference composite |
| `CompositorObjects.TopmostIsPaintedLast` | src/compositor/compositor.c:90-140 | a surface strictly above all user surfaces is followed only by the cursor layer |
| `CompositorObjects.Compositor.constructor` | src/compositor/compositor.c:42-48 | no surfaces, nothing carried, a full repaint requested: a state from which every run is covered |
| `CompositorObjects.Compositor.Add` | src/compositor/compositor.c:50-60 | duplicates ignored, −1 when full, otherwise registered last |
| `CompositorObjects.Compositor.Remove` | src/compositor/compositor.c:62-78 | what the surface showed is carried over and exactly its slot disappears |
| `CompositorObjects.Compositor.TopUserDepth` | src/compositor/compositor.c:90-99 | the highest depth below the cursor layer if there is any surface there, otherwise 0 |
| `CompositorObjects.Compositor.BottomUserDepth` | src/compositor/compositor.c:101-110 | the lowest such depth if there is any surface there, otherwise 0 |
| `CompositorObjects.Compositor.Raise` | src/compositor/compositor.c:112-118 | strictly above every other user surface exactly when none of those is at the ceiling |
| `CompositorObjects.Compositor.Lower` | src/compositor/compositor.c:120-123 | strictly below every other surface |
| `CompositorObjects.AddDamageOf` | src/compositor/compositor.c:199-227 | one surface adds exactly its specified rectangles, in order |
| `CompositorObjects.Compositor.Accumulate` | src/compositor/compositor.c:187-227 | phase 1 adds full, carried and per-surface damage in that order and resets the requests |
| `CompositorObjects.Compositor.CollectDamage` | src/compositor/compositor.c:187-229 | phase 1 with the clip: exactly the pixels the frame repaints |
| `CompositorObjects.Compositor.DepthSorted` | src/compositor/compositor.c:247-251 | phase 2 orders the slots so that painting them gives the composite |
| `CompositorObjects.Compositor.Paint` | src/compositor/compositor.c:253-267 | phases 2 and 3 put the painted colour on exactly the damaged scanout pixels |
| `CompositorObjects.Surface.Settle` | src/compositor/compositor.c:274-285 | one surface's snapshot, marks cleared, and what is now on the screen for it |
| `CompositorObjects.Compositor.TakeSnapshots` | src/compositor/compositor.c:270-287 | phase 4 snapshots every slot and clears its marks |
| `CompositorObjects.Compositor.FrameStep` | src/compositor/compositor.c:173-287 | one call is one frame of the state machine, on any instruction set and number of processors |
| `CompositorObjects.Compositor.Frame` | src/compositor/compositor.c:173-287 | from an in-sync state the state is in sync again, and the scanout shows the composite if the marks told |
| `CompositorObjects.PublishedShowsComposite` | src/compositor/compositor.c:253-267 | composing the back buffer and publishing the same damage shows the composite |
| `Barrier.StepKeepsInv` | src/compositor/parallel.c:87-214 | every atomic step of every processor keeps the ticket and counting invariant |
| `Barrier.ReturnMeansDone` | src/compositor/parallel.c:207-214 | the wait ends only when every band was composed exactly once and every worker posted exactly once and is parked |
| `Barrier.EveryInterleavingIsSafe` | src/compositor/parallel.c:87-214 | from a quiescent start, in every interleaving no band is composed twice, no worker is past its spin while the context is rewritten, and return means done and quiescent |
| `Barrier.SafeForeverIff` | src/compositor/parallel.c:87-214 | between frames, all future interleavings are safe exactly when all workers are parked on the current epoch and all are awaited |
| `Barrier.TooFewAwaitedIsUnsafe` | src/compositor/parallel.c:152-157 | waiting for fewer workers than there are, the boot processor can return while one sleeps |
| `Barrier.OneBandIsAlwaysComposedOnce` | src/compositor/parallel.c:152-171 | with one band per frame the band is composed exactly once in every interleaving, however many workers are awaited |
| `Barrier.WaitMakesProgress` | src/compositor/parallel.c:208-212 | while a worker is missing, some worker can move |
| `Barrier.ApMoveLowersRank` | src/compositor/parallel.c:87-108 | every such move lowers a rank |
| `Barrier.SettledIff` | src/compositor/parallel.c:208-212 | while the boot processor waits, no worker can move exactly when all have posted |
| `Barrier.EveryBusyRunEnds` | src/compositor/parallel.c:87-108 | however the workers are scheduled they make at most that many moves, and every run of that length, or that cannot go on, ends with the last post |
| `Barrier.WaitEnds` | src/compositor/parallel.c:207-212 | every run of worker moves can be continued until the boot processor returns |
| `Barrier.EveryProcessorClaims` | src/compositor/parallel.c:98-102 | in every interleaving every processor claims until it is refused: on return the counter has passed the bands by one claim of each, and never by more |
| `Barrier.BootIsNotQuiescent` | src/compositor/parallel.c:87-96 | from boot a late post lets the boot processor return too early |
| `Barrier.BootRace` | src/compositor/parallel.c:114-130 | continuing that run from boot, a worker reads the context while it is rewritten |
| `ParallelFrames.StepKeepsInv` | src/compositor/parallel.c:40-214 | every step of every processor, single pixel writes included, keeps: each band has been drawn as far as its holder counts, wholly once composed |
| `ParallelFrames.OnePassPaints` | src/compositor/parallel.c:40-80 | the reference, one processor composing the whole box, paints the damage and nothing else |
| `ParallelFrames.ReturnIsOnePass` | src/compositor/parallel.c:207-214 | when the boot processor may return, every pixel is as one such pass leaves it |
| `ParallelFrames.EveryRunIsSequential` | src/compositor/parallel.c:87-214 | over every run of calls, processors and interleaved pixel writes, the screen between calls is that of the calls drawn one after another by one processor |
| `ParallelFrames.ReturnedCallPaintsDamage` | src/compositor/parallel.c:145-214 | a call that may return has painted its damage and left every other pixel as it found it |
| `Heap.TakenIsGood` | src/mm/heap.c:51-63 | splitting keeps sizes aligned and no two neighbours free |
| `Heap.GrownIsGood` | src/mm/heap.c:65-81 | appending a region merges with a free last block |
| `Heap.ReleasedIsGood` | src/mm/heap.c:113-135 | freeing merges both ways, so no two neighbours are free |
| `Heap.FreedTwiceIsSilent` | src/mm/heap.c:113-135 | freeing a listed block again changes nothing |
| `Heap.SecondAttemptSucceeds` | src/mm/heap.c:83-111 | after one growth the request fits, so the final panic is unreachable |
| `Heap.TakenLive` | src/mm/heap.c:93-111 | allocation adds one live block, of the size needed and less than another block more, and moves none |
| `Heap.ReleasedLive` | src/mm/heap.c:113-135 | release removes exactly that block from the live ones |
| `Heap.RunIsGood` | src/mm/heap.c:51-135 | the heap invariant holds in every reachable state |
| `Heap.NothingLiveNothingLost` | src/mm/heap.c:113-135 | with nothing live, everything is one free block, whatever the order of frees |
| `Heap.PayloadsAreDisjointAndAligned` | src/mm/heap.c:93-111 | payloads are sixteen-aligned and blocks never overlap |
| `Heap.FreePlusUsedIsTotal` | src/mm/heap.c:137-149 | free and used bytes add up to the heap |
| `Heap.AllocatedLive` | src/mm/heap.c:51-111 | one block becomes live, at the first place that fits, at most 32 bytes larger than needed |
| `Heap.GrowSizeIsEnough` | src/mm/heap.c:83-91 | growth is whole pages, enough for the request, sixteen or less than one page too much |
| `Heap.NothingIsWasted` | src/mm/heap.c:51-135 | over every run the bytes in use are those the live requests need and at most 32 more for each |
| `Heap.KernelHeap.Find` | src/mm/heap.c:98-106 | the walk along the links finds the first fit |
| `Heap.KernelHeap.Split` | src/mm/heap.c:51-63 | the linked list is split exactly when the rest can hold a header and a granule |
| `Heap.KernelHeap.AppendFreeRegion` | src/mm/heap.c:65-81 | the list gains the region, merged with a free last block |
| `Heap.KernelHeap.GrowHeapFor` | src/mm/heap.c:83-91 | growth by whole pages, at least sixteen |
| `Heap.KernelHeap.Kmalloc` | src/mm/heap.c:93-111 | a sixteen-aligned pointer into the first free block that is large enough, cut to the size needed and at most 32 bytes more; the heap grows only if there is none; null only for size zero |
| `Heap.KernelHeap.MergeForward` | src/mm/heap.c:119-124 | a free successor is swallowed; behind a stale header the list stays as it is |
| `Heap.KernelHeap.MergeBackward` | src/mm/heap.c:126-134 | a free predecessor swallows the block |
| `Heap.KernelHeap.Predecessor` | src/mm/heap.c:126-129 | the search ends at the predecessor, or at none for the first block and for one that is not listed |
| `Heap.KernelHeap.Kfree` | src/mm/heap.c:113-135 | a block in use leaves the live ones, nothing else does, and free neighbours merge; a free block and a stale header of a block merged away leave the list as it is |
| `Pmm.FrameAllocator.FreeUsable` | src/mm/pmm.c:65-87 | a frame is free afterwards exactly when it was or a usable entry frees it, and the count agrees |
| `Pmm.FrameAllocator.AllocPage` | src/mm/pmm.c:96-123 | the first free frame from the hint on, wrapping once, zeroed; panic exactly when none is free |
| `Pmm.FrameAllocator.FindRun` | src/mm/pmm.c:125-149 | the skip-ahead finds the lowest free run whenever there is one |
| `Pmm.FrameAllocator.AllocContig` | src/mm/pmm.c:125-149 | exactly the lowest run is taken, zeroed and counted; the result is 0 exactly when nothing fits or the run starts at frame 0 |
| `Pmm.FrameZeroReadsAsFailure` | src/mm/pmm.c:125-149 | with only frame 0 free every answer reads as failure and the frame is gone |
| `Pmm.FrameAllocator.FreePage` | src/mm/pmm.c:151-158 | clears one frame and moves the hint back; ignores free and out-of-range frames |
| `Pmm.MarkedCount` | src/mm/pmm.c:139-142 | taking a free run raises the count by its length |
| `Pmm.NoDoubleHandOut` | src/mm/pmm.c:96-158 | over every run no frame is handed out twice without a release in between |
| `Pmm.FrameAllocator.NeverTwice` | src/mm/pmm.c:96-158 | the same for the calls an allocator object has actually answered |
| `Pmm.MaxPhys` | src/mm/pmm.c:34-45 | the end of the highest region of real memory |
| `Pmm.PlaceBitmap` | src/mm/pmm.c:52-61 | the start of the first usable region with room; failure exactly when there is none or it starts at 0 |
| `Pmm.BitmapStaysUsed` | src/mm/pmm.c:65-87 | on a map of disjoint aligned regions no entry ever frees a frame of the bitmap |
| `Pmm.FreedIff` | src/mm/pmm.c:65-87 | on such a map the frames freed are exactly those that start in usable memory, except the bitmap's own |
| `Pmm.BitmapIsLargeEnough` | src/mm/pmm.c:47-49 | the bitmap has a bit for every frame and no page to spare |
| `Pmm.Init` | src/mm/pmm.c:27-87 | from the memory map alone: panic exactly when no bitmap can be placed; otherwise one flag per whole frame, free exactly when usable and not part of the bitmap |
| `Vmm.SharedPtSharesPath` | src/mm/vmm.c:44-55 | walks that share a page table share all indices above it |
| `Vmm.LeafChangesOnePage` | src/mm/vmm.c:80-85 | writing one leaf changes the translation of one page |
| `Vmm.AttachKeepsWalks` | src/mm/vmm.c:44-55 | attaching an empty table changes no translation |
| `Vmm.AddressSpace.NextTable` | src/mm/vmm.c:44-55 | follows or creates the next level without changing any translation |
| `Vmm.AddressSpace.MapPage` | src/mm/vmm.c:75-86 | that page maps to the entry, every other page is as before |
| `Vmm.AddressSpace.Map` | src/mm/vmm.c:63-87 | the flat map gains exactly the pages of the range with the requested flags, in order, or those before the page at which the kernel stops; new tables restrict nothing |
| `Vmm.AddressSpace.MmioMap` | src/mm/vmm.c:110-112 | device memory is mapped writable, uncached and for the kernel only |
| `Vmm.LeafWordMeans` | src/mm/vmm.c:63-84 | the word stored is present, not huge, carries the frame and exactly the requested flags |
| `Vmm.MapSetsFlags` | src/mm/vmm.c:63-87 | after a map the entry of every byte of the range has exactly the write, user, cache and execution flags asked for |
| `Vmm.ProcessorGrantsFlags` | src/mm/vmm.c:44-87 | over all four levels the processor grants nothing that was not asked for, and all of it when no older table restricts it |
| `Vmm.MapKeepsOtherFlags` | src/mm/vmm.c:72-87 | pages outside the range keep their flags |
| `Vmm.AddressSpace.UnmapPage` | src/mm/vmm.c:94-107 | one 4 KiB page goes, huge and missing ones stay |
| `Vmm.AddressSpace.Unmap` | src/mm/vmm.c:89-108 | the flat map loses exactly the 4 KiB pages of the range |
| `Vmm.MapTranslatesEveryByte` | src/mm/vmm.c:72-156 | every byte translates to the matching physical byte exactly when the addresses agree modulo the page size |
| `Vmm.MegaTranslatesIff` | src/mm/vmm.c:140-145 | a 2 MiB page translates as section 4.5 of the Intel SDM, volume 3A, says exactly when bits 20:13 of its entry are clear |
| `Vmm.ReservedBitShiftsAnswer` | src/mm/vmm.c:140-145 | an entry with reserved bit 13 set shifts every answer |
| `Vmm.TranslatesAsProcessorIff` | src/mm/vmm.c:114-156 | the answer is the processor's translation exactly when the walk meets no PAT bit in a level-1 entry and no reserved bits in a large page; for addresses that are not canonical, exactly when nothing is mapped |
| `Vmm.PatPageReadsAsUnmapped` | src/mm/vmm.c:147-152 | a page with the PAT bit that the processor translates and the kernel calls unmapped |
| `Vmm.ProcessorReachesEveryByte` | src/mm/vmm.c:72-87 | after a map the processor reaches the matching physical byte from every canonical address of the range exactly when the ranges agree modulo the page size |
| `Vmm.VisitedIffTouched` | src/mm/vmm.c:72-108 | the loops visit exactly the pages that hold a byte of the range |
| `Vmm.EmptyRequestMapsAPage` | src/mm/vmm.c:76-80 | a request for no bytes visits one page unless its address is aligned |
| `Vmm.MapKeepsOtherPages` | src/mm/vmm.c:72-156 | a byte keeps its translation unless it shares a page with the range |
| `Vmm.UnmapUndoesMap` | src/mm/vmm.c:72-156 | after map and unmap, on the tables, bytes sharing a page with the range have no translation and all others the one they had |
| `Xhci.StepKeepsInv` | src/drivers/usb_xhci_mouse.c:369-415 | every store of the driver and every read of the controller keeps the ring invariant |
| `Xhci.RingIsFifo` | src/drivers/usb_xhci_mouse.c:369-415 | over every run and any number of wraps the controller, following the words in memory, reads exactly a prefix of what was pushed, and is never stuck |
| `Xhci.NextReadIsNextEntry` | src/drivers/usb_xhci_mouse.c:369-415 | at most two reads yield the next entry; none when all are read |
| `Xhci.OneMoreStrandsController` | src/drivers/usb_xhci_mouse.c:378-389 | the bound of 62 unread entries is tight: one more, pushed while the controller waits at the Link entry, strands it |
| `Xhci.StrandingIsReachable` | src/drivers/usb_xhci_mouse.c:378-389 | a run that keeps to the bound up to that push reaches such a state |
| `Xhci.ProducerRing.PutLink` | src/drivers/usb_xhci_mouse.c:369-376 | one slot becomes, word by word, an entry of type Link with the toggle flag that points back to slot 0 |
| `Xhci.LinkMeans` | src/drivers/usb_xhci_mouse.c:369-376 | the controller, which looks at the words alone, sees a toggling Link to slot 0 |
| `Xhci.StoredMeans` | src/drivers/usb_xhci_mouse.c:378-382 | words with their cycle bit are read back as they were pushed |
| `Xhci.ProducerRing.Push` | src/drivers/usb_xhci_mouse.c:378-415 | one push is the specified sequence of stores, index and cycle included |
| `Xhci.HandleKeepsInv` | src/drivers/usb_xhci_mouse.c:423-434 | handling takes exactly the next posted event, or none |
| `Xhci.EventsAreFifo` | src/drivers/usb_xhci_mouse.c:423-461 | over every run without overrun the driver handles the posted events in order |
| `Xhci.HistoryIsRing` | src/drivers/usb_xhci_mouse.c:423-461 | ring memory after any such run is what the waiting loop expects, with exactly the unhandled events pending |
| `Xhci.RunIsRing` | src/drivers/usb_xhci_mouse.c:423-461 | over every run a post appends to the pending events and a read takes the first |
| `Xhci.EventRing.Advance` | src/drivers/usb_xhci_mouse.c:423-434 | index, cycle state and register move past exactly one pending event |
| `Xhci.EventRing.Post` | src/drivers/usb_xhci_mouse.c:441-444 | the controller's side: one more event becomes visible behind the pending ones |
| `Xhci.EventRing.PostAll` | src/drivers/usb_xhci_mouse.c:441-444 | several events become visible, in order |
| `Xhci.EventRing.WaitEvent` | src/drivers/usb_xhci_mouse.c:439-461 | while any number of events that the ring has room for arrive before each poll, the loop answers as specified and leaves exactly the later events pending |
| `Xhci.AnswerIsFirstWanted` | src/drivers/usb_xhci_mouse.c:439-461 | whatever arrives meanwhile, the answer is the first wanted event with its words; a timeout took no wanted event |
| `Xhci.WantedIsAnswered` | src/drivers/usb_xhci_mouse.c:439-461 | a wanted event behind k others that has arrived by poll j is answered within j + k + 1 polls |
| `Xhci.EventIsUnderstood` | src/drivers/usb_xhci_mouse.c:444-452 | type, pointer and completion code are taken from where the controller writes them; 0 is answered as 0xfe |
| `Xhci.OneAtATimeFits` | src/drivers/usb_xhci_mouse.c:439-461 | one event per poll never needs more room than the ring has |
| `Raster.WindingAt` | src/compositor/path_raster.c:176-195 | the loop sums the signed crossings of the closed contour |
| `Raster.CrossingOutside` | src/compositor/path_raster.c:176-195 | right of an edge it counts nothing, left of it its change of side |
| `Raster.CrossingIsSide` | src/compositor/path_raster.c:182-193 | an edge counts exactly when its rows hold the point and the point lies strictly on its left going up, on its right going down |
| `Raster.CrossingsTelescope` | src/compositor/path_raster.c:176-195 | left of a contour the partial sums telescope |
| `Raster.OutsideWindsZero` | src/compositor/path_raster.c:176-195 | every closed contour winds zero times around every point outside its vertex extent |
| `Raster.RectangleWindsOnce` | src/compositor/path_raster.c:176-195 | a rectangle winds once around exactly the points inside it |
| `Raster.TriangleWindsOnce` | src/compositor/path_raster.c:176-195 | a triangle that goes round to the left winds once around exactly the points on the left of its edges |
| `Raster.TriangleWindsBack` | src/compositor/path_raster.c:176-195 | the other way round it winds minus once |
| `Raster.QuarterRectangleHit` | src/compositor/path_raster.c:237-249 | a subsample stands for its quarter cell: it is inside a rectangle in quarter pixels exactly when the cell is |
| `Raster.BboxContours` | src/compositor/path_raster.c:259-284 | the pixel box holds every vertex with its margin, negative coordinates included |
| `Raster.NoHitsOutsideBox` | src/compositor/path_raster.c:224-284 | a pixel outside the box has no covered subsample |
| `Raster.CountHits` | src/compositor/path_raster.c:237-249 | the nested loops count the covered subsamples |
| `Raster.FillWinding` | src/compositor/path_raster.c:224-257 | every pixel of the row-major surface, inside the box or not, ends shaded by its coverage |
| `Raster.ShadedMeans` | src/compositor/path_raster.c:198-254 | no hit changes nothing, sixteen give the plain colour, otherwise the mix by the share of covered subsamples |
| `Raster.WholeRectangleIsFilled` | src/compositor/path_raster.c:224-257 | filling a rectangle of whole pixels paints exactly its pixels, with exactly the colour |
| `Flatten.PolylineFollowsCurve` | src/compositor/path_raster.c:44-75 | every vertex of a flattened cubic is within 22.5/16 pixel of the exact curve, at parameters that increase strictly and end at 1 |
| `Flatten.QuadPolylineFollowsCurve` | src/compositor/path_raster.c:77-104 | the same for quadratic curves, within 13/16 pixel |
| `Flatten.CurveFollowsPolyline` | src/compositor/path_raster.c:44-75 | every point of the exact cubic belongs to an edge of the polyline and is within 22.5/16 pixel per coordinate of a point at most 6/16 off the edge's line, unless the edge is shorter than a pixel or at the depth limit |
| `Flatten.QuadCurveFollowsPolyline` | src/compositor/path_raster.c:77-104 | the same for quadratic curves, with 13/16 and 3/16 pixel |
| `Flatten.CellIsEdge` | src/compositor/path_raster.c:44-75 | every sub-curve at which subdivision stops runs from one vertex of the polyline to the next |
| `Flatten.OneEdgeIff` | src/compositor/path_raster.c:50-62 | a curve is divided exactly when its chord is at least a pixel long and a control point more than 6/16 pixel off it |
| `Flatten.QuadOneEdgeIff` | src/compositor/path_raster.c:82-94 | the same for quadratic curves |
| `Flatten.CellFollows` | src/compositor/path_raster.c:64-74 | the exact curve stays with the rounded sub-curves everywhere, not only at the vertices |
| `Flatten.ClosedLoopVanishes` | src/compositor/path_raster.c:50-56 | a curve that returns to its start is flattened to that point, however far it goes |
| `Flatten.StaysBesideChord` | src/compositor/path_raster.c:57-62 | a sub-curve whose control points project onto its chord stays beside the chord itself |
| `Flatten.OvershootIsCut` | src/compositor/path_raster.c:57-62 | a curve that runs past its end along its chord's line is cut to the chord |
| `Flatten.RaisedIsQuadratic` | src/compositor/path_raster.c:77-104 | the exact quadratic curve, written as the cubic it is |
| `Flatten.VerticesFollow` | src/compositor/path_raster.c:64-74 | each level of subdivision adds at most 1.5 units of rounding |
| `Flatten.LeftHalf` | src/compositor/path_raster.c:64-72 | repeated midpoints give the first half of the exact curve |
| `Flatten.RightHalf` | src/compositor/path_raster.c:64-73 | and the second half |
| `Flatten.StopMeansClose` | src/compositor/path_raster.c:51-62 | where flatness stops the subdivision the whole sub-curve is within 6/16 pixel of the chord's line |
| `Flatten.QuadStopMeansClose` | src/compositor/path_raster.c:85-95 | for quadratic curves within 3/16 pixel |
| `Flatten.VerticesInside` | src/compositor/path_raster.c:44-75 | no vertex leaves the box of the control points |
| `Flatten.FlatCtx.Emit` | src/compositor/path_raster.c:28-32 | a vertex is appended, or dropped when it does not fit |
| `Flatten.FlatCtx.CubicFlat` | src/compositor/path_raster.c:44-75 | the recursion terminates and the buffer gains exactly the specified vertices that fit |
| `Flatten.FlatCtx.QuadFlat` | src/compositor/path_raster.c:77-104 | the same for quadratic curves |
| `RunQueue.YieldsRotate` | src/sched/thread.c:161-175 | k yields rotate the queue by k |
| `RunQueue.RoundRobin` | src/sched/thread.c:161-175 | n yields over n threads run each exactly once and restore the queue |
| `RunQueue.NewThreadRunsNext` | src/sched/thread.c:100-108 | a new thread runs after the next yield, the others after it in their old order |
| `RunQueue.ExitKeepsOrder` | src/sched/thread.c:177-195 | after an exit the others run in their old order |
| `RunQueue.StepIsExact` | src/sched/thread.c:100-195 | creation adds, exit removes exactly one thread, yield none |
| `RunQueue.QueueHoldsLiveThreads` | src/sched/thread.c:100-195 | over every run the queue is one simple cycle through exactly the live threads |
| `RunQueue.Scheduler.Init` | src/sched/thread.c:141-159 | the bootstrap thread alone on its cycle |
| `RunQueue.Scheduler.InsertQueue` | src/sched/thread.c:100-108 | the new thread comes right after the current one |
| `RunQueue.Scheduler.Yield` | src/sched/thread.c:161-175 | the successor runs and both kernel stack pointers follow it |
| `RunQueue.Scheduler.Exit` | src/sched/thread.c:177-195 | the predecessor search ends and exactly the caller is unlinked; the stack pointers are not updated |
| `Vfs.LastIsRecognised` | src/fs/tar.c:66-76 | the final component is recognised exactly when the path does not end in two slashes |
| `Vfs.OnlyFinalIsLast` | src/fs/tar.c:66-76 | no earlier component is taken for the last |
| `Vfs.StripKeepsSegs` | src/fs/tar.c:59-63 | leading slashes make no difference |
| `Vfs.SplitOfJoin` | src/fs/vfs.c:41-50 | splitting undoes joining with slashes |
| `Vfs.LeadIsDropped` | src/fs/tar.c:59-63 | any number of leading "./" pairs and then of slashes is dropped, and nothing else |
| `Vfs.SplitOfJoinThen` | src/fs/tar.c:66-76 | splitting undoes joining with a slash at the end, too |
| `Vfs.PutFromIs` | src/fs/tar.c:57-95 | a walk changes only prefixes of its path: creates the missing ones and sets the leaf file |
| `Vfs.LastDataIsLast` | src/fs/tar.c:83-91 | of several entries for one path the last one's bytes count |
| `Vfs.BuiltIsDescribed` | src/fs/tar.c:57-141 | for every archive the tree is exactly the described one: every prefix of a path, files with the last entry's bytes |
| `Vfs.LookupFromIs` | src/fs/vfs.c:36-59 | a lookup succeeds exactly when all nodes on the way are directories |
| `Vfs.LookupAfterMount` | src/fs/vfs.c:36-59 | for every archive and path, the lookup gives what the archive describes unless a file is in the way |
| `Vfs.MountedFileIsFound` | src/fs/vfs.c:36-59 | a file is found under the path tar_mount gave it, with the last entry's bytes, exactly when no file sits strictly above it |
| `Vfs.FullPathIsArchivePathIff` | src/fs/tar.c:109-125 | tar_mount keeps the archive's path exactly when it fits its buffers |
| `Vfs.ArchivedFileIsFound` | src/fs/vfs.c:36-59 | an entry whose path fits is found under the path the archive means, exactly when no file sits strictly above it |
| `Vfs.SpelledEntryIsAt` | src/fs/tar.c:57-137 | however an archive spells a path, the entry is about exactly those names; its type flag decides between file, directory and nothing |
| `Vfs.SpelledFileIsFound` | src/fs/vfs.c:36-59 | a regular file is found by its names however they are spelled, with the last entry's bytes, exactly when no file sits strictly above it |
| `Vfs.SpelledDirectoryIsFound` | src/fs/vfs.c:36-59 | a directory entry makes its path a directory unless a file has the same path or sits above it |
| `Vfs.LongPrefixIsNotFound` | src/fs/tar.c:112-116 | a legal entry with a prefix of 155 bytes is not there |
| `TarArchive.HeaderIsReadIff` | src/fs/tar.c:109-129 | a header is read as the archive means it exactly when its name ends within reach and its prefix has at most 154 bytes |
| `TarArchive.ArchiveIsReadIff` | src/fs/tar.c:97-141 | a whole archive is read back entry by entry exactly when every header is |
| `TarArchive.ArchivedBytesAreFound` | src/fs/tar.c:97-141 | from the bytes to a lookup: when every header is readable, each file is found under its archive path with the last such entry's bytes exactly when no file sits strictly above it |
| `TarArchive.SpelledBytesAreFound` | src/fs/tar.c:97-141 | the same from the bytes by names, whether the archive writes "etc/motd", "/etc/motd" or "./etc/motd" |
| `TarArchive.PaddingIsLeast` | src/fs/tar.c:140 | a payload is followed by less than one block of padding, up to a block boundary |
| `TarArchive.FullNameRunsOn` | src/fs/tar.c:110-125 | a name of 100 bytes is read together with the mode field |
| `TarArchive.CopyText` | src/fs/tar.c:30-34 | the bounded copy loop takes the text up to the NUL |
| `TarArchive.ParseOctal` | src/fs/tar.c:17-23 | the number whose octal digits fill the field up to a NUL, a space or its end |
| `TarArchive.OctalIsValue` | src/fs/tar.c:17-23 | the digit loop computes the positional value of the field's digits |
| `TarArchive.SizeIsValue` | src/fs/tar.c:127 | the size read from a header is the number its size field spells |
| `TarArchive.LeadingSpaceReadsAsZero` | src/fs/tar.c:17-23 | a size field that starts with a space is read as 0 |
| `TarArchive.ReadablePathsFit` | src/fs/tar.c:109-125 | the path of an entry with a readable header fits the buffers of tar_mount |
| `TarArchive.ReadHeader` | src/fs/tar.c:103-129 | one header from its bytes |
| `VfsTree.TakeSegment` | src/fs/vfs.c:41-49 | the copy loop takes the specified component, over-long ones cut at 63 |
| `VfsTree.SiblingNamesDiffer` | src/fs/tar.c:36-55 | two children of one directory never share a name |
| `VfsTree.Tree.ChildNamed` | src/fs/tar.c:36-41 | the sibling walk finds the child, or proves that the path does not exist |
| `VfsTree.Tree.AddChild` | src/fs/tar.c:43-55 | the linked tree gains exactly that node at the head of the list |
| `VfsTree.Tree.WalkOrMake` | src/fs/tar.c:57-95 | the linked tree follows the specified walk |
| `VfsTree.Tree.TarMount` | src/fs/tar.c:97-146 | from the bytes: the linked tree follows exactly the entries read, up to the first empty name |
| `VfsTree.Tree.Find` | src/fs/vfs.c:36-59 | the pointer walk is the specified lookup |
| `VfsTree.Tree.constructor` | src/fs/vfs.c:22-30 | an empty root directory |
| `VfsTree.Read` | src/fs/vfs.c:61-68 | −1 for anything but a file, 0 at the end, otherwise the bytes that are there and nothing else in the buffer; the loop leaves the file exactly when offset plus count wraps |
| `VfsTree.ClipIsRightIff` | src/fs/vfs.c:63-65 | the count is clipped to the bytes that are there exactly when offset plus count stays below 2^64 |
| `VfsTree.HugeCountIsNotClipped` | src/fs/vfs.c:64 | a count of 2^64 − 1 at offset 1 is not clipped |
| `Fixed.MulIsNearest` | src/compositor/anim.h:27-29 | the product is the nearest fixed-point value |
| `Fixed.ToIntIsNearestIff` | src/compositor/anim.h:24-26 | rounding gives a nearest integer exactly for non-negative values and negative exact halves |
| `Fixed.MinusOneRoundsToMinusTwo` | src/compositor/anim.h:24-26 | −1.0 becomes −2 |
| `Fixed.NegativeIsOneLow` | src/compositor/anim.h:24-26 | all other negative values come out one too low |
| `Easings.AxisEnds` | src/compositor/anim.c:149-157 | the Bezier axis starts at 0 and ends at ONE for all control points |
| `Easings.AxisFits` | src/compositor/anim.c:149-157 | with unit control points nothing leaves int32 |
| `Easings.AxisNearBezier` | src/compositor/anim.c:148-157 | the fixed-point curve is within 10/65536 of the exact cubic |
| `Easings.BisectCrosses` | src/compositor/anim.c:163-171 | enough halvings end at a crossing, without any monotonicity |
| `Easings.ParamIsCrossing` | src/compositor/anim.c:160-172 | for 0 < u < ONE the answer h has x(h) ≥ u and x(h − 1) < u |
| `Easings.ParamSolvesExactCurve` | src/compositor/anim.c:159-172 | on the exact curve the same, up to 10/65536 |
| `Easings.EaseParamForX` | src/compositor/anim.c:160-172 | the 24-round loop returns that crossing |
| `Easings.EaseEnds` | src/compositor/anim.c:117-187 | every easing maps 0 to 0 and ONE to ONE exactly |
| `Easings.TameCurvesRise` | src/compositor/anim.c:115-136 | linear and the cubics are monotone maps of [0, ONE] into itself |
| `Easings.InCubicNearCube` | src/compositor/anim.c:119-122 | the rounded cube is within one unit of the exact one |
| `Easings.EaseNearExact` | src/compositor/anim.c:115-146 | every named curve is the one its name says, within one unit for the cubes and four for the others |
| `Easings.BezierEaseIs` | src/compositor/anim.c:174-187 | a Bezier easing is the curve with the given control points: where the exact abscissa passes the progress, the exact ordinate, each to 10/65536 |
| `Easings.InOutIsSymmetric` | src/compositor/anim.c:128-136 | the symmetric cubic is its own half turn |
| `Easings.OutBackRange` | src/compositor/anim.c:137-146 | `ease_out_back` is never negative and exceeds ONE exactly for progress 24266 to 65354 |
| `Easings.ExactRises` | src/compositor/anim.c:159 | with unit control points the exact curve never falls |
| `Easings.AxisDips` | src/compositor/anim.c:149-159 | the rounded one does |
| `Easings.AxisDipsLittle` | src/compositor/anim.c:149-159 | by at most 20/65536 |
| `Easings.AxisRange` | src/compositor/anim.c:149-157 | with unit control points it stays within 10/65536 of [0, ONE] |
| `Easings.EaseRange` | src/compositor/anim.c:115-187 | the range of every curve |
| `Easings.BezierOvershoots` | src/compositor/anim.c:174-187 | a Bezier curve with unit control points that reaches 65538 |
| `AnimRuns.FullEaseLands` | src/compositor/anim.c:211-221 | a full ease lands exactly on its target when the distance fits |
| `AnimRuns.EaseStepIs` | src/compositor/anim.c:211-221 | one step of a timed animation: progress by the quotient of step and duration, capped, and the eased share of the way |
| `AnimRuns.SpringStepIs` | src/compositor/anim.c:193-210 | one step of a spring is semi-implicit Euler with rounded products, and it settles exactly within the two thresholds |
| `AnimRuns.TickKeepsLanded` | src/compositor/anim.c:193-264 | every tick keeps finished animations exactly on their targets |
| `AnimRuns.RunKeepsLanded` | src/compositor/anim.c:241-266 | and so does every run of ticks |
| `AnimRuns.EveryRunLands` | src/compositor/anim.c:33-82 | over every run of starts, retargets and ticks a finished animation is exactly on its target |
| `AnimRuns.RetargetIsContinuous` | src/compositor/anim.c:74-82 | retargeting a timed animation restarts it where it is |
| `AnimRuns.TimedRunIs` | src/compositor/anim.c:211-266 | after n equal ticks the progress is n steps capped at ONE, the value is the eased one |
| `AnimRuns.FinishesIff` | src/compositor/anim.c:211-266 | a timed animation ever finishes exactly when a tick is at least 1/65536 of its duration |
| `AnimRuns.StartedFinishesIff` | src/compositor/anim.c:45-72 | the same for an animation as it is started, whatever it was doing before |
| `AnimRuns.PingPongIs` | src/compositor/anim.c:246-266 | the closed form of every looping run: leg, step in the leg, ends swapped on odd legs |
| `AnimRuns.TurnsAreContinuous` | src/compositor/anim.c:246-258 | the value never jumps at a turn |
| `AnimRuns.ByteStaysInBoundsIff` | src/compositor/anim.c:102-111 | a byte binding never wraps exactly when its bounds meet the byte range, and keeps every value between them exactly when they are also in order |
| `AnimRuns.BoundByteStaysIff` | src/compositor/anim.c:102-111 | whatever the animation's value, the byte written stays between such bounds; with other bounds some value escapes |
| `AnimRuns.BoundIntIs` | src/compositor/anim.c:90-100 | a bound integer stays between its bounds and is there a nearest integer to the scaled value plus the offset |
| `AnimRuns.HighBoundsWrap` | src/compositor/anim.c:102-111 | bounds of 300 and 400 store 44 |
| `AnimRuns.UnboundCellStays` | src/compositor/anim.c:227-266 | a cell without a running animation keeps its value |
| `AnimRuns.LastWriterDecides` | src/compositor/anim.c:227-266 | of the animations bound to one cell the last in the pool decides |
| `AnimRuns.AnimPool.New` | src/compositor/anim.c:12-25 | the first unused slot, blanked; none exactly when all are in use |
| `AnimRuns.AnimPool.TickAll` | src/compositor/anim.c:241-266 | every animation ticks once and the bound cells follow, in pool order |

## Left out

- Port and MMIO drivers, device enumeration, fonts, gradients, window manager, theme tables: hardware access or easy lookups.
- Assembly and descriptor tables: a context switch is an atomic change of the running thread.
- Memory-order details: atomic steps are sequentially consistent; only the publication of the epoch is ordered.
- Frame pacing and statistics: they depend on the clock. A display without a frame buffer, where a frame returns at once, is not modelled.
- int32 overflow of screen coordinates: integers are unbounded; `Rects.BoundedStaysInt32` gives a bound under which the machine agrees.
- CompositorSpec.EveryFrameShowsComposite: after a frame or removal that loses damage by overflow, later frames are covered only once everything is repainted.
- CompositorObjects.Compositor.Lower: depth arithmetic below the int32 minimum is not modelled.
- Compose.ParallelCompose: composes the bands one at a time, in any order; claiming and interleaved writes are the subject of `ParallelFrames.EveryRunIsSequential`, in which a pixel write is one atomic step.
- ParallelFrames.EveryRunIsSequential: starts, like the barrier, with all workers parked and awaited; of a single processor composing while workers spin only `Barrier.OneBandIsAlwaysComposedOnce` is proved.
- Barrier.EveryInterleavingIsSafe: needs a quiescent start with all workers awaited, which `Barrier.SafeForeverIff` shows to be exactly what is needed.
- Heap.KernelHeap.Kmalloc: assumes that frames are available and addresses do not wrap; corrupted block headers, which panic, are not modelled.
- Heap.KernelHeap.Kfree: pointers behind which there never was a header are outside the contract, and payload bytes are not modelled: a stale header may lie inside a payload, which then overwrites it or is overwritten.
- Pmm.FrameAllocator.FreeUsable: the map, the bitmap's place and its size are parameters; `Pmm.Init` computes them. The bitmap is one flag per frame, not packed into bytes.
- Vmm.AddressSpace.Map: ranges longer than the 48-bit address space are outside the contract; flushing the translation cache is not modelled.
- Xhci.RingIsFifo: the driver pushes no Link entry of its own; doorbells and what the commands do are not modelled.
- Xhci.EventRing.WaitEvent: the controller posts only what the ring has room for, and the cycle bit is not part of the words returned.
- Flatten.CurveFollowsPolyline: says nothing about the line of an edge at the depth limit; that the limit is never reached is not claimed.
- Flatten.FlatCtx.CubicFlat: integers are unbounded; the 64-bit squares of the flatness test are assumed not to overflow.
- Raster.FillWinding: building contours from path commands and stroking are not modelled.
- TarArchive.HeaderAt: a payload that is said to reach beyond the archive is cut at its end; checksums are not looked at, as in the kernel.
- VfsTree.Tree.AddChild: assumes that memory for the node is available.
- AnimRuns.EveryRunLands: sums are unbounded integers; the distances between the ends must fit in int32. Cancelling, which finishes an animation where it is, is not an operation of these runs.
- AnimRuns.FinishesIff: assumes that the quotient of tick and duration fits in int32, which the kernel's cast would otherwise wrap.
- AnimRuns.SpringStepIs: assumes that no product leaves int32; convergence of springs is not claimed, only that a settled spring is on its target.
- Raster.TriangleWindsOnce: says nothing about points on the line of an edge.
- Vmm.ProcessorGrantsFlags: protection keys, write protection of the kernel and the memory types of the PAT are not modelled.
