# mpv's libass glue (sub/ass_mp.c), modelled in Dafny

This project models the three parts of mpv's libass glue that have logic of their own:

- **Bitmap accumulation** (`mp_ass_render_frame`). One libass render produces a list of images. Each image with a non-zero width and height is appended as a `sub_bitmap` to the caller's `sub_bitmaps` list. The `parts` buffer grows to `max(2 * capacity, 32)` whenever it is full. `change_id` is bumped when libass reports a change, and the format tag is pinned to libass.
- **Stale-event flushing** (`mp_ass_flush_old_events`). Leading events of a track that ended before a timestamp are freed. The survivors are then shifted down in place.
- **Style update** (`mp_ass_set_style`, integer and string part). A null style is left alone. FontName is replaced only by a differing option font. The SSA v4 `Alignment` code is computed from mpv's `align_x`/`align_y`. BorderStyle and the back colour depend on the back colour's alpha.

Files:

- `render_frame.dfy` (module `AssRender`): class `SubBitmaps` over an `array<SubBitmap>`. The array's length is the allocated capacity.
- `flush_events.dfy` (module `AssFlush`): class `Track` over an `array<Event>`, with a ghost log of the indices passed to `ass_free_event`.
- `set_style.dfy` (module `AssStyle`): class `Style` and the `SetStyle` update.

External calls become inputs:

- `ass_render_frame` becomes a `RenderedFrame` value: the image list as a sequence, plus the `changed` flag. Pixel pointers are opaque ids.
- `ass_free_event` becomes an append to the ghost `freed` log.
- `talloc_realloc` becomes a fresh, larger array into which the old entries are copied.

The first flush loop compares an increasing index against a decreasing `n_events`. Because of this it removes at most ⌈N/2⌉ events per call, even when more have expired. A simple reading of the flush's purpose is "drop every expired leading event", and the code does not do that. The model follows the code (`FlushOldEvents`, with `FlushCountCapped` stating the exact count). It records the discrepancy under Findings, next to a corrected flush.

## Model

| member | source | states |
|---|---|---|
| AssRender.Visible | sub/ass_mp.c:111-126 | the parts contributed by an image list are never more than the images, and each has non-zero w and h with dw == w and dh == h |
| AssRender.VisibleCountsKept | sub/ass_mp.c:111-113 | the number of parts appended equals the number of images whose width and height are both non-zero |
| AssRender.VisibleFromImages | sub/ass_mp.c:119-126 | every appended part is the field copy (bitmap, stride, colour, size, position) of some non-degenerate input image |
| AssRender.VisibleKeepsAll | sub/ass_mp.c:111-127 | with no zero-area image, part i is the copy of image i: nothing is reordered or dropped |
| AssRender.VisibleAt | sub/ass_mp.c:119-127 | the part of a kept image i is stored at the index equal to the number of parts that images 0..i-1 contribute |
| AssRender.VisibleInOrder | sub/ass_mp.c:111-127 | with zero-area images mixed in, for kept images i < j the part of image i comes before the part of image j |
| AssRender.VisibleConcat | sub/ass_mp.c:100-129 | two renders without a reset in between append the parts of the concatenated image lists, so accumulation is additive |
| AssRender.Grow | sub/ass_mp.c:115 | the grown capacity is strictly larger than the old one and at least 32 |
| AssRender.CapacityFor | sub/ass_mp.c:110-118 | the capacity reached by growing on demand covers the count and the old capacity; when growth happened it is at least 32 and at most max(2 * count - 2, 32) |
| AssRender.CapacityForStep | sub/ass_mp.c:114-118 | one more append changes the capacity only when count >= capacity, and then to max(2 * capacity, 32) |
| AssRender.SubBitmaps.AddImage | sub/ass_mp.c:112-127 | a zero-area image changes nothing; otherwise its part is stored at index num_parts, num_parts grows by one, earlier parts keep their values, and the buffer is reallocated exactly when it was full |
| AssRender.SubBitmaps.AddImages | sub/ass_mp.c:110-128 | the parts become the old parts followed by those of the non-degenerate images in input order; the capacity follows the growth law; the buffer is unchanged when everything fit |
| AssRender.SubBitmaps.RenderFrame | sub/ass_mp.c:100-129 | change_id grows by exactly 1 when the render reports a change and is otherwise unchanged; format becomes libass given it was unset or libass; parts as in AddImages; num_parts <= capacity |
| AssFlush.LeadingExpired | sub/ass_mp.c:170-172 | the length of the expired run at the front: every event before it has Start + Duration < ts, and the event at it, if any, does not |
| AssFlush.FlushCount | sub/ass_mp.c:170-175 | the first loop stops at an index between its start and the event count |
| AssFlush.FlushCountCapped | sub/ass_mp.c:170-175 | the first loop removes exactly min(length of the expired run, ceil(N / 2)) events, since n rises while n_events falls |
| AssFlush.FlushRemovesExpiredPrefix | sub/ass_mp.c:170-174 | at most ceil(N / 2) events are removed, all from the front and all expired, and the scan stops at a non-expired event unless the half-way bound stopped it first |
| AssFlush.FlushMakesProgress | sub/ass_mp.c:170-175 | when the first event has expired at least one event is removed and the expired run left behind is strictly shorter |
| AssFlush.FlushFourEventsExample | sub/ass_mp.c:167-179 | events (0,10), (5,20), (30,5), (40,100) flushed at 26 leave (30,5), (40,100) |
| AssFlush.FlushKeepsExpiredExample | sub/ass_mp.c:170-175 | two events that both ended before 100 lose only one to the flush, and the survivor is expired |
| AssFlush.Indices | sub/ass_mp.c:173 | the free log of a flush that removed k events is 0, 1, ..., k - 1: each removed index freed once, in order |
| AssFlush.Track.ShiftDown | sub/ass_mp.c:176-178 | the n_events entries starting at n move to the front in order; the entries behind them keep their old values |
| AssFlush.Track.FlushOldEvents | sub/ass_mp.c:167-179 | n_events drops by FlushCount; the live events become the old ones from index FlushCount on, in order; slots past the new count are untouched; each removed index is freed exactly once; when nothing is removed nothing changes |
| AssFlush.Track.FlushOldEventsIntended | sub/ass_mp.c:167-179 | the corrected flush removes the whole expired run: n_events drops by LeadingExpired, each removed index is freed once, the survivors keep their order, and no expired event is left at the front |
| AssStyle.CRem | sub/ass_mp.c:77 | C's `%` with a positive divisor: the result lies in [0, b) for a non-negative dividend and in (-b, 0] for a negative one |
| AssStyle.CRemDefines | sub/ass_mp.c:77 | C's identity a == (a / b) * b + a % b with truncating `/`; with CRem's sign ranges it fixes the remainder uniquely |
| AssStyle.Alignment | sub/ass_mp.c:77 | for align_x and align_y in {-1, 0, 1} the code is one of 1, 2, 3, 5, 6, 7, 9, 10, 11 |
| AssStyle.AlignmentMatchesSsa | sub/ass_mp.c:77 | the formula equals the SSA v4 table: bottom (align_y 1) gives 1-3, top (-1) gives 5-7, middle (0) gives 9-11, with align_x + 1 added within the row |
| AssStyle.AlignmentRoundTrip | sub/ass_mp.c:77 | the alignment code determines the (align_x, align_y) pair, which can be recovered from it |
| AssStyle.UpdatedFontName | sub/ass_mp.c:47-51 | FontName becomes the option font when one is given and is kept otherwise; it changes only through a replacement |
| AssStyle.BorderStyle | sub/ass_mp.c:62-68 | BorderStyle is 4 (opaque box) exactly when the back colour's alpha is non-zero, else 1 (outline) |
| AssStyle.SetStyle | sub/ass_mp.c:41-81 | a null style is not written; otherwise FontName is freed and duplicated only when a font is given and differs, and the colours, BorderStyle, Alignment, Bold and Italic are set from the options |

## Left out

- Floating-point style fields: FontSize, Outline, Shadow, Spacing, MarginL/R/V, ScaleX/Y and Blur (sub/ass_mp.c:54-58, 69-76, 78) are not modelled, and neither is the `res_y` parameter, which only feeds them.
- MP_ASS_COLOR packing (sub/ass_mp.c:59-66): the macro lives in `ass_mp.h`, which is not part of this model. Style colours hold the option colour record unchanged.
- `mp_ass_configure_fonts` and `mp_ass_init` (sub/ass_mp.c:83-98, 153-165): config-file lookup, filesystem checks and libass initialisation are I/O and foreign calls.
- `message_callback` and `map_ass_level` (sub/ass_mp.c:131-151): logging through `va_list` is I/O.
- `ass_render_frame` and `ass_free_event`: the external libass calls. They are an input value and a ghost log.
- The `assert` on the format tag (sub/ass_mp.c:107) is a precondition of `RenderFrame`, so the debug abort on violation is not modelled.
- AssRender.CapacityFor: `num_parts_alloc * 2` and `num_parts` are unbounded here; their 32-bit overflow is not modelled.
- AssRender.SubBitmaps.RenderFrame: `change_id` is an unbounded integer here; its wrap-around is not modelled.
- AssFlush.LeadingExpired: `Start + Duration` is a `long long` sum; its overflow is not modelled.
- Memory contents of freshly grown slots: new `parts` slots are zero-initialised in the model, whereas `talloc_realloc` leaves them undefined. No slot past `num_parts` is read.
- The strdup/free of FontName is modelled by the ghost `fontCopies` counter, not by allocation.

## Findings

| source | as written | input that shows it | evidently intended | confidence | as-written member | corrected member |
|---|---|---|---|---|---|---|
| sub/ass_mp.c:170-175 | the loop increments `n` and decrements `n_events` in the same iteration, so it stops once 2n >= N and removes at most ceil(N / 2) expired events | events (0,10), (5,20) flushed at ts = 100: both have ended, one is removed, and the expired (5,20) stays at index 0 | every leading event with Start + Duration < ts is freed and removed in one call | medium, not executed | AssFlush.Track.FlushOldEvents, AssFlush.FlushKeepsExpiredExample | AssFlush.Track.FlushOldEventsIntended |
