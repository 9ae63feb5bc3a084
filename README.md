# Where's Wally — the model executor's tiled inference

This project models the core of the Android app's `ModelExecutor`. The executor:
1. loads a TensorFlow Lite segmentation model;
2. zero-pads the input photo so that both sides are multiples of 256;
3. cuts the padded photo into 256 by 256 tiles, one task per tile, in row-major order;
4. thresholds each tile's scores into a black-and-white mask tile;
5. stitches the tiles into one mask the size of the padded photo;
6. turns gray every pixel whose mask pixel is not white;
7. crops the photo and the mask back to the input's size;
8. delivers them to the activity, or shows an error.

The model is organised by concern:
- `Pixels`: ARGB pixels as 32-bit patterns, and the gray filter.
- `Geometry`: padding arithmetic and tile numbering.
- `Grids`: images as values; region copy; centered crop-or-pad.
- `Tasks`: thresholding, the sub-image task and the task list.
- `Masks`: stitching and the in-place mask application.
- `ModelExecutor`: `run()` and its outcomes.

Bitmaps that the source changes in place are `array2<Pixel>` indexed `[x, y]`. These are the padded image that `applyMask` rewrites and the mask that `composeSubMasks` draws into. Values that are only read are grids `seq<seq<Pixel>>` indexed `[x][y]`.

`run()` is modelled by the method `ModelExecutor.Run`, which returns the events of the run in order. Two kinds of event are the activity's callbacks `showError` and `onModelExecutionEnd`. The other three are milestones of the run itself: the task list is created, the thread pool cannot be created, and the interpreter is closed. The contract of `Run` equates its events with the function `Pipeline` of the input image. The properties of a run are lemmas about `Pipeline`, built from `Phase` (how the part after the task list ends) and `Report` (the events of each ending).

Collaborators the model cannot see become parameters:
- Loading the interpreter is `load: LoadResult`: a usable interpreter, `IOException` or `IllegalArgumentException`.
- The pool size given to the constructor is `parallelTasksNumber: int`. `Executors.newFixedThreadPool` throws `IllegalArgumentException` for a value below one. Nothing in `run()` catches it, so the run ends right after the task list is created, with the interpreter still open.
- Whether `invokeAll` is interrupted is `interrupted: bool`.
- The interpreter running on a tile is `infer: Grid -> Inference`. It returns either the scores of the output tensor in buffer order, or the message of the exception it raised.

The library operation `ResizeWithCropOrPadOp` is modelled once, in `Grids.ResizeWithCropOrPad`:
- On each axis the content is centered.
- When the target is larger, the border is filled with zero pixels.
- When the target is smaller, the surplus is cut off.
- The same offset, half the difference rounded down, is used both ways, so a crop exactly inverts a pad.

This centered behaviour is the model's assumption about the library. It is not a reproduction of it.

## Model

| member | source | states |
|---|---|---|
| `Geometry.PaddedSize` | android/app/src/main/java/it/unipr/advmobdev/whereiswally/ModelExecutor.java:259-268 | the padded dimension is a multiple of 256, at least the original and less than 256 above it |
| `Geometry.PaddedSizeIsSmallest` | android/app/src/main/java/it/unipr/advmobdev/whereiswally/ModelExecutor.java:263-268 | no multiple of 256 that is at least the original is smaller than the padded dimension |
| `Geometry.PaddedSizeOfMultiple` | android/app/src/main/java/it/unipr/advmobdev/whereiswally/ModelExecutor.java:263-268 | a dimension that is already a multiple of 256 is left unchanged |
| `Geometry.TileCount` | android/app/src/main/java/it/unipr/advmobdev/whereiswally/ModelExecutor.java:179-180 | dividing a padded dimension by 256 is exact: count times 256 gives the dimension back |
| `Geometry.PaddingExample` | android/app/src/main/java/it/unipr/advmobdev/whereiswally/ModelExecutor.java:175-181 | 300 by 100 pads to 512 by 256, which is 2 tiles |
| `Geometry.TileIndexBijective` | android/app/src/main/java/it/unipr/advmobdev/whereiswally/ModelExecutor.java:302-307 | index i + j*numX of tile (i, j) is below numX*numY; its remainder by numX is i and its quotient is j |
| `Geometry.TileOfIndex` | android/app/src/main/java/it/unipr/advmobdev/whereiswally/ModelExecutor.java:302-307 | every index below numX*numY is the index of tile (k % numX, k / numX), which is in the grid |
| `Geometry.TilingIsExact` | android/app/src/main/java/it/unipr/advmobdev/whereiswally/ModelExecutor.java:331-339 | each pixel of the padded image lies in the tile (x/256, y/256), at offset (x%256, y%256), and in no other tile |
| `Geometry.PixelTileIndexInRange` | android/app/src/main/java/it/unipr/advmobdev/whereiswally/ModelExecutor.java:334 | the index of the result read for any pixel's tile is a valid list index |
| `Grids.Region` | android/app/src/main/java/it/unipr/advmobdev/whereiswally/ModelExecutor.java:304-306 | the copied w by h region has that size and pixel (x, y) equal to pixel (x0 + x, y0 + y) of the source |
| `Grids.ResizeWithCropOrPad` | android/app/src/main/java/it/unipr/advmobdev/whereiswally/ModelExecutor.java:270-274 | the resized image has exactly the requested width and height |
| `Grids.CropAt` | android/app/src/main/java/it/unipr/advmobdev/whereiswally/ModelExecutor.java:381-385 | a crop keeps the centered part of the image: pixel (x, y) comes from the source shifted by half the surplus |
| `Grids.PadKeepsContent` | android/app/src/main/java/it/unipr/advmobdev/whereiswally/ModelExecutor.java:270-274 | padding moves every original pixel by the centering offset and fills every other position with zero |
| `Grids.CropUndoesPad` | android/app/src/main/java/it/unipr/advmobdev/whereiswally/ModelExecutor.java:256-275 | padding to any larger size and cropping back to the original size gives the original image |
| `Grids.ResizeToOwnSize` | android/app/src/main/java/it/unipr/advmobdev/whereiswally/ModelExecutor.java:270-274 | resizing to the size the image already has changes nothing |
| `Grids.NewBitmap` | android/app/src/main/java/it/unipr/advmobdev/whereiswally/ModelExecutor.java:273-274 | the new mutable bitmap has the given size and holds exactly the given pixels |
| `ModelExecutor.MakeSizeMultipleOfSubImage` | android/app/src/main/java/it/unipr/advmobdev/whereiswally/ModelExecutor.java:256-275 | the padded image is PaddedSize(width) by PaddedSize(height) |
| `ModelExecutor.RestoreInitialSize` | android/app/src/main/java/it/unipr/advmobdev/whereiswally/ModelExecutor.java:375-385 | the restored image has exactly the input's width and height |
| `ModelExecutor.RestoreUndoesPadding` | android/app/src/main/java/it/unipr/advmobdev/whereiswally/ModelExecutor.java:375-385 | restoring the initial size of the padded input gives the input back |
| `ModelExecutor.MultipleIsNotPadded` | android/app/src/main/java/it/unipr/advmobdev/whereiswally/ModelExecutor.java:263-275 | an input whose sides are multiples of 256 is processed unpadded |
| `Tasks.Threshold` | android/app/src/main/java/it/unipr/advmobdev/whereiswally/ModelExecutor.java:101-105 | a score gives WHITE exactly when it is above 0.5 and BLACK exactly when it is not |
| `Tasks.TileFromPixels` | android/app/src/main/java/it/unipr/advmobdev/whereiswally/ModelExecutor.java:107-108 | the bitmap filled from the pixel array is 256 by 256 |
| `Tasks.Thresholded` | android/app/src/main/java/it/unipr/advmobdev/whereiswally/ModelExecutor.java:99-108 | the tile is 256 by 256; pixel (x, y) is WHITE exactly when score x + 256y is above 0.5 and BLACK exactly when it is not, so no other colour occurs |
| `Tasks.ThresholdedIsOpaque` | android/app/src/main/java/it/unipr/advmobdev/whereiswally/ModelExecutor.java:101-108 | every pixel of a thresholded tile has alpha 0xff |
| `Tasks.ConvertByteBufferToBitmap` | android/app/src/main/java/it/unipr/advmobdev/whereiswally/ModelExecutor.java:94-110 | the loop over the buffer and setPixels build exactly the thresholded tile |
| `Tasks.SubImageTask.Outcome` | android/app/src/main/java/it/unipr/advmobdev/whereiswally/ModelExecutor.java:64-86 | the future fails exactly when the interpreter raises, with its message; otherwise it yields the thresholded tile of the scores |
| `Tasks.SubImageTask.Call` | android/app/src/main/java/it/unipr/advmobdev/whereiswally/ModelExecutor.java:64-86 | running the task yields its outcome |
| `Tasks.TaskList` | android/app/src/main/java/it/unipr/advmobdev/whereiswally/ModelExecutor.java:300-310 | there are exactly numX*numY tasks |
| `Tasks.TaskListRowMajor` | android/app/src/main/java/it/unipr/advmobdev/whereiswally/ModelExecutor.java:302-308 | entry i + j*numX is the 256 by 256 sub-image with origin (i*256, j*256), which lies inside the padded image |
| `Tasks.GetTaskList` | android/app/src/main/java/it/unipr/advmobdev/whereiswally/ModelExecutor.java:287-311 | the nested loops build exactly the row-major task list |
| `Tasks.InvokeAll` | android/app/src/main/java/it/unipr/advmobdev/whereiswally/ModelExecutor.java:193 | there is one future per task, in task order, each the outcome of its task |
| `Masks.FirstFailure` | android/app/src/main/java/it/unipr/advmobdev/whereiswally/ModelExecutor.java:331-340 | there is no failure exactly when every future succeeded; otherwise it is the message of a failed future preceded only by successes |
| `Masks.FirstFailureAt` | android/app/src/main/java/it/unipr/advmobdev/whereiswally/ModelExecutor.java:331-340 | a failure preceded only by successes is the one reported |
| `Masks.DoneTiles` | android/app/src/main/java/it/unipr/advmobdev/whereiswally/ModelExecutor.java:334 | the tiles are the values of the futures, in the same order |
| `Masks.Stitched` | android/app/src/main/java/it/unipr/advmobdev/whereiswally/ModelExecutor.java:329 | the stitched mask is the size of the padded image |
| `Masks.StitchedPixel` | android/app/src/main/java/it/unipr/advmobdev/whereiswally/ModelExecutor.java:331-340 | mask pixel (x, y) is pixel (x%256, y%256) of tile x/256 + (y/256)*numX |
| `Masks.StitchedPlacesTile` | android/app/src/main/java/it/unipr/advmobdev/whereiswally/ModelExecutor.java:333-338 | tile i + j*numX appears whole in the mask with its origin at (i*256, j*256) |
| `Masks.DrawBitmap` | android/app/src/main/java/it/unipr/advmobdev/whereiswally/ModelExecutor.java:333-338 | drawing an opaque tile overwrites the 256 by 256 square at (left, top) with it and leaves every other mask pixel unchanged |
| `Masks.DrawTile` | android/app/src/main/java/it/unipr/advmobdev/whereiswally/ModelExecutor.java:333-338 | the tile of the successful future i + j*numX fills the square at (i*256, j*256), and no other mask pixel changes |
| `Masks.ComposeSubMasks` | android/app/src/main/java/it/unipr/advmobdev/whereiswally/ModelExecutor.java:325-342 | the mask is built exactly when every future succeeded, and it is then a fresh bitmap of the image's size holding the stitched tiles; otherwise the first failure's message is thrown |
| `Masks.Masked` | android/app/src/main/java/it/unipr/advmobdev/whereiswally/ModelExecutor.java:351-366 | the filtered image has the size of the image |
| `Masks.MaskedAt` | android/app/src/main/java/it/unipr/advmobdev/whereiswally/ModelExecutor.java:357-364 | each filtered pixel is the image's pixel filtered by the mask's pixel at the same place |
| `Masks.MaskedIdempotent` | android/app/src/main/java/it/unipr/advmobdev/whereiswally/ModelExecutor.java:351-366 | applying the same mask twice equals applying it once |
| `Masks.ApplyMaskToRow` | android/app/src/main/java/it/unipr/advmobdev/whereiswally/ModelExecutor.java:354-365 | one pass of the inner loop filters row y in place and changes no other row of the image |
| `Masks.ApplyMask` | android/app/src/main/java/it/unipr/advmobdev/whereiswally/ModelExecutor.java:351-367 | every pixel of the image becomes the old pixel filtered by the old mask pixel, even when the two bitmaps are the same object; the new image is the masked old image |
| `Masks.MaskedSnapshot` | android/app/src/main/java/it/unipr/advmobdev/whereiswally/ModelExecutor.java:351-367 | a bitmap whose every pixel is the filtered image pixel holds the masked image |
| `Masks.CroppedMaskedPixel` | android/app/src/main/java/it/unipr/advmobdev/whereiswally/ModelExecutor.java:212-217 | padding, filtering and cropping back filter pixel (x, y) of the input by pixel (x, y) of the cropped mask |
| `Masks.CroppedMaskedImage` | android/app/src/main/java/it/unipr/advmobdev/whereiswally/ModelExecutor.java:212-217 | the same holds of every pixel of the input |
| `Masks.CropKeepsBlackAndWhite` | android/app/src/main/java/it/unipr/advmobdev/whereiswally/ModelExecutor.java:217 | the crop of a black-and-white mask is black and white |
| `Pixels.Average` | android/app/src/main/java/it/unipr/advmobdev/whereiswally/ModelExecutor.java:362 | the sum r + g + b is at most 765, and three times the gray value is between that sum minus 2 and the sum, so the gray value is the sum divided by 3, rounded down |
| `Pixels.OpaqueGray` | android/app/src/main/java/it/unipr/advmobdev/whereiswally/ModelExecutor.java:363 | the bitwise or of 0xff000000, v<<16, v<<8 and v has alpha 0xff and all three colour channels equal to v |
| `Pixels.Gray` | android/app/src/main/java/it/unipr/advmobdev/whereiswally/ModelExecutor.java:358-363 | the gray of a pixel is opaque, with all three channels equal to the truncated average of its channels |
| `Pixels.MaskPixel` | android/app/src/main/java/it/unipr/advmobdev/whereiswally/ModelExecutor.java:357-364 | a pixel under a WHITE mask pixel is kept; any other becomes the opaque gray of the average of its channels |
| `Pixels.GrayFixesOpaqueGray` | android/app/src/main/java/it/unipr/advmobdev/whereiswally/ModelExecutor.java:358-363 | an opaque gray pixel with r = g = b = v is its own gray, because (3v)/3 = v |
| `Pixels.GrayIdempotent` | android/app/src/main/java/it/unipr/advmobdev/whereiswally/ModelExecutor.java:358-363 | applying the gray filter twice equals applying it once |
| `Pixels.MaskPixelIdempotent` | android/app/src/main/java/it/unipr/advmobdev/whereiswally/ModelExecutor.java:357-364 | filtering a pixel twice with the same mask pixel equals filtering it once |
| `ModelExecutor.Padded` | android/app/src/main/java/it/unipr/advmobdev/whereiswally/ModelExecutor.java:175-181 | the padded input is rectangular, and its sides are numTasksX*256 and numTasksY*256, which are the padded dimensions |
| `ModelExecutor.Results` | android/app/src/main/java/it/unipr/advmobdev/whereiswally/ModelExecutor.java:186-193 | there is one future per tile, and every successful one is an opaque 256 by 256 tile |
| `ModelExecutor.Mask` | android/app/src/main/java/it/unipr/advmobdev/whereiswally/ModelExecutor.java:198 | the stitched mask of a successful run is the size of the padded input |
| `ModelExecutor.Report` | android/app/src/main/java/it/unipr/advmobdev/whereiswally/ModelExecutor.java:159-222 | a run starts by reporting its task count exactly when the load succeeded; it closes the interpreter exactly when it loaded and the pool was created; the pool failure appears exactly when the pool was rejected; it delivers exactly when the mask was built; it shows an error exactly when the load failed, the wait was interrupted or a task failed |
| `ModelExecutor.Phase` | android/app/src/main/java/it/unipr/advmobdev/whereiswally/ModelExecutor.java:188-221 | the pool is rejected exactly when the pool size is below one; otherwise the phase is interrupted exactly when the wait was, fails with the first failure's message exactly when a future failed, and is otherwise built with an image and a mask of the input's size |
| `ModelExecutor.Pipeline` | android/app/src/main/java/it/unipr/advmobdev/whereiswally/ModelExecutor.java:159-222 | a loaded run first reports as many tasks as the task list holds; a failed load shows one error and nothing else |
| `ModelExecutor.Run` | android/app/src/main/java/it/unipr/advmobdev/whereiswally/ModelExecutor.java:152-223 | the events of one run are exactly Pipeline of the input image, the pool size and the collaborators' behaviour |
| `ModelExecutor.Deliver` | android/app/src/main/java/it/unipr/advmobdev/whereiswally/ModelExecutor.java:212-217 | the padded image bitmap becomes the masked padded image; the delivered image is that cropped to the input's size, and the delivered mask is the cropped mask |
| `ModelExecutor.LoadFailureEndsRun` | android/app/src/main/java/it/unipr/advmobdev/whereiswally/ModelExecutor.java:159-171 | a failed load shows its own message and nothing else happens: no task list is created, no interpreter is closed, nothing is delivered |
| `ModelExecutor.PoolRejectionLeavesInterpreterOpen` | android/app/src/main/java/it/unipr/advmobdev/whereiswally/ModelExecutor.java:186-188 | with a pool size below one the run reports its tasks and then the pool failure: the interpreter is never closed, no error is shown and nothing is delivered |
| `ModelExecutor.ReportClosesOnce` | android/app/src/main/java/it/unipr/advmobdev/whereiswally/ModelExecutor.java:208-210 | a loaded run whose pool is created closes the interpreter exactly once; any other run never does |
| `ModelExecutor.ReportClosesInOrder` | android/app/src/main/java/it/unipr/advmobdev/whereiswally/ModelExecutor.java:200-221 | the interpreter is closed after any error is shown and before any result is delivered |
| `ModelExecutor.InterpreterClosedOnEveryPath` | android/app/src/main/java/it/unipr/advmobdev/whereiswally/ModelExecutor.java:189-212 | on every path of a loaded run whose pool is created the interpreter is closed once, after any error and before delivery; on no other path is it closed |
| `ModelExecutor.DeliveredOnlyIfMaskBuilt` | android/app/src/main/java/it/unipr/advmobdev/whereiswally/ModelExecutor.java:189-222 | a result is delivered exactly when the load succeeded, the pool was created, the wait was not interrupted and the model returned scores for every tile; no run both delivers and shows an error, and a run does neither exactly when the pool is rejected |
| `ModelExecutor.TaskFailureReportsFirstMessage` | android/app/src/main/java/it/unipr/advmobdev/whereiswally/ModelExecutor.java:198-210 | when task k is the first that raises and the pool is created, the run shows task k's message, closes the interpreter and delivers nothing |
| `ModelExecutor.MaskPixelIsBlackOrWhite` | android/app/src/main/java/it/unipr/advmobdev/whereiswally/ModelExecutor.java:101-105 | every pixel of the stitched mask of a successful run is WHITE or BLACK |
| `ModelExecutor.MaskIsBlackAndWhite` | android/app/src/main/java/it/unipr/advmobdev/whereiswally/ModelExecutor.java:198 | the stitched mask of a successful run is black and white |
| `ModelExecutor.DeliveredImageIsFilteredInput` | android/app/src/main/java/it/unipr/advmobdev/whereiswally/ModelExecutor.java:212-221 | a successful run delivers an image and a mask of the input's size; the mask is black and white and each image pixel is the input pixel filtered by the mask pixel at the same place |
| `ModelExecutor.TaskCountExamples` | android/app/src/main/java/it/unipr/advmobdev/whereiswally/ModelExecutor.java:175-181 | a 512 by 512 input is unpadded and reports 4 tasks; a 300 by 100 input is padded to 512 by 256 and reports 2 |

## Left out

- Concurrency: `ExecutorService.invokeAll` runs the tasks in a thread pool, and every task calls `run` on the one shared interpreter (ModelExecutor.java:81, :307). The model runs the tasks one after another in task order (`Tasks.InvokeAll`). It assumes that the shared interpreter gives each concurrent call the result that call would give alone; the model does not check that assumption.
- The unsynchronised `progress += progressIncrement` in `onTaskEnd` (ModelExecutor.java:295) races between tasks. It affects only the progress bar and is not modelled.
- The thread pool is never shut down (`run()` has no `shutdown()` call), so its threads outlive the run. The model has no threads, so this is not modelled.
- The TensorFlow Lite interpreter, `NormalizeOp`, `GpuDelegate`, `FileUtil.loadMappedFile` and `loadInterpreter`: foreign runtime and file I/O. They become the parameters `infer` and `load`. `FillsOutput` states that the interpreter, when it returns normally, has filled exactly 256·256 scores.
- Reading the output buffer as 32-bit floats in native byte order: scores are `real`, so NaN and the byte order are not modelled.
- Progress reporting (`progress`, `progressIncrement`, `updateProgress`) and `Statistics`: float arithmetic, wall clock and UI callbacks.
- `ExecutionException.getMessage()`: the text Java builds from the cause is modelled as the cause's message string, carried unchanged.
- `Geometry.PaddedSize`: does not model 32-bit overflow of `width += size - width % size`. Sides within 255 of `Integer.MAX_VALUE` would wrap, which no Android bitmap reaches.
- `Grids.ResizeWithCropOrPad`: the library operation is modelled as a centered crop or zero pad. It is assumed to return a new bitmap, so it never aliases its input, and a mutable one, so `applyMask` can write to it.
- `Masks.DrawBitmap`: `Canvas.drawBitmap` with no `Paint` blends by source-over. It is modelled as a copy, which source-over is for an opaque tile. The contract therefore requires an opaque tile. `Tasks.ThresholdedIsOpaque` proves every task's tile opaque, and `ModelExecutor.Results` carries that to `Masks.ComposeSubMasks`.
- `Masks.ComposeSubMasks`: requires the image to be exactly numX·256 by numY·256, which `run()` guarantees. Drawing that would clip at the border is not modelled.
- `Masks.ComposeSubMasks`: a failure ends stitching with its message. The partly drawn mask it leaves behind is discarded, as in `run()`, and is not part of the outcome.
- `ModelExecutor.Run`: requires an input with positive width and height, as every Android bitmap has. The input bitmap is read once, as a grid, where `restoreInitialSize` asks the activity for its size again.
- `ModelExecutor.Run`: assumes that `getInputImage`, `createBitmap` inside `makeSizeMultipleOfSubImage` and `getTaskList` (ModelExecutor.java:173-186) do not throw. Of the exceptions `run()` does not catch, only the one from `Executors.newFixedThreadPool` is modelled.
- The rest of the repository: the activities, `CustomImageView`, `FindWallyViewModel`, `Statistics` and the Python training code. `FindWallyActivity.java` calls a one-argument `ModelExecutor` constructor that does not match the three-argument one at ModelExecutor.java:144. It is not part of this model.
