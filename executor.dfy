/**
 * The model executor's run(): load the interpreter, pad the input image,
 * run one task per tile, stitch the mask, apply it, crop both back to the
 * input's size and report to the activity. The behaviour of a run is the
 * sequence of its events: the activity's error and result callbacks and the
 * milestones between them.
 */
module ModelExecutor {
  import opened Pixels
  import opened Geometry
  import opened Grids
  import opened Tasks
  import opened Masks

  /** How loading the interpreter ends: a usable interpreter, an IOException or an IllegalArgumentException. */
  datatype LoadResult = Loaded | CannotOpen | BadlyEncoded

  const CANNOT_OPEN_MESSAGE: string := "Model file not exists or cannot be opened"
  const BAD_ENCODING_MESSAGE: string := "Model file is badly encoded"
  const INTERRUPTED_MESSAGE: string := "A thread was interrupted"

  /**
   * The events of a run, in order. ShowError and ModelExecutionEnd are the
   * activity's callbacks; TasksCreated (the task list is built, with its
   * size), PoolCreationFailed (run() ends by throwing out of the creation of
   * the thread pool) and InterpreterClosed are milestones of the run itself.
   */
  datatype Event =
    | ShowError(message: string)
    | TasksCreated(count: nat)
    | PoolCreationFailed
    | InterpreterClosed
    | ModelExecutionEnd(image: Grid, mask: Grid)

  /** Zero-pads the image, centered, to the next multiples of SUB_IMAGE_SIZE. */
  function MakeSizeMultipleOfSubImage(image: Grid): (padded: Grid)
    requires IsRect(image)
    ensures HasSize(padded, PaddedSize(Width(image)), PaddedSize(Height(image)))
  {
    ResizeWithCropOrPad(image, PaddedSize(Width(image)), PaddedSize(Height(image)))
  }

  /** Crops the image, centered, to the size of the input image. */
  function RestoreInitialSize(image: Grid, width: nat, height: nat): (restored: Grid)
    requires IsRect(image)
    ensures HasSize(restored, width, height)
  {
    ResizeWithCropOrPad(image, width, height)
  }

  /** Restoring the initial size of the padded image gives back the input image. */
  lemma RestoreUndoesPadding(image: Grid)
    requires IsRect(image) && Width(image) > 0
    ensures IsRect(MakeSizeMultipleOfSubImage(image))
    ensures RestoreInitialSize(MakeSizeMultipleOfSubImage(image), Width(image), Height(image)) == image
  {
    HasSizeIsRect(MakeSizeMultipleOfSubImage(image), PaddedSize(Width(image)), PaddedSize(Height(image)));
    CropUndoesPad(image, PaddedSize(Width(image)), PaddedSize(Height(image)));
  }

  /** An input image as Android hands it over: non-empty and rectangular. */
  predicate IsInput(input: Grid) {
    IsRect(input) && Width(input) > 0 && Height(input) > 0
  }

  /** Tiles along x and y of the padded input. */
  function NumTasksX(input: Grid): nat { TileCount(PaddedSize(Width(input))) }
  function NumTasksY(input: Grid): nat { TileCount(PaddedSize(Height(input))) }

  /** The padded input, with the facts about its size that the rest relies on. */
  function Padded(input: Grid): (image: Grid)
    requires IsInput(input)
    ensures IsRect(image)
    ensures Width(image) == NumTasksX(input) * SUB_IMAGE_SIZE == PaddedSize(Width(input))
    ensures Height(image) == NumTasksY(input) * SUB_IMAGE_SIZE == PaddedSize(Height(input))
  {
    var image := MakeSizeMultipleOfSubImage(input);
    HasSizeIsRect(image, PaddedSize(Width(input)), PaddedSize(Height(input)));
    image
  }

  /** The futures of the task list of the padded input. */
  function Results(input: Grid, infer: Grid -> Inference): (results: seq<Future>)
    requires IsInput(input) && FillsOutput(infer)
    ensures |results| == NumTasksX(input) * NumTasksY(input)
    ensures forall k :: 0 <= k < |results| && results[k].Done? ==> IsMaskTile(results[k].tile)
  {
    var tasks := TaskList(Padded(input), NumTasksX(input), NumTasksY(input));
    seq(|tasks|, k requires 0 <= k < |tasks| =>
      var f := tasks[k].Outcome(infer);
      if f.Done? then ThresholdedIsOpaque(infer(tasks[k].subImage).values); f else f)
  }

  /** The stitched mask when every task succeeded. */
  function Mask(input: Grid, infer: Grid -> Inference): (mask: Grid)
    requires IsInput(input) && FillsOutput(infer)
    requires FirstFailure(Results(input, infer)).None?
    ensures HasSize(mask, PaddedSize(Width(input)), PaddedSize(Height(input)))
    ensures IsRect(mask) && Width(mask) == PaddedSize(Width(input)) && Height(mask) == PaddedSize(Height(input))
  {
    var mask := Stitched(DoneTiles(Results(input, infer)), NumTasksX(input), NumTasksY(input));
    HasSizeIsRect(mask, PaddedSize(Width(input)), PaddedSize(Height(input)));
    mask
  }

  /**
   * How the part of a loaded run after the task list is built ends: the
   * thread pool cannot be created, the wait for the futures is interrupted,
   * a task fails, or the mask is built and applied.
   */
  datatype TaskPhase =
    | PoolRejected
    | Interrupted
    | TaskFailed(message: string)
    | MaskBuilt(image: Grid, mask: Grid)

  /**
   * The events of a run, given how loading ended, how many tasks there are
   * and how the task phase ended: the error of a failed load ends the run;
   * otherwise the task list is built; a rejected pool size then ends the run
   * with the interpreter still open; any other ending shows its error, if any,
   * closes the interpreter and only then delivers a built result.
   */
  function Report(load: LoadResult, numTasks: nat, phase: TaskPhase): (events: seq<Event>)
    ensures 1 <= |events| && (events[0] == TasksCreated(numTasks) <==> load.Loaded?)
    ensures InterpreterClosed in events <==> load.Loaded? && !phase.PoolRejected?
    ensures PoolCreationFailed in events <==> load.Loaded? && phase.PoolRejected?
    ensures Delivers(events) <==> load.Loaded? && phase.MaskBuilt?
    ensures Fails(events) <==> !load.Loaded? || phase.Interrupted? || phase.TaskFailed?
  {
    match load
    case CannotOpen | BadlyEncoded =>
      var events := [ShowError(if load.CannotOpen? then CANNOT_OPEN_MESSAGE else BAD_ENCODING_MESSAGE)];
      assert events[0] in events;
      events
    case Loaded =>
      match phase
      case PoolRejected => [TasksCreated(numTasks), PoolCreationFailed]
      case Interrupted =>
        var events := [TasksCreated(numTasks), ShowError(INTERRUPTED_MESSAGE), InterpreterClosed];
        assert events[1] in events;
        events
      case TaskFailed(message) =>
        var events := [TasksCreated(numTasks), ShowError(message), InterpreterClosed];
        assert events[1] in events;
        events
      case MaskBuilt(image, mask) =>
        var events := [TasksCreated(numTasks), InterpreterClosed, ModelExecutionEnd(image, mask)];
        assert events[2] in events;
        events
  }

  /**
   * How the task phase of a loaded run ends: the pool size is checked first,
   * then the interruption, then the futures in task order; a successful phase
   * carries the masked image and the mask, cropped to the input's size.
   */
  function Phase(input: Grid, parallelTasksNumber: int, interrupted: bool, infer: Grid -> Inference): (phase: TaskPhase)
    requires IsInput(input) && FillsOutput(infer)
    ensures phase.PoolRejected? <==> parallelTasksNumber < 1
    ensures phase.Interrupted? <==> parallelTasksNumber >= 1 && interrupted
    ensures phase.TaskFailed? <==>
      parallelTasksNumber >= 1 && !interrupted && FirstFailure(Results(input, infer)).Some?
    ensures phase.TaskFailed? ==> FirstFailure(Results(input, infer)) == Some(phase.message)
    ensures phase.MaskBuilt? ==>
      HasSize(phase.image, Width(input), Height(input)) && HasSize(phase.mask, Width(input), Height(input))
  {
    if parallelTasksNumber < 1 then PoolRejected
    else if interrupted then Interrupted
    else
      match FirstFailure(Results(input, infer))
      case Some(message) => TaskFailed(message)
      case None =>
        var mask := Mask(input, infer);
        MaskBuilt(RestoreInitialSize(Masked(Padded(input), mask), Width(input), Height(input)),
                  RestoreInitialSize(mask, Width(input), Height(input)))
  }

  /**
   * The events of one run, as a function of its input image, of the pool
   * size it was constructed with and of what its collaborators do. A loaded
   * run first reports one task per tile of the padded image.
   */
  function Pipeline(input: Grid, load: LoadResult, parallelTasksNumber: int, interrupted: bool,
                    infer: Grid -> Inference): (events: seq<Event>)
    requires IsInput(input) && FillsOutput(infer)
    ensures |events| >= 1
    ensures load.Loaded? ==>
      events[0] == TasksCreated(|TaskList(Padded(input), NumTasksX(input), NumTasksY(input))|)
    ensures !load.Loaded? ==> |events| == 1 && events[0].ShowError?
  {
    Report(load, NumTasksX(input) * NumTasksY(input), Phase(input, parallelTasksNumber, interrupted, infer))
  }

  /** One run of the model executor on the activity's input image. */
  method Run(input: array2<Pixel>, load: LoadResult, parallelTasksNumber: int, interrupted: bool,
             infer: Grid -> Inference)
    returns (events: seq<Event>)
    requires input.Length0 > 0 && input.Length1 > 0
    requires FillsOutput(infer)
    ensures IsInput(Snapshot(input))
    ensures events == Pipeline(Snapshot(input), load, parallelTasksNumber, interrupted, infer)
  {
    var original := Snapshot(input);
    var width, height := input.Length0, input.Length1;
    HasSizeIsRect(original, width, height);
    match load {
      case CannotOpen => return [ShowError(CANNOT_OPEN_MESSAGE)];
      case BadlyEncoded => return [ShowError(BAD_ENCODING_MESSAGE)];
      case Loaded =>
    }
    var padded := MakeSizeMultipleOfSubImage(original);
    assert padded == Padded(original);
    var image := NewBitmap(padded, PaddedSize(width), PaddedSize(height));
    var numTasksX := image.Length0 / SUB_IMAGE_SIZE;
    var numTasksY := image.Length1 / SUB_IMAGE_SIZE;
    var numTasks := numTasksX * numTasksY;
    var tasks := GetTaskList(padded, numTasksX, numTasksY);
    events := [TasksCreated(numTasks)];
    if parallelTasksNumber < 1 {
      // Executors.newFixedThreadPool throws IllegalArgumentException out of run().
      events := events + [PoolCreationFailed];
      assert Snapshot(input) == original;
      return;
    }
    var mask: array2?<Pixel> := null;
    ghost var phase := Interrupted;
    if interrupted {
      events := events + [ShowError(INTERRUPTED_MESSAGE)];
    } else {
      var results := InvokeAll(tasks, infer);
      assert results == Results(original, infer);
      var composed := ComposeSubMasks(image, results, numTasksX, numTasksY);
      match composed
      case Threw(message) =>
        events := events + [ShowError(message)];
        phase := TaskFailed(message);
      case Built(m) =>
        mask := m;
    }
    events := events + [InterpreterClosed];
    if mask != null {
      assert Snapshot(mask) == Mask(original, infer);
      var finalImage, finalMask := Deliver(image, mask, width, height);
      events := events + [ModelExecutionEnd(finalImage, finalMask)];
      phase := MaskBuilt(finalImage, finalMask);
    }
    assert phase == Phase(original, parallelTasksNumber, interrupted, infer);
    match phase {
      case PoolRejected =>
      case Interrupted => ThreeEvents(TasksCreated(numTasks), ShowError(INTERRUPTED_MESSAGE), InterpreterClosed);
      case TaskFailed(message) => ThreeEvents(TasksCreated(numTasks), ShowError(message), InterpreterClosed);
      case MaskBuilt(finalImage, finalMask) =>
        ThreeEvents(TasksCreated(numTasks), InterpreterClosed, ModelExecutionEnd(finalImage, finalMask));
    }
    assert Snapshot(input) == original;
  }

  /** Appending three events one by one gives the three-event log. */
  lemma ThreeEvents(a: Event, b: Event, c: Event)
    ensures [a] + [b] + [c] == [a, b, c]
  {
  }

  /**
   * The end of a successful run: the mask applied to the padded image, then
   * both cropped back to the input's size.
   */
  method Deliver(image: array2<Pixel>, mask: array2<Pixel>, width: nat, height: nat)
    returns (finalImage: Grid, finalMask: Grid)
    requires image != mask
    requires mask.Length0 == image.Length0 >= width && mask.Length1 == image.Length1 >= height
    modifies image
    ensures IsRect(old(Snapshot(image))) && IsRect(old(Snapshot(mask)))
    ensures IsRect(Masked(old(Snapshot(image)), old(Snapshot(mask))))
    ensures finalImage == RestoreInitialSize(Masked(old(Snapshot(image)), old(Snapshot(mask))), width, height)
    ensures finalMask == RestoreInitialSize(old(Snapshot(mask)), width, height)
    ensures Snapshot(image) == Masked(old(Snapshot(image)), old(Snapshot(mask)))
  {
    ghost var padded, stitched := Snapshot(image), Snapshot(mask);
    HasSizeIsRect(padded, image.Length0, image.Length1);
    HasSizeIsRect(stitched, mask.Length0, mask.Length1);
    HasSizeIsRect(Masked(padded, stitched), image.Length0, image.Length1);
    ApplyMask(image, mask);
    assert Snapshot(mask) == stitched;
    finalImage := RestoreInitialSize(Snapshot(image), width, height);
    finalMask := RestoreInitialSize(Snapshot(mask), width, height);
  }

  /** True when the run handed a result to the activity. */
  predicate Delivers(events: seq<Event>) {
    exists e :: e in events && e.ModelExecutionEnd?
  }

  /** True when the run showed an error to the activity. */
  predicate Fails(events: seq<Event>) {
    exists e :: e in events && e.ShowError?
  }

  /**
   * A failed load shows its error and ends the run: no task list is built,
   * no interpreter exists to close, and nothing is delivered.
   */
  lemma LoadFailureEndsRun(input: Grid, load: LoadResult, parallelTasksNumber: int, interrupted: bool,
                           infer: Grid -> Inference)
    requires IsInput(input) && FillsOutput(infer)
    requires !load.Loaded?
    ensures Pipeline(input, load, parallelTasksNumber, interrupted, infer) ==
      [ShowError(if load.CannotOpen? then CANNOT_OPEN_MESSAGE else BAD_ENCODING_MESSAGE)]
    ensures forall e :: e in Pipeline(input, load, parallelTasksNumber, interrupted, infer) ==>
      !e.TasksCreated? && !e.InterpreterClosed?
  {
  }

  /**
   * A pool size below one makes run() throw right after the task list is
   * built: the interpreter is never closed, no error is shown and nothing is
   * delivered.
   */
  lemma PoolRejectionLeavesInterpreterOpen(input: Grid, parallelTasksNumber: int, interrupted: bool,
                                           infer: Grid -> Inference)
    requires IsInput(input) && FillsOutput(infer)
    requires parallelTasksNumber < 1
    ensures var events := Pipeline(input, Loaded, parallelTasksNumber, interrupted, infer);
      events == [TasksCreated(NumTasksX(input) * NumTasksY(input)), PoolCreationFailed] &&
      InterpreterClosed !in events && !Fails(events) && !Delivers(events)
  {
  }

  /**
   * A loaded run whose pool is created closes the interpreter exactly once,
   * whatever happens to the tasks, before any result is delivered and after
   * any error is shown; any other run never closes it.
   */
  lemma InterpreterClosedOnEveryPath(input: Grid, load: LoadResult, parallelTasksNumber: int, interrupted: bool,
                                     infer: Grid -> Inference)
    requires IsInput(input) && FillsOutput(infer)
    ensures var events := Pipeline(input, load, parallelTasksNumber, interrupted, infer);
      multiset(events)[InterpreterClosed] == if load.Loaded? && parallelTasksNumber >= 1 then 1 else 0
    ensures var events := Pipeline(input, load, parallelTasksNumber, interrupted, infer);
      forall a, b :: 0 <= a < |events| && 0 <= b < |events| && events[a] == InterpreterClosed ==>
        (events[b].ModelExecutionEnd? ==> a < b) && (events[b].ShowError? ==> b < a)
  {
    var phase := Phase(input, parallelTasksNumber, interrupted, infer);
    assert phase.PoolRejected? <==> parallelTasksNumber < 1;
    ReportClosesOnce(load, NumTasksX(input) * NumTasksY(input), phase);
    ReportClosesInOrder(load, NumTasksX(input) * NumTasksY(input), phase);
  }

  /**
   * A loaded run whose pool is created closes the interpreter exactly once;
   * any other run never does.
   */
  lemma ReportClosesOnce(load: LoadResult, numTasks: nat, phase: TaskPhase)
    ensures multiset(Report(load, numTasks, phase))[InterpreterClosed] ==
      if load.Loaded? && !phase.PoolRejected? then 1 else 0
  {
  }

  /** The interpreter is closed after every error is shown and before a result is delivered. */
  lemma ReportClosesInOrder(load: LoadResult, numTasks: nat, phase: TaskPhase)
    ensures var events := Report(load, numTasks, phase);
      forall a, b :: 0 <= a < |events| && 0 <= b < |events| && events[a] == InterpreterClosed ==>
        (events[b].ModelExecutionEnd? ==> a < b) && (events[b].ShowError? ==> b < a)
  {
  }

  /**
   * A result is delivered exactly when the interpreter loaded, the pool was
   * created, the wait was not interrupted and the model returned scores for
   * every tile. A run never both delivers and shows an error, and it does
   * neither only when the pool is rejected.
   */
  lemma DeliveredOnlyIfMaskBuilt(input: Grid, load: LoadResult, parallelTasksNumber: int, interrupted: bool,
                                 infer: Grid -> Inference)
    requires IsInput(input) && FillsOutput(infer)
    ensures var tasks := TaskList(Padded(input), NumTasksX(input), NumTasksY(input));
      Delivers(Pipeline(input, load, parallelTasksNumber, interrupted, infer)) <==>
        load.Loaded? && parallelTasksNumber >= 1 && !interrupted &&
        forall k :: 0 <= k < |tasks| ==> infer(tasks[k].subImage).Scores?
    ensures var events := Pipeline(input, load, parallelTasksNumber, interrupted, infer);
      !(Delivers(events) && Fails(events)) &&
      (!Delivers(events) && !Fails(events) <==> load.Loaded? && parallelTasksNumber < 1)
  {
    var results := Results(input, infer);
    var tasks := TaskList(Padded(input), NumTasksX(input), NumTasksY(input));
    assert forall k :: 0 <= k < |tasks| ==> (results[k].Done? <==> infer(tasks[k].subImage).Scores?);
  }

  /**
   * When the model raises on task k and returned scores for every earlier
   * task, a run whose pool is created shows the message of task k, closes
   * the interpreter and delivers nothing.
   */
  lemma TaskFailureReportsFirstMessage(input: Grid, parallelTasksNumber: int, infer: Grid -> Inference, k: nat)
    requires IsInput(input) && FillsOutput(infer)
    requires parallelTasksNumber >= 1
    requires var tasks := TaskList(Padded(input), NumTasksX(input), NumTasksY(input));
      k < |tasks| && infer(tasks[k].subImage).Raised? &&
      forall n :: 0 <= n < k ==> infer(tasks[n].subImage).Scores?
    ensures var tasks := TaskList(Padded(input), NumTasksX(input), NumTasksY(input));
      Pipeline(input, Loaded, parallelTasksNumber, false, infer) ==
        [TasksCreated(|tasks|), ShowError(infer(tasks[k].subImage).message), InterpreterClosed]
  {
    FirstFailureAt(Results(input, infer), k);
  }

  /** The pixel (x, y) of the stitched mask of a successful run is WHITE or BLACK. */
  lemma MaskPixelIsBlackOrWhite(input: Grid, infer: Grid -> Inference, x: nat, y: nat)
    requires IsInput(input) && FillsOutput(infer)
    requires FirstFailure(Results(input, infer)).None?
    requires x < PaddedSize(Width(input)) && y < PaddedSize(Height(input))
    ensures Mask(input, infer)[x][y] == WHITE || Mask(input, infer)[x][y] == BLACK
  {
    var results := Results(input, infer);
    var numX, numY := NumTasksX(input), NumTasksY(input);
    PixelTileIndexInRange(x, y, numX, numY);
    TilingIsExact(x, y, numX, numY);
    var k := TileIndex(x / SUB_IMAGE_SIZE, y / SUB_IMAGE_SIZE, numX);
    var tasks := TaskList(Padded(input), numX, numY);
    assert results[k] == tasks[k].Outcome(infer);
  }

  /** The stitched mask of a successful run is black and white. */
  lemma MaskIsBlackAndWhite(input: Grid, infer: Grid -> Inference)
    requires IsInput(input) && FillsOutput(infer)
    requires FirstFailure(Results(input, infer)).None?
    ensures IsBlackAndWhite(Mask(input, infer))
  {
    forall x: nat, y: nat | x < PaddedSize(Width(input)) && y < PaddedSize(Height(input))
      ensures Mask(input, infer)[x][y] == WHITE || Mask(input, infer)[x][y] == BLACK
    {
      MaskPixelIsBlackOrWhite(input, infer, x, y);
    }
  }

  /**
   * What a successful run delivers: an image and a mask of the input's
   * size; the mask is black and white; each pixel of the image is the input's
   * pixel where the mask is WHITE and that pixel's gray elsewhere.
   */
  lemma DeliveredImageIsFilteredInput(input: Grid, parallelTasksNumber: int, infer: Grid -> Inference)
    requires IsInput(input) && FillsOutput(infer)
    requires parallelTasksNumber >= 1
    requires FirstFailure(Results(input, infer)).None?
    ensures var events := Pipeline(input, Loaded, parallelTasksNumber, false, infer);
      |events| == 3 && events[2].ModelExecutionEnd? &&
      HasSize(events[2].image, Width(input), Height(input)) &&
      HasSize(events[2].mask, Width(input), Height(input))
    ensures var events := Pipeline(input, Loaded, parallelTasksNumber, false, infer);
      IsRect(events[2].mask) && IsBlackAndWhite(events[2].mask) &&
      forall x, y :: 0 <= x < Width(input) && 0 <= y < Height(input) ==>
        events[2].image[x][y] == MaskPixel(input[x][y], events[2].mask[x][y])
  {
    var mask := Mask(input, infer);
    var image := RestoreInitialSize(Masked(Padded(input), mask), Width(input), Height(input));
    var restored := RestoreInitialSize(mask, Width(input), Height(input));
    assert Pipeline(input, Loaded, parallelTasksNumber, false, infer)[2] == ModelExecutionEnd(image, restored);
    CroppedMaskedImage(input, mask, PaddedSize(Width(input)), PaddedSize(Height(input)));
    MaskIsBlackAndWhite(input, infer);
    CropKeepsBlackAndWhite(mask, Width(input), Height(input));
  }

  /** An input whose sides are already multiples of SUB_IMAGE_SIZE is processed unpadded. */
  lemma MultipleIsNotPadded(input: Grid)
    requires IsInput(input)
    requires Width(input) % SUB_IMAGE_SIZE == 0 && Height(input) % SUB_IMAGE_SIZE == 0
    ensures Padded(input) == input
  {
    ResizeToOwnSize(input);
  }

  /**
   * A 512 by 512 input is not padded and gives 4 tasks; a 300 by 100 input
   * is padded to 512 by 256 and gives 2 tasks. Either way the run reports
   * the number of tasks it created.
   */
  lemma TaskCountExamples(input: Grid, parallelTasksNumber: int, interrupted: bool, infer: Grid -> Inference)
    requires IsInput(input) && FillsOutput(infer)
    requires HasSize(input, 512, 512) || HasSize(input, 300, 100)
    ensures HasSize(input, 512, 512) ==>
      Padded(input) == input && Pipeline(input, Loaded, parallelTasksNumber, interrupted, infer)[0] == TasksCreated(4)
    ensures HasSize(input, 300, 100) ==>
      HasSize(Padded(input), 512, 256) && Pipeline(input, Loaded, parallelTasksNumber, interrupted, infer)[0] == TasksCreated(2)
  {
    if HasSize(input, 512, 512) {
      MultipleIsNotPadded(input);
      assert NumTasksX(input) * NumTasksY(input) == 4;
    } else {
      PaddingExample();
      assert NumTasksX(input) * NumTasksY(input) == 2;
    }
  }
}
