/**
 * The per-tile work of the model executor: the list of sub-image tasks in
 * row-major order, one task's thresholding of the model's scores into a
 * black-and-white mask tile, and the execution of all tasks.
 */
module Tasks {
  import opened Pixels
  import opened Geometry
  import opened Grids

  /** Number of scores the model writes for one tile (a 1 x SIZE x SIZE tensor). */
  const TILE_PIXELS: nat := SUB_IMAGE_SIZE * SUB_IMAGE_SIZE

  /** A score above this value marks a pixel as part of the figure. */
  const THRESHOLD: real := 0.5

  /**
   * What one call of the interpreter on a tile gives: the scores of its
   * output tensor in buffer order, or the message of the exception it raised.
   */
  datatype Inference = Scores(values: seq<real>) | Raised(message: string)

  /**
   * The interpreter returns normally only after filling the whole output
   * buffer, which run() allocates with exactly TILE_PIXELS floats.
   */
  ghost predicate FillsOutput(infer: Grid -> Inference) {
    forall g :: infer(g).Scores? ==> |infer(g).values| == TILE_PIXELS
  }

  /** The value a Future<Bitmap> yields: the task's mask tile, or its failure. */
  datatype Future = Done(tile: Grid) | Failed(message: string)

  /** The mask colour of one score. */
  function Threshold(score: real): (p: Pixel)
    ensures p == WHITE <==> score > THRESHOLD
    ensures p == BLACK <==> score <= THRESHOLD
  {
    if score > THRESHOLD then WHITE else BLACK
  }

  /**
   * The SIZE by SIZE bitmap that Bitmap.setPixels(pixels, 0, SIZE, 0, 0,
   * SIZE, SIZE) fills: consecutive runs of SIZE entries are consecutive rows.
   */
  function TileFromPixels(pixels: seq<Pixel>): (tile: Grid)
    requires |pixels| == TILE_PIXELS
    ensures HasSize(tile, SUB_IMAGE_SIZE, SUB_IMAGE_SIZE)
  {
    seq(SUB_IMAGE_SIZE, x requires 0 <= x < SUB_IMAGE_SIZE =>
      seq(SUB_IMAGE_SIZE, y requires 0 <= y < SUB_IMAGE_SIZE => pixels[x + y * SUB_IMAGE_SIZE]))
  }

  /**
   * The mask tile for a tile's scores: pixel (x, y) is read from buffer
   * position x + y*SIZE; it is WHITE exactly when that score is above the
   * threshold and BLACK exactly when it is not, so no other colour occurs.
   */
  function Thresholded(scores: seq<real>): (tile: Grid)
    requires |scores| == TILE_PIXELS
    ensures HasSize(tile, SUB_IMAGE_SIZE, SUB_IMAGE_SIZE)
    ensures forall x, y :: 0 <= x < SUB_IMAGE_SIZE && 0 <= y < SUB_IMAGE_SIZE ==>
      (tile[x][y] == WHITE <==> scores[x + y * SUB_IMAGE_SIZE] > THRESHOLD) &&
      (tile[x][y] == BLACK <==> scores[x + y * SUB_IMAGE_SIZE] <= THRESHOLD)
  {
    seq(SUB_IMAGE_SIZE, x requires 0 <= x < SUB_IMAGE_SIZE =>
      seq(SUB_IMAGE_SIZE, y requires 0 <= y < SUB_IMAGE_SIZE => Threshold(scores[x + y * SUB_IMAGE_SIZE])))
  }

  /** A thresholded tile is opaque: WHITE and BLACK both have alpha 0xff. */
  lemma ThresholdedIsOpaque(scores: seq<real>)
    requires |scores| == TILE_PIXELS
    ensures IsOpaque(Thresholded(scores))
  {
    var tile := Thresholded(scores);
    assert Alpha(WHITE) == 0xff && Alpha(BLACK) == 0xff;
    forall x, y | 0 <= x < |tile| && 0 <= y < |tile[x]|
      ensures Alpha(tile[x][y]) == 0xff
    {
      assert tile[x][y] == WHITE || tile[x][y] == BLACK;
    }
  }

  /**
   * Reads the output buffer score by score into a pixel array and turns it
   * into the mask tile.
   */
  method ConvertByteBufferToBitmap(scores: seq<real>) returns (tile: Grid)
    requires |scores| == TILE_PIXELS
    ensures tile == Thresholded(scores)
  {
    var pixels := new Pixel[TILE_PIXELS];
    for i := 0 to TILE_PIXELS
      invariant forall k :: 0 <= k < i ==> pixels[k] == Threshold(scores[k])
    {
      if scores[i] > THRESHOLD {
        pixels[i] := WHITE;
      } else {
        pixels[i] := BLACK;
      }
    }
    tile := TileFromPixels(pixels[..]);
    var expected := Thresholded(scores);
    forall x | 0 <= x < SUB_IMAGE_SIZE
      ensures tile[x] == expected[x]
    {
      forall y | 0 <= y < SUB_IMAGE_SIZE
        ensures tile[x][y] == expected[x][y]
      {
        assert tile[x][y] == pixels[x + y * SUB_IMAGE_SIZE];
      }
    }
  }

  /** The task that predicts the mask of one sub-image. */
  datatype SubImageTask = SubImageTask(subImage: Grid) {

    /** What the task's future yields when it has run with the given model. */
    function Outcome(infer: Grid -> Inference): (f: Future)
      requires FillsOutput(infer)
      ensures f.Failed? <==> infer(subImage).Raised?
      ensures f.Failed? ==> f.message == infer(subImage).message
      ensures f.Done? ==> f.tile == Thresholded(infer(subImage).values)
    {
      match infer(subImage)
      case Raised(message) => Failed(message)
      case Scores(values) => Done(Thresholded(values))
    }

    /** Runs the model on the sub-image and thresholds its output. */
    method Call(infer: Grid -> Inference) returns (f: Future)
      requires FillsOutput(infer)
      ensures f == Outcome(infer)
    {
      var output := infer(subImage);
      match output
      case Raised(message) =>
        f := Failed(message);
      case Scores(values) =>
        var mask := ConvertByteBufferToBitmap(values);
        f := Done(mask);
    }
  }

  /**
   * The task list of a padded image: the task at index k works on the tile
   * in column k % numX and row k / numX.
   */
  function TaskList(image: Grid, numX: nat, numY: nat): (tasks: seq<SubImageTask>)
    requires IsRect(image)
    requires numX * SUB_IMAGE_SIZE <= Width(image) && numY * SUB_IMAGE_SIZE <= Height(image)
    ensures |tasks| == numX * numY
  {
    seq(numX * numY, k requires 0 <= k < numX * numY =>
      TileOfIndex(k, numX, numY);
      SubImageTask(Region(image, (k % numX) * SUB_IMAGE_SIZE, (k / numX) * SUB_IMAGE_SIZE,
                          SUB_IMAGE_SIZE, SUB_IMAGE_SIZE)))
  }

  /**
   * Entry i + j*numX of the task list is the SIZE by SIZE sub-image whose
   * origin is (i*SIZE, j*SIZE), and that sub-image lies inside the image.
   */
  lemma TaskListRowMajor(image: Grid, numX: nat, numY: nat, i: nat, j: nat)
    requires IsRect(image)
    requires numX * SUB_IMAGE_SIZE <= Width(image) && numY * SUB_IMAGE_SIZE <= Height(image)
    requires i < numX && j < numY
    ensures i * SUB_IMAGE_SIZE + SUB_IMAGE_SIZE <= Width(image)
    ensures j * SUB_IMAGE_SIZE + SUB_IMAGE_SIZE <= Height(image)
    ensures TileIndex(i, j, numX) < |TaskList(image, numX, numY)|
    ensures TaskList(image, numX, numY)[TileIndex(i, j, numX)] ==
      SubImageTask(Region(image, i * SUB_IMAGE_SIZE, j * SUB_IMAGE_SIZE, SUB_IMAGE_SIZE, SUB_IMAGE_SIZE))
  {
    TileIndexBijective(i, j, numX, numY);
  }

  /** Builds the task list row by row, left to right within a row. */
  method GetTaskList(image: Grid, numX: nat, numY: nat) returns (tasks: seq<SubImageTask>)
    requires IsRect(image)
    requires numX * SUB_IMAGE_SIZE <= Width(image) && numY * SUB_IMAGE_SIZE <= Height(image)
    ensures tasks == TaskList(image, numX, numY)
  {
    ghost var all := TaskList(image, numX, numY);
    tasks := [];
    for j := 0 to numY
      invariant |tasks| == j * numX
      invariant tasks == all[..j * numX]
    {
      MulLeft(j + 1, numY, numX);
      for i := 0 to numX
        invariant |tasks| == i + j * numX
        invariant tasks == all[..i + j * numX]
      {
        TaskListRowMajor(image, numX, numY, i, j);
        var subImage := Region(image, i * SUB_IMAGE_SIZE, j * SUB_IMAGE_SIZE, SUB_IMAGE_SIZE, SUB_IMAGE_SIZE);
        assert all[..i + j * numX + 1] == all[..i + j * numX] + [SubImageTask(subImage)];
        tasks := tasks + [SubImageTask(subImage)];
      }
    }
  }

  /**
   * Runs every task and collects the futures in task order. The tasks all
   * call the one shared interpreter; running them one after another yields
   * the futures of the thread pool provided that interpreter gives each
   * concurrent call the result it would give alone.
   */
  method InvokeAll(tasks: seq<SubImageTask>, infer: Grid -> Inference) returns (results: seq<Future>)
    requires FillsOutput(infer)
    ensures |results| == |tasks|
    ensures forall k :: 0 <= k < |tasks| ==> results[k] == tasks[k].Outcome(infer)
  {
    results := [];
    for k := 0 to |tasks|
      invariant |results| == k
      invariant forall n :: 0 <= n < k ==> results[n] == tasks[n].Outcome(infer)
    {
      var f := tasks[k].Call(infer);
      results := results + [f];
    }
  }
}
