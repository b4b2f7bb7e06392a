/** The render scheduling and accumulation state of the interactive viewer
    (`SFML_Interface`): the split of the image rows among the render threads, the
    progressive accumulator that averages successive passes, the pass counter that
    motion resets, and the post-processing mode saved while the camera moves.
    Colors are triples of `real`s; rounding is not modelled. */
module Interface {
  import opened Geometry

  // ---------------------------------------------------------------------------
  // Row partition

  /** A render task: columns `[minX, maxX)`, rows `[minY, maxY)` and the worker id it
      carries. */
  datatype Task = Task(minX: int, maxX: int, minY: int, maxY: int, worker: int)

  /** The worker id the last task carries, a literal in the source. */
  const LastWorker: int := 10

  predicate InRows(t: Task, y: int)
  {
    t.minY <= y < t.maxY
  }

  /** The tasks built for `threads` threads on a `sizeX` by `sizeY` frame: with
      `lines = sizeY / threads`, task `i < threads - 1` takes rows
      `[i * lines, i * lines + lines)` and worker id `i`, and the last task takes the
      remaining rows from `(threads - 1) * lines` on. */
  function Partition(sizeX: nat, sizeY: nat, threads: nat): seq<Task>
    requires threads >= 1
  {
    var lines := sizeY / threads;
    seq(threads - 1, i => Task(0, sizeX, i * lines, i * lines + lines, i))
    + [Task(0, sizeX, (threads - 1) * lines, sizeY, LastWorker)]
  }

  /** Lines 51-66: the task loop of the constructor. */
  method PartitionRows(sizeX: nat, sizeY: nat, threads: nat) returns (tasks: seq<Task>)
    requires threads >= 1
    ensures tasks == Partition(sizeX, sizeY, threads)
  {
    var lines := sizeY / threads;
    tasks := [];
    var i := 0;
    while i < threads - 1
      invariant 0 <= i <= threads - 1
      invariant tasks == seq(i, k => Task(0, sizeX, k * lines, k * lines + lines, k))
    {
      var minY := i * lines;
      tasks := tasks + [Task(0, sizeX, minY, minY + lines, i)];
      i := i + 1;
    }
    tasks := tasks + [Task(0, sizeX, (threads - 1) * lines, sizeY, LastWorker)];
  }

  lemma MulLe(a: nat, b: nat, c: nat)
    requires a <= b
    ensures a * c <= b * c
  {
  }

  /** Every task spans the whole width, there is one task per thread, and the last one
      holds `lines + sizeY % threads` rows. */
  lemma PartitionShape(sizeX: nat, sizeY: nat, threads: nat)
    requires threads >= 1
    ensures var r := Partition(sizeX, sizeY, threads);
            |r| == threads
            && (forall i :: 0 <= i < |r| ==> r[i].minX == 0 && r[i].maxX == sizeX)
            && r[threads - 1].maxY - r[threads - 1].minY == sizeY / threads + sizeY % threads
  {
    var lines := sizeY / threads;
    assert sizeY == threads * lines + sizeY % threads;
    assert (threads - 1) * lines == threads * lines - lines;
  }

  /** The row ranges are pairwise disjoint. */
  lemma PartitionDisjoint(sizeX: nat, sizeY: nat, threads: nat, i: nat, j: nat, y: int)
    requires threads >= 1 && i < j < threads
    ensures var r := Partition(sizeX, sizeY, threads);
            !(InRows(r[i], y) && InRows(r[j], y))
  {
    var r := Partition(sizeX, sizeY, threads);
    var lines := sizeY / threads;
    MulLe(i + 1, j, lines);
    assert r[i].maxY == (i + 1) * lines;
    assert r[j].minY == j * lines;
  }

  lemma RowHasTask(sizeX: nat, sizeY: nat, threads: nat, y: int)
    requires threads >= 1 && 0 <= y < sizeY
    ensures var r := Partition(sizeX, sizeY, threads);
            exists i :: 0 <= i < |r| && InRows(r[i], y)
  {
    var r := Partition(sizeX, sizeY, threads);
    var lines := sizeY / threads;
    if y < (threads - 1) * lines {
      var i := RowBand(y, lines, threads - 1);
      assert r[i] == Task(0, sizeX, i * lines, i * lines + lines, i);
      assert InRows(r[i], y);
    } else {
      MulLe(threads - 1, threads, lines);
      assert InRows(r[threads - 1], y);
    }
  }

  /** The band of height `lines` that holds row `y`, below `bands` bands. */
  lemma RowBand(y: nat, lines: nat, bands: nat) returns (i: nat)
    requires y < bands * lines
    ensures i < bands && i * lines <= y < i * lines + lines
  {
    i := y / lines;
    if i >= bands {
      MulLe(bands, i, lines);
    }
  }

  lemma TaskRowsInFrame(sizeX: nat, sizeY: nat, threads: nat, i: nat, y: int)
    requires threads >= 1 && i < threads
    requires InRows(Partition(sizeX, sizeY, threads)[i], y)
    ensures 0 <= y < sizeY
  {
    var r := Partition(sizeX, sizeY, threads);
    var lines := sizeY / threads;
    assert threads * lines <= sizeY;
    if i < threads - 1 {
      assert r[i] == Task(0, sizeX, i * lines, i * lines + lines, i);
      MulLe(i + 1, threads, lines);
    } else {
      assert r[i] == Task(0, sizeX, (threads - 1) * lines, sizeY, LastWorker);
    }
  }

  /** Every row of the frame belongs to a task, and every task's rows lie in the
      frame. */
  lemma PartitionCovers(sizeX: nat, sizeY: nat, threads: nat, y: int)
    requires threads >= 1
    ensures var r := Partition(sizeX, sizeY, threads);
            (0 <= y < sizeY) <==> (exists i :: 0 <= i < |r| && InRows(r[i], y))
  {
    var r := Partition(sizeX, sizeY, threads);
    if 0 <= y < sizeY {
      RowHasTask(sizeX, sizeY, threads, y);
    }
    forall i | 0 <= i < |r| && InRows(r[i], y) ensures 0 <= y < sizeY {
      TaskRowsInFrame(sizeX, sizeY, threads, i, y);
    }
  }

  /** The worker ids are pairwise distinct exactly when there are at most eleven
      threads: with twelve or more, task 10 and the last task both carry id 10. */
  lemma WorkerIdsDistinct(sizeX: nat, sizeY: nat, threads: nat)
    requires threads >= 1
    ensures var r := Partition(sizeX, sizeY, threads);
            (forall i, j :: 0 <= i < j < |r| ==> r[i].worker != r[j].worker) <==> threads <= 11
  {
    var r := Partition(sizeX, sizeY, threads);
    if threads > 11 {
      assert r[10].worker == r[threads - 1].worker;
    }
  }

  // ---------------------------------------------------------------------------
  // Colors and the running mean

  datatype Color = Color(r: real, g: real, b: real)

  function Add(a: Color, b: Color): Color
  {
    Color(a.r + b.r, a.g + b.g, a.b + b.b)
  }

  function Scale(a: Color, k: real): Color
  {
    Color(a.r * k, a.g * k, a.b * k)
  }

  /** Line 105 for one pixel: the previous image weighted `(n - 1) / n` plus the new
      image weighted `1 / n`. */
  function Mix(prev: Color, cur: Color, n: nat): Color
    requires n >= 1
  {
    Add(Scale(prev, (n as real - 1.0) / n as real), Scale(cur, 1.0 / n as real))
  }

  /** Lines 104-106: `Mix` applied pixel by pixel. */
  function Blend(prev: seq<Color>, cur: seq<Color>, n: nat): (r: seq<Color>)
    requires |prev| == |cur| && n >= 1
    ensures |r| == |prev|
  {
    seq(|prev|, i requires 0 <= i < |prev| => Mix(prev[i], cur[i], n))
  }

  /** Blending an image with itself leaves it as it is: a constant input stays
      constant. */
  lemma MixConstant(c: Color, n: nat)
    requires n >= 1
    ensures Mix(c, c, n) == c
  {
    var k := n as real;
    assert (k - 1.0) / k + 1.0 / k == 1.0;
    assert c.r * ((k - 1.0) / k) + c.r * (1.0 / k) == c.r * ((k - 1.0) / k + 1.0 / k);
    assert c.g * ((k - 1.0) / k) + c.g * (1.0 / k) == c.g * ((k - 1.0) / k + 1.0 / k);
    assert c.b * ((k - 1.0) / k) + c.b * (1.0 / k) == c.b * ((k - 1.0) / k + 1.0 / k);
  }

  lemma BlendConstant(s: seq<Color>, n: nat)
    requires n >= 1
    ensures Blend(s, s, n) == s
  {
    forall i | 0 <= i < |s| ensures Blend(s, s, n)[i] == s[i] {
      MixConstant(s[i], n);
    }
  }

  function Sum(xs: seq<Color>): Color
  {
    if xs == [] then Color(0.0, 0.0, 0.0) else Add(Sum(xs[..|xs| - 1]), xs[|xs| - 1])
  }

  /** The arithmetic mean of the passes `xs`. */
  function Mean(xs: seq<Color>): Color
    requires |xs| >= 1
  {
    Scale(Sum(xs), 1.0 / |xs| as real)
  }

  /** The color one pixel holds after the passes `xs` since a reset, when every
      post-processing step is the identity: the first pass is copied (line 101) and
      pass `k` (counting from 1) is mixed in with `n = k` (lines 103-105). */
  function Running(xs: seq<Color>): Color
    requires |xs| >= 1
  {
    if |xs| == 1 then xs[0] else Mix(Running(xs[..|xs| - 1]), xs[|xs| - 1], |xs|)
  }

  /** One mixing step turns the mean of `k - 1` values into the mean of `k`. */
  lemma MixStep(s: real, x: real, k: real)
    requires k >= 2.0
    ensures (s * (1.0 / (k - 1.0))) * ((k - 1.0) / k) + x * (1.0 / k) == (s + x) * (1.0 / k)
  {
    assert (s * (1.0 / (k - 1.0))) * ((k - 1.0) / k) == s * ((1.0 / (k - 1.0)) * ((k - 1.0) / k));
    assert (1.0 / (k - 1.0)) * ((k - 1.0) / k) == 1.0 / k;
  }

  lemma MixOfMean(s: Color, x: Color, n: nat)
    requires n >= 2
    ensures Mix(Scale(s, 1.0 / (n - 1) as real), x, n) == Scale(Add(s, x), 1.0 / n as real)
  {
    var k := n as real;
    assert (n - 1) as real == k - 1.0;
    MixStep(s.r, x.r, k);
    MixStep(s.g, x.g, k);
    MixStep(s.b, x.b, k);
  }

  /** The running mean is the mean: after `k` passes from a reset the stored color is
      the average of the `k` passes. */
  lemma {:induction false} RunningIsMean(xs: seq<Color>)
    requires |xs| >= 1
    ensures Running(xs) == Mean(xs)
  {
    if |xs| == 1 {
      assert xs[..0] == [];
      var x := xs[0];
      assert Sum(xs) == Add(Color(0.0, 0.0, 0.0), x);
      assert Mean(xs) == Scale(Add(Color(0.0, 0.0, 0.0), x), 1.0);
    } else {
      var init := xs[..|xs| - 1];
      RunningIsMean(init);
      assert |init| == |xs| - 1;
      MixOfMean(Sum(init), xs[|xs| - 1], |xs|);
    }
  }

  /** Images of one size. */
  predicate SameSize(passes: seq<seq<Color>>)
  {
    |passes| >= 1 && forall k :: 0 <= k < |passes| ==> |passes[k]| == |passes[0]|
  }

  /** The color buffer after the passes `passes` since a reset, when every
      post-processing step is the identity: the first pass is copied and pass `k`
      (counting from 1) is blended in with `n = k`. */
  function Accumulated(passes: seq<seq<Color>>): (r: seq<Color>)
    requires SameSize(passes)
    ensures |r| == |passes[0]|
  {
    if |passes| == 1 then passes[0]
    else Blend(Accumulated(passes[..|passes| - 1]), passes[|passes| - 1], |passes|)
  }

  /** Pixel `i` of every pass, in pass order. */
  function Column(passes: seq<seq<Color>>, i: nat): (r: seq<Color>)
    requires SameSize(passes) && i < |passes[0]|
    ensures |r| == |passes|
  {
    seq(|passes|, k requires 0 <= k < |passes| => passes[k][i])
  }

  lemma {:induction false} AccumulatedIsRunning(passes: seq<seq<Color>>, i: nat)
    requires SameSize(passes) && i < |passes[0]|
    ensures Accumulated(passes)[i] == Running(Column(passes, i))
  {
    if |passes| > 1 {
      var init := passes[..|passes| - 1];
      AccumulatedIsRunning(init, i);
      assert Column(init, i) == Column(passes, i)[..|passes| - 1];
    }
  }

  /** Progressive accumulation is averaging: with identity post-processing, every
      pixel of the accumulated image is the mean of that pixel over all passes since
      the last reset. */
  lemma AccumulatedIsMean(passes: seq<seq<Color>>, i: nat)
    requires SameSize(passes) && i < |passes[0]|
    ensures Accumulated(passes)[i] == Mean(Column(passes, i))
  {
    AccumulatedIsRunning(passes, i);
    RunningIsMean(Column(passes, i));
  }

  /** Lines 102-106: each pixel of `dst` becomes the mix of `prev` and `cur` with
      weights `(n - 1) / n` and `1 / n`. */
  method BlendInto(dst: array<Color>, prev: array<Color>, cur: array<Color>, n: nat)
    requires n >= 1 && dst != prev && dst != cur
    requires prev.Length == dst.Length && cur.Length == dst.Length
    modifies dst
    ensures dst[..] == Blend(old(prev[..]), cur[..], n)
  {
    var i := 0;
    while i < dst.Length
      invariant 0 <= i <= dst.Length
      invariant forall k :: 0 <= k < i ==> dst[k] == Mix(prev[k], cur[k], n)
    {
      dst[i] := Mix(prev[i], cur[i], n);
      i := i + 1;
    }
    assert dst[..] == Blend(prev[..], cur[..], n);
  }

  // ---------------------------------------------------------------------------
  // Frames

  /** `FramePostproc`: a post-processing mode.  Only `depth` is named by the code
      modelled here; the other modes are told apart by a number. */
  datatype Postproc = Depth | Mode(code: nat)

  /** The three buffers a render pass fills in a frame. */
  datatype Buffers = Buffers(color: seq<Color>, normal: seq<Vec3>, depth: seq<real>)

  predicate Fits(b: Buffers, pixelCnt: nat)
  {
    |b.color| == pixelCnt && |b.normal| == pixelCnt && |b.depth| == pixelCnt
  }

  /** A post-processing filter (`Frame::postproc`, whose code is not part of this
      model) computes the final image from a frame's buffers in a mode and with a
      radius; all that is assumed of it is that the image has one pixel per color. */
  ghost predicate SizePreserving(post: (Postproc, int, Buffers) -> seq<Color>)
  {
    forall m, radius, b :: |post(m, radius, b)| == |b.color|
  }

  /** `Frame<Color, Vec3d, double>`: the color, normal and depth buffers, the final
      (post-processed) image and the mode last set for post-processing. */
  class Frame {
    const pixelCnt: nat
    const color: array<Color>
    const normal: array<Vec3>
    const depth: array<real>
    const finalImage: array<Color>
    var postprocId: Postproc

    ghost predicate Valid()
      reads this
    {
      color.Length == pixelCnt && normal.Length == pixelCnt && depth.Length == pixelCnt
      && finalImage.Length == pixelCnt && color != finalImage
    }

    function Contents(): Buffers
      reads this, color, normal, depth
    {
      Buffers(color[..], normal[..], depth[..])
    }

    /** A frame of `pixelCnt` pixels; the buffers start zeroed. */
    constructor(pixelCnt: nat, mode: Postproc)
      ensures Valid() && this.pixelCnt == pixelCnt && postprocId == mode
      ensures fresh(color) && fresh(normal) && fresh(depth) && fresh(finalImage)
    {
      this.pixelCnt := pixelCnt;
      color := new Color[pixelCnt](_ => Color(0.0, 0.0, 0.0));
      normal := new Vec3[pixelCnt](_ => Vec3(0.0, 0.0, 0.0));
      depth := new real[pixelCnt](_ => 0.0);
      finalImage := new Color[pixelCnt](_ => Color(0.0, 0.0, 0.0));
      postprocId := mode;
    }

    /** The render threads' pass into this frame (after `clear`): the buffers now hold
        the pass. */
    method Store(pass: Buffers)
      requires Valid() && Fits(pass, pixelCnt)
      modifies color, normal, depth
      ensures Valid() && Contents() == pass
    {
      forall i | 0 <= i < pixelCnt {
        color[i] := pass.color[i];
      }
      forall i | 0 <= i < pixelCnt {
        normal[i] := pass.normal[i];
      }
      forall i | 0 <= i < pixelCnt {
        depth[i] := pass.depth[i];
      }
      assert color[..] == pass.color && normal[..] == pass.normal && depth[..] == pass.depth;
    }

    /** `set_post_processing(mode)`. */
    method SetPostProcessing(mode: Postproc)
      modifies this
      ensures Valid() == old(Valid())
      ensures postprocId == mode
    {
      postprocId := mode;
    }

    /** `postproc(radius)`: the final image is the filter's image of the buffers in the
        current mode; the buffers stay as they were. */
    method PostProcess(post: (Postproc, int, Buffers) -> seq<Color>, radius: int)
      requires Valid() && SizePreserving(post)
      modifies finalImage
      ensures Valid() && finalImage[..] == post(postprocId, radius, Contents())
    {
      var img := post(postprocId, radius, Contents());
      forall i | 0 <= i < pixelCnt {
        finalImage[i] := img[i];
      }
      assert finalImage[..] == img;
    }
  }

  // ---------------------------------------------------------------------------
  // Movement

  /** The keys the movement handler polls, and any other key. */
  datatype Key = W | S | A | D | Space | C | Left | Right | Up | Down | Q | E | Other(code: nat)

  /** The twelve keys that move or turn the camera (lines 188-246). */
  const MovementKeys: set<Key> := {W, S, A, D, Space, C, Left, Right, Up, Down, Q, E}

  /** The motion state: `is_moving`, `accumulator_frame_postproc` and the static
      `preserved_frame_postproc`. */
  datatype Motion = Motion(isMoving: bool, accumulator: Postproc, preserved: Postproc)

  /** Lines 248-261: on starting to move the frame's mode is saved and the accumulator
      switches to `depth`; on stopping the saved mode comes back; otherwise the modes
      stay.  Afterwards the state is moving exactly when the camera moved. */
  function MotionStep(m: Motion, moved: bool, frameMode: Postproc): (r: Motion)
    ensures r.isMoving == moved
    ensures moved && !m.isMoving ==> r.preserved == frameMode && r.accumulator == Depth
    ensures !moved && m.isMoving ==> r.accumulator == m.preserved && r.preserved == m.preserved
    ensures moved == m.isMoving ==> r.accumulator == m.accumulator && r.preserved == m.preserved
  {
    if moved then
      if !m.isMoving then Motion(true, Depth, frameMode) else m
    else
      if m.isMoving then Motion(false, m.preserved, m.preserved) else m
  }

  /** Further moving steps, seeing the frame modes `modes`. */
  function KeepMoving(m: Motion, modes: seq<Postproc>): Motion
    decreases |modes|
  {
    if modes == [] then m else KeepMoving(MotionStep(m, true, modes[0]), modes[1..])
  }

  /** A stretch of motion restores the mode it interrupted: start moving while the
      frame shows `frameMode`, move for any number of further steps, stop, and the
      accumulator is back to `frameMode` (the accumulator's own mode, once a pass has
      set it on the frame); during the motion it stays `depth`. */
  lemma {:induction false} MotionRestores(m: Motion, frameMode: Postproc, modes: seq<Postproc>,
                                          stopMode: Postproc)
    requires !m.isMoving
    ensures var moving := KeepMoving(MotionStep(m, true, frameMode), modes);
            moving.isMoving && moving.accumulator == Depth && moving.preserved == frameMode
            && MotionStep(moving, false, stopMode) == Motion(false, frameMode, frameMode)
  {
    KeepMovingHolds(MotionStep(m, true, frameMode), modes);
  }

  /** Restoring relies on the frame showing the accumulator's mode when motion
      starts.  When motion stops and starts again before a pass has set the restored
      mode on the frame, the frame still shows `depth`, that is what gets saved, and
      the accumulator stays in `depth` after the second stop. */
  lemma MotionRestartBeforePass(mode: Postproc)
    ensures var stopped := MotionStep(Motion(true, Depth, mode), false, Depth);
            var again := MotionStep(stopped, true, Depth);
            stopped.accumulator == mode && again.preserved == Depth
            && MotionStep(again, false, Depth).accumulator == Depth
  {
  }

  lemma {:induction false} KeepMovingHolds(m: Motion, modes: seq<Postproc>)
    requires m.isMoving
    ensures KeepMoving(m, modes) == m
  {
    if modes != [] {
      KeepMovingHolds(MotionStep(m, true, modes[0]), modes[1..]);
    }
  }

  // ---------------------------------------------------------------------------
  // The interface

  /** `SFML_Interface`, reduced to the state the render loop and the movement handler
      share. */
  class Viewer {
    const pixelCnt: nat
    const frame: Frame
    const newFrame: Frame
    const tasks: seq<Task>
    const pixelSamplingPerRender: nat
    const renderedPostproc: Postproc
    const renderedRadius: int
    const accumulatorRadius: int
    var pixelSampling: nat
    var consecutiveFramesCnt: nat
    var accumulatorPostproc: Postproc
    var preservedPostproc: Postproc
    var isMoving: bool
    var renderDone: bool

    ghost predicate Valid()
      reads this, frame, newFrame
    {
      frame != newFrame && frame.Valid() && newFrame.Valid()
      && frame.pixelCnt == pixelCnt && newFrame.pixelCnt == pixelCnt
      && frame.color != newFrame.color && frame.color != newFrame.finalImage
      && frame.finalImage != newFrame.color && frame.finalImage != newFrame.finalImage
      && frame.normal != newFrame.normal && frame.depth != newFrame.depth
    }

    function MotionState(): Motion
      reads this
    {
      Motion(isMoving, accumulatorPostproc, preservedPostproc)
    }

    /** Lines 4-66: two frames of `sizeX * sizeY` pixels, the counter at zero and the
        row tasks for `threads` threads.  The remaining settings come from the
        configuration and the header, which are not part of this model: the flags
        start cleared, and `preservedMode` is the value the movement handler's
        zero-initialised static mode starts with. */
    constructor(sizeX: nat, sizeY: nat, threads: nat, samplingPerRender: nat, sampling: nat,
                renderedMode: Postproc, renderedRadius: int,
                accumulatorMode: Postproc, accumulatorRadius: int, frameMode: Postproc,
                preservedMode: Postproc)
      requires threads >= 1
      ensures Valid() && pixelCnt == sizeX * sizeY
      ensures tasks == Partition(sizeX, sizeY, threads)
      ensures consecutiveFramesCnt == 0 && !isMoving && !renderDone
      ensures pixelSampling == sampling && pixelSamplingPerRender == samplingPerRender
      ensures accumulatorPostproc == accumulatorMode && preservedPostproc == preservedMode
      ensures fresh(frame) && fresh(frame.color) && fresh(frame.normal) && fresh(frame.depth)
              && fresh(frame.finalImage)
      ensures fresh(newFrame) && fresh(newFrame.color) && fresh(newFrame.normal)
              && fresh(newFrame.depth) && fresh(newFrame.finalImage)
    {
      var rows := PartitionRows(sizeX, sizeY, threads);
      pixelCnt := sizeX * sizeY;
      frame := new Frame(sizeX * sizeY, frameMode);
      newFrame := new Frame(sizeX * sizeY, frameMode);
      tasks := rows;
      pixelSamplingPerRender := samplingPerRender;
      this.renderedPostproc := renderedMode;
      this.renderedRadius := renderedRadius;
      this.accumulatorRadius := accumulatorRadius;
      pixelSampling := sampling;
      consecutiveFramesCnt := 0;
      accumulatorPostproc := accumulatorMode;
      preservedPostproc := preservedMode;
      isMoving := false;
      renderDone := false;
    }

    /** Lines 96-114: normals and depths are copied from the new frame; the color is
        copied on the first pass after a reset and otherwise blended pixel by pixel
        from the previous final image and the new frame's final image with
        `n = count + 1`; then the frame is post-processed in the accumulator's mode and
        the counter goes up by one.  The new frame is left alone. */
    method Accumulate(post: (Postproc, int, Buffers) -> seq<Color>)
      requires Valid() && SizePreserving(post)
      modifies this`consecutiveFramesCnt, frame, frame.color, frame.normal, frame.depth, frame.finalImage
      ensures Valid()
      ensures frame.normal[..] == newFrame.normal[..] && frame.depth[..] == newFrame.depth[..]
      ensures old(consecutiveFramesCnt) == 0 ==> frame.color[..] == newFrame.color[..]
      ensures old(consecutiveFramesCnt) > 0 ==>
                frame.color[..] == Blend(old(frame.finalImage[..]), newFrame.finalImage[..],
                                         old(consecutiveFramesCnt) + 1)
      ensures frame.postprocId == accumulatorPostproc
      ensures frame.finalImage[..] == post(accumulatorPostproc, accumulatorRadius, frame.Contents())
      ensures consecutiveFramesCnt == old(consecutiveFramesCnt) + 1
    {
      forall i | 0 <= i < pixelCnt {
        frame.normal[i] := newFrame.normal[i];
      }
      forall i | 0 <= i < pixelCnt {
        frame.depth[i] := newFrame.depth[i];
      }
      assert frame.normal[..] == newFrame.normal[..] && frame.depth[..] == newFrame.depth[..];
      if consecutiveFramesCnt == 0 {
        forall i | 0 <= i < pixelCnt {
          frame.color[i] := newFrame.color[i];
        }
        assert frame.color[..] == newFrame.color[..];
      } else {
        BlendInto(frame.color, frame.finalImage, newFrame.finalImage, consecutiveFramesCnt + 1);
      }
      frame.SetPostProcessing(accumulatorPostproc);
      frame.PostProcess(post, accumulatorRadius);
      consecutiveFramesCnt := consecutiveFramesCnt + 1;
    }

    /** Lines 81-85: the sampling setting drops to one, then a pass into the new frame. */
    method RenderDepthBuffer(pass: Buffers)
      requires Valid() && Fits(pass, pixelCnt)
      modifies this`pixelSampling, newFrame.color, newFrame.normal, newFrame.depth
      ensures Valid() && pixelSampling == 1
      ensures newFrame.Contents() == pass
    {
      pixelSampling := 1;
      newFrame.Store(pass);
    }

    /** Lines 87-94: `pixel_sampling_per_render` samples per pixel, a pass into the new
        frame, and its post-processing in the rendered frame's mode. */
    method RenderFramePortion(pass: Buffers, post: (Postproc, int, Buffers) -> seq<Color>)
      requires Valid() && Fits(pass, pixelCnt) && SizePreserving(post)
      modifies this`pixelSampling, newFrame, newFrame.color, newFrame.normal, newFrame.depth,
               newFrame.finalImage
      ensures Valid() && pixelSampling == pixelSamplingPerRender
      ensures newFrame.Contents() == pass && newFrame.postprocId == renderedPostproc
      ensures newFrame.finalImage[..] == post(renderedPostproc, renderedRadius, pass)
    {
      pixelSampling := pixelSamplingPerRender;
      newFrame.Store(pass);
      newFrame.SetPostProcessing(renderedPostproc);
      newFrame.PostProcess(post, renderedRadius);
    }

    /** Lines 135-144, one iteration of `run`: while moving, the counter is reset, the
        sampling setting drops to one and the pass overwrites the accumulated color;
        otherwise the pass is post-processed and blended in. */
    method RunIteration(pass: Buffers, post: (Postproc, int, Buffers) -> seq<Color>)
      requires Valid() && Fits(pass, pixelCnt) && SizePreserving(post)
      modifies this`consecutiveFramesCnt, this`pixelSampling, this`renderDone,
               frame, frame.color, frame.normal, frame.depth, frame.finalImage,
               newFrame, newFrame.color, newFrame.normal, newFrame.depth, newFrame.finalImage
      ensures Valid()
      ensures frame.normal[..] == pass.normal && frame.depth[..] == pass.depth
      ensures old(isMoving) ==>
                pixelSampling == 1 && consecutiveFramesCnt == 1 && frame.color[..] == pass.color
      ensures !old(isMoving) ==>
                pixelSampling == pixelSamplingPerRender
                && consecutiveFramesCnt == old(consecutiveFramesCnt) + 1
                && newFrame.finalImage[..] == post(renderedPostproc, renderedRadius, pass)
      ensures !old(isMoving) && old(consecutiveFramesCnt) == 0 ==> frame.color[..] == pass.color
      ensures !old(isMoving) && old(consecutiveFramesCnt) > 0 ==>
                frame.color[..] == Blend(old(frame.finalImage[..]),
                                         post(renderedPostproc, renderedRadius, pass),
                                         old(consecutiveFramesCnt) + 1)
      ensures frame.postprocId == accumulatorPostproc
      ensures frame.finalImage[..] == post(accumulatorPostproc, accumulatorRadius, frame.Contents())
      ensures newFrame.Contents() == pass
      ensures old(isMoving) ==>
                newFrame.finalImage[..] == old(newFrame.finalImage[..])
                && newFrame.postprocId == old(newFrame.postprocId)
      ensures !old(isMoving) ==> newFrame.postprocId == renderedPostproc
      ensures renderDone
    {
      if isMoving {
        consecutiveFramesCnt := 0;
        RenderDepthBuffer(pass);
      } else {
        RenderFramePortion(pass, post);
      }
      Accumulate(post);
      renderDone := true;
    }

    /** Lines 183-261: the camera moved exactly when one of the twelve movement keys is
        pressed, and the motion state takes the step `MotionStep` from it.  The camera
        updates themselves are not modelled. */
    method HandleMovement(pressed: set<Key>)
      requires Valid()
      modifies this`isMoving, this`accumulatorPostproc, this`preservedPostproc
      ensures Valid()
      ensures isMoving <==> pressed * MovementKeys != {}
      ensures MotionState() == MotionStep(old(MotionState()), isMoving, frame.postprocId)
    {
      var moved := false;
      ghost var hit := Other(0);  // a pressed movement key, once one is seen
      if W in pressed { moved, hit := true, W; }
      if S in pressed { moved, hit := true, S; }
      if A in pressed { moved, hit := true, A; }
      if D in pressed { moved, hit := true, D; }
      if Space in pressed { moved, hit := true, Space; }
      if C in pressed { moved, hit := true, C; }
      if Left in pressed { moved, hit := true, Left; }
      if Right in pressed { moved, hit := true, Right; }
      if Up in pressed { moved, hit := true, Up; }
      if Down in pressed { moved, hit := true, Down; }
      if Q in pressed { moved, hit := true, Q; }
      if E in pressed { moved, hit := true, E; }
      if moved {
        assert hit in pressed * MovementKeys;
      } else {
        forall k | k in pressed
          ensures k !in MovementKeys
        {
        }
        assert pressed * MovementKeys == {};
      }
      if moved {
        if !isMoving {
          preservedPostproc := frame.postprocId;
          accumulatorPostproc := Depth;
        }
      } else {
        if isMoving {
          accumulatorPostproc := preservedPostproc;
        }
      }
      isMoving := moved;
    }
  }

  /** A freshly built viewer that runs two iterations of `run` without moving, with
      identity post-processing: the image shown is the mean of the two passes. */
  method FirstTwoPasses(sizeX: nat, sizeY: nat, threads: nat, frameMode: Postproc,
                        p1: Buffers, p2: Buffers, post: (Postproc, int, Buffers) -> seq<Color>)
    returns (v: Viewer)
    requires threads >= 1 && Fits(p1, sizeX * sizeY) && Fits(p2, sizeX * sizeY)
    requires forall m, radius, b :: post(m, radius, b) == b.color
    ensures v.Valid() && v.consecutiveFramesCnt == 2
    ensures v.frame.color[..] == Blend(p1.color, p2.color, 2)
  {
    v := new Viewer(sizeX, sizeY, threads, 1, 1, frameMode, 0, frameMode, 0, frameMode, frameMode);
    v.RunIteration(p1, post);
    v.RunIteration(p2, post);
  }
}
