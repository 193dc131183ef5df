/**
 * The shared driver of the TensorFlow benchmarks: choosing the device,
 * naming the stats file, the test-mode short cut, slicing the data into
 * batches and the iteration limit of the inference loop.
 */
module TfBase {
  import opened Wrappers
  import opened Exceptions
  import Text

  // ---------------------------------------------------------------------------
  // Device selection
  // ---------------------------------------------------------------------------

  /** The `device_type` argument; argparse admits only these two. */
  datatype DeviceType = Cpu | Gpu

  /**
   * The `-g/--gpu_index` option. It has no `type=`, so a value given on the
   * command line stays a string; only the default is the integer 0, and `-g`
   * without a value gives `None`.
   */
  datatype GpuArg = DefaultIndex | IndexText(text: string) | NoValue

  /** How `__init__` ends: a device string, an abort with a message (`exit(0)`), or an exception. */
  datatype Setup = Device(name: string) | Abort(message: string) | Raise(error: Raised)

  const NoGpuMessage := "No GPU found. Aborting."

  function GpuNotFound(index: string): string {
    "GPU " + index + " not found. Aborting."
  }

  function GpuDevice(index: int): (r: string)
    ensures Text.StartsWith(r, "/device:GPU:")
  {
    "/device:GPU:" + Text.IntToString(index)
  }

  /**
   * `__init__`'s device choice as written: "cpu" needs nothing; "gpu" aborts
   * when no GPU exists, and otherwise evaluates `len(gpus) >= gpu_index + 1`,
   * which raises for a string or `None` index, so only the default index 0
   * reaches the device string. The `list_physical_devices("GPU") == 0`
   * guard compares a list with 0 and never fires.
   */
  function DeviceAsWritten(dt: DeviceType, gpu: GpuArg, gpuCount: nat): (r: Setup)
    ensures dt == Cpu ==> r == Device("/cpu:0")
    ensures dt == Gpu && gpuCount == 0 ==> r == Abort(NoGpuMessage)
    ensures dt == Gpu && gpuCount > 0 ==> (r.Device? <==> gpu == DefaultIndex)
    ensures r.Device? && dt == Gpu ==> r.name == "/device:GPU:0"
  {
    match dt
    case Cpu => Device("/cpu:0")
    case Gpu =>
      if gpuCount == 0 then Abort(NoGpuMessage)
      else
        match gpu
        case DefaultIndex => Device(GpuDevice(0))
        case IndexText(_) => Raise(TypeError("can only concatenate str (not \"int\") to str"))
        case NoValue => Raise(TypeError("unsupported operand type(s) for +: 'NoneType' and 'int'"))
  }

  /** Any index given on the command line to a machine with a GPU raises. */
  lemma GivenIndexRaises(t: string, gpuCount: nat)
    requires gpuCount > 0
    ensures DeviceAsWritten(Gpu, IndexText(t), gpuCount).Raise?
  {
  }

  /**
   * The device choice with the index read as an integer (`type=int`): the
   * count test `len(gpus) >= i + 1` lets every negative index through, and
   * `gpus[i]` then reads from the end, raising `IndexError` below `-len(gpus)`.
   * So GPU `i` is used exactly when `-len(gpus) <= i < len(gpus)`.
   */
  function DeviceFixed(dt: DeviceType, index: int, gpuCount: nat): (r: Setup)
    ensures dt == Cpu ==> r == Device("/cpu:0")
    ensures dt == Gpu ==> (r.Device? <==> gpuCount > 0 && -(gpuCount as int) <= index < gpuCount)
    ensures dt == Gpu && gpuCount == 0 ==> r == Abort(NoGpuMessage)
    ensures dt == Gpu && gpuCount > 0 && index >= gpuCount ==> r == Abort(GpuNotFound(Text.IntToString(index)))
    ensures dt == Gpu && r.Device? ==> Text.StartsWith(r.name, "/device:GPU:")
    ensures r.Raise? <==> dt == Gpu && gpuCount > 0 && index < -(gpuCount as int)
    ensures r.Raise? ==> r.error == IndexError
  {
    match dt
    case Cpu => Device("/cpu:0")
    case Gpu =>
      if gpuCount == 0 then Abort(NoGpuMessage)
      else if gpuCount >= index + 1 then
        if index < -(gpuCount as int) then Raise(IndexError) else Device(GpuDevice(index))
      else Abort(GpuNotFound(Text.IntToString(index)))
  }

  /** One GPU and index `-5`: the count test passes, and reading `gpus[-5]` raises. */
  lemma FarNegativeIndexRaises()
    ensures DeviceFixed(Gpu, -5, 1) == Raise(IndexError)
  {
  }

  /** The default index agrees with the fixed reading of index 0. */
  lemma DefaultIndexAgrees(dt: DeviceType, gpuCount: nat)
    ensures DeviceAsWritten(dt, DefaultIndex, gpuCount) == DeviceFixed(dt, 0, gpuCount)
  {
  }

  /** The device string names its GPU: the digits after the prefix read back as the index. */
  lemma GpuDeviceNamesIndex(index: nat)
    ensures var r := GpuDevice(index);
            var digits := r[|"/device:GPU:"|..];
            (forall i :: 0 <= i < |digits| ==> '0' <= digits[i] <= '9') && Text.DigitsValue(digits) == index
  {
    var r := GpuDevice(index);
    assert r[|"/device:GPU:"|..] == Text.NatToString(index);
    Text.NatToStringRoundTrip(index);
  }

  /** Different GPUs get different device strings. */
  lemma GpuDeviceInjective(a: nat, b: nat)
    ensures GpuDevice(a) == GpuDevice(b) ==> a == b
  {
    if GpuDevice(a) == GpuDevice(b) {
      GpuDeviceNamesIndex(a);
      GpuDeviceNamesIndex(b);
    }
  }

  // ---------------------------------------------------------------------------
  // Stats file name
  // ---------------------------------------------------------------------------

  /** The local time `strftime` reads, a parameter of the model. */
  datatype Moment = Moment(year: nat, month: nat, day: nat, hour: nat, minute: nat, second: nat)

  /** A clock reading with a four-digit year and every field in range. */
  predicate ValidMoment(m: Moment) {
    1000 <= m.year <= 9999 && 1 <= m.month <= 12 && 1 <= m.day <= 31
    && m.hour <= 23 && m.minute <= 59 && m.second <= 61
  }

  /** A two-digit field, zero-padded as `%m`, `%d`, `%H`, `%M` and `%S` print it. */
  function Pad2(n: nat): (r: string)
    requires n < 100
    ensures |r| == 2 && forall i :: 0 <= i < 2 ==> '0' <= r[i] <= '9'
  {
    if n < 10 then "0" + Text.NatToString(n)
    else
      assert |Text.NatToString(n / 10)| == 1;
      Text.NatToString(n)
  }

  lemma Pad2Value(n: nat)
    requires n < 100
    ensures Text.DigitsValue(Pad2(n)) == n
  {
    Text.NatToStringRoundTrip(n);
    if n < 10 {
      var t := Pad2(n);
      assert t[..1] == "0" && t[1] == Text.NatToString(n)[0];
      assert Text.DigitsValue(t[..1]) == 0 by {
        assert t[..1][..0] == [];
      }
      assert Text.NatToString(n)[..0] == [];
    }
  }

  /** `strftime("%Y-%m-%d_%H-%M-%S")` */
  function Stamp(m: Moment): (r: string)
    requires ValidMoment(m)
    ensures |r| == 19
  {
    assert |Text.NatToString(m.year)| == 4 by {
      YearDigits(m.year);
    }
    Text.NatToString(m.year) + "-" + Pad2(m.month) + "-" + Pad2(m.day) + "_"
    + Pad2(m.hour) + "-" + Pad2(m.minute) + "-" + Pad2(m.second)
  }

  lemma YearDigits(y: nat)
    requires 1000 <= y <= 9999
    ensures |Text.NatToString(y)| == 4
  {
    var a := y / 10;
    var b := a / 10;
    assert 1 <= b / 10 < 10;
    assert |Text.NatToString(b / 10)| == 1;
    assert |Text.NatToString(b)| == 2;
    assert |Text.NatToString(a)| == 3;
  }

  /** Reading the fields back out of a stamp gives the moment. */
  lemma StampRoundTrip(m: Moment)
    requires ValidMoment(m)
    ensures var s := Stamp(m);
            (forall i :: 0 <= i < 4 ==> '0' <= s[i] <= '9') && Text.DigitsValue(s[..4]) == m.year
            && Text.DigitsValue(s[5..7]) == m.month && Text.DigitsValue(s[8..10]) == m.day
            && Text.DigitsValue(s[11..13]) == m.hour && Text.DigitsValue(s[14..16]) == m.minute
            && Text.DigitsValue(s[17..19]) == m.second
  {
    var s := Stamp(m);
    YearDigits(m.year);
    Text.NatToStringRoundTrip(m.year);
    Pad2Value(m.month);
    Pad2Value(m.day);
    Pad2Value(m.hour);
    Pad2Value(m.minute);
    Pad2Value(m.second);
    assert s[..4] == Text.NatToString(m.year);
    assert s[5..7] == Pad2(m.month) && s[8..10] == Pad2(m.day);
    assert s[11..13] == Pad2(m.hour) && s[14..16] == Pad2(m.minute) && s[17..19] == Pad2(m.second);
  }

  /** `gen_stats_file_name(prefix)` at moment `m`. */
  function StatsFileName(prefix: string, m: Moment): (r: string)
    requires ValidMoment(m)
    ensures |r| == |prefix| + 30
    ensures Text.StartsWith(r, "stats_") && Text.EndsWith(r, ".txt")
  {
    "stats_" + prefix + "_" + Stamp(m) + ".txt"
  }

  /** The prefix and the stamp sit at fixed places, so the name determines both. */
  lemma StatsFileNameParts(prefix: string, m: Moment)
    requires ValidMoment(m)
    ensures var r := StatsFileName(prefix, m);
            r[6..6 + |prefix|] == prefix && r[6 + |prefix|] == '_' && r[7 + |prefix|..|r| - 4] == Stamp(m)
  {
  }

  /** Two stats files share a name only for the same prefix at the same moment. */
  lemma StatsFileNameInjective(p: string, q: string, m: Moment, n: Moment)
    requires ValidMoment(m) && ValidMoment(n)
    ensures StatsFileName(p, m) == StatsFileName(q, n) ==> p == q && m == n
  {
    if StatsFileName(p, m) == StatsFileName(q, n) {
      StatsFileNameParts(p, m);
      StatsFileNameParts(q, n);
      StampRoundTrip(m);
      StampRoundTrip(n);
    }
  }

  // ---------------------------------------------------------------------------
  // Batches
  // ---------------------------------------------------------------------------

  /** `math.ceil(n / bs)` for a non-zero batch size. */
  function CeilDiv(n: nat, bs: int): (k: int)
    requires bs != 0
    ensures bs > 0 ==> k >= 0 && (k - 1) * bs < n <= k * bs
    ensures bs < 0 ==> k <= 0
  {
    if bs > 0 then (n + bs - 1) / bs else -(n / -bs)
  }

  /** `x[lo:hi]` for non-negative bounds: both clamp to the length. */
  function PySlice<T>(x: seq<T>, lo: nat, hi: nat): (r: seq<T>)
    ensures |r| <= |x|
  {
    var a := if lo < |x| then lo else |x|;
    var b := if hi < a then a else if hi < |x| then hi else |x|;
    x[a..b]
  }

  /**
   * The slices `inference_benchmark` feeds the model, `X[i*bs : i*bs+bs]`
   * for `i` in `range(ceil(len(X) / bs))`. A batch size of 0 raises, and a
   * negative one gives no batches at all.
   */
  function Batches<T>(x: seq<T>, bs: int): (r: Result<seq<seq<T>>, Raised>)
    ensures r.Err? <==> bs == 0
    ensures r.Err? ==> r.error == ZeroDivisionError
    ensures bs < 0 ==> r == Ok([])
  {
    if bs == 0 then Err(ZeroDivisionError)
    else if bs < 0 then Ok([])
    else
      var k := CeilDiv(|x|, bs);
      Ok(seq(k, i requires 0 <= i < k => PySlice(x, i * bs, i * bs + bs)))
  }

  function Flatten<T>(xs: seq<seq<T>>): seq<T> {
    if |xs| == 0 then [] else xs[0] + Flatten(xs[1..])
  }

  /**
   * For a positive batch size the batches partition the data: there are
   * `ceil(n / bs)` of them, none is empty, none is longer than `bs`, all
   * but the last hold exactly `bs` items, and in order they make up `X`.
   */
  lemma BatchesPartition<T>(x: seq<T>, bs: int)
    requires bs > 0
    ensures var b := Batches(x, bs).value;
            |b| == CeilDiv(|x|, bs)
            && (forall i :: 0 <= i < |b| ==> 0 < |b[i]| <= bs)
            && (forall i :: 0 <= i < |b| - 1 ==> |b[i]| == bs)
            && Flatten(b) == x
  {
    var b := Batches(x, bs).value;
    var k := |b|;
    forall i | 0 <= i < k
      ensures 0 < |b[i]| <= bs && (i < k - 1 ==> |b[i]| == bs)
    {
      BatchStart(|x|, bs, i);
    }
    FlattenFrom(x, bs, 0);
    assert b[0..] == b;
  }

  /** Batch `i` starts inside the data, and a batch before the last ends inside it too. */
  lemma BatchStart(n: nat, bs: int, i: nat)
    requires bs > 0 && i < CeilDiv(n, bs)
    ensures i * bs < n
    ensures i < CeilDiv(n, bs) - 1 ==> i * bs + bs < n
  {
    var k := CeilDiv(n, bs);
    MulMono(i, k - 1, bs);
    if i < k - 1 {
      MulMono(i + 1, k - 1, bs);
    }
  }

  lemma MulMono(a: nat, b: nat, c: nat)
    requires a <= b
    ensures a * c <= b * c
  {
  }

  /** The batches from the `j`-th on make up the data from `j * bs` on. */
  lemma {:induction false} FlattenFrom<T>(x: seq<T>, bs: int, j: nat)
    requires bs > 0 && j <= CeilDiv(|x|, bs)
    ensures var b := Batches(x, bs).value;
            j * bs >= |x| ==> Flatten(b[j..]) == []
    ensures var b := Batches(x, bs).value;
            j * bs < |x| ==> Flatten(b[j..]) == x[j * bs..]
    decreases CeilDiv(|x|, bs) - j
  {
    var b := Batches(x, bs).value;
    if j == CeilDiv(|x|, bs) {
      assert b[j..] == [];
    } else {
      var lo, hi := j * bs, (j + 1) * bs;
      BatchAt(x, bs, j);
      FlattenFrom(x, bs, j + 1);
      FlattenCons(b, j);
      SliceThenRest(x, b[j], Flatten(b[j + 1..]), lo, hi);
    }
  }

  /** A batch from `lo`, followed by the data from its end on, is the data from `lo` on. */
  lemma SliceThenRest<T>(x: seq<T>, batch: seq<T>, rest: seq<T>, lo: nat, hi: int)
    requires lo < |x| && lo < hi
    requires batch == if hi < |x| then x[lo..hi] else x[lo..]
    requires hi < |x| ==> rest == x[hi..]
    requires hi >= |x| ==> rest == []
    ensures batch + rest == x[lo..]
  {
    if hi < |x| {
      assert x[lo..] == x[lo..hi] + x[hi..];
    } else {
      assert batch + [] == batch;
    }
  }

  /** Batch `j` is the slice of the data from `j * bs`, cut at the next batch or at the end. */
  lemma BatchAt<T>(x: seq<T>, bs: int, j: nat)
    requires bs > 0 && j < CeilDiv(|x|, bs)
    ensures var b, lo, hi := Batches(x, bs).value, j * bs, (j + 1) * bs;
            lo < |x| && hi == lo + bs && b[j] == if hi < |x| then x[lo..hi] else x[lo..]
  {
    BatchStart(|x|, bs, j);
  }

  /** Flattening from `j` on: batch `j`, then the rest. */
  lemma FlattenCons<T>(b: seq<seq<T>>, j: nat)
    requires j < |b|
    ensures Flatten(b[j..]) == b[j] + Flatten(b[j + 1..])
  {
    assert b[j..][1..] == b[j + 1..];
  }

  // ---------------------------------------------------------------------------
  // The inference loop
  // ---------------------------------------------------------------------------

  /**
   * How many passes the `-l` limit allows on its own: exactly `L` for
   * `L >= 1`; a negative `L` is truthy and already exceeded after one pass;
   * 0 and no option at all set no bound.
   */
  function PassBound(limit: Option<int>): Option<nat> {
    match limit
    case None => None
    case Some(l) => if l == 0 then None else if l < 0 then Some(1) else Some(l)
  }

  /**
   * Passes completed when the loop ends: the bound, or the pass during which
   * Ctrl-C arrives if that comes first (the interrupted pass is not counted).
   */
  function Completed(limit: Option<int>, interruptAt: Option<nat>): nat
    requires PassBound(limit).Some? || interruptAt.Some?
  {
    match PassBound(limit)
    case None => interruptAt.value
    case Some(b) => if interruptAt.Some? && interruptAt.value < b then interruptAt.value else b
  }

  /**
   * The `while keep_running` loop of `inference_benchmark`: a pass ends early
   * on Ctrl-C and leaves the loop; otherwise `n_iterations` goes up and the
   * loop stops once `n_iterations + 1 > iteration_limit`. Without a limit and
   * without Ctrl-C it never ends, so one of the two is required here.
   */
  method InferencePasses(limit: Option<int>, interruptAt: Option<nat>) returns (n: nat)
    requires PassBound(limit).Some? || interruptAt.Some?
    ensures n == Completed(limit, interruptAt)
  {
    n := 0;
    var running := true;
    ghost var c := Completed(limit, interruptAt);
    while running
      invariant n <= c
      invariant running && n == c ==> interruptAt == Some(n)
      invariant !running ==> n == c
      decreases c - n, running
    {
      if interruptAt == Some(n) {
        running := false;
      } else {
        n := n + 1;
        if limit.Some? && limit.value != 0 && n + 1 > limit.value {
          running := false;
        }
      }
    }
  }

  /** With a limit `L >= 1` and no Ctrl-C the loop makes exactly `L` passes. */
  lemma LimitGivesPasses(l: int)
    requires l >= 1
    ensures Completed(Some(l), None) == l
  {
  }

  // ---------------------------------------------------------------------------
  // run
  // ---------------------------------------------------------------------------

  /** The `mode` argument. */
  datatype Mode = Training | Inference | Test

  /**
   * What a run writes and prints: its stats file, if any, the inference
   * passes, the completion line, and the exception the final average raises.
   */
  datatype Report = Report(statsFile: Option<string>, passes: nat, printed: string, error: Option<Raised>)

  const TestOutput := "total_time: 0.0\navg_time_per_sample: 0.0"

  /**
   * `run`: test mode prints zero stats and exits before touching the model
   * or any file; training writes `stats_<name>-training_<stamp>.txt` and
   * divides the total time by the epoch count and then by the sample count;
   * inference writes `stats_<name>-inference_<stamp>.txt`, makes as many
   * passes as the loop allows and divides by samples times passes. A zero
   * divisor in the average raises `ZeroDivisionError` after the file is
   * written and the completion line printed. A batch size of 0 makes the
   * first inference pass raise `ZeroDivisionError` at `len(X) / batch_size`,
   * which the `except KeyboardInterrupt` does not catch: the stats file is
   * left empty and nothing more is printed. The timings themselves are left out.
   */
  function Run(name: string, mode: Mode, now: Moment, limit: Option<int>, interruptAt: Option<nat>,
               samples: nat, epochs: int, bs: int): (r: Report)
    requires ValidMoment(now)
    requires mode == Inference && bs != 0 ==> PassBound(limit).Some? || interruptAt.Some?
    ensures mode == Test <==> r.statsFile.None?
    ensures mode == Test ==> r == Report(None, 0, TestOutput, None)
    ensures mode == Inference && bs != 0 ==> r.passes == Completed(limit, interruptAt)
    ensures mode == Inference && bs == 0 ==> r.passes == 0
    ensures mode != Test ==> (r.printed == "" <==> mode == Inference && bs == 0)
    ensures r.error.Some? <==>
              || (mode == Training && (epochs == 0 || samples == 0))
              || (mode == Inference && (bs == 0 || samples == 0 || Completed(limit, interruptAt) == 0))
    ensures r.error.Some? ==> r.error.value == ZeroDivisionError && r.statsFile.Some?
  {
    match mode
    case Test => Report(None, 0, TestOutput, None)
    case Training =>
      var crash := if epochs == 0 || samples == 0 then Some(ZeroDivisionError) else None;
      Report(Some(StatsFileName(name + "-training", now)), 0, "TRAINING COMPLETED!", crash)
    case Inference =>
      var file := Some(StatsFileName(name + "-inference", now));
      // The batch count `ceil(len(X) / batch_size)`, as in `Batches`, divides by zero on the first pass.
      if bs == 0 then Report(file, 0, "", Some(ZeroDivisionError))
      else
        var passes := Completed(limit, interruptAt);
        var crash := if samples * passes == 0 then Some(ZeroDivisionError) else None;
        Report(file, passes, "INFERENCE COMPLETED!", crash)
  }

  /** A Ctrl-C during the first inference pass leaves no pass to average over, so the report raises. */
  lemma InterruptedFirstPassRaises(name: string, now: Moment, limit: Option<int>, samples: nat, bs: int)
    requires ValidMoment(now)
    ensures Run(name, Inference, now, limit, Some(0), samples, 1, bs).error == Some(ZeroDivisionError)
  {
  }

  /** Training and inference of the same benchmark at the same moment write different files. */
  lemma RunFilesDiffer(name: string, now: Moment, limit: Option<int>, interruptAt: Option<nat>, samples: nat, epochs: int, bs: int)
    requires ValidMoment(now)
    requires bs != 0 ==> PassBound(limit).Some? || interruptAt.Some?
    ensures Run(name, Training, now, limit, interruptAt, samples, epochs, bs).statsFile
         != Run(name, Inference, now, limit, interruptAt, samples, epochs, bs).statsFile
  {
    StatsFileNameInjective(name + "-training", name + "-inference", now, now);
    assert (name + "-training")[|name| + 1] == 't';
    assert (name + "-inference")[|name| + 1] == 'i';
  }
}
