/** The seek positions of the VOD player: one every ten seconds from the
    start, as many as whole ten-second steps fit in the duration. Both the
    current and the legacy seek data provider build them with the same
    code. */
module SeekPositions {
  import opened Wrappers
  import opened JavaInt

  /** Ten seconds between seek positions. */
  const SEEK_STEPS_DURATION_MILLIS: int := 10000

  /** `new long[steps]` with a negative `steps` throws. */
  datatype SeekError = NegativeArraySize

  /** `(int) (duration / SEEK_STEPS_DURATION_MILLIS)`: the truncating long
      quotient, cast to `int` by keeping its low 32 bits. */
  function Steps(duration: Int64): (n: Int32)
    ensures 0 <= duration < SEEK_STEPS_DURATION_MILLIS * TWO_31 ==>
              n == duration / SEEK_STEPS_DURATION_MILLIS
              && n * SEEK_STEPS_DURATION_MILLIS <= duration < (n + 1) * SEEK_STEPS_DURATION_MILLIS
    ensures -SEEK_STEPS_DURATION_MILLIS < duration < SEEK_STEPS_DURATION_MILLIS ==> n == 0
  {
    Wrap32(Quot(duration, SEEK_STEPS_DURATION_MILLIS))
  }

  /** `init` as written: the positions are accumulated in an `int`, so
      position `i` is `10000 * i` reduced to 32 bits. */
  method InitAsWritten(duration: Int64) returns (r: Result<seq<Int64>, SeekError>)
    ensures r.Err? <==> Steps(duration) < 0
    ensures r.Ok? ==> |r.value| == Steps(duration)
    ensures r.Ok? ==> forall i | 0 <= i < |r.value| :: r.value[i] == Wrap32(SEEK_STEPS_DURATION_MILLIS * i)
  {
    var steps := Steps(duration);
    if steps < 0 {
      return Err(NegativeArraySize);
    }
    var durations: seq<Int64> := [];
    var currentMillis: Int32 := 0;
    for i := 0 to steps
      invariant |durations| == i
      invariant currentMillis == Wrap32(SEEK_STEPS_DURATION_MILLIS * i)
      invariant forall k | 0 <= k < i :: durations[k] == Wrap32(SEEK_STEPS_DURATION_MILLIS * k)
    {
      durations := durations + [currentMillis];
      Wrap32MulAdd(SEEK_STEPS_DURATION_MILLIS * i, 1, SEEK_STEPS_DURATION_MILLIS);
      currentMillis := Wrap32(currentMillis + SEEK_STEPS_DURATION_MILLIS);
    }
    return Ok(durations);
  }

  /** For a duration of 2,147,500,000 ms (about 24.9 days) there are 214,750
      steps, and the last position wraps to a negative value below the one
      before it. */
  lemma WrappedPositionExample()
    ensures Steps(2_147_500_000) == 214_750
    ensures Wrap32(SEEK_STEPS_DURATION_MILLIS * 214_748) == 2_147_480_000
    ensures Wrap32(SEEK_STEPS_DURATION_MILLIS * 214_749) == -2_147_477_296
  {
  }

  /** `init` with a `long` accumulator: the same number of positions, each
      exactly `10000 * i`. */
  method Init(duration: Int64) returns (r: Result<seq<Int64>, SeekError>)
    ensures r.Err? <==> Steps(duration) < 0
    ensures r.Ok? ==> |r.value| == Steps(duration)
    ensures r.Ok? ==> forall i | 0 <= i < |r.value| :: r.value[i] == SEEK_STEPS_DURATION_MILLIS * i
  {
    var steps := Steps(duration);
    if steps < 0 {
      return Err(NegativeArraySize);
    }
    var durations: seq<Int64> := [];
    var currentMillis: Int64 := 0;
    for i := 0 to steps
      invariant |durations| == i
      invariant currentMillis == SEEK_STEPS_DURATION_MILLIS * i
      invariant forall k | 0 <= k < i :: durations[k] == SEEK_STEPS_DURATION_MILLIS * k
    {
      durations := durations + [currentMillis];
      currentMillis := currentMillis + SEEK_STEPS_DURATION_MILLIS;
    }
    return Ok(durations);
  }

  /** The corrected positions start at 0, increase by ten seconds, and for
      a duration whose step count fits an `int` all lie before the end. */
  lemma PositionsWithinDuration(duration: Int64, positions: seq<Int64>)
    requires 0 <= duration < SEEK_STEPS_DURATION_MILLIS * TWO_31
    requires |positions| == Steps(duration)
    requires forall i | 0 <= i < |positions| :: positions[i] == SEEK_STEPS_DURATION_MILLIS * i
    ensures |positions| > 0 ==> positions[0] == 0
    ensures forall i | 0 <= i < |positions| - 1 :: positions[i + 1] == positions[i] + SEEK_STEPS_DURATION_MILLIS
    ensures forall i | 0 <= i < |positions| :: 0 <= positions[i] < duration
  {
  }

  /** Every duration under ten seconds, including a negative one above
      -10 seconds, gives no position and no error. */
  lemma ShortDurationNoPositions(duration: Int64)
    requires -SEEK_STEPS_DURATION_MILLIS < duration < SEEK_STEPS_DURATION_MILLIS
    ensures Steps(duration) == 0
  {
  }

  /** A duration from -10000 * 2^31 ms up to -10 seconds is a negative
      array size. Below that the quotient no longer fits an `int`, and the
      cast can wrap it to a positive count (`HugeNegativeDurationWraps`). */
  lemma NegativeDurationFails(duration: Int64)
    requires -SEEK_STEPS_DURATION_MILLIS * TWO_31 <= duration <= -SEEK_STEPS_DURATION_MILLIS
    ensures Steps(duration) < 0
  {
  }

  /** The first duration below the range of `NegativeDurationFails`: its
      quotient -2^31 - 1 is cast to the largest `int`. */
  lemma HugeNegativeDurationWraps()
    ensures Steps(-SEEK_STEPS_DURATION_MILLIS * (TWO_31 + 1)) == TWO_31 - 1
  {
    assert Quot(-SEEK_STEPS_DURATION_MILLIS * (TWO_31 + 1), SEEK_STEPS_DURATION_MILLIS) == -TWO_31 - 1;
  }
}
