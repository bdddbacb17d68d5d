/** The seek map of an MPEG-TS stream: a list of (time, byte offset) pairs
    recorded from program clock references, a binary search from a playback
    position to a byte offset, and the decoding of a PCR base into
    milliseconds. */
module TsSeekMap {
  import opened Wrappers
  import opened JavaInt

  /** The exception a Java array or `Vector` index past the end raises. */
  datatype SeekError = IndexOutOfBounds

  /** One recorded position: a time in milliseconds and its byte offset. */
  datatype TimeBytePosition = TimeBytePosition(timeMs: Int64, bytePos: Int64)

  /** A seek map: the stream duration in minutes and the recorded positions
      in the order they were added. */
  datatype SeekMap = SeekMap(durationMinutes: Int32, positions: seq<TimeBytePosition>)

  /** The constructor: no positions yet. */
  function NewSeekMap(durationMinutes: Int32): (m: SeekMap)
    ensures m.positions == [] && m.durationMinutes == durationMinutes
  {
    SeekMap(durationMinutes, [])
  }

  /** `addPosition`: the new pair goes after every earlier one. */
  function AddPosition(m: SeekMap, timeMs: Int64, bytePos: Int64): (r: SeekMap)
    ensures |r.positions| == |m.positions| + 1
    ensures r.positions[..|m.positions|] == m.positions
    ensures r.positions[|m.positions|] == TimeBytePosition(timeMs, bytePos)
    ensures r.durationMinutes == m.durationMinutes
  {
    m.(positions := m.positions + [TimeBytePosition(timeMs, bytePos)])
  }

  /** Times never decrease along the map, as when positions are recorded
      while the stream is read forwards. */
  ghost predicate TimesAscending(ps: seq<TimeBytePosition>) {
    forall i, j | 0 <= i < j < |ps| :: ps[i].timeMs <= ps[j].timeMs
  }

  /** Recording a position no earlier than the last keeps the map sorted. */
  lemma AddKeepsAscending(m: SeekMap, timeMs: Int64, bytePos: Int64)
    requires TimesAscending(m.positions)
    requires m.positions != [] ==> m.positions[|m.positions| - 1].timeMs <= timeMs
    ensures TimesAscending(AddPosition(m, timeMs, bytePos).positions)
  {
    var ps := AddPosition(m, timeMs, bytePos).positions;
    forall i, j | 0 <= i < j < |ps| ensures ps[i].timeMs <= ps[j].timeMs {
      if j == |ps| - 1 && i < j - 1 {
        assert ps[i].timeMs <= ps[j - 1].timeMs;
      }
    }
  }

  /** The binary search of `getPosition`: the index of the last probe, which
      stops early on an exact hit. The source computes the midpoint as
      `(q + r) / 2` in an `int`; it cannot overflow below 2^30 entries. */
  method Search(ps: seq<TimeBytePosition>, target: int) returns (k: int)
    requires 0 < |ps| <= 0x4000_0000
    ensures 0 <= k < |ps|
    ensures TimesAscending(ps) && (exists j | 0 <= j < |ps| :: ps[j].timeMs == target) ==>
              ps[k].timeMs == target
    ensures TimesAscending(ps) && (forall j | 0 <= j < |ps| :: ps[j].timeMs != target) ==>
              (ps[k].timeMs < target && (k + 1 == |ps| || ps[k + 1].timeMs > target))
              || (ps[k].timeMs > target && (k == 0 || ps[k - 1].timeMs < target))
  {
    var q := 0;
    var r := |ps|;
    var mid := -1;
    while q < r
      invariant 0 <= q <= r <= |ps|
      invariant mid == -1 ==> q == 0 && r == |ps|
      invariant mid != -1 ==> 0 <= mid < |ps| && (q == mid + 1 || r == mid)
      invariant mid != -1 && q == mid + 1 ==> ps[mid].timeMs < target
      invariant mid != -1 && r == mid ==> ps[mid].timeMs > target
      invariant TimesAscending(ps) ==> forall i | 0 <= i < q :: ps[i].timeMs < target
      invariant TimesAscending(ps) ==> forall i | r <= i < |ps| :: ps[i].timeMs > target
      decreases r - q
    {
      mid := (q + r) / 2;
      if ps[mid].timeMs == target {
        return mid;
      } else if ps[mid].timeMs > target {
        r := mid;
      } else {
        q := mid + 1;
      }
    }
    k := mid;
  }

  /** `getPosition(positionUs)`: the microsecond position becomes
      milliseconds (truncating), is shifted by the first recorded time (a
      live stream need not start at 0), and the byte offset of the probe the
      search ends on is returned. An empty map raises on `get(0)`. */
  method GetPosition(m: SeekMap, positionUs: Int64) returns (r: Result<int, SeekError>)
    requires |m.positions| <= 0x4000_0000
    ensures m.positions == [] <==> r.Err?
    ensures r.Ok? ==> exists k | 0 <= k < |m.positions| :: r.value == m.positions[k].bytePos
    ensures r.Ok? && TimesAscending(m.positions)
            && (exists j | 0 <= j < |m.positions| :: m.positions[j].timeMs == TargetMs(m, positionUs)) ==>
              exists k | 0 <= k < |m.positions| ::
                m.positions[k].timeMs == TargetMs(m, positionUs) && r.value == m.positions[k].bytePos
    ensures r.Ok? && TimesAscending(m.positions)
            && (forall j | 0 <= j < |m.positions| :: m.positions[j].timeMs != TargetMs(m, positionUs)) ==>
              exists k | 0 <= k < |m.positions| ::
                && r.value == m.positions[k].bytePos
                && ((m.positions[k].timeMs < TargetMs(m, positionUs)
                     && (k + 1 == |m.positions| || m.positions[k + 1].timeMs > TargetMs(m, positionUs)))
                    || (m.positions[k].timeMs > TargetMs(m, positionUs)
                        && (k == 0 || m.positions[k - 1].timeMs < TargetMs(m, positionUs))))
  {
    if m.positions == [] {
      return Err(IndexOutOfBounds);
    }
    var target := TargetMs(m, positionUs);
    var k := Search(m.positions, target);
    r := Ok(m.positions[k].bytePos);
    var ps := m.positions;
    if TimesAscending(ps) && (exists j | 0 <= j < |ps| :: ps[j].timeMs == target) {
      assert ps[k].timeMs == target && r.value == ps[k].bytePos;
    }
    if TimesAscending(ps) && (forall j | 0 <= j < |ps| :: ps[j].timeMs != target) {
      assert r.value == ps[k].bytePos
             && ((ps[k].timeMs < target && (k + 1 == |ps| || ps[k + 1].timeMs > target))
                 || (ps[k].timeMs > target && (k == 0 || ps[k - 1].timeMs < target)));
    }
  }

  /** The time the search looks for: `positionUs / 1000 + first time`, in
      `long` arithmetic. */
  function TargetMs(m: SeekMap, positionUs: Int64): (t: int)
    requires m.positions != []
    ensures IsInt64(t)
    ensures IsInt64(Quot(positionUs, 1000) + m.positions[0].timeMs) ==>
              t - m.positions[0].timeMs == Quot(positionUs, 1000)
  {
    Wrap64(Quot(positionUs, 1000) + m.positions[0].timeMs)
  }

  const MICROS_PER_MINUTE: int := 60_000_000

  /** `getDurationUs`: `TimeUnit.MINUTES.toMicros` of the int duration. Its
      saturation never applies, since an `int` of minutes fits a `long` of
      microseconds. */
  function DurationUs(m: SeekMap): (us: int)
    ensures IsInt64(us)
    ensures us % MICROS_PER_MINUTE == 0 && us / MICROS_PER_MINUTE == m.durationMinutes
  {
    m.durationMinutes * MICROS_PER_MINUTE
  }

  // ---------------------------------------------------------------------
  // Program clock reference

  /** A Java `byte`. */
  type JavaByte = x: int | -128 <= x < 128

  /** `x & m` over the two's-complement value of `x`, where the mask `m`
      has exactly the bits from weight `lo` up to (not including) weight
      `hi` set; both are powers of two. */
  function MaskBits(x: int, lo: int, hi: int): (r: int)
    requires 0 < lo <= hi
    ensures 0 <= r < hi
  {
    (x % hi) / lo * lo
  }

  /** The unsigned value of a byte: its low eight bits. */
  function Unsigned(b: JavaByte): (u: int)
    ensures 0 <= u < 256
    ensures b >= 0 ==> u == b
    ensures b < 0 ==> u == b + 256
  {
    b % 256
  }

  /** The 33-bit PCR base stored big-endian in the first 33 bits of five
      bytes. */
  function PcrBase(b0: JavaByte, b1: JavaByte, b2: JavaByte, b3: JavaByte, b4: JavaByte): (base: int)
    ensures 0 <= base < 0x2_0000_0000
  {
    Unsigned(b0) * 0x200_0000 + Unsigned(b1) * 0x2_0000 + Unsigned(b2) * 0x200 + Unsigned(b3) * 2
      + Unsigned(b4) / 128
  }

  /** The `int` expression of `getPcrPositionMs` that assembles the first
      four bytes: `b0 << 24` plus the next three bytes each shifted and
      masked to its own eight bits, added left to right with wrap-around. */
  function PcrWord(b0: JavaByte, b1: JavaByte, b2: JavaByte, b3: JavaByte): (w: int)
    ensures IsInt32(w)
  {
    var i0 := Wrap32(b0 as int * 0x100_0000);
    var i1 := MaskBits(Wrap32(b1 as int * 0x1_0000), 0x1_0000, 0x100_0000);
    var i2 := MaskBits(Wrap32(b2 as int * 0x100), 0x100, 0x1_0000);
    var i3 := MaskBits(b3, 1, 0x100);
    Wrap32(Wrap32(Wrap32(i0 + i1) + i2) + i3)
  }

  /** `getPcrPositionMs` as written, one Java operator at a time: the int
      word widened to `long`, shifted left once and masked to 33 bits, plus
      the high bit of the fifth byte (`b4 >> 7 & 1`), divided by the 90 kHz
      clock. Fewer than five bytes raise on the array access. */
  function PcrPositionMs(pcr: seq<JavaByte>): (r: Result<int, SeekError>)
    ensures |pcr| < 5 <==> r.Err?
  {
    if |pcr| < 5 then Err(IndexOutOfBounds)
    else
      var word := PcrWord(pcr[0], pcr[1], pcr[2], pcr[3]);
      var shifted := MaskBits(Wrap64(word * 2), 1, 0x2_0000_0000);
      var bit := MaskBits(pcr[4] as int / 128, 1, 2);
      Ok(Quot(Wrap64(shifted + bit), 90))
  }

  /** The big-endian unsigned value of four bytes. */
  function Unsigned32(b0: JavaByte, b1: JavaByte, b2: JavaByte, b3: JavaByte): (v: int)
    ensures 0 <= v < TWO_32
  {
    var u0, u1, u2, u3 := Unsigned(b0), Unsigned(b1), Unsigned(b2), Unsigned(b3);
    assert u0 * 0x100_0000 <= 255 * 0x100_0000;
    assert u1 * 0x1_0000 <= 255 * 0x1_0000;
    assert u2 * 0x100 <= 255 * 0x100;
    u0 * 0x100_0000 + u1 * 0x1_0000 + u2 * 0x100 + u3
  }

  /** The int word holds the four bytes' unsigned value in its low 32 bits:
      sign extension and wrap-around only add multiples of 2^32. */
  lemma PcrWordLowBits(b0: JavaByte, b1: JavaByte, b2: JavaByte, b3: JavaByte)
    ensures PcrWord(b0, b1, b2, b3) % TWO_32 == Unsigned32(b0, b1, b2, b3)
  {
    var i0 := Wrap32(b0 as int * 0x100_0000);
    var i1 := MaskBits(Wrap32(b1 as int * 0x1_0000), 0x1_0000, 0x100_0000);
    var i2 := MaskBits(Wrap32(b2 as int * 0x100), 0x100, 0x1_0000);
    var i3 := MaskBits(b3, 1, 0x100);
    ShiftedByteMask(b1, 0x1_0000);
    ShiftedByteMask(b2, 0x100);
    assert i3 == Unsigned(b3);
    assert PcrWord(b0, b1, b2, b3) == Wrap32(Wrap32(Wrap32(i0 + i1) + i2) + i3);
    assert Unsigned32(b0, b1, b2, b3) == Unsigned(b0) * 0x100_0000 + i1 + i2 + i3;
    SumCongruent(b0, i0, i1, i2, i3, Unsigned(b0));
  }

  /** The decoded time is the PCR base at 90 kHz in milliseconds: the wrapping
      of the intermediate `int` never affects the 33 bits that are kept. */
  lemma PcrPositionIsBase(pcr: seq<JavaByte>)
    requires |pcr| >= 5
    ensures PcrPositionMs(pcr) == Ok(PcrBase(pcr[0], pcr[1], pcr[2], pcr[3], pcr[4]) / 90)
  {
    var word := PcrWord(pcr[0], pcr[1], pcr[2], pcr[3]);
    var exact := Unsigned32(pcr[0], pcr[1], pcr[2], pcr[3]);
    PcrWordLowBits(pcr[0], pcr[1], pcr[2], pcr[3]);
    var shifted := MaskBits(Wrap64(word * 2), 1, 0x2_0000_0000);
    ShiftedWord(word, exact);
    var bit := MaskBits(pcr[4] as int / 128, 1, 2);
    HighBit(pcr[4]);
    PcrPositionSteps(pcr);
    BaseFromWord(pcr[0], pcr[1], pcr[2], pcr[3], pcr[4]);
    NonNegativeQuot(shifted + bit);
  }

  /** The decoding, step by step. */
  lemma PcrPositionSteps(pcr: seq<JavaByte>)
    requires |pcr| >= 5
    ensures PcrPositionMs(pcr)
              == Ok(Quot(Wrap64(MaskBits(Wrap64(PcrWord(pcr[0], pcr[1], pcr[2], pcr[3]) * 2), 1, 0x2_0000_0000)
                                + MaskBits(pcr[4] as int / 128, 1, 2)), 90))
  {
  }

  /** The int word doubled in a `long` and masked to 33 bits is twice its
      low 32 bits. */
  lemma ShiftedWord(word: int, exact: int)
    requires IsInt32(word) && word % TWO_32 == exact
    ensures MaskBits(Wrap64(word * 2), 1, 0x2_0000_0000) == 2 * exact
  {
    assert IsInt64(word * 2);
    DoubleMod(word, exact);
  }

  /** `b >> 7 & 1` is the high bit of the byte's unsigned value. */
  lemma HighBit(b: JavaByte)
    ensures MaskBits(b as int / 128, 1, 2) == Unsigned(b) / 128
  {
  }

  /** The PCR base is the four bytes' value doubled plus the high bit of
      the fifth. */
  lemma BaseFromWord(b0: JavaByte, b1: JavaByte, b2: JavaByte, b3: JavaByte, b4: JavaByte)
    ensures 2 * Unsigned32(b0, b1, b2, b3) + Unsigned(b4) / 128 == PcrBase(b0, b1, b2, b3, b4)
  {
  }

  /** On a non-negative 33-bit value the `long` wrap is the identity and
      the truncating quotient is Dafny's. */
  lemma NonNegativeQuot(x: int)
    requires 0 <= x < 0x2_0000_0000
    ensures Quot(Wrap64(x), 90) == x / 90
  {
    assert Wrap64(x) == x;
  }

  /** A byte shifted left by 8 or 16 bits and masked to those eight bits is
      its unsigned value shifted. */
  lemma ShiftedByteMask(b: JavaByte, scale: int)
    requires scale == 0x100 || scale == 0x1_0000
    ensures MaskBits(Wrap32(b as int * scale), scale, scale * 0x100) == Unsigned(b) * scale
  {
    var x := b as int * scale;
    assert Wrap32(x) == x;
    var u := Unsigned(b);
    assert x % (scale * 0x100) == u * scale by {
      assert x == u * scale + (if b < 0 then -1 else 0) * (scale * 0x100);
    }
    assert (u * scale) / scale == u;
  }

  /** The wrapped int sum is congruent to the unsigned big-endian value. */
  lemma SumCongruent(b0: JavaByte, i0: int, i1: int, i2: int, i3: int, u0: int)
    requires i0 == Wrap32(b0 as int * 0x100_0000) && u0 == Unsigned(b0)
    requires 0 <= i1 <= 255 * 0x1_0000 && 0 <= i2 <= 255 * 0x100 && 0 <= i3 <= 255
    ensures Wrap32(Wrap32(Wrap32(i0 + i1) + i2) + i3) % TWO_32 == u0 * 0x100_0000 + i1 + i2 + i3
  {
    assert u0 * 0x100_0000 <= 255 * 0x100_0000;
    var w := Wrap32(Wrap32(Wrap32(i0 + i1) + i2) + i3);
    var target := u0 * 0x100_0000 + i1 + i2 + i3;
    assert 0 <= target < TWO_32;
    assert (w - target) % TWO_32 == 0 by {
      var d1 := (i0 + i1) - Wrap32(i0 + i1);
      var d2 := (Wrap32(i0 + i1) + i2) - Wrap32(Wrap32(i0 + i1) + i2);
      var d3 := (Wrap32(Wrap32(i0 + i1) + i2) + i3) - w;
      var d0 := b0 as int * 0x100_0000 - i0;
      var e := u0 * 0x100_0000 - b0 as int * 0x100_0000;
      assert e == (u0 - b0 as int) * 0x100_0000;
      assert e == 0 || e == TWO_32;
      assert target - w == d0 + d1 + d2 + d3 + e;
      MultiplesAdd(d0, d1, d2, d3, e);
    }
    CongruentInRange(w, target);
  }

  lemma MultiplesAdd(a: int, b: int, c: int, d: int, e: int)
    requires a % TWO_32 == 0 && b % TWO_32 == 0 && c % TWO_32 == 0 && d % TWO_32 == 0
    requires e % TWO_32 == 0
    ensures (a + b + c + d + e) % TWO_32 == 0
  {
    var ka, kb, kc, kd, ke := a / TWO_32, b / TWO_32, c / TWO_32, d / TWO_32, e / TWO_32;
    assert a + b + c + d + e == (ka + kb + kc + kd + ke) * TWO_32;
  }

  lemma CongruentInRange(w: int, t: int)
    requires 0 <= t < TWO_32 && (w - t) % TWO_32 == 0
    ensures w % TWO_32 == t
  {
    var k := (w - t) / TWO_32;
    assert w == t + k * TWO_32;
  }

  /** Doubling an int and keeping 33 bits doubles its low 32 bits. */
  lemma DoubleMod(sum: int, exact: int)
    requires sum % TWO_32 == exact
    ensures MaskBits(sum * 2, 1, 0x2_0000_0000) == 2 * exact
  {
    var k := sum / TWO_32;
    assert sum == k * TWO_32 + exact;
    assert sum * 2 == k * 0x2_0000_0000 + 2 * exact;
  }

  /** The decoded time never exceeds the largest 33-bit base at 90 kHz. */
  lemma PcrPositionRange(pcr: seq<JavaByte>)
    requires |pcr| >= 5
    ensures PcrPositionMs(pcr).Ok?
    ensures 0 <= PcrPositionMs(pcr).value <= (0x2_0000_0000 - 1) / 90
  {
    PcrPositionIsBase(pcr);
  }
}
