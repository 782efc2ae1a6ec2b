/** Video frames as hidetextvideo-2.py sees them after cap.read(): a
    rows x cols x channels grid of 8-bit samples. The embedding region of a
    frame is rows [0, min(100, H)) x cols [0, min(100, W)) x channels
    [0, 3), visited row, then column, then channel; cell (i, j, k) is the
    3 * (i * maxCol + j) + k-th cell of the frame's region. */
module Frames {
  import opened Common

  type Frame = array3<Byte>

  const RegionSide: nat := 100
  const Channels: nat := 3

  function MaxRow(f: Frame): nat { Min(RegionSide, f.Length0) }

  function MaxCol(f: Frame): nat { Min(RegionSide, f.Length1) }

  /** Number of bits one frame carries: min(100,H) * min(100,W) * 3. */
  function Capacity(f: Frame): nat { Channels * (MaxRow(f) * MaxCol(f)) }

  predicate InRegion(f: Frame, i: nat, j: nat, k: nat)
  {
    i < MaxRow(f) && j < MaxCol(f) && k < Channels
  }

  /** Position of cell (i, j, k) in the region's row -> col -> channel order. */
  function CellIndex(i: nat, j: nat, k: nat, cols: nat): nat
  {
    Channels * (i * cols + j) + k
  }

  /** OpenCV delivers colour frames: at least the three channels the
      embedder and extractor index. */
  predicate HasChannels(f: Frame) { f.Length2 >= Channels }

  predicate ValidFrames(fs: seq<Frame>)
  {
    forall t :: 0 <= t < |fs| ==> HasChannels(fs[t])
  }

  /** Every cap.read() returns a buffer of its own. */
  predicate Distinct(fs: seq<Frame>)
  {
    forall s, t :: 0 <= s < t < |fs| ==> fs[s] != fs[t]
  }

  /** The cell with a given region position: row (q / 3) / cols, column
      (q / 3) % cols, channel q % 3. */
  lemma CellIndexDecode(i: nat, j: nat, k: nat, cols: nat)
    requires j < cols && k < Channels
    ensures CellIndex(i, j, k, cols) / Channels / cols == i
    ensures CellIndex(i, j, k, cols) / Channels % cols == j
    ensures CellIndex(i, j, k, cols) % Channels == k
  {
    var q := CellIndex(i, j, k, cols);
    DivUnique(q, Channels, i * cols + j, k);
    DivUnique(i * cols + j, cols, i, j);
  }

  /** Every region position below rows * cols * 3 is the position of a
      region cell. */
  lemma CellIndexEncode(q: nat, rows: nat, cols: nat)
    requires q < Channels * (rows * cols)
    ensures cols > 0
    ensures q / Channels / cols < rows && q / Channels % cols < cols
    ensures CellIndex(q / Channels / cols, q / Channels % cols, q % Channels, cols) == q
  {
    var x := q / Channels;
    assert x < rows * cols;
    var i := x / cols;
    assert x == cols * i + x % cols;
  }

  lemma MulMonotone(c: nat, a: nat, b: nat)
    requires a <= b
    ensures c * a <= c * b
  {
  }

  /** A region cell's position lies below the frame's capacity. */
  lemma CellIndexBound(f: Frame, i: nat, j: nat, k: nat)
    requires InRegion(f, i, j, k)
    ensures CellIndex(i, j, k, MaxCol(f)) < Capacity(f)
  {
    var cols := MaxCol(f);
    assert i * cols + j < (i + 1) * cols;
    assert (i + 1) * cols <= MaxRow(f) * cols by { MulMonotone(cols, i + 1, MaxRow(f)); }
  }

  /** The cursor position before row i of the region, for i up to
      min(100, H), lies within the frame's capacity. */
  lemma RowPositionBound(f: Frame, i: nat)
    requires i <= MaxRow(f)
    ensures CellIndex(i, 0, 0, MaxCol(f)) <= Capacity(f)
  {
    MulMonotone(MaxCol(f), i, MaxRow(f));
  }

  /** Region position q of a frame is the position of the cell with row
      (q / 3) / cols, column (q / 3) % cols and channel q % 3. */
  lemma PositionCell(f: Frame, q: nat)
    requires q < Capacity(f)
    ensures MaxCol(f) > 0
    ensures q / Channels / MaxCol(f) >= 0 && q / Channels % MaxCol(f) >= 0
    ensures InRegion(f, q / Channels / MaxCol(f), q / Channels % MaxCol(f), q % Channels)
    ensures CellIndex(q / Channels / MaxCol(f), q / Channels % MaxCol(f), q % Channels, MaxCol(f)) == q
  {
    CellIndexEncode(q, MaxRow(f), MaxCol(f));
    var cols := MaxCol(f);
    DivNonNegative(q, Channels);
    DivNonNegative(q / Channels, cols);
  }

  lemma DivNonNegative(a: int, b: int)
    requires a >= 0 && b > 0
    ensures a / b >= 0
  {
  }

  /** Bit 0 of the sample at region position q. */
  function LsbAt(f: Frame, q: nat): Bit
    requires HasChannels(f) && q < Capacity(f)
    reads f
  {
    PositionCell(f, q);
    f[q / Channels / MaxCol(f), q / Channels % MaxCol(f), q % Channels] % 2
  }

  /** Bit 0 of every region sample of one frame, in visiting order. */
  function FrameLsbs(f: Frame): (s: seq<Bit>)
    requires HasChannels(f)
    reads f
    ensures |s| == Capacity(f)
  {
    seq(Capacity(f), q requires 0 <= q < Capacity(f) reads f => LsbAt(f, q))
  }

  lemma FrameLsbsAtPosition(f: Frame, q: nat)
    requires HasChannels(f) && q < Capacity(f)
    ensures FrameLsbs(f)[q] == LsbAt(f, q)
  {
  }

  /** The region bit at cell (i, j, k)'s position is that cell's bit 0. */
  lemma FrameLsbsAt(f: Frame, i: nat, j: nat, k: nat)
    requires HasChannels(f) && InRegion(f, i, j, k)
    ensures CellIndex(i, j, k, MaxCol(f)) < |FrameLsbs(f)|
    ensures FrameLsbs(f)[CellIndex(i, j, k, MaxCol(f))] == f[i, j, k] % 2
  {
    CellIndexBound(f, i, j, k);
    CellIndexDecode(i, j, k, MaxCol(f));
  }

  /** Σ min(100,H_t) * min(100,W_t) * 3 over the frames. */
  function TotalCapacity(fs: seq<Frame>): nat
  {
    if |fs| == 0 then 0 else TotalCapacity(fs[..|fs| - 1]) + Capacity(fs[|fs| - 1])
  }

  /** The region bits of all frames, frame after frame: the positions the
      single cursor of the format walks through. */
  function LsbStream(fs: seq<Frame>): (s: seq<Bit>)
    requires ValidFrames(fs)
    reads fs
    ensures |s| == TotalCapacity(fs)
  {
    if |fs| == 0 then [] else LsbStream(fs[..|fs| - 1]) + FrameLsbs(fs[|fs| - 1])
  }

  lemma {:induction false} TotalCapacityAppend(a: seq<Frame>, b: seq<Frame>)
    ensures TotalCapacity(a + b) == TotalCapacity(a) + TotalCapacity(b)
    decreases |b|
  {
    if |b| > 0 {
      assert (a + b)[..|a + b| - 1] == a + b[..|b| - 1];
      TotalCapacityAppend(a, b[..|b| - 1]);
    } else {
      assert a + b == a;
    }
  }

  /** The stream of a sequence of frames is the streams of its parts, one
      after the other. */
  lemma {:induction false} LsbStreamAppend(a: seq<Frame>, b: seq<Frame>)
    requires ValidFrames(a) && ValidFrames(b)
    ensures ValidFrames(a + b)
    ensures LsbStream(a + b) == LsbStream(a) + LsbStream(b)
    decreases |b|
  {
    if |b| > 0 {
      assert (a + b)[..|a + b| - 1] == a + b[..|b| - 1];
      LsbStreamAppend(a, b[..|b| - 1]);
    } else {
      assert a + b == a;
    }
  }

  lemma TotalCapacitySnoc(fs: seq<Frame>, t: nat)
    requires t < |fs|
    ensures TotalCapacity(fs[..t + 1]) == TotalCapacity(fs[..t]) + Capacity(fs[t])
  {
    assert fs[..t + 1][..t] == fs[..t];
  }

  /** One more frame adds its region bits at the end of the stream. */
  lemma LsbStreamSnoc(fs: seq<Frame>, t: nat)
    requires ValidFrames(fs) && t < |fs|
    ensures ValidFrames(fs[..t]) && ValidFrames(fs[..t + 1])
    ensures LsbStream(fs[..t + 1]) == LsbStream(fs[..t]) + FrameLsbs(fs[t])
    ensures TotalCapacity(fs[..t + 1]) == TotalCapacity(fs[..t]) + Capacity(fs[t])
  {
    assert fs[..t + 1][..t] == fs[..t];
  }

  /** The stream of all frames is the stream of the first t frames followed
      by the stream of the rest. */
  lemma LsbStreamGlue(fs: seq<Frame>, t: nat)
    requires ValidFrames(fs) && t <= |fs|
    ensures ValidFrames(fs[..t]) && ValidFrames(fs[t..])
    ensures LsbStream(fs) == LsbStream(fs[..t]) + LsbStream(fs[t..])
  {
    assert fs[..t] + fs[t..] == fs;
    LsbStreamAppend(fs[..t], fs[t..]);
  }

  /** The stream around frame t: the frames before it, its own region bits,
      the frames after it. */
  lemma LsbStreamSplit(fs: seq<Frame>, t: nat)
    requires ValidFrames(fs) && t < |fs|
    ensures LsbStream(fs) == LsbStream(fs[..t]) + FrameLsbs(fs[t]) + LsbStream(fs[t + 1..])
  {
    LsbStreamSnoc(fs, t);
    LsbStreamGlue(fs, t + 1);
  }

  /** Bit 0 of cell (i, j, k) of frame t is at stream position
      TotalCapacity(fs[..t]) + CellIndex(i, j, k). */
  lemma LsbStreamAt(fs: seq<Frame>, t: nat, i: nat, j: nat, k: nat)
    requires ValidFrames(fs) && t < |fs| && InRegion(fs[t], i, j, k)
    ensures TotalCapacity(fs[..t]) + CellIndex(i, j, k, MaxCol(fs[t])) < |LsbStream(fs)|
    ensures LsbStream(fs)[TotalCapacity(fs[..t]) + CellIndex(i, j, k, MaxCol(fs[t]))] == fs[t][i, j, k] % 2
  {
    FrameLsbsAt(fs[t], i, j, k);
    LsbStreamAtPosition(fs, t, CellIndex(i, j, k, MaxCol(fs[t])));
  }

  /** Cursor position TotalCapacity(fs[..t]) + q is region position q of
      frame t. */
  lemma LsbStreamAtPosition(fs: seq<Frame>, t: nat, q: nat)
    requires ValidFrames(fs) && t < |fs| && q < Capacity(fs[t])
    ensures TotalCapacity(fs[..t]) + q < |LsbStream(fs)|
    ensures LsbStream(fs)[TotalCapacity(fs[..t]) + q] == LsbAt(fs[t], q)
  {
    LsbStreamSplit(fs, t);
    SeqAt3(LsbStream(fs[..t]), FrameLsbs(fs[t]), LsbStream(fs[t + 1..]), q);
  }

  lemma SeqAt3<T>(a: seq<T>, b: seq<T>, c: seq<T>, q: nat)
    requires q < |b|
    ensures (a + b + c)[|a| + q] == b[q]
  {
  }
}
