/** The readers of hidetextvideo-2.py: extract_text_from_video and the
    length-prefix loop of extract_text, which collect str(frame[i,j,k] & 1)
    over the region cells in the embedder's order; and a cursor that keeps
    its position between two reads, as the embedder's single cursor does. */
module Extract {
  import opened Common
  import opened Frames

  /** acc followed by the region bits of f before position pos, as far as
      limit bits in all. */
  ghost function Collected(f: Frame, acc: seq<Bit>, limit: nat, pos: nat): seq<Bit>
    requires HasChannels(f)
    reads f
  {
    acc + Take(FrameLsbs(f), Min(pos, Max(0, limit - |acc|)))
  }

  /** Visiting cell (i, j, k): its bit is appended while fewer than limit
      bits have been collected. */
  lemma ReadCell(f: Frame, acc: seq<Bit>, limit: nat, out: seq<Bit>, i: nat, j: nat, k: nat)
    requires HasChannels(f) && InRegion(f, i, j, k)
    requires CellIndex(i, j, k, MaxCol(f)) < Capacity(f)
    requires out == Collected(f, acc, limit, CellIndex(i, j, k, MaxCol(f)))
    ensures (if |out| < limit then out + [f[i, j, k] % 2] else out)
         == Collected(f, acc, limit, CellIndex(i, j, k, MaxCol(f)) + 1)
  {
    var pos := CellIndex(i, j, k, MaxCol(f));
    FrameLsbsAt(f, i, j, k);
    TakeOneMore(FrameLsbs(f), pos);
  }

  /** The nested loops over one frame's region, appending bit 0 of each
      sample while fewer than limit bits have been collected. */
  method ReadRegion(f: Frame, acc: seq<Bit>, limit: nat) returns (out: seq<Bit>)
    requires HasChannels(f)
    ensures out == acc + Take(FrameLsbs(f), Max(0, limit - |acc|))
  {
    var maxRow := Min(RegionSide, f.Length0);
    out := acc;
    for i := 0 to maxRow
      invariant out == Collected(f, acc, limit, CellIndex(i, 0, 0, MaxCol(f)))
    {
      out := ReadRow(f, acc, limit, out, i);
    }
    RowPositionBound(f, maxRow);
  }

  /** Row i of the region: for j < min(100, W), the three samples of
      pixel (i, j). */
  method ReadRow(f: Frame, acc: seq<Bit>, limit: nat, out: seq<Bit>, i: nat) returns (out': seq<Bit>)
    requires HasChannels(f) && i < MaxRow(f)
    requires out == Collected(f, acc, limit, CellIndex(i, 0, 0, MaxCol(f)))
    ensures out' == Collected(f, acc, limit, CellIndex(i + 1, 0, 0, MaxCol(f)))
  {
    var maxCol := Min(RegionSide, f.Length1);
    out' := out;
    for j := 0 to maxCol
      invariant out' == Collected(f, acc, limit, CellIndex(i, j, 0, maxCol))
    {
      out' := ReadPixel(f, acc, limit, out', i, j);
    }
    assert CellIndex(i, maxCol, 0, maxCol) == CellIndex(i + 1, 0, 0, maxCol);
  }

  /** Pixel (i, j): for k < 3, bit 0 of sample k while index, the number
      of bits collected so far, is below limit. */
  method ReadPixel(f: Frame, acc: seq<Bit>, limit: nat, out: seq<Bit>, i: nat, j: nat) returns (out': seq<Bit>)
    requires HasChannels(f) && i < MaxRow(f) && j < MaxCol(f)
    requires out == Collected(f, acc, limit, CellIndex(i, j, 0, MaxCol(f)))
    ensures out' == Collected(f, acc, limit, CellIndex(i, j + 1, 0, MaxCol(f)))
  {
    var index := |out|;
    out' := out;
    for k := 0 to Channels
      invariant index == |out'|
      invariant out' == Collected(f, acc, limit, CellIndex(i, j, k, MaxCol(f)))
    {
      CellIndexBound(f, i, j, k);
      ReadCell(f, acc, limit, out', i, j, k);
      if index < limit {
        out' := out' + [f[i, j, k] % 2];
        index := index + 1;
      }
    }
  }

  /** extract_text_from_video: reads frames in order from where the source
      stands, restarting index at 0, until 8 * text_length bits are
      collected or the frames run out (a shortfall is not an error). */
  method ExtractTextFromVideo(frames: seq<Frame>, textLength: nat) returns (textBin: seq<Bit>)
    requires ValidFrames(frames)
    ensures textBin == Take(LsbStream(frames), 8 * textLength)
  {
    var limit := 8 * textLength;
    var index := 0;
    textBin := [];
    var t := 0;
    while t < |frames| && index < limit
      invariant t <= |frames| && index == |textBin|
      invariant textBin == Take(LsbStream(frames[..t]), limit)
    {
      ghost var before := textBin;
      textBin := ReadRegion(frames[t], textBin, limit);
      ReadStep(frames, t, before, textBin, limit);
      index := |textBin|;
      t := t + 1;
    }
    ReadDone(frames, t, textBin, limit);
  }

  /** Reading frame t's region after the bits of the frames before it. */
  lemma ReadStep(frames: seq<Frame>, t: nat, before: seq<Bit>, after: seq<Bit>, limit: nat)
    requires ValidFrames(frames) && t < |frames|
    requires before == Take(LsbStream(frames[..t]), limit) && |before| < limit
    requires after == before + Take(FrameLsbs(frames[t]), Max(0, limit - |before|))
    ensures after == Take(LsbStream(frames[..t + 1]), limit)
  {
    LsbStreamSnoc(frames, t);
    TakeAppend(LsbStream(frames[..t]), FrameLsbs(frames[t]), limit);
  }

  /** The loop stops with the limit reached or no frame left: either way
      the later frames add nothing. */
  lemma ReadDone(frames: seq<Frame>, t: nat, textBin: seq<Bit>, limit: nat)
    requires ValidFrames(frames) && t <= |frames|
    requires textBin == Take(LsbStream(frames[..t]), limit)
    requires t == |frames| || |textBin| >= limit
    ensures textBin == Take(LsbStream(frames), limit)
  {
    LsbStreamGlue(frames, t);
    TakeAppend(LsbStream(frames[..t]), LsbStream(frames[t..]), limit);
    if t == |frames| {
      assert frames[t..] == [];
    }
  }

  /** The prefix loop of extract_text: the first 32 region bits of the
      first frame only (fewer if its region is smaller). */
  method ReadLengthPrefix(f: Frame) returns (lengthBin: seq<Bit>)
    requires HasChannels(f)
    ensures lengthBin == Take(FrameLsbs(f), 32)
  {
    lengthBin := ReadRegion(f, [], 32);
  }

  /** A cursor over the region cells of a frame sequence that advances one
      cell per bit and never restarts, as the embedder's single index does:
      from state (t, q), frame t and next cell q of its region, the next n
      bits of the stream (fewer at its end), and the state after them. */
  method ReadBits(frames: seq<Frame>, t: nat, q: nat, n: nat) returns (bits: seq<Bit>, t': nat, q': nat)
    requires CursorAt(frames, t, q)
    ensures CursorAt(frames, t', q')
    ensures bits == Take(Drop(LsbStream(frames), StreamPosition(frames, t, q)), n)
    ensures StreamPosition(frames, t', q') == StreamPosition(frames, t, q) + |bits|
  {
    ghost var start := StreamPosition(frames, t, q);
    ghost var stream := LsbStream(frames);
    CursorInStream(frames, t, q);
    t', q' := t, q;
    bits := [];
    while |bits| < n && t' < |frames|
      invariant CursorAt(frames, t', q')
      invariant StreamPosition(frames, t', q') == start + |bits| <= |stream|
      invariant bits == stream[start..start + |bits|]
      invariant |bits| <= n
      decreases |frames| - t', if t' < |frames| then Capacity(frames[t']) - q' else 0
    {
      var f := frames[t'];
      if q' < Capacity(f) {
        ghost var before := bits;
        bits := bits + [LsbAt(f, q')];
        CursorStep(frames, t', q', start, before);
        q' := q' + 1;
      } else {
        CursorNextFrame(frames, t', q');
        t', q' := t' + 1, 0;
      }
    }
    CursorEnd(frames, t', q', start, bits, n);
  }

  /** Frame t, next cell q of its region: the states of a cursor. */
  predicate CursorAt(frames: seq<Frame>, t: nat, q: nat)
  {
    ValidFrames(frames) && t <= |frames| &&
    (t < |frames| ==> q <= Capacity(frames[t])) &&
    (t == |frames| ==> q == 0)
  }

  /** The stream position of cursor state (t, q). */
  function StreamPosition(frames: seq<Frame>, t: nat, q: nat): nat
    requires t <= |frames|
  {
    TotalCapacity(frames[..t]) + q
  }

  lemma CursorInStream(frames: seq<Frame>, t: nat, q: nat)
    requires CursorAt(frames, t, q)
    ensures StreamPosition(frames, t, q) <= |LsbStream(frames)|
  {
    LsbStreamGlue(frames, t);
    if t < |frames| {
      LsbStreamGlue(frames[t..], 1);
      assert frames[t..][..1] == [frames[t]];
      assert [frames[t]][..0] == [];
    }
  }

  /** Reading one bit at a cell inside frame t. */
  lemma CursorStep(frames: seq<Frame>, t: nat, q: nat, start: nat, before: seq<Bit>)
    requires CursorAt(frames, t, q) && t < |frames| && q < Capacity(frames[t])
    requires StreamPosition(frames, t, q) == start + |before| <= |LsbStream(frames)|
    requires before == LsbStream(frames)[start..start + |before|]
    ensures CursorAt(frames, t, q + 1)
    ensures StreamPosition(frames, t, q + 1) == start + |before| + 1 <= |LsbStream(frames)|
    ensures before + [LsbAt(frames[t], q)] == LsbStream(frames)[start..start + |before| + 1]
  {
    LsbStreamAtPosition(frames, t, q);
  }

  /** Leaving a frame whose region is used up keeps the position. */
  lemma CursorNextFrame(frames: seq<Frame>, t: nat, q: nat)
    requires CursorAt(frames, t, q) && t < |frames| && q == Capacity(frames[t])
    ensures CursorAt(frames, t + 1, 0)
    ensures StreamPosition(frames, t + 1, 0) == StreamPosition(frames, t, q)
  {
    LsbStreamSnoc(frames, t);
  }

  /** The loop stops after n bits or at the end of the stream. */
  lemma CursorEnd(frames: seq<Frame>, t: nat, q: nat, start: nat, bits: seq<Bit>, n: nat)
    requires CursorAt(frames, t, q)
    requires StreamPosition(frames, t, q) == start + |bits| <= |LsbStream(frames)|
    requires bits == LsbStream(frames)[start..start + |bits|] && |bits| <= n
    requires |bits| == n || t == |frames|
    ensures bits == Take(Drop(LsbStream(frames), start), n)
  {
    if t == |frames| {
      assert frames[..t] == frames;
    }
  }
}
