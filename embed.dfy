/** hide_text_in_video of hidetextvideo-2.py: one cursor walks the region
    cells of the frames in order and sets bit 0 of each sample to the next
    bit of full_bin while bits remain; every frame is written out. */
module Embed {
  import opened Common
  import opened Frames

  /** (sample & ~1) | bit on an 8-bit sample. */
  function SetLsb(v: Byte, b: Bit): (r: Byte)
    ensures r % 2 == b
    ensures r / 2 == v / 2
  {
    v - v % 2 + b
  }

  /** A region sample whose cursor position is pos: stamped with bits[pos]
      while the cursor is inside the bit string, untouched after it. */
  function Stamped(v: Byte, bits: seq<Bit>, pos: nat): Byte
  {
    if pos < |bits| then SetLsb(v, bits[pos]) else v
  }

  /** Sample (i, j, k) of frame f, whose old value was v, once the bits from
      cursor position start on have been embedded in f's region. */
  function Embedded(f: Frame, v: Byte, i: nat, j: nat, k: nat, bits: seq<Bit>, start: nat): Byte
  {
    if InRegion(f, i, j, k) then Stamped(v, bits, start + CellIndex(i, j, k, MaxCol(f))) else v
  }

  /** A region cell whose position falls inside the bit string carries its
      bit in bit 0. */
  lemma EmbeddedBit(f: Frame, v: Byte, i: nat, j: nat, k: nat, bits: seq<Bit>, start: nat)
    requires InRegion(f, i, j, k) && start + CellIndex(i, j, k, MaxCol(f)) < |bits|
    ensures Embedded(f, v, i, j, k, bits, start) % 2 == bits[start + CellIndex(i, j, k, MaxCol(f))]
  {
  }

  /** Cursor position of cell (i, j, k) of frame t. */
  function Position(fs: seq<Frame>, t: nat, i: nat, j: nat, k: nat): nat
    requires t < |fs|
  {
    TotalCapacity(fs[..t]) + CellIndex(i, j, k, MaxCol(fs[t]))
  }

  /** Every region cell whose cursor position p falls inside bits holds
      bits[p] in bit 0. */
  ghost predicate Carries(fs: seq<Frame>, bits: seq<Bit>)
    requires ValidFrames(fs)
    reads fs
  {
    forall t: nat, i: nat, j: nat, k: nat ::
      t < |fs| && InRegion(fs[t], i, j, k) && Position(fs, t, i, j, k) < |bits| ==>
        fs[t][i, j, k] % 2 == bits[Position(fs, t, i, j, k)]
  }

  lemma CarriesInit(fs: seq<Frame>, bits: seq<Bit>)
    requires ValidFrames(fs) && Carries(fs, bits) && |fs| > 0
    ensures ValidFrames(fs[..|fs| - 1]) && Carries(fs[..|fs| - 1], bits)
  {
    var init := fs[..|fs| - 1];
    forall t: nat, i: nat, j: nat, k: nat |
      t < |init| && InRegion(init[t], i, j, k) && Position(init, t, i, j, k) < |bits|
      ensures init[t][i, j, k] % 2 == bits[Position(init, t, i, j, k)]
    {
      assert init[..t] == fs[..t];
      assert Position(init, t, i, j, k) == Position(fs, t, i, j, k);
    }
  }

  lemma CarriesAt(fs: seq<Frame>, bits: seq<Bit>, t: nat, i: nat, j: nat, k: nat)
    requires ValidFrames(fs) && Carries(fs, bits)
    requires t < |fs| && InRegion(fs[t], i, j, k) && Position(fs, t, i, j, k) < |bits|
    ensures fs[t][i, j, k] % 2 == bits[Position(fs, t, i, j, k)]
  {
  }

  lemma CarriesLast(fs: seq<Frame>, bits: seq<Bit>, q: nat)
    requires ValidFrames(fs) && Carries(fs, bits) && |fs| > 0
    requires q < Capacity(fs[|fs| - 1]) && TotalCapacity(fs[..|fs| - 1]) + q < |bits|
    ensures FrameLsbs(fs[|fs| - 1])[q] == bits[TotalCapacity(fs[..|fs| - 1]) + q]
  {
    var t := |fs| - 1;
    var last := fs[t];
    PositionCell(last, q);
    var i, j, k := q / Channels / MaxCol(last), q / Channels % MaxCol(last), q % Channels;
    CarriesAt(fs, bits, t, i, j, k);
    FrameLsbsAtPosition(last, q);
  }

  /** Frames that carry a bit string show it at the head of their stream:
      the first min(len(bits), capacity) stream bits are the bits. */
  lemma {:induction false} CarriesStream(fs: seq<Frame>, bits: seq<Bit>)
    requires ValidFrames(fs) && Carries(fs, bits)
    ensures LsbStream(fs)[..Min(|bits|, TotalCapacity(fs))] == bits[..Min(|bits|, TotalCapacity(fs))]
    decreases |fs|
  {
    if |fs| > 0 {
      var init := fs[..|fs| - 1];
      CarriesInit(fs, bits);
      CarriesStream(init, bits);
      var base := TotalCapacity(init);
      var n := Min(|bits|, TotalCapacity(fs));
      forall p | 0 <= p < n
        ensures LsbStream(fs)[p] == bits[p]
      {
        if p >= base {
          CarriesLast(fs, bits, p - base);
        } else {
          assert LsbStream(init)[..Min(|bits|, base)][p] == bits[..Min(|bits|, base)][p];
        }
      }
    }
  }

  /** The three nested loops of one frame: for i < min(100, H), j <
      min(100, W), k < 3, stamp the sample while index < len(full_bin). */
  method EmbedRegion(f: Frame, bits: seq<Bit>, start: nat) returns (index: nat)
    requires HasChannels(f) && start <= |bits|
    modifies f
    ensures index == Min(|bits|, start + Capacity(f))
    ensures forall i, j, k :: 0 <= i < f.Length0 && 0 <= j < f.Length1 && 0 <= k < f.Length2 ==>
              f[i, j, k] == Embedded(f, old(f[i, j, k]), i, j, k, bits, start)
  {
    var maxRow := Min(RegionSide, f.Length0);
    index := start;
    for i := 0 to maxRow
      invariant index == Min(|bits|, start + CellIndex(i, 0, 0, MaxCol(f)))
      invariant forall i', j', k' :: 0 <= i' < f.Length0 && 0 <= j' < f.Length1 && 0 <= k' < f.Length2 ==>
                  f[i', j', k'] == if i' < i then Embedded(f, old(f[i', j', k']), i', j', k', bits, start)
                                   else old(f[i', j', k'])
    {
      index := EmbedRow(f, bits, start, index, i);
    }
  }

  /** Row i: for j < min(100, W), the three samples of pixel (i, j). */
  method EmbedRow(f: Frame, bits: seq<Bit>, start: nat, index: nat, i: nat) returns (index': nat)
    requires HasChannels(f) && start <= |bits| && i < MaxRow(f)
    requires index == Min(|bits|, start + CellIndex(i, 0, 0, MaxCol(f)))
    modifies f
    ensures index' == Min(|bits|, start + CellIndex(i + 1, 0, 0, MaxCol(f)))
    ensures forall i', j', k' :: 0 <= i' < f.Length0 && 0 <= j' < f.Length1 && 0 <= k' < f.Length2 ==>
              f[i', j', k'] == if i' == i then Embedded(f, old(f[i', j', k']), i', j', k', bits, start)
                               else old(f[i', j', k'])
  {
    var maxCol := Min(RegionSide, f.Length1);
    index' := index;
    for j := 0 to maxCol
      invariant index' == Min(|bits|, start + CellIndex(i, j, 0, maxCol))
      invariant forall i', j', k' :: 0 <= i' < f.Length0 && 0 <= j' < f.Length1 && 0 <= k' < f.Length2 ==>
                  f[i', j', k'] == if i' == i && j' < j then Embedded(f, old(f[i', j', k']), i', j', k', bits, start)
                                   else old(f[i', j', k'])
    {
      index' := EmbedPixel(f, bits, start, index', i, j);
    }
    assert CellIndex(i, maxCol, 0, maxCol) == CellIndex(i + 1, 0, 0, maxCol);
  }

  /** Pixel (i, j): for k < 3, (sample & ~1) | full_bin[index] while index <
      len(full_bin). */
  method EmbedPixel(f: Frame, bits: seq<Bit>, start: nat, index: nat, i: nat, j: nat) returns (index': nat)
    requires HasChannels(f) && start <= |bits| && i < MaxRow(f) && j < MaxCol(f)
    requires index == Min(|bits|, start + CellIndex(i, j, 0, MaxCol(f)))
    modifies f
    ensures index' == Min(|bits|, start + CellIndex(i, j + 1, 0, MaxCol(f)))
    ensures forall i', j', k' :: 0 <= i' < f.Length0 && 0 <= j' < f.Length1 && 0 <= k' < f.Length2 ==>
              f[i', j', k'] == if i' == i && j' == j then Embedded(f, old(f[i', j', k']), i', j', k', bits, start)
                               else old(f[i', j', k'])
  {
    index' := index;
    for k := 0 to Channels
      invariant index' == Min(|bits|, start + CellIndex(i, j, k, MaxCol(f)))
      invariant forall i', j', k' :: 0 <= i' < f.Length0 && 0 <= j' < f.Length1 && 0 <= k' < f.Length2 ==>
                  f[i', j', k'] == if i' == i && j' == j && k' < k then Embedded(f, old(f[i', j', k']), i', j', k', bits, start)
                                   else old(f[i', j', k'])
    {
      if index' < |bits| {
        f[i, j, k] := SetLsb(f[i, j, k], bits[index']);
        index' := index' + 1;
      }
    }
  }

  /** hide_text_in_video: frames come from the source in order, each one is
      embedded into while the cursor is inside full_bin, and each is passed
      to the sink (written) exactly once. Returns the final cursor. Bits
      beyond the total capacity are dropped without an error. */
  method HideTextInVideo(frames: seq<Frame>, fullBin: seq<Bit>) returns (index: nat, written: seq<Frame>)
    requires ValidFrames(frames) && Distinct(frames)
    modifies frames
    ensures written == frames
    ensures index == Min(|fullBin|, TotalCapacity(frames))
    ensures forall t, i, j, k :: 0 <= t < |frames| && 0 <= i < frames[t].Length0 && 0 <= j < frames[t].Length1 && 0 <= k < frames[t].Length2 ==>
              frames[t][i, j, k] == Embedded(frames[t], old(frames[t][i, j, k]), i, j, k, fullBin, TotalCapacity(frames[..t]))
    ensures Carries(frames, fullBin)
  {
    index, written := 0, [];
    var t := 0;
    while t < |frames|
      invariant t <= |frames|
      invariant written == frames[..t]
      invariant index == Min(|fullBin|, TotalCapacity(frames[..t]))
      invariant forall s, i, j, k :: 0 <= s < t && 0 <= i < frames[s].Length0 && 0 <= j < frames[s].Length1 && 0 <= k < frames[s].Length2 ==>
                  frames[s][i, j, k] == Embedded(frames[s], old(frames[s][i, j, k]), i, j, k, fullBin, TotalCapacity(frames[..s]))
      invariant forall s, i, j, k :: t <= s < |frames| && 0 <= i < frames[s].Length0 && 0 <= j < frames[s].Length1 && 0 <= k < frames[s].Length2 ==>
                  frames[s][i, j, k] == old(frames[s][i, j, k])
    {
      var frame := frames[t];
      TotalCapacitySnoc(frames, t);
      if index < |fullBin| {
        index := EmbedRegion(frame, fullBin, index);
      }
      written := written + [frame];
      t := t + 1;
    }
    assert frames[..|frames|] == frames;
    forall t: nat, i: nat, j: nat, k: nat |
      t < |frames| && InRegion(frames[t], i, j, k) && Position(frames, t, i, j, k) < |fullBin|
      ensures frames[t][i, j, k] % 2 == fullBin[Position(frames, t, i, j, k)]
    {
      EmbeddedBit(frames[t], old(frames[t][i, j, k]), i, j, k, fullBin, TotalCapacity(frames[..t]));
    }
  }
}
