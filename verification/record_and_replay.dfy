/**
 * The binary record/replay log: one byte region that starts with a 40-byte
 * log header and continues with frames, each a header {u32 type, u32 size}
 * followed by `size` payload bytes.  BinaryLogForRecording lays frames down
 * behind a write cursor; BinaryLogForReplaying walks them with a read cursor.
 *
 * Pointers into the region are byte offsets from its start.  The frame header
 * is stored in little-endian byte order (the native order of the targets the
 * source is built for).
 */
module RecordAndReplay {
  import opened Wrappers
  import opened Bytes

  /** sizeof(LogHeader): signature[16], then the u64 fields size, exeCheckSum and hashAlgo. */
  const LogHeaderSize: nat := 40
  /** Offset of LogHeader::size, the only header field the replayer reads. */
  const LogHeaderSizeField: nat := 16
  /** sizeof(FrameHeader). */
  const FrameHeaderSize: nat := 8
  /** Bounds on the size exponent accepted by BinaryLogForRecording::init. */
  const MinSizeExp: nat := 16
  const MaxSizeExp: nat := 48

  function Pow2(n: nat): (r: nat)
    ensures r >= 1
  {
    if n == 0 then 1 else 2 * Pow2(n - 1)
  }

  lemma Pow2OfMinSizeExp()
    ensures Pow2(MinSizeExp) == 65536
  {
    assert Pow2(4) == 16;
    assert Pow2(8) == 256;
    assert Pow2(12) == 4096;
    assert Pow2(16) == 65536;
  }

  lemma {:induction false} Pow2Monotone(m: nat, n: nat)
    requires m <= n
    ensures Pow2(m) <= Pow2(n)
  {
    if m < n {
      Pow2Monotone(m, n - 1);
    }
  }

  /** A finished frame as the recorder laid it down. */
  datatype FrameRecord = FrameRecord(frameType: u32, payload: seq<u8>)

  /** What readNextFrame reports: the payload's offset, its size and the frame type. */
  datatype FrameData = FrameData(ptr: nat, size: nat, frameType: u32)

  /** u32 words stored one after the other, each in four little-endian bytes. */
  function WordBytes(ws: seq<u32>): (r: seq<u8>)
    ensures |r| == 4 * |ws|
  {
    if ws == [] then [] else EncodeU32(ws[0]) + WordBytes(ws[1..])
  }

  /** FrameHeader {type, size} as stored. */
  function FrameHeaderBytes(frameType: u32, size: u32): (r: seq<u8>)
    ensures |r| == FrameHeaderSize
  {
    WordBytes([frameType, size])
  }

  /** The header is the type's four bytes followed by the size's four bytes. */
  lemma FrameHeaderWords(frameType: u32, size: u32)
    ensures FrameHeaderBytes(frameType, size) == EncodeU32(frameType) + EncodeU32(size)
  {
    assert [frameType, size][1..] == [size];
    assert WordBytes([size]) == EncodeU32(size) + WordBytes([]);
  }

  /**
   * The bytes a finished frame occupies: its header, then its payload.  The
   * header's size field is a u32, so a payload of 2^32 bytes or more is
   * recorded with a truncated size.
   */
  function FrameBytes(f: FrameRecord): (r: seq<u8>)
    ensures |r| == FrameHeaderSize + |f.payload|
  {
    FrameHeaderBytes(f.frameType, TruncU32(|f.payload|)) + f.payload
  }

  /** Frames laid down one after the other. */
  function Layout(fs: seq<FrameRecord>): seq<u8>
  {
    if fs == [] then [] else FrameBytes(fs[0]) + Layout(fs[1..])
  }

  lemma {:induction false} LayoutAppend(fs: seq<FrameRecord>, f: FrameRecord)
    ensures Layout(fs + [f]) == Layout(fs) + FrameBytes(f)
  {
    if fs == [] {
      assert [f][1..] == [];
    } else {
      assert (fs + [f])[1..] == fs[1..] + [f];
      LayoutAppend(fs[1..], f);
    }
  }

  /** `s` with `d` written over it at `pos`; what a memcpy into the region does. */
  function Splice(s: seq<u8>, pos: nat, d: seq<u8>): (r: seq<u8>)
    requires pos + |d| <= |s|
    ensures |r| == |s|
  {
    s[..pos] + d + s[pos + |d|..]
  }

  /** The write changes exactly the bytes from pos on, to the bytes of d, and keeps every other byte. */
  lemma SpliceAt(s: seq<u8>, pos: nat, d: seq<u8>)
    requires pos + |d| <= |s|
    ensures forall i :: 0 <= i < |s| ==> Splice(s, pos, d)[i] == if pos <= i < pos + |d| then d[i - pos] else s[i]
  {
    var r := Splice(s, pos, d);
    forall i | 0 <= i < |s|
      ensures r[i] == if pos <= i < pos + |d| then d[i - pos] else s[i]
    {
      if i < pos {
        assert r[i] == s[..pos][i];
      } else if i < pos + |d| {
        assert r[i] == (s[..pos] + d)[i];
      } else {
        assert r[i] == s[pos + |d|..][i - pos - |d|];
      }
    }
  }

  lemma SpliceKeepsOutside(s: seq<u8>, pos: nat, d: seq<u8>, a: nat, b: nat)
    requires pos + |d| <= |s|
    requires a <= b <= |s|
    requires b <= pos || pos + |d| <= a
    ensures Splice(s, pos, d)[a..b] == s[a..b]
  {
    var r := Splice(s, pos, d);
    SpliceAt(s, pos, d);
    assert forall j :: 0 <= j < b - a ==> r[a..b][j] == s[a..b][j];
  }

  lemma SpliceExtends(s: seq<u8>, a: nat, pos: nat, d: seq<u8>, prefix: seq<u8>)
    requires a <= pos && pos + |d| <= |s|
    requires s[a..pos] == prefix
    ensures Splice(s, pos, d)[a..pos + |d|] == prefix + d
  {
    var r := Splice(s, pos, d);
    SpliceAt(s, pos, d);
    assert forall j :: 0 <= j < pos + |d| - a ==> r[a..pos + |d|][j] == (prefix + d)[j];
  }

  /** The written range reads back as the data written. */
  lemma SpliceReadBack(s: seq<u8>, pos: nat, d: seq<u8>)
    requires pos + |d| <= |s|
    ensures Splice(s, pos, d)[pos .. pos + |d|] == d
  {
    var r := Splice(s, pos, d);
    SpliceAt(s, pos, d);
    assert forall j :: 0 <= j < |d| ==> r[pos .. pos + |d|][j] == d[j];
  }

  /** Two writes side by side are one write of both. */
  lemma {:induction false} SpliceAdjacent(s: seq<u8>, pos: nat, a: seq<u8>, b: seq<u8>)
    requires pos + |a| + |b| <= |s|
    ensures Splice(Splice(s, pos, a), pos + |a|, b) == Splice(s, pos, a + b)
  {
    var l := Splice(Splice(s, pos, a), pos + |a|, b);
    var r := Splice(s, pos, a + b);
    SpliceAt(s, pos, a);
    SpliceAt(Splice(s, pos, a), pos + |a|, b);
    SpliceAt(s, pos, a + b);
    assert forall i :: 0 <= i < |s| ==> l[i] == r[i];
  }

  /** Writes to disjoint ranges can be made in either order. */
  lemma {:induction false} SpliceCommute(s: seq<u8>, p: nat, a: seq<u8>, q: nat, b: seq<u8>)
    requires p + |a| <= q && q + |b| <= |s|
    ensures Splice(Splice(s, q, b), p, a) == Splice(Splice(s, p, a), q, b)
  {
    var l := Splice(Splice(s, q, b), p, a);
    var r := Splice(Splice(s, p, a), q, b);
    SpliceAt(s, q, b);
    SpliceAt(Splice(s, q, b), p, a);
    SpliceAt(s, p, a);
    SpliceAt(Splice(s, p, a), q, b);
    assert forall i :: 0 <= i < |s| ==> l[i] == r[i];
  }

  /** A write over the front of an earlier write replaces that front. */
  lemma {:induction false} SpliceOverwriteFront(s: seq<u8>, pos: nat, a: seq<u8>, b: seq<u8>, a': seq<u8>)
    requires |a'| == |a| && pos + |a| + |b| <= |s|
    ensures Splice(Splice(s, pos, a + b), pos, a') == Splice(s, pos, a' + b)
  {
    var l := Splice(Splice(s, pos, a + b), pos, a');
    var r := Splice(s, pos, a' + b);
    SpliceAt(s, pos, a + b);
    SpliceAt(Splice(s, pos, a + b), pos, a');
    SpliceAt(s, pos, a' + b);
    assert forall i :: 0 <= i < |s| ==> l[i] == r[i];
  }

  /** A slice is the concatenation of its two halves. */
  lemma {:induction false} SliceConcat(s: seq<u8>, a: nat, b: nat, c: nat)
    requires a <= b <= c <= |s|
    ensures s[a .. c] == s[a .. b] + s[b .. c]
  {
  }

  // ---------------------------------------------------------------- recording

  /**
   * The room check that addFrame and startAddingFrame perform: the payload
   * must fit in what is left behind the write cursor.  The 8 bytes of the
   * frame header written in front of the payload are not counted.
   */
  predicate AddFrameGuardAsWritten(size: nat, writePos: nat, sz: nat)
  {
    size - writePos >= sz
  }

  /** The room check a frame needs: header and payload both fit. */
  predicate FrameFits(size: nat, writePos: nat, sz: nat)
  {
    writePos + FrameHeaderSize + sz <= size
  }

  /**
   * The check as written lets a frame through whose header and payload end
   * 8 bytes past the end of the region: with the smallest log (2^16 bytes)
   * and the cursor just after the log header, a payload filling the rest
   * passes it.
   */
  lemma AddFrameGuardAdmitsOverrun()
    ensures AddFrameGuardAsWritten(Pow2(MinSizeExp), LogHeaderSize, Pow2(MinSizeExp) - LogHeaderSize)
    ensures !FrameFits(Pow2(MinSizeExp), LogHeaderSize, Pow2(MinSizeExp) - LogHeaderSize)
    ensures LogHeaderSize + FrameHeaderSize + (Pow2(MinSizeExp) - LogHeaderSize) == Pow2(MinSizeExp) + 8
  {
    Pow2OfMinSizeExp();
  }

  /** Every frame that fits also passes the check as written. */
  lemma FrameFitsPassesGuard(size: nat, writePos: nat, sz: nat)
    requires FrameFits(size, writePos, sz)
    ensures AddFrameGuardAsWritten(size, writePos, sz)
  {
  }

  class BinaryLogForRecording {
    var mem: array<u8>
    var size: nat
    /** Offset of the header of the multi-part frame being assembled, if any. */
    var fh: Option<nat>
    var writePos: nat
    var currentFrameSize: nat
    var currentFrameType: u32
    /** The frames completed so far, in order. */
    ghost var frames: seq<FrameRecord>
    /** The payload of the multi-part frame being assembled. */
    ghost var pending: seq<u8>

    /** Where the next frame header goes: the multi-part frame's header, or the write cursor. */
    ghost function FrameStart(): nat
      reads this
    {
      if fh.Some? then fh.value else writePos
    }

    ghost predicate Valid()
      reads this, mem
    {
      && mem.Length == size
      && LogHeaderSize <= writePos <= size
      && currentFrameType == 0
      && |pending| == currentFrameSize
      && LogHeaderSize + |Layout(frames)| == FrameStart()
      && (fh.None? ==> currentFrameSize == 0)
      && (fh.Some? ==> fh.value + FrameHeaderSize + currentFrameSize == writePos
                       && mem[fh.value + FrameHeaderSize .. writePos] == pending)
      && mem[LogHeaderSize .. FrameStart()] == Layout(frames)
      && SizesFit(frames)
    }

    /** A log of 2^szExp bytes with the write cursor just after the log header. */
    constructor Init(szExp: nat)
      requires MinSizeExp <= szExp <= MaxSizeExp
      ensures Valid() && fresh(mem)
      ensures size == Pow2(szExp) && writePos == LogHeaderSize
      ensures fh == None && currentFrameSize == 0 && frames == []
    {
      Pow2Monotone(MinSizeExp, szExp);
      Pow2OfMinSizeExp();
      size := Pow2(szExp);
      mem := new u8[Pow2(szExp)];
      writePos := LogHeaderSize;
      fh := None;
      currentFrameSize := 0;
      currentFrameType := 0;
      frames := [];
      pending := [];
    }

    /** One u32 store through a FrameHeader pointer. */
    method StoreU32(pos: nat, v: u32)
      requires pos + 4 <= mem.Length
      modifies mem
      ensures mem[..] == Splice(old(mem[..]), pos, EncodeU32(v))
    {
      var b := EncodeU32(v);
      mem[pos] := b[0];
      mem[pos + 1] := b[1];
      mem[pos + 2] := b[2];
      mem[pos + 3] := b[3];
      SpliceAt(old(mem[..]), pos, b);
    }

    /** memcpy of a payload into the region. */
    method CopyIn(pos: nat, data: seq<u8>)
      requires pos + |data| <= mem.Length
      modifies mem
      ensures mem[..] == Splice(old(mem[..]), pos, data)
    {
      var i := 0;
      while i < |data|
        invariant 0 <= i <= |data|
        invariant mem[..] == Splice(old(mem[..]), pos, data[..i])
      {
        SpliceAt(old(mem[..]), pos, data[..i]);
        SpliceAt(old(mem[..]), pos, data[..i + 1]);
        mem[pos + i] := data[i];
        i := i + 1;
      }
      assert data[..i] == data;
    }

    /** Four stores in the order addFrame makes them leave exactly the frame's bytes. */
    static lemma {:induction false} AddFrameStores(m0: seq<u8>, h: nat, t: u32, data: seq<u8>)
      requires h + FrameHeaderSize + |data| <= |m0| && |data| < TwoTo32
      ensures Splice(Splice(Splice(Splice(m0, h, EncodeU32(0)), h + 8, data), h + 4, EncodeU32(|data| as u32)), h, EncodeU32(t))
              == Splice(m0, h, FrameBytes(FrameRecord(t, data)))
    {
      var e0, ez, et := EncodeU32(0), EncodeU32(|data| as u32), EncodeU32(t);
      var m1 := Splice(m0, h, e0);
      SpliceCommute(m1, h + 4, ez, h + 8, data);
      SpliceAdjacent(m0, h, e0, ez);
      SpliceAdjacent(m0, h, e0 + ez, data);
      SpliceOverwriteFront(m0, h, e0, ez + data, et);
      assert e0 + ez + data == e0 + (ez + data);
      FrameHeaderWords(t, |data| as u32);
      assert FrameBytes(FrameRecord(t, data)) == et + (ez + data);
    }

    /** The stores addFrame makes at h: a zero type, the payload, the size, then the type. */
    method WriteFrame(h: nat, frameType: u32, data: seq<u8>)
      requires h + FrameHeaderSize + |data| <= mem.Length && |data| < TwoTo32
      modifies mem
      ensures mem[..] == Splice(old(mem[..]), h, FrameBytes(FrameRecord(frameType, data)))
    {
      ghost var m0 := mem[..];
      StoreU32(h, 0);
      CopyIn(h + FrameHeaderSize, data);
      StoreU32(h + 4, |data| as u32);
      StoreU32(h, frameType);
      AddFrameStores(m0, h, frameType, data);
    }

    /** addFrame: one whole frame behind the write cursor. */
    method AddFrame(frameType: u32, data: seq<u8>)
      requires Valid()
      requires frameType != 0
      requires |data| < TwoTo32
      requires FrameFits(size, writePos, |data|)
      requires currentFrameSize == 0 && currentFrameType == 0 && fh == None
      modifies this, mem
      ensures Valid() && mem == old(mem) && size == old(size)
      ensures mem[..] == Splice(old(mem[..]), old(writePos), FrameBytes(FrameRecord(frameType, data)))
      ensures writePos == old(writePos) + FrameHeaderSize + |data|
      ensures frames == old(frames) + [FrameRecord(frameType, data)]
      ensures fh == None && currentFrameSize == 0 && currentFrameType == 0
    {
      ghost var m0 := mem[..];
      var h := writePos;
      WriteFrame(h, frameType, data);
      var f := FrameRecord(frameType, data);
      ghost var layout := Layout(frames + [f]);
      assert mem[LogHeaderSize .. h + FrameHeaderSize + |data|] == layout by {
        LayoutAppend(frames, f);
        SpliceExtends(m0, LogHeaderSize, h, FrameBytes(f), Layout(frames));
      }
      writePos := h + FrameHeaderSize + |data|;
      frames := frames + [f];
    }

    /** startAddingFrame: the first piece of a multi-part frame; the header's type is zeroed and its size left alone. */
    method StartAddingFrame(frameType: u32, data: seq<u8>)
      requires Valid()
      requires frameType != 0
      requires |data| < TwoTo32
      requires FrameFits(size, writePos, |data|)
      requires currentFrameSize == 0 && currentFrameType == 0 && fh == None
      modifies this, mem
      ensures Valid() && mem == old(mem) && size == old(size)
      ensures mem[..] == Splice(Splice(old(mem[..]), old(writePos), EncodeU32(0)), old(writePos) + FrameHeaderSize, data)
      ensures fh == Some(old(writePos))
      ensures writePos == old(writePos) + FrameHeaderSize + |data|
      ensures currentFrameSize == |data| && currentFrameType == 0
      ensures frames == old(frames) && pending == data
    {
      ghost var m0 := mem[..];
      var h := writePos;
      StoreU32(h, 0);
      ghost var m1 := mem[..];
      CopyIn(h + FrameHeaderSize, data);
      SpliceKeepsOutside(m0, h, EncodeU32(0), LogHeaderSize, h);
      SpliceKeepsOutside(m1, h + FrameHeaderSize, data, LogHeaderSize, h);
      SpliceReadBack(m1, h + FrameHeaderSize, data);
      fh := Some(h);
      writePos := h + FrameHeaderSize + |data|;
      currentFrameSize := |data|;
      pending := data;
    }

    /** continueAddingFrame: a further piece of the multi-part frame, right behind the previous one. */
    method ContinueAddingFrame(data: seq<u8>)
      requires Valid()
      requires |data| < TwoTo32
      requires size - writePos >= |data|
      requires currentFrameSize != 0 && fh != None
      modifies this, mem
      ensures Valid() && mem == old(mem) && size == old(size)
      ensures mem[..] == Splice(old(mem[..]), old(writePos), data)
      ensures fh == old(fh) && writePos == old(writePos) + |data|
      ensures currentFrameSize == old(currentFrameSize) + |data|
      ensures frames == old(frames) && pending == old(pending) + data
    {
      ghost var m0 := mem[..];
      CopyIn(writePos, data);
      SpliceKeepsOutside(m0, writePos, data, LogHeaderSize, fh.value);
      SpliceExtends(m0, fh.value + FrameHeaderSize, writePos, data, pending);
      writePos := writePos + |data|;
      currentFrameSize := currentFrameSize + |data|;
      pending := pending + data;
    }

    /** The two stores of a frame header at h: the type, then the size. */
    method WriteHeader(h: nat, frameType: u32, sz: u32)
      requires h + FrameHeaderSize <= mem.Length
      modifies mem
      ensures mem[..] == Splice(old(mem[..]), h, FrameHeaderBytes(frameType, sz))
    {
      StoreU32(h, frameType);
      StoreU32(h + 4, sz);
      SpliceAdjacent(old(mem[..]), h, EncodeU32(frameType), EncodeU32(sz));
      FrameHeaderWords(frameType, sz);
    }

    /** A header written in front of a payload already in place completes the frame behind the frames before it. */
    static lemma {:induction false} FrameDoneStores(m0: seq<u8>, h: nat, payload: seq<u8>, prefix: seq<u8>)
      requires LogHeaderSize <= h && h + FrameHeaderSize + |payload| <= |m0|
      requires m0[h + FrameHeaderSize .. h + FrameHeaderSize + |payload|] == payload
      requires m0[LogHeaderSize .. h] == prefix
      ensures var m2 := Splice(m0, h, FrameHeaderBytes(0, TruncU32(|payload|)));
              && m2[LogHeaderSize .. h + FrameHeaderSize + |payload|] == prefix + FrameBytes(FrameRecord(0, payload))
              && m2[h + FrameHeaderSize .. h + FrameHeaderSize + |payload|] == payload
    {
      var hb := FrameHeaderBytes(0, TruncU32(|payload|));
      var m2 := Splice(m0, h, hb);
      var end := h + FrameHeaderSize + |payload|;
      SpliceExtends(m0, LogHeaderSize, h, hb, prefix);
      SpliceKeepsOutside(m0, h, hb, h + FrameHeaderSize, end);
      SliceConcat(m2, LogHeaderSize, h + FrameHeaderSize, end);
      assert FrameBytes(FrameRecord(0, payload)) == hb + payload;
    }

    /**
     * addingFrameDone: completes the multi-part frame's header.  Its type is
     * currentFrameType, which nothing ever sets, so the frame is recorded
     * with type 0; its size is the summed length truncated to a u32.
     */
    method AddingFrameDone()
      requires Valid()
      requires currentFrameSize != 0 && fh != None
      modifies this, mem
      ensures Valid() && mem == old(mem) && size == old(size)
      ensures mem[..] == Splice(old(mem[..]), old(fh).value,
                                FrameHeaderBytes(0, TruncU32(old(currentFrameSize))))
      ensures frames == old(frames) + [FrameRecord(0, old(pending))]
      ensures fh == None && currentFrameSize == 0 && writePos == old(writePos)
    {
      ghost var m0 := mem[..];
      var h := fh.value;
      WriteHeader(h, currentFrameType, TruncU32(currentFrameSize));
      var f := FrameRecord(0, pending);
      FrameDoneStores(m0, h, pending, Layout(frames));
      LayoutAppend(frames, f);
      frames := frames + [f];
      pending := [];
      fh := None;
      currentFrameSize := 0;
    }
  }

  // ---------------------------------------------------------------- replaying

  /**
   * The frame a reader finds at `pos` when every frame must end at or before
   * `limit`: the header fits, its type is not 0, and header plus payload fit.
   * With `limit` the size of the log this is the reader the recorder needs
   * (a frame may fill the log to its last byte).
   */
  function ReadFrameWithin(m: seq<u8>, limit: nat, pos: nat): (r: Option<FrameData>)
    requires limit <= |m|
    ensures r.Some? ==> r.value.ptr == pos + FrameHeaderSize && r.value.ptr + r.value.size <= limit
    ensures r.Some? ==> r.value.frameType != 0 && r.value.size < TwoTo32
  {
    if pos + FrameHeaderSize <= limit then
      var t := LittleEndian(m[pos .. pos + 4]);
      var sz := LittleEndian(m[pos + 4 .. pos + 8]);
      Pow256Of4();
      if t != 0 && pos + FrameHeaderSize + sz <= limit then
        Some(FrameData(pos + FrameHeaderSize, sz, t as u32))
      else None
    else None
  }

  /** A frame that is read has the type and size its header's bytes encode. */
  lemma ReadFrameHeader(m: seq<u8>, limit: nat, pos: nat)
    requires limit <= |m| && ReadFrameWithin(m, limit, pos).Some?
    ensures var d := ReadFrameWithin(m, limit, pos).value;
            m[pos .. pos + FrameHeaderSize] == FrameHeaderBytes(d.frameType, d.size as u32)
  {
    var d := ReadFrameWithin(m, limit, pos).value;
    EncodeOfDecode(m[pos .. pos + 4]);
    EncodeOfDecode(m[pos + 4 .. pos + 8]);
    SliceConcat(m, pos, pos + 4, pos + 8);
    FrameHeaderWords(d.frameType, d.size as u32);
  }

  /**
   * What readNextFrame as written finds at `pos` in a log of `size` bytes:
   * the header and the payload must both end strictly before `size`, that
   * is at or before size - 1.  A frame ending exactly at the end of the log
   * is refused (see FrameEndingAtEndNotRead).
   */
  function ReadFrameAt(m: seq<u8>, size: nat, pos: nat): (r: Option<FrameData>)
    requires size <= |m|
    ensures r.Some? ==> r.value.ptr == pos + FrameHeaderSize && r.value.ptr + r.value.size < size
    ensures r.Some? ==> r.value.frameType != 0 && r.value.size < TwoTo32
  {
    if size == 0 then None else ReadFrameWithin(m, size - 1, pos)
  }

  /**
   * Every frame a reader bounded by `limit` yields when called repeatedly
   * from `pos`, until it finds none.  readNextFrame as written is the reader
   * bounded by size - 1.
   */
  function Replay(m: seq<u8>, limit: nat, pos: nat): (r: seq<FrameData>)
    requires limit <= |m|
    decreases limit - pos
    ensures forall i :: 0 <= i < |r| ==> r[i].frameType != 0 && r[i].ptr + r[i].size <= limit
    ensures r != [] ==> r[0].ptr == pos + FrameHeaderSize
    ensures forall i, j :: 0 <= i < j < |r| && j == i + 1 ==> r[j].ptr == r[i].ptr + r[i].size + FrameHeaderSize
  {
    match ReadFrameWithin(m, limit, pos)
    case None => []
    case Some(d) =>
      var rest := Replay(m, limit, d.ptr + d.size);
      assert forall i :: 1 <= i < |rest| + 1 ==> ([d] + rest)[i] == rest[i - 1];
      [d] + rest
  }

  /** One step of Replay: the frame read at pos, then the replay from just past it. */
  lemma ReplayStep(m: seq<u8>, limit: nat, pos: nat, d: FrameData)
    requires limit <= |m| && ReadFrameWithin(m, limit, pos) == Some(d)
    ensures Replay(m, limit, pos) == [d] + Replay(m, limit, d.ptr + d.size)
  {
  }

  /**
   * Replay as written is readNextFrame called until it returns false: each
   * frame read is followed by the replay from just past it.
   */
  lemma RepeatedReads(m: seq<u8>, size: nat, pos: nat)
    requires 0 < size <= |m|
    ensures ReadFrameAt(m, size, pos).None? ==> Replay(m, size - 1, pos) == []
    ensures ReadFrameAt(m, size, pos).Some? ==>
              var d := ReadFrameAt(m, size, pos).value;
              Replay(m, size - 1, pos) == [d] + Replay(m, size - 1, d.ptr + d.size)
  {
    match ReadFrameWithin(m, size - 1, pos)
    case None => ReplayEnd(m, size - 1, pos);
    case Some(d) => ReplayStep(m, size - 1, pos, d);
  }

  /** Replay stops where no frame is read. */
  lemma ReplayEnd(m: seq<u8>, limit: nat, pos: nat)
    requires limit <= |m| && ReadFrameWithin(m, limit, pos) == None
    ensures Replay(m, limit, pos) == []
  {
  }

  /** The frame a FrameData points at. */
  function Decoded(m: seq<u8>, d: FrameData): FrameRecord
    requires d.ptr + d.size <= |m|
  {
    FrameRecord(d.frameType, m[d.ptr .. d.ptr + d.size])
  }

  /** How many frames of `fs` come before the first one of type 0. */
  function ReadableCount(fs: seq<FrameRecord>): (k: nat)
    ensures k <= |fs|
    ensures forall i :: 0 <= i < k ==> fs[i].frameType != 0
    ensures k < |fs| ==> fs[k].frameType == 0
  {
    if fs == [] || fs[0].frameType == 0 then 0 else 1 + ReadableCount(fs[1..])
  }

  /** A slice of a slice is a slice of the whole. */
  lemma SliceOfSlice(m: seq<u8>, pos: nat, n: nat, a: nat, b: nat)
    requires pos + n <= |m| && a <= b <= n
    ensures m[pos .. pos + n][a .. b] == m[pos + a .. pos + b]
  {
    var s := m[pos .. pos + n][a .. b];
    assert forall j :: 0 <= j < b - a ==> s[j] == m[pos + a + j];
  }

  /** The three parts of a frame's bytes: type, size, payload. */
  lemma FrameBytesParts(f: FrameRecord)
    ensures FrameBytes(f)[..4] == EncodeU32(f.frameType)
    ensures FrameBytes(f)[4 .. 8] == EncodeU32(TruncU32(|f.payload|))
    ensures FrameBytes(f)[FrameHeaderSize ..] == f.payload
  {
    var t := EncodeU32(f.frameType);
    var z := EncodeU32(TruncU32(|f.payload|));
    FrameHeaderWords(f.frameType, TruncU32(|f.payload|));
    assert FrameBytes(f) == t + z + f.payload;
  }

  /** ReadFrameWithin once the two header words are known. */
  lemma ReadFrameAtWords(m: seq<u8>, limit: nat, pos: nat, t: u32, sz: nat)
    requires limit <= |m| && pos + FrameHeaderSize <= limit
    requires LittleEndian(m[pos .. pos + 4]) == t as nat
    requires LittleEndian(m[pos + 4 .. pos + 8]) == sz
    ensures ReadFrameWithin(m, limit, pos) ==
              if t != 0 && pos + FrameHeaderSize + sz <= limit then Some(FrameData(pos + FrameHeaderSize, sz, t)) else None
  {
  }

  /** Every frame that a reader can return, one of non-zero type, has a size the u32 header field holds. */
  ghost predicate SizesFit(fs: seq<FrameRecord>)
  {
    forall i :: 0 <= i < |fs| ==> fs[i].frameType != 0 ==> |fs[i].payload| < TwoTo32
  }

  /**
   * The frames read back, r, are the frames fs up to the first one of type 0:
   * at least that many are read, exactly that many when such a frame exists,
   * and each one read points at the bytes of the frame laid down.
   */
  ghost predicate ReplayYields(m: seq<u8>, r: seq<FrameData>, fs: seq<FrameRecord>)
  {
    && |r| >= ReadableCount(fs)
    && (ReadableCount(fs) < |fs| ==> |r| == ReadableCount(fs))
    && forall i :: 0 <= i < ReadableCount(fs) ==> r[i].ptr + r[i].size <= |m| && Decoded(m, r[i]) == fs[i]
  }

  /** A frame laid down at `pos` is read back from `pos` unless its type is 0, which stops the reader. */
  lemma {:induction false} ReadBackFrame(m: seq<u8>, limit: nat, pos: nat, f: FrameRecord)
    requires limit <= |m|
    requires pos + |FrameBytes(f)| <= limit
    requires m[pos .. pos + |FrameBytes(f)|] == FrameBytes(f)
    requires f.frameType != 0 ==> |f.payload| < TwoTo32
    ensures f.frameType == 0 ==> ReadFrameWithin(m, limit, pos) == None
    ensures f.frameType != 0 ==> ReadFrameWithin(m, limit, pos) == Some(FrameData(pos + FrameHeaderSize, |f.payload|, f.frameType))
    ensures m[pos + FrameHeaderSize .. pos + FrameHeaderSize + |f.payload|] == f.payload
  {
    var n := |FrameBytes(f)|;
    FrameBytesParts(f);
    SliceOfSlice(m, pos, n, 0, 4);
    SliceOfSlice(m, pos, n, 4, 8);
    SliceOfSlice(m, pos, n, FrameHeaderSize, n);
    ReadFrameAtWords(m, limit, pos, f.frameType, TruncU32(|f.payload|) as nat);
  }

  /**
   * The round trip of one addFrame: a frame written at offset o is read at o
   * with the same type, size and payload by a reader whose bound it fits.
   */
  lemma {:induction false} AddFrameRoundTrip(m: seq<u8>, limit: nat, o: nat, frameType: u32, data: seq<u8>)
    requires limit <= |m|
    requires frameType != 0 && |data| < TwoTo32
    requires o + FrameHeaderSize + |data| <= limit
    ensures var m' := Splice(m, o, FrameBytes(FrameRecord(frameType, data)));
            && ReadFrameWithin(m', limit, o) == Some(FrameData(o + FrameHeaderSize, |data|, frameType))
            && Decoded(m', FrameData(o + FrameHeaderSize, |data|, frameType)) == FrameRecord(frameType, data)
  {
    var f := FrameRecord(frameType, data);
    var m' := Splice(m, o, FrameBytes(f));
    SpliceReadBack(m, o, FrameBytes(f));
    ReadBackFrame(m', limit, o, f);
  }

  /**
   * readNextFrame as written refuses a frame that ends exactly at the end of
   * the log, although addFrame writes such a frame and a reader bounded by
   * the log's size reads it back.
   */
  lemma {:induction false} FrameEndingAtEndNotRead(m: seq<u8>, o: nat, frameType: u32, data: seq<u8>)
    requires frameType != 0 && |data| < TwoTo32
    requires o + FrameHeaderSize + |data| == |m|
    ensures var m' := Splice(m, o, FrameBytes(FrameRecord(frameType, data)));
            && ReadFrameAt(m', |m|, o) == None
            && ReadFrameWithin(m', |m|, o) == Some(FrameData(o + FrameHeaderSize, |data|, frameType))
  {
    var f := FrameRecord(frameType, data);
    var m' := Splice(m, o, FrameBytes(f));
    AddFrameRoundTrip(m, |m|, o, frameType, data);
    if o + FrameHeaderSize <= |m| - 1 {
      SpliceReadBack(m, o, FrameBytes(f));
      FrameBytesParts(f);
      SliceOfSlice(m', o, |FrameBytes(f)|, 0, 4);
      SliceOfSlice(m', o, |FrameBytes(f)|, 4, 8);
      ReadFrameAtWords(m', |m| - 1, o, frameType, |data|);
    }
  }

  /**
   * The round trip of a whole log: replaying frames laid down one after the
   * other yields them in order, up to the first frame of type 0 (a multi-part
   * frame), where the replay stops.
   */
  lemma {:induction false} ReplayReadsLayout(m: seq<u8>, limit: nat, pos: nat, fs: seq<FrameRecord>)
    requires limit <= |m|
    requires pos + |Layout(fs)| <= limit
    requires m[pos .. pos + |Layout(fs)|] == Layout(fs)
    requires SizesFit(fs)
    decreases |fs|
    ensures ReplayYields(m, Replay(m, limit, pos), fs)
  {
    if fs != [] {
      var f := fs[0];
      var next := pos + |FrameBytes(f)|;
      LayoutSplit(m, pos, fs);
      assert f.frameType != 0 ==> |f.payload| < TwoTo32;
      ReadBackFrame(m, limit, pos, f);
      if f.frameType != 0 {
        assert SizesFit(fs[1..]) by {
          forall i | 0 <= i < |fs[1..]| ensures fs[1..][i].frameType != 0 ==> |fs[1..][i].payload| < TwoTo32 {
            assert fs[1..][i] == fs[i + 1];
          }
        }
        ReplayReadsLayout(m, limit, next, fs[1..]);
        ReplayCons(m, limit, pos, next, FrameData(pos + FrameHeaderSize, |f.payload|, f.frameType), fs);
      }
    }
  }

  /** A laid-down sequence of frames is its first frame followed by the rest. */
  lemma {:induction false} LayoutSplit(m: seq<u8>, pos: nat, fs: seq<FrameRecord>)
    requires fs != [] && pos + |Layout(fs)| <= |m|
    requires m[pos .. pos + |Layout(fs)|] == Layout(fs)
    ensures |Layout(fs)| == |FrameBytes(fs[0])| + |Layout(fs[1..])|
    ensures m[pos .. pos + |FrameBytes(fs[0])|] == FrameBytes(fs[0])
    ensures m[pos + |FrameBytes(fs[0])| .. pos + |Layout(fs)|] == Layout(fs[1..])
  {
    var a := FrameBytes(fs[0]);
    var b := Layout(fs[1..]);
    assert Layout(fs) == a + b;
    assert m[pos .. pos + |a| + |b|] == a + b;
    SplitSlice(m, pos, a, b);
  }

  /** A slice holding a + b holds a and then b. */
  lemma SplitSlice(m: seq<u8>, pos: nat, a: seq<u8>, b: seq<u8>)
    requires pos + |a| + |b| <= |m|
    requires m[pos .. pos + |a| + |b|] == a + b
    ensures m[pos .. pos + |a|] == a
    ensures m[pos + |a| .. pos + |a| + |b|] == b
  {
    SliceOfSlice(m, pos, |a| + |b|, 0, |a|);
    SliceOfSlice(m, pos, |a| + |b|, |a|, |a| + |b|);
  }

  /** One replay step: a readable first frame followed by what the rest of the log replays to. */
  lemma {:induction false} ReplayCons(m: seq<u8>, limit: nat, pos: nat, next: nat, d: FrameData, fs: seq<FrameRecord>)
    requires limit <= |m| && fs != [] && fs[0].frameType != 0
    requires ReadFrameWithin(m, limit, pos) == Some(d) && d.ptr + d.size == next
    requires next <= |m| && Decoded(m, d) == fs[0]
    requires ReplayYields(m, Replay(m, limit, next), fs[1..])
    ensures ReplayYields(m, Replay(m, limit, pos), fs)
  {
    var rest := Replay(m, limit, next);
    var r := Replay(m, limit, pos);
    assert r == [d] + rest;
    assert ReadableCount(fs) == 1 + ReadableCount(fs[1..]);
    forall i | 0 <= i < ReadableCount(fs)
      ensures r[i].ptr + r[i].size <= |m| && Decoded(m, r[i]) == fs[i]
    {
      if i > 0 {
        assert r[i] == rest[i - 1] && fs[i] == fs[1..][i - 1];
      }
    }
  }

  /**
   * What the recorder has laid down is what a reader bounded by the log's
   * size reads: replaying from just after the log header yields the recorded
   * frames in order, up to the first multi-part frame.
   */
  lemma RecordedLogReplays(log: BinaryLogForRecording)
    requires log.Valid() && log.fh == None
    ensures ReplayYields(log.mem[..], Replay(log.mem[..], log.size, LogHeaderSize), log.frames)
  {
    ReplayReadsLayout(log.mem[..], log.size, LogHeaderSize, log.frames);
  }

  /**
   * The same for readNextFrame as written (the reader bounded by size - 1):
   * it holds while the recorded frames end before the log's last byte.
   */
  lemma RecordedLogReplaysAsWritten(log: BinaryLogForRecording)
    requires log.Valid() && log.fh == None
    requires log.writePos < log.size
    ensures ReplayYields(log.mem[..], Replay(log.mem[..], log.size - 1, LogHeaderSize), log.frames)
  {
    ReplayReadsLayout(log.mem[..], log.size - 1, LogHeaderSize, log.frames);
  }

  class BinaryLogForReplaying {
    var mem: array<u8>
    var size: nat
    /** The read cursor: offset of the next frame header. */
    var fh: nat

    ghost predicate Valid()
      reads this
    {
      0 < size <= mem.Length
    }

    /** init: the caller's region of sz bytes, with the cursor just after the log header. */
    constructor Init(buff: array<u8>, sz: nat)
      requires sz > 0
      requires LogHeaderSizeField + 8 <= sz <= buff.Length
      requires LittleEndian(buff[LogHeaderSizeField .. LogHeaderSizeField + 8]) <= sz
      ensures Valid() && mem == buff && size == sz && fh == LogHeaderSize
    {
      mem := buff;
      size := sz;
      fh := LogHeaderSize;
    }

    /** readNextFrame: reports the frame under the cursor and moves past it, or returns false and stays. */
    method ReadNextFrame(fd: FrameData) returns (ok: bool, fd': FrameData)
      requires Valid()
      modifies this`fh
      ensures ok == ReadFrameAt(mem[..], size, old(fh)).Some?
      ensures ok ==> fd' == ReadFrameAt(mem[..], size, old(fh)).value && fh == fd'.ptr + fd'.size
      ensures !ok ==> fd' == fd && fh == old(fh)
    {
      ok := false;
      fd' := fd;
      if fh + FrameHeaderSize < size {
        var t := LittleEndian(mem[fh .. fh + 4]);
        var sz := LittleEndian(mem[fh + 4 .. fh + 8]);
        Pow256Of4();
        ReadFrameAtWords(mem[..], size - 1, fh, t as u32, sz);
        if t != 0 && fh + FrameHeaderSize + sz < size {
          fd' := FrameData(fh + FrameHeaderSize, sz, t as u32);
          fh := fh + FrameHeaderSize + sz;
          ok := true;
        }
      }
    }
  }
}
