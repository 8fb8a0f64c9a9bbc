/** Decoding a whole PNG file: the chunk walk, the inflated stream, the rows
    and the palette. Inflation is a parameter. */
module PngFile {
  import opened Wrappers
  import opened PngRows

  type Bytes = seq<Byte>

  /** The slice `s[lo..hi]` that stops at the end of `s` instead of failing. */
  function Slice(s: Bytes, lo: nat, hi: nat): Bytes
    requires lo <= hi
  {
    s[if lo < |s| then lo else |s|..if hi < |s| then hi else |s|]
  }

  const SIGNATURE: Bytes := [0x89, 0x50, 0x4E, 0x47, 0x0D, 0x0A, 0x1A, 0x0A]
  const IHDR: Bytes := [0x49, 0x48, 0x44, 0x52]
  const IDAT: Bytes := [0x49, 0x44, 0x41, 0x54]
  const PLTE: Bytes := [0x50, 0x4C, 0x54, 0x45]
  const IEND: Bytes := [0x49, 0x45, 0x4E, 0x44]

  function FromBigEndian(b: Bytes): nat
    requires |b| == 4
  {
    var b0: int, b1: int, b2: int, b3: int := b[0], b[1], b[2], b[3];
    ((b0 * 256 + b1) * 256 + b2) * 256 + b3
  }

  function BigEndian(n: nat): (b: Bytes)
    requires n < 0x1_0000_0000
    ensures |b| == 4
  {
    [n / 0x100_0000, n / 0x1_0000 % 256, n / 0x100 % 256, n % 256]
  }

  lemma BigEndianRoundTrip(n: nat)
    requires n < 0x1_0000_0000
    ensures FromBigEndian(BigEndian(n)) == n
  {
    var h, m, l := n / 0x100, n / 0x1_0000, n / 0x100_0000;
    assert h == m * 256 + h % 256;
    assert m == l * 256 + m % 256;
  }

  // ---- The chunk walk -------------------------------------------------------

  datatype Scan = Scan(header: Option<Bytes>, idat: Bytes, palette: Option<Bytes>)

  function Absorb(s: Scan, kind: Bytes, body: Bytes): Result<Scan, PngError> {
    if kind == IHDR then
      if |body| != 13 then Failure(BadStruct) else Success(s.(header := Some(body)))
    else if kind == IDAT then Success(s.(idat := s.idat + body))
    else if kind == PLTE then Success(s.(palette := Some(body)))
    else Success(s)
  }

  datatype Step = Stop(result: Result<Scan, PngError>) | Next(offset: nat, scan: Scan)

  /** What one turn of the walk does with the chunk at `offset`. */
  function ScanStep(data: Bytes, offset: nat, s: Scan): (step: Step)
    ensures step.Next? ==> offset < step.offset && offset < |data|
  {
    var field := Slice(data, offset, offset + 4);
    if offset >= |data| then Stop(Success(s))
    else if |field| != 4 then Stop(Failure(BadStruct))
    else
      var length := FromBigEndian(field);
      var kind := Slice(data, offset + 4, offset + 8);
      if kind == IEND then Stop(Success(s))
      else
        match Absorb(s, kind, Slice(data, offset + 8, offset + 8 + length))
        case Failure(e) => Stop(Failure(e))
        case Success(next) => Next(offset + 12 + length, next)
  }

  function ScanFrom(data: Bytes, offset: nat, s: Scan): Result<Scan, PngError>
    decreases |data| - offset
  {
    match ScanStep(data, offset, s)
    case Stop(result) => result
    case Next(offset', s') => ScanFrom(data, offset', s')
  }

  /** The loop body, on the walk's own variables. */
  method ScanOne(data: Bytes, offset: nat, s: Scan) returns (r: Result<(nat, Scan, bool), PngError>)
    requires offset < |data|
    ensures match ScanStep(data, offset, s)
            case Stop(Failure(e)) => r == Failure(e)
            case Stop(Success(s')) => r.Success? && r.value.1 == s' && r.value.2
            case Next(offset', s') => r == Success((offset', s', false))
  {
    var field := Slice(data, offset, offset + 4);
    if |field| != 4 {
      return Failure(BadStruct);
    }
    var length := FromBigEndian(field);
    var kind := Slice(data, offset + 4, offset + 8);
    var body := Slice(data, offset + 8, offset + 8 + length);
    var header, idat, palette := s.header, s.idat, s.palette;
    if kind == IHDR {
      if |body| != 13 {
        return Failure(BadStruct);
      }
      header := Some(body);
    } else if kind == IDAT {
      idat := idat + body;
    } else if kind == PLTE {
      palette := Some(body);
    }
    return Success((offset + 12 + length, Scan(header, idat, palette), kind == IEND));
  }

  method ScanChunks(data: Bytes) returns (r: Result<Scan, PngError>)
    ensures r == ScanFrom(data, 8, Scan(None, [], None))
  {
    var offset, s, ended := 8, Scan(None, [], None), false;
    while offset < |data| && !ended
      invariant ScanFrom(data, 8, Scan(None, [], None)) == if ended then Success(s) else ScanFrom(data, offset, s)
      decreases if ended then 0 else 1, |data| - offset
    {
      var step := ScanOne(data, offset, s);
      if step.Failure? {
        return Failure(step.error);
      }
      offset, s, ended := step.value.0, step.value.1, step.value.2;
    }
    r := Success(s);
  }

  /** A chunk as section 3.2 of RFC 2083 lays it out. */
  datatype Chunk = Chunk(kind: Bytes, body: Bytes, crc: Bytes) {
    ghost predicate WellFormed() {
      |kind| == 4 && |crc| == 4 && |body| < 0x1_0000_0000
    }
  }

  function EncodeChunk(c: Chunk): Bytes
    requires c.WellFormed()
  {
    BigEndian(|c.body|) + c.kind + c.body + c.crc
  }

  function EncodeChunks(cs: seq<Chunk>): Bytes
    requires forall c :: c in cs ==> c.WellFormed()
  {
    if cs == [] then [] else EncodeChunk(cs[0]) + EncodeChunks(cs[1..])
  }

  function AbsorbAll(s: Scan, cs: seq<Chunk>): Result<Scan, PngError>
    decreases |cs|
  {
    if cs == [] then Success(s)
    else
      var next :- Absorb(s, cs[0].kind, cs[0].body);
      AbsorbAll(next, cs[1..])
  }

  lemma ScanReadsChunk(pre: Bytes, c: Chunk, rest: Bytes, s: Scan)
    requires c.WellFormed()
    ensures ScanStep(pre + EncodeChunk(c) + rest, |pre|, s) ==
            if c.kind == IEND then Stop(Success(s))
            else
              match Absorb(s, c.kind, c.body)
              case Failure(e) => Stop(Failure(e))
              case Success(next) => Next(|pre + EncodeChunk(c)|, next)
  {
    BigEndianRoundTrip(|c.body|);
    ChunkLayout(pre, c, rest);
  }

  lemma ChunkLayout(pre: Bytes, c: Chunk, rest: Bytes)
    requires c.WellFormed()
    ensures var data, n := pre + EncodeChunk(c) + rest, |pre|;
            && |data| >= n + 12 + |c.body| == |pre + EncodeChunk(c)|
            && Slice(data, n, n + 4) == BigEndian(|c.body|)
            && Slice(data, n + 4, n + 8) == c.kind
            && Slice(data, n + 8, n + 8 + |c.body|) == c.body
  {
    hide BigEndian, Slice;
    FieldsInPlace(pre, BigEndian(|c.body|), c.kind, c.body, c.crc, rest);
  }

  /** Four fields in a row, each found where the ones before it end. */
  lemma FieldsInPlace(pre: Bytes, size: Bytes, kind: Bytes, body: Bytes, crc: Bytes, rest: Bytes)
    ensures var data, n := pre + (size + kind + body + crc) + rest, |pre|;
            && Slice(data, n, n + |size|) == size
            && Slice(data, n + |size|, n + |size| + |kind|) == kind
            && Slice(data, n + |size| + |kind|, n + |size| + |kind| + |body|) == body
  {
    hide Slice;
    var data := pre + (size + kind + body + crc) + rest;
    assert data == pre + size + (kind + body + crc + rest);
    SliceOfMiddle(pre, size, kind + body + crc + rest);
    assert data == (pre + size) + kind + (body + crc + rest);
    SliceOfMiddle(pre + size, kind, body + crc + rest);
    assert data == (pre + size + kind) + body + (crc + rest);
    SliceOfMiddle(pre + size + kind, body, crc + rest);
  }

  lemma SliceOfMiddle(a: Bytes, b: Bytes, c: Bytes)
    ensures Slice(a + b + c, |a|, |a| + |b|) == b
  {
  }

  /** Walking an encoded file absorbs its chunks in order up to IEND, whatever
      follows it. */
  lemma {:induction false} ScanReadsEveryChunk(pre: Bytes, cs: seq<Chunk>, end: Chunk, rest: Bytes, s: Scan)
    requires forall c :: c in cs ==> c.WellFormed() && c.kind != IEND
    requires end.WellFormed() && end.kind == IEND
    ensures ScanFrom(pre + EncodeChunks(cs) + EncodeChunk(end) + rest, |pre|, s) == AbsorbAll(s, cs)
    decreases |cs|
  {
    hide *;
    EncodeChunksUnfolds(cs);
    ScanFromUnfolds(pre + EncodeChunks(cs) + EncodeChunk(end) + rest, |pre|, s);
    AbsorbAllUnfolds(s, cs);
    if cs == [] {
      Regrouped(pre, [], EncodeChunk(end), rest, []);
      ScanReadsChunk(pre, end, rest, s);
    } else {
      assert cs[0] in cs;
      var first, more := EncodeChunk(cs[0]), EncodeChunks(cs[1..]);
      Regrouped(pre, first, more, EncodeChunk(end), rest);
      ScanReadsChunk(pre, cs[0], more + EncodeChunk(end) + rest, s);
      match Absorb(s, cs[0].kind, cs[0].body) {
        case Failure(_) =>
        case Success(next) =>
          ScanReadsEveryChunk(pre + first, cs[1..], end, rest, next);
      }
    }
  }

  lemma Regrouped(pre: Bytes, first: Bytes, more: Bytes, end: Bytes, rest: Bytes)
    ensures pre + (first + more) + end + rest == (pre + first) + (more + end + rest)
    ensures (pre + first) + more + end + rest == (pre + first) + (more + end + rest)
    ensures pre + [] + more + end == pre + more + end
  {
  }

  lemma EncodeChunksUnfolds(cs: seq<Chunk>)
    requires forall c :: c in cs ==> c.WellFormed()
    ensures EncodeChunks(cs) == if cs == [] then [] else EncodeChunk(cs[0]) + EncodeChunks(cs[1..])
  {
  }

  lemma ScanFromUnfolds(data: Bytes, offset: nat, s: Scan)
    ensures ScanFrom(data, offset, s) ==
            match ScanStep(data, offset, s)
            case Stop(result) => result
            case Next(offset', s') => ScanFrom(data, offset', s')
  {
  }

  lemma AbsorbAllUnfolds(s: Scan, cs: seq<Chunk>)
    ensures AbsorbAll(s, cs) ==
            if cs == [] then Success(s)
            else
              match Absorb(s, cs[0].kind, cs[0].body)
              case Failure(e) => Failure(e)
              case Success(next) => AbsorbAll(next, cs[1..])
  {
  }

  // ---- The rows -------------------------------------------------------------

  function Zeros(n: nat): (r: Bytes)
    ensures |r| == n
  {
    seq(n, i => 0)
  }

  function Area(rows: nat, stride: nat): nat {
    if rows == 0 then 0 else Area(rows - 1, stride) + stride
  }

  lemma {:induction false} AreaIsProduct(rows: nat, stride: nat)
    ensures Area(rows, stride) == rows * stride
  {
    if rows > 0 {
      AreaIsProduct(rows - 1, stride);
      assert rows * stride == (rows - 1) * stride + stride;
    }
  }

  lemma {:induction false} AreaMonotone(a: nat, b: nat, stride: nat)
    requires a <= b
    ensures Area(a, stride) <= Area(b, stride)
    decreases b
  {
    if a < b {
      AreaMonotone(a, b - 1, stride);
    }
  }

  method RowStart(row: nat, stride: nat) returns (start: nat)
    ensures start == Area(row, stride)
  {
    AreaIsProduct(row, stride);
    start := row * stride;
  }

  /** Whether a row the stream cuts short gets through: it does when no byte of
      it is predicted and it lacks at most one pixel. */
  predicate ShortRowPasses(raw: Bytes, pos: nat, stride: nat, channels: nat) {
    pos < |raw| && !(1 <= raw[pos] <= 4) && pos + 1 + stride <= |raw| + channels
  }

  /** Read and reconstruct the row at `pos`. A row the stream cuts short passes
      as it is, or fails. */
  method NextRow(raw: Bytes, pos: nat, stride: nat, channels: nat, previous: Bytes) returns (r: Result<Bytes, PngError>)
    requires 1 <= channels && |previous| == stride
    ensures pos + stride + 1 <= |raw| ==>
                r == Success(UnfilterRow(raw[pos], channels, previous, raw[pos..][1..stride + 1]))
    ensures |raw| < pos + stride + 1 ==>
              r == if ShortRowPasses(raw, pos, stride, channels) then Success(raw[pos + 1..]) else Failure(OutOfRange)
  {
    if pos >= |raw| {
      return Failure(OutOfRange);
    }
    var bytes := Slice(raw, pos + 1, pos + 1 + stride);
    var line := new Byte[|bytes|](i requires 0 <= i < |bytes| => bytes[i]);
    assert line[..] == bytes;
    if pos + stride + 1 <= |raw| {
      assert bytes == raw[pos..][1..stride + 1];
    } else {
      assert bytes == raw[pos + 1..];
    }
    var ok := ReconstructLine(line, raw[pos], channels, previous);
    r := if ok then Success(line[..]) else Failure(OutOfRange);
  }

  lemma RowsAdvance(before: Bytes, rest: Bytes, rows: nat, channels: nat, previous: Bytes)
    requires 1 <= channels && rows > 0 && Size(rows, |previous|) <= |rest|
    ensures var row := UnfilterRow(rest[0], channels, previous, rest[1..|previous| + 1]);
            before + Concat(UnfilterRows(rest, rows, channels, previous))
            == before + row + Concat(UnfilterRows(rest[|previous| + 1..], rows - 1, channels, row))
  {
    var row := UnfilterRow(rest[0], channels, previous, rest[1..|previous| + 1]);
    var below := UnfilterRows(rest[|previous| + 1..], rows - 1, channels, row);
    UnfilterRowsStep(rest, rows, channels, previous);
    assert ([row] + below)[1..] == below;
    assert before + (row + Concat(below)) == before + row + Concat(below);
  }

  /** The image is what is written so far and what the rest of the stream
      will reconstruct to. */
  ghost predicate RowsDone(raw: Bytes, height: nat, channels: nat, row: nat, pos: nat, out: Bytes, previous: Bytes)
    requires 1 <= channels
  {
    var stride := |previous|;
    && row <= height && Area(height, stride) <= |out| && Area(row, stride) <= |out|
    && pos + Size(height - row, stride) == Size(height, stride) <= |raw|
    && Concat(UnfilterRows(raw, height, channels, Zeros(stride)))
       == out[..Area(row, stride)] + Concat(UnfilterRows(raw[pos..], height - row, channels, previous))
  }

  lemma RowsDoneStep(raw: Bytes, height: nat, channels: nat, row: nat, pos: nat, out: Bytes, previous: Bytes,
      out': Bytes)
    requires 1 <= channels && row < height && pos + |previous| + 1 <= |raw|
    requires Area(row + 1, |previous|) <= |out|
    requires var line := UnfilterRow(raw[pos], channels, previous, raw[pos..][1..|previous| + 1]);
             out' == out[..Area(row, |previous|)] + line + out[Area(row + 1, |previous|)..]
    ensures RowsDone(raw, height, channels, row, pos, out, previous) ==>
            RowsDone(raw, height, channels, row + 1, pos + 1 + |previous|, out',
                     UnfilterRow(raw[pos], channels, previous, raw[pos..][1..|previous| + 1]))
  {
    hide UnfilterRows, Concat, UnfilterRow;
    var stride := |previous|;
    var line := UnfilterRow(raw[pos], channels, previous, raw[pos..][1..stride + 1]);
    if RowsDone(raw, height, channels, row, pos, out, previous) {
      RowsAdvance(out[..Area(row, stride)], raw[pos..], height - row, channels, previous);
      assert raw[pos..][stride + 1..] == raw[pos + 1 + stride..];
      assert out'[..Area(row + 1, stride)] == out[..Area(row, stride)] + line;
    }
  }

  /** One turn of the row loop: reconstruct the row at `pos` and write it over
      the row's place in `out`, which is then shorter by what the row lacks. */
  method WriteRow(raw: Bytes, height: nat, stride: nat, channels: nat, row: nat, pos: nat, out: Bytes, previous: Bytes,
                  ghost full: nat)
    returns (r: Result<(Bytes, Bytes), PngError>)
    requires 1 <= channels && row < height && |previous| == stride && |out| == Area(height, stride)
    ensures pos + stride + 1 <= |raw| ==>
              && r.Success? && |r.value.0| == Area(height, stride) && |r.value.1| == stride
              && (row < full && RowsDone(raw, full, channels, row, pos, out, previous) ==>
                    RowsDone(raw, full, channels, row + 1, pos + 1 + stride, r.value.0, r.value.1))
    ensures |raw| < pos + stride + 1 ==>
              && (r.Success? <==> ShortRowPasses(raw, pos, stride, channels))
              && (r.Failure? ==> r.error == OutOfRange)
              && (r.Success? ==> Area(row, stride) <= |out| && Area(row + 1, stride) <= |out|
                                 && r.value.0
                                    == out[..Area(row, stride)] + raw[pos + 1..] + out[Area(row + 1, stride)..])
  {
    hide RowsDone;
    var line := NextRow(raw, pos, stride, channels, previous);
    AreaMonotone(row + 1, height, stride);
    AreaMonotone(row, row + 1, stride);
    if line.Failure? {
      return Failure(line.error);
    }
    var lo := RowStart(row, stride);
    var hi := RowStart(row + 1, stride);
    var out' := out[..lo] + line.value + out[hi..];
    if pos + stride + 1 <= |raw| && row < full {
      RowsDoneStep(raw, full, channels, row, pos, out, previous, out');
    }
    r := Success((out', line.value));
  }

  /** What the stream reconstructs to. One that ends within its last row gives
      that row as it stands, if it may pass, and no more. */
  function Reconstructed(raw: Bytes, height: nat, stride: nat, channels: nat): Result<Bytes, PngError>
    requires 1 <= channels
  {
    if Size(height, stride) <= |raw| then Success(Concat(UnfilterRows(raw, height, channels, Zeros(stride))))
    else
      var start := Size(height - 1, stride);
      if ShortRowPasses(raw, start, stride, channels)
      then Success(Concat(UnfilterRows(raw, height - 1, channels, Zeros(stride))) + raw[start + 1..])
      else Failure(OutOfRange)
  }

  lemma {:induction false} RowsFillTheirArea(raw: Bytes, height: nat, channels: nat, prior: Bytes)
    requires 1 <= channels && Size(height, |prior|) <= |raw|
    ensures |Concat(UnfilterRows(raw, height, channels, prior))| == Area(height, |prior|)
    decreases height
  {
    if height > 0 {
      UnfilterRowsStep(raw, height, channels, prior);
      var row := UnfilterRow(raw[0], channels, prior, raw[1..|prior| + 1]);
      var below := UnfilterRows(raw[|prior| + 1..], height - 1, channels, row);
      RowsFillTheirArea(raw[|prior| + 1..], height - 1, channels, row);
      assert ([row] + below)[1..] == below;
    }
  }

  /** A stream makes a whole image, of one byte per pixel and channel, exactly
      when it holds every row. */
  lemma WholeImageIff(raw: Bytes, height: nat, stride: nat, channels: nat)
    requires 1 <= channels
    ensures var r := Reconstructed(raw, height, stride, channels);
            r.Success? && |r.value| == height * stride <==> height * (stride + 1) <= |raw|
  {
    hide UnfilterRows, Concat, Size, Area;
    SizeIsProduct(height, stride);
    AreaIsProduct(height, stride);
    if Size(height, stride) <= |raw| {
      RowsFillTheirArea(raw, height, channels, Zeros(stride));
    } else if Reconstructed(raw, height, stride, channels).Success? {
      NotWhole(raw, height, stride, channels);
    }
  }

  lemma NotWhole(raw: Bytes, height: nat, stride: nat, channels: nat)
    requires 1 <= channels && |raw| < Size(height, stride) && Reconstructed(raw, height, stride, channels).Success?
    ensures |Reconstructed(raw, height, stride, channels).value| < Area(height, stride)
  {
    hide UnfilterRows, Concat;
    RowsFillTheirArea(raw, height - 1, channels, Zeros(stride));
  }

  lemma {:induction false} SizeGrows(a: nat, b: nat, stride: nat)
    requires a < b
    ensures Size(a, stride) + stride + 1 <= Size(b, stride)
    decreases b
  {
    if a + 1 < b {
      SizeGrows(a, b - 1, stride);
    }
  }

  /** A stream that ends before its last row starts gives nothing. */
  lemma EndsTooSoon(raw: Bytes, height: nat, stride: nat, channels: nat, row: nat)
    requires 1 <= channels && row < height
    requires |raw| <= Size(row, stride)
             || (|raw| < Size(row + 1, stride)
                 && (row + 1 < height || !ShortRowPasses(raw, Size(row, stride), stride, channels)))
    ensures Reconstructed(raw, height, stride, channels) == Failure(OutOfRange)
  {
    hide UnfilterRows, Concat;
    SizeGrows(row, row + 1, stride);
    SizeGrows(row, height, stride);
    if row + 1 < height {
      SizeGrows(row + 1, height, stride);
      SizeGrows(row, height - 1, stride);
      if row + 1 < height - 1 {
        SizeGrows(row + 1, height - 1, stride);
      }
    }
  }

  /** The row loop over the inflated stream. */
  method ReconstructRows(raw: Bytes, height: nat, stride: nat, channels: nat) returns (r: Result<Bytes, PngError>)
    requires 1 <= channels
    ensures r == Reconstructed(raw, height, stride, channels)
  {
    hide RowsDone, Area, Size, Reconstructed, ShortRowPasses, UnfilterRows, Concat;
    var size := RowStart(height, stride);
    var out := Zeros(size);
    var previous := Zeros(stride);
    var pos: nat := 0;
    ghost var full := FullRows(raw, height, stride);
    NoRowsYet(raw, height, stride, channels, full);
    for row := 0 to height
      invariant pos == Size(row, stride)
      invariant pos <= |raw| ==> |previous| == stride && |out| == size
      invariant pos <= |raw| && Size(full, stride) <= |raw| ==>
                  row <= full && RowsDone(raw, full, channels, row, pos, out, previous)
      invariant |raw| < pos && row == height ==> Success(out) == Reconstructed(raw, height, stride, channels)
      invariant |raw| < pos && row < height ==> Reconstructed(raw, height, stride, channels) == Failure(OutOfRange)
    {
      SizeStep(row + 1, stride);
      if pos >= |raw| {
        EndsTooSoon(raw, height, stride, channels, row);
        return Failure(OutOfRange);
      }
      var written := WriteRow(raw, height, stride, channels, row, pos, out, previous, full);
      FullRowsAre(raw, height, stride, full, row + 1);
      if written.Failure? {
        EndsTooSoon(raw, height, stride, channels, row);
        return Failure(written.error);
      }
      if |raw| < pos + stride + 1 {
        if row + 1 < height {
          EndsTooSoon(raw, height, stride, channels, row);
        } else {
          EndsInLastRow(raw, height, stride, channels, out, previous, written.value.0);
        }
      }
      out, previous := written.value.0, written.value.1;
      pos := pos + 1 + stride;
    }
    if pos <= |raw| {
      RowsDoneEnds(raw, height, channels, stride, out, previous);
    }
    r := Success(out);
  }

  /** The rows the loop is sure to reconstruct in full, if the stream holds them. */
  ghost function FullRows(raw: Bytes, height: nat, stride: nat): nat {
    if Size(height, stride) <= |raw| || height == 0 then height else height - 1
  }

  lemma FullRowsAre(raw: Bytes, height: nat, stride: nat, full: nat, row: nat)
    requires full == FullRows(raw, height, stride) && row <= height
    ensures Size(row, stride) <= |raw| ==> row <= full
    ensures Size(height, stride) <= |raw| ==> full == height
    ensures height > 0 && |raw| < Size(height, stride) ==> full == height - 1
  {
  }

  lemma NoRowsYet(raw: Bytes, height: nat, stride: nat, channels: nat, full: nat)
    requires 1 <= channels && full == FullRows(raw, height, stride)
    ensures Size(0, stride) == 0
    ensures Size(full, stride) <= |raw| ==>
              RowsDone(raw, full, channels, 0, 0, Zeros(Area(height, stride)), Zeros(stride))
  {
    hide UnfilterRows, Concat;
    AreaMonotone(full, height, stride);
    assert raw[0..] == raw;
  }

  lemma EndsInLastRow(raw: Bytes, height: nat, stride: nat, channels: nat, out: Bytes, previous: Bytes, out': Bytes)
    requires 1 <= channels && height > 0 && |previous| == stride && |out| == Area(height, stride)
    requires Size(height - 1, stride) < |raw| < Size(height, stride)
    requires ShortRowPasses(raw, Size(height - 1, stride), stride, channels)
    requires RowsDone(raw, height - 1, channels, height - 1, Size(height - 1, stride), out, previous)
    requires Area(height - 1, stride) <= |out|
    requires out' == out[..Area(height - 1, stride)] + raw[Size(height - 1, stride) + 1..] + out[Area(height, stride)..]
    ensures Reconstructed(raw, height, stride, channels) == Success(out')
  {
    hide ShortRowPasses, UnfilterRows, Concat, Size;
    RowsDoneEnds(raw, height - 1, channels, stride, out, previous);
    assert out[Area(height, stride)..] == [];
    var front := out[..Area(height - 1, stride)] + raw[Size(height - 1, stride) + 1..];
    assert front + [] == front;
  }

  lemma RowsDoneEnds(raw: Bytes, height: nat, channels: nat, stride: nat, out: Bytes, previous: Bytes)
    requires 1 <= channels && |previous| == stride
    requires RowsDone(raw, height, channels, height, Size(height, stride), out, previous)
    ensures Size(height, stride) <= |raw| && Area(height, stride) <= |out|
    ensures out[..Area(height, stride)] == Concat(UnfilterRows(raw, height, channels, Zeros(stride)))
    ensures |out| == Area(height, stride) ==> Reconstructed(raw, height, stride, channels) == Success(out)
  {
    assert out[..Area(height, stride)] + [] == out[..Area(height, stride)];
    assert |out| == Area(height, stride) ==> out[..Area(height, stride)] == out;
  }

  // ---- The palette ----------------------------------------------------------

  function Expand(indices: Bytes, palette: Bytes): Bytes {
    if indices == [] then []
    else Expand(indices[..|indices| - 1], palette)
         + Slice(palette, indices[|indices| - 1] * 3 as int, indices[|indices| - 1] * 3 as int + 3)
  }

  method ExpandPalette(indices: Bytes, palette: Bytes) returns (expanded: Bytes)
    ensures expanded == Expand(indices, palette)
  {
    expanded := [];
    for i := 0 to |indices|
      invariant expanded == Expand(indices[..i], palette)
    {
      assert indices[..i + 1][..i] == indices[..i];
      expanded := expanded + Slice(palette, indices[i] * 3 as int, indices[i] * 3 as int + 3);
    }
    assert indices[..|indices|] == indices;
  }

  /** Indices inside the palette become three bytes each, in place. */
  lemma {:induction false} ExpandAt(indices: Bytes, palette: Bytes, k: nat, c: nat)
    requires forall j :: 0 <= j < |indices| ==> 3 * indices[j] as int + 3 <= |palette|
    requires k < |indices| && c < 3
    ensures |Expand(indices, palette)| == 3 * |indices|
    ensures Expand(indices, palette)[3 * k + c] == palette[3 * indices[k] as int + c]
  {
    hide Expand, Slice;
    var last := |indices| - 1;
    ExpandSnoc(indices, palette);
    if last > 0 {
      ExpandAt(indices[..last], palette, if k < last then k else 0, c);
    }
  }

  lemma ExpandSnoc(indices: Bytes, palette: Bytes)
    requires indices != [] && 3 * indices[|indices| - 1] as int + 3 <= |palette|
    ensures Expand([], palette) == []
    ensures var last := |indices| - 1;
            Expand(indices, palette)
            == Expand(indices[..last], palette) + palette[3 * indices[last] as int..3 * indices[last] as int + 3]
    ensures indices[..0] == []
  {
  }

  // ---- The file -------------------------------------------------------------

  datatype Image = Image(width: nat, height: nat, channels: nat, bytes: Bytes)

  function Channels(colour: Byte): Option<nat> {
    if colour == 0 || colour == 3 then Some(1)
    else if colour == 2 then Some(3)
    else if colour == 4 then Some(2)
    else if colour == 6 then Some(4)
    else None
  }

  /** The pixels once every row is reconstructed. */
  function Finish(h: Bytes, channels: nat, bytes: Bytes, palette: Option<Bytes>): Result<Image, PngError>
    requires |h| == 13
  {
    var width, height := FromBigEndian(h[0..4]), FromBigEndian(h[4..8]);
    if h[9] != 3 then Success(Image(width, height, channels, bytes))
    else if palette.None? && bytes != [] then Failure(MissingPalette)
    else Success(Image(width, height, 3, Expand(bytes, palette.GetOr([]))))
  }

  /** What a file decodes to. */
  function Decoded(data: Bytes, inflate: Bytes -> Option<Bytes>): Result<Image, PngError> {
    if Slice(data, 0, 8) != SIGNATURE then Failure(NotAPng)
    else
      var scan :- ScanFrom(data, 8, Scan(None, [], None));
      DecodedScan(scan, inflate)
  }

  function DecodedScan(scan: Scan, inflate: Bytes -> Option<Bytes>): Result<Image, PngError> {
    if scan.header.None? || |scan.header.value| != 13 then Failure(MissingHeader)
    else
      var h := scan.header.value;
      if h[8] != 8 || h[12] != 0 then Failure(Unsupported)
      else if Channels(h[9]).None? then Failure(UnknownColour)
      else if inflate(scan.idat).None? then Failure(BadZlib)
      else
        var channels, raw := Channels(h[9]).value, inflate(scan.idat).value;
        var stride, height := FromBigEndian(h[0..4]) * channels, FromBigEndian(h[4..8]);
        var bytes :- Reconstructed(raw, height, stride, channels);
        Finish(h, channels, bytes, scan.palette)
  }

  lemma {:induction false} ScannedHeaderIsWhole(data: Bytes, offset: nat, s: Scan)
    requires s.header.Some? ==> |s.header.value| == 13
    ensures var r := ScanFrom(data, offset, s); r.Success? && r.value.header.Some? ==> |r.value.header.value| == 13
    decreases |data| - offset
  {
    match ScanStep(data, offset, s) {
      case Stop(_) =>
      case Next(offset', s') => ScannedHeaderIsWhole(data, offset', s');
    }
  }

  /** The decoder, on every file. */
  method DecodePng(data: Bytes, inflate: Bytes -> Option<Bytes>) returns (r: Result<Image, PngError>)
    ensures r == Decoded(data, inflate)
  {
    hide UnfilterRows, Concat, Size, ScanFrom, Expand, FromBigEndian, Area, Reconstructed;
    if Slice(data, 0, 8) != SIGNATURE {
      return Failure(NotAPng);
    }
    var scanned := ScanChunks(data);
    if scanned.Failure? {
      return Failure(scanned.error);
    }
    var scan := scanned.value;
    ScannedHeaderIsWhole(data, 8, Scan(None, [], None));
    if scan.header.None? {
      return Failure(MissingHeader);
    }
    var h := scan.header.value;
    if h[8] != 8 || h[12] != 0 {
      return Failure(Unsupported);
    }
    if Channels(h[9]).None? {
      return Failure(UnknownColour);
    }
    var inflated := inflate(scan.idat);
    if inflated.None? {
      return Failure(BadZlib);
    }
    var width, height, channels := FromBigEndian(h[0..4]), FromBigEndian(h[4..8]), Channels(h[9]).value;
    var stride := width * channels;
    var rows := ReconstructRows(inflated.value, height, stride, channels);
    if rows.Failure? {
      return Failure(rows.error);
    }
    if h[9] != 3 {
      return Success(Image(width, height, channels, rows.value));
    }
    if scan.palette.None? {
      ExpandNothing();
      return if rows.value == [] then Success(Image(width, height, 3, [])) else Failure(MissingPalette);
    }
    var expanded := ExpandPalette(rows.value, scan.palette.value);
    r := Success(Image(width, height, 3, expanded));
  }

  lemma ExpandNothing()
    ensures forall p :: Expand([], p) == []
  {
  }

  /** A file made of any chunks before IEND, whose image data inflates to rows
      filtered by any choice of types, decodes to those rows. */
  lemma DecodeInvertsEncode(
    cs: seq<Chunk>, end: Chunk, rest: Bytes, inflate: Bytes -> Option<Bytes>,
    scan: Scan, types: seq<Byte>, rows: seq<Bytes>, tail: Bytes)
    requires forall c :: c in cs ==> c.WellFormed() && c.kind != IEND
    requires end.WellFormed() && end.kind == IEND
    requires AbsorbAll(Scan(None, [], None), cs) == Success(scan)
    requires scan.header.Some? && |scan.header.value| == 13
    requires var h := scan.header.value;
             && h[8] == 8 && h[12] == 0 && Channels(h[9]).Some?
             && |types| == |rows| == FromBigEndian(h[4..8])
             && var stride := FromBigEndian(h[0..4]) * Channels(h[9]).value;
                && (forall row :: row in rows ==> |row| == stride)
                && inflate(scan.idat) == Some(FilterRows(types, Channels(h[9]).value, Zeros(stride), rows) + tail)
    ensures var h := scan.header.value;
            Decoded(SIGNATURE + EncodeChunks(cs) + EncodeChunk(end) + rest, inflate)
            == Finish(h, Channels(h[9]).value, Concat(rows), scan.palette)
  {
    hide UnfilterRows, FilterRows, Concat, Size, ScanFrom, EncodeChunks, EncodeChunk, Finish, FromBigEndian, AbsorbAll;
    var h := scan.header.value;
    var stride := FromBigEndian(h[0..4]) * Channels(h[9]).value;
    var data := SIGNATURE + EncodeChunks(cs) + EncodeChunk(end) + rest;
    assert Slice(data, 0, 8) == SIGNATURE;
    ScanReadsEveryChunk(SIGNATURE, cs, end, rest, Scan(None, [], None));
    UnfilterInvertsFilter(types, Channels(h[9]).value, Zeros(stride), rows, tail);
  }

  /** The image data is the IDAT bodies joined, however they were split. */
  function IdatOf(cs: seq<Chunk>): Bytes {
    if cs == [] then [] else (if cs[0].kind == IDAT then cs[0].body else []) + IdatOf(cs[1..])
  }

  lemma {:induction false} AbsorbedIdatIsJoined(s: Scan, cs: seq<Chunk>)
    requires AbsorbAll(s, cs).Success?
    ensures AbsorbAll(s, cs).value.idat == s.idat + IdatOf(cs)
    decreases |cs|
  {
    hide AbsorbAll, Absorb;
    AbsorbAllUnfolds(s, cs);
    if cs == [] {
      assert s.idat + [] == s.idat;
    } else {
      AbsorbIdat(s, cs[0]);
      var next := Absorb(s, cs[0].kind, cs[0].body).value;
      AbsorbedIdatIsJoined(next, cs[1..]);
      var first := if cs[0].kind == IDAT then cs[0].body else [];
      assert (s.idat + first) + IdatOf(cs[1..]) == s.idat + (first + IdatOf(cs[1..]));
    }
  }

  lemma AbsorbIdat(s: Scan, c: Chunk)
    ensures var r := Absorb(s, c.kind, c.body);
            r.Success? ==> r.value.idat == s.idat + if c.kind == IDAT then c.body else []
  {
    assert s.idat + [] == s.idat;
    assert IDAT[1] != IHDR[1];
  }
}
