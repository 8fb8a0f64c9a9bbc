/** What decoding a PNG promises, in the terms of the file's own bytes: which
    chunk counts, which sizes its header gives, and where each pixel is found. */
module PngReading {
  import opened Wrappers
  import opened PngRows
  import opened PngFile

  /** The `k`-th chunk is the last of its kind. */
  ghost predicate LastOf(cs: seq<Chunk>, kind: Bytes, k: int) {
    0 <= k < |cs| && cs[k].kind == kind && forall j :: k < j < |cs| ==> cs[j].kind != kind
  }

  ghost predicate HasKind(cs: seq<Chunk>, kind: Bytes) {
    exists k :: 0 <= k < |cs| && cs[k].kind == kind
  }

  /** Which chunk gives the header, and which the palette: the last of its kind.
      Only a header of another length than 13 is refused. */
  lemma {:induction false} AbsorbedIs(s: Scan, cs: seq<Chunk>)
    ensures var r := AbsorbAll(s, cs);
            && (r.Success? <==> forall c :: c in cs && c.kind == [0x49, 0x48, 0x44, 0x52] ==> |c.body| == 13)
            && (r.Failure? ==> r.error == BadStruct)
            && (r.Success? ==>
                  && (forall k :: LastOf(cs, [0x49, 0x48, 0x44, 0x52], k) ==> r.value.header == Some(cs[k].body))
                  && (!HasKind(cs, [0x49, 0x48, 0x44, 0x52]) ==> r.value.header == s.header)
                  && (forall k :: LastOf(cs, [0x50, 0x4C, 0x54, 0x45], k) ==> r.value.palette == Some(cs[k].body))
                  && (!HasKind(cs, [0x50, 0x4C, 0x54, 0x45]) ==> r.value.palette == s.palette))
    decreases |cs|
  {
    hide AbsorbAll, Absorb, LastOf, HasKind;
    AbsorbAllUnfolds(s, cs);
    LastAfter(cs, [0x49, 0x48, 0x44, 0x52]);
    LastAfter(cs, [0x50, 0x4C, 0x54, 0x45]);
    if cs != [] {
      AbsorbIs(s, cs[0]);
      assert forall c :: c in cs <==> c == cs[0] || c in cs[1..];
      if Absorb(s, cs[0].kind, cs[0].body).Success? {
        AbsorbedIs(Absorb(s, cs[0].kind, cs[0].body).value, cs[1..]);
      }
    }
  }

  lemma LastAfter(cs: seq<Chunk>, kind: Bytes)
    ensures cs == [] ==> !HasKind(cs, kind)
    ensures forall k :: LastOf(cs, kind, k) ==> HasKind(cs, kind) && 0 <= k < |cs|
    ensures cs != [] ==>
              && (forall k :: LastOf(cs, kind, k) && k > 0 ==> LastOf(cs[1..], kind, k - 1) && cs[k] == cs[1..][k - 1])
              && (LastOf(cs, kind, 0) ==> !HasKind(cs[1..], kind) && cs[0].kind == kind)
              && (HasKind(cs, kind) <==> cs[0].kind == kind || HasKind(cs[1..], kind))
  {
    if cs != [] {
      assert forall k :: 0 <= k < |cs| - 1 ==> cs[1..][k] == cs[k + 1];
      if HasKind(cs, kind) && cs[0].kind != kind {
        var k :| 0 <= k < |cs| && cs[k].kind == kind;
        assert cs[1..][k - 1].kind == kind;
      }
    }
  }

  lemma AbsorbIs(s: Scan, c: Chunk)
    ensures var r := Absorb(s, c.kind, c.body);
            && (r.Failure? <==> c.kind == [0x49, 0x48, 0x44, 0x52] && |c.body| != 13)
            && (r.Failure? ==> r.error == BadStruct)
            && (r.Success? ==>
                  && r.value.header
                     == (if c.kind == [0x49, 0x48, 0x44, 0x52] then Some(c.body) else s.header)
                  && r.value.palette
                     == (if c.kind == [0x50, 0x4C, 0x54, 0x45] then Some(c.body) else s.palette))
  {
    assert IDAT[1] == 0x44 && PLTE[1] == 0x4C && IHDR[1] == 0x48;
  }

  /** The bodies of the chunks of one kind, joined in file order. */
  function BodiesOf(cs: seq<Chunk>, kind: Bytes): Bytes {
    if cs == [] then []
    else BodiesOf(cs[..|cs| - 1], kind) + if cs[|cs| - 1].kind == kind then cs[|cs| - 1].body else []
  }

  lemma {:induction false} IdatIsBodies(cs: seq<Chunk>)
    ensures IdatOf(cs) == BodiesOf(cs, [0x49, 0x44, 0x41, 0x54])
  {
    if cs != [] {
      var front, last := cs[..|cs| - 1], cs[|cs| - 1];
      IdatIsBodies(front);
      IdatSnoc(front, last);
      assert cs == front + [last];
    }
  }

  lemma {:induction false} IdatSnoc(front: seq<Chunk>, last: Chunk)
    ensures IdatOf(front + [last]) == IdatOf(front) + if last.kind == [0x49, 0x44, 0x41, 0x54] then last.body else []
  {
    hide IdatOf;
    IdatUnfolds(front + [last]);
    IdatUnfolds(front);
    if front == [] {
      assert front + [last] == [last] && [last][1..] == [];
      IdatUnfolds([]);
      assert last.body + [] == last.body;
    } else {
      assert (front + [last])[1..] == front[1..] + [last];
      IdatSnoc(front[1..], last);
      Associates(front[0].body, IdatOf(front[1..]), if last.kind == [0x49, 0x44, 0x41, 0x54] then last.body else []);
    }
  }

  lemma Associates(a: Bytes, b: Bytes, c: Bytes)
    ensures (a + b) + c == a + (b + c) && [] + b == b && [] + (b + c) == b + c
  {
  }

  lemma IdatUnfolds(cs: seq<Chunk>)
    ensures IdatOf(cs) == if cs == [] then []
                          else (if cs[0].kind == [0x49, 0x44, 0x41, 0x54] then cs[0].body else []) + IdatOf(cs[1..])
  {
  }

  /** Four bytes, the most significant first. */
  lemma FourBytesAre(b: Bytes)
    requires |b| == 4
    ensures FromBigEndian(b) == b[0] as int * 0x100_0000 + b[1] as int * 0x1_0000 + b[2] as int * 0x100 + b[3]
  {
  }

  /** How many bytes a pixel takes, by its colour type. */
  lemma ChannelsAre(colour: Byte)
    ensures match Channels(colour)
            case Some(n) => (colour as int, n) in {(0, 1), (2, 3), (3, 1), (4, 2), (6, 4)}
            case None => colour !in {0, 2, 3, 4, 6}
  {
  }

  /** Byte `i` of row `r` is byte `r * stride + i` of the image. */
  lemma {:induction false} ConcatAt(rows: seq<Bytes>, stride: nat, r: nat, i: nat)
    requires forall row :: row in rows ==> |row| == stride
    requires r < |rows| && i < stride
    ensures |Concat(rows)| == |rows| * stride
    ensures r * stride + i < |rows| * stride
    ensures Concat(rows)[r * stride + i] == rows[r][i]
  {
    RowsTogether(rows, stride);
    Below(r, |rows|, stride, i);
    assert forall row :: row in rows[1..] ==> row in rows;
    assert rows[0] in rows;
    if r > 0 {
      ConcatAt(rows[1..], stride, r - 1, i);
      assert r * stride + i == stride + ((r - 1) * stride + i);
    }
  }

  lemma {:induction false} RowsTogether(rows: seq<Bytes>, stride: nat)
    requires forall row :: row in rows ==> |row| == stride
    ensures |Concat(rows)| == |rows| * stride
  {
    if rows != [] {
      assert rows[0] in rows;
      assert forall row :: row in rows[1..] ==> row in rows;
      RowsTogether(rows[1..], stride);
      Distributes(|rows| - 1, stride);
    }
  }

  lemma Distributes(n: nat, stride: nat)
    ensures (n + 1) * stride == n * stride + stride
  {
  }

  lemma Below(r: nat, n: nat, stride: nat, i: nat)
    requires r < n && i < stride
    ensures r * stride + i < n * stride
  {
    assert (r + 1) * stride <= n * stride;
  }

  /** The red, green and blue bytes at `i`. */
  ghost function ColourAt(b: Bytes, i: nat): (int, int, int)
    requires i + 3 <= |b|
  {
    (b[i] as int, b[i + 1] as int, b[i + 2] as int)
  }

  /** The file of these chunks, up to IEND and whatever follows it. */
  ghost function FileOf(cs: seq<Chunk>, end: Chunk, rest: Bytes): Bytes
    requires end.WellFormed() && forall c :: c in cs ==> c.WellFormed()
  {
    [0x89, 0x50, 0x4E, 0x47, 0x0D, 0x0A, 0x1A, 0x0A] + EncodeChunks(cs) + EncodeChunk(end) + rest
  }

  ghost predicate IsFile(cs: seq<Chunk>, end: Chunk) {
    && (forall c :: c in cs ==> c.WellFormed() && c.kind != [0x49, 0x45, 0x4E, 0x44])
    && end.WellFormed() && end.kind == [0x49, 0x45, 0x4E, 0x44]
  }

  lemma FileIsScanned(cs: seq<Chunk>, end: Chunk, rest: Bytes, inflate: Bytes -> Option<Bytes>)
    requires IsFile(cs, end)
    ensures Decoded(FileOf(cs, end, rest), inflate) ==
            match AbsorbAll(Scan(None, [], None), cs)
            case Failure(e) => Failure(e)
            case Success(scan) => DecodedScan(scan, inflate)
  {
    hide ScanFrom, EncodeChunks, EncodeChunk, AbsorbAll, DecodedScan;
    var data := FileOf(cs, end, rest);
    assert Slice(data, 0, 8) == SIGNATURE;
    ScanReadsEveryChunk(SIGNATURE, cs, end, rest, Scan(None, [], None));
  }

  /** The slice stops at the end of the data. */
  lemma SliceIs(s: Bytes, lo: nat, hi: nat)
    requires lo <= hi
    ensures hi <= |s| ==> Slice(s, lo, hi) == s[lo..hi]
    ensures lo <= |s| < hi ==> Slice(s, lo, hi) == s[lo..]
    ensures |s| < lo ==> Slice(s, lo, hi) == []
  {
  }

  /** A file that ends without IEND is read all the same; one that ends within
      the length of a chunk is refused. */
  lemma {:induction false} UnendedFileIs(pre: Bytes, cs: seq<Chunk>, tail: Bytes, s: Scan)
    requires forall c :: c in cs ==> c.WellFormed() && c.kind != [0x49, 0x45, 0x4E, 0x44]
    requires |tail| < 4
    ensures ScanFrom(pre + EncodeChunks(cs) + tail, |pre|, s)
            == if AbsorbAll(s, cs).Success? && tail != [] then Failure(BadStruct) else AbsorbAll(s, cs)
    decreases |cs|
  {
    hide *;
    EncodeChunksUnfolds(cs);
    ScanFromUnfolds(pre + EncodeChunks(cs) + tail, |pre|, s);
    AbsorbAllUnfolds(s, cs);
    if cs == [] {
      assert pre + [] + tail == pre + tail;
      ShortTailStops(pre, tail, s);
    } else {
      assert cs[0] in cs;
      var first, more := EncodeChunk(cs[0]), EncodeChunks(cs[1..]);
      assert pre + (first + more) + tail == (pre + first) + more + tail == pre + first + (more + tail);
      KindIsNotEnd(cs[0].kind);
      ScanReadsChunk(pre, cs[0], more + tail, s);
      match Absorb(s, cs[0].kind, cs[0].body) {
        case Failure(_) =>
        case Success(next) =>
          UnendedFileIs(pre + first, cs[1..], tail, next);
      }
    }
  }

  lemma KindIsNotEnd(kind: Bytes)
    ensures kind != [0x49, 0x45, 0x4E, 0x44] <==> kind != IEND
  {
  }

  lemma ShortTailStops(pre: Bytes, tail: Bytes, s: Scan)
    requires |tail| < 4
    ensures ScanStep(pre + tail, |pre|, s) == Stop(if tail == [] then Success(s) else Failure(BadStruct))
  {
    assert tail != [] ==> Slice(pre + tail, |pre|, |pre| + 4) == tail;
  }

  /** A stream short of its rows gets through exactly when it lacks no more than
      a pixel's bytes of its last row and that row is unfiltered. */
  lemma ShortStreamIff(raw: Bytes, height: nat, stride: nat, channels: nat)
    requires 1 <= channels && |raw| < height * (stride + 1)
    ensures Reconstructed(raw, height, stride, channels).Failure? ==>
              Reconstructed(raw, height, stride, channels).error == OutOfRange
    ensures Reconstructed(raw, height, stride, channels).Success? <==>
            var start := (height - 1) * (stride + 1);
            0 <= start < |raw| && raw[start] !in {1, 2, 3, 4} && height * (stride + 1) <= |raw| + channels
  {
    hide UnfilterRows, Concat, Size;
    SizeIsProduct(height, stride);
    SizeIsProduct(height - 1, stride);
    Distributes(height - 1, stride + 1);
  }

  lemma HeaderIs(cs: seq<Chunk>, k: nat)
    requires LastOf(cs, [0x49, 0x48, 0x44, 0x52], k)
    requires forall c :: c in cs && c.kind == [0x49, 0x48, 0x44, 0x52] ==> |c.body| == 13
    ensures k < |cs| && |cs[k].body| == 13
    ensures AbsorbAll(Scan(None, [], None), cs).Success?
    ensures var scan := AbsorbAll(Scan(None, [], None), cs).value;
            scan.header == Some(cs[k].body) && scan.idat == BodiesOf(cs, [0x49, 0x44, 0x41, 0x54])
  {
    hide AbsorbAll, IdatOf, BodiesOf;
    AbsorbedIs(Scan(None, [], None), cs);
    AbsorbedIdatIsJoined(Scan(None, [], None), cs);
    IdatIsBodies(cs);
    assert [] + IdatOf(cs) == IdatOf(cs);
    assert cs[k] in cs;
  }

  lemma WalkNeverSaysSo(data: Bytes, offset: nat, s: Scan)
    ensures ScanFrom(data, offset, s) != Failure(NotAPng)
    decreases |data| - offset
  {
    match ScanStep(data, offset, s) {
      case Stop(_) =>
      case Next(offset', s') => WalkNeverSaysSo(data, offset', s');
    }
  }

  /** Exactly the files that do not begin with the signature are no PNG. */
  lemma NotAPngIff(data: Bytes, inflate: Bytes -> Option<Bytes>)
    ensures Decoded(data, inflate) == Failure(NotAPng)
            <==> !([0x89, 0x50, 0x4E, 0x47, 0x0D, 0x0A, 0x1A, 0x0A] <= data)
  {
    hide ScanFrom, UnfilterRows, Concat, Size, Expand, FromBigEndian, Channels, ShortRowPasses;
    WalkNeverSaysSo(data, 8, Scan(None, [], None));
  }

  /** A file with no header, or with one of the wrong length, is refused. */
  lemma HeaderlessIsRefused(cs: seq<Chunk>, end: Chunk, rest: Bytes, inflate: Bytes -> Option<Bytes>)
    requires IsFile(cs, end)
    ensures !HasKind(cs, [0x49, 0x48, 0x44, 0x52]) ==>
              Decoded(FileOf(cs, end, rest), inflate) == Failure(MissingHeader)
    ensures (exists c :: c in cs && c.kind == [0x49, 0x48, 0x44, 0x52] && |c.body| != 13) ==>
              Decoded(FileOf(cs, end, rest), inflate) == Failure(BadStruct)
  {
    hide Decoded, FileOf, AbsorbAll, DecodedScan;
    FileIsScanned(cs, end, rest, inflate);
    AbsorbedIs(Scan(None, [], None), cs);
    if !HasKind(cs, [0x49, 0x48, 0x44, 0x52]) {
      ScanRefusedIff(AbsorbAll(Scan(None, [], None), cs).value, inflate);
    }
  }

  /** Which files with a header are refused before a row is read, and why. */
  lemma RefusedIff(cs: seq<Chunk>, end: Chunk, rest: Bytes, inflate: Bytes -> Option<Bytes>, k: nat)
    requires IsFile(cs, end)
    requires LastOf(cs, [0x49, 0x48, 0x44, 0x52], k)
    requires forall c :: c in cs && c.kind == [0x49, 0x48, 0x44, 0x52] ==> |c.body| == 13
    ensures k < |cs| && |cs[k].body| == 13
    ensures var h, r := cs[k].body, Decoded(FileOf(cs, end, rest), inflate);
            && (r == Failure(Unsupported) <==> h[8] != 8 || h[12] != 0)
            && (r == Failure(UnknownColour) <==> h[8] == 8 && h[12] == 0 && h[9] !in {0, 2, 3, 4, 6})
            && (r == Failure(BadZlib) <==> h[8] == 8 && h[12] == 0 && h[9] in {0, 2, 3, 4, 6}
                                           && inflate(BodiesOf(cs, [0x49, 0x44, 0x41, 0x54])).None?)
  {
    hide *;
    HeaderIs(cs, k);
    FileIsScanned(cs, end, rest, inflate);
    ScanRefusedIff(AbsorbAll(Scan(None, [], None), cs).value, inflate);
  }

  lemma ScanRefusedIff(scan: Scan, inflate: Bytes -> Option<Bytes>)
    ensures scan.header.None? ==> DecodedScan(scan, inflate) == Failure(MissingHeader)
    ensures scan.header.Some? && |scan.header.value| == 13 ==>
              var h, r := scan.header.value, DecodedScan(scan, inflate);
              && (r == Failure(Unsupported) <==> h[8] != 8 || h[12] != 0)
              && (r == Failure(UnknownColour) <==> h[8] == 8 && h[12] == 0 && h[9] !in {0, 2, 3, 4, 6})
              && (r == Failure(BadZlib) <==> h[8] == 8 && h[12] == 0 && h[9] in {0, 2, 3, 4, 6}
                                             && inflate(scan.idat).None?)
  {
    hide FromBigEndian, UnfilterRows, Concat, Size, ShortRowPasses, Expand;
    if scan.header.Some? && |scan.header.value| == 13 {
      ChannelsAre(scan.header.value[9]);
    }
  }

  /** A file whose last header and palette are chunks `k` and `p`, and whose
      image data inflates to filtered rows: the sizes are the header's, the
      bytes are the rows', and an indexed image gets its palette's colours. */
  lemma ImageIs(
    cs: seq<Chunk>, end: Chunk, rest: Bytes, inflate: Bytes -> Option<Bytes>, k: nat, p: nat,
    width: nat, height: nat, channels: nat, types: seq<Byte>, rows: seq<Bytes>, tail: Bytes)
    requires IsFile(cs, end)
    requires LastOf(cs, [0x49, 0x48, 0x44, 0x52], k)
    requires forall c :: c in cs && c.kind == [0x49, 0x48, 0x44, 0x52] ==> |c.body| == 13
    requires var h := cs[k].body;
             && |h| == 13 && h[8] == 8 && h[12] == 0
             && (h[9] as int, channels) in {(0, 1), (2, 3), (3, 1), (4, 2), (6, 4)}
             && width == h[0] as int * 0x100_0000 + h[1] as int * 0x1_0000 + h[2] as int * 0x100 + h[3]
             && height == h[4] as int * 0x100_0000 + h[5] as int * 0x1_0000 + h[6] as int * 0x100 + h[7]
    requires |types| == |rows| == height && forall row :: row in rows ==> |row| == width * channels
    requires inflate(BodiesOf(cs, [0x49, 0x44, 0x41, 0x54]))
             == Some(FilterRows(types, channels, Zeros(width * channels), rows) + tail)
    ensures var r := Decoded(FileOf(cs, end, rest), inflate);
            && (cs[k].body[9] != 3 ==> r == Success(Image(width, height, channels, Concat(rows))))
            && (cs[k].body[9] == 3 && LastOf(cs, [0x50, 0x4C, 0x54, 0x45], p)
                && (forall j :: 0 <= j < |Concat(rows)| ==> 3 * Concat(rows)[j] as int + 3 <= |cs[p].body|) ==>
                  && r.Success? && r.value.width == width && r.value.height == height && r.value.channels == 3
                  && |r.value.bytes| == 3 * |Concat(rows)|
                  && forall j :: 0 <= j < |Concat(rows)| ==>
                       ColourAt(r.value.bytes, 3 * j) == ColourAt(cs[p].body, 3 * Concat(rows)[j] as int))
            && (cs[k].body[9] == 3 && !HasKind(cs, [0x50, 0x4C, 0x54, 0x45]) ==>
                  r == if Concat(rows) == [] then Success(Image(width, height, 3, [])) else Failure(MissingPalette))
  {
    hide FilterRows, FileOf, AbsorbAll, BodiesOf, DecodedScan, Finish, Concat, FromBigEndian, Channels, Expand;
    FileIsScanned(cs, end, rest, inflate);
    HeaderIs(cs, k);
    AbsorbedIs(Scan(None, [], None), cs);
    var scan, h := AbsorbAll(Scan(None, [], None), cs).value, cs[k].body;
    FourBytesAre(h[0..4]);
    FourBytesAre(h[4..8]);
    ChannelsAre(h[9]);
    ScanIs(scan, inflate, width, height, channels, types, rows, tail);
    FinishIs(h, channels, Concat(rows), scan.palette);
  }

  lemma ScanIs(
    scan: Scan, inflate: Bytes -> Option<Bytes>, width: nat, height: nat, channels: nat,
    types: seq<Byte>, rows: seq<Bytes>, tail: Bytes)
    requires scan.header.Some? && |scan.header.value| == 13
    requires var h := scan.header.value;
             && h[8] == 8 && h[12] == 0 && Channels(h[9]) == Some(channels)
             && FromBigEndian(h[0..4]) == width && FromBigEndian(h[4..8]) == height
    requires |types| == |rows| == height && forall row :: row in rows ==> |row| == width * channels
    requires inflate(scan.idat) == Some(FilterRows(types, channels, Zeros(width * channels), rows) + tail)
    ensures DecodedScan(scan, inflate) == Finish(scan.header.value, channels, Concat(rows), scan.palette)
  {
    hide *;
    ChannelsAre(scan.header.value[9]);
    var stride := width * channels;
    RowsAreRead(channels, types, rows, stride, tail);
    HeaderedScan(scan, inflate, width, height, channels, stride);
  }

  lemma RowsAreRead(channels: nat, types: seq<Byte>, rows: seq<Bytes>, stride: nat, tail: Bytes)
    requires 1 <= channels && |types| == |rows| && forall row :: row in rows ==> |row| == stride
    ensures Reconstructed(FilterRows(types, channels, Zeros(stride), rows) + tail, |rows|, stride, channels)
            == Success(Concat(rows))
  {
    hide UnfilterRows, FilterRows, Concat, Size;
    UnfilterInvertsFilter(types, channels, Zeros(stride), rows, tail);
  }

  lemma HeaderedScan(
    scan: Scan, inflate: Bytes -> Option<Bytes>, width: nat, height: nat, channels: nat, stride: nat)
    requires scan.header.Some? && |scan.header.value| == 13 && 1 <= channels && stride == width * channels
    requires var h := scan.header.value;
             && h[8] == 8 && h[12] == 0 && Channels(h[9]) == Some(channels)
             && FromBigEndian(h[0..4]) == width && FromBigEndian(h[4..8]) == height
    requires inflate(scan.idat).Some?
    requires Reconstructed(inflate(scan.idat).value, height, stride, channels).Success?
    ensures DecodedScan(scan, inflate)
            == Finish(scan.header.value, channels,
                      Reconstructed(inflate(scan.idat).value, height, stride, channels).value, scan.palette)
  {
    hide Reconstructed, Finish, FromBigEndian, Channels;
  }

  lemma FinishIs(h: Bytes, channels: nat, bytes: Bytes, palette: Option<Bytes>)
    requires |h| == 13
    ensures var r := Finish(h, channels, bytes, palette);
            var width, height := FromBigEndian(h[0..4]), FromBigEndian(h[4..8]);
            && (h[9] != 3 ==> r == Success(Image(width, height, channels, bytes)))
            && (h[9] == 3 && palette.None? ==>
                  r == if bytes == [] then Success(Image(width, height, 3, [])) else Failure(MissingPalette))
            && (h[9] == 3 && palette.Some?
                && (forall j :: 0 <= j < |bytes| ==> 3 * bytes[j] as int + 3 <= |palette.value|) ==>
                  && r.Success? && r.value.width == width && r.value.height == height && r.value.channels == 3
                  && |r.value.bytes| == 3 * |bytes|
                  && forall j :: 0 <= j < |bytes| ==>
                       ColourAt(r.value.bytes, 3 * j) == ColourAt(palette.value, 3 * bytes[j] as int))
  {
    hide FromBigEndian, Expand;
    ExpandNothing();
    if h[9] == 3 && palette.Some? && forall j :: 0 <= j < |bytes| ==> 3 * bytes[j] as int + 3 <= |palette.value| {
      if bytes != [] {
        ExpandAt(bytes, palette.value, 0, 0);
      }
      forall j | 0 <= j < |bytes|
        ensures |Expand(bytes, palette.value)| == 3 * |bytes|
        ensures ColourAt(Expand(bytes, palette.value), 3 * j) == ColourAt(palette.value, 3 * bytes[j] as int) {
        ExpandAt(bytes, palette.value, j, 0);
        ExpandAt(bytes, palette.value, j, 1);
        ExpandAt(bytes, palette.value, j, 2);
      }
    }
  }
}
