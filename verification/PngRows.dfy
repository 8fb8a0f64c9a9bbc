/** Row reconstruction of a PNG: the five filters of sections 6.1 to 6.6 of
    RFC 2083 as an encoder applies them, and the in-place loop that undoes
    them. */
module PngRows {

  type Byte = x: int | 0 <= x < 256

  datatype PngError =
    | NotAPng | BadStruct | MissingHeader | Unsupported | UnknownColour | BadZlib | OutOfRange | MissingPalette

  function Abs(x: int): (r: nat)
    ensures r == x || r == -x
  {
    if x < 0 then -x else x
  }

  /** The nearest of left, above and upper left to their linear estimate. */
  function Paeth(a: int, b: int, c: int): int {
    var p := a + b - c;
    if Abs(p - a) <= Abs(p - b) && Abs(p - a) <= Abs(p - c) then a
    else if Abs(p - b) <= Abs(p - c) then b
    else c
  }

  /** `x` is one of the three neighbours, at least distance from their linear
      estimate, ties going to left, then above, then upper left. */
  ghost predicate NearestInTieOrder(left: int, up: int, upLeft: int, x: int) {
    var p := left + up - upLeft;
    && x in {left, up, upLeft}
    && Abs(p - x) <= Abs(p - left) && Abs(p - x) <= Abs(p - up) && Abs(p - x) <= Abs(p - upLeft)
    && (Abs(p - left) == Abs(p - x) ==> x == left)
    && (Abs(p - left) != Abs(p - x) && Abs(p - up) == Abs(p - x) ==> x == up)
  }

  /** Section 6.6's wording, independently of the comparisons that compute it:
      of the three neighbours, one at least distance from the estimate, ties
      going to left, then above, then upper left. */
  lemma PaethIsNearestInTieOrder(a: int, b: int, c: int, x: int)
    ensures x == Paeth(a, b, c) <==> NearestInTieOrder(a, b, c, x)
  {
  }

  /** The predicted byte; a filter type no section defines predicts zero. */
  function Predict(t: Byte, left: Byte, up: Byte, upLeft: Byte): Byte {
    if t == 1 then left
    else if t == 2 then up
    else if t == 3 then (left + up) / 2
    else if t == 4 then Paeth(left, up, upLeft)
    else 0
  }

  /** The byte one pixel to the left, zero at the row's start. */
  function Behind(row: seq<Byte>, bpp: nat, i: nat): Byte
    requires i < bpp + |row|
  {
    if i >= bpp then row[i - bpp] else 0
  }

  // ---- Filtering, as an encoder does it -------------------------------------

  function FilterRow(t: Byte, bpp: nat, prior: seq<Byte>, row: seq<Byte>): (r: seq<Byte>)
    requires |prior| == |row|
  {
    seq(|row|, i requires 0 <= i < |row| =>
      (row[i] - Predict(t, Behind(row, bpp, i), prior[i], Behind(prior, bpp, i))) % 256)
  }

  function FilterRows(types: seq<Byte>, bpp: nat, prior: seq<Byte>, rows: seq<seq<Byte>>): seq<Byte>
    requires |types| == |rows| && forall row :: row in rows ==> |row| == |prior|
  {
    if rows == [] then []
    else
      [types[0]] + FilterRow(types[0], bpp, prior, rows[0]) + FilterRows(types[1..], bpp, rows[0], rows[1..])
  }

  function Concat(rows: seq<seq<Byte>>): seq<Byte> {
    if rows == [] then [] else rows[0] + Concat(rows[1..])
  }

  // ---- Reconstruction, as a definition --------------------------------------

  /** The first `n` bytes of the row, each from its filtered byte and the bytes
      already reconstructed. */
  function UnfilterPrefix(t: Byte, bpp: nat, prior: seq<Byte>, line: seq<Byte>, n: nat): (r: seq<Byte>)
    requires 1 <= bpp && |prior| == |line| && n <= |line|
    ensures |r| == n
  {
    if n == 0 then []
    else
      var done := UnfilterPrefix(t, bpp, prior, line, n - 1);
      done + [(line[n - 1] + Predict(t, Behind(done, bpp, n - 1), prior[n - 1], Behind(prior, bpp, n - 1))) % 256]
  }

  function UnfilterRow(t: Byte, bpp: nat, prior: seq<Byte>, line: seq<Byte>): (r: seq<Byte>)
    requires 1 <= bpp && |prior| == |line|
    ensures |r| == |line|
  {
    UnfilterPrefix(t, bpp, prior, line, |line|)
  }

  function Size(height: nat, stride: nat): nat {
    if height == 0 then 0 else stride + 1 + Size(height - 1, stride)
  }

  lemma {:induction false} SizeIsProduct(height: nat, stride: nat)
    ensures Size(height, stride) == height * (stride + 1)
  {
    if height > 0 {
      SizeIsProduct(height - 1, stride);
      assert height * (stride + 1) == (height - 1) * (stride + 1) + (stride + 1);
    }
  }

  function UnfilterRows(raw: seq<Byte>, height: nat, bpp: nat, prior: seq<Byte>): seq<seq<Byte>>
    requires 1 <= bpp && Size(height, |prior|) <= |raw|
    decreases height
  {
    if height == 0 then []
    else
      var row := UnfilterRow(raw[0], bpp, prior, raw[1..|prior| + 1]);
      [row] + UnfilterRows(raw[|prior| + 1..], height - 1, bpp, row)
  }

  /** The filter-type bytes of a raw stream. */
  function TypesOf(raw: seq<Byte>, height: nat, stride: nat): seq<Byte>
    requires Size(height, stride) <= |raw|
    decreases height
  {
    if height == 0 then [] else [raw[0]] + TypesOf(raw[stride + 1..], height - 1, stride)
  }

  // ---- Each undoes the other ------------------------------------------------

  lemma {:induction false} PrefixUndoesFilter(t: Byte, bpp: nat, prior: seq<Byte>, row: seq<Byte>, n: nat)
    requires 1 <= bpp && |prior| == |row| && n <= |row|
    ensures UnfilterPrefix(t, bpp, prior, FilterRow(t, bpp, prior, row), n) == row[..n]
  {
    if n > 0 {
      PrefixUndoesFilter(t, bpp, prior, row, n - 1);
      var i := n - 1;
      var done := row[..i];
      assert Behind(done, bpp, i) == Behind(row, bpp, i);
      var p := Predict(t, Behind(row, bpp, i), prior[i], Behind(prior, bpp, i));
      ModUndo(row[i], p);
      assert row[..n] == done + [row[i]];
    }
  }

  lemma ModUndo(x: Byte, p: Byte)
    ensures ((x - p) % 256 + p) % 256 == x
    ensures ((x + p) % 256 - p) % 256 == x
  {
  }

  lemma RowUndoesFilter(t: Byte, bpp: nat, prior: seq<Byte>, row: seq<Byte>)
    requires 1 <= bpp && |prior| == |row|
    ensures UnfilterRow(t, bpp, prior, FilterRow(t, bpp, prior, row)) == row
  {
    PrefixUndoesFilter(t, bpp, prior, row, |row|);
    assert row[..|row|] == row;
  }

  lemma UnfilterRowsCons(t: Byte, line: seq<Byte>, rest: seq<Byte>, height: nat, bpp: nat, prior: seq<Byte>)
    requires 1 <= bpp && |line| == |prior| && Size(height, |prior|) <= |rest|
    ensures var row := UnfilterRow(t, bpp, prior, line);
            UnfilterRows([t] + line + rest, height + 1, bpp, prior) == [row] + UnfilterRows(rest, height, bpp, row)
  {
    var raw := [t] + line + rest;
    assert raw[1..|prior| + 1] == line && raw[|prior| + 1..] == rest;
  }

  lemma FilterRowsUncons(types: seq<Byte>, bpp: nat, prior: seq<Byte>, rows: seq<seq<Byte>>, tail: seq<Byte>)
    requires |types| == |rows| >= 1 && forall row :: row in rows ==> |row| == |prior|
    ensures |rows[0]| == |prior| && forall row :: row in rows[1..] ==> |row| == |prior|
    ensures var first, rest := FilterRow(types[0], bpp, prior, rows[0]),
            FilterRows(types[1..], bpp, rows[0], rows[1..]);
            && FilterRows(types, bpp, prior, rows) + tail == [types[0]] + first + (rest + tail)
            && |FilterRows(types, bpp, prior, rows)| == 1 + |prior| + |rest|
  {
    assert rows[0] in rows;
    assert forall row :: row in rows[1..] ==> row in rows;
  }

  lemma SizeStep(rows: nat, stride: nat)
    requires rows > 0
    ensures Size(rows, stride) == Size(rows - 1, stride) + stride + 1
  {
  }

  lemma NoRows(bpp: nat, prior: seq<Byte>, raw: seq<Byte>)
    requires 1 <= bpp
    ensures Size(0, |prior|) == 0 && FilterRows([], bpp, prior, []) == [] && FilterRows([], bpp, prior, []) + raw == raw
    ensures UnfilterRows(raw, 0, bpp, prior) == [] && TypesOf(raw, 0, |prior|) == []
    ensures FiltersTo([], bpp, prior, [], [])
  {
  }

  /** Reconstructing what an encoder filtered gives back its rows, for every
      geometry and every choice of filter per row. */
  lemma {:induction false} UnfilterInvertsFilter(types: seq<Byte>, bpp: nat, prior: seq<Byte>, rows: seq<seq<Byte>>,
      tail: seq<Byte>)
    requires 1 <= bpp && |types| == |rows| && forall row :: row in rows ==> |row| == |prior|
    ensures |FilterRows(types, bpp, prior, rows)| == Size(|rows|, |prior|)
    ensures UnfilterRows(FilterRows(types, bpp, prior, rows) + tail, |rows|, bpp, prior) == rows
    decreases |rows|
  {
    hide *;
    if rows == [] {
      NoRows(bpp, prior, tail);
    } else {
      FilterRowsUncons(types, bpp, prior, rows, tail);
      UnfilterInvertsFilter(types[1..], bpp, rows[0], rows[1..], tail);
      RowUndoesFilter(types[0], bpp, prior, rows[0]);
      FilterRowLength(types[0], bpp, prior, rows[0]);
      SizeStep(|rows|, |prior|);
      UnfilterRowsCons(types[0], FilterRow(types[0], bpp, prior, rows[0]),
                       FilterRows(types[1..], bpp, rows[0], rows[1..]) + tail, |rows| - 1, bpp, prior);
    }
  }

  lemma FilterRowLength(t: Byte, bpp: nat, prior: seq<Byte>, row: seq<Byte>)
    requires |prior| == |row|
    ensures |FilterRow(t, bpp, prior, row)| == |row|
  {
  }

  lemma {:induction false} PrefixOfLonger(t: Byte, bpp: nat, prior: seq<Byte>, line: seq<Byte>, m: nat, n: nat)
    requires 1 <= bpp && |prior| == |line| && m <= n <= |line|
    ensures UnfilterPrefix(t, bpp, prior, line, n)[..m] == UnfilterPrefix(t, bpp, prior, line, m)
  {
    if m < n {
      PrefixOfLonger(t, bpp, prior, line, m, n - 1);
      var longer := UnfilterPrefix(t, bpp, prior, line, n);
      assert longer[..n - 1] == UnfilterPrefix(t, bpp, prior, line, n - 1);
      assert longer[..m] == longer[..n - 1][..m];
    }
  }

  lemma FilterUndoesRow(t: Byte, bpp: nat, prior: seq<Byte>, line: seq<Byte>)
    requires 1 <= bpp && |prior| == |line|
    ensures FilterRow(t, bpp, prior, UnfilterRow(t, bpp, prior, line)) == line
  {
    var row := UnfilterRow(t, bpp, prior, line);
    var back := FilterRow(t, bpp, prior, row);
    forall i | 0 <= i < |line| ensures back[i] == line[i] {
      PrefixOfLonger(t, bpp, prior, line, i, |line|);
      PrefixOfLonger(t, bpp, prior, line, i + 1, |line|);
      var done := UnfilterPrefix(t, bpp, prior, line, i);
      assert row[i] == row[..i + 1][i];
      assert Behind(row, bpp, i) == Behind(done, bpp, i);
      ModUndo(line[i], Predict(t, Behind(row, bpp, i), prior[i], Behind(prior, bpp, i)));
    }
  }

  /** `raw` is what filtering the rows by those types produces. */
  ghost predicate FiltersTo(types: seq<Byte>, bpp: nat, prior: seq<Byte>, rows: seq<seq<Byte>>, raw: seq<Byte>) {
    && |types| == |rows|
    && (forall row :: row in rows ==> |row| == |prior|)
    && FilterRows(types, bpp, prior, rows) == raw
  }

  lemma FiltersToCons(
    t: Byte, types: seq<Byte>, bpp: nat, prior: seq<Byte>, row: seq<Byte>, rows: seq<seq<Byte>>, line: seq<Byte>,
        raw: seq<Byte>)
    requires |row| == |prior| && FilterRow(t, bpp, prior, row) == line && FiltersTo(types, bpp, row, rows, raw)
    ensures FiltersTo([t] + types, bpp, prior, [row] + rows, [t] + line + raw)
  {
    assert ([row] + rows)[1..] == rows && ([t] + types)[1..] == types;
  }

  lemma UnfilterRowsStep(raw: seq<Byte>, height: nat, bpp: nat, prior: seq<Byte>)
    requires 1 <= bpp && height > 0 && Size(height, |prior|) <= |raw|
    ensures var row := UnfilterRow(raw[0], bpp, prior, raw[1..|prior| + 1]);
            UnfilterRows(raw, height, bpp, prior) == [row] + UnfilterRows(raw[|prior| + 1..], height - 1, bpp, row)
  {
  }

  /** And filtering what was reconstructed, with the types that were read,
      gives back the stream: no two streams decode to the same rows by the same
      filters. */
  lemma {:induction false} FilterInvertsUnfilter(raw: seq<Byte>, height: nat, bpp: nat, prior: seq<Byte>)
    requires 1 <= bpp && Size(height, |prior|) <= |raw|
    ensures FiltersTo(TypesOf(raw, height, |prior|), bpp, prior, UnfilterRows(raw, height, bpp, prior),
                      raw[..Size(height, |prior|)])
    decreases height
  {
    hide *;
    if height == 0 {
      NoRows(bpp, prior, raw);
    } else {
      SizeStep(height, |prior|);
      var line, rest := raw[1..|prior| + 1], raw[|prior| + 1..];
      var row := UnfilterRow(raw[0], bpp, prior, line);
      FilterInvertsUnfilter(rest, height - 1, bpp, row);
      FilterUndoesRow(raw[0], bpp, prior, line);
      UnfilterRowsStep(raw, height, bpp, prior);
      TypesOfStep(raw, height, |prior|);
      StreamSplits(raw, height, |prior|);
      FiltersToCons(raw[0], TypesOf(rest, height - 1, |prior|), bpp, prior, row,
                    UnfilterRows(rest, height - 1, bpp, row), line, rest[..Size(height - 1, |prior|)]);
    }
  }

  lemma TypesOfStep(raw: seq<Byte>, height: nat, stride: nat)
    requires height > 0 && Size(height, stride) <= |raw|
    ensures TypesOf(raw, height, stride) == [raw[0]] + TypesOf(raw[stride + 1..], height - 1, stride)
  {
  }

  lemma StreamSplits(raw: seq<Byte>, height: nat, stride: nat)
    requires height > 0 && Size(height, stride) <= |raw|
    ensures raw[..Size(height, stride)] == [raw[0]] + raw[1..stride + 1] + raw[stride + 1..][..Size(height - 1, stride)]
  {
  }

  // ---- The in-place loop ----------------------------------------------------

  /** Each byte of a reconstructed row, as sections 6.2 to 6.6 of RFC 2083 give
      it: the filtered byte plus, modulo 256, what stands one pixel to the left
      (type 1), above (type 2), halfway between the two, rounded down (type 3),
      or the neighbour nearest to left plus above minus upper left, ties going
      to left, then above (type 4). To the left of the row stand zeros. */
  lemma ReconstructedByteIs(t: Byte, bpp: nat, prior: seq<Byte>, line: seq<Byte>, i: nat)
    requires 1 <= bpp && |prior| == |line| && i < |line|
    ensures var row := UnfilterRow(t, bpp, prior, line);
            var left: int, up: int := if i >= bpp then row[i - bpp] else 0, prior[i];
            var upLeft: int := if i >= bpp then prior[i - bpp] else 0;
            && (t == 0 ==> row[i] == line[i])
            && (t == 1 ==> row[i] == (line[i] + left) % 256)
            && (t == 2 ==> row[i] == (line[i] + up) % 256)
            && (t == 3 ==> row[i] == (line[i] + (left + up) / 2) % 256)
            && (t == 4 ==> exists x: int :: NearestInTieOrder(left, up, upLeft, x) && row[i] == (x + line[i]) % 256)
            && (t > 4 ==> row[i] == line[i])
  {
    hide UnfilterRow, Paeth;
    PredictedByteIs(t, bpp, prior, line, i);
    var row := UnfilterRow(t, bpp, prior, line);
    var left: int, up: int := if i >= bpp then row[i - bpp] else 0, prior[i];
    var upLeft: int := if i >= bpp then prior[i - bpp] else 0;
    PaethIsNearestInTieOrder(left, up, upLeft, Paeth(left, up, upLeft));
  }

  lemma PredictedByteIs(t: Byte, bpp: nat, prior: seq<Byte>, line: seq<Byte>, i: nat)
    requires 1 <= bpp && |prior| == |line| && i < |line|
    ensures var row := UnfilterRow(t, bpp, prior, line);
            row[i] == (line[i] + Predict(t, Behind(row, bpp, i), prior[i], Behind(prior, bpp, i))) % 256
  {
    hide Predict;
    var row := UnfilterRow(t, bpp, prior, line);
    var before := UnfilterPrefix(t, bpp, prior, line, i);
    PrefixOfLonger(t, bpp, prior, line, i, |line|);
    PrefixOfLonger(t, bpp, prior, line, i + 1, |line|);
    assert row[..i] == before && row[..i + 1] == UnfilterPrefix(t, bpp, prior, line, i + 1);
    assert row[i] == row[..i + 1][i];
    assert Behind(row, bpp, i) == Behind(before, bpp, i);
  }

  /** A row under type 0, or under a type no section defines, is taken as it
      stands: an unknown type is not refused. */
  lemma UnknownFilterReadsAsNone(t: Byte, bpp: nat, prior: seq<Byte>, line: seq<Byte>)
    requires 1 <= bpp && |prior| == |line| && !(1 <= t <= 4)
    ensures UnfilterRow(t, bpp, prior, line) == line
  {
    PrefixAsItStands(t, bpp, prior, line, |line|);
    assert line[..|line|] == line;
  }

  lemma {:induction false} PrefixAsItStands(t: Byte, bpp: nat, prior: seq<Byte>, line: seq<Byte>, n: nat)
    requires 1 <= bpp && |prior| == |line| && n <= |line| && !(1 <= t <= 4)
    ensures UnfilterPrefix(t, bpp, prior, line, n) == line[..n]
  {
    if n > 0 {
      PrefixAsItStands(t, bpp, prior, line, n - 1);
      assert line[..n] == line[..n - 1] + [line[n - 1]];
    }
  }

  /** The branches of the loop body for the four filters that predict. */
  method ReconstructByte(filterType: Byte, byte: Byte, left: Byte, up: Byte, upLeft: Byte) returns (r: Byte)
    requires 1 <= filterType <= 4
    ensures r == (byte + Predict(filterType, left, up, upLeft)) % 256
  {
    var x: int, a: int, b: int, c: int := byte, left, up, upLeft;
    if filterType == 1 {
      r := (x + a) % 256;
    } else if filterType == 2 {
      r := (x + b) % 256;
    } else if filterType == 3 {
      r := (x + (a + b) / 2) % 256;
    } else {
      var predictor := a + b - c;
      var da, db, dc := Abs(predictor - a), Abs(predictor - b), Abs(predictor - c);
      var nearest := if da <= db && da <= dc then a else if db <= dc then b else c;
      r := (x + nearest) % 256;
    }
  }

  /** The line holds the reconstruction up to `i` and the filtered bytes from
      there on. */
  ghost predicate Halfway(t: Byte, bpp: nat, previous: seq<Byte>, was: seq<Byte>, now: seq<Byte>, i: nat)
    requires 1 <= bpp
  {
    && |previous| == |was| == |now| && i <= |was|
    && now[..i] == UnfilterPrefix(t, bpp, previous, was, i)
    && now[i..] == was[i..]
  }

  lemma HalfwayStep(t: Byte, bpp: nat, previous: seq<Byte>, was: seq<Byte>, now: seq<Byte>, i: nat)
    requires 1 <= bpp && i < |was| && Halfway(t, bpp, previous, was, now, i)
    ensures Halfway(t, bpp, previous, was,
                    now[i := (now[i] + Predict(t, Behind(now, bpp, i), previous[i],
                        Behind(previous, bpp, i))) % 256], i + 1)
  {
    var next := now[i := (now[i] + Predict(t, Behind(now, bpp, i), previous[i], Behind(previous, bpp, i))) % 256];
    assert now[i] == now[i..][0] && was[i] == was[i..][0];
    assert next[i + 1..] == now[i..][1..] && was[i + 1..] == was[i..][1..];
    assert Behind(now[..i], bpp, i) == Behind(now, bpp, i);
    assert next[..i + 1] == now[..i] + [next[i]];
  }

  lemma HalfwayEnds(t: Byte, bpp: nat, previous: seq<Byte>, was: seq<Byte>)
    requires 1 <= bpp && |previous| == |was|
    ensures Halfway(t, bpp, previous, was, was, 0)
    ensures forall now :: Halfway(t, bpp, previous, was, now, |was|) ==> now == UnfilterRow(t, bpp, previous, was)
  {
    forall now | Halfway(t, bpp, previous, was, now, |was|) ensures now == UnfilterRow(t, bpp, previous, was) {
      assert now[..|was|] == now;
    }
  }

  /** One row in place. A row cut short by the end of the stream fails on the
      first byte that is not there, as indexing does; it gets through, as short
      as it was, exactly when it is unfiltered and lacks at most one pixel. */
  method ReconstructLine(line: array<Byte>, filterType: Byte, bpp: nat, previous: seq<Byte>) returns (ok: bool)
    requires 1 <= bpp && line.Length <= |previous|
    modifies line
    ensures line.Length == |previous| ==> ok && line[..] == UnfilterRow(filterType, bpp, previous, old(line[..]))
    ensures line.Length < |previous| ==> (ok <==> !(1 <= filterType <= 4) && |previous| <= line.Length + bpp)
    ensures line.Length < |previous| && ok ==> line[..] == old(line[..])
  {
    hide Halfway;
    ghost var was := line[..];
    ghost var whole := line.Length == |previous|;
    if whole {
      HalfwayEnds(filterType, bpp, previous, was);
    }
    for i := 0 to |previous|
      invariant whole ==> Halfway(filterType, bpp, previous, was, line[..], i)
      invariant i > 0 ==> i - 1 < bpp + line.Length
      invariant !whole && 1 <= filterType <= 4 ==> i <= line.Length
      invariant !whole && !(1 <= filterType <= 4) ==> line[..] == was
    {
      if i >= bpp && i - bpp >= line.Length {
        return false;
      }
      var left := if i >= bpp then line[i - bpp] else 0;
      var up := previous[i];
      var upLeft := if i >= bpp then previous[i - bpp] else 0;
      if whole {
        HalfwayStep(filterType, bpp, previous, was, line[..], i);
      }
      if 1 <= filterType <= 4 {
        if i >= line.Length {
          return false;
        }
        ghost var before := line[..];
        line[i] := ReconstructByte(filterType, line[i], left, up, upLeft);
        assert line[..] == before[i := line[i]];
      } else if whole {
        assert line[..][i := (line[i] + 0) % 256] == line[..];
      }
    }
    ok := true;
  }
}
