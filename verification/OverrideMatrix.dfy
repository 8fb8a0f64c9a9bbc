/** The cross-repo override matrix: one pass over every spoke's matches and
    orphans, proved to build what the whole input declares. */
module OverrideMatrix {
  import opened Wrappers
  import opened Sequences
  import opened Text
  import opened Provenances
  import Ordering

  datatype MatchInput = MatchInput(
    hubKey: string, file: string, spokeKey: string, spokeValue: string, confidence: real,
    provenance: Provenance, hubValue: Option<string>, hubValueUnknown: bool)

  datatype SpokePin = SpokePin(rev: string, via: Option<string>)

  datatype SpokeInput = SpokeInput(
    name: string, matches: seq<MatchInput>, orphans: seq<(string, string)>, pin: Option<SpokePin>)

  datatype Cell = Cell(
    value: string, spokeKey: string, confidence: real, provenance: Provenance,
    differs: bool, baseline: Option<string>, baselineUnknown: bool)

  datatype Row = Row(hubKey: string, file: string, hubValue: string, cells: map<string, Cell>)

  datatype DriftCell = DriftCell(value: string, conflict: bool)

  datatype Drift = Drift(key: string, cells: map<string, DriftCell>)

  datatype Matrix = Matrix(
    hub: string, pinned: bool, pins: map<string, SpokePin>, spokes: seq<string>, rows: seq<Row>, drift: seq<Drift>)

  type HubValues = map<string, string>
  type Occurrence = (string, MatchInput)         // a spoke's name and one of its matches
  type OrphanUse = (string, string, string)      // a spoke's name, an orphan key, its value

  function HubValueOf(hubValues: HubValues, key: string): string {
    if key in hubValues then hubValues[key] else ""
  }

  function MeasuredAgainst(hubValues: HubValues, m: MatchInput): string {
    m.hubValue.GetOr(HubValueOf(hubValues, m.hubKey))
  }

  function Differs(hubValues: HubValues, m: MatchInput): bool {
    !m.hubValueUnknown && MeasuredAgainst(hubValues, m) != m.spokeValue
  }

  function CellOf(hubValues: HubValues, m: MatchInput): Cell {
    var against := MeasuredAgainst(hubValues, m);
    Cell(m.spokeValue, m.spokeKey, m.confidence, m.provenance, Differs(hubValues, m),
         if !m.hubValueUnknown && against != HubValueOf(hubValues, m.hubKey) then Some(against) else None,
         m.hubValueUnknown)
  }

  // ---- What the input declares ----------------------------------------------

  function Flat(spokes: seq<SpokeInput>): seq<Occurrence> {
    if spokes == [] then []
    else
      var s := spokes[|spokes| - 1];
      Flat(spokes[..|spokes| - 1]) + Tagged(s.name, s.matches)
  }

  function Tagged(name: string, matches: seq<MatchInput>): (r: seq<Occurrence>)
    ensures |r| == |matches| && forall i :: 0 <= i < |matches| ==> r[i] == (name, matches[i])
  {
    seq(|matches|, i requires 0 <= i < |matches| => (name, matches[i]))
  }

  function FlatOrphans(spokes: seq<SpokeInput>): seq<OrphanUse> {
    if spokes == [] then []
    else
      var s := spokes[|spokes| - 1];
      FlatOrphans(spokes[..|spokes| - 1]) + TaggedOrphans(s.name, s.orphans)
  }

  function TaggedOrphans(name: string, orphans: seq<(string, string)>): (r: seq<OrphanUse>)
    ensures |r| == |orphans| && forall i :: 0 <= i < |orphans| ==> r[i] == (name, orphans[i].0, orphans[i].1)
  {
    seq(|orphans|, i requires 0 <= i < |orphans| => (name, orphans[i].0, orphans[i].1))
  }

  /** The non-empty source files reported for a hub key. */
  function Files(flat: seq<Occurrence>, key: string): set<string> {
    set x | x in flat && x.1.hubKey == key && x.1.file != "" :: x.1.file
  }

  /** The file every report agrees on, or nothing. */
  function FileOf(flat: seq<Occurrence>, key: string): string {
    var files := Files(flat, key);
    if |files| == 1 then Ordering.Least(files) else ""
  }

  function RowKeys(flat: seq<Occurrence>): set<string> {
    set x | x in flat :: x.1.hubKey
  }

  function Deploys(flat: seq<Occurrence>, key: string): set<string> {
    set x | x in flat && x.1.hubKey == key :: x.0
  }

  /** The match a spoke's cell shows: its first that differs, else its first. */
  function Shown(hubValues: HubValues, flat: seq<Occurrence>, name: string, key: string): Option<MatchInput> {
    if flat == [] then None
    else
      var before := Shown(hubValues, flat[..|flat| - 1], name, key);
      var x := flat[|flat| - 1];
      if x.0 != name || x.1.hubKey != key then before
      else if before.None? || (Differs(hubValues, x.1) && !Differs(hubValues, before.value)) then Some(x.1)
      else before
  }

  lemma {:induction false} ShownWhenPresent(hubValues: HubValues, flat: seq<Occurrence>, name: string, key: string)
    ensures Shown(hubValues, flat, name, key).Some? <==> name in Deploys(flat, key)
    ensures Shown(hubValues, flat, name, key).Some? ==> (name, Shown(hubValues, flat, name, key).value) in flat
    ensures Shown(hubValues, flat, name, key).Some? ==> Shown(hubValues, flat, name, key).value.hubKey == key
  {
    hide Differs;
    if flat != [] {
      var front, x := flat[..|flat| - 1], flat[|flat| - 1];
      ShownWhenPresent(hubValues, front, name, key);
      assert flat == front + [x];
      DeploysSnoc(front, x, key);
    }
  }

  lemma DeploysSnoc(flat: seq<Occurrence>, x: Occurrence, key: string)
    ensures Deploys(flat + [x], key) == Deploys(flat, key) + if x.1.hubKey == key then {x.0} else {}
    ensures Files(flat + [x], key) == Files(flat, key) + if x.1.hubKey == key && x.1.file != "" then {x.1.file} else {}
    ensures RowKeys(flat + [x]) == RowKeys(flat) + {x.1.hubKey}
  {
  }

  function Cells(hubValues: HubValues, flat: seq<Occurrence>, key: string): map<string, Cell> {
    map n | n in Deploys(flat, key) && Shown(hubValues, flat, n, key).Some? ::
      CellOf(hubValues, Shown(hubValues, flat, n, key).value)
  }

  function RowFor(hubValues: HubValues, flat: seq<Occurrence>, key: string): Row {
    Row(key, FileOf(flat, key), HubValueOf(hubValues, key), Cells(hubValues, flat, key))
  }

  function Rows(hubValues: HubValues, flat: seq<Occurrence>): map<string, Row> {
    map k | k in RowKeys(flat) :: RowFor(hubValues, flat, k)
  }

  function Ambiguous(flat: seq<Occurrence>): set<string> {
    set k | k in RowKeys(flat) && |Files(flat, k)| > 1
  }

  function Values(uses: seq<OrphanUse>, key: string, name: string): set<string> {
    set u | u in uses && u.0 == name && u.1 == key && u.2 != "" :: u.2
  }

  type DriftValues = map<string, map<string, set<string>>>

  function DriftKeys(uses: seq<OrphanUse>): set<string> {
    set u | u in uses :: u.1
  }

  function DriftNames(uses: seq<OrphanUse>, key: string): set<string> {
    set u | u in uses && u.1 == key :: u.0
  }

  function ByName(uses: seq<OrphanUse>, key: string): map<string, set<string>> {
    map n | n in DriftNames(uses, key) :: Values(uses, key, n)
  }

  function DriftOf(uses: seq<OrphanUse>): DriftValues {
    map k | k in DriftKeys(uses) :: ByName(uses, k)
  }

  function Columns(flat: seq<Occurrence>, uses: seq<OrphanUse>): set<string> {
    (set x | x in flat :: x.0) + (set u | u in uses :: u.0)
  }

  function DriftCellOf(values: set<string>): DriftCell {
    DriftCell(Join(Ordering.SortedSeq(values), " | "), |values| > 1)
  }

  function PinsOf(spokes: seq<SpokeInput>): map<string, SpokePin> {
    if spokes == [] then map[]
    else
      var before, s := PinsOf(spokes[..|spokes| - 1]), spokes[|spokes| - 1];
      if s.pin.Some? then before[s.name := s.pin.value] else before
  }

  /** The values of an ordered map, in key order. */
  function InOrder<V>(m: map<string, V>): (r: seq<V>)
    ensures |r| == |Ordering.SortedSeq(m.Keys)|
    ensures forall i :: 0 <= i < |r| ==> Ordering.SortedSeq(m.Keys)[i] in m && r[i] == m[Ordering.SortedSeq(m.Keys)[i]]
  {
    var keys := Ordering.SortedSeq(m.Keys);
    assert forall i :: 0 <= i < |keys| ==> keys[i] in Elements(keys);
    seq(|keys|, i requires 0 <= i < |keys| => m[keys[i]])
  }

  function DriftRows(drift: DriftValues): map<string, Drift> {
    map k | k in drift :: Drift(k, map n | n in drift[k] :: DriftCellOf(drift[k][n]))
  }

  function Declared(hub: string, hubValues: HubValues, spokes: seq<SpokeInput>, pinned: bool): Matrix {
    var flat, uses := Flat(spokes), FlatOrphans(spokes);
    Matrix(hub, pinned, PinsOf(spokes), Ordering.SortedSeq(Columns(flat, uses)),
           InOrder(Rows(hubValues, flat)), InOrder(DriftRows(DriftOf(uses))))
  }

  // ---- One pass -------------------------------------------------------------

  /** Reconcile a row's source file with one more report. */
  method AddFile(file: string, ambiguous: bool, reported: string, ghost flat: seq<Occurrence>, ghost x: Occurrence)
    returns (file': string, ambiguous': bool)
    requires file == FileOf(flat, x.1.hubKey) && (ambiguous <==> |Files(flat, x.1.hubKey)| > 1) && reported == x.1.file
    ensures file' == FileOf(flat + [x], x.1.hubKey) && (ambiguous' <==> |Files(flat + [x], x.1.hubKey)| > 1)
  {
    file', ambiguous' := file, ambiguous;
    ghost var files := Files(flat, x.1.hubKey);
    DeploysSnoc(flat, x, x.1.hubKey);
    FewFiles(files);
    FewFiles(files + {reported});
    if reported != "" && !ambiguous {
      if file == "" {
        file' := reported;
      } else if file != reported {
        file', ambiguous' := "", true;
      }
    }
  }

  lemma FewFiles(files: set<string>)
    ensures |files| == 0 <==> files == {}
    ensures |files| == 1 ==> files == {Ordering.Least(files)}
    ensures forall f :: files == {f} ==> |files| == 1 && Ordering.Least(files) == f
    ensures forall f, g :: f in files && g in files && f != g ==> |files| > 1
    ensures forall f :: |files| > 1 ==> |files + {f}| > 1
  {
    if |files| == 1 {
      var f := Ordering.Least(files);
      assert |files - {f}| == 0;
      assert files == {f};
    }
    forall f, g | f in files && g in files && f != g ensures |files| > 1 {
      assert |files - {f} - {g}| == |files| - 2;
    }
    forall f | |files| > 1 ensures |files + {f}| > 1 {
      assert f in files ==> files + {f} == files;
      assert f !in files ==> |files + {f}| == |files| + 1;
    }
  }

  lemma ShownSnoc(hubValues: HubValues, flat: seq<Occurrence>, x: Occurrence, name: string, key: string)
    ensures var before := Shown(hubValues, flat, name, key);
            Shown(hubValues, flat + [x], name, key) ==
            if x.0 != name || x.1.hubKey != key then before
            else if before.None? || (Differs(hubValues, x.1) && !Differs(hubValues, before.value)) then Some(x.1)
            else before
  {
    assert (flat + [x])[..|flat + [x]| - 1] == flat;
  }

  lemma CellDiffers(hubValues: HubValues, m: MatchInput)
    ensures CellOf(hubValues, m).differs == Differs(hubValues, m)
  {
  }

  lemma CellsDomain(hubValues: HubValues, flat: seq<Occurrence>, key: string, n: string)
    ensures n in Cells(hubValues, flat, key) <==> n in Deploys(flat, key)
    ensures n in Deploys(flat, key) <==> Shown(hubValues, flat, n, key).Some?
    ensures n in Cells(hubValues, flat, key) ==>
              Cells(hubValues, flat, key)[n] == CellOf(hubValues, Shown(hubValues, flat, n, key).value)
  {
    ShownWhenPresent(hubValues, flat, n, key);
  }

  /** A cell already there stays unless only the new one differs. */
  lemma CellsSnoc(hubValues: HubValues, flat: seq<Occurrence>, x: Occurrence)
    ensures var key := x.1.hubKey;
            var cells, cell := Cells(hubValues, flat, key), CellOf(hubValues, x.1);
            Cells(hubValues, flat + [x], key) ==
            if x.0 in cells && !(cell.differs && !cells[x.0].differs) then cells else cells[x.0 := cell]
  {
    hide Shown, CellOf, Deploys, Cells;
    var key := x.1.hubKey;
    var cells, cell := Cells(hubValues, flat, key), CellOf(hubValues, x.1);
    var after := Cells(hubValues, flat + [x], key);
    forall n
      ensures n in after <==> n in cells || n == x.0
      ensures n in after && n != x.0 ==> after[n] == cells[n]
      ensures x.0 in after && after[x.0] == if x.0 in cells
              && !(cell.differs && !cells[x.0].differs) then cells[x.0] else cell
    {
      DeploysSnoc(flat, x, key);
      CellsDomain(hubValues, flat, key, n);
      CellsDomain(hubValues, flat + [x], key, n);
      CellsDomain(hubValues, flat, key, x.0);
      CellsDomain(hubValues, flat + [x], key, x.0);
      ShownSnoc(hubValues, flat, x, n, key);
      ShownSnoc(hubValues, flat, x, x.0, key);
      CellDiffers(hubValues, x.1);
      if x.0 in cells {
        CellDiffers(hubValues, Shown(hubValues, flat, x.0, key).value);
      }
    }
  }

  lemma OtherRowUnchanged(hubValues: HubValues, flat: seq<Occurrence>, x: Occurrence, key: string)
    requires key != x.1.hubKey
    ensures RowFor(hubValues, flat + [x], key) == RowFor(hubValues, flat, key)
    ensures Files(flat + [x], key) == Files(flat, key)
  {
    hide Shown, CellOf, Deploys, Cells, Files;
    DeploysSnoc(flat, x, key);
    var a, b := Cells(hubValues, flat + [x], key), Cells(hubValues, flat, key);
    forall n ensures n in a <==> n in b
      ensures n in a ==> a[n] == b[n]
    {
      CellsDomain(hubValues, flat, key, n);
      CellsDomain(hubValues, flat + [x], key, n);
      ShownSnoc(hubValues, flat, x, n, key);
    }
    assert a == b;
  }

  lemma RowsSnoc(hubValues: HubValues, flat: seq<Occurrence>, x: Occurrence)
    ensures Rows(hubValues, flat + [x]) == Rows(hubValues, flat)[x.1.hubKey :=
            RowFor(hubValues, flat + [x], x.1.hubKey)]
    ensures x.1.hubKey in Rows(hubValues, flat) ==>
                Rows(hubValues, flat)[x.1.hubKey] == RowFor(hubValues, flat, x.1.hubKey)
  {
    hide RowFor, Files, RowKeys;
    DeploysSnoc(flat, x, x.1.hubKey);
    forall k | k in RowKeys(flat) && k != x.1.hubKey
      ensures RowFor(hubValues, flat + [x], k) == RowFor(hubValues, flat, k)
    {
      OtherRowUnchanged(hubValues, flat, x, k);
    }
  }

  lemma AmbiguousSnoc(hubValues: HubValues, flat: seq<Occurrence>, x: Occurrence)
    ensures Ambiguous(flat + [x]) == Ambiguous(flat) + if |Files(flat + [x], x.1.hubKey)| > 1 then {x.1.hubKey} else {}
    ensures x.1.hubKey in Ambiguous(flat) ==> |Files(flat + [x], x.1.hubKey)| > 1
  {
    hide Files, RowKeys;
    DeploysSnoc(flat, x, x.1.hubKey);
    FewFiles(Files(flat, x.1.hubKey));
    forall k | k != x.1.hubKey ensures Files(flat + [x], k) == Files(flat, k) {
      OtherRowUnchanged(hubValues, flat, x, k);
    }
    FreshRow(hubValues, flat, x.1.hubKey);
  }

  lemma FreshRow(hubValues: HubValues, flat: seq<Occurrence>, key: string)
    ensures key in Rows(hubValues, flat) <==> key in RowKeys(flat)
    ensures key !in RowKeys(flat) ==>
              && FileOf(flat, key) == "" && Cells(hubValues, flat, key) == map[]
              && Files(flat, key) == {} && key !in Ambiguous(flat)
    ensures key in Ambiguous(flat) <==> |Files(flat, key)| > 1
  {
    hide CellOf, Shown;
    if key !in RowKeys(flat) {
      forall x | x in flat ensures x.1.hubKey != key {
        assert x.1.hubKey in RowKeys(flat);
      }
      assert Files(flat, key) == {} && Deploys(flat, key) == {};
    }
    if Files(flat, key) != {} {
      var f :| f in Files(flat, key);
    }
  }

  /** The body of the inner loop over a spoke's matches. */
  method AddMatch(hubValues: HubValues, name: string, m: MatchInput, rows: map<string, Row>, ambiguous: set<string>,
      ghost flat: seq<Occurrence>)
    returns (rows': map<string, Row>, ambiguous': set<string>)
    requires rows == Rows(hubValues, flat) && ambiguous == Ambiguous(flat)
    ensures rows' == Rows(hubValues, flat + [(name, m)]) && ambiguous' == Ambiguous(flat + [(name, m)])
  {
    hide Rows, Ambiguous, Files, FileOf, Cells, RowKeys;
    ghost var x := (name, m);
    FreshRow(hubValues, flat, m.hubKey);
    RowsSnoc(hubValues, flat, x);
    AmbiguousSnoc(hubValues, flat, x);
    CellsSnoc(hubValues, flat, x);
    var hubValue := HubValueOf(hubValues, m.hubKey);
    var measuredAgainst := m.hubValue.GetOr(hubValue);
    var differs := !m.hubValueUnknown && measuredAgainst != m.spokeValue;
    var baseline := if !m.hubValueUnknown && measuredAgainst != hubValue then Some(measuredAgainst) else None;
    var row := if m.hubKey in rows then rows[m.hubKey] else Row(m.hubKey, "", hubValue, map[]);
    var file, isAmbiguous := AddFile(row.file, m.hubKey in ambiguous, m.file, flat, x);
    ambiguous' := if isAmbiguous then ambiguous + {m.hubKey} else ambiguous;
    var cell := Cell(m.spokeValue, m.spokeKey, m.confidence, m.provenance, differs, baseline, m.hubValueUnknown);
    var cells := row.cells;
    if name !in cells {
      cells := cells[name := cell];
    } else if cell.differs && !cells[name].differs {
      cells := cells[name := cell];
    }
    rows' := rows[m.hubKey := Row(row.hubKey, file, row.hubValue, cells)];
  }

  lemma DriftSnoc(uses: seq<OrphanUse>, u: OrphanUse)
    ensures var drift := DriftOf(uses);
            var byName := if u.1 in drift then drift[u.1] else map[];
            var values := if u.0 in byName then byName[u.0] else {};
            DriftOf(uses + [u]) == drift[u.1 := byName[u.0 := if u.2 != "" then values + {u.2} else values]]
  {
    hide ByName;
    assert DriftKeys(uses + [u]) == DriftKeys(uses) + {u.1};
    forall k
      ensures k != u.1 ==> ByName(uses + [u], k) == ByName(uses, k)
    {
      ByNameSnoc(uses, u, k);
    }
    ByNameSnoc(uses, u, u.1);
  }

  lemma ByNameSnoc(uses: seq<OrphanUse>, u: OrphanUse, k: string)
    ensures k !in DriftKeys(uses) ==> ByName(uses, k) == map[]
    ensures k != u.1 ==> ByName(uses + [u], k) == ByName(uses, k)
    ensures k == u.1 ==>
              var byName := ByName(uses, k);
              var values := if u.0 in byName then byName[u.0] else {};
              ByName(uses + [u], k) == byName[u.0 := if u.2 != "" then values + {u.2} else values]
  {
    hide Values, DriftNames;
    ValuesSnoc(uses, u, k, "");
    var was, now := ByName(uses, k), ByName(uses + [u], k);
    forall n
      ensures n in now <==> n in was || (k == u.1 && n == u.0)
      ensures n in now ==>
                var before := if n in was then was[n] else {};
                now[n] == if u.1 == k && u.0 == n && u.2 != "" then before + {u.2} else before
    {
      ValuesSnoc(uses, u, k, n);
    }
  }

  lemma ValuesSnoc(uses: seq<OrphanUse>, u: OrphanUse, k: string, n: string)
    ensures DriftNames(uses + [u], k) == DriftNames(uses, k) + if u.1 == k then {u.0} else {}
    ensures Values(uses + [u], k, n) == Values(uses, k, n) + if u.1 == k && u.0 == n && u.2 != "" then {u.2} else {}
    ensures n !in DriftNames(uses, k) ==> Values(uses, k, n) == {}
    ensures k !in DriftKeys(uses) ==> DriftNames(uses, k) == {}
  {
    if Values(uses, k, n) != {} {
      var v :| v in Values(uses, k, n);
      assert n in DriftNames(uses, k);
    }
    if DriftNames(uses, k) != {} {
      var d :| d in DriftNames(uses, k);
      var w :| w in uses && w.1 == k;
      assert w.1 in DriftKeys(uses);
    }
  }

  method AddMatches(hubValues: HubValues, name: string, matches: seq<MatchInput>, rows: map<string, Row>,
      ambiguous: set<string>,
                    columns: set<string>, ghost flat: seq<Occurrence>, ghost uses: seq<OrphanUse>)
    returns (rows': map<string, Row>, ambiguous': set<string>, columns': set<string>)
    requires rows == Rows(hubValues, flat) && ambiguous == Ambiguous(flat) && columns == Columns(flat, uses)
    ensures rows' == Rows(hubValues, flat + Tagged(name, matches))
            && ambiguous' == Ambiguous(flat + Tagged(name, matches))
    ensures columns' == Columns(flat + Tagged(name, matches), uses)
  {
    hide Rows, Ambiguous, Columns;
    rows', ambiguous', columns' := rows, ambiguous, columns;
    assert flat + Tagged(name, matches[..0]) == flat;
    for i := 0 to |matches|
      invariant rows' == Rows(hubValues, flat + Tagged(name, matches[..i]))
      invariant ambiguous' == Ambiguous(flat + Tagged(name, matches[..i]))
      invariant columns' == Columns(flat + Tagged(name, matches[..i]), uses)
    {
      ghost var sofar := flat + Tagged(name, matches[..i]);
      rows', ambiguous' := AddMatch(hubValues, name, matches[i], rows', ambiguous', sofar);
      columns' := columns' + {name};
      ColumnsSnoc(sofar, uses, (name, matches[i]));
      assert flat + Tagged(name, matches[..i + 1]) == sofar + [(name, matches[i])];
    }
    assert matches[..|matches|] == matches;
  }

  lemma ColumnsSnoc(flat: seq<Occurrence>, uses: seq<OrphanUse>, x: Occurrence)
    ensures Columns(flat + [x], uses) == Columns(flat, uses) + {x.0}
  {
  }

  lemma ColumnsSnocOrphan(flat: seq<Occurrence>, uses: seq<OrphanUse>, u: OrphanUse)
    ensures Columns(flat, uses + [u]) == Columns(flat, uses) + {u.0}
  {
  }

  method AddOrphans(name: string, orphans: seq<(string, string)>, drift: DriftValues, columns: set<string>,
                    ghost flat: seq<Occurrence>, ghost uses: seq<OrphanUse>)
    returns (drift': DriftValues, columns': set<string>)
    requires drift == DriftOf(uses) && columns == Columns(flat, uses)
    ensures drift' == DriftOf(uses + TaggedOrphans(name, orphans))
    ensures columns' == Columns(flat, uses + TaggedOrphans(name, orphans))
  {
    hide DriftOf, Columns;
    drift', columns' := drift, columns;
    assert uses + TaggedOrphans(name, orphans[..0]) == uses;
    for i := 0 to |orphans|
      invariant drift' == DriftOf(uses + TaggedOrphans(name, orphans[..i]))
      invariant columns' == Columns(flat, uses + TaggedOrphans(name, orphans[..i]))
    {
      ghost var sofar := uses + TaggedOrphans(name, orphans[..i]);
      var key, value := orphans[i].0, orphans[i].1;
      DriftSnoc(sofar, (name, key, value));
      ColumnsSnocOrphan(flat, sofar, (name, key, value));
      var byName := if key in drift' then drift'[key] else map[];
      var values := if name in byName then byName[name] else {};
      if value != "" {
        values := values + {value};
      }
      drift' := drift'[key := byName[name := values]];
      columns' := columns' + {name};
      assert uses + TaggedOrphans(name, orphans[..i + 1]) == sofar + [(name, key, value)];
    }
    assert orphans[..|orphans|] == orphans;
  }

  /** One pass builds what the whole input declares. */
  method Build(hub: string, hubValues: HubValues, spokes: seq<SpokeInput>, pinned: bool) returns (m: Matrix)
    ensures m == Declared(hub, hubValues, spokes, pinned)
  {
    hide Rows, Ambiguous, Columns, DriftOf, DriftRows, InOrder;
    var rows: map<string, Row>, ambiguous: set<string>, columns: set<string>, drift: DriftValues :=
        map[], {}, {}, map[];
    StartEmpty(hubValues);
    for i := 0 to |spokes|
      invariant rows == Rows(hubValues, Flat(spokes[..i])) && ambiguous == Ambiguous(Flat(spokes[..i]))
      invariant columns == Columns(Flat(spokes[..i]), FlatOrphans(spokes[..i]))
      invariant drift == DriftOf(FlatOrphans(spokes[..i]))
    {
      ghost var flat, uses := Flat(spokes[..i]), FlatOrphans(spokes[..i]);
      var s := spokes[i];
      assert spokes[..i + 1][..i] == spokes[..i];
      rows, ambiguous, columns := AddMatches(hubValues, s.name, s.matches, rows, ambiguous, columns, flat, uses);
      drift, columns := AddOrphans(s.name, s.orphans, drift, columns, flat + Tagged(s.name, s.matches), uses);
    }
    assert spokes[..|spokes|] == spokes;
    m := Matrix(hub, pinned, PinsOf(spokes), Ordering.SortedSeq(columns), InOrder(rows), InOrder(DriftRows(drift)));
  }

  lemma StartEmpty(hubValues: HubValues)
    ensures Rows(hubValues, []) == map[] && Ambiguous([]) == {} && Columns([], []) == {} && DriftOf([]) == map[]
  {
  }

  // ---- What the matrix says, in terms of the input --------------------------

  /** A cell differs exactly when some match of that spoke for that key does: a
      restatement never hides an override. It shows the first that differs, or
      the first of all. */
  lemma {:induction false} ShownIsFirstThatDiffers(hubValues: HubValues, flat: seq<Occurrence>, name: string,
      key: string) returns (i: nat)
    requires name in Deploys(flat, key)
    ensures Shown(hubValues, flat, name, key).Some?
    ensures i < |flat| && flat[i] == (name, Shown(hubValues, flat, name, key).value) && flat[i].1.hubKey == key
    ensures Differs(hubValues, flat[i].1) <==>
              exists x :: x in flat && x.0 == name && x.1.hubKey == key && Differs(hubValues, x.1)
    ensures forall j :: 0 <= j < i && flat[j].0 == name && flat[j].1.hubKey == key ==>
              Differs(hubValues, flat[i].1) && !Differs(hubValues, flat[j].1)
  {
    hide Differs;
    var front, x := flat[..|flat| - 1], flat[|flat| - 1];
    assert flat == front + [x];
    ShownWhenPresent(hubValues, flat, name, key);
    ShownWhenPresent(hubValues, front, name, key);
    if name in Deploys(front, key) {
      i := ShownIsFirstThatDiffers(hubValues, front, name, key);
      assert forall y :: y in flat <==> y in front || y == x;
      if x.0 == name && x.1.hubKey == key && Differs(hubValues, x.1) && !Differs(hubValues, front[i].1) {
        i := |flat| - 1;
        forall j | 0 <= j < i && flat[j].0 == name && flat[j].1.hubKey == key ensures !Differs(hubValues, flat[j].1) {
          assert flat[j] == front[j] && front[j] in front;
        }
      }
    } else {
      i := |flat| - 1;
      assert forall y :: y in front && y.1.hubKey == key ==> y.0 in Deploys(front, key);
      assert forall j :: 0 <= j < i ==> flat[j] in front;
    }
  }

  /** The row's file is f exactly when the non-empty files reported are {f}. */
  lemma RowFileIff(hubValues: HubValues, flat: seq<Occurrence>, key: string, f: string)
    requires f != ""
    ensures RowFor(hubValues, flat, key).file == f <==> Files(flat, key) == {f}
  {
    FewFiles(Files(flat, key));
  }

  /** A drift cell conflicts exactly when its deploy gave the key two different
      non-empty values, and a lone value is shown as it is. */
  lemma DriftConflictIff(uses: seq<OrphanUse>, key: string, name: string)
    ensures DriftCellOf(Values(uses, key, name)).conflict <==>
              exists v, w :: v != w && v != "" && w != "" && (name, key, v) in uses && (name, key, w) in uses
    ensures forall v :: Values(uses, key, name) == {v} ==> DriftCellOf(Values(uses, key, name)) == DriftCell(v, false)
    ensures Values(uses, key, name) == {} ==> DriftCellOf(Values(uses, key, name)) == DriftCell("", false)
  {
    var values := Values(uses, key, name);
    FewFiles(values);
    forall v ensures v in values <==> v != "" && (name, key, v) in uses {
    }
    if |values| > 1 {
      var v :| v in values;
      assert values - {v} != {};
      var w :| w in values - {v};
    }
    forall v | values == {v} ensures DriftCellOf(values) == DriftCell(v, false) {
      Ordering.SortedSingleton(v);
    }
  }

  /** Two inputs that say the same things, in whatever order. */
  ghost predicate SameInput(spokes: seq<SpokeInput>, spokes': seq<SpokeInput>) {
    && (forall x :: x in Flat(spokes) <==> x in Flat(spokes'))
    && (forall u :: u in FlatOrphans(spokes) <==> u in FlatOrphans(spokes'))
  }

  lemma {:induction false} FlatMeans(spokes: seq<SpokeInput>)
    ensures forall x :: x in Flat(spokes) <==> exists s :: s in spokes && s.name == x.0 && x.1 in s.matches
    ensures forall u ::
              u in FlatOrphans(spokes) <==> exists s :: s in spokes && s.name == u.0 && (u.1, u.2) in s.orphans
  {
    if spokes != [] {
      var front, s := spokes[..|spokes| - 1], spokes[|spokes| - 1];
      FlatMeans(front);
      assert forall t :: t in spokes <==> t in front || t == s;
      TaggedMeans(s);
    }
  }

  lemma TaggedMeans(s: SpokeInput)
    ensures forall x :: x in Tagged(s.name, s.matches) <==> x.0 == s.name && x.1 in s.matches
    ensures forall u :: u in TaggedOrphans(s.name, s.orphans) <==> u.0 == s.name && (u.1, u.2) in s.orphans
  {
    var tagged, uses := Tagged(s.name, s.matches), TaggedOrphans(s.name, s.orphans);
    forall x: Occurrence | x.0 == s.name && x.1 in s.matches ensures x in tagged {
      var i :| 0 <= i < |s.matches| && s.matches[i] == x.1;
      assert tagged[i] == x;
    }
    forall u: OrphanUse | u.0 == s.name && (u.1, u.2) in s.orphans ensures u in uses {
      var i :| 0 <= i < |s.orphans| && s.orphans[i] == (u.1, u.2);
      assert uses[i] == u;
    }
  }

  /** What a spoke reports, its order forgotten. */
  datatype Reports = Reports(
    name: string, matches: multiset<MatchInput>, orphans: multiset<(string, string)>, pin: Option<SpokePin>)

  ghost function ReportsOf(s: SpokeInput): Reports {
    Reports(s.name, multiset(s.matches), multiset(s.orphans), s.pin)
  }

  ghost function AllReports(spokes: seq<SpokeInput>): (r: seq<Reports>)
    ensures |r| == |spokes| && forall i :: 0 <= i < |spokes| ==> r[i] == ReportsOf(spokes[i])
  {
    seq(|spokes|, i requires 0 <= i < |spokes| => ReportsOf(spokes[i]))
  }

  /** The spokes in another order, each with its matches and its orphans in
      another order. */
  ghost predicate Reordered(spokes: seq<SpokeInput>, spokes': seq<SpokeInput>) {
    multiset(AllReports(spokes)) == multiset(AllReports(spokes'))
  }

  /** Reordering says the same things. */
  lemma ReorderingSaysTheSame(spokes: seq<SpokeInput>, spokes': seq<SpokeInput>)
    requires Reordered(spokes, spokes')
    ensures SameInput(spokes, spokes')
  {
    hide ReportsOf;
    FlatMeans(spokes);
    FlatMeans(spokes');
    AlsoReported(spokes, spokes');
    AlsoReported(spokes', spokes);
  }

  lemma AlsoReported(spokes: seq<SpokeInput>, spokes': seq<SpokeInput>)
    requires Reordered(spokes, spokes')
    ensures forall s, m :: s in spokes && m in s.matches ==>
                exists t :: t in spokes' && t.name == s.name && m in t.matches
    ensures forall s, o :: s in spokes && o in s.orphans ==>
                exists t :: t in spokes' && t.name == s.name && o in t.orphans
  {
    forall s | s in spokes ensures exists t :: t in spokes' && ReportsOf(t) == ReportsOf(s) {
      var i :| 0 <= i < |spokes| && spokes[i] == s;
      assert AllReports(spokes)[i] in multiset(AllReports(spokes));
      assert ReportsOf(s) in AllReports(spokes');
      var j :| 0 <= j < |spokes'| && AllReports(spokes')[j] == ReportsOf(s);
      assert spokes'[j] in spokes';
    }
    forall s, m | s in spokes && m in s.matches ensures exists t :: t in spokes' && t.name == s.name && m in t.matches {
      var t :| t in spokes' && ReportsOf(t) == ReportsOf(s);
      assert m in multiset(s.matches) && m in multiset(t.matches);
    }
    forall s, o | s in spokes && o in s.orphans ensures exists t :: t in spokes' && t.name == s.name && o in t.orphans {
      var t :| t in spokes' && ReportsOf(t) == ReportsOf(s);
      assert o in multiset(s.orphans) && o in multiset(t.orphans);
    }
  }

  /** Rows, files, hub values, cells present, differing flags, columns and the
      whole drift table do not depend on the order of the input. */
  lemma OrderDoesNotMatter(hubValues: HubValues, spokes: seq<SpokeInput>, spokes': seq<SpokeInput>, key: string,
      name: string)
    requires SameInput(spokes, spokes')
    ensures var flat, flat', uses, uses' := Flat(spokes), Flat(spokes'), FlatOrphans(spokes), FlatOrphans(spokes');
            var row, row' := RowFor(hubValues, flat, key), RowFor(hubValues, flat', key);
            && RowKeys(flat) == RowKeys(flat') && Columns(flat, uses) == Columns(flat', uses')
                && DriftOf(uses) == DriftOf(uses')
            && row.file == row'.file && row.hubValue == row'.hubValue && row.cells.Keys == row'.cells.Keys
            && (name in row.cells ==> row.cells[name].differs == row'.cells[name].differs)
  {
    hide Differs, Shown, CellOf;
    var flat, flat', uses, uses' := Flat(spokes), Flat(spokes'), FlatOrphans(spokes), FlatOrphans(spokes');
    DriftIgnoresOrder(uses, uses');
    assert Files(flat, key) == Files(flat', key);
    assert Deploys(flat, key) == Deploys(flat', key);
    var row, row' := RowFor(hubValues, flat, key), RowFor(hubValues, flat', key);
    forall n ensures n in row.cells <==> n in row'.cells {
      CellsDomain(hubValues, flat, key, n);
      CellsDomain(hubValues, flat', key, n);
    }
    CellsDomain(hubValues, flat, key, name);
    CellsDomain(hubValues, flat', key, name);
    if name in row.cells {
      var i := ShownIsFirstThatDiffers(hubValues, flat, name, key);
      var j := ShownIsFirstThatDiffers(hubValues, flat', name, key);
      CellDiffers(hubValues, flat[i].1);
      CellDiffers(hubValues, flat'[j].1);
    }
  }

  lemma DriftIgnoresOrder(uses: seq<OrphanUse>, uses': seq<OrphanUse>)
    requires forall u :: u in uses <==> u in uses'
    ensures DriftOf(uses) == DriftOf(uses')
  {
    assert DriftKeys(uses) == DriftKeys(uses');
    var a, b := DriftOf(uses), DriftOf(uses');
    forall k | k in a ensures a[k] == b[k] {
      assert DriftNames(uses, k) == DriftNames(uses', k);
      forall n ensures Values(uses, k, n) == Values(uses', k, n) {
      }
      assert ByName(uses, k) == ByName(uses', k);
    }
  }

  predicate Candidate(x: Occurrence, key: string, name: string) {
    x.0 == name && x.1.hubKey == key
  }

  /** A match that some order of the input puts in the cell: one that differs,
      or any when none does. */
  ghost predicate Eligible(hubValues: HubValues, flat: seq<Occurrence>, x: Occurrence, key: string, name: string) {
    && x in flat && Candidate(x, key, name)
    && (Differs(hubValues, x.1) || forall y :: y in flat && Candidate(y, key, name) ==> !Differs(hubValues, y.1))
  }

  ghost predicate SameCell(hubValues: HubValues, flat: seq<Occurrence>, flat': seq<Occurrence>, key: string,
      name: string) {
    var cells, cells' := RowFor(hubValues, flat, key).cells, RowFor(hubValues, flat', key).cells;
    name in cells && name in cells' && cells[name] == cells'[name]
  }

  lemma ShownIsEligible(hubValues: HubValues, flat: seq<Occurrence>, key: string, name: string) returns (x: Occurrence)
    requires name in Deploys(flat, key)
    ensures Eligible(hubValues, flat, x, key, name)
    ensures name in RowFor(hubValues, flat, key).cells
    ensures RowFor(hubValues, flat, key).cells[name] == CellOf(hubValues, x.1)
    ensures Candidate(flat[0], key, name) && Eligible(hubValues, flat, flat[0], key, name) ==> x == flat[0]
  {
    hide Differs, Shown, CellOf;
    var i := ShownIsFirstThatDiffers(hubValues, flat, name, key);
    CellsDomain(hubValues, flat, key, name);
    x := flat[i];
  }

  lemma ToFront<T>(xs: seq<T>, i: nat) returns (moved: seq<T>)
    requires i < |xs|
    ensures moved == [xs[i]] + xs[..i] + xs[i + 1..] && multiset(moved) == multiset(xs)
  {
    moved := [xs[i]] + xs[..i] + xs[i + 1..];
    assert xs == xs[..i] + [xs[i]] + xs[i + 1..];
  }

  /** Some order of the input has any given report first of all. */
  lemma ReportToFront(spokes: seq<SpokeInput>, x: Occurrence) returns (spokes': seq<SpokeInput>)
    requires x in Flat(spokes)
    ensures Reordered(spokes, spokes') && Flat(spokes') != [] && Flat(spokes')[0] == x
  {
    hide Flat, FlatOrphans;
    FlatMeans(spokes);
    var s :| s in spokes && s.name == x.0 && x.1 in s.matches;
    var i :| 0 <= i < |spokes| && spokes[i] == s;
    var k :| 0 <= k < |s.matches| && s.matches[k] == x.1;
    var matches := ToFront(s.matches, k);
    var s' := s.(matches := matches);
    spokes' := [s'] + (spokes[..i] + spokes[i + 1..]);
    FlatStarts(s', spokes[..i] + spokes[i + 1..]);
    SpokeToFront(spokes, i, s');
  }

  lemma SpokeToFront(spokes: seq<SpokeInput>, i: nat, s': SpokeInput)
    requires i < |spokes| && ReportsOf(s') == ReportsOf(spokes[i])
    ensures Reordered(spokes, [s'] + (spokes[..i] + spokes[i + 1..]))
  {
    hide ReportsOf;
    var reports := AllReports(spokes);
    var moved := ToFront(reports, i);
    assert AllReports([s'] + (spokes[..i] + spokes[i + 1..])) == moved;
  }

  lemma {:induction false} FlatStarts(s: SpokeInput, rest: seq<SpokeInput>)
    requires s.matches != []
    ensures Flat([s] + rest) != [] && Flat([s] + rest)[0] == (s.name, s.matches[0])
  {
    var all := [s] + rest;
    if rest == [] {
      assert all[..|all| - 1] == [] && Flat([]) == [] && all[|all| - 1] == s;
    } else {
      assert all[..|all| - 1] == [s] + rest[..|rest| - 1];
      FlatStarts(s, rest[..|rest| - 1]);
    }
  }

  ghost predicate EligibleAgree(hubValues: HubValues, flat: seq<Occurrence>, key: string, name: string) {
    forall x, y :: Eligible(hubValues, flat, x, key, name) && Eligible(hubValues, flat, y, key, name) ==>
      CellOf(hubValues, x.1) == CellOf(hubValues, y.1)
  }

  /** A whole cell is independent of the order of the input exactly when all the
      matches some order would show make the same cell. */
  lemma CellIgnoresOrderIff(hubValues: HubValues, spokes: seq<SpokeInput>, key: string, name: string)
    requires name in Deploys(Flat(spokes), key)
    ensures (forall spokes' :: Reordered(spokes, spokes') ==>
                SameCell(hubValues, Flat(spokes), Flat(spokes'), key, name))
            <==> EligibleAgree(hubValues, Flat(spokes), key, name)
  {
    hide Differs, Shown, CellOf, RowFor, Reordered, Flat;
    var flat := Flat(spokes);
    var shown := ShownIsEligible(hubValues, flat, key, name);
    if EligibleAgree(hubValues, flat, key, name) {
      forall spokes' | Reordered(spokes, spokes') ensures SameCell(hubValues, flat, Flat(spokes'), key, name) {
        var flat' := Flat(spokes');
        ReorderingSaysTheSame(spokes, spokes');
        assert Deploys(flat', key) == Deploys(flat, key);
        var shown' := ShownIsEligible(hubValues, flat', key, name);
        assert Eligible(hubValues, flat, shown', key, name);
      }
    }
    if forall spokes' :: Reordered(spokes, spokes') ==> SameCell(hubValues, flat, Flat(spokes'), key, name) {
      forall x | Eligible(hubValues, flat, x, key, name) ensures CellOf(hubValues, x.1) == CellOf(hubValues, shown.1) {
        var spokes' := ReportToFront(spokes, x);
        var flat' := Flat(spokes');
        ReorderingSaysTheSame(spokes, spokes');
        assert Deploys(flat', key) == Deploys(flat, key);
        assert Eligible(hubValues, flat', x, key, name);
        var first := ShownIsEligible(hubValues, flat', key, name);
        assert SameCell(hubValues, flat, flat', key, name);
      }
    }
  }

  /** One deploy sets a key in two files, to two values that both differ from
      the hub's: the order of its files decides which one its cell shows. */
  lemma TwoOverridesDependOnOrder(hubValues: HubValues)
    requires "port" in hubValues && hubValues["port"] == "80"
    ensures var a := MatchInput("port", "app.toml", "port", "8080", 0.9, Inferred, None, false);
            var b := a.(spokeValue := "9090");
            var one, other := Flat([SpokeInput("prod", [a, b], [], None)]),
                Flat([SpokeInput("prod", [b, a], [], None)]);
            var cells, cells' := RowFor(hubValues, one, "port").cells, RowFor(hubValues, other, "port").cells;
            && "prod" in cells && cells["prod"].value == "8080"
            && "prod" in cells' && cells'["prod"].value == "9090"
  {
    var a := MatchInput("port", "app.toml", "port", "8080", 0.9, Inferred, None, false);
    var b := a.(spokeValue := "9090");
    FirstOverrideShown(hubValues, a, b);
    FirstOverrideShown(hubValues, b, a);
  }

  lemma FirstOverrideShown(hubValues: HubValues, a: MatchInput, b: MatchInput)
    requires a.hubKey == b.hubKey && Differs(hubValues, a)
    ensures var flat := Flat([SpokeInput("prod", [a, b], [], None)]);
            && "prod" in RowFor(hubValues, flat, a.hubKey).cells
            && RowFor(hubValues, flat, a.hubKey).cells["prod"] == CellOf(hubValues, a)
  {
    hide Differs, CellOf;
    var s := SpokeInput("prod", [a, b], [], None);
    FlatStarts(s, []);
    assert [s] + [] == [s];
    FlatMeans([s]);
    var flat := Flat([s]);
    assert ("prod", a) in flat;
    assert "prod" in Deploys(flat, a.hubKey);
    assert Eligible(hubValues, flat, flat[0], a.hubKey, "prod");
    var x := ShownIsEligible(hubValues, flat, a.hubKey, "prod");
  }
}
