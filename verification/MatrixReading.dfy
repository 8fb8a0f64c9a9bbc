/** What the built override matrix says, read off the spokes it was built from. */
module MatrixReading {
  import opened Wrappers
  import opened Sequences
  import opened Text
  import opened OverrideMatrix
  import Ordering

  /** Some spoke reports the match under its name. */
  ghost predicate Reports(spokes: seq<SpokeInput>, name: string, m: MatchInput) {
    exists s :: s in spokes && s.name == name && m in s.matches
  }

  /** Some spoke sets the key, which no hub key matched, to the value. */
  ghost predicate Sets(spokes: seq<SpokeInput>, name: string, key: string, value: string) {
    exists s :: s in spokes && s.name == name && (key, value) in s.orphans
  }

  lemma FlatReports(spokes: seq<SpokeInput>)
    ensures forall name, m :: Reports(spokes, name, m) <==> (name, m) in Flat(spokes)
    ensures forall name, key, value :: Sets(spokes, name, key, value) <==> (name, key, value) in FlatOrphans(spokes)
  {
    hide Flat, FlatOrphans;
    FlatMeans(spokes);
    forall name, m ensures Reports(spokes, name, m) <==> (name, m) in Flat(spokes) {
      var x: Occurrence := (name, m);
      assert x.0 == name && x.1 == m;
    }
    forall name, key, value ensures Sets(spokes, name, key, value) <==> (name, key, value) in FlatOrphans(spokes) {
      var u: OrphanUse := (name, key, value);
      assert u.0 == name && u.1 == key && u.2 == value;
    }
  }

  // ---- Rows and cells -------------------------------------------------------

  lemma RowAt(hub: string, hubValues: HubValues, spokes: seq<SpokeInput>, pinned: bool, r: nat)
    requires r < |Declared(hub, hubValues, spokes, pinned).rows|
    ensures var key := Declared(hub, hubValues, spokes, pinned).rows[r].hubKey;
            && key in RowKeys(Flat(spokes))
            && Declared(hub, hubValues, spokes, pinned).rows[r] == RowFor(hubValues, Flat(spokes), key)
  {
    hide RowFor, Flat;
    var keys := Ordering.SortedSeq(Rows(hubValues, Flat(spokes)).Keys);
    assert keys[r] in Elements(keys);
    RowIsForItsKey(hubValues, Flat(spokes), keys[r]);
  }

  lemma RowIsForItsKey(hubValues: HubValues, flat: seq<Occurrence>, key: string)
    ensures RowFor(hubValues, flat, key).hubKey == key
    ensures RowFor(hubValues, flat, key).hubValue == if key in hubValues then hubValues[key] else ""
  {
  }

  /** There is a row for exactly the hub keys that were matched, one each, in key
      order, carrying the hub's own value, empty when it has none. */
  lemma RowsAre(hub: string, hubValues: HubValues, spokes: seq<SpokeInput>, pinned: bool, key: string)
    ensures var rows := Declared(hub, hubValues, spokes, pinned).rows;
            && (forall i, j :: 0 <= i < j < |rows| ==> Ordering.Less(rows[i].hubKey, rows[j].hubKey))
            && ((exists i :: 0 <= i < |rows| && rows[i].hubKey == key) <==>
                 exists name, m :: Reports(spokes, name, m) && m.hubKey == key)
            && forall i :: 0 <= i < |rows| ==>
                 rows[i].hubValue == if rows[i].hubKey in hubValues then hubValues[rows[i].hubKey] else ""
  {
    hide Flat, Ordering.Less, RowFor;
    var flat := Flat(spokes);
    var all := Rows(hubValues, flat);
    var keys := Ordering.SortedSeq(all.Keys);
    var rows := Declared(hub, hubValues, spokes, pinned).rows;
    FlatReports(spokes);
    forall i | 0 <= i < |rows|
      ensures rows[i].hubKey == keys[i]
      ensures rows[i].hubValue == if rows[i].hubKey in hubValues then hubValues[rows[i].hubKey] else ""
    {
      assert keys[i] in Elements(keys);
      RowIsForItsKey(hubValues, flat, keys[i]);
    }
    assert key in Elements(keys) <==> key in RowKeys(flat);
    if key in RowKeys(flat) {
      var x :| x in flat && x.1.hubKey == key;
      assert x == (x.0, x.1);
      assert Reports(spokes, x.0, x.1);
      var i :| 0 <= i < |keys| && keys[i] == key;
      assert rows[i].hubKey == key;
    }
  }

  /** A row's file is the one file its matches name, blank names aside, and
      blank when they name none or several. */
  lemma RowFileIs(hub: string, hubValues: HubValues, spokes: seq<SpokeInput>, pinned: bool, r: nat, f: string)
    requires r < |Declared(hub, hubValues, spokes, pinned).rows| && f != ""
    ensures var row := Declared(hub, hubValues, spokes, pinned).rows[r];
            row.file == f <==>
            && (exists name, m :: Reports(spokes, name, m) && m.hubKey == row.hubKey && m.file == f)
            && (forall name, m :: Reports(spokes, name, m) && m.hubKey == row.hubKey ==> m.file == f || m.file == "")
  {
    hide Flat, Declared, RowFor, Rows;
    var flat := Flat(spokes);
    RowAt(hub, hubValues, spokes, pinned, r);
    var key := Declared(hub, hubValues, spokes, pinned).rows[r].hubKey;
    RowFileIff(hubValues, flat, key, f);
    FlatReports(spokes);
    FilesAre(flat, key, f);
    forall x | x in flat ensures Reports(spokes, x.0, x.1) {
      assert x == (x.0, x.1);
    }
  }

  lemma FilesAre(flat: seq<Occurrence>, key: string, f: string)
    requires f != ""
    ensures Files(flat, key) == {f} <==>
            && (exists x :: x in flat && x.1.hubKey == key && x.1.file == f)
            && (forall x :: x in flat && x.1.hubKey == key ==> x.1.file == f || x.1.file == "")
  {
    if Files(flat, key) == {f} {
      assert f in Files(flat, key);
      forall x | x in flat && x.1.hubKey == key ensures x.1.file == f || x.1.file == "" {
        assert x.1.file != "" ==> x.1.file in Files(flat, key);
      }
    }
  }

  /** A row has a cell for exactly the spokes that match its key. A cell is made
      of one match of that spoke and key: its value, key, confidence and
      provenance; it differs exactly when some match of that spoke and key has a
      known hub value, its own or else the hub's, and a value other than it; and
      it names the value it was measured against when that is known and is not
      the one in the row. */
  lemma CellIs(hub: string, hubValues: HubValues, spokes: seq<SpokeInput>, pinned: bool, r: nat, name: string)
    requires r < |Declared(hub, hubValues, spokes, pinned).rows|
    ensures var row := Declared(hub, hubValues, spokes, pinned).rows[r];
            name in row.cells <==> exists m :: Reports(spokes, name, m) && m.hubKey == row.hubKey
    ensures var row := Declared(hub, hubValues, spokes, pinned).rows[r];
            name in row.cells ==>
              var hubsOwn := if row.hubKey in hubValues then hubValues[row.hubKey] else "";
              var cell := row.cells[name];
              && (exists m ::
                    && Reports(spokes, name, m) && m.hubKey == row.hubKey
                    && cell.value == m.spokeValue && cell.spokeKey == m.spokeKey
                    && cell.confidence == m.confidence && cell.provenance == m.provenance
                    && cell.baselineUnknown == m.hubValueUnknown
                    && (cell.differs <==>
                          !m.hubValueUnknown && m.spokeValue != if m.hubValue.Some? then m.hubValue.value else hubsOwn)
                    && cell.baseline == if !m.hubValueUnknown && m.hubValue.Some? && m.hubValue.value != hubsOwn
                                        then m.hubValue else None)
              && (cell.differs <==>
                    exists m ::
                      && Reports(spokes, name, m) && m.hubKey == row.hubKey
                      && !m.hubValueUnknown
                      && m.spokeValue != if m.hubValue.Some? then m.hubValue.value else hubsOwn)
  {
    hide Flat, Shown, RowKeys, RowFor, Declared, Differs, CellOf;
    var flat := Flat(spokes);
    RowAt(hub, hubValues, spokes, pinned, r);
    var key := Declared(hub, hubValues, spokes, pinned).rows[r].hubKey;
    ReportedIffDeployed(spokes, name, key);
    CellsAreOfRow(hubValues, flat, key, name);
    if name in Deploys(flat, key) {
      var i := ShownIsFirstThatDiffers(hubValues, flat, name, key);
      var m := flat[i].1;
      CellIsOfMatch(hubValues, m);
      FlatReports(spokes);
      assert flat[i] == (name, m);
      assert Reports(spokes, name, m);
      forall x | x in flat && x.0 == name && x.1.hubKey == key ensures Reports(spokes, name, x.1) {
        assert x == (name, x.1);
      }
      forall o | Reports(spokes, name, o) && o.hubKey == key
        ensures (name, o) in flat
        ensures Differs(hubValues, o) <==>
                !o.hubValueUnknown && o.spokeValue != if o.hubValue.Some? then o.hubValue.value
                                                      else if key in hubValues then hubValues[key] else ""
      {
        CellIsOfMatch(hubValues, o);
      }
    }
  }

  lemma ReportedIffDeployed(spokes: seq<SpokeInput>, name: string, key: string)
    ensures name in Deploys(Flat(spokes), key) <==> exists m :: Reports(spokes, name, m) && m.hubKey == key
  {
    hide Flat;
    FlatReports(spokes);
    if name in Deploys(Flat(spokes), key) {
      var x :| x in Flat(spokes) && x.1.hubKey == key && x.0 == name;
      assert x == (name, x.1);
    }
    forall m | Reports(spokes, name, m) && m.hubKey == key ensures name in Deploys(Flat(spokes), key) {
      var x: Occurrence := (name, m);
      assert x in Flat(spokes) && x.1.hubKey == key;
    }
  }

  lemma CellsAreOfRow(hubValues: HubValues, flat: seq<Occurrence>, key: string, name: string)
    ensures name in RowFor(hubValues, flat, key).cells <==> name in Deploys(flat, key)
    ensures name in Deploys(flat, key) ==>
              && Shown(hubValues, flat, name, key).Some?
              && RowFor(hubValues, flat, key).cells[name] == CellOf(hubValues, Shown(hubValues, flat, name, key).value)
  {
    hide Shown, CellOf, Deploys;
    CellsDomain(hubValues, flat, key, name);
  }

  /** The cell of one match. */
  lemma CellIsOfMatch(hubValues: HubValues, m: MatchInput)
    ensures var cell := CellOf(hubValues, m);
            var hubsOwn := if m.hubKey in hubValues then hubValues[m.hubKey] else "";
            && cell.value == m.spokeValue && cell.spokeKey == m.spokeKey
            && cell.confidence == m.confidence && cell.provenance == m.provenance
            && cell.baselineUnknown == m.hubValueUnknown
            && cell.differs == Differs(hubValues, m)
            && (cell.differs <==>
                  !m.hubValueUnknown && m.spokeValue != if m.hubValue.Some? then m.hubValue.value else hubsOwn)
            && cell.baseline == if !m.hubValueUnknown && m.hubValue.Some? && m.hubValue.value != hubsOwn
                                then m.hubValue else None
  {
  }

  // ---- Drift, columns and pins ----------------------------------------------

  lemma DriftAt(hub: string, hubValues: HubValues, spokes: seq<SpokeInput>, pinned: bool, i: nat)
    requires i < |Declared(hub, hubValues, spokes, pinned).drift|
    ensures var uses, d := FlatOrphans(spokes), Declared(hub, hubValues, spokes, pinned).drift[i];
            && d.key in DriftKeys(uses)
            && d.cells == map n | n in DriftNames(uses, d.key) :: DriftCellOf(Values(uses, d.key, n))
  {
    hide FlatOrphans, DriftCellOf;
    var all := DriftRows(DriftOf(FlatOrphans(spokes)));
    var keys := Ordering.SortedSeq(all.Keys);
    assert keys[i] in Elements(keys);
  }

  /** Two values are shown in order with a bar between; a lone one as it is; none
      as nothing. */
  lemma DriftValueIs(values: set<string>, v: string, w: string)
    ensures DriftCellOf({}).value == "" && DriftCellOf({v}).value == v
    ensures Ordering.Less(v, w) ==> DriftCellOf({v, w}).value == v + " | " + w
  {
    assert Ordering.SortedSeq({}) == [];
    Ordering.SortedSingleton(v);
    if Ordering.Less(v, w) {
      SortedPair(v, w);
      assert Join([v, w], " | ") == Join([v], " | ") + " | " + w by {
        assert [v, w][..1] == [v];
      }
    }
  }

  lemma SortedPair(v: string, w: string)
    requires Ordering.Less(v, w)
    ensures Ordering.SortedSeq({v, w}) == [v, w]
  {
    hide Ordering.Less;
    Ordering.LessIsTotal(v, w);
    Ordering.LeastIsUnique(Ordering.Least({v, w}), v, {v, w});
    assert {v, w} - {v} == {w};
    Ordering.SortedSingleton(w);
    assert Ordering.SortedSeq({v, w}) == [v] + Ordering.SortedSeq({w});
  }

  /** The drift has one row for exactly the keys some spoke sets and no hub key
      matched, in key order, with a cell for exactly the spokes that set it. A
      cell conflicts exactly when its spoke sets the key to two different values,
      empty ones aside. */
  lemma DriftIs(hub: string, hubValues: HubValues, spokes: seq<SpokeInput>, pinned: bool, key: string)
    ensures var drift := Declared(hub, hubValues, spokes, pinned).drift;
            && (forall i, j :: 0 <= i < j < |drift| ==> Ordering.Less(drift[i].key, drift[j].key))
            && ((exists i :: 0 <= i < |drift| && drift[i].key == key) <==>
                 exists name, value :: Sets(spokes, name, key, value))
            && forall i, name :: 0 <= i < |drift| ==>
                 && (name in drift[i].cells <==> exists value :: Sets(spokes, name, drift[i].key, value))
                 && (name in drift[i].cells ==>
                       && (drift[i].cells[name].conflict <==>
                             exists v, w :: v != w && v != "" && w != ""
                                            && Sets(spokes, name, drift[i].key, v)
                                            && Sets(spokes, name, drift[i].key, w))
                       && ((forall v :: Sets(spokes, name, drift[i].key, v) ==> v == "") ==>
                             drift[i].cells[name].value == ""))
  {
    hide FlatOrphans, Ordering.Less, DriftCellOf;
    var uses := FlatOrphans(spokes);
    var drift := Declared(hub, hubValues, spokes, pinned).drift;
    FlatReports(spokes);
    DriftKeysAre(hub, hubValues, spokes, pinned, key);
    forall i, name | 0 <= i < |drift|
      ensures name in drift[i].cells <==> exists value :: Sets(spokes, name, drift[i].key, value)
      ensures name in drift[i].cells ==>
                (drift[i].cells[name].conflict <==>
                   exists v, w :: v != w && v != "" && w != ""
                                  && Sets(spokes, name, drift[i].key, v) && Sets(spokes, name, drift[i].key, w))
      ensures name in drift[i].cells && (forall v :: Sets(spokes, name, drift[i].key, v) ==> v == "") ==>
                drift[i].cells[name].value == ""
    {
      DriftAt(hub, hubValues, spokes, pinned, i);
      DriftCellAt(spokes, drift[i].key, name);
      DriftConflictIff(uses, drift[i].key, name);
    }
  }

  lemma DriftCellAt(spokes: seq<SpokeInput>, key: string, name: string)
    ensures name in DriftNames(FlatOrphans(spokes), key) <==> exists value :: Sets(spokes, name, key, value)
    ensures (forall v :: Sets(spokes, name, key, v) ==> v == "") ==> Values(FlatOrphans(spokes), key, name) == {}
  {
    hide FlatOrphans;
    FlatReports(spokes);
    if name in DriftNames(FlatOrphans(spokes), key) {
      var u :| u in FlatOrphans(spokes) && u.1 == key && u.0 == name;
      assert u == (name, key, u.2);
    }
    forall v | v in Values(FlatOrphans(spokes), key, name) ensures v != "" && Sets(spokes, name, key, v) {
      assert (name, key, v) in FlatOrphans(spokes);
    }
  }

  lemma DriftKeysAre(hub: string, hubValues: HubValues, spokes: seq<SpokeInput>, pinned: bool, key: string)
    ensures var drift := Declared(hub, hubValues, spokes, pinned).drift;
            && (forall i, j :: 0 <= i < j < |drift| ==> Ordering.Less(drift[i].key, drift[j].key))
            && ((exists i :: 0 <= i < |drift| && drift[i].key == key) <==>
                 exists name, value :: Sets(spokes, name, key, value))
  {
    hide FlatOrphans, Ordering.Less, DriftCellOf;
    var uses := FlatOrphans(spokes);
    var all := DriftRows(DriftOf(uses));
    var keys := Ordering.SortedSeq(all.Keys);
    var drift := Declared(hub, hubValues, spokes, pinned).drift;
    FlatReports(spokes);
    forall i | 0 <= i < |drift| ensures drift[i].key == keys[i] {
      assert keys[i] in Elements(keys);
    }
    assert key in Elements(keys) <==> key in DriftKeys(uses);
    if key in DriftKeys(uses) {
      var u :| u in uses && u.1 == key;
      assert u == (u.0, key, u.2);
      assert Sets(spokes, u.0, key, u.2);
      var i :| 0 <= i < |keys| && keys[i] == key;
      assert drift[i].key == key;
    }
  }

  /** The columns are exactly the spokes that report anything, in name order. */
  lemma ColumnsAre(hub: string, hubValues: HubValues, spokes: seq<SpokeInput>, pinned: bool)
    ensures var columns := Declared(hub, hubValues, spokes, pinned).spokes;
            && (forall i, j :: 0 <= i < j < |columns| ==> Ordering.Less(columns[i], columns[j]))
            && forall name :: name in columns <==>
                 (exists m :: Reports(spokes, name, m)) || exists key, value :: Sets(spokes, name, key, value)
  {
    hide Flat, FlatOrphans, Ordering.Less;
    var flat, uses := Flat(spokes), FlatOrphans(spokes);
    var columns := Declared(hub, hubValues, spokes, pinned).spokes;
    FlatReports(spokes);
    forall name ensures name in columns <==>
                        (exists m :: Reports(spokes, name, m)) || exists key, value :: Sets(spokes, name, key, value) {
      assert name in columns <==> name in Elements(columns);
      if x :| x in flat && x.0 == name {
        assert x == (name, x.1);
      }
      if u :| u in uses && u.0 == name {
        assert u == (name, u.1, u.2);
      }
      forall m | Reports(spokes, name, m) ensures name in Columns(flat, uses) {
        assert (name, m) in flat;
      }
      forall key, value | Sets(spokes, name, key, value) ensures name in Columns(flat, uses) {
        assert (name, key, value) in uses;
      }
    }
  }

  /** A spoke's pin is the last one given under its name. */
  lemma {:induction false} PinsAre(spokes: seq<SpokeInput>, name: string)
    ensures name in PinsOf(spokes) <==> exists i :: 0 <= i < |spokes| && spokes[i].name == name && spokes[i].pin.Some?
    ensures forall i ::
              && 0 <= i < |spokes| && spokes[i].name == name && spokes[i].pin.Some?
              && (forall j :: i < j < |spokes| ==> spokes[j].name != name || spokes[j].pin.None?)
              ==> name in PinsOf(spokes) && PinsOf(spokes)[name] == spokes[i].pin.value
  {
    if spokes != [] {
      var front := spokes[..|spokes| - 1];
      PinsAre(front, name);
      assert forall i :: 0 <= i < |front| ==> front[i] == spokes[i];
    }
  }

  lemma OtherPartsAre(hub: string, hubValues: HubValues, spokes: seq<SpokeInput>, pinned: bool)
    ensures var m := Declared(hub, hubValues, spokes, pinned);
            m.hub == hub && m.pinned == pinned && m.pins == PinsOf(spokes)
  {
  }
}
