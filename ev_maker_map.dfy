/** The map section of the India EV market dashboard (EV_dashboard.py, lines
    130-150): the maker table's first two columns become (State, EV_Maker),
    the State is title-cased, and the rows are inner-merged on State with a
    fixed table of state centroids. Latitudes and longitudes are carried
    through unchanged and never computed with. */
module EvMakerMap {
  import opened Frames
  import opened Text

  datatype Coord = Coord(lat: real, lon: real)

  /** A row of the maker table after its columns are renamed. */
  datatype Maker = Maker(state: string, name: string)

  /** A row of `ev_map_data`: State, EV_Maker, Lat, Lon. */
  datatype GeoPoint = GeoPoint(state: string, name: string, lat: real, lon: real)

  /** `state_coords` (lines 134-146), in the dictionary's insertion order,
      which is the order of the rows of `coords_df`. */
  const StateCoords: seq<(string, Coord)> := [
    ("Maharashtra", Coord(19.7515, 75.7139)),
    ("Tamil Nadu", Coord(11.1271, 78.6569)),
    ("Karnataka", Coord(15.3173, 75.7139)),
    ("Delhi", Coord(28.7041, 77.1025)),
    ("Gujarat", Coord(22.2587, 71.1924)),
    ("Haryana", Coord(29.0588, 76.0856)),
    ("Telangana", Coord(18.1124, 79.0193)),
    ("Uttar Pradesh", Coord(26.8467, 80.9462)),
    ("West Bengal", Coord(22.9868, 87.8550)),
    ("Rajasthan", Coord(27.0238, 74.2179)),
    ("Andhra Pradesh", Coord(15.9129, 79.7400))
  ]

  /** Lines 130-132 on a maker table whose rows all have `width` cells: keep
      the first two columns, name them State and EV_Maker, and title-case
      State. Renaming the columns of a table with fewer than two columns
      fails (pandas raises a length mismatch), which is the None result. */
  function SelectMakers(width: nat, table: seq<seq<string>>): (r: Option<seq<Maker>>)
    requires forall i :: 0 <= i < |table| ==> |table[i]| == width
    ensures r.None? <==> width < 2
    ensures r.Some? ==> |r.value| == |table|
    ensures r.Some? ==> forall i :: 0 <= i < |table| ==>
      r.value[i].name == table[i][1] && EqualIgnoringCase(r.value[i].state, table[i][0])
    ensures r.Some? ==> forall i :: 0 <= i < |table| ==> IsTitled(r.value[i].state)
  {
    if width < 2 then None
    else
      var makers := seq(|table|, i requires 0 <= i < |table| => Maker(Title(table[i][0]), table[i][1]));
      assert forall i :: 0 <= i < |table| ==> IsTitled(makers[i].state) && EqualIgnoringCase(makers[i].state, table[i][0]) by {
        forall i | 0 <= i < |table|
          ensures IsTitled(makers[i].state) && EqualIgnoringCase(makers[i].state, table[i][0])
        {
          TitleIdempotent(table[i][0]);
          TitleKeepsLetters(table[i][0]);
        }
      }
      Some(makers)
  }

  /** Title-casing changes the case of letters and nothing else. */
  lemma TitleKeepsLetters(s: string)
    ensures EqualIgnoringCase(Title(s), s)
  {
    var r := Title(s);
    forall i | 0 <= i < |s|
      ensures ToLower(r[i]) == ToLower(s[i])
    {
    }
  }

  /** The coordinates of the first table entry whose key is `state`. */
  function Lookup(table: seq<(string, Coord)>, state: string): (c: Option<Coord>)
    ensures c.None? <==> forall i :: 0 <= i < |table| ==> table[i].0 != state
    ensures c.Some? ==> exists i :: 0 <= i < |table| && table[i] == (state, c.value)
  {
    if table == [] then None
    else if table[0].0 == state then Some(table[0].1)
    else
      var c := Lookup(table[1..], state);
      assert forall i :: 1 <= i < |table| ==> table[i] == table[1..][i - 1];
      c
  }

  predicate UniqueKeys(table: seq<(string, Coord)>)
  {
    forall i, j :: 0 <= i < j < |table| ==> table[i].0 != table[j].0
  }

  function Point(m: Maker, c: Coord): GeoPoint
  {
    GeoPoint(m.state, m.name, c.lat, c.lon)
  }

  /** The merged rows of one maker: one per table entry whose key is its
      State, in table order. */
  function Matches(m: Maker, table: seq<(string, Coord)>): (r: seq<GeoPoint>)
  {
    if table == [] then []
    else (if table[0].0 == m.state then [Point(m, table[0].1)] else []) + Matches(m, table[1..])
  }

  /** `pd.merge(ev_maker, coords_df[['State', 'Lat', 'Lon']], on='State',
      how='inner')`: in maker order, each maker with every table entry whose
      key equals its State; a maker with none is left out. */
  function Merge(makers: seq<Maker>, table: seq<(string, Coord)>): (r: seq<GeoPoint>)
  {
    if makers == [] then [] else Matches(makers[0], table) + Merge(makers[1..], table)
  }

  /** A reference for the merge when the keys are unique: select the makers
      whose State is a key, then attach that key's coordinates to each. */
  function Located(makers: seq<Maker>, table: seq<(string, Coord)>): (r: seq<GeoPoint>)
    requires forall i :: 0 <= i < |makers| ==> Lookup(table, makers[i].state).Some?
    ensures |r| == |makers|
    ensures forall i :: 0 <= i < |makers| ==> r[i] == Point(makers[i], Lookup(table, makers[i].state).value)
  {
    if makers == [] then []
    else [Point(makers[0], Lookup(table, makers[0].state).value)] + Located(makers[1..], table)
  }

  lemma {:induction false} MatchesWithUniqueKeys(m: Maker, table: seq<(string, Coord)>)
    requires UniqueKeys(table)
    ensures Matches(m, table) == match Lookup(table, m.state)
      case None => []
      case Some(c) => [Point(m, c)]
  {
    if table != [] {
      MatchesWithUniqueKeys(m, table[1..]);
      if table[0].0 == m.state {
        assert Lookup(table[1..], m.state).None? by {
          forall i | 0 <= i < |table| - 1
            ensures table[1..][i].0 != m.state
          {
            assert table[1..][i] == table[i + 1];
          }
        }
      }
    }
  }

  lemma {:induction false} MergeWithUniqueKeys(makers: seq<Maker>, table: seq<(string, Coord)>, mapped: Maker -> bool)
    requires UniqueKeys(table)
    requires forall m :: mapped(m) == Lookup(table, m.state).Some?
    ensures forall i :: 0 <= i < |Where(makers, mapped)| ==> Lookup(table, Where(makers, mapped)[i].state).Some?
    ensures Merge(makers, table) == Located(Where(makers, mapped), table)
  {
    var w := Where(makers, mapped);
    assert forall i :: 0 <= i < |w| ==> w[i] in w;
    if makers != [] {
      MergeWithUniqueKeys(makers[1..], table, mapped);
      MatchesWithUniqueKeys(makers[0], table);
      var rest := Where(makers[1..], mapped);
      assert forall i :: 0 <= i < |rest| ==> rest[i] in rest;
      if mapped(makers[0]) {
        assert w == [makers[0]] + rest;
        assert w[1..] == rest;
      } else {
        assert w == rest;
      }
    }
  }

  lemma {:induction false} MergeAppend(a: seq<Maker>, b: seq<Maker>, table: seq<(string, Coord)>)
    ensures Merge(a + b, table) == Merge(a, table) + Merge(b, table)
  {
    if a == [] {
      assert a + b == b;
    } else {
      assert (a + b)[0] == a[0] && (a + b)[1..] == a[1..] + b;
      MergeAppend(a[1..], b, table);
    }
  }

  /** The inner merge on a table with unique keys keeps the makers whose
      State is a key, in order, each with that key's coordinates, and drops
      the others. */
  lemma {:induction false} MergeSpec(makers: seq<Maker>, table: seq<(string, Coord)>, mapped: Maker -> bool, unmapped: Maker -> bool)
    requires UniqueKeys(table)
    requires forall m :: mapped(m) == Lookup(table, m.state).Some?
    requires forall m :: unmapped(m) == !mapped(m)
    ensures forall i :: 0 <= i < |Where(makers, mapped)| ==> mapped(Where(makers, mapped)[i])
    ensures Merge(makers, table) == Located(Where(makers, mapped), table)
    ensures |Merge(makers, table)| + |Where(makers, unmapped)| == |makers|
    ensures |Merge(makers, table)| <= |makers|
    ensures forall p :: p in Merge(makers, table) ==> Lookup(table, p.state) == Some(Coord(p.lat, p.lon))
  {
    MergeWithUniqueKeys(makers, table, mapped);
    WherePartition(makers, mapped, unmapped);
    var w := Where(makers, mapped);
    assert forall i :: 0 <= i < |w| ==> w[i] in w;
  }

  /** With unique keys, one more maker adds nothing to the merge when its
      State is not a key, and exactly its own point, at the end, when it is. */
  lemma {:induction false} MergeOneMore(makers: seq<Maker>, m: Maker, table: seq<(string, Coord)>)
    requires UniqueKeys(table)
    ensures Lookup(table, m.state).None? ==> Merge(makers + [m], table) == Merge(makers, table)
    ensures Lookup(table, m.state).Some? ==>
      Merge(makers + [m], table) == Merge(makers, table) + [Point(m, Lookup(table, m.state).value)]
  {
    MergeAppend(makers, [m], table);
    MatchesWithUniqueKeys(m, table);
    assert [m][1..] == [];
  }

  /** The inner merge without assuming unique keys: a point is in it exactly
      when it pairs some maker with a table entry whose key is that maker's
      State. */
  lemma {:induction false} MergeMembers(makers: seq<Maker>, table: seq<(string, Coord)>, p: GeoPoint)
    ensures p in Merge(makers, table) <==>
      exists i, k :: 0 <= i < |makers| && 0 <= k < |table| && table[k].0 == makers[i].state && p == Point(makers[i], table[k].1)
  {
    if makers != [] {
      MergeMembers(makers[1..], table, p);
      MatchesMembers(makers[0], table, p);
      if p in Merge(makers[1..], table) {
        var i, k :| 0 <= i < |makers| - 1 && 0 <= k < |table| && table[k].0 == makers[1..][i].state && p == Point(makers[1..][i], table[k].1);
        assert makers[1..][i] == makers[i + 1];
      }
      if exists i, k :: 0 <= i < |makers| && 0 <= k < |table| && table[k].0 == makers[i].state && p == Point(makers[i], table[k].1) {
        var i, k :| 0 <= i < |makers| && 0 <= k < |table| && table[k].0 == makers[i].state && p == Point(makers[i], table[k].1);
        if i > 0 {
          assert makers[1..][i - 1] == makers[i];
        }
      }
    }
  }

  /** The merged rows of one maker are its pairings with the table entries
      whose key is its State. */
  lemma {:induction false} MatchesMembers(m: Maker, table: seq<(string, Coord)>, p: GeoPoint)
    ensures p in Matches(m, table) <==>
      exists k :: 0 <= k < |table| && table[k].0 == m.state && p == Point(m, table[k].1)
  {
    if table != [] {
      MatchesMembers(m, table[1..], p);
      if p in Matches(m, table[1..]) {
        var k :| 0 <= k < |table| - 1 && table[1..][k].0 == m.state && p == Point(m, table[1..][k].1);
        assert table[1..][k] == table[k + 1];
      }
      if exists k :: 0 <= k < |table| && table[k].0 == m.state && p == Point(m, table[k].1) {
        var k :| 0 <= k < |table| && table[k].0 == m.state && p == Point(m, table[k].1);
        if k > 0 {
          assert table[1..][k - 1] == table[k];
        }
      }
    }
  }

  lemma StateCoordsKeysAreUnique()
    ensures UniqueKeys(StateCoords)
  {
  }

  lemma KeysTitledFrom0()
    ensures forall i :: 0 <= i < 4 ==> IsTitled(StateCoords[i].0)
  {
    assert IsCapitalized("Maharashtra") && IsCapitalized("Tamil") && IsCapitalized("Nadu") && IsCapitalized("Karnataka") && IsCapitalized("Delhi");
    forall i | 0 <= i < 4
      ensures IsTitled(StateCoords[i].0)
    {
      if i == 0 {
        assert StateCoords[i].0 == "Maharashtra";
        TitledWord("Maharashtra");
      } else if i == 1 {
        assert StateCoords[i].0 == "Tamil" + " " + "Nadu";
        TitledWords("Tamil", "Nadu");
      } else if i == 2 {
        assert StateCoords[i].0 == "Karnataka";
        TitledWord("Karnataka");
      } else {
        assert StateCoords[i].0 == "Delhi";
        TitledWord("Delhi");
      }
    }
  }

  lemma KeysTitledFrom4()
    ensures forall i :: 4 <= i < 8 ==> IsTitled(StateCoords[i].0)
  {
    assert IsCapitalized("Gujarat") && IsCapitalized("Haryana") && IsCapitalized("Telangana") && IsCapitalized("Uttar") && IsCapitalized("Pradesh");
    forall i | 4 <= i < 8
      ensures IsTitled(StateCoords[i].0)
    {
      if i == 4 {
        assert StateCoords[i].0 == "Gujarat";
        TitledWord("Gujarat");
      } else if i == 5 {
        assert StateCoords[i].0 == "Haryana";
        TitledWord("Haryana");
      } else if i == 6 {
        assert StateCoords[i].0 == "Telangana";
        TitledWord("Telangana");
      } else {
        assert StateCoords[i].0 == "Uttar" + " " + "Pradesh";
        TitledWords("Uttar", "Pradesh");
      }
    }
  }

  lemma KeysTitledFrom8()
    ensures forall i :: 8 <= i < 11 ==> IsTitled(StateCoords[i].0)
  {
    assert IsCapitalized("West") && IsCapitalized("Bengal") && IsCapitalized("Rajasthan") && IsCapitalized("Andhra") && IsCapitalized("Pradesh");
    forall i | 8 <= i < 11
      ensures IsTitled(StateCoords[i].0)
    {
      if i == 8 {
        assert StateCoords[i].0 == "West" + " " + "Bengal";
        TitledWords("West", "Bengal");
      } else if i == 9 {
        assert StateCoords[i].0 == "Rajasthan";
        TitledWord("Rajasthan");
      } else {
        assert StateCoords[i].0 == "Andhra" + " " + "Pradesh";
        TitledWords("Andhra", "Pradesh");
      }
    }
  }

  /** Every key of `state_coords` is already in title case. */
  lemma StateCoordsKeysAreTitled()
    ensures forall i :: 0 <= i < |StateCoords| ==> IsTitled(StateCoords[i].0)
  {
    KeysTitledFrom0();
    KeysTitledFrom4();
    KeysTitledFrom8();
  }

  predicate IsMapped(m: Maker)
  {
    Lookup(StateCoords, m.state).Some?
  }

  predicate IsUnmapped(m: Maker)
  {
    !IsMapped(m)
  }

  /** `ev_map_data` (line 150) for makers already prepared by SelectMakers.
      The map points are, in maker order, exactly the makers whose State is
      a key of `state_coords`, each with that key's Lat and Lon; the other
      makers are dropped without an error, so the makers split between the
      points and the dropped ones. */
  function GeoJoin(makers: seq<Maker>): (r: seq<GeoPoint>)
    ensures forall i :: 0 <= i < |Where(makers, IsMapped)| ==> IsMapped(Where(makers, IsMapped)[i])
    ensures r == Located(Where(makers, IsMapped), StateCoords)
    ensures |r| + |Where(makers, IsUnmapped)| == |makers|
    ensures |r| <= |makers|
    ensures forall p :: p in r ==> Lookup(StateCoords, p.state) == Some(Coord(p.lat, p.lon))
  {
    StateCoordsKeysAreUnique();
    MergeSpec(makers, StateCoords, IsMapped, IsUnmapped);
    Merge(makers, StateCoords)
  }

  /** A maker whose State has no coordinates leaves the map points as they
      were; a maker whose State has them adds exactly one point, at the end. */
  lemma {:induction false} GeoJoinOneMore(makers: seq<Maker>, m: Maker)
    ensures !IsMapped(m) ==> GeoJoin(makers + [m]) == GeoJoin(makers)
    ensures IsMapped(m) ==>
      GeoJoin(makers + [m]) == GeoJoin(makers) + [Point(m, Lookup(StateCoords, m.state).value)]
  {
    StateCoordsKeysAreUnique();
    MergeOneMore(makers, m, StateCoords);
  }

  /** When every maker's State is listed, every maker reaches the map. */
  lemma {:induction false} AllMappedAllPlotted(makers: seq<Maker>)
    requires forall i :: 0 <= i < |makers| ==> IsMapped(makers[i])
    ensures |GeoJoin(makers)| == |makers|
  {
    WhereKeepsAll(makers, IsMapped);
  }

  /** The number of map points is bounded by the number of makers, not by
      the eleven table entries: twelve makers in one listed state give twelve
      points. */
  lemma JoinOutnumbersTable()
    ensures |GeoJoin(seq(12, _ => Maker("Delhi", "Maker")))| == 12 > |StateCoords|
  {
    var makers := seq(12, _ => Maker("Delhi", "Maker"));
    assert StateCoords[3].0 == "Delhi";
    assert IsMapped(Maker("Delhi", "Maker"));
    AllMappedAllPlotted(makers);
  }

  /** A maker whose State is listed reaches the map with that State's
      coordinates. */
  lemma {:induction false} MappedMakerIsPlotted(makers: seq<Maker>, i: nat)
    requires i < |makers| && IsMapped(makers[i])
    ensures Point(makers[i], Lookup(StateCoords, makers[i].state).value) in GeoJoin(makers)
  {
    var w := Where(makers, IsMapped);
    assert makers[i] in w;
    var t :| 0 <= t < |w| && w[t] == makers[i];
    assert GeoJoin(makers)[t] == Point(makers[i], Lookup(StateCoords, makers[i].state).value);
  }

  lemma {:induction false} LookupUniqueKey(table: seq<(string, Coord)>, k: nat)
    requires UniqueKeys(table) && k < |table|
    ensures Lookup(table, table[k].0) == Some(table[k].1)
  {
    if k > 0 {
      assert table[1..][k - 1] == table[k];
      LookupUniqueKey(table[1..], k - 1);
    }
  }

  /** The map pipeline, lines 130-150: prepare the maker table, then join it. */
  function MapData(width: nat, table: seq<seq<string>>): (r: Option<seq<GeoPoint>>)
    requires forall i :: 0 <= i < |table| ==> |table[i]| == width
    ensures r.None? <==> width < 2
    ensures r.Some? ==> var w := Where(SelectMakers(width, table).value, IsMapped);
      && (forall i :: 0 <= i < |w| ==> IsMapped(w[i]))
      && r.value == Located(w, StateCoords)
    ensures r.Some? ==> |r.value| <= |table|
    ensures r.Some? ==> forall p :: p in r.value ==> Lookup(StateCoords, p.state) == Some(Coord(p.lat, p.lon))
  {
    match SelectMakers(width, table)
    case None => None
    case Some(makers) => Some(GeoJoin(makers))
  }

  /** A maker row whose State cell differs from a key of `state_coords` only
      in letter case ("tamil nadu", "TAMIL NADU") reaches the map with that
      key's coordinates. */
  lemma {:induction false} CaseVariantIsPlotted(width: nat, table: seq<seq<string>>, i: nat, k: nat)
    requires forall r :: 0 <= r < |table| ==> |table[r]| == width
    requires 2 <= width && i < |table| && k < |StateCoords|
    requires EqualIgnoringCase(table[i][0], StateCoords[k].0)
    ensures MapData(width, table).Some?
    ensures GeoPoint(StateCoords[k].0, table[i][1], StateCoords[k].1.lat, StateCoords[k].1.lon)
      in MapData(width, table).value
  {
    var makers := SelectMakers(width, table).value;
    var key := StateCoords[k].0;
    TitleIgnoresCase(table[i][0], key);
    StateCoordsKeysAreTitled();
    TitleFixesTitled(key);
    assert makers[i] == Maker(key, table[i][1]);
    StateCoordsKeysAreUnique();
    LookupUniqueKey(StateCoords, k);
    MappedMakerIsPlotted(makers, i);
  }
}
