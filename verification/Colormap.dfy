/** Colormaps: key colours of all maps in one vector, and a table of all maps'
    interpolated colours that is derived from them. */
module Colormap {
  import opened Basics
  import opened ColorMix

  datatype ColorMap = ColorMap(keys: seq<u32>, qual: bool)

  // ----- the table of one map ------------------------------------------------

  function Ramp(a: u32, b: u32, n: nat): (r: seq<u32>)
    ensures |r| == n && forall s: u32 :: s < n ==> r[s] == Mix32(a, b, s)
    requires n <= 255
  {
    seq(n, s requires 0 <= s < n => Mix32(a, b, s))
  }

  /** The colours between the first n + 1 keys, without the last of them. */
  function Ramps(keys: seq<u32>, n: nat): (r: seq<u32>)
    requires n < |keys|
    ensures |r| == 255 * n
  {
    if n == 0 then [] else Ramps(keys, n - 1) + Ramp(keys[n - 1], keys[n], 255)
  }

  /** A qualitative map is used as it is, a continuous one is interpolated. */
  function Table(m: ColorMap): (r: seq<u32>)
    requires m.keys != []
    ensures |r| == if m.qual then |m.keys| else 255 * (|m.keys| - 1) + 1
  {
    if m.qual then m.keys else Ramps(m.keys, |m.keys| - 1) + [m.keys[|m.keys| - 1]]
  }

  lemma RampStep(a: u32, b: u32, s: u32)
    requires s < 255
    ensures Ramp(a, b, 0) == []
    ensures Ramp(a, b, s + 1) == Ramp(a, b, s) + [Mix32(a, b, s)]
  {
    hide Mix32;
  }

  lemma RampsStep(keys: seq<u32>, n: nat)
    requires n + 1 < |keys|
    ensures Ramps(keys, n + 1) == Ramps(keys, n) + Ramp(keys[n], keys[n + 1], 255)
  {
  }

  lemma TableIs(m: ColorMap)
    requires m.keys != []
    ensures Ramps(m.keys, 0) == []
    ensures Table(m) == if m.qual then m.keys else Ramps(m.keys, |m.keys| - 1) + [m.keys[|m.keys| - 1]]
  {
  }

  lemma {:induction false} RampsAt(keys: seq<u32>, n: nat, i: nat, s: u32)
    requires i < n < |keys| && s < 255
    ensures 255 * i + s < 255 * n
    ensures Ramps(keys, n)[255 * i + s] == Mix32(keys[i], keys[i + 1], s)
  {
    hide Mix32;
    if i < n - 1 {
      RampsAt(keys, n - 1, i, s);
    }
  }

  /** The table of a continuous map: 255 steps from each key to the next, and every
      key itself. */
  lemma TableAt(m: ColorMap, i: nat, s: u32)
    requires !m.qual && i < |m.keys| && s < 255 && (i == |m.keys| - 1 ==> s == 0)
    ensures 255 * i + s < |Table(m)|
    ensures i < |m.keys| - 1 ==> Table(m)[255 * i + s] == Mix32(m.keys[i], m.keys[i + 1], s)
    ensures Table(m)[255 * i] == m.keys[i]
  {
    hide Mix32;
    if i < |m.keys| - 1 {
      RampsAt(m.keys, |m.keys| - 1, i, s);
      RampsAt(m.keys, |m.keys| - 1, i, 0);
      MixEnds(m.keys[i], m.keys[i + 1]);
    }
  }

  // ----- rows laid out one after the other -----------------------------------

  function Flat<T>(rows: seq<seq<T>>): seq<T> {
    if rows == [] then [] else Flat(rows[..|rows| - 1]) + rows[|rows| - 1]
  }

  lemma FlatSnoc<T>(rows: seq<seq<T>>, row: seq<T>)
    ensures Flat(rows + [row]) == Flat(rows) + row
  {
    assert (rows + [row])[..|rows|] == rows;
  }

  /** Every row lies where the rows before it end. */
  lemma {:induction false} FlatAt<T>(rows: seq<seq<T>>, i: nat)
    requires i < |rows|
    ensures |Flat(rows[..i])| + |rows[i]| == |Flat(rows[..i + 1])| <= |Flat(rows)|
    ensures Flat(rows)[|Flat(rows[..i])|..|Flat(rows[..i + 1])|] == rows[i]
  {
    assert rows[..i + 1][..i] == rows[..i];
    if i == |rows| - 1 {
      assert rows[..i + 1] == rows;
    } else {
      var init := rows[..|rows| - 1];
      FlatAt(init, i);
      assert init[..i] == rows[..i] && init[..i + 1] == rows[..i + 1];
    }
  }

  /** Changing an element of a row. */
  lemma {:induction false} FlatUpdate<T>(rows: seq<seq<T>>, i: nat, j: nat, v: T)
    requires i < |rows| && j < |rows[i]|
    ensures |Flat(rows[..i])| + j < |Flat(rows)|
    ensures Flat(rows[i := rows[i][j := v]]) == Flat(rows)[|Flat(rows[..i])| + j := v]
  {
    FlatAt(rows, i);
    var last := |rows| - 1;
    var rows' := rows[i := rows[i][j := v]];
    if i == last {
      assert rows'[..last] == rows[..last];
    } else {
      var init := rows[..last];
      FlatUpdate(init, i, j, v);
      assert init[..i] == rows[..i];
      assert rows'[..last] == init[i := init[i][j := v]];
    }
  }

  function KeyRows(maps: seq<ColorMap>): (r: seq<seq<u32>>)
    ensures |r| == |maps| && forall i :: 0 <= i < |maps| ==> r[i] == maps[i].keys
  {
    seq(|maps|, i requires 0 <= i < |maps| => maps[i].keys)
  }

  predicate Proper(maps: seq<ColorMap>) {
    forall i :: 0 <= i < |maps| ==> maps[i].keys != []
  }

  function TableRows(maps: seq<ColorMap>): (r: seq<seq<u32>>)
    requires Proper(maps)
    ensures |r| == |maps| && forall i :: 0 <= i < |maps| ==> r[i] == Table(maps[i])
  {
    seq(|maps|, i requires 0 <= i < |maps| => Table(maps[i]))
  }

  /** Offsets and sizes of rows that are laid out one after the other. */
  ghost predicate LaidOut<T>(rows: seq<seq<T>>, flat: seq<T>, offsets: seq<int>, sizes: seq<int>) {
    && flat == Flat(rows) && |offsets| == |rows| && |sizes| == |rows|
    && forall i :: 0 <= i < |rows| ==> offsets[i] == |Flat(rows[..i])| && sizes[i] == |rows[i]|
  }

  lemma LaidOutSnoc<T>(rows: seq<seq<T>>, flat: seq<T>, offsets: seq<int>, sizes: seq<int>, row: seq<T>)
    requires LaidOut(rows, flat, offsets, sizes)
    ensures LaidOut(rows + [row], flat + row, offsets + [|flat|], sizes + [|row|])
  {
    FlatSnoc(rows, row);
    assert (rows + [row])[..|rows|] == rows;
    forall i | 0 <= i < |rows| ensures (rows + [row])[..i] == rows[..i] {
    }
  }

  /** The rows tile the vector: each is found at its offset, and the next begins where it ends. */
  lemma LaidOutTiles<T>(rows: seq<seq<T>>, flat: seq<T>, offsets: seq<int>, sizes: seq<int>, i: nat)
    requires LaidOut(rows, flat, offsets, sizes) && i < |rows|
    ensures |offsets| == |sizes| == |rows| && sizes[i] == |rows[i]|
    ensures 0 <= offsets[i] <= offsets[i] + sizes[i] <= |flat|
    ensures flat[offsets[i]..offsets[i] + sizes[i]] == rows[i]
    ensures offsets[i] + sizes[i] == if i + 1 < |rows| then offsets[i + 1] else |flat|
    ensures offsets[0] == 0
  {
    FlatAt(rows, i);
    assert i + 1 == |rows| ==> rows[..i + 1] == rows;
  }

  lemma KeysSnoc(maps: seq<ColorMap>, m: ColorMap, keys: seq<u32>, offsets: seq<int>, counts: seq<int>)
    requires LaidOut(KeyRows(maps), keys, offsets, counts)
    ensures LaidOut(KeyRows(maps + [m]), keys + m.keys, offsets + [|keys|], counts + [|m.keys|])
  {
    hide LaidOut;
    LaidOutSnoc(KeyRows(maps), keys, offsets, counts, m.keys);
    assert KeyRows(maps + [m]) == KeyRows(maps) + [m.keys];
  }

  lemma TablesSnoc(maps: seq<ColorMap>, m: ColorMap, tables: seq<u32>, offsets: seq<int>, sizes: seq<int>)
    requires Proper(maps) && m.keys != [] && LaidOut(TableRows(maps), tables, offsets, sizes)
    ensures Proper(maps + [m])
    ensures LaidOut(TableRows(maps + [m]), tables + Table(m), offsets + [|tables|], sizes + [|Table(m)|])
  {
    hide LaidOut, Table;
    LaidOutSnoc(TableRows(maps), tables, offsets, sizes, Table(m));
    assert TableRows(maps + [m]) == TableRows(maps) + [Table(m)];
  }

  ghost predicate SameQuals(quals: seq<bool>, maps: seq<ColorMap>) {
    |quals| == |maps| && forall i :: 0 <= i < |maps| ==> quals[i] == maps[i].qual
  }

  lemma QualsSnoc(quals: seq<bool>, maps: seq<ColorMap>, m: ColorMap)
    requires SameQuals(quals, maps)
    ensures SameQuals(quals + [m.qual], maps + [m])
  {
  }

  ghost predicate Named(titles: seq<string>, names: map<string, int>) {
    && (forall i :: 0 <= i < |titles| ==> titles[i] in names && names[titles[i]] == i)
    && (forall n :: n in names ==> 0 <= names[n] < |titles| && titles[names[n]] == n)
  }

  lemma NamedSnoc(titles: seq<string>, names: map<string, int>, name: string)
    requires Named(titles, names)
    ensures (name in titles <==> name in names) && (name in names ==> names[name] >= 0)
    ensures name !in titles ==> Named(titles + [name], names[name := |titles|])
  {
  }

  // ----- the data of all maps ------------------------------------------------

  class ColormapData {
    var keys: seq<u32>
    var keyCounts: seq<int>
    var keyOffsets: seq<int>
    var tables: seq<u32>
    var tableSizes: seq<int>
    var tableOffsets: seq<int>
    var quals: seq<bool>
    /** The name of each map, and the map of each name. */
    var titles: seq<string>
    var names: map<string, int>
    var count: int
    ghost var maps: seq<ColorMap>

    ghost predicate KeysOk()
      reads this
    {
      && Proper(maps) && count == |maps| == |quals|
      && LaidOut(KeyRows(maps), keys, keyOffsets, keyCounts)
      && SameQuals(quals, maps)
      && |titles| == count && Named(titles, names)
    }

    /** The tables are what the keys say. */
    ghost predicate Valid()
      reads this
    {
      KeysOk() && LaidOut(TableRows(maps), tables, tableOffsets, tableSizes)
    }

    constructor ()
      ensures Valid() && maps == [] && titles == []
    {
      keys, keyCounts, keyOffsets := [], [], [];
      tables, tableSizes, tableOffsets := [], [], [];
      quals, titles, names, count := [], [], map[], 0;
      maps := [];
    }

    function GetIndex(name: string): int
      reads this
    {
      if name in names then names[name] else -1
    }

    function GetName(cmap: int): string
      requires 0 <= cmap < |titles|
      reads this
    {
      titles[cmap]
    }

    /** Each map is found under its own name, and under no other. */
    lemma IndexOfName(name: string)
      requires Valid()
      ensures |titles| == |maps|
      ensures forall i :: 0 <= i < |maps| ==> (GetIndex(name) == i <==> GetName(i) == name)
      ensures GetIndex(name) == -1 <==> forall i :: 0 <= i < |maps| ==> GetName(i) != name
    {
      hide LaidOut, Proper;
      if name in names {
        assert GetName(names[name]) == name;
      }
    }

    /** Adds a map, unless there is one of that name. */
    method Append(name: string, newKeys: seq<u32>, qual: bool) returns (index: int)
      requires Valid() && newKeys != []
      modifies this
      ensures Valid()
      ensures name in old(titles) ==> index == -1 && maps == old(maps) && titles == old(titles) && tables == old(tables)
      ensures name !in old(titles) ==>
                index == |old(maps)| && maps == old(maps) + [ColorMap(newKeys, qual)] && titles == old(titles) + [name]
      ensures index >= 0 ==> GetIndex(name) == index
    {
      hide LaidOut, Table, Flat, Proper, Named, SameQuals;
      NamedSnoc(titles, names, name);
      if GetIndex(name) != -1 {
        return -1;
      }
      ghost var m := ColorMap(newKeys, qual);
      QualsSnoc(quals, maps, m);
      KeysSnoc(maps, m, keys, keyOffsets, keyCounts);
      TablesSnoc(maps, m, tables, tableOffsets, tableSizes);
      keyOffsets := keyOffsets + [|keys|];
      keyCounts := keyCounts + [|newKeys|];
      keys := keys + newKeys;
      quals := quals + [qual];
      index := count;
      count := count + 1;
      titles := titles + [name];
      names := names[name := index];
      maps := maps + [m];
      AppendTable(index);
    }

    /** Computes the table of a map and puts it behind the others. */
    method AppendTable(cmap: int)
      requires KeysOk() && 0 <= cmap < count
      modifies this`tables, this`tableOffsets, this`tableSizes
      ensures tables == old(tables) + Table(maps[cmap])
      ensures tableOffsets == old(tableOffsets) + [|old(tables)|]
      ensures tableSizes == old(tableSizes) + [|Table(maps[cmap])|]
    {
      hide LaidOut, Mix32, Table, Ramps, Ramp, KeysOk;
      KeysOf(cmap);
      ghost var m := maps[cmap];
      var keyCount, at := keyCounts[cmap], keyOffsets[cmap];
      tableOffsets := tableOffsets + [|tables|];
      ghost var before := tables;
      TableIs(m);
      if quals[cmap] {
        for i := 0 to keyCount
          modifies this`tables
          invariant tables == before + m.keys[..i]
        {
          tables := tables + [keys[at + i]];
        }
        TableIs(m);
        assert tables == before + Table(m);
        tableSizes := tableSizes + [keyCount];
      } else {
        var maxSize := 255 * (keyCount - 1) + 1;
        for i := 0 to keyCount - 1
          modifies this`tables
          invariant tables == before + Ramps(m.keys, i)
        {
          AppendRamp(keys[at + i], keys[at + i + 1]);
          RampsStep(m.keys, i);
        }
        tables := tables + [keys[at + keyCount - 1]];
        TableIs(m);
        assert tables == before + Table(m);
        tableSizes := tableSizes + [maxSize];
      }
    }

    /** The inner loop of AppendTable. */
    method AppendRamp(a: u32, b: u32)
      modifies this`tables
      ensures tables == old(tables) + Ramp(a, b, 255)
    {
      hide Mix32, Ramp;
      RampStep(a, b, 0);
      ghost var before := tables;
      for s := 0 to 255
        invariant tables == before + Ramp(a, b, s)
      {
        tables := tables + [Mix32(a, b, s)];
        RampStep(a, b, s);
      }
    }

    /** The keys of a map are found at its offset. */
    lemma KeysOf(cmap: int)
      requires KeysOk() && 0 <= cmap < count
      ensures |keyCounts| == |keyOffsets| == |quals| == |maps| == count
      ensures quals[cmap] == maps[cmap].qual && maps[cmap].keys != []
      ensures keyCounts[cmap] == |maps[cmap].keys|
      ensures 0 <= keyOffsets[cmap] <= keyOffsets[cmap] + keyCounts[cmap] <= |keys|
      ensures forall i :: 0 <= i < keyCounts[cmap] ==> keys[keyOffsets[cmap] + i] == maps[cmap].keys[i]
    {
      hide Flat, LaidOut;
      LaidOutTiles(KeyRows(maps), keys, keyOffsets, keyCounts, cmap);
      var at, n := keyOffsets[cmap], keyCounts[cmap];
      forall i | 0 <= i < n ensures keys[at + i] == maps[cmap].keys[i] {
        assert keys[at..at + n][i] == keys[at + i];
      }
    }

    /** The table of a map is found at its offset. */
    lemma TableOf(cmap: int)
      requires Valid() && 0 <= cmap < count
      ensures |tableSizes| == |tableOffsets| == count
      ensures tableSizes[cmap] == |Table(maps[cmap])|
      ensures 0 <= tableOffsets[cmap] <= tableOffsets[cmap] + tableSizes[cmap] <= |tables|
      ensures forall i :: 0 <= i < tableSizes[cmap] ==> tables[tableOffsets[cmap] + i] == Table(maps[cmap])[i]
    {
      hide Table, Flat, LaidOut;
      LaidOutTiles(TableRows(maps), tables, tableOffsets, tableSizes, cmap);
      var at, n := tableOffsets[cmap], tableSizes[cmap];
      forall i | 0 <= i < n ensures tables[at + i] == Table(maps[cmap])[i] {
        assert tables[at..at + n][i] == tables[at + i];
      }
    }

    /** What the cached tables hold, said of the keys alone: step s of 255 between key i and
        the next, and key i itself at entry 255 * i (at entry i of a qualitative map). */
    lemma TableFollowsKeys(cmap: int, i: nat, s: u32)
      requires Valid() && 0 <= cmap < count && i < keyCounts[cmap] && s < 255
      ensures |tableSizes| == |tableOffsets| == |keyOffsets| == |quals| == count
      ensures 0 <= keyOffsets[cmap] && keyOffsets[cmap] + keyCounts[cmap] <= |keys|
      ensures 0 <= tableOffsets[cmap] && tableOffsets[cmap] + tableSizes[cmap] <= |tables|
      ensures tableSizes[cmap] == if quals[cmap] then keyCounts[cmap] else 255 * (keyCounts[cmap] - 1) + 1
      ensures tables[tableOffsets[cmap] + if quals[cmap] then i else 255 * i] == keys[keyOffsets[cmap] + i]
      ensures !quals[cmap] && i + 1 < keyCounts[cmap] ==>
                tables[tableOffsets[cmap] + (255 * i + s)] ==
                Mix32(keys[keyOffsets[cmap] + i], keys[keyOffsets[cmap] + i + 1], s)
    {
      hide LaidOut, Mix32, Ramps, Flat, KeysOk;
      KeysOf(cmap);
      TableOf(cmap);
      var m, at := maps[cmap], tableOffsets[cmap];
      if m.qual {
        TableIs(m);
        assert tables[at + i] == Table(m)[i];
      } else {
        TableAt(m, i, 0);
        assert tables[at + 255 * i] == Table(m)[255 * i];
        if i + 1 < |m.keys| {
          TableAt(m, i, s);
        }
      }
    }

    /** Computes all tables afresh. */
    method RebuildTables()
      requires KeysOk()
      modifies this`tables, this`tableOffsets, this`tableSizes
      ensures Valid()
    {
      hide LaidOut, Table, Flat;
      tables, tableSizes, tableOffsets := [], [], [];
      NothingLaidOut();
      assert maps[..0] == [];
      for i := 0 to count
        invariant LaidOut(TableRows(maps[..i]), tables, tableOffsets, tableSizes)
      {
        assert maps[..i + 1] == maps[..i] + [maps[i]];
        TablesSnoc(maps[..i], maps[i], tables, tableOffsets, tableSizes);
        AppendTable(i);
      }
      assert maps[..count] == maps;
    }

    /** Changes one key of one map, and all tables follow. */
    method SetKeyColor(cmap: int, idx: int, value: u32)
      requires Valid() && 0 <= cmap < count && 0 <= idx < |maps[cmap].keys|
      modifies this
      ensures Valid() && titles == old(titles)
      ensures maps == old(maps)[cmap := old(maps)[cmap].(keys := old(maps)[cmap].keys[idx := value])]
    {
      hide Table, Flat;
      ghost var rows := KeyRows(maps);
      FlatUpdate(rows, cmap, idx, value);
      SameLayout(rows, cmap, idx, value);
      keys := keys[keyOffsets[cmap] + idx := value];
      maps := maps[cmap := maps[cmap].(keys := maps[cmap].keys[idx := value])];
      assert KeyRows(maps) == rows[cmap := rows[cmap][idx := value]];
      RebuildTables();
    }
  }

  lemma NothingLaidOut()
    ensures LaidOut(TableRows([]), [], [], [])
  {
  }

  lemma SameLayout<T>(rows: seq<seq<T>>, i: nat, j: nat, v: T)
    requires i < |rows| && j < |rows[i]|
    ensures var rows' := rows[i := rows[i][j := v]];
            forall k :: 0 <= k < |rows| ==> |Flat(rows'[..k])| == |Flat(rows[..k])| && |rows'[k]| == |rows[k]|
  {
    var rows' := rows[i := rows[i][j := v]];
    forall k | 0 <= k < |rows| ensures |Flat(rows'[..k])| == |Flat(rows[..k])| {
      if k <= i {
        assert rows'[..k] == rows[..k];
      } else {
        FlatUpdate(rows[..k], i, j, v);
        assert rows'[..k] == rows[..k][i := rows[..k][i][j := v]];
      }
    }
  }
}
