/**
 * The file-name conventions of the tile I/O layer: the metadata read from
 * Sentinel-1 and Sentinel-2 file names, and the keys under which
 * `TileHandler.read_tuple` files the patches of one sample.
 */
module TileNames {
  import opened Wrappers
  import opened PyStr
  import opened PyDict

  // ----- Sentinel-1 names -----

  /** The messages of the exceptions `s1_filename_to_md` and `s2_filename_to_md` raise (the file name precedes them). */
  const NotS1Image: string := "not a S1 image (wrong number of splits between \"_\" in filename)"
  const NotS1Archive: string := "not a S1 archive (wrong date format)"
  const NotS2Product: string := "might not be a S2 product"

  /** The acquisition time given to S1 products whose name holds "xxxxxx" instead of one. */
  const DefaultS1Time: string := "t054500"

  /**
   * The metadata of an S1 file. `date` is the text handed to
   * `strptime(.., '%Y%m%dt%H%M%S')`, whose parsing is not part of this model.
   */
  datatype S1Md = S1Md(tile: string, date: string, orbit: string, pol: string, filename: string)

  /**
   * The date text of an S1 name: the first 15 characters of the date field,
   * the time replaced by the default one when it reads "xxxxxx".
   */
  function S1Date(field: string): (r: string)
    requires |field| >= 15
    ensures |r| == 15 && r[..8] == field[..8]
    ensures field[9..15] == "xxxxxx" ==> r[8..] == DefaultS1Time
    ensures field[9..15] != "xxxxxx" ==> r == field[..15]
  {
    var dateStr := field[..15];
    if dateStr[9..15] == "xxxxxx" then dateStr[0..8] + DefaultS1Time else dateStr
  }

  /**
   * `s1_filename_to_md`: the name from its last "/" on (the "/" included;
   * the last character alone when there is none), split on "_".
   */
  function S1FilenameToMd(filename: string): Result<S1Md>
  {
    var basename := From(filename, RFind(filename, '/'));
    var splits := Split(basename, '_');
    if |splits| != 7 then Err(NotS1Image)
    else if |splits[5]| < 15 then Err(NotS1Archive)
    else Ok(S1Md(splits[1], S1Date(splits[5]), splits[3], splits[2], filename))
  }

  /** In a path ending with "/" and a name free of "/", that "/" is the last one. */
  lemma LastSlash(dir: string, name: string)
    requires '/' !in name
    ensures RFind(dir + "/" + name, '/') == |dir|
    ensures (dir + "/" + name)[|dir|..] == "/" + name && (dir + "/" + name)[|dir| + 1..] == name
  {
    var filename := dir + "/" + name;
    assert forall m :: |dir| < m < |filename| ==> filename[m] == name[m - |dir| - 1];
    RFindAt(filename, '/', |dir|);
  }

  /**
   * An S1 file name whose last component is seven "_"-separated fields, the
   * sixth at least 15 characters long, gives back its tile, polarisation,
   * orbit and date fields.
   */
  lemma S1NameRoundTrip(dir: string, fields: seq<string>)
    requires |fields| == 7 && |fields[5]| >= 15
    requires forall k :: 0 <= k < 7 ==> '_' !in fields[k] && '/' !in fields[k]
    ensures S1FilenameToMd(dir + "/" + Join(fields, '_'))
            == Ok(S1Md(fields[1], S1Date(fields[5]), fields[3], fields[2], dir + "/" + Join(fields, '_')))
  {
    var filename := dir + "/" + Join(fields, '_');
    S1Fields(dir, fields);
    var splits := Split(From(filename, RFind(filename, '/')), '_');
    assert splits[1] == fields[1] && splits[2] == fields[2] && splits[3] == fields[3] && splits[5] == fields[5];
  }

  /** The fields `s1_filename_to_md` sees: the name's fields, the first one behind its "/". */
  lemma S1Fields(dir: string, fields: seq<string>)
    requires |fields| == 7
    requires forall k :: 0 <= k < 7 ==> '_' !in fields[k] && '/' !in fields[k]
    ensures var filename := dir + "/" + Join(fields, '_');
            Split(From(filename, RFind(filename, '/')), '_') == ["/" + fields[0]] + fields[1..]
  {
    var parts := ["/" + fields[0]] + fields[1..];
    S1Basename(dir, fields);
    assert forall k :: 0 <= k < 7 ==> '_' !in parts[k];
    SplitJoin(parts, '_');
  }

  /** The basename of an S1 file, from its last "/" on, is its fields joined with "_", the first one prefixed with "/". */
  lemma S1Basename(dir: string, fields: seq<string>)
    requires |fields| > 0
    requires forall k :: 0 <= k < |fields| ==> '/' !in fields[k]
    ensures var filename := dir + "/" + Join(fields, '_');
            From(filename, RFind(filename, '/')) == Join(["/" + fields[0]] + fields[1..], '_')
  {
    var name := Join(fields, '_');
    JoinAvoids(fields, '_', '/');
    LastSlash(dir, name);
    assert [fields[0]] + fields[1..] == fields;
    JoinHead("/", fields[0], fields[1..], '_');
  }

  /** Without any "/" the name examined is the last character alone, so no S1 name is accepted. */
  lemma S1NeedsSlash(filename: string)
    requires '/' !in filename
    ensures S1FilenameToMd(filename).Err?
  {
    var basename := From(filename, RFind(filename, '/'));
    assert |basename| <= 1;
    SplitLength(basename, '_');
    if |basename| == 1 {
      assert basename[..0] == [];
    }
  }

  /** An S1 name is accepted exactly when its last component holds six "_" and a date field of 15 characters or more. */
  lemma S1Accepted(filename: string)
    ensures var basename := From(filename, RFind(filename, '/'));
            S1FilenameToMd(filename).Ok? <==>
              Count(basename, '_') == 6 && var splits := Split(basename, '_'); |splits| > 5 && |splits[5]| >= 15
  {
    SplitLength(From(filename, RFind(filename, '/')), '_');
  }

  // ----- Sentinel-2 names -----

  /**
   * The metadata of an S2 product. `date` is the text handed to
   * `strptime(.., '%Y%m%d-%H%M%S-%f')`, whose parsing is not part of this model.
   */
  datatype S2Md = S2Md(tile: string, date: string)

  /** The last path component that is neither empty nor ".", or "" when there is none. */
  function LastComponent(parts: seq<string>): string
  {
    if |parts| == 0 then ""
    else if parts[|parts| - 1] != "" && parts[|parts| - 1] != "." then parts[|parts| - 1]
    else LastComponent(parts[..|parts| - 1])
  }

  /** `pathlib.Path(p).name`: the last component of the path, ignoring trailing "/" and "." components. */
  function PathName(p: string): string
  {
    LastComponent(Split(p, '/'))
  }

  /** `s2_filename_to_md`: the product name split on "_"; the tile is field 3, the date field 1 without its last character. */
  function S2FilenameToMd(filename: string): Result<S2Md>
  {
    var splits := Split(PathName(filename), '_');
    if |splits| < 4 then Err(NotS2Product)
    else Ok(S2Md(splits[3], Upto(splits[1], -1)))
  }

  /** A product name is accepted exactly when it holds at least three "_". */
  lemma S2Accepted(filename: string)
    ensures S2FilenameToMd(filename).Ok? <==> Count(PathName(filename), '_') >= 3
  {
    SplitLength(PathName(filename), '_');
  }

  /**
   * An S2 product path whose name is four or more "_"-separated fields gives
   * back its tile field and its date field without the last character.
   */
  lemma S2NameRoundTrip(dir: string, fields: seq<string>)
    requires |fields| >= 4
    requires forall k :: 0 <= k < |fields| ==> '_' !in fields[k] && '/' !in fields[k]
    ensures S2FilenameToMd(dir + "/" + Join(fields, '_')) == Ok(S2Md(fields[3], Upto(fields[1], -1)))
  {
    var name := Join(fields, '_');
    JoinAvoids(fields, '_', '/');
    SplitJoin(fields, '_');
    assert name != "" && name != ".";
    PathNameOf(dir, name);
  }

  /** The name after the last "/" of a path is its `pathlib` name, unless it is empty or ".". */
  lemma PathNameOf(dir: string, name: string)
    requires '/' !in name && name != "" && name != "."
    ensures PathName(dir + "/" + name) == name
  {
    LastSlash(dir, name);
    SplitLast(dir + "/" + name, '/', |dir|);
  }

  // ----- read_tuple -----

  /** The sensor keys of a tuple entry, and the fixed keys of a sample. */
  const S1Key: string := "s1"
  const S2Key: string := "s2"
  const GeoInfoKey: string := "geoinfo"
  const DemKey: string := "dem"

  /** The keys of the arrays `S1Image.get` and `S2Image.get` return. */
  const S1Timestamp: string := "s1_timestamp"
  const S1Ascending: string := "s1_ascending"
  const S2Timestamp: string := "s2_timestamp"
  const S2Bands20m: string := "s2_20m"
  const S2CloudMask: string := "s2_cld10m"

  /** What a sample key holds: a band stack of one image, the geographic box of an S2 patch, or the DEM patch. */
  datatype Patch = Band(sxKey: string, image: int, srcKey: string) | GeoInfo(image: int) | Dem

  /** Which optional rasters the images of the tile carry. */
  datatype Rasters = Rasters(with20m: bool, withCldMask: bool, withDem: bool)

  /**
   * The per-slot entries of one tuple: slot name, then sensor key ("s1"/"s2")
   * and image index, in dict order. An S1 index is -1 when the tile has no S1
   * directory (the virtual closest S1 image).
   */
  type TupleIndices = seq<(string, seq<(string, int)>)>

  const UnknownKey: string := "Unknown key"

  /** The sensor keys `read_tuple` knows. */
  predicate Known(sxKey: string) {
    sxKey == S1Key || sxKey == S2Key
  }

  /** The keys of `S1Image.get` and `S2Image.get`, in the order they are set. */
  function SourceKeys(sxKey: string, rasters: Rasters): (r: seq<string>)
    requires Known(sxKey)
    ensures sxKey == S1Key ==> r == [S1Timestamp, S1Ascending, S1Key]
    ensures sxKey == S2Key ==> S2Timestamp in r && S2Key in r
    ensures sxKey == S2Key ==> (S2Bands20m in r <==> rasters.with20m) && (S2CloudMask in r <==> rasters.withCldMask)
  {
    if sxKey == S1Key then [S1Timestamp, S1Ascending, S1Key]
    else [S2Timestamp, S2Key] + (if rasters.with20m then [S2Bands20m] else []) + (if rasters.withCldMask then [S2CloudMask] else [])
  }

  /** The sample key of patch `srcKey` of the image read for slot `key`. */
  function SampleKey(srcKey: string, key: string): string {
    srcKey + "_" + key
  }

  /** The dict writes for image `idx` of sensor `sxKey` read for slot `key`: the geographic box first for S2. */
  function ReadWrites(key: string, sxKey: string, idx: int, rasters: Rasters): (r: seq<(string, Patch)>)
    requires Known(sxKey)
  {
    var srcKeys := SourceKeys(sxKey, rasters);
    (if sxKey == S2Key then [(GeoInfoKey, GeoInfo(idx))] else [])
      + seq(|srcKeys|, m requires 0 <= m < |srcKeys| => (SampleKey(srcKeys[m], key), Band(sxKey, idx, srcKeys[m])))
  }

  /** Every sensor key of the tuple is known. */
  predicate AllKnown(t: TupleIndices) {
    forall i, j :: 0 <= i < |t| && 0 <= j < |t[i].1| ==> Known(t[i].1[j].0)
  }

  /** The writes for the images `values` of slot `key`, in order. */
  function SlotWrites(key: string, values: seq<(string, int)>, rasters: Rasters): seq<(string, Patch)>
    requires forall j :: 0 <= j < |values| ==> Known(values[j].0)
  {
    if |values| == 0 then []
    else
      var last := values[|values| - 1];
      SlotWrites(key, values[..|values| - 1], rasters) + ReadWrites(key, last.0, last.1, rasters)
  }

  /** The writes for every slot of the tuple, in order. */
  function TupleWrites(t: TupleIndices, rasters: Rasters): seq<(string, Patch)>
    requires AllKnown(t)
  {
    if |t| == 0 then []
    else TupleWrites(t[..|t| - 1], rasters) + SlotWrites(t[|t| - 1].0, t[|t| - 1].1, rasters)
  }

  /** Every write of `read_tuple`, the DEM update last. */
  function SampleWrites(t: TupleIndices, rasters: Rasters): seq<(string, Patch)>
    requires AllKnown(t)
  {
    TupleWrites(t, rasters) + (if rasters.withDem then [(DemKey, Dem)] else [])
  }

  /**
   * The exception reading one image raises, if any: an S1 read looks up
   * `s1_images`, which a handler built without an S1 directory never set;
   * a sensor key other than "s1" and "s2" is refused.
   */
  function ReadError(sxKey: string, s1Present: bool): (r: Option<string>)
    ensures r.None? ==> Known(sxKey)
  {
    if sxKey == S1Key then (if s1Present then None else Some(AttributeError))
    else if sxKey == S2Key then None
    else Some(UnknownKey)
  }

  /**
   * Which reads raise what: an S2 image is always read, an S1 image only when
   * S1 images were listed (AttributeError otherwise), and any other sensor
   * key raises "Unknown key".
   */
  lemma ReadErrorCases(sxKey: string, s1Present: bool)
    ensures ReadError(sxKey, s1Present).None? <==> sxKey == S2Key || (sxKey == S1Key && s1Present)
    ensures ReadError(sxKey, s1Present) == Some(AttributeError) <==> sxKey == S1Key && !s1Present
    ensures ReadError(sxKey, s1Present) == Some(UnknownKey) <==> !Known(sxKey)
  {
  }

  /** The exception of the first image of a slot that cannot be read, if any. */
  function SlotError(values: seq<(string, int)>, s1Present: bool): (r: Option<string>)
    ensures r.None? ==> forall j :: 0 <= j < |values| ==> Known(values[j].0)
    decreases |values|
  {
    if |values| == 0 then None
    else
      var e := SlotError(values[..|values| - 1], s1Present);
      if e.Some? then e else ReadError(values[|values| - 1].0, s1Present)
  }

  /** The exception of the first slot holding an image that cannot be read, if any. */
  function TupleError(t: TupleIndices, s1Present: bool): (r: Option<string>)
    ensures r.None? ==> AllKnown(t)
    decreases |t|
  {
    if |t| == 0 then None
    else
      var front := t[..|t| - 1];
      var e := TupleError(front, s1Present);
      if e.Some? then e
      else
        var r := SlotError(t[|t| - 1].1, s1Present);
        assert r.None? ==> forall i :: 0 <= i < |t| - 1 ==> t[i] == front[i];
        r
  }

  /** `read_tuple`: the sample dict, or the exception of the first image it cannot read. */
  function ReadTupleSpec(t: TupleIndices, rasters: Rasters, s1Present: bool): Result<Dict<string, Patch>>
  {
    var e := TupleError(t, s1Present);
    if e.Some? then Err(e.value) else Ok(PutAll([], SampleWrites(t, rasters)))
  }

  /** Reading image `read` for slot `key` writes key `k`. */
  predicate ReadWritesKey(key: string, read: (string, int), rasters: Rasters, k: string)
    requires Known(read.0)
  {
    k in Keys(ReadWrites(key, read.0, read.1, rasters))
  }

  /** Reading some image of slot `key` writes key `k`. */
  predicate SlotWritesKey(key: string, values: seq<(string, int)>, rasters: Rasters, k: string)
    requires forall j :: 0 <= j < |values| ==> Known(values[j].0)
  {
    exists j :: 0 <= j < |values| && ReadWritesKey(key, values[j], rasters, k)
  }

  /** Reading some image of some slot of the tuple writes key `k`. */
  predicate WrittenFor(t: TupleIndices, rasters: Rasters, k: string)
    requires AllKnown(t)
  {
    exists i :: 0 <= i < |t| && SlotWritesKey(t[i].0, t[i].1, rasters, k)
  }

  /** The keys one read writes: "geoinfo" for an S2 image, and each source key joined to the slot name. */
  lemma ReadWritesKeys(key: string, read: (string, int), rasters: Rasters, k: string)
    requires Known(read.0)
    ensures ReadWritesKey(key, read, rasters, k) <==>
              (read.0 == S2Key && k == GeoInfoKey) || exists srcKey :: srcKey in SourceKeys(read.0, rasters) && k == SampleKey(srcKey, key)
  {
    var srcKeys := SourceKeys(read.0, rasters);
    var head := if read.0 == S2Key then [GeoInfoKey] else [];
    ReadWritesKeyList(key, read.0, read.1, rasters);
    SampleKeysMembers(srcKeys, key, k);
    assert k in head + SampleKeys(srcKeys, key) <==> k in head || k in SampleKeys(srcKeys, key);
  }

  /** The sample keys of slot `key`, one per source raster, in order. */
  function SampleKeys(srcKeys: seq<string>, key: string): (r: seq<string>)
    ensures |r| == |srcKeys|
  {
    seq(|srcKeys|, m requires 0 <= m < |srcKeys| => SampleKey(srcKeys[m], key))
  }

  /** The keys written for one image: the geographic box first for S2, then one per source raster. */
  lemma ReadWritesKeyList(key: string, sxKey: string, idx: int, rasters: Rasters)
    requires Known(sxKey)
    ensures Keys(ReadWrites(key, sxKey, idx, rasters)) ==
              (if sxKey == S2Key then [GeoInfoKey] else []) + SampleKeys(SourceKeys(sxKey, rasters), key)
  {
  }

  /** A sample key is one of the source rasters' keys suffixed with the slot. */
  lemma SampleKeysMembers(srcKeys: seq<string>, key: string, k: string)
    ensures k in SampleKeys(srcKeys, key) <==> exists srcKey :: srcKey in srcKeys && k == SampleKey(srcKey, key)
  {
    var ks := SampleKeys(srcKeys, key);
    if k in ks {
      var m :| 0 <= m < |ks| && ks[m] == k;
      assert srcKeys[m] in srcKeys;
    }
    if srcKey :| srcKey in srcKeys && k == SampleKey(srcKey, key) {
      var m :| 0 <= m < |srcKeys| && srcKeys[m] == srcKey;
      assert ks[m] == k;
    }
  }

  /** The keys of a slot's writes are the keys of its reads' writes. */
  lemma {:induction false} SlotWritesKeys(key: string, values: seq<(string, int)>, rasters: Rasters, k: string)
    requires forall j :: 0 <= j < |values| ==> Known(values[j].0)
    ensures k in Keys(SlotWrites(key, values, rasters)) <==> SlotWritesKey(key, values, rasters, k)
    decreases |values|
  {
    if |values| > 0 {
      var front, last := values[..|values| - 1], values[|values| - 1];
      SlotWritesKeys(key, front, rasters, k);
      KeysAppend(SlotWrites(key, front, rasters), ReadWrites(key, last.0, last.1, rasters));
      if SlotWritesKey(key, values, rasters, k) {
        var j :| 0 <= j < |values| && ReadWritesKey(key, values[j], rasters, k);
        if j < |values| - 1 {
          assert front[j] == values[j];
        }
      }
      if SlotWritesKey(key, front, rasters, k) {
        var j :| 0 <= j < |front| && ReadWritesKey(key, front[j], rasters, k);
        assert values[j] == front[j];
      }
    }
  }

  /** The keys of the tuple's writes are the keys of its reads' writes. */
  lemma {:induction false} TupleWritesKeys(t: TupleIndices, rasters: Rasters, k: string)
    requires AllKnown(t)
    ensures k in Keys(TupleWrites(t, rasters)) <==> WrittenFor(t, rasters, k)
    decreases |t|
  {
    if |t| > 0 {
      var front, last := t[..|t| - 1], t[|t| - 1];
      assert forall i :: 0 <= i < |front| ==> front[i] == t[i];
      TupleWritesKeys(front, rasters, k);
      SlotWritesKeys(last.0, last.1, rasters, k);
      KeysAppend(TupleWrites(front, rasters), SlotWrites(last.0, last.1, rasters));
      if WrittenFor(t, rasters, k) {
        var i :| 0 <= i < |t| && SlotWritesKey(t[i].0, t[i].1, rasters, k);
        if i < |t| - 1 {
          assert front[i] == t[i];
        }
      }
    }
  }

  /**
   * What `read_tuple` returns: it raises exactly when some image cannot be
   * read (an unknown sensor key, or an S1 image without S1 images listed),
   * and then with the exception of the first such image in dict order;
   * otherwise its keys are "dem" when there is a DEM and the keys some read
   * writes ("geoinfo" for an S2 image, each patch key joined to the slot name
   * with "_"), once each, every one holding what the last write to it put there.
   */
  lemma ReadTupleMeaning(t: TupleIndices, rasters: Rasters, s1Present: bool)
    ensures ReadTupleSpec(t, rasters, s1Present).Err? <==>
              exists i, j :: 0 <= i < |t| && 0 <= j < |t[i].1| && ReadError(t[i].1[j].0, s1Present).Some?
    ensures ReadTupleSpec(t, rasters, s1Present).Err? ==>
              exists i, j :: 0 <= i < |t| && 0 <= j < |t[i].1| &&
                Some(ReadTupleSpec(t, rasters, s1Present).msg) == ReadError(t[i].1[j].0, s1Present) &&
                (forall i', j' :: 0 <= i' < i && 0 <= j' < |t[i'].1| ==> ReadError(t[i'].1[j'].0, s1Present).None?) &&
                (forall j' :: 0 <= j' < j ==> ReadError(t[i].1[j'].0, s1Present).None?)
    ensures ReadTupleSpec(t, rasters, s1Present).Ok? ==>
              var sample := ReadTupleSpec(t, rasters, s1Present).value;
              AllKnown(t) && IsDict(sample) &&
              (forall k :: k in Keys(sample) <==> (k == DemKey && rasters.withDem) || WrittenFor(t, rasters, k)) &&
              (forall k :: Get(sample, k) == LastWrite(SampleWrites(t, rasters), k))
  {
    var e := TupleError(t, s1Present);
    TupleErrorNone(t, s1Present);
    forall i | 0 <= i < |t| {
      SlotErrorNone(t[i].1, s1Present);
    }
    if e.Some? {
      var i := TupleErrorFirst(t, s1Present);
      var j := SlotErrorFirst(t[i].1, s1Present);
      assert Some(ReadTupleSpec(t, rasters, s1Present).msg) == ReadError(t[i].1[j].0, s1Present);
    } else {
      var ws := SampleWrites(t, rasters);
      var sample := PutAll([], ws);
      PutAllMeaning([], ws);
      KeysAppend(TupleWrites(t, rasters), if rasters.withDem then [(DemKey, Dem)] else []);
      forall k
        ensures k in Keys(sample) <==> (k == DemKey && rasters.withDem) || WrittenFor(t, rasters, k)
      {
        TupleWritesKeys(t, rasters, k);
        assert Get(sample, k).Some? <==> k in Keys(ws);
      }
    }
  }

  /**
   * A handler built without an S1 directory cannot read a tuple that names an
   * S1 image (the virtual closest S1 image, index -1, included), even when
   * every sensor key is known: `s1_images` was never set.
   */
  lemma VirtualS1Raises(t: TupleIndices, rasters: Rasters, i: nat, j: nat)
    requires AllKnown(t) && i < |t| && j < |t[i].1| && t[i].1[j].0 == S1Key
    ensures ReadTupleSpec(t, rasters, false) == Err(AttributeError)
    ensures ReadTupleSpec(t, rasters, true).Ok?
  {
    ReadTupleMeaning(t, rasters, false);
    ReadTupleMeaning(t, rasters, true);
    ReadErrorCases(t[i].1[j].0, false);
    var msg := ReadTupleSpec(t, rasters, false).msg;
    var i', j' :| 0 <= i' < |t| && 0 <= j' < |t[i'].1| && Some(msg) == ReadError(t[i'].1[j'].0, false);
    ReadErrorCases(t[i'].1[j'].0, false);
  }

  /** An S2 image read for slot `key` files its 10 m bands under "s2_" + key. */
  lemma S2BandsKey(t: TupleIndices, rasters: Rasters, s1Present: bool, i: nat, j: nat)
    requires TupleError(t, s1Present).None? && i < |t| && j < |t[i].1| && t[i].1[j].0 == S2Key
    ensures "s2_" + t[i].0 in Keys(ReadTupleSpec(t, rasters, s1Present).value)
  {
    var key := t[i].0;
    assert SampleKey(S2Key, key) == "s2_" + key;
    ReadWritesKeys(key, t[i].1[j], rasters, SampleKey(S2Key, key));
    assert SlotWritesKey(key, t[i].1, rasters, SampleKey(S2Key, key));
    ReadTupleMeaning(t, rasters, s1Present);
  }

  /** The patches of one image stored into the sample: the geographic box first for S2, then each array of `get`. */
  method StoreRead(sample: Dict<string, Patch>, key: string, sxKey: string, idx: int, rasters: Rasters)
    returns (r: Dict<string, Patch>)
    requires Known(sxKey)
    ensures r == PutAll(sample, ReadWrites(key, sxKey, idx, rasters))
  {
    var srcKeys := SourceKeys(sxKey, rasters);
    ghost var head: seq<(string, Patch)> := if sxKey == S2Key then [(GeoInfoKey, GeoInfo(idx))] else [];
    ghost var bands := seq(|srcKeys|, m requires 0 <= m < |srcKeys| => (SampleKey(srcKeys[m], key), Band(sxKey, idx, srcKeys[m])));
    assert ReadWrites(key, sxKey, idx, rasters) == head + bands;
    r := sample;
    if sxKey == S2Key {
      r := Put(r, GeoInfoKey, GeoInfo(idx));
      PutAllSnoc(sample, [], GeoInfoKey, GeoInfo(idx));
    }
    ghost var start := PutAll(sample, head);
    assert r == start;
    for m := 0 to |srcKeys|
      invariant r == PutAll(start, bands[..m])
    {
      r := Put(r, SampleKey(srcKeys[m], key), Band(sxKey, idx, srcKeys[m]));
      PutAllPrefix(start, bands, m);
    }
    assert bands[..|srcKeys|] == bands;
    PutAllAppend(sample, head, bands);
  }

  /** The images of one slot read in turn; the first image that cannot be read raises. */
  method StoreSlot(sample: Dict<string, Patch>, key: string, values: seq<(string, int)>, rasters: Rasters, s1Present: bool)
    returns (r: Result<Dict<string, Patch>>)
    ensures r.Err? <==> SlotError(values, s1Present).Some?
    ensures r.Err? ==> Some(r.msg) == SlotError(values, s1Present)
    ensures r.Ok? ==> (forall j :: 0 <= j < |values| ==> Known(values[j].0)) && r.value == PutAll(sample, SlotWrites(key, values, rasters))
  {
    var acc := sample;
    for j := 0 to |values|
      invariant SlotError(values[..j], s1Present).None?
      invariant acc == PutAll(sample, SlotWrites(key, values[..j], rasters))
    {
      var sxKey, sxIdx := values[j].0, values[j].1;
      var e := ReadError(sxKey, s1Present);
      if e.Some? {
        SlotFails(values, s1Present, j);
        return Err(e.value);
      }
      var acc' := StoreRead(acc, key, sxKey, sxIdx, rasters);
      SlotStep(sample, key, values, j, rasters, s1Present, acc, acc');
      acc := acc';
    }
    assert values[..|values|] == values;
    return Ok(acc);
  }

  /** Storing one more image of a slot that can be read. */
  lemma SlotStep(sample: Dict<string, Patch>, key: string, values: seq<(string, int)>, j: nat, rasters: Rasters,
                 s1Present: bool, acc: Dict<string, Patch>, acc': Dict<string, Patch>)
    requires j < |values| && SlotError(values[..j], s1Present).None? && ReadError(values[j].0, s1Present).None?
    requires acc == PutAll(sample, SlotWrites(key, values[..j], rasters))
    requires acc' == PutAll(acc, ReadWrites(key, values[j].0, values[j].1, rasters))
    ensures SlotError(values[..j + 1], s1Present).None?
    ensures acc' == PutAll(sample, SlotWrites(key, values[..j + 1], rasters))
  {
    assert values[..j + 1][..j] == values[..j];
    PutAllAppend(sample, SlotWrites(key, values[..j], rasters), ReadWrites(key, values[j].0, values[j].1, rasters));
  }

  /** The first image of a slot that cannot be read decides the slot's exception. */
  lemma SlotFails(values: seq<(string, int)>, s1Present: bool, j: nat)
    requires j < |values| && SlotError(values[..j], s1Present).None? && ReadError(values[j].0, s1Present).Some?
    ensures SlotError(values, s1Present) == ReadError(values[j].0, s1Present)
  {
    assert values[..j + 1][..j] == values[..j];
    SlotErrorExtend(values, s1Present, j + 1);
  }

  /** A slot raises exactly when one of its images cannot be read. */
  lemma {:induction false} SlotErrorNone(values: seq<(string, int)>, s1Present: bool)
    ensures SlotError(values, s1Present).None? <==> forall j :: 0 <= j < |values| ==> ReadError(values[j].0, s1Present).None?
    decreases |values|
  {
    if |values| > 0 {
      var front := values[..|values| - 1];
      SlotErrorNone(front, s1Present);
      assert forall j :: 0 <= j < |front| ==> front[j] == values[j];
    }
  }

  /** Once some images of a slot raise, the rest of the slot is never read. */
  lemma {:induction false} SlotErrorExtend(values: seq<(string, int)>, s1Present: bool, k: nat)
    requires k <= |values| && SlotError(values[..k], s1Present).Some?
    ensures SlotError(values, s1Present) == SlotError(values[..k], s1Present)
    decreases |values| - k
  {
    if k == |values| {
      assert values[..k] == values;
    } else {
      var front := values[..|values| - 1];
      assert front[..k] == values[..k];
      SlotErrorExtend(front, s1Present, k);
    }
  }

  /** A slot that raises does so with the exception of its first image that cannot be read. */
  lemma {:induction false} SlotErrorFirst(values: seq<(string, int)>, s1Present: bool) returns (j: nat)
    requires SlotError(values, s1Present).Some?
    ensures j < |values| && SlotError(values, s1Present) == ReadError(values[j].0, s1Present)
    ensures forall j' :: 0 <= j' < j ==> ReadError(values[j'].0, s1Present).None?
    decreases |values|
  {
    var front := values[..|values| - 1];
    if SlotError(front, s1Present).Some? {
      j := SlotErrorFirst(front, s1Present);
      assert forall j' :: 0 <= j' <= j ==> front[j'] == values[j'];
    } else {
      j := |values| - 1;
      SlotErrorNone(front, s1Present);
      assert forall j' :: 0 <= j' < j ==> front[j'] == values[j'];
    }
  }

  /** A tuple raises exactly when one of its slots does. */
  lemma {:induction false} TupleErrorNone(t: TupleIndices, s1Present: bool)
    ensures TupleError(t, s1Present).None? <==> forall i :: 0 <= i < |t| ==> SlotError(t[i].1, s1Present).None?
    decreases |t|
  {
    if |t| > 0 {
      var front := t[..|t| - 1];
      TupleErrorNone(front, s1Present);
      assert forall i :: 0 <= i < |front| ==> front[i] == t[i];
    }
  }

  /** Once some slots raise, the rest of the tuple is never read. */
  lemma {:induction false} TupleErrorExtend(t: TupleIndices, s1Present: bool, k: nat)
    requires k <= |t| && TupleError(t[..k], s1Present).Some?
    ensures TupleError(t, s1Present) == TupleError(t[..k], s1Present)
    decreases |t| - k
  {
    if k == |t| {
      assert t[..k] == t;
    } else {
      var front := t[..|t| - 1];
      assert front[..k] == t[..k];
      TupleErrorExtend(front, s1Present, k);
    }
  }

  /** A tuple that raises does so with the exception of its first slot that raises. */
  lemma {:induction false} TupleErrorFirst(t: TupleIndices, s1Present: bool) returns (i: nat)
    requires TupleError(t, s1Present).Some?
    ensures i < |t| && TupleError(t, s1Present) == SlotError(t[i].1, s1Present)
    ensures forall i' :: 0 <= i' < i ==> SlotError(t[i'].1, s1Present).None?
    decreases |t|
  {
    var front := t[..|t| - 1];
    if TupleError(front, s1Present).Some? {
      i := TupleErrorFirst(front, s1Present);
      assert forall i' :: 0 <= i' <= i ==> front[i'] == t[i'];
    } else {
      i := |t| - 1;
      TupleErrorNone(front, s1Present);
      assert forall i' :: 0 <= i' < i ==> front[i'] == t[i'];
    }
  }

  /** The writes for one more slot of the tuple. */
  lemma TupleWritesStep(t: TupleIndices, i: nat, rasters: Rasters)
    requires i < |t| && AllKnown(t[..i]) && forall j :: 0 <= j < |t[i].1| ==> Known(t[i].1[j].0)
    ensures AllKnown(t[..i + 1])
    ensures TupleWrites(t[..i + 1], rasters) == TupleWrites(t[..i], rasters) + SlotWrites(t[i].0, t[i].1, rasters)
  {
    var u := t[..i + 1];
    assert u[..i] == t[..i] && u[i] == t[i];
    forall a, b | 0 <= a < |u| && 0 <= b < |u[a].1| ensures Known(u[a].1[b].0) {
      if a < i {
        assert u[a] == t[..i][a];
      }
    }
  }

  /** Once every slot is stored, the sample is complete but for the DEM. */
  lemma ReadTupleDone(t: TupleIndices, rasters: Rasters, s1Present: bool, sample: Dict<string, Patch>)
    requires TupleError(t, s1Present).None? && sample == PutAll([], TupleWrites(t, rasters))
    ensures ReadTupleSpec(t, rasters, s1Present) == Ok(if rasters.withDem then Put(sample, DemKey, Dem) else sample)
  {
    var tw := TupleWrites(t, rasters);
    if rasters.withDem {
      PutAllSnoc([], tw, DemKey, Dem);
    } else {
      assert tw + [] == tw;
    }
  }

  /**
   * `read_tuple` step by step: every image of every slot, in dict order, is
   * read and its patches are stored; the first image that cannot be read raises.
   */
  method ReadTuple(t: TupleIndices, rasters: Rasters, s1Present: bool) returns (r: Result<Dict<string, Patch>>)
    ensures r == ReadTupleSpec(t, rasters, s1Present)
  {
    var sample: Dict<string, Patch> := [];
    for i := 0 to |t|
      invariant TupleError(t[..i], s1Present).None?
      invariant sample == PutAll([], TupleWrites(t[..i], rasters))
    {
      var stored := StoreSlot(sample, t[i].0, t[i].1, rasters, s1Present);
      assert t[..i + 1][..i] == t[..i] && t[..i + 1][i] == t[i];
      if stored.Err? {
        TupleErrorExtend(t, s1Present, i + 1);
        return Err(stored.msg);
      }
      TupleWritesStep(t, i, rasters);
      PutAllAppend([], TupleWrites(t[..i], rasters), SlotWrites(t[i].0, t[i].1, rasters));
      sample := stored.value;
    }
    assert t[..|t|] == t;
    ReadTupleDone(t, rasters, s1Present, sample);
    if rasters.withDem {
      sample := Put(sample, DemKey, Dem);
    }
    return Ok(sample);
  }
}
