/** What the reader and the writer of PHP values mean, without naming how they work: which
    value each PHP value stands for, which error is reported, and what becomes of any value
    that is written and read back. */
module PhpMeaning {
  import opened PhpArrays
  import opened PhpValues
  import opened Results

  // ----- Keys of points

  /** The first entry under the text key `key` is `z`. */
  ghost predicate HasEntry(table: Table, key: string, z: Zval) {
    exists i :: 0 <= i < |table| && table[i] == (StrKey(key), z) && forall j :: 0 <= j < i ==> table[j].0 != StrKey(key)
  }

  ghost predicate HasKey(table: Table, key: string) {
    exists i :: 0 <= i < |table| && table[i].0 == StrKey(key)
  }

  lemma {:induction false} GetIsFirst(table: Table, key: string, z: Zval)
    ensures Get(table, key) == Some(z) <==> HasEntry(table, key, z)
    ensures Get(table, key).Some? <==> HasKey(table, key)
    decreases table
  {
    if table != [] && table[0].0 != StrKey(key) {
      var rest := table[1..];
      GetIsFirst(rest, key, z);
      if i :| 0 <= i < |rest| && rest[i] == (StrKey(key), z) && forall j :: 0 <= j < i ==> rest[j].0 != StrKey(key) {
        assert table[i + 1] == (StrKey(key), z);
        assert forall j :: 0 < j < i + 1 ==> table[j] == rest[j - 1];
      }
      if i :| 0 <= i < |table| && table[i] == (StrKey(key), z) && forall j :: 0 <= j < i ==> table[j].0 != StrKey(key) {
        assert rest[i - 1] == (StrKey(key), z);
        assert forall j :: 0 <= j < i - 1 ==> rest[j] == table[j + 1];
      }
      if i :| 0 <= i < |table| && table[i].0 == StrKey(key) {
        assert rest[i - 1].0 == StrKey(key);
      }
      if i :| 0 <= i < |rest| && rest[i].0 == StrKey(key) {
        assert table[i + 1].0 == StrKey(key);
      }
    } else if table != [] {
      assert HasEntry(table, key, table[0].1);
    }
  }

  // ----- The meaning of a PHP value

  ghost predicate KeyedAsGeo(table: Table) {
    HasKey(table, "lat") && HasKey(table, "lon")
  }

  ghost predicate KeyedAsEcef(table: Table) {
    HasKey(table, "x") && HasKey(table, "y") && HasKey(table, "z")
  }

  /** Latitude and longitude as floats, within 90 and 180 degrees. */
  ghost predicate MeansGeo(z: Zval, p: GeoPoint) {
    && z.ZArray? && HasEntry(z.entries, "lat", ZDouble(p.lat)) && HasEntry(z.entries, "lon", ZDouble(p.lon))
    && -90.0 <= p.lat <= 90.0 && -180.0 <= p.lon <= 180.0
  }

  ghost predicate MeansEcef(z: Zval, q: EcefPoint) {
    && z.ZArray? && !KeyedAsGeo(z.entries)
    && HasEntry(z.entries, "x", ZDouble(q.x)) && HasEntry(z.entries, "y", ZDouble(q.y))
    && HasEntry(z.entries, "z", ZDouble(q.z))
  }

  ghost predicate MeansFloat(c: Codec, z: Zval, f: real) {
    match z
    case ZLong(i) => f == c.widen(i)
    case ZDouble(g) => f == g
    case _ => false
  }

  ghost predicate Counted(table: Table) {
    forall i :: 0 <= i < |table| ==> table[i].0 == IntKey(i)
  }

  ghost predicate MeansNarrowed(c: Codec, z: Zval, v: real) {
    exists f :: MeansFloat(c, z, f) && v == c.narrow(f)
  }

  /** A list of numbers, in single precision. */
  ghost predicate MeansVector(c: Codec, z: Zval, v: seq<real>) {
    && z.ZArray? && Counted(z.entries) && |z.entries| == |v|
    && forall i :: 0 <= i < |v| ==> MeansNarrowed(c, z.entries[i].1, v[i])
  }

  /** The elements of an array that is not keyed as a point: all integers, all numbers with a
      float among them, all booleans, all timestamps, all texts with one that is no timestamp
      among them, all points of one kind, or a list of lists of numbers. An empty array is the
      empty array of integers. */
  ghost predicate MeansElements(c: Codec, t: Table, v: DataValue) {
    match v
    case Int64Array(xs) => |t| == |xs| && forall i :: 0 <= i < |t| ==> t[i].1 == ZLong(xs[i])
    case Float64Array(xs) =>
      && |t| == |xs| && (forall i :: 0 <= i < |t| ==> MeansFloat(c, t[i].1, xs[i]))
      && exists i :: 0 <= i < |t| && t[i].1.ZDouble?
    case BoolArray(bs) => bs != [] && |t| == |bs| && forall i :: 0 <= i < |t| ==> t[i].1 == ZBool(bs[i])
    case DateTimeArray(ts) =>
      && ts != [] && |t| == |ts|
      && forall i :: 0 <= i < |t| ==> t[i].1.ZString? && c.parse(t[i].1.s) == Some(ts[i])
    case TextArray(ss) =>
      && |t| == |ss| && (forall i :: 0 <= i < |t| ==> t[i].1 == ZString(ss[i]))
      && exists i :: 0 <= i < |ss| && c.parse(ss[i]).None?
    case GeoArray(ps) => ps != [] && |t| == |ps| && forall i :: 0 <= i < |t| ==> MeansGeo(t[i].1, ps[i])
    case GeoEcefArray(qs) => qs != [] && |t| == |qs| && forall i :: 0 <= i < |t| ==> MeansEcef(t[i].1, qs[i])
    case VectorArray(vs) =>
      vs != [] && Counted(t) && |t| == |vs| && forall i :: 0 <= i < |t| ==> MeansVector(c, t[i].1, vs[i])
    case _ => false
  }

  /** The PHP value `z` stands for the value `v`. */
  ghost predicate Means(c: Codec, z: Zval, v: DataValue) {
    match v
    case Null => z == ZNull
    case Bool(b) => z == ZBool(b)
    case Int64(i) => z == ZLong(i)
    case Float64(f) => z == ZDouble(f)
    case Text(s) => z == ZString(s) && c.parse(s).None?
    case DateTime(t) => z.ZString? && c.parse(z.s) == Some(t)
    case Geo(p) => MeansGeo(z, p)
    case GeoEcef(q) => MeansEcef(z, q)
    case _ => z.ZArray? && !KeyedAsGeo(z.entries) && !KeyedAsEcef(z.entries) && MeansElements(c, z.entries, v)
  }

  lemma KeysAre(table: Table)
    ensures HasGeoKeys(table) <==> KeyedAsGeo(table)
    ensures HasEcefKeys(table) <==> KeyedAsEcef(table)
  {
    GetIsFirst(table, "lat", ZNull);
    GetIsFirst(table, "lon", ZNull);
    GetIsFirst(table, "x", ZNull);
    GetIsFirst(table, "y", ZNull);
    GetIsFirst(table, "z", ZNull);
  }

  /** Points: which arrays read as which point. */
  lemma PointMeaning(c: Codec, z: Zval, p: GeoPoint, q: EcefPoint)
    ensures Read(c, z) == Ok(Geo(p)) <==> MeansGeo(z, p)
    ensures Read(c, z) == Ok(GeoEcef(q)) <==> MeansEcef(z, q)
  {
    if z.ZArray? {
      var table := z.entries;
      KeysAre(table);
      GetIsFirst(table, "lat", ZDouble(p.lat));
      GetIsFirst(table, "lon", ZDouble(p.lon));
      GetIsFirst(table, "x", ZDouble(q.x));
      GetIsFirst(table, "y", ZDouble(q.y));
      GetIsFirst(table, "z", ZDouble(q.z));
      KeysDecide(c, table, p, q);
      PointsByKeys(c, z);
    }
  }

  // ----- Elements, one by one

  lemma {:induction false} StringsMean(table: Table, ss: seq<string>)
    ensures ReadStrings(table) == Ok(ss)
       <==> |table| == |ss| && forall i :: 0 <= i < |table| ==> table[i].1 == ZString(ss[i])
    decreases table
  {
    if table != [] && ss != [] {
      StringsMean(table[1..], ss[1..]);
      assert ss == [ss[0]] + ss[1..];
      assert forall i :: 0 <= i < |table[1..]| ==> table[1..][i] == table[i + 1];
      assert forall i :: 0 < i < |table| ==> table[i] == table[1..][i - 1];
      assert forall i :: 0 < i < |ss| ==> ss[i] == ss[1..][i - 1];
    }
  }

  lemma {:induction false} InstantsMean(c: Codec, ss: seq<string>, ts: seq<int>)
    ensures ParseAll(c, ss) == Some(ts) <==> |ss| == |ts| && forall i :: 0 <= i < |ss| ==> c.parse(ss[i]) == Some(ts[i])
    decreases ss
  {
    if ss != [] && ts != [] {
      InstantsMean(c, ss[1..], ts[1..]);
      assert ts == [ts[0]] + ts[1..];
      assert forall i :: 0 < i < |ss| ==> ss[i] == ss[1..][i - 1];
      assert forall i :: 0 < i < |ts| ==> ts[i] == ts[1..][i - 1];
    }
  }

  lemma {:induction false} FloatsMean(c: Codec, table: Table, xs: seq<real>)
    ensures ReadFloats(c, table) == Ok(xs)
       <==> |table| == |xs| && forall i :: 0 <= i < |table| ==> MeansFloat(c, table[i].1, xs[i])
    decreases table
  {
    if table != [] && xs != [] {
      FloatsMean(c, table[1..], xs[1..]);
      assert xs == [xs[0]] + xs[1..];
      assert forall i :: 0 < i < |table| ==> table[i] == table[1..][i - 1];
      assert forall i :: 0 < i < |xs| ==> xs[i] == xs[1..][i - 1];
    }
  }

  lemma NumberMeans(c: Codec, z: Zval, v: real)
    ensures MeansNarrowed(c, z, v)
       <==> (z.ZLong? && v == c.narrow(c.widen(z.i))) || (z.ZDouble? && v == c.narrow(z.f))
  {
    if z.ZLong? {
      assert MeansFloat(c, z, c.widen(z.i));
    } else if z.ZDouble? {
      assert MeansFloat(c, z, z.f);
    }
  }

  lemma {:induction false} RowMeans(c: Codec, row: Table, v: seq<real>, index: nat)
    ensures ReadRow(c, row, index) == Ok(v)
       <==> |row| == |v| && forall i :: 0 <= i < |v| ==> MeansNarrowed(c, row[i].1, v[i])
    decreases row
  {
    if row != [] && v != [] {
      RowMeans(c, row[1..], v[1..], index);
      NumberMeans(c, row[0].1, v[0]);
      assert v == [v[0]] + v[1..];
      assert forall i :: 0 < i < |row| ==> row[i] == row[1..][i - 1];
      assert forall i :: 0 < i < |v| ==> v[i] == v[1..][i - 1];
    }
  }

  ghost predicate RowIs(c: Codec, row: Table, v: seq<real>) {
    |row| == |v| && forall i :: 0 <= i < |v| ==> MeansNarrowed(c, row[i].1, v[i])
  }

  lemma {:induction false} RowsMean(c: Codec, rows: Table, vs: seq<seq<real>>, index: nat)
    requires AllArrays(rows)
    ensures ReadRows(c, rows, index) == Ok(vs)
       <==> |rows| == |vs| && forall i :: 0 <= i < |rows| ==> RowIs(c, rows[i].1.entries, vs[i])
    decreases rows
  {
    if rows != [] && vs != [] {
      RowsMean(c, rows[1..], vs[1..], index + 1);
      RowMeans(c, rows[0].1.entries, vs[0], index);
      assert vs == [vs[0]] + vs[1..];
      assert forall i :: 0 < i < |rows| ==> rows[i] == rows[1..][i - 1];
      assert forall i :: 0 < i < |vs| ==> vs[i] == vs[1..][i - 1];
    }
  }

  /** Points in order, all of the first kind or all of the second. */
  lemma {:induction false} GeosMean(c: Codec, table: Table, ps: seq<GeoPoint>)
    ensures ReadPoints(c, table) == Ok((ps, []))
       <==> |table| == |ps| && forall i :: 0 <= i < |ps| ==> MeansGeo(table[i].1, ps[i])
    decreases table
  {
    if table != [] {
      if ps != [] {
        GeosMean(c, table[1..], ps[1..]);
        PointMeaning(c, table[0].1, ps[0], EcefPoint(0.0, 0.0, 0.0));
        assert ps == [ps[0]] + ps[1..];
        assert forall i :: 0 < i < |table| ==> table[i] == table[1..][i - 1];
        assert forall i :: 0 < i < |ps| ==> ps[i] == ps[1..][i - 1];
      }
    }
  }

  lemma {:induction false} EcefsMean(c: Codec, table: Table, qs: seq<EcefPoint>)
    ensures ReadPoints(c, table) == Ok(([], qs))
       <==> |table| == |qs| && forall i :: 0 <= i < |qs| ==> MeansEcef(table[i].1, qs[i])
    decreases table
  {
    if table != [] {
      if qs != [] {
        EcefsMean(c, table[1..], qs[1..]);
        PointMeaning(c, table[0].1, GeoPoint(0.0, 0.0), qs[0]);
        assert qs == [qs[0]] + qs[1..];
        assert forall i :: 0 < i < |table| ==> table[i] == table[1..][i - 1];
        assert forall i :: 0 < i < |qs| ==> qs[i] == qs[1..][i - 1];
      }
    }
  }

  // ----- Arrays as a whole

  lemma CountedIsNoPoint(z: Zval, p: GeoPoint, q: EcefPoint)
    requires z.ZArray? && Counted(z.entries)
    ensures !MeansGeo(z, p) && !MeansEcef(z, q)
  {
  }

  lemma TokenVectorsMean(c: Codec, table: Table, v: DataValue)
    requires table != [] && IsTokenVectorList(table)
    ensures ReadArray(c, table) == Ok(v) <==> MeansElements(c, table, v)
  {
    ListHasNoMarkers(table);
    assert table[0].1.ZArray? && Counted(table[0].1.entries);
    if v.VectorArray? {
      RowsMean(c, table, v.vectors, 0);
      forall i | 0 <= i < |table| && |table| == |v.vectors|
        ensures RowIs(c, table[i].1.entries, v.vectors[i]) <==> MeansVector(c, table[i].1, v.vectors[i])
      {
      }
    } else if v.GeoArray? && v.points != [] {
      CountedIsNoPoint(table[0].1, v.points[0], EcefPoint(0.0, 0.0, 0.0));
    } else if v.GeoEcefArray? && v.ecefs != [] {
      CountedIsNoPoint(table[0].1, GeoPoint(0.0, 0.0), v.ecefs[0]);
    }
  }

  lemma PointArrayMeans(c: Codec, table: Table, v: DataValue)
    requires table != [] && AllArrays(table) && !IsTokenVectorList(table)
    ensures ReadPointArray(c, table) == Ok(v) <==> MeansElements(c, table, v)
  {
    assert table[0].1.ZArray?;
    if v.GeoArray? {
      GeosMean(c, table, v.points);
    } else if v.GeoEcefArray? {
      EcefsMean(c, table, v.ecefs);
    } else if v.VectorArray? && |table| == |v.vectors| && Counted(table) {
      var i :| 0 <= i < |table| && !IsList(table[i].1.entries);
      assert !MeansVector(c, table[i].1, v.vectors[i]);
    }
  }

  lemma TextsMean(c: Codec, table: Table, v: DataValue)
    requires table != [] && AllStrings(table)
    ensures ReadTexts(c, table) == Ok(v) <==> MeansElements(c, table, v)
  {
    assert IsString(table[0].1);
    var r := ReadStrings(table);
    if r.Ok? {
      var ss := r.value;
      StringsMean(table, ss);
      ParseAllFails(c, ss);
      if v.TextArray? {
        StringsMean(table, v.texts);
      } else if v.DateTimeArray? {
        InstantsMean(c, ss, v.instants);
      }
    } else if v.TextArray? {
      StringsMean(table, v.texts);
    } else {
      StringsAreValid(table);
    }
  }

  lemma NumbersMean(c: Codec, table: Table, v: DataValue)
    requires table != [] && !AllArrays(table) && !AllStrings(table)
    ensures ReadScalars(c, table) == Ok(v) <==> MeansElements(c, table, v)
  {
    if v.Float64Array? {
      FloatsMean(c, table, v.floats);
      if AllLongs(table) {
        assert table[0].1.ZLong?;
      } else if AllBools(table) {
        assert table[0].1.ZBool?;
      }
    } else if v.Int64Array? {
      if MeansElements(c, table, v) {
        assert table[0].1.ZLong? && Ints(table) == v.ints;
      }
    } else if v.BoolArray? {
      if MeansElements(c, table, v) {
        assert Flags(table) == v.flags;
      }
    }
  }

  lemma ElementsMean(c: Codec, table: Table, v: DataValue)
    requires !KeyedAsGeo(table) && !KeyedAsEcef(table)
    ensures ReadArray(c, table) == Ok(v) <==> MeansElements(c, table, v)
  {
    KeysAre(table);
    if table != [] {
      if IsTokenVectorList(table) {
        TokenVectorsMean(c, table, v);
      } else if AllArrays(table) {
        PointArrayMeans(c, table, v);
      } else if AllStrings(table) {
        TextsMean(c, table, v);
      } else {
        NumbersMean(c, table, v);
      }
    }
  }

  /** What reading means: the result is the value that the PHP value stands for, and there is
      none if it stands for no value. */
  lemma ReadMeans(c: Codec, z: Zval, v: DataValue)
    ensures Read(c, z) == Ok(v) <==> Means(c, z, v)
  {
    if v.Geo? {
      PointMeaning(c, z, v.p, EcefPoint(0.0, 0.0, 0.0));
    } else if v.GeoEcef? {
      PointMeaning(c, z, GeoPoint(0.0, 0.0), v.q);
    } else if z.ZArray? {
      KeysAre(z.entries);
      if !KeyedAsGeo(z.entries) && !KeyedAsEcef(z.entries) {
        ElementsMean(c, z.entries, v);
      }
    }
  }

  // ----- What the writer shows

  /** A list of as many elements. */
  ghost predicate IsListOf(z: Zval, n: nat) {
    z.ZArray? && Counted(z.entries) && |z.entries| == n
  }

  ghost predicate ShowsFloats(z: Zval, xs: seq<real>) {
    IsListOf(z, |xs|) && forall i :: 0 <= i < |xs| ==> z.entries[i].1 == ZDouble(xs[i])
  }

  ghost predicate ShowsGeo(z: Zval, p: GeoPoint) {
    z == ZArray([(StrKey("lat"), ZDouble(p.lat)), (StrKey("lon"), ZDouble(p.lon))])
  }

  ghost predicate ShowsEcef(z: Zval, q: EcefPoint) {
    z == ZArray([(StrKey("x"), ZDouble(q.x)), (StrKey("y"), ZDouble(q.y)), (StrKey("z"), ZDouble(q.z))])
  }

  /** `z` shows the value `v` to PHP: scalars as such, instants as text, points under their
      keys, and every array as a list of its elements in order. */
  ghost predicate Shows(c: Codec, v: DataValue, z: Zval) {
    match v
    case Null => z == ZNull
    case Bool(b) => z == ZBool(b)
    case Int64(i) => z == ZLong(i)
    case Float64(f) => z == ZDouble(f)
    case Text(s) => z == ZString(s)
    case DateTime(t) => z == ZString(c.format(t))
    case Geo(p) => ShowsGeo(z, p)
    case GeoEcef(q) => ShowsEcef(z, q)
    case Vector(xs) => ShowsFloats(z, xs)
    case Float64Array(xs) => ShowsFloats(z, xs)
    case Int64Array(xs) => IsListOf(z, |xs|) && forall i :: 0 <= i < |xs| ==> z.entries[i].1 == ZLong(xs[i])
    case BoolArray(bs) => IsListOf(z, |bs|) && forall i :: 0 <= i < |bs| ==> z.entries[i].1 == ZBool(bs[i])
    case TextArray(ss) => IsListOf(z, |ss|) && forall i :: 0 <= i < |ss| ==> z.entries[i].1 == ZString(ss[i])
    case DateTimeArray(ts) =>
      IsListOf(z, |ts|) && forall i :: 0 <= i < |ts| ==> z.entries[i].1 == ZString(c.format(ts[i]))
    case GeoArray(ps) => IsListOf(z, |ps|) && forall i :: 0 <= i < |ps| ==> ShowsGeo(z.entries[i].1, ps[i])
    case GeoEcefArray(qs) => IsListOf(z, |qs|) && forall i :: 0 <= i < |qs| ==> ShowsEcef(z.entries[i].1, qs[i])
    case VectorArray(vs) => IsListOf(z, |vs|) && forall i :: 0 <= i < |vs| ==> ShowsFloats(z.entries[i].1, vs[i])
  }

  lemma ListShown(values: seq<Zval>, z: Zval)
    ensures z == ListOf(values)
       <==> IsListOf(z, |values|) && forall i :: 0 <= i < |values| ==> z.entries[i].1 == values[i]
  {
    if IsListOf(z, |values|) && forall i :: 0 <= i < |values| ==> z.entries[i].1 == values[i] {
      assert z.entries == ListOf(values).entries;
    }
  }

  lemma RowsShown(vs: seq<seq<real>>, z: Zval)
    ensures z == ListOf(Rows(vs))
       <==> IsListOf(z, |vs|) && forall i :: 0 <= i < |vs| ==> ShowsFloats(z.entries[i].1, vs[i])
  {
    ListShown(Rows(vs), z);
    forall i, y: Zval | 0 <= i < |vs|
      ensures y == Rows(vs)[i] <==> ShowsFloats(y, vs[i])
    {
      ListShown(Doubles(vs[i]), y);
    }
  }

  lemma ScalarListShows(c: Codec, v: DataValue, z: Zval)
    requires v.Vector? || v.Float64Array? || v.Int64Array? || v.BoolArray?
    ensures z == Write(c, v) <==> Shows(c, v, z)
  {
    match v {
      case Vector(xs) => ListShown(Doubles(xs), z);
      case Float64Array(xs) => ListShown(Doubles(xs), z);
      case Int64Array(xs) => ListShown(Longs(xs), z);
      case BoolArray(bs) => ListShown(Bools(bs), z);
    }
  }

  lemma OtherListShows(c: Codec, v: DataValue, z: Zval)
    requires v.TextArray? || v.DateTimeArray? || v.GeoArray? || v.GeoEcefArray?
    ensures z == Write(c, v) <==> Shows(c, v, z)
  {
    match v {
      case TextArray(ss) => ListShown(Strings(ss), z);
      case DateTimeArray(ts) => ListShown(Timestamps(c, ts), z);
      case GeoArray(ps) => ListShown(Geos(ps), z);
      case GeoEcefArray(qs) => ListShown(Ecefs(qs), z);
    }
  }

  /** What writing means. */
  lemma WriteShows(c: Codec, v: DataValue, z: Zval)
    ensures z == Write(c, v) <==> Shows(c, v, z)
  {
    if v.Vector? || v.Float64Array? || v.Int64Array? || v.BoolArray? {
      ScalarListShows(c, v, z);
    } else if v.TextArray? || v.DateTimeArray? || v.GeoArray? || v.GeoEcefArray? {
      OtherListShows(c, v, z);
    } else if v.VectorArray? {
      RowsShown(v.vectors, z);
    }
  }

  // ----- What comes back

  ghost function Instants(c: Codec, ss: seq<string>): seq<int>
    requires forall i :: 0 <= i < |ss| ==> c.parse(ss[i]).Some?
  {
    seq(|ss|, i requires 0 <= i < |ss| => c.parse(ss[i]).value)
  }

  ghost function Rounded(c: Codec, v: seq<real>): seq<real> {
    seq(|v|, i requires 0 <= i < |v| => c.narrow(v[i]))
  }

  /** The value read back for any value written. An empty array comes back as the empty array
      of integers, a bare vector as floats, text that is a timestamp as one, vectors in single
      precision; a point out of range is an error, and everything else comes back as it was. */
  ghost function Restored(c: Codec, v: DataValue): Outcome<DataValue> {
    match v
    case Text(s) => Ok(if c.parse(s).Some? then DateTime(c.parse(s).value) else v)
    case Geo(p) => if -90.0 <= p.lat <= 90.0 && -180.0 <= p.lon <= 180.0 then Ok(v) else Err(InvalidPoint)
    case Vector(xs) => Ok(if xs == [] then Int64Array([]) else Float64Array(xs))
    case Float64Array(xs) => Ok(if xs == [] then Int64Array([]) else v)
    case GeoArray(ps) =>
      if ps == [] then Ok(Int64Array([]))
      else if forall i :: 0 <= i < |ps| ==> -90.0 <= ps[i].lat <= 90.0 && -180.0 <= ps[i].lon <= 180.0 then Ok(v)
      else Err(InvalidPoint)
    case GeoEcefArray(qs) => Ok(if qs == [] then Int64Array([]) else v)
    case DateTimeArray(ts) => Ok(if ts == [] then Int64Array([]) else v)
    case BoolArray(bs) => Ok(if bs == [] then Int64Array([]) else v)
    case TextArray(ss) =>
      Ok(if ss == [] then Int64Array([])
         else if forall i :: 0 <= i < |ss| ==> c.parse(ss[i]).Some? then DateTimeArray(Instants(c, ss))
         else v)
    case VectorArray(vs) =>
      Ok(if vs == [] then Int64Array([])
         else VectorArray(seq(|vs|, i requires 0 <= i < |vs| => Rounded(c, vs[i]))))
    case _ => Ok(v)
  }

  lemma EmptyComesBack(c: Codec)
    ensures Read(c, ZArray([])) == Ok(Int64Array([]))
  {
  }

  lemma CountedHasNoKeys(table: Table)
    requires Counted(table)
    ensures !KeyedAsGeo(table) && !KeyedAsEcef(table)
  {
  }

  lemma {:induction false} PointsFail(c: Codec, table: Table, ps: seq<GeoPoint>, i: nat)
    requires |table| == |ps| && forall j :: 0 <= j < |ps| ==> table[j].1 == WriteGeo(ps[j])
    requires i < |ps| && !InRange(ps[i])
    ensures ReadPoints(c, table) == Err(InvalidPoint)
    decreases table
  {
    GeoReadsBack(c, ps[0]);
    if i > 0 {
      PointsFail(c, table[1..], ps[1..], i - 1);
    }
  }

  lemma GeoArrayFails(c: Codec, ps: seq<GeoPoint>, i: nat)
    requires i < |ps| && !InRange(ps[i])
    ensures Read(c, Write(c, GeoArray(ps))) == Err(InvalidPoint)
  {
    var table := Write(c, GeoArray(ps)).entries;
    PointIsNoList(ps[0], EcefPoint(0.0, 0.0, 0.0));
    assert table[0].1 == WriteGeo(ps[0]) && AllArrays(table);
    ReadAsPoints(c, table);
    PointsFail(c, table, ps, i);
  }

  lemma TimestampsComeBack(c: Codec, ss: seq<string>)
    requires ss != [] && forall i :: 0 <= i < |ss| ==> c.parse(ss[i]).Some?
    ensures Read(c, Write(c, TextArray(ss))) == Ok(DateTimeArray(Instants(c, ss)))
  {
    var z := Write(c, TextArray(ss));
    WriteShows(c, TextArray(ss), z);
    CountedHasNoKeys(z.entries);
    ReadMeans(c, z, DateTimeArray(Instants(c, ss)));
  }

  lemma VectorsComeBack(c: Codec, vs: seq<seq<real>>, r: seq<seq<real>>)
    requires vs != [] && r == seq(|vs|, i requires 0 <= i < |vs| => Rounded(c, vs[i]))
    ensures Read(c, Write(c, VectorArray(vs))) == Ok(VectorArray(r))
  {
    var z := Write(c, VectorArray(vs));
    WriteShows(c, VectorArray(vs), z);
    CountedHasNoKeys(z.entries);
    forall i | 0 <= i < |vs|
      ensures MeansVector(c, z.entries[i].1, r[i])
    {
      assert ShowsFloats(z.entries[i].1, vs[i]);
      forall j | 0 <= j < |vs[i]|
        ensures MeansNarrowed(c, z.entries[i].1.entries[j].1, r[i][j])
      {
        NumberMeans(c, z.entries[i].1.entries[j].1, r[i][j]);
      }
    }
    ReadMeans(c, z, VectorArray(r));
  }

  /** What reading gives for any value that was written. */
  lemma ReadBack(c: Codec, v: DataValue)
    requires Lawful(c)
    ensures Read(c, Write(c, v)) == Restored(c, v)
  {
    EmptyComesBack(c);
    RoundTrip(c, v);
    match v {
      case Vector(xs) => VectorReadsAsFloats(c, xs);
      case Geo(p) => GeoReadsBack(c, p);
      case GeoArray(ps) =>
        if i :| 0 <= i < |ps| && !InRange(ps[i]) {
          GeoArrayFails(c, ps, i);
        }
      case TextArray(ss) =>
        if ss != [] && forall i :: 0 <= i < |ss| ==> c.parse(ss[i]).Some? {
          TimestampsComeBack(c, ss);
        }
      case VectorArray(vs) =>
        if vs != [] {
          VectorsComeBack(c, vs, seq(|vs|, i requires 0 <= i < |vs| => Rounded(c, vs[i])));
        }
      case _ =>
    }
  }

  // ----- Which error

  ghost predicate AllNumbers(row: Table) {
    forall j :: 0 <= j < |row| ==> row[j].1.ZLong? || row[j].1.ZDouble?
  }

  /** Row `i` is the first that holds something other than numbers. */
  ghost predicate FirstBadRow(rows: Table, i: nat) {
    && i < |rows| && rows[i].1.ZArray? && !AllNumbers(rows[i].1.entries)
    && forall j :: 0 <= j < i ==> rows[j].1.ZArray? && AllNumbers(rows[j].1.entries)
  }

  lemma {:induction false} RowFails(c: Codec, row: Table, index: nat)
    ensures ReadRow(c, row, index).Err? <==> !AllNumbers(row)
    ensures ReadRow(c, row, index).Err? ==> ReadRow(c, row, index).error == BadTokenVector(index)
    decreases row
  {
    if row != [] {
      RowFails(c, row[1..], index);
      assert forall j :: 0 < j < |row| ==> row[j] == row[1..][j - 1];
      assert forall j :: 0 <= j < |row[1..]| ==> row[1..][j] == row[j + 1];
    }
  }

  lemma {:induction false} RowsFail(c: Codec, rows: Table, index: nat, i: nat)
    requires AllArrays(rows) && FirstBadRow(rows, i)
    ensures ReadRows(c, rows, index) == Err(BadTokenVector(index + i))
    decreases rows
  {
    RowFails(c, rows[0].1.entries, index);
    if i > 0 {
      assert rows[1..][i - 1] == rows[i];
      assert forall j :: 0 <= j < i - 1 ==> rows[1..][j] == rows[j + 1];
      RowsFail(c, rows[1..], index + 1, i - 1);
    }
  }

  /** The error that element `z` of an array of points gives: its own, or that it is no point. */
  ghost predicate PointFails(c: Codec, z: Zval, e: Error) {
    match Read(c, z)
    case Err(d) => e == d
    case Ok(v) => !v.Geo? && !v.GeoEcef? && e == MixedPoints
  }

  ghost predicate FirstBadPoint(c: Codec, table: Table, i: nat, e: Error) {
    && i < |table| && PointFails(c, table[i].1, e)
    && forall j :: 0 <= j < i ==> ReadsAs(c, table[j].1, true) || ReadsAs(c, table[j].1, false)
  }

  lemma {:induction false} FirstPointFails(c: Codec, table: Table, i: nat, e: Error)
    requires FirstBadPoint(c, table, i, e)
    ensures ReadPoints(c, table) == Err(e)
    decreases table
  {
    if i > 0 {
      assert table[1..][i - 1] == table[i];
      assert forall j :: 0 <= j < i - 1 ==> table[1..][j] == table[j + 1];
      assert ReadsAs(c, table[0].1, true) || ReadsAs(c, table[0].1, false);
      FirstPointFails(c, table[1..], i - 1, e);
    }
  }

  lemma {:induction false} SomeRowIsBad(rows: Table, k: nat) returns (i: nat)
    requires k < |rows| && AllArrays(rows) && !AllNumbers(rows[k].1.entries)
    ensures FirstBadRow(rows, i)
    decreases k
  {
    if j :| 0 <= j < k && !AllNumbers(rows[j].1.entries) {
      i := SomeRowIsBad(rows, j);
    } else {
      i := k;
    }
  }

  lemma {:induction false} SomePointIsBad(c: Codec, table: Table, k: nat) returns (i: nat, e: Error)
    requires k < |table| && !ReadsAs(c, table[k].1, true) && !ReadsAs(c, table[k].1, false)
    ensures FirstBadPoint(c, table, i, e)
    decreases k
  {
    if j :| 0 <= j < k && !ReadsAs(c, table[j].1, true) && !ReadsAs(c, table[j].1, false) {
      i, e := SomePointIsBad(c, table, j);
    } else {
      i := k;
      e := if Read(c, table[k].1).Err? then Read(c, table[k].1).error else MixedPoints;
    }
  }

  /** The error of an array that is not keyed as a point: for a list of lists, the first row
      that holds something other than numbers, by its index; for other arrays of arrays, that
      of the first element that is no point, or that both kinds are mixed; for strings, that one
      is not valid; and otherwise that the elements are not all numbers. */
  ghost predicate ElementsFail(c: Codec, table: Table, e: Error) {
    if forall i :: 0 <= i < |table| ==> table[i].1.ZArray? then
      if Counted(table) && forall i :: 0 <= i < |table| ==> Counted(table[i].1.entries) then
        exists i: nat :: FirstBadRow(table, i) && e == BadTokenVector(i)
      else
        || (exists i: nat :: FirstBadPoint(c, table, i, e))
        || (e == MixedPoints && !AllReadAs(c, table, true) && !AllReadAs(c, table, false)
            && forall i :: 0 <= i < |table| ==> ReadsAs(c, table[i].1, true) || ReadsAs(c, table[i].1, false))
    else if forall i :: 0 <= i < |table| ==> table[i].1.ZString? || table[i].1.ZBinary? then
      e == BadString && exists i :: 0 <= i < |table| && table[i].1.ZBinary?
    else
      && e == NotNumeric && !AllNumbers(table)
      && exists i :: 0 <= i < |table| && !table[i].1.ZBool?
  }

  lemma RowsError(c: Codec, table: Table, e: Error)
    requires table != [] && IsTokenVectorList(table)
    ensures ReadArray(c, table) == Err(e) <==> exists i: nat :: FirstBadRow(table, i) && e == BadTokenVector(i)
  {
    ListHasNoMarkers(table);
    RowsAccepted(c, table, 0);
    if k: nat :| k < |table| && !AllNumbers(table[k].1.entries) {
      var i := SomeRowIsBad(table, k);
      RowsFail(c, table, 0, i);
    } else {
      assert forall i :: 0 <= i < |table| ==> HoldsNumbers(table[i].1.entries);
    }
  }

  lemma PointsError(c: Codec, table: Table, e: Error)
    requires table != []
    ensures ReadPointArray(c, table) == Err(e)
       <==> || (exists i: nat :: FirstBadPoint(c, table, i, e))
            || (e == MixedPoints && !AllReadAs(c, table, true) && !AllReadAs(c, table, false)
                && forall i :: 0 <= i < |table| ==> ReadsAs(c, table[i].1, true) || ReadsAs(c, table[i].1, false))
  {
    PointsSplit(c, table);
    PointsAccepted(c, table);
    if k: nat :| k < |table| && !ReadsAs(c, table[k].1, true) && !ReadsAs(c, table[k].1, false) {
      var i, d := SomePointIsBad(c, table, k);
      FirstPointFails(c, table, i, d);
      if l: nat :| FirstBadPoint(c, table, l, e) {
        FirstPointFails(c, table, l, e);
      }
    }
  }

  lemma {:induction false} StringsError(table: Table)
    ensures ReadStrings(table).Err? ==> ReadStrings(table).error == BadString
    decreases table
  {
    if table != [] {
      StringsError(table[1..]);
    }
  }

  lemma {:induction false} FloatsError(c: Codec, table: Table)
    ensures ReadFloats(c, table).Err? ==> ReadFloats(c, table).error == NotNumeric
    decreases table
  {
    if table != [] {
      FloatsError(c, table[1..]);
    }
  }

  lemma ScalarsError(c: Codec, table: Table, e: Error)
    requires table != [] && !AllArrays(table)
    ensures ReadScalars(c, table) == Err(e) <==> ElementsFail(c, table, e)
  {
    StringsAreValid(table);
    FloatsAreNumbers(c, table);
    StringsError(table);
    FloatsError(c, table);
  }

  /** Which error the reader gives, for every PHP value it does not accept. The coordinates of a
      point are looked at in order, and a geo point's range last. */
  lemma ErrorsExactly(c: Codec, z: Zval, e: Error)
    ensures Read(c, z) == Err(e)
       <==> match z
            case ZBinary => e == BadString
            case ZOther => e == Unsupported
            case ZArray(table) =>
              if HasGeoKeys(table) then
                var (lat, lon) := (Get(table, "lat").value, Get(table, "lon").value);
                if !lat.ZDouble? then e == NotFloat("lat")
                else if !lon.ZDouble? then e == NotFloat("lon")
                else e == InvalidPoint && !(-90.0 <= lat.f <= 90.0 && -180.0 <= lon.f <= 180.0)
              else if HasEcefKeys(table) then
                if !Get(table, "x").value.ZDouble? then e == NotFloat("x")
                else if !Get(table, "y").value.ZDouble? then e == NotFloat("y")
                else e == NotFloat("z") && !Get(table, "z").value.ZDouble?
              else table != [] && ElementsFail(c, table, e)
            case _ => false
  {
    if z.ZArray? {
      var table := z.entries;
      KeysAre(table);
      if !KeyedAsGeo(table) && !KeyedAsEcef(table) && table != [] {
        if IsTokenVectorList(table) {
          RowsError(c, table, e);
        } else if AllArrays(table) {
          PointsError(c, table, e);
        } else {
          ScalarsError(c, table, e);
        }
      }
    }
  }
}
