/** Converting PHP values to data values and back. The reader infers a shape from what an
    array holds; the writer prints each shape so that the reader finds it again. */
module PhpValues {
  import opened PhpArrays
  import opened Results

  datatype Error =
    | BadString
    | NotFloat(field: string)
    | InvalidPoint
    | BadTokenVector(row: nat)
    | MixedPoints
    | NotNumeric
    | Unsupported

  type Outcome<T> = Result<T, Error>

  /** A PHP value. `ZBinary` is a string that is not valid UTF-8; `ZOther` any type the
      bridge does not know. */
  datatype Zval =
    | ZNull
    | ZBool(b: bool)
    | ZLong(i: int)
    | ZDouble(f: real)
    | ZString(s: string)
    | ZBinary
    | ZArray(entries: Table)
    | ZOther

  /** A PHP array: its entries in order. */
  type Table = seq<(Key, Zval)>

  datatype GeoPoint = GeoPoint(lat: real, lon: real)

  datatype EcefPoint = EcefPoint(x: real, y: real, z: real)

  /** Instants are counted from some origin; a `Vector` holds single-precision numbers. */
  datatype DataValue =
    | Null
    | Bool(b: bool)
    | Int64(i: int)
    | Float64(f: real)
    | Text(s: string)
    | Vector(v: seq<real>)
    | DateTime(t: int)
    | Geo(p: GeoPoint)
    | GeoEcef(q: EcefPoint)
    | Int64Array(ints: seq<int>)
    | Float64Array(floats: seq<real>)
    | GeoArray(points: seq<GeoPoint>)
    | GeoEcefArray(ecefs: seq<EcefPoint>)
    | DateTimeArray(instants: seq<int>)
    | BoolArray(flags: seq<bool>)
    | TextArray(texts: seq<string>)
    | VectorArray(vectors: seq<seq<real>>)

  /** The conversions the bridge takes from elsewhere: timestamps to and from text, rounding
      to single precision, and widening an integer to a float. */
  datatype Codec = Codec(parse: string -> Option<int>, format: int -> string, narrow: real -> real, widen: int -> real)

  ghost predicate ParsesBack(c: Codec, t: int) {
    c.parse(c.format(t)) == Some(t)
  }

  /** Parsing undoes printing, and rounding a single-precision number changes nothing. */
  ghost predicate Lawful(c: Codec) {
    && (forall t :: ParsesBack(c, t))
    && forall x :: c.narrow(c.narrow(x)) == c.narrow(x)
  }

  // ----- Reading

  function Get(table: Table, key: string): Option<Zval> {
    if table == [] then None else if table[0].0 == StrKey(key) then Some(table[0].1) else Get(table[1..], key)
  }

  predicate IsTokenVectorList(table: Table) {
    IsList(table) && forall i :: 0 <= i < |table| ==> table[i].1.ZArray? && IsList(table[i].1.entries)
  }

  predicate IsString(z: Zval) {
    z.ZString? || z.ZBinary?
  }

  predicate AllArrays(table: Table) {
    forall i :: 0 <= i < |table| ==> table[i].1.ZArray?
  }

  predicate AllStrings(table: Table) {
    forall i :: 0 <= i < |table| ==> IsString(table[i].1)
  }

  predicate AllBools(table: Table) {
    forall i :: 0 <= i < |table| ==> table[i].1.ZBool?
  }

  predicate AllLongs(table: Table) {
    forall i :: 0 <= i < |table| ==> table[i].1.ZLong?
  }

  predicate InRange(p: GeoPoint) {
    -90.0 <= p.lat <= 90.0 && -180.0 <= p.lon <= 180.0
  }

  function ReadGeo(lat: Zval, lon: Zval): Outcome<DataValue> {
    if !lat.ZDouble? then Err(NotFloat("lat"))
    else if !lon.ZDouble? then Err(NotFloat("lon"))
    else if !InRange(GeoPoint(lat.f, lon.f)) then Err(InvalidPoint)
    else Ok(Geo(GeoPoint(lat.f, lon.f)))
  }

  function ReadEcef(x: Zval, y: Zval, z: Zval): Outcome<DataValue> {
    if !x.ZDouble? then Err(NotFloat("x"))
    else if !y.ZDouble? then Err(NotFloat("y"))
    else if !z.ZDouble? then Err(NotFloat("z"))
    else Ok(GeoEcef(EcefPoint(x.f, y.f, z.f)))
  }

  function ReadRow(c: Codec, row: Table, index: nat): Outcome<seq<real>> {
    if row == [] then Ok([])
    else if !row[0].1.ZLong? && !row[0].1.ZDouble? then Err(BadTokenVector(index))
    else
      var value := c.narrow(if row[0].1.ZLong? then c.widen(row[0].1.i) else row[0].1.f);
      var rest := ReadRow(c, row[1..], index);
      if rest.Err? then rest else Ok([value] + rest.value)
  }

  function ReadRows(c: Codec, rows: Table, index: nat): Outcome<seq<seq<real>>>
    requires AllArrays(rows)
  {
    if rows == [] then Ok([])
    else
      var row := ReadRow(c, rows[0].1.entries, index);
      if row.Err? then Err(row.error)
      else
        var rest := ReadRows(c, rows[1..], index + 1);
        if rest.Err? then rest else Ok([row.value] + rest.value)
  }

  function ReadStrings(table: Table): Outcome<seq<string>> {
    if table == [] then Ok([])
    else if !table[0].1.ZString? then Err(BadString)
    else
      var rest := ReadStrings(table[1..]);
      if rest.Err? then rest else Ok([table[0].1.s] + rest.value)
  }

  /** All instants, if every text is one. */
  function ParseAll(c: Codec, texts: seq<string>): Option<seq<int>> {
    if texts == [] then Some([])
    else
      var (t, rest) := (c.parse(texts[0]), ParseAll(c, texts[1..]));
      if t.None? || rest.None? then None else Some([t.value] + rest.value)
  }

  function ReadFloats(c: Codec, table: Table): Outcome<seq<real>> {
    if table == [] then Ok([])
    else if !table[0].1.ZLong? && !table[0].1.ZDouble? then Err(NotNumeric)
    else
      var value := if table[0].1.ZLong? then c.widen(table[0].1.i) else table[0].1.f;
      var rest := ReadFloats(c, table[1..]);
      if rest.Err? then rest else Ok([value] + rest.value)
  }

  function Flags(table: Table): (r: seq<bool>)
    requires AllBools(table)
    ensures |r| == |table| && forall i :: 0 <= i < |r| ==> r[i] == table[i].1.b
  {
    seq(|table|, i requires 0 <= i < |table| => table[i].1.b)
  }

  function Ints(table: Table): (r: seq<int>)
    requires AllLongs(table)
    ensures |r| == |table| && forall i :: 0 <= i < |r| ==> r[i] == table[i].1.i
  {
    seq(|table|, i requires 0 <= i < |table| => table[i].1.i)
  }

  /** The points of an array of arrays, sorted into the two kinds. */
  function ReadPoints(c: Codec, table: Table): Outcome<(seq<GeoPoint>, seq<EcefPoint>)>
    decreases table, 0
  {
    if table == [] then Ok(([], []))
    else
      assert table[0].1 < table[0];
      var first := Read(c, table[0].1);
      if first.Err? then Err(first.error)
      else if !first.value.Geo? && !first.value.GeoEcef? then Err(MixedPoints)
      else
        var rest := ReadPoints(c, table[1..]);
        if rest.Err? then rest
        else if first.value.Geo? then Ok(([first.value.p] + rest.value.0, rest.value.1))
        else Ok((rest.value.0, [first.value.q] + rest.value.1))
  }

  function ReadPointArray(c: Codec, table: Table): Outcome<DataValue>
    decreases table, 1
  {
    var points := ReadPoints(c, table);
    if points.Err? then Err(points.error)
    else
      var (geo, ecef) := points.value;
      if geo != [] && ecef == [] then Ok(GeoArray(geo))
      else if geo == [] && ecef != [] then Ok(GeoEcefArray(ecef))
      else Err(MixedPoints)
  }

  function ReadTexts(c: Codec, table: Table): Outcome<DataValue> {
    var texts := ReadStrings(table);
    if texts.Err? then Err(texts.error)
    else
      var instants := ParseAll(c, texts.value);
      Ok(if instants.Some? then DateTimeArray(instants.value) else TextArray(texts.value))
  }

  /** A non-empty array of texts, of booleans, of integers, or else of numbers. */
  function ReadScalars(c: Codec, table: Table): Outcome<DataValue> {
    if AllStrings(table) then ReadTexts(c, table)
    else if AllBools(table) then Ok(BoolArray(Flags(table)))
    else if AllLongs(table) then Ok(Int64Array(Ints(table)))
    else
      var floats := ReadFloats(c, table);
      if floats.Err? then Err(floats.error) else Ok(Float64Array(floats.value))
  }

  function ReadArray(c: Codec, table: Table): Outcome<DataValue>
    decreases table, 2
  {
    var (lat, lon) := (Get(table, "lat"), Get(table, "lon"));
    var (x, y, z) := (Get(table, "x"), Get(table, "y"), Get(table, "z"));
    if lat.Some? && lon.Some? then ReadGeo(lat.value, lon.value)
    else if x.Some? && y.Some? && z.Some? then ReadEcef(x.value, y.value, z.value)
    else if table == [] then Ok(Int64Array([]))
    else if IsTokenVectorList(table) then
      var rows := ReadRows(c, table, 0);
      if rows.Err? then Err(rows.error) else Ok(VectorArray(rows.value))
    else if AllArrays(table) then ReadPointArray(c, table)
    else ReadScalars(c, table)
  }

  function Read(c: Codec, z: Zval): Outcome<DataValue>
    decreases z
  {
    match z
    case ZNull => Ok(Null)
    case ZBool(b) => Ok(Bool(b))
    case ZLong(i) => Ok(Int64(i))
    case ZDouble(f) => Ok(Float64(f))
    case ZString(s) => Ok(if c.parse(s).Some? then DateTime(c.parse(s).value) else Text(s))
    case ZBinary => Err(BadString)
    case ZArray(entries) => ReadArray(c, entries)
    case ZOther => Err(Unsupported)
  }

  // ----- Writing

  /** A PHP list of the values. */
  function ListOf(values: seq<Zval>): (z: Zval)
    ensures z.ZArray? && |z.entries| == |values| && IsList(z.entries)
    ensures forall i :: 0 <= i < |values| ==> z.entries[i].1 == values[i]
  {
    ZArray(seq(|values|, i requires 0 <= i < |values| => (IntKey(i), values[i])))
  }

  function WriteGeo(p: GeoPoint): Zval {
    ZArray([(StrKey("lat"), ZDouble(p.lat)), (StrKey("lon"), ZDouble(p.lon))])
  }

  function WriteEcef(p: EcefPoint): Zval {
    ZArray([(StrKey("x"), ZDouble(p.x)), (StrKey("y"), ZDouble(p.y)), (StrKey("z"), ZDouble(p.z))])
  }

  function Doubles(v: seq<real>): seq<Zval> {
    seq(|v|, i requires 0 <= i < |v| => ZDouble(v[i]))
  }

  function Longs(v: seq<int>): seq<Zval> {
    seq(|v|, i requires 0 <= i < |v| => ZLong(v[i]))
  }

  function Bools(v: seq<bool>): seq<Zval> {
    seq(|v|, i requires 0 <= i < |v| => ZBool(v[i]))
  }

  function Strings(v: seq<string>): seq<Zval> {
    seq(|v|, i requires 0 <= i < |v| => ZString(v[i]))
  }

  function Timestamps(c: Codec, v: seq<int>): seq<Zval> {
    seq(|v|, i requires 0 <= i < |v| => ZString(c.format(v[i])))
  }

  function Geos(v: seq<GeoPoint>): seq<Zval> {
    seq(|v|, i requires 0 <= i < |v| => WriteGeo(v[i]))
  }

  function Ecefs(v: seq<EcefPoint>): seq<Zval> {
    seq(|v|, i requires 0 <= i < |v| => WriteEcef(v[i]))
  }

  function Rows(v: seq<seq<real>>): seq<Zval> {
    seq(|v|, i requires 0 <= i < |v| => ListOf(Doubles(v[i])))
  }

  function Write(c: Codec, v: DataValue): Zval {
    match v
    case Null => ZNull
    case Bool(b) => ZBool(b)
    case Int64(i) => ZLong(i)
    case Float64(f) => ZDouble(f)
    case Text(s) => ZString(s)
    case Vector(xs) => ListOf(Doubles(xs))
    case DateTime(t) => ZString(c.format(t))
    case Geo(p) => WriteGeo(p)
    case GeoEcef(q) => WriteEcef(q)
    case Int64Array(xs) => ListOf(Longs(xs))
    case Float64Array(xs) => ListOf(Doubles(xs))
    case GeoArray(ps) => ListOf(Geos(ps))
    case GeoEcefArray(qs) => ListOf(Ecefs(qs))
    case DateTimeArray(ts) => ListOf(Timestamps(c, ts))
    case BoolArray(bs) => ListOf(Bools(bs))
    case TextArray(ss) => ListOf(Strings(ss))
    case VectorArray(vs) => ListOf(Rows(vs))
  }

  // ----- Which values the reader returns

  predicate Narrowed(c: Codec, v: seq<real>) {
    forall i :: 0 <= i < |v| ==> c.narrow(v[i]) == v[i]
  }

  predicate AllInRange(points: seq<GeoPoint>) {
    forall i :: 0 <= i < |points| ==> InRange(points[i])
  }

  /** Values of the shape the reader gives them: no timestamp kept as text, no empty array
      but the integer one, no bare vector, points in range, vectors in single precision. */
  predicate Canonical(c: Codec, v: DataValue) {
    match v
    case Null => true
    case Bool(b) => true
    case Int64(i) => true
    case Float64(f) => true
    case Text(s) => c.parse(s).None?
    case Vector(xs) => false
    case DateTime(t) => true
    case Geo(p) => InRange(p)
    case GeoEcef(q) => true
    case Int64Array(xs) => true
    case Float64Array(xs) => xs != []
    case GeoArray(ps) => ps != [] && AllInRange(ps)
    case GeoEcefArray(ps) => ps != []
    case DateTimeArray(ts) => ts != []
    case BoolArray(bs) => bs != []
    case TextArray(ss) => exists i :: 0 <= i < |ss| && c.parse(ss[i]).None?
    case VectorArray(vs) => vs != [] && forall i :: 0 <= i < |vs| ==> Narrowed(c, vs[i])
  }

  lemma {:induction false} ParseAllFails(c: Codec, texts: seq<string>)
    ensures ParseAll(c, texts).None? <==> exists i :: 0 <= i < |texts| && c.parse(texts[i]).None?
    ensures ParseAll(c, texts).Some? ==> |ParseAll(c, texts).value| == |texts|
  {
    if texts != [] {
      ParseAllFails(c, texts[1..]);
      assert forall i :: 0 < i < |texts| ==> texts[i] == texts[1..][i - 1];
      if i :| 0 <= i < |texts[1..]| && c.parse(texts[1..][i]).None? {
        assert c.parse(texts[i + 1]).None?;
      }
    }
  }

  lemma {:induction false} RowIsNarrowed(c: Codec, row: Table, index: nat)
    requires Lawful(c)
    ensures ReadRow(c, row, index).Ok? ==> Narrowed(c, ReadRow(c, row, index).value)
  {
    if row != [] {
      RowIsNarrowed(c, row[1..], index);
    }
  }

  lemma {:induction false} RowsAreNarrowed(c: Codec, rows: Table, index: nat)
    requires Lawful(c) && AllArrays(rows)
    ensures var r := ReadRows(c, rows, index);
      r.Ok? ==> |r.value| == |rows| && forall i :: 0 <= i < |r.value| ==> Narrowed(c, r.value[i])
  {
    if rows != [] {
      RowIsNarrowed(c, rows[0].1.entries, index);
      RowsAreNarrowed(c, rows[1..], index + 1);
    }
  }

  lemma {:induction false} StringsCount(table: Table)
    ensures ReadStrings(table).Ok? ==> |ReadStrings(table).value| == |table|
  {
    if table != [] {
      StringsCount(table[1..]);
    }
  }

  lemma {:induction false} FloatsCount(c: Codec, table: Table)
    ensures ReadFloats(c, table).Ok? ==> |ReadFloats(c, table).value| == |table|
  {
    if table != [] {
      FloatsCount(c, table[1..]);
    }
  }

  lemma PointArrayIsNoPoint(c: Codec, table: Table)
    ensures var r := ReadPointArray(c, table);
      r.Ok? ==> r.value.GeoArray? || r.value.GeoEcefArray?
  {
  }

  lemma PointIsInRange(c: Codec, z: Zval)
    ensures Read(c, z).Ok? && Read(c, z).value.Geo? ==> InRange(Read(c, z).value.p)
  {
    if z.ZArray? {
      PointArrayIsNoPoint(c, z.entries);
    }
  }

  lemma {:induction false} PointsAreInRange(c: Codec, table: Table)
    ensures ReadPoints(c, table).Ok? ==> AllInRange(ReadPoints(c, table).value.0)
  {
    if table != [] {
      PointIsInRange(c, table[0].1);
      PointsAreInRange(c, table[1..]);
      var (first, rest, r) := (Read(c, table[0].1), ReadPoints(c, table[1..]), ReadPoints(c, table));
      assert r.Ok? ==> r.value.0 == if first.value.Geo? then [first.value.p] + rest.value.0 else rest.value.0;
    }
  }

  lemma PointArrayIsCanonical(c: Codec, table: Table)
    ensures ReadPointArray(c, table).Ok? ==> Canonical(c, ReadPointArray(c, table).value)
  {
    PointsAreInRange(c, table);
  }

  lemma TextsAreCanonical(c: Codec, table: Table)
    requires table != []
    ensures ReadTexts(c, table).Ok? ==> Canonical(c, ReadTexts(c, table).value)
  {
    StringsCount(table);
    if ReadStrings(table).Ok? {
      ParseAllFails(c, ReadStrings(table).value);
    }
  }

  lemma ScalarsAreCanonical(c: Codec, table: Table)
    requires table != []
    ensures ReadScalars(c, table).Ok? ==> Canonical(c, ReadScalars(c, table).value) && !ReadScalars(c, table).value.Geo?
  {
    FloatsCount(c, table);
    TextsAreCanonical(c, table);
  }

  lemma TokenVectorsAreCanonical(c: Codec, table: Table)
    requires Lawful(c) && table != [] && AllArrays(table)
    ensures ReadRows(c, table, 0).Ok? ==> Canonical(c, VectorArray(ReadRows(c, table, 0).value))
  {
    RowsAreNarrowed(c, table, 0);
  }

  lemma ArrayIsCanonical(c: Codec, table: Table)
    requires Lawful(c)
    ensures ReadArray(c, table).Ok? ==> Canonical(c, ReadArray(c, table).value)
  {
    var r := ReadArray(c, table);
    if r.Ok? && !r.value.Geo? && !r.value.GeoEcef? && table != [] {
      if IsTokenVectorList(table) {
        TokenVectorsAreCanonical(c, table);
      } else if AllArrays(table) {
        PointArrayIsCanonical(c, table);
      } else {
        ScalarsAreCanonical(c, table);
      }
    } else if r.Ok? && r.value.Geo? {
      assert Read(c, ZArray(table)) == r;
      PointIsInRange(c, ZArray(table));
    }
  }

  /** Whatever the reader returns is canonical. */
  lemma ReadIsCanonical(c: Codec, z: Zval)
    requires Lawful(c)
    ensures Read(c, z).Ok? ==> Canonical(c, Read(c, z).value)
  {
    if z.ZArray? {
      ArrayIsCanonical(c, z.entries);
    }
  }

  // ----- Reading back what was written

  lemma {:induction false} NoStringKeys(table: Table, key: string)
    requires forall i :: 0 <= i < |table| ==> table[i].0.IntKey?
    ensures Get(table, key).None?
  {
    if table != [] {
      NoStringKeys(table[1..], key);
    }
  }

  /** A PHP list carries none of the keys that mark a point. */
  lemma ListHasNoMarkers(table: Table)
    requires IsList(table)
    ensures Get(table, "lat").None? && Get(table, "lon").None?
    ensures Get(table, "x").None? && Get(table, "y").None? && Get(table, "z").None?
  {
    NoStringKeys(table, "lat");
    NoStringKeys(table, "lon");
    NoStringKeys(table, "x");
    NoStringKeys(table, "y");
    NoStringKeys(table, "z");
  }

  lemma {:induction false} FloatsReadBack(c: Codec, table: Table, xs: seq<real>)
    requires |table| == |xs| && forall i :: 0 <= i < |xs| ==> table[i].1 == ZDouble(xs[i])
    ensures ReadFloats(c, table) == Ok(xs)
  {
    if xs != [] {
      FloatsReadBack(c, table[1..], xs[1..]);
      assert xs == [xs[0]] + xs[1..];
    }
  }

  lemma {:induction false} RowReadBack(c: Codec, row: Table, xs: seq<real>, index: nat)
    requires |row| == |xs| && (forall i :: 0 <= i < |xs| ==> row[i].1 == ZDouble(xs[i])) && Narrowed(c, xs)
    ensures ReadRow(c, row, index) == Ok(xs)
  {
    if xs != [] {
      RowReadBack(c, row[1..], xs[1..], index);
      assert xs == [xs[0]] + xs[1..];
    }
  }

  lemma {:induction false} RowsReadBack(c: Codec, rows: Table, vs: seq<seq<real>>, index: nat)
    requires |rows| == |vs| && AllArrays(rows)
    requires forall i :: 0 <= i < |vs| ==> rows[i].1 == ListOf(Doubles(vs[i])) && Narrowed(c, vs[i])
    ensures ReadRows(c, rows, index) == Ok(vs)
  {
    if vs != [] {
      RowReadBack(c, rows[0].1.entries, vs[0], index);
      RowsReadBack(c, rows[1..], vs[1..], index + 1);
      assert vs == [vs[0]] + vs[1..];
    }
  }

  lemma {:induction false} StringsReadBack(table: Table, ss: seq<string>)
    requires |table| == |ss| && forall i :: 0 <= i < |ss| ==> table[i].1 == ZString(ss[i])
    ensures ReadStrings(table) == Ok(ss)
  {
    if ss != [] {
      StringsReadBack(table[1..], ss[1..]);
      assert ss == [ss[0]] + ss[1..];
    }
  }

  lemma {:induction false} InstantsReadBack(c: Codec, texts: seq<string>, ts: seq<int>)
    requires Lawful(c) && |texts| == |ts| && forall i :: 0 <= i < |ts| ==> texts[i] == c.format(ts[i])
    ensures ParseAll(c, texts) == Some(ts)
  {
    if ts != [] {
      assert ParsesBack(c, ts[0]);
      InstantsReadBack(c, texts[1..], ts[1..]);
      assert ts == [ts[0]] + ts[1..];
    }
  }

  lemma GeoReadsBack(c: Codec, p: GeoPoint)
    ensures Read(c, WriteGeo(p)) == if InRange(p) then Ok(Geo(p)) else Err(InvalidPoint)
  {
    var table := WriteGeo(p).entries;
    assert table[1..] == [(StrKey("lon"), ZDouble(p.lon))];
    assert Get(table, "lat") == Some(ZDouble(p.lat));
    assert Get(table, "lon") == Some(ZDouble(p.lon));
  }

  lemma GetFirst(key: string, z: Zval, rest: Table, wanted: string)
    ensures Get([(StrKey(key), z)] + rest, wanted) == if key == wanted then Some(z) else Get(rest, wanted)
  {
    assert ([(StrKey(key), z)] + rest)[1..] == rest;
  }

  lemma EcefKeys(q: EcefPoint, wanted: string)
    ensures Get(WriteEcef(q).entries, wanted)
         == if wanted == "x" then Some(ZDouble(q.x))
            else if wanted == "y" then Some(ZDouble(q.y))
            else if wanted == "z" then Some(ZDouble(q.z))
            else None
  {
    var (x, y, z) := ((StrKey("x"), ZDouble(q.x)), (StrKey("y"), ZDouble(q.y)), (StrKey("z"), ZDouble(q.z)));
    assert [x] + ([y] + ([z] + [])) == [x, y, z];
    GetFirst("x", x.1, [y] + ([z] + []), wanted);
    GetFirst("y", y.1, [z] + [], wanted);
    GetFirst("z", z.1, [], wanted);
  }

  lemma EcefReadsBack(c: Codec, q: EcefPoint)
    ensures Read(c, WriteEcef(q)) == Ok(GeoEcef(q))
  {
    var table := WriteEcef(q).entries;
    EcefKeys(q, "lat");
    EcefKeys(q, "x");
    EcefKeys(q, "y");
    EcefKeys(q, "z");
    assert Read(c, WriteEcef(q)) == ReadArray(c, table);
  }

  lemma {:induction false} GeosReadBack(c: Codec, table: Table, ps: seq<GeoPoint>)
    requires |table| == |ps| && forall i :: 0 <= i < |ps| ==> table[i].1 == WriteGeo(ps[i]) && InRange(ps[i])
    ensures ReadPoints(c, table) == Ok((ps, []))
  {
    if ps != [] {
      GeoReadsBack(c, ps[0]);
      GeosReadBack(c, table[1..], ps[1..]);
      assert ps == [ps[0]] + ps[1..];
    }
  }

  lemma {:induction false} EcefsReadBack(c: Codec, table: Table, qs: seq<EcefPoint>)
    requires |table| == |qs| && forall i :: 0 <= i < |qs| ==> table[i].1 == WriteEcef(qs[i])
    ensures ReadPoints(c, table) == Ok(([], qs))
  {
    if qs != [] {
      EcefReadsBack(c, qs[0]);
      EcefsReadBack(c, table[1..], qs[1..]);
      assert qs == [qs[0]] + qs[1..];
    }
  }

  lemma PointIsNoList(p: GeoPoint, q: EcefPoint)
    ensures !IsList(WriteGeo(p).entries) && !IsList(WriteEcef(q).entries)
  {
    assert WriteGeo(p).entries[0].0 != IntKey(0);
    assert WriteEcef(q).entries[0].0 != IntKey(0);
  }

  lemma NumberArraysReadBack(c: Codec, v: DataValue)
    requires v.Int64Array? || v.Float64Array? || v.BoolArray?
    requires Canonical(c, v)
    ensures Read(c, Write(c, v)) == Ok(v)
  {
    var table := Write(c, v).entries;
    ListHasNoMarkers(table);
    assert table != [] ==> !table[0].1.ZArray? && !IsString(table[0].1);
    if v.Float64Array? {
      FloatsReadBack(c, table, v.floats);
      assert table[0].1.ZDouble?;
    } else if v.Int64Array? {
      assert AllLongs(table) && Ints(table) == v.ints;
    } else {
      assert AllBools(table) && Flags(table) == v.flags;
    }
  }

  lemma TextsRead(c: Codec, table: Table, texts: seq<string>)
    requires IsList(table) && texts != [] && |table| == |texts|
    requires forall i :: 0 <= i < |table| ==> table[i].1 == ZString(texts[i])
    ensures Read(c, ZArray(table))
         == Ok(if ParseAll(c, texts).Some? then DateTimeArray(ParseAll(c, texts).value) else TextArray(texts))
  {
    ListHasNoMarkers(table);
    StringsReadBack(table, texts);
    assert table[0].1.ZString? && AllStrings(table);
    assert Read(c, ZArray(table)) == ReadTexts(c, table);
  }

  lemma TextArraysReadBack(c: Codec, v: DataValue)
    requires Lawful(c) && (v.TextArray? || v.DateTimeArray?) && Canonical(c, v)
    ensures Read(c, Write(c, v)) == Ok(v)
  {
    var texts := if v.TextArray? then v.texts
      else seq(|v.instants|, i requires 0 <= i < |v.instants| => c.format(v.instants[i]));
    TextsRead(c, Write(c, v).entries, texts);
    ParseAllFails(c, texts);
    if v.DateTimeArray? {
      InstantsReadBack(c, texts, v.instants);
    }
  }

  /** A non-empty list of arrays, the first of which is no list, is read as points. */
  lemma ReadAsPoints(c: Codec, table: Table)
    requires IsList(table) && table != [] && AllArrays(table) && !IsList(table[0].1.entries)
    ensures ReadArray(c, table) == ReadPointArray(c, table)
  {
    ListHasNoMarkers(table);
  }

  lemma GeoArrayReadsBack(c: Codec, ps: seq<GeoPoint>, table: Table)
    requires Canonical(c, GeoArray(ps)) && ZArray(table) == Write(c, GeoArray(ps))
    ensures ReadArray(c, table) == Ok(GeoArray(ps))
  {
    PointIsNoList(ps[0], EcefPoint(0.0, 0.0, 0.0));
    assert AllArrays(table) && table[0].1 == WriteGeo(ps[0]);
    ReadAsPoints(c, table);
    GeosReadBack(c, table, ps);
  }

  lemma EcefArrayReadsBack(c: Codec, qs: seq<EcefPoint>, table: Table)
    requires Canonical(c, GeoEcefArray(qs)) && ZArray(table) == Write(c, GeoEcefArray(qs))
    ensures ReadArray(c, table) == Ok(GeoEcefArray(qs))
  {
    PointIsNoList(GeoPoint(0.0, 0.0), qs[0]);
    assert AllArrays(table) && table[0].1 == WriteEcef(qs[0]);
    ReadAsPoints(c, table);
    EcefsReadBack(c, table, qs);
  }

  lemma VectorArraysReadBack(c: Codec, v: DataValue)
    requires v.VectorArray? && Canonical(c, v)
    ensures Read(c, Write(c, v)) == Ok(v)
  {
    var table := Write(c, v).entries;
    ListHasNoMarkers(table);
    assert IsTokenVectorList(table);
    RowsReadBack(c, table, v.vectors, 0);
  }

  /** A value survives writing and reading exactly when it is canonical. */
  lemma RoundTrip(c: Codec, v: DataValue)
    requires Lawful(c)
    ensures Read(c, Write(c, v)) == Ok(v) <==> Canonical(c, v)
  {
    ReadIsCanonical(c, Write(c, v));
    if Canonical(c, v) {
      match v {
        case DateTime(t) => assert ParsesBack(c, t);
        case Geo(p) => GeoReadsBack(c, p);
        case GeoEcef(q) => EcefReadsBack(c, q);
        case Int64Array(_) => NumberArraysReadBack(c, v);
        case Float64Array(_) => NumberArraysReadBack(c, v);
        case BoolArray(_) => NumberArraysReadBack(c, v);
        case TextArray(_) => TextArraysReadBack(c, v);
        case DateTimeArray(_) => TextArraysReadBack(c, v);
        case GeoArray(ps) => GeoArrayReadsBack(c, ps, Write(c, v).entries);
        case GeoEcefArray(qs) => EcefArrayReadsBack(c, qs, Write(c, v).entries);
        case VectorArray(_) => VectorArraysReadBack(c, v);
        case _ =>
      }
    }
  }

  /** Converting to PHP and back is stable: what was read once reads the same again. */
  lemma ReadIsStable(c: Codec, z: Zval)
    requires Lawful(c) && Read(c, z).Ok?
    ensures Read(c, Write(c, Read(c, z).value)) == Read(c, z)
  {
    ReadIsCanonical(c, z);
    RoundTrip(c, Read(c, z).value);
  }

  /** A bare vector comes back as an array of floats, and an empty one as the empty integer array. */
  lemma VectorReadsAsFloats(c: Codec, xs: seq<real>)
    ensures Read(c, Write(c, Vector(xs))) == Ok(if xs == [] then Int64Array([]) else Float64Array(xs))
  {
    assert Write(c, Vector(xs)) == Write(c, Float64Array(xs));
    if xs != [] {
      NumberArraysReadBack(c, Float64Array(xs));
    } else {
      ListHasNoMarkers(Write(c, Vector(xs)).entries);
    }
  }

  // ----- Which arrays the reader accepts

  predicate IsNumber(z: Zval) {
    z.ZLong? || z.ZDouble?
  }

  function AsFloat(c: Codec, z: Zval): real
    requires IsNumber(z)
  {
    if z.ZLong? then c.widen(z.i) else z.f
  }

  lemma {:induction false} FloatsAreNumbers(c: Codec, table: Table)
    ensures ReadFloats(c, table).Ok? <==> forall i :: 0 <= i < |table| ==> IsNumber(table[i].1)
    ensures ReadFloats(c, table).Ok? ==> |ReadFloats(c, table).value| == |table|
    ensures ReadFloats(c, table).Ok? ==> forall i :: 0 <= i < |table| ==>
      ReadFloats(c, table).value[i] == AsFloat(c, table[i].1)
  {
    if table != [] {
      FloatsAreNumbers(c, table[1..]);
      assert forall i :: 0 < i < |table| ==> table[i] == table[1..][i - 1];
      assert forall i :: 0 <= i < |table[1..]| ==> table[1..][i] == table[i + 1];
    }
  }

  lemma {:induction false} StringsAreValid(table: Table)
    ensures ReadStrings(table).Ok? <==> forall i :: 0 <= i < |table| ==> table[i].1.ZString?
  {
    if table != [] {
      StringsAreValid(table[1..]);
      assert forall i :: 0 < i < |table| ==> table[i] == table[1..][i - 1];
      assert forall i :: 0 <= i < |table[1..]| ==> table[1..][i] == table[i + 1];
    }
  }

  lemma NoMarkers(table: Table)
    requires forall i :: 0 <= i < |table| ==> table[i].0.IntKey?
    ensures Get(table, "lat").None? && Get(table, "x").None?
  {
    NoStringKeys(table, "lat");
    NoStringKeys(table, "x");
  }

  /** An array with integer keys that starts with a scalar is accepted exactly when it holds
      only valid strings, only booleans, or only numbers. */
  lemma ScalarsAccepted(c: Codec, table: Table)
    requires table != [] && !table[0].1.ZArray? && forall i :: 0 <= i < |table| ==> table[i].0.IntKey?
    ensures Read(c, ZArray(table)).Ok?
       <==> || (forall i :: 0 <= i < |table| ==> table[i].1.ZString?)
            || AllBools(table)
            || forall i :: 0 <= i < |table| ==> IsNumber(table[i].1)
  {
    NoMarkers(table);
    StringsAreValid(table);
    FloatsAreNumbers(c, table);
    assert Read(c, ZArray(table)) == ReadScalars(c, table);
  }

  /** Numbers stay integers only if all are; one float widens the rest. */
  lemma NumbersRead(c: Codec, table: Table)
    requires table != [] && forall i :: 0 <= i < |table| ==> table[i].0.IntKey? && IsNumber(table[i].1)
    ensures Read(c, ZArray(table)).Ok?
    ensures var v := Read(c, ZArray(table)).value;
      if AllLongs(table) then v == Int64Array(Ints(table))
      else v.Float64Array? && |v.floats| == |table| && forall i :: 0 <= i < |table| ==>
        v.floats[i] == AsFloat(c, table[i].1)
  {
    NoMarkers(table);
    FloatsAreNumbers(c, table);
    assert IsNumber(table[0].1);
    assert Read(c, ZArray(table)) == ReadScalars(c, table);
  }

  ghost predicate HoldsNumbers(row: Table) {
    forall j :: 0 <= j < |row| ==> IsNumber(row[j].1)
  }

  /** `v` holds the row's numbers in single precision. */
  ghost predicate HoldsRow(c: Codec, row: Table, v: seq<real>)
    requires HoldsNumbers(row)
  {
    |v| == |row| && forall j :: 0 <= j < |row| ==> v[j] == c.narrow(AsFloat(c, row[j].1))
  }

  lemma {:induction false} RowAccepted(c: Codec, row: Table, index: nat)
    ensures ReadRow(c, row, index).Ok? <==> HoldsNumbers(row)
    ensures ReadRow(c, row, index).Ok? ==> HoldsRow(c, row, ReadRow(c, row, index).value)
  {
    if row != [] {
      RowAccepted(c, row[1..], index);
      assert forall i :: 0 < i < |row| ==> row[i] == row[1..][i - 1];
      assert forall i :: 0 <= i < |row[1..]| ==> row[1..][i] == row[i + 1];
    }
  }

  lemma {:induction false} RowsAccepted(c: Codec, rows: Table, index: nat)
    requires AllArrays(rows)
    ensures var r := ReadRows(c, rows, index);
      && (r.Ok? <==> forall i :: 0 <= i < |rows| ==> HoldsNumbers(rows[i].1.entries))
      && (r.Ok? ==> |r.value| == |rows| && forall i :: 0 <= i < |rows| ==> HoldsRow(c, rows[i].1.entries, r.value[i]))
  {
    if rows != [] {
      RowAccepted(c, rows[0].1.entries, index);
      RowsAccepted(c, rows[1..], index + 1);
      assert forall i :: 0 < i < |rows| ==> rows[i] == rows[1..][i - 1];
      assert forall i :: 0 <= i < |rows[1..]| ==> rows[1..][i] == rows[i + 1];
    }
  }

  /** A non-empty list of lists is accepted exactly when every element is a number, and then
      reads as the token vectors that hold those numbers in single precision. */
  lemma TokenVectorsAccepted(c: Codec, table: Table)
    requires table != [] && IsTokenVectorList(table)
    ensures var r := Read(c, ZArray(table));
      && (r.Ok? <==> forall i :: 0 <= i < |table| ==> HoldsNumbers(table[i].1.entries))
      && (r.Ok? ==> r.value.VectorArray? && |r.value.vectors| == |table|)
      && (r.Ok? ==> forall i :: 0 <= i < |table| ==> HoldsRow(c, table[i].1.entries, r.value.vectors[i]))
  {
    ListHasNoMarkers(table);
    RowsAccepted(c, table, 0);
  }

  /** The keys of a point decide before anything else about the array, whatever other keys it
      has, and `lat` and `lon` before `x`, `y` and `z`. */
  lemma KeysDecide(c: Codec, table: Table, p: GeoPoint, q: EcefPoint)
    ensures var (lat, lon, r) := (Get(table, "lat"), Get(table, "lon"), Read(c, ZArray(table)));
      lat.Some? && lon.Some? ==>
        && (r.Ok? ==> r.value.Geo?)
        && (r == Ok(Geo(p)) <==> InRange(p) && lat == Some(ZDouble(p.lat)) && lon == Some(ZDouble(p.lon)))
    ensures var (x, y, z, r) := (Get(table, "x"), Get(table, "y"), Get(table, "z"), Read(c, ZArray(table)));
      (Get(table, "lat").None? || Get(table, "lon").None?) && x.Some? && y.Some? && z.Some? ==>
        && (r.Ok? ==> r.value.GeoEcef?)
        && (r == Ok(GeoEcef(q)) <==> x == Some(ZDouble(q.x)) && y == Some(ZDouble(q.y)) && z == Some(ZDouble(q.z)))
  {
    var (lat, lon) := (Get(table, "lat"), Get(table, "lon"));
    assert Read(c, ZArray(table)) == ReadArray(c, table);
    if lat.Some? && lon.Some? {
      assert ReadArray(c, table) == ReadGeo(lat.value, lon.value);
    }
  }

  ghost predicate ReadsAs(c: Codec, z: Zval, geo: bool) {
    Read(c, z).Ok? && if geo then Read(c, z).value.Geo? else Read(c, z).value.GeoEcef?
  }

  ghost predicate AllReadAs(c: Codec, table: Table, geo: bool) {
    forall i :: 0 <= i < |table| ==> ReadsAs(c, table[i].1, geo)
  }

  lemma {:induction false} PointsSplit(c: Codec, table: Table)
    ensures var r := ReadPoints(c, table);
      && (r.Ok? <==> forall i :: 0 <= i < |table| ==> ReadsAs(c, table[i].1, true) || ReadsAs(c, table[i].1, false))
      && (r.Ok? ==> (r.value.0 == [] <==> AllReadAs(c, table, false)))
      && (r.Ok? ==> (r.value.1 == [] <==> AllReadAs(c, table, true)))
  {
    if table != [] {
      PointsSplit(c, table[1..]);
      assert forall i :: 0 < i < |table| ==> table[i] == table[1..][i - 1];
      assert forall i :: 0 <= i < |table[1..]| ==> table[1..][i] == table[i + 1];
    }
  }

  /** An array of arrays is accepted as points exactly when it is not empty and its elements
      read as points of one and the same kind. */
  lemma PointsAccepted(c: Codec, table: Table)
    ensures ReadPointArray(c, table).Ok?
       <==> table != [] && (AllReadAs(c, table, true) || AllReadAs(c, table, false))
  {
    PointsSplit(c, table);
    if table != [] {
      assert !ReadsAs(c, table[0].1, true) || !ReadsAs(c, table[0].1, false);
    }
  }

  // ----- Exactly what the reader accepts

  predicate HasGeoKeys(table: Table) {
    Get(table, "lat").Some? && Get(table, "lon").Some?
  }

  predicate HasEcefKeys(table: Table) {
    Get(table, "x").Some? && Get(table, "y").Some? && Get(table, "z").Some?
  }

  /** An array whose `lat` and `lon` are floats in range. */
  predicate IsGeo(z: Zval) {
    && z.ZArray? && HasGeoKeys(z.entries)
    && var (lat, lon) := (Get(z.entries, "lat").value, Get(z.entries, "lon").value);
      lat.ZDouble? && lon.ZDouble? && InRange(GeoPoint(lat.f, lon.f))
  }

  /** An array whose `x`, `y` and `z` are floats, and that is not keyed by `lat` and `lon`. */
  predicate IsEcef(z: Zval) {
    && z.ZArray? && !HasGeoKeys(z.entries) && HasEcefKeys(z.entries)
    && Get(z.entries, "x").value.ZDouble? && Get(z.entries, "y").value.ZDouble? && Get(z.entries, "z").value.ZDouble?
  }

  predicate AllGeo(table: Table) {
    forall i :: 0 <= i < |table| ==> IsGeo(table[i].1)
  }

  predicate AllEcef(table: Table) {
    forall i :: 0 <= i < |table| ==> IsEcef(table[i].1)
  }

  predicate AllValidStrings(table: Table) {
    forall i :: 0 <= i < |table| ==> table[i].1.ZString?
  }

  /** Elements all of one kind: lists of numbers, points, valid strings, booleans or numbers. */
  ghost predicate OfOneKind(table: Table) {
    || (IsTokenVectorList(table) && forall i :: 0 <= i < |table| ==> HoldsNumbers(table[i].1.entries))
    || AllGeo(table) || AllEcef(table)
    || AllValidStrings(table) || AllBools(table) || HoldsNumbers(table)
  }

  ghost predicate Accepted(z: Zval) {
    match z
    case ZBinary => false
    case ZOther => false
    case ZArray(table) =>
      if HasGeoKeys(table) then IsGeo(z)
      else if HasEcefKeys(table) then IsEcef(z)
      else OfOneKind(table)
    case _ => true
  }

  lemma PointsByKeys(c: Codec, z: Zval)
    ensures (ReadsAs(c, z, true) <==> IsGeo(z)) && (ReadsAs(c, z, false) <==> IsEcef(z))
  {
    if z.ZArray? {
      PointArrayIsNoPoint(c, z.entries);
      assert Read(c, z) == ReadArray(c, z.entries);
    }
  }

  lemma ArraysAccepted(c: Codec, table: Table)
    requires table != [] && AllArrays(table) && !IsTokenVectorList(table)
    ensures ReadPointArray(c, table).Ok? <==> OfOneKind(table)
  {
    PointsAccepted(c, table);
    forall i | 0 <= i < |table|
      ensures ReadsAs(c, table[i].1, true) <==> IsGeo(table[i].1)
      ensures ReadsAs(c, table[i].1, false) <==> IsEcef(table[i].1)
    {
      PointsByKeys(c, table[i].1);
    }
    assert table[0].1.ZArray?;
    assert AllReadAs(c, table, true) <==> AllGeo(table);
    assert AllReadAs(c, table, false) <==> AllEcef(table);
  }

  lemma TokenVectorsAreOfOneKind(table: Table)
    requires table != [] && IsTokenVectorList(table)
    ensures OfOneKind(table) <==> forall i :: 0 <= i < |table| ==> HoldsNumbers(table[i].1.entries)
  {
    assert table[0].1.ZArray?;
    ListHasNoMarkers(table[0].1.entries);
  }

  lemma OthersAccepted(c: Codec, table: Table)
    requires table != [] && !AllArrays(table)
    ensures ReadScalars(c, table).Ok? <==> OfOneKind(table)
  {
    StringsAreValid(table);
    FloatsAreNumbers(c, table);
    assert !AllGeo(table) && !AllEcef(table);
    assert AllValidStrings(table) ==> AllStrings(table);
    if AllStrings(table) {
      assert IsString(table[0].1);
    }
  }

  /** Which PHP values the reader accepts. */
  lemma AcceptedExactly(c: Codec, z: Zval)
    ensures Read(c, z).Ok? <==> Accepted(z)
  {
    if z.ZArray? && !HasGeoKeys(z.entries) && !HasEcefKeys(z.entries) && z.entries != [] {
      var table := z.entries;
      if IsTokenVectorList(table) {
        TokenVectorsAccepted(c, table);
        TokenVectorsAreOfOneKind(table);
      } else if AllArrays(table) {
        ArraysAccepted(c, table);
      } else {
        OthersAccepted(c, table);
      }
    }
  }

  // ----- The conversions as the bridge runs them

  lemma Suffixes(table: Table, i: nat)
    requires i <= |table|
    ensures table[0..] == table && table[|table|..] == []
    ensures i < |table| ==> table[i..][0] == table[i] && table[i..][1..] == table[i + 1..]
  {
  }

  method StringsOf(table: Table) returns (r: Outcome<seq<string>>)
    ensures r == ReadStrings(table)
  {
    var strings: seq<string> := [];
    ghost var goal := ReadStrings(table);
    Suffixes(table, 0);
    PrependEnds([], goal);
    for i := 0 to |table|
      invariant goal == Prepend(strings, ReadStrings(table[i..]))
    {
      Suffixes(table, i);
      if !table[i].1.ZString? {
        return Err(BadString);
      }
      PrependSnoc(strings, table[i].1.s, ReadStrings(table[i + 1..]));
      strings := strings + [table[i].1.s];
    }
    PrependEnds(strings, goal);
    r := Ok(strings);
  }

  method FloatsOf(c: Codec, table: Table) returns (r: Outcome<seq<real>>)
    ensures r == ReadFloats(c, table)
  {
    var floats: seq<real> := [];
    ghost var goal := ReadFloats(c, table);
    Suffixes(table, 0);
    PrependEnds([], goal);
    for i := 0 to |table|
      invariant goal == Prepend(floats, ReadFloats(c, table[i..]))
    {
      Suffixes(table, i);
      var value := table[i].1;
      var f: real;
      if value.ZLong? {
        f := c.widen(value.i);
      } else if value.ZDouble? {
        f := value.f;
      } else {
        return Err(NotNumeric);
      }
      PrependSnoc(floats, f, ReadFloats(c, table[i + 1..]));
      floats := floats + [f];
    }
    PrependEnds(floats, goal);
    r := Ok(floats);
  }

  method FlagsOf(table: Table) returns (flags: seq<bool>)
    requires AllBools(table)
    ensures flags == Flags(table)
  {
    flags := [];
    for i := 0 to |table|
      invariant flags == Flags(table)[..i]
    {
      flags := flags + [table[i].1.b];
    }
  }

  method IntsOf(table: Table) returns (ints: seq<int>)
    requires AllLongs(table)
    ensures ints == Ints(table)
  {
    ints := [];
    for i := 0 to |table|
      invariant ints == Ints(table)[..i]
    {
      ints := ints + [table[i].1.i];
    }
  }

  function PrependPoints(geo: seq<GeoPoint>, ecef: seq<EcefPoint>, r: Outcome<(seq<GeoPoint>, seq<EcefPoint>)>):
    Outcome<(seq<GeoPoint>, seq<EcefPoint>)>
  {
    if r.Err? then r else Ok((geo + r.value.0, ecef + r.value.1))
  }

  /** One element of an array of points. */
  lemma PointsStep(c: Codec, table: Table, i: nat, geo: seq<GeoPoint>, ecef: seq<EcefPoint>, first: Outcome<DataValue>)
    requires i < |table| && first == Read(c, table[i].1)
    ensures PrependPoints(geo, ecef, ReadPoints(c, table[i..]))
         == if first.Err? then Err(first.error)
            else if first.value.Geo? then PrependPoints(geo + [first.value.p], ecef, ReadPoints(c, table[i + 1..]))
            else if first.value.GeoEcef? then PrependPoints(geo, ecef + [first.value.q], ReadPoints(c, table[i + 1..]))
            else Err(MixedPoints)
  {
    Suffixes(table, i);
    var rest := ReadPoints(c, table[i + 1..]);
    if first.Ok? && rest.Ok? {
      if first.value.Geo? {
        assert geo + ([first.value.p] + rest.value.0) == geo + [first.value.p] + rest.value.0;
      } else if first.value.GeoEcef? {
        assert ecef + ([first.value.q] + rest.value.1) == ecef + [first.value.q] + rest.value.1;
      }
    }
  }

  lemma PointsEnds(geo: seq<GeoPoint>, ecef: seq<EcefPoint>, r: Outcome<(seq<GeoPoint>, seq<EcefPoint>)>)
    ensures PrependPoints([], [], r) == r && PrependPoints(geo, ecef, Ok(([], []))) == Ok((geo, ecef))
  {
    if r.Ok? {
      assert [] + r.value.0 == r.value.0 && [] + r.value.1 == r.value.1;
    }
    assert geo + [] == geo && ecef + [] == ecef;
  }

  /** An array of arrays as points: all of one kind, or an error. */
  method ArrayOfArraysToPoints(c: Codec, table: Table) returns (r: Outcome<DataValue>)
    ensures r == ReadPointArray(c, table)
    decreases table, 0
  {
    var geo: seq<GeoPoint> := [];
    var ecef: seq<EcefPoint> := [];
    ghost var goal := ReadPoints(c, table);
    Suffixes(table, 0);
    PointsEnds(geo, ecef, goal);
    for i := 0 to |table|
      invariant goal == PrependPoints(geo, ecef, ReadPoints(c, table[i..]))
    {
      assert table[i].1 < table[i];
      var point := ZvalToDataValue(c, table[i].1);
      PointsStep(c, table, i, geo, ecef, point);
      if point.Err? {
        return Err(point.error);
      } else if point.value.Geo? {
        geo := geo + [point.value.p];
      } else if point.value.GeoEcef? {
        ecef := ecef + [point.value.q];
      } else {
        return Err(MixedPoints);
      }
    }
    PointsEnds(geo, ecef, goal);
    if geo != [] && ecef == [] {
      r := Ok(GeoArray(geo));
    } else if geo == [] && ecef != [] {
      r := Ok(GeoEcefArray(ecef));
    } else {
      r := Err(MixedPoints);
    }
  }

  method ArrayToDataValue(c: Codec, table: Table) returns (r: Outcome<DataValue>)
    ensures r == ReadArray(c, table)
    decreases table, 1
  {
    var lat, lon := Get(table, "lat"), Get(table, "lon");
    if lat.Some? && lon.Some? {
      return ReadGeo(lat.value, lon.value);
    }
    var x, y, z := Get(table, "x"), Get(table, "y"), Get(table, "z");
    if x.Some? && y.Some? && z.Some? {
      return ReadEcef(x.value, y.value, z.value);
    }
    if table == [] {
      return Ok(Int64Array([]));
    }
    if IsTokenVectorList(table) {
      var rows := ReadRows(c, table, 0);
      return if rows.Err? then Err(rows.error) else Ok(VectorArray(rows.value));
    }
    if AllArrays(table) {
      r := ArrayOfArraysToPoints(c, table);
      return;
    }
    if AllStrings(table) {
      var strings := StringsOf(table);
      if strings.Err? {
        return Err(strings.error);
      }
      var instants := ParseAll(c, strings.value);
      return Ok(if instants.Some? then DateTimeArray(instants.value) else TextArray(strings.value));
    }
    if AllBools(table) {
      var flags := FlagsOf(table);
      return Ok(BoolArray(flags));
    }
    if AllLongs(table) {
      var ints := IntsOf(table);
      return Ok(Int64Array(ints));
    }
    var floats := FloatsOf(c, table);
    r := if floats.Err? then Err(floats.error) else Ok(Float64Array(floats.value));
  }

  method ZvalToDataValue(c: Codec, zv: Zval) returns (r: Outcome<DataValue>)
    ensures r == Read(c, zv)
    decreases zv
  {
    match zv {
      case ZNull => r := Ok(Null);
      case ZBool(b) => r := Ok(Bool(b));
      case ZLong(i) => r := Ok(Int64(i));
      case ZDouble(f) => r := Ok(Float64(f));
      case ZString(s) =>
        var instant := c.parse(s);
        r := Ok(if instant.Some? then DateTime(instant.value) else Text(s));
      case ZBinary => r := Err(BadString);
      case ZArray(entries) => r := ArrayToDataValue(c, entries);
      case ZOther => r := Err(Unsupported);
    }
  }

  /** Appends under the next integer key. */
  function Push(table: Table, z: Zval): Table {
    table + [(IntKey(|table|), z)]
  }

  method PushDoubles(v: seq<real>) returns (zv: Zval)
    ensures zv == ListOf(Doubles(v))
  {
    var table: Table := [];
    for i := 0 to |v|
      invariant table == ListOf(Doubles(v)).entries[..i]
    {
      table := Push(table, ZDouble(v[i]));
    }
    zv := ZArray(table);
  }

  method PushLongs(v: seq<int>) returns (zv: Zval)
    ensures zv == ListOf(Longs(v))
  {
    var table: Table := [];
    for i := 0 to |v|
      invariant table == ListOf(Longs(v)).entries[..i]
    {
      table := Push(table, ZLong(v[i]));
    }
    zv := ZArray(table);
  }

  method PushBools(v: seq<bool>) returns (zv: Zval)
    ensures zv == ListOf(Bools(v))
  {
    var table: Table := [];
    for i := 0 to |v|
      invariant table == ListOf(Bools(v)).entries[..i]
    {
      table := Push(table, ZBool(v[i]));
    }
    zv := ZArray(table);
  }

  method PushStrings(v: seq<string>) returns (zv: Zval)
    ensures zv == ListOf(Strings(v))
  {
    var table: Table := [];
    for i := 0 to |v|
      invariant table == ListOf(Strings(v)).entries[..i]
    {
      table := Push(table, ZString(v[i]));
    }
    zv := ZArray(table);
  }

  method PushTimestamps(c: Codec, v: seq<int>) returns (zv: Zval)
    ensures zv == ListOf(Timestamps(c, v))
  {
    var table: Table := [];
    for i := 0 to |v|
      invariant table == ListOf(Timestamps(c, v)).entries[..i]
    {
      table := Push(table, ZString(c.format(v[i])));
    }
    zv := ZArray(table);
  }

  method PushGeos(c: Codec, v: seq<GeoPoint>) returns (zv: Zval)
    ensures zv == ListOf(Geos(v))
    decreases 1
  {
    var table: Table := [];
    for i := 0 to |v|
      invariant table == ListOf(Geos(v)).entries[..i]
    {
      var item := DataValueToZval(c, Geo(v[i]));
      table := Push(table, item);
    }
    zv := ZArray(table);
  }

  method PushEcefs(c: Codec, v: seq<EcefPoint>) returns (zv: Zval)
    ensures zv == ListOf(Ecefs(v))
    decreases 1
  {
    var table: Table := [];
    for i := 0 to |v|
      invariant table == ListOf(Ecefs(v)).entries[..i]
    {
      var item := DataValueToZval(c, GeoEcef(v[i]));
      table := Push(table, item);
    }
    zv := ZArray(table);
  }

  method PushRows(c: Codec, v: seq<seq<real>>) returns (zv: Zval)
    ensures zv == ListOf(Rows(v))
    decreases 1
  {
    var table: Table := [];
    for i := 0 to |v|
      invariant table == ListOf(Rows(v)).entries[..i]
    {
      var item := DataValueToZval(c, Vector(v[i]));
      table := Push(table, item);
    }
    zv := ZArray(table);
  }

  method DataValueToZval(c: Codec, v: DataValue) returns (zv: Zval)
    ensures zv == Write(c, v)
    decreases if v.GeoArray? || v.GeoEcefArray? || v.VectorArray? then 2 else 0
  {
    match v {
      case Null => zv := ZNull;
      case Bool(b) => zv := ZBool(b);
      case Int64(i) => zv := ZLong(i);
      case Float64(f) => zv := ZDouble(f);
      case Text(s) => zv := ZString(s);
      case Vector(xs) => zv := PushDoubles(xs);
      case DateTime(t) => zv := ZString(c.format(t));
      case Geo(p) => zv := ZArray([(StrKey("lat"), ZDouble(p.lat)), (StrKey("lon"), ZDouble(p.lon))]);
      case GeoEcef(q) =>
        zv := ZArray([(StrKey("x"), ZDouble(q.x)), (StrKey("y"), ZDouble(q.y)), (StrKey("z"), ZDouble(q.z))]);
      case Int64Array(xs) => zv := PushLongs(xs);
      case Float64Array(xs) => zv := PushDoubles(xs);
      case GeoArray(ps) => zv := PushGeos(c, ps);
      case GeoEcefArray(qs) => zv := PushEcefs(c, qs);
      case DateTimeArray(ts) => zv := PushTimestamps(c, ts);
      case BoolArray(bs) => zv := PushBools(bs);
      case TextArray(ss) => zv := PushStrings(ss);
      case VectorArray(vs) => zv := PushRows(c, vs);
    }
  }
}
