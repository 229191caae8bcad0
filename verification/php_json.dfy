/** Converting PHP values to JSON. PHP arrays are references into a heap and may contain
    themselves; only the depth guard bounds the recursion. */
module PhpJson {
  import opened PhpArrays
  import opened Results

  datatype Error = TooDeep | BadString | NotFinite | BadKey | Unsupported

  type Outcome<T> = Result<T, Error>

  datatype Node =
    | NullNode
    | BoolNode(b: bool)
    | LongNode(i: int)
    | DoubleNode(f: Float)
    | StringNode(s: string)
    | BinaryNode
    | ArrayNode(ref: nat)
    | OtherNode

  type Table = seq<(Key, Node)>

  /** What each array reference holds. Nothing rules out cycles. */
  type Heap = nat -> Table

  datatype Json =
    | JNull
    | JBool(b: bool)
    | JInt(i: int)
    | JFloat(f: real)
    | JString(s: string)
    | JArray(items: seq<Json>)
    | JObject(members: seq<Member>)

  datatype Member = Member(name: string, value: Json)

  const MAX_DEPTH := 32

  function Digits(n: nat): string {
    (if n < 10 then [] else Digits(n / 10)) + [('0' as int + n % 10) as char]
  }

  function KeyText(key: Key): Option<string> {
    match key
    case IntKey(i) => Some(if i < 0 then "-" + Digits(-i) else Digits(i))
    case StrKey(s) => Some(s)
    case BinaryKey => None
  }

  // ----- Names of integer keys

  /** The number that decimal digits stand for, the most significant first. */
  function DigitsValue(s: string): int {
    if s == [] then 0 else 10 * DigitsValue(s[..|s| - 1]) + (s[|s| - 1] as int - '0' as int)
  }

  /** Digits only, and no leading zero. */
  predicate IsNatural(s: string) {
    s != [] && (forall i :: 0 <= i < |s| ==> '0' <= s[i] <= '9') && (s[0] == '0' ==> |s| == 1)
  }

  /** `name` is the decimal numeral of `i`. */
  predicate IsNumeral(name: string, i: int) {
    if i < 0 then name != [] && name[0] == '-' && IsNatural(name[1..]) && DigitsValue(name[1..]) == -i
    else IsNatural(name) && DigitsValue(name) == i
  }

  /** `name` is the member name of `key`: of an integer its decimal numeral, of valid text the
      text; other keys have none. */
  predicate Names(key: Key, name: string) {
    match key
    case IntKey(i) => IsNumeral(name, i)
    case StrKey(s) => name == s
    case BinaryKey => false
  }

  lemma {:induction false} DigitsAreNatural(n: nat)
    ensures IsNatural(Digits(n)) && DigitsValue(Digits(n)) == n
    ensures n > 0 ==> Digits(n)[0] != '0'
    decreases n
  {
    if n >= 10 {
      DigitsAreNatural(n / 10);
      assert Digits(n)[..|Digits(n)| - 1] == Digits(n / 10);
    }
  }

  lemma {:induction false} DigitsPositive(s: string)
    requires s != [] && s[0] != '0' && forall i :: 0 <= i < |s| ==> '0' <= s[i] <= '9'
    ensures DigitsValue(s) > 0
    decreases |s|
  {
    if |s| > 1 {
      DigitsPositive(s[..|s| - 1]);
    }
  }

  lemma LastDigit(v: nat, last: char)
    requires '0' <= last <= '9'
    ensures Digits(10 * v + (last as int - '0' as int)) == (if v == 0 then [] else Digits(v)) + [last]
  {
    var (d, n) := (last as int - '0' as int, 10 * v + (last as int - '0' as int));
    assert n / 10 == v && n % 10 == d;
    assert ('0' as int + d) as char == last;
  }

  lemma {:induction false} OneDigitString(s: string, n: nat)
    requires IsNatural(s) && DigitsValue(s) == n
    ensures s == Digits(n)
    decreases |s|
  {
    var (front, last) := (s[..|s| - 1], s[|s| - 1]);
    assert s == front + [last];
    assert n == 10 * DigitsValue(front) + (last as int - '0' as int);
    if front != [] {
      DigitsPositive(front);
      OneDigitString(front, DigitsValue(front));
    }
    LastDigit(DigitsValue(front), last);
  }

  lemma NamesKey(key: Key, name: string)
    ensures KeyText(key) == Some(name) <==> Names(key, name)
  {
    if key.IntKey? {
      var n := if key.i < 0 then -key.i else key.i;
      DigitsAreNatural(n);
      if key.i < 0 {
        assert ("-" + Digits(n))[1..] == Digits(n);
        if Names(key, name) {
          OneDigitString(name[1..], n);
          assert name == "-" + name[1..];
        }
      } else if Names(key, name) {
        OneDigitString(name, n);
      }
    }
  }

  lemma OneNumeral(name: string, i: int, k: int)
    requires IsNumeral(name, i) && IsNumeral(name, k)
    ensures i == k
  {
  }

  /** Different keys have different names: PHP keeps no text key that is an integer's numeral. */
  lemma NamesDiffer(key: Key, key': Key, name: string)
    requires Names(key, name) && Names(key', name)
    requires forall i :: key.StrKey? ==> !IsNumeral(key.s, i)
    requires forall i :: key'.StrKey? ==> !IsNumeral(key'.s, i)
    ensures key == key'
  {
    if key.IntKey? && key'.IntKey? {
      OneNumeral(name, key.i, key'.i);
    }
  }

  // ----- The conversion

  function ToJson(heap: Heap, v: Node, depth: nat): Outcome<Json>
    decreases MAX_DEPTH + 1 - depth, 2
  {
    if depth > MAX_DEPTH then Err(TooDeep)
    else
      match v
      case NullNode => Ok(JNull)
      case BoolNode(b) => Ok(JBool(b))
      case LongNode(i) => Ok(JInt(i))
      case DoubleNode(f) => if f.Finite? then Ok(JFloat(f.value)) else Err(NotFinite)
      case StringNode(s) => Ok(JString(s))
      case BinaryNode => Err(BadString)
      case ArrayNode(ref) => TableToJson(heap, heap(ref), depth)
      case OtherNode => Err(Unsupported)
  }

  function TableToJson(heap: Heap, table: Table, depth: nat): Outcome<Json>
    decreases MAX_DEPTH + 1 - depth, 1
  {
    if depth > MAX_DEPTH then Err(TooDeep)
    else if IsList(table) then
      var items := ItemsToJson(heap, table, depth + 1);
      if items.Err? then Err(items.error) else Ok(JArray(items.value))
    else
      var members := MembersToJson(heap, table, depth + 1);
      if members.Err? then Err(members.error) else Ok(JObject(members.value))
  }

  function ItemsToJson(heap: Heap, table: Table, depth: nat): Outcome<seq<Json>>
    requires depth <= MAX_DEPTH + 1
    decreases MAX_DEPTH + 1 - depth, 3, |table|
  {
    if table == [] then Ok([])
    else
      var first := ToJson(heap, table[0].1, depth);
      if first.Err? then Err(first.error)
      else
        var rest := ItemsToJson(heap, table[1..], depth);
        if rest.Err? then rest else Ok([first.value] + rest.value)
  }

  function MembersToJson(heap: Heap, table: Table, depth: nat): Outcome<seq<Member>>
    requires depth <= MAX_DEPTH + 1
    decreases MAX_DEPTH + 1 - depth, 3, |table|
  {
    if table == [] then Ok([])
    else
      var (name, first) := (KeyText(table[0].0), ToJson(heap, table[0].1, depth));
      if name.None? then Err(BadKey)
      else if first.Err? then Err(first.error)
      else
        var rest := MembersToJson(heap, table[1..], depth);
        if rest.Err? then rest else Ok([Member(name.value, first.value)] + rest.value)
  }

  // ----- The finite unfolding of a value

  /** `j` is the value `v` written out in full, with no bound on its depth. */
  ghost predicate Unfolds(heap: Heap, v: Node, j: Json)
    decreases j
  {
    match j
    case JNull => v == NullNode
    case JBool(b) => v == BoolNode(b)
    case JInt(i) => v == LongNode(i)
    case JFloat(f) => v == DoubleNode(Finite(f))
    case JString(s) => v == StringNode(s)
    case JArray(items) =>
      && v.ArrayNode? && (forall i :: 0 <= i < |heap(v.ref)| ==> heap(v.ref)[i].0 == IntKey(i))
      && UnfoldsItems(heap, heap(v.ref), items)
    case JObject(members) =>
      && v.ArrayNode? && (exists i :: 0 <= i < |heap(v.ref)| && heap(v.ref)[i].0 != IntKey(i))
      && UnfoldsMembers(heap, heap(v.ref), members)
  }

  ghost predicate UnfoldsItems(heap: Heap, table: Table, items: seq<Json>)
    decreases items
  {
    if table == [] || items == [] then table == [] && items == []
    else Unfolds(heap, table[0].1, items[0]) && UnfoldsItems(heap, table[1..], items[1..])
  }

  ghost predicate UnfoldsMembers(heap: Heap, table: Table, members: seq<Member>)
    decreases members
  {
    if table == [] || members == [] then table == [] && members == []
    else
      assert members[0].value < members[0];
      && Names(table[0].0, members[0].name)
      && Unfolds(heap, table[0].1, members[0].value) && UnfoldsMembers(heap, table[1..], members[1..])
  }

  /** No node of `j` lies more than `room` array steps below its root. */
  ghost predicate Fits(j: Json, room: int)
    decreases j
  {
    && room >= 0
    && (j.JArray? ==> ItemsFit(j.items, room - 1))
    && (j.JObject? ==> MembersFit(j.members, room - 1))
  }

  ghost predicate ItemsFit(items: seq<Json>, room: int)
    decreases items
  {
    items == [] || (Fits(items[0], room) && ItemsFit(items[1..], room))
  }

  ghost predicate MembersFit(members: seq<Member>, room: int)
    decreases members
  {
    members == [] ||
    (assert members[0].value < members[0];
     Fits(members[0].value, room) && MembersFit(members[1..], room))
  }

  /** At any depth, the conversion succeeds with `j` exactly when `j` is the full unfolding
      and fits in the room left. */
  lemma {:induction false} ConvertsExactly(heap: Heap, v: Node, depth: nat, j: Json)
    requires depth <= MAX_DEPTH + 1
    ensures ToJson(heap, v, depth) == Ok(j) <==> Unfolds(heap, v, j) && Fits(j, MAX_DEPTH - depth)
    decreases MAX_DEPTH + 1 - depth, 1
  {
    if depth <= MAX_DEPTH && v.ArrayNode? {
      var table := heap(v.ref);
      if j.JArray? {
        ItemsConvertExactly(heap, table, depth + 1, j.items);
      } else if j.JObject? {
        MembersConvertExactly(heap, table, depth + 1, j.members);
      }
    }
  }

  lemma {:induction false} ItemsConvertExactly(heap: Heap, table: Table, depth: nat, items: seq<Json>)
    requires depth <= MAX_DEPTH + 1
    ensures ItemsToJson(heap, table, depth) == Ok(items)
       <==> UnfoldsItems(heap, table, items) && ItemsFit(items, MAX_DEPTH - depth)
    decreases MAX_DEPTH + 1 - depth, 2, |table|
  {
    if table != [] && items != [] {
      ConvertsExactly(heap, table[0].1, depth, items[0]);
      ItemsConvertExactly(heap, table[1..], depth, items[1..]);
      assert items == [items[0]] + items[1..];
    }
  }

  lemma {:induction false} MembersConvertExactly(heap: Heap, table: Table, depth: nat, members: seq<Member>)
    requires depth <= MAX_DEPTH + 1
    ensures MembersToJson(heap, table, depth) == Ok(members)
       <==> UnfoldsMembers(heap, table, members) && MembersFit(members, MAX_DEPTH - depth)
    decreases MAX_DEPTH + 1 - depth, 2, |table|
  {
    if table != [] && members != [] {
      ConvertsExactly(heap, table[0].1, depth, members[0].value);
      NamesKey(table[0].0, members[0].name);
      MembersConvertExactly(heap, table[1..], depth, members[1..]);
      assert members == [members[0]] + members[1..];
    }
  }

  // ----- Success, in terms of the array graph

  /** The node reached from `v` by taking the given entries of the arrays along the way. */
  function At(heap: Heap, v: Node, path: seq<nat>): Option<Node>
    decreases path
  {
    if path == [] then Some(v)
    else if v.ArrayNode? && path[0] < |heap(v.ref)| then At(heap, heap(v.ref)[path[0]].1, path[1..])
    else None
  }

  /** A node the conversion can write on its own: not counting what an array holds. */
  predicate Writable(heap: Heap, v: Node) {
    match v
    case DoubleNode(f) => f.Finite?
    case BinaryNode => false
    case OtherNode => false
    case ArrayNode(ref) =>
      || (forall i :: 0 <= i < |heap(ref)| ==> heap(ref)[i].0 == IntKey(i))
      || (forall i :: 0 <= i < |heap(ref)| ==> !heap(ref)[i].0.BinaryKey?)
    case _ => true
  }

  /** Every node below `v` is writable and at most `room` array steps down. */
  ghost predicate Within(heap: Heap, v: Node, room: int) {
    forall path :: At(heap, v, path).Some? ==> |path| <= room && Writable(heap, At(heap, v, path).value)
  }

  ghost predicate AllWithin(heap: Heap, table: Table, room: int) {
    forall i :: 0 <= i < |table| ==> Within(heap, table[i].1, room)
  }

  lemma WithinByEntries(heap: Heap, v: Node, room: int)
    requires v.ArrayNode?
    ensures Within(heap, v, room)
       <==> room >= 0 && Writable(heap, v) && AllWithin(heap, heap(v.ref), room - 1)
  {
    var table := heap(v.ref);
    if Within(heap, v, room) {
      assert At(heap, v, []).Some?;
      forall i, path | 0 <= i < |table| && At(heap, table[i].1, path).Some?
        ensures |path| <= room - 1 && Writable(heap, At(heap, table[i].1, path).value)
      {
        assert ([i] + path)[1..] == path;
        assert At(heap, v, [i] + path) == At(heap, table[i].1, path);
      }
    }
    if room >= 0 && Writable(heap, v) && AllWithin(heap, table, room - 1) {
      forall path | At(heap, v, path).Some?
        ensures |path| <= room && Writable(heap, At(heap, v, path).value)
      {
        if path != [] {
          assert Within(heap, table[path[0]].1, room - 1);
          assert At(heap, table[path[0]].1, path[1..]).Some?;
        }
      }
    }
  }

  lemma LeafWithin(heap: Heap, v: Node, room: int)
    requires !v.ArrayNode?
    ensures Within(heap, v, room) <==> room >= 0 && Writable(heap, v)
  {
    assert At(heap, v, []) == Some(v);
  }

  lemma ArraySucceeds(heap: Heap, v: Node, depth: nat, table: Table)
    requires depth <= MAX_DEPTH && v.ArrayNode? && table == heap(v.ref)
    requires ItemsToJson(heap, table, depth + 1).Ok? <==> AllWithin(heap, table, MAX_DEPTH - depth - 1)
    requires MembersToJson(heap, table, depth + 1).Ok?
        <==> AllWithin(heap, table, MAX_DEPTH - depth - 1) && forall i :: 0 <= i < |table| ==> !table[i].0.BinaryKey?
    ensures ToJson(heap, v, depth).Ok? <==> Writable(heap, v) && AllWithin(heap, table, MAX_DEPTH - depth - 1)
  {
  }

  lemma {:induction false} SucceedsIffWithin(heap: Heap, v: Node, depth: nat)
    requires depth <= MAX_DEPTH + 1
    ensures ToJson(heap, v, depth).Ok? <==> Within(heap, v, MAX_DEPTH - depth)
    decreases MAX_DEPTH + 1 - depth, 1
  {
    if v.ArrayNode? {
      WithinByEntries(heap, v, MAX_DEPTH - depth);
      if depth <= MAX_DEPTH {
        EntriesSucceed(heap, heap(v.ref), depth + 1);
        ArraySucceeds(heap, v, depth, heap(v.ref));
      }
    } else {
      LeafWithin(heap, v, MAX_DEPTH - depth);
    }
  }

  lemma {:induction false} EntriesSucceed(heap: Heap, table: Table, depth: nat)
    requires depth <= MAX_DEPTH + 1
    ensures ItemsToJson(heap, table, depth).Ok? <==> AllWithin(heap, table, MAX_DEPTH - depth)
    ensures MembersToJson(heap, table, depth).Ok?
       <==> AllWithin(heap, table, MAX_DEPTH - depth) && forall i :: 0 <= i < |table| ==> !table[i].0.BinaryKey?
    decreases MAX_DEPTH + 1 - depth, 2, |table|
  {
    if table != [] {
      SucceedsIffWithin(heap, table[0].1, depth);
      EntriesSucceed(heap, table[1..], depth);
      assert forall i :: 0 < i < |table| ==> table[i] == table[1..][i - 1];
      assert forall i :: 0 <= i < |table[1..]| ==> table[1..][i] == table[i + 1];
    }
  }

  /** The conversion succeeds exactly when no node lies more than 32 array steps below the
      value and every node is writable. */
  lemma SucceedsExactly(heap: Heap, v: Node)
    ensures ToJson(heap, v, 0).Ok?
       <==> forall path :: At(heap, v, path).Some? ==> |path| <= 32 && Writable(heap, At(heap, v, path).value)
  {
    SucceedsIffWithin(heap, v, 0);
  }

  // ----- Which error

  /** Entry `i` cannot be converted, with error `e`. */
  ghost predicate EntryFails(heap: Heap, table: Table, depth: nat, named: bool, i: nat, e: Error)
    requires i < |table|
  {
    if named && table[i].0.BinaryKey? then e == BadKey else ToJson(heap, table[i].1, depth) == Err(e)
  }

  /** Entry `i` is the first that cannot be converted. */
  ghost predicate FirstFails(heap: Heap, table: Table, depth: nat, named: bool, i: nat, e: Error) {
    && i < |table| && EntryFails(heap, table, depth, named, i, e)
    && forall j: nat, d :: j < i ==> !EntryFails(heap, table, depth, named, j, d)
  }

  ghost predicate SomeEntryFails(heap: Heap, table: Table, depth: nat, named: bool, e: Error) {
    exists i: nat :: FirstFails(heap, table, depth, named, i, e)
  }

  ghost predicate IsKeyed(table: Table) {
    exists i :: 0 <= i < |table| && table[i].0 != IntKey(i)
  }

  lemma FirstFailsLater(heap: Heap, table: Table, depth: nat, named: bool, e: Error)
    requires table != [] && forall d :: !EntryFails(heap, table, depth, named, 0, d)
    ensures (exists i: nat :: FirstFails(heap, table, depth, named, i, e))
       <==> exists i: nat :: FirstFails(heap, table[1..], depth, named, i, e)
  {
    if i: nat :| FirstFails(heap, table, depth, named, i, e) {
      assert i > 0;
      assert FirstFails(heap, table[1..], depth, named, i - 1, e) by {
        forall j: nat, d | j < i - 1
          ensures !EntryFails(heap, table[1..], depth, named, j, d)
        {
          assert !EntryFails(heap, table, depth, named, j + 1, d);
        }
      }
    }
    if i: nat :| FirstFails(heap, table[1..], depth, named, i, e) {
      assert table[1..][i] == table[i + 1];
      assert FirstFails(heap, table, depth, named, i + 1, e) by {
        forall j: nat, d | j < i + 1
          ensures !EntryFails(heap, table, depth, named, j, d)
        {
          assert j > 0 ==> !EntryFails(heap, table[1..], depth, named, j - 1, d);
        }
      }
    }
  }

  lemma {:induction false} ItemsFail(heap: Heap, table: Table, depth: nat, e: Error)
    requires depth <= MAX_DEPTH + 1
    ensures ItemsToJson(heap, table, depth) == Err(e) <==> exists i: nat :: FirstFails(heap, table, depth, false, i, e)
    decreases |table|
  {
    if table != [] {
      var first := ToJson(heap, table[0].1, depth);
      if first.Err? {
        assert FirstFails(heap, table, depth, false, 0, first.error);
        assert forall i: nat, d :: FirstFails(heap, table, depth, false, i, d) ==> i == 0;
      } else {
        ItemsFail(heap, table[1..], depth, e);
        FirstFailsLater(heap, table, depth, false, e);
      }
    }
  }

  lemma {:induction false} MembersFail(heap: Heap, table: Table, depth: nat, e: Error)
    requires depth <= MAX_DEPTH + 1
    ensures MembersToJson(heap, table, depth) == Err(e) <==> exists i: nat :: FirstFails(heap, table, depth, true, i, e)
    decreases |table|
  {
    if table != [] {
      var first := ToJson(heap, table[0].1, depth);
      if table[0].0.BinaryKey? || first.Err? {
        var d := if table[0].0.BinaryKey? then BadKey else first.error;
        assert FirstFails(heap, table, depth, true, 0, d);
        assert EntryFails(heap, table, depth, true, 0, d);
      } else {
        MembersFail(heap, table[1..], depth, e);
        FirstFailsLater(heap, table, depth, true, e);
      }
    }
  }

  /** The error of a value: too deep, its own if it is no array, and for an array that of the
      first entry that fails; of a keyed entry, the key is looked at before the value. */
  lemma ErrorsExactly(heap: Heap, v: Node, depth: nat, e: Error)
    requires depth <= 33
    ensures ToJson(heap, v, depth) == Err(e)
       <==> if depth == 33 then e == TooDeep
            else match v
              case DoubleNode(f) => f == NonFinite && e == NotFinite
              case BinaryNode => e == BadString
              case OtherNode => e == Unsupported
              case ArrayNode(ref) =>
                SomeEntryFails(heap, heap(ref), depth + 1, IsKeyed(heap(ref)), e)
              case _ => false
  {
    if depth <= MAX_DEPTH && v.ArrayNode? {
      ItemsFail(heap, heap(v.ref), depth + 1, e);
      MembersFail(heap, heap(v.ref), depth + 1, e);
    }
  }

  // ----- Cycles

  function Repeat(path: seq<nat>, times: nat): seq<nat> {
    if times == 0 then [] else path + Repeat(path, times - 1)
  }

  lemma {:induction false} AtConcat(heap: Heap, v: Node, p: seq<nat>, q: seq<nat>)
    requires At(heap, v, p).Some?
    ensures At(heap, v, p + q) == At(heap, At(heap, v, p).value, q)
    decreases p
  {
    if p == [] {
      assert p + q == q;
    } else {
      assert (p + q)[1..] == p[1..] + q;
      AtConcat(heap, heap(v.ref)[p[0]].1, p[1..], q);
    }
  }

  lemma {:induction false} RoundAgain(heap: Heap, v: Node, path: seq<nat>, times: nat)
    requires path != [] && At(heap, v, path) == Some(v)
    ensures At(heap, v, Repeat(path, times)) == Some(v) && |Repeat(path, times)| >= times
    decreases times
  {
    if times > 0 {
      RoundAgain(heap, v, path, times - 1);
      AtConcat(heap, v, path, Repeat(path, times - 1));
    }
  }

  /** A value from which a cycle can be reached is always rejected. */
  lemma CyclesAreRejected(heap: Heap, v: Node, lead: seq<nat>, path: seq<nat>)
    requires At(heap, v, lead).Some? && path != [] && At(heap, At(heap, v, lead).value, path) == At(heap, v, lead)
    ensures ToJson(heap, v, 0).Err?
  {
    var w := At(heap, v, lead).value;
    RoundAgain(heap, w, path, 33);
    AtConcat(heap, v, lead, Repeat(path, 33));
    assert At(heap, v, lead + Repeat(path, 33)).Some?;
    SucceedsExactly(heap, v);
  }

  // ----- The conversion as the bridge runs it

  lemma ItemsStep(heap: Heap, table: Table, depth: nat, i: nat, items: seq<Json>)
    requires depth <= MAX_DEPTH + 1 && i < |table|
    ensures var value := ToJson(heap, table[i].1, depth);
      Prepend(items, ItemsToJson(heap, table[i..], depth))
        == if value.Err? then Err(value.error)
           else Prepend(items + [value.value], ItemsToJson(heap, table[i + 1..], depth))
  {
    assert table[i..][0] == table[i] && table[i..][1..] == table[i + 1..];
    var value := ToJson(heap, table[i].1, depth);
    if value.Ok? {
      PrependSnoc(items, value.value, ItemsToJson(heap, table[i + 1..], depth));
    }
  }

  lemma MembersStep(heap: Heap, table: Table, depth: nat, i: nat, members: seq<Member>)
    requires depth <= MAX_DEPTH + 1 && i < |table|
    ensures var (name, value) := (KeyText(table[i].0), ToJson(heap, table[i].1, depth));
      Prepend(members, MembersToJson(heap, table[i..], depth))
        == if name.None? then Err(BadKey)
           else if value.Err? then Err(value.error)
           else Prepend(members + [Member(name.value, value.value)], MembersToJson(heap, table[i + 1..], depth))
  {
    assert table[i..][0] == table[i] && table[i..][1..] == table[i + 1..];
    var (name, value) := (KeyText(table[i].0), ToJson(heap, table[i].1, depth));
    if name.Some? && value.Ok? {
      PrependSnoc(members, Member(name.value, value.value), MembersToJson(heap, table[i + 1..], depth));
    }
  }

  method ItemsOf(heap: Heap, table: Table, depth: nat) returns (r: Outcome<seq<Json>>)
    requires depth <= MAX_DEPTH + 1
    ensures r == ItemsToJson(heap, table, depth)
    decreases MAX_DEPTH + 1 - depth, 3
  {
    var items: seq<Json> := [];
    ghost var goal := ItemsToJson(heap, table, depth);
    assert table[0..] == table && table[|table|..] == [];
    PrependEnds(items, goal);
    for i := 0 to |table|
      invariant goal == Prepend(items, ItemsToJson(heap, table[i..], depth))
    {
      ItemsStep(heap, table, depth, i, items);
      var value := ZvalToJson(heap, table[i].1, depth);
      if value.Err? {
        return Err(value.error);
      }
      items := items + [value.value];
    }
    PrependEnds(items, goal);
    r := Ok(items);
  }

  method MembersOf(heap: Heap, table: Table, depth: nat) returns (r: Outcome<seq<Member>>)
    requires depth <= MAX_DEPTH + 1
    ensures r == MembersToJson(heap, table, depth)
    decreases MAX_DEPTH + 1 - depth, 3
  {
    var members: seq<Member> := [];
    ghost var goal := MembersToJson(heap, table, depth);
    assert table[0..] == table && table[|table|..] == [];
    PrependEnds(members, goal);
    for i := 0 to |table|
      invariant goal == Prepend(members, MembersToJson(heap, table[i..], depth))
    {
      var name := KeyText(table[i].0);
      MembersStep(heap, table, depth, i, members);
      if name.None? {
        return Err(BadKey);
      }
      var value := ZvalToJson(heap, table[i].1, depth);
      if value.Err? {
        return Err(value.error);
      }
      members := members + [Member(name.value, value.value)];
    }
    PrependEnds(members, goal);
    r := Ok(members);
  }

  /** A list becomes a JSON array, any other array a JSON object; the first entry that cannot
      be converted is the error. */
  method HashtableToJson(heap: Heap, table: Table, depth: nat) returns (r: Outcome<Json>)
    ensures r == TableToJson(heap, table, depth)
    decreases MAX_DEPTH + 1 - depth, 1
  {
    if depth > MAX_DEPTH {
      return Err(TooDeep);
    }
    if IsList(table) {
      var items := ItemsOf(heap, table, depth + 1);
      r := if items.Err? then Err(items.error) else Ok(JArray(items.value));
    } else {
      var members := MembersOf(heap, table, depth + 1);
      r := if members.Err? then Err(members.error) else Ok(JObject(members.value));
    }
  }

  method ZvalToJson(heap: Heap, v: Node, depth: nat) returns (r: Outcome<Json>)
    ensures r == ToJson(heap, v, depth)
    decreases MAX_DEPTH + 1 - depth, 2
  {
    if depth > MAX_DEPTH {
      return Err(TooDeep);
    }
    match v {
      case NullNode => r := Ok(JNull);
      case BoolNode(b) => r := Ok(JBool(b));
      case LongNode(i) => r := Ok(JInt(i));
      case DoubleNode(f) => r := if f.Finite? then Ok(JFloat(f.value)) else Err(NotFinite);
      case StringNode(s) => r := Ok(JString(s));
      case BinaryNode => r := Err(BadString);
      case ArrayNode(ref) => r := HashtableToJson(heap, heap(ref), depth);
      case OtherNode => r := Err(Unsupported);
    }
  }
}
