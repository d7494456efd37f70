// The JavaScript values the translation tables are built from: strings,
// integers, booleans, null, arrays and objects. An object is the evaluated
// object, not its literal: its fields keep the order of first definition and
// each key appears once (DistinctKeys). A literal that repeats a key is
// written here with the last value at the first occurrence's position, as
// JavaScript evaluates it.

module Json {
  import opened Wrappers
  import opened Strings

  datatype Value =
    | Str(s: string)
    | Num(n: int)
    | Bool(b: bool)
    | Null
    | Arr(items: seq<Value>)
    | Obj(fields: seq<Field>)

  datatype Field = Field(key: string, value: Value)

  /** `typeof v === "object" && v !== null`: objects and arrays. */
  predicate IsObjectLike(v: Value)
  {
    v.Obj? || v.Arr?
  }

  /** The same test with `!Array.isArray(v)` added: object literals only. */
  predicate IsPlainObject(v: Value)
  {
    v.Obj?
  }

  /** JavaScript truthiness. */
  predicate Truthy(v: Value)
  {
    match v
    case Str(s) => |s| > 0
    case Num(n) => n != 0
    case Bool(b) => b
    case Null => false
    case _ => true
  }

  /** The value of the first field named `k`. */
  function FieldValue(fs: seq<Field>, k: string): (r: Option<Value>)
    ensures r.Some? <==> exists i :: 0 <= i < |fs| && fs[i].key == k
    ensures r.Some? ==> exists i :: 0 <= i < |fs| && fs[i].key == k && fs[i].value == r.value
  {
    if |fs| == 0 then None
    else if fs[0].key == k then Some(fs[0].value)
    else
      var r := FieldValue(fs[1..], k);
      assert forall i :: 1 <= i < |fs| ==> fs[i] == fs[1..][i - 1];
      r
  }

  /** The array element whose canonical decimal index is `k`, searching from `i`. */
  function ElementAt(items: seq<Value>, k: string, i: nat): Option<Value>
    decreases |items| - i
  {
    if i >= |items| then None
    else if NatToString(i) == k then Some(items[i])
    else ElementAt(items, k, i + 1)
  }

  /**
   * `k in v` and `v[k]` for an object or an array: a field of an object; an
   * element or `length` of an array. Nothing for the other values.
   */
  function Member(v: Value, k: string): Option<Value>
  {
    match v
    case Obj(fs) => FieldValue(fs, k)
    case Arr(items) => if k == "length" then Some(Num(|items|)) else ElementAt(items, k, 0)
    case _ => None
  }

  /** `String(v)`: the text JavaScript makes of a value. */
  function ToText(v: Value): string
    decreases v, 1
  {
    match v
    case Str(s) => s
    case Num(n) => IntToString(n)
    case Bool(b) => if b then "true" else "false"
    case Null => "null"
    case Arr(items) => ItemsText(items)
    case Obj(_) => "[object Object]"
  }

  /** `items.join(",")`, where `null` elements become empty. */
  function ItemsText(items: seq<Value>): string
    decreases items, 0
  {
    if |items| == 0 then ""
    else
      var last := if items[|items| - 1].Null? then "" else ToText(items[|items| - 1]);
      if |items| == 1 then last else ItemsText(items[..|items| - 1]) + "," + last
  }

  /** Every object, at every depth, names each of its fields once, as a JavaScript object does. */
  predicate DistinctKeys(v: Value)
    decreases v, 1
  {
    match v
    case Obj(fs) => DistinctFieldKeys(fs)
    case Arr(items) => forall i :: 0 <= i < |items| ==> DistinctKeys(items[i])
    case _ => true
  }

  predicate DistinctFieldKeys(fs: seq<Field>)
    decreases fs, 0
  {
    (forall i, j :: 0 <= i < j < |fs| ==> fs[i].key != fs[j].key) &&
    forall i :: 0 <= i < |fs| ==> DistinctKeys(fs[i].value)
  }

  /** No two fields of the object share a key (the top level of DistinctFieldKeys). */
  predicate UniqueKeys(fs: seq<Field>)
  {
    forall i, j :: 0 <= i < j < |fs| ==> fs[i].key != fs[j].key
  }

  /**
   * Defining the property `f.key` on an object under construction: a key
   * already present keeps its place and takes the new value, a new key goes last.
   */
  function Assign(fs: seq<Field>, f: Field): (r: seq<Field>)
    ensures |r| == |fs| + (if FieldValue(fs, f.key).Some? then 0 else 1)
    ensures FieldValue(r, f.key) == Some(f.value)
    ensures forall k :: k != f.key ==> FieldValue(r, k) == FieldValue(fs, k)
  {
    if |fs| == 0 then [f]
    else if fs[0].key == f.key then [f] + fs[1..]
    else
      var r := [fs[0]] + Assign(fs[1..], f);
      assert r[1..] == Assign(fs[1..], f);
      r
  }

  /** Assigning a key keeps the keys of an object distinct. */
  lemma {:induction false} AssignUnique(fs: seq<Field>, f: Field)
    requires UniqueKeys(fs)
    ensures UniqueKeys(Assign(fs, f))
  {
    if |fs| == 0 {
    } else if fs[0].key == f.key {
      var r := [f] + fs[1..];
      forall i, j | 0 <= i < j < |r| ensures r[i].key != r[j].key {
        assert r[j] == fs[j];
        if i > 0 { assert r[i] == fs[i]; }
      }
    } else {
      var rest := Assign(fs[1..], f);
      var r := [fs[0]] + rest;
      assert UniqueKeys(fs[1..]) by {
        forall i, j | 0 <= i < j < |fs[1..]| ensures fs[1..][i].key != fs[1..][j].key {
          assert fs[1..][i] == fs[i + 1] && fs[1..][j] == fs[j + 1];
        }
      }
      AssignUnique(fs[1..], f);
      assert FieldValue(fs[1..], fs[0].key).None?;
      assert FieldValue(rest, fs[0].key).None?;
      forall i, j | 0 <= i < j < |r| ensures r[i].key != r[j].key {
        assert r[j] == rest[j - 1];
        if i > 0 { assert r[i] == rest[i - 1]; }
      }
    }
  }

  /** The value the last field named `k` gives, which is the one JavaScript keeps. */
  function LastValue(fs: seq<Field>, k: string): Option<Value>
  {
    if |fs| == 0 then None
    else if fs[|fs| - 1].key == k then Some(fs[|fs| - 1].value)
    else LastValue(fs[..|fs| - 1], k)
  }

  /** The fields of the object an object literal with fields `fs` evaluates to. */
  function Literal(fs: seq<Field>): (r: seq<Field>)
    ensures UniqueKeys(r)
  {
    if |fs| == 0 then []
    else
      AssignUnique(Literal(fs[..|fs| - 1]), fs[|fs| - 1]);
      Assign(Literal(fs[..|fs| - 1]), fs[|fs| - 1])
  }

  /** Reading a key of an evaluated literal gives the value of its last definition. */
  lemma {:induction false} LiteralLast(fs: seq<Field>, k: string)
    ensures FieldValue(Literal(fs), k) == LastValue(fs, k)
  {
    if |fs| > 0 {
      LiteralLast(fs[..|fs| - 1], k);
    }
  }

  /** A repeated key keeps its first position and takes its last value. */
  lemma {:induction false} RepeatedKeyLastWins(x: Value, y: Value, z: Value)
    ensures Literal([Field("a", x), Field("b", y), Field("a", z)]) == [Field("a", z), Field("b", y)]
  {
    var fs := [Field("a", x), Field("b", y), Field("a", z)];
    assert fs[..1] == [Field("a", x)] && fs[..2] == [Field("a", x), Field("b", y)];
    assert [Field("a", x)][..0] == [];
    assert Literal([Field("a", x)]) == [Field("a", x)];
    assert Literal(fs[..2]) == [Field("a", x), Field("b", y)];
  }

  /** In an object with distinct keys, the value found for a field's key is that field's value. */
  lemma {:induction false} FieldValueAt(fs: seq<Field>, i: nat)
    requires i < |fs|
    requires forall p, q :: 0 <= p < q < |fs| ==> fs[p].key != fs[q].key
    ensures FieldValue(fs, fs[i].key) == Some(fs[i].value)
  {
    var r := FieldValue(fs, fs[i].key);
    var j :| 0 <= j < |fs| && fs[j].key == fs[i].key && fs[j].value == r.value;
    assert j == i;
  }
}
