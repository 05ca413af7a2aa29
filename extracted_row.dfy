/** ExtractedRow: an insertion-ordered map from field name to parsed value, with an
    integer score kept outside the map. */
module ExtractedRows {
  import opened Wrappers
  import opened JavaText
  import Regex

  /** The objects a row holds: String, Integer, Double, or null. */
  datatype Value = Str(s: string) | Int(i: Int32) | Dbl(d: real) | Null {
    /** `instanceof Number`. */
    predicate IsNumber() {
      Int? || Dbl?
    }

    /** Number.intValue(). */
    function IntValue(): Int32
      requires IsNumber()
    {
      if Int? then i else DoubleToInt(d)
    }

    /** Number.doubleValue(). */
    function DoubleValue(): real
      requires IsNumber()
    {
      if Int? then i as real else d
    }

    /** String.valueOf(Object). */
    function AsString(o: Regex.Oracle): string {
      match this
      case Str(s) => s
      case Int(i) => IntToString(i)
      case Dbl(d) => o.doubleToString(d)
      case Null => "null"
    }
  }

  /** A LinkedHashMap keyed by strings: the keys in insertion order and the entries. */
  datatype OrderedMap<V> = OrderedMap(keys: seq<string>, vals: map<string, V>) {
    ghost predicate Valid() {
      && (forall i, j :: 0 <= i < j < |keys| ==> keys[i] != keys[j])
      && (forall k :: k in vals <==> k in keys)
    }

    /** put(k, v): a new key goes to the end, an existing key keeps its place. */
    function Put(k: string, v: V): (r: OrderedMap<V>)
      requires Valid()
      ensures r.Valid()
      ensures r.vals == vals[k := v]
      ensures k in vals ==> r.keys == keys
      ensures k !in vals ==> r.keys == keys + [k]
    {
      if k in vals then OrderedMap(keys, vals[k := v]) else OrderedMap(keys + [k], vals[k := v])
    }

    /** put(k, src.get(k)) for each k of `ks` in turn. */
    function PutEach(src: map<string, V>, ks: seq<string>): (r: OrderedMap<V>)
      requires Valid()
      requires forall k :: k in ks ==> k in src
      ensures r.Valid()
      ensures r.vals.Keys == vals.Keys + set k | k in ks
      ensures forall k :: k in ks ==> r.vals[k] == src[k]
      ensures forall k :: k in vals && k !in ks ==> r.vals[k] == vals[k]
      ensures |keys| <= |r.keys| && r.keys[..|keys|] == keys
      decreases |ks|
    {
      if ks == [] then this
      else
        var last := ks[|ks| - 1];
        var init := PutEach(src, ks[..|ks| - 1]);
        assert ks == ks[..|ks| - 1] + [last];
        assert forall k :: k in ks <==> k in ks[..|ks| - 1] || k == last;
        init.Put(last, src[last])
    }

    /** A run of put calls appends the keys not yet present, in the order of their
        first occurrence in `ks`, after the existing keys. */
    lemma {:induction false} PutEachKeys(src: map<string, V>, ks: seq<string>)
      requires Valid()
      requires forall k :: k in ks ==> k in src
      ensures PutEach(src, ks).keys == keys + NewKeys(ks, vals.Keys)
      decreases |ks|
    {
      if ks != [] {
        var init, last := ks[..|ks| - 1], ks[|ks| - 1];
        PutEachKeys(src, init);
        var before := PutEach(src, init);
        var nk := NewKeys(init, vals.Keys);
        assert NewKeys(ks, vals.Keys) == if last in vals.Keys || last in init then nk else nk + [last] by {
          NewKeysSnoc(init, last, vals.Keys);
          InitLast(ks);
        }
        assert last in before.vals <==> last in vals.Keys || last in init by {
          assert before.vals.Keys == vals.Keys + set k | k in init;
        }
        assert PutEach(src, ks) == before.Put(last, src[last]);
        if last in vals.Keys || last in init {
          assert PutEach(src, ks).keys == before.keys;
        } else {
          assert PutEach(src, ks).keys == before.keys + [last];
          AppendAssoc(keys, nk, [last]);
        }
      }
    }

    /** putAll(other): other's entries in other's order; they win over existing ones. */
    function PutAll(other: OrderedMap<V>): (r: OrderedMap<V>)
      requires Valid() && other.Valid()
      ensures r.Valid()
      ensures r.vals.Keys == vals.Keys + other.vals.Keys
      ensures forall k :: k in other.vals ==> r.vals[k] == other.vals[k]
      ensures forall k :: k in vals && k !in other.vals ==> r.vals[k] == vals[k]
      ensures |keys| <= |r.keys| && r.keys[..|keys|] == keys
      ensures r.keys == keys + NewKeys(other.keys, vals.Keys)
    {
      assert (set k | k in other.keys) == other.vals.Keys;
      PutEachKeys(other.vals, other.keys);
      PutEach(other.vals, other.keys)
    }

    /** values(): the entries' values in key order. */
    function Values(): (r: seq<V>)
      requires Valid()
      ensures |r| == |keys|
      ensures forall i :: 0 <= i < |keys| ==> r[i] == vals[keys[i]]
    {
      seq(|keys|, i requires 0 <= i < |keys| && Valid() => vals[keys[i]])
    }

    /** size(): the number of keys is the number of entries. */
    lemma SizeIsEntryCount()
      requires Valid()
      ensures |keys| == |vals|
    {
      DistinctCardinality(keys);
      assert vals.Keys == set i | 0 <= i < |keys| :: keys[i] by {
        forall k | k in vals ensures k in set i | 0 <= i < |keys| :: keys[i] {
          var i :| 0 <= i < |keys| && keys[i] == k;
        }
      }
    }
  }

  /** The keys of `ks` that are not in `present`, each at its first occurrence, in
      the order of `ks`: the keys a run of put calls appends. */
  function NewKeys(ks: seq<string>, present: set<string>): (r: seq<string>)
    ensures forall k :: k in r <==> k in ks && k !in present
    ensures forall i, j :: 0 <= i < j < |r| ==> r[i] != r[j]
    decreases |ks|
  {
    if ks == [] then []
    else
      var init := ks[..|ks| - 1];
      var last := ks[|ks| - 1];
      assert ks == init + [last];
      if last in present || last in init then NewKeys(init, present) else NewKeys(init, present) + [last]
  }

  lemma NewKeysSnoc(ks: seq<string>, last: string, present: set<string>)
    ensures NewKeys(ks + [last], present)
         == if last in present || last in ks then NewKeys(ks, present) else NewKeys(ks, present) + [last]
  {
    assert (ks + [last])[..|ks|] == ks;
  }

  lemma {:induction false} DistinctCardinality(ks: seq<string>)
    requires forall i, j :: 0 <= i < j < |ks| ==> ks[i] != ks[j]
    ensures |set i | 0 <= i < |ks| :: ks[i]| == |ks|
    decreases |ks|
  {
    if ks != [] {
      var init := ks[..|ks| - 1];
      DistinctCardinality(init);
      var s := set i | 0 <= i < |init| :: init[i];
      assert (set i | 0 <= i < |ks| :: ks[i]) == s + {ks[|ks| - 1]};
      assert ks[|ks| - 1] !in s;
    }
  }

  type LinkedMap<V> = m: OrderedMap<V> | m.Valid() witness OrderedMap([], map[])

  /** A row as a value: its entries and its score. */
  datatype RowValue = RowValue(fields: LinkedMap<Value>, score: Int32)

  /** ClassCastException or NullPointerException from a numeric accessor. */
  datatype AccessError = ClassCast | NullPointer

  class ExtractedRow {
    var fields: LinkedMap<Value>
    var score: Int32

    constructor()
      ensures fields == OrderedMap([], map[]) && score == 0
    {
      fields := OrderedMap([], map[]);
      score := 0;
    }

    function View(): RowValue
      reads this
    {
      RowValue(fields, score)
    }

    method Put(key: string, value: Value)
      modifies this
      ensures fields == old(fields).Put(key, value)
      ensures score == old(score)
    {
      fields := fields.Put(key, value);
    }

    method PutAll(m: LinkedMap<Value>)
      modifies this
      ensures fields == old(fields).PutAll(m)
      ensures score == old(score)
    {
      fields := fields.PutAll(m);
    }

    /** size() counts the entries; the score is not one of them. */
    function Size(): (n: nat)
      reads this
      ensures n == |fields.vals|
    {
      fields.SizeIsEntryCount();
      |fields.keys|
    }

    /** The fluent setter `score(int)`: sets the score and returns the row itself. */
    method Score(s: Int32) returns (self: ExtractedRow)
      modifies this
      ensures self == this
      ensures score == s && fields == old(fields)
    {
      score := s;
      self := this;
    }

    method SetScore(totalScore: Int32)
      modifies this
      ensures score == totalScore && fields == old(fields)
    {
      score := totalScore;
    }

    function GetScore(): Int32
      reads this
    {
      score
    }

    /** getString: None (null) for a missing key, otherwise String.valueOf the value. */
    function GetString(o: Regex.Oracle, key: string): (r: Option<string>)
      reads this
      ensures r.None? <==> key !in fields.vals
      ensures r.Some? && fields.vals[key].Str? ==> r.value == fields.vals[key].s
      ensures r.Some? && fields.vals[key].Null? ==> r.value == "null"
      ensures r.Some? && fields.vals[key].Int? ==> r.value == IntToString(fields.vals[key].i)
      ensures r.Some? && fields.vals[key].Int? && fields.vals[key].i >= 0 ==>
        DigitsValue(r.value) == fields.vals[key].i
      ensures r.Some? && fields.vals[key].Dbl? ==> r.value == o.doubleToString(fields.vals[key].d)
    {
      if key in fields.vals then Some(fields.vals[key].AsString(o)) else None
    }

    /** getInteger: None for a missing key; a String value fails the cast to Number and
        a null value dereferences null. */
    function GetInteger(key: string): (r: Result<Option<Int32>, AccessError>)
      reads this
      ensures r == Ok(None) <==> key !in fields.vals
      ensures r.Err? <==> key in fields.vals && !fields.vals[key].IsNumber()
      ensures r.Ok? && r.value.Some? ==> r.value.value == fields.vals[key].IntValue()
      ensures key in fields.vals && fields.vals[key].Int? ==> r == Ok(Some(fields.vals[key].i))
    {
      if key !in fields.vals then Ok(None)
      else match fields.vals[key]
        case Str(_) => Err(ClassCast)
        case Null => Err(NullPointer)
        case v => Ok(Some(v.IntValue()))
    }

    /** getDouble: as getInteger, with Number.doubleValue(). */
    function GetDouble(key: string): (r: Result<Option<real>, AccessError>)
      reads this
      ensures r == Ok(None) <==> key !in fields.vals
      ensures r.Err? <==> key in fields.vals && !fields.vals[key].IsNumber()
      ensures r.Ok? && r.value.Some? ==> r.value.value == fields.vals[key].DoubleValue()
      ensures key in fields.vals && fields.vals[key].Dbl? ==> r == Ok(Some(fields.vals[key].d))
    {
      if key !in fields.vals then Ok(None)
      else match fields.vals[key]
        case Str(_) => Err(ClassCast)
        case Null => Err(NullPointer)
        case v => Ok(Some(v.DoubleValue()))
    }
  }

  /** The rows as values, in list order. */
  function Views(rows: seq<ExtractedRow>): (r: seq<RowValue>)
    reads rows
    ensures |r| == |rows|
    ensures forall i :: 0 <= i < |rows| ==> r[i] == rows[i].View()
    decreases |rows|
  {
    if rows == [] then [] else Views(rows[..|rows| - 1]) + [rows[|rows| - 1].View()]
  }

  lemma ViewsAppend(rows: seq<ExtractedRow>, row: ExtractedRow)
    ensures Views(rows + [row]) == Views(rows) + [row.View()]
  {
    assert (rows + [row])[..|rows|] == rows;
  }
}
