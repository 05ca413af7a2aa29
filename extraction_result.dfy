/** ExtractionResult: the per-block rows of one extraction, with its accuracy. */
module ExtractionResults {
  import opened Wrappers
  import opened ExtractedRows

  /** An ExtractionResult as a value, its rows as RowValues. */
  datatype ResultValue = ResultValue(
    tenantKey: Option<string>,
    tenantName: Option<string>,
    blocks: LinkedMap<seq<RowValue>>,
    qrFinalAmount: Option<real>,
    accuracy: real,
    warnings: seq<string>,
    status: string)

  // ─── accuracy ────────────────────────────────────────────────────────────

  function NonNullCount(vs: seq<Value>): (n: nat)
    ensures n <= |vs|
    ensures n == |vs| <==> forall i :: 0 <= i < |vs| ==> !vs[i].Null?
    decreases |vs|
  {
    if vs == [] then 0 else NonNullCount(vs[..|vs| - 1]) + (if vs[|vs| - 1].Null? then 0 else 1)
  }

  /** Every value of every row of every block, in iteration order. */
  function AllValues(blocks: seq<seq<RowValue>>): seq<Value>
    decreases |blocks|
  {
    if blocks == [] then [] else AllValues(blocks[..|blocks| - 1]) + RowValues(blocks[|blocks| - 1])
  }

  function RowValues(rows: seq<RowValue>): seq<Value>
    decreases |rows|
  {
    if rows == [] then [] else RowValues(rows[..|rows| - 1]) + rows[|rows| - 1].fields.Values()
  }

  /** `totalFields == 0 ? 0.0 : (presentFields * 100.0) / totalFields`, exactly. */
  function Percent(part: nat, whole: nat): real {
    if whole == 0 then 0.0 else (part as real * 100.0) / (whole as real)
  }

  /** The percentage of non-null values, 0 when there are none: what
      calculateAccuracy stores, taken exactly rather than as a double. */
  function Accuracy(values: seq<Value>): real {
    Percent(NonNullCount(values), |values|)
  }

  /** The accuracy is a percentage: 0 for no values, 100 when none is null, 0 when
      all are null. */
  lemma AccuracyBounds(values: seq<Value>)
    ensures 0.0 <= Accuracy(values) <= 100.0
    ensures values == [] ==> Accuracy(values) == 0.0
    ensures values != [] && (forall i :: 0 <= i < |values| ==> !values[i].Null?) ==> Accuracy(values) == 100.0
    ensures values != [] && (forall i :: 0 <= i < |values| ==> values[i].Null?) ==> Accuracy(values) == 0.0
  {
    if values != [] {
      PercentBound(NonNullCount(values), |values|);
      if forall i :: 0 <= i < |values| ==> values[i].Null? {
        NoneNonNull(values);
      }
    }
  }

  lemma PercentBound(part: nat, whole: nat)
    requires 0 < whole && part <= whole
    ensures 0.0 <= (part as real * 100.0) / (whole as real) <= 100.0
  {
    var p, w := part as real, whole as real;
    var a := (p * 100.0) / w;
    assert a * w == p * 100.0;
    assert (a - 100.0) * w == p * 100.0 - w * 100.0;
    assert (a - 100.0) * w <= 0.0;
    assert a * w >= 0.0;
  }

  lemma {:induction false} NoneNonNull(vs: seq<Value>)
    requires forall i :: 0 <= i < |vs| ==> vs[i].Null?
    ensures NonNullCount(vs) == 0
    decreases |vs|
  {
    if vs != [] {
      NoneNonNull(vs[..|vs| - 1]);
    }
  }

  function AccuracyOf(blocks: LinkedMap<seq<RowValue>>): real {
    Accuracy(AllValues(blocks.Values()))
  }

  /** The state `ExtractionResult.empty(reason)` builds. */
  function EmptyResult(reason: string): ResultValue {
    ResultValue(None, None, OrderedMap([], map[]), None, 0.0, [reason], "EMPTY")
  }

  lemma NonNullCountStep(vs: seq<Value>, v: nat)
    requires v < |vs|
    ensures NonNullCount(vs[..v + 1]) == NonNullCount(vs[..v]) + (if vs[v].Null? then 0 else 1)
  {
    assert vs[..v + 1][..v] == vs[..v];
  }

  lemma AllValuesStep(views: seq<seq<RowValue>>, b: nat)
    requires b < |views|
    ensures AllValues(views[..b + 1]) == AllValues(views[..b]) + RowValues(views[b])
  {
    assert views[..b + 1][..b] == views[..b];
  }

  lemma RowValuesStep(rows: seq<RowValue>, r: nat)
    requires r < |rows|
    ensures RowValues(rows[..r + 1]) == RowValues(rows[..r]) + rows[r].fields.Values()
  {
    assert rows[..r + 1][..r] == rows[..r];
  }

  lemma {:induction false} NonNullCountConcat(a: seq<Value>, b: seq<Value>)
    ensures NonNullCount(a + b) == NonNullCount(a) + NonNullCount(b)
    decreases |b|
  {
    if b != [] {
      NonNullCountConcat(a, b[..|b| - 1]);
      assert (a + b)[..|a + b| - 1] == a + b[..|b| - 1];
    } else {
      assert a + b == a;
    }
  }

  class ExtractionResult {
    var tenantKey: Option<string>
    var tenantName: Option<string>
    var blockResults: LinkedMap<seq<RowValue>>
    var qrFinalAmount: Option<real>
    var accuracy: real
    var warnings: seq<string>
    var status: string

    /** A new result: "SUCCESS", no blocks, no warnings. */
    constructor()
      ensures View() == ResultValue(None, None, OrderedMap([], map[]), None, 0.0, [], "SUCCESS")
    {
      tenantKey := None;
      tenantName := None;
      blockResults := OrderedMap([], map[]);
      qrFinalAmount := None;
      accuracy := 0.0;
      warnings := [];
      status := "SUCCESS";
    }

    function View(): ResultValue
      reads this
    {
      ResultValue(tenantKey, tenantName, blockResults, qrFinalAmount, accuracy, warnings, status)
    }

    /** "EMPTY" with the one warning `reason` and accuracy 0. */
    static method Empty(reason: string) returns (r: ExtractionResult)
      ensures fresh(r)
      ensures r.View() == EmptyResult(reason)
    {
      r := new ExtractionResult();
      r.status := "EMPTY";
      r.warnings := r.warnings + [reason];
      r.accuracy := 0.0;
    }

    /** `getBlockResults().put(name, rows)`. */
    method PutBlock(name: string, rows: seq<RowValue>)
      modifies this
      ensures View() == old(View()).(blocks := old(blockResults).Put(name, rows))
    {
      blockResults := blockResults.Put(name, rows);
    }

    /** Counts, over every value of every row of every block, the values and the
        non-null ones, and stores their percentage. */
    method CalculateAccuracy()
      modifies this
      ensures View() == old(View()).(accuracy := AccuracyOf(blockResults))
    {
      var totalFields := 0;
      var presentFields := 0;
      var blocks := blockResults.Values();
      for b := 0 to |blocks|
        modifies {}
        invariant totalFields == |AllValues(blocks[..b])|
        invariant presentFields == NonNullCount(AllValues(blocks[..b]))
      {
        var rows := blocks[b];
        ghost var done := AllValues(blocks[..b]);
        for r := 0 to |rows|
          invariant totalFields == |done| + |RowValues(rows[..r])|
          invariant presentFields == NonNullCount(done) + NonNullCount(RowValues(rows[..r]))
        {
          var values := rows[r].fields.Values();
          for v := 0 to |values|
            invariant totalFields == |done| + |RowValues(rows[..r])| + v
            invariant presentFields == NonNullCount(done) + NonNullCount(RowValues(rows[..r])) + NonNullCount(values[..v])
          {
            NonNullCountStep(values, v);
            totalFields := totalFields + 1;
            if values[v] != Null {
              presentFields := presentFields + 1;
            }
          }
          assert totalFields == |done| + |RowValues(rows[..r + 1])|
              && presentFields == NonNullCount(done) + NonNullCount(RowValues(rows[..r + 1])) by {
            assert values[..|values|] == values;
            RowValuesStep(rows, r);
            NonNullCountConcat(RowValues(rows[..r]), values);
          }
        }
        assert totalFields == |AllValues(blocks[..b + 1])|
            && presentFields == NonNullCount(AllValues(blocks[..b + 1])) by {
          assert rows[..|rows|] == rows;
          AllValuesStep(blocks, b);
          NonNullCountConcat(done, RowValues(rows));
        }
      }
      assert blocks[..|blocks|] == blocks;
      accuracy := Percent(presentFields, totalFields);
    }
  }
}
