/** extractWithContext and flushDataRow: a line-by-line scan that keeps a map of
    context values (a city, a date range) and a buffer of the lines of the row being
    built, and emits each buffered row with the context merged in. */
module GenericContext {
  import opened Wrappers
  import opened JavaText
  import opened Regex
  import opened Entities
  import opened ExtractedRows
  import opened GenericFields

  // ─── flushDataRow ────────────────────────────────────────────────────────

  /** Too short to be data, or a table header or page footer. */
  predicate IsNonDataText(o: Oracle, text: string) {
    |text| < 3 || IsHeaderLine(o, text) || IsFooterLine(o, text)
  }

  /** What the data fields contribute to a row built from `text`; there is no
      city-name mapping for data fields here. */
  function DataContributions(o: Oracle, text: string, dataFields: seq<FieldDef>): (r: seq<Option<Value>>)
    ensures |r| == |dataFields|
  {
    Contributions(o, text, Normalize(text), dataFields, map[])
  }

  /** The row flushDataRow builds from the trimmed buffer text: the data fields, the
      derived `fct`, then the context entries; the score counts the data fields only. */
  function ContextRow(o: Oracle, text: string, dataFields: seq<FieldDef>, context: LinkedMap<Value>): RowValue {
    var filled := FillFold(dataFields, DataContributions(o, text, dataFields));
    RowValue(WithFct(filled.0).PutAll(context), filled.1)
  }

  /** More entries than the context alone, or an `amount`. */
  predicate HasData(row: RowValue, context: LinkedMap<Value>) {
    |row.fields.vals| > |context.vals| || "amount" in row.fields.vals
  }

  /** The rows flushDataRow appends for a buffer: none or one. */
  function FlushOut(o: Oracle, buffer: string, dataFields: seq<FieldDef>, context: LinkedMap<Value>,
                    minScore: Int32): seq<RowValue>
  {
    var text := Trim(buffer);
    if IsNonDataText(o, text) then []
    else
      var row := ContextRow(o, text, dataFields, context);
      if HasData(row, context) && row.score >= minScore then [row] else []
  }

  /** A flush yields at most one row, and yields one exactly when the trimmed text
      is data and the row built from it has data and scores at least `minScore`. */
  lemma FlushOutSpec(o: Oracle, buffer: string, dataFields: seq<FieldDef>, context: LinkedMap<Value>, minScore: Int32)
    ensures var out := FlushOut(o, buffer, dataFields, context, minScore);
      var text := Trim(buffer);
      var row := ContextRow(o, text, dataFields, context);
      && |out| <= 1
      && (out != [] <==> !IsNonDataText(o, text) && HasData(row, context) && row.score >= minScore)
      && (out != [] ==> out[0] == row && out[0].score >= minScore)
  {
    var text := Trim(buffer);
    var row := ContextRow(o, text, dataFields, context);
    var keep := !IsNonDataText(o, text) && HasData(row, context) && row.score >= minScore;
    AtMostOneRow(FlushOut(o, buffer, dataFields, context, minScore), keep, row);
  }

  lemma AtMostOneRow(out: seq<RowValue>, keep: bool, row: RowValue)
    requires out == if keep then [row] else []
    ensures |out| <= 1 && (out != [] <==> keep) && (out != [] ==> out[0] == row)
  {
  }

  /** The row's score is the wrapped sum of the weights of the data fields that
      were put, whatever the context holds; every context entry is in the row with
      the context's value, and every other entry is the one the data fields (and the
      `fct` rule) produced. */
  lemma ContextRowSpec(o: Oracle, text: string, dataFields: seq<FieldDef>, context: LinkedMap<Value>)
    ensures var contribs := DataContributions(o, text, dataFields);
      var data := WithFct(FillFold(dataFields, contribs).0);
      var row := ContextRow(o, text, dataFields, context);
      && row.score == Wrap32(ContributedWeight(dataFields, contribs))
      && row.fields.vals.Keys == data.vals.Keys + context.vals.Keys
      && (forall k :: k in context.vals ==> row.fields.vals[k] == context.vals[k])
      && (forall k :: k in data.vals && k !in context.vals ==> row.fields.vals[k] == data.vals[k])
  {
    FillFoldScore(dataFields, DataContributions(o, text, dataFields));
  }

  /** A buffer whose trimmed text has fewer than three characters yields no row. */
  lemma ShortBufferYieldsNothing(o: Oracle, buffer: string, dataFields: seq<FieldDef>, context: LinkedMap<Value>, minScore: Int32)
    requires |Trim(buffer)| < 3
    ensures FlushOut(o, buffer, dataFields, context, minScore) == []
  {
  }

  /** Raising the minimum score above a flushed row's score drops it; lowering it
      keeps it. */
  lemma FlushOutMonotoneInMinScore(o: Oracle, buffer: string, dataFields: seq<FieldDef>, context: LinkedMap<Value>,
                                   lo: Int32, hi: Int32)
    requires lo <= hi
    ensures FlushOut(o, buffer, dataFields, context, hi) != [] ==>
      FlushOut(o, buffer, dataFields, context, lo) == FlushOut(o, buffer, dataFields, context, hi)
  {
  }

  /** The row's `fct` entry: the context's when the context has one; otherwise the
      data field's when one was put; otherwise spots × duration (wrapped to 32 bits),
      present only when both are numbers with positive int values. */
  lemma FctOfContextRow(o: Oracle, text: string, dataFields: seq<FieldDef>, context: LinkedMap<Value>)
    ensures var filled := FillFold(dataFields, DataContributions(o, text, dataFields)).0;
      var row := ContextRow(o, text, dataFields, context);
      && ("fct" in context.vals ==> row.fields.vals["fct"] == context.vals["fct"])
      && ("fct" !in context.vals && "fct" in filled.vals ==> row.fields.vals["fct"] == filled.vals["fct"])
      && ("fct" !in context.vals && "fct" !in filled.vals ==>
            ("fct" in row.fields.vals <==> FctValue(filled).Some?)
            && (FctValue(filled).Some? ==> row.fields.vals["fct"] == FctValue(filled).value))
  {
  }

  /** The loop over the data fields of flushDataRow, the `fct` rule, the context merge
      and the acceptance test; a kept row is appended to `rows`. */
  method FlushDataRow(o: Oracle, buffer: string, rows: seq<ExtractedRow>, dataFields: seq<FieldDef>,
                      context: LinkedMap<Value>, minScore: Int32) returns (rowsOut: seq<ExtractedRow>)
    ensures Views(rowsOut) == Views(rows) + FlushOut(o, buffer, dataFields, context, minScore)
  {
    rowsOut := rows;
    var text := Trim(buffer);
    if |buffer| == 0 || |text| < 3 || IsHeaderLine(o, text) || IsFooterLine(o, text) {
      FlushOutOfNonData(o, buffer, dataFields, context, minScore);
      AppendNothing(Views(rows));
      return;
    }
    var row, score := BuildDataRow(o, text, dataFields, context);
    ghost var value := row.View();
    assert Views(rows) == old(Views(rows));
    var hasData := row.Size() > |context.vals| || "amount" in row.fields.vals;
    FlushOutOfRow(o, buffer, dataFields, context, minScore, value, hasData && score >= minScore);
    if hasData && score >= minScore {
      ViewsAppend(rows, row);
      rowsOut := rows + [row];
    } else {
      AppendNothing(Views(rows));
    }
  }

  lemma AppendNothing<T>(s: seq<T>)
    ensures s + [] == s
  {
  }

  lemma FlushOutOfNonData(o: Oracle, buffer: string, dataFields: seq<FieldDef>, context: LinkedMap<Value>, minScore: Int32)
    requires |buffer| == 0 || IsNonDataText(o, Trim(buffer))
    ensures FlushOut(o, buffer, dataFields, context, minScore) == []
  {
  }

  lemma FlushOutOfData(o: Oracle, buffer: string, dataFields: seq<FieldDef>, context: LinkedMap<Value>, minScore: Int32)
    requires !IsNonDataText(o, Trim(buffer))
    ensures var row := ContextRow(o, Trim(buffer), dataFields, context);
      FlushOut(o, buffer, dataFields, context, minScore) == if HasData(row, context) && row.score >= minScore then [row] else []
  {
  }

  lemma FlushOutOfRow(o: Oracle, buffer: string, dataFields: seq<FieldDef>, context: LinkedMap<Value>, minScore: Int32,
                      value: RowValue, keep: bool)
    requires !IsNonDataText(o, Trim(buffer))
    requires value == ContextRow(o, Trim(buffer), dataFields, context)
    requires keep == (HasData(value, context) && value.score >= minScore)
    ensures FlushOut(o, buffer, dataFields, context, minScore) == if keep then [value] else []
  {
    FlushOutOfData(o, buffer, dataFields, context, minScore);
  }

  /** The row flushDataRow builds before deciding whether to keep it. */
  method BuildDataRow(o: Oracle, text: string, dataFields: seq<FieldDef>, context: LinkedMap<Value>)
    returns (row: ExtractedRow, score: Int32)
    ensures fresh(row)
    ensures row.View() == ContextRow(o, text, dataFields, context) && score == row.score
  {
    row := new ExtractedRow();
    var contribs := DataContributions(o, text, dataFields);
    score := PutContributions(row, dataFields, contribs);
    ghost var filled := FillFold(dataFields, contribs);
    var fct := FctValue(row.fields);
    if fct.Some? {
      row.Put("fct", fct.value);
    }
    assert row.fields == WithFct(filled.0);
    var _ := row.Score(score);
    row.PutAll(context);
  }

  // ─── context detection ───────────────────────────────────────────────────

  /** The index of the first present entry, if any. */
  function FirstIndex(s: seq<Option<string>>): (r: Option<nat>)
    ensures r.Some? ==> r.value < |s| && s[r.value].Some?
    decreases |s|
  {
    if s == [] then None
    else if s[0].Some? then Some(0)
    else match FirstIndex(s[1..])
      case Some(k) => Some(k + 1)
      case None => None
  }

  /** FirstIndex finds the first present entry, and nothing when all are absent. */
  lemma {:induction false} FirstIndexSpec(s: seq<Option<string>>)
    ensures FirstIndex(s).None? <==> forall j :: 0 <= j < |s| ==> s[j].None?
    ensures FirstIndex(s).Some? ==>
      s[FirstIndex(s).value].Some? && forall j :: 0 <= j < FirstIndex(s).value ==> s[j].None?
    decreases |s|
  {
    if s != [] && s[0].None? {
      FirstIndexSpec(s[1..]);
      assert forall j :: 1 <= j < |s| ==> s[j] == s[1..][j - 1];
    }
  }

  /** What each context field extracts from a line, in order. */
  function Extractions(o: Oracle, line: string, fields: seq<FieldDef>): (r: seq<Option<string>>)
    ensures |r| == |fields|
    ensures forall k :: 0 <= k < |fields| ==> r[k] == TryExtractFieldIn(o, line, fields[k])
  {
    seq(|fields|, k requires 0 <= k < |fields| => TryExtractFieldIn(o, line, fields[k]))
  }

  /** The value stored for a context field: the mapped name of a `cityName` found
      in a non-empty mapping table, else the value as extracted. */
  function ContextValue(fieldName: string, extracted: string, cityMappings: map<string, string>): (r: string)
    ensures fieldName == "cityName" && |cityMappings| > 0 && Trim(ToUpper(extracted)) in cityMappings ==>
      r == cityMappings[Trim(ToUpper(extracted))]
    ensures !(fieldName == "cityName" && |cityMappings| > 0 && Trim(ToUpper(extracted)) in cityMappings) ==>
      r == extracted
  {
    match CityLookup(fieldName, extracted, cityMappings)
    case Some(mapped) => mapped
    case None => extracted
  }

  /** The first context field that extracts a value from the line, with its value. */
  function ContextHit(o: Oracle, line: string, fields: seq<FieldDef>, cityMappings: map<string, string>): Option<(FieldDef, string)> {
    var ext := Extractions(o, line, fields);
    match FirstIndex(ext)
    case None => None
    case Some(k) => Some((fields[k], ContextValue(fields[k].fieldName, ext[k].value, cityMappings)))
  }

  /** Only the first context field, in the order given, that extracts a value counts;
      a line is a context line exactly when some context field extracts a value. */
  lemma ContextHitFirst(o: Oracle, line: string, fields: seq<FieldDef>, cityMappings: map<string, string>)
    ensures ContextHit(o, line, fields, cityMappings).None? <==>
      forall j :: 0 <= j < |fields| ==> TryExtractFieldIn(o, line, fields[j]).None?
    ensures ContextHit(o, line, fields, cityMappings).Some? ==>
      exists k :: 0 <= k < |fields|
        && ContextHit(o, line, fields, cityMappings).value.0 == fields[k]
        && TryExtractFieldIn(o, line, fields[k]).Some?
        && ContextHit(o, line, fields, cityMappings).value.1 ==
             ContextValue(fields[k].fieldName, TryExtractFieldIn(o, line, fields[k]).value, cityMappings)
        && forall j :: 0 <= j < k ==> TryExtractFieldIn(o, line, fields[j]).None?
  {
    ContextHitNone(o, line, fields, cityMappings);
    ContextHitSome(o, line, fields, cityMappings);
  }

  lemma ContextHitNone(o: Oracle, line: string, fields: seq<FieldDef>, cityMappings: map<string, string>)
    ensures ContextHit(o, line, fields, cityMappings).None? <==>
      forall j :: 0 <= j < |fields| ==> TryExtractFieldIn(o, line, fields[j]).None?
  {
    FirstIndexSpec(Extractions(o, line, fields));
  }

  lemma ContextHitSome(o: Oracle, line: string, fields: seq<FieldDef>, cityMappings: map<string, string>)
    ensures ContextHit(o, line, fields, cityMappings).Some? ==>
      exists k :: 0 <= k < |fields|
        && ContextHit(o, line, fields, cityMappings).value.0 == fields[k]
        && TryExtractFieldIn(o, line, fields[k]).Some?
        && ContextHit(o, line, fields, cityMappings).value.1 ==
             ContextValue(fields[k].fieldName, TryExtractFieldIn(o, line, fields[k]).value, cityMappings)
        && forall j :: 0 <= j < k ==> TryExtractFieldIn(o, line, fields[j]).None?
  {
    FirstIndexSpec(Extractions(o, line, fields));
  }

  lemma {:induction false} FirstIndexAt(s: seq<Option<string>>, k: nat)
    requires k < |s| && s[k].Some? && forall j :: 0 <= j < k ==> s[j].None?
    ensures FirstIndex(s) == Some(k)
    decreases k
  {
    if k > 0 {
      assert s[0].None?;
      assert forall j :: 0 <= j < k - 1 ==> s[1..][j] == s[j + 1];
      FirstIndexAt(s[1..], k - 1);
    }
  }

  /** The inner loop of extractWithContext over the sorted context fields, which
      stops at the first field that extracts a value. */
  method DetectContext(o: Oracle, line: string, contextFields: seq<FieldDef>, cityMappings: map<string, string>)
    returns (hit: Option<(FieldDef, string)>)
    ensures hit == ContextHit(o, line, contextFields, cityMappings)
  {
    var extractions := Extractions(o, line, contextFields);
    var first := FirstPresent(extractions);
    if first.None? {
      return None;
    }
    var k := first.value;
    var value := extractions[k].value;
    if contextFields[k].fieldName == "cityName" && |cityMappings| > 0 {
      var key := Trim(ToUpper(value));
      if key in cityMappings {
        value := cityMappings[key];
      }
    }
    return Some((contextFields[k], value));
  }

  /** The scan over the context fields' extractions that stops at the first one
      present. */
  method FirstPresent(extractions: seq<Option<string>>) returns (first: Option<nat>)
    ensures first == FirstIndex(extractions)
  {
    for k := 0 to |extractions|
      invariant forall j :: 0 <= j < k ==> extractions[j].None?
    {
      if extractions[k].Some? {
        FirstIndexAt(extractions, k);
        return Some(k);
      }
    }
    FirstIndexSpec(extractions);
    return None;
  }

  // ─── the scan ─────────────────────────────────────────────────────────

  /** What one line of the text is to the scan: blank, a context line (the field
      name, the value and whether it resets the context), or a data line (trimmed)
      with whether the row-start pattern finds in it. */
  datatype LineKind =
    | Blank
    | ContextLine(name: string, value: string, reset: bool)
    | DataLine(text: string, isRowStart: bool)

  /** The fixed inputs of one scan. */
  datatype ScanConfig = ScanConfig(
    contextFields: seq<FieldDef>,
    dataFields: seq<FieldDef>,
    rowStart: Option<Pattern>,
    minScore: Int32,
    cityMappings: map<string, string>)

  /** Steps 1 and 2 of a line of extractWithContext: a blank line, the first
      context field that extracts a value from the line (the value mapped for a
      city), or else a data line, trimmed, and whether it starts a row. */
  function Classify(o: Oracle, line: string, contextFields: seq<FieldDef>, rowStart: Option<Pattern>,
                    cityMappings: map<string, string>): (k: LineKind)
    ensures k.Blank? <==> Trim(line) == []
    ensures k.ContextLine? <==> Trim(line) != [] && ContextHit(o, line, contextFields, cityMappings).Some?
    ensures k.ContextLine? ==> var hit := ContextHit(o, line, contextFields, cityMappings).value;
      k == ContextLine(hit.0.fieldName, hit.1, hit.0.contextResetOnMatch)
    ensures k.DataLine? ==> k.text == Trim(line) && k.text != []
    ensures k.DataLine? && rowStart.None? ==> !k.isRowStart
    ensures k.DataLine? && rowStart.Some? ==> k.isRowStart == Finds(o, rowStart.value, k.text)
  {
    var t := Trim(line);
    if t == [] then Blank
    else match ContextHit(o, line, contextFields, cityMappings)
      case Some(hit) => ContextLine(hit.0.fieldName, hit.1, hit.0.contextResetOnMatch)
      case None => DataLine(t, rowStart.Some? && Finds(o, rowStart.value, t))
  }

  /** Each line, classified. */
  function Kinds(o: Oracle, c: ScanConfig, lines: seq<string>): (r: seq<LineKind>)
    ensures |r| == |lines|
    decreases |lines|
  {
    if lines == [] then []
    else
      var n := |lines| - 1;
      Kinds(o, c, lines[..n]) + [Classify(o, lines[n], c.contextFields, c.rowStart, c.cityMappings)]
  }

  lemma KindsSnoc(o: Oracle, c: ScanConfig, lines: seq<string>, i: nat)
    requires i < |lines|
    ensures Kinds(o, c, lines[..i + 1]) ==
      Kinds(o, c, lines[..i]) + [Classify(o, lines[i], c.contextFields, c.rowStart, c.cityMappings)]
  {
    assert lines[..i + 1][..i] == lines[..i];
  }

  /** The classification, line by line, in a method. */
  method ClassifyLine(o: Oracle, line: string, contextFields: seq<FieldDef>, rowStart: Option<Pattern>,
                      cityMappings: map<string, string>) returns (kind: LineKind)
    ensures kind == Classify(o, line, contextFields, rowStart, cityMappings)
  {
    var trimmed := Trim(line);
    if trimmed == [] {
      return Blank;
    }
    var hit := DetectContext(o, line, contextFields, cityMappings);
    if hit.Some? {
      return ContextLine(hit.value.0.fieldName, hit.value.1, hit.value.0.contextResetOnMatch);
    }
    var isRowStart := false;
    if rowStart.Some? {
      isRowStart := Finds(o, rowStart.value, trimmed);
    }
    return DataLine(trimmed, isRowStart);
  }

  /** A buffered row handed to flushDataRow: its lines and the context it is
      flushed under. */
  datatype Flush = Flush(lines: seq<string>, context: LinkedMap<Value>)

  /** The scan between two lines: the context, the flushes so far, and the trimmed
      lines accumulated since the last flush (the buffer joins them). */
  datatype CtxState = CtxState(context: LinkedMap<Value>, flushes: seq<Flush>, pending: seq<string>)

  const InitialState: CtxState := CtxState(OrderedMap([], map[]), [], [])

  /** One line of extractWithContext; `hasStart` says whether a row-start pattern
      compiled. */
  function CtxStep(hasStart: bool, st: CtxState, k: LineKind): CtxState {
    match k
    case Blank => st
    case ContextLine(name, value, reset) =>
      var flush := reset && st.pending != [];
      CtxState(st.context.Put(name, Str(value)),
               if flush then st.flushes + [Flush(st.pending, st.context)] else st.flushes,
               if flush then [] else st.pending)
    case DataLine(t, isRowStart) =>
      var flush := isRowStart && st.pending != [];
      var flushes := if flush then st.flushes + [Flush(st.pending, st.context)] else st.flushes;
      var pending := if flush then [] else st.pending;
      var accumulate := !hasStart || isRowStart || pending != [];
      CtxState(st.context, flushes, if accumulate then pending + [t] else pending)
  }

  function Scan(hasStart: bool, kinds: seq<LineKind>): CtxState
    decreases |kinds|
  {
    if kinds == [] then InitialState
    else CtxStep(hasStart, Scan(hasStart, kinds[..|kinds| - 1]), kinds[|kinds| - 1])
  }

  lemma ScanSnoc(hasStart: bool, kinds: seq<LineKind>, k: LineKind)
    ensures Scan(hasStart, kinds + [k]) == CtxStep(hasStart, Scan(hasStart, kinds), k)
  {
    assert (kinds + [k])[..|kinds|] == kinds;
  }

  /** The flushes of the whole text, the final one included. */
  function AllFlushes(hasStart: bool, kinds: seq<LineKind>): seq<Flush> {
    var st := Scan(hasStart, kinds);
    if st.pending != [] then st.flushes + [Flush(st.pending, st.context)] else st.flushes
  }

  /** The rows each flush appends. */
  function FlushOuts(o: Oracle, c: ScanConfig, flushes: seq<Flush>): (r: seq<seq<RowValue>>)
    ensures |r| == |flushes|
    ensures forall j :: 0 <= j < |flushes| ==>
      r[j] == FlushOut(o, Join(flushes[j].lines), c.dataFields, flushes[j].context, c.minScore)
  {
    seq(|flushes|, j requires 0 <= j < |flushes| =>
      FlushOut(o, Join(flushes[j].lines), c.dataFields, flushes[j].context, c.minScore))
  }

  lemma Snoc<T>(all: seq<T>, init: seq<T>, last: T)
    requires |all| == |init| + 1 && all[|init|] == last
    requires forall i :: 0 <= i < |init| ==> all[i] == init[i]
    ensures all == init + [last]
  {
  }

  lemma FlushOutsAppend(o: Oracle, c: ScanConfig, flushes: seq<Flush>, f: Flush)
    ensures Flatten(FlushOuts(o, c, flushes + [f])) ==
      Flatten(FlushOuts(o, c, flushes)) + FlushOut(o, Join(f.lines), c.dataFields, f.context, c.minScore)
  {
    var out := FlushOut(o, Join(f.lines), c.dataFields, f.context, c.minScore);
    var all, init := FlushOuts(o, c, flushes + [f]), FlushOuts(o, c, flushes);
    forall i | 0 <= i < |init| ensures all[i] == init[i] {
      assert (flushes + [f])[i] == flushes[i];
    }
    assert all[|init|] == out;
    Snoc(all, init, out);
    FlattenAppend(init, out);
  }

  /** The scan configuration extractWithContext derives from a block: the context
      and the data definitions, each sorted by sort order, and the start pattern. */
  function ScanConfigOf(o: Oracle, config: BlockConfig, allFieldDefs: seq<FieldDef>, cityMappings: map<string, string>): ScanConfig {
    ScanConfig(
      SortBySortOrder(FieldsWithContextFlag(allFieldDefs, true)),
      SortBySortOrder(FieldsWithContextFlag(allFieldDefs, false)),
      CompilePattern(o, config.blockStartPattern),
      config.minScore,
      cityMappings)
  }

  /** What extractWithContext returns. */
  function ContextRows(o: Oracle, text: string, config: BlockConfig, allFieldDefs: seq<FieldDef>,
                       cityMappings: map<string, string>): seq<RowValue> {
    var c := ScanConfigOf(o, config, allFieldDefs, cityMappings);
    Flatten(FlushOuts(o, c, AllFlushes(c.rowStart.Some?, Kinds(o, c, Split(text, '\n')))))
  }

  // ─── properties of one line ──────────────────────────────────────────────

  /** A line some context field extracts from is a context line: it never enters
      the buffer; it flushes the buffered row, under the context as it was before
      the line, exactly when its field resets the context and the buffer is not
      empty; then it sets that field's entry. */
  lemma ContextLineStep(o: Oracle, c: ScanConfig, st: CtxState, line: string)
    requires Trim(line) != []
    requires ContextHit(o, line, c.contextFields, c.cityMappings).Some?
    ensures var hit := ContextHit(o, line, c.contextFields, c.cityMappings).value;
      var next := CtxStep(c.rowStart.Some?, st, Classify(o, line, c.contextFields, c.rowStart, c.cityMappings));
      var flush := hit.0.contextResetOnMatch && st.pending != [];
      && next.context == st.context.Put(hit.0.fieldName, Str(hit.1))
      && next.flushes == st.flushes + (if flush then [Flush(st.pending, st.context)] else [])
      && next.pending == (if flush then [] else st.pending)
  {
  }

  /** A data line at a row start flushes a non-empty buffer under the current
      context and opens a new buffer with itself; any other data line joins a
      non-empty buffer, opens one when there is no start pattern, and is dropped
      otherwise. The context does not change. */
  lemma DataLineStep(o: Oracle, c: ScanConfig, st: CtxState, line: string)
    requires Trim(line) != []
    requires ContextHit(o, line, c.contextFields, c.cityMappings).None?
    ensures var t := Trim(line);
      var next := CtxStep(c.rowStart.Some?, st, Classify(o, line, c.contextFields, c.rowStart, c.cityMappings));
      var isRowStart := c.rowStart.Some? && Finds(o, c.rowStart.value, t);
      && next.context == st.context
      && (isRowStart ==>
            next.flushes == st.flushes + (if st.pending != [] then [Flush(st.pending, st.context)] else [])
            && next.pending == [t])
      && (!isRowStart ==> next.flushes == st.flushes)
      && (!isRowStart && (st.pending != [] || c.rowStart.None?) ==> next.pending == st.pending + [t])
      && (!isRowStart && st.pending == [] && c.rowStart.Some? ==> next.pending == [])
  {
  }

  // ─── properties of the whole scan ────────────────────────────────────────

  /** The buffered lines are trimmed and non-empty, and with a start pattern the
      first of them is a row start: lines before the first row start are dropped. */
  predicate PendingWellFormed(hasStart: bool, st: CtxState, kinds: seq<LineKind>) {
    && AllTrimmedNonEmpty(st.pending)
    && (hasStart && st.pending != [] ==> exists i :: 0 <= i < |kinds| && kinds[i] == DataLine(st.pending[0], true))
  }

  /** Every flush carries a non-empty buffer of trimmed lines. */
  predicate FlushesWellFormed(flushes: seq<Flush>) {
    forall j :: 0 <= j < |flushes| ==> flushes[j].lines != [] && AllTrimmedNonEmpty(flushes[j].lines)
  }

  lemma StepWellFormed(hasStart: bool, st: CtxState, kinds: seq<LineKind>, k: LineKind)
    requires PendingWellFormed(hasStart, st, kinds) && FlushesWellFormed(st.flushes)
    requires k.DataLine? ==> k.text != [] && IsTrimmed(k.text)
    requires k.DataLine? && !hasStart ==> !k.isRowStart
    ensures PendingWellFormed(hasStart, CtxStep(hasStart, st, k), kinds + [k])
    ensures FlushesWellFormed(CtxStep(hasStart, st, k).flushes)
  {
    var next := CtxStep(hasStart, st, k);
    var ks := kinds + [k];
    if hasStart && st.pending != [] {
      var i :| 0 <= i < |kinds| && kinds[i] == DataLine(st.pending[0], true);
      assert ks[i] == kinds[i];
    }
    if k.DataLine? {
      forall i | 0 <= i < |next.pending| ensures next.pending[i] != [] && IsTrimmed(next.pending[i]) {
        if i < |next.pending| - 1 {
          assert next.pending[i] == st.pending[i];
        }
      }
      if hasStart && next.pending != [] && (k.isRowStart || st.pending == []) {
        assert ks[|kinds|] == k;
      }
    }
  }

  /** What Classify guarantees of data lines. */
  predicate KindsWellFormed(hasStart: bool, kinds: seq<LineKind>) {
    forall i :: 0 <= i < |kinds| && kinds[i].DataLine? ==>
      kinds[i].text != [] && IsTrimmed(kinds[i].text) && (!hasStart ==> !kinds[i].isRowStart)
  }

  lemma {:induction false} ClassifiedKindsWellFormed(o: Oracle, c: ScanConfig, lines: seq<string>)
    ensures KindsWellFormed(c.rowStart.Some?, Kinds(o, c, lines))
    decreases |lines|
  {
    if lines != [] {
      ClassifiedKindsWellFormed(o, c, lines[..|lines| - 1]);
    }
  }

  /** Every buffered and every flushed line is a trimmed non-empty data line, and
      with a start pattern each buffer opened at a row start. */
  lemma {:induction false} ScanWellFormed(hasStart: bool, kinds: seq<LineKind>)
    requires KindsWellFormed(hasStart, kinds)
    ensures PendingWellFormed(hasStart, Scan(hasStart, kinds), kinds)
    ensures FlushesWellFormed(Scan(hasStart, kinds).flushes)
    decreases |kinds|
  {
    if kinds != [] {
      var n := |kinds| - 1;
      assert KindsWellFormed(hasStart, kinds[..n]) by {
        forall i | 0 <= i < n ensures kinds[..n][i] == kinds[i] { }
      }
      ScanWellFormed(hasStart, kinds[..n]);
      assert kinds == kinds[..n] + [kinds[n]];
      StepWellFormed(hasStart, Scan(hasStart, kinds[..n]), kinds[..n], kinds[n]);
    }
  }

  /** `after` keeps every key of `before` in place and may add keys at the end. */
  predicate ContextExtends(before: LinkedMap<Value>, after: LinkedMap<Value>) {
    && |before.keys| <= |after.keys|
    && after.keys[..|before.keys|] == before.keys
    && before.vals.Keys <= after.vals.Keys
  }

  lemma ContextExtendsTransitive(a: LinkedMap<Value>, b: LinkedMap<Value>, c: LinkedMap<Value>)
    requires ContextExtends(a, b) && ContextExtends(b, c)
    ensures ContextExtends(a, c)
  {
    assert c.keys[..|a.keys|] == c.keys[..|b.keys|][..|a.keys|];
  }

  lemma StepExtends(hasStart: bool, st: CtxState, k: LineKind)
    ensures ContextExtends(st.context, CtxStep(hasStart, st, k).context)
    ensures st.flushes <= CtxStep(hasStart, st, k).flushes
  {
  }

  /** Context keys are never removed or reordered, only added or overwritten, and
      flushes once made stay: the state after a prefix of the lines is extended by
      the state after all of them. */
  lemma {:induction false} ContextOnlyGrows(hasStart: bool, kinds: seq<LineKind>, i: nat)
    requires i <= |kinds|
    ensures ContextExtends(Scan(hasStart, kinds[..i]).context, Scan(hasStart, kinds).context)
    ensures Scan(hasStart, kinds[..i]).flushes <= Scan(hasStart, kinds).flushes
    decreases |kinds| - i
  {
    if i == |kinds| {
      assert kinds[..i] == kinds;
    } else {
      ContextOnlyGrows(hasStart, kinds, i + 1);
      assert kinds[..i + 1][..i] == kinds[..i];
      StepExtends(hasStart, Scan(hasStart, kinds[..i]), kinds[i]);
      ContextExtendsTransitive(Scan(hasStart, kinds[..i]).context, Scan(hasStart, kinds[..i + 1]).context,
                               Scan(hasStart, kinds).context);
    }
  }

  // ─── the method ──────────────────────────────────────────────────────────

  /** The loop's real state mirrors the scan state: the context map, the row
      objects' values (the rows of the flushes so far) and the buffer, which is the
      accumulated lines joined by single spaces. */
  predicate CtxMirrors(o: Oracle, c: ScanConfig, context: LinkedMap<Value>, views: seq<RowValue>,
                       buffer: string, pending: seq<string>, st: CtxState) {
    && st.context == context
    && st.pending == pending
    && views == Flatten(FlushOuts(o, c, st.flushes))
    && buffer == Join(pending)
    && AllTrimmedNonEmpty(pending)
  }

  lemma BufferEmptyIffNoLines(buffer: string, pending: seq<string>)
    requires buffer == Join(pending) && AllTrimmedNonEmpty(pending)
    ensures (|buffer| > 0) == (pending != [])
  {
    JoinTrimIdentity(pending);
  }

  /** The smart join of extractWithContext: the buffer ends, and the trimmed line
      begins, with a character that is not a space, so a single space is always
      inserted. */
  lemma SmartJoinIsSpace(buffer: string, pending: seq<string>, t: string)
    requires buffer == Join(pending) && AllTrimmedNonEmpty(pending) && pending != []
    requires t != [] && IsTrimmed(t)
    ensures |buffer| > 0 && buffer[|buffer| - 1] != ' ' && t[0] != ' '
    ensures buffer + " " + t == Join(pending + [t])
    ensures AllTrimmedNonEmpty(pending + [t])
  {
    JoinTrimIdentity(pending);
    JoinOfTrimmedIsTrimmed(pending);
    JoinAppend(pending, t);
    assert forall i :: 0 <= i < |pending| ==> (pending + [t])[i] == pending[i];
  }

  /** extractWithContext: the scan of the lines, then the flush of the last row. */
  method ExtractWithContext(o: Oracle, pdfText: string, blockConfig: BlockConfig, allFieldDefs: seq<FieldDef>,
                            cityMappings: map<string, string>) returns (rows: seq<ExtractedRow>)
    ensures Views(rows) == ContextRows(o, pdfText, blockConfig, allFieldDefs, cityMappings)
  {
    var contextFields := SortBySortOrder(FieldsWithContextFlag(allFieldDefs, true));
    var dataFields := SortBySortOrder(FieldsWithContextFlag(allFieldDefs, false));
    var rowStartPattern := CompilePattern(o, blockConfig.blockStartPattern);
    var lines := Split(pdfText, '\n');
    var c := ScanConfig(contextFields, dataFields, rowStartPattern, blockConfig.minScore, cityMappings);
    ContextRowsOfScan(o, pdfText, blockConfig, allFieldDefs, cityMappings, c);
    var currentContext, rowBuffer;
    ghost var pending;
    currentContext, rows, rowBuffer, pending := ScanLines(o, c, lines);
    BufferEmptyIffNoLines(rowBuffer, pending);
    if |rowBuffer| > 0 {
      rows := FlushDataRow(o, rowBuffer, rows, dataFields, currentContext, blockConfig.minScore);
      FlushOutsAppend(o, c, Scan(rowStartPattern.Some?, Kinds(o, c, lines)).flushes, Flush(pending, currentContext));
    }
  }

  /** The loop of extractWithContext over the lines. */
  method ScanLines(o: Oracle, c: ScanConfig, lines: seq<string>)
    returns (currentContext: LinkedMap<Value>, rows: seq<ExtractedRow>, rowBuffer: string, ghost pending: seq<string>)
    ensures CtxMirrors(o, c, currentContext, Views(rows), rowBuffer, pending, Scan(c.rowStart.Some?, Kinds(o, c, lines)))
  {
    currentContext := OrderedMap([], map[]);
    rows := [];
    rowBuffer := "";
    pending := [];
    ghost var kinds: seq<LineKind> := [];
    for i := 0 to |lines|
      invariant kinds == Kinds(o, c, lines[..i])
      invariant CtxMirrors(o, c, currentContext, Views(rows), rowBuffer, pending, Scan(c.rowStart.Some?, kinds))
    {
      KindsSnoc(o, c, lines, i);
      var kind := ClassifyLine(o, lines[i], c.contextFields, c.rowStart, c.cityMappings);
      ScanSnoc(c.rowStart.Some?, kinds, kind);
      currentContext, rows, rowBuffer, pending :=
        ScanLine(o, c, kind, currentContext, rows, rowBuffer, pending, Scan(c.rowStart.Some?, kinds));
      kinds := kinds + [kind];
    }
    assert lines[..|lines|] == lines;
  }

  lemma ContextRowsOfScan(o: Oracle, pdfText: string, blockConfig: BlockConfig, allFieldDefs: seq<FieldDef>,
                          cityMappings: map<string, string>, c: ScanConfig)
    requires c == ScanConfigOf(o, blockConfig, allFieldDefs, cityMappings)
    ensures ContextRows(o, pdfText, blockConfig, allFieldDefs, cityMappings) ==
      Flatten(FlushOuts(o, c, AllFlushes(c.rowStart.Some?, Kinds(o, c, Split(pdfText, '\n')))))
  {
  }

  /** Step 3 of extractWithContext for a classified line, with the flushes of steps
      1 and 2: the loop's state moves as CtxStep moves the scan's. */
  method ScanLine(o: Oracle, c: ScanConfig, kind: LineKind, context: LinkedMap<Value>, rows: seq<ExtractedRow>,
                  buffer: string, ghost pending: seq<string>, ghost st: CtxState)
    returns (contextOut: LinkedMap<Value>, rowsOut: seq<ExtractedRow>, bufferOut: string, ghost pendingOut: seq<string>)
    requires kind.DataLine? ==> kind.text != [] && IsTrimmed(kind.text)
    requires CtxMirrors(o, c, context, Views(rows), buffer, pending, st)
    ensures CtxMirrors(o, c, contextOut, Views(rowsOut), bufferOut, pendingOut, CtxStep(c.rowStart.Some?, st, kind))
  {
    contextOut, rowsOut, bufferOut, pendingOut := context, rows, buffer, pending;
    BufferEmptyIffNoLines(buffer, pending);
    match kind {
      case Blank =>
      case ContextLine(fieldName, extracted, reset) =>
        if reset && |buffer| > 0 {
          rowsOut := FlushDataRow(o, buffer, rows, c.dataFields, context, c.minScore);
          FlushOutsAppend(o, c, st.flushes, Flush(pending, context));
          bufferOut := "";
          pendingOut := [];
        }
        contextOut := context.Put(fieldName, Str(extracted));
      case DataLine(trimmed, isRowStart) =>
        if isRowStart && |buffer| > 0 {
          rowsOut := FlushDataRow(o, buffer, rows, c.dataFields, context, c.minScore);
          FlushOutsAppend(o, c, st.flushes, Flush(pending, context));
          bufferOut := "";
          pendingOut := [];
        }
        var shouldAccumulate := c.rowStart.None? || isRowStart || |bufferOut| > 0;
        if shouldAccumulate {
          SmartJoinSpec(o, pendingOut, trimmed);
          bufferOut := SmartJoin(o, bufferOut, trimmed);
          pendingOut := pendingOut + [trimmed];
        }
    }
  }

  /** The smart join of step 3: the trimmed line appended to the buffer, after a
      space when both sides are letters or digits, or when neither side is a
      space. */
  function SmartJoin(o: Oracle, buffer: string, trimmed: string): string
    requires trimmed != []
  {
    if |buffer| == 0 then trimmed
    else
      var lastChar := buffer[|buffer| - 1];
      var firstChar := trimmed[0];
      var sep := if o.isLetterOrDigit(lastChar) && o.isLetterOrDigit(firstChar) then " "
                 else if lastChar != ' ' && firstChar != ' ' then " "
                 else "";
      buffer + sep + trimmed
  }

  /** Whatever the oracle says of letters and digits, the smart join of trimmed
      lines is their join by single spaces. */
  lemma SmartJoinSpec(o: Oracle, pending: seq<string>, trimmed: string)
    requires AllTrimmedNonEmpty(pending)
    requires trimmed != [] && IsTrimmed(trimmed)
    ensures SmartJoin(o, Join(pending), trimmed) == Join(pending + [trimmed])
    ensures AllTrimmedNonEmpty(pending + [trimmed])
  {
    BufferEmptyIffNoLines(Join(pending), pending);
    if pending == [] {
      assert pending + [trimmed] == [trimmed];
    } else {
      SmartJoinIsSpace(Join(pending), pending, trimmed);
    }
  }
}
