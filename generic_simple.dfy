/** extractRow and extractSimple: one row per text block, kept when it scores
    enough and has every required field. */
module GenericSimple {
  import opened Wrappers
  import opened JavaText
  import opened Regex
  import opened Entities
  import opened ExtractedRows
  import opened GenericFields
  import opened GenericSegmentation

  /** The row extractRow builds from a block: the block's definitions in sort order,
      each contributing its parsed value under its name and its weight to the score. */
  function RowOf(o: Oracle, blockText: string, defs: seq<FieldDef>, cityMappings: map<string, string>): RowValue {
    var filled := FillFields(o, blockText, Normalize(blockText), SortBySortOrder(defs), cityMappings);
    RowValue(filled.0, filled.1)
  }

  /** How extractSimple decides whether to keep a row. */
  predicate Accepted(row: RowValue, minScore: Int32, defs: seq<FieldDef>) {
    row.score >= minScore && PassesRequiredCheck(row.fields, defs)
  }

  /** The row of each block, in block order. */
  function BlockRows(o: Oracle, blocks: seq<string>, defs: seq<FieldDef>, cityMappings: map<string, string>): (r: seq<RowValue>)
    ensures |r| == |blocks|
    ensures forall i :: 0 <= i < |blocks| ==> r[i] == RowOf(o, blocks[i], defs, cityMappings)
  {
    seq(|blocks|, i requires 0 <= i < |blocks| => RowOf(o, blocks[i], defs, cityMappings))
  }

  /** The accepted rows, in order. */
  function KeptRows(rows: seq<RowValue>, minScore: Int32, defs: seq<FieldDef>): seq<RowValue>
    decreases |rows|
  {
    if rows == [] then []
    else
      var n := |rows| - 1;
      KeptRows(rows[..n], minScore, defs) + (if Accepted(rows[n], minScore, defs) then [rows[n]] else [])
  }

  /** What extractSimple returns. */
  function SimpleRows(o: Oracle, text: string, config: BlockConfig, defs: seq<FieldDef>,
                      cityMappings: map<string, string>): seq<RowValue> {
    KeptRows(BlockRows(o, SegmentText(o, text, config), defs, cityMappings), config.minScore, defs)
  }

  // ─── properties ──────────────────────────────────────────────────────────

  /** A row holds exactly the names of the block's definitions that yield a parsed
      value, whatever their sort order. */
  lemma RowOfKeys(o: Oracle, blockText: string, defs: seq<FieldDef>, cityMappings: map<string, string>, k: string)
    ensures k in RowOf(o, blockText, defs, cityMappings).fields.vals <==>
      exists d :: d in defs && d.fieldName == k && ParsedField(o, blockText, Normalize(blockText), d, cityMappings).Some?
  {
    var sorted := SortBySortOrder(defs);
    var norm := Normalize(blockText);
    var contribs := Contributions(o, blockText, norm, sorted, cityMappings);
    assert RowOf(o, blockText, defs, cityMappings).fields == FillFold(sorted, contribs).0;
    FillFoldKeys(sorted, contribs);
    SortBySortOrderSorted(defs);
    if k in FillFold(sorted, contribs).0.vals {
      var i :| 0 <= i < |sorted| && sorted[i].fieldName == k && contribs[i].Some?;
      ContributorParses(o, blockText, norm, sorted, cityMappings, i);
      assert sorted[i] in defs;
    }
    if exists d :: d in defs && d.fieldName == k && ParsedField(o, blockText, norm, d, cityMappings).Some? {
      var d :| d in defs && d.fieldName == k && ParsedField(o, blockText, norm, d, cityMappings).Some?;
      ContributorIndex(o, blockText, norm, sorted, cityMappings, d);
    }
  }

  lemma ContributorParses(o: Oracle, blockText: string, norm: string, sorted: seq<FieldDef>,
                          cityMappings: map<string, string>, i: nat)
    requires i < |sorted| && Contributions(o, blockText, norm, sorted, cityMappings)[i].Some?
    ensures ParsedField(o, blockText, norm, sorted[i], cityMappings).Some?
  {
  }

  lemma ContributorIndex(o: Oracle, blockText: string, norm: string, sorted: seq<FieldDef>,
                         cityMappings: map<string, string>, d: FieldDef)
    requires d in sorted && ParsedField(o, blockText, norm, d, cityMappings).Some?
    ensures exists i :: 0 <= i < |sorted| && sorted[i].fieldName == d.fieldName && Contributions(o, blockText, norm, sorted, cityMappings)[i].Some?
  {
    var i :| 0 <= i < |sorted| && sorted[i] == d;
    assert Contributions(o, blockText, norm, sorted, cityMappings)[i].Some?;
  }

  /** A row's score is the summed weight of the contributing definitions, wrapped to
      32 bits like Java's `int`. */
  lemma RowOfScore(o: Oracle, blockText: string, defs: seq<FieldDef>, cityMappings: map<string, string>)
    ensures RowOf(o, blockText, defs, cityMappings).score ==
      Wrap32(ContributedWeight(SortBySortOrder(defs),
                               Contributions(o, blockText, Normalize(blockText), SortBySortOrder(defs), cityMappings)))
  {
    var sorted := SortBySortOrder(defs);
    FillFoldScore(sorted, Contributions(o, blockText, Normalize(blockText), sorted, cityMappings));
  }

  /** The kept rows are a subsequence of the rows holding exactly the accepted ones:
      no more of them than rows, each kept row accepted, every accepted row kept. */
  lemma {:induction false} KeptRowsExactly(rows: seq<RowValue>, minScore: Int32, defs: seq<FieldDef>)
    ensures |KeptRows(rows, minScore, defs)| <= |rows|
    ensures forall r :: r in KeptRows(rows, minScore, defs) <==> r in rows && Accepted(r, minScore, defs)
    decreases |rows|
  {
    if rows != [] {
      var n := |rows| - 1;
      KeptRowsExactly(rows[..n], minScore, defs);
      assert rows == rows[..n] + [rows[n]];
    }
  }

  /** Every row of extractSimple is the row of one of the segments and is accepted,
      and the accepted row of every segment is among them. */
  lemma SimpleRowsExactly(o: Oracle, text: string, config: BlockConfig, defs: seq<FieldDef>,
                          cityMappings: map<string, string>, r: RowValue)
    ensures r in SimpleRows(o, text, config, defs, cityMappings) <==>
      Accepted(r, config.minScore, defs) &&
      exists i :: 0 <= i < |SegmentText(o, text, config)| && r == RowOf(o, SegmentText(o, text, config)[i], defs, cityMappings)
  {
    var blocks := SegmentText(o, text, config);
    var rows := BlockRows(o, blocks, defs, cityMappings);
    KeptRowsExactly(rows, config.minScore, defs);
    if r in rows {
      var i :| 0 <= i < |rows| && rows[i] == r;
    }
    if exists i :: 0 <= i < |blocks| && r == RowOf(o, blocks[i], defs, cityMappings) {
      var i :| 0 <= i < |blocks| && r == RowOf(o, blocks[i], defs, cityMappings);
      assert rows[i] == r;
    }
  }

  // ─── the methods ─────────────────────────────────────────────────────────

  /** extractRow: fills a new row from the block's definitions in sort order. */
  method ExtractRow(o: Oracle, blockText: string, fieldDefs: seq<FieldDef>, cityMappings: map<string, string>)
    returns (row: ExtractedRow)
    ensures fresh(row)
    ensures row.View() == RowOf(o, blockText, fieldDefs, cityMappings)
  {
    row := new ExtractedRow();
    var sorted := SortBySortOrder(fieldDefs);
    var normalized := Normalize(blockText);
    var contribs := Contributions(o, blockText, normalized, sorted, cityMappings);
    var totalScore := PutContributions(row, sorted, contribs);
    row.SetScore(totalScore);
  }

  lemma KeptRowsStep(rows: seq<RowValue>, minScore: Int32, defs: seq<FieldDef>, i: nat)
    requires i < |rows|
    ensures KeptRows(rows[..i + 1], minScore, defs) ==
      KeptRows(rows[..i], minScore, defs) + (if Accepted(rows[i], minScore, defs) then [rows[i]] else [])
  {
    assert rows[..i + 1][..i] == rows[..i];
  }

  /** One iteration of extractSimple: the block's row, appended when accepted. */
  method KeepRowIfAccepted(o: Oracle, block: string, fieldDefs: seq<FieldDef>, cityMappings: map<string, string>,
                           minScore: Int32, rows: seq<ExtractedRow>) returns (rowsOut: seq<ExtractedRow>)
    ensures var r := RowOf(o, block, fieldDefs, cityMappings);
      Views(rowsOut) == Views(rows) + (if Accepted(r, minScore, fieldDefs) then [r] else [])
  {
    var row := ExtractRow(o, block, fieldDefs, cityMappings);
    var score := row.GetScore();
    if score >= minScore && PassesRequiredCheck(row.fields, fieldDefs) {
      ViewsAppend(rows, row);
      rowsOut := rows + [row];
    } else {
      rowsOut := rows;
    }
  }

  /** The loop of extractSimple over the segments. */
  method ExtractBlockRows(o: Oracle, textBlocks: seq<string>, minScore: Int32, fieldDefs: seq<FieldDef>,
                          cityMappings: map<string, string>) returns (rows: seq<ExtractedRow>)
    ensures Views(rows) == KeptRows(BlockRows(o, textBlocks, fieldDefs, cityMappings), minScore, fieldDefs)
  {
    ghost var blockRows := BlockRows(o, textBlocks, fieldDefs, cityMappings);
    rows := [];
    for i := 0 to |textBlocks|
      invariant Views(rows) == KeptRows(blockRows[..i], minScore, fieldDefs)
    {
      KeptRowsStep(blockRows, minScore, fieldDefs, i);
      rows := KeepRowIfAccepted(o, textBlocks[i], fieldDefs, cityMappings, minScore, rows);
    }
    assert blockRows[..|blockRows|] == blockRows;
  }

  /** extractSimple: one row per segment, kept when accepted. */
  method ExtractSimple(o: Oracle, pdfText: string, blockConfig: BlockConfig, fieldDefs: seq<FieldDef>,
                       cityMappings: map<string, string>) returns (rows: seq<ExtractedRow>)
    ensures Views(rows) == SimpleRows(o, pdfText, blockConfig, fieldDefs, cityMappings)
  {
    var textBlocks := SegmentTextImproved(o, pdfText, blockConfig);
    rows := ExtractBlockRows(o, textBlocks, blockConfig.minScore, fieldDefs, cityMappings);
  }
}
