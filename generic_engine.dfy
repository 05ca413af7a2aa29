/** GenericExtractionEngine.extract: preprocesses the text, then fills one block of
    the result per configured block that has field definitions, with the context
    scan when one of those definitions is a context field and the flat segmentation
    otherwise. */
module GenericEngine {
  import opened Wrappers
  import opened JavaText
  import opened Regex
  import opened Entities
  import opened Errors
  import opened ExtractedRows
  import opened GenericFields
  import opened TenantConfig
  import opened ExtractionResults
  import GenericSimple
  import GenericContext

  // ─── one block ───────────────────────────────────────────────────────────

  /** The rows of one block: the context scan when a definition of the block is a
      context field, the flat segmentation otherwise. */
  function BlockRows(o: Oracle, text: string, config: BlockConfig, fieldDefs: seq<FieldDef>,
                     cityMappings: map<string, string>): seq<RowValue> {
    if HasContextFields(fieldDefs) then GenericContext.ContextRows(o, text, config, fieldDefs, cityMappings)
    else GenericSimple.SimpleRows(o, text, config, fieldDefs, cityMappings)
  }

  /** What each configured block contributes to the result: nothing when the tenant
      has no field definition for it, its rows otherwise. */
  function BlockOutputs(o: Oracle, text: string, configs: seq<BlockConfig>, allFieldDefs: seq<FieldDef>,
                        cityMappings: map<string, string>): (r: seq<Option<seq<RowValue>>>)
    ensures |r| == |configs|
    ensures forall i :: 0 <= i < |configs| ==>
      r[i] == (var fieldDefs := FieldsOfBlock(allFieldDefs, configs[i].blockName);
               if fieldDefs == [] then None else Some(BlockRows(o, text, configs[i], fieldDefs, cityMappings)))
  {
    seq(|configs|, i requires 0 <= i < |configs| =>
      var fieldDefs := FieldsOfBlock(allFieldDefs, configs[i].blockName);
      if fieldDefs == [] then None else Some(BlockRows(o, text, configs[i], fieldDefs, cityMappings)))
  }

  /** The block results after the blocks in order, each output put under its
      block's name. */
  function PutBlocks(configs: seq<BlockConfig>, outs: seq<Option<seq<RowValue>>>): (r: LinkedMap<seq<RowValue>>)
    requires |outs| == |configs|
    ensures r.Valid()
    decreases |configs|
  {
    if configs == [] then OrderedMap([], map[])
    else
      var n := |configs| - 1;
      var prev := PutBlocks(configs[..n], outs[..n]);
      match outs[n]
      case None => prev
      case Some(rows) => prev.Put(configs[n].blockName, rows)
  }

  function BlockNames(configs: seq<BlockConfig>): (r: seq<string>)
    ensures |r| == |configs|
    ensures forall i :: 0 <= i < |configs| ==> r[i] == configs[i].blockName
  {
    seq(|configs|, i requires 0 <= i < |configs| => configs[i].blockName)
  }

  /** The names of the blocks that have an output, in block order. */
  function FilledNames(configs: seq<BlockConfig>, outs: seq<Option<seq<RowValue>>>): seq<string>
    requires |outs| == |configs|
    decreases |configs|
  {
    if configs == [] then []
    else
      var n := |configs| - 1;
      FilledNames(configs[..n], outs[..n]) + (if outs[n].Some? then [configs[n].blockName] else [])
  }

  /** With distinct block names, the result holds the blocks with an output in
      block order, each with its own rows. */
  lemma {:induction false} PutBlocksSpec(configs: seq<BlockConfig>, outs: seq<Option<seq<RowValue>>>)
    requires |outs| == |configs|
    requires forall i, j :: 0 <= i < j < |configs| ==> configs[i].blockName != configs[j].blockName
    ensures PutBlocks(configs, outs).keys == FilledNames(configs, outs)
    ensures forall i :: 0 <= i < |configs| && outs[i].Some? ==>
      configs[i].blockName in PutBlocks(configs, outs).vals && PutBlocks(configs, outs).vals[configs[i].blockName] == outs[i].value
    decreases |configs|
  {
    if configs != [] {
      var n := |configs| - 1;
      var cs, os := configs[..n], outs[..n];
      PutBlocksSpec(cs, os);
      FilledNamesHaveOutputs(cs, os);
      assert forall i :: 0 <= i < n ==> cs[i] == configs[i] && os[i] == outs[i];
      assert configs[n].blockName !in FilledNames(cs, os);
    }
  }

  /** Only blocks with an output are named. */
  lemma {:induction false} FilledNamesHaveOutputs(configs: seq<BlockConfig>, outs: seq<Option<seq<RowValue>>>)
    requires |outs| == |configs|
    ensures forall k :: k in FilledNames(configs, outs) ==>
      exists i :: 0 <= i < |configs| && outs[i].Some? && configs[i].blockName == k
    decreases |configs|
  {
    if configs != [] {
      var n := |configs| - 1;
      FilledNamesHaveOutputs(configs[..n], outs[..n]);
      assert forall i :: 0 <= i < n ==> configs[..n][i] == configs[i] && outs[..n][i] == outs[i];
    }
  }

  /** With distinct block names and an output exactly for the blocks that have field
      definitions, the result holds exactly those blocks, each with its output. */
  lemma BlocksOfOutputs(configs: seq<BlockConfig>, allFieldDefs: seq<FieldDef>, outs: seq<Option<seq<RowValue>>>)
    requires |outs| == |configs|
    requires forall i, j :: 0 <= i < j < |configs| ==> configs[i].blockName != configs[j].blockName
    requires forall i :: 0 <= i < |configs| ==> (outs[i].None? <==> FieldsOfBlock(allFieldDefs, configs[i].blockName) == [])
    ensures var blocks := PutBlocks(configs, outs);
      && (forall k :: k in blocks.vals ==>
            exists i :: 0 <= i < |configs| && configs[i].blockName == k && FieldsOfBlock(allFieldDefs, k) != [])
      && (forall i :: 0 <= i < |configs| && FieldsOfBlock(allFieldDefs, configs[i].blockName) != [] ==>
            configs[i].blockName in blocks.vals && blocks.vals[configs[i].blockName] == outs[i].value)
  {
    PutBlocksSpec(configs, outs);
    FilledNamesHaveOutputs(configs, outs);
  }

  /** A first duplicate that does not exist means distinct block names. */
  lemma DistinctBlockNames(configs: seq<BlockConfig>)
    requires FirstDuplicate(BlockNames(configs)).None?
    ensures forall i, j :: 0 <= i < j < |configs| ==> configs[i].blockName != configs[j].blockName
  {
    var names := BlockNames(configs);
    forall i, j | 0 <= i < j < |configs| ensures configs[i].blockName != configs[j].blockName {
      assert names[i] != names[j];
    }
  }

  /** The result of extract with the given block results. */
  function GenericResult(tenant: Tenant, blocks: LinkedMap<seq<RowValue>>): ResultValue {
    ResultValue(Some(tenant.tenantKey), Some(tenant.displayName), blocks, None, AccuracyOf(blocks), [], "SUCCESS")
  }

  /** extract, exceptions as errors: a block name configured twice, then a city code
      that repeats once upper-cased. */
  function GenericExtraction(o: Oracle, store: Store, pdfText: string, tenant: Tenant): Result<ResultValue, Error> {
    var text := PreprocessText(Some(pdfText));
    match FirstDuplicate(BlockNames(tenant.blockConfigs))
    case Some(k) => Err(DuplicateKey(k))
    case None =>
      match GetCityMappings(store.cityMappings, tenant.id)
      case Err(e) => Err(e)
      case Ok(cityMappings) =>
        Ok(GenericResult(tenant, PutBlocks(tenant.blockConfigs,
                                           BlockOutputs(o, text, tenant.blockConfigs, tenant.fieldDefs, cityMappings))))
  }

  // ─── properties ──────────────────────────────────────────────────────────

  /** extract fails exactly when two block configurations share a name (reported
      first) or two city codes of the tenant collide once upper-cased; every failure
      is a duplicate-key error. */
  lemma GenericExtractionErrors(o: Oracle, store: Store, pdfText: string, tenant: Tenant)
    ensures GenericExtraction(o, store, pdfText, tenant).Err? ==> GenericExtraction(o, store, pdfText, tenant).error.DuplicateKey?
    ensures var names := BlockNames(tenant.blockConfigs);
      var r := GenericExtraction(o, store, pdfText, tenant);
      && (r.Err? <==> (exists i, j :: 0 <= i < j < |names| && names[i] == names[j])
                      || RepeatedCode(CityRows(store.cityMappings, tenant.id)))
      && ((exists i, j :: 0 <= i < j < |names| && names[i] == names[j]) ==>
            r.Err? && r.error.DuplicateKey? && exists i, j :: 0 <= i < j < |names| && names[i] == names[j] == r.error.key)
  {
    CityMapFailsIffRepeatedCode(CityRows(store.cityMappings, tenant.id));
    if GetCityMappings(store.cityMappings, tenant.id).Err? {
      CityMapFailureNamesRepeatedCode(CityRows(store.cityMappings, tenant.id));
    }
  }

  lemma GenericExtractionOk(o: Oracle, store: Store, pdfText: string, tenant: Tenant)
    requires GenericExtraction(o, store, pdfText, tenant).Ok?
    ensures FirstDuplicate(BlockNames(tenant.blockConfigs)).None?
    ensures GetCityMappings(store.cityMappings, tenant.id).Ok?
    ensures GenericExtraction(o, store, pdfText, tenant).value ==
      GenericResult(tenant, PutBlocks(tenant.blockConfigs,
        BlockOutputs(o, PreprocessText(Some(pdfText)), tenant.blockConfigs, tenant.fieldDefs,
                     GetCityMappings(store.cityMappings, tenant.id).value)))
  {
  }

  /** On success the result holds exactly the blocks that have field definitions, in
      configuration order; each holds the rows of its strategy (BlockRows) over the
      preprocessed text and the tenant's city table; the accuracy is a percentage,
      the status SUCCESS and the tenant the one given. */
  lemma GenericExtractionShape(o: Oracle, store: Store, pdfText: string, tenant: Tenant)
    requires GenericExtraction(o, store, pdfText, tenant).Ok?
    ensures var r := GenericExtraction(o, store, pdfText, tenant).value;
      var configs := tenant.blockConfigs;
      var text := PreprocessText(Some(pdfText));
      var cityMappings := GetCityMappings(store.cityMappings, tenant.id).value;
      && r.tenantKey == Some(tenant.tenantKey) && r.status == "SUCCESS" && r.warnings == []
      && 0.0 <= r.accuracy <= 100.0
      && (forall k :: k in r.blocks.vals ==>
            exists i :: 0 <= i < |configs| && configs[i].blockName == k && FieldsOfBlock(tenant.fieldDefs, k) != [])
      && (forall i :: 0 <= i < |configs| && FieldsOfBlock(tenant.fieldDefs, configs[i].blockName) != [] ==>
            && configs[i].blockName in r.blocks.vals
            && r.blocks.vals[configs[i].blockName] ==
                 BlockRows(o, text, configs[i], FieldsOfBlock(tenant.fieldDefs, configs[i].blockName), cityMappings))
  {
    GenericExtractionOk(o, store, pdfText, tenant);
    var configs := tenant.blockConfigs;
    var text := PreprocessText(Some(pdfText));
    var cityMappings := GetCityMappings(store.cityMappings, tenant.id).value;
    var outs := BlockOutputs(o, text, configs, tenant.fieldDefs, cityMappings);
    DistinctBlockNames(configs);
    BlocksOfOutputs(configs, tenant.fieldDefs, outs);
    var blocks := PutBlocks(configs, outs);
    AccuracyBounds(AllValues(blocks.Values()));
  }

  // ─── the method ──────────────────────────────────────────────────────────

  /** The rows of one block, by the strategy its definitions call for. */
  method ExtractBlock(o: Oracle, text: string, config: BlockConfig, fieldDefs: seq<FieldDef>,
                      cityMappings: map<string, string>) returns (rows: seq<ExtractedRow>)
    ensures Views(rows) == BlockRows(o, text, config, fieldDefs, cityMappings)
  {
    var hasContextFields := exists i :: 0 <= i < |fieldDefs| && fieldDefs[i].isContext;
    if hasContextFields {
      rows := GenericContext.ExtractWithContext(o, text, config, fieldDefs, cityMappings);
    } else {
      rows := GenericSimple.ExtractSimple(o, text, config, fieldDefs, cityMappings);
    }
  }

  lemma PutBlocksSnoc(configs: seq<BlockConfig>, outs: seq<Option<seq<RowValue>>>, i: nat)
    requires |outs| == |configs| && i < |configs|
    ensures PutBlocks(configs[..i + 1], outs[..i + 1]) ==
      match outs[i]
      case None => PutBlocks(configs[..i], outs[..i])
      case Some(rows) => PutBlocks(configs[..i], outs[..i]).Put(configs[i].blockName, rows)
  {
    assert configs[..i + 1][..i] == configs[..i];
    assert outs[..i + 1][..i] == outs[..i];
  }

  /** The loop over the block configurations and the accuracy. */
  method ExtractBlocks(o: Oracle, text: string, tenant: Tenant, cityMappings: map<string, string>)
    returns (result: ExtractionResult)
    ensures fresh(result)
    ensures result.View() == GenericResult(tenant, PutBlocks(tenant.blockConfigs,
                               BlockOutputs(o, text, tenant.blockConfigs, tenant.fieldDefs, cityMappings)))
  {
    var configs := tenant.blockConfigs;
    ghost var outs := BlockOutputs(o, text, configs, tenant.fieldDefs, cityMappings);
    result := new ExtractionResult();
    result.tenantKey := Some(tenant.tenantKey);
    result.tenantName := Some(tenant.displayName);
    for i := 0 to |configs|
      invariant result.View() ==
        ResultValue(Some(tenant.tenantKey), Some(tenant.displayName), PutBlocks(configs[..i], outs[..i]), None, 0.0, [], "SUCCESS")
    {
      PutBlocksSnoc(configs, outs, i);
      var fieldDefs := FieldsOfBlock(tenant.fieldDefs, configs[i].blockName);
      if |fieldDefs| > 0 {
        var rows := ExtractBlock(o, text, configs[i], fieldDefs, cityMappings);
        result.PutBlock(configs[i].blockName, Views(rows));
      }
    }
    assert configs[..|configs|] == configs && outs[..|outs|] == outs;
    result.CalculateAccuracy();
  }

  /** extract: the block configurations are collected by name, the city table is
      loaded, then the blocks are extracted in turn. */
  method Extract(o: Oracle, store: Store, pdfText: string, tenant: Tenant) returns (outcome: Result<ExtractionResult, Error>)
    ensures outcome.Ok? <==> GenericExtraction(o, store, pdfText, tenant).Ok?
    ensures outcome.Ok? ==> fresh(outcome.value) && outcome.value.View() == GenericExtraction(o, store, pdfText, tenant).value
    ensures outcome.Err? ==> outcome.error == GenericExtraction(o, store, pdfText, tenant).error
  {
    var preprocessed := PreprocessText(Some(pdfText));
    var duplicate := FirstDuplicate(BlockNames(tenant.blockConfigs));
    if duplicate.Some? {
      return Err(DuplicateKey(duplicate.value));
    }
    var cityMappings := GetCityMappings(store.cityMappings, tenant.id);
    if cityMappings.Err? {
      return Err(cityMappings.error);
    }
    var result := ExtractBlocks(o, preprocessed, tenant, cityMappings.value);
    return Ok(result);
  }
}
