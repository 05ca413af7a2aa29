/** Configuration records the engines read: inputs to the core, never changed by it. */
module Entities {
  import opened Wrappers
  import opened JavaText

  datatype FieldType = STRING | INTEGER | DOUBLE | DATE

  /** A field definition of one block. `isContext` and `contextResetOnMatch` are the two
      flags the engine reads although the entity class shown does not declare them. */
  datatype FieldDef = FieldDef(
    blockName: string,
    fieldName: string,
    fieldType: FieldType,
    extractionPatterns: seq<string>,
    score: Int32,
    isRequired: bool,
    isOptional: bool,
    sortOrder: Int32,
    isContext: bool,
    contextResetOnMatch: bool)

  datatype BlockMode = GLOBAL | LINE_SPLIT

  datatype BlockConfig = BlockConfig(
    blockName: string,
    blockMode: BlockMode,
    blockStartPattern: Option<string>,
    minScore: Int32,
    qrEnabled: bool)

  datatype Identifier = Identifier(pattern: string, score: Int32)

  datatype TenantStatus = ACTIVE | INACTIVE

  /** A tenant with its configuration; the sets of the entity are sequences here, in
      whatever order the store delivers them. */
  datatype Tenant = Tenant(
    id: int,
    tenantKey: string,
    displayName: string,
    status: TenantStatus,
    identifiers: seq<Identifier>,
    fieldDefs: seq<FieldDef>,
    blockConfigs: seq<BlockConfig>)

  datatype RadioConfig = RadioConfig(
    cityPattern: Option<string>,
    datePattern: Option<string>,
    timePattern: Option<string>,
    rowStartPattern: Option<string>)

  datatype CityMapping = CityMapping(tenantId: int, mappingType: string, code: string, displayName: string)

  // ─── field definition lists ──────────────────────────────────────────────

  predicate SortedBySortOrder(defs: seq<FieldDef>) {
    forall i, j :: 0 <= i < j < |defs| ==> defs[i].sortOrder <= defs[j].sortOrder
  }

  /** Inserts `d` before the first element whose sort order is not smaller, so that
      it lands before every element of equal sort order. */
  function InsertBySortOrder(d: FieldDef, sorted: seq<FieldDef>): (r: seq<FieldDef>)
    ensures |r| == |sorted| + 1
    ensures multiset(r) == multiset(sorted) + multiset{d}
    decreases |sorted|
  {
    if sorted == [] || d.sortOrder <= sorted[0].sortOrder then [d] + sorted
    else
      assert sorted == [sorted[0]] + sorted[1..];
      [sorted[0]] + InsertBySortOrder(d, sorted[1..])
  }

  lemma {:induction false} InsertKeepsSorted(d: FieldDef, sorted: seq<FieldDef>)
    requires SortedBySortOrder(sorted)
    ensures SortedBySortOrder(InsertBySortOrder(d, sorted))
    decreases |sorted|
  {
    var r := InsertBySortOrder(d, sorted);
    if sorted == [] || d.sortOrder <= sorted[0].sortOrder {
      assert r == [d] + sorted;
      forall i, j | 0 <= i < j < |r| ensures r[i].sortOrder <= r[j].sortOrder {
        if i > 0 {
          assert r[i] == sorted[i - 1] && r[j] == sorted[j - 1];
        } else {
          assert r[j] == sorted[j - 1];
        }
      }
    } else {
      var tail := sorted[1..];
      assert SortedBySortOrder(tail) by {
        forall i, j | 0 <= i < j < |tail| ensures tail[i].sortOrder <= tail[j].sortOrder {
          assert tail[i] == sorted[i + 1] && tail[j] == sorted[j + 1];
        }
      }
      InsertKeepsSorted(d, tail);
      var rest := InsertBySortOrder(d, tail);
      assert r == [sorted[0]] + rest;
      forall i, j | 0 <= i < j < |r| ensures r[i].sortOrder <= r[j].sortOrder {
        assert r[j] == rest[j - 1];
        if i > 0 {
          assert r[i] == rest[i - 1];
        } else {
          assert rest[j - 1] in multiset(tail) + multiset{d};
          if rest[j - 1] != d {
            var k :| 0 <= k < |tail| && tail[k] == rest[j - 1];
            assert tail[k] == sorted[k + 1];
          }
        }
      }
    }
  }

  /** `sorted(Comparator.comparingInt(getSortOrder))`: a stable sort by sort order. */
  function SortBySortOrder(defs: seq<FieldDef>): (r: seq<FieldDef>)
    ensures multiset(r) == multiset(defs)
    ensures |r| == |defs|
    decreases |defs|
  {
    if defs == [] then []
    else
      assert defs == [defs[0]] + defs[1..];
      InsertBySortOrder(defs[0], SortBySortOrder(defs[1..]))
  }

  /** The definitions of sort order `so`, in their order in `defs`. */
  function WithSortOrder(defs: seq<FieldDef>, so: int): seq<FieldDef>
    decreases |defs|
  {
    if defs == [] then []
    else (if defs[0].sortOrder == so then [defs[0]] else []) + WithSortOrder(defs[1..], so)
  }

  /** Inserting `d` puts it ahead of the definitions of its own sort order: the
      elements it passes all have a smaller sort order. */
  lemma {:induction false} InsertBySortOrderClass(d: FieldDef, sorted: seq<FieldDef>, so: int)
    ensures WithSortOrder(InsertBySortOrder(d, sorted), so) ==
      (if d.sortOrder == so then [d] else []) + WithSortOrder(sorted, so)
    decreases |sorted|
  {
    var r := InsertBySortOrder(d, sorted);
    var own := if d.sortOrder == so then [d] else [];
    if sorted == [] || d.sortOrder <= sorted[0].sortOrder {
      assert r[0] == d && r[1..] == sorted;
    } else {
      var head := sorted[0];
      var first := if head.sortOrder == so then [head] else [];
      var tail := WithSortOrder(sorted[1..], so);
      var rest := InsertBySortOrder(d, sorted[1..]);
      assert WithSortOrder(r, so) == first + WithSortOrder(rest, so) by {
        assert r[0] == head && r[1..] == rest;
      }
      assert WithSortOrder(rest, so) == own + tail by {
        InsertBySortOrderClass(d, sorted[1..], so);
      }
      assert WithSortOrder(sorted, so) == first + tail;
      if d.sortOrder == so {
        assert first == [];
        assert first + (own + tail) == own + tail;
      } else {
        assert own == [];
        assert first + (own + tail) == own + (first + tail);
      }
    }
  }

  /** The sort is stable: definitions of equal sort order keep their relative order. */
  lemma {:induction false} SortBySortOrderStable(defs: seq<FieldDef>, so: int)
    ensures WithSortOrder(SortBySortOrder(defs), so) == WithSortOrder(defs, so)
    decreases |defs|
  {
    if defs != [] {
      SortBySortOrderStable(defs[1..], so);
      InsertBySortOrderClass(defs[0], SortBySortOrder(defs[1..]), so);
    }
  }

  /** The sort's result is ordered by sort order and holds the same definitions. */
  lemma {:induction false} SortBySortOrderSorted(defs: seq<FieldDef>)
    ensures SortedBySortOrder(SortBySortOrder(defs))
    ensures forall d :: d in SortBySortOrder(defs) <==> d in defs
    decreases |defs|
  {
    var r := SortBySortOrder(defs);
    if defs != [] {
      SortBySortOrderSorted(defs[1..]);
      InsertKeepsSorted(defs[0], SortBySortOrder(defs[1..]));
    }
    forall d ensures d in r <==> d in defs {
      assert d in r <==> d in multiset(r);
      assert d in defs <==> d in multiset(defs);
    }
  }

  /** The definitions of one block, in their given order (`groupingBy(getBlockName)`). */
  function FieldsOfBlock(defs: seq<FieldDef>, blockName: string): (r: seq<FieldDef>)
    ensures forall i :: 0 <= i < |r| ==> r[i].blockName == blockName && r[i] in defs
    ensures forall d :: d in defs && d.blockName == blockName ==> d in r
  {
    if defs == [] then []
    else (if defs[0].blockName == blockName then [defs[0]] else []) + FieldsOfBlock(defs[1..], blockName)
  }

  /** The definitions whose `isContext` flag equals `context`, in their given order. */
  function FieldsWithContextFlag(defs: seq<FieldDef>, context: bool): (r: seq<FieldDef>)
    ensures forall i :: 0 <= i < |r| ==> r[i].isContext == context && r[i] in defs
    ensures forall d :: d in defs && d.isContext == context ==> d in r
  {
    if defs == [] then []
    else (if defs[0].isContext == context then [defs[0]] else []) + FieldsWithContextFlag(defs[1..], context)
  }

  /** Grouping keeps encounter order and multiplicity: it distributes over
      concatenation (one definition at a time: `FieldsOfBlockSingle`). */
  lemma {:induction false} FieldsOfBlockConcat(a: seq<FieldDef>, b: seq<FieldDef>, blockName: string)
    ensures FieldsOfBlock(a + b, blockName) == FieldsOfBlock(a, blockName) + FieldsOfBlock(b, blockName)
    decreases |a|
  {
    if a == [] {
      assert a + b == b;
    } else {
      var head := if a[0].blockName == blockName then [a[0]] else [];
      assert FieldsOfBlock(a + b, blockName) == head + FieldsOfBlock(a[1..] + b, blockName) by {
        assert (a + b)[0] == a[0] && (a + b)[1..] == a[1..] + b;
      }
      assert FieldsOfBlock(a, blockName) == head + FieldsOfBlock(a[1..], blockName);
      FieldsOfBlockConcat(a[1..], b, blockName);
      AppendAssoc(head, FieldsOfBlock(a[1..], blockName), FieldsOfBlock(b, blockName));
    }
  }

  /** The context filter keeps encounter order and multiplicity in the same way
      (one definition at a time: `FieldsWithContextFlagSingle`). */
  lemma {:induction false} FieldsWithContextFlagConcat(a: seq<FieldDef>, b: seq<FieldDef>, context: bool)
    ensures FieldsWithContextFlag(a + b, context) == FieldsWithContextFlag(a, context) + FieldsWithContextFlag(b, context)
    decreases |a|
  {
    if a == [] {
      assert a + b == b;
    } else {
      var head := if a[0].isContext == context then [a[0]] else [];
      assert FieldsWithContextFlag(a + b, context) == head + FieldsWithContextFlag(a[1..] + b, context) by {
        assert (a + b)[0] == a[0] && (a + b)[1..] == a[1..] + b;
      }
      assert FieldsWithContextFlag(a, context) == head + FieldsWithContextFlag(a[1..], context);
      FieldsWithContextFlagConcat(a[1..], b, context);
      AppendAssoc(head, FieldsWithContextFlag(a[1..], context), FieldsWithContextFlag(b, context));
    }
  }

  /** One definition is kept, once, exactly when it belongs to the block. */
  lemma FieldsOfBlockSingle(d: FieldDef, blockName: string)
    ensures FieldsOfBlock([d], blockName) == if d.blockName == blockName then [d] else []
  {
    assert [d][1..] == [];
  }

  /** One definition is kept, once, exactly when its context flag matches. */
  lemma FieldsWithContextFlagSingle(d: FieldDef, context: bool)
    ensures FieldsWithContextFlag([d], context) == if d.isContext == context then [d] else []
  {
    assert [d][1..] == [];
  }

  /** `fieldDefs.stream().anyMatch(TenantFieldDef::isContext)`. */
  predicate HasContextFields(defs: seq<FieldDef>) {
    exists i :: 0 <= i < |defs| && defs[i].isContext
  }

  /** The first key that occurs twice, in list order: where Collectors.toMap throws. */
  function FirstDuplicate(keys: seq<string>): (r: Option<string>)
    ensures r.None? <==> forall i, j :: 0 <= i < j < |keys| ==> keys[i] != keys[j]
    ensures r.Some? ==> exists i, j :: 0 <= i < j < |keys| && keys[i] == keys[j] == r.value
  {
    FirstDuplicateFrom(keys, 0, {})
  }

  function FirstDuplicateFrom(keys: seq<string>, i: nat, seen: set<string>): (r: Option<string>)
    requires i <= |keys|
    requires seen == set k | 0 <= k < i :: keys[k]
    requires forall a, b :: 0 <= a < b < i ==> keys[a] != keys[b]
    ensures r.None? <==> forall a, b :: 0 <= a < b < |keys| ==> keys[a] != keys[b]
    ensures r.Some? ==> exists a, b :: 0 <= a < b < |keys| && keys[a] == keys[b] == r.value
    decreases |keys| - i
  {
    if i == |keys| then None
    else if keys[i] in seen then
      var a :| 0 <= a < i && keys[a] == keys[i];
      Some(keys[i])
    else
      FirstDuplicateFrom(keys, i + 1, seen + {keys[i]})
  }
}

/** The failures that escape an extraction call as exceptions. */
module Errors {
  datatype Error =
    | DuplicateKey(key: string)       // IllegalStateException from Collectors.toMap
    | NoRadioConfig(tenantKey: string) // RuntimeException from the radio engine
    | InvalidPattern(regex: string)   // PatternSyntaxException that is not caught
    | NoTenantMatched                 // RuntimeException from the service
  {
    /** The exception message, where the source spells it out. */
    function Message(): string {
      match this
      case DuplicateKey(k) => "Duplicate key " + k
      case NoRadioConfig(k) => "No radio config found for tenant: " + k
      case InvalidPattern(p) => p
      case NoTenantMatched => "Could not identify invoice type. No tenant matched."
    }
  }
}
