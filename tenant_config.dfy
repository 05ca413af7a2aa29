/** TenantConfigService: the configuration the engines read from the store. */
module TenantConfig {
  import opened Wrappers
  import opened JavaText
  import opened Entities
  import opened Errors

  /** The rows of the tables the services query: tenants with their identifiers,
      field definitions and block configurations, the radio configurations by
      tenant id, and the city-mapping rows. */
  datatype Store = Store(
    tenants: seq<Tenant>,
    radioConfigs: map<int, RadioConfig>,
    cityMappings: seq<CityMapping>)

  /** getAllActiveTenants: the stored tenants whose status is ACTIVE, in store order. */
  function GetAllActiveTenants(tenants: seq<Tenant>): (r: seq<Tenant>)
    ensures |r| <= |tenants|
    decreases |tenants|
  {
    if tenants == [] then []
    else
      var n := |tenants| - 1;
      GetAllActiveTenants(tenants[..n]) + (if tenants[n].status == ACTIVE then [tenants[n]] else [])
  }

  /** Exactly the active tenants are loaded. */
  lemma {:induction false} ActiveTenantsAreTheActiveOnes(tenants: seq<Tenant>)
    ensures forall t :: t in GetAllActiveTenants(tenants) <==> t in tenants && t.status == ACTIVE
    decreases |tenants|
  {
    if tenants != [] {
      var n := |tenants| - 1;
      ActiveTenantsAreTheActiveOnes(tenants[..n]);
      assert tenants == tenants[..n] + [tenants[n]];
    }
  }

  /** findByTenantIdAndMappingType(tenantId, "CITY"), in store order. */
  function CityRows(mappings: seq<CityMapping>, tenantId: int): (r: seq<CityMapping>)
    ensures forall m :: m in r <==> m in mappings && m.tenantId == tenantId && m.mappingType == "CITY"
    decreases |mappings|
  {
    if mappings == [] then []
    else
      var n := |mappings| - 1;
      var keep := mappings[n].tenantId == tenantId && mappings[n].mappingType == "CITY";
      assert mappings == mappings[..n] + [mappings[n]];
      CityRows(mappings[..n], tenantId) + (if keep then [mappings[n]] else [])
  }

  /** The upper-cased code of each row. */
  function UpperCodes(rows: seq<CityMapping>): (r: seq<string>)
    ensures |r| == |rows|
    ensures forall i :: 0 <= i < |rows| ==> r[i] == ToUpper(rows[i].code)
  {
    seq(|rows|, i requires 0 <= i < |rows| => ToUpper(rows[i].code))
  }

  function DisplayNames(rows: seq<CityMapping>): (r: seq<string>)
    ensures |r| == |rows|
    ensures forall i :: 0 <= i < |rows| ==> r[i] == rows[i].displayName
  {
    seq(|rows|, i requires 0 <= i < |rows| => rows[i].displayName)
  }

  /** The accumulation of `Collectors.toMap`: each key in turn is put with its value. */
  function PutAllPairs(keys: seq<string>, values: seq<string>): (t: map<string, string>)
    requires |keys| == |values|
    ensures forall k :: k in t <==> k in keys
    decreases |keys|
  {
    if keys == [] then map[]
    else
      var n := |keys| - 1;
      assert keys == keys[..n] + [keys[n]];
      PutAllPairs(keys[..n], values[..n])[keys[n] := values[n]]
  }

  /** A key that does not occur later maps to the value at its own position. */
  lemma {:induction false} PutAllPairsLastWins(keys: seq<string>, values: seq<string>, i: nat)
    requires |keys| == |values| && i < |keys|
    requires keys[i] !in keys[i + 1..]
    ensures PutAllPairs(keys, values)[keys[i]] == values[i]
    decreases |keys|
  {
    var n := |keys| - 1;
    if i < n {
      var ks, vs := keys[..n], values[..n];
      assert keys[i + 1..] == ks[i + 1..] + [keys[n]];
      assert ks[i] == keys[i] && vs[i] == values[i];
      PutAllPairsLastWins(ks, vs, i);
    }
  }

  /** `Collectors.toMap(upper-cased code, display name)` over the queried rows: it
      throws on the first code that repeats. */
  function ToCityMap(rows: seq<CityMapping>): Result<map<string, string>, Error> {
    var keys := UpperCodes(rows);
    match FirstDuplicate(keys)
    case Some(k) => Err(DuplicateKey(k))
    case None => Ok(PutAllPairs(keys, DisplayNames(rows)))
  }

  /** getCityMappings: the tenant's CITY rows collected into a table. */
  function GetCityMappings(mappings: seq<CityMapping>, tenantId: int): Result<map<string, string>, Error> {
    ToCityMap(CityRows(mappings, tenantId))
  }

  lemma ToUpperIdempotent(s: string)
    ensures ToUpper(ToUpper(s)) == ToUpper(s)
  {
  }

  /** Two of the rows have codes equal once upper-cased. */
  predicate RepeatedCode(rows: seq<CityMapping>) {
    exists i, j :: 0 <= i < j < |rows| && ToUpper(rows[i].code) == ToUpper(rows[j].code)
  }

  /** The collection fails exactly when a code repeats. */
  lemma CityMapFailsIffRepeatedCode(rows: seq<CityMapping>)
    ensures ToCityMap(rows).Err? <==> RepeatedCode(rows)
  {
    var keys := UpperCodes(rows);
    if FirstDuplicate(keys).None? {
      forall i, j | 0 <= i < j < |rows| ensures ToUpper(rows[i].code) != ToUpper(rows[j].code) {
        assert keys[i] != keys[j];
      }
    } else {
      var i, j :| 0 <= i < j < |keys| && keys[i] == keys[j];
      assert ToUpper(rows[i].code) == ToUpper(rows[j].code);
    }
  }

  /** A failure is a duplicate-key error naming a code that repeats. */
  lemma CityMapFailureNamesRepeatedCode(rows: seq<CityMapping>)
    requires ToCityMap(rows).Err?
    ensures ToCityMap(rows).error.DuplicateKey?
    ensures exists i, j :: 0 <= i < j < |rows| && ToUpper(rows[i].code) == ToUpper(rows[j].code) == ToCityMap(rows).error.key
  {
    var keys := UpperCodes(rows);
    var i, j :| 0 <= i < j < |keys| && keys[i] == keys[j] == FirstDuplicate(keys).value;
    assert ToUpper(rows[i].code) == keys[i] && ToUpper(rows[j].code) == keys[j];
  }

  /** Otherwise the keys are exactly the upper-cased codes, each mapped to the
      display name of its row, and every key is already upper case, so a lookup of
      an upper-cased name is well aimed. */
  lemma CityMapTable(rows: seq<CityMapping>)
    requires ToCityMap(rows).Ok?
    ensures var table := ToCityMap(rows).value;
      && (forall k :: k in table <==> exists m :: m in rows && k == ToUpper(m.code))
      && (forall m :: m in rows ==> table[ToUpper(m.code)] == m.displayName)
      && (forall k :: k in table ==> ToUpper(k) == k)
  {
    var keys := UpperCodes(rows);
    var names := DisplayNames(rows);
    var table := PutAllPairs(keys, names);
    forall k ensures k in table <==> exists m :: m in rows && k == ToUpper(m.code) {
      if k in table {
        var i :| 0 <= i < |keys| && keys[i] == k;
        assert rows[i] in rows;
      }
      if exists m :: m in rows && k == ToUpper(m.code) {
        var m :| m in rows && k == ToUpper(m.code);
        var i :| 0 <= i < |rows| && rows[i] == m;
        assert keys[i] == k;
      }
    }
    forall m | m in rows ensures table[ToUpper(m.code)] == m.displayName {
      var i :| 0 <= i < |rows| && rows[i] == m;
      assert keys[i] !in keys[i + 1..] by {
        forall j | i < j < |keys| ensures keys[j] != keys[i] {
          assert keys[i] != keys[j];
        }
      }
      PutAllPairsLastWins(keys, names, i);
    }
    forall k | k in table ensures ToUpper(k) == k {
      var i :| 0 <= i < |keys| && keys[i] == k;
      ToUpperIdempotent(rows[i].code);
    }
  }

  /** invalidateCache: Spring's cache is not part of this model, so evicting it leaves
      the store the services read unchanged. */
  method InvalidateCache(store: Store) returns (after: Store)
    ensures after == store
  {
    after := store;
  }
}
