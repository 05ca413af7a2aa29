/** InvoiceExtractionService.extract: a document's text is checked for content, its
    tenant identified, and the text handed to the radio engine when the tenant has a
    radio configuration and to the generic engine otherwise. */
module InvoiceService {
  import opened Wrappers
  import opened JavaText
  import opened Regex
  import opened Entities
  import opened Errors
  import opened TenantConfig
  import opened ExtractionResults
  import opened TenantIdentification
  import RadioEngine
  import GenericEngine

  const NoTextReason := "PDF contains no extractable text"

  /** isRadioTenant: the store holds a radio configuration for the tenant. */
  predicate IsRadioTenant(store: Store, tenant: Tenant) {
    tenant.id in store.radioConfigs
  }

  /** The engine the tenant is routed to, applied to the text. */
  function Route(o: Oracle, store: Store, pdfText: string, tenant: Tenant): Result<ResultValue, Error> {
    if IsRadioTenant(store, tenant) then RadioEngine.RadioExtraction(o, store, pdfText, tenant)
    else GenericEngine.GenericExtraction(o, store, pdfText, tenant)
  }

  /** extract over the text the document yields (None for a null text), exceptions as
      errors. */
  function Extraction(o: Oracle, store: Store, pdfText: Option<string>): Result<ResultValue, Error> {
    if pdfText.None? || IsBlank(pdfText.value) then Ok(EmptyResult(NoTextReason))
    else
      match Identify(o, pdfText.value, GetAllActiveTenants(store.tenants))
      case None => Err(NoTenantMatched)
      case Some(tenant) => Route(o, store, pdfText.value, tenant)
  }

  // ─── properties ──────────────────────────────────────────────────────────

  /** Neither engine reports that no tenant matched, and on success both report
      SUCCESS for the tenant they were given. */
  lemma RouteOutcome(o: Oracle, store: Store, pdfText: string, tenant: Tenant)
    ensures var r := Route(o, store, pdfText, tenant);
      && (r.Err? ==> r.error != NoTenantMatched)
      && (r.Ok? ==> r.value.status == "SUCCESS" && r.value.tenantKey == Some(tenant.tenantKey))
  {
    if IsRadioTenant(store, tenant) {
      RadioOutcome(o, store, pdfText, tenant);
    } else {
      GenericOutcome(o, store, pdfText, tenant);
    }
  }

  lemma RadioOutcome(o: Oracle, store: Store, pdfText: string, tenant: Tenant)
    requires IsRadioTenant(store, tenant)
    ensures var r := RadioEngine.RadioExtraction(o, store, pdfText, tenant);
      && (r.Err? ==> r.error.DuplicateKey? || r.error.InvalidPattern?)
      && (r.Ok? ==> r.value.status == "SUCCESS" && r.value.tenantKey == Some(tenant.tenantKey))
  {
    RadioEngine.RadioExtractionErrors(o, store, pdfText, tenant);
    if RadioEngine.RadioExtraction(o, store, pdfText, tenant).Ok? {
      RadioEngine.RadioExtractionShape(o, store, pdfText, tenant);
    }
  }

  lemma GenericOutcome(o: Oracle, store: Store, pdfText: string, tenant: Tenant)
    ensures var r := GenericEngine.GenericExtraction(o, store, pdfText, tenant);
      && (r.Err? ==> r.error.DuplicateKey?)
      && (r.Ok? ==> r.value.status == "SUCCESS" && r.value.tenantKey == Some(tenant.tenantKey))
  {
    GenericEngine.GenericExtractionErrors(o, store, pdfText, tenant);
    if GenericEngine.GenericExtraction(o, store, pdfText, tenant).Ok? {
      GenericEngine.GenericExtractionShape(o, store, pdfText, tenant);
    }
  }

  /** A radio tenant is always sent to the radio engine, so the radio engine's
      missing-configuration error never leaves the service. */
  lemma NoRadioConfigNeverEscapes(o: Oracle, store: Store, pdfText: string, tenant: Tenant)
    ensures Route(o, store, pdfText, tenant).Err? ==> !Route(o, store, pdfText, tenant).error.NoRadioConfig?
  {
    if IsRadioTenant(store, tenant) {
      RadioOutcome(o, store, pdfText, tenant);
    } else {
      GenericOutcome(o, store, pdfText, tenant);
    }
  }

  /** The result is the empty one exactly when the text is null or blank; it then
      carries the reason as its one warning and no blocks. */
  lemma EmptyIffNoText(o: Oracle, store: Store, pdfText: Option<string>)
    ensures var r := Extraction(o, store, pdfText);
      && (r.Ok? && r.value.status == "EMPTY" <==> pdfText.None? || IsBlank(pdfText.value))
      && (r.Ok? && r.value.status == "EMPTY" ==>
            r.value.warnings == [NoTextReason] && r.value.blocks.keys == [] && r.value.accuracy == 0.0)
  {
    if pdfText.Some? && !IsBlank(pdfText.value) {
      var t := Identify(o, pdfText.value, GetAllActiveTenants(store.tenants));
      if t.Some? {
        RouteOutcome(o, store, pdfText.value, t.value);
      }
    }
  }

  /** Identification fails exactly when the text has content and no active tenant
      scores above 0. */
  lemma NoTenantIffNoPositiveScoreOnText(o: Oracle, store: Store, pdfText: Option<string>)
    ensures var tenants := GetAllActiveTenants(store.tenants);
      (Extraction(o, store, pdfText) == Err(NoTenantMatched)) <==>
        pdfText.Some? && !IsBlank(pdfText.value)
        && forall i :: 0 <= i < |tenants| ==> TenantScore(o, pdfText.value, tenants[i]) <= 0
  {
    if pdfText.Some? && !IsBlank(pdfText.value) {
      var tenants := GetAllActiveTenants(store.tenants);
      NoTenantIffNoPositiveScore(o, pdfText.value, tenants);
      var t := Identify(o, pdfText.value, tenants);
      if t.Some? {
        RouteOutcome(o, store, pdfText.value, t.value);
      }
    }
  }

  /** Any other outcome is that of the engine chosen for the identified tenant: the
      radio engine exactly when the tenant has a radio configuration. A successful
      one is reported for an active tenant that scores above 0 and at least as much
      as every active tenant. */
  lemma RoutedToIdentifiedTenant(o: Oracle, store: Store, pdfText: string)
    requires !IsBlank(pdfText)
    requires Identify(o, pdfText, GetAllActiveTenants(store.tenants)).Some?
    ensures var tenants := GetAllActiveTenants(store.tenants);
      var tenant := Identify(o, pdfText, tenants).value;
      var r := Extraction(o, store, Some(pdfText));
      && tenant in store.tenants && tenant.status == ACTIVE
      && (IsRadioTenant(store, tenant) ==> r == RadioEngine.RadioExtraction(o, store, pdfText, tenant))
      && (!IsRadioTenant(store, tenant) ==> r == GenericEngine.GenericExtraction(o, store, pdfText, tenant))
      && (r.Ok? ==> r.value.tenantKey == Some(tenant.tenantKey)
                    && TenantScore(o, pdfText, tenant) > 0
                    && forall i :: 0 <= i < |tenants| ==> TenantScore(o, pdfText, tenants[i]) <= TenantScore(o, pdfText, tenant))
  {
    var tenants := GetAllActiveTenants(store.tenants);
    var tenant := Identify(o, pdfText, tenants).value;
    IdentifiedTenantIsFirstBest(o, pdfText, tenants);
    ActiveTenantsAreTheActiveOnes(store.tenants);
    RouteOutcome(o, store, pdfText, tenant);
  }

  // ─── the method ──────────────────────────────────────────────────────────

  /** extract: the QR step after the engines is commented out in the service, so the
      engine's result is returned as it is. */
  method Extract(o: Oracle, store: Store, pdfText: Option<string>) returns (outcome: Result<ExtractionResult, Error>)
    ensures outcome.Ok? <==> Extraction(o, store, pdfText).Ok?
    ensures outcome.Ok? ==> fresh(outcome.value) && outcome.value.View() == Extraction(o, store, pdfText).value
    ensures outcome.Err? ==> outcome.error == Extraction(o, store, pdfText).error
  {
    if pdfText.None? || IsBlank(pdfText.value) {
      var empty := ExtractionResult.Empty(NoTextReason);
      return Ok(empty);
    }
    var text := pdfText.value;
    var tenant := IdentifyTenant(o, store, text);
    if tenant.None? {
      return Err(NoTenantMatched);
    }
    if tenant.value.id in store.radioConfigs {
      outcome := RadioEngine.Extract(o, store, text, tenant.value);
    } else {
      outcome := GenericEngine.Extract(o, store, text, tenant.value);
    }
  }
}
