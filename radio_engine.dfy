/** RadioExtractionEngine: radio-broadcast invoices read line by line. A city line
    switches the city in force; the other lines gather into a buffer that a row-start
    line flushes; each flushed buffer becomes one row tagged with its city, carrying
    the dates, the timeband and the tenant's invoice fields found in it. */
module RadioEngine {
  import opened Wrappers
  import opened JavaText
  import opened Regex
  import opened Entities
  import opened Errors
  import opened ExtractedRows
  import opened GenericFields
  import opened TenantConfig
  import opened ExtractionResults
  import GenericContext

  // ─── city detection ──────────────────────────────────────────────────────

  /** Group 1 of the city pattern's first match in the line, when the tenant has a
      city pattern, it compiles, it finds, it has a group and that group took part
      (a null group throws and the exception is logged). */
  function CityCapture(o: Oracle, line: string, config: RadioConfig): Option<string> {
    if config.cityPattern.None? then None
    else match Compile(o, config.cityPattern.value, {CaseInsensitive})
      case None => None
      case Some(p) =>
        match o.find(p, line)
        case None => None
        case Some(m) => if m.GroupCount() == 0 then None else m.groups[0]
  }

  /** detectCity: the captured name, trimmed and upper-cased, replaced by its display
      name when the mapping table is not empty and holds it. */
  function DetectCity(o: Oracle, line: string, config: RadioConfig, cityMappings: map<string, string>): (r: Option<string>)
    ensures r.Some? <==> CityCapture(o, line, config).Some?
    ensures CityCapture(o, line, config).Some? ==>
      var raw := ToUpper(Trim(CityCapture(o, line, config).value));
      r == Some(if |cityMappings| > 0 && raw in cityMappings then cityMappings[raw] else raw)
  {
    match CityCapture(o, line, config)
    case None => None
    case Some(g) =>
      var raw := ToUpper(Trim(g));
      if |cityMappings| > 0 && raw in cityMappings then Some(cityMappings[raw]) else Some(raw)
  }

  /** A detected city is a display name of the table or an upper-case name: with an
      empty table it is always the captured name, trimmed and upper-cased. */
  lemma DetectedCityIsMappedOrUpper(o: Oracle, line: string, config: RadioConfig, cityMappings: map<string, string>)
    requires DetectCity(o, line, config, cityMappings).Some?
    ensures var city := DetectCity(o, line, config, cityMappings).value;
      city in cityMappings.Values || ToUpper(city) == city
    ensures |cityMappings| == 0 ==>
      DetectCity(o, line, config, cityMappings).value == ToUpper(Trim(CityCapture(o, line, config).value))
    ensures var raw := ToUpper(Trim(CityCapture(o, line, config).value));
      raw !in cityMappings ==> DetectCity(o, line, config, cityMappings).value == raw
  {
    var raw := ToUpper(Trim(CityCapture(o, line, config).value));
    ToUpperIdempotent(Trim(CityCapture(o, line, config).value));
    if |cityMappings| > 0 && raw in cityMappings {
      assert cityMappings[raw] in cityMappings.Values;
    }
  }

  /** With the table collected from the tenant's CITY rows, a captured code equal,
      once trimmed and upper-cased, to the upper-cased code of a row resolves to that
      row's display name. */
  lemma CityCodeResolvesToDisplayName(o: Oracle, line: string, config: RadioConfig, rows: seq<CityMapping>, m: CityMapping)
    requires ToCityMap(rows).Ok? && m in rows
    requires CityCapture(o, line, config).Some?
    requires ToUpper(Trim(CityCapture(o, line, config).value)) == ToUpper(m.code)
    ensures DetectCity(o, line, config, ToCityMap(rows).value) == Some(m.displayName)
  {
    CityMapTable(rows);
  }

  // ─── dates and timeband ──────────────────────────────────────────────────

  /** The first match Matcher.find() reports for `regex` compiled case-insensitively,
      or none when it does not compile or does not find. */
  function FindCaseInsensitive(o: Oracle, regex: string, text: string): (r: Option<Match>)
    ensures r.Some? ==> o.compiles(regex) && o.find(Pattern(regex, {CaseInsensitive}), text) == r
  {
    match Compile(o, regex, {CaseInsensitive})
    case None => None
    case Some(p) => o.find(p, text)
  }

  /** m.group(n) of a match, when group n exists and took part. */
  function Group(m: Match, n: nat): (r: Option<string>)
    requires n >= 1
    ensures r.Some? <==> m.GroupCount() >= n && m.groups[n - 1].Some?
  {
    if m.GroupCount() >= n then m.groups[n - 1] else None
  }

  /** extractDateFields: the entries it puts and the score it returns. A match puts
      `startDate` (group 1, trimmed) and, when a second group took part, `endDate`,
      and scores 2; no match, a pattern that does not compile, a missing group 1 or a
      null group 1 (all exceptions, caught) put nothing and score 0. */
  function DateEntries(o: Oracle, text: string, datePattern: string): (r: (seq<(string, string)>, int))
    ensures r.1 == 0 || r.1 == 2
    ensures r.1 == 0 <==> r.0 == []
    ensures r.1 == 2 ==> 1 <= |r.0| <= 2 && r.0[0].0 == "startDate" && (|r.0| == 2 ==> r.0[1].0 == "endDate")
    ensures forall i :: 0 <= i < |r.0| ==> (r.0[i].0 == "startDate" || r.0[i].0 == "endDate") && IsTrimmed(r.0[i].1)
  {
    match Compile(o, datePattern, {CaseInsensitive})
    case None => ([], 0)
    case Some(p) =>
      match o.find(p, text)
      case None => ([], 0)
      case Some(m) =>
        if m.GroupCount() == 0 || m.groups[0].None? then ([], 0)
        else
          var start := [("startDate", Trim(m.groups[0].value))];
          if m.GroupCount() >= 2 && m.groups[1].Some? then (start + [("endDate", Trim(m.groups[1].value))], 2)
          else (start, 2)
  }

  /** extractTimebandFields: a match scores 1 and puts `timebandStart` and
      `timebandEnd` for groups 1 and 2 when they exist and took part; otherwise
      nothing and 0. */
  function TimebandEntries(o: Oracle, text: string, timePattern: string): (r: (seq<(string, string)>, int))
    ensures r.1 == 0 || r.1 == 1
    ensures r.1 == 0 ==> r.0 == []
    ensures |r.0| <= 2
    ensures forall i :: 0 <= i < |r.0| ==> (r.0[i].0 == "timebandStart" || r.0[i].0 == "timebandEnd") && IsTrimmed(r.0[i].1)
  {
    match Compile(o, timePattern, {CaseInsensitive})
    case None => ([], 0)
    case Some(p) =>
      match o.find(p, text)
      case None => ([], 0)
      case Some(m) =>
        var start := if m.GroupCount() >= 1 && m.groups[0].Some? then [("timebandStart", Trim(m.groups[0].value))] else [];
        var end := if m.GroupCount() >= 2 && m.groups[1].Some? then [("timebandEnd", Trim(m.groups[1].value))] else [];
        (start + end, 1)
  }

  /** The date entries come from the first match of the date pattern: a score of 2
      exactly when group 1 took part, `startDate` its trimmed text, and `endDate`
      present exactly when group 2 took part, holding its trimmed text. */
  lemma DateEntriesOfMatch(o: Oracle, text: string, datePattern: string)
    ensures var r := DateEntries(o, text, datePattern);
      var m := FindCaseInsensitive(o, datePattern, text);
      && (r.1 == 2 <==> m.Some? && Group(m.value, 1).Some?)
      && (r.1 == 2 ==> r.0[0] == ("startDate", Trim(Group(m.value, 1).value)))
      && (r.1 == 2 ==> (|r.0| == 2 <==> Group(m.value, 2).Some?))
      && (|r.0| == 2 ==> r.0[1] == ("endDate", Trim(Group(m.value, 2).value)))
  {
  }

  /** The timeband entries come from the first match of the time pattern: a score
      of 1 exactly when it finds, then `timebandStart` and `timebandEnd`, in that
      order, for the groups 1 and 2 that took part, each holding its trimmed text. */
  lemma TimebandEntriesOfMatch(o: Oracle, text: string, timePattern: string)
    ensures var r := TimebandEntries(o, text, timePattern);
      var m := FindCaseInsensitive(o, timePattern, text);
      && (r.1 == 1 <==> m.Some?)
      && (m.Some? ==> r.0 == (if Group(m.value, 1).Some? then [("timebandStart", Trim(Group(m.value, 1).value))] else [])
                          + (if Group(m.value, 2).Some? then [("timebandEnd", Trim(Group(m.value, 2).value))] else []))
  {
  }

  /** The entries as a map: a later entry of the same key wins. */
  function StringEntries(entries: seq<(string, string)>): (m: map<string, Value>)
    ensures forall k :: k in m <==> exists i :: 0 <= i < |entries| && entries[i].0 == k
    decreases |entries|
  {
    if entries == [] then map[]
    else
      var n := |entries| - 1;
      var prev := StringEntries(entries[..n]);
      assert forall i :: 0 <= i < n ==> entries[..n][i] == entries[i];
      prev[entries[n].0 := Str(entries[n].1)]
  }

  lemma NotAnEntryKey(entries: seq<(string, string)>, key: string)
    requires forall i :: 0 <= i < |entries| ==> entries[i].0 != key
    ensures key !in StringEntries(entries)
  {
  }

  /** The row after putting each entry in turn as a string value. */
  function PutStrings(fields: LinkedMap<Value>, entries: seq<(string, string)>): LinkedMap<Value>
    decreases |entries|
  {
    if entries == [] then fields
    else
      var n := |entries| - 1;
      PutStrings(fields, entries[..n]).Put(entries[n].0, Str(entries[n].1))
  }

  lemma PutStringsSnoc(fields: LinkedMap<Value>, entries: seq<(string, string)>, e: (string, string))
    ensures PutStrings(fields, entries + [e]) == PutStrings(fields, entries).Put(e.0, Str(e.1))
  {
    assert (entries + [e])[..|entries|] == entries;
  }

  lemma MapOverrideUpdate(a: map<string, Value>, b: map<string, Value>, k: string, v: Value)
    ensures (a + b)[k := v] == a + b[k := v]
  {
  }

  /** Putting the entries overrides the row's entries by the entries'. */
  lemma {:induction false} PutStringsOverrides(fields: LinkedMap<Value>, entries: seq<(string, string)>)
    ensures PutStrings(fields, entries).vals == fields.vals + StringEntries(entries)
    decreases |entries|
  {
    if entries != [] {
      var n := |entries| - 1;
      PutStringsOverrides(fields, entries[..n]);
      MapOverrideUpdate(fields.vals, StringEntries(entries[..n]), entries[n].0, Str(entries[n].1));
    }
  }

  // ─── the invoice fields ──────────────────────────────────────────────────

  /** tryExtract compiles each pattern case-insensitively with DOTALL. */
  const RadioFieldFlags: set<Flag> := {CaseInsensitive, DotAll}

  /** group(1).trim() with the commas removed; unlike the generic engine, inner
      whitespace is kept. */
  function RadioClean(g: string): (r: string)
    ensures ',' !in r
  {
    RemoveChar(Trim(g), ',')
  }

  /** Cleaning a capture keeps its non-space characters, in order, less every comma. */
  lemma RadioCleanKeepsNonSpace(g: string)
    requires NoControlChars(g)
    ensures NonSpace(RadioClean(g)) == RemoveChar(NonSpace(g), ',')
  {
    TrimKeepsNonSpace(g);
    NonSpaceRemoveChar(Trim(g), ',');
  }

  /** One candidate text of tryExtract: find(), groupCount() > 0, group(1) (null
      throws), cleaning, the blank test. */
  function RadioAttempt(o: Oracle, p: Pattern, candidate: string): (a: Attempt)
    ensures a.Found? ==> !IsBlank(a.value) && ',' !in a.value
    ensures a == Threw <==>
      var m := o.find(p, candidate);
      m.Some? && m.value.GroupCount() > 0 && m.value.groups[0].None?
    ensures a.Found? <==>
      var m := o.find(p, candidate);
      m.Some? && m.value.GroupCount() > 0 && m.value.groups[0].Some?
      && !IsBlank(RadioClean(m.value.groups[0].value))
    ensures a.Found? ==> a.value == RadioClean(o.find(p, candidate).value.groups[0].value)
  {
    match o.find(p, candidate)
    case None => NoValue
    case Some(m) =>
      if m.GroupCount() == 0 then NoValue
      else match m.groups[0]
        case None => Threw
        case Some(g) =>
          var v := RadioClean(g);
          if IsBlank(v) then NoValue else Found(v)
  }

  /** One pattern of tryExtract: a pattern that does not compile, or whose group 1
      is null on the original text, is abandoned for the next; otherwise the
      original and then the normalised text are tried. */
  function RadioTryPattern(o: Oracle, regex: string, original: string, normalized: string): (r: Option<string>)
    ensures r.Some? ==> o.compiles(regex) && !IsBlank(r.value) && ',' !in r.value
    ensures r.Some? ==>
      (|| RadioAttempt(o, Pattern(regex, RadioFieldFlags), original) == Found(r.value)
       || (RadioAttempt(o, Pattern(regex, RadioFieldFlags), original) == NoValue
           && RadioAttempt(o, Pattern(regex, RadioFieldFlags), normalized) == Found(r.value)))
    ensures o.compiles(regex) && RadioAttempt(o, Pattern(regex, RadioFieldFlags), original).Found? ==>
      r == Some(RadioAttempt(o, Pattern(regex, RadioFieldFlags), original).value)
    ensures
      (&& o.compiles(regex)
       && RadioAttempt(o, Pattern(regex, RadioFieldFlags), original) == NoValue
       && RadioAttempt(o, Pattern(regex, RadioFieldFlags), normalized).Found?) ==>
      r == Some(RadioAttempt(o, Pattern(regex, RadioFieldFlags), normalized).value)
    ensures RadioAttempt(o, Pattern(regex, RadioFieldFlags), original) == Threw ==> r.None?
  {
    match Compile(o, regex, RadioFieldFlags)
    case None => None
    case Some(p) =>
      match RadioAttempt(o, p, original)
      case Found(v) => Some(v)
      case Threw => None
      case NoValue =>
        match RadioAttempt(o, p, normalized)
        case Found(v) => Some(v)
        case _ => None
  }

  function RadioPatternResults(o: Oracle, patterns: seq<string>, original: string, normalized: string): (r: seq<Option<string>>)
    ensures |r| == |patterns|
    ensures forall i :: 0 <= i < |patterns| ==> r[i] == RadioTryPattern(o, patterns[i], original, normalized)
  {
    seq(|patterns|, i requires 0 <= i < |patterns| => RadioTryPattern(o, patterns[i], original, normalized))
  }

  /** tryExtract(original, normalized, def): the first pattern that yields a value. */
  function RadioTryExtract(o: Oracle, original: string, normalized: string, fd: FieldDef): Option<string> {
    FirstSome(RadioPatternResults(o, fd.extractionPatterns, original, normalized))
  }

  /** The patterns are tried in list order and the first that yields a value
      decides; that value is never blank and holds no comma. */
  lemma RadioTryExtractFirstMatch(o: Oracle, original: string, normalized: string, fd: FieldDef)
    ensures RadioTryExtract(o, original, normalized, fd).None? <==>
      forall i :: 0 <= i < |fd.extractionPatterns| ==> RadioTryPattern(o, fd.extractionPatterns[i], original, normalized).None?
    ensures RadioTryExtract(o, original, normalized, fd).Some? ==>
      var v := RadioTryExtract(o, original, normalized, fd).value;
      && !IsBlank(v) && ',' !in v
      && exists i ::
           && 0 <= i < |fd.extractionPatterns|
           && RadioTryPattern(o, fd.extractionPatterns[i], original, normalized) == Some(v)
           && forall j :: 0 <= j < i ==> RadioTryPattern(o, fd.extractionPatterns[j], original, normalized).None?
  {
    var rs := RadioPatternResults(o, fd.extractionPatterns, original, normalized);
    FirstSomeSpec(rs);
  }

  /** parseValue of the radio engine: no blank test; STRING and DATE keep the text;
      INTEGER parses the ASCII digits (none, or too large, raise
      NumberFormatException: null); DOUBLE parses the digits and dots. */
  function RadioParseValue(o: Oracle, raw: string, t: FieldType): Option<Value> {
    match t
    case STRING => Some(Str(raw))
    case DATE => Some(Str(raw))
    case INTEGER => (match ParseInt(KeepDigits(raw)) case Some(i) => Some(Int(i)) case None => None)
    case DOUBLE => (match ParseDouble(o, KeepDigitsAndDots(raw)) case Some(d) => Some(Dbl(d)) case None => None)
  }

  /** On the values tryExtract returns, which are never blank, the radio parseValue
      and the generic one agree; they differ only on blank text, which the generic
      one maps to null. */
  lemma RadioParseAgreesWithGeneric(o: Oracle, raw: string, t: FieldType)
    ensures !IsBlank(raw) ==> RadioParseValue(o, raw, t) == ParseValue(o, raw, t)
    ensures IsBlank(raw) && (t == STRING || t == DATE) ==>
      RadioParseValue(o, raw, t) == Some(Str(raw)) && ParseValue(o, raw, t).None?
  {
  }

  /** What one definition contributes to a row built from `text`. */
  function RadioField(o: Oracle, text: string, normalized: string, fd: FieldDef): Option<Value> {
    match RadioTryExtract(o, text, normalized, fd)
    case None => None
    case Some(extracted) => RadioParseValue(o, extracted, fd.fieldType)
  }

  /** What each definition contributes, in list order; the normalised text collapses
      whitespace runs to single spaces and trims. */
  function RadioContributions(o: Oracle, text: string, defs: seq<FieldDef>): (r: seq<Option<Value>>)
    ensures |r| == |defs|
    ensures forall i :: 0 <= i < |defs| ==> r[i] == RadioField(o, text, Normalize(text), defs[i])
  {
    var normalized := Normalize(text);
    seq(|defs|, i requires 0 <= i < |defs| => RadioField(o, text, normalized, defs[i]))
  }

  /** The row after putting each contribution under its definition's name, in order,
      into a row that already holds entries. */
  function PutFold(start: LinkedMap<Value>, defs: seq<FieldDef>, contribs: seq<Option<Value>>): LinkedMap<Value>
    requires |contribs| == |defs|
    decreases |defs|
  {
    if defs == [] then start
    else
      var n := |defs| - 1;
      var prev := PutFold(start, defs[..n], contribs[..n]);
      match contribs[n]
      case None => prev
      case Some(v) => prev.Put(defs[n].fieldName, v)
  }

  /** Putting the contributions into a row that holds entries gives the row's
      entries overridden by exactly the entries the contributions give an empty row:
      an invoice field of the same name replaces a city, date or timeband entry. */
  lemma {:induction false} PutFoldOverrides(start: LinkedMap<Value>, defs: seq<FieldDef>, contribs: seq<Option<Value>>)
    requires |contribs| == |defs|
    ensures PutFold(start, defs, contribs).vals == start.vals + FillFold(defs, contribs).0.vals
    decreases |defs|
  {
    if defs != [] {
      var n := |defs| - 1;
      PutFoldOverrides(start, defs[..n], contribs[..n]);
    }
  }

  /** What extractDateFields puts and scores, nothing when there is no date pattern. */
  function DatesOf(o: Oracle, text: string, config: RadioConfig): (seq<(string, string)>, int) {
    if config.datePattern.Some? then DateEntries(o, text, config.datePattern.value) else ([], 0)
  }

  /** What extractTimebandFields puts and scores, nothing when there is no time pattern. */
  function BandsOf(o: Oracle, text: string, config: RadioConfig): (seq<(string, string)>, int) {
    if config.timePattern.Some? then TimebandEntries(o, text, config.timePattern.value) else ([], 0)
  }

  /** The row before its invoice fields: `cityName`, then the date and timeband
      entries. */
  function ContextEntries(o: Oracle, text: string, config: RadioConfig, city: string): LinkedMap<Value> {
    PutStrings(PutStrings(OrderedMap([], map[]).Put("cityName", Str(city)), DatesOf(o, text, config).0),
               BandsOf(o, text, config).0)
  }

  /** The city stays under `cityName`; a date match adds `startDate`. */
  lemma ContextEntriesSpec(o: Oracle, text: string, config: RadioConfig, city: string)
    ensures var ctx := ContextEntries(o, text, config, city);
      && "cityName" in ctx.vals && ctx.vals["cityName"] == Str(city)
      && (DatesOf(o, text, config).1 == 2 ==> "startDate" in ctx.vals)
  {
    var dates, bands := DatesOf(o, text, config), BandsOf(o, text, config);
    var base := OrderedMap([], map[]).Put("cityName", Str(city));
    PutStringsOverrides(base, dates.0);
    PutStringsOverrides(PutStrings(base, dates.0), bands.0);
    NotAnEntryKey(dates.0, "cityName");
    NotAnEntryKey(bands.0, "cityName");
    if dates.1 == 2 {
      assert "startDate" in StringEntries(dates.0);
    }
  }

  /** The row built from one flushed buffer's trimmed text: `cityName`, the date and
      timeband entries when those patterns are configured, the invoice fields, the
      derived `fct`; the score adds the date score, the timeband score and the weights
      of the invoice fields put, as Java `int`s. */
  function RadioRow(o: Oracle, text: string, defs: seq<FieldDef>, config: RadioConfig, city: string): RowValue {
    var contribs := RadioContributions(o, text, defs);
    RowValue(WithFct(PutFold(ContextEntries(o, text, config, city), defs, contribs)),
             IntAdd(ContextScore(o, text, config), Wrap32(ContributedWeight(defs, contribs))))
  }

  /** The date pattern is configured, compiles, finds in the text and its group 1
      took part. */
  predicate DateMatched(o: Oracle, text: string, config: RadioConfig) {
    && config.datePattern.Some?
    && var m := FindCaseInsensitive(o, config.datePattern.value, text);
    m.Some? && Group(m.value, 1).Some?
  }

  /** The time pattern is configured, compiles and finds in the text. */
  predicate TimeMatched(o: Oracle, text: string, config: RadioConfig) {
    config.timePattern.Some? && FindCaseInsensitive(o, config.timePattern.value, text).Some?
  }

  lemma ScoresOfMatches(o: Oracle, text: string, config: RadioConfig)
    ensures DatesOf(o, text, config).1 == if DateMatched(o, text, config) then 2 else 0
    ensures BandsOf(o, text, config).1 == if TimeMatched(o, text, config) then 1 else 0
  {
    if config.datePattern.Some? {
      DateEntriesOfMatch(o, text, config.datePattern.value);
    }
    if config.timePattern.Some? {
      TimebandEntriesOfMatch(o, text, config.timePattern.value);
    }
  }

  /** The score of the date and timeband entries. */
  function ContextScore(o: Oracle, text: string, config: RadioConfig): (r: Int32)
    ensures 0 <= r <= 3
    ensures r >= 2 <==> DatesOf(o, text, config).0 != []
  {
    DatesOf(o, text, config).1 + BandsOf(o, text, config).1
  }

  /** The context score is 2 for a date match whose group 1 took part, plus 1 for a
      timeband match. */
  lemma ContextScoreOfMatches(o: Oracle, text: string, config: RadioConfig)
    ensures ContextScore(o, text, config) ==
      (if DateMatched(o, text, config) then 2 else 0) + (if TimeMatched(o, text, config) then 1 else 0)
  {
    ScoresOfMatches(o, text, config);
  }

  /** Filling a row that holds entries: it keeps every entry no invoice field
      replaces, holds each invoice field put with its value unless the `fct` rule
      overwrote it, and loses nothing. */
  lemma FillOverContext(ctx: LinkedMap<Value>, defs: seq<FieldDef>, contribs: seq<Option<Value>>)
    requires |contribs| == |defs|
    ensures var row := WithFct(PutFold(ctx, defs, contribs));
      var filled := FillFold(defs, contribs).0;
      && ctx.vals.Keys <= row.vals.Keys
      && (forall k :: k in ctx.vals && k !in filled.vals && k != "fct" ==> row.vals[k] == ctx.vals[k])
      && (forall k :: k in filled.vals && k != "fct" ==> k in row.vals && row.vals[k] == filled.vals[k])
  {
    PutFoldOverrides(ctx, defs, contribs);
  }

  /** The row always holds `cityName`: the flush's city unless an invoice field of
      that name was put. */
  lemma RadioRowCity(o: Oracle, text: string, defs: seq<FieldDef>, config: RadioConfig, city: string)
    ensures var row := RadioRow(o, text, defs, config, city);
      && "cityName" in row.fields.vals
      && ("cityName" !in FillFold(defs, RadioContributions(o, text, defs)).0.vals ==> row.fields.vals["cityName"] == Str(city))
  {
    ContextEntriesSpec(o, text, config, city);
    FillOverContext(ContextEntries(o, text, config, city), defs, RadioContributions(o, text, defs));
  }

  /** Every invoice field put is in the row with its value unless the `fct` rule
      overwrote it; a date match puts `startDate`. */
  lemma RadioRowFields(o: Oracle, text: string, defs: seq<FieldDef>, config: RadioConfig, city: string)
    ensures var row := RadioRow(o, text, defs, config, city);
      var filled := FillFold(defs, RadioContributions(o, text, defs)).0;
      && (forall k :: k in filled.vals && k != "fct" ==> k in row.fields.vals && row.fields.vals[k] == filled.vals[k])
      && (DatesOf(o, text, config).1 == 2 ==> "startDate" in row.fields.vals)
  {
    ContextEntriesSpec(o, text, config, city);
    FillOverContext(ContextEntries(o, text, config, city), defs, RadioContributions(o, text, defs));
  }

  /** The score, summed with Java `int` additions in two stages (the invoice fields
      inside extractGenericFields, then the context and invoice parts in
      flushBuffer), is the 32-bit wrap of the exact sum of the date and timeband
      score and the weights of the invoice fields put. */
  lemma RadioRowScore(o: Oracle, text: string, defs: seq<FieldDef>, config: RadioConfig, city: string,
                      contextScore: int, weight: int)
    requires contextScore == ContextScore(o, text, config)
    requires weight == ContributedWeight(defs, RadioContributions(o, text, defs))
    ensures RadioRow(o, text, defs, config, city).score == Wrap32(contextScore + weight)
  {
    IntAddWrapped(contextScore, weight);
  }

  /** A row is kept when it holds more than its `cityName` entry. */
  lemma KeptRowHasMoreThanCity(o: Oracle, text: string, defs: seq<FieldDef>, config: RadioConfig, city: string)
    ensures var row := RadioRow(o, text, defs, config, city);
      |row.fields.vals| > 1 <==> exists k :: k in row.fields.vals && k != "cityName"
  {
    RadioRowCity(o, text, defs, config, city);
    MoreThanOneKey(RadioRow(o, text, defs, config, city).fields.vals, "cityName");
  }

  /** A map holding `key` has more than one entry exactly when it has another key. */
  lemma MoreThanOneKey(vals: map<string, Value>, key: string)
    requires key in vals
    ensures |vals| > 1 <==> exists k :: k in vals && k != key
  {
    if exists k :: k in vals && k != key {
      var k :| k in vals && k != key;
      assert {k, key} <= vals.Keys;
      assert |{k, key}| == 2;
      SubsetCardinality({k, key}, vals.Keys);
    } else {
      assert vals.Keys == {key};
    }
  }

  lemma SubsetCardinality(a: set<string>, b: set<string>)
    requires a <= b
    ensures |a| <= |b|
  {
    assert b == a + (b - a);
  }

  /** flushBuffer: an empty buffer yields nothing; otherwise the row built from the
      trimmed buffer is kept when it holds more than one entry. */
  function RadioFlushOut(o: Oracle, buffer: string, defs: seq<FieldDef>, config: RadioConfig, city: string): seq<RowValue> {
    if |buffer| == 0 then []
    else
      var row := RadioRow(o, Trim(buffer), defs, config, city);
      if |row.fields.vals| > 1 then [row] else []
  }

  // ─── the row methods ─────────────────────────────────────────────────────

  /** extractDateFields on a row. */
  method ExtractDateFields(o: Oracle, text: string, datePattern: string, row: ExtractedRow) returns (score: int)
    modifies row
    ensures row.fields == PutStrings(old(row.fields), DateEntries(o, text, datePattern).0)
    ensures score == DateEntries(o, text, datePattern).1
    ensures row.score == old(row.score)
  {
    var p := Compile(o, datePattern, {CaseInsensitive});
    if p.None? {
      return 0;
    }
    var m := o.find(p.value, text);
    if m.None? || m.value.GroupCount() == 0 || m.value.groups[0].None? {
      return 0;
    }
    var start := ("startDate", Trim(m.value.groups[0].value));
    PutStringsSnoc(row.fields, [], start);
    row.Put(start.0, Str(start.1));
    var entries := [start];
    if m.value.GroupCount() >= 2 && m.value.groups[1].Some? {
      var end := ("endDate", Trim(m.value.groups[1].value));
      PutStringsSnoc(old(row.fields), entries, end);
      row.Put(end.0, Str(end.1));
      entries := entries + [end];
    }
    assert entries == DateEntries(o, text, datePattern).0;
    return 2;
  }

  /** extractTimebandFields on a row. */
  method ExtractTimebandFields(o: Oracle, text: string, timePattern: string, row: ExtractedRow) returns (score: int)
    modifies row
    ensures row.fields == PutStrings(old(row.fields), TimebandEntries(o, text, timePattern).0)
    ensures score == TimebandEntries(o, text, timePattern).1
    ensures row.score == old(row.score)
  {
    var p := Compile(o, timePattern, {CaseInsensitive});
    if p.None? {
      return 0;
    }
    var m := o.find(p.value, text);
    if m.None? {
      return 0;
    }
    var entries: seq<(string, string)> := [];
    if m.value.GroupCount() >= 1 && m.value.groups[0].Some? {
      var start := ("timebandStart", Trim(m.value.groups[0].value));
      PutStringsSnoc(row.fields, [], start);
      row.Put(start.0, Str(start.1));
      entries := [start];
    }
    if m.value.GroupCount() >= 2 && m.value.groups[1].Some? {
      var end := ("timebandEnd", Trim(m.value.groups[1].value));
      PutStringsSnoc(old(row.fields), entries, end);
      row.Put(end.0, Str(end.1));
      entries := entries + [end];
    }
    assert entries == TimebandEntries(o, text, timePattern).0;
    return 1;
  }

  /** The state of the fill loop after `i` definitions. */
  predicate PutUpTo(start: LinkedMap<Value>, fields: LinkedMap<Value>, score: Int32, defs: seq<FieldDef>,
                    contribs: seq<Option<Value>>, i: nat) {
    && |contribs| == |defs| && i <= |defs|
    && fields == PutFold(start, defs[..i], contribs[..i])
    && score == Wrap32(ContributedWeight(defs[..i], contribs[..i]))
  }

  lemma SkipRadioField(start: LinkedMap<Value>, fields: LinkedMap<Value>, score: Int32, defs: seq<FieldDef>,
                       contribs: seq<Option<Value>>, i: nat)
    requires PutUpTo(start, fields, score, defs, contribs, i) && i < |defs| && contribs[i].None?
    ensures PutUpTo(start, fields, score, defs, contribs, i + 1)
  {
    assert defs[..i + 1][..i] == defs[..i] && contribs[..i + 1][..i] == contribs[..i];
  }

  lemma PutRadioField(start: LinkedMap<Value>, fields: LinkedMap<Value>, score: Int32, defs: seq<FieldDef>,
                      contribs: seq<Option<Value>>, i: nat, v: Value)
    requires PutUpTo(start, fields, score, defs, contribs, i) && i < |defs| && contribs[i] == Some(v)
    ensures PutUpTo(start, fields.Put(defs[i].fieldName, v), Wrap32(score + defs[i].score), defs, contribs, i + 1)
  {
    assert defs[..i + 1][..i] == defs[..i] && contribs[..i + 1][..i] == contribs[..i];
    Wrap32AddTo(score, ContributedWeight(defs[..i], contribs[..i]), defs[i].score);
  }

  /** The loop of extractGenericFields over precomputed contributions: each is put
      in definition order and the weights are summed with Java `int` addition. */
  method PutRadioContributions(row: ExtractedRow, defs: seq<FieldDef>, contribs: seq<Option<Value>>)
    returns (score: Int32)
    requires |contribs| == |defs|
    modifies row
    ensures row.fields == PutFold(old(row.fields), defs, contribs)
    ensures score == Wrap32(ContributedWeight(defs, contribs))
    ensures row.score == old(row.score)
  {
    ghost var start := row.fields;
    score := 0;
    for i := 0 to |defs|
      invariant PutUpTo(start, row.fields, score, defs, contribs, i)
      invariant row.score == old(row.score)
    {
      if contribs[i].Some? {
        PutRadioField(start, row.fields, score, defs, contribs, i, contribs[i].value);
        row.Put(defs[i].fieldName, contribs[i].value);
        score := Wrap32(score + defs[i].score);
      } else {
        SkipRadioField(start, row.fields, score, defs, contribs, i);
      }
    }
    assert defs[..|defs|] == defs && contribs[..|contribs|] == contribs;
  }

  /** extractGenericFields on a row that already holds the city, date and timeband
      entries: the invoice fields, then the `fct` rule on the whole row. */
  method ExtractGenericFields(o: Oracle, text: string, defs: seq<FieldDef>, row: ExtractedRow) returns (score: Int32)
    modifies row
    ensures row.fields == WithFct(PutFold(old(row.fields), defs, RadioContributions(o, text, defs)))
    ensures score == Wrap32(ContributedWeight(defs, RadioContributions(o, text, defs)))
    ensures row.score == old(row.score)
  {
    var contribs := RadioContributions(o, text, defs);
    score := PutRadioContributions(row, defs, contribs);
    var fct := FctValue(row.fields);
    if fct.Some? {
      row.Put("fct", fct.value);
    }
  }

  /** The row flushBuffer builds from the trimmed buffer text. */
  method BuildRadioRow(o: Oracle, text: string, defs: seq<FieldDef>, config: RadioConfig, city: string)
    returns (row: ExtractedRow)
    ensures fresh(row)
    ensures row.View() == RadioRow(o, text, defs, config, city)
  {
    var score;
    row, score := BuildContext(o, text, config, city);
    var generic := ExtractGenericFields(o, text, defs, row);
    row.SetScore(IntAdd(score, generic));
  }

  /** The first part of flushBuffer: a new row with `cityName`, then the date and
      timeband entries, and the score they make. */
  method BuildContext(o: Oracle, text: string, config: RadioConfig, city: string)
    returns (row: ExtractedRow, score: Int32)
    ensures fresh(row)
    ensures row.fields == ContextEntries(o, text, config, city)
    ensures score == ContextScore(o, text, config)
  {
    row := new ExtractedRow();
    score := 0;
    row.Put("cityName", Str(city));
    ghost var base := row.fields;
    if config.datePattern.Some? {
      var s := ExtractDateFields(o, text, config.datePattern.value, row);
      score := score + s;
    }
    assert row.fields == PutStrings(base, DatesOf(o, text, config).0) && score == DatesOf(o, text, config).1;
    if config.timePattern.Some? {
      var s := ExtractTimebandFields(o, text, config.timePattern.value, row);
      score := score + s;
    }
  }

  /** flushBuffer: builds the row of a non-empty buffer, keeps it when it holds more
      than the city, and empties the buffer. */
  method FlushBuffer(o: Oracle, buffer: string, rows: seq<ExtractedRow>, defs: seq<FieldDef>,
                     config: RadioConfig, city: string) returns (rowsOut: seq<ExtractedRow>, bufferOut: string)
    ensures bufferOut == ""
    ensures Views(rowsOut) == Views(rows) + RadioFlushOut(o, buffer, defs, config, city)
  {
    rowsOut, bufferOut := rows, "";
    if |buffer| == 0 {
      GenericContext.AppendNothing(Views(rows));
      return;
    }
    var text := Trim(buffer);
    var row := BuildRadioRow(o, text, defs, config, city);
    assert Views(rows) == old(Views(rows));
    KeptRow(o, buffer, defs, config, city, row.View());
    if row.Size() > 1 {
      ViewsAppend(rows, row);
      rowsOut := rows + [row];
    } else {
      GenericContext.AppendNothing(Views(rows));
    }
  }

  // ─── the scan ────────────────────────────────────────────────────────────

  /** What one line is to the scan: blank, a city line naming the detected city, or
      a data line (trimmed) with whether the row-start pattern finds in it. */
  datatype LineKind =
    | Blank
    | CityLine(city: string)
    | DataLine(text: string, isRowStart: bool)

  /** The fixed inputs of one scan. */
  datatype RadioSetup = RadioSetup(
    fieldDefs: seq<FieldDef>,
    config: RadioConfig,
    cityMappings: map<string, string>,
    rowStart: Option<Pattern>)

  /** Steps 1 and 2 of a line: blank once trimmed, a city line, or else a data line
      and whether it starts a row. */
  function Classify(o: Oracle, s: RadioSetup, line: string): (k: LineKind)
    ensures k.Blank? <==> Trim(line) == []
    ensures k.CityLine? <==> Trim(line) != [] && DetectCity(o, Trim(line), s.config, s.cityMappings).Some?
    ensures k.CityLine? ==> k.city == DetectCity(o, Trim(line), s.config, s.cityMappings).value
    ensures k.DataLine? ==> k.text == Trim(line) && k.text != []
    ensures k.DataLine? ==> k.isRowStart == (s.rowStart.Some? && Finds(o, s.rowStart.value, k.text))
  {
    var t := Trim(line);
    if t == [] then Blank
    else match DetectCity(o, t, s.config, s.cityMappings)
      case Some(city) => CityLine(city)
      case None => DataLine(t, s.rowStart.Some? && Finds(o, s.rowStart.value, t))
  }

  function Kinds(o: Oracle, s: RadioSetup, lines: seq<string>): (r: seq<LineKind>)
    ensures |r| == |lines|
    decreases |lines|
  {
    if lines == [] then []
    else
      var n := |lines| - 1;
      Kinds(o, s, lines[..n]) + [Classify(o, s, lines[n])]
  }

  lemma KindsSnoc(o: Oracle, s: RadioSetup, lines: seq<string>, i: nat)
    requires i < |lines|
    ensures Kinds(o, s, lines[..i + 1]) == Kinds(o, s, lines[..i]) + [Classify(o, s, lines[i])]
  {
    assert lines[..i + 1][..i] == lines[..i];
  }

  /** A buffered row handed to flushBuffer: its lines and the city in force. */
  datatype RadioFlush = RadioFlush(lines: seq<string>, city: string)

  /** The scan between two lines: the city in force, the flushes so far and the
      lines appended to the buffer since the last flush. */
  datatype RadioState = RadioState(city: string, flushes: seq<RadioFlush>, pending: seq<string>)

  const InitialState: RadioState := RadioState("N/A", [], [])

  /** One line of the scan. A city line flushes the buffer under the old city and
      switches city; a data line flushes the buffer when it starts a row, and is
      then appended to the buffer in every case. */
  function Step(st: RadioState, k: LineKind): RadioState {
    match k
    case Blank => st
    case CityLine(city) =>
      RadioState(city, if st.pending != [] then st.flushes + [RadioFlush(st.pending, st.city)] else st.flushes, [])
    case DataLine(t, isRowStart) =>
      var flush := isRowStart && st.pending != [];
      RadioState(st.city,
                 if flush then st.flushes + [RadioFlush(st.pending, st.city)] else st.flushes,
                 (if flush then [] else st.pending) + [t])
  }

  function Scan(kinds: seq<LineKind>): RadioState
    decreases |kinds|
  {
    if kinds == [] then InitialState else Step(Scan(kinds[..|kinds| - 1]), kinds[|kinds| - 1])
  }

  lemma ScanSnoc(kinds: seq<LineKind>, k: LineKind)
    ensures Scan(kinds + [k]) == Step(Scan(kinds), k)
  {
    assert (kinds + [k])[..|kinds|] == kinds;
  }

  /** The flushes of the whole text, the final one included. */
  function AllFlushes(kinds: seq<LineKind>): seq<RadioFlush> {
    var st := Scan(kinds);
    if st.pending != [] then st.flushes + [RadioFlush(st.pending, st.city)] else st.flushes
  }

  /** The rows each flush appends; the buffer holds each line followed by a space. */
  function FlushOuts(o: Oracle, s: RadioSetup, flushes: seq<RadioFlush>): (r: seq<seq<RowValue>>)
    ensures |r| == |flushes|
    ensures forall j :: 0 <= j < |flushes| ==>
      r[j] == RadioFlushOut(o, Terminated(flushes[j].lines), s.fieldDefs, s.config, flushes[j].city)
  {
    seq(|flushes|, j requires 0 <= j < |flushes| =>
      RadioFlushOut(o, Terminated(flushes[j].lines), s.fieldDefs, s.config, flushes[j].city))
  }

  lemma FlushOutsAppend(o: Oracle, s: RadioSetup, flushes: seq<RadioFlush>, f: RadioFlush)
    ensures Flatten(FlushOuts(o, s, flushes + [f])) ==
      Flatten(FlushOuts(o, s, flushes)) + RadioFlushOut(o, Terminated(f.lines), s.fieldDefs, s.config, f.city)
  {
    var out := RadioFlushOut(o, Terminated(f.lines), s.fieldDefs, s.config, f.city);
    var all, init := FlushOuts(o, s, flushes + [f]), FlushOuts(o, s, flushes);
    forall i | 0 <= i < |init| ensures all[i] == init[i] {
      assert (flushes + [f])[i] == flushes[i];
    }
    GenericContext.Snoc(all, init, out);
    FlattenAppend(init, out);
  }

  /** The rows of the whole text. */
  function RadioRows(o: Oracle, s: RadioSetup, pdfText: string): seq<RowValue> {
    Flatten(FlushOuts(o, s, AllFlushes(Kinds(o, s, Split(pdfText, '\n')))))
  }

  // ─── properties of the scan ──────────────────────────────────────────────

  /** The data lines, in text order. */
  function DataTexts(kinds: seq<LineKind>): seq<string>
    decreases |kinds|
  {
    if kinds == [] then []
    else
      var n := |kinds| - 1;
      DataTexts(kinds[..n]) + (if kinds[n].DataLine? then [kinds[n].text] else [])
  }

  /** The lines of the flushes, one flush after another. */
  function FlushedLines(flushes: seq<RadioFlush>): seq<string>
    decreases |flushes|
  {
    if flushes == [] then []
    else FlushedLines(flushes[..|flushes| - 1]) + flushes[|flushes| - 1].lines
  }

  /** No line but the first is a row start. */
  predicate OnlyFirstStarts(lines: seq<string>, starts: string -> bool) {
    forall m :: 1 <= m < |lines| ==> !starts(lines[m])
  }

  /** The flags of the data lines are those `starts` gives their texts. */
  predicate FlagsAgree(kinds: seq<LineKind>, starts: string -> bool) {
    forall i :: 0 <= i < |kinds| && kinds[i].DataLine? ==> kinds[i].isRowStart == starts(kinds[i].text)
  }

  /** The shape of the scan state: the flushed lines followed by the buffered ones
      are the data lines so far; every flush is non-empty; only the first line of a
      flush or of the buffer starts a row. */
  predicate ScanShape(st: RadioState, kinds: seq<LineKind>, starts: string -> bool) {
    && FlushedLines(st.flushes) + st.pending == DataTexts(kinds)
    && (forall j :: 0 <= j < |st.flushes| ==> st.flushes[j].lines != [] && OnlyFirstStarts(st.flushes[j].lines, starts))
    && OnlyFirstStarts(st.pending, starts)
  }

  lemma StepShape(st: RadioState, kinds: seq<LineKind>, k: LineKind, starts: string -> bool)
    requires ScanShape(st, kinds, starts)
    requires k.DataLine? ==> k.isRowStart == starts(k.text)
    ensures ScanShape(Step(st, k), kinds + [k], starts)
  {
    var next := Step(st, k);
    assert (kinds + [k])[..|kinds|] == kinds;
    var flushed := next.flushes != st.flushes;
    if flushed {
      var f := RadioFlush(st.pending, st.city);
      assert next.flushes == st.flushes + [f];
      assert (st.flushes + [f])[..|st.flushes|] == st.flushes;
      assert FlushedLines(next.flushes) == FlushedLines(st.flushes) + st.pending;
      forall j | 0 <= j < |next.flushes|
        ensures next.flushes[j].lines != [] && OnlyFirstStarts(next.flushes[j].lines, starts)
      {
        if j < |st.flushes| {
          assert next.flushes[j] == st.flushes[j];
        }
      }
    }
    match k {
      case Blank =>
      case CityLine(_) =>
      case DataLine(t, isRowStart) =>
        var kept := if flushed then [] else st.pending;
        assert next.pending == kept + [t];
        assert FlushedLines(next.flushes) + kept == FlushedLines(st.flushes) + st.pending;
        if !isRowStart {
          assert kept == st.pending;
          forall m | 1 <= m < |next.pending| ensures !starts(next.pending[m]) {
            if m < |st.pending| {
              assert next.pending[m] == st.pending[m];
            }
          }
        } else {
          assert kept == [];
        }
    }
  }

  /** The scan's shape holds after every prefix of the lines. */
  lemma {:induction false} ScanHasShape(kinds: seq<LineKind>, starts: string -> bool)
    requires FlagsAgree(kinds, starts)
    ensures ScanShape(Scan(kinds), kinds, starts)
    decreases |kinds|
  {
    if kinds != [] {
      var n := |kinds| - 1;
      assert FlagsAgree(kinds[..n], starts) by {
        forall i | 0 <= i < n && kinds[..n][i].DataLine?
          ensures kinds[..n][i].isRowStart == starts(kinds[..n][i].text)
        {
          assert kinds[..n][i] == kinds[i];
        }
      }
      ScanHasShape(kinds[..n], starts);
      assert kinds == kinds[..n] + [kinds[n]];
      StepShape(Scan(kinds[..n]), kinds[..n], kinds[n], starts);
    }
  }

  /** Every data line goes to exactly one row buffer, in text order, and none is
      dropped (both accumulation branches append); every buffer handed to
      flushBuffer is non-empty and holds a row-start line, if any, only first. */
  lemma AllFlushesShape(kinds: seq<LineKind>, starts: string -> bool)
    requires FlagsAgree(kinds, starts)
    ensures FlushedLines(AllFlushes(kinds)) == DataTexts(kinds)
    ensures forall j :: 0 <= j < |AllFlushes(kinds)| ==>
      AllFlushes(kinds)[j].lines != [] && OnlyFirstStarts(AllFlushes(kinds)[j].lines, starts)
  {
    var st := Scan(kinds);
    ScanHasShape(kinds, starts);
    if st.pending != [] {
      var f := RadioFlush(st.pending, st.city);
      assert (st.flushes + [f])[..|st.flushes|] == st.flushes;
      forall j | 0 <= j < |AllFlushes(kinds)|
        ensures AllFlushes(kinds)[j].lines != [] && OnlyFirstStarts(AllFlushes(kinds)[j].lines, starts)
      {
        if j < |st.flushes| {
          assert AllFlushes(kinds)[j] == st.flushes[j];
        }
      }
    }
  }

  /** The classifier's flags are those of the row-start pattern. */
  lemma {:induction false} ClassifiedFlagsAgree(o: Oracle, s: RadioSetup, lines: seq<string>)
    ensures FlagsAgree(Kinds(o, s, lines), t => s.rowStart.Some? && Finds(o, s.rowStart.value, t))
    decreases |lines|
  {
    if lines != [] {
      var n := |lines| - 1;
      var prev := Kinds(o, s, lines[..n]);
      ClassifiedFlagsAgree(o, s, lines[..n]);
      var kinds := Kinds(o, s, lines);
      assert kinds == prev + [Classify(o, s, lines[n])];
      forall i | 0 <= i < |kinds| && kinds[i].DataLine?
        ensures kinds[i].isRowStart == (s.rowStart.Some? && Finds(o, s.rowStart.value, kinds[i].text))
      {
        if i < n {
          assert kinds[i] == prev[i];
        }
      }
    }
  }

  /** Before any city line the city in force is "N/A". */
  lemma {:induction false} NoCityLineMeansNA(kinds: seq<LineKind>)
    requires forall i :: 0 <= i < |kinds| ==> !kinds[i].CityLine?
    ensures Scan(kinds).city == "N/A"
    decreases |kinds|
  {
    if kinds != [] {
      var n := |kinds| - 1;
      assert forall i :: 0 <= i < n ==> kinds[..n][i] == kinds[i];
      NoCityLineMeansNA(kinds[..n]);
    }
  }

  /** After a city line the city in force is that line's city until the next city
      line. */
  lemma {:induction false} LastCityLineInForce(kinds: seq<LineKind>, i: nat)
    requires i < |kinds| && kinds[i].CityLine?
    requires forall j :: i < j < |kinds| ==> !kinds[j].CityLine?
    ensures Scan(kinds).city == kinds[i].city
    decreases |kinds|
  {
    var n := |kinds| - 1;
    if i < n {
      assert forall j :: 0 <= j < n ==> kinds[..n][j] == kinds[j];
      LastCityLineInForce(kinds[..n], i);
    }
  }

  /** A flush made at a line carries the city in force just before that line: a
      city line flushes under the old city. */
  lemma FlushUnderOldCity(st: RadioState, k: LineKind)
    requires |Step(st, k).flushes| > |st.flushes|
    ensures Step(st, k).flushes == st.flushes + [RadioFlush(st.pending, st.city)]
    ensures st.pending != []
  {
  }

  /** Every row the scan emits holds its `cityName` and at least one other entry. */
  lemma RowsHoldCityAndData(o: Oracle, s: RadioSetup, pdfText: string)
    ensures forall r :: r in RadioRows(o, s, pdfText) ==> "cityName" in r.fields.vals && |r.fields.vals| > 1
  {
    var flushes := AllFlushes(Kinds(o, s, Split(pdfText, '\n')));
    FlattenedRows(o, s, flushes);
  }

  lemma {:induction false} FlattenedRows(o: Oracle, s: RadioSetup, flushes: seq<RadioFlush>)
    ensures forall r :: r in Flatten(FlushOuts(o, s, flushes)) ==> "cityName" in r.fields.vals && |r.fields.vals| > 1
    decreases |flushes|
  {
    if flushes != [] {
      var n := |flushes| - 1;
      FlattenedRows(o, s, flushes[..n]);
      assert flushes == flushes[..n] + [flushes[n]];
      FlushOutsAppend(o, s, flushes[..n], flushes[n]);
      FlushOutHoldsCityAndData(o, Terminated(flushes[n].lines), s.fieldDefs, s.config, flushes[n].city);
    }
  }

  /** The row a flush keeps holds its `cityName` and another entry. */
  lemma FlushOutHoldsCityAndData(o: Oracle, buffer: string, defs: seq<FieldDef>, config: RadioConfig, city: string)
    ensures forall r :: r in RadioFlushOut(o, buffer, defs, config, city) ==> "cityName" in r.fields.vals && |r.fields.vals| > 1
  {
    if |buffer| > 0 {
      var row := RadioRow(o, Trim(buffer), defs, config, city);
      RadioRowCity(o, Trim(buffer), defs, config, city);
      KeptRow(o, buffer, defs, config, city, row);
      KeptRowHolds(row, RadioFlushOut(o, buffer, defs, config, city));
    }
  }

  /** The flush of a non-empty buffer in terms of the row it builds. */
  lemma KeptRow(o: Oracle, buffer: string, defs: seq<FieldDef>, config: RadioConfig, city: string, row: RowValue)
    requires |buffer| > 0 && row == RadioRow(o, Trim(buffer), defs, config, city)
    ensures RadioFlushOut(o, buffer, defs, config, city) == if |row.fields.vals| > 1 then [row] else []
  {
  }

  lemma KeptRowHolds(row: RowValue, out: seq<RowValue>)
    requires "cityName" in row.fields.vals
    requires out == (if |row.fields.vals| > 1 then [row] else [])
    ensures forall r :: r in out ==> "cityName" in r.fields.vals && |r.fields.vals| > 1
  {
  }

  // ─── the scan method ─────────────────────────────────────────────────────

  /** The loop's real state mirrors the scan state: the city, the row objects'
      values and the buffer, each line followed by a space. */
  predicate RadioMirrors(o: Oracle, s: RadioSetup, city: string, views: seq<RowValue>, buffer: string,
                         pending: seq<string>, st: RadioState) {
    && st.city == city
    && st.pending == pending
    && views == Flatten(FlushOuts(o, s, st.flushes))
    && buffer == Terminated(pending)
  }

  lemma TerminatedEmpty(pending: seq<string>)
    ensures (|Terminated(pending)| == 0) == (pending == [])
  {
    if pending != [] {
      assert Terminated(pending) == Terminated(pending[..|pending| - 1]) + pending[|pending| - 1] + " ";
    }
  }

  /** One classified line of the loop of extract. */
  method ScanLine(o: Oracle, s: RadioSetup, kind: LineKind, city: string, rows: seq<ExtractedRow>,
                  buffer: string, ghost pending: seq<string>, ghost st: RadioState)
    returns (cityOut: string, rowsOut: seq<ExtractedRow>, bufferOut: string, ghost pendingOut: seq<string>)
    requires RadioMirrors(o, s, city, Views(rows), buffer, pending, st)
    ensures RadioMirrors(o, s, cityOut, Views(rowsOut), bufferOut, pendingOut, Step(st, kind))
  {
    cityOut, rowsOut, bufferOut, pendingOut := city, rows, buffer, pending;
    TerminatedEmpty(pending);
    match kind {
      case Blank =>
      case CityLine(detected) =>
        rowsOut, bufferOut := FlushBuffer(o, buffer, rows, s.fieldDefs, s.config, city);
        if pending != [] {
          FlushOutsAppend(o, s, st.flushes, RadioFlush(pending, city));
        }
        pendingOut := [];
        cityOut := detected;
      case DataLine(trimmed, isRowStart) =>
        if isRowStart {
          rowsOut, bufferOut := FlushBuffer(o, buffer, rows, s.fieldDefs, s.config, city);
          if pending != [] {
            FlushOutsAppend(o, s, st.flushes, RadioFlush(pending, city));
          }
          pendingOut := [];
        }
        TerminatedAppend(pendingOut, trimmed);
        bufferOut := bufferOut + trimmed + " ";
        pendingOut := pendingOut + [trimmed];
    }
  }

  /** The classification of one line, in a method. */
  method ClassifyLine(o: Oracle, s: RadioSetup, line: string) returns (kind: LineKind)
    ensures kind == Classify(o, s, line)
  {
    var trimmed := Trim(line);
    if trimmed == [] {
      return Blank;
    }
    var detected := DetectCity(o, trimmed, s.config, s.cityMappings);
    if detected.Some? {
      return CityLine(detected.value);
    }
    var isRowStart := false;
    if s.rowStart.Some? {
      isRowStart := Finds(o, s.rowStart.value, trimmed);
    }
    return DataLine(trimmed, isRowStart);
  }

  /** The loop of extract over the lines. */
  method ScanLines(o: Oracle, s: RadioSetup, lines: seq<string>)
    returns (city: string, rows: seq<ExtractedRow>, rowBuffer: string, ghost pending: seq<string>)
    ensures RadioMirrors(o, s, city, Views(rows), rowBuffer, pending, Scan(Kinds(o, s, lines)))
  {
    city := "N/A";
    rows := [];
    rowBuffer := "";
    pending := [];
    ghost var kinds: seq<LineKind> := [];
    for i := 0 to |lines|
      invariant kinds == Kinds(o, s, lines[..i])
      invariant RadioMirrors(o, s, city, Views(rows), rowBuffer, pending, Scan(kinds))
    {
      KindsSnoc(o, s, lines, i);
      var kind := ClassifyLine(o, s, lines[i]);
      ScanSnoc(kinds, kind);
      city, rows, rowBuffer, pending := ScanLine(o, s, kind, city, rows, rowBuffer, pending, Scan(kinds));
      kinds := kinds + [kind];
    }
    assert lines[..|lines|] == lines;
  }

  /** The scan and the flush of the last row. */
  method ExtractRows(o: Oracle, s: RadioSetup, pdfText: string) returns (rows: seq<ExtractedRow>)
    ensures Views(rows) == RadioRows(o, s, pdfText)
  {
    var lines := Split(pdfText, '\n');
    var city, rowBuffer;
    ghost var pending;
    city, rows, rowBuffer, pending := ScanLines(o, s, lines);
    ghost var st := Scan(Kinds(o, s, lines));
    rows, rowBuffer := FlushBuffer(o, rowBuffer, rows, s.fieldDefs, s.config, city);
    TerminatedEmpty(pending);
    if pending != [] {
      FlushOutsAppend(o, s, st.flushes, RadioFlush(pending, city));
    } else {
      GenericContext.AppendNothing(Flatten(FlushOuts(o, s, st.flushes)));
    }
  }

  // ─── extract ─────────────────────────────────────────────────────────────

  /** An "invoice" block configuration with a start pattern. */
  predicate IsInvoiceStart(bc: BlockConfig) {
    bc.blockName == "invoice" && bc.blockStartPattern.Some?
  }

  /** The start pattern of the first "invoice" block configuration that has one. */
  function FirstInvoiceStart(configs: seq<BlockConfig>): (r: Option<string>)
    ensures r.None? <==> forall i :: 0 <= i < |configs| ==> !IsInvoiceStart(configs[i])
    ensures r.Some? ==> exists i ::
      && 0 <= i < |configs| && IsInvoiceStart(configs[i]) && configs[i].blockStartPattern == r
      && forall j :: 0 <= j < i ==> !IsInvoiceStart(configs[j])
    decreases |configs|
  {
    if configs == [] then None
    else if IsInvoiceStart(configs[0]) then configs[0].blockStartPattern
    else
      var r := FirstInvoiceStart(configs[1..]);
      assert forall i :: 1 <= i < |configs| ==> configs[i] == configs[1..][i - 1];
      assert r.Some? ==> exists i ::
        && 1 <= i < |configs| && IsInvoiceStart(configs[i]) && configs[i].blockStartPattern == r
        && forall j :: 0 <= j < i ==> !IsInvoiceStart(configs[j]) by {
        if r.Some? {
          var i :| && 0 <= i < |configs[1..]| && IsInvoiceStart(configs[1..][i]) && configs[1..][i].blockStartPattern == r
                   && forall j :: 0 <= j < i ==> !IsInvoiceStart(configs[1..][j]);
          assert configs[i + 1] == configs[1..][i];
        }
      }
      r
  }

  /** resolveRowStartPattern: the radio configuration's pattern overrides the block
      configuration's; either is compiled case-insensitively, and one that does not
      compile escapes as an exception; no pattern at all gives none. */
  function ResolveRowStartPattern(o: Oracle, radioConfig: RadioConfig, tenant: Tenant): (r: Result<Option<Pattern>, Error>)
    ensures var chosen := if radioConfig.rowStartPattern.Some? then radioConfig.rowStartPattern
                          else FirstInvoiceStart(tenant.blockConfigs);
      && (chosen.None? ==> r == Ok(None))
      && (chosen.Some? && o.compiles(chosen.value) ==> r == Ok(Some(Pattern(chosen.value, {CaseInsensitive}))))
      && (chosen.Some? && !o.compiles(chosen.value) ==> r == Err(InvalidPattern(chosen.value)))
  {
    var chosen := if radioConfig.rowStartPattern.Some? then radioConfig.rowStartPattern
                  else FirstInvoiceStart(tenant.blockConfigs);
    match chosen
    case None => Ok(None)
    case Some(regex) =>
      match Compile(o, regex, {CaseInsensitive})
      case Some(p) => Ok(Some(p))
      case None => Err(InvalidPattern(regex))
  }

  /** The tenant's "invoice" field definitions by sort order. */
  function InvoiceFields(tenant: Tenant): (r: seq<FieldDef>)
    ensures SortedBySortOrder(r)
    ensures multiset(r) == multiset(FieldsOfBlock(tenant.fieldDefs, "invoice"))
  {
    SortBySortOrderSorted(FieldsOfBlock(tenant.fieldDefs, "invoice"));
    SortBySortOrder(FieldsOfBlock(tenant.fieldDefs, "invoice"))
  }

  /** The result of extract with its rows in block "invoice". */
  function RadioResult(tenant: Tenant, rows: seq<RowValue>): ResultValue {
    var blocks := OrderedMap([], map[]).Put("invoice", rows);
    ResultValue(Some(tenant.tenantKey), Some(tenant.displayName), blocks, None, AccuracyOf(blocks), [], "SUCCESS")
  }

  /** extract, exceptions as errors: no radio configuration, then a repeated city
      code, then a row-start pattern that does not compile. */
  function RadioExtraction(o: Oracle, store: Store, pdfText: string, tenant: Tenant): Result<ResultValue, Error> {
    if tenant.id !in store.radioConfigs then Err(NoRadioConfig(tenant.tenantKey))
    else
      var radioConfig := store.radioConfigs[tenant.id];
      match GetCityMappings(store.cityMappings, tenant.id)
      case Err(e) => Err(e)
      case Ok(cityMappings) =>
        match ResolveRowStartPattern(o, radioConfig, tenant)
        case Err(e) => Err(e)
        case Ok(rowStart) =>
          Ok(RadioResult(tenant, RadioRows(o, RadioSetup(InvoiceFields(tenant), radioConfig, cityMappings, rowStart), pdfText)))
  }

  /** A successful extraction is reported as SUCCESS for the tenant, with one block,
      "invoice", whose every row holds a city and at least one more entry, and an
      accuracy between 0 and 100. */
  lemma RadioExtractionShape(o: Oracle, store: Store, pdfText: string, tenant: Tenant)
    requires RadioExtraction(o, store, pdfText, tenant).Ok?
    ensures var r := RadioExtraction(o, store, pdfText, tenant).value;
      && r.blocks.keys == ["invoice"]
      && r.tenantKey == Some(tenant.tenantKey) && r.status == "SUCCESS"
      && (forall row :: row in r.blocks.vals["invoice"] ==> "cityName" in row.fields.vals && |row.fields.vals| > 1)
      && 0.0 <= r.accuracy <= 100.0
  {
    var radioConfig := store.radioConfigs[tenant.id];
    var cityMappings := GetCityMappings(store.cityMappings, tenant.id).value;
    var rowStart := ResolveRowStartPattern(o, radioConfig, tenant).value;
    var s := RadioSetup(InvoiceFields(tenant), radioConfig, cityMappings, rowStart);
    RowsHoldCityAndData(o, s, pdfText);
    var blocks := OrderedMap([], map[]).Put("invoice", RadioRows(o, s, pdfText));
    AccuracyBounds(AllValues(blocks.Values()));
  }

  /** The errors, in the order extract meets them; with a radio configuration present
      only a repeated city code or a row-start pattern that does not compile fails. */
  lemma RadioExtractionErrors(o: Oracle, store: Store, pdfText: string, tenant: Tenant)
    ensures tenant.id !in store.radioConfigs ==>
      RadioExtraction(o, store, pdfText, tenant) == Err(NoRadioConfig(tenant.tenantKey))
    ensures tenant.id in store.radioConfigs && RepeatedCode(CityRows(store.cityMappings, tenant.id)) ==>
      RadioExtraction(o, store, pdfText, tenant).Err? && RadioExtraction(o, store, pdfText, tenant).error.DuplicateKey?
    ensures tenant.id in store.radioConfigs && !RepeatedCode(CityRows(store.cityMappings, tenant.id)) ==>
      (RadioExtraction(o, store, pdfText, tenant).Err? <==>
         ResolveRowStartPattern(o, store.radioConfigs[tenant.id], tenant).Err?)
    ensures tenant.id in store.radioConfigs && RadioExtraction(o, store, pdfText, tenant).Err? ==>
      RadioExtraction(o, store, pdfText, tenant).error.DuplicateKey? || RadioExtraction(o, store, pdfText, tenant).error.InvalidPattern?
  {
    CityMapFailsIffRepeatedCode(CityRows(store.cityMappings, tenant.id));
    if GetCityMappings(store.cityMappings, tenant.id).Err? {
      CityMapFailureNamesRepeatedCode(CityRows(store.cityMappings, tenant.id));
    }
  }

  /** extract: loads the configuration, scans the lines, stores the rows under
      "invoice" and computes the accuracy. */
  method Extract(o: Oracle, store: Store, pdfText: string, tenant: Tenant) returns (outcome: Result<ExtractionResult, Error>)
    ensures outcome.Ok? <==> RadioExtraction(o, store, pdfText, tenant).Ok?
    ensures outcome.Ok? ==> fresh(outcome.value) && outcome.value.View() == RadioExtraction(o, store, pdfText, tenant).value
    ensures outcome.Err? ==> outcome.error == RadioExtraction(o, store, pdfText, tenant).error
  {
    if tenant.id !in store.radioConfigs {
      return Err(NoRadioConfig(tenant.tenantKey));
    }
    var radioConfig := store.radioConfigs[tenant.id];
    var fieldDefs := InvoiceFields(tenant);
    var cityMappings := GetCityMappings(store.cityMappings, tenant.id);
    if cityMappings.Err? {
      return Err(cityMappings.error);
    }
    var rowStartPattern := ResolveRowStartPattern(o, radioConfig, tenant);
    if rowStartPattern.Err? {
      return Err(rowStartPattern.error);
    }
    var s := RadioSetup(fieldDefs, radioConfig, cityMappings.value, rowStartPattern.value);
    var result := ExtractWithSetup(o, s, pdfText, tenant);
    return Ok(result);
  }

  /** The part of extract after the configuration is loaded: the scan, the block
      "invoice" and the accuracy. */
  method ExtractWithSetup(o: Oracle, s: RadioSetup, pdfText: string, tenant: Tenant) returns (result: ExtractionResult)
    ensures fresh(result)
    ensures result.View() == RadioResult(tenant, RadioRows(o, s, pdfText))
  {
    var rows := ExtractRows(o, s, pdfText);
    result := InvoiceResult(tenant, Views(rows));
  }

  /** The result object extract fills: the tenant, the rows under "invoice" and the
      accuracy over them. */
  method InvoiceResult(tenant: Tenant, rows: seq<RowValue>) returns (result: ExtractionResult)
    ensures fresh(result)
    ensures result.View() == RadioResult(tenant, rows)
  {
    result := new ExtractionResult();
    result.tenantKey := Some(tenant.tenantKey);
    result.tenantName := Some(tenant.displayName);
    result.PutBlock("invoice", rows);
    result.CalculateAccuracy();
  }
}
