/**
 The reconciliation of the database oracle with the Redis profile
 (`auth_harness/domain/oracle.py`, `auth_harness/infrastructure/redis_client.py`).
 */
module Profiles {
  import opened Wrappers
  import opened Ordering

  /** Parsed JSON. */
  datatype Json =
    | Null
    | Bool(b: bool)
    | Num(n: int)
    | Str(s: string)
    | Arr(items: seq<Json>)
    | Obj(fields: map<string, Json>)
  {
    /** Python truth. */
    predicate Truthy() {
      match this
      case Null => false
      case Bool(b) => b
      case Num(n) => n != 0
      case Str(s) => s != ""
      case Arr(items) => items != []
      case Obj(fields) => fields != map[]
    }
  }

  type Fields = map<string, Json>

  /** `profile.get(key)`; a missing key reads as null. */
  function Get(profile: Fields, key: string): Json {
    if key in profile then profile[key] else Null
  }

  /** Python's TypeError or ValueError. */
  datatype Failure = BadPayload | NotSortable | NotANumber

  /** `_unwrap_profile_payload`. */
  function UnwrapPayload(payload: Json): Result<Fields, Failure> {
    match payload
    case Arr(items) => if |items| == 2 && items[1].Obj? then Ok(items[1].fields) else Err(BadPayload)
    case Obj(fields) => Ok(fields)
    case _ => Err(BadPayload)
  }

  /** `load_profile` behind `json.loads`: no key, no profile. */
  function LoadProfile(raw: Option<Json>): Result<Option<Fields>, Failure> {
    match raw
    case None => Ok(None)
    case Some(payload) =>
      match UnwrapPayload(payload)
      case Ok(fields) => Ok(Some(fields))
      case Err(e) => Err(e)
  }

  /** `_unwrap_typed_list`. */
  function UnwrapTypedList(value: Json): seq<Json> {
    match value
    case Arr(items) => if |items| == 2 && items[0].Str? && items[1].Arr? then items[1].items else items
    case _ => []
  }

  function Listed(profile: Fields, key: string): seq<Json> {
    UnwrapTypedList(Get(profile, key))
  }

  // ---------------------------------------------------------------------------------------
  // Python's `sorted` on JSON lists
  // ---------------------------------------------------------------------------------------

  predicate AllTexts(items: seq<Json>) {
    forall k :: 0 <= k < |items| ==> items[k].Str?
  }

  predicate IsNumber(j: Json) {
    j.Num? || j.Bool?
  }

  predicate AllNumbers(items: seq<Json>) {
    forall k :: 0 <= k < |items| ==> IsNumber(items[k])
  }

  function Texts(items: seq<Json>): (texts: seq<string>)
    requires AllTexts(items)
    ensures |texts| == |items| && forall k :: 0 <= k < |items| ==> items[k] == Str(texts[k])
  {
    if items == [] then [] else [items[0].s] + Texts(items[1..])
  }

  function Items(texts: seq<string>): (items: seq<Json>)
    ensures |items| == |texts| && forall k :: 0 <= k < |items| ==> items[k] == Str(texts[k])
  {
    seq(|texts|, i requires 0 <= i < |texts| => Str(texts[i]))
  }

  /** Booleans count as 0 and 1. */
  function NumberOf(j: Json): int
    requires IsNumber(j)
  {
    match j
    case Num(n) => n
    case Bool(b) => if b then 1 else 0
  }

  function InsertNumber(x: Json, s: seq<Json>): (r: seq<Json>)
    requires IsNumber(x) && AllNumbers(s)
    ensures AllNumbers(r) && |r| == |s| + 1
  {
    if s == [] || NumberOf(x) <= NumberOf(s[0]) then [x] + s else [s[0]] + InsertNumber(x, s[1..])
  }

  /** Stable: of two equal numbers the first stays in front. */
  function SortNumbers(s: seq<Json>): (r: seq<Json>)
    requires AllNumbers(s)
    ensures AllNumbers(r) && |r| == |s|
  {
    if s == [] then [] else InsertNumber(s[0], SortNumbers(s[1..]))
  }

  /** `sorted`: any single element, texts, or numbers; other elements cannot be compared. */
  function Sorted(items: seq<Json>): Result<seq<Json>, Failure> {
    if |items| <= 1 then Ok(items)
    else if AllTexts(items) then Ok(Items(Sort(Texts(items))))
    else if AllNumbers(items) then Ok(SortNumbers(items))
    else Err(NotSortable)
  }

  predicate InOrder(s: seq<Json>)
    requires AllNumbers(s)
  {
    forall i, j :: 0 <= i < j < |s| ==> NumberOf(s[i]) <= NumberOf(s[j])
  }

  lemma {:induction false} InsertNumberKeepsOrder(x: Json, s: seq<Json>)
    requires IsNumber(x) && AllNumbers(s) && InOrder(s)
    ensures InOrder(InsertNumber(x, s))
    ensures var r := InsertNumber(x, s); r[0] == x || (s != [] && r[0] == s[0] && NumberOf(s[0]) < NumberOf(x))
    decreases |s|
  {
    if s != [] && NumberOf(x) > NumberOf(s[0]) {
      InsertNumberKeepsOrder(x, s[1..]);
      var r := InsertNumber(x, s[1..]);
      assert NumberOf(s[0]) <= NumberOf(r[0]);
      forall j | 0 <= j < |r| ensures NumberOf(s[0]) <= NumberOf(r[j]) {
        assert j > 0 ==> NumberOf(r[0]) <= NumberOf(r[j]);
      }
    }
  }

  lemma {:induction false} SortNumbersSorts(s: seq<Json>)
    requires AllNumbers(s)
    ensures InOrder(SortNumbers(s))
    decreases |s|
  {
    if s != [] {
      SortNumbersSorts(s[1..]);
      InsertNumberKeepsOrder(s[0], SortNumbers(s[1..]));
    }
  }

  lemma {:induction false} SortedNumbersStay(s: seq<Json>)
    requires AllNumbers(s) && InOrder(s)
    ensures SortNumbers(s) == s
    decreases |s|
  {
    if s != [] {
      SortedNumbersStay(s[1..]);
      assert s == [s[0]] + s[1..];
      assert |s| > 1 ==> s[1..][0] == s[1];
    }
  }

  lemma {:induction false} InsertNumberKeepsElements(x: Json, s: seq<Json>)
    requires IsNumber(x) && AllNumbers(s)
    ensures multiset(InsertNumber(x, s)) == multiset{x} + multiset(s)
    decreases |s|
  {
    if s != [] {
      InsertNumberKeepsElements(x, s[1..]);
      assert s == [s[0]] + s[1..];
    }
  }

  lemma {:induction false} SortNumbersKeepsElements(s: seq<Json>)
    requires AllNumbers(s)
    ensures multiset(SortNumbers(s)) == multiset(s)
    decreases |s|
  {
    if s != [] {
      SortNumbersKeepsElements(s[1..]);
      InsertNumberKeepsElements(s[0], SortNumbers(s[1..]));
      assert s == [s[0]] + s[1..];
    }
  }

  lemma {:induction false} InsertKeepsItems(x: string, texts: seq<string>)
    ensures multiset(Items(Insert(x, texts))) == multiset{Str(x)} + multiset(Items(texts))
    decreases |texts|
  {
    if texts == [] || LexLe(x, texts[0]) {
      assert Items([x] + texts) == [Str(x)] + Items(texts);
    } else {
      InsertKeepsItems(x, texts[1..]);
      assert Items([texts[0]] + Insert(x, texts[1..])) == [Str(texts[0])] + Items(Insert(x, texts[1..]));
      assert Items(texts) == [Str(texts[0])] + Items(texts[1..]);
    }
  }

  lemma {:induction false} SortKeepsItems(texts: seq<string>)
    ensures multiset(Items(Sort(texts))) == multiset(Items(texts))
    decreases |texts|
  {
    if texts != [] {
      SortKeepsItems(texts[1..]);
      InsertKeepsItems(texts[0], Sort(texts[1..]));
      assert Items(texts) == [Str(texts[0])] + Items(texts[1..]);
    }
  }

  /** The number Python compares: true is 1, false is 0. */
  predicate CountsAs(j: Json, n: int) {
    j == Num(n) || (j == Bool(false) && n == 0) || (j == Bool(true) && n == 1)
  }

  /** Numbers are sorted as numbers; two elements that cannot be compared are refused. */
  lemma SortedMeaning(items: seq<Json>)
    ensures Sorted(items).Ok? ==> multiset(Sorted(items).value) == multiset(items)
    ensures |items| > 1 && (forall k :: 0 <= k < |items| ==> items[k].Num? || items[k].Bool?) ==>
              && Sorted(items).Ok?
              && var r := Sorted(items).value;
                 forall i, j, m, n :: 0 <= i < j < |r| && CountsAs(r[i], m) && CountsAs(r[j], n) ==> m <= n
    ensures Sorted(items) == Err(NotSortable)
       <==> |items| > 1 && (exists k :: 0 <= k < |items| && !items[k].Str?) && (exists k :: 0 <= k < |items| && !items[k].Num? && !items[k].Bool?)
  {
    if |items| > 1 {
      if AllTexts(items) {
        SortKeepsItems(Texts(items));
        assert Items(Texts(items)) == items;
      } else if AllNumbers(items) {
        SortNumbersSorts(items);
        SortNumbersKeepsElements(items);
      }
    }
  }

  /** Sorting what is sorted, as the two functions together do, changes nothing. */
  lemma SortedTwice(items: seq<Json>)
    requires Sorted(items).Ok?
    ensures Sorted(Sorted(items).value) == Sorted(items)
  {
    if |items| > 1 {
      if AllTexts(items) {
        var once := Sort(Texts(items));
        SortSorts(Texts(items));
        assert |once| == |multiset(once)| == |multiset(Texts(items))| == |items|;
        assert Texts(Items(once)) == once;
        SortIsIdempotent(Texts(items));
      } else {
        SortNumbersSorts(items);
        SortedNumbersStay(SortNumbers(items));
        assert SortNumbers(items)[0].Num? || SortNumbers(items)[0].Bool?;
        assert !AllTexts(SortNumbers(items));
      }
    }
  }

  /** A sorted list of texts equals a sorted list exactly when that holds the same texts equally often. */
  lemma SortedAgreesIff(expected: seq<string>, items: seq<Json>)
    requires Sorted(items).Ok?
    ensures Items(Sort(expected)) == Sorted(items).value <==> AllTexts(items) && multiset(expected) == multiset(Texts(items))
  {
    var actual := Sorted(items).value;
    if AllTexts(items) {
      var texts := Texts(items);
      assert actual == Items(Sort(texts)) by {
        if |items| == 1 {
          assert texts[1..] == [] && Sort(texts) == [texts[0]];
        }
      }
      assert Texts(Items(Sort(expected))) == Sort(expected) && Texts(Items(Sort(texts))) == Sort(texts);
      SortedEqualIff(expected, texts);
    } else {
      assert |actual| > 0 && !actual[0].Str? by {
        if |items| > 1 {
          assert SortNumbers(items)[0].Num? || SortNumbers(items)[0].Bool?;
        }
      }
      assert Items(Sort(expected)) != [] ==> Items(Sort(expected))[0].Str?;
    }
  }

  // ---------------------------------------------------------------------------------------
  // Normalisation
  // ---------------------------------------------------------------------------------------

  /** `normalize_profile`, without the user id that only messages use. */
  datatype Normalized = Normalized(roles: seq<Json>, permissions: seq<Json>, permVersion: Json)

  /** `profile.get("permVersion") or profile.get("perm_version")`. */
  function VersionField(profile: Fields): Json {
    if Get(profile, "permVersion").Truthy() then Get(profile, "permVersion") else Get(profile, "perm_version")
  }

  function NormalizeProfile(profile: Fields): Result<Normalized, Failure> {
    match Sorted(Listed(profile, "roles"))
    case Err(e) => Err(e)
    case Ok(roles) =>
      match Sorted(Listed(profile, "permissions"))
      case Err(e) => Err(e)
      case Ok(permissions) => Ok(Normalized(roles, permissions, VersionField(profile)))
  }

  /** Python's `int` on text is foreign: a parameter of the comparison. */
  type ParseInt = string -> Option<int>

  function ToInt(value: Json, parse: ParseInt): Result<int, Failure> {
    match value
    case Num(n) => Ok(n)
    case Bool(b) => Ok(if b then 1 else 0)
    case Str(s) => if parse(s).Some? then Ok(parse(s).value) else Err(NotANumber)
    case _ => Err(NotANumber)
  }

  datatype Oracle = Oracle(roles: seq<string>, permissions: seq<string>, permVersion: Option<int>)

  datatype Diff =
    | NoProfile
    | FieldDiffers(field: string, expected: seq<string>, actual: seq<Json>)
    | VersionDiffers(oracle: int, redis: int)

  const FIELDS := ["roles", "permissions"]

  function OracleField(oracle: Oracle, field: string): seq<string> {
    if field == "roles" then oracle.roles else oracle.permissions
  }

  function NormalizedField(normalized: Normalized, field: string): seq<Json> {
    if field == "roles" then normalized.roles else normalized.permissions
  }

  // ---------------------------------------------------------------------------------------
  // What the comparison is for
  // ---------------------------------------------------------------------------------------

  /** A list field agrees: the same elements equally often. */
  predicate FieldAgrees(oracle: Oracle, profile: Fields, field: string) {
    AllTexts(Listed(profile, field)) && multiset(OracleField(oracle, field)) == multiset(Texts(Listed(profile, field)))
  }

  /** The versions agree, or one side does not know its version. */
  predicate VersionAgrees(oracle: Oracle, profile: Fields, parse: ParseInt) {
    oracle.permVersion.None? || VersionField(profile).Null? || ToInt(VersionField(profile), parse) == Ok(oracle.permVersion.value)
  }

  predicate Agrees(oracle: Oracle, profile: Fields, parse: ParseInt) {
    FieldAgrees(oracle, profile, "roles") && FieldAgrees(oracle, profile, "permissions") && VersionAgrees(oracle, profile, parse)
  }

  /** A difference of sorted lists that `d` reports. */
  predicate FieldReport(d: Diff, field: string, expected: seq<string>, actual: seq<Json>) {
    Items(expected) != actual && d == FieldDiffers(field, expected, actual)
  }

  /** `d` reports a disagreement there is. */
  predicate Reports(d: Diff, oracle: Oracle, profile: Fields, parse: ParseInt) {
    match d
    case NoProfile => false
    case FieldDiffers(field, expected, actual) =>
      && field in FIELDS && Sorted(Listed(profile, field)).Ok?
      && FieldReport(d, field, Sort(OracleField(oracle, field)), Sorted(Listed(profile, field)).value)
    case VersionDiffers(known, cached) =>
      && oracle.permVersion == Some(known) && !VersionField(profile).Null?
      && ToInt(VersionField(profile), parse) == Ok(cached) && known != cached
  }

  /** What the loop reports about the fields seen so far. */
  predicate ReportsField(d: Diff, oracle: Oracle, normalized: Normalized, fields: seq<string>) {
    && d.FieldDiffers? && d.field in fields && Sorted(NormalizedField(normalized, d.field)).Ok?
    && FieldReport(d, d.field, Sort(OracleField(oracle, d.field)), Sorted(NormalizedField(normalized, d.field)).value)
  }

  /** The loop over the list fields. */
  method CompareFields(oracle: Oracle, normalized: Normalized) returns (r: Result<seq<Diff>, Failure>)
    ensures r.Err? <==> Sorted(normalized.roles).Err? || Sorted(normalized.permissions).Err?
    ensures r.Ok? ==> forall d :: d in r.value <==> ReportsField(d, oracle, normalized, FIELDS)
  {
    var diffs: seq<Diff> := [];
    for i := 0 to |FIELDS|
      invariant forall k :: 0 <= k < i ==> Sorted(NormalizedField(normalized, FIELDS[k])).Ok?
      invariant forall d :: d in diffs <==> ReportsField(d, oracle, normalized, FIELDS[..i])
    {
      var field := FIELDS[i];
      assert FIELDS[..i + 1] == FIELDS[..i] + [field];
      var sorted := Sorted(NormalizedField(normalized, field));
      if sorted.Err? {
        return Err(sorted.error);
      }
      var expected, actual := Sort(OracleField(oracle, field)), sorted.value;
      if Items(expected) != actual {
        diffs := diffs + [FieldDiffers(field, expected, actual)];
      }
    }
    assert FIELDS[..|FIELDS|] == FIELDS && FIELDS[0] == "roles" && FIELDS[1] == "permissions";
    r := Ok(diffs);
  }

  /** A list field is reported unless it agrees. */
  lemma FieldIsReportedIff(oracle: Oracle, profile: Fields, field: string, parse: ParseInt)
    requires field in FIELDS && Sorted(Listed(profile, field)).Ok?
    ensures var d := FieldDiffers(field, Sort(OracleField(oracle, field)), Sorted(Listed(profile, field)).value);
            Reports(d, oracle, profile, parse) <==> !FieldAgrees(oracle, profile, field)
  {
    SortedAgreesIff(OracleField(oracle, field), Listed(profile, field));
  }

  /** A version is reported unless it agrees. */
  lemma VersionIsReportedIff(oracle: Oracle, profile: Fields, known: int, cached: int, parse: ParseInt)
    requires oracle.permVersion == Some(known) && !VersionField(profile).Null? && ToInt(VersionField(profile), parse) == Ok(cached)
    ensures Reports(VersionDiffers(known, cached), oracle, profile, parse) <==> !VersionAgrees(oracle, profile, parse)
  {
  }

  /** Nothing to report means agreement. */
  lemma NoReportsMeansAgreement(oracle: Oracle, profile: Fields, parse: ParseInt)
    requires !Unreadable(oracle, profile, parse) && forall d :: !Reports(d, oracle, profile, parse)
    ensures Agrees(oracle, profile, parse)
  {
    assert FIELDS[0] == "roles" && FIELDS[1] == "permissions";
    FieldIsReportedIff(oracle, profile, "roles", parse);
    FieldIsReportedIff(oracle, profile, "permissions", parse);
    if oracle.permVersion.Some? && !VersionField(profile).Null? {
      VersionIsReportedIff(oracle, profile, oracle.permVersion.value, ToInt(VersionField(profile), parse).value, parse);
    }
  }

  /** Agreement leaves nothing to report. */
  lemma AgreementHasNoReports(oracle: Oracle, profile: Fields, parse: ParseInt, d: Diff)
    requires Agrees(oracle, profile, parse)
    ensures !Reports(d, oracle, profile, parse)
  {
    FieldNames();
    match d
    case NoProfile =>
    case FieldDiffers(field, _, _) =>
      if field in FIELDS && Sorted(Listed(profile, field)).Ok? {
        FieldIsReportedIff(oracle, profile, field, parse);
      }
    case VersionDiffers(_, _) =>
  }

  /** Why the comparison of a present profile raises: a list that cannot be sorted, or a version that is no number. */
  predicate Unreadable(oracle: Oracle, profile: Fields, parse: ParseInt) {
    || Sorted(Listed(profile, "roles")).Err? || Sorted(Listed(profile, "permissions")).Err?
    || (oracle.permVersion.Some? && !VersionField(profile).Null? && ToInt(VersionField(profile), parse).Err?)
  }

  /** `compare_profiles` on a present profile. */
  method ComparePresent(oracle: Oracle, profile: Fields, parse: ParseInt) returns (r: Result<seq<Diff>, Failure>)
    ensures r.Err? <==> Unreadable(oracle, profile, parse)
    ensures r.Ok? ==> forall d :: d in r.value <==> Reports(d, oracle, profile, parse)
  {
    var normalized := NormalizeProfile(profile);
    if normalized.Err? {
      return Err(normalized.error);
    }
    SortedTwice(Listed(profile, "roles"));
    SortedTwice(Listed(profile, "permissions"));
    var compared := CompareFields(oracle, normalized.value);
    if compared.Err? {
      return Err(compared.error);
    }
    var diffs := compared.value;
    var actual := normalized.value.permVersion;
    if oracle.permVersion.Some? && !actual.Null? {
      var version := ToInt(actual, parse);
      if version.Err? {
        return Err(version.error);
      }
      if version.value != oracle.permVersion.value {
        diffs := diffs + [VersionDiffers(oracle.permVersion.value, version.value)];
      }
    }
    r := Ok(diffs);
  }

  lemma NoDiffsIffAgrees(oracle: Oracle, profile: Fields, parse: ParseInt, diffs: seq<Diff>)
    requires !Unreadable(oracle, profile, parse) && forall d :: d in diffs <==> Reports(d, oracle, profile, parse)
    ensures diffs == [] <==> Agrees(oracle, profile, parse)
  {
    if diffs == [] {
      NoReportsMeansAgreement(oracle, profile, parse);
    } else {
      assert Reports(diffs[0], oracle, profile, parse);
      if Agrees(oracle, profile, parse) {
        AgreementHasNoReports(oracle, profile, parse, diffs[0]);
      }
    }
  }

  /** What a difference carries: both sorted lists of its field, or both versions. */
  predicate Carries(d: Diff, oracle: Oracle, profile: Fields, parse: ParseInt) {
    match d
    case NoProfile => false
    case FieldDiffers(field, expected, actual) =>
      || (field == "roles" && expected == Sort(oracle.roles) && Sorted(Listed(profile, "roles")) == Ok(actual))
      || (field == "permissions" && expected == Sort(oracle.permissions) && Sorted(Listed(profile, "permissions")) == Ok(actual))
    case VersionDiffers(known, cached) =>
      oracle.permVersion == Some(known) && ToInt(VersionField(profile), parse) == Ok(cached) && known != cached
  }

  /**
   `compare_profiles`: on a present profile the differences are exactly the disagreements, and
   there are none exactly when the profile agrees with the oracle.
   */
  method CompareProfiles(oracle: Oracle, profile: Option<Fields>, requireRedis: bool, parse: ParseInt) returns (r: Result<seq<Diff>, Failure>)
    ensures profile.None? ==> r == Ok(if requireRedis then [NoProfile] else [])
    ensures profile.Some? ==> (r.Err? <==> Unreadable(oracle, profile.value, parse))
    ensures profile.Some? && r.Ok? ==> forall d :: d in r.value <==> Reports(d, oracle, profile.value, parse)
    ensures profile.Some? && r.Ok? ==>
              var roles, permissions, version := Listed(profile.value, "roles"), Listed(profile.value, "permissions"), VersionField(profile.value);
              r.value == [] <==>
                && AllTexts(roles) && multiset(oracle.roles) == multiset(Texts(roles))
                && AllTexts(permissions) && multiset(oracle.permissions) == multiset(Texts(permissions))
                && (oracle.permVersion.None? || version.Null? || ToInt(version, parse) == Ok(oracle.permVersion.value))
    ensures profile.Some? && r.Ok? ==> forall d :: d in r.value ==> Carries(d, oracle, profile.value, parse)
  {
    if profile.None? {
      return Ok(if requireRedis then [NoProfile] else []);
    }
    r := ComparePresent(oracle, profile.value, parse);
    if r.Ok? {
      FieldNames();
      NoDiffsIffAgrees(oracle, profile.value, parse, r.value);
    }
  }

  // ---------------------------------------------------------------------------------------
  // Representation does not matter, a zero version does
  // ---------------------------------------------------------------------------------------

  /** A list of texts as JSON. */
  function Plain(texts: seq<string>): Json {
    Arr(Items(texts))
  }

  /** The same list behind its class name. */
  function Typed(className: string, texts: seq<string>): Json {
    Arr([Str(className), Plain(texts)])
  }

  /** Plain or behind a class name, a list of texts is read back: no list of texts looks like a wrapper. */
  lemma ListIsReadBack(profile: Fields, key: string, className: string, texts: seq<string>)
    ensures Listed(profile[key := Plain(texts)], key) == Items(texts)
    ensures Listed(profile[key := Typed(className, texts)], key) == Items(texts)
    ensures AllTexts(Items(texts)) && Texts(Items(texts)) == texts
    ensures forall items: seq<Json> :: |items| != 2 || !items[0].Str? || !items[1].Arr? ==> Listed(profile[key := Arr(items)], key) == items
    ensures forall value: Json :: !value.Arr? ==> Listed(profile[key := value], key) == []
    ensures key !in profile ==> Listed(profile, key) == []
  {
    var wrapped := [Str(className), Plain(texts)];
    assert |wrapped| == 2 && wrapped[0].Str? && wrapped[1] == Plain(texts);
  }

  lemma FieldNames()
    ensures forall field :: field in FIELDS <==> field == "roles" || field == "permissions"
  {
    assert FIELDS[0] == "roles" && FIELDS[1] == "permissions";
  }

  /** Replacing one list field leaves the other one and the version as they are. */
  lemma OnlyThatField(oracle: Oracle, profile: Fields, key: string, other: string, value: Json, parse: ParseInt)
    requires key in FIELDS && other in FIELDS && key != other
    ensures var p := profile[key := value];
            && VersionAgrees(oracle, p, parse) == VersionAgrees(oracle, profile, parse)
            && FieldAgrees(oracle, p, other) == FieldAgrees(oracle, profile, other)
            && (Agrees(oracle, p, parse) <==> FieldAgrees(oracle, p, key) && FieldAgrees(oracle, profile, other) && VersionAgrees(oracle, profile, parse))
  {
    FieldNames();
    var p := profile[key := value];
    assert |"permVersion"| == 11 && |"perm_version"| == 12 && |"roles"| == 5;
    assert "permissions"[4] == 'i' && "permVersion"[4] == 'V';
    assert VersionField(p) == VersionField(profile);
    assert Listed(p, other) == Listed(profile, other);
  }

  /** A payload is the profile itself or a pair ending in it; anything else is refused.  No key, no profile. */
  lemma PayloadIsReadBack(profile: Fields, className: Json)
    ensures LoadProfile(None) == Ok(None)
    ensures forall raw: Json :: LoadProfile(Some(raw)).Err? || LoadProfile(Some(raw)).value.Some?
    ensures LoadProfile(Some(Obj(profile))) == Ok(Some(profile))
    ensures LoadProfile(Some(Arr([className, Obj(profile)]))) == Ok(Some(profile))
    ensures forall raw: Json :: LoadProfile(Some(raw)) == Ok(Some(profile)) ==>
              raw == Obj(profile) || exists head: Json :: raw == Arr([head, Obj(profile)])
  {
    var wrapped := [className, Obj(profile)];
    assert wrapped[1] == Obj(profile) && UnwrapPayload(Arr(wrapped)) == Ok(profile);
    forall raw: Json | LoadProfile(Some(raw)) == Ok(Some(profile)) && raw.Arr?
      ensures exists head: Json :: raw == Arr([head, Obj(profile)])
    {
      assert raw.items == [raw.items[0], Obj(profile)];
    }
  }

  /** Wrapping a list or reordering it never changes the outcome. */
  lemma RepresentationDoesNotMatter(oracle: Oracle, profile: Fields, key: string, className: string,
                                    texts: seq<string>, other: seq<string>, parse: ParseInt)
    requires key in FIELDS && multiset(texts) == multiset(other)
    ensures Agrees(oracle, profile[key := Plain(texts)], parse) <==> Agrees(oracle, profile[key := Typed(className, other)], parse)
  {
    ListIsReadBack(profile, key, className, texts);
    ListIsReadBack(profile, key, className, other);
    FieldNames();
    var remaining := if key == "roles" then "permissions" else "roles";
    OnlyThatField(oracle, profile, key, remaining, Plain(texts), parse);
    OnlyThatField(oracle, profile, key, remaining, Typed(className, other), parse);
    FieldByTexts(oracle, profile[key := Plain(texts)], key, texts);
    FieldByTexts(oracle, profile[key := Typed(className, other)], key, other);
  }

  lemma FieldByTexts(oracle: Oracle, profile: Fields, key: string, texts: seq<string>)
    requires Listed(profile, key) == Items(texts)
    ensures FieldAgrees(oracle, profile, key) <==> multiset(OracleField(oracle, key)) == multiset(texts)
  {
    assert AllTexts(Items(texts)) && Texts(Items(texts)) == texts;
  }

  /** `permVersion` counts unless it is missing, null, false, zero or empty; then `perm_version` does. */
  lemma VersionFieldMeaning(profile: Fields, value: Json)
    requires "permVersion" in profile && profile["permVersion"] == value
    ensures value == Null || value == Bool(false) || value == Num(0) || value == Str("") || value == Arr([]) || value == Obj(map[])
       ==> VersionField(profile) == if "perm_version" in profile then profile["perm_version"] else Null
    ensures value != Null && value != Bool(false) && value != Num(0) && value != Str("") && value != Arr([]) && value != Obj(map[])
       ==> VersionField(profile) == value
    ensures VersionField(profile - {"permVersion"}) == if "perm_version" in profile then profile["perm_version"] else Null
  {
    assert |"permVersion"| == 11 && |"perm_version"| == 12;
  }

  /** What `int` makes of a version. */
  lemma VersionNumber(parse: ParseInt, n: int, text: string, items: seq<Json>, fields: Fields)
    ensures ToInt(Num(n), parse) == Ok(n) && ToInt(Bool(true), parse) == Ok(1) && ToInt(Bool(false), parse) == Ok(0)
    ensures ToInt(Str(text), parse) == match parse(text) case Some(k) => Ok(k) case None => Err(NotANumber)
    ensures ToInt(Null, parse) == ToInt(Arr(items), parse) == ToInt(Obj(fields), parse) == Err(NotANumber)
  {
  }

  /**
   A stale version number goes unnoticed exactly when it is zero and the fallback field is missing
   or happens to hold the right number.
   */
  lemma StaleVersionIsMissedIff(oracle: Oracle, profile: Fields, stale: int, parse: ParseInt)
    requires oracle.permVersion.Some? && oracle.permVersion.value != stale
    requires Get(profile, "permVersion") == Num(stale)
    ensures VersionAgrees(oracle, profile, parse)
       <==> stale == 0 && var fallback := Get(profile, "perm_version");
                          fallback.Null? || ToInt(fallback, parse) == Ok(oracle.permVersion.value)
  {
  }
}
