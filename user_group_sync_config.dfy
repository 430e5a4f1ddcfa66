/** The user-sync configuration getters: each reads the property table and applies its
    default, its lower bound or its dependency on another setting. A property the table
    lacks is Java null (None); a number that does not parse is the parser's
    NumberFormatException (a Failure). */
module UserGroupSyncConfig {
  import opened Wrappers
  import opened JavaStrings

  type Properties = map<string, string>

  function GetProperty(prop: Properties, key: string): Option<string> {
    if key in prop then Some(prop[key]) else None
  }

  datatype ConfigError =
    | NumberFormatException(input: string)
    | ClassNotFound                            // no source class name could be derived

  // ---------------------------------------------------------------- keys and defaults

  const LGSYNC_USER_SEARCH_SCOPE: string := "ranger.usersync.ldap.user.searchscope"
  const LGSYNC_GROUP_SEARCH_SCOPE: string := "ranger.usersync.group.searchscope"
  const LGSYNC_PAGED_RESULTS_SIZE: string := "ranger.usersync.pagedresultssize"
  const LGSYNC_GROUP_HIERARCHY_LEVELS: string := "ranger.usersync.ldap.grouphierarchylevels"
  const UGSYNC_UPDATE_MILLIS_MIN: string := "ranger.usersync.unix.updatemillismin"
  const UGSYNC_SLEEP_TIME_IN_MILLIS_BETWEEN_CYCLE_PARAM: string := "ranger.usersync.sleeptimeinmillisbetweensynccycle"
  const UGSYNC_SLEEP_LDAP_FORCE_TIME_IN_MILLIS_BETWEEN_CYCLE_PARAM_ENABLED: string :=
    "ranger.usersync.ldap.force.sleeptimeinmillisbetweensynccycle.enabled"
  const UGSYNC_TEST_RUN_PROP: string := "ranger.usersync.policymanager.testrun"
  const UGSYNC_DELETES_FREQUENCY: string := "ranger.usersync.deletes.frequency"
  const LGSYNC_GROUP_SEARCH_ENABLED: string := "ranger.usersync.group.searchenabled"
  const LGSYNC_GROUP_SEARCH_FIRST_ENABLED: string := "ranger.usersync.group.search.first.enabled"
  const LGSYNC_USER_SEARCH_ENABLED: string := "ranger.usersync.user.searchenabled"
  const LGSYNC_GROUPNAMES: string := "ranger.usersync.ldap.groupnames"
  const UGSYNC_SOURCE_FILE_DELIMITER: string := "ranger.usersync.filesource.text.delimiter"
  const UGSYNC_SOURCE_FILE_DELIMITERER: string := "ranger.usersync.filesource.text.delimiterer"
  const UGSYNC_SOURCE_CLASS_PARAM: string := "ranger.usersync.source.impl.class"
  const SYNC_SOURCE: string := "ranger.usersync.sync.source"

  const UGSYNC_SOURCE_CLASS: string := "org.apache.ranger.unixusersync.process.UnixUserGroupBuilder"
  const LGSYNC_SOURCE_CLASS: string := "org.apache.ranger.ldapusersync.process.LdapUserGroupBuilder"

  const DEFAULT_LGSYNC_PAGED_RESULTS_SIZE: int := 500
  const DEFAULT_LGSYNC_GROUP_HIERARCHY_LEVELS: int := 0
  const DEFAULT_UGSYNC_UPDATE_MILLIS_MIN: int := 60_000
  const UGSYNC_SLEEP_TIME_IN_MILLIS_BETWEEN_CYCLE_MIN_VALUE: int := 60_000
  const UGSYNC_SLEEP_TIME_IN_MILLIS_BETWEEN_CYCLE_UNIX_DEFAULT_VALUE: int := 60_000
  const UGSYNC_SLEEP_TIME_IN_MILLIS_BETWEEN_CYCLE_LDAP_DEFAULT_VALUE: int := 3_600_000
  const DEFAULT_UGSYNC_DELETES_FREQUENCY: int := 10
  const DEFAULT_USER_GROUP_TEXTFILE_DELIMITER: string := ","

  // ---------------------------------------------------------------- search scope

  /** The LDAP search scope a setting names: 0 (object) for "0" or a value starting with
      "base", 1 (one level) for "1" or a value starting with "one", 2 (subtree) for anything
      else and for a missing or blank setting; the value is trimmed and lower-cased first. */
  function ParseSearchScope(val: Option<string>): (r: int)
    ensures 0 <= r <= 2
    ensures IsNullOrTrimEmpty(val) ==> r == 2
  {
    if IsNullOrTrimEmpty(val) then 2
    else
      var v := ToLower(Trim(val.value));
      if v == "0" || StartsWith(v, "base") then 0
      else if v == "1" || StartsWith(v, "one") then 1
      else 2
  }

  function GetUserSearchScope(prop: Properties): (r: int)
    ensures 0 <= r <= 2
  {
    ParseSearchScope(GetProperty(prop, LGSYNC_USER_SEARCH_SCOPE))
  }

  function GetGroupSearchScope(prop: Properties): (r: int)
    ensures 0 <= r <= 2
  {
    ParseSearchScope(GetProperty(prop, LGSYNC_GROUP_SEARCH_SCOPE))
  }

  /** A trimmed value that already has no surrounding blanks is itself. */
  lemma {:induction false} TrimOfUnpadded(s: string)
    requires |s| > 0 && !IsTrimmable(s[0]) && !IsTrimmable(s[|s| - 1])
    ensures Trim(s) == s
  {
    assert TrimLeft(s) == s;
    assert TrimRight(s) == s;
  }

  /** The scope settings ignore letter case: "Base" names the object scope, "ONE" the
      one-level scope, and "sub" the subtree. */
  lemma {:induction false} BaseScopeExample()
    ensures ParseSearchScope(Some("Base")) == 0
  {
    ScopeOfUnpadded("Base");
    assert LowerChar('B') == 'b';
  }

  lemma {:induction false} OneLevelScopeExample()
    ensures ParseSearchScope(Some("ONE")) == 1
  {
    ScopeOfUnpadded("ONE");
    assert LowerChar('O') == 'o' && LowerChar('N') == 'n' && LowerChar('E') == 'e';
  }

  lemma {:induction false} SubtreeScopeExample()
    ensures ParseSearchScope(Some("sub")) == 2
  {
    ScopeOfUnpadded("sub");
    assert LowerChar('s') == 's' && LowerChar('u') == 'u' && LowerChar('b') == 'b';
  }

  /** A value without surrounding blanks is read by its lower-case form alone. */
  lemma {:induction false} ScopeOfUnpadded(val: string)
    requires |val| > 0 && !IsTrimmable(val[0]) && !IsTrimmable(val[|val| - 1])
    ensures var v := ToLower(val);
      ParseSearchScope(Some(val)) == if v == "0" || StartsWith(v, "base") then 0 else if v == "1" || StartsWith(v, "one") then 1 else 2
  {
    TrimOfUnpadded(val);
  }

  /** A value reads as the object scope exactly when its trimmed lower-case form is "0" or
      starts with "base", and as the one-level scope exactly when it is "1" or starts with
      "one" (and not the former). */
  lemma SearchScopeCases(val: string)
    requires Trim(val) != []
    ensures var v := ToLower(Trim(val));
      && (ParseSearchScope(Some(val)) == 0 <==> v == "0" || StartsWith(v, "base"))
      && (ParseSearchScope(Some(val)) == 1 <==> !(v == "0" || StartsWith(v, "base")) && (v == "1" || StartsWith(v, "one")))
  {
  }

  // ---------------------------------------------------------------- bounded numbers

  /** The LDAP page size: 500 when unset, blank or parsed below 1, otherwise the setting;
      a setting Integer.parseInt rejects is an error. */
  function GetPagedResultsSize(prop: Properties): (r: Result<int, ConfigError>)
    ensures r.Success? ==> 1 <= r.value <= INT_MAX
    ensures IsNullOrTrimEmpty(GetProperty(prop, LGSYNC_PAGED_RESULTS_SIZE)) ==> r == Success(DEFAULT_LGSYNC_PAGED_RESULTS_SIZE)
    ensures var val := GetProperty(prop, LGSYNC_PAGED_RESULTS_SIZE);
      !IsNullOrTrimEmpty(val) ==>
        && (r.Success? <==> ParseInt(val.value).Some?)
        && (r.Success? ==> r.value == if ParseInt(val.value).value < 1 then DEFAULT_LGSYNC_PAGED_RESULTS_SIZE else ParseInt(val.value).value)
  {
    var val := GetProperty(prop, LGSYNC_PAGED_RESULTS_SIZE);
    var pagedResultsSize :-
      if IsNullOrTrimEmpty(val) then Success(DEFAULT_LGSYNC_PAGED_RESULTS_SIZE)
      else ParseOrFail(val.value, INT_MIN, INT_MAX);
    if pagedResultsSize < 1 then Success(DEFAULT_LGSYNC_PAGED_RESULTS_SIZE) else Success(pagedResultsSize)
  }

  /** The number of group hierarchy levels: 0 when unset, blank or negative, otherwise the
      setting; a setting Integer.parseInt rejects is an error. */
  function GetGroupHierarchyLevels(prop: Properties): (r: Result<int, ConfigError>)
    ensures r.Success? ==> 0 <= r.value <= INT_MAX
    ensures IsNullOrTrimEmpty(GetProperty(prop, LGSYNC_GROUP_HIERARCHY_LEVELS)) ==> r == Success(DEFAULT_LGSYNC_GROUP_HIERARCHY_LEVELS)
    ensures var val := GetProperty(prop, LGSYNC_GROUP_HIERARCHY_LEVELS);
      !IsNullOrTrimEmpty(val) ==>
        && (r.Success? <==> ParseInt(val.value).Some?)
        && (r.Success? ==> r.value == if ParseInt(val.value).value < 0 then DEFAULT_LGSYNC_GROUP_HIERARCHY_LEVELS else ParseInt(val.value).value)
  {
    var val := GetProperty(prop, LGSYNC_GROUP_HIERARCHY_LEVELS);
    var groupHierarchyLevels :-
      if IsNullOrTrimEmpty(val) then Success(DEFAULT_LGSYNC_GROUP_HIERARCHY_LEVELS)
      else ParseOrFail(val.value, INT_MIN, INT_MAX);
    if groupHierarchyLevels < 0 then Success(DEFAULT_LGSYNC_GROUP_HIERARCHY_LEVELS) else Success(groupHierarchyLevels)
  }

  /** Integer.parseInt / Long.parseLong on the untrimmed value; an unparsable one is an error. */
  function ParseOrFail(s: string, lo: int, hi: int): (r: Result<int, ConfigError>)
    ensures r.Success? <==> ParseInteger(s, lo, hi).Some?
    ensures r.Success? ==> r.value == ParseInteger(s, lo, hi).value
  {
    match ParseInteger(s, lo, hi)
    case Some(v) => Success(v)
    case None => Failure(NumberFormatException(s))
  }

  /** The minimum update interval of the Unix source: 60000 when unset, otherwise the larger
      of the setting and 60000. A blank setting does not parse. */
  function GetUpdateMillisMin(prop: Properties): (r: Result<int, ConfigError>)
    ensures r.Success? ==> DEFAULT_UGSYNC_UPDATE_MILLIS_MIN <= r.value <= LONG_MAX
    ensures UGSYNC_UPDATE_MILLIS_MIN !in prop ==> r == Success(DEFAULT_UGSYNC_UPDATE_MILLIS_MIN)
    ensures UGSYNC_UPDATE_MILLIS_MIN in prop ==>
      && (r.Success? <==> ParseLong(prop[UGSYNC_UPDATE_MILLIS_MIN]).Some?)
      && (r.Success? ==> r.value == Max(ParseLong(prop[UGSYNC_UPDATE_MILLIS_MIN]).value, DEFAULT_UGSYNC_UPDATE_MILLIS_MIN))
  {
    var val := GetProperty(prop, UGSYNC_UPDATE_MILLIS_MIN);
    if val.None? then Success(DEFAULT_UGSYNC_UPDATE_MILLIS_MIN)
    else
      var ret :- ParseOrFail(val.value, LONG_MIN, LONG_MAX);
      Success(Max(ret, DEFAULT_UGSYNC_UPDATE_MILLIS_MIN))
  }

  function Max(a: int, b: int): int {
    if a >= b then a else b
  }

  /** A test run is on when the setting, trimmed, reads "true" in any letter case. */
  predicate IsTestRunEnabled(prop: Properties)
    ensures UGSYNC_TEST_RUN_PROP !in prop ==> !IsTestRunEnabled(prop)
  {
    var val := GetProperty(prop, UGSYNC_TEST_RUN_PROP);
    val.Some? && EqualsIgnoreCase(Trim(val.value), "true")
  }

  /** The sleep between sync cycles for a source of the given class. Unset, it is the
      source's default (an hour for LDAP, a minute otherwise). Set, it is raised to the
      source's minimum unless this is a test run; for LDAP, the force flag lets a value
      below the hour stand. */
  function GetSleepTimeInMillisBetweenCycle(prop: Properties, className: string): (r: Result<int, ConfigError>)
    ensures UGSYNC_SLEEP_TIME_IN_MILLIS_BETWEEN_CYCLE_PARAM !in prop ==>
      r == Success(if className == LGSYNC_SOURCE_CLASS then UGSYNC_SLEEP_TIME_IN_MILLIS_BETWEEN_CYCLE_LDAP_DEFAULT_VALUE
                   else UGSYNC_SLEEP_TIME_IN_MILLIS_BETWEEN_CYCLE_UNIX_DEFAULT_VALUE)
    ensures UGSYNC_SLEEP_TIME_IN_MILLIS_BETWEEN_CYCLE_PARAM in prop ==>
      (r.Success? <==> ParseLong(prop[UGSYNC_SLEEP_TIME_IN_MILLIS_BETWEEN_CYCLE_PARAM]).Some?)
    ensures UGSYNC_SLEEP_TIME_IN_MILLIS_BETWEEN_CYCLE_PARAM in prop && r.Success? ==>
      var ret := ParseLong(prop[UGSYNC_SLEEP_TIME_IN_MILLIS_BETWEEN_CYCLE_PARAM]).value;
      r.value == if IsTestRunEnabled(prop) then ret else Max(ret, MinSleepInterval(prop, className, ret))
  {
    var val := GetProperty(prop, UGSYNC_SLEEP_TIME_IN_MILLIS_BETWEEN_CYCLE_PARAM);
    if val.None? then
      if className == LGSYNC_SOURCE_CLASS then Success(UGSYNC_SLEEP_TIME_IN_MILLIS_BETWEEN_CYCLE_LDAP_DEFAULT_VALUE)
      else Success(UGSYNC_SLEEP_TIME_IN_MILLIS_BETWEEN_CYCLE_UNIX_DEFAULT_VALUE)
    else
      var ret :- ParseOrFail(val.value, LONG_MIN, LONG_MAX);
      var minInterval := MinSleepInterval(prop, className, ret);
      if !IsTestRunEnabled(prop) && ret < minInterval then Success(minInterval) else Success(ret)
  }

  /** The least sleep a source accepts: the hour for LDAP (or the setting itself when the
      force flag is on and it is below the hour), a minute for Unix and for any other source. */
  function MinSleepInterval(prop: Properties, className: string, ret: int): (r: int)
    ensures className != LGSYNC_SOURCE_CLASS ==> r >= UGSYNC_SLEEP_TIME_IN_MILLIS_BETWEEN_CYCLE_MIN_VALUE
    ensures className == LGSYNC_SOURCE_CLASS ==> r <= UGSYNC_SLEEP_TIME_IN_MILLIS_BETWEEN_CYCLE_LDAP_DEFAULT_VALUE
    ensures className == LGSYNC_SOURCE_CLASS && r < UGSYNC_SLEEP_TIME_IN_MILLIS_BETWEEN_CYCLE_LDAP_DEFAULT_VALUE ==>
      r == ret && ParseBoolean(GetProperty(prop, UGSYNC_SLEEP_LDAP_FORCE_TIME_IN_MILLIS_BETWEEN_CYCLE_PARAM_ENABLED))
  {
    var isLdapForce := ParseBoolean(GetProperty(prop, UGSYNC_SLEEP_LDAP_FORCE_TIME_IN_MILLIS_BETWEEN_CYCLE_PARAM_ENABLED));
    if className == LGSYNC_SOURCE_CLASS then
      if isLdapForce && ret < UGSYNC_SLEEP_TIME_IN_MILLIS_BETWEEN_CYCLE_LDAP_DEFAULT_VALUE then ret
      else UGSYNC_SLEEP_TIME_IN_MILLIS_BETWEEN_CYCLE_LDAP_DEFAULT_VALUE
    else if className == UGSYNC_SOURCE_CLASS then UGSYNC_SLEEP_TIME_IN_MILLIS_BETWEEN_CYCLE_UNIX_DEFAULT_VALUE
    else UGSYNC_SLEEP_TIME_IN_MILLIS_BETWEEN_CYCLE_MIN_VALUE
  }

  /** The sleep for the configured source; no source class name is an error. */
  function GetSleepTimeForConfiguredSource(prop: Properties): (r: Result<int, ConfigError>)
    ensures GetUserGroupSourceClassName(prop).None? ==> r == Failure(ClassNotFound)
    ensures GetUserGroupSourceClassName(prop).Some? ==>
      r == GetSleepTimeInMillisBetweenCycle(prop, GetUserGroupSourceClassName(prop).value)
  {
    match GetUserGroupSourceClassName(prop)
    case None => Failure(ClassNotFound)
    case Some(className) => GetSleepTimeInMillisBetweenCycle(prop, className)
  }

  /** Outside a test run, an LDAP source without the force flag sleeps at least an hour, and
      any source at least a minute. */
  lemma SleepLowerBounds(prop: Properties, className: string)
    requires UGSYNC_SLEEP_TIME_IN_MILLIS_BETWEEN_CYCLE_PARAM in prop && !IsTestRunEnabled(prop)
    requires GetSleepTimeInMillisBetweenCycle(prop, className).Success?
    ensures className != LGSYNC_SOURCE_CLASS ==>
      GetSleepTimeInMillisBetweenCycle(prop, className).value >= UGSYNC_SLEEP_TIME_IN_MILLIS_BETWEEN_CYCLE_MIN_VALUE
    ensures className == LGSYNC_SOURCE_CLASS && !ParseBoolean(GetProperty(prop, UGSYNC_SLEEP_LDAP_FORCE_TIME_IN_MILLIS_BETWEEN_CYCLE_PARAM_ENABLED)) ==>
      GetSleepTimeInMillisBetweenCycle(prop, className).value >= UGSYNC_SLEEP_TIME_IN_MILLIS_BETWEEN_CYCLE_LDAP_DEFAULT_VALUE
  {
  }

  /** With the force flag, an LDAP setting below the hour is used as it is. */
  lemma {:induction false} LdapForceHonoured(prop: Properties)
    requires UGSYNC_SLEEP_TIME_IN_MILLIS_BETWEEN_CYCLE_PARAM in prop
    requires ParseBoolean(GetProperty(prop, UGSYNC_SLEEP_LDAP_FORCE_TIME_IN_MILLIS_BETWEEN_CYCLE_PARAM_ENABLED))
    requires ParseLong(prop[UGSYNC_SLEEP_TIME_IN_MILLIS_BETWEEN_CYCLE_PARAM]).Some?
    requires ParseLong(prop[UGSYNC_SLEEP_TIME_IN_MILLIS_BETWEEN_CYCLE_PARAM]).value < UGSYNC_SLEEP_TIME_IN_MILLIS_BETWEEN_CYCLE_LDAP_DEFAULT_VALUE
    ensures GetSleepTimeInMillisBetweenCycle(prop, LGSYNC_SOURCE_CLASS)
         == Success(ParseLong(prop[UGSYNC_SLEEP_TIME_IN_MILLIS_BETWEEN_CYCLE_PARAM]).value)
  {
    var ret := ParseLong(prop[UGSYNC_SLEEP_TIME_IN_MILLIS_BETWEEN_CYCLE_PARAM]).value;
    assert ParseOrFail(prop[UGSYNC_SLEEP_TIME_IN_MILLIS_BETWEEN_CYCLE_PARAM], LONG_MIN, LONG_MAX) == Success(ret);
    assert MinSleepInterval(prop, LGSYNC_SOURCE_CLASS, ret) == ret;
  }

  /** How many sync cycles pass between computations of deleted entries: 1 when unset or
      blank; otherwise the setting, raised to 10 unless this is a test run. */
  function GetUserSyncDeletesFrequency(prop: Properties): (r: Result<int, ConfigError>)
    ensures IsBlank(GetProperty(prop, UGSYNC_DELETES_FREQUENCY)) ==> r == Success(1)
    ensures !IsBlank(GetProperty(prop, UGSYNC_DELETES_FREQUENCY)) ==>
      (r.Success? <==> ParseLong(prop[UGSYNC_DELETES_FREQUENCY]).Some?)
    ensures !IsBlank(GetProperty(prop, UGSYNC_DELETES_FREQUENCY)) && r.Success? && !IsTestRunEnabled(prop) ==>
      r.value == Max(ParseLong(prop[UGSYNC_DELETES_FREQUENCY]).value, DEFAULT_UGSYNC_DELETES_FREQUENCY)
    ensures r.Success? && IsTestRunEnabled(prop) && !IsBlank(GetProperty(prop, UGSYNC_DELETES_FREQUENCY)) ==>
      r.value == ParseLong(prop[UGSYNC_DELETES_FREQUENCY]).value
  {
    var val := GetProperty(prop, UGSYNC_DELETES_FREQUENCY);
    if IsBlank(val) then Success(1)
    else
      var ret :- ParseOrFail(val.value, LONG_MIN, LONG_MAX);
      if !IsTestRunEnabled(prop) && ret < DEFAULT_UGSYNC_DELETES_FREQUENCY then Success(DEFAULT_UGSYNC_DELETES_FREQUENCY)
      else Success(ret)
  }

  // ---------------------------------------------------------------- search flags

  /** A flag that is on when unset or blank, and otherwise reads Boolean.parseBoolean of the setting. */
  function FlagDefaultTrue(val: Option<string>): bool {
    if IsNullOrTrimEmpty(val) then true else ParseBoolean(val)
  }

  /** Group search is on unless the setting is present, non-blank and not "true". */
  predicate IsGroupSearchEnabled(prop: Properties)
    ensures IsNullOrTrimEmpty(GetProperty(prop, LGSYNC_GROUP_SEARCH_ENABLED)) ==> IsGroupSearchEnabled(prop)
  {
    FlagDefaultTrue(GetProperty(prop, LGSYNC_GROUP_SEARCH_ENABLED))
  }

  /** Searching groups first is on only when group search is on. */
  function IsGroupSearchFirstEnabled(prop: Properties): (r: bool)
    ensures r ==> IsGroupSearchEnabled(prop)
    ensures r <==> IsGroupSearchEnabled(prop) && FlagDefaultTrue(GetProperty(prop, LGSYNC_GROUP_SEARCH_FIRST_ENABLED))
  {
    var groupSearchFirstEnabled := FlagDefaultTrue(GetProperty(prop, LGSYNC_GROUP_SEARCH_FIRST_ENABLED));
    if !IsGroupSearchEnabled(prop) then false else groupSearchFirstEnabled
  }

  /** User search can be switched off only when groups are searched first. */
  function IsUserSearchEnabled(prop: Properties): (r: bool)
    ensures !IsGroupSearchFirstEnabled(prop) ==> r
    ensures r <==> !IsGroupSearchFirstEnabled(prop) || FlagDefaultTrue(GetProperty(prop, LGSYNC_USER_SEARCH_ENABLED))
  {
    var userSearchEnabled := FlagDefaultTrue(GetProperty(prop, LGSYNC_USER_SEARCH_ENABLED));
    if !IsGroupSearchFirstEnabled(prop) then true else userSearchEnabled
  }

  /** Some search always runs: users are searched, or groups are searched first. */
  lemma SomeSearchRuns(prop: Properties)
    ensures IsUserSearchEnabled(prop) || (IsGroupSearchEnabled(prop) && IsGroupSearchFirstEnabled(prop))
  {
  }

  /** With nothing configured, group search, group-search-first and user search are all on. */
  lemma {:induction false} SearchFlagDefaults()
    ensures IsGroupSearchEnabled(map[]) && IsGroupSearchFirstEnabled(map[]) && IsUserSearchEnabled(map[])
  {
  }

  /** A flag set to "false" is off. */
  lemma {:induction false} FalseFlagIsOff(v: Option<string>)
    requires v == Some("false")
    ensures !FlagDefaultTrue(v)
  {
    SettingWords();
  }

  /** Turning group search off turns group-search-first off and user search on. */
  lemma GroupSearchOff(prop: Properties)
    requires LGSYNC_GROUP_SEARCH_ENABLED in prop && prop[LGSYNC_GROUP_SEARCH_ENABLED] == "false"
    ensures !IsGroupSearchFirstEnabled(prop) && IsUserSearchEnabled(prop)
  {
    FalseFlagIsOff(GetProperty(prop, LGSYNC_GROUP_SEARCH_ENABLED));
  }

  // ---------------------------------------------------------------- regex patterns

  /** The key of the i-th additional pattern: `base.i`. */
  function PatternKey(base: string, i: nat): string {
    base + "." + NatToString(i)
  }

  lemma PatternKeyInjective(base: string, a: nat, b: nat)
    requires a != b
    ensures PatternKey(base, a) != PatternKey(base, b)
  {
    NatToStringInjective(a, b);
    var ka, kb := PatternKey(base, a), PatternKey(base, b);
    assert NatToString(a) == ka[|base| + 1..];
    assert NatToString(b) == kb[|base| + 1..];
  }

  /** The keys `base.1`, …, `base.(i-1)`. */
  function SeenKeys(base: string, i: nat): set<string> {
    set j | 1 <= j < i :: PatternKey(base, j)
  }

  /** The patterns `base.i`, `base.(i+1)`, … up to the first index that is not configured. */
  function PatternsFrom(prop: Properties, base: string, i: nat): seq<string>
    requires i >= 1
    requires SeenKeys(base, i) <= prop.Keys
    decreases prop.Keys - SeenKeys(base, i)
  {
    var key := PatternKey(base, i);
    if key !in prop then []
    else
      SeenKeysGrow(base, i);
      [prop[key]] + PatternsFrom(prop, base, i + 1)
  }

  lemma SeenKeysGrow(base: string, i: nat)
    requires i >= 1
    ensures SeenKeys(base, i + 1) == SeenKeys(base, i) + {PatternKey(base, i)}
    ensures PatternKey(base, i) !in SeenKeys(base, i)
  {
    forall j | 1 <= j < i ensures PatternKey(base, j) != PatternKey(base, i) {
      PatternKeyInjective(base, j, i);
    }
  }

  /** The configured patterns of a base property: the base itself, then the numbered ones. */
  function RegexPatterns(prop: Properties, base: string): seq<string> {
    if base !in prop then []
    else
      assert SeenKeys(base, 1) == {};
      [prop[base]] + PatternsFrom(prop, base, 1)
  }

  /** The collection loop: the base pattern, then `base.1`, `base.2`, … while they exist. */
  method GetAllRegexPatterns(prop: Properties, baseProperty: string) returns (regexPatterns: seq<string>)
    ensures regexPatterns == RegexPatterns(prop, baseProperty)
  {
    regexPatterns := [];
    var baseRegex := GetProperty(prop, baseProperty);
    if baseRegex.None? {
      return;
    }
    regexPatterns := regexPatterns + [baseRegex.value];
    var i: nat := 1;
    assert SeenKeys(baseProperty, 1) == {};
    var nextRegex := GetProperty(prop, PatternKey(baseProperty, i));
    while nextRegex.Some?
      invariant i >= 1 && SeenKeys(baseProperty, i) <= prop.Keys
      invariant nextRegex == GetProperty(prop, PatternKey(baseProperty, i))
      invariant regexPatterns + PatternsFrom(prop, baseProperty, i) == RegexPatterns(prop, baseProperty)
      decreases prop.Keys - SeenKeys(baseProperty, i)
    {
      SeenKeysGrow(baseProperty, i);
      regexPatterns := regexPatterns + [nextRegex.value];
      i := i + 1;
      nextRegex := GetProperty(prop, PatternKey(baseProperty, i));
    }
  }

  /** Index characterisation of the numbered patterns: the one at position j - i is `base.j`,
      each of those keys is configured, and the first key after them is not. */
  lemma {:induction false} PatternsFromIndices(prop: Properties, base: string, i: nat)
    requires i >= 1
    requires SeenKeys(base, i) <= prop.Keys
    ensures var r := PatternsFrom(prop, base, i);
      && (forall j | i <= j < i + |r| :: PatternKey(base, j) in prop && r[j - i] == prop[PatternKey(base, j)])
      && PatternKey(base, i + |r|) !in prop
    decreases prop.Keys - SeenKeys(base, i)
  {
    var key := PatternKey(base, i);
    if key in prop {
      SeenKeysGrow(base, i);
      PatternsFromIndices(prop, base, i + 1);
      var rest := PatternsFrom(prop, base, i + 1);
      var r := PatternsFrom(prop, base, i);
      assert r == [prop[key]] + rest;
      forall j | i <= j < i + |r| ensures PatternKey(base, j) in prop && r[j - i] == prop[PatternKey(base, j)] {
        if j > i {
          assert r[j - i] == rest[j - (i + 1)];
        }
      }
    }
  }

  /** The patterns of a base property are [base, base.1, …, base.n] where base.(n+1) is the
      first missing key; none when the base is missing. */
  lemma RegexPatternsIndices(prop: Properties, base: string)
    ensures base !in prop ==> RegexPatterns(prop, base) == []
    ensures base in prop ==>
      var r := RegexPatterns(prop, base);
      && |r| >= 1 && r[0] == prop[base]
      && (forall k | 1 <= k < |r| :: PatternKey(base, k) in prop && r[k] == prop[PatternKey(base, k)])
      && PatternKey(base, |r|) !in prop
  {
    if base in prop {
      assert SeenKeys(base, 1) == {};
      PatternsFromIndices(prop, base, 1);
      var rest := PatternsFrom(prop, base, 1);
      var r := RegexPatterns(prop, base);
      assert r == [prop[base]] + rest;
      forall k | 1 <= k < |r| ensures PatternKey(base, k) in prop && r[k] == prop[PatternKey(base, k)] {
        assert r[k] == rest[k - 1];
      }
    }
  }

  // ---------------------------------------------------------------- group names and delimiter

  /** The configured group names: the `;`-separated tokens, trimmed and lower-cased; none when unset or empty. */
  function GroupNameSet(groupNames: Option<string>): set<string> {
    if IsNotEmpty(groupNames) then Mapped(Normalise, Tokens(groupNames.value, ';')) else {}
  }

  /** A token as it is stored: trimmed, then lower-cased. */
  function Normalise(token: string): string {
    ToLower(Trim(token))
  }

  /** The images of the tokens under `f`. */
  function Mapped(f: string -> string, tokens: seq<string>): set<string> {
    if tokens == [] then {}
    else Mapped(f, tokens[..|tokens| - 1]) + {f(tokens[|tokens| - 1])}
  }

  /** The tokenizer loop over the group-names property. */
  method GetGroupNameSet(prop: Properties) returns (groupNameSet: set<string>)
    ensures groupNameSet == GroupNameSet(GetProperty(prop, LGSYNC_GROUPNAMES))
  {
    var groupNames := GetProperty(prop, LGSYNC_GROUPNAMES);
    groupNameSet := {};
    if IsNotEmpty(groupNames) {
      groupNameSet := AddTokens(Tokens(groupNames.value, ';'));
    }
  }

  /** Adds each token, normalised, to an initially empty set. */
  method AddTokens(st: seq<string>) returns (groupNameSet: set<string>)
    ensures groupNameSet == Mapped(Normalise, st)
  {
    groupNameSet := {};
    var next := 0;
    while next < |st|
      invariant 0 <= next <= |st|
      invariant groupNameSet == Mapped(Normalise, st[..next])
      decreases |st| - next
    {
      assert st[..next + 1][..next] == st[..next];
      groupNameSet := groupNameSet + {Normalise(st[next])};
      next := next + 1;
    }
    assert st[..next] == st;
  }

  /** A name is among the images exactly when it is the image of one of the tokens. */
  lemma {:induction false} MappedMembers(f: string -> string, tokens: seq<string>, name: string)
    ensures name in Mapped(f, tokens) <==> exists i | 0 <= i < |tokens| :: name == f(tokens[i])
  {
    if tokens != [] {
      var init := tokens[..|tokens| - 1];
      MappedMembers(f, init, name);
      if name in Mapped(f, init) {
        var i :| 0 <= i < |init| && name == f(init[i]);
        assert tokens[i] == init[i];
      }
      if exists i | 0 <= i < |tokens| :: name == f(tokens[i]) {
        var i :| 0 <= i < |tokens| && name == f(tokens[i]);
        if i < |init| {
          assert init[i] == tokens[i];
        }
      }
    }
  }

  /** Every configured group name is lower case, and no name holds the separator. */
  lemma {:induction false} GroupNamesNormalised(groupNames: Option<string>, name: string)
    requires name in GroupNameSet(groupNames)
    ensures ';' !in name
    ensures forall k | 0 <= k < |name| :: !('A' <= name[k] <= 'Z')
  {
    var tokens := Tokens(groupNames.value, ';');
    MappedMembers(Normalise, tokens, name);
    var i :| 0 <= i < |tokens| && name == Normalise(tokens[i]);
    NormalisedToken(tokens[i]);
  }

  lemma {:induction false} NormalisedToken(token: string)
    requires ';' !in token
    ensures ';' !in ToLower(Trim(token))
    ensures forall k | 0 <= k < |ToLower(Trim(token))| :: !('A' <= ToLower(Trim(token))[k] <= 'Z')
  {
    TrimKeepsAbsent(token, ';');
    LowerCaseFacts(Trim(token), ';');
  }

  /** Images of consecutive token lists are the union of each list's images. */
  lemma {:induction false} MappedAppend(f: string -> string, ta: seq<string>, tb: seq<string>)
    ensures Mapped(f, ta + tb) == Mapped(f, ta) + Mapped(f, tb)
    decreases |tb|
  {
    if tb != [] {
      var t := ta + tb;
      assert t[..|t| - 1] == ta + tb[..|tb| - 1];
      MappedAppend(f, ta, tb[..|tb| - 1]);
    } else {
      assert ta + tb == ta;
    }
  }

  /** Joining two lists with the separator unions their names. */
  lemma {:induction false} GroupNamesSplit(a: string, b: string)
    ensures GroupNameSet(Some(a + ";" + b)) == GroupNameSet(Some(a)) + GroupNameSet(Some(b))
  {
    TokensSplit(a, b, ';');
    assert a + ";" + b == a + [';'] + b;
    MappedAppend(Normalise, Tokens(a, ';'), Tokens(b, ';'));
    assert |a| == 0 ==> Tokens(a, ';') == [];
    assert |b| == 0 ==> Tokens(b, ';') == [];
  }

  /** The delimiter of the text-file source: the delimiter setting, else the older misspelt
      setting, else a comma. */
  function GetUserSyncFileSourceDelimiter(prop: Properties): (r: string)
    ensures UGSYNC_SOURCE_FILE_DELIMITER in prop ==> r == prop[UGSYNC_SOURCE_FILE_DELIMITER]
    ensures UGSYNC_SOURCE_FILE_DELIMITER !in prop && UGSYNC_SOURCE_FILE_DELIMITERER in prop ==> r == prop[UGSYNC_SOURCE_FILE_DELIMITERER]
    ensures UGSYNC_SOURCE_FILE_DELIMITER !in prop && UGSYNC_SOURCE_FILE_DELIMITERER !in prop ==> r == DEFAULT_USER_GROUP_TEXTFILE_DELIMITER
  {
    GetProperty(prop, UGSYNC_SOURCE_FILE_DELIMITER).GetOr(
      GetProperty(prop, UGSYNC_SOURCE_FILE_DELIMITERER).GetOr(DEFAULT_USER_GROUP_TEXTFILE_DELIMITER))
  }

  // ---------------------------------------------------------------- source class

  /** The sync-source setting, trimmed; none when unset or blank. */
  function GetSyncSource(prop: Properties): (r: Option<string>)
    ensures r.Some? ==> SYNC_SOURCE in prop && r.value == Trim(prop[SYNC_SOURCE]) && r.value != []
    ensures r.None? <==> SYNC_SOURCE !in prop || Trim(prop[SYNC_SOURCE]) == []
  {
    if SYNC_SOURCE in prop then
      var syncSource := prop[SYNC_SOURCE];
      if Trim(syncSource) == [] then None else Some(Trim(syncSource))
    else None
  }

  /** The source implementation class: the class setting (the LDAP builder's name in any
      case normalised), replaced by the Unix or the LDAP builder when the source named by the
      class setting, or by the sync-source setting when the class setting is blank, is "UNIX"
      or "LDAP" in any case. None when neither setting decides. */
  function GetUserGroupSourceClassName(prop: Properties): (r: Option<string>)
    ensures var val := GetProperty(prop, UGSYNC_SOURCE_CLASS_PARAM);
      var syncSource := if IsNullOrTrimEmpty(val) then GetSyncSource(prop) else val;
      && (syncSource.Some? && EqualsIgnoreCase(syncSource.value, "UNIX") ==> r == Some(UGSYNC_SOURCE_CLASS))
      && (syncSource.Some? && EqualsIgnoreCase(syncSource.value, "LDAP") ==> r == Some(LGSYNC_SOURCE_CLASS))
      && (!(syncSource.Some? && (EqualsIgnoreCase(syncSource.value, "UNIX") || EqualsIgnoreCase(syncSource.value, "LDAP"))) ==>
            r == if !IsNullOrTrimEmpty(val) && EqualsIgnoreCase(val.value, LGSYNC_SOURCE_CLASS) then Some(LGSYNC_SOURCE_CLASS) else val)
  {
    var val0 := GetProperty(prop, UGSYNC_SOURCE_CLASS_PARAM);
    var val := if !IsNullOrTrimEmpty(val0) && EqualsIgnoreCase(val0.value, LGSYNC_SOURCE_CLASS) then Some(LGSYNC_SOURCE_CLASS) else val0;
    var syncSource := if IsNullOrTrimEmpty(val0) then GetSyncSource(prop) else val;
    if syncSource.Some? && EqualsIgnoreCase(syncSource.value, "UNIX") then Some(UGSYNC_SOURCE_CLASS)
    else if syncSource.Some? && EqualsIgnoreCase(syncSource.value, "LDAP") then Some(LGSYNC_SOURCE_CLASS)
    else val
  }

  /** A sync source of "ldap" with no class setting selects the LDAP builder. */
  lemma {:induction false} LdapSyncSourceExample()
    ensures GetUserGroupSourceClassName(map[SYNC_SOURCE := "ldap"]) == Some(LGSYNC_SOURCE_CLASS)
  {
    var prop := map[SYNC_SOURCE := "ldap"];
    KeyLengths();
    assert UGSYNC_SOURCE_CLASS_PARAM !in prop;
    SettingWords();
    assert GetSyncSource(prop) == Some("ldap");
  }

  /** With that source and no sleep setting, the sleep defaults to an hour. */
  lemma {:induction false} LdapSleepExample()
    ensures GetSleepTimeForConfiguredSource(map[SYNC_SOURCE := "ldap"]) == Success(UGSYNC_SLEEP_TIME_IN_MILLIS_BETWEEN_CYCLE_LDAP_DEFAULT_VALUE)
  {
    var prop := map[SYNC_SOURCE := "ldap"];
    LdapSyncSourceExample();
    KeyLengths();
    assert UGSYNC_SLEEP_TIME_IN_MILLIS_BETWEEN_CYCLE_PARAM !in prop;
  }

  /** Lengths and a last character that tell the setting names and class names apart. */
  lemma {:induction false} KeyLengths()
    ensures |UGSYNC_SOURCE_CLASS_PARAM| != |SYNC_SOURCE|
    ensures |UGSYNC_SLEEP_TIME_IN_MILLIS_BETWEEN_CYCLE_PARAM| != |SYNC_SOURCE|
    ensures |LGSYNC_SOURCE_CLASS| != |"UNIX"| && |LGSYNC_SOURCE_CLASS| != |"LDAP"|
    ensures LGSYNC_SOURCE_CLASS[|LGSYNC_SOURCE_CLASS| - 1] == 'r'
  {
  }

  /** A class setting naming the LDAP builder in another letter case is normalised to it. */
  lemma {:induction false} ClassNameNormalised(prop: Properties)
    requires UGSYNC_SOURCE_CLASS_PARAM in prop
    requires EqualsIgnoreCase(prop[UGSYNC_SOURCE_CLASS_PARAM], LGSYNC_SOURCE_CLASS)
    ensures GetUserGroupSourceClassName(prop) == Some(LGSYNC_SOURCE_CLASS)
  {
    var v := prop[UGSYNC_SOURCE_CLASS_PARAM];
    KeyLengths();
    assert Trim(v) != [] by {
      var last := |v| - 1;
      assert LowerChar(v[last]) == LowerChar(LGSYNC_SOURCE_CLASS[last]);
      assert !IsTrimmable(v[last]);
      TrimEmpty(v);
    }
  }
}
