# Apache Ranger: policy bundles, tag conditions, user management and usersync settings

This project models four parts of Apache Ranger in Dafny and proves what each part promises.

- **Policy bundles** (`ServicePolicies`). `copyHeader` builds a fresh bundle from another bundle's header and its tag sub-bundle. `applyDelta` assembles a bundle from a policy engine's cached policies and a list of policy deltas, zone by zone. `dedupStrings` sends every string of a bundle through one shared intern table.
- **The "tags all present" policy condition** (`RangerTagsAllPresentConditionEvaluator`). `init` collects the trimmed condition values. `isMatched` holds when every one of them is the type of some tag on the accessed resource.
- **User and group management in the admin server** (`XUserMgr`):
  - the batch user write and the user-store version bump, with its retry loop;
  - the version gate of `getRangerUserStoreIfUpdated`;
  - role assignment from user, group and white-list rules, with the reset pass;
  - the role diff of a profile update and the role-to-module permission grants;
  - masking, pagination, and scrubbing a user or group out of policy items;
  - the group-membership create/delete diff;
  - the placement of an exact name match in a group search.
- **Usersync settings** (`UserGroupSyncConfig`): the getters that read the property table and apply defaults, lower bounds, flag dependencies, indexed regex patterns and `;`-separated group names.

Files:

- `wrappers.dfy`: `Option` and `Result`.
- `java_strings.dfy`: the `java.lang` and commons-lang string operations the code relies on. These are `trim`, ASCII `toLowerCase`, `equalsIgnoreCase`, `isBlank`, `Integer.parseInt`/`Long.parseLong` with their ranges, `Integer.toString`, and `StringTokenizer` with one delimiter.
- `service_policies.dfy`: the bundle datatypes, `copyHeader`, `applyDelta` and the `dedupStrings` loops.
- `tags_all_present.dfy`: the evaluator as a class with its `policyConditionTags` field.
- `xuser_mgr.dfy`: the `XUserMgr` rules. Pure rules are functions with lemmas. Loops are methods proved against those functions. The database is the class `UserStore`, whose fields stand in for the tables the code updates.
- `user_group_sync_config.dfy`: the getters as functions of a `map<string, string>`. The two loops that grow a list or a set are methods.

Collaborators whose code is not part of this model are function-valued parameters, and no meaning is invented for them. These are:

- the delta fold `RangerPolicyDeltaUtil.applyDeltas`;
- `ServiceDefUtil.normalizeAccessTypeDefs`;
- the string interning of `StringUtil` and of the policy and service-definition classes.

Java `null` is `None` wherever the code tests for it. A thrown exception is a `Failure`.

## Model

| member | source | states |
|---|---|---|
| ServicePolicies.CopyHeader | agents-common/src/main/java/org/apache/ranger/plugin/util/ServicePolicies.java:65-86 | a copied bundle has a tag sub-bundle exactly when the source has one |
| ServicePolicies.CopyTagHeader | agents-common/src/main/java/org/apache/ranger/plugin/util/ServicePolicies.java:88-100 | the tag header differs from its source only in an empty policy list, no configuration, and the collaborator's normalisation of its service definition for the component service name |
| ServicePolicies.CopyHeaderKeepsHeader | agents-common/src/main/java/org/apache/ranger/plugin/util/ServicePolicies.java:68-75 | the copy keeps service name, id, policy version, audit mode, service definition, update time, zone map and service configuration (absent stays absent, present is an equal map) |
| ServicePolicies.CopyHeaderClearsPayload | agents-common/src/main/java/org/apache/ranger/plugin/util/ServicePolicies.java:76-77 | whatever the source held, the copy has an empty policy list and no delta list |
| ServicePolicies.CopyHeaderFailure | agents-common/src/main/java/org/apache/ranger/plugin/util/ServicePolicies.java:79-83 | copying fails exactly when there is a tag sub-bundle but no resource service definition to read a name from |
| ServicePolicies.CopyHeaderTag | agents-common/src/main/java/org/apache/ranger/plugin/util/ServicePolicies.java:88-100 | the tag header keeps name, id, version, audit mode and update time, has empty policies and no configuration, and its definition is the normalisation of the source's tag definition for the resource service |
| ServicePolicies.CopyHeaderIgnoresPayload | agents-common/src/main/java/org/apache/ranger/plugin/util/ServicePolicies.java:65-100 | two bundles that differ only in policies and deltas give the same copy |
| ServicePolicies.ApplyDeltaFailure | agents-common/src/main/java/org/apache/ranger/plugin/util/ServicePolicies.java:102-159 | assembly fails exactly when the resource service definition is absent, or a tag sub-bundle has no tag service definition |
| ServicePolicies.ApplyDelta | agents-common/src/main/java/org/apache/ranger/plugin/util/ServicePolicies.java:102-159 | a successful result has no deltas and has a tag sub-bundle exactly when the input does (the rest is stated in the ApplyDelta lemmas) |
| ServicePolicies.RebuiltZone | agents-common/src/main/java/org/apache/ranger/plugin/util/ServicePolicies.java:134-155 | a rebuilt zone is named by its key, keeps its resources, has no deltas, and holds the fold of its own deltas onto the engine's zone policies |
| ServicePolicies.RebuiltZones | agents-common/src/main/java/org/apache/ranger/plugin/util/ServicePolicies.java:131-158 | a non-empty input zone map keeps exactly its keys, each zone named by its key and without deltas; an absent or empty map yields the header's map |
| ServicePolicies.ApplyDeltaResourcePolicies | agents-common/src/main/java/org/apache/ranger/plugin/util/ServicePolicies.java:102-109 | the result is the copied header with its policies replaced by the fold of the input's deltas onto the engine's resource policies |
| ServicePolicies.ApplyDeltaTagPolicies | agents-common/src/main/java/org/apache/ranger/plugin/util/ServicePolicies.java:111-129 | with a tag sub-bundle, its policies are the fold of the deltas onto the engine's tag policies for the tag definition; without one, the result has none |
| ServicePolicies.ApplyDeltaZones | agents-common/src/main/java/org/apache/ranger/plugin/util/ServicePolicies.java:131-158 | a non-empty zone map keeps exactly its keys; each zone keeps its name and resources, gets the fold of its own deltas onto the engine's zone policies and loses its deltas; an empty or absent map is the header's |
| ServicePolicies.ApplyDeltaIgnoresInputPolicies | agents-common/src/main/java/org/apache/ranger/plugin/util/ServicePolicies.java:102-159 | the input's own policy list never reaches the result |
| ServicePolicies.ThreadThrough | agents-common/src/main/java/org/apache/ranger/plugin/util/ServicePolicies.java:292-296 | processing a list through the shared table yields one element per input element |
| ServicePolicies.ThreadThroughAppend | agents-common/src/main/java/org/apache/ranger/plugin/util/ServicePolicies.java:292-296 | processing a concatenation processes the first part, then the second with the table the first left |
| ServicePolicies.ThreadThroughKeeps | agents-common/src/main/java/org/apache/ranger/plugin/util/ServicePolicies.java:292-296 | when each element comes back equal, the list comes back equal |
| ServicePolicies.DedupEach | agents-common/src/main/java/org/apache/ranger/plugin/util/ServicePolicies.java:292-296 | the loop over nested objects threads the table element by element, in list order |
| ServicePolicies.DedupOption | agents-common/src/main/java/org/apache/ranger/plugin/util/ServicePolicies.java:312-316 | an absent list is left alone and the table is unchanged; a present one is processed in order |
| ServicePolicies.DedupZonesSpec | agents-common/src/main/java/org/apache/ranger/plugin/util/ServicePolicies.java:306-310 | deduplicating the zones in map iteration order keeps exactly the map's keys |
| ServicePolicies.DedupTag | agents-common/src/main/java/org/apache/ranger/plugin/util/ServicePolicies.java:456-470 | the tag sub-bundle interns its name, audit mode and configuration, then each policy, then its service definition, in that order, through the one table |
| ServicePolicies.DedupZone | agents-common/src/main/java/org/apache/ranger/plugin/util/ServicePolicies.java:538-562 | a zone interns its name, rebuilds each resource map with interned keys and value lists, then interns its policies and deltas |
| ServicePolicies.DedupStrings | agents-common/src/main/java/org/apache/ranger/plugin/util/ServicePolicies.java:285-317 | the bundle's deduplication runs every part through one table that starts empty, in the order of the code |
| ServicePolicies.DedupKeepsShape | agents-common/src/main/java/org/apache/ranger/plugin/util/ServicePolicies.java:285-317 | whatever the interning does, id, policy version and update time are untouched, optional parts stay absent or present, the policy and delta lists keep their lengths, and the zone map keeps its keys and each zone's number of resource maps |
| ServicePolicies.DedupZonesKeepResourceCounts | agents-common/src/main/java/org/apache/ranger/plugin/util/ServicePolicies.java:541-549 | every zone's resource list keeps its length, and an absent one stays absent |
| ServicePolicies.ThreadOptionKeeps | agents-common/src/main/java/org/apache/ranger/plugin/util/ServicePolicies.java:312-316 | with a collaborator that returns equal values, a nullable list comes back equal |
| ServicePolicies.DedupZoneKeeps | agents-common/src/main/java/org/apache/ranger/plugin/util/ServicePolicies.java:538-562 | with collaborators that return equal values, a zone comes back equal |
| ServicePolicies.DedupTagKeeps | agents-common/src/main/java/org/apache/ranger/plugin/util/ServicePolicies.java:456-470 | with collaborators that return equal values, the tag sub-bundle comes back equal |
| ServicePolicies.DedupZonesKeep | agents-common/src/main/java/org/apache/ranger/plugin/util/ServicePolicies.java:306-310 | with collaborators that return equal values, the zone map comes back equal |
| ServicePolicies.DedupKeepsValues | agents-common/src/main/java/org/apache/ranger/plugin/util/ServicePolicies.java:285-317 | with collaborators that return equal values, deduplication returns an equal bundle: it changes identity, never content |
| TagsAllPresent.TypesOf | agents-common/src/main/java/org/apache/ranger/plugin/conditionevaluator/RangerTagsAllPresentConditionEvaluator.java:63-67 | the collected set holds exactly the types of the request's tags |
| TagsAllPresent.Evaluator.constructor | agents-common/src/main/java/org/apache/ranger/plugin/conditionevaluator/RangerTagsAllPresentConditionEvaluator.java:35 | a new evaluator has an empty configured set |
| TagsAllPresent.Evaluator.Init | agents-common/src/main/java/org/apache/ranger/plugin/conditionevaluator/RangerTagsAllPresentConditionEvaluator.java:43-47 | init adds every trimmed condition value to the configured set and never removes any; an absent condition adds nothing |
| TagsAllPresent.Evaluator.IsMatched | agents-common/src/main/java/org/apache/ranger/plugin/conditionevaluator/RangerTagsAllPresentConditionEvaluator.java:53-78 | the result is the reference meaning: no configured tags, or some request tags whose types include every configured tag |
| TagsAllPresent.EmptyConfigurationMatches | agents-common/src/main/java/org/apache/ranger/plugin/conditionevaluator/RangerTagsAllPresentConditionEvaluator.java:56-58 | an empty configuration matches every request |
| TagsAllPresent.NoRequestTagsNoMatch | agents-common/src/main/java/org/apache/ranger/plugin/conditionevaluator/RangerTagsAllPresentConditionEvaluator.java:62-72 | a non-empty configuration never matches a request with absent or empty tags |
| TagsAllPresent.ContainmentCase | agents-common/src/main/java/org/apache/ranger/plugin/conditionevaluator/RangerTagsAllPresentConditionEvaluator.java:62-69 | otherwise the outcome is exactly set containment of the configured tags in the request's types |
| TagsAllPresent.SameTypesSameOutcome | agents-common/src/main/java/org/apache/ranger/plugin/conditionevaluator/RangerTagsAllPresentConditionEvaluator.java:63-69 | requests with the same set of tag types get the same outcome: duplicates and attributes do not matter |
| TagsAllPresent.MoreTagsStillMatch | agents-common/src/main/java/org/apache/ranger/plugin/conditionevaluator/RangerTagsAllPresentConditionEvaluator.java:63-69 | adding tags to a request never turns a match into a mismatch |
| TagsAllPresent.PiiExample | agents-common/src/main/java/org/apache/ranger/plugin/conditionevaluator/RangerTagsAllPresentConditionEvaluator.java:53-78 | a condition on PII fails for a resource tagged only PUBLIC and holds for one tagged PII and PUBLIC |
| JavaStrings.TrimLeft | agents-common/src/main/java/org/apache/ranger/plugin/conditionevaluator/RangerTagsAllPresentConditionEvaluator.java:45 | the result is a suffix, every dropped character is at most U+0020, and the first kept one is not |
| JavaStrings.TrimRight | agents-common/src/main/java/org/apache/ranger/plugin/conditionevaluator/RangerTagsAllPresentConditionEvaluator.java:45 | the result is a prefix, every dropped character is at most U+0020, and the last kept one is not |
| JavaStrings.Trim | agents-common/src/main/java/org/apache/ranger/plugin/conditionevaluator/RangerTagsAllPresentConditionEvaluator.java:45 | neither end of a trimmed string is a trimmable character, and trimming never lengthens |
| JavaStrings.TrimEmpty | security-admin/src/main/java/org/apache/ranger/biz/XUserMgr.java:2831 | a string trims to empty exactly when every character is at most U+0020 |
| JavaStrings.TrimKeepsAbsent | agents-common/src/main/java/org/apache/ranger/plugin/conditionevaluator/RangerTagsAllPresentConditionEvaluator.java:45 | trimming never introduces a character |
| JavaStrings.TrimIdempotent | agents-common/src/main/java/org/apache/ranger/plugin/conditionevaluator/RangerTagsAllPresentConditionEvaluator.java:45 | trimming twice is trimming once |
| JavaStrings.ToLower | ugsync/src/main/java/org/apache/ranger/unixusersync/config/UserGroupSyncConfig.java:572 | no ASCII capital remains: each capital becomes the small letter at the same alphabet position, and every other character is kept, at the same length |
| JavaStrings.ToLowerIdempotent | ugsync/src/main/java/org/apache/ranger/unixusersync/config/UserGroupSyncConfig.java:572 | lower-casing twice is lower-casing once |
| JavaStrings.LowerCaseFacts | ugsync/src/main/java/org/apache/ranger/unixusersync/config/UserGroupSyncConfig.java:644 | a lower-cased string holds no ASCII capital and no non-letter it did not hold before |
| JavaStrings.EqualsIgnoreCaseIsLowerEquality | security-admin/src/main/java/org/apache/ranger/biz/XUserMgr.java:2831 | two strings are equal ignoring case exactly when their lower-cased forms are equal |
| JavaStrings.DigitChar | ugsync/src/main/java/org/apache/ranger/unixusersync/config/UserGroupSyncConfig.java:1094 | each decimal digit prints as a digit character |
| JavaStrings.IsJavaWhitespace | ugsync/src/main/java/org/apache/ranger/unixusersync/config/UserGroupSyncConfig.java:1323 | Character.isWhitespace, on which StringUtils.isBlank relies: the non-breaking spaces are excluded, and among ASCII characters exactly space, TAB to CR and FS to US count |
| JavaStrings.IsBlank | ugsync/src/main/java/org/apache/ranger/unixusersync/config/UserGroupSyncConfig.java:1323 | StringUtils.isBlank: null, or whitespace characters only |
| JavaStrings.BlankAsciiTrimsEmpty | ugsync/src/main/java/org/apache/ranger/unixusersync/config/UserGroupSyncConfig.java:1323 | on ASCII text a blank value (the deletes-frequency test) also trims to empty, so the two blankness tests agree there in that direction |
| JavaStrings.ParseBoolean | ugsync/src/main/java/org/apache/ranger/unixusersync/config/UserGroupSyncConfig.java:435 | Boolean.parseBoolean: only a non-null four-letter value can read true, and a value with a leading space or control character never does (no trimming) |
| JavaStrings.ParseInteger | ugsync/src/main/java/org/apache/ranger/unixusersync/config/UserGroupSyncConfig.java:751 | a digit string, optionally after one sign, reads as its signed decimal value when that lies in the type's range; everything else (empty, a lone sign, any other character, out of range) is rejected |
| JavaStrings.NatToString | ugsync/src/main/java/org/apache/ranger/unixusersync/config/UserGroupSyncConfig.java:1094 | a printed number is a non-empty run of digits |
| JavaStrings.NatToStringValue | ugsync/src/main/java/org/apache/ranger/unixusersync/config/UserGroupSyncConfig.java:1094 | the digits of a printed number denote that number |
| JavaStrings.ParseIntOfNatToString | ugsync/src/main/java/org/apache/ranger/unixusersync/config/UserGroupSyncConfig.java:1094 | parsing a printed non-negative int gives it back |
| JavaStrings.NatToStringInjective | ugsync/src/main/java/org/apache/ranger/unixusersync/config/UserGroupSyncConfig.java:1094 | distinct numbers print differently |
| JavaStrings.TokenEnd | ugsync/src/main/java/org/apache/ranger/unixusersync/config/UserGroupSyncConfig.java:641-645 | the first token ends at the first delimiter or at the end of the string |
| JavaStrings.Tokens | ugsync/src/main/java/org/apache/ranger/unixusersync/config/UserGroupSyncConfig.java:641-645 | every token is non-empty and holds no delimiter |
| JavaStrings.TokensSplit | ugsync/src/main/java/org/apache/ranger/unixusersync/config/UserGroupSyncConfig.java:641-645 | the tokens of a, delimiter, b are the tokens of a followed by those of b |
| JavaStrings.TokensOfPlain | ugsync/src/main/java/org/apache/ranger/unixusersync/config/UserGroupSyncConfig.java:641-645 | a non-empty string without the delimiter is a single token |
| UserGroupSyncConfig.ParseSearchScope | ugsync/src/main/java/org/apache/ranger/unixusersync/config/UserGroupSyncConfig.java:565-581 | the scope is always 0, 1 or 2, and 2 for a missing or blank setting |
| UserGroupSyncConfig.GetUserSearchScope | ugsync/src/main/java/org/apache/ranger/unixusersync/config/UserGroupSyncConfig.java:565-581 | the user search scope is always 0, 1 or 2 |
| UserGroupSyncConfig.GetGroupSearchScope | ugsync/src/main/java/org/apache/ranger/unixusersync/config/UserGroupSyncConfig.java:848-864 | the group search scope is always 0, 1 or 2 |
| UserGroupSyncConfig.SearchScopeCases | ugsync/src/main/java/org/apache/ranger/unixusersync/config/UserGroupSyncConfig.java:565-581 | for a non-blank value: 0 exactly for "0" or a "base" prefix after trimming and lower-casing, else 1 exactly for "1" or a "one" prefix, else 2 |
| UserGroupSyncConfig.BaseScopeExample | ugsync/src/main/java/org/apache/ranger/unixusersync/config/UserGroupSyncConfig.java:565-581 | "Base" names the object scope |
| UserGroupSyncConfig.OneLevelScopeExample | ugsync/src/main/java/org/apache/ranger/unixusersync/config/UserGroupSyncConfig.java:565-581 | "ONE" names the one-level scope |
| UserGroupSyncConfig.SubtreeScopeExample | ugsync/src/main/java/org/apache/ranger/unixusersync/config/UserGroupSyncConfig.java:565-581 | "sub" names the subtree scope |
| UserGroupSyncConfig.GetPagedResultsSize | ugsync/src/main/java/org/apache/ranger/unixusersync/config/UserGroupSyncConfig.java:744-759 | 500 when unset or blank; otherwise an error exactly when Integer.parseInt rejects the value, else 500 for a value below 1 and the value itself from 1 up |
| UserGroupSyncConfig.GetGroupHierarchyLevels | ugsync/src/main/java/org/apache/ranger/unixusersync/config/UserGroupSyncConfig.java:962-977 | 0 when unset or blank; otherwise an error exactly when Integer.parseInt rejects the value, else 0 for a negative value and the value itself from 0 up |
| UserGroupSyncConfig.ParseOrFail | ugsync/src/main/java/org/apache/ranger/unixusersync/config/UserGroupSyncConfig.java:751 | parsing fails exactly when the number parser rejects the string, and otherwise yields its value |
| UserGroupSyncConfig.IsTestRunEnabled | ugsync/src/main/java/org/apache/ranger/unixusersync/config/UserGroupSyncConfig.java:316-320 | an unset test-run setting means no test run |
| UserGroupSyncConfig.MinSleepInterval | ugsync/src/main/java/org/apache/ranger/unixusersync/config/UserGroupSyncConfig.java:446-458 | the least sleep per source: at least a minute for every source other than LDAP; at most the hour for LDAP, and below the hour only when the force flag is on, and then it is the setting itself |
| UserGroupSyncConfig.GetUpdateMillisMin | ugsync/src/main/java/org/apache/ranger/unixusersync/config/UserGroupSyncConfig.java:408-418 | 60000 when unset; otherwise the larger of the parsed value and 60000, or an error when it does not parse |
| UserGroupSyncConfig.GetSleepTimeInMillisBetweenCycle | ugsync/src/main/java/org/apache/ranger/unixusersync/config/UserGroupSyncConfig.java:433-470 | unset, an hour for the LDAP source and a minute otherwise; set, it succeeds exactly when Long.parseLong accepts it, and is the value itself in a test run and otherwise the larger of the value and the source's minimum |
| UserGroupSyncConfig.GetSleepTimeForConfiguredSource | ugsync/src/main/java/org/apache/ranger/unixusersync/config/UserGroupSyncConfig.java:436 | the sleep uses the class name the source settings select, and fails when none is selected |
| UserGroupSyncConfig.SleepLowerBounds | ugsync/src/main/java/org/apache/ranger/unixusersync/config/UserGroupSyncConfig.java:447-466 | outside a test run any source sleeps at least a minute, and LDAP without the force flag at least an hour |
| UserGroupSyncConfig.LdapForceHonoured | ugsync/src/main/java/org/apache/ranger/unixusersync/config/UserGroupSyncConfig.java:449-451 | with the force flag an LDAP setting below an hour is used as it is |
| UserGroupSyncConfig.GetUserSyncDeletesFrequency | ugsync/src/main/java/org/apache/ranger/unixusersync/config/UserGroupSyncConfig.java:1319-1334 | 1 when unset or blank; set, it succeeds exactly when it parses, and is the larger of the value and 10 outside a test run and the value itself in a test run |
| UserGroupSyncConfig.IsGroupSearchFirstEnabled | ugsync/src/main/java/org/apache/ranger/unixusersync/config/UserGroupSyncConfig.java:785-800 | searching groups first is on exactly when group search is on and its own flag (default on) is on |
| UserGroupSyncConfig.IsGroupSearchEnabled | ugsync/src/main/java/org/apache/ranger/unixusersync/config/UserGroupSyncConfig.java:767-777 | group search is on when its setting is unset or blank |
| UserGroupSyncConfig.IsUserSearchEnabled | ugsync/src/main/java/org/apache/ranger/unixusersync/config/UserGroupSyncConfig.java:807-822 | user search is on whenever groups are not searched first, and otherwise follows its flag (default on) |
| UserGroupSyncConfig.SomeSearchRuns | ugsync/src/main/java/org/apache/ranger/unixusersync/config/UserGroupSyncConfig.java:785-822 | some search always runs: users, or groups first |
| UserGroupSyncConfig.SearchFlagDefaults | ugsync/src/main/java/org/apache/ranger/unixusersync/config/UserGroupSyncConfig.java:767-822 | with nothing configured all three search flags are on |
| UserGroupSyncConfig.GroupSearchOff | ugsync/src/main/java/org/apache/ranger/unixusersync/config/UserGroupSyncConfig.java:767-822 | switching group search off switches group-search-first off and user search on |
| UserGroupSyncConfig.PatternKeyInjective | ugsync/src/main/java/org/apache/ranger/unixusersync/config/UserGroupSyncConfig.java:1094 | distinct indices give distinct pattern keys |
| UserGroupSyncConfig.SeenKeysGrow | ugsync/src/main/java/org/apache/ranger/unixusersync/config/UserGroupSyncConfig.java:1096-1102 | each loop step adds one key that was not seen before |
| UserGroupSyncConfig.GetAllRegexPatterns | ugsync/src/main/java/org/apache/ranger/unixusersync/config/UserGroupSyncConfig.java:1083-1105 | the collection loop returns the base pattern and then the numbered ones |
| UserGroupSyncConfig.PatternsFromIndices | ugsync/src/main/java/org/apache/ranger/unixusersync/config/UserGroupSyncConfig.java:1093-1102 | the numbered patterns are base.i, base.(i+1), … in order, and they stop at the first index that is not configured |
| UserGroupSyncConfig.RegexPatternsIndices | ugsync/src/main/java/org/apache/ranger/unixusersync/config/UserGroupSyncConfig.java:1083-1105 | no patterns when the base is missing; otherwise [base, base.1, …, base.n] where base.(n+1) is the first missing key |
| UserGroupSyncConfig.GetGroupNameSet | ugsync/src/main/java/org/apache/ranger/unixusersync/config/UserGroupSyncConfig.java:636-649 | the tokenizer loop yields the set of `;`-separated tokens, trimmed and lower-cased |
| UserGroupSyncConfig.AddTokens | ugsync/src/main/java/org/apache/ranger/unixusersync/config/UserGroupSyncConfig.java:641-645 | the set holds the normalised form of each token |
| UserGroupSyncConfig.MappedMembers | ugsync/src/main/java/org/apache/ranger/unixusersync/config/UserGroupSyncConfig.java:641-645 | a name is in the set exactly when it is the normalised form of some token |
| UserGroupSyncConfig.GroupNamesNormalised | ugsync/src/main/java/org/apache/ranger/unixusersync/config/UserGroupSyncConfig.java:636-649 | no stored group name holds the separator or an ASCII capital |
| UserGroupSyncConfig.NormalisedToken | ugsync/src/main/java/org/apache/ranger/unixusersync/config/UserGroupSyncConfig.java:644 | trimming and lower-casing a token adds no separator and leaves no capital |
| UserGroupSyncConfig.MappedAppend | ugsync/src/main/java/org/apache/ranger/unixusersync/config/UserGroupSyncConfig.java:641-645 | the names of two consecutive token lists are the union of each list's names |
| UserGroupSyncConfig.GroupNamesSplit | ugsync/src/main/java/org/apache/ranger/unixusersync/config/UserGroupSyncConfig.java:636-649 | the names of "a;b" are the names of a together with those of b |
| UserGroupSyncConfig.GetUserSyncFileSourceDelimiter | ugsync/src/main/java/org/apache/ranger/unixusersync/config/UserGroupSyncConfig.java:250-262 | the delimiter setting, else the older misspelt one, else "," |
| UserGroupSyncConfig.GetSyncSource | ugsync/src/main/java/org/apache/ranger/unixusersync/config/UserGroupSyncConfig.java:1051-1065 | the trimmed sync-source setting, and none exactly when it is unset or blank |
| UserGroupSyncConfig.GetUserGroupSourceClassName | ugsync/src/main/java/org/apache/ranger/unixusersync/config/UserGroupSyncConfig.java:1400-1425 | a "unix" or "ldap" source in any case (from the class setting, or from the sync source when that is blank) selects its builder; otherwise the class setting, with the LDAP builder's name case-normalised, or none when it is unset |
| UserGroupSyncConfig.LdapSyncSourceExample | ugsync/src/main/java/org/apache/ranger/unixusersync/config/UserGroupSyncConfig.java:1400-1425 | a sync source of "ldap" with no class setting selects the LDAP builder |
| UserGroupSyncConfig.LdapSleepExample | ugsync/src/main/java/org/apache/ranger/unixusersync/config/UserGroupSyncConfig.java:433-443 | with that source and no sleep setting the sleep is an hour |
| UserGroupSyncConfig.ClassNameNormalised | ugsync/src/main/java/org/apache/ranger/unixusersync/config/UserGroupSyncConfig.java:1409-1411 | a class setting naming the LDAP builder in another letter case selects the LDAP builder |
| XUserMgr.RunWithRetries | security-admin/src/main/java/org/apache/ranger/biz/XUserMgr.java:2885-2907 | success reports the first attempt that succeeded, within MAX_DB_TRANSACTION_RETRIES + 1 = 6 attempts; failure means all six failed and carries the last exception |
| XUserMgr.UserStore.OnGlobalAppDataChangeWithRetry | security-admin/src/main/java/org/apache/ranger/biz/XUserMgr.java:2879-2913 | the bump succeeds exactly when one of the six attempts succeeds, and only then does the user-store version grow by one |
| XUserMgr.CountProcessed | security-admin/src/main/java/org/apache/ranger/biz/XUserMgr.java:2827-2871 | the count of processed users never exceeds the batch size |
| XUserMgr.WrittenStep | security-admin/src/main/java/org/apache/ranger/biz/XUserMgr.java:2827-2871 | each processed user adds one to the count, adds its name, and its record is written last |
| XUserMgr.SkippedUserChangesNothing | security-admin/src/main/java/org/apache/ranger/biz/XUserMgr.java:2831-2841 | a skipped user changes neither the count nor the stored records |
| XUserMgr.InvalidNameExamples | security-admin/src/main/java/org/apache/ranger/biz/XUserMgr.java:2831-2841 | a name "NuLl", a blank name and a missing first name are all skipped |
| XUserMgr.IsInvalidName | security-admin/src/main/java/org/apache/ranger/biz/XUserMgr.java:2831-2841 | a name or first name is rejected when null, "null" in any case, or blank after trimming |
| XUserMgr.UserStore.WriteUsers | security-admin/src/main/java/org/apache/ranger/biz/XUserMgr.java:2827-2871 | on success every processed user is written, the count is their number and none of their transactions failed; on failure the records are those of a prefix of the batch |
| XUserMgr.UserStore.CreateOrUpdateXUsers | security-admin/src/main/java/org/apache/ranger/biz/XUserMgr.java:2820-2916 | as WriteUsers, and the version is bumped exactly when the batch succeeded with a positive count |
| XUserMgr.GetRangerUserStoreIfUpdated | security-admin/src/main/java/org/apache/ranger/biz/XUserMgr.java:2806-2818 | nothing is returned exactly when there is no cached store or its version equals the caller's; otherwise the cached store is returned |
| XUserMgr.PollWithReceivedVersion | security-admin/src/main/java/org/apache/ranger/biz/XUserMgr.java:2811-2813 | polling with the version just received returns nothing, and a store with another version is returned |
| XUserMgr.FirstGroupRoleIsFirstMatch | security-admin/src/main/java/org/apache/ranger/biz/XUserMgr.java:3013-3022 | the group role is the value of the first entry, in iteration order, for a group of the user with a non-null value; there is none exactly when no entry qualifies |
| XUserMgr.ComputeUserRole | security-admin/src/main/java/org/apache/ranger/biz/XUserMgr.java:3006-3038 | the two rule loops compute the reference role of the user |
| XUserMgr.UserRoleFor | security-admin/src/main/java/org/apache/ranger/biz/XUserMgr.java:3006-3038 | the computed role is null only when the white-list user entry, or else the user's own entry, is null (its precedence is stated in WhiteListUserWins, UserEntryBeatsGroups, DefaultRoleIsUser and EarlierGroupEntryWins) |
| XUserMgr.ScanGroups | security-admin/src/main/java/org/apache/ranger/biz/XUserMgr.java:3013-3022 | a group loop replaces the current role by the first qualifying entry's value, if there is one, and otherwise keeps it |
| XUserMgr.WhiteListUserWins | security-admin/src/main/java/org/apache/ranger/biz/XUserMgr.java:3025-3026 | a white-list entry for the user decides the role, whatever else applies |
| XUserMgr.UserEntryBeatsGroups | security-admin/src/main/java/org/apache/ranger/biz/XUserMgr.java:3009-3011 | with no white-list rule applying, the user's own entry beats every group entry |
| XUserMgr.DefaultRoleIsUser | security-admin/src/main/java/org/apache/ranger/biz/XUserMgr.java:3007 | a user that no rule mentions, in no group any rule mentions, gets ROLE_USER |
| XUserMgr.EarlierGroupEntryWins | security-admin/src/main/java/org/apache/ranger/biz/XUserMgr.java:3013-3022 | an earlier qualifying group entry wins over any later one |
| XUserMgr.UserStore.AssignUserRole | security-admin/src/main/java/org/apache/ranger/biz/XUserMgr.java:3006-3054 | one existing user: when the computed role is non-null and not held, the user holds exactly that role with exactly its permissions and is reported; otherwise nothing changes, and the user is reported only when the role is null |
| XUserMgr.UserStore.AssignPageRoles | security-admin/src/main/java/org/apache/ranger/biz/XUserMgr.java:2989-3056 | the profiles and permissions after the page loop are the per-user reference PageRoles/PagePermissions; a reset remembers exactly the processed users; every reassigned user is reported and only processed users are |
| XUserMgr.UserStore.ResetUnseenUsers | security-admin/src/main/java/org/apache/ranger/biz/XUserMgr.java:3059-3077 | the profiles and permissions after the reset loop are the per-user reference ResetRoles/ResetPermissions, which skip remembered users; every reset user is reported and only listed, existing, unremembered users are |
| XUserMgr.UserStore.UpdateUserRoleAssignments | security-admin/src/main/java/org/apache/ranger/biz/XUserMgr.java:2977-3080 | the new profiles and permissions are the page outcome, followed on the last page of a reset by the reset outcome with the users remembered on this and earlier pages; the remembered set grows by the processed users during a reset, is emptied on its last page and is untouched otherwise; only processed or reset users are reported |
| XUserMgr.PageOutcome | security-admin/src/main/java/org/apache/ranger/biz/XUserMgr.java:2989-3056 | after a page every requested existing external user holds its non-null computed role; one that lacked it holds that role alone with that role's permissions; every other user, and every missing or internal requested user, keeps its profile and permissions; no user is added |
| XUserMgr.ResetOutcome | security-admin/src/main/java/org/apache/ranger/biz/XUserMgr.java:3059-3077 | after the reset every listed existing unremembered user holds ROLE_USER; a reset user holds it alone with the resource-policy, report and security-zone permissions; remembered and unlisted users keep their profile and permissions |
| XUserMgr.RoleDiff | security-admin/src/main/java/org/apache/ranger/biz/XUserMgr.java:2387-2397 | the new roles are exactly the requested non-null roles the profile does not hold |
| XUserMgr.RoleDiffEmpty | security-admin/src/main/java/org/apache/ranger/biz/XUserMgr.java:2387-2397 | requesting only held or null roles gives no new role |
| XUserMgr.UserStore.UpdateUserRolesPermissions | security-admin/src/main/java/org/apache/ranger/biz/XUserMgr.java:2383-2419 | with some new role, the profile's roles become exactly the new roles, and its permissions are deleted and then granted afresh for them; otherwise nothing changes |
| XUserMgr.UserStore.SetRolesByUserName | security-admin/src/main/java/org/apache/ranger/biz/XUserMgr.java:3512-3545 | the name comes back exactly when the user exists and the list is non-empty; then the user's roles and permissions are those of the role diff, and otherwise nothing changes |
| XUserMgr.ModulesGrantedStep | security-admin/src/main/java/org/apache/ranger/biz/XUserMgr.java:3550-3572 | each role in the loop adds its own modules, and no role grants none |
| XUserMgr.RoleModulesGrants | security-admin/src/main/java/org/apache/ranger/biz/XUserMgr.java:3550-3569 | which modules each kind of role is granted: none for an invalid role; resource policies and reports always; audit and user/groups for every role but ROLE_USER; governed data sharing only on the profile path; key manager for the roles other than ROLE_USER and the two admin roles; security zone for ROLE_USER and the two admin roles |
| XUserMgr.ModulesOfAppend | security-admin/src/main/java/org/apache/ranger/biz/XUserMgr.java:3550-3572 | the modules of consecutive permission writes are the union of each part's modules |
| XUserMgr.PermissionCallsByRole | security-admin/src/main/java/org/apache/ranger/biz/XUserMgr.java:3550-3572 | a role list grants a module exactly when one of its roles does |
| XUserMgr.UserRoleModules | security-admin/src/main/java/org/apache/ranger/biz/XUserMgr.java:3553-3556 | ROLE_USER grants resource-based policies, reports and security zones, in that order and nothing else |
| XUserMgr.AdminRoleModules | security-admin/src/main/java/org/apache/ranger/biz/XUserMgr.java:3557-3565 | the administrator and the admin auditor get audit, users and groups, tag-based policies and security zones, never the key manager |
| XUserMgr.OtherRoleModules | security-admin/src/main/java/org/apache/ranger/biz/XUserMgr.java:3557-3568 | any other valid role gets the key manager, but neither tag-based policies nor security zones |
| XUserMgr.PathsDifferOnlyInDataSharing | security-admin/src/main/java/org/apache/ranger/biz/XUserMgr.java:221-247 | the profile path grants what the new-user path grants, plus governed data sharing and nothing more |
| XUserMgr.UserStore.AssignPermissionToUser | security-admin/src/main/java/org/apache/ranger/biz/XUserMgr.java:3547-3572 | an empty role list writes nothing; otherwise the user holds, besides its earlier permissions, exactly the modules its roles grant, and no other user changes |
| XUserMgr.UserStore.GrantModules | security-admin/src/main/java/org/apache/ranger/biz/XUserMgr.java:249-288 | each write adds one module to what the user holds |
| XUserMgr.MappingsOf | security-admin/src/main/java/org/apache/ranger/biz/XUserMgr.java:3182-3185 | the user's mappings are exactly the stored mappings with that user id |
| XUserMgr.MissingGroups | security-admin/src/main/java/org/apache/ranger/biz/XUserMgr.java:3193-3213 | the ids to create are exactly the requested ids that no existing mapping points to |
| XUserMgr.UnrequestedMappings | security-admin/src/main/java/org/apache/ranger/biz/XUserMgr.java:3216-3244 | the mappings to delete are exactly those whose group is not requested |
| XUserMgr.KeptMappings | security-admin/src/main/java/org/apache/ranger/biz/XUserMgr.java:3216-3244 | the kept mappings are exactly those whose group is requested |
| XUserMgr.PlanGroupUserDiff | security-admin/src/main/java/org/apache/ranger/biz/XUserMgr.java:3193-3244 | the create loop and the delete loop compute the missing groups and the unrequested mappings |
| XUserMgr.IsMapped | security-admin/src/main/java/org/apache/ranger/biz/XUserMgr.java:3194-3201 | the inner search finds a mapping exactly when one points to the group |
| XUserMgr.IsRequested | security-admin/src/main/java/org/apache/ranger/biz/XUserMgr.java:3217-3230 | the inner search finds the group exactly when it is requested |
| XUserMgr.DiffReachesRequest | security-admin/src/main/java/org/apache/ranger/biz/XUserMgr.java:3193-3244 | the kept mappings and the created ones point to exactly the requested groups |
| XUserMgr.DiffPartitionsExisting | security-admin/src/main/java/org/apache/ranger/biz/XUserMgr.java:3216-3244 | with distinct ids each existing mapping is either kept or deleted, never both |
| XUserMgr.DiffOfCurrentState | security-admin/src/main/java/org/apache/ranger/biz/XUserMgr.java:3193-3244 | requesting the groups the user is already in creates and deletes nothing |
| XUserMgr.NoneMissing | security-admin/src/main/java/org/apache/ranger/biz/XUserMgr.java:3193-3213 | when every requested group is mapped, nothing is created |
| XUserMgr.NoneUnrequested | security-admin/src/main/java/org/apache/ranger/biz/XUserMgr.java:3216-3244 | when every mapping's group is requested, nothing is deleted |
| XUserMgr.NewMappings | security-admin/src/main/java/org/apache/ranger/biz/XUserMgr.java:3130-3143 | one new mapping per id, for the user and that group, named after the group and numbered consecutively |
| XUserMgr.WithoutIds | security-admin/src/main/java/org/apache/ranger/biz/XUserMgr.java:3264-3266 | deleting by id keeps exactly the mappings whose id is not listed |
| XUserMgr.UserStore.CreateGroupUsers | security-admin/src/main/java/org/apache/ranger/biz/XUserMgr.java:3203-3212 | the create loop appends the new mappings, advances the id counter by their number and reports their group names |
| XUserMgr.UserStore.ApplyGroupUserDiff | security-admin/src/main/java/org/apache/ranger/biz/XUserMgr.java:3188-3266 | the store becomes the state after synchronisation, and the reported names are the current ones plus the created ones, minus those of deleted mappings |
| XUserMgr.UserStore.CreateOrDelGrpUserWithUpdatedGrpId | security-admin/src/main/java/org/apache/ranger/biz/XUserMgr.java:3175-3269 | an absent list changes nothing; a group to be mapped that does not exist fails the update and changes nothing; otherwise the store becomes the state after synchronisation and the requested ids and names are reported; no other user's mappings change |
| XUserMgr.NewMappingsValid | security-admin/src/main/java/org/apache/ranger/biz/XUserMgr.java:3203-3212 | appending the created mappings keeps mapping ids distinct and below the next id |
| XUserMgr.SameIdSameMapping | security-admin/src/main/java/org/apache/ranger/biz/XUserMgr.java:3264-3266 | with distinct ids, the id identifies the mapping |
| XUserMgr.SyncReachesRequest | security-admin/src/main/java/org/apache/ranger/biz/XUserMgr.java:3175-3269 | after a successful update the user is mapped to exactly the requested groups |
| XUserMgr.SyncKeepsOtherUsers | security-admin/src/main/java/org/apache/ranger/biz/XUserMgr.java:3175-3269 | a membership update of one user leaves every other user's mappings unchanged, in order |
| XUserMgr.SyncMapsOnlyRequested | security-admin/src/main/java/org/apache/ranger/biz/XUserMgr.java:3175-3269 | after the update every group the user is mapped to is requested |
| XUserMgr.SyncMapsAllRequested | security-admin/src/main/java/org/apache/ranger/biz/XUserMgr.java:3175-3269 | after the update every requested group is mapped |
| XUserMgr.SyncKeepsOnlyRequested | security-admin/src/main/java/org/apache/ranger/biz/XUserMgr.java:3216-3244 | every remaining mapping of the user points to a requested group |
| XUserMgr.SyncCoversRequest | security-admin/src/main/java/org/apache/ranger/biz/XUserMgr.java:3193-3213 | for every requested group some remaining mapping of the user points to it |
| XUserMgr.SyncKeepsRequested | security-admin/src/main/java/org/apache/ranger/biz/XUserMgr.java:3216-3230 | an existing mapping to a requested group stays unchanged |
| XUserMgr.SyncCreatesMissing | security-admin/src/main/java/org/apache/ranger/biz/XUserMgr.java:3203-3212 | every missing group gets a mapping of the user to it |
| XUserMgr.WithoutIdsValid | security-admin/src/main/java/org/apache/ranger/biz/XUserMgr.java:3264-3266 | deleting mappings keeps the ids distinct and below the next id |
| XUserMgr.AppendValid | security-admin/src/main/java/org/apache/ranger/biz/XUserMgr.java:3203-3212 | appending a mapping with a fresh id keeps the ids distinct |
| XUserMgr.ProcessedNamesStep | security-admin/src/main/java/org/apache/ranger/biz/XUserMgr.java:2989-3056 | the processed users grow by one requested user exactly when it exists and is external |
| XUserMgr.UserStore.constructor | security-admin/src/main/java/org/apache/ranger/biz/XUserMgr.java:143 | a new store is empty, at version 0, with no remembered users |
| XUserMgr.Without | security-admin/src/main/java/org/apache/ranger/biz/XUserMgr.java:3420-3426 | removing a name keeps exactly the other names |
| XUserMgr.ScrubbedItems | security-admin/src/main/java/org/apache/ranger/biz/XUserMgr.java:3416-3440 | scrubbing never adds items |
| XUserMgr.Scrubbed | security-admin/src/main/java/org/apache/ranger/biz/XUserMgr.java:3419-3426 | scrubbing keeps the roles and accesses, and removes every occurrence of the user and of the group, each only when it is given as a non-empty name, and nothing else |
| XUserMgr.ScrubbedItemsStep | security-admin/src/main/java/org/apache/ranger/biz/XUserMgr.java:3416-3440 | each item, scrubbed, is kept exactly when it still has a user, a group or a role |
| XUserMgr.ScrubbedItemsClean | security-admin/src/main/java/org/apache/ranger/biz/XUserMgr.java:3416-3440 | no kept item is empty or still names the removed user or group |
| XUserMgr.RemoveUserGroupReferences | security-admin/src/main/java/org/apache/ranger/biz/XUserMgr.java:3416-3440 | the scrub loop and the removal of the emptied items give the scrubbed list |
| XUserMgr.ScrubEachItem | security-admin/src/main/java/org/apache/ranger/biz/XUserMgr.java:3419-3435 | each item loses the user and the group (when non-empty), and is marked for removal exactly when it is left empty |
| XUserMgr.ScrubIdempotent | security-admin/src/main/java/org/apache/ranger/biz/XUserMgr.java:3416-3440 | scrubbing twice is scrubbing once |
| XUserMgr.ScrubKeepsClean | security-admin/src/main/java/org/apache/ranger/biz/XUserMgr.java:3416-3440 | a list of items that neither name the principals nor are empty is left as it is |
| XUserMgr.CleanItemUnchanged | security-admin/src/main/java/org/apache/ranger/biz/XUserMgr.java:3419-3426 | an item that names neither principal is unchanged |
| XUserMgr.WithoutAbsent | security-admin/src/main/java/org/apache/ranger/biz/XUserMgr.java:3420-3422 | removing a name that is not there changes nothing |
| XUserMgr.ScrubKeepsOrder | security-admin/src/main/java/org/apache/ranger/biz/XUserMgr.java:3437-3439 | the kept items keep their relative order: scrubbing a concatenation scrubs each part |
| XUserMgr.GetMaskedCollection | security-admin/src/main/java/org/apache/ranger/biz/XUserMgr.java:2576-2586 | as many copies of the mask as the collection has elements, and none for an absent collection |
| XUserMgr.Wrap32 | security-admin/src/main/java/org/apache/ranger/biz/XUserMgr.java:3298 | 32-bit addition lands in the int range and is exact when the mathematical sum fits |
| XUserMgr.PopulatePageListAsWritten | security-admin/src/main/java/org/apache/ranger/biz/XUserMgr.java:3295-3309 | the page loop as written, with its bound computed in wrapping 32-bit arithmetic |
| XUserMgr.PopulatePageList | security-admin/src/main/java/org/apache/ranger/biz/XUserMgr.java:3295-3309 | the intended page loop of both overloads (see Findings): the page of PageOf with the bound start + size computed without wrap-around |
| XUserMgr.CollectPage | security-admin/src/main/java/org/apache/ranger/biz/XUserMgr.java:3298-3308 | the loop copies the elements from the start up to the bound and the end of the list, and records start, size, result size and total count |
| XUserMgr.PageOf | security-admin/src/main/java/org/apache/ranger/biz/XUserMgr.java:3295-3309 | the page a loop collects between a start index and a bound: only a negative start can fail (on the first read); a page never holds more than the list, its result size is its length, its total count the list's length, and it echoes the start index and page size |
| XUserMgr.PageContents | security-admin/src/main/java/org/apache/ranger/biz/XUserMgr.java:3295-3309 | a page holds min(size, length - start) elements, the ones from the start index in order; its result size is its length and its total count the list's length |
| XUserMgr.ConsecutivePages | security-admin/src/main/java/org/apache/ranger/biz/XUserMgr.java:3295-3309 | two consecutive pages together are the page of twice the size |
| XUserMgr.PageOverflowExample | security-admin/src/main/java/org/apache/ranger/biz/XUserMgr.java:3298 | with start 1 and page size INT_MAX the written loop returns an empty page, where the intended page holds the last four elements |
| XUserMgr.FilterExactMatch | security-admin/src/main/java/org/apache/ranger/biz/XUserMgr.java:2490-2518 | the exact match survives exactly when every visibility and group-source parameter equals its field |
| XUserMgr.ObjectsEquals | security-admin/src/main/java/org/apache/ranger/biz/XUserMgr.java:2503 | Objects.equals of a nullable Integer field and a parameter value: both null, or the same Integer |
| XUserMgr.ParamAgrees | security-admin/src/main/java/org/apache/ranger/biz/XUserMgr.java:2501-2516 | a parameter keeps the exact match unless it names the visibility or the group source, in any case, with a value not equal to the group's |
| XUserMgr.FirstWithId | security-admin/src/main/java/org/apache/ranger/biz/XUserMgr.java:2529-2538 | the found index is the first element with the match's id, and there is none exactly when no element has it |
| XUserMgr.Placed | security-admin/src/main/java/org/apache/ranger/biz/XUserMgr.java:2523-2545 | the exact match goes first, and a non-empty page keeps its length |
| XUserMgr.PlaceExactMatch | security-admin/src/main/java/org/apache/ranger/biz/XUserMgr.java:2523-2545 | only an exact match with an id is placed; the page is otherwise unchanged |
| XUserMgr.PlacementCount | security-admin/src/main/java/org/apache/ranger/biz/XUserMgr.java:2523-2545 | the placed page holds the match's id as often as the page did, and at least once |
| XUserMgr.IdCountAppend | security-admin/src/main/java/org/apache/ranger/biz/XUserMgr.java:2523-2545 | counting an id in a concatenation adds the counts of each part |
| XUserMgr.IdCountZero | security-admin/src/main/java/org/apache/ranger/biz/XUserMgr.java:2523-2545 | a page without the id counts it zero times |
| XUserMgr.RemovedOneCopy | security-admin/src/main/java/org/apache/ranger/biz/XUserMgr.java:2533-2536 | dropping one element with the id lowers its count by one |

## Left out

- Persistence and transactions are replaced by the fields of `UserStore`. These are the DAO calls, the service CRUD calls, session resets, REST exception construction, Spring transaction propagation and logging. A failing transaction is a caller-given outcome. Transaction logs (`XXTrxLogV2`) are not produced.
- Concurrency is not modelled: `synchronized` methods, the static `roleAssignmentUpdatedUsers` set shared across requests (a field here), the policy-cache reset and the configuration singleton.
- The bodies of `RangerPolicyDeltaUtil.applyDeltas`, `ServiceDefUtil.normalizeAccessTypeDefs`, `StringUtil.dedupString*`, `RangerPolicy.dedupStrings` and `RangerServiceDef.dedupStrings` are function parameters. Their code is not part of this model.
- String identity, which is what `dedupStrings` is for, has no meaning for values. The model proves that deduplication keeps the shape and, for collaborators that return equal values, the whole content.
- HashMap iteration order is a parameter: entry lists for the role rule maps and a key order for the zone map. The search parameters of `lookupXGroups` are an entry list too.
- `toLowerCase` and `equalsIgnoreCase` are modelled on the ASCII letters only. Locale-specific and non-ASCII case mappings are not modelled.
- `Class.forName` and `newInstance` in `getUserGroupSource`/`getUserGroupSink` are reflection. The sleep interval takes the class name that `getUserGroupSourceClassName` selects as the loaded class's name. A class that fails to load is not modelled. A missing class name is the single error `ClassNotFound`.
- GetSleepTimeForConfiguredSource: a missing class name fails with `ClassNotFound`, not with the loader's `NullPointerException`.
- Other `UserGroupSyncConfig` getters are not modelled: `getOtherUserAttributes`, the credential readers, `init`, the metrics file name, the HA settings, `getCurrentSyncSource` and the `set*` test helpers.
- Password, email and encryption helpers of `XUserMgr` are not modelled.
- Access checks are not modelled: `checkAccess`, `checkAdminAccess`, `blockAuditorRoleUser`, `checkAccessRoles` and `denySelfRoleChange`.
- `lookupXGroups` is modelled only for the exact-match filtering and placement. The group search itself, the sort default, the fallback search and the masking of results are left out. A null entry in the search page is not modelled.
- The module table of `getAllModuleNameAndIdMap` is assumed present, with one id per module. `createOrUpdateUserPermisson` is modelled as granting the module: the update of an existing permission in place, the `isCreate` flag and the missing-`XXUser` case are not modelled.
- `RangerConstants.VALID_USER_ROLE_LIST` is the store's `validRoles`. The `ROLE_*` constants are their names.
- `getNonUserRoleExternalUsers` is a parameter of the role update: the list the portal-user query returns.
- `AppConstants.Masked_String` is a parameter of the masking.
- `RangerPolicyItem.removeUser`/`removeGroup` are modelled as removing every occurrence of the name. Their code is not part of this model.
- `updateUserRolesPermissions` receives a profile whose role list is never null. The null-list case, which computes no new role, is not modelled separately.
- `createOrDelGrpUserWithUpdatedGrpId` reads the existing mappings as a list that is never null. The source's branch for a null list creates a mapping for every requested id, and so does the first branch when the list is empty.
- XUserMgr.UserStore.UpdateUserRoleAssignments: the returned list is bounded from above (only processed or reset users), and AssignPageRoles and ResetUnseenUsers bound it from below, but its order and repetitions are not stated.
- JavaStrings.ParseInteger: only ASCII digits are accepted. Java's parsers also accept the other Unicode decimal digits (`Character.digit`).
- XUserMgr.UserStore.OnGlobalAppDataChangeWithRetry: the exception wrapping of a final failure is not stated beyond its being a failure.
- User-store version and page arguments are unbounded integers, except where 32-bit wrap-around is modelled explicitly (the page bound).

## Findings

| source | as written | input that shows it | evidently intended | confidence | as-written member | corrected member |
|---|---|---|---|---|---|---|
| security-admin/src/main/java/org/apache/ranger/biz/XUserMgr.java:3295-3309 | the loop bound `pageSize + startIndex` is computed in 32-bit `int` and wraps to a negative number for large page sizes; the `VXAuditMap` overload at lines 3311-3325 computes the same bound | list [10, 20, 30, 40, 50], startIndex 1, pageSize Integer.MAX_VALUE: the bound wraps to Integer.MIN_VALUE and the page is empty | the page holds the elements from startIndex to the end of the list, [20, 30, 40, 50] | not executed | XUserMgr.PageOverflowExample | XUserMgr.PopulatePageList |
