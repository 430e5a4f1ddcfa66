/** The "tags all present" policy condition: it holds for a request when every tag
    type listed in the condition is among the types of the tags that the request
    context attaches to the accessed resource. */
module TagsAllPresent {
  import opened Wrappers
  import opened JavaStrings

  /** A tag attached to the accessed resource; only its type takes part in the match. */
  datatype TagForEval = TagForEval(tagType: string, attributes: map<string, string>)

  /** The policy condition an evaluator is built for: its configured values. */
  datatype PolicyCondition = PolicyCondition(conditionType: string, values: seq<string>)

  /** The set of types among the request's tags. */
  function TypesOf(tags: seq<TagForEval>): (r: set<string>)
    ensures forall i | 0 <= i < |tags| :: tags[i].tagType in r
    ensures forall t | t in r :: exists i | 0 <= i < |tags| :: tags[i].tagType == t
  {
    set i | 0 <= i < |tags| :: tags[i].tagType
  }

  /** The trimmed values of a condition; none for an absent condition. */
  function TrimmedValues(condition: Option<PolicyCondition>): set<string> {
    match condition
    case None => {}
    case Some(c) => set i | 0 <= i < |c.values| :: Trim(c.values[i])
  }

  /** Reference meaning of the condition: every configured tag type occurs among the
      request's tag types, an absent tag collection counting as no tags at all. */
  predicate AllTagsPresent(configured: set<string>, requestTags: Option<seq<TagForEval>>) {
    forall t | t in configured :: requestTags.Some? && t in TypesOf(requestTags.value)
  }

  class Evaluator {
    const condition: Option<PolicyCondition>
    var policyConditionTags: set<string>

    constructor (condition: Option<PolicyCondition>)
      ensures this.condition == condition
      ensures policyConditionTags == {}
    {
      this.condition := condition;
      policyConditionTags := {};
    }

    /** Adds every trimmed condition value to the configured set (which it never clears). */
    method Init()
      modifies this
      ensures policyConditionTags == old(policyConditionTags) + TrimmedValues(condition)
    {
      if condition.Some? {
        var values := condition.value.values;
        for i := 0 to |values|
          invariant policyConditionTags
                    == old(policyConditionTags) + set j | 0 <= j < i :: Trim(values[j])
        {
          policyConditionTags := policyConditionTags + {Trim(values[i])};
        }
      }
    }

    /** Collects the request's tag types and tests that they contain the configured set;
        an empty configured set matches and an absent or empty tag collection does not. */
    method IsMatched(requestTags: Option<seq<TagForEval>>) returns (matched: bool)
      ensures matched == AllTagsPresent(policyConditionTags, requestTags)
    {
      matched := true;
      if policyConditionTags != {} {
        if requestTags.Some? && |requestTags.value| > 0 {
          var resourceTags := requestTags.value;
          var tags: set<string> := {};
          for i := 0 to |resourceTags|
            invariant tags == set j | 0 <= j < i :: resourceTags[j].tagType
          {
            tags := tags + {resourceTags[i].tagType};
          }
          matched := policyConditionTags <= tags;
        } else {
          ghost var t :| t in policyConditionTags;
          matched := false;
        }
      }
    }
  }

  /** An empty configuration places no constraint on the request. */
  lemma EmptyConfigurationMatches(requestTags: Option<seq<TagForEval>>)
    ensures AllTagsPresent({}, requestTags)
  {
  }

  /** A non-empty configuration never matches a request without tags. */
  lemma {:induction false} NoRequestTagsNoMatch(configured: set<string>, requestTags: Option<seq<TagForEval>>)
    requires configured != {}
    requires requestTags.None? || requestTags.value == []
    ensures !AllTagsPresent(configured, requestTags)
  {
    var t :| t in configured;
    if requestTags.Some? {
      assert TypesOf(requestTags.value) == {};
    }
  }

  /** The outcome depends on the request's tags only through their set of types:
      duplicates, order and attributes do not matter. */
  lemma SameTypesSameOutcome(configured: set<string>, a: seq<TagForEval>, b: seq<TagForEval>)
    requires TypesOf(a) == TypesOf(b)
    ensures AllTagsPresent(configured, Some(a)) == AllTagsPresent(configured, Some(b))
  {
  }

  /** Appending tags to a request never turns a match into a mismatch. */
  lemma {:induction false} MoreTagsStillMatch(configured: set<string>, a: seq<TagForEval>, extra: seq<TagForEval>)
    requires AllTagsPresent(configured, Some(a))
    ensures AllTagsPresent(configured, Some(a + extra))
  {
    forall t | t in TypesOf(a) ensures t in TypesOf(a + extra) {
      var i :| 0 <= i < |a| && a[i].tagType == t;
      assert (a + extra)[i] == a[i];
    }
  }

  /** With a non-empty configuration and some tags, the outcome is set containment. */
  lemma ContainmentCase(configured: set<string>, tags: seq<TagForEval>)
    requires configured != {} && tags != []
    ensures AllTagsPresent(configured, Some(tags)) <==> configured <= TypesOf(tags)
  {
  }

  /** A condition on "PII" fails for a resource tagged only "PUBLIC" and holds for one
      tagged "PII" and "PUBLIC". */
  lemma {:induction false} PiiExample()
    ensures !AllTagsPresent({"PII"}, Some([TagForEval("PUBLIC", map[])]))
    ensures AllTagsPresent({"PII"}, Some([TagForEval("PII", map[]), TagForEval("PUBLIC", map[])]))
  {
    var one := [TagForEval("PUBLIC", map[])];
    assert "PII" != "PUBLIC" by { assert "PII"[1] != "PUBLIC"[1]; }
    assert "PII" !in TypesOf(one);
    var two := [TagForEval("PII", map[]), TagForEval("PUBLIC", map[])];
    assert two[0].tagType == "PII";
  }
}
