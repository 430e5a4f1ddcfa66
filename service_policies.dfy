/** The policy bundle a plugin downloads: its header, the resource policies, an optional
    tag sub-bundle and per-zone policies. Three operations are modelled: copying a
    header, assembling a bundle from a delta list and the engine's cached policies,
    and canonicalising the bundle's strings through one shared table.

    The bodies of the collaborators (folding deltas onto a policy list, normalising a
    tag service definition, interning a string or the strings of a policy) belong to
    other classes; they are parameters here and nothing is assumed about them. */
module ServicePolicies {
  import opened Wrappers

  /** A policy and a policy delta; only their identity takes part in the modelled logic. */
  datatype Policy = Policy(id: int, name: string)
  datatype PolicyDelta = PolicyDelta(changeType: int, policy: Policy)

  /** A service definition; the bundle code reads only its name. */
  datatype ServiceDef = ServiceDef(name: string, accessTypes: seq<string>)

  /** The one exception the modelled code can raise itself: dereferencing an absent service definition. */
  datatype Exception = NullPointerException

  datatype TagPolicies = TagPolicies(
    serviceName: string,
    serviceId: int,
    policyVersion: int,
    policyUpdateTime: int,
    policies: Option<seq<Policy>>,
    serviceDef: Option<ServiceDef>,
    auditMode: string,
    serviceConfig: Option<map<string, string>>)

  /** A zone's resources are a list of resource-name to value-list maps. */
  type ZoneResource = map<string, seq<string>>

  datatype SecurityZoneInfo = SecurityZoneInfo(
    zoneName: string,
    resources: Option<seq<ZoneResource>>,
    policies: Option<seq<Policy>>,
    policyDeltas: Option<seq<PolicyDelta>>,
    containsAssociatedTagService: Option<bool>)

  datatype ServicePolicies = ServicePolicies(
    serviceName: string,
    serviceId: int,
    policyVersion: int,
    policyUpdateTime: int,
    policies: Option<seq<Policy>>,
    serviceDef: Option<ServiceDef>,
    auditMode: string,
    tagPolicies: Option<TagPolicies>,
    securityZones: Option<map<string, SecurityZoneInfo>>,
    policyDeltas: Option<seq<PolicyDelta>>,
    serviceConfig: Option<map<string, string>>)

  /** The policy lists the running engine holds: resource policies, tag policies and,
      per zone name, that zone's resource policies. */
  datatype PolicyEngine = PolicyEngine(
    resourcePolicies: seq<Policy>,
    tagPolicies: seq<Policy>,
    zonePolicies: string -> seq<Policy>)

  /** Folds a delta list onto a policy list for the service definition of the given name. */
  type DeltaFold = (seq<Policy>, Option<seq<PolicyDelta>>, string) -> seq<Policy>

  /** Normalises a tag service definition's access types for the named component service. */
  type Normalizer = (Option<ServiceDef>, string) -> Option<ServiceDef>

  // ---------------------------------------------------------------- copyHeader

  /** The header of a tag sub-bundle: its scalars, the normalised service definition,
      an empty policy list and no service configuration. */
  function CopyTagHeader(source: TagPolicies, componentServiceName: string, normalize: Normalizer): (r: TagPolicies)
    ensures r.policies == Some([]) && r.serviceConfig.None?
    ensures r.serviceDef == normalize(source.serviceDef, componentServiceName)
    ensures r.(policies := source.policies, serviceDef := source.serviceDef, serviceConfig := source.serviceConfig) == source
  {
    TagPolicies(
      serviceName := source.serviceName,
      serviceId := source.serviceId,
      policyVersion := source.policyVersion,
      policyUpdateTime := source.policyUpdateTime,
      policies := Some([]),
      serviceDef := normalize(source.serviceDef, componentServiceName),
      auditMode := source.auditMode,
      serviceConfig := None)
  }

  /** A fresh bundle with the source's header, no policies and no deltas; the tag header
      needs the resource service definition's name, so a tag sub-bundle without one fails. */
  function CopyHeader(source: ServicePolicies, normalize: Normalizer): (r: Result<ServicePolicies, Exception>)
    ensures r.Success? ==> (r.value.tagPolicies.Some? <==> source.tagPolicies.Some?)
  {
    var tag: Result<Option<TagPolicies>, Exception> :=
      match source.tagPolicies
      case None => Success(None)
      case Some(t) =>
        if source.serviceDef.None? then Failure(NullPointerException)
        else Success(Some(CopyTagHeader(t, source.serviceDef.value.name, normalize)));
    if tag.Failure? then Failure(tag.error)
    else
      Success(ServicePolicies(
        serviceName := source.serviceName,
        serviceId := source.serviceId,
        policyVersion := source.policyVersion,
        policyUpdateTime := source.policyUpdateTime,
        policies := Some([]),
        serviceDef := source.serviceDef,
        auditMode := source.auditMode,
        tagPolicies := tag.value,
        securityZones := source.securityZones,
        policyDeltas := None,
        serviceConfig := source.serviceConfig))
  }

  /** The header fields, including the zone map and the service configuration, are copied unchanged. */
  lemma CopyHeaderKeepsHeader(source: ServicePolicies, normalize: Normalizer)
    requires source.tagPolicies.None? || source.serviceDef.Some?
    ensures CopyHeader(source, normalize).Success?
    ensures var h := CopyHeader(source, normalize).value;
      && h.serviceName == source.serviceName
      && h.serviceId == source.serviceId
      && h.policyVersion == source.policyVersion
      && h.auditMode == source.auditMode
      && h.serviceDef == source.serviceDef
      && h.policyUpdateTime == source.policyUpdateTime
      && h.securityZones == source.securityZones
      && h.serviceConfig == source.serviceConfig
  {
  }

  /** Whatever the source holds, the copy has an empty policy list and no delta list. */
  lemma CopyHeaderClearsPayload(source: ServicePolicies, normalize: Normalizer)
    requires CopyHeader(source, normalize).Success?
    ensures CopyHeader(source, normalize).value.policies == Some([])
    ensures CopyHeader(source, normalize).value.policyDeltas == None
  {
  }

  /** Copying fails exactly when there is a tag sub-bundle but no resource service definition. */
  lemma CopyHeaderFailure(source: ServicePolicies, normalize: Normalizer)
    ensures CopyHeader(source, normalize).Failure? <==> source.tagPolicies.Some? && source.serviceDef.None?
  {
  }

  /** The tag header copies the tag scalars, normalises the tag service definition for the
      resource service definition's name, and has empty policies and no configuration. */
  lemma CopyHeaderTag(source: ServicePolicies, normalize: Normalizer)
    requires source.tagPolicies.Some? && source.serviceDef.Some?
    ensures CopyHeader(source, normalize).Success?
    ensures var t := CopyHeader(source, normalize).value.tagPolicies;
      var s := source.tagPolicies.value;
      && t.Some?
      && t.value.serviceName == s.serviceName
      && t.value.serviceId == s.serviceId
      && t.value.policyVersion == s.policyVersion
      && t.value.auditMode == s.auditMode
      && t.value.policyUpdateTime == s.policyUpdateTime
      && t.value.serviceDef == normalize(s.serviceDef, source.serviceDef.value.name)
      && t.value.policies == Some([])
      && t.value.serviceConfig == None
  {
  }

  /** Two bundles that differ only in their policies and deltas, and in the policies and
      configuration of their tag sub-bundles, have the same copied header. */
  lemma CopyHeaderIgnoresPayload(a: ServicePolicies, b: ServicePolicies, normalize: Normalizer)
    requires a.(policies := b.policies, policyDeltas := b.policyDeltas, tagPolicies := b.tagPolicies) == b
    requires a.tagPolicies.Some? <==> b.tagPolicies.Some?
    requires a.tagPolicies.Some? ==>
      a.tagPolicies.value.(policies := b.tagPolicies.value.policies,
                           serviceConfig := b.tagPolicies.value.serviceConfig) == b.tagPolicies.value
    ensures CopyHeader(a, normalize) == CopyHeader(b, normalize)
  {
  }

  // ---------------------------------------------------------------- applyDelta

  /** The rebuilt zone: its name is the map key, its resources are kept, its policies are
      the fold of its own deltas onto the engine's zone policies, and it has no deltas. */
  function RebuiltZone(zoneName: string, zone: SecurityZoneInfo, engine: PolicyEngine,
                       applyDeltas: DeltaFold, serviceDefName: string): (r: SecurityZoneInfo)
    ensures r.zoneName == zoneName && r.resources == zone.resources && r.policyDeltas.None?
    ensures r.policies == Some(applyDeltas(engine.zonePolicies(zoneName), zone.policyDeltas, serviceDefName))
  {
    SecurityZoneInfo(
      zoneName := zoneName,
      resources := zone.resources,
      policies := Some(applyDeltas(engine.zonePolicies(zoneName), zone.policyDeltas, serviceDefName)),
      policyDeltas := None,
      containsAssociatedTagService := None)
  }

  /** The zone map of the assembled bundle: every zone rebuilt when the input map is
      non-empty, otherwise the header's (that is, the input's) map. */
  function RebuiltZones(sp: ServicePolicies, header: ServicePolicies, engine: PolicyEngine,
                        applyDeltas: DeltaFold, serviceDefName: string): (r: Option<map<string, SecurityZoneInfo>>)
    ensures sp.securityZones.None? || sp.securityZones.value == map[] ==> r == header.securityZones
    ensures sp.securityZones.Some? && sp.securityZones.value != map[] ==>
      && r.Some? && r.value.Keys == sp.securityZones.value.Keys
      && forall z | z in r.value :: r.value[z].zoneName == z && r.value[z].policyDeltas.None?
  {
    match sp.securityZones
    case Some(zones) =>
      if |zones| > 0 then
        Some(map z | z in zones :: RebuiltZone(z, zones[z], engine, applyDeltas, serviceDefName))
      else header.securityZones
    case None => header.securityZones
  }

  /** Assembles a bundle from the input's header and deltas and the engine's cached policies. */
  function ApplyDelta(sp: ServicePolicies, engine: PolicyEngine, applyDeltas: DeltaFold,
                      normalize: Normalizer): (r: Result<ServicePolicies, Exception>)
    ensures r.Success? ==> r.value.policyDeltas.None? && (r.value.tagPolicies.Some? <==> sp.tagPolicies.Some?)
  {
    var header :- CopyHeader(sp, normalize);
    if sp.serviceDef.None? then Failure(NullPointerException)
    else
      var name := sp.serviceDef.value.name;
      var newResourcePolicies := applyDeltas(engine.resourcePolicies, sp.policyDeltas, name);
      match sp.tagPolicies
      case Some(tag) =>
        if tag.serviceDef.None? then Failure(NullPointerException)
        else
          var newTagPolicies := applyDeltas(engine.tagPolicies, sp.policyDeltas, tag.serviceDef.value.name);
          Success(header.(
            policies := Some(newResourcePolicies),
            tagPolicies := Some(header.tagPolicies.value.(policies := Some(newTagPolicies))),
            securityZones := RebuiltZones(sp, header, engine, applyDeltas, name)))
      case None =>
        Success(header.(
          policies := Some(newResourcePolicies),
          securityZones := RebuiltZones(sp, header, engine, applyDeltas, name)))
  }

  /** Assembly fails exactly when the resource service definition is absent, or when a
      tag sub-bundle is present without its own service definition. */
  lemma ApplyDeltaFailure(sp: ServicePolicies, engine: PolicyEngine, applyDeltas: DeltaFold, normalize: Normalizer)
    ensures ApplyDelta(sp, engine, applyDeltas, normalize).Failure?
        <==> sp.serviceDef.None? || (sp.tagPolicies.Some? && sp.tagPolicies.value.serviceDef.None?)
  {
  }

  /** The result is the copied header with the resource policies replaced by the fold of the
      input's deltas onto the engine's resource policies, for the resource service definition. */
  lemma ApplyDeltaResourcePolicies(sp: ServicePolicies, engine: PolicyEngine, applyDeltas: DeltaFold, normalize: Normalizer)
    requires ApplyDelta(sp, engine, applyDeltas, normalize).Success?
    ensures var r := ApplyDelta(sp, engine, applyDeltas, normalize).value;
      var h := CopyHeader(sp, normalize).value;
      && r.policies == Some(applyDeltas(engine.resourcePolicies, sp.policyDeltas, sp.serviceDef.value.name))
      && r.(policies := h.policies, tagPolicies := h.tagPolicies, securityZones := h.securityZones) == h
  {
  }

  /** With a tag sub-bundle, its policies are the fold of the input's deltas onto the engine's
      tag policies for the tag service definition; without one, the result has none. */
  lemma ApplyDeltaTagPolicies(sp: ServicePolicies, engine: PolicyEngine, applyDeltas: DeltaFold, normalize: Normalizer)
    requires ApplyDelta(sp, engine, applyDeltas, normalize).Success?
    ensures var r := ApplyDelta(sp, engine, applyDeltas, normalize).value;
      var h := CopyHeader(sp, normalize).value;
      && (sp.tagPolicies.None? ==> r.tagPolicies.None?)
      && (sp.tagPolicies.Some? ==>
            r.tagPolicies == Some(h.tagPolicies.value.(policies :=
              Some(applyDeltas(engine.tagPolicies, sp.policyDeltas, sp.tagPolicies.value.serviceDef.value.name)))))
  {
  }

  /** A non-empty zone map keeps exactly its keys; each zone keeps its name and resources,
      gets the fold of its own deltas onto the engine's zone policies, and has no deltas.
      An absent or empty zone map passes through unchanged. */
  lemma ApplyDeltaZones(sp: ServicePolicies, engine: PolicyEngine, applyDeltas: DeltaFold, normalize: Normalizer)
    requires ApplyDelta(sp, engine, applyDeltas, normalize).Success?
    ensures var r := ApplyDelta(sp, engine, applyDeltas, normalize).value;
      && (sp.securityZones.None? || sp.securityZones.value == map[] ==> r.securityZones == sp.securityZones)
      && (sp.securityZones.Some? && sp.securityZones.value != map[] ==>
            && r.securityZones.Some?
            && r.securityZones.value.Keys == sp.securityZones.value.Keys
            && forall z | z in r.securityZones.value ::
                 var nz := r.securityZones.value[z];
                 && nz.zoneName == z
                 && nz.resources == sp.securityZones.value[z].resources
                 && nz.policies == Some(applyDeltas(engine.zonePolicies(z), sp.securityZones.value[z].policyDeltas,
                                                    sp.serviceDef.value.name))
                 && nz.policyDeltas == None)
  {
    if sp.securityZones.Some? && sp.securityZones.value != map[] {
      assert |sp.securityZones.value| > 0;
    }
  }

  /** The input's own policy lists never reach the result: only its header and deltas do. */
  lemma ApplyDeltaIgnoresInputPolicies(sp: ServicePolicies, policies: Option<seq<Policy>>, engine: PolicyEngine,
                                       applyDeltas: DeltaFold, normalize: Normalizer)
    ensures ApplyDelta(sp.(policies := policies), engine, applyDeltas, normalize)
         == ApplyDelta(sp, engine, applyDeltas, normalize)
  {
  }

  // ---------------------------------------------------------------- dedupStrings

  /** The shared string table: a string maps to its canonical instance. */
  type StrTable = map<string, string>

  /** The interning collaborators, each taking and returning the shared table. */
  datatype Interner = Interner(
    str: (string, StrTable) -> (string, StrTable),
    strMap: (Option<map<string, string>>, StrTable) -> (Option<map<string, string>>, StrTable),
    resource: (ZoneResource, StrTable) -> (ZoneResource, StrTable),
    policy: (Policy, StrTable) -> (Policy, StrTable),
    serviceDef: (ServiceDef, StrTable) -> (ServiceDef, StrTable),
    delta: (PolicyDelta, StrTable) -> (PolicyDelta, StrTable))

  /** Each collaborator returns a value equal to its argument: interning replaces a string by
      an equal one, which is what deduplication is meant to do. */
  ghost predicate KeepsValues(it: Interner) {
    && (forall s, t :: it.str(s, t).0 == s)
    && (forall m, t :: it.strMap(m, t).0 == m)
    && (forall res, t :: it.resource(res, t).0 == res)
    && (forall p, t :: it.policy(p, t).0 == p)
    && (forall d, t :: it.serviceDef(d, t).0 == d)
    && (forall d, t :: it.delta(d, t).0 == d)
  }

  /** Processes the elements in order, threading the table from one to the next. */
  function ThreadThrough<A>(xs: seq<A>, t: StrTable, f: (A, StrTable) -> (A, StrTable)): (r: (seq<A>, StrTable))
    ensures |r.0| == |xs|
  {
    if xs == [] then ([], t)
    else
      var prefix := ThreadThrough(xs[..|xs| - 1], t, f);
      var last := f(xs[|xs| - 1], prefix.1);
      (prefix.0 + [last.0], last.1)
  }

  /** Processing a concatenation processes the first part, then the second part with the
      table the first part left behind. */
  lemma {:induction false} ThreadThroughAppend<A>(xs: seq<A>, ys: seq<A>, t: StrTable, f: (A, StrTable) -> (A, StrTable))
    ensures var first := ThreadThrough(xs, t, f);
      var second := ThreadThrough(ys, first.1, f);
      ThreadThrough(xs + ys, t, f) == (first.0 + second.0, second.1)
    decreases |ys|
  {
    if ys != [] {
      var ys' := ys[..|ys| - 1];
      assert (xs + ys)[..|xs + ys| - 1] == xs + ys';
      assert (xs + ys)[|xs + ys| - 1] == ys[|ys| - 1];
      ThreadThroughAppend(xs, ys', t, f);
      var first := ThreadThrough(xs, t, f);
      var middle := ThreadThrough(ys', first.1, f);
      var last := f(ys[|ys| - 1], middle.1);
      assert ThreadThrough(ys, first.1, f) == (middle.0 + [last.0], last.1);
      assert (first.0 + middle.0) + [last.0] == first.0 + (middle.0 + [last.0]);
    } else {
      assert xs + ys == xs;
      assert ThreadThrough(xs, t, f).0 + [] == ThreadThrough(xs, t, f).0;
    }
  }

  /** When `f` returns an equal element, processing leaves the list unchanged. */
  lemma {:induction false} ThreadThroughKeeps<A>(xs: seq<A>, t: StrTable, f: (A, StrTable) -> (A, StrTable))
    requires forall x, t' :: f(x, t').0 == x
    ensures ThreadThrough(xs, t, f).0 == xs
  {
    if xs != [] {
      ThreadThroughKeeps(xs[..|xs| - 1], t, f);
      assert xs[..|xs| - 1] + [xs[|xs| - 1]] == xs;
    }
  }

  /** The loop over a list of nested objects, each interning its strings in turn. */
  method DedupEach<A>(xs: seq<A>, t: StrTable, f: (A, StrTable) -> (A, StrTable)) returns (ys: seq<A>, t': StrTable)
    ensures (ys, t') == ThreadThrough(xs, t, f)
  {
    ys, t' := [], t;
    for i := 0 to |xs|
      invariant (ys, t') == ThreadThrough(xs[..i], t, f)
    {
      assert xs[..i + 1][..i] == xs[..i];
      var next := f(xs[i], t');
      ys, t' := ys + [next.0], next.1;
    }
    assert xs[..|xs|] == xs;
  }

  /** A nullable list: an absent list is left alone. */
  function ThreadOption<A>(xs: Option<seq<A>>, t: StrTable, f: (A, StrTable) -> (A, StrTable)): (Option<seq<A>>, StrTable) {
    match xs
    case None => (None, t)
    case Some(s) => var r := ThreadThrough(s, t, f); (Some(r.0), r.1)
  }

  method DedupOption<A>(xs: Option<seq<A>>, t: StrTable, f: (A, StrTable) -> (A, StrTable)) returns (ys: Option<seq<A>>, t': StrTable)
    ensures (ys, t') == ThreadOption(xs, t, f)
  {
    if xs.None? {
      ys, t' := None, t;
    } else {
      var s;
      s, t' := DedupEach(xs.value, t, f);
      ys := Some(s);
    }
  }

  /** Specification of the tag sub-bundle's deduplication: name, audit mode, configuration,
      policies and service definition, in that order, through one table. */
  function DedupTagSpec(tag: TagPolicies, t0: StrTable, it: Interner): (TagPolicies, StrTable) {
    var (name, t1) := it.str(tag.serviceName, t0);
    var (audit, t2) := it.str(tag.auditMode, t1);
    var (config, t3) := it.strMap(tag.serviceConfig, t2);
    var (policies, t4) := ThreadOption(tag.policies, t3, it.policy);
    var (def, t5) :=
      if tag.serviceDef.None? then (None, t4)
      else var d := it.serviceDef(tag.serviceDef.value, t4); (Some(d.0), d.1);
    (tag.(serviceName := name, auditMode := audit, serviceConfig := config, policies := policies, serviceDef := def), t5)
  }

  /** Specification of one zone's deduplication: its name, then (when present and non-empty)
      a rebuilt resource list, then its policies and deltas. */
  function DedupZoneSpec(zone: SecurityZoneInfo, t0: StrTable, it: Interner): (SecurityZoneInfo, StrTable) {
    var (name, t1) := it.str(zone.zoneName, t0);
    var (resources, t2) :=
      if zone.resources.None? || zone.resources.value == [] then (zone.resources, t1)
      else ThreadOption(zone.resources, t1, it.resource);
    var (policies, t3) := ThreadOption(zone.policies, t2, it.policy);
    var (deltas, t4) := ThreadOption(zone.policyDeltas, t3, it.delta);
    (zone.(zoneName := name, resources := resources, policies := policies, policyDeltas := deltas), t4)
  }

  /** `order` lists the keys of the zone map, each once: the map's iteration order. */
  ghost predicate EnumeratesKeys(order: seq<string>, zones: map<string, SecurityZoneInfo>) {
    && (forall z :: z in zones <==> z in order)
    && (forall i, j | 0 <= i < j < |order| :: order[i] != order[j])
  }

  /** Deduplicates the zones named by `order`, in that order, each replaced in place in the map. */
  function DedupZonesSpec(zones: map<string, SecurityZoneInfo>, order: seq<string>, t: StrTable, it: Interner)
    : (r: (map<string, SecurityZoneInfo>, StrTable))
    requires forall z | z in order :: z in zones
    ensures r.0.Keys == zones.Keys
  {
    if order == [] then (zones, t)
    else
      var prefix := DedupZonesSpec(zones, order[..|order| - 1], t, it);
      var z := order[|order| - 1];
      var nz := DedupZoneSpec(prefix.0[z], prefix.1, it);
      (prefix.0[z := nz.0], nz.1)
  }

  /** Specification of the bundle's deduplication through a table that starts empty. */
  function DedupSpec(b: ServicePolicies, zoneOrder: seq<string>, it: Interner): (ServicePolicies, StrTable)
    requires EnumeratesKeys(zoneOrder, b.securityZones.GetOr(map[]))
  {
    var (name, t1) := it.str(b.serviceName, map[]);
    var (audit, t2) := it.str(b.auditMode, t1);
    var (config, t3) := it.strMap(b.serviceConfig, t2);
    var (policies, t4) := ThreadOption(b.policies, t3, it.policy);
    var (def, t5) :=
      if b.serviceDef.None? then (None, t4)
      else var d := it.serviceDef(b.serviceDef.value, t4); (Some(d.0), d.1);
    var (tag, t6) :=
      if b.tagPolicies.None? then (None, t5)
      else var r := DedupTagSpec(b.tagPolicies.value, t5, it); (Some(r.0), r.1);
    var (zones, t7) :=
      if b.securityZones.None? then (None, t6)
      else var r := DedupZonesSpec(b.securityZones.value, zoneOrder, t6, it); (Some(r.0), r.1);
    var (deltas, t8) := ThreadOption(b.policyDeltas, t7, it.delta);
    (b.(serviceName := name, auditMode := audit, serviceConfig := config, policies := policies,
        serviceDef := def, tagPolicies := tag, securityZones := zones, policyDeltas := deltas), t8)
  }

  /** TagPolicies.dedupStrings. */
  method DedupTag(tag: TagPolicies, t0: StrTable, it: Interner) returns (r: TagPolicies, t: StrTable)
    ensures (r, t) == DedupTagSpec(tag, t0, it)
  {
    r := tag;
    var name, audit, config;
    var nameStep := it.str(tag.serviceName, t0);
    name, t := nameStep.0, nameStep.1;
    var auditStep := it.str(tag.auditMode, t);
    audit, t := auditStep.0, auditStep.1;
    var configStep := it.strMap(tag.serviceConfig, t);
    config, t := configStep.0, configStep.1;
    r := r.(serviceName := name, auditMode := audit, serviceConfig := config);
    var policies;
    policies, t := DedupOption(tag.policies, t, it.policy);
    r := r.(policies := policies);
    if tag.serviceDef.Some? {
      var def;
      var defStep := it.serviceDef(tag.serviceDef.value, t);
      def, t := defStep.0, defStep.1;
      r := r.(serviceDef := Some(def));
    }
  }

  /** SecurityZoneInfo.dedupStrings. */
  method DedupZone(zone: SecurityZoneInfo, t0: StrTable, it: Interner) returns (r: SecurityZoneInfo, t: StrTable)
    ensures (r, t) == DedupZoneSpec(zone, t0, it)
  {
    var name;
    var nameStep := it.str(zone.zoneName, t0);
    name, t := nameStep.0, nameStep.1;
    r := zone.(zoneName := name);
    if zone.resources.Some? && zone.resources.value != [] {
      var updated;
      updated, t := DedupEach(zone.resources.value, t, it.resource);
      r := r.(resources := Some(updated));
    }
    var policies, deltas;
    policies, t := DedupOption(zone.policies, t, it.policy);
    deltas, t := DedupOption(zone.policyDeltas, t, it.delta);
    r := r.(policies := policies, policyDeltas := deltas);
  }

  /** ServicePolicies.dedupStrings: every string of the bundle goes through one fresh table;
      the zones are visited in the map's iteration order `zoneOrder`. */
  method DedupStrings(b: ServicePolicies, zoneOrder: seq<string>, it: Interner) returns (r: ServicePolicies, strTbl: StrTable)
    requires EnumeratesKeys(zoneOrder, b.securityZones.GetOr(map[]))
    ensures (r, strTbl) == DedupSpec(b, zoneOrder, it)
  {
    strTbl := map[];
    var name, audit, config;
    var nameStep := it.str(b.serviceName, strTbl);
    name, strTbl := nameStep.0, nameStep.1;
    var auditStep := it.str(b.auditMode, strTbl);
    audit, strTbl := auditStep.0, auditStep.1;
    var configStep := it.strMap(b.serviceConfig, strTbl);
    config, strTbl := configStep.0, configStep.1;
    r := b.(serviceName := name, auditMode := audit, serviceConfig := config);
    var policies;
    policies, strTbl := DedupOption(b.policies, strTbl, it.policy);
    r := r.(policies := policies);
    if b.serviceDef.Some? {
      var def;
      var defStep := it.serviceDef(b.serviceDef.value, strTbl);
      def, strTbl := defStep.0, defStep.1;
      r := r.(serviceDef := Some(def));
    }
    if b.tagPolicies.Some? {
      var tag;
      tag, strTbl := DedupTag(b.tagPolicies.value, strTbl, it);
      r := r.(tagPolicies := Some(tag));
    }
    if b.securityZones.Some? {
      var zones := b.securityZones.value;
      ghost var t6 := strTbl;
      for i := 0 to |zoneOrder|
        invariant (zones, strTbl) == DedupZonesSpec(b.securityZones.value, zoneOrder[..i], t6, it)
      {
        assert zoneOrder[..i + 1][..i] == zoneOrder[..i];
        var z := zoneOrder[i];
        var nz;
        nz, strTbl := DedupZone(zones[z], strTbl, it);
        zones := zones[z := nz];
      }
      assert zoneOrder[..|zoneOrder|] == zoneOrder;
      r := r.(securityZones := Some(zones));
    }
    var deltas;
    deltas, strTbl := DedupOption(b.policyDeltas, strTbl, it.delta);
    r := r.(policyDeltas := deltas);
  }

  /** Whatever the collaborators do, deduplication keeps the id, version and update time,
      keeps which parts are present, the number of policies and deltas, the zone names,
      and each zone's number of resource maps. */
  lemma {:induction false} DedupKeepsShape(b: ServicePolicies, zoneOrder: seq<string>, it: Interner)
    requires EnumeratesKeys(zoneOrder, b.securityZones.GetOr(map[]))
    ensures var r := DedupSpec(b, zoneOrder, it).0;
      && r.serviceId == b.serviceId
      && r.policyVersion == b.policyVersion
      && r.policyUpdateTime == b.policyUpdateTime
      && (r.policies.Some? <==> b.policies.Some?)
      && (b.policies.Some? ==> |r.policies.value| == |b.policies.value|)
      && (r.policyDeltas.Some? <==> b.policyDeltas.Some?)
      && (b.policyDeltas.Some? ==> |r.policyDeltas.value| == |b.policyDeltas.value|)
      && (r.serviceDef.Some? <==> b.serviceDef.Some?)
      && (r.tagPolicies.Some? <==> b.tagPolicies.Some?)
      && (r.securityZones.Some? <==> b.securityZones.Some?)
      && (b.securityZones.Some? ==>
            && r.securityZones.value.Keys == b.securityZones.value.Keys
            && forall z | z in b.securityZones.value :: ResourceCount(r.securityZones.value[z]) == ResourceCount(b.securityZones.value[z]))
  {
    if b.securityZones.Some? {
      var zones := b.securityZones.value;
      forall t ensures forall z | z in zones ::
          ResourceCount(DedupZonesSpec(zones, zoneOrder, t, it).0[z]) == ResourceCount(zones[z]) {
        DedupZonesKeepResourceCounts(zones, zoneOrder, t, it);
      }
    }
  }

  /** The number of resource maps of a zone, or -1 when its list is absent. */
  function ResourceCount(zone: SecurityZoneInfo): int {
    if zone.resources.None? then -1 else |zone.resources.value|
  }

  lemma {:induction false} DedupZonesKeepResourceCounts(zones: map<string, SecurityZoneInfo>, order: seq<string>, t: StrTable, it: Interner)
    requires forall z | z in order :: z in zones
    ensures forall z | z in zones :: ResourceCount(DedupZonesSpec(zones, order, t, it).0[z]) == ResourceCount(zones[z])
    decreases |order|
  {
    if order != [] {
      var prefix := order[..|order| - 1];
      DedupZonesKeepResourceCounts(zones, prefix, t, it);
    }
  }

  /** With a collaborator that returns equal elements, a nullable list is left unchanged. */
  lemma {:induction false} ThreadOptionKeeps<A>(xs: Option<seq<A>>, f: (A, StrTable) -> (A, StrTable))
    requires forall x, t' :: f(x, t').0 == x
    ensures forall t :: ThreadOption(xs, t, f).0 == xs
  {
    if xs.Some? {
      forall t ensures ThreadOption(xs, t, f).0 == xs {
        ThreadThroughKeeps(xs.value, t, f);
      }
    }
  }

  lemma {:induction false} DedupZoneKeeps(zone: SecurityZoneInfo, it: Interner)
    requires KeepsValues(it)
    ensures forall t :: DedupZoneSpec(zone, t, it).0 == zone
  {
    ThreadOptionKeeps(zone.resources, it.resource);
    ThreadOptionKeeps(zone.policies, it.policy);
    ThreadOptionKeeps(zone.policyDeltas, it.delta);
  }

  lemma {:induction false} DedupTagKeeps(tag: TagPolicies, it: Interner)
    requires KeepsValues(it)
    ensures forall t :: DedupTagSpec(tag, t, it).0 == tag
  {
    ThreadOptionKeeps(tag.policies, it.policy);
  }

  lemma {:induction false} DedupZonesKeep(zones: map<string, SecurityZoneInfo>, order: seq<string>, t: StrTable, it: Interner)
    requires forall z | z in order :: z in zones
    requires KeepsValues(it)
    ensures DedupZonesSpec(zones, order, t, it).0 == zones
    decreases |order|
  {
    if order != [] {
      DedupZonesKeep(zones, order[..|order| - 1], t, it);
      DedupZoneKeeps(zones[order[|order| - 1]], it);
    }
  }

  /** With collaborators that return equal values, deduplication gives back an equal bundle. */
  lemma {:induction false} DedupKeepsValues(b: ServicePolicies, zoneOrder: seq<string>, it: Interner)
    requires EnumeratesKeys(zoneOrder, b.securityZones.GetOr(map[]))
    requires KeepsValues(it)
    ensures DedupSpec(b, zoneOrder, it).0 == b
  {
    ThreadOptionKeeps(b.policies, it.policy);
    ThreadOptionKeeps(b.policyDeltas, it.delta);
    if b.tagPolicies.Some? {
      DedupTagKeeps(b.tagPolicies.value, it);
    }
    if b.securityZones.Some? {
      forall t ensures DedupZonesSpec(b.securityZones.value, zoneOrder, t, it).0 == b.securityZones.value {
        DedupZonesKeep(b.securityZones.value, zoneOrder, t, it);
      }
    }
  }
}
