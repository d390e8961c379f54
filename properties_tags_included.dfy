/**
 * The CloudFormation lint rule E9001 "Tags are included on resources that support it".
 *
 * The rule first filters the resource-type catalog of the template's region down to the
 * types whose specification lists a `Tags` property, then walks the template's resources
 * in declaration order and reports every resource of such a type whose `Properties`
 * mapping has no `Tags` key.
 *
 * Mappings are modelled by their key sets, dictionaries by sequences of entries in
 * iteration order, and a key that may be missing by an `Option`.
 */
module PropertiesTagsIncluded {
  import opened Wrappers
  import opened Sequences

  /** The property key the rule looks for. */
  const TAGS: string := "Tags"

  /** One `ResourceTypes` entry of the region's resource specification: the type name and
      the keys of its `Properties` mapping (`None` when that key is missing or null). */
  datatype CatalogEntry = CatalogEntry(typeName: string, properties: Option<set<string>>)

  /** One entry of the template's `Resources` section: its logical name, its `Type` and the
      keys of its `Properties` mapping, each `None` when the key is missing. */
  datatype Resource = Resource(name: string, resourceType: Option<string>, properties: Option<set<string>>)

  /** A reported violation: where in the template it is, and the text shown to the user. */
  datatype RuleMatch = RuleMatch(path: seq<string>, message: string)

  /** Dictionary keys are unique. */
  predicate DistinctTypeNames(catalog: seq<CatalogEntry>) {
    forall i, j :: 0 <= i < j < |catalog| ==> catalog[i].typeName != catalog[j].typeName
  }

  /** Dictionary keys are unique. */
  predicate DistinctResourceNames(resources: seq<Resource>) {
    forall i, j :: 0 <= i < j < |resources| ==> resources[i].name != resources[j].name
  }

  /** The catalog's type names, in iteration order. */
  function TypeNames(catalog: seq<CatalogEntry>): seq<string> {
    seq(|catalog|, i requires 0 <= i < |catalog| => catalog[i].typeName)
  }

  // ---------------------------------------------------------------------------
  // Resource types that support tags
  // ---------------------------------------------------------------------------

  /** A catalog entry is kept when its `Properties` mapping is truthy (present, not null and
      not empty) and contains the key `Tags`. */
  predicate SupportsTags(entry: CatalogEntry) {
    entry.properties.Some? && entry.properties.value != {} && TAGS in entry.properties.value
  }

  /** The type names of the entries that support tags, in catalog order. */
  function TagTypes(catalog: seq<CatalogEntry>): (r: seq<string>)
    ensures |r| <= |catalog|
  {
    if catalog == [] then []
    else
      var last := catalog[|catalog| - 1];
      TagTypes(catalog[..|catalog| - 1]) + (if SupportsTags(last) then [last.typeName] else [])
  }

  /** `get_resources_with_tags`: one pass over the catalog, appending each kept type name. */
  method GetResourcesWithTags(catalog: seq<CatalogEntry>) returns (matches: seq<string>)
    ensures matches == TagTypes(catalog)
  {
    matches := [];
    for i := 0 to |catalog|
      invariant matches == TagTypes(catalog[..i])
    {
      var resourceObj := catalog[i];
      var propertiesObj := resourceObj.properties;
      if propertiesObj.Some? && propertiesObj.value != {} {
        if TAGS in propertiesObj.value {
          matches := matches + [resourceObj.typeName];
        }
      }
      assert catalog[..i + 1][..i] == catalog[..i];
    }
    assert catalog[..|catalog|] == catalog;
  }

  /** A type name is returned exactly when some catalog entry of that name supports tags. */
  lemma {:induction false} TagTypesMembership(catalog: seq<CatalogEntry>, t: string)
    ensures t in TagTypes(catalog) <==>
              exists i :: 0 <= i < |catalog| && catalog[i].typeName == t && SupportsTags(catalog[i])
  {
    if catalog != [] {
      var n := |catalog| - 1;
      var init := catalog[..n];
      TagTypesMembership(init, t);
      if t in TagTypes(catalog) && t !in TagTypes(init) {
        assert catalog[n].typeName == t && SupportsTags(catalog[n]);
      }
      if exists i :: 0 <= i < |catalog| && catalog[i].typeName == t && SupportsTags(catalog[i]) {
        var i :| 0 <= i < |catalog| && catalog[i].typeName == t && SupportsTags(catalog[i]);
        if i < n {
          assert init[i] == catalog[i];
        }
      }
    }
  }

  /** With unique keys, an entry's type name is returned if and only if its specification has
      a non-empty `Properties` mapping containing `Tags`; an entry without `Properties`, or
      with an empty one, is simply left out. */
  lemma TagTypesIncludes(catalog: seq<CatalogEntry>, i: nat)
    requires DistinctTypeNames(catalog)
    requires i < |catalog|
    ensures catalog[i].typeName in TagTypes(catalog) <==>
              (catalog[i].properties.Some? && catalog[i].properties.value != {} &&
               TAGS in catalog[i].properties.value)
  {
    var t := catalog[i].typeName;
    TagTypesMembership(catalog, t);
    if t in TagTypes(catalog) {
      var j :| 0 <= j < |catalog| && catalog[j].typeName == t && SupportsTags(catalog[j]);
      assert j == i;
    }
  }

  /** The result lists catalog keys in catalog iteration order. */
  lemma {:induction false} TagTypesSubsequence(catalog: seq<CatalogEntry>)
    ensures IsSubsequence(TagTypes(catalog), TypeNames(catalog))
  {
    if catalog != [] {
      var n := |catalog| - 1;
      var init := catalog[..n];
      TagTypesSubsequence(init);
      var names := TypeNames(catalog);
      assert names[..n] == TypeNames(init);
      var r := TagTypes(catalog);
      if SupportsTags(catalog[n]) {
        assert r[..|r| - 1] == TagTypes(init);
      } else {
        assert r == TagTypes(init);
        if r != [] {
          assert names != [];
        }
      }
    }
  }

  /** With unique catalog keys, no type name is returned twice. */
  lemma {:induction false} TagTypesDistinct(catalog: seq<CatalogEntry>)
    requires DistinctTypeNames(catalog)
    ensures Distinct(TagTypes(catalog))
  {
    if catalog != [] {
      var n := |catalog| - 1;
      var init := catalog[..n];
      TagTypesDistinct(init);
      if SupportsTags(catalog[n]) {
        var last := catalog[n].typeName;
        if last in TagTypes(init) {
          TagTypesMembership(init, last);
          assert false;
        }
      }
    }
  }

  // ---------------------------------------------------------------------------
  // Checking the template's resources
  // ---------------------------------------------------------------------------

  /** `Type` with the default `""` of `resource_obj.get('Type', "")`. */
  function TypeOf(resource: Resource): string {
    resource.resourceType.GetOr("")
  }

  /** `Properties` keys with the default `{}` of `resource_obj.get('Properties', {})`. */
  function PropertyKeysOf(resource: Resource): set<string> {
    resource.properties.GetOr({})
  }

  /** A resource is reported when its type supports tags and its properties lack `Tags`. */
  predicate MissingTags(resource: Resource, tagTypes: seq<string>) {
    TypeOf(resource) in tagTypes && TAGS !in PropertyKeysOf(resource)
  }

  /** The path of the `Properties` mapping of resource `name`. */
  function PropertiesPath(name: string): seq<string> {
    ["Resources", name, "Properties"]
  }

  /** The violation reported for the resource `name`. */
  function MissingTagsMatch(name: string): RuleMatch {
    var path := PropertiesPath(name);
    RuleMatch(path, "Missing Tags Properties for " + Join(path, "/"))
  }

  /** A violation points at `Resources/<name>/Properties` and its message spells that path out. */
  lemma MissingTagsMatchShape(name: string)
    ensures MissingTagsMatch(name).path == ["Resources", name, "Properties"]
    ensures MissingTagsMatch(name).message == "Missing Tags Properties for Resources/" + name + "/Properties"
  {
    var path := PropertiesPath(name);
    assert path[1..] == [name, "Properties"] && path[1..][1..] == ["Properties"];
    assert Join(path[1..], "/") == name + "/" + "Properties";
  }

  /** Distinct resources get distinct violations: the name is recoverable from the path. */
  lemma MissingTagsMatchInjective(a: string, b: string)
    requires MissingTagsMatch(a) == MissingTagsMatch(b)
    ensures a == b
  {
  }

  /** The violations for `resources`, in resource order. */
  function Violations(resources: seq<Resource>, tagTypes: seq<string>): (r: seq<RuleMatch>)
    ensures |r| <= |resources|
  {
    if resources == [] then []
    else
      var last := resources[|resources| - 1];
      Violations(resources[..|resources| - 1], tagTypes)
        + (if MissingTags(last, tagTypes) then [MissingTagsMatch(last.name)] else [])
  }

  /** `match`: compute the tag-supporting types, then one pass over the resources, appending
      a violation for each resource that lacks `Tags`. */
  method Match(catalog: seq<CatalogEntry>, resources: seq<Resource>) returns (matches: seq<RuleMatch>)
    ensures matches == Violations(resources, TagTypes(catalog))
  {
    matches := [];
    var resourcesTags := GetResourcesWithTags(catalog);
    for i := 0 to |resources|
      invariant matches == Violations(resources[..i], resourcesTags)
    {
      var resourceObj := resources[i];
      var resourceType := resourceObj.resourceType.GetOr("");
      var resourceProperties := resourceObj.properties.GetOr({});
      if resourceType in resourcesTags {
        if TAGS !in resourceProperties {
          matches := matches + [MissingTagsMatch(resourceObj.name)];
        }
      }
      assert resources[..i + 1][..i] == resources[..i];
    }
    assert resources[..|resources|] == resources;
  }

  /** Every violation belongs to a resource of a tag-supporting type without `Tags`, and has
      the path `Resources/<name>/Properties` and the message built from that path. */
  lemma {:induction false} ViolationsShape(resources: seq<Resource>, tagTypes: seq<string>, k: nat)
    requires k < |Violations(resources, tagTypes)|
    ensures exists i :: 0 <= i < |resources| && MissingTags(resources[i], tagTypes) &&
                        Violations(resources, tagTypes)[k] == MissingTagsMatch(resources[i].name) &&
                        Violations(resources, tagTypes)[k].path == ["Resources", resources[i].name, "Properties"]
    ensures Violations(resources, tagTypes)[k].message ==
              "Missing Tags Properties for " + Join(Violations(resources, tagTypes)[k].path, "/")
  {
    var n := |resources| - 1;
    var init := resources[..n];
    var v := Violations(resources, tagTypes);
    if k < |Violations(init, tagTypes)| {
      ViolationsShape(init, tagTypes, k);
      var i :| 0 <= i < |init| && MissingTags(init[i], tagTypes) &&
                Violations(init, tagTypes)[k] == MissingTagsMatch(init[i].name);
      assert resources[i] == init[i];
    } else {
      assert v[k] == MissingTagsMatch(resources[n].name);
    }
  }

  /** The number of times a resource's violation is reported: once when its type (defaulting
      to `""`) is tag-supporting and its properties (defaulting to none) lack `Tags`, never
      otherwise. */
  lemma ViolationCount(resources: seq<Resource>, tagTypes: seq<string>, i: nat)
    requires DistinctResourceNames(resources)
    requires i < |resources|
    ensures multiset(Violations(resources, tagTypes))[MissingTagsMatch(resources[i].name)] ==
              if resources[i].resourceType.GetOr("") in tagTypes &&
                 (resources[i].properties.None? || TAGS !in resources[i].properties.value)
              then 1 else 0
  {
    ReportedOnceByName(resources, tagTypes, i);
  }

  /** The count of `ViolationCount`, needing only that no other resource shares the name. */
  lemma {:induction false} ReportedOnceByName(resources: seq<Resource>, tagTypes: seq<string>, i: nat)
    requires i < |resources|
    requires forall j :: 0 <= j < |resources| && j != i ==> resources[j].name != resources[i].name
    ensures multiset(Violations(resources, tagTypes))[MissingTagsMatch(resources[i].name)] ==
              if MissingTags(resources[i], tagTypes) then 1 else 0
  {
    var n := |resources| - 1;
    var init := resources[..n];
    var name := resources[i].name;
    ViolationsLastStep(resources, tagTypes, name);
    if i < n {
      UniqueNameInPrefix(resources, i);
      ReportedOnceByName(init, tagTypes, i);
      assert init[i] == resources[i];
    } else {
      UniqueNameInPrefix(resources, i);
      NotYetReported(init, tagTypes, name);
      assert resources[i] == resources[n];
      assert multiset(Violations(init, tagTypes))[MissingTagsMatch(name)] == 0;
    }
  }

  /** Uniqueness of one resource's name carries over to the resources before the last one. */
  lemma UniqueNameInPrefix(resources: seq<Resource>, i: nat)
    requires i < |resources|
    requires forall j :: 0 <= j < |resources| && j != i ==> resources[j].name != resources[i].name
    ensures var init := resources[..|resources| - 1];
            if i < |init| then forall j :: 0 <= j < |init| && j != i ==> init[j].name != init[i].name
            else forall j :: 0 <= j < |init| ==> init[j].name != resources[i].name
  {
  }

  /** How the last resource changes the number of violations for `name`. */
  lemma ViolationsLastStep(resources: seq<Resource>, tagTypes: seq<string>, name: string)
    requires resources != []
    ensures var last := resources[|resources| - 1];
            multiset(Violations(resources, tagTypes))[MissingTagsMatch(name)] ==
              multiset(Violations(resources[..|resources| - 1], tagTypes))[MissingTagsMatch(name)] +
              (if MissingTags(last, tagTypes) && last.name == name then 1 else 0)
  {
  }

  /** A name carried by no resource of `resources` gets no violation from it. */
  lemma {:induction false} NotYetReported(resources: seq<Resource>, tagTypes: seq<string>, name: string)
    requires forall j :: 0 <= j < |resources| ==> resources[j].name != name
    ensures multiset(Violations(resources, tagTypes))[MissingTagsMatch(name)] == 0
  {
    if resources != [] {
      var n := |resources| - 1;
      var init := resources[..n];
      NotYetReported(init, tagTypes, name);
      ViolationsLastStep(resources, tagTypes, name);
    }
  }

  /** A resource whose type does not support tags is never reported, whatever its properties. */
  lemma UntaggableTypeNeverReported(resources: seq<Resource>, tagTypes: seq<string>, i: nat)
    requires DistinctResourceNames(resources)
    requires i < |resources|
    requires resources[i].resourceType.GetOr("") !in tagTypes
    ensures MissingTagsMatch(resources[i].name) !in Violations(resources, tagTypes)
  {
    ViolationCount(resources, tagTypes, i);
  }

  /** A resource whose properties contain `Tags`, with any value, is never reported. */
  lemma TaggedResourceNeverReported(resources: seq<Resource>, tagTypes: seq<string>, i: nat)
    requires DistinctResourceNames(resources)
    requires i < |resources|
    requires resources[i].properties.Some? && TAGS in resources[i].properties.value
    ensures MissingTagsMatch(resources[i].name) !in Violations(resources, tagTypes)
  {
    ViolationCount(resources, tagTypes, i);
  }

  /** A tag-supporting resource with no `Properties` at all is reported exactly once. */
  lemma AbsentPropertiesReportedOnce(resources: seq<Resource>, tagTypes: seq<string>, i: nat)
    requires DistinctResourceNames(resources)
    requires i < |resources|
    requires resources[i].resourceType.GetOr("") in tagTypes
    requires resources[i].properties.None?
    ensures multiset(Violations(resources, tagTypes))[MissingTagsMatch(resources[i].name)] == 1
  {
    ViolationCount(resources, tagTypes, i);
  }

  /** A resource with no `Type` is checked exactly as one whose `Type` is `""`. */
  lemma {:induction false} AbsentTypeIsEmptyString(resources: seq<Resource>, tagTypes: seq<string>, i: nat)
    requires i < |resources|
    requires resources[i].resourceType.None?
    ensures Violations(resources[i := resources[i].(resourceType := Some(""))], tagTypes) ==
            Violations(resources, tagTypes)
  {
    var n := |resources| - 1;
    var changed := resources[i := resources[i].(resourceType := Some(""))];
    if i < n {
      AbsentTypeIsEmptyString(resources[..n], tagTypes, i);
      assert changed[..n] == resources[..n][i := resources[i].(resourceType := Some(""))];
    } else {
      assert changed[..n] == resources[..n];
    }
  }

  /** Violations come out in the order of the resources they belong to: the result is the
      sequence of every resource's potential violation with the compliant ones deleted. */
  lemma {:induction false} ViolationsInResourceOrder(resources: seq<Resource>, tagTypes: seq<string>)
    ensures IsSubsequence(Violations(resources, tagTypes),
                          seq(|resources|, i requires 0 <= i < |resources| => MissingTagsMatch(resources[i].name)))
  {
    if resources != [] {
      var n := |resources| - 1;
      var init := resources[..n];
      ViolationsInResourceOrder(init, tagTypes);
      var all := seq(|resources|, i requires 0 <= i < |resources| => MissingTagsMatch(resources[i].name));
      assert all[..n] == seq(|init|, i requires 0 <= i < |init| => MissingTagsMatch(init[i].name));
      var r := Violations(resources, tagTypes);
      if MissingTags(resources[n], tagTypes) {
        assert r[..|r| - 1] == Violations(init, tagTypes);
      } else {
        assert r == Violations(init, tagTypes);
        if r != [] {
          assert all != [];
        }
      }
    }
  }

  /** The worked cases: a queue type whose specification lists `Tags`, and a topic type whose
      `Properties` mapping is empty. */
  lemma Examples()
    ensures var catalog := [CatalogEntry("AWS::SQS::Queue", Some({"Tags"}))];
            Violations([Resource("Q1", Some("AWS::SQS::Queue"), Some({}))], TagTypes(catalog)) ==
              [RuleMatch(["Resources", "Q1", "Properties"], "Missing Tags Properties for Resources/Q1/Properties")]
    ensures var catalog := [CatalogEntry("AWS::SQS::Queue", Some({"Tags"}))];
            Violations([Resource("Q1", Some("AWS::SQS::Queue"), Some({"Tags"}))], TagTypes(catalog)) == []
    ensures var catalog := [CatalogEntry("AWS::SNS::Topic", Some({}))];
            Violations([Resource("T1", Some("AWS::SNS::Topic"), None)], TagTypes(catalog)) == []
  {
    var queue := [CatalogEntry("AWS::SQS::Queue", Some({"Tags"}))];
    assert queue[..0] == [];
    assert TagTypes(queue) == ["AWS::SQS::Queue"];
    var untagged := [Resource("Q1", Some("AWS::SQS::Queue"), Some({}))];
    assert untagged[..0] == [];
    assert MissingTags(untagged[0], TagTypes(queue));
    assert Violations(untagged, TagTypes(queue)) == [MissingTagsMatch("Q1")];
    MissingTagsMatchShape("Q1");
    assert "Missing Tags Properties for Resources/" + "Q1" + "/Properties"
        == "Missing Tags Properties for Resources/Q1/Properties";
    var topic := [CatalogEntry("AWS::SNS::Topic", Some({}))];
    assert TagTypes(topic) == [];
  }
}
