# Tag-presence lint rule E9001, modelled in Dafny

This project models `PropertiesTagsIncluded`, a custom CloudFormation lint rule (id
`E9001`, "Tags are included on resources that support it"). The rule works in two passes:

1. `get_resources_with_tags` walks the region's resource-type catalog (`ResourceTypes`) in
   iteration order. It keeps each type name whose specification has a truthy `Properties`
   mapping containing the key `Tags`.
2. `match` walks the template's `Resources` in declaration order. It reads each resource's
   `Type` (default `""`) and `Properties` (default `{}`). It reports one `RuleMatch` when
   the type is in the kept list and `Properties` has no `Tags` key. The match has the path
   `['Resources', <name>, 'Properties']` and the message
   `Missing Tags Properties for Resources/<name>/Properties`.

Files:

- `wrappers.dfy`: `Option`, with `GetOr` playing the part of Python's `dict.get(key, default)`.
- `sequences.dfy`: `Distinct`, `IsSubsequence` (order-preserving deletion), and `Join` (Python's `'/'.join`).
- `properties_tags_included.dfy`: the data model and both passes. Each pass is a method with a loop
  that appends to a local `matches` list, as the Python does. Each method is proved equal to a
  specification function (`TagTypes`, `Violations`), and the lemmas state the rule's properties
  in terms of those functions.

Modelling choices:

- A dictionary becomes a sequence of entries in iteration order. The ordering properties depend on
  this order. Key uniqueness is the predicate `DistinctTypeNames` / `DistinctResourceNames`. Only
  the lemmas that need it require it.
- A mapping whose values the rule never inspects becomes its key set. A key that may be missing
  (or hold null) becomes an `Option`. The catalog entry's `Properties` is kept only when it is
  `Some` of a non-empty set, which is Python truthiness for a dict.
- All values are immutable, so neither pass can modify its inputs. Calling either pass twice on the
  same inputs gives the same result, because each is proved equal to a function of its inputs.

## Model

| member | source | states |
|---|---|---|
| `PropertiesTagsIncluded.GetResourcesWithTags` | tests/validate/cfn-lint/rules/PropertiesTagsIncluded.py:17-29 | The loop over the catalog returns exactly the filtered type-name list `TagTypes(catalog)`. |
| `PropertiesTagsIncluded.TagTypes` | tests/validate/cfn-lint/rules/PropertiesTagsIncluded.py:22-29 | The filtered list is never longer than the catalog. |
| `PropertiesTagsIncluded.TagTypesMembership` | tests/validate/cfn-lint/rules/PropertiesTagsIncluded.py:23-27 | A name is returned if and only if some catalog entry with that name has a non-empty `Properties` mapping containing `Tags`. |
| `PropertiesTagsIncluded.TagTypesIncludes` | tests/validate/cfn-lint/rules/PropertiesTagsIncluded.py:23-27 | With unique keys, a catalog entry's name is returned if and only if its `Properties` is present, non-empty and contains `Tags`. An absent or empty `Properties` excludes the entry and is not an error. |
| `PropertiesTagsIncluded.TagTypesSubsequence` | tests/validate/cfn-lint/rules/PropertiesTagsIncluded.py:22-29 | The returned names are a subsequence of the catalog's keys, in catalog iteration order. |
| `PropertiesTagsIncluded.TagTypesDistinct` | tests/validate/cfn-lint/rules/PropertiesTagsIncluded.py:22-29 | With unique catalog keys, no name is returned twice. |
| `PropertiesTagsIncluded.MissingTagsMatchShape` | tests/validate/cfn-lint/rules/PropertiesTagsIncluded.py:46-50 | The violation for resource `name` has path `["Resources", name, "Properties"]` and message `Missing Tags Properties for Resources/<name>/Properties`. |
| `PropertiesTagsIncluded.MissingTagsMatchInjective` | tests/validate/cfn-lint/rules/PropertiesTagsIncluded.py:47-50 | Two resources with different names never get the same violation, because the path records the name. |
| `PropertiesTagsIncluded.Violations` | tests/validate/cfn-lint/rules/PropertiesTagsIncluded.py:41-50 | There are never more violations than resources, so each resource yields at most one. |
| `PropertiesTagsIncluded.Match` | tests/validate/cfn-lint/rules/PropertiesTagsIncluded.py:31-52 | The rule first computes the tag-supporting types with `GetResourcesWithTags`, then runs its loop over the resources. It returns exactly `Violations(resources, TagTypes(catalog))`. |
| `PropertiesTagsIncluded.ViolationsShape` | tests/validate/cfn-lint/rules/PropertiesTagsIncluded.py:44-50 | Every violation belongs to a resource of a tag-supporting type without `Tags`. Its path is `["Resources", <that resource's name>, "Properties"]`, and its message is `Missing Tags Properties for ` followed by the path joined with `/`. |
| `PropertiesTagsIncluded.ViolationCount` | tests/validate/cfn-lint/rules/PropertiesTagsIncluded.py:41-50 | With unique resource names, a resource's violation occurs once in the result in one case: its `Type` (default `""`) is tag-supporting and its `Properties` is absent or lacks `Tags`. In every other case it occurs zero times. This is the per-resource if-and-only-if. |
| `PropertiesTagsIncluded.UntaggableTypeNeverReported` | tests/validate/cfn-lint/rules/PropertiesTagsIncluded.py:44 | A resource whose type is not tag-supporting is never reported, whatever its properties. |
| `PropertiesTagsIncluded.TaggedResourceNeverReported` | tests/validate/cfn-lint/rules/PropertiesTagsIncluded.py:45 | A resource whose `Properties` contains `Tags`, with any value, is never reported. |
| `PropertiesTagsIncluded.AbsentPropertiesReportedOnce` | tests/validate/cfn-lint/rules/PropertiesTagsIncluded.py:42-45 | A tag-supporting resource with no `Properties` is reported exactly once, because of the `{}` default. |
| `PropertiesTagsIncluded.AbsentTypeIsEmptyString` | tests/validate/cfn-lint/rules/PropertiesTagsIncluded.py:42 | Setting a missing `Type` to `""` leaves the whole violation list unchanged. |
| `PropertiesTagsIncluded.ViolationsInResourceOrder` | tests/validate/cfn-lint/rules/PropertiesTagsIncluded.py:40-52 | The violations are a subsequence of the resources' potential violations, so they appear in resource order. |
| `PropertiesTagsIncluded.Examples` | tests/validate/cfn-lint/rules/PropertiesTagsIncluded.py:17-52 | Worked cases. A queue type listing `Tags` with a resource whose `Properties` is empty gives exactly the `Q1` violation. The same resource with `Tags` gives none. A type whose `Properties` is empty gives none, even when the resource has no `Properties`. |

## Left out

- The region lookup `cfnlint.helpers.RESOURCE_SPECS[region]['ResourceTypes']` with `cfn.regions[0]`, and `cfn.get_resources()`. These are linter library calls. The catalog and the resource list are parameters of `Match` and `GetResourcesWithTags` instead.
- The `all_tags` computation via `cfn.search_deep_keys('Tags')`. It is a library call whose result is never used.
- Rule metadata (`id`, `shortdesc`, `description`, `tags`), the `CloudFormationLintRule` base class, and every part of `RuleMatch` other than its path and message. None of these affects which resources are reported.
- Non-mapping values where a mapping is expected, such as a `Properties` that is a string or a list. Python's `in` and truthiness would behave differently for these. The model assumes well-formed mappings.
- The property values (for example, the value under `Tags`). The rule only tests for keys.
- `tests/unit/test_nn_demo_stack.py`: it synthesizes a CDK application and looks for substrings in the JSON template. That is framework invocation, and the stack module it imports is not part of this model.
