# Swank specification assembly, modelled in Dafny

FubuMVC.Swank documents a FubuMVC web application. Its
`SpecificationService` takes the application's routed actions and builds
one `Specification`:

- a catalog of the request and response types those actions use;
- a list of modules, each holding resources;
- a list of root resources that belong to no module.

A resource holds its endpoints, and each endpoint carries its URL,
verb, URL and querystring parameters, status codes, headers and
payloads. Types, modules, resources, endpoints, querystring parameters,
status codes, headers and options are sorted; members keep property
order and URL parameters keep route order.

This project models that assembly as pure functions over sequences, one
module per stage, and proves what the stages promise:

- which actions are documented and where;
- how orphaned actions are reported;
- that the type walk terminates on cyclic type graphs and never enters
  hidden, auto-bound, system or enum members;
- how every list is ordered, with LINQ's stable sort;
- that, without module or resource overrides, every mapped action has
  an endpoint in the resource (and module) its description names, and,
  without overrides or a merge, that every endpoint in the output
  documents a non-hidden action;
- that, without type overrides, a non-list payload names a documented
  type.

Reflection is an explicit registry (type id to properties, flags and
enum fields). Description conventions, override hooks, the text-resource
lookup and the merge service are uninterpreted functions held in the
`Service` value. Whatever they return is taken as given.

| file | module | models |
|---|---|---|
| wrappers.dfy | Wrappers | `Option` (a C# null) and `Result` (an exception) |
| text.dfy | Text | ordinal string order, ASCII lower-casing, `Split('?').First()`, `EnusureStartsWith`, `Join` |
| linq.dfy | Linq | `Where`, `Distinct`, `GroupBy`, `FirstOrDefault`, and a `Select` that may throw |
| sorting.dfy | Sorting | `OrderBy`/`ThenBy` as a stable sort by a comparator |
| metadata.dfy | Metadata | the reflection registry, actions, routes |
| documents.dfy | Documents | convention descriptions and the output document |
| settings.dfy | Settings | `Configuration`, conventions, overrides, the service's collaborators |
| verb_rank.dfy | VerbRank | `HttpVerbRank` |
| orphans.dfy | Orphans | `GetActionMapping`, `CheckForOrphanedActions` |
| enum_options.dfy | EnumOptions | `GetOptions` |
| type_graph.dfy | TypeGraph | `GetTypes(TypeContext)`, the roots and keys of `GetTypes(IList<ActionCall>)` |
| type_catalog.dfy | TypeCatalog | `GetMembers`, the types of `GetTypes(IList<ActionCall>)` |
| endpoints.dfy | Endpoints | `GetEndpoints`, `GetUrlParameters`, `GetQuerystringParameters`, `GetStatusCodes`, `GetHeaders`, `GetData` |
| generation.dfy | Generation | `GetResources`, `GetModules`, `Generate` |

## Model

| member | source | states |
|---|---|---|
| VerbRank.HttpVerbRank | src/Swank/Specification/SpecificationService.cs:22-24 | the rank is always between 0 and 5, and a null or empty verb ranks 4 |
| VerbRank.HttpVerbRankTable | src/Swank/Specification/SpecificationService.cs:22-24 | a verb ranks 0, 1, 2, 3 or 5 exactly when its lower-cased form is get, post, put, update or delete; it ranks 4 exactly when its lower-cased form is none of them |
| VerbRank.HttpVerbRankIgnoresCase | src/Swank/Specification/SpecificationService.cs:22-24 | a verb ranks the same as its upper-cased and lower-cased forms |
| VerbRank.HttpVerbRankDeleteLast | src/Swank/Specification/SpecificationService.cs:22-24 | no verb ranks above DELETE, and an unknown verb ranks strictly between UPDATE and DELETE |
| VerbRank.DeleteRank | src/Swank/Specification/SpecificationService.cs:24 | upper-case DELETE ranks 5 |
| VerbRank.UpdateRank | src/Swank/Specification/SpecificationService.cs:24 | upper-case UPDATE ranks 3 |
| Text.ToLower | src/Swank/Specification/SpecificationService.cs:22 | lower-casing keeps the length and lowers each character on its own |
| Text.LowerIgnoresCase | src/Swank/Specification/SpecificationService.cs:22 | lower-casing is idempotent and undoes upper-casing |
| Text.StrLeTotalOrder | src/Swank/Specification/SpecificationService.cs:274 | the string order used by `OrderBy` is reflexive, total, antisymmetric and transitive |
| Text.NStrLeTotalOrder | src/Swank/Specification/SpecificationService.cs:142 | ordering nullable names with null first is still a total order |
| Text.Before | src/Swank/Specification/SpecificationService.cs:238 | `Split('?').First()` returns a prefix of the URL with no `?`; when it is shorter than the URL, the next character is `?` |
| Text.BeforeSkipsFreePrefix | src/Swank/Specification/SpecificationService.cs:238 | when a `?`-free path is followed by nothing or by a part starting with `?`, `Split('?').First()` of the whole is that path |
| Text.EnsureStartsWith | src/Swank/Specification/SpecificationService.cs:227 | the result starts with `/`; it is the pattern itself when the pattern already starts with `/`, else `/` followed by the pattern |
| Text.JoinWith | src/Swank/Specification/SpecificationService.cs:227 | joining no parts gives the empty string, and joining one part gives that part |
| Linq.Filter | src/Swank/Specification/SpecificationService.cs:88-93 | `Where` keeps exactly the elements that satisfy the predicate and never lengthens the list |
| Linq.FilterAppend | src/Swank/Specification/SpecificationService.cs:88-93 | filtering a concatenation is the concatenation of the filtered parts |
| Linq.FilterSplits | src/Swank/Specification/SpecificationService.cs:77-78 | the mappings with a module and those without together are exactly the mapping, as a multiset |
| Linq.Distinct | src/Swank/Specification/SpecificationService.cs:156-161 | `Distinct` keeps exactly the input's elements, without repeats |
| Linq.GroupByNonEmpty | src/Swank/Specification/SpecificationService.cs:195 | every group is non-empty, and its first element carries the group's key |
| Linq.GroupByExact | src/Swank/Specification/SpecificationService.cs:207 | an element is in a group exactly when it is in the input and has that group's key |
| Linq.GroupByCovers | src/Swank/Specification/SpecificationService.cs:207 | every input element has a group for its key |
| Linq.GroupByKeysDistinct | src/Swank/Specification/SpecificationService.cs:195 | no two groups share a key |
| Linq.GroupByPartitions | src/Swank/Specification/SpecificationService.cs:207 | the groups together hold each input element exactly as often as the input does |
| Linq.GroupIndexOf | src/Swank/Specification/SpecificationService.cs:207 | each input element lies in the group at some index whose key is the element's key |
| Linq.GroupByMember | src/Swank/Specification/SpecificationService.cs:195 | a group's element comes from the input and has the group's key |
| Linq.GroupByContains | src/Swank/Specification/SpecificationService.cs:195 | an input element with a group's key lies in that group |
| Linq.FilterFilter | src/Swank/Specification/SpecificationService.cs:207 | filtering by a stronger predicate after a weaker one is filtering by the stronger one alone |
| Linq.GroupByItems | src/Swank/Specification/SpecificationService.cs:207 | each group holds the input's elements with its key, in input order: it is the input filtered by that key |
| Linq.FirstWithKeySpec | src/Swank/Specification/SpecificationService.cs:195 | the first position of a key is within the input, the element there has that key when the key occurs, and no earlier element has it |
| Linq.FirstWithKeyFilter | src/Swank/Specification/SpecificationService.cs:195 | filtering out no element with either of two keys keeps the order of those keys' first occurrences |
| Linq.GroupByKeyOrder | src/Swank/Specification/SpecificationService.cs:195 | groups come in the order their keys first occur in the input, and every group's key occurs |
| Linq.FirstSome | src/Swank/Specification/SpecificationService.cs:75 | `FirstOrDefault(x => x != null)` is non-null exactly when some element is non-null, and then it is the first such element |
| Linq.NoDuplicatesOccurOnce | src/Swank/Specification/SpecificationService.cs:131 | in a list without repeats, each member occurs exactly once |
| Linq.SelectAll | src/Swank/Specification/SpecificationService.cs:244-254 | a `Select` whose projection may throw succeeds exactly when every element succeeds, and then yields each result in order; otherwise it fails with the error of the first element that fails, and every earlier element succeeded |
| Sorting.Insert | src/Swank/Specification/SpecificationService.cs:142 | inserting adds exactly the one element, as a multiset |
| Sorting.SortBy | src/Swank/Specification/SpecificationService.cs:142 | sorting is a permutation of its input |
| Sorting.InsertSorted | src/Swank/Specification/SpecificationService.cs:142 | under a total preorder, inserting into a sorted list keeps it sorted |
| Sorting.SortBySorted | src/Swank/Specification/SpecificationService.cs:142 | under a total preorder, the sort's output is sorted |
| Sorting.TiesAfterInsert | src/Swank/Specification/SpecificationService.cs:142 | insertion places the new element before every element it ties with; since the sort inserts each element in front of the already sorted rest, ties keep their input order |
| Sorting.SortByStable | src/Swank/Specification/SpecificationService.cs:142 | `OrderBy` is stable: the elements that tie with any given key keep their input order |
| Sorting.TiesAppend | src/Swank/Specification/SpecificationService.cs:142 | the ties of a concatenation are the ties of each part, in order |
| Orphans.ResolveAxis | src/Swank/Specification/SpecificationService.cs:96-99 | a description the convention found is never replaced; only UseDefault replaces a null, and it replaces it with the default factory's value |
| Orphans.GetActionMapping | src/Swank/Specification/SpecificationService.cs:85-101 | the mapping holds exactly the retained actions (not hidden and not excluded on either axis), each mapped by its resolved module and resource |
| Orphans.GetActionMappingInOrder | src/Swank/Specification/SpecificationService.cs:87-100 | the mapping is the retained actions in input order, each mapped once: filter, then map |
| Orphans.HiddenActionsNeverMapped | src/Swank/Specification/SpecificationService.cs:88 | no mapped action has a hidden method or a hidden handler type |
| Orphans.ModulePolicyOutcome | src/Swank/Specification/SpecificationService.cs:90-97 | under Exclude, every mapped action has the module its convention found; under UseDefault, the convention's module or else the default factory's; under Fail, the convention's module as given |
| Orphans.ResourcePolicyOutcome | src/Swank/Specification/SpecificationService.cs:92-99 | under Exclude, every mapped action has the resource its convention found; under UseDefault, a non-null resource that is the convention's whenever the convention found one; under Fail, the convention's resource as given |
| Orphans.OrphanIdentities | src/Swank/Specification/SpecificationService.cs:107-109 | the report names exactly the orphaned actions, as `HandlerType.FullName + "." + Method.Name`, and is empty exactly when nothing is orphaned |
| Orphans.OrphanIdentitiesInOrder | src/Swank/Specification/SpecificationService.cs:105-118 | the report names the orphaned entries in mapping order, one identity each |
| Orphans.OrphanIdentitiesCount | src/Swank/Specification/SpecificationService.cs:114-116 | the report has one name per orphaned mapping entry |
| Orphans.CheckForOrphanedActions | src/Swank/Specification/SpecificationService.cs:103-118 | the check passes exactly when no Fail axis has an orphan; a module orphan under Fail gives the module error listing every module orphan; otherwise a resource orphan under Fail gives the resource error listing every resource orphan; a module error arises only under module policy Fail, and a resource error only under resource policy Fail once the module check has passed |
| Orphans.ResourcesResolvedAfterCheck | src/Swank/Specification/SpecificationService.cs:96-118 | once the check passes, every mapped action has a resource, whatever the policies |
| EnumOptions.VisibleFields | src/Swank/Specification/SpecificationService.cs:316 | the fields kept are exactly the enum's fields that are not hidden |
| EnumOptions.OptionLeTotalPreorder | src/Swank/Specification/SpecificationService.cs:324 | ordering options by `Name ?? Value` is a total preorder |
| EnumOptions.GetOptions | src/Swank/Specification/SpecificationService.cs:312-326 | a type that is neither an enum nor a nullable enum has no options; otherwise the options are a permutation of those of the visible fields; either way, they are sorted by `Name ?? Value` |
| EnumOptions.OptionFromField | src/Swank/Specification/SpecificationService.cs:314-324 | every option comes from a visible field of the enum |
| EnumOptions.FieldHasOption | src/Swank/Specification/SpecificationService.cs:314-324 | every visible field has its option |
| EnumOptions.OptionValuesFollowEnumValue | src/Swank/Specification/SpecificationService.cs:312-326 | without an option override, the options are exactly the provisional options of the visible fields, and each value is the field's name or its literal, as the `EnumValue` setting says |
| TypeGraph.ChildContexts | src/Swank/Specification/SpecificationService.cs:150-155 | a context is a child exactly when some traversable property (not hidden, auto-bound, system or enum) leads to it |
| TypeGraph.Children | src/Swank/Specification/SpecificationService.cs:147-157 | the children are exactly the contexts of the type's traversable properties, with lists unwrapped one level; a type the registry does not know has no children |
| TypeGraph.WalkSound | src/Swank/Specification/SpecificationService.cs:145-163 | everything the walk yields lies below the starting context and was reached through a traversable property, so it is never a hidden, auto-bound, system or enum member; when the starting chain repeats no type, no result's ancestors do |
| TypeGraph.WalkEachSound | src/Swank/Specification/SpecificationService.cs:158-160 | the same holds for the walks below a context's children |
| TypeGraph.ChildUnvisited | src/Swank/Specification/SpecificationService.cs:159 | the cycle guard makes the walk terminate: entering a registered child not on the chain shrinks the set of registered types not yet on the chain |
| TypeGraph.ChildChain | src/Swank/Specification/SpecificationService.cs:159 | extending a chain without repeats by a type that is not on it keeps it without repeats |
| TypeGraph.BelowChild | src/Swank/Specification/SpecificationService.cs:155 | whatever lies below a child lies below its parent |
| TypeGraph.ChildrenDiscovered | src/Swank/Specification/SpecificationService.cs:150-157 | every child was reached through a traversable property, lies directly below its parent, and has the parent's chain as its ancestors |
| TypeGraph.WalkClosed | src/Swank/Specification/SpecificationService.cs:158-162 | the walk contains every child of its start, and every child of each result whose type is not on its own ancestor chain |
| TypeGraph.WalkEachClosed | src/Swank/Specification/SpecificationService.cs:158-160 | the walks below the children contain the children of every child the guard lets through, and they are closed in the same way |
| TypeGraph.InputRoots | src/Swank/Specification/SpecificationService.cs:122-124 | the request-body roots are exactly the list-unwrapped input types of the actions with input whose route allows neither GET nor DELETE, each scoped to its action |
| TypeGraph.OutputTypes | src/Swank/Specification/SpecificationService.cs:125-126 | the output types are exactly those of the actions with output |
| TypeGraph.OutputRootsOf | src/Swank/Specification/SpecificationService.cs:127 | one response root per type, in order: the root at each position is that type unwrapped from its list, with no ancestors and no action |
| TypeGraph.OutputRoots | src/Swank/Specification/SpecificationService.cs:125-127 | the response roots are exactly the list-unwrapped output types, scoped to no action |
| TypeGraph.WalkAllMembers | src/Swank/Specification/SpecificationService.cs:130 | `SelectMany` yields exactly what some root's walk yields |
| TypeGraph.KeysOf | src/Swank/Specification/SpecificationService.cs:131 | the keys are exactly the (type, action) pairs of the contexts |
| TypeGraph.CatalogKeys | src/Swank/Specification/SpecificationService.cs:129-131 | no two catalog entries share a (type, action) key |
| TypeGraph.CatalogKeysSound | src/Swank/Specification/SpecificationService.cs:122-131 | every catalog key is a request-body root under its action, a response root, or a walked type |
| TypeGraph.CatalogKeysComplete | src/Swank/Specification/SpecificationService.cs:122-131 | every request-body root, response root and walked type has its catalog key |
| TypeGraph.CatalogKeysExactly | src/Swank/Specification/SpecificationService.cs:122-131 | a key is in the catalog exactly when it is a root or a walked type |
| TypeGraph.SharedOutputCatalogedOnce | src/Swank/Specification/SpecificationService.cs:125-131 | an output type shared by several actions is cataloged exactly once |
| TypeGraph.OnlyChild | src/Swank/Specification/SpecificationService.cs:150-157 | a type whose only property is traversable has exactly that property's context as its child |
| TypeGraph.CycleChildren | src/Swank/Specification/SpecificationService.cs:150-157 | in the two-type cycle A to B to A, A's child is B below A, and B's child is A below B and A |
| TypeGraph.WalkStopsAtChain | src/Swank/Specification/SpecificationService.cs:159 | a lone child whose type is already on the chain is yielded but not entered |
| TypeGraph.WalkEntersChild | src/Swank/Specification/SpecificationService.cs:158-161 | a lone child not on the chain is yielded, followed by its own walk, without repeats |
| TypeGraph.CycleWalkBelowB | src/Swank/Specification/SpecificationService.cs:159 | in the cycle, the walk below B stops at A |
| TypeGraph.DistinctPair | src/Swank/Specification/SpecificationService.cs:161 | `Distinct` leaves two different elements as they are |
| TypeGraph.WalkEntersLeaf | src/Swank/Specification/SpecificationService.cs:158-161 | a lone new child whose own walk yields one other context makes the walk exactly those two |
| TypeGraph.CycleWalk | src/Swank/Specification/SpecificationService.cs:145-163 | on the cycle A to B to A, the walk from A terminates and yields B, then A below B |
| TypeGraph.OnlyOutputRoot | src/Swank/Specification/SpecificationService.cs:122-128 | one action without a request-body root but with an output has that output as its only root |
| TypeGraph.CycleRoots | src/Swank/Specification/SpecificationService.cs:122-128 | a GET action returning A has A as its only root |
| TypeGraph.CycleKeys | src/Swank/Specification/SpecificationService.cs:131 | the cycle's three contexts have the keys A, B and A |
| TypeGraph.CycleKeysDistinct | src/Swank/Specification/SpecificationService.cs:131 | deduplicating A, B, A gives A, B |
| TypeGraph.CycleWalkAll | src/Swank/Specification/SpecificationService.cs:130 | walking from the single root A yields B, then A below B |
| TypeGraph.CycleCatalogedOnce | src/Swank/Specification/SpecificationService.cs:120-131 | reached from one action's output, the cyclic types A and B are each cataloged exactly once |
| TypeCatalog.MembersOf | src/Swank/Specification/SpecificationService.cs:170-189 | every member comes from a documented property (not hidden, auto-bound, a querystring or a URL parameter), and every documented property has its member |
| TypeCatalog.GetMembers | src/Swank/Specification/SpecificationService.cs:165-190 | the members of a type are exactly those of its documented properties |
| TypeCatalog.MembersFollowProperties | src/Swank/Specification/SpecificationService.cs:170-189 | the members are the documented properties filtered first and then described, in property order |
| TypeCatalog.ProjectAppend | src/Swank/Specification/SpecificationService.cs:175-188 | describing a concatenation describes each part |
| TypeCatalog.MemberShape | src/Swank/Specification/SpecificationService.cs:177-186 | without a member override, a member is an array exactly when its property's type is an array or list; a system or enum member type is written by its XML name, and any other type by the type-id convention; a type without enum options has no options, and the options are sorted |
| TypeCatalog.TypeLeTotalPreorder | src/Swank/Specification/SpecificationService.cs:142 | ordering types by name is a total preorder |
| TypeCatalog.GetTypes | src/Swank/Specification/SpecificationService.cs:120-143 | the types are a permutation of one built type per catalog key, sorted by name |
| TypeCatalog.GetTypesStable | src/Swank/Specification/SpecificationService.cs:142 | types whose names tie keep their catalog order |
| TypeCatalog.TypesFromCatalog | src/Swank/Specification/SpecificationService.cs:120-143 | every documented type is built from a catalog entry (a request-body root, a response root or a walked type), and every entry is documented |
| TypeCatalog.CatalogEntryDocumented | src/Swank/Specification/SpecificationService.cs:129-142 | the type built for any catalog entry is among the documented types |
| TypeCatalog.TypeIdentity | src/Swank/Specification/SpecificationService.cs:133-139 | without type overrides or substitution, a request-body type is identified by the input type-id convention applied to its action's method and any other type by the type-id convention; no member is hidden, auto-bound, or a querystring or URL parameter of the key's action |
| Endpoints.QuerystringProperties | src/Swank/Specification/SpecificationService.cs:259-262 | the properties kept are exactly the input type's properties that are querystrings of the action and neither hidden nor auto-bound |
| Endpoints.QuerystringLeTotalPreorder | src/Swank/Specification/SpecificationService.cs:274 | ordering parameters by name is a total preorder |
| Endpoints.GetQuerystringParameters | src/Swank/Specification/SpecificationService.cs:257-275 | the parameters are a permutation of those of the kept properties, sorted by name |
| Endpoints.QuerystringParametersExactly | src/Swank/Specification/SpecificationService.cs:257-275 | every kept property has its parameter, and every parameter comes from a kept property |
| Endpoints.FindProperty | src/Swank/Specification/SpecificationService.cs:246 | the lookup `properties[x.Name]` finds a property with that name, and finds none exactly when no property has that name |
| Endpoints.UrlParametersNamed | src/Swank/Specification/SpecificationService.cs:244-254 | the names resolve exactly when each names a property, and then give one URL parameter per name in order; otherwise the error names a name that names no property |
| Endpoints.GetUrlParameters | src/Swank/Specification/SpecificationService.cs:241-255 | success exactly when every route parameter names a property of the input type; then one URL parameter per route parameter, in route order, built from that property; otherwise the error names a route parameter that no property has |
| Endpoints.GetStatusCodes | src/Swank/Specification/SpecificationService.cs:277-285 | the status codes are a permutation of those the convention describes, in ascending code order |
| Endpoints.HeaderLeTotalPreorder | src/Swank/Specification/SpecificationService.cs:295 | ordering by header type and then name is a total preorder |
| Endpoints.GetHeaders | src/Swank/Specification/SpecificationService.cs:287-296 | the headers are a permutation of those the convention describes, ordered by type, and by name within one type |
| Endpoints.QuerystringSuffix | src/Swank/Specification/SpecificationService.cs:227 | no parameters give an empty suffix; otherwise the suffix starts with `?` |
| Endpoints.EndpointOf | src/Swank/Specification/SpecificationService.cs:219-237 | an endpoint is built exactly when its route parameters resolve; otherwise the error names one of the route's parameters |
| Endpoints.EndpointShape | src/Swank/Specification/SpecificationService.cs:222-236 | without an endpoint override: the URL starts with `/`; the part before `?` is the `/`-prefixed route pattern (for a `?`-free pattern); the method is the first allowed verb; URL and querystring parameters exist exactly when there is input; a request exists exactly when there is input and the route allows POST or PUT; a response exists exactly when there is output |
| Endpoints.EndpointLeTotalPreorder | src/Swank/Specification/SpecificationService.cs:238 | ordering by path and then verb rank is a total preorder |
| Endpoints.GetEndpoints | src/Swank/Specification/SpecificationService.cs:217-239 | success exactly when every action's endpoint can be built; then the endpoints are a permutation of the actions' endpoints, ordered by path and by verb rank within one path; otherwise the error is that of building the endpoints in input order, which stops at the first failing action, and is a missing route parameter |
| Endpoints.EndpointFromAction | src/Swank/Specification/SpecificationService.cs:217-239 | every endpoint is the endpoint of one of the actions |
| Endpoints.ActionHasEndpoint | src/Swank/Specification/SpecificationService.cs:217-239 | every action's endpoint is among the endpoints |
| Endpoints.GetEndpointsExactly | src/Swank/Specification/SpecificationService.cs:217-239 | the endpoints are exactly the actions' endpoints |
| Endpoints.DeleteSortsLast | src/Swank/Specification/SpecificationService.cs:238 | on one path, an endpoint whose verb is DELETE in any case (rank 5) comes after every endpoint whose verb ranks below it |
| Generation.ActionsOfMembers | src/Swank/Specification/SpecificationService.cs:76 | an action is listed exactly when some mapping entry holds it |
| Generation.ResourceLeTotalPreorder | src/Swank/Specification/SpecificationService.cs:214 | ordering resources by name is a total preorder |
| Generation.SortResources | src/Swank/Specification/SpecificationService.cs:214 | resources are sorted by name, as a permutation |
| Generation.ResourceGroups | src/Swank/Specification/SpecificationService.cs:207 | when every entry has a resource, every group has a resource key, is non-empty, and holds only mapping entries |
| Generation.GetResources | src/Swank/Specification/SpecificationService.cs:204-215 | success exactly when every group's resource can be built; then the resources are a permutation of them, sorted by name; a failure is the building's failure |
| Generation.ModuleLeTotalPreorder | src/Swank/Specification/SpecificationService.cs:201 | ordering modules by name is a total preorder |
| Generation.SortModules | src/Swank/Specification/SpecificationService.cs:201 | modules are sorted by name, as a permutation |
| Generation.ModuleGroups | src/Swank/Specification/SpecificationService.cs:195 | when every entry has a module, every group has a module key, is non-empty, and holds only entries with a resource |
| Generation.GetModules | src/Swank/Specification/SpecificationService.cs:192-202 | success exactly when every group's module can be built; then the modules are a permutation of them, sorted by name; a failure is the building's failure |
| Generation.SpecificationComments | src/Swank/Specification/SpecificationService.cs:73-75 | the comments exist exactly when some assembly has the text resource, and are then the first assembly's that has it |
| Generation.Generate | src/Swank/Specification/SpecificationService.cs:67-83 | an orphan error from the check is the result; any failure is an orphan error or a missing route parameter |
| Generation.ResourceOfSucceeds | src/Swank/Specification/SpecificationService.cs:208-213 | a resource is built exactly when all its actions' route parameters resolve; otherwise the error is a missing route parameter |
| Generation.ResourcesBuilt | src/Swank/Specification/SpecificationService.cs:206-213 | built resources are one per group, in group order |
| Generation.ResourcesFailedAt | src/Swank/Specification/SpecificationService.cs:206-213 | a failure is the failure of one group's resource |
| Generation.ResourcesSucceed | src/Swank/Specification/SpecificationService.cs:204-215 | resources are built exactly when every action's route parameters resolve; otherwise the error is a missing route parameter |
| Generation.ResourcesFailure | src/Swank/Specification/SpecificationService.cs:204-215 | a failure to build resources means some action's route parameters do not resolve |
| Generation.GroupsResolve | src/Swank/Specification/SpecificationService.cs:206-213 | when every group's resource is built, every action's route parameters resolve |
| Generation.ModuleOfSucceeds | src/Swank/Specification/SpecificationService.cs:196-200 | a module is built exactly when all its actions' route parameters resolve; otherwise the error is a missing route parameter |
| Generation.ModulesBuilt | src/Swank/Specification/SpecificationService.cs:194-200 | built modules are one per group, in group order |
| Generation.ModulesFailedAt | src/Swank/Specification/SpecificationService.cs:194-200 | a failure is the failure of one group's module |
| Generation.ModuleGroupsResolve | src/Swank/Specification/SpecificationService.cs:194-200 | when the modules are built, every action's route parameters resolve |
| Generation.ModuleGroupResolves | src/Swank/Specification/SpecificationService.cs:194-200 | when every group's module is built, a given action's route parameters resolve |
| Generation.ModulesFailure | src/Swank/Specification/SpecificationService.cs:192-202 | a failure to build modules means some action's route parameters do not resolve |
| Generation.ModulesSucceed | src/Swank/Specification/SpecificationService.cs:192-202 | modules are built exactly when every action's route parameters resolve; otherwise the error is a missing route parameter |
| Generation.RoutesResolveSplit | src/Swank/Specification/SpecificationService.cs:77-78 | every route resolves exactly when every route resolves both among the actions in modules and among those outside |
| Generation.AssembleSucceeds | src/Swank/Specification/SpecificationService.cs:71-79 | the document is assembled exactly when every route resolves; otherwise the error is a missing route parameter |
| Generation.GenerateSucceeds | src/Swank/Specification/SpecificationService.cs:67-83 | generation succeeds exactly when the orphan check passes and every mapped action's route parameters resolve; past the check, a failure is a missing route parameter |
| Generation.ResourceEndpoints | src/Swank/Specification/SpecificationService.cs:208-212 | without a resource override, a resource has its description's name and holds exactly its group's endpoints |
| Generation.ResourceAt | src/Swank/Specification/SpecificationService.cs:204-215 | every resource is built from one group of the mapping |
| Generation.ResourceEndpointSound | src/Swank/Specification/SpecificationService.cs:204-215 | without a resource override, every endpoint of a resource documents a mapped action under that resource's name |
| Generation.GroupResource | src/Swank/Specification/SpecificationService.cs:204-215 | every group's resource is among the resources |
| Generation.ActionPlaced | src/Swank/Specification/SpecificationService.cs:204-215 | without a resource override, every mapped action's endpoint sits in the resource its description names |
| Generation.ResourcesDocumentActions | src/Swank/Specification/SpecificationService.cs:204-215 | without a resource override, the resources' endpoints document exactly the mapped actions, each under the resource its description names |
| Generation.ModuleAt | src/Swank/Specification/SpecificationService.cs:192-202 | every module is built from one group of the mapping |
| Generation.ModuleEndpointSound | src/Swank/Specification/SpecificationService.cs:192-202 | without module or resource overrides, every endpoint in a module documents a mapped action of that module |
| Generation.GroupModule | src/Swank/Specification/SpecificationService.cs:192-202 | every group's module is among the modules |
| Generation.ModuleActionPlaced | src/Swank/Specification/SpecificationService.cs:192-202 | without module or resource overrides, every action in a module sits in a resource of the module its description names |
| Generation.GenerateParts | src/Swank/Specification/SpecificationService.cs:67-83 | without a merge, a generated document has the configured name, the first comments found, the catalog types, the modules of the actions in modules, and the resources of the other actions |
| Generation.RootResourcesDocumentActions | src/Swank/Specification/SpecificationService.cs:77-78 | without a resource override or a merge, the root resources' endpoints document exactly the mapped actions without a module, each under the resource its description names |
| Generation.ModuleEndpointsDocumented | src/Swank/Specification/SpecificationService.cs:77 | without module or resource overrides, every endpoint of a given module documents a mapped action of that module |
| Generation.ModuleEndpointsMapped | src/Swank/Specification/SpecificationService.cs:77 | without module or resource overrides, every module's endpoints document mapped actions of that module |
| Generation.ModuleActionsPlaced | src/Swank/Specification/SpecificationService.cs:77 | without module or resource overrides, every mapped action with a module sits in a resource of the module its description names |
| Generation.ModulesDocumentActions | src/Swank/Specification/SpecificationService.cs:67-83 | without module or resource overrides or a merge, the modules' endpoints document exactly the mapped actions with a module, each in its module and resource |
| Generation.HiddenActionsUndocumented | src/Swank/Specification/SpecificationService.cs:88 | without module or resource overrides or a merge, every endpoint in the document, in root resources or in modules, documents an action that is not hidden |
| Generation.RequestPayloadNamesCatalogType | src/Swank/Specification/SpecificationService.cs:298-310 | without type overrides, the request payload of an action whose non-list input is a request-body root carries the id and name of the type catalogued for that input under the action, and that type is in the catalog |
| Generation.ResponsePayloadNamesCatalogType | src/Swank/Specification/SpecificationService.cs:298-310 | without type overrides, the response payload of an action with a non-list output carries the id and name of the type catalogued for that output under no action, and that type is in the catalog |

## Left out

- Reflection is not modelled. Attribute reading (`[Hide]`, auto-binding, querystring and URL-parameter markers), `IsSystemType`, `GetXmlName`, `GetRawConstantValue` and the type-descriptor cache become fields and predicates of the `Reflection` registry.
- Projection types (`IsProjection`/`GetProjectionProperties`) are not told apart: the registry lists whichever properties the service would read.
- The description conventions and every override hook are uninterpreted functions. Their implementations, and the option-convention behaviour exercised in src/Tests/Description/OptionConventionTests.cs, are not part of this model.
- A convention returning a null description (as opposed to a description with null fields) is not modelled: each convention returns a description.
- The default resource factory is modelled as never returning null; the default module factory may return null, and such actions become root resources.
- `FindTextResourceNamed` (an embedded-resource lookup) and `MergeService.Merge` (reads a file) are functions supplied with the service; the model proves nothing about what they return.
- `ToDefaultValueString` is an uninterpreted function of the configuration.
- Text.StrLeTotalOrder: `OrderBy` on strings uses the culture's comparer; the model uses ordinal (code-point) order. Only the total-order properties are relied on.
- Text.ToLower: `ToLower` is culture-aware; the model lowers ASCII letters only. This decides the verb rank only for verbs with non-ASCII letters.
- `TypeContext` equality (the `.Distinct()` calls in `GetTypes(TypeContext)`) is taken to be equality of type, ancestor chain and action. The `Join` extension is taken to be `string.Join` wrapped in a prefix and suffix, with nothing emitted for an empty or a null list (every action without input passes null).
- The exception types are modelled as a `GenerationError` result carrying the offending identities or the missing route-parameter name. When several actions could fail, the model reports the first in document order (modules before root resources, groups in the order their keys first occur, endpoints in input order).
- `GetUrlParameters` looks properties up among all of the input type's properties, hidden or not, as the code does. The model follows the code, not the narrower description that only visible properties are URL parameters.
- The walk's enum check is on the property's own type, not its list element type, as the code writes it (line 153). A list of enums therefore passes that check and is stopped only if its element type counts as a system type.
- Generation.Generate: its own contract states only the error cases; success and the document's contents are stated by Generation.GenerateSucceeds and Generation.GenerateParts.
- TypeCatalog.MembersOf: the member override runs on every documented property; the model states membership and order but nothing about what the override returns.
- Endpoints.EndpointShape and TypeCatalog.MemberShape: stated only without the corresponding override, because an override may change every field.
- Endpoints.QuerystringSuffix: states the empty case and the leading `?`; the exact `name={name}` joining is given by its definition through Endpoints.QuerystringTemplates.
- Text.JoinWith: states the empty and one-part cases only; the `Join` extension's own source is not part of this model.
- Modules and resources are grouped by value equality of their descriptions (name and comments). `GroupBy(x => x.Module)` and `GroupBy(x => x.Resource)` compare the description objects by reference unless their class overrides `Equals`; that class is not part of this model. Two distinct description objects with equal name and comments would give two groups in the source and one in the model.
- A child type context built by the two-argument `TypeContext` constructor (line 155) is taken to carry no action, so types nested under a request body are keyed and identified under no action. `TypeContext` is not part of this model; if that constructor inherits the parent's action, nested request types would be identified per action instead.
- `AllowsGet`, `AllowsPost`, `AllowsPut` and `AllowsDelete` are taken to match the route's verbs exactly, as stored upper case. The FubuMVC route constraint they read is not part of this model, so a verb stored in another case is not recognised.
