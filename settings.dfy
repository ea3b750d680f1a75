/**
 * The service's collaborators: its configuration (policies, naming
 * conventions, overrides), its description conventions, and the host
 * services for embedded text resources and merging. Conventions and
 * overrides are arbitrary functions: the model proves nothing about
 * what they return.
 */
module Settings {
  import opened Wrappers
  import opened Metadata
  import opened Documents

  /** What to do with an action that no convention places in a module (or resource). */
  datatype OrphanedActions = Exclude | UseDefault | Fail

  /** Whether enum options carry the field's name or its numeric literal. */
  datatype EnumValue = AsString | AsNumber

  /** The caller-registered override hooks, one per kind of node; each runs last. */
  datatype Overrides = Overrides(
    modules: Module -> Module,
    resources: Resource -> Resource,
    endpoints: (ActionCall, Endpoint) -> Endpoint,
    urlParameters: (ActionCall, Property, UrlParameter) -> UrlParameter,
    querystrings: (ActionCall, Property, QuerystringParameter) -> QuerystringParameter,
    statusCodes: (ActionCall, StatusCode) -> StatusCode,
    headers: (ActionCall, Header) -> Header,
    requests: (ActionCall, Data) -> Data,
    responses: (ActionCall, Data) -> Data,
    types: (TypeId, Type) -> Type,
    members: (Property, Member) -> Member,
    options: (EnumField, EnumOption) -> EnumOption)

  datatype Configuration = Configuration(
    name: Option<string>,
    comments: string,
    appliesToAssemblies: seq<string>,
    mergeSpecificationPath: Option<string>,
    orphanedModuleActions: OrphanedActions,
    orphanedResourceActions: OrphanedActions,
    defaultModuleFactory: ActionCall -> Option<ModuleDescription>,
    defaultResourceFactory: ActionCall -> ResourceDescription,
    enumValue: EnumValue,
    typeIdConvention: TypeId -> string,
    inputTypeIdConvention: (TypeId, MethodInfo) -> string,
    defaultValueString: string -> string,   // `ToDefaultValueString(configuration)`
    overrides: Overrides)

  /** The description conventions, one per kind of node. */
  datatype Conventions = Conventions(
    modules: ActionCall -> Option<ModuleDescription>,
    resources: ActionCall -> Option<ResourceDescription>,
    endpoints: ActionCall -> EndpointDescription,
    members: Property -> MemberDescription,
    options: EnumField -> OptionDescription,
    statusCodes: ActionCall -> seq<StatusCodeDescription>,
    headers: ActionCall -> seq<HeaderDescription>,
    types: TypeId -> TypeDescription)

  /** Everything `SpecificationService` is constructed with. */
  datatype Service = Service(
    configuration: Configuration,
    conventions: Conventions,
    reflection: Reflection,
    findTextResource: (string, string) -> Option<string>,   // assembly, resource name
    merge: (Specification, string) -> Specification)         // `MergeService.Merge`

  /** `ToDefaultValueString` applied to a default value, when there is one. */
  function DefaultValueOf(cfg: Configuration, v: Option<string>): Option<string>
  {
    if v.Some? then Some(cfg.defaultValueString(v.value)) else None
  }
}
