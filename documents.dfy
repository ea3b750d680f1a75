/**
 * The specification document the service produces, and the
 * descriptions its conventions hand it.
 */
module Documents {
  import opened Wrappers
  import opened Metadata

  // ---- What conventions return (null fields fall back to defaults) ----

  datatype ModuleDescription = ModuleDescription(name: Option<string>, comments: Option<string>)

  datatype ResourceDescription = ResourceDescription(name: Option<string>, comments: Option<string>)

  datatype EndpointDescription = EndpointDescription(
    name: Option<string>,
    comments: Option<string>,
    requestComments: Option<string>,
    responseComments: Option<string>)

  datatype MemberDescription = MemberDescription(
    name: Option<string>,
    comments: Option<string>,
    defaultValue: Option<string>,  // the raw default value, before `ToDefaultValueString`
    required: bool,
    typeId: Option<TypeId>,
    arrayItemName: Option<string>)

  datatype OptionDescription = OptionDescription(name: Option<string>, comments: Option<string>)

  datatype StatusCodeDescription = StatusCodeDescription(code: int, name: Option<string>, comments: Option<string>)

  /** `HttpHeaderType`: whether a header is sent with the request or the response. */
  datatype HeaderKind = Request | Response
  {
    /** `Type.ToString()`. */
    function Name(): string
    {
      match this
      case Request => "Request"
      case Response => "Response"
    }
  }

  datatype HeaderDescription = HeaderDescription(
    kind: HeaderKind,
    name: Option<string>,
    comments: Option<string>,
    optional: bool)

  datatype TypeDescription = TypeDescription(typeId: Option<TypeId>, name: Option<string>, comments: Option<string>)

  // ---- The document ----

  datatype Specification = Specification(
    name: Option<string>,
    comments: Option<string>,
    types: seq<Type>,
    modules: seq<Module>,
    resources: seq<Resource>)

  datatype Module = Module(name: Option<string>, comments: Option<string>, resources: seq<Resource>)

  datatype Resource = Resource(name: Option<string>, comments: Option<string>, endpoints: seq<Endpoint>)

  datatype Endpoint = Endpoint(
    name: Option<string>,
    comments: Option<string>,
    url: string,
    httpMethod: Option<string>,
    urlParameters: Option<seq<UrlParameter>>,
    querystringParameters: Option<seq<QuerystringParameter>>,
    statusCodes: seq<StatusCode>,
    headers: seq<Header>,
    request: Option<Data>,
    response: Option<Data>)

  datatype Type = Type(id: string, name: Option<string>, comments: Option<string>, members: seq<Member>)

  datatype Member = Member(
    name: Option<string>,
    comments: Option<string>,
    defaultValue: Option<string>,
    required: bool,
    typeName: string,
    isArray: bool,
    arrayItemName: Option<string>,
    options: seq<EnumOption>)

  datatype UrlParameter = UrlParameter(
    name: Option<string>,
    comments: Option<string>,
    typeName: string,
    options: seq<EnumOption>)

  datatype QuerystringParameter = QuerystringParameter(
    name: Option<string>,
    comments: Option<string>,
    typeName: string,
    options: seq<EnumOption>,
    defaultValue: Option<string>,
    multipleAllowed: bool,
    required: bool)

  datatype StatusCode = StatusCode(code: int, name: Option<string>, comments: Option<string>)

  datatype Header = Header(headerType: string, name: Option<string>, comments: Option<string>, optional: bool)

  /** One value of an enum (`Option` in the document). */
  datatype EnumOption = EnumOption(name: Option<string>, comments: Option<string>, value: string)

  /** A request or response payload. */
  datatype Data = Data(name: Option<string>, comments: Option<string>, typeName: string, isArray: bool)

  // ---- Why generation can abort ----

  datatype GenerationError =
    | OrphanedModuleActions(actions: seq<string>)    // `OrphanedModuleActionException`
    | OrphanedResourceActions(actions: seq<string>)  // `OrphanedResourceActionException`
    | RouteParameterNotFound(name: string)           // `KeyNotFoundException` from the property lookup
}
