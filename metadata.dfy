/**
 * What the service reads from the host through reflection, as an
 * explicit registry: routed actions, and for each type its flags, its
 * ordered properties and its enum fields.
 */
module Metadata {
  import opened Wrappers

  /** A CLR type, by its full name. */
  type TypeId = string

  /** A public property of a type (`PropertyInfo`), with the attributes the service reads. */
  datatype Property = Property(
    name: string,
    propertyType: TypeId,
    hidden: bool,     // carries `[Hide]`
    autoBound: bool)  // `IsAutoBound()`: filled by the framework, not by the caller

  /** A field of an enum (`FieldInfo`). */
  datatype EnumField = EnumField(
    name: string,
    rawValue: string, // `GetRawConstantValue().ToString()`
    hidden: bool)

  /** What reflection says about one type. */
  datatype TypeInfo = TypeInfo(
    isSystem: bool,                 // `IsSystemType()`
    isEnum: bool,                   // `IsEnum`
    isArrayOrList: bool,            // `IsArray || IsList()`
    listElementType: Option<TypeId>, // `GetListElementType()`
    nullableOf: Option<TypeId>,     // `Nullable.GetUnderlyingType(...)`
    properties: seq<Property>,      // `GetPropertiesFor` / projection properties, in order
    enumFields: seq<EnumField>)     // `GetEnumOptions()`

  /** A type reflection knows nothing about: no flags, no members. */
  const UnknownType := TypeInfo(false, false, false, None, None, [], [])

  /** The method an action invokes (`ActionCall.Method`). */
  datatype MethodInfo = MethodInfo(name: string, hidden: bool)

  /** The class declaring an action's method. */
  datatype HandlerType = HandlerType(fullName: string, namespace: string, assembly: string, hidden: bool)

  /** The route of an action's behavior chain. */
  datatype Route = Route(
    pattern: string,
    allowedHttpMethods: seq<string>,
    routeParameters: seq<string>)

  /** A routed action (`ActionCall`) with its input and output types. */
  datatype ActionCall = ActionCall(
    handlerType: HandlerType,
    actionMethod: MethodInfo,
    route: Route,
    inputType: Option<TypeId>,
    outputType: Option<TypeId>)
  {
    predicate HasInput() { inputType.Some? }
    predicate HasOutput() { outputType.Some? }
  }

  /** `route.Allows<Verb>()`: the route's constraints name the verb (stored upper case). */
  predicate Allows(route: Route, verb: string)
  {
    verb in route.allowedHttpMethods
  }

  predicate AllowsGet(route: Route) { Allows(route, "GET") }
  predicate AllowsPost(route: Route) { Allows(route, "POST") }
  predicate AllowsPut(route: Route) { Allows(route, "PUT") }
  predicate AllowsDelete(route: Route) { Allows(route, "DELETE") }

  /** `HandlerType.FullName + "." + Method.Name`: how an orphaned action is reported. */
  function Identity(a: ActionCall): string
  {
    a.handlerType.fullName + "." + a.actionMethod.name
  }

  /**
   * The reflection the service consults: the type registry plus the
   * property predicates whose attribute reading is not modelled.
   */
  datatype Reflection = Reflection(
    types: map<TypeId, TypeInfo>,
    isQuerystring: (Property, Option<ActionCall>) -> bool,
    isUrlParameter: (Property, Option<ActionCall>) -> bool,
    xmlName: TypeId -> string)
  {
    function Info(t: TypeId): TypeInfo
    {
      if t in types then types[t] else UnknownType
    }

    function PropertiesOf(t: TypeId): seq<Property>
    {
      Info(t).properties
    }

    /** `t.GetListElementType() ?? t`. */
    function ElementOrSelf(t: TypeId): TypeId
    {
      match Info(t).listElementType
      case Some(e) => e
      case None => t
    }

    predicate IsSystemType(t: TypeId) { Info(t).isSystem }
    predicate IsEnum(t: TypeId) { Info(t).isEnum }
    predicate IsArrayOrList(t: TypeId) { Info(t).isArrayOrList }

    /** `t.IsEnum || (t.IsNullable() && Nullable.GetUnderlyingType(t).IsEnum)`. */
    predicate HasEnumOptions(t: TypeId)
    {
      IsEnum(t) || (Info(t).nullableOf.Some? && IsEnum(Info(t).nullableOf.value))
    }

    /** `t.GetEnumOptions()`: the fields of the enum, or of the enum a nullable wraps. */
    function EnumFieldsOf(t: TypeId): seq<EnumField>
    {
      if IsEnum(t) then Info(t).enumFields
      else if Info(t).nullableOf.Some? then Info(Info(t).nullableOf.value).enumFields
      else []
    }
  }
}
