/**
 * The endpoints of a resource: one per action, with its URL template,
 * primary verb, parameters, status codes, headers and payloads, ordered
 * by path and then by verb rank.
 */
module Endpoints {
  import opened Wrappers
  import opened Text
  import opened Sorting
  import opened Metadata
  import opened Documents
  import opened Settings
  import opened VerbRank
  import opened EnumOptions
  import Linq

  // ---- Querystring parameters (`GetQuerystringParameters`) ----

  /** A property of the input type documented as a querystring parameter of `a`. */
  predicate IsQuerystringParameter(refl: Reflection, a: ActionCall, p: Property)
  {
    refl.isQuerystring(p, Some(a)) && !p.hidden && !p.autoBound
  }

  /** The querystring parameter built for one property, after its override. */
  function QuerystringOf(svc: Service, a: ActionCall, p: Property): QuerystringParameter
  {
    var description := svc.conventions.members(p);
    svc.configuration.overrides.querystrings(a, p, QuerystringParameter(
      description.name,
      description.comments,
      svc.reflection.xmlName(svc.reflection.ElementOrSelf(p.propertyType)),
      GetOptions(svc, p.propertyType),
      DefaultValueOf(svc.configuration, description.defaultValue),
      svc.reflection.IsArrayOrList(p.propertyType),
      description.required))
  }

  function QuerystringsOf(svc: Service, a: ActionCall, ps: seq<Property>): seq<QuerystringParameter>
  {
    seq(|ps|, i requires 0 <= i < |ps| => QuerystringOf(svc, a, ps[i]))
  }

  /** The input type's querystring properties, in declaration order. */
  function QuerystringProperties(svc: Service, a: ActionCall): (r: seq<Property>)
    requires a.HasInput()
    ensures forall p :: p in r <==> p in svc.reflection.PropertiesOf(a.inputType.value) && IsQuerystringParameter(svc.reflection, a, p)
  {
    Linq.Filter(svc.reflection.PropertiesOf(a.inputType.value), p => IsQuerystringParameter(svc.reflection, a, p))
  }

  /** `OrderBy(x => x.Name)`. */
  predicate QuerystringLe(x: QuerystringParameter, y: QuerystringParameter)
  {
    NStrLe(x.name, y.name)
  }

  lemma QuerystringLeTotalPreorder()
    ensures TotalPreorder(QuerystringLe)
  {
    NStrLeTotalOrder();
  }

  /**
   * `GetQuerystringParameters`: one parameter per querystring property
   * of the input type that is neither hidden nor auto-bound, ordered by
   * name.
   */
  function GetQuerystringParameters(svc: Service, a: ActionCall): (r: seq<QuerystringParameter>)
    requires a.HasInput()
    ensures multiset(r) == multiset(QuerystringsOf(svc, a, QuerystringProperties(svc, a)))
    ensures SortedBy(r, QuerystringLe)
  {
    var qs := QuerystringsOf(svc, a, QuerystringProperties(svc, a));
    QuerystringLeTotalPreorder();
    SortBySorted(qs, QuerystringLe);
    SortBy(qs, QuerystringLe)
  }

  /** Every querystring property has its parameter, and every parameter comes from one. */
  lemma QuerystringParametersExactly(svc: Service, a: ActionCall)
    requires a.HasInput()
    ensures forall p <- svc.reflection.PropertiesOf(a.inputType.value) ::
      IsQuerystringParameter(svc.reflection, a, p) ==> QuerystringOf(svc, a, p) in GetQuerystringParameters(svc, a)
    ensures forall q <- GetQuerystringParameters(svc, a) :: exists p <- svc.reflection.PropertiesOf(a.inputType.value) ::
      IsQuerystringParameter(svc.reflection, a, p) && q == QuerystringOf(svc, a, p)
  {
    var ps := QuerystringProperties(svc, a);
    var qs := QuerystringsOf(svc, a, ps);
    var r := GetQuerystringParameters(svc, a);
    forall p <- svc.reflection.PropertiesOf(a.inputType.value) | IsQuerystringParameter(svc.reflection, a, p)
      ensures QuerystringOf(svc, a, p) in r
    {
      var i :| 0 <= i < |ps| && ps[i] == p;
      assert qs[i] in multiset(r);
    }
    forall q <- r ensures exists p <- svc.reflection.PropertiesOf(a.inputType.value) ::
      IsQuerystringParameter(svc.reflection, a, p) && q == QuerystringOf(svc, a, p)
    {
      assert q in multiset(qs);
      var i :| 0 <= i < |qs| && qs[i] == q;
      assert ps[i] in ps;
    }
  }

  // ---- URL parameters (`GetUrlParameters`) ----

  /** `properties[name]`: the property of that name, if the type has one. */
  function FindProperty(ps: seq<Property>, name: string): (r: Option<Property>)
    ensures r.Some? ==> r.value in ps && r.value.name == name
    ensures r.None? <==> forall p <- ps :: p.name != name
  {
    if ps == [] then None
    else if ps[0].name == name then Some(ps[0])
    else
      assert forall p <- ps :: p == ps[0] || p in ps[1..];
      FindProperty(ps[1..], name)
  }

  /** The URL parameter built for one route parameter's property, after its override. */
  function UrlParameterOf(svc: Service, a: ActionCall, p: Property): UrlParameter
  {
    var description := svc.conventions.members(p);
    svc.configuration.overrides.urlParameters(a, p, UrlParameter(
      description.name,
      description.comments,
      svc.reflection.xmlName(p.propertyType),
      GetOptions(svc, p.propertyType)))
  }

  /** One route parameter resolved against `ps`: its property's URL parameter, or the missing name. */
  function UrlParameterNamed(svc: Service, a: ActionCall, ps: seq<Property>, name: string): Result<UrlParameter, GenerationError>
  {
    match FindProperty(ps, name)
    case None => Failure(RouteParameterNotFound(name))
    case Some(p) => Success(UrlParameterOf(svc, a, p))
  }

  /** The route parameters `names` resolved in order against `ps`, or the first that is missing. */
  function UrlParametersNamed(svc: Service, a: ActionCall, ps: seq<Property>, names: seq<string>): (r: Result<seq<UrlParameter>, GenerationError>)
    ensures r.Success? <==> forall i :: 0 <= i < |names| ==> FindProperty(ps, names[i]).Some?
    ensures r.Success? ==> (|r.value| == |names| &&
      forall i :: 0 <= i < |names| ==> r.value[i] == UrlParameterOf(svc, a, FindProperty(ps, names[i]).value))
    ensures r.Failure? ==>
      exists i :: 0 <= i < |names| && FindProperty(ps, names[i]).None? && r.error == RouteParameterNotFound(names[i])
  {
    Linq.SelectAll(names, n => UrlParameterNamed(svc, a, ps, n))
  }

  /**
   * `GetUrlParameters`: each route parameter, in route order, described
   * by the input type's property of that name (hidden or not); a name
   * the input type lacks aborts generation.
   */
  function GetUrlParameters(svc: Service, a: ActionCall): (r: Result<seq<UrlParameter>, GenerationError>)
    requires a.HasInput()
    ensures r.Success? <==> forall n <- a.route.routeParameters :: exists p <- svc.reflection.PropertiesOf(a.inputType.value) :: p.name == n
    ensures r.Success? ==> (|r.value| == |a.route.routeParameters| &&
      forall i :: 0 <= i < |r.value| ==> exists p <- svc.reflection.PropertiesOf(a.inputType.value) ::
        p.name == a.route.routeParameters[i] && r.value[i] == UrlParameterOf(svc, a, p))
    ensures r.Failure? ==> (r.error.RouteParameterNotFound? && r.error.name in a.route.routeParameters &&
      forall p <- svc.reflection.PropertiesOf(a.inputType.value) :: p.name != r.error.name)
  {
    var names := a.route.routeParameters;
    var r := UrlParametersNamed(svc, a, svc.reflection.PropertiesOf(a.inputType.value), names);
    assert forall i :: 0 <= i < |names| ==> names[i] in names;
    r
  }

  // ---- Status codes and headers ----

  function StatusCodeOf(svc: Service, a: ActionCall, d: StatusCodeDescription): StatusCode
  {
    svc.configuration.overrides.statusCodes(a, StatusCode(d.code, d.name, d.comments))
  }

  function StatusCodesOf(svc: Service, a: ActionCall, ds: seq<StatusCodeDescription>): seq<StatusCode>
  {
    seq(|ds|, i requires 0 <= i < |ds| => StatusCodeOf(svc, a, ds[i]))
  }

  /** `OrderBy(x => x.Code)`. */
  predicate StatusCodeLe(x: StatusCode, y: StatusCode)
  {
    x.code <= y.code
  }

  /** `GetStatusCodes`: the convention's status codes, each after its override, ordered by code. */
  function GetStatusCodes(svc: Service, a: ActionCall): (r: seq<StatusCode>)
    ensures multiset(r) == multiset(StatusCodesOf(svc, a, svc.conventions.statusCodes(a)))
    ensures forall i, j :: 0 <= i < j < |r| ==> r[i].code <= r[j].code
  {
    var cs := StatusCodesOf(svc, a, svc.conventions.statusCodes(a));
    SortBySorted(cs, StatusCodeLe);
    SortBy(cs, StatusCodeLe)
  }

  function HeaderOf(svc: Service, a: ActionCall, d: HeaderDescription): Header
  {
    svc.configuration.overrides.headers(a, Header(d.kind.Name(), d.name, d.comments, d.optional))
  }

  function HeadersOf(svc: Service, a: ActionCall, ds: seq<HeaderDescription>): seq<Header>
  {
    seq(|ds|, i requires 0 <= i < |ds| => HeaderOf(svc, a, ds[i]))
  }

  /** `OrderBy(x => x.Type).ThenBy(x => x.Name)`. */
  predicate HeaderLe(x: Header, y: Header)
  {
    StrLe(x.headerType, y.headerType) && (x.headerType == y.headerType ==> NStrLe(x.name, y.name))
  }

  lemma HeaderLeTotalPreorder()
    ensures TotalPreorder(HeaderLe)
  {
    StrLeTotalOrder();
    NStrLeTotalOrder();
  }

  /**
   * `GetHeaders`: the convention's headers, each after its override,
   * ordered by kind and then by name.
   */
  function GetHeaders(svc: Service, a: ActionCall): (r: seq<Header>)
    ensures multiset(r) == multiset(HeadersOf(svc, a, svc.conventions.headers(a)))
    ensures forall i, j :: 0 <= i < j < |r| ==> StrLe(r[i].headerType, r[j].headerType)
    ensures forall i, j :: 0 <= i < j < |r| && r[i].headerType == r[j].headerType ==> NStrLe(r[i].name, r[j].name)
  {
    var hs := HeadersOf(svc, a, svc.conventions.headers(a));
    HeaderLeTotalPreorder();
    SortBySorted(hs, HeaderLe);
    SortBy(hs, HeaderLe)
  }

  // ---- Payloads (`GetData`) ----

  /**
   * `GetData`: the payload of type `t`, named by the type convention
   * (which may substitute the type), identified by the input type-id
   * convention when `m` is given and the type-id convention otherwise.
   */
  function GetData(svc: Service, t: TypeId, comments: Option<string>, m: Option<MethodInfo>): (r: Data)
    ensures r.comments == comments
    ensures r.isArray <==> svc.reflection.IsArrayOrList(t)
    ensures r.name == svc.conventions.types(t).name
    ensures var root := svc.conventions.types(t).typeId.OrElse(Some(t)).value;
      r.typeName == if m.Some? then svc.configuration.inputTypeIdConvention(root, m.value) else svc.configuration.typeIdConvention(root)
  {
    var description := svc.conventions.types(t);
    var root := if description.typeId.Some? then description.typeId.value else t;
    Data(
      description.name,
      comments,
      if m.Some? then svc.configuration.inputTypeIdConvention(root, m.value) else svc.configuration.typeIdConvention(root),
      svc.reflection.IsArrayOrList(t))
  }

  // ---- Endpoints ----

  /** `"{0}={{{0}}}".ToFormat(name)`: `name={name}`, a null name formatting as empty. */
  function QuerystringTemplate(q: QuerystringParameter): string
  {
    var n := if q.name.Some? then q.name.value else "";
    n + "={" + n + "}"
  }

  function QuerystringTemplates(qs: seq<QuerystringParameter>): seq<string>
  {
    seq(|qs|, i requires 0 <= i < |qs| => QuerystringTemplate(qs[i]))
  }

  /** `querystring.Join(template, "?", "&", "")`: nothing for no parameters, else `?` and the templates joined by `&`. */
  function QuerystringSuffix(qs: Option<seq<QuerystringParameter>>): (r: string)
    ensures qs.None? || qs.value == [] ==> r == ""
    ensures qs.Some? && qs.value != [] ==> |r| > 0 && r[0] == '?'
  {
    if qs.None? || qs.value == [] then "" else "?" + JoinWith(QuerystringTemplates(qs.value), "&")
  }

  /** The route pattern as an absolute path, followed by the querystring template. */
  function EndpointUrl(pattern: string, qs: Option<seq<QuerystringParameter>>): string
  {
    EnsureStartsWith(pattern, '/') + QuerystringSuffix(qs)
  }

  /** A request payload only for an input sent with POST or PUT. */
  predicate HasRequest(a: ActionCall)
  {
    a.HasInput() && (AllowsPost(a.route) || AllowsPut(a.route))
  }

  function FirstVerb(verbs: seq<string>): Option<string>
  {
    if verbs == [] then None else Some(verbs[0])
  }

  /** The endpoint built for one action before its override runs; fails on a route parameter the input type lacks. */
  function ProvisionalEndpoint(svc: Service, a: ActionCall): Result<Endpoint, GenerationError>
  {
    var description := svc.conventions.endpoints(a);
    var querystring := if a.HasInput() then Some(GetQuerystringParameters(svc, a)) else None;
    var urlParameters :- if a.HasInput() then
        var ps :- GetUrlParameters(svc, a);
        Success(Some(ps))
      else Success(None);
    Success(Endpoint(
      description.name,
      description.comments,
      EndpointUrl(a.route.pattern, querystring),
      FirstVerb(a.route.allowedHttpMethods),
      urlParameters,
      querystring,
      GetStatusCodes(svc, a),
      GetHeaders(svc, a),
      if HasRequest(a) then Some(svc.configuration.overrides.requests(a,
        GetData(svc, a.inputType.value, description.requestComments, Some(a.actionMethod)))) else None,
      if a.HasOutput() then Some(svc.configuration.overrides.responses(a,
        GetData(svc, a.outputType.value, description.responseComments, None))) else None))
  }

  /** Every route parameter names a property of the input type (checked only for actions with an input). */
  predicate RouteParametersResolve(refl: Reflection, a: ActionCall)
  {
    a.HasInput() ==> forall n <- a.route.routeParameters :: exists p <- refl.PropertiesOf(a.inputType.value) :: p.name == n
  }

  /**
   * The endpoint emitted for one action, after the endpoint override;
   * it fails exactly when a route parameter names no property of the
   * input type.
   */
  function EndpointOf(svc: Service, a: ActionCall): (r: Result<Endpoint, GenerationError>)
    ensures r.Success? <==> RouteParametersResolve(svc.reflection, a)
    ensures r.Failure? ==> r.error.RouteParameterNotFound? && r.error.name in a.route.routeParameters
  {
    var e :- ProvisionalEndpoint(svc, a);
    Success(svc.configuration.overrides.endpoints(a, e))
  }

  /**
   * Without an endpoint override, what the source promises of each
   * endpoint: an absolute URL whose path (before `?`) is the route
   * pattern, the route's first verb, URL and querystring parameter
   * lists exactly for actions with an input, a request payload exactly
   * for an input sent with POST or PUT, and a response payload exactly
   * for an action with an output.
   */
  lemma EndpointShape(svc: Service, a: ActionCall)
    requires forall x, e :: svc.configuration.overrides.endpoints(x, e) == e
    requires EndpointOf(svc, a).Success?
    ensures var e := EndpointOf(svc, a).value;
      |e.url| > 0 && e.url[0] == '/' &&
      ('?' !in a.route.pattern ==> Before(e.url, '?') == EnsureStartsWith(a.route.pattern, '/')) &&
      e.httpMethod == FirstVerb(a.route.allowedHttpMethods) &&
      (e.urlParameters.Some? <==> a.HasInput()) &&
      (e.querystringParameters.Some? <==> a.HasInput()) &&
      (e.request.Some? <==> HasRequest(a)) &&
      (e.response.Some? <==> a.HasOutput())
  {
    var e := EndpointOf(svc, a).value;
    var querystring := if a.HasInput() then Some(GetQuerystringParameters(svc, a)) else None;
    var path := EnsureStartsWith(a.route.pattern, '/');
    assert e.url == path + QuerystringSuffix(querystring);
    if '?' !in a.route.pattern {
      assert '?' !in path;
      BeforeSkipsFreePrefix(path, QuerystringSuffix(querystring), '?');
    }
  }

  /** The endpoints of `actions` in input order, or the failure of the first action that fails. */
  function EndpointsOf(svc: Service, actions: seq<ActionCall>): Result<seq<Endpoint>, GenerationError>
  {
    Linq.SelectAll(actions, a => EndpointOf(svc, a))
  }

  /** `Url.Split('?').First()`: the URL without its querystring template. */
  function Path(e: Endpoint): string
  {
    Before(e.url, '?')
  }

  /** `OrderBy(x => path).ThenBy(x => HttpVerbRank(x.Method))`. */
  predicate EndpointLe(x: Endpoint, y: Endpoint)
  {
    StrLe(Path(x), Path(y)) && (Path(x) == Path(y) ==> HttpVerbRank(x.httpMethod) <= HttpVerbRank(y.httpMethod))
  }

  lemma EndpointLeTotalPreorder()
    ensures TotalPreorder(EndpointLe)
  {
    StrLeTotalOrder();
  }

  /**
   * `GetEndpoints`: every action's endpoint, ordered by path and, on
   * one path, by verb rank; or the first failure in input order.
   */
  function GetEndpoints(svc: Service, actions: seq<ActionCall>): (r: Result<seq<Endpoint>, GenerationError>)
    ensures r.Success? <==> forall a <- actions :: EndpointOf(svc, a).Success?
    ensures r.Success? ==> multiset(r.value) == multiset(EndpointsOf(svc, actions).value)
    ensures r.Success? ==> forall i, j :: 0 <= i < j < |r.value| ==> StrLe(Path(r.value[i]), Path(r.value[j]))
    ensures r.Success? ==> forall i, j :: 0 <= i < j < |r.value| && Path(r.value[i]) == Path(r.value[j]) ==>
      HttpVerbRank(r.value[i].httpMethod) <= HttpVerbRank(r.value[j].httpMethod)
    ensures r.Failure? ==> r == EndpointsOf(svc, actions) && r.error.RouteParameterNotFound?
  {
    assert EndpointsOf(svc, actions).Success? <==> forall a <- actions :: EndpointOf(svc, a).Success? by {
      if forall a <- actions :: EndpointOf(svc, a).Success? {
        assert forall i :: 0 <= i < |actions| ==> actions[i] in actions;
      }
    }
    var es :- EndpointsOf(svc, actions);
    EndpointLeTotalPreorder();
    SortBySorted(es, EndpointLe);
    Success(SortBy(es, EndpointLe))
  }

  lemma EndpointFromAction(svc: Service, actions: seq<ActionCall>, e: Endpoint) returns (a: ActionCall)
    requires GetEndpoints(svc, actions).Success? && e in GetEndpoints(svc, actions).value
    ensures a in actions && EndpointOf(svc, a).Success? && e == EndpointOf(svc, a).value
  {
    var es := EndpointsOf(svc, actions).value;
    assert e in multiset(es);
    var i :| 0 <= i < |es| && es[i] == e;
    a := actions[i];
  }

  lemma ActionHasEndpoint(svc: Service, actions: seq<ActionCall>, a: ActionCall)
    requires GetEndpoints(svc, actions).Success? && a in actions
    ensures EndpointOf(svc, a).Success? && EndpointOf(svc, a).value in GetEndpoints(svc, actions).value
  {
    var es := EndpointsOf(svc, actions).value;
    var i :| 0 <= i < |actions| && actions[i] == a;
    assert es[i] in multiset(GetEndpoints(svc, actions).value);
  }

  /** The ordered endpoints are exactly the actions' endpoints. */
  lemma GetEndpointsExactly(svc: Service, actions: seq<ActionCall>)
    requires GetEndpoints(svc, actions).Success?
    ensures forall e :: e in GetEndpoints(svc, actions).value <==> exists a <- actions :: e == EndpointOf(svc, a).value
  {
    forall e ensures e in GetEndpoints(svc, actions).value <==> exists a <- actions :: e == EndpointOf(svc, a).value {
      if e in GetEndpoints(svc, actions).value {
        var a := EndpointFromAction(svc, actions, e);
      }
      if exists a <- actions :: e == EndpointOf(svc, a).value {
        var a :| a in actions && e == EndpointOf(svc, a).value;
        ActionHasEndpoint(svc, actions, a);
      }
    }
  }

  /**
   * On one path, a DELETE endpoint (in any case, rank 5) follows every
   * endpoint with another verb.
   */
  lemma DeleteSortsLast(svc: Service, actions: seq<ActionCall>, i: int, j: int)
    requires GetEndpoints(svc, actions).Success?
    requires 0 <= i < |GetEndpoints(svc, actions).value| && 0 <= j < |GetEndpoints(svc, actions).value|
    requires var es := GetEndpoints(svc, actions).value;
      Path(es[i]) == Path(es[j]) && HttpVerbRank(es[i].httpMethod) == 5 && HttpVerbRank(es[j].httpMethod) < 5
    ensures j < i
  {
  }
}
