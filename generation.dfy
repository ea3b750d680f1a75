/**
 * `Generate`: the action mapping, the orphan check, then the document
 * itself: the type catalog, the modules with their resources, the
 * resources outside every module, the comments found among the
 * assemblies' embedded text, and an optional merge.
 */
module Generation {
  import opened Wrappers
  import opened Text
  import opened Sorting
  import opened Metadata
  import opened Documents
  import opened Settings
  import opened Orphans
  import opened TypeGraph
  import opened TypeCatalog
  import opened Endpoints
  import Linq

  function ActionsOf(ms: seq<ActionMapping>): seq<ActionCall>
  {
    seq(|ms|, i requires 0 <= i < |ms| => ms[i].action)
  }

  // ---- Resources (`GetResources`) ----

  type ResourceGroup = Linq.Grouping<Option<ResourceDescription>, ActionMapping>

  function ByResource(m: ActionMapping): Option<ResourceDescription>
  {
    m.resourceDescription
  }

  /** The resource's own comments, else the text resource `<namespace>.resource` of its first action's handler. */
  function ResourceComments(svc: Service, key: ResourceDescription, first: ActionCall): Option<string>
  {
    key.comments.OrElse(svc.findTextResource(first.handlerType.assembly, first.handlerType.namespace + ".resource"))
  }

  /** The resource of one group: its description, comments and endpoints, then the resource override. */
  function ResourceOf(svc: Service, g: ResourceGroup): Result<Resource, GenerationError>
    requires g.key.Some? && g.items != []
  {
    var endpoints :- GetEndpoints(svc, ActionsOf(g.items));
    Success(svc.configuration.overrides.resources(Resource(g.key.value.name, ResourceComments(svc, g.key.value, g.items[0].action), endpoints)))
  }

  /** `OrderBy(x => x.Name)`. */
  predicate ResourceLe(x: Resource, y: Resource)
  {
    NStrLe(x.name, y.name)
  }

  lemma ResourceLeTotalPreorder()
    ensures TotalPreorder(ResourceLe)
  {
    NStrLeTotalOrder();
  }

  function SortResources(rs: seq<Resource>): (r: seq<Resource>)
    ensures SortedBy(r, ResourceLe)
    ensures multiset(r) == multiset(rs)
  {
    ResourceLeTotalPreorder();
    SortBySorted(rs, ResourceLe);
    SortBy(rs, ResourceLe)
  }

  /** The groups by resource are non-empty and carry the resource of their members. */
  lemma ResourceGroups(ms: seq<ActionMapping>)
    requires forall m <- ms :: m.resourceDescription.Some?
    ensures forall g <- Linq.GroupBy(ms, ByResource) :: g.key.Some? && g.items != [] && forall m <- g.items :: m in ms
    ensures forall i :: 0 <= i < |Linq.GroupBy(ms, ByResource)| ==>
      Linq.GroupBy(ms, ByResource)[i].key.Some? && Linq.GroupBy(ms, ByResource)[i].items != []
  {
    Linq.GroupByNonEmpty(ms, ByResource);
    forall g <- Linq.GroupBy(ms, ByResource) ensures g.key.Some? && forall m <- g.items :: m in ms {
      forall m <- g.items ensures m in ms {
        Linq.GroupByMember(ms, ByResource, g, m);
      }
    }
  }

  function ResourcesOf(svc: Service, ms: seq<ActionMapping>): Result<seq<Resource>, GenerationError>
    requires forall m <- ms :: m.resourceDescription.Some?
  {
    var groups := Linq.GroupBy(ms, ByResource);
    ResourceGroups(ms);
    Linq.SelectAll(groups, (g: ResourceGroup) requires g.key.Some? && g.items != [] => ResourceOf(svc, g))
  }

  /**
   * `GetResources`: one resource per distinct resource description,
   * holding the endpoints of the actions mapped to it, ordered by name.
   * The source dereferences each group's description, so every mapping
   * must have one.
   */
  function GetResources(svc: Service, ms: seq<ActionMapping>): (r: Result<seq<Resource>, GenerationError>)
    requires forall m <- ms :: m.resourceDescription.Some?
    ensures r.Success? <==> ResourcesOf(svc, ms).Success?
    ensures r.Success? ==> SortedBy(r.value, ResourceLe) && multiset(r.value) == multiset(ResourcesOf(svc, ms).value)
    ensures r.Failure? ==> r.error == ResourcesOf(svc, ms).error
  {
    var rs := ResourcesOf(svc, ms);
    if rs.Failure? then Failure(rs.error) else Success(SortResources(rs.value))
  }

  // ---- Modules (`GetModules`) ----

  type ModuleGroup = Linq.Grouping<Option<ModuleDescription>, ActionMapping>

  function ByModule(m: ActionMapping): Option<ModuleDescription>
  {
    m.moduleDescription
  }

  /** The module of one group: its description and the resources of its actions, then the module override. */
  function ModuleOf(svc: Service, g: ModuleGroup): Result<Module, GenerationError>
    requires g.key.Some?
    requires forall m <- g.items :: m.resourceDescription.Some?
  {
    var resources :- GetResources(svc, g.items);
    Success(svc.configuration.overrides.modules(Module(g.key.value.name, g.key.value.comments, resources)))
  }

  predicate ModuleLe(x: Module, y: Module)
  {
    NStrLe(x.name, y.name)
  }

  lemma ModuleLeTotalPreorder()
    ensures TotalPreorder(ModuleLe)
  {
    NStrLeTotalOrder();
  }

  function SortModules(ms: seq<Module>): (r: seq<Module>)
    ensures SortedBy(r, ModuleLe)
    ensures multiset(r) == multiset(ms)
  {
    ModuleLeTotalPreorder();
    SortBySorted(ms, ModuleLe);
    SortBy(ms, ModuleLe)
  }

  lemma ModuleGroups(ms: seq<ActionMapping>)
    requires forall m <- ms :: m.moduleDescription.Some? && m.resourceDescription.Some?
    ensures forall g <- Linq.GroupBy(ms, ByModule) :: g.key.Some? && g.items != [] && forall m <- g.items :: m in ms
    ensures forall i :: 0 <= i < |Linq.GroupBy(ms, ByModule)| ==>
      Linq.GroupBy(ms, ByModule)[i].key.Some? && forall m <- Linq.GroupBy(ms, ByModule)[i].items :: m.resourceDescription.Some?
  {
    Linq.GroupByNonEmpty(ms, ByModule);
    forall g <- Linq.GroupBy(ms, ByModule) ensures g.key.Some? && forall m <- g.items :: m in ms {
      forall m <- g.items ensures m in ms {
        Linq.GroupByMember(ms, ByModule, g, m);
      }
    }
  }

  function ModulesOf(svc: Service, ms: seq<ActionMapping>): Result<seq<Module>, GenerationError>
    requires forall m <- ms :: m.moduleDescription.Some? && m.resourceDescription.Some?
  {
    var groups := Linq.GroupBy(ms, ByModule);
    ModuleGroups(ms);
    Linq.SelectAll(groups, (g: ModuleGroup) requires g.key.Some? && forall m <- g.items :: m.resourceDescription.Some? => ModuleOf(svc, g))
  }

  /**
   * `GetModules`: one module per distinct module description, holding
   * the resources of the actions mapped to it, ordered by name.
   */
  function GetModules(svc: Service, ms: seq<ActionMapping>): (r: Result<seq<Module>, GenerationError>)
    requires forall m <- ms :: m.moduleDescription.Some? && m.resourceDescription.Some?
    ensures r.Success? <==> ModulesOf(svc, ms).Success?
    ensures r.Success? ==> SortedBy(r.value, ModuleLe) && multiset(r.value) == multiset(ModulesOf(svc, ms).value)
    ensures r.Failure? ==> r.error == ModulesOf(svc, ms).error
  {
    var modules := ModulesOf(svc, ms);
    if modules.Failure? then Failure(modules.error) else Success(SortModules(modules.value))
  }

  // ---- The document (`Generate`) ----

  predicate InModule(m: ActionMapping)
  {
    m.moduleDescription.Some?
  }

  predicate OutsideModules(m: ActionMapping)
  {
    m.moduleDescription.None?
  }

  /** The embedded text `*<comments>` of each assembly the configuration applies to, in order. */
  function CommentResources(svc: Service): seq<Option<string>>
  {
    var cfg := svc.configuration;
    seq(|cfg.appliesToAssemblies|, i requires 0 <= i < |cfg.appliesToAssemblies| =>
      svc.findTextResource(cfg.appliesToAssemblies[i], "*" + cfg.comments))
  }

  /** The document's comments: the text of the first assembly that embeds `*<comments>`, if any does. */
  function SpecificationComments(svc: Service): (r: Option<string>)
    ensures r.Some? <==>
      exists i :: 0 <= i < |svc.configuration.appliesToAssemblies| &&
        svc.findTextResource(svc.configuration.appliesToAssemblies[i], "*" + svc.configuration.comments).Some?
    ensures r.Some? ==>
      exists i :: 0 <= i < |svc.configuration.appliesToAssemblies| &&
        r == svc.findTextResource(svc.configuration.appliesToAssemblies[i], "*" + svc.configuration.comments) &&
        forall j :: 0 <= j < i ==> svc.findTextResource(svc.configuration.appliesToAssemblies[j], "*" + svc.configuration.comments).None?
  {
    var cs := CommentResources(svc);
    assert forall i :: 0 <= i < |cs| ==>
      cs[i] == svc.findTextResource(svc.configuration.appliesToAssemblies[i], "*" + svc.configuration.comments);
    Linq.FirstSome(cs)
  }

  /** `MergeSpecificationPath.IsNotEmpty()`. */
  predicate MergeRequested(cfg: Configuration)
  {
    cfg.mergeSpecificationPath.Some? && cfg.mergeSpecificationPath.value != ""
  }

  /** The document before any merge, once the orphan check has passed. */
  function Assemble(svc: Service, ms: seq<ActionMapping>): Result<Specification, GenerationError>
    requires forall m <- ms :: m.resourceDescription.Some?
  {
    var modules :- GetModules(svc, Linq.Filter(ms, InModule));
    var resources :- GetResources(svc, Linq.Filter(ms, OutsideModules));
    Success(Specification(
      svc.configuration.name,
      SpecificationComments(svc),
      GetTypes(svc, ActionsOf(ms)),
      modules,
      resources))
  }

  /**
   * `Generate`: fails with the orphan error when the check does, else
   * assembles the document and merges it when a merge path is set.
   */
  function Generate(svc: Service, actions: seq<ActionCall>): (r: Result<Specification, GenerationError>)
    ensures CheckForOrphanedActions(svc.configuration, GetActionMapping(svc, actions)).Some? ==>
      r == Failure(CheckForOrphanedActions(svc.configuration, GetActionMapping(svc, actions)).value)
    ensures r.Failure? ==> r.error.OrphanedModuleActions? || r.error.OrphanedResourceActions? || r.error.RouteParameterNotFound?
  {
    var ms := GetActionMapping(svc, actions);
    match CheckForOrphanedActions(svc.configuration, ms)
    case Some(err) => Failure(err)
    case None =>
      ResourcesResolvedAfterCheck(svc, actions);
      var spec :- Assemble(svc, ms);
      if MergeRequested(svc.configuration) then Success(svc.merge(spec, svc.configuration.mergeSpecificationPath.value))
      else Success(spec)
  }

  // ---- What generation guarantees ----

  /** All mappings' endpoints can be built: every route parameter of every action resolves. */
  ghost predicate AllRoutesResolve(svc: Service, ms: seq<ActionMapping>)
  {
    forall m <- ms :: RouteParametersResolve(svc.reflection, m.action)
  }

  lemma ActionsOfMembers(ms: seq<ActionMapping>)
    ensures forall a :: a in ActionsOf(ms) <==> exists m <- ms :: m.action == a
  {
    forall a | a in ActionsOf(ms) ensures exists m <- ms :: m.action == a {
      var i :| 0 <= i < |ms| && ActionsOf(ms)[i] == a;
      assert ms[i] in ms;
    }
    forall a | exists m <- ms :: m.action == a ensures a in ActionsOf(ms) {
      var m :| m in ms && m.action == a;
      var i :| 0 <= i < |ms| && ms[i] == m;
      assert ActionsOf(ms)[i] == a;
    }
  }

  lemma ResourceOfSucceeds(svc: Service, g: ResourceGroup)
    requires g.key.Some? && g.items != []
    ensures ResourceOf(svc, g).Success? <==> AllRoutesResolve(svc, g.items)
    ensures ResourceOf(svc, g).Failure? ==> ResourceOf(svc, g).error.RouteParameterNotFound?
  {
    var acts := ActionsOf(g.items);
    ActionsOfMembers(g.items);
    if AllRoutesResolve(svc, g.items) {
      forall a <- acts ensures EndpointOf(svc, a).Success? {
        var m :| m in g.items && m.action == a;
      }
    }
    if forall a <- acts :: EndpointOf(svc, a).Success? {
      forall m <- g.items ensures RouteParametersResolve(svc.reflection, m.action) {
        assert EndpointOf(svc, m.action).Success?;
      }
    }
    assert GetEndpoints(svc, acts).Success? <==> ResourceOf(svc, g).Success?;
  }

  /** Built resources: one per group, each group's after its override. */
  lemma ResourcesBuilt(svc: Service, ms: seq<ActionMapping>)
    requires forall m <- ms :: m.resourceDescription.Some?
    requires ResourcesOf(svc, ms).Success?
    ensures forall g <- Linq.GroupBy(ms, ByResource) :: g.key.Some? && g.items != []
    ensures |ResourcesOf(svc, ms).value| == |Linq.GroupBy(ms, ByResource)|
    ensures forall i :: 0 <= i < |Linq.GroupBy(ms, ByResource)| ==>
      ResourceOf(svc, Linq.GroupBy(ms, ByResource)[i]).Success? &&
      ResourcesOf(svc, ms).value[i] == ResourceOf(svc, Linq.GroupBy(ms, ByResource)[i]).value
  {
    ResourceGroups(ms);
  }

  /** A failure to build the resources is the failure of one group's resource. */
  lemma ResourcesFailedAt(svc: Service, ms: seq<ActionMapping>) returns (i: nat)
    requires forall m <- ms :: m.resourceDescription.Some?
    requires ResourcesOf(svc, ms).Failure?
    ensures forall i :: 0 <= i < |Linq.GroupBy(ms, ByResource)| ==>
      Linq.GroupBy(ms, ByResource)[i].key.Some? && Linq.GroupBy(ms, ByResource)[i].items != []
    ensures i < |Linq.GroupBy(ms, ByResource)|
    ensures ResourceOf(svc, Linq.GroupBy(ms, ByResource)[i]).Failure?
    ensures ResourceOf(svc, Linq.GroupBy(ms, ByResource)[i]).error == ResourcesOf(svc, ms).error
  {
    ResourceGroups(ms);
    var groups := Linq.GroupBy(ms, ByResource);
    i :| 0 <= i < |groups| && ResourceOf(svc, groups[i]).Failure? && ResourceOf(svc, groups[i]).error == ResourcesOf(svc, ms).error;
  }

  /** The resources can be built exactly when every action's route parameters resolve; otherwise the error is a missing route parameter. */
  lemma ResourcesSucceed(svc: Service, ms: seq<ActionMapping>)
    requires forall m <- ms :: m.resourceDescription.Some?
    ensures ResourcesOf(svc, ms).Success? <==> AllRoutesResolve(svc, ms)
    ensures ResourcesOf(svc, ms).Failure? ==> ResourcesOf(svc, ms).error.RouteParameterNotFound?
  {
    if ResourcesOf(svc, ms).Success? {
      ResourcesBuilt(svc, ms);
      GroupsResolve(svc, ms);
    } else {
      ResourcesFailure(svc, ms);
    }
  }

  lemma ResourcesFailure(svc: Service, ms: seq<ActionMapping>)
    requires forall m <- ms :: m.resourceDescription.Some?
    requires ResourcesOf(svc, ms).Failure?
    ensures !AllRoutesResolve(svc, ms) && ResourcesOf(svc, ms).error.RouteParameterNotFound?
  {
    var groups := Linq.GroupBy(ms, ByResource);
    var i := ResourcesFailedAt(svc, ms);
    ResourceGroups(ms);
    ResourceOfSucceeds(svc, groups[i]);
    var m :| m in groups[i].items && !RouteParametersResolve(svc.reflection, m.action);
    assert m in ms;
  }

  /** When every group's resource can be built, every action's route parameters resolve. */
  lemma GroupsResolve(svc: Service, ms: seq<ActionMapping>)
    requires forall m <- ms :: m.resourceDescription.Some?
    requires var groups := Linq.GroupBy(ms, ByResource);
      (forall g <- groups :: g.key.Some? && g.items != []) &&
      forall i :: 0 <= i < |groups| ==> ResourceOf(svc, groups[i]).Success?
    ensures AllRoutesResolve(svc, ms)
  {
    forall m <- ms ensures RouteParametersResolve(svc.reflection, m.action) {
      var i := Linq.GroupIndexOf(ms, ByResource, m);
      ResourceOfSucceeds(svc, Linq.GroupBy(ms, ByResource)[i]);
    }
  }

  lemma ModuleOfSucceeds(svc: Service, g: ModuleGroup)
    requires g.key.Some? && forall m <- g.items :: m.resourceDescription.Some?
    ensures ModuleOf(svc, g).Success? <==> AllRoutesResolve(svc, g.items)
    ensures ModuleOf(svc, g).Failure? ==> ModuleOf(svc, g).error.RouteParameterNotFound?
  {
    ResourcesSucceed(svc, g.items);
  }

  /** Built modules: one per group, each group's after its override. */
  lemma ModulesBuilt(svc: Service, ms: seq<ActionMapping>)
    requires forall m <- ms :: m.moduleDescription.Some? && m.resourceDescription.Some?
    requires ModulesOf(svc, ms).Success?
    ensures forall g <- Linq.GroupBy(ms, ByModule) :: g.key.Some? && g.items != [] && forall m <- g.items :: m in ms
    ensures |ModulesOf(svc, ms).value| == |Linq.GroupBy(ms, ByModule)|
    ensures forall i :: 0 <= i < |Linq.GroupBy(ms, ByModule)| ==>
      ModuleOf(svc, Linq.GroupBy(ms, ByModule)[i]).Success? &&
      ModulesOf(svc, ms).value[i] == ModuleOf(svc, Linq.GroupBy(ms, ByModule)[i]).value
  {
    ModuleGroups(ms);
  }

  /** A failure to build the modules is the failure of one group's module. */
  lemma ModulesFailedAt(svc: Service, ms: seq<ActionMapping>) returns (i: nat)
    requires forall m <- ms :: m.moduleDescription.Some? && m.resourceDescription.Some?
    requires ModulesOf(svc, ms).Failure?
    ensures i < |Linq.GroupBy(ms, ByModule)|
    ensures Linq.GroupBy(ms, ByModule)[i].key.Some? && forall m <- Linq.GroupBy(ms, ByModule)[i].items :: m.resourceDescription.Some?
    ensures ModuleOf(svc, Linq.GroupBy(ms, ByModule)[i]).Failure?
    ensures ModuleOf(svc, Linq.GroupBy(ms, ByModule)[i]).error == ModulesOf(svc, ms).error
  {
    ModuleGroups(ms);
    var groups := Linq.GroupBy(ms, ByModule);
    i :| 0 <= i < |groups| && ModuleOf(svc, groups[i]).Failure? && ModuleOf(svc, groups[i]).error == ModulesOf(svc, ms).error;
  }

  lemma ModuleGroupsResolve(svc: Service, ms: seq<ActionMapping>)
    requires forall m <- ms :: m.moduleDescription.Some? && m.resourceDescription.Some?
    requires ModulesOf(svc, ms).Success?
    ensures AllRoutesResolve(svc, ms)
  {
    ModulesBuilt(svc, ms);
    forall m <- ms ensures RouteParametersResolve(svc.reflection, m.action) {
      ModuleGroupResolves(svc, ms, m);
    }
  }

  lemma ModuleGroupResolves(svc: Service, ms: seq<ActionMapping>, m: ActionMapping)
    requires forall m <- ms :: m.moduleDescription.Some? && m.resourceDescription.Some?
    requires forall g <- Linq.GroupBy(ms, ByModule) :: g.key.Some? && forall m <- g.items :: m in ms
    requires forall i :: 0 <= i < |Linq.GroupBy(ms, ByModule)| ==> ModuleOf(svc, Linq.GroupBy(ms, ByModule)[i]).Success?
    requires m in ms
    ensures RouteParametersResolve(svc.reflection, m.action)
  {
    var i := Linq.GroupIndexOf(ms, ByModule, m);
    ModuleOfSucceeds(svc, Linq.GroupBy(ms, ByModule)[i]);
  }

  lemma ModulesFailure(svc: Service, ms: seq<ActionMapping>)
    requires forall m <- ms :: m.moduleDescription.Some? && m.resourceDescription.Some?
    requires ModulesOf(svc, ms).Failure?
    ensures !AllRoutesResolve(svc, ms) && ModulesOf(svc, ms).error.RouteParameterNotFound?
  {
    var groups := Linq.GroupBy(ms, ByModule);
    var i := ModulesFailedAt(svc, ms);
    ModuleOfSucceeds(svc, groups[i]);
    ModuleGroups(ms);
    var m :| m in groups[i].items && !RouteParametersResolve(svc.reflection, m.action);
    assert m in ms;
  }

  /** The modules can be built exactly when every action's route parameters resolve. */
  lemma ModulesSucceed(svc: Service, ms: seq<ActionMapping>)
    requires forall m <- ms :: m.moduleDescription.Some? && m.resourceDescription.Some?
    ensures ModulesOf(svc, ms).Success? <==> AllRoutesResolve(svc, ms)
    ensures ModulesOf(svc, ms).Failure? ==> ModulesOf(svc, ms).error.RouteParameterNotFound?
  {
    if ModulesOf(svc, ms).Success? {
      ModuleGroupsResolve(svc, ms);
    } else {
      ModulesFailure(svc, ms);
    }
  }

  /** Every mapping is either inside a module or outside all modules. */
  lemma RoutesResolveSplit(svc: Service, ms: seq<ActionMapping>)
    ensures AllRoutesResolve(svc, ms) <==>
      AllRoutesResolve(svc, Linq.Filter(ms, InModule)) && AllRoutesResolve(svc, Linq.Filter(ms, OutsideModules))
  {
    assert forall m <- ms :: m in Linq.Filter(ms, InModule) || m in Linq.Filter(ms, OutsideModules);
  }

  /** The document can be assembled exactly when every route resolves; otherwise a route parameter is missing. */
  lemma AssembleSucceeds(svc: Service, ms: seq<ActionMapping>)
    requires forall m <- ms :: m.resourceDescription.Some?
    ensures Assemble(svc, ms).Success? <==> AllRoutesResolve(svc, ms)
    ensures Assemble(svc, ms).Failure? ==> Assemble(svc, ms).error.RouteParameterNotFound?
  {
    ModulesSucceed(svc, Linq.Filter(ms, InModule));
    ResourcesSucceed(svc, Linq.Filter(ms, OutsideModules));
    RoutesResolveSplit(svc, ms);
  }

  /**
   * Generation succeeds exactly when the orphan check passes and every
   * documented action's route parameters name properties of its input
   * type; it fails with the orphan error, or else with a missing route
   * parameter.
   */
  lemma GenerateSucceeds(svc: Service, actions: seq<ActionCall>)
    ensures var ms := GetActionMapping(svc, actions);
      Generate(svc, actions).Success? <==>
        CheckForOrphanedActions(svc.configuration, ms).None? && AllRoutesResolve(svc, ms)
    ensures var ms := GetActionMapping(svc, actions);
      Generate(svc, actions).Failure? && CheckForOrphanedActions(svc.configuration, ms).None? ==>
        Generate(svc, actions).error.RouteParameterNotFound?
  {
    var ms := GetActionMapping(svc, actions);
    if CheckForOrphanedActions(svc.configuration, ms).None? {
      ResourcesResolvedAfterCheck(svc, actions);
      AssembleSucceeds(svc, ms);
    }
  }

  // ---- Where each action's endpoint ends up ----

  /** Resource overrides leave resources as built. */
  ghost predicate KeepsResources(svc: Service)
  {
    forall r :: svc.configuration.overrides.resources(r) == r
  }

  /** Module overrides leave modules as built. */
  ghost predicate KeepsModules(svc: Service)
  {
    forall m :: svc.configuration.overrides.modules(m) == m
  }

  /** The endpoint `e` documents action `m`, placed under resource `r`. */
  ghost predicate DocumentsAction(r: Resource, e: Endpoint, svc: Service, m: ActionMapping)
  {
    EndpointOf(svc, m.action).Success? && e == EndpointOf(svc, m.action).value &&
    m.resourceDescription.Some? && r.name == m.resourceDescription.value.name
  }

  /** A resource is named by its description and holds exactly the endpoints of its group's actions. */
  lemma ResourceEndpoints(svc: Service, g: ResourceGroup)
    requires g.key.Some? && g.items != [] && KeepsResources(svc)
    requires ResourceOf(svc, g).Success?
    ensures ResourceOf(svc, g).value.name == g.key.value.name
    ensures forall m <- g.items :: EndpointOf(svc, m.action).Success? && EndpointOf(svc, m.action).value in ResourceOf(svc, g).value.endpoints
    ensures forall e :: e in ResourceOf(svc, g).value.endpoints <==>
      exists m <- g.items :: EndpointOf(svc, m.action).Success? && e == EndpointOf(svc, m.action).value
  {
    var actions := ActionsOf(g.items);
    GetEndpointsExactly(svc, actions);
    ActionsOfMembers(g.items);
    assert forall m <- g.items :: EndpointOf(svc, m.action).Success? by {
      assert forall m <- g.items :: m.action in actions;
    }
  }

  /** Action `m`'s endpoint sits in resource `r`, which is named by `m`'s resource description. */
  ghost predicate Places(r: Resource, svc: Service, m: ActionMapping)
  {
    EndpointOf(svc, m.action).Success? && EndpointOf(svc, m.action).value in r.endpoints &&
    m.resourceDescription.Some? && r.name == m.resourceDescription.value.name
  }

  lemma ResourceAt(svc: Service, ms: seq<ActionMapping>, r: Resource) returns (g: ResourceGroup)
    requires forall m <- ms :: m.resourceDescription.Some?
    requires GetResources(svc, ms).Success? && r in GetResources(svc, ms).value
    ensures g in Linq.GroupBy(ms, ByResource) && g.key.Some? && g.items != []
    ensures ResourceOf(svc, g).Success? && r == ResourceOf(svc, g).value
  {
    var groups := Linq.GroupBy(ms, ByResource);
    ResourcesBuilt(svc, ms);
    assert r in multiset(ResourcesOf(svc, ms).value);
    var i :| 0 <= i < |groups| && ResourcesOf(svc, ms).value[i] == r;
    g := groups[i];
  }

  /** Each endpoint of a resource documents one of the mapped actions. */
  lemma ResourceEndpointSound(svc: Service, ms: seq<ActionMapping>, r: Resource, e: Endpoint) returns (m: ActionMapping)
    requires forall m <- ms :: m.resourceDescription.Some?
    requires KeepsResources(svc) && GetResources(svc, ms).Success?
    requires r in GetResources(svc, ms).value && e in r.endpoints
    ensures m in ms && DocumentsAction(r, e, svc, m)
  {
    var g := ResourceAt(svc, ms, r);
    ResourceEndpoints(svc, g);
    m :| m in g.items && EndpointOf(svc, m.action).Success? && e == EndpointOf(svc, m.action).value;
    Linq.GroupByMember(ms, ByResource, g, m);
  }

  /** The resource of the `i`-th group is among the resources. */
  lemma GroupResource(svc: Service, ms: seq<ActionMapping>, i: int)
    requires forall m <- ms :: m.resourceDescription.Some?
    requires GetResources(svc, ms).Success? && 0 <= i < |Linq.GroupBy(ms, ByResource)|
    ensures Linq.GroupBy(ms, ByResource)[i].key.Some? && Linq.GroupBy(ms, ByResource)[i].items != []
    ensures ResourceOf(svc, Linq.GroupBy(ms, ByResource)[i]).Success?
    ensures ResourceOf(svc, Linq.GroupBy(ms, ByResource)[i]).value in GetResources(svc, ms).value
  {
    ResourcesBuilt(svc, ms);
    assert ResourcesOf(svc, ms).value[i] in multiset(GetResources(svc, ms).value);
  }

  /** Each mapped action's endpoint is in the resource its description names. */
  lemma ActionPlaced(svc: Service, ms: seq<ActionMapping>, m: ActionMapping) returns (r: Resource)
    requires forall m <- ms :: m.resourceDescription.Some?
    requires KeepsResources(svc) && GetResources(svc, ms).Success?
    requires m in ms
    ensures r in GetResources(svc, ms).value && Places(r, svc, m)
  {
    var i := Linq.GroupIndexOf(ms, ByResource, m);
    var g := Linq.GroupBy(ms, ByResource)[i];
    GroupResource(svc, ms, i);
    ResourceEndpoints(svc, g);
    r := ResourceOf(svc, g).value;
  }

  /**
   * Without resource overrides, each resource holds only endpoints of
   * actions mapped to it, and every mapped action's endpoint is in the
   * resource named by its resource description.
   */
  lemma ResourcesDocumentActions(svc: Service, ms: seq<ActionMapping>)
    requires forall m <- ms :: m.resourceDescription.Some?
    requires KeepsResources(svc) && GetResources(svc, ms).Success?
    ensures forall r <- GetResources(svc, ms).value, e <- r.endpoints :: exists m <- ms :: DocumentsAction(r, e, svc, m)
    ensures forall m <- ms :: exists r <- GetResources(svc, ms).value :: Places(r, svc, m)
  {
    forall r <- GetResources(svc, ms).value, e <- r.endpoints ensures exists m <- ms :: DocumentsAction(r, e, svc, m) {
      var m := ResourceEndpointSound(svc, ms, r, e);
    }
    forall m <- ms ensures exists r <- GetResources(svc, ms).value :: Places(r, svc, m) {
      var r := ActionPlaced(svc, ms, m);
    }
  }

  lemma ModuleAt(svc: Service, ms: seq<ActionMapping>, mod: Module) returns (g: ModuleGroup)
    requires forall m <- ms :: m.moduleDescription.Some? && m.resourceDescription.Some?
    requires GetModules(svc, ms).Success? && mod in GetModules(svc, ms).value
    ensures g in Linq.GroupBy(ms, ByModule) && g.key.Some? && forall m <- g.items :: m in ms
    ensures ModuleOf(svc, g).Success? && mod == ModuleOf(svc, g).value
  {
    var groups := Linq.GroupBy(ms, ByModule);
    ModulesBuilt(svc, ms);
    assert mod in multiset(ModulesOf(svc, ms).value);
    var i :| 0 <= i < |groups| && ModulesOf(svc, ms).value[i] == mod;
    g := groups[i];
  }

  /** Each endpoint in a module documents one of the mapped actions of that module. */
  lemma ModuleEndpointSound(svc: Service, ms: seq<ActionMapping>, mod: Module, r: Resource, e: Endpoint) returns (m: ActionMapping)
    requires forall m <- ms :: m.moduleDescription.Some? && m.resourceDescription.Some?
    requires KeepsModules(svc) && KeepsResources(svc) && GetModules(svc, ms).Success?
    requires mod in GetModules(svc, ms).value && r in mod.resources && e in r.endpoints
    ensures m in ms && DocumentsAction(r, e, svc, m) && mod.name == m.moduleDescription.value.name
  {
    var g := ModuleAt(svc, ms, mod);
    assert mod.resources == GetResources(svc, g.items).value;
    m := ResourceEndpointSound(svc, g.items, r, e);
    Linq.GroupByMember(ms, ByModule, g, m);
  }

  /** The module of the `i`-th group is among the modules. */
  lemma GroupModule(svc: Service, ms: seq<ActionMapping>, i: int)
    requires forall m <- ms :: m.moduleDescription.Some? && m.resourceDescription.Some?
    requires GetModules(svc, ms).Success? && 0 <= i < |Linq.GroupBy(ms, ByModule)|
    ensures Linq.GroupBy(ms, ByModule)[i].key.Some?
    ensures forall m <- Linq.GroupBy(ms, ByModule)[i].items :: m in ms
    ensures ModuleOf(svc, Linq.GroupBy(ms, ByModule)[i]).Success?
    ensures ModuleOf(svc, Linq.GroupBy(ms, ByModule)[i]).value in GetModules(svc, ms).value
  {
    ModulesBuilt(svc, ms);
    assert ModulesOf(svc, ms).value[i] in multiset(GetModules(svc, ms).value);
  }

  /** Each mapped action of a module has its endpoint in that module, in the resource its description names. */
  lemma ModuleActionPlaced(svc: Service, ms: seq<ActionMapping>, m: ActionMapping) returns (mod: Module, r: Resource)
    requires forall m <- ms :: m.moduleDescription.Some? && m.resourceDescription.Some?
    requires KeepsModules(svc) && KeepsResources(svc) && GetModules(svc, ms).Success?
    requires m in ms
    ensures mod in GetModules(svc, ms).value && r in mod.resources
    ensures mod.name == m.moduleDescription.value.name && Places(r, svc, m)
  {
    var i := Linq.GroupIndexOf(ms, ByModule, m);
    var g := Linq.GroupBy(ms, ByModule)[i];
    GroupModule(svc, ms, i);
    mod := ModuleOf(svc, g).value;
    assert mod.resources == GetResources(svc, g.items).value;
    r := ActionPlaced(svc, g.items, m);
  }

  /** An unmerged document is assembled from the mapping: its types, its modules and its root resources. */
  lemma GenerateParts(svc: Service, actions: seq<ActionCall>)
    requires Generate(svc, actions).Success? && !MergeRequested(svc.configuration)
    ensures var ms := GetActionMapping(svc, actions);
      CheckForOrphanedActions(svc.configuration, ms).None? &&
      (forall m <- ms :: m.resourceDescription.Some?) &&
      GetModules(svc, Linq.Filter(ms, InModule)).Success? &&
      GetResources(svc, Linq.Filter(ms, OutsideModules)).Success? &&
      Generate(svc, actions).value == Specification(
        svc.configuration.name,
        SpecificationComments(svc),
        GetTypes(svc, ActionsOf(ms)),
        GetModules(svc, Linq.Filter(ms, InModule)).value,
        GetResources(svc, Linq.Filter(ms, OutsideModules)).value)
  {
    ResourcesResolvedAfterCheck(svc, actions);
  }

  /**
   * Without module, resource or merge overrides: the root resources
   * hold exactly the endpoints of the mapped actions outside every
   * module, each under the resource its description names.
   */
  lemma RootResourcesDocumentActions(svc: Service, actions: seq<ActionCall>)
    requires Generate(svc, actions).Success? && !MergeRequested(svc.configuration) && KeepsResources(svc)
    ensures forall r <- Generate(svc, actions).value.resources, e <- r.endpoints ::
      exists m <- GetActionMapping(svc, actions) :: m.moduleDescription.None? && DocumentsAction(r, e, svc, m)
    ensures forall m <- GetActionMapping(svc, actions) | m.moduleDescription.None? ::
      exists r <- Generate(svc, actions).value.resources :: Places(r, svc, m)
  {
    var ms := GetActionMapping(svc, actions);
    var outside := Linq.Filter(ms, OutsideModules);
    GenerateParts(svc, actions);
    ResourcesDocumentActions(svc, outside);
  }

  /** Every endpoint of module `mod` documents one of the mapped actions `ms` that names that module. */
  ghost predicate ModuleDocumentsActions(mod: Module, svc: Service, ms: seq<ActionMapping>)
  {
    forall r <- mod.resources, e <- r.endpoints ::
      exists m <- ms :: m.moduleDescription.Some? && mod.name == m.moduleDescription.value.name && DocumentsAction(r, e, svc, m)
  }

  lemma ModuleEndpointsDocumented(svc: Service, ms: seq<ActionMapping>, mod: Module)
    requires forall m <- ms :: m.resourceDescription.Some?
    requires KeepsModules(svc) && KeepsResources(svc) && GetModules(svc, Linq.Filter(ms, InModule)).Success?
    requires mod in GetModules(svc, Linq.Filter(ms, InModule)).value
    ensures ModuleDocumentsActions(mod, svc, ms)
  {
    forall r <- mod.resources, e <- r.endpoints
      ensures exists m <- ms :: m.moduleDescription.Some? && mod.name == m.moduleDescription.value.name && DocumentsAction(r, e, svc, m)
    {
      var m := ModuleEndpointSound(svc, Linq.Filter(ms, InModule), mod, r, e);
      assert m in ms;
    }
  }

  /** Every endpoint in the modules built from the mapped actions inside a module documents one of those actions. */
  lemma ModuleEndpointsMapped(svc: Service, ms: seq<ActionMapping>)
    requires forall m <- ms :: m.resourceDescription.Some?
    requires KeepsModules(svc) && KeepsResources(svc) && GetModules(svc, Linq.Filter(ms, InModule)).Success?
    ensures forall mod <- GetModules(svc, Linq.Filter(ms, InModule)).value :: ModuleDocumentsActions(mod, svc, ms)
  {
    forall mod <- GetModules(svc, Linq.Filter(ms, InModule)).value ensures ModuleDocumentsActions(mod, svc, ms) {
      ModuleEndpointsDocumented(svc, ms, mod);
    }
  }

  /** Every mapped action inside a module has its endpoint in the modules built from those actions. */
  lemma ModuleActionsPlaced(svc: Service, ms: seq<ActionMapping>)
    requires forall m <- ms :: m.resourceDescription.Some?
    requires KeepsModules(svc) && KeepsResources(svc) && GetModules(svc, Linq.Filter(ms, InModule)).Success?
    ensures forall m <- ms | m.moduleDescription.Some? ::
      exists mod <- GetModules(svc, Linq.Filter(ms, InModule)).value, r <- mod.resources ::
        mod.name == m.moduleDescription.value.name && Places(r, svc, m)
  {
    forall m <- ms | m.moduleDescription.Some?
      ensures exists mod <- GetModules(svc, Linq.Filter(ms, InModule)).value, r <- mod.resources ::
        mod.name == m.moduleDescription.value.name && Places(r, svc, m)
    {
      assert m in Linq.Filter(ms, InModule);
      var mod, r := ModuleActionPlaced(svc, Linq.Filter(ms, InModule), m);
    }
  }

  /**
   * Without module, resource or merge overrides: the modules hold
   * exactly the endpoints of the mapped actions inside a module, each
   * under the module and resource their descriptions name.
   */
  lemma ModulesDocumentActions(svc: Service, actions: seq<ActionCall>)
    requires Generate(svc, actions).Success? && !MergeRequested(svc.configuration)
    requires KeepsModules(svc) && KeepsResources(svc)
    ensures forall mod <- Generate(svc, actions).value.modules :: ModuleDocumentsActions(mod, svc, GetActionMapping(svc, actions))
    ensures forall m <- GetActionMapping(svc, actions) | m.moduleDescription.Some? ::
      exists mod <- Generate(svc, actions).value.modules, r <- mod.resources ::
        mod.name == m.moduleDescription.value.name && Places(r, svc, m)
  {
    var ms := GetActionMapping(svc, actions);
    GenerateParts(svc, actions);
    var mods := GetModules(svc, Linq.Filter(ms, InModule)).value;
    assert Generate(svc, actions).value.modules == mods;
    ModuleEndpointsMapped(svc, ms);
    ModuleActionsPlaced(svc, ms);
  }

  /**
   * Without module, resource or merge overrides, every endpoint in the
   * document is the endpoint of a given action that carries no `[Hide]`
   * on its method or its handler type.
   */
  lemma HiddenActionsUndocumented(svc: Service, actions: seq<ActionCall>)
    requires Generate(svc, actions).Success? && !MergeRequested(svc.configuration)
    requires KeepsModules(svc) && KeepsResources(svc)
    ensures forall r <- Generate(svc, actions).value.resources, e <- r.endpoints ::
      exists a <- actions :: !IsHidden(a) && EndpointOf(svc, a).Success? && e == EndpointOf(svc, a).value
    ensures forall mod <- Generate(svc, actions).value.modules, r <- mod.resources, e <- r.endpoints ::
      exists a <- actions :: !IsHidden(a) && EndpointOf(svc, a).Success? && e == EndpointOf(svc, a).value
  {
    RootResourcesDocumentActions(svc, actions);
    ModulesDocumentActions(svc, actions);
  }

  /**
   * A request payload names a documented type: without type overrides,
   * the request payload of an action whose input type is a request-body
   * root and not a list carries the id and name of the type catalogued
   * for that input under the action.
   */
  lemma RequestPayloadNamesCatalogType(svc: Service, actions: seq<ActionCall>, a: ActionCall, comments: Option<string>)
    requires a in actions && HasRequestBodyRoot(a)
    requires svc.reflection.ElementOrSelf(a.inputType.value) == a.inputType.value
    requires forall t, x :: svc.configuration.overrides.types(t, x) == x
    ensures var d := GetData(svc, a.inputType.value, comments, Some(a.actionMethod));
      var t := BuildType(svc, TypeKey(a.inputType.value, Some(a)));
      t in GetTypes(svc, actions) && t.id == d.typeName && t.name == d.name
  {
    var k := TypeKey(a.inputType.value, Some(a));
    assert CatalogEntry(svc.reflection, actions, k);
    CatalogEntryDocumented(svc, actions, k);
  }

  /**
   * A response payload names a documented type: without type overrides,
   * the response payload of an action whose output type is not a list
   * carries the id and name of the type catalogued for that output under
   * no action.
   */
  lemma ResponsePayloadNamesCatalogType(svc: Service, actions: seq<ActionCall>, a: ActionCall, comments: Option<string>)
    requires a in actions && a.HasOutput()
    requires svc.reflection.ElementOrSelf(a.outputType.value) == a.outputType.value
    requires forall t, x :: svc.configuration.overrides.types(t, x) == x
    ensures var d := GetData(svc, a.outputType.value, comments, None);
      var t := BuildType(svc, TypeKey(a.outputType.value, None));
      t in GetTypes(svc, actions) && t.id == d.typeName && t.name == d.name
  {
    var k := TypeKey(a.outputType.value, None);
    assert CatalogEntry(svc.reflection, actions, k);
    CatalogEntryDocumented(svc, actions, k);
  }
}
