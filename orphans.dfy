/**
 * Which actions are documented, and under which module and resource:
 * hidden actions are dropped, then each axis (module, resource) is
 * resolved on its own under its `OrphanedActions` policy.
 */
module Orphans {
  import opened Wrappers
  import opened Metadata
  import opened Documents
  import opened Settings
  import Linq

  /** An action with the module and resource it is documented under (`null` when none). */
  datatype ActionMapping = ActionMapping(
    action: ActionCall,
    moduleDescription: Option<ModuleDescription>,
    resourceDescription: Option<ResourceDescription>)

  /** The action's method or its handler type carries `[Hide]`. */
  predicate IsHidden(a: ActionCall)
  {
    a.actionMethod.hidden || a.handlerType.hidden
  }

  /** An action whose convention gave `found` survives the axis: only Exclude drops a null. */
  predicate KeptOnAxis<D>(policy: OrphanedActions, found: Option<D>)
  {
    policy != Exclude || found.Some?
  }

  /** The axis's value after its policy: only UseDefault replaces a null, and only a null. */
  function ResolveAxis<D>(policy: OrphanedActions, found: Option<D>, fallback: Option<D>): (r: Option<D>)
    ensures found.Some? ==> r == found
    ensures policy != UseDefault ==> r == found
    ensures policy == UseDefault && found.None? ==> r == fallback
  {
    if policy == UseDefault then found.OrElse(fallback) else found
  }

  /** The action is not hidden and neither axis excludes it. */
  predicate Retained(svc: Service, a: ActionCall)
  {
    !IsHidden(a) &&
    KeptOnAxis(svc.configuration.orphanedModuleActions, svc.conventions.modules(a)) &&
    KeptOnAxis(svc.configuration.orphanedResourceActions, svc.conventions.resources(a))
  }

  /** The mapping entry of a retained action. */
  function MapAction(svc: Service, a: ActionCall): ActionMapping
  {
    var cfg := svc.configuration;
    ActionMapping(
      a,
      ResolveAxis(cfg.orphanedModuleActions, svc.conventions.modules(a), cfg.defaultModuleFactory(a)),
      ResolveAxis(cfg.orphanedResourceActions, svc.conventions.resources(a), Some(cfg.defaultResourceFactory(a))))
  }

  /**
   * `GetActionMapping`: the retained actions, in order, each with its
   * resolved module and resource.
   */
  function GetActionMapping(svc: Service, actions: seq<ActionCall>): (r: seq<ActionMapping>)
    ensures |r| <= |actions|
    ensures forall m <- r :: m.action in actions && Retained(svc, m.action) && m == MapAction(svc, m.action)
    ensures forall a <- actions :: Retained(svc, a) ==> MapAction(svc, a) in r
  {
    if actions == [] then []
    else
      var rest := GetActionMapping(svc, actions[1..]);
      assert forall a <- actions :: a == actions[0] || a in actions[1..];
      if Retained(svc, actions[0]) then [MapAction(svc, actions[0])] + rest else rest
  }

  /** The mapping entries of `acts`, one per action, in order. */
  function MapActions(svc: Service, acts: seq<ActionCall>): seq<ActionMapping>
  {
    seq(|acts|, i requires 0 <= i < |acts| => MapAction(svc, acts[i]))
  }

  /**
   * In order too: the mapping is the retained actions, filtered first
   * and then each mapped, one entry per retained action.
   */
  lemma {:induction false} GetActionMappingInOrder(svc: Service, actions: seq<ActionCall>)
    ensures GetActionMapping(svc, actions) == MapActions(svc, Linq.Filter(actions, a => Retained(svc, a)))
  {
    if actions != [] {
      var head := if Retained(svc, actions[0]) then [actions[0]] else [];
      var tail := Linq.Filter(actions[1..], a => Retained(svc, a));
      calc {
        GetActionMapping(svc, actions);
        { GetActionMappingUnfold(svc, actions); }
        MapActions(svc, head) + GetActionMapping(svc, actions[1..]);
        { GetActionMappingInOrder(svc, actions[1..]); }
        MapActions(svc, head) + MapActions(svc, tail);
        { MapActionsAppend(svc, head, tail); }
        MapActions(svc, head + tail);
        { Linq.FilterUnfold(actions, a => Retained(svc, a)); }
        MapActions(svc, Linq.Filter(actions, a => Retained(svc, a)));
      }
    }
  }

  lemma GetActionMappingUnfold(svc: Service, actions: seq<ActionCall>)
    requires actions != []
    ensures GetActionMapping(svc, actions) ==
      MapActions(svc, if Retained(svc, actions[0]) then [actions[0]] else []) + GetActionMapping(svc, actions[1..])
  {
  }

  lemma MapActionsAppend(svc: Service, a: seq<ActionCall>, b: seq<ActionCall>)
    ensures MapActions(svc, a + b) == MapActions(svc, a) + MapActions(svc, b)
  {
  }

  /** Hidden actions never reach the mapping, so nothing downstream documents them. */
  lemma HiddenActionsNeverMapped(svc: Service, actions: seq<ActionCall>)
    ensures forall m <- GetActionMapping(svc, actions) :: !m.action.actionMethod.hidden && !m.action.handlerType.hidden
  {
  }

  /** What each module policy leaves on every mapped action. */
  lemma ModulePolicyOutcome(svc: Service, actions: seq<ActionCall>)
    ensures var policy := svc.configuration.orphanedModuleActions;
      forall m <- GetActionMapping(svc, actions) ::
        var found := svc.conventions.modules(m.action);
        (policy == Exclude ==> m.moduleDescription.Some? && m.moduleDescription == found) &&
        (policy == UseDefault ==> m.moduleDescription == if found.Some? then found else svc.configuration.defaultModuleFactory(m.action)) &&
        (policy == Fail ==> m.moduleDescription == found)
  {
  }

  /** What each resource policy leaves on every mapped action; UseDefault never leaves a null resource. */
  lemma ResourcePolicyOutcome(svc: Service, actions: seq<ActionCall>)
    ensures var policy := svc.configuration.orphanedResourceActions;
      forall m <- GetActionMapping(svc, actions) ::
        var found := svc.conventions.resources(m.action);
        (policy == Exclude ==> m.resourceDescription.Some? && m.resourceDescription == found) &&
        (policy == UseDefault ==> m.resourceDescription.Some? && (found.Some? ==> m.resourceDescription == found)) &&
        (policy == Fail ==> m.resourceDescription == found)
  {
  }

  /** The two axes of an orphan check. */
  datatype Axis = ModuleAxis | ResourceAxis

  predicate Orphaned(m: ActionMapping, axis: Axis)
  {
    match axis
    case ModuleAxis => m.moduleDescription.None?
    case ResourceAxis => m.resourceDescription.None?
  }

  /** The identities of the mapped actions orphaned on `axis`, in mapping order. */
  function OrphanIdentities(ms: seq<ActionMapping>, axis: Axis): (r: seq<string>)
    ensures |r| <= |ms|
    ensures forall x :: x in r <==> exists m <- ms :: Orphaned(m, axis) && Identity(m.action) == x
    ensures r == [] <==> forall m <- ms :: !Orphaned(m, axis)
  {
    if ms == [] then []
    else
      var rest := OrphanIdentities(ms[1..], axis);
      assert forall m <- ms :: m == ms[0] || m in ms[1..];
      (if Orphaned(ms[0], axis) then [Identity(ms[0].action)] else []) + rest
  }

  /** The identities of the actions of `ms`, in order. */
  function Identities(ms: seq<ActionMapping>): seq<string>
  {
    seq(|ms|, i requires 0 <= i < |ms| => Identity(ms[i].action))
  }

  /** In order too: the report names the orphaned entries, one identity each, in mapping order. */
  lemma {:induction false} OrphanIdentitiesInOrder(ms: seq<ActionMapping>, axis: Axis)
    ensures OrphanIdentities(ms, axis) == Identities(Linq.Filter(ms, m => Orphaned(m, axis)))
  {
    if ms != [] {
      var head := if Orphaned(ms[0], axis) then [ms[0]] else [];
      var tail := Linq.Filter(ms[1..], m => Orphaned(m, axis));
      calc {
        OrphanIdentities(ms, axis);
        { OrphanIdentitiesUnfold(ms, axis); }
        Identities(head) + OrphanIdentities(ms[1..], axis);
        { OrphanIdentitiesInOrder(ms[1..], axis); }
        Identities(head) + Identities(tail);
        { IdentitiesAppend(head, tail); }
        Identities(head + tail);
        { Linq.FilterUnfold(ms, m => Orphaned(m, axis)); }
        Identities(Linq.Filter(ms, m => Orphaned(m, axis)));
      }
    }
  }

  lemma OrphanIdentitiesUnfold(ms: seq<ActionMapping>, axis: Axis)
    requires ms != []
    ensures OrphanIdentities(ms, axis) ==
      Identities(if Orphaned(ms[0], axis) then [ms[0]] else []) + OrphanIdentities(ms[1..], axis)
  {
  }

  lemma IdentitiesAppend(a: seq<ActionMapping>, b: seq<ActionMapping>)
    ensures Identities(a + b) == Identities(a) + Identities(b)
  {
  }

  /** The report lists every orphan: one identity per orphaned entry, in order. */
  lemma {:induction false} OrphanIdentitiesCount(ms: seq<ActionMapping>, axis: Axis)
    ensures |OrphanIdentities(ms, axis)| == |Linq.Filter(ms, m => Orphaned(m, axis))|
  {
    if ms != [] {
      OrphanIdentitiesCount(ms[1..], axis);
    }
  }

  /**
   * `CheckForOrphanedActions`: under Fail, one error naming every
   * orphan; the module axis is checked before the resource axis.
   */
  function CheckForOrphanedActions(cfg: Configuration, ms: seq<ActionMapping>): (r: Option<GenerationError>)
    ensures r.None? <==>
      (cfg.orphanedModuleActions == Fail ==> forall m <- ms :: m.moduleDescription.Some?) &&
      (cfg.orphanedResourceActions == Fail ==> forall m <- ms :: m.resourceDescription.Some?)
    ensures cfg.orphanedModuleActions == Fail && (exists m <- ms :: m.moduleDescription.None?) ==>
      r == Some(OrphanedModuleActions(OrphanIdentities(ms, ModuleAxis)))
    ensures (cfg.orphanedResourceActions == Fail && (exists m <- ms :: m.resourceDescription.None?) &&
             !(cfg.orphanedModuleActions == Fail && exists m <- ms :: m.moduleDescription.None?)) ==>
      r == Some(OrphanedResourceActions(OrphanIdentities(ms, ResourceAxis)))
    ensures r.Some? && r.value.OrphanedModuleActions? ==>
      cfg.orphanedModuleActions == Fail && r.value.actions == OrphanIdentities(ms, ModuleAxis)
    ensures r.Some? && r.value.OrphanedResourceActions? ==>
      cfg.orphanedResourceActions == Fail && r.value.actions == OrphanIdentities(ms, ResourceAxis) &&
      (cfg.orphanedModuleActions == Fail ==> forall m <- ms :: m.moduleDescription.Some?)
    ensures r.Some? ==> r.value.OrphanedModuleActions? || r.value.OrphanedResourceActions?
  {
    var modules := OrphanIdentities(ms, ModuleAxis);
    var resources := OrphanIdentities(ms, ResourceAxis);
    if cfg.orphanedModuleActions == Fail && modules != [] then Some(OrphanedModuleActions(modules))
    else if cfg.orphanedResourceActions == Fail && resources != [] then Some(OrphanedResourceActions(resources))
    else None
  }

  /** Once the check passes, every mapped action has a resource, whatever the policies. */
  lemma ResourcesResolvedAfterCheck(svc: Service, actions: seq<ActionCall>)
    requires CheckForOrphanedActions(svc.configuration, GetActionMapping(svc, actions)).None?
    ensures forall m <- GetActionMapping(svc, actions) :: m.resourceDescription.Some?
  {
    ResourcePolicyOutcome(svc, actions);
  }
}
