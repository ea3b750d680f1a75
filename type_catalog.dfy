/**
 * The documented types: each catalog key becomes a `Type` named by
 * its convention, identified by the (input) type-id convention, with
 * its documented members; the list is ordered by name.
 */
module TypeCatalog {
  import opened Wrappers
  import opened Text
  import opened Sorting
  import opened Metadata
  import opened Documents
  import opened Settings
  import opened EnumOptions
  import opened TypeGraph
  import Linq

  // ---- Members (`GetMembers`) ----

  /** A property documented as a member of a type scoped to `action`: not hidden, auto-bound, querystring or URL parameter. */
  predicate Documented(refl: Reflection, p: Property, action: Option<ActionCall>)
  {
    !p.hidden && !p.autoBound && !refl.isQuerystring(p, action) && !refl.isUrlParameter(p, action)
  }

  /** The member's type: the convention's, else the list element type, else the property type. */
  function MemberType(svc: Service, p: Property): TypeId
  {
    var description := svc.conventions.members(p);
    if description.typeId.Some? then description.typeId.value else svc.reflection.ElementOrSelf(p.propertyType)
  }

  /** How a member's type is written: its XML name for system and enum types, its type id otherwise. */
  function MemberTypeName(svc: Service, t: TypeId): string
  {
    if svc.reflection.IsSystemType(t) || svc.reflection.IsEnum(t) then svc.reflection.xmlName(t)
    else svc.configuration.typeIdConvention(t)
  }

  /** The member built for one property before the override runs. */
  function ProvisionalMember(svc: Service, p: Property): Member
  {
    var description := svc.conventions.members(p);
    Member(
      description.name,
      description.comments,
      DefaultValueOf(svc.configuration, description.defaultValue),
      description.required,
      MemberTypeName(svc, MemberType(svc, p)),
      svc.reflection.IsArrayOrList(p.propertyType),
      description.arrayItemName,
      GetOptions(svc, p.propertyType))
  }

  /** The member emitted for one property: the member override sees the provisional member last. */
  function MemberOf(svc: Service, p: Property): Member
  {
    svc.configuration.overrides.members(p, ProvisionalMember(svc, p))
  }

  /** The members of the documented properties among `ps`, in order. */
  function MembersOf(svc: Service, ps: seq<Property>, action: Option<ActionCall>): (r: seq<Member>)
    ensures |r| <= |ps|
    ensures forall m <- r :: exists p <- ps :: Documented(svc.reflection, p, action) && m == MemberOf(svc, p)
    ensures forall p <- ps :: Documented(svc.reflection, p, action) ==> MemberOf(svc, p) in r
  {
    if ps == [] then []
    else
      assert forall p <- ps :: p == ps[0] || p in ps[1..];
      (if Documented(svc.reflection, ps[0], action) then [MemberOf(svc, ps[0])] else []) + MembersOf(svc, ps[1..], action)
  }

  /**
   * `GetMembers`: one member per documented property of `t`, in
   * property order; nothing else becomes a member.
   */
  function GetMembers(svc: Service, t: TypeId, action: Option<ActionCall>): (r: seq<Member>)
    ensures forall m <- r :: exists p <- svc.reflection.PropertiesOf(t) :: Documented(svc.reflection, p, action) && m == MemberOf(svc, p)
    ensures forall p <- svc.reflection.PropertiesOf(t) :: Documented(svc.reflection, p, action) ==> MemberOf(svc, p) in r
  {
    MembersOf(svc, svc.reflection.PropertiesOf(t), action)
  }

  function Project(svc: Service, ps: seq<Property>): seq<Member>
  {
    seq(|ps|, i requires 0 <= i < |ps| => MemberOf(svc, ps[i]))
  }

  /** In order too: the members are the documented properties, filtered first and then each described. */
  lemma {:induction false} MembersFollowProperties(svc: Service, ps: seq<Property>, action: Option<ActionCall>)
    ensures MembersOf(svc, ps, action) == Project(svc, Linq.Filter(ps, p => Documented(svc.reflection, p, action)))
  {
    if ps != [] {
      var head := if Documented(svc.reflection, ps[0], action) then [ps[0]] else [];
      calc {
        MembersOf(svc, ps, action);
        { MembersOfUnfold(svc, ps, action); }
        Project(svc, head) + MembersOf(svc, ps[1..], action);
        { MembersFollowProperties(svc, ps[1..], action); }
        Project(svc, head) + Project(svc, Linq.Filter(ps[1..], p => Documented(svc.reflection, p, action)));
        { ProjectAppend(svc, head, Linq.Filter(ps[1..], p => Documented(svc.reflection, p, action))); }
        Project(svc, head + Linq.Filter(ps[1..], p => Documented(svc.reflection, p, action)));
        { Linq.FilterUnfold(ps, p => Documented(svc.reflection, p, action)); }
        Project(svc, Linq.Filter(ps, p => Documented(svc.reflection, p, action)));
      }
    }
  }

  lemma MembersOfUnfold(svc: Service, ps: seq<Property>, action: Option<ActionCall>)
    requires ps != []
    ensures MembersOf(svc, ps, action) ==
      Project(svc, if Documented(svc.reflection, ps[0], action) then [ps[0]] else []) + MembersOf(svc, ps[1..], action)
  {
  }

  lemma ProjectAppend(svc: Service, a: seq<Property>, b: seq<Property>)
    ensures Project(svc, a + b) == Project(svc, a) + Project(svc, b)
  {
  }

  /**
   * Without a member override: a member is an array exactly when its
   * property's type is an array or list; a system or enum member type
   * is written by its XML name; options are those of the property's
   * type, ordered.
   */
  lemma MemberShape(svc: Service, p: Property)
    requires forall q, m :: svc.configuration.overrides.members(q, m) == m
    ensures MemberOf(svc, p).isArray <==> svc.reflection.IsArrayOrList(p.propertyType)
    ensures svc.reflection.IsSystemType(MemberType(svc, p)) || svc.reflection.IsEnum(MemberType(svc, p)) ==>
      MemberOf(svc, p).typeName == svc.reflection.xmlName(MemberType(svc, p))
    ensures !svc.reflection.IsSystemType(MemberType(svc, p)) && !svc.reflection.IsEnum(MemberType(svc, p)) ==>
      MemberOf(svc, p).typeName == svc.configuration.typeIdConvention(MemberType(svc, p))
    ensures !svc.reflection.HasEnumOptions(p.propertyType) ==> MemberOf(svc, p).options == []
    ensures SortedBy(MemberOf(svc, p).options, OptionLe)
  {
  }

  // ---- Types (`GetTypes(IList<ActionCall>)`) ----

  /** The type a catalog key documents: the convention may substitute another type. */
  function DocumentedType(svc: Service, key: TypeKey): TypeId
  {
    var description := svc.conventions.types(key.typeId);
    if description.typeId.Some? then description.typeId.value else key.typeId
  }

  /** A request-body type is identified per action; every other type by its type id alone. */
  function TypeIdOf(svc: Service, key: TypeKey): string
  {
    var t := DocumentedType(svc, key);
    if key.action.Some? then svc.configuration.inputTypeIdConvention(t, key.action.value.actionMethod)
    else svc.configuration.typeIdConvention(t)
  }

  /** The type built for one catalog key before the override runs. */
  function ProvisionalType(svc: Service, key: TypeKey): Type
  {
    var description := svc.conventions.types(key.typeId);
    Type(TypeIdOf(svc, key), description.name, description.comments, GetMembers(svc, DocumentedType(svc, key), key.action))
  }

  /** The type emitted for one catalog key: the type override, keyed by the walked type, runs last. */
  function BuildType(svc: Service, key: TypeKey): Type
  {
    svc.configuration.overrides.types(key.typeId, ProvisionalType(svc, key))
  }

  function BuildTypes(svc: Service, keys: seq<TypeKey>): seq<Type>
  {
    seq(|keys|, i requires 0 <= i < |keys| => BuildType(svc, keys[i]))
  }

  /** `OrderBy(x => x.Name)`. */
  predicate TypeLe(a: Type, b: Type)
  {
    NStrLe(a.name, b.name)
  }

  lemma TypeLeTotalPreorder()
    ensures TotalPreorder(TypeLe)
  {
    NStrLeTotalOrder();
  }

  /**
   * `GetTypes`: one type per catalog key, ordered by name; types of
   * equal name keep catalog order.
   */
  function GetTypes(svc: Service, actions: seq<ActionCall>): (r: seq<Type>)
    ensures |r| == |CatalogKeys(svc.reflection, actions)|
    ensures multiset(r) == multiset(BuildTypes(svc, CatalogKeys(svc.reflection, actions)))
    ensures SortedBy(r, TypeLe)
  {
    var built := BuildTypes(svc, CatalogKeys(svc.reflection, actions));
    TypeLeTotalPreorder();
    SortBySorted(built, TypeLe);
    SortBy(built, TypeLe)
  }

  /** Types whose names tie keep their catalog order (`OrderBy` is stable). */
  lemma GetTypesStable(svc: Service, actions: seq<ActionCall>, t: Type)
    ensures Ties(GetTypes(svc, actions), t, TypeLe) == Ties(BuildTypes(svc, CatalogKeys(svc.reflection, actions)), t, TypeLe)
  {
    TypeLeTotalPreorder();
    SortByStable(BuildTypes(svc, CatalogKeys(svc.reflection, actions)), t, TypeLe);
  }

  /**
   * Every documented type comes from a catalog key (a request-body
   * root, an output root or a walked type), and every catalog key is
   * documented.
   */
  lemma TypesFromCatalog(svc: Service, actions: seq<ActionCall>)
    ensures forall t <- GetTypes(svc, actions) :: exists k :: CatalogEntry(svc.reflection, actions, k) && t == BuildType(svc, k)
    ensures forall k :: CatalogEntry(svc.reflection, actions, k) ==> BuildType(svc, k) in GetTypes(svc, actions)
  {
    var keys := CatalogKeys(svc.reflection, actions);
    var built := BuildTypes(svc, keys);
    var r := GetTypes(svc, actions);
    forall t <- r ensures exists k :: CatalogEntry(svc.reflection, actions, k) && t == BuildType(svc, k) {
      assert t in multiset(built);
      var i :| 0 <= i < |built| && built[i] == t;
      CatalogKeysSound(svc.reflection, actions, keys[i]);
    }
    forall k | CatalogEntry(svc.reflection, actions, k) ensures BuildType(svc, k) in r {
      CatalogEntryDocumented(svc, actions, k);
    }
  }

  /** The type built for a catalog entry is among the documented types. */
  lemma CatalogEntryDocumented(svc: Service, actions: seq<ActionCall>, k: TypeKey)
    requires CatalogEntry(svc.reflection, actions, k)
    ensures BuildType(svc, k) in GetTypes(svc, actions)
  {
    var keys := CatalogKeys(svc.reflection, actions);
    var built := BuildTypes(svc, keys);
    CatalogKeysComplete(svc.reflection, actions, k);
    var i :| 0 <= i < |keys| && keys[i] == k;
    assert built[i] in multiset(GetTypes(svc, actions));
  }

  /**
   * Without a type override: a request-body type is identified by the
   * input type-id convention applied to its action's method, any other
   * type by the type-id convention; a type's members never include a
   * property that is hidden, auto-bound, or a querystring or URL
   * parameter of the key's action.
   */
  lemma TypeIdentity(svc: Service, key: TypeKey)
    requires forall t, x :: svc.configuration.overrides.types(t, x) == x
    requires svc.conventions.types(key.typeId).typeId.None?
    ensures key.action.Some? ==>
      BuildType(svc, key).id == svc.configuration.inputTypeIdConvention(key.typeId, key.action.value.actionMethod)
    ensures key.action.None? ==> BuildType(svc, key).id == svc.configuration.typeIdConvention(key.typeId)
    ensures forall m <- BuildType(svc, key).members :: exists p <- svc.reflection.PropertiesOf(key.typeId) ::
      !p.hidden && !p.autoBound && !svc.reflection.isQuerystring(p, key.action) &&
      !svc.reflection.isUrlParameter(p, key.action) && m == MemberOf(svc, p)
  {
  }
}
