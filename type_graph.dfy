/**
 * The type catalog: the walk from each action's input and output type
 * through the properties of complex types, stopped by a cycle guard,
 * deduplicated by (type, action) and ordered by name.
 */
module TypeGraph {
  import opened Wrappers
  import opened Metadata
  import Linq

  /**
   * A type found by the walk (`TypeContext`): the type, the types of
   * the contexts that led to it (nearest first), and the action that
   * scopes its identifier (request bodies only).
   */
  datatype TypeContext = TypeContext(typeId: TypeId, parents: seq<TypeId>, action: Option<ActionCall>)
  {
    /** `Traverse(y => y.Parent)`: this context's type, then its ancestors'. */
    function Chain(): seq<TypeId>
    {
      [typeId] + parents
    }
  }

  /** A property the walk descends through: not hidden, not auto-bound, not of a system or enum type. */
  predicate Traversable(refl: Reflection, p: Property)
  {
    !p.hidden &&
    !refl.IsSystemType(refl.ElementOrSelf(p.propertyType)) &&
    !refl.IsEnum(p.propertyType) &&
    !p.autoBound
  }

  /** The context a traversable property of `c`'s type leads to. */
  function ChildOf(refl: Reflection, c: TypeContext, p: Property): TypeContext
  {
    TypeContext(refl.ElementOrSelf(p.propertyType), c.Chain(), None)
  }

  function ChildContexts(refl: Reflection, c: TypeContext, ps: seq<Property>): (r: seq<TypeContext>)
    ensures forall k :: k in r <==> exists p <- ps :: Traversable(refl, p) && k == ChildOf(refl, c, p)
  {
    if ps == [] then []
    else
      assert forall p <- ps :: p == ps[0] || p in ps[1..];
      (if Traversable(refl, ps[0]) then [ChildOf(refl, c, ps[0])] else []) + ChildContexts(refl, c, ps[1..])
  }

  /** The distinct contexts of the traversable properties of `c`'s type (lines 150-157). */
  function Children(refl: Reflection, c: TypeContext): (r: seq<TypeContext>)
    ensures forall k :: k in r <==> exists p <- refl.PropertiesOf(c.typeId) :: Traversable(refl, p) && k == ChildOf(refl, c, p)
    ensures c.typeId !in refl.types ==> r == []
  {
    Linq.Distinct(ChildContexts(refl, c, refl.PropertiesOf(c.typeId)))
  }

  function Elements(s: seq<TypeId>): set<TypeId>
  {
    set x | x in s
  }

  /** The registered types not yet on `c`'s chain: what the walk below `c` can still enter. */
  function Unvisited(refl: Reflection, c: TypeContext): nat
  {
    |refl.types.Keys - Elements(c.Chain())|
  }

  function InRegistry(refl: Reflection, c: TypeContext): nat
  {
    if c.typeId in refl.types then 1 else 0
  }

  /** `d` was reached through a traversable property of its parent's type. */
  ghost predicate Discovered(refl: Reflection, d: TypeContext)
  {
    d.action.None? && d.parents != [] &&
    exists p <- refl.PropertiesOf(d.parents[0]) :: Traversable(refl, p) && d.typeId == refl.ElementOrSelf(p.propertyType)
  }

  /** `c`'s chain is a suffix of `d`'s ancestors: `d` lies below `c`. */
  ghost predicate Below(d: TypeContext, c: TypeContext)
  {
    |d.parents| > |c.parents| && d.parents[|d.parents| - |c.Chain()|..] == c.Chain()
  }

  /**
   * `GetTypes(TypeContext)`: the children of `c`, then everything found
   * below those children whose type is not on `c`'s chain; distinct.
   * Terminates on cyclic type graphs: each level enters a registered
   * type not yet on the chain, or an unregistered type without members.
   */
  function Walk(refl: Reflection, c: TypeContext): seq<TypeContext>
    decreases Unvisited(refl, c), InRegistry(refl, c), 1, 0
  {
    var kids := Children(refl, c);
    ChildrenDiscovered(refl, c);
    Linq.Distinct(kids + WalkEach(refl, c, kids))
  }

  /** `SelectMany(GetTypes)` over the children of `c` not on its chain. */
  function WalkEach(refl: Reflection, c: TypeContext, kids: seq<TypeContext>): seq<TypeContext>
    requires forall k <- kids :: k.parents == c.Chain()
    requires kids != [] ==> c.typeId in refl.types
    decreases Unvisited(refl, c), InRegistry(refl, c), 0, |kids|
  {
    if kids == [] then []
    else
      var k := kids[0];
      (if k.typeId !in c.Chain() then
         ChildUnvisited(refl, c, k);
         Walk(refl, k)
       else []) + WalkEach(refl, c, kids[1..])
  }

  /**
   * Everything the walk yields lies below `c` and was reached through
   * a traversable property (never a hidden, auto-bound, system or enum
   * one); when `c`'s chain repeats no type, no result's ancestors do.
   */
  lemma {:induction false} WalkSound(refl: Reflection, c: TypeContext)
    ensures forall d <- Walk(refl, c) :: Discovered(refl, d) && Below(d, c)
    ensures Linq.NoDuplicates(c.Chain()) ==> forall d <- Walk(refl, c) :: Linq.NoDuplicates(d.parents)
    decreases Unvisited(refl, c), InRegistry(refl, c), 1, 0
  {
    var kids := Children(refl, c);
    ChildrenDiscovered(refl, c);
    WalkEachSound(refl, c, kids);
  }

  lemma {:induction false} WalkEachSound(refl: Reflection, c: TypeContext, kids: seq<TypeContext>)
    requires forall k <- kids :: k.parents == c.Chain()
    requires kids != [] ==> c.typeId in refl.types
    ensures forall d <- WalkEach(refl, c, kids) :: Discovered(refl, d) && Below(d, c)
    ensures Linq.NoDuplicates(c.Chain()) ==> forall d <- WalkEach(refl, c, kids) :: Linq.NoDuplicates(d.parents)
    decreases Unvisited(refl, c), InRegistry(refl, c), 0, |kids|
  {
    if kids != [] {
      var k := kids[0];
      WalkEachSound(refl, c, kids[1..]);
      if k.typeId !in c.Chain() {
        ChildUnvisited(refl, c, k);
        ChildChain(c, k);
        WalkSound(refl, k);
        BelowChild(Walk(refl, k), k, c);
        assert WalkEach(refl, c, kids) == Walk(refl, k) + WalkEach(refl, c, kids[1..]);
      } else {
        assert WalkEach(refl, c, kids) == WalkEach(refl, c, kids[1..]);
      }
    }
  }

  /** Entering a registered child not on the chain leaves one registered type fewer to enter. */
  lemma ChildUnvisited(refl: Reflection, c: TypeContext, k: TypeContext)
    requires k.parents == c.Chain() && k.typeId !in c.Chain()
    ensures k.typeId in refl.types ==> Unvisited(refl, k) < Unvisited(refl, c)
    ensures k.typeId !in refl.types ==> Unvisited(refl, k) == Unvisited(refl, c)
  {
    assert Elements(k.Chain()) == Elements(c.Chain()) + {k.typeId};
    if k.typeId in refl.types {
      assert refl.types.Keys - Elements(c.Chain()) == (refl.types.Keys - Elements(k.Chain())) + {k.typeId};
    } else {
      assert refl.types.Keys - Elements(c.Chain()) == refl.types.Keys - Elements(k.Chain());
    }
  }

  /** A child entered only when its type is off the chain keeps the chain free of repeats. */
  lemma ChildChain(c: TypeContext, k: TypeContext)
    requires k.parents == c.Chain() && k.typeId !in c.Chain()
    ensures Linq.NoDuplicates(c.Chain()) ==> Linq.NoDuplicates(k.Chain())
  {
    if Linq.NoDuplicates(c.Chain()) {
      forall i, j | 0 <= i < j < |k.Chain()| ensures k.Chain()[i] != k.Chain()[j] {
        if i == 0 {
          assert k.Chain()[j] == c.Chain()[j - 1];
        } else {
          assert k.Chain()[i] == c.Chain()[i - 1] && k.Chain()[j] == c.Chain()[j - 1];
        }
      }
    }
  }

  /** What lies below a child of `c` lies below `c`. */
  lemma BelowChild(ds: seq<TypeContext>, k: TypeContext, c: TypeContext)
    requires k.parents == c.Chain()
    requires forall d <- ds :: Below(d, k)
    ensures forall d <- ds :: Below(d, c)
  {
    forall d <- ds ensures Below(d, c) {
      var n := |d.parents|;
      assert d.parents[n - |k.Chain()|..] == [k.typeId] + c.Chain();
      assert d.parents[n - |c.Chain()|..] == d.parents[n - |k.Chain()|..][1..];
    }
  }

  lemma ChildrenDiscovered(refl: Reflection, c: TypeContext)
    ensures forall k <- Children(refl, c) :: Discovered(refl, k) && Below(k, c) && k.parents == c.Chain()
    ensures Linq.NoDuplicates(c.Chain()) ==> forall k <- Children(refl, c) :: Linq.NoDuplicates(k.parents)
  {
    forall k <- Children(refl, c) ensures Discovered(refl, k) && Below(k, c) {
      var p :| p in refl.PropertiesOf(c.typeId) && Traversable(refl, p) && k == ChildOf(refl, c, p);
      assert k.parents[0] == c.typeId;
    }
  }

  /**
   * The walk misses nothing: every child of `c` is found, and every
   * child of a found context whose type is not among its own ancestors
   * is found too. `WalkSound` is the other direction: everything the
   * walk yields is discovered through traversable properties below `c`.
   */
  lemma {:induction false} WalkClosed(refl: Reflection, c: TypeContext)
    ensures forall k <- Children(refl, c) :: k in Walk(refl, c)
    ensures forall d <- Walk(refl, c) | d.typeId !in d.parents :: forall e <- Children(refl, d) :: e in Walk(refl, c)
    decreases Unvisited(refl, c), InRegistry(refl, c), 1, 0
  {
    var kids := Children(refl, c);
    ChildrenDiscovered(refl, c);
    var each := WalkEach(refl, c, kids);
    WalkEachClosed(refl, c, kids);
    var r := Walk(refl, c);
    assert forall d :: d in r <==> d in kids || d in each;
    forall d <- r | d.typeId !in d.parents ensures forall e <- Children(refl, d) :: e in r {
      if d in kids {
        assert d.parents == c.Chain();
      }
    }
  }

  lemma {:induction false} WalkEachClosed(refl: Reflection, c: TypeContext, kids: seq<TypeContext>)
    requires forall k <- kids :: k.parents == c.Chain()
    requires kids != [] ==> c.typeId in refl.types
    ensures forall k <- kids | k.typeId !in c.Chain() :: forall e <- Children(refl, k) :: e in WalkEach(refl, c, kids)
    ensures forall d <- WalkEach(refl, c, kids) | d.typeId !in d.parents ::
      forall e <- Children(refl, d) :: e in WalkEach(refl, c, kids)
    decreases Unvisited(refl, c), InRegistry(refl, c), 0, |kids|
  {
    if kids != [] {
      var k := kids[0];
      var rest := WalkEach(refl, c, kids[1..]);
      WalkEachClosed(refl, c, kids[1..]);
      var r := WalkEach(refl, c, kids);
      if k.typeId !in c.Chain() {
        ChildUnvisited(refl, c, k);
        WalkClosed(refl, k);
        assert r == Walk(refl, k) + rest;
      } else {
        assert r == rest;
      }
      assert forall k' <- kids :: k' == k || k' in kids[1..];
    }
  }

  // ---- The catalog (`GetTypes(IList<ActionCall>)`) ----

  /** An action's input type is a catalog root only when it has one and its route allows neither GET nor DELETE. */
  predicate HasRequestBodyRoot(a: ActionCall)
  {
    a.HasInput() && !AllowsGet(a.route) && !AllowsDelete(a.route)
  }

  function InputRoot(refl: Reflection, a: ActionCall): TypeContext
    requires a.HasInput()
  {
    TypeContext(refl.ElementOrSelf(a.inputType.value), [], Some(a))
  }

  function OutputRoot(refl: Reflection, t: TypeId): TypeContext
  {
    TypeContext(refl.ElementOrSelf(t), [], None)
  }

  /** The request-body roots, each scoped to its action (lines 122-124). */
  function InputRoots(refl: Reflection, actions: seq<ActionCall>): (r: seq<TypeContext>)
    ensures forall c :: c in r <==> exists a <- actions :: HasRequestBodyRoot(a) && c == InputRoot(refl, a)
  {
    if actions == [] then []
    else
      assert forall a <- actions :: a == actions[0] || a in actions[1..];
      (if HasRequestBodyRoot(actions[0]) then [InputRoot(refl, actions[0])] else []) + InputRoots(refl, actions[1..])
  }

  /** The output types of the actions that have one. */
  function OutputTypes(actions: seq<ActionCall>): (r: seq<TypeId>)
    ensures forall t :: t in r <==> exists a <- actions :: a.outputType == Some(t)
  {
    if actions == [] then []
    else
      assert forall a <- actions :: a == actions[0] || a in actions[1..];
      (if actions[0].HasOutput() then [actions[0].outputType.value] else []) + OutputTypes(actions[1..])
  }

  /** One response root per type of `ts`, in order. */
  function OutputRootsOf(refl: Reflection, ts: seq<TypeId>): (r: seq<TypeContext>)
    ensures |r| == |ts|
    ensures forall c :: c in r <==> exists t <- ts :: c == OutputRoot(refl, t)
    ensures forall i :: 0 <= i < |ts| ==> r[i] == OutputRoot(refl, ts[i])
  {
    if ts == [] then []
    else
      assert forall t <- ts :: t == ts[0] || t in ts[1..];
      [OutputRoot(refl, ts[0])] + OutputRootsOf(refl, ts[1..])
  }

  /** The response roots: each distinct output type once, scoped to no action (lines 125-127). */
  function OutputRoots(refl: Reflection, actions: seq<ActionCall>): (r: seq<TypeContext>)
    ensures forall c :: c in r <==> exists a <- actions :: a.HasOutput() && c == OutputRoot(refl, a.outputType.value)
  {
    OutputRootsOf(refl, Linq.Distinct(OutputTypes(actions)))
  }

  function RootTypes(refl: Reflection, actions: seq<ActionCall>): seq<TypeContext>
  {
    InputRoots(refl, actions) + OutputRoots(refl, actions)
  }

  /** `rootTypes.SelectMany(GetTypes)`. */
  function WalkAll(refl: Reflection, roots: seq<TypeContext>): seq<TypeContext>
  {
    if roots == [] then [] else Walk(refl, roots[0]) + WalkAll(refl, roots[1..])
  }

  lemma {:induction false} WalkAllMembers(refl: Reflection, roots: seq<TypeContext>, d: TypeContext)
    ensures d in WalkAll(refl, roots) <==> exists c <- roots :: d in Walk(refl, c)
  {
    if roots != [] {
      WalkAllMembers(refl, roots[1..], d);
      assert WalkAll(refl, roots) == Walk(refl, roots[0]) + WalkAll(refl, roots[1..]);
      if d in WalkAll(refl, roots) {
        if d in Walk(refl, roots[0]) {
          assert roots[0] in roots;
        } else {
          var c :| c in roots[1..] && d in Walk(refl, c);
          assert c in roots;
        }
      }
      if exists c <- roots :: d in Walk(refl, c) {
        var c :| c in roots && d in Walk(refl, c);
        if c != roots[0] {
          assert c in roots[1..];
        }
      }
    }
  }

  /** What the catalog is deduplicated by: the type and the action scoping its identifier. */
  datatype TypeKey = TypeKey(typeId: TypeId, action: Option<ActionCall>)

  function KeysOf(cs: seq<TypeContext>): (r: seq<TypeKey>)
    ensures forall k :: k in r <==> exists c <- cs :: TypeKey(c.typeId, c.action) == k
  {
    if cs == [] then []
    else
      assert forall c <- cs :: c == cs[0] || c in cs[1..];
      [TypeKey(cs[0].typeId, cs[0].action)] + KeysOf(cs[1..])
  }

  /** The roots, then everything walked from them, deduplicated by `(Type, Action)` (lines 129-131). */
  function CatalogKeys(refl: Reflection, actions: seq<ActionCall>): (r: seq<TypeKey>)
    ensures Linq.NoDuplicates(r)
  {
    var roots := RootTypes(refl, actions);
    Linq.Distinct(KeysOf(roots + WalkAll(refl, roots)))
  }

  /** A catalog key is a request-body root under its action, an output root, or a walked type. */
  ghost predicate CatalogEntry(refl: Reflection, actions: seq<ActionCall>, k: TypeKey)
  {
    (k.action.Some? && k.action.value in actions && HasRequestBodyRoot(k.action.value) &&
     k.typeId == refl.ElementOrSelf(k.action.value.inputType.value)) ||
    (k.action.None? &&
     ((exists a <- actions :: a.HasOutput() && k.typeId == refl.ElementOrSelf(a.outputType.value)) ||
      (exists c <- RootTypes(refl, actions), d <- Walk(refl, c) :: d.typeId == k.typeId)))
  }

  lemma CatalogKeysSound(refl: Reflection, actions: seq<ActionCall>, k: TypeKey)
    requires k in CatalogKeys(refl, actions)
    ensures CatalogEntry(refl, actions, k)
  {
    var roots := RootTypes(refl, actions);
    var all := roots + WalkAll(refl, roots);
    var c :| c in all && TypeKey(c.typeId, c.action) == k;
    assert c in roots || c in WalkAll(refl, roots);
    if c in WalkAll(refl, roots) {
      WalkAllMembers(refl, roots, c);
      var root :| root in roots && c in Walk(refl, root);
      WalkSound(refl, root);
      assert Discovered(refl, c);
      assert k.action.None?;
      assert exists c' <- roots, d <- Walk(refl, c') :: d.typeId == k.typeId;
    } else if c in InputRoots(refl, actions) {
      var a :| a in actions && HasRequestBodyRoot(a) && c == InputRoot(refl, a);
    } else {
      assert c in OutputRoots(refl, actions);
      var a :| a in actions && a.HasOutput() && c == OutputRoot(refl, a.outputType.value);
      assert k.action.None?;
    }
  }

  lemma CatalogKeysComplete(refl: Reflection, actions: seq<ActionCall>, k: TypeKey)
    requires CatalogEntry(refl, actions, k)
    ensures k in CatalogKeys(refl, actions)
  {
    var roots := RootTypes(refl, actions);
    var all := roots + WalkAll(refl, roots);
    var c: TypeContext;
    if k.action.Some? {
      var a := k.action.value;
      assert a in actions && HasRequestBodyRoot(a) && k.typeId == refl.ElementOrSelf(a.inputType.value);
      c := InputRoot(refl, a);
      assert c in InputRoots(refl, actions);
    } else if exists a <- actions :: a.HasOutput() && k.typeId == refl.ElementOrSelf(a.outputType.value) {
      var a :| a in actions && a.HasOutput() && k.typeId == refl.ElementOrSelf(a.outputType.value);
      c := OutputRoot(refl, a.outputType.value);
      assert c in OutputRoots(refl, actions);
    } else {
      var root, d :| root in roots && d in Walk(refl, root) && d.typeId == k.typeId;
      WalkSound(refl, root);
      assert Discovered(refl, d);
      WalkAllMembers(refl, roots, d);
      c := d;
    }
    assert c in all;
    assert TypeKey(c.typeId, c.action) == k;
  }

  /**
   * The catalog holds exactly: each request-body root under its own
   * action, each output root unscoped, and each walked type unscoped.
   */
  lemma CatalogKeysExactly(refl: Reflection, actions: seq<ActionCall>, k: TypeKey)
    ensures k in CatalogKeys(refl, actions) <==> CatalogEntry(refl, actions, k)
  {
    if k in CatalogKeys(refl, actions) {
      CatalogKeysSound(refl, actions, k);
    }
    if CatalogEntry(refl, actions, k) {
      CatalogKeysComplete(refl, actions, k);
    }
  }

  /** Actions sharing an output type contribute one catalog entry for it, not one each. */
  lemma SharedOutputCatalogedOnce(refl: Reflection, actions: seq<ActionCall>, a: ActionCall)
    requires a in actions && a.HasOutput()
    ensures multiset(CatalogKeys(refl, actions))[TypeKey(refl.ElementOrSelf(a.outputType.value), None)] == 1
  {
    CatalogKeysExactly(refl, actions, TypeKey(refl.ElementOrSelf(a.outputType.value), None));
    Linq.NoDuplicatesOccurOnce(CatalogKeys(refl, actions), TypeKey(refl.ElementOrSelf(a.outputType.value), None));
  }

  // ---- A cycle: A has a B, B has an A ----

  const CycleRegistry := Reflection(
    map["A" := TypeInfo(false, false, false, None, None, [Property("b", "B", false, false)], []),
        "B" := TypeInfo(false, false, false, None, None, [Property("a", "A", false, false)], [])],
    (p, x) => false, (p, x) => false, t => t)

  const CycleAction := ActionCall(HandlerType("Api.Handler", "Api", "Api.dll", false), MethodInfo("Get", false),
    Route("a", ["GET"], []), None, Some("A"))

  /** A type with one traversable property has one child: that property's context. */
  lemma OnlyChild(refl: Reflection, c: TypeContext, p: Property)
    requires refl.PropertiesOf(c.typeId) == [p] && Traversable(refl, p)
    ensures Children(refl, c) == [ChildOf(refl, c, p)]
  {
    assert [p][1..] == [];
    assert ChildContexts(refl, c, [p]) == [ChildOf(refl, c, p)] + ChildContexts(refl, c, []);
    assert Linq.Distinct([ChildOf(refl, c, p)]) == [ChildOf(refl, c, p)] by {
      assert [ChildOf(refl, c, p)][..0] == [];
    }
  }

  lemma CycleChildren()
    ensures Children(CycleRegistry, TypeContext("A", [], None)) == [TypeContext("B", ["A"], None)]
    ensures Children(CycleRegistry, TypeContext("B", ["A"], None)) == [TypeContext("A", ["B", "A"], None)]
  {
    var refl := CycleRegistry;
    var a := Property("b", "B", false, false);
    var b := Property("a", "A", false, false);
    assert refl.PropertiesOf("A") == [a] && refl.PropertiesOf("B") == [b];
    assert TypeContext("A", [], None).Chain() == ["A"];
    assert TypeContext("B", ["A"], None).Chain() == ["B", "A"];
    OnlyChild(refl, TypeContext("A", [], None), a);
    OnlyChild(refl, TypeContext("B", ["A"], None), b);
  }

  /** Below a type with one child whose type is already on the chain, the walk yields that child alone. */
  lemma WalkStopsAtChain(refl: Reflection, c: TypeContext, k: TypeContext)
    requires Children(refl, c) == [k] && k.typeId in c.Chain()
    ensures Walk(refl, c) == [k]
  {
    ChildrenDiscovered(refl, c);
    assert [k][1..] == [];
    assert WalkEach(refl, c, [k]) == [] + WalkEach(refl, c, []);
    assert [k] + [] == [k];
    assert Linq.Distinct([k]) == [k] by {
      assert [k][..0] == [];
    }
  }

  /** Below a type with one child whose type is new to the chain, the walk yields that child, then the walk below it. */
  lemma WalkEntersChild(refl: Reflection, c: TypeContext, k: TypeContext)
    requires Children(refl, c) == [k] && k.typeId !in c.Chain()
    ensures Walk(refl, c) == Linq.Distinct([k] + Walk(refl, k))
  {
    ChildrenDiscovered(refl, c);
    assert WalkEach(refl, c, [k]) == Walk(refl, k) by {
      assert [k][1..] == [];
      assert WalkEach(refl, c, [k]) == Walk(refl, k) + WalkEach(refl, c, []);
      assert Walk(refl, k) + [] == Walk(refl, k);
    }
    assert Walk(refl, c) == Linq.Distinct(Children(refl, c) + WalkEach(refl, c, Children(refl, c)));
  }

  /** Below B, the walk meets A, which is already on B's chain, and stops. */
  lemma CycleWalkBelowB()
    ensures Walk(CycleRegistry, TypeContext("B", ["A"], None)) == [TypeContext("A", ["B", "A"], None)]
  {
    CycleChildren();
    assert TypeContext("B", ["A"], None).Chain() == ["B", "A"];
    WalkStopsAtChain(CycleRegistry, TypeContext("B", ["A"], None), TypeContext("A", ["B", "A"], None));
  }

  lemma DistinctPair<T(!new)>(x: T, y: T)
    requires x != y
    ensures Linq.Distinct([x, y]) == [x, y]
  {
    assert [x, y][..1] == [x];
    assert [x][..0] == [];
  }

  /** The walk from A enters B, meets A again below B and stops there. */
  lemma CycleWalk()
    ensures Walk(CycleRegistry, TypeContext("A", [], None)) == [TypeContext("B", ["A"], None), TypeContext("A", ["B", "A"], None)]
  {
    var rootA := TypeContext("A", [], None);
    var ctxB := TypeContext("B", ["A"], None);
    var ctxA := TypeContext("A", ["B", "A"], None);
    CycleChildren();
    assert rootA.Chain() == ["A"];
    CycleWalkBelowB();
    WalkEntersLeaf(CycleRegistry, rootA, ctxB, ctxA);
  }

  /** Below a type with one new child whose walk yields one other context, the walk yields both. */
  lemma WalkEntersLeaf(refl: Reflection, c: TypeContext, k: TypeContext, leaf: TypeContext)
    requires Children(refl, c) == [k] && k.typeId !in c.Chain()
    requires Walk(refl, k) == [leaf] && leaf != k
    ensures Walk(refl, c) == [k, leaf]
  {
    WalkEntersChild(refl, c, k);
    assert [k] + [leaf] == [k, leaf];
    DistinctPair(k, leaf);
  }

  /** One action without a request body has one root: its output type. */
  lemma OnlyOutputRoot(refl: Reflection, a: ActionCall)
    requires !HasRequestBodyRoot(a) && a.HasOutput()
    ensures RootTypes(refl, [a]) == [OutputRoot(refl, a.outputType.value)]
  {
    assert [a][1..] == [];
    assert InputRoots(refl, [a]) == [] + InputRoots(refl, []);
    assert OutputTypes([a]) == [a.outputType.value] + OutputTypes([]);
    assert Linq.Distinct([a.outputType.value]) == [a.outputType.value] by {
      assert [a.outputType.value][..0] == [];
    }
  }

  lemma CycleRoots()
    ensures RootTypes(CycleRegistry, [CycleAction]) == [TypeContext("A", [], None)]
  {
    assert AllowsGet(CycleAction.route);
    OnlyOutputRoot(CycleRegistry, CycleAction);
    assert CycleRegistry.ElementOrSelf("A") == "A";
  }

  lemma CycleKeys()
    ensures KeysOf([TypeContext("A", [], None), TypeContext("B", ["A"], None), TypeContext("A", ["B", "A"], None)]) ==
      [TypeKey("A", None), TypeKey("B", None), TypeKey("A", None)]
  {
    var cs := [TypeContext("A", [], None), TypeContext("B", ["A"], None), TypeContext("A", ["B", "A"], None)];
    assert cs[1..][1..][1..] == [];
  }

  lemma CycleKeysDistinct()
    ensures Linq.Distinct([TypeKey("A", None), TypeKey("B", None), TypeKey("A", None)]) == [TypeKey("A", None), TypeKey("B", None)]
  {
    var ks := [TypeKey("A", None), TypeKey("B", None), TypeKey("A", None)];
    assert ks[..2] == [TypeKey("A", None), TypeKey("B", None)];
    assert ks[..2][..1] == [TypeKey("A", None)];
    assert ks[..2][..1][..0] == [];
  }

  /** Reached from one action's output, A and B are each cataloged once. */
  lemma CycleCatalogedOnce()
    ensures CatalogKeys(CycleRegistry, [CycleAction]) == [TypeKey("A", None), TypeKey("B", None)]
  {
    var rootA := TypeContext("A", [], None);
    var ctxB := TypeContext("B", ["A"], None);
    var ctxA := TypeContext("A", ["B", "A"], None);
    calc {
      CatalogKeys(CycleRegistry, [CycleAction]);
      { CycleRoots(); CycleWalkAll(); CatalogKeysOfWalk(CycleRegistry, [CycleAction], [rootA], [ctxB, ctxA]); }
      Linq.Distinct(KeysOf([rootA] + [ctxB, ctxA]));
      { assert [rootA] + [ctxB, ctxA] == [rootA, ctxB, ctxA]; }
      Linq.Distinct(KeysOf([rootA, ctxB, ctxA]));
      { CycleKeys(); }
      Linq.Distinct([TypeKey("A", None), TypeKey("B", None), TypeKey("A", None)]);
      { CycleKeysDistinct(); }
      [TypeKey("A", None), TypeKey("B", None)];
    }
  }

  lemma CatalogKeysOfWalk(refl: Reflection, actions: seq<ActionCall>, roots: seq<TypeContext>, walked: seq<TypeContext>)
    requires RootTypes(refl, actions) == roots && WalkAll(refl, roots) == walked
    ensures CatalogKeys(refl, actions) == Linq.Distinct(KeysOf(roots + walked))
  {
  }

  lemma CycleWalkAll()
    ensures WalkAll(CycleRegistry, [TypeContext("A", [], None)]) == [TypeContext("B", ["A"], None), TypeContext("A", ["B", "A"], None)]
  {
    CycleWalk();
    assert [TypeContext("A", [], None)][1..] == [];
  }
}
