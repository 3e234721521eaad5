/**
 * The item registry of the core module: which view type an item class is
 * shown with, and which layout and item definition a view type uses.
 */
module ItemGraph {
  import opened Common

  /**
   * An item definition as the registry sees it: the item class it binds,
   * whether it supplies a stable-id getter, and whether it has a recycle hook.
   */
  datatype ItemDef = ItemDef(itemClassName: string, hasIdGetter: bool, hasRecycler: bool)

  /** The registry's three maps. Layouts are Android layout resource ids. */
  datatype Graph = Graph(
    typeToLayout: map<int, int>,
    typeToDefinition: map<int, ItemDef>,
    classToType: map<string, int>)

  /** One `register(layoutRes, definition)` call. */
  datatype Registration = Registration(layout: int, definition: ItemDef)

  const EmptyGraph: Graph := Graph(map[], map[], map[])

  const StableIdsMessage: string := "If you specify that one item type has stable IDs, all item types must."

  /** Message of Kotlin's `check(condition)` when it is given no message. */
  const CheckFailedMessage: string := "Check failed."

  lemma NonEmptyHasMember(s: set<int>)
    requires s != {}
    ensures exists x :: x in s
  {
    if forall x :: x !in s {
      assert false;
    }
  }

  lemma {:induction false} MaxExists(keys: set<int>)
    requires keys != {}
    ensures exists m :: m in keys && forall k :: k in keys ==> k <= m
    decreases |keys|
  {
    NonEmptyHasMember(keys);
    var x :| x in keys;
    if keys == {x} {
      assert forall k :: k in keys ==> k <= x;
    } else {
      var rest := keys - {x};
      MaxExists(rest);
      var m :| m in rest && forall k :: k in rest ==> k <= m;
      var top := if x <= m then m else x;
      forall k | k in keys
        ensures k <= top
      {
        if k != x {
          assert k in rest;
        }
      }
      assert top in keys;
    }
  }

  /** `keys.max() ?: 0`. */
  function MaxOrZero(keys: set<int>): (m: int)
    ensures keys == {} ==> m == 0
    ensures keys != {} ==> m in keys
    ensures forall k :: k in keys ==> k <= m
  {
    if keys == {} then 0
    else
      MaxExists(keys);
      var m :| m in keys && forall k :: k in keys ==> k <= m;
      m
  }

  /** The view type the next `register` call assigns: one more than the largest so far. */
  function NextType(g: Graph): (t: int)
    ensures t !in g.typeToLayout
    ensures forall k :: k in g.typeToLayout ==> k < t
    ensures g.typeToLayout == map[] ==> t == 1
  {
    MaxOrZero(g.typeToLayout.Keys) + 1
  }

  /**
   * `register`: a fresh view type gets the layout and the definition, and the
   * definition's class name now maps to it (replacing any earlier type).
   * Nothing else in the registry changes.
   */
  function Register(g: Graph, layout: int, def: ItemDef): (r: Graph)
    ensures NextType(g) in r.typeToLayout && r.typeToLayout[NextType(g)] == layout
    ensures NextType(g) in r.typeToDefinition && r.typeToDefinition[NextType(g)] == def
    ensures def.itemClassName in r.classToType && r.classToType[def.itemClassName] == NextType(g)
  {
    var itemType := NextType(g);
    Graph(
      g.typeToLayout[itemType := layout],
      g.typeToDefinition[itemType := def],
      g.classToType[def.itemClassName := itemType])
  }

  /** `register` adds exactly one view type, and the definition's class. */
  lemma RegisterKeys(g: Graph, layout: int, def: ItemDef)
    ensures Register(g, layout, def).typeToLayout.Keys == g.typeToLayout.Keys + {NextType(g)}
    ensures Register(g, layout, def).typeToDefinition.Keys == g.typeToDefinition.Keys + {NextType(g)}
    ensures Register(g, layout, def).classToType.Keys == g.classToType.Keys + {def.itemClassName}
  {
  }

  function LayoutForType(g: Graph, t: int): (r: Result<int>)
    ensures r.Ok? <==> t in g.typeToLayout
    ensures r.Ok? ==> r.value == g.typeToLayout[t]
    ensures r.Err? ==> r.error == IllegalState("Didn't find layout for type " + IntToString(t))
  {
    if t in g.typeToLayout then Ok(g.typeToLayout[t])
    else Err(IllegalState("Didn't find layout for type " + IntToString(t)))
  }

  function DefinitionForType(g: Graph, t: int): (r: Result<ItemDef>)
    ensures r.Ok? <==> t in g.typeToDefinition
    ensures r.Ok? ==> r.value == g.typeToDefinition[t]
    ensures r.Err? ==> r.error == IllegalState("Didn't find any definitions for type " + IntToString(t))
  {
    if t in g.typeToDefinition then Ok(g.typeToDefinition[t])
    else Err(IllegalState("Didn't find any definitions for type " + IntToString(t)))
  }

  function TypeForName(g: Graph, name: string): (r: Result<int>)
    ensures r.Ok? <==> name in g.classToType
    ensures r.Ok? ==> r.value == g.classToType[name]
    ensures r.Err? ==> r.error == IllegalState("Didn't find item type for class " + name)
  {
    if name in g.classToType then Ok(g.classToType[name])
    else Err(IllegalState("Didn't find item type for class " + name))
  }

  /** `definitionForName`: the class's type, then that type's definition. */
  function DefinitionForName(g: Graph, name: string): (r: Result<ItemDef>)
    ensures name !in g.classToType ==> r == Err(IllegalState("Didn't find item type for class " + name))
    ensures name in g.classToType ==> r == DefinitionForType(g, g.classToType[name])
  {
    var t :- TypeForName(g, name);
    DefinitionForType(g, t)
  }

  predicate AnyHasStableIds(g: Graph) {
    exists t :: t in g.typeToDefinition && g.typeToDefinition[t].hasIdGetter
  }

  predicate AllHaveStableIds(g: Graph) {
    forall t :: t in g.typeToDefinition ==> g.typeToDefinition[t].hasIdGetter
  }

  lemma AllOfSomeIsAny(g: Graph)
    ensures g.typeToDefinition != map[] && AllHaveStableIds(g) ==> AnyHasStableIds(g)
  {
    if g.typeToDefinition != map[] {
      NonEmptyHasMember(g.typeToDefinition.Keys);
      var t :| t in g.typeToDefinition;
    }
  }

  /**
   * `hasStableIds`: stable ids are all or nothing. True when every definition
   * has an id getter (and there is one), false when none has (including an
   * empty registry), an IllegalArgumentException for a mix.
   */
  function HasStableIds(g: Graph): (r: Result<bool>)
    ensures r == Ok(true) <==>
      g.typeToDefinition != map[] && forall t :: t in g.typeToDefinition ==> g.typeToDefinition[t].hasIdGetter
    ensures r == Ok(false) <==> forall t :: t in g.typeToDefinition ==> !g.typeToDefinition[t].hasIdGetter
    ensures r.Err? <==>
      (exists t :: t in g.typeToDefinition && g.typeToDefinition[t].hasIdGetter) &&
      (exists t :: t in g.typeToDefinition && !g.typeToDefinition[t].hasIdGetter)
    ensures r.Err? ==> r.error == IllegalArgument(StableIdsMessage)
  {
    var anyHave := AnyHasStableIds(g);
    var allHave := AllHaveStableIds(g);
    AllOfSomeIsAny(g);
    if anyHave && !allHave then Err(IllegalArgument(StableIdsMessage)) else Ok(anyHave)
  }

  /**
   * `validate`: an empty registry fails with "No bindings defined."; maps of
   * unequal size fail Kotlin's bare `check`; otherwise the same registry.
   */
  function Validate(g: Graph): (r: Result<Graph>)
    ensures r.Ok? ==> r.value == g
    ensures r.Ok? <==>
      |g.typeToDefinition| != 0 && |g.typeToLayout| == |g.classToType| && |g.typeToDefinition| == |g.classToType|
    ensures |g.typeToDefinition| == 0 ==> r == Err(IllegalState("No bindings defined."))
    ensures |g.typeToDefinition| != 0 && r.Err? ==> r == Err(IllegalState(CheckFailedMessage))
  {
    if |g.typeToDefinition| == 0 then Err(IllegalState("No bindings defined."))
    else if |g.typeToLayout| != |g.classToType| then Err(IllegalState(CheckFailedMessage))
    else if |g.typeToDefinition| != |g.classToType| then Err(IllegalState(CheckFailedMessage))
    else Ok(g)
  }

  /** The registry after the given `register` calls, made in order. */
  function RegisterAll(g: Graph, regs: seq<Registration>): Graph
    decreases |regs|
  {
    if |regs| == 0 then g
    else
      var last := regs[|regs| - 1];
      Register(RegisterAll(g, regs[..|regs| - 1]), last.layout, last.definition)
  }

  /**
   * The registry's consistency: layouts and definitions have the same
   * (positive) types, and every class maps to a type whose definition is for
   * that class.
   */
  ghost predicate WellFormed(g: Graph) {
    && g.typeToLayout.Keys == g.typeToDefinition.Keys
    && (forall t :: t in g.typeToLayout ==> t >= 1)
    && (forall c :: c in g.classToType ==>
          g.classToType[c] in g.typeToDefinition && g.typeToDefinition[g.classToType[c]].itemClassName == c)
  }

  /** After `register` yields type t, the four lookups agree with the call. */
  lemma RegisterLookups(g: Graph, layout: int, def: ItemDef)
    ensures var r := Register(g, layout, def); var t := NextType(g);
      && LayoutForType(r, t) == Ok(layout)
      && DefinitionForType(r, t) == Ok(def)
      && TypeForName(r, def.itemClassName) == Ok(t)
      && DefinitionForName(r, def.itemClassName) == Ok(def)
  {
  }

  lemma RegisterPreservesWellFormed(g: Graph, layout: int, def: ItemDef)
    requires WellFormed(g)
    ensures WellFormed(Register(g, layout, def))
  {
    var r := Register(g, layout, def);
    var t := NextType(g);
    if g.typeToLayout == map[] {
      assert t == 1;
    } else {
      var k :| k in g.typeToLayout;
      assert t > k >= 1;
    }
    forall c | c in r.classToType
      ensures r.classToType[c] in r.typeToDefinition && r.typeToDefinition[r.classToType[c]].itemClassName == c
    {
      if c != def.itemClassName {
        assert g.classToType[c] != t;
      }
    }
  }

  /** The set {1, ..., n}. */
  function TypesUpTo(n: nat): (s: set<int>)
    ensures forall t :: t in s <==> 1 <= t <= n
    ensures |s| == n
  {
    if n == 0 then {} else TypesUpTo(n - 1) + {n}
  }

  lemma NextTypeAfterUpTo(g: Graph, n: nat)
    requires g.typeToLayout.Keys == TypesUpTo(n)
    ensures NextType(g) == n + 1
  {
    if n > 0 {
      assert n in g.typeToLayout;
    }
  }

  /** One more registration extends the types 1..n to 1..n+1. */
  lemma RegisterExtendsTypes(p: Graph, n: nat, layout: int, def: ItemDef)
    requires p.typeToLayout.Keys == TypesUpTo(n)
    requires p.typeToDefinition.Keys == TypesUpTo(n)
    ensures NextType(p) == n + 1
    ensures Register(p, layout, def).typeToLayout.Keys == TypesUpTo(n + 1)
    ensures Register(p, layout, def).typeToDefinition.Keys == TypesUpTo(n + 1)
  {
    NextTypeAfterUpTo(p, n);
    RegisterKeys(p, layout, def);
    assert TypesUpTo(n + 1) == TypesUpTo(n) + {n + 1};
  }

  /** After n `register` calls on a fresh registry the view types are exactly 1..n. */
  lemma {:induction false} RegisterAllTypes(regs: seq<Registration>)
    ensures RegisterAll(EmptyGraph, regs).typeToLayout.Keys == TypesUpTo(|regs|)
    ensures RegisterAll(EmptyGraph, regs).typeToDefinition.Keys == TypesUpTo(|regs|)
    decreases |regs|
  {
    if |regs| > 0 {
      var n := |regs| - 1;
      RegisterAllTypes(regs[..n]);
      RegisterExtendsTypes(RegisterAll(EmptyGraph, regs[..n]), n, regs[n].layout, regs[n].definition);
    }
  }

  /** `RegisterAll` unfolded once: the last call registers on top of the earlier ones. */
  lemma RegisterAllLast(regs: seq<Registration>)
    requires |regs| > 0
    ensures RegisterAll(EmptyGraph, regs) ==
      Register(RegisterAll(EmptyGraph, regs[..|regs| - 1]), regs[|regs| - 1].layout, regs[|regs| - 1].definition)
  {
  }

  /** After n `register` calls on a fresh registry the next type is n + 1. */
  lemma RegisterAllNext(regs: seq<Registration>)
    ensures NextType(RegisterAll(EmptyGraph, regs)) == |regs| + 1
  {
    RegisterAllTypes(regs);
    NextTypeAfterUpTo(RegisterAll(EmptyGraph, regs), |regs|);
  }

  /** After the `register` calls, view type k + 1 holds the k-th call's layout and definition. */
  lemma {:induction false} RegisterAllEntry(regs: seq<Registration>, k: nat)
    requires k < |regs|
    ensures k + 1 in RegisterAll(EmptyGraph, regs).typeToLayout
    ensures k + 1 in RegisterAll(EmptyGraph, regs).typeToDefinition
    ensures RegisterAll(EmptyGraph, regs).typeToLayout[k + 1] == regs[k].layout
    ensures RegisterAll(EmptyGraph, regs).typeToDefinition[k + 1] == regs[k].definition
    decreases |regs|
  {
    var n := |regs| - 1;
    var prefix := regs[..n];
    RegisterAllNext(prefix);
    RegisterAllLast(regs);
    if k < n {
      RegisterAllEntry(prefix, k);
      assert prefix[k] == regs[k];
      RegisterKeepsOtherType(RegisterAll(EmptyGraph, prefix), regs[n].layout, regs[n].definition, k + 1);
    }
  }

  /** `register` leaves the layout and definition of every existing view type alone. */
  lemma RegisterKeepsOtherType(g: Graph, layout: int, def: ItemDef, t: int)
    requires t in g.typeToLayout && t in g.typeToDefinition
    ensures t in Register(g, layout, def).typeToLayout && t in Register(g, layout, def).typeToDefinition
    ensures Register(g, layout, def).typeToLayout[t] == g.typeToLayout[t]
    ensures Register(g, layout, def).typeToDefinition[t] == g.typeToDefinition[t]
  {
  }

  /**
   * The k-th `register` call on a fresh registry (counting from 1) assigns
   * view type k: one more than the largest type so far, so no type is reused.
   */
  lemma RegisterAssignsSequentialTypes(regs: seq<Registration>, k: nat)
    requires k < |regs|
    ensures NextType(RegisterAll(EmptyGraph, regs[..k])) == k + 1
    ensures RegisterAll(EmptyGraph, regs[..k + 1]) ==
      Register(RegisterAll(EmptyGraph, regs[..k]), regs[k].layout, regs[k].definition)
  {
    RegisterAllNext(regs[..k]);
    RegisterAllLast(regs[..k + 1]);
    assert regs[..k + 1][..k] == regs[..k];
  }

  /** The set of class names the registrations use. */
  function NamesOf(regs: seq<Registration>): (s: set<string>)
    ensures forall k :: 0 <= k < |regs| ==> regs[k].definition.itemClassName in s
    ensures forall c :: c in s ==> exists k :: 0 <= k < |regs| && regs[k].definition.itemClassName == c
  {
    set k | 0 <= k < |regs| :: regs[k].definition.itemClassName
  }

  ghost predicate DistinctNames(regs: seq<Registration>) {
    forall i, j :: 0 <= i < j < |regs| ==> regs[i].definition.itemClassName != regs[j].definition.itemClassName
  }

  lemma DistinctPrefix(regs: seq<Registration>, n: nat)
    requires n <= |regs|
    requires DistinctNames(regs)
    ensures DistinctNames(regs[..n])
  {
    var prefix := regs[..n];
    forall i, j | 0 <= i < j < n
      ensures prefix[i].definition.itemClassName != prefix[j].definition.itemClassName
    {
      assert prefix[i] == regs[i] && prefix[j] == regs[j];
    }
  }

  /** Adding one registration adds its class name to the names used. */
  lemma NamesOfLast(regs: seq<Registration>)
    requires |regs| > 0
    ensures NamesOf(regs) == NamesOf(regs[..|regs| - 1]) + {regs[|regs| - 1].definition.itemClassName}
  {
    var prefix := regs[..|regs| - 1];
    forall c | c in NamesOf(regs)
      ensures c in NamesOf(prefix) + {regs[|regs| - 1].definition.itemClassName}
    {
      var k :| 0 <= k < |regs| && regs[k].definition.itemClassName == c;
      if k < |regs| - 1 {
        assert prefix[k] == regs[k];
      }
    }
    forall c | c in NamesOf(prefix)
      ensures c in NamesOf(regs)
    {
      var k :| 0 <= k < |prefix| && prefix[k].definition.itemClassName == c;
      assert prefix[k] == regs[k];
    }
  }

  /** The class map's keys are exactly the class names registered. */
  lemma {:induction false} RegisterAllClasses(regs: seq<Registration>)
    ensures RegisterAll(EmptyGraph, regs).classToType.Keys == NamesOf(regs)
    decreases |regs|
  {
    if |regs| > 0 {
      RegisterAllClasses(regs[..|regs| - 1]);
      RegisterAllLast(regs);
      NamesOfLast(regs);
    }
  }

  /** Distinct class names: as many names as registrations. */
  lemma {:induction false} DistinctNamesCount(regs: seq<Registration>)
    requires DistinctNames(regs)
    ensures |NamesOf(regs)| == |regs|
    decreases |regs|
  {
    if |regs| > 0 {
      var n := |regs| - 1;
      var prefix := regs[..n];
      DistinctPrefix(regs, n);
      DistinctNamesCount(prefix);
      NamesOfLast(regs);
      var name := regs[n].definition.itemClassName;
      assert name !in NamesOf(prefix) by {
        forall c | c in NamesOf(prefix)
          ensures c != name
        {
          var k :| 0 <= k < n && prefix[k].definition.itemClassName == c;
          assert prefix[k] == regs[k];
        }
      }
    }
  }

  /** `register` leaves the view type of every other class alone. */
  lemma RegisterKeepsOtherClass(g: Graph, layout: int, def: ItemDef, c: string)
    requires c in g.classToType && c != def.itemClassName
    ensures c in Register(g, layout, def).classToType
    ensures Register(g, layout, def).classToType[c] == g.classToType[c]
  {
  }

  /** With distinct class names, the k-th call's class maps to view type k + 1. */
  lemma {:induction false} DistinctRegistrationType(regs: seq<Registration>, k: nat)
    requires k < |regs|
    requires DistinctNames(regs)
    ensures regs[k].definition.itemClassName in RegisterAll(EmptyGraph, regs).classToType
    ensures RegisterAll(EmptyGraph, regs).classToType[regs[k].definition.itemClassName] == k + 1
    decreases |regs|
  {
    var n := |regs| - 1;
    var prefix := regs[..n];
    var p := RegisterAll(EmptyGraph, prefix);
    RegisterAllLast(regs);
    if k < n {
      DistinctPrefix(regs, n);
      DistinctRegistrationType(prefix, k);
      assert prefix[k] == regs[k];
      RegisterKeepsOtherClass(p, regs[n].layout, regs[n].definition, regs[k].definition.itemClassName);
    } else {
      RegisterAllNext(prefix);
    }
  }

  /** Registering definitions for distinct classes always passes `validate`. */
  lemma DistinctRegistrationsValidate(regs: seq<Registration>)
    requires |regs| > 0
    requires DistinctNames(regs)
    ensures Validate(RegisterAll(EmptyGraph, regs)) == Ok(RegisterAll(EmptyGraph, regs))
  {
    RegisterAllClasses(regs);
    DistinctNamesCount(regs);
    RegisterAllTypes(regs);
    var g := RegisterAll(EmptyGraph, regs);
    assert |g.classToType| == |g.classToType.Keys|;
    assert |g.typeToLayout| == |g.typeToLayout.Keys|;
    assert |g.typeToDefinition| == |g.typeToDefinition.Keys|;
  }

  /**
   * Two definitions may share one layout: they get distinct types 1 and 2,
   * and every lookup still resolves.
   */
  lemma SharedLayoutGetsDistinctTypes(layout: int, d1: ItemDef, d2: ItemDef)
    requires d1.itemClassName != d2.itemClassName
    ensures var g := Register(Register(EmptyGraph, layout, d1), layout, d2);
      && TypeForName(g, d1.itemClassName) == Ok(1)
      && TypeForName(g, d2.itemClassName) == Ok(2)
      && DefinitionForName(g, d1.itemClassName) == Ok(d1)
      && DefinitionForName(g, d2.itemClassName) == Ok(d2)
      && LayoutForType(g, 1) == Ok(layout)
      && LayoutForType(g, 2) == Ok(layout)
      && Validate(g).Ok?
  {
    var g1 := Register(EmptyGraph, layout, d1);
    assert NextType(EmptyGraph) == 1;
    assert 1 in g1.typeToLayout;
    assert NextType(g1) == 2;
    var g := Register(g1, layout, d2);
    assert g.classToType.Keys == {d1.itemClassName, d2.itemClassName};
    assert g.typeToLayout.Keys == {1, 2};
  }

  /**
   * Registering a second definition for a class already registered leaves
   * fewer class entries than types, so `validate` fails its size check.
   */
  lemma DuplicateClassFailsValidate(l1: int, l2: int, d1: ItemDef, d2: ItemDef)
    requires d1.itemClassName == d2.itemClassName
    ensures var g := Register(Register(EmptyGraph, l1, d1), l2, d2);
      && |g.classToType| == 1
      && |g.typeToLayout| == 2
      && TypeForName(g, d1.itemClassName) == Ok(2)
      && Validate(g) == Err(IllegalState(CheckFailedMessage))
  {
    var g1 := Register(EmptyGraph, l1, d1);
    assert NextType(EmptyGraph) == 1;
    assert 1 in g1.typeToLayout;
    assert NextType(g1) == 2;
    var g := Register(g1, l2, d2);
    assert g.classToType.Keys == {d1.itemClassName};
    assert g.typeToLayout.Keys == {1, 2};
  }
}
