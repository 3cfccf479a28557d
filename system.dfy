/** The composition root: `System<Modules...>` owns one instance of every
    module type, links every accessor back to itself, looks instances up by
    type and forwards capability requests to the resolved provider.
 */
module Composition {
  import opened Declarations
  import Partition
  import Resolver

  /** The reference a provider's own `interface<I>()` returns. Its body is
      written by the module's author, so it is identified here by the slot of
      the provider instance and the capability asked for. */
  datatype InterfaceRef = InterfaceRef(provider: nat, cap: Cap)

  /** The outcome of a step that returns nothing but may be rejected. */
  datatype Outcome = Pass | Fail(error: ConfigError)

  /** Slot `i` holds the only module of type `t`. */
  predicate SoleOfType(ms: seq<ModuleDecl>, t: TypeId, i: int)
  {
    && 0 <= i < |ms|
    && ms[i].id == t
    && forall j :: 0 <= j < |ms| && ms[j].id == t ==> j == i
  }

  /** The first slot holding a module of type `t`. */
  function FirstOfType(ms: seq<ModuleDecl>, t: TypeId): (r: Option<nat>)
    ensures r.None? <==> forall i :: 0 <= i < |ms| ==> ms[i].id != t
    ensures r.Some? ==> r.value < |ms| && ms[r.value].id == t
                        && forall j :: 0 <= j < r.value ==> ms[j].id != t
  {
    if ms == [] then None
    else if ms[0].id == t then Some(0)
    else match FirstOfType(ms[1..], t)
      case None => assert forall i :: 1 <= i < |ms| ==> ms[i] == ms[1..][i - 1]; None
      case Some(i) => assert ms[i + 1] == ms[1..][i]; Some(i + 1)
  }

  /** `std::get<T>` on the module tuple: well-formed only when `T` occurs
      exactly once. */
  function GetIndex(ms: seq<ModuleDecl>, t: TypeId): (r: Result<nat>)
    ensures r.Ok? ==> SoleOfType(ms, t, r.value)
    ensures r.Err? ==>
              (r.error == TypeNotInAssembly(t) && forall i :: 0 <= i < |ms| ==> ms[i].id != t)
              || (r.error == AmbiguousType(t) && exists i, j :: 0 <= i < j < |ms| && ms[i].id == t && ms[j].id == t)
  {
    match FirstOfType(ms, t)
    case None => Err(TypeNotInAssembly(t))
    case Some(i) =>
      match FirstOfType(ms[i + 1..], t)
      case Some(j) => assert ms[i + 1 + j] == ms[i + 1..][j]; Err(AmbiguousType(t))
      case None =>
        assert forall j :: i < j < |ms| ==> ms[j] == ms[i + 1..][j - i - 1];
        Ok(i)
  }

  /** `std::get<T>` is well-formed exactly when `T` occurs once. */
  lemma GetIndexOk(ms: seq<ModuleDecl>, t: TypeId, i: nat)
    requires SoleOfType(ms, t, i)
    ensures GetIndex(ms, t) == Ok(i)
  {
  }

  /** The `std::get` of every accessor type in `makeLinksTo`'s fold. */
  function CheckAccessors(ms: seq<ModuleDecl>, accs: seq<ModuleDecl>): (r: Outcome)
    ensures r.Pass? <==> forall k :: 0 <= k < |accs| ==> GetIndex(ms, accs[k].id).Ok?
  {
    if accs == [] then Pass
    else match GetIndex(ms, accs[0].id)
      case Err(e) => Fail(e)
      case Ok(_) =>
        assert forall k :: 1 <= k < |accs| ==> accs[k] == accs[1..][k - 1];
        CheckAccessors(ms, accs[1..])
  }

  /** Whether `linkModules` can be formed for the assembly `ms`: the module
      list is non-empty (`filterModules<>`), the accessor list is non-empty
      (`AccessorsList<>` has no `makeLinksTo`) and every accessor type can be
      fetched with `std::get`. */
  function LinkCheck(ms: seq<ModuleDecl>): Outcome
  {
    if ms == [] then Fail(EmptyAssembly)
    else
      var accs := Partition.FilterModules(ms).accessors;
      if accs == [] then Fail(NoAccessors) else CheckAccessors(ms, accs)
  }

  /** The assembly can be linked exactly when it has an accessor and every
      accessor is the only module of its type. */
  predicate Linkable(ms: seq<ModuleDecl>)
  {
    && (exists i :: 0 <= i < |ms| && IsAccessor(ms[i]))
    && forall i :: 0 <= i < |ms| && IsAccessor(ms[i]) ==> SoleOfType(ms, ms[i].id, i)
  }

  lemma LinkCheckPasses(ms: seq<ModuleDecl>)
    ensures LinkCheck(ms).Pass? <==> Linkable(ms)
    ensures ms == [] ==> LinkCheck(ms) == Fail(EmptyAssembly)
    ensures ms != [] && (forall i :: 0 <= i < |ms| ==> !IsAccessor(ms[i])) ==> LinkCheck(ms) == Fail(NoAccessors)
  {
    if ms != [] {
      var accs := Partition.FilterModules(ms).accessors;
      Partition.BothOrNeither(ms);
      if i :| 0 <= i < |ms| && IsAccessor(ms[i]) {
        assert ms[i] in accs;
      }
      if accs != [] {
        assert accs[0] in ms;
        if LinkCheck(ms).Pass? {
          forall i | 0 <= i < |ms| && IsAccessor(ms[i])
            ensures SoleOfType(ms, ms[i].id, i)
          {
            assert ms[i] in accs;
            var k :| 0 <= k < |accs| && accs[k] == ms[i];
            assert GetIndex(ms, accs[k].id).Ok?;
          }
        }
        if Linkable(ms) {
          forall k | 0 <= k < |accs|
            ensures GetIndex(ms, accs[k].id).Ok?
          {
            assert accs[k] in ms;
            var i :| 0 <= i < |ms| && ms[i] == accs[k];
            GetIndexOk(ms, accs[k].id, i);
          }
        }
      }
    }
  }

  /** The slot `std::get` finds for a module's type holds that module and no
      other slot holds it. */
  lemma SlotOfModule(ms: seq<ModuleDecl>, m: ModuleDecl, slot: nat)
    requires m in ms && SoleOfType(ms, m.id, slot)
    ensures ms[slot] == m
    ensures forall i :: 0 <= i < |ms| && i != slot ==> ms[i] != m
  {
  }

  /** The slot `std::get` finds for `m`'s type holds `m` and no other slot does. */
  predicate AccessorAt(ms: seq<ModuleDecl>, m: ModuleDecl)
  {
    && GetIndex(ms, m.id).Ok?
    && ms[GetIndex(ms, m.id).value] == m
    && forall i :: 0 <= i < |ms| && i != GetIndex(ms, m.id).value ==> ms[i] != m
  }

  /** What linking relies on: once it is well-formed, every listed accessor
      sits in the slot `std::get` finds for it, and the listed accessors are
      exactly the accessors of the assembly. */
  lemma AccessorSlots(ms: seq<ModuleDecl>)
    requires LinkCheck(ms).Pass?
    ensures |ms| > 0
    ensures var accs := Partition.FilterModules(ms).accessors;
      && (forall k :: 0 <= k < |accs| ==> AccessorAt(ms, accs[k]))
      && (forall i :: 0 <= i < |ms| ==> (ms[i] in accs <==> IsAccessor(ms[i])))
  {
    var accs := Partition.FilterModules(ms).accessors;
    Partition.BothOrNeither(ms);
    forall k | 0 <= k < |accs|
      ensures AccessorAt(ms, accs[k])
    {
      assert accs[k] in accs;
      SlotOfModule(ms, accs[k], GetIndex(ms, accs[k].id).value);
    }
  }

  /** `System<Modules...>`: the tuple of module instances, seen through the
      one piece of state the framework writes into them. */
  class System {
    /** The module types of the tuple, in declaration order. */
    const modules: seq<ModuleDecl>
    /** `m_provider` of the instance in each slot; `null` until it is linked.
        Only accessor instances have the field; other slots are never written. */
    const links: array<System?>

    /** One `m_provider` per instance, and a set one can only point at this
        root: linking never stores any other root. */
    ghost predicate Valid()
      reads links
    {
      && links.Length == |modules|
      && forall i :: 0 <= i < links.Length ==> links[i] == null || links[i] == this
    }

    /** Constructing the root constructs every module instance in declaration
        order; none is linked yet. */
    constructor (ms: seq<ModuleDecl>)
      ensures Valid() && modules == ms && fresh(links)
      ensures forall i :: 0 <= i < links.Length ==> links[i] == null
    {
      modules := ms;
      links := new System?[|ms|](_ => null);
    }

    /** Every accessor instance's `m_provider` points at this root. */
    predicate Linked()
      requires Valid()
      reads links
    {
      forall i :: 0 <= i < |modules| && IsAccessor(modules[i]) ==> links[i] == this
    }

    /** `makeLink(provider, accessor)`, i.e. `accessor.linkTo(provider)`:
        store the root in the accessor's `m_provider`. */
    method MakeLink(slot: nat)
      requires Valid() && slot < |modules|
      modifies links
      ensures Valid()
      ensures links[slot] == this
      ensures forall i :: 0 <= i < links.Length && i != slot ==> links[i] == old(links[i])
    {
      links[slot] := this;
    }

    /** `AccessorsList<Ts...>::makeLinksTo`: a fold over the accessor types
        that links the instance `std::get` finds for each of them. */
    method MakeLinksTo(accs: seq<ModuleDecl>)
      requires Valid()
      requires forall k :: 0 <= k < |accs| ==> AccessorAt(modules, accs[k])
      modifies links
      ensures Valid()
      ensures forall i :: 0 <= i < |modules| ==>
                links[i] == if modules[i] in accs then this else old(links[i])
    {
      for k := 0 to |accs|
        invariant Valid()
        invariant forall i :: 0 <= i < |modules| ==>
                    links[i] == if modules[i] in accs[..k] then this else old(links[i])
      {
        var slot := GetIndex(modules, accs[k].id).value;
        assert accs[..k + 1] == accs[..k] + [accs[k]];
        MakeLink(slot);
      }
      assert accs[..|accs|] == accs;
    }

    /** `linkModules`: `makeLinksTo` over the accessor list. Rejected as a
        whole, with nothing written, when it cannot be formed. */
    method LinkModules() returns (r: Outcome)
      requires Valid()
      modifies links
      ensures Valid()
      ensures r == LinkCheck(modules)
      ensures forall i :: 0 <= i < |modules| ==>
                links[i] == if r.Pass? && IsAccessor(modules[i]) then this else old(links[i])
      ensures r.Pass? ==> Linked()
      ensures old(Linked()) ==> forall i :: 0 <= i < |modules| ==> links[i] == old(links[i])
    {
      r := LinkCheck(modules);
      if r.Fail? {
        return;
      }
      var accs := Partition.FilterModules(modules).accessors;
      AccessorSlots(modules);
      MakeLinksTo(accs);
    }

    /** `getModule<T>`: the slot of the single instance of type `T`. */
    function GetModule(t: TypeId): (r: Result<nat>)
      ensures r.Ok? <==> exists i :: SoleOfType(modules, t, i)
      ensures r.Ok? ==> SoleOfType(modules, t, r.value)
    {
      var r := GetIndex(modules, t);
      if r.Err? then r
      else assert SoleOfType(modules, t, r.value); r
    }

    /** `access<I>` of the root: resolve `I` against the provider list and
        hand back what the chosen provider's `interface<I>()` returns. */
    function Access(c: Cap): (r: Result<InterfaceRef>)
      ensures r.Ok? ==> r.value.cap == c && Resolver.FirstMatchAt(modules, c, r.value.provider)
      ensures r.Err? <==>
                (forall i :: 0 <= i < |modules| ==> !IsLnkProviderFor(modules[i], c))
                || (exists i :: Resolver.FirstMatchAt(modules, c, i) && !SoleOfType(modules, modules[i].id, i))
      ensures modules == [] ==> r == Err(EmptyAssembly)
      ensures modules != [] && (forall i :: 0 <= i < |modules| ==> !IsProvider(modules[i])) ==> r == Err(NoProviders)
      ensures && (exists i :: 0 <= i < |modules| && IsProvider(modules[i]))
              && (forall i :: 0 <= i < |modules| ==> !IsLnkProviderFor(modules[i], c))
              ==> r == Err(Unresolved(c))
      ensures forall i :: Resolver.FirstMatchAt(modules, c, i) && !SoleOfType(modules, modules[i].id, i)
                ==> r == Err(AmbiguousType(modules[i].id))
    {
      if modules == [] then Err(EmptyAssembly)
      else
        Resolver.ResolveInAssembly(modules, c);
        Resolver.FirstMatchUnique(modules, c);
        match Resolver.ResolveProvider(Partition.FilterModules(modules).providers, c)
        case Err(e) => Err(e)
        case Ok(m) =>
          match GetIndex(modules, m.id)
          case Err(e) => Err(e)
          case Ok(slot) => Ok(InterfaceRef(slot, c))
    }

    /** `InterfaceAccesor::access<I>` of the accessor in `slot`: only a
        declared `I` may be asked for, and the request goes through the
        stored `m_provider`, which can only be this root. Calling it before
        linking is undefined. */
    function AccessorAccess(slot: nat, c: Cap): (r: Result<InterfaceRef>)
      requires Valid() && slot < |modules| && IsAccessor(modules[slot])
      requires links[slot] != null
      reads links
      ensures c !in modules[slot].required ==> r == Err(NotAllowedInterface(c))
      ensures c in modules[slot].required ==> r == Access(c)
    {
      if !IsAllowed(modules[slot], c) then Err(NotAllowedInterface(c))
      else links[slot].Access(c)
    }
  }
}
