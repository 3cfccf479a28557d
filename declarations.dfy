/** Capabilities ("interfaces"), module declarations and the two role labels.

    In the C++ header a module is a type that inherits from
    `InterfaceProvider<I...>` and/or `InterfaceAccesor<System, I...>`; here a
    module is the value of its declaration: a type identity and the two lists
    of capabilities it provides and requires (an absent role is an empty list).
 */
module Declarations {

  /** A capability: a tag with identity only. */
  type Cap = nat

  /** The identity of a module's type; `std::get<T>` looks instances up by it. */
  type TypeId = nat

  datatype Option<+T> = None | Some(value: T)

  /** Every way an assembly is rejected. In the original each is a compile-time
      failure (a `static_assert`, a missing member or an ill-formed `std::get`). */
  datatype ConfigError =
    | NoInterfacesProvided          // InterfaceProvider<> with an empty list
    | NoInterfacesRequested         // InterfaceAccesor<S> with an empty list
    | NotAllowedInterface(cap: Cap) // access<I> for an I the accessor did not declare
    | EmptyAssembly                 // filterModules<> has no specialisation for zero modules
    | NoProviders                   // ProvidersList<> has no resolveProvider
    | Unresolved(cap: Cap)          // resolveProvider_impl yields void
    | NoAccessors                   // AccessorsList<> has no makeLinksTo
    | TypeNotInAssembly(id: TypeId) // std::get<T> with no T in the tuple
    | AmbiguousType(id: TypeId)     // std::get<T> with T twice in the tuple

  datatype Result<+T> = Ok(value: T) | Err(error: ConfigError)

  /** A module type of an assembly: its identity and its two role lists. */
  datatype ModuleDecl = ModuleDecl(id: TypeId, provided: seq<Cap>, required: seq<Cap>)

  /** The two empty label classes a module inherits through its role bases. */
  datatype Label = AccessorLabel | ProviderLabel

  /** `is_one_of<T1, Ts...>`: a fold of `||` over the list, false when it is empty. */
  function IsOneOf(c: Cap, cs: seq<Cap>): (b: bool)
    ensures b <==> c in cs
  {
    if cs == [] then false else cs[0] == c || IsOneOf(c, cs[1..])
  }

  /** `std::is_base_of<Label, T>`: a role base is present exactly when its list is non-empty. */
  predicate HasLabel(m: ModuleDecl, l: Label)
  {
    match l
    case AccessorLabel => |m.required| > 0
    case ProviderLabel => |m.provided| > 0
  }

  predicate IsAccessor(m: ModuleDecl) { HasLabel(m, AccessorLabel) }

  predicate IsProvider(m: ModuleDecl) { HasLabel(m, ProviderLabel) }

  /** `InterfaceProvider::is_lnk_provider_for<I>`. */
  predicate IsLnkProviderFor(m: ModuleDecl, c: Cap)
  {
    IsOneOf(c, m.provided)
  }

  /** A module provides exactly the capabilities in its provided list. */
  lemma ProvidesIffListed(m: ModuleDecl, c: Cap)
    ensures IsLnkProviderFor(m, c) <==> c in m.provided
  {
  }

  /** The `static_assert` guarding `InterfaceAccesor::access<I>`. */
  predicate IsAllowed(m: ModuleDecl, c: Cap)
  {
    IsOneOf(c, m.required)
  }

  /** No two modules of an assembly share a type. */
  predicate DistinctTypes(ms: seq<ModuleDecl>)
  {
    forall i, j :: 0 <= i < j < |ms| ==> ms[i].id != ms[j].id
  }

  /** How a module declares one of its roles: not at all, or with a list. */
  datatype RoleDecl = Undeclared | Declared(caps: seq<Cap>)

  function Caps(d: RoleDecl): seq<Cap>
  {
    if d.Declared? then d.caps else []
  }

  /** A module type inheriting the declared role bases; each base rejects an
      empty interface list with its `static_assert`. */
  function DeclareModule(id: TypeId, provide: RoleDecl, require: RoleDecl): (r: Result<ModuleDecl>)
    ensures r.Err? <==> provide == Declared([]) || require == Declared([])
    ensures r.Err? ==>
              (r.error == NoInterfacesProvided && provide == Declared([]))
              || (r.error == NoInterfacesRequested && require == Declared([]))
    ensures r.Ok? ==>
              && r.value.id == id
              && (IsProvider(r.value) <==> provide.Declared?)
              && (IsAccessor(r.value) <==> require.Declared?)
              && (forall c :: IsLnkProviderFor(r.value, c) <==> provide.Declared? && c in provide.caps)
              && (forall c :: IsAllowed(r.value, c) <==> require.Declared? && c in require.caps)
  {
    if provide == Declared([]) then Err(NoInterfacesProvided)
    else if require == Declared([]) then Err(NoInterfacesRequested)
    else Ok(ModuleDecl(id, Caps(provide), Caps(require)))
  }
}
