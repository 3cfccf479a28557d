# metalink, modelled in Dafny

metalink is a single C++ header (`metalink.hpp`) that links the modules of
an application at compile time. A module type inherits
`lnk::provide<I...>` to advertise the interfaces (capabilities) it provides,
and/or `lnk::require<System, I...>` to declare the interfaces it needs.
`lnk::System<Modules...>` is the composition root. It owns one instance of
every module type in a `std::tuple`. `linkModules()` stores a pointer to the
root in every accessor. `getModule<T>()` fetches an instance by type.
`access<I>()` resolves `I` to the first provider that advertises it and
returns that provider's `interface<I>()`. An accessor's own `access<I>()`
accepts only the interfaces it declared and forwards through its stored root
pointer.

The template metaprograms become values in the model:

- A capability and a module type are natural numbers.
- A module type is a `ModuleDecl`: its identity and the lists it provides
  and requires. An absent role is an empty list, so "inherits the label
  class" becomes "the list is non-empty".
- The type lists `AccessorsList`/`ProvidersList` are sequences.
  `filterModules_impl`, `resolveProvider_impl` and `is_one_of` are recursive
  functions with the same shape as the templates.
- Every compile-time rejection becomes an `Err` value of `ConfigError`:
  - each `static_assert`;
  - the missing `makeLinksTo` and `resolveProvider` of the empty lists;
  - `std::get<void>`;
  - an absent or duplicated `std::get<T>`.
- `System` is a class. Its const `modules` field lists the tuple's types.
  Its `links` array holds each instance's `m_provider`, which is `null` until
  linking and afterwards can only point at the root. `LinkModules` checks
  that linking can be formed and then calls `MakeLinksTo`, the loop over the
  accessor list that writes that array.

Files:

- `declarations.dfy` (module `Declarations`): capabilities, module
  declarations, labels, `is_one_of` and the role declarations.
- `partition.dfy` (module `Partition`): the partitioner and its stability
  and membership lemmas.
- `resolver.dfy` (module `Resolver`): the first-match resolver and the
  lemmas connecting it to the whole assembly.
- `system.dfy` (module `Composition`): `std::get`, linking, `getModule`, both
  `access` functions and the `System` class.
- `scenarios.dfy` (module `Scenarios`): small concrete assemblies.

## Model

| member | source | states |
|---|---|---|
| `Declarations.IsOneOf` | metalink.hpp:19-22 | the fold of `is_same` is true exactly when the capability occurs in the list (false for an empty list) |
| `Declarations.ProvidesIffListed` | metalink.hpp:73-77 | a module provides a capability iff the capability is in its provided list |
| `Declarations.DeclareModule` | metalink.hpp:43-69 | a provider or accessor role declared with an empty list is rejected with that role's error; otherwise the module provides exactly its declared list, is a provider iff it declared the role, and likewise for the required list |
| `Partition.FilterImplAppends` | metalink.hpp:144-172 | the one-pass accumulator appends to each starting list exactly that list's labelled modules of the remaining types, in order |
| `Partition.FilterModulesIsReference` | metalink.hpp:174-175 | `filterModules` yields exactly the accessor-labelled modules and exactly the provider-labelled modules |
| `Partition.LabelledStable` | metalink.hpp:105-175 | each sublist is the module list read at strictly increasing positions, and those positions are exactly the modules carrying the label, so relative order is kept and nothing is dropped |
| `Partition.LabelledMembers` | metalink.hpp:146-156 | a module is in a labelled sublist iff it is in the input and carries the label |
| `Partition.BothOrNeither` | metalink.hpp:144-172 | a module with both labels is in both sublists, one with neither is in neither, and every partitioned element comes from the input |
| `Resolver.ResolveImpl` | metalink.hpp:81-97 | yields nothing (`void`) iff no provider in the list provides the capability; otherwise yields the provider at the first position that provides it |
| `Resolver.ResolveProvider` | metalink.hpp:126-142 | an empty provider list has no resolver (`NoProviders`); otherwise it fails with `Unresolved` iff no listed provider provides the capability, and succeeds with the first one that does |
| `Resolver.ResolveInAssembly` | metalink.hpp:197 | resolving against the partitioned provider list fails iff no module of the assembly provides the capability; it succeeds with the first module in assembly order that does; the provider list is empty iff the assembly has no provider |
| `Resolver.LaterProviderIgnored` | metalink.hpp:81-97 | with two distinct providers of one capability, resolution succeeds without an ambiguity error and never picks the later one |
| `Composition.GetIndex` | metalink.hpp:198 | `std::get<T>` yields a slot only when it holds the sole module of type `T`; it fails with `TypeNotInAssembly` when `T` is absent and with `AmbiguousType` when `T` occurs twice |
| `Composition.GetIndexOk` | metalink.hpp:190 | when a type occurs exactly once, `std::get` finds exactly that slot |
| `Composition.CheckAccessors` | metalink.hpp:111-115 | the `std::get` of every accessor type in the `makeLinksTo` fold is well-formed iff each listed accessor type is found |
| `Composition.LinkCheckPasses` | metalink.hpp:105-124 | linking can be formed iff the assembly has an accessor and every accessor is the sole module of its type; an empty assembly fails with `EmptyAssembly`, and an assembly without accessors fails with `NoAccessors` |
| `Composition.System.constructor` | metalink.hpp:203 | the root holds the given module types, and no instance is linked |
| `Composition.System.MakeLink` | metalink.hpp:99-103 | `linkTo` sets the one accessor's `m_provider` to the root and changes no other slot; every set `m_provider` still points at the root |
| `Composition.System.MakeLinksTo` | metalink.hpp:111-115 | after the fold, exactly the slots of the listed accessors point at the root, every other slot is unchanged, and no slot points at another root |
| `Composition.System.LinkModules` | metalink.hpp:182-185 | when it can be formed, every accessor points at the root, non-accessors are untouched, and running it again changes nothing; when it cannot be formed, it reports why and writes nothing |
| `Composition.System.GetModule` | metalink.hpp:187-191 | `getModule<T>` succeeds iff exactly one slot holds type `T`, and then returns that slot |
| `Composition.System.Access` | metalink.hpp:193-199 | the root's `access<I>` returns the `I` of the first module in declaration order that provides `I`. It fails iff nothing provides `I` or that module's type is duplicated. The error is `EmptyAssembly`, `NoProviders`, `Unresolved` or `AmbiguousType` according to the cause |
| `Composition.System.AccessorAccess` | metalink.hpp:52-57 | an accessor may ask only for a capability it declared (`NotAllowedInterface` otherwise); once its `m_provider` is set, its answer for a declared capability equals the root's, so every accessor and every repeated call reaches the same provider |
| `Scenarios.WorkerReachesLogProvider` | metalink.hpp:52-57 | a worker requiring the logger reaches the log provider declared before it |
| `Scenarios.WorkerCannotAskUndeclared` | metalink.hpp:55 | a capability outside the worker's list is refused |
| `Scenarios.FirstDeclaredProviderWins` | metalink.hpp:81-97 | with two providers of X, the accessor reaches the first one declared |
| `Scenarios.UnprovidedCapabilityRejected` | metalink.hpp:137-142 | an assembly without providers cannot resolve the accessor's capability (`NoProviders`) |
| `Scenarios.EmptyProvideRejected` | metalink.hpp:69 | a provider role with no interfaces is rejected whatever else the module declares |

## Left out

- The body of a provider's `interface<I>()` (metalink.hpp:198) belongs to
  the module author. `InterfaceRef(provider slot, capability)` stands for the
  reference it returns.
- `is_inherit_all` (metalink.hpp:24-27) is defined but never used.
- `alternative` is a type-level `if`. It is not modelled as an entity; the
  functions use `if-then-else`.
- The following C++ mechanics are not modelled:
  - the `System` template parameter of `InterfaceAccesor` and its
    `static_cast`;
  - the friend declarations;
  - the private label bases;
  - the include guard;
  - the namespace aliases `lnk::provide`, `lnk::require` and `lnk::System`.
- Module instances are reduced to their `m_provider` field. The rest of
  their state is the module author's.
- Type identity: in C++ a type fixes its declaration. In the model a
  `TypeId` does not, so two `ModuleDecl`s could share an id and differ in
  their lists. Nothing in the model depends on excluding that.
- Compile-time versus run-time: the original rejects the program. The
  model returns an `Err`/`Fail` value and leaves the state unchanged.
- `m_provider` is uninitialised until linking, and the original does not
  guard against using it early. The model starts it at `null`.
  `AccessorAccess` requires it to be set; it does not invent a run-time
  check.
- `Declarations.DeclareModule`: when both role lists are empty, the
  original leaves the order of the two `static_assert` messages to the
  compiler. The contract allows either error; the body reports the
  provider's.
- Where errors arise:
  - An assembly with an unprovided capability still links. Only an
    `access<I>` that names that capability is ill-formed
    (`Scenarios.UnprovidedCapabilityRejected`).
  - Duplicate module types are not rejected when the assembly is declared.
    Only a `std::get` of a duplicated type fails, in `getModule`, `access`
    or the linking fold.
  - Calling `linkModules` again writes the same pointers.
- Concurrency: the header has none.
