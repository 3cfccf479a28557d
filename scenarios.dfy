/** Small assemblies that show the framework's behaviour end to end. */
module Scenarios {
  import opened Declarations
  import opened Composition

  const Logger: Cap := 0
  const X: Cap := 1
  const Y: Cap := 2
  const Other: Cap := 3

  /** A log provider and a worker that requires the logger. */
  function AssemblyA(): seq<ModuleDecl>
  {
    [ModuleDecl(10, [Logger], []), ModuleDecl(11, [], [Logger])]
  }

  /** Two providers of X declared before the module that requires X. */
  function AssemblyB(): seq<ModuleDecl>
  {
    [ModuleDecl(20, [X], []), ModuleDecl(21, [X], []), ModuleDecl(22, [], [X])]
  }

  /** A lone module requiring Y, which nothing provides. */
  function AssemblyC(): seq<ModuleDecl>
  {
    [ModuleDecl(30, [], [Y])]
  }

  /** In a linked assembly A the worker's request for the logger reaches the
      log provider in slot 0. */
  lemma WorkerReachesLogProvider(sys: System)
    requires sys.Valid() && sys.modules == AssemblyA() && sys.Linked()
    ensures sys.links[1] != null
    ensures sys.AccessorAccess(1, Logger) == Ok(InterfaceRef(0, Logger))
  {
  }

  /** The worker may not ask for a capability it did not declare. */
  lemma WorkerCannotAskUndeclared(sys: System)
    requires sys.Valid() && sys.modules == AssemblyA() && sys.Linked()
    ensures sys.links[1] != null
    ensures sys.AccessorAccess(1, Other) == Err(NotAllowedInterface(Other))
  {
  }

  /** With two providers of X, the first declared one is chosen and the
      second is ignored without complaint. */
  lemma FirstDeclaredProviderWins(sys: System)
    requires sys.Valid() && sys.modules == AssemblyB() && sys.Linked()
    ensures sys.links[2] != null
    ensures sys.AccessorAccess(2, X) == Ok(InterfaceRef(0, X))
  {
  }

  /** Nothing provides Y, and nothing provides anything at all: the provider
      list is empty, so the access cannot be formed. */
  lemma UnprovidedCapabilityRejected(sys: System)
    requires sys.Valid() && sys.modules == AssemblyC() && sys.Linked()
    ensures sys.links[0] != null
    ensures sys.AccessorAccess(0, Y) == Err(NoProviders)
  {
  }

  /** A provider role declared with no capabilities is rejected on its own. */
  lemma EmptyProvideRejected(id: TypeId, require: RoleDecl)
    ensures DeclareModule(id, Declared([]), require).Err?
  {
  }

  /** Building, linking (twice) and using assembly A through the root's methods. */
  method RunAssemblyA()
  {
    var sys := new System(AssemblyA());
    var r := sys.LinkModules();
    LinkCheckPasses(sys.modules);
    assert Linkable(sys.modules) by {
      assert IsAccessor(sys.modules[1]);
      assert SoleOfType(sys.modules, sys.modules[1].id, 1);
    }
    assert r.Pass? && sys.Linked();
    WorkerReachesLogProvider(sys);
    assert sys.AccessorAccess(1, Logger) == Ok(InterfaceRef(0, Logger));
    // Linking again re-installs the same references.
    ghost var once := sys.links[..];
    var r2 := sys.LinkModules();
    assert r2.Pass? && sys.links[..] == once;
  }
}
