/** The capability resolver: `resolveProvider_impl` scans the provider list
    front to back and picks the first module whose provided list contains the
    requested capability; no match yields `void`.
 */
module Resolver {
  import opened Declarations
  import Partition

  /** Position `i` holds the first module of `ps` that provides `c`. */
  predicate FirstMatchAt(ps: seq<ModuleDecl>, c: Cap, i: int)
  {
    && 0 <= i < |ps|
    && IsLnkProviderFor(ps[i], c)
    && forall j :: 0 <= j < i ==> !IsLnkProviderFor(ps[j], c)
  }

  /** There is at most one first match. */
  lemma FirstMatchUnique(ps: seq<ModuleDecl>, c: Cap)
    ensures forall i, j :: FirstMatchAt(ps, c, i) && FirstMatchAt(ps, c, j) ==> i == j
  {
  }

  /** `resolveProvider_impl<I, CurrentProvider, Providers...>`: the current
      provider if it provides `I`, otherwise the result for the rest; the
      one-provider specialisation yields `void` (here `None`) instead. */
  function ResolveImpl(c: Cap, ps: seq<ModuleDecl>): (r: Option<ModuleDecl>)
    requires |ps| > 0
    ensures r.None? <==> forall i :: 0 <= i < |ps| ==> !IsLnkProviderFor(ps[i], c)
    ensures r.Some? ==> exists i :: FirstMatchAt(ps, c, i) && ps[i] == r.value
    decreases |ps|
  {
    var current := ps[0];
    if |ps| == 1 then
      (if IsLnkProviderFor(current, c) then assert FirstMatchAt(ps, c, 0); Some(current) else None)
    else if IsLnkProviderFor(current, c) then
      assert FirstMatchAt(ps, c, 0); Some(current)
    else
      var rest := ResolveImpl(c, ps[1..]);
      if rest.Some? then rest
      else assert forall i :: 1 <= i < |ps| ==> ps[i] == ps[1..][i - 1]; rest
  }

  /** `ProvidersList<Ts...>::resolveProvider<I>`; the empty `ProvidersList<>`
      has no such member at all. */
  function ResolveProvider(ps: seq<ModuleDecl>, c: Cap): (r: Result<ModuleDecl>)
    ensures ps == [] ==> r == Err(NoProviders)
    ensures ps != [] ==> (r.Err? <==> forall i :: 0 <= i < |ps| ==> !IsLnkProviderFor(ps[i], c))
    ensures ps != [] && r.Err? ==> r.error == Unresolved(c)
    ensures r.Ok? ==> exists i :: FirstMatchAt(ps, c, i) && ps[i] == r.value
  {
    if ps == [] then Err(NoProviders)
    else match ResolveImpl(c, ps)
      case None => Err(Unresolved(c))
      case Some(m) => Ok(m)
  }

  /** `ps` is the subsequence of `ms` at the strictly increasing positions
      `idx`, which are exactly the positions of the providers. */
  predicate ProvidersAt(ms: seq<ModuleDecl>, ps: seq<ModuleDecl>, idx: seq<nat>)
  {
    && |idx| == |ps|
    && (forall k :: 0 <= k < |idx| ==> idx[k] < |ms| && ps[k] == ms[idx[k]])
    && (forall k, k' :: 0 <= k < k' < |idx| ==> idx[k] < idx[k'])
    && (forall j :: 0 <= j < |ms| ==> (IsProvider(ms[j]) <==> j in idx))
  }

  lemma FirstMatchThroughFilter(ms: seq<ModuleDecl>, ps: seq<ModuleDecl>, idx: seq<nat>, c: Cap, k0: nat)
    requires ProvidersAt(ms, ps, idx)
    requires FirstMatchAt(ps, c, k0)
    ensures FirstMatchAt(ms, c, idx[k0])
  {
  }

  lemma MatchSurvivesFilter(ms: seq<ModuleDecl>, ps: seq<ModuleDecl>, idx: seq<nat>, c: Cap)
    requires ProvidersAt(ms, ps, idx)
    ensures (exists i :: 0 <= i < |ms| && IsLnkProviderFor(ms[i], c))
        <==> (exists k :: 0 <= k < |ps| && IsLnkProviderFor(ps[k], c))
  {
  }

  lemma NoProviderListed(ms: seq<ModuleDecl>)
    requires |ms| > 0
    ensures Partition.FilterModules(ms).providers == [] <==> forall i :: 0 <= i < |ms| ==> !IsProvider(ms[i])
  {
    Partition.BothOrNeither(ms);
    var ps := Partition.FilterModules(ms).providers;
    if i :| 0 <= i < |ms| && IsProvider(ms[i]) {
      assert ms[i] in ps;
    }
    if ps != [] {
      assert ps[0] in ms;
    }
  }

  /** Resolving against the partitioned provider list is the same as taking
      the first module of the whole assembly that provides `c`: filtering out
      the non-providers neither hides nor reorders a candidate. */
  lemma ResolveInAssembly(ms: seq<ModuleDecl>, c: Cap)
    requires |ms| > 0
    ensures var r := ResolveProvider(Partition.FilterModules(ms).providers, c);
      && (r.Err? <==> forall i :: 0 <= i < |ms| ==> !IsLnkProviderFor(ms[i], c))
      && (r.Ok? ==> exists i :: FirstMatchAt(ms, c, i) && ms[i] == r.value)
    ensures Partition.FilterModules(ms).providers == [] <==> forall i :: 0 <= i < |ms| ==> !IsProvider(ms[i])
  {
    var ps := Partition.FilterModules(ms).providers;
    var idx := Partition.LabelledIndices(ms, ProviderLabel);
    Partition.FilterModulesIsReference(ms);
    Partition.LabelledStable(ms, ProviderLabel);
    assert ProvidersAt(ms, ps, idx);
    MatchSurvivesFilter(ms, ps, idx, c);
    NoProviderListed(ms);
    var r := ResolveProvider(ps, c);
    if r.Ok? {
      var k0 :| FirstMatchAt(ps, c, k0) && ps[k0] == r.value;
      FirstMatchThroughFilter(ms, ps, idx, c, k0);
    }
  }

  /** Ambiguity is not reported: when two distinct modules both provide `c`,
      the later one is never chosen. */
  lemma LaterProviderIgnored(ms: seq<ModuleDecl>, c: Cap, i: nat, j: nat)
    requires i < j < |ms| && DistinctTypes(ms)
    requires IsLnkProviderFor(ms[i], c) && IsLnkProviderFor(ms[j], c)
    ensures ResolveProvider(Partition.FilterModules(ms).providers, c).Ok?
    ensures ResolveProvider(Partition.FilterModules(ms).providers, c) != Ok(ms[j])
  {
    ResolveInAssembly(ms, c);
    var r := ResolveProvider(Partition.FilterModules(ms).providers, c);
    var i0 :| FirstMatchAt(ms, c, i0) && ms[i0] == r.value;
    assert i0 <= i;
  }
}
