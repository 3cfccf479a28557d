/** The module partitioner: `filterModules_impl` walks the assembly's module
    list once, left to right, and appends each module to the accessor list,
    the provider list, both or neither, according to the labels it carries.
 */
module Partition {
  import opened Declarations

  /** The two type lists `filterModules_impl` exposes: `accessors` (an
      `AccessorsList<...>`) and `providers` (a `ProvidersList<...>`). */
  datatype Lists = Lists(accessors: seq<ModuleDecl>, providers: seq<ModuleDecl>)

  /** `next<T>` of both list templates: append at the end. */
  function Next(list: seq<ModuleDecl>, t: ModuleDecl): seq<ModuleDecl>
  {
    list + [t]
  }

  /** `alternative<is_base_of<Label, T>, List::next<T>, List>`. */
  function Step(list: seq<ModuleDecl>, t: ModuleDecl, l: Label): seq<ModuleDecl>
  {
    if HasLabel(t, l) then Next(list, t) else list
  }

  /** `filterModules_impl<ListA, ListP, T, Ts...>`: the primary template
      recurses on `Ts...`; the one-module specialisation stops. Like the
      templates, it has no case for an empty module list. */
  function FilterImpl(listA: seq<ModuleDecl>, listP: seq<ModuleDecl>, ts: seq<ModuleDecl>): Lists
    requires |ts| > 0
    decreases |ts|
  {
    var a := Step(listA, ts[0], AccessorLabel);
    var p := Step(listP, ts[0], ProviderLabel);
    if |ts| == 1 then Lists(a, p) else FilterImpl(a, p, ts[1..])
  }

  /** `filterModules<Ts...>`: start from the two empty lists. */
  function FilterModules(ms: seq<ModuleDecl>): Lists
    requires |ms| > 0
  {
    FilterImpl([], [], ms)
  }

  /** Reference definition: the modules of `ms` that carry label `l`, in order. */
  function Labelled(ms: seq<ModuleDecl>, l: Label): seq<ModuleDecl>
  {
    if ms == [] then []
    else (if HasLabel(ms[0], l) then [ms[0]] else []) + Labelled(ms[1..], l)
  }

  /** The positions in `ms` of the modules that carry label `l`, in order. */
  function LabelledIndices(ms: seq<ModuleDecl>, l: Label): seq<nat>
  {
    if ms == [] then []
    else (if HasLabel(ms[0], l) then [0] else []) + Shift(LabelledIndices(ms[1..], l))
  }

  function Shift(s: seq<nat>): seq<nat>
  {
    seq(|s|, k requires 0 <= k < |s| => s[k] + 1)
  }

  /** The accumulator form computes the reference filter: each list ends up as
      its starting contents followed by the labelled modules of `ts`. */
  lemma {:induction false} FilterImplAppends(listA: seq<ModuleDecl>, listP: seq<ModuleDecl>, ts: seq<ModuleDecl>)
    requires |ts| > 0
    ensures FilterImpl(listA, listP, ts)
            == Lists(listA + Labelled(ts, AccessorLabel), listP + Labelled(ts, ProviderLabel))
    decreases |ts|
  {
    var hA: seq<ModuleDecl> := if HasLabel(ts[0], AccessorLabel) then [ts[0]] else [];
    var hP: seq<ModuleDecl> := if HasLabel(ts[0], ProviderLabel) then [ts[0]] else [];
    assert Labelled(ts, AccessorLabel) == hA + Labelled(ts[1..], AccessorLabel);
    assert Labelled(ts, ProviderLabel) == hP + Labelled(ts[1..], ProviderLabel);
    if |ts| == 1 {
      assert Labelled(ts[1..], AccessorLabel) == [];
      assert Labelled(ts[1..], ProviderLabel) == [];
    } else {
      assert Step(listA, ts[0], AccessorLabel) == listA + hA;
      assert Step(listP, ts[0], ProviderLabel) == listP + hP;
      FilterImplAppends(listA + hA, listP + hP, ts[1..]);
      assert (listA + hA) + Labelled(ts[1..], AccessorLabel) == listA + (hA + Labelled(ts[1..], AccessorLabel));
      assert (listP + hP) + Labelled(ts[1..], ProviderLabel) == listP + (hP + Labelled(ts[1..], ProviderLabel));
    }
  }

  /** The accessor sublist is exactly the accessor-labelled modules, and the
      provider sublist exactly the provider-labelled ones. */
  lemma FilterModulesIsReference(ms: seq<ModuleDecl>)
    requires |ms| > 0
    ensures FilterModules(ms).accessors == Labelled(ms, AccessorLabel)
    ensures FilterModules(ms).providers == Labelled(ms, ProviderLabel)
  {
    FilterImplAppends([], [], ms);
    assert [] + Labelled(ms, AccessorLabel) == Labelled(ms, AccessorLabel);
    assert [] + Labelled(ms, ProviderLabel) == Labelled(ms, ProviderLabel);
  }

  /** Stability: the labelled sublist is `ms` read at strictly increasing
      positions, and those positions are exactly the labelled ones. */
  lemma LabelledStable(ms: seq<ModuleDecl>, l: Label)
    ensures var idx := LabelledIndices(ms, l);
      && |idx| == |Labelled(ms, l)|
      && (forall k :: 0 <= k < |idx| ==> idx[k] < |ms| && Labelled(ms, l)[k] == ms[idx[k]])
      && (forall k, k' :: 0 <= k < k' < |idx| ==> idx[k] < idx[k'])
      && (forall j :: 0 <= j < |ms| ==> (HasLabel(ms[j], l) <==> j in idx))
  {
    LabelledAt(ms, l);
    IndicesIncreasing(ms, l);
    IndicesExact(ms, l);
  }

  lemma {:induction false} LabelledAt(ms: seq<ModuleDecl>, l: Label)
    ensures |LabelledIndices(ms, l)| == |Labelled(ms, l)|
    ensures forall k :: 0 <= k < |LabelledIndices(ms, l)| ==>
              LabelledIndices(ms, l)[k] < |ms| && Labelled(ms, l)[k] == ms[LabelledIndices(ms, l)[k]]
  {
    if ms != [] {
      LabelledAt(ms[1..], l);
      var rest := LabelledIndices(ms[1..], l);
      var tail := Labelled(ms[1..], l);
      var idx := LabelledIndices(ms, l);
      var sub := Labelled(ms, l);
      var d := if HasLabel(ms[0], l) then 1 else 0;
      assert |idx| == d + |rest| && |sub| == d + |tail|;
      forall k | d <= k < |idx|
        ensures idx[k] < |ms| && sub[k] == ms[idx[k]]
      {
        assert idx[k] == rest[k - d] + 1;
        assert sub[k] == tail[k - d];
        assert ms[rest[k - d] + 1] == ms[1..][rest[k - d]];
      }
      if d == 1 {
        assert idx[0] == 0 && sub[0] == ms[0];
      }
    }
  }

  lemma {:induction false} IndicesIncreasing(ms: seq<ModuleDecl>, l: Label)
    ensures forall k :: 0 <= k < |LabelledIndices(ms, l)| ==> LabelledIndices(ms, l)[k] < |ms|
    ensures forall k, k' :: 0 <= k < k' < |LabelledIndices(ms, l)| ==>
              LabelledIndices(ms, l)[k] < LabelledIndices(ms, l)[k']
  {
    if ms != [] {
      IndicesIncreasing(ms[1..], l);
      var rest := LabelledIndices(ms[1..], l);
      var hI: seq<nat> := if HasLabel(ms[0], l) then [0] else [];
      assert LabelledIndices(ms, l) == hI + Shift(rest);
    }
  }

  lemma {:induction false} IndicesExact(ms: seq<ModuleDecl>, l: Label)
    ensures forall j :: 0 <= j < |ms| ==> (HasLabel(ms[j], l) <==> j in LabelledIndices(ms, l))
  {
    if ms != [] {
      IndicesExact(ms[1..], l);
      var rest := LabelledIndices(ms[1..], l);
      var sh := Shift(rest);
      var hI: seq<nat> := if HasLabel(ms[0], l) then [0] else [];
      assert LabelledIndices(ms, l) == hI + sh;
      forall j | 0 <= j < |ms|
        ensures HasLabel(ms[j], l) <==> j in hI + sh
      {
        if j == 0 {
          assert 0 !in sh;
        } else {
          assert ms[j] == ms[1..][j - 1];
          if j - 1 in rest {
            var k :| 0 <= k < |rest| && rest[k] == j - 1;
            assert sh[k] == j;
          }
          if j in sh {
            var k :| 0 <= k < |sh| && sh[k] == j;
            assert rest[k] == j - 1;
          }
        }
      }
    }
  }

  /** Every labelled element comes from the input, and every input module
      carrying the label is in the sublist. */
  lemma {:induction false} LabelledMembers(ms: seq<ModuleDecl>, l: Label)
    ensures forall m :: m in Labelled(ms, l) <==> m in ms && HasLabel(m, l)
  {
    if ms != [] {
      LabelledMembers(ms[1..], l);
      var hM: seq<ModuleDecl> := if HasLabel(ms[0], l) then [ms[0]] else [];
      assert Labelled(ms, l) == hM + Labelled(ms[1..], l);
      assert ms == [ms[0]] + ms[1..];
    }
  }

  /** A module with both labels lands in both sublists, one with neither in
      neither, and nothing else lands in either. */
  lemma BothOrNeither(ms: seq<ModuleDecl>)
    requires |ms| > 0
    ensures forall m :: m in FilterModules(ms).accessors <==> m in ms && IsAccessor(m)
    ensures forall m :: m in FilterModules(ms).providers <==> m in ms && IsProvider(m)
  {
    FilterModulesIsReference(ms);
    LabelledMembers(ms, AccessorLabel);
    LabelledMembers(ms, ProviderLabel);
  }
}
