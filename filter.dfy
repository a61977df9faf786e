/** Row filtering in the style of `dropna`: a sequence of optional values,
    one per row, keeps the present ones in row order. Both loaders clean
    their frames this way. */
module Filter {
  import opened Wrappers

  /** The values that are present, in order. */
  function Present<T>(os: seq<Option<T>>): seq<T> {
    if os == [] then []
    else Present(os[..|os| - 1]) + (if os[|os| - 1].Some? then [os[|os| - 1].value] else [])
  }

  /** The positions of the values that are present, in order. */
  function PresentAt<T>(os: seq<Option<T>>): seq<nat> {
    if os == [] then []
    else PresentAt(os[..|os| - 1]) + (if os[|os| - 1].Some? then [|os| - 1] else [])
  }

  /** Filtering keeps order and keeps each position at most once: the k-th
      kept value sits at the k-th kept position, the kept positions strictly
      increase, and a position is kept exactly when its value is present. */
  lemma {:induction false} PresentInOrder<T>(os: seq<Option<T>>)
    ensures |Present(os)| == |PresentAt(os)| <= |os|
    ensures forall k :: 0 <= k < |PresentAt(os)| ==>
      PresentAt(os)[k] < |os| && os[PresentAt(os)[k]] == Some(Present(os)[k])
    ensures forall k, m :: 0 <= k < m < |PresentAt(os)| ==> PresentAt(os)[k] < PresentAt(os)[m]
    ensures forall i :: 0 <= i < |os| ==> (i in PresentAt(os) <==> os[i].Some?)
  {
    if os != [] {
      var init := os[..|os| - 1];
      PresentInOrder(init);
      var ks, ks0 := PresentAt(os), PresentAt(init);
      var vs, vs0 := Present(os), Present(init);
      forall k | 0 <= k < |ks|
        ensures ks[k] < |os| && os[ks[k]] == Some(vs[k])
      {
        if k < |ks0| {
          assert ks[k] == ks0[k] && vs[k] == vs0[k];
          assert init[ks0[k]] == os[ks0[k]];
        }
      }
      forall i | 0 <= i < |os|
        ensures i in ks <==> os[i].Some?
      {
        if i < |os| - 1 {
          assert init[i] == os[i];
          assert i in ks <==> i in ks0;
        }
      }
    }
  }
}
