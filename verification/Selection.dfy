/** Keeping some elements of a list, in their order. */
module Selection {
  /** r is what is left of s when only the elements at the positions ks stay. */
  ghost predicate At<T>(s: seq<T>, ks: seq<nat>, r: seq<T>) {
    && |ks| == |r|
    && (forall i, j :: 0 <= i < j < |ks| ==> ks[i] < ks[j])
    && (forall i :: 0 <= i < |ks| ==> ks[i] < |s| && r[i] == s[ks[i]])
  }

  /** r is s without the elements at the positions that keep refuses. */
  ghost predicate Selected<T>(s: seq<T>, keep: nat -> bool, r: seq<T>) {
    exists ks :: At(s, ks, r) && forall k :: 0 <= k < |s| ==> (keep(k) <==> k in ks)
  }

  lemma NoneSelected<T>(keep: nat -> bool)
    ensures Selected<T>([], keep, [])
  {
    assert At<T>([], [], []);
  }

  lemma AtSnoc<T>(s: seq<T>, x: T, ks: seq<nat>, r: seq<T>)
    requires At(s, ks, r)
    ensures At(s + [x], ks, r) && At(s + [x], ks + [|s|], r + [x])
  {
  }

  /** One element more. */
  lemma SelectedSnoc<T>(s: seq<T>, x: T, keep: nat -> bool, longer: nat -> bool, r: seq<T>)
    requires Selected(s, keep, r) && forall k :: 0 <= k < |s| ==> keep(k) == longer(k)
    ensures Selected(s + [x], longer, if longer(|s|) then r + [x] else r)
  {
    var ks: seq<nat> :| At(s, ks, r) && forall k :: 0 <= k < |s| ==> (keep(k) <==> k in ks);
    AtSnoc(s, x, ks, r);
    assert |s| !in ks;
    hide At;
    if longer(|s|) {
      var more: seq<nat> := ks + [|s|];
      forall k | 0 <= k < |s + [x]| ensures longer(k) <==> k in more { }
    } else {
      forall k | 0 <= k < |s + [x]| ensures longer(k) <==> k in ks { }
    }
  }
}
