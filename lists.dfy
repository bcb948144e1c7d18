/** Order facts about the loops of the form "for x in s: if f(x) yields a
    value, append it", which several parts of the pipeline share. */
module Lists {
  import opened Models

  /** A non-empty sequence is its front followed by its last element. */
  lemma FrontLast<T>(s: seq<T>)
    requires s != []
    ensures s[..|s| - 1] + [s[|s| - 1]] == s && s[..|s|] == s
  {
  }

  /** Taking every element gives the sequence back. */
  lemma TakeAll<T>(s: seq<T>)
    ensures s[..|s|] == s
  {
  }

  /** The values `f` yields on the elements of `s`, in order. */
  function Kept<A, B>(f: A -> Option<B>, s: seq<A>): seq<B>
    decreases |s|
  {
    if s == [] then []
    else
      var n := |s| - 1;
      Kept(f, s[..n]) + (if f(s[n]).Some? then [f(s[n]).value] else [])
  }

  /** The positions of the elements of `s` on which `f` yields a value. */
  function Sources<A, B>(f: A -> Option<B>, s: seq<A>): (r: seq<nat>)
    ensures forall k :: 0 <= k < |r| ==> r[k] < |s|
    ensures forall k, l :: 0 <= k < l < |r| ==> r[k] < r[l]
    decreases |s|
  {
    if s == [] then []
    else
      var n := |s| - 1;
      Sources(f, s[..n]) + (if f(s[n]).Some? then [n] else [])
  }

  /** One more element adds at most the value it yields. */
  lemma KeptStep<A, B>(f: A -> Option<B>, s: seq<A>, i: nat)
    requires i < |s|
    ensures Kept(f, s[..i + 1]) == Kept(f, s[..i]) + (if f(s[i]).Some? then [f(s[i]).value] else [])
  {
    assert s[..i + 1][..i] == s[..i];
  }

  /** One more element adds its position when it yields a value. */
  lemma SourcesStep<A, B>(f: A -> Option<B>, s: seq<A>, i: nat)
    requires i < |s|
    ensures Sources(f, s[..i + 1]) == Sources(f, s[..i]) + (if f(s[i]).Some? then [i] else [])
  {
    assert s[..i + 1][..i] == s[..i];
  }

  /** Nothing is kept exactly when no element yields a value. */
  lemma SourcesEmptyIff<A, B>(f: A -> Option<B>, s: seq<A>)
    ensures Sources(f, s) == [] <==> forall i :: 0 <= i < |s| ==> f(s[i]).None?
  {
    KeptInOrder(f, s);
    if Sources(f, s) != [] {
      assert f(s[Sources(f, s)[0]]).Some?;
    }
  }

  /** Value k of the output is what `f` yields on the k-th yielding element,
      and every yielding element contributes. */
  lemma {:induction false} KeptInOrder<A, B>(f: A -> Option<B>, s: seq<A>)
    ensures |Kept(f, s)| == |Sources(f, s)|
    ensures forall k :: 0 <= k < |Sources(f, s)| ==> f(s[Sources(f, s)[k]]) == Some(Kept(f, s)[k])
    ensures forall i :: 0 <= i < |s| && f(s[i]).Some? ==> i in Sources(f, s)
    decreases |s|
  {
    if s != [] {
      var n := |s| - 1;
      var front := s[..n];
      KeptInOrder(f, front);
      var out, outF := Kept(f, s), Kept(f, front);
      var src, srcF := Sources(f, s), Sources(f, front);
      assert out == outF + (if f(s[n]).Some? then [f(s[n]).value] else []);
      assert src == srcF + (if f(s[n]).Some? then [n] else []);
      forall k | 0 <= k < |src|
        ensures f(s[src[k]]) == Some(out[k])
      {
        if k < |srcF| {
          assert src[k] == srcF[k] && out[k] == outF[k];
          assert s[srcF[k]] == front[srcF[k]];
        }
      }
      forall i | 0 <= i < |s| && f(s[i]).Some?
        ensures i in src
      {
        if i < n {
          assert front[i] == s[i];
          assert i in srcF;
        }
      }
    }
  }

  /** `[f(x) for x in s]`. */
  function Map<A, B>(f: A -> B, s: seq<A>): seq<B>
    decreases |s|
  {
    if s == [] then [] else Map(f, s[..|s| - 1]) + [f(s[|s| - 1])]
  }

  /** One more element adds its image. */
  lemma MapStep<A, B>(f: A -> B, s: seq<A>, i: nat)
    requires i < |s|
    ensures Map(f, s[..i + 1]) == Map(f, s[..i]) + [f(s[i])]
  {
    assert s[..i + 1][..i] == s[..i];
  }

  /** Mapping a sequence with one more element at the end. */
  lemma MapAppend<A, B>(f: A -> B, s: seq<A>, x: A)
    ensures Map(f, s + [x]) == Map(f, s) + [f(x)]
  {
    MapStep(f, s + [x], |s|);
    FrontLast(s + [x]);
  }

  /** Element k of the output is the image of element k. */
  lemma {:induction false} MapAt<A, B>(f: A -> B, s: seq<A>)
    ensures |Map(f, s)| == |s|
    ensures forall k :: 0 <= k < |s| ==> Map(f, s)[k] == f(s[k])
    decreases |s|
  {
    if s != [] {
      var n := |s| - 1;
      MapAt(f, s[..n]);
      assert forall k :: 0 <= k < n ==> s[..n][k] == s[k];
    }
  }
}
