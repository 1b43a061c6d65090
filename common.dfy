/** Small helpers shared by the containers and the search drivers. */
module Common {

  /** A value or nothing: the model of a nullable pointer such as a node's `next`. */
  datatype Option<T> = None | Some(value: T)

  /**
   * The index of the first element of `s` that `equal` relates to `v`, or `|s|`
   * (the position `end()` stands for) when there is none: what a linear `find`
   * over a contiguous container returns.
   */
  function FirstIndex<T>(s: seq<T>, v: T, equal: (T, T) -> bool): (r: nat)
    ensures r <= |s|
    ensures r < |s| ==> equal(s[r], v)
    ensures forall j :: 0 <= j < r ==> !equal(s[j], v)
    decreases |s|
  {
    if s == [] then 0
    else if equal(s[0], v) then 0
    else 1 + FirstIndex(s[1..], v, equal)
  }

  /** Appending an element related to `v` guarantees that a match is found. */
  lemma {:induction false} FirstIndexAfterAppend<T>(s: seq<T>, v: T, equal: (T, T) -> bool)
    requires equal(v, v)
    ensures FirstIndex(s + [v], v, equal) <= |s|
    ensures FirstIndex(s, v, equal) < |s| ==> FirstIndex(s + [v], v, equal) == FirstIndex(s, v, equal)
  {
    if s != [] {
      assert (s + [v])[1..] == s[1..] + [v];
      FirstIndexAfterAppend(s[1..], v, equal);
    }
  }

  /**
   * `FirstIndex` is characterised by its contract: any position with a match (or the
   * end) and no match before it is the first index.
   */
  lemma {:induction false} FirstIndexIsFirst<T>(s: seq<T>, v: T, equal: (T, T) -> bool, i: nat)
    requires i <= |s|
    requires i < |s| ==> equal(s[i], v)
    requires forall j :: 0 <= j < i ==> !equal(s[j], v)
    ensures FirstIndex(s, v, equal) == i
    decreases i
  {
    if i > 0 {
      assert !equal(s[0], v);
      FirstIndexIsFirst(s[1..], v, equal, i - 1);
    }
  }
}
