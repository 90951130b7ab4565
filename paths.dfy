/** Go's `path.Join`, as the resolver uses it to build a directory. */
module Paths {
  import Strings

  /** `path.Join(elems...)`: the non-empty elements joined with '/'; the
      result is empty exactly when every element is. The lexical clean-up
      `path.Join` finishes with (`path.Clean`) is not applied here. */
  function PathJoin(elems: seq<string>): (p: string)
    ensures p == "" <==> forall e :: e in elems ==> e == ""
  {
    var kept := Strings.NonEmpty(elems);
    Strings.JoinEmpty(kept, '/');
    assert kept != [] ==> kept[0] in kept;
    Strings.Join(kept, '/')
  }

  /** With no empty element, `path.Join` puts exactly one '/' between
      neighbouring elements. */
  lemma PathJoinOfNonEmpty(elems: seq<string>)
    requires forall e :: e in elems ==> e != ""
    ensures PathJoin(elems) == Strings.Join(elems, '/')
  {
    assert forall k :: 0 <= k < |elems| ==> elems[k] in elems;
    Strings.NonEmptyKeepsAll(elems);
  }
}
