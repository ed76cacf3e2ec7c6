/** Sequences as the contents of linked lists. */
module Lists {
  ghost predicate Distinct<T>(s: seq<T>) {
    forall i, j :: 0 <= i < j < |s| ==> s[i] != s[j]
  }

  ghost function Elems<T>(s: seq<T>): set<T> { set x | x in s }

  /** `s` without entry `i`. */
  function Without<T>(s: seq<T>, i: nat): (r: seq<T>)
    requires i < |s|
    ensures |r| == |s| - 1
  {
    s[..i] + s[i + 1..]
  }

  lemma WithoutFirst<T>(s: seq<T>)
    requires s != []
    ensures Without(s, 0) == s[1..]
  {
  }

  lemma WithoutElems<T>(s: seq<T>, j: nat)
    requires j < |s| && Distinct(s)
    ensures forall x :: x in Without(s, j) <==> x in s && x != s[j]
  {
    forall x | x in s && x != s[j]
      ensures x in Without(s, j)
    {
      var i :| 0 <= i < |s| && s[i] == x;
      assert Without(s, j)[if i < j then i else i - 1] == x;
    }
  }
}
