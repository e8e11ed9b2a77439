// Sequences without repetition.

module Lists {

  ghost predicate Distinct<T>(s: seq<T>)
  {
    forall i, j :: 0 <= i < j < |s| ==> s[i] != s[j]
  }

  function Without<T>(s: seq<T>, i: nat): (r: seq<T>)
    requires i < |s|
    ensures |r| == |s| - 1
    ensures forall k :: 0 <= k < |r| ==> r[k] == s[if k < i then k else k + 1]
  {
    s[..i] + s[i + 1..]
  }

  lemma {:induction false} WithoutIsDistinct<T>(s: seq<T>, i: nat)
    requires i < |s| && Distinct(s)
    ensures Distinct(Without(s, i))
  {
  }

  /** Leaving out one position leaves out just its element. */
  lemma {:induction false} WithoutMembers<T>(s: seq<T>, i: nat)
    requires i < |s| && Distinct(s)
    ensures s[i] in s && s[i] !in Without(s, i)
    ensures forall x :: x in Without(s, i) ==> x in s
    ensures forall x :: x in s ==> x in Without(s, i) || x == s[i]
  {
    forall x | x in s
      ensures x in Without(s, i) || x == s[i]
    {
      var k :| 0 <= k < |s| && s[k] == x;
      if k != i {
        assert Without(s, i)[if k < i then k else k - 1] == x;
      }
    }
  }

  lemma {:induction false} TakeOneMore<T>(s: seq<T>, i: nat)
    requires i < |s|
    ensures s[..i + 1] == s[..i] + [s[i]]
  {
  }

  lemma {:induction false} DistinctMore<T>(s: seq<T>)
    requires s != [] && Distinct(s[..|s| - 1]) && s[|s| - 1] !in s[..|s| - 1]
    ensures Distinct(s)
  {
    var n := |s| - 1;
    assert forall i :: 0 <= i < n ==> s[i] == s[..n][i] && s[i] in s[..n];
  }
}
