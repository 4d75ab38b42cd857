/**
 * The priority queue the searches pop from (a Python heap). The model pops
 * any entry of minimal priority; which one heapq picks among equal
 * priorities is left open.
 */
module Frontier {

  /** Position `k` holds an entry whose priority no other entry undercuts. */
  predicate IsMinAt<E>(s: seq<E>, k: nat, pri: E -> real) {
    k < |s| && forall j :: 0 <= j < |s| ==> pri(s[k]) <= pri(s[j])
  }

  function MinIndex<E>(s: seq<E>, pri: E -> real): (k: nat)
    requires |s| > 0
    ensures IsMinAt(s, k, pri)
  {
    if |s| == 1 then 0
    else
      var k := MinIndex(s[1..], pri);
      assert forall j :: 1 <= j < |s| ==> s[j] == s[1..][j - 1];
      if pri(s[0]) <= pri(s[1..][k]) then 0 else k + 1
  }

  /** The frontier after popping position `k`. */
  function RemoveAt<E>(s: seq<E>, k: nat): (r: seq<E>)
    requires k < |s|
    ensures |r| == |s| - 1
    ensures multiset(r) + multiset{s[k]} == multiset(s)
    ensures forall x :: x in r ==> x in s
  {
    assert s == s[..k] + [s[k]] + s[k + 1..];
    s[..k] + s[k + 1..]
  }

  /** The only entry of a one-entry frontier is the one popped. */
  lemma OnlyEntry<E>(e: E, x: E)
    requires e in [x]
    ensures e == x
  {
  }

  /** `heappop`: some entry of minimal priority, and the frontier without it. */
  method Pop<E>(s: seq<E>, pri: E -> real) returns (e: E, rest: seq<E>)
    requires |s| > 0
    ensures e in s && forall x :: x in s ==> pri(e) <= pri(x)
    ensures multiset(rest) + multiset{e} == multiset(s)
    ensures forall x :: x in rest ==> x in s
  {
    assert IsMinAt(s, MinIndex(s, pri), pri);
    var k: nat :| IsMinAt(s, k, pri);
    assert IsMinAt(s, k, pri);
    forall x | x in s ensures pri(s[k]) <= pri(x) {
      var j :| 0 <= j < |s| && s[j] == x;
    }
    e, rest := s[k], RemoveAt(s, k);
  }
}
