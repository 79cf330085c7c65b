/** What the library's qsort leaves for an array of distinct keys. */
module DistinctSort {

  ghost predicate Distinct(s: seq<nat>)
  {
    forall x, y :: 0 <= x < y < |s| ==> s[x] != s[y]
  }

  ghost predicate StrictlyAscending(s: seq<nat>)
  {
    forall x, y :: 0 <= x < y < |s| ==> s[x] < s[y]
  }

  function Insert(v: nat, s: seq<nat>): (r: seq<nat>)
    requires StrictlyAscending(s) && v !in s
    ensures StrictlyAscending(r) && |r| == |s| + 1
    ensures forall u {:trigger u in r} :: u in r <==> u == v || u in s
  {
    if s == [] || v < s[0] then [v] + s
    else
      var t := Insert(v, s[1..]);
      assert forall y :: 0 <= y < |t| ==> t[y] in t;
      assert s == [s[0]] + s[1..];
      [s[0]] + t
  }

  /** The same keys in increasing order. */
  function Sort(s: seq<nat>): (r: seq<nat>)
    requires Distinct(s)
    ensures StrictlyAscending(r) && |r| == |s|
    ensures forall u {:trigger u in r} :: u in r <==> u in s
  {
    if s == [] then []
    else
      assert s == [s[0]] + s[1..];
      Insert(s[0], Sort(s[1..]))
  }
}
