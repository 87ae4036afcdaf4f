/** Array.prototype.splice(i, 1) on a list, as a value. */
module Lists {

  /** The list without its element at index i. An index past the end
      removes nothing; an index that exists shortens the list by one, keeps
      every element before it in place and moves every element after it
      down by one. */
  function RemoveAt<T>(s: seq<T>, i: nat): (r: seq<T>)
    ensures i >= |s| ==> r == s
    ensures i < |s| ==> |r| == |s| - 1 && multiset(r) + multiset{s[i]} == multiset(s)
    ensures forall k :: 0 <= k < i && k < |r| ==> r[k] == s[k]
    ensures i < |s| ==> forall k :: i <= k < |r| ==> r[k] == s[k + 1]
  {
    if i < |s| then
      assert s == s[..i] + [s[i]] + s[i + 1..];
      s[..i] + s[i + 1..]
    else s
  }
}
