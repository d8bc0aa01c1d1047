/** Index of the largest element of a container (utils.h). */
module Utils {

  /** The position `std::max_element` stops at on a non-empty prefix: the
      first position holding a largest element. */
  function MaxElement(s: seq<int>): (k: nat)
    requires |s| > 0
    ensures k < |s|
    ensures forall j :: 0 <= j < |s| ==> s[j] <= s[k]
    ensures forall j :: 0 <= j < k ==> s[j] < s[k]
  {
    if |s| == 1 then 0
    else
      var k := MaxElement(s[..|s| - 1]);
      if s[k] < s[|s| - 1] then |s| - 1 else k
  }

  /** -1 for an empty container, otherwise the distance from the beginning
      to the first largest element. */
  function FindIndexOfMax(s: seq<int>): (r: int)
    ensures |s| == 0 <==> r == -1
    ensures |s| > 0 ==> 0 <= r < |s|
    ensures |s| > 0 ==> forall j :: 0 <= j < |s| ==> s[j] <= s[r]
    ensures |s| > 0 ==> forall j :: 0 <= j < r ==> s[j] < s[r]
  {
    if |s| == 0 then -1 else MaxElement(s)
  }
}
