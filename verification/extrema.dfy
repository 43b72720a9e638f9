/** The smallest and the largest value of a non-empty sequence. */
module Extrema {

  /** The smallest value of a non-empty sequence (`iter().min()`). */
  function Min(s: seq<int>): (m: int)
    requires s != []
    ensures m in s && forall k | 0 <= k < |s| :: m <= s[k]
  {
    if |s| == 1 then s[0]
    else
      var m := Min(s[1..]);
      assert s[1..][0] in s[1..];
      if s[0] <= m then s[0] else m
  }

  /** The largest value of a non-empty sequence (`iter().max()`). */
  function Max(s: seq<int>): (m: int)
    requires s != []
    ensures m in s && forall k | 0 <= k < |s| :: s[k] <= m
  {
    if |s| == 1 then s[0]
    else
      var m := Max(s[1..]);
      assert s[1..][0] in s[1..];
      if s[0] >= m then s[0] else m
  }
}
