/**
 * The three calls the source makes into Python's `random` module.  Each
 * result is an arbitrary value within the documented range; nothing is
 * claimed about the distribution.
 */
module RandomSource {

  /** random.choice: some element of a non-empty sequence. */
  method Choice<T>(s: seq<T>) returns (x: T)
    requires |s| > 0
    ensures x in s
  {
    var i :| 0 <= i < |s|;
    x := s[i];
  }

  /** random.randint(lo, hi): some integer of the closed range. */
  method RandInt(lo: int, hi: int) returns (n: int)
    requires lo <= hi
    ensures lo <= n <= hi
  {
    n :| lo <= n <= hi;
  }

  /** random.shuffle: rearranges the list in place (Fisher-Yates, as Python does). */
  method Shuffle(a: array<int>)
    modifies a
    ensures multiset(a[..]) == multiset(old(a[..]))
  {
    var i := a.Length - 1;
    while i > 0
      invariant i < a.Length
      invariant multiset(a[..]) == multiset(old(a[..]))
    {
      var j := RandInt(0, i);
      a[i], a[j] := a[j], a[i];
      i := i - 1;
    }
  }
}
