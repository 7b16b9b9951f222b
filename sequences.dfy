/** Small facts about sequences and sets shared by the validator, the cycle detector and the commands. */
module Sequences {

  /** No name occurs twice. */
  predicate NoDuplicates(s: seq<string>) {
    forall i, j :: 0 <= i < j < |s| ==> s[i] != s[j]
  }

  /** The first element of a non-empty sequence is one of its elements. */
  lemma HeadIn(s: seq<string>)
    requires s != []
    ensures s[0] in s
  {
  }

  /** The index of the first occurrence of x in s, or -1 when x does not occur (Go's "found index" idiom). */
  function IndexOf(s: seq<string>, x: string): (r: int)
    ensures -1 <= r < |s|
    ensures r == -1 <==> x !in s
    ensures 0 <= r ==> s[r] == x && x !in s[..r]
  {
    if s == [] then -1
    else if s[0] == x then 0
    else
      var k := IndexOf(s[1..], x);
      assert s[1..][..if k < 0 then 0 else k] == s[1..if k < 0 then 1 else k + 1];
      if k == -1 then -1 else k + 1
  }

  /** The linear scan with a break that the source writes out wherever it looks a name up in a slice. */
  method FindIndex(s: seq<string>, x: string) returns (found: int)
    ensures found == IndexOf(s, x)
  {
    found := -1;
    var i := 0;
    while i < |s|
      invariant 0 <= i <= |s|
      invariant x !in s[..i]
    {
      if s[i] == x {
        found := i;
        break;
      }
      assert s[..i + 1] == s[..i] + [s[i]];
      i := i + 1;
    }
    if found == -1 {
      assert s[..i] == s;
    }
  }

  /** n copies of x. */
  function Repeat(x: string, n: nat): (r: seq<string>)
    ensures |r| == n
  {
    if n == 0 then [] else Repeat(x, n - 1) + [x]
  }

  lemma {:induction false} RepeatCount(x: string, n: nat, y: string)
    ensures multiset(Repeat(x, n))[y] == if y == x then n else 0
  {
    if n > 0 {
      RepeatCount(x, n - 1, y);
    }
  }

  /** How often x occurs in s. */
  function Count(s: seq<string>, x: string): nat {
    if s == [] then 0 else Count(s[..|s| - 1], x) + (if s[|s| - 1] == x then 1 else 0)
  }

  lemma {:induction false} CountIsMultiplicity(s: seq<string>, x: string)
    ensures Count(s, x) == multiset(s)[x]
  {
    if s != [] {
      assert s == s[..|s| - 1] + [s[|s| - 1]];
      CountIsMultiplicity(s[..|s| - 1], x);
    }
  }

  /** A subset is no larger than its superset. */
  lemma {:induction false} SubsetCard(x: set<string>, y: set<string>)
    requires x <= y
    ensures |x| <= |y|
    decreases x
  {
    if |x| > 0 {
      var e :| e in x;
      SubsetCard(x - {e}, y - {e});
    }
  }

  /** Growing the set of visited names never grows what remains to visit... */
  lemma RemainderShrinks(u: set<string>, a: set<string>, b: set<string>)
    requires a <= b
    ensures |u - b| <= |u - a|
  {
    SubsetCard(u - b, u - a);
  }

  /** ...and visiting one more name of the universe strictly shrinks it. */
  lemma RemainderDrops(u: set<string>, a: set<string>, d: string)
    requires d in u && d !in a
    ensures |u - (a + {d})| < |u - a|
  {
    assert u - a == (u - (a + {d})) + {d};
  }

  /** The set of elements of s. */
  function Elements(s: seq<string>): (r: set<string>)
    ensures forall x :: x in r <==> x in s
  {
    set x | x in s
  }

  /** A sequence without duplicates has as many elements as its set of elements. */
  lemma {:induction false} DistinctCard(s: seq<string>)
    requires NoDuplicates(s)
    ensures |Elements(s)| == |s|
  {
    if s != [] {
      var init, last := s[..|s| - 1], s[|s| - 1];
      assert s == init + [last];
      assert NoDuplicates(init);
      forall k | 0 <= k < |init| ensures init[k] != last {
        assert init[k] == s[k];
      }
      DistinctCard(init);
      assert Elements(s) == Elements(init) + {last};
    }
  }
}
