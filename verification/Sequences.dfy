/** Byte strings, and sequences without repetition. */
module Sequences {
  newtype byte = x: int | 0 <= x < 256
  type Bytes = seq<byte>

  function Elements<T>(s: seq<T>): set<T> {
    set x | x in s
  }

  predicate NoRepeats<T(==)>(s: seq<T>) {
    forall i, j :: 0 <= i < j < |s| ==> s[i] != s[j]
  }

  lemma AppendUnique<T>(s: seq<T>, x: T)
    ensures NoRepeats(s + [x]) <==> NoRepeats(s) && x !in s
  {
    var longer := s + [x];
    assert forall i :: 0 <= i < |s| ==> longer[i] == s[i];
    assert longer[|s|] == x;
    if NoRepeats(longer) {
      forall i | 0 <= i < |s|
        ensures s[i] != x
      {
        assert longer[i] != longer[|s|];
      }
      forall i, j | 0 <= i < j < |s|
        ensures s[i] != s[j]
      {
        assert longer[i] != longer[j];
      }
    }
  }

  lemma Associative<T>(a: seq<T>, b: seq<T>, c: seq<T>)
    ensures (a + b) + c == a + (b + c)
  {
  }

  /** Without repetition there are at most as many elements as there are values to take. */
  lemma {:induction false} Pigeonhole<T>(s: seq<T>, allowed: set<T>)
    requires NoRepeats(s) && forall x :: x in s ==> x in allowed
    ensures |s| <= |allowed|
  {
    if s == [] {
    } else {
      var init, last := s[..|s| - 1], s[|s| - 1];
      assert last !in init;
      Pigeonhole(init, allowed - {last});
    }
  }

  lemma {:induction false} FewElements<T>(s: seq<T>)
    ensures |Elements(s)| <= |s|
  {
    if s == [] {
    } else {
      var init, last := s[..|s| - 1], s[|s| - 1];
      FewElements(init);
      assert s == init + [last];
      assert Elements(s) == Elements(init) + {last};
    }
  }
}
