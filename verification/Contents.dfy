/**
 The contents of a sequence as a multiset: what is added in front and behind, and what is joined.
 */
module Contents {

  /** The contents of a sequence by its head. */
  lemma {:induction false} Head<T>(x: T, s: seq<T>)
    ensures multiset([x] + s) == multiset{x} + multiset(s)
  {
  }

  lemma {:induction false} HeadOf<T>(s: seq<T>)
    requires s != []
    ensures multiset(s) == multiset{s[0]} + multiset(s[1..])
  {
    Head(s[0], s[1..]);
    assert s == [s[0]] + s[1..];
  }

  lemma {:induction false} Member<T>(s: seq<T>, m: multiset<T>, i: nat)
    requires i < |s| && multiset(s) == m
    ensures s[i] in m
  {
  }

  lemma {:induction false} Moved<T>(a: T, b: T, m: multiset<T>)
    ensures multiset{a} + (m + multiset{b}) == multiset{a} + m + multiset{b}
  {
  }

  lemma {:induction false} Last<T>(s: seq<T>, x: T)
    ensures multiset(s + [x]) == multiset(s) + multiset{x}
  {
  }

  lemma {:induction false} Joined<T>(s: seq<T>, t: seq<T>)
    ensures multiset(s + t) == multiset(s) + multiset(t)
  {
  }

  lemma {:induction false} SameSize<T>(s: seq<T>, t: seq<T>)
    requires multiset(s) == multiset(t)
    ensures |s| == |t|
  {
    assert |s| == |multiset(s)| == |multiset(t)| == |t|;
  }

  lemma {:induction false} SameTails<T>(s: seq<T>, t: seq<T>)
    requires multiset(s) == multiset(t) && s != [] && t != [] && s[0] == t[0]
    ensures multiset(s[1..]) == multiset(t[1..])
  {
    HeadOf(s);
    HeadOf(t);
    assert multiset(s[1..]) == multiset(s) - multiset{s[0]};
    assert multiset(t[1..]) == multiset(t) - multiset{s[0]};
  }

  lemma {:induction false} SomeOf<T>(s: set<T>) returns (x: T)
    requires s != {}
    ensures x in s
  {
    x :| x in s;
  }
}
