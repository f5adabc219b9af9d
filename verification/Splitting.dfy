/** Splitting a sequence at a separator, and joining the parts again. */
module Splitting {
  /** The first position of `separator`, or the length when there is none. */
  function IndexOf<T(==)>(s: seq<T>, separator: T): (k: nat)
    ensures k <= |s| && separator !in s[..k]
    ensures k < |s| ==> s[k] == separator
  {
    if s == [] || s[0] == separator then 0 else 1 + IndexOf(s[1..], separator)
  }

  function Split<T(==)>(s: seq<T>, separator: T): (parts: seq<seq<T>>)
    ensures parts != []
    decreases |s|
  {
    var k := IndexOf(s, separator);
    if k == |s| then [s] else [s[..k]] + Split(s[k + 1..], separator)
  }

  function Join<T>(parts: seq<seq<T>>, separator: T): seq<T> {
    if parts == [] then [] else if |parts| == 1 then parts[0]
    else parts[0] + [separator] + Join(parts[1..], separator)
  }

  lemma {:induction false} IndexOfFirst<T>(s: seq<T>, separator: T, k: nat)
    requires k <= |s| && separator !in s[..k]
    requires k == |s| || s[k] == separator
    ensures IndexOf(s, separator) == k
  {
    if k == 0 {
    } else {
      assert s[..k][0] == s[0];
      assert s[1..][..k - 1] == s[..k][1..];
      IndexOfFirst(s[1..], separator, k - 1);
    }
  }

  /** The part before the first separator, and what follows it. */
  lemma SplitFirst<T>(first: seq<T>, separator: T, rest: seq<T>)
    requires separator !in first
    ensures IndexOf(first + [separator] + rest, separator) == |first|
    ensures Split(first + [separator] + rest, separator) == [first] + Split(rest, separator)
  {
    var s := first + [separator] + rest;
    assert s[..|first|] == first && s[|first| + 1..] == rest;
    IndexOfFirst(s, separator, |first|);
  }

  lemma SplitWhole<T>(s: seq<T>, separator: T)
    requires separator !in s
    ensures IndexOf(s, separator) == |s| && Split(s, separator) == [s]
  {
    assert s[..|s|] == s;
    IndexOfFirst(s, separator, |s|);
  }

  lemma {:induction false} SplitOfJoin<T>(parts: seq<seq<T>>, separator: T)
    requires parts != [] && forall i | 0 <= i < |parts| :: separator !in parts[i]
    ensures Split(Join(parts, separator), separator) == parts
  {
    if |parts| == 1 {
      SplitWhole(parts[0], separator);
    } else {
      SplitFirst(parts[0], separator, Join(parts[1..], separator));
      SplitOfJoin(parts[1..], separator);
    }
  }

  lemma JoinUnfold<T>(first: seq<T>, others: seq<seq<T>>, separator: T)
    requires others != []
    ensures Join([first] + others, separator) == first + [separator] + Join(others, separator)
  {
    assert ([first] + others)[1..] == others;
  }

  lemma {:induction false} JoinOfSplit<T>(s: seq<T>, separator: T)
    ensures Join(Split(s, separator), separator) == s
    decreases |s|
  {
    var k := IndexOf(s, separator);
    if k == |s| {
      assert Split(s, separator) == [s];
    } else {
      var first, others := s[..k], Split(s[k + 1..], separator);
      JoinOfSplit(s[k + 1..], separator);
      JoinUnfold(first, others, separator);
      assert Split(s, separator) == [first] + others;
      assert s == first + [separator] + s[k + 1..];
    }
  }

  lemma {:induction false} PartsHoldNoSeparator<T>(s: seq<T>, separator: T, i: nat)
    requires i < |Split(s, separator)|
    ensures separator !in Split(s, separator)[i]
    decreases |s|
  {
    var k := IndexOf(s, separator);
    if k == |s| {
      assert s[..k] == s;
    } else if i == 0 {
    } else {
      PartsHoldNoSeparator(s[k + 1..], separator, i - 1);
    }
  }

  lemma JoinThree<T>(a: seq<T>, b: seq<T>, c: seq<T>, separator: T)
    ensures Join([a, b, c], separator) == a + [separator] + b + [separator] + c
  {
    assert [a, b, c][1..] == [b, c];
    assert [b, c][1..] == [c];
    assert Join([b, c], separator) == b + [separator] + c;
    assert a + [separator] + (b + [separator] + c) == a + [separator] + b + [separator] + c;
  }
}
