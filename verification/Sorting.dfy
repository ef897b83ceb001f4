/** Sorting by a strict order that is total on the elements at hand; the result is unique. */
module Sorting {
  import opened Sequences

  /** `lt` orders any two different elements of `s` and is transitive and irreflexive on them. */
  ghost predicate TotalOn<T>(lt: (T, T) -> bool, s: seq<T>) {
    && (forall a | a in s :: !lt(a, a))
    && (forall a, b | a in s && b in s && a != b :: lt(a, b) || lt(b, a))
    && (forall a, b, c | a in s && b in s && c in s && lt(a, b) && lt(b, c) :: lt(a, c))
  }

  ghost predicate Sorted<T>(lt: (T, T) -> bool, s: seq<T>) {
    forall i, j | 0 <= i < j < |s| :: lt(s[i], s[j])
  }

  ghost predicate SameElements<T(!new)>(a: seq<T>, b: seq<T>) {
    forall x :: x in a <==> x in b
  }

  function Insert<T>(lt: (T, T) -> bool, x: T, s: seq<T>): seq<T> {
    if |s| == 0 || lt(x, s[0]) then [x] + s else [s[0]] + Insert(lt, x, s[1..])
  }

  function Sort<T>(lt: (T, T) -> bool, s: seq<T>): seq<T> {
    if |s| == 0 then [] else Insert(lt, s[|s| - 1], Sort(lt, s[..|s| - 1]))
  }

  lemma AddHead<T>(lt: (T, T) -> bool, x: T, s: seq<T>)
    requires Sorted(lt, s) && forall i | 0 <= i < |s| :: lt(x, s[i])
    ensures Sorted(lt, [x] + s)
  {}

  lemma TotalOnPart<T(!new)>(lt: (T, T) -> bool, s: seq<T>, part: seq<T>)
    requires TotalOn(lt, s) && forall y :: y in part ==> y in s
    ensures TotalOn(lt, part)
  {}

  lemma {:induction false} InsertKeeps<T(!new)>(lt: (T, T) -> bool, x: T, s: seq<T>)
    ensures |Insert(lt, x, s)| == |s| + 1
    ensures forall y :: y in Insert(lt, x, s) <==> y == x || y in s
  {
    if |s| > 0 && !lt(x, s[0]) {
      InsertKeeps(lt, x, s[1..]);
      assert s == [s[0]] + s[1..];
    }
  }

  lemma {:induction false} InsertSorts<T(!new)>(lt: (T, T) -> bool, x: T, s: seq<T>)
    requires TotalOn(lt, s + [x]) && Sorted(lt, s) && x !in s
    ensures Sorted(lt, Insert(lt, x, s))
  {
    assert x in s + [x] && forall y :: y in s ==> y in s + [x];
    if |s| == 0 {
    } else if lt(x, s[0]) {
      assert forall i | 0 < i < |s| :: lt(s[0], s[i]);
      assert forall y :: y in s ==> lt(x, y);
    } else {
      assert s == [s[0]] + s[1..];
      assert forall y :: y in s[1..] + [x] ==> y in s + [x];
      TotalOnPart(lt, s + [x], s[1..] + [x]);
      assert Sorted(lt, s[1..]) by {
        assert forall i | 0 <= i < |s| - 1 :: s[1..][i] == s[i + 1];
      }
      InsertSorts(lt, x, s[1..]);
      HeadBefore(lt, x, s);
      AddHead(lt, s[0], Insert(lt, x, s[1..]));
    }
  }

  lemma HeadBefore<T(!new)>(lt: (T, T) -> bool, x: T, s: seq<T>)
    requires TotalOn(lt, s + [x]) && Sorted(lt, s) && x !in s && |s| > 0 && !lt(x, s[0])
    ensures forall i | 0 <= i < |Insert(lt, x, s[1..])| :: lt(s[0], Insert(lt, x, s[1..])[i])
  {
    hide Insert;
    InsertKeeps(lt, x, s[1..]);
    var rest := Insert(lt, x, s[1..]);
    assert s[0] in s + [x] && x in s + [x];
    assert lt(s[0], x);
    assert forall y :: y in s[1..] ==> lt(s[0], y);
    assert forall i | 0 <= i < |rest| :: rest[i] in rest;
  }

  /** The sorted list holds the same elements, each once, in order. */
  lemma {:induction false} SortSorts<T(!new)>(lt: (T, T) -> bool, s: seq<T>)
    requires TotalOn(lt, s) && Unique(s)
    ensures Sorted(lt, Sort(lt, s)) && |Sort(lt, s)| == |s| && SameElements(s, Sort(lt, s))
  {
    if |s| > 0 {
      var rest, x := s[..|s| - 1], s[|s| - 1];
      assert s == rest + [x];
      TotalOnPart(lt, s, rest);
      SortSorts(lt, rest);
      TotalOnPart(lt, s, Sort(lt, rest) + [x]);
      InsertSorts(lt, x, Sort(lt, rest));
      InsertKeeps(lt, x, Sort(lt, rest));
    }
  }

  /** Two sorted lists of the same elements are equal. */
  lemma {:induction false} SortedUnique<T(!new)>(lt: (T, T) -> bool, a: seq<T>, b: seq<T>)
    requires TotalOn(lt, a) && Sorted(lt, a) && Sorted(lt, b) && SameElements(a, b)
    ensures a == b
    decreases |a|
  {
    assert |b| > 0 ==> b[0] in b;
    if |a| > 0 {
      assert a[0] in b && a[0] in a;
      assert |b| > 0 && b[0] in a;
      assert forall x | x in a && x != a[0] :: lt(a[0], x);
      assert forall x | x in b && x != b[0] :: lt(b[0], x);
      assert a[0] == b[0];
      Headless(lt, a);
      HeadlessOf(lt, a, b);
      SortedUnique(lt, a[1..], b[1..]);
      assert a == [a[0]] + a[1..] && b == [b[0]] + b[1..];
    }
  }

  lemma Headless<T(!new)>(lt: (T, T) -> bool, a: seq<T>)
    requires TotalOn(lt, a) && Sorted(lt, a) && |a| > 0
    ensures TotalOn(lt, a[1..]) && Sorted(lt, a[1..]) && a[0] !in a[1..]
    ensures forall x :: x in a <==> x == a[0] || x in a[1..]
  {
    assert a == [a[0]] + a[1..];
    assert forall x | x in a[1..] :: x in a;
    assert a[0] in a && forall i | 0 < i < |a| :: lt(a[0], a[i]);
  }

  lemma HeadlessOf<T(!new)>(lt: (T, T) -> bool, a: seq<T>, b: seq<T>)
    requires TotalOn(lt, a) && Sorted(lt, b) && SameElements(a, b) && |a| > 0 && |b| > 0
    requires a[0] == b[0] && a[0] !in a[1..] && (forall x :: x in a <==> x == a[0] || x in a[1..])
    ensures Sorted(lt, b[1..]) && SameElements(a[1..], b[1..])
  {
    assert b == [b[0]] + b[1..];
    assert a[0] in a && forall i | 0 < i < |b| :: lt(b[0], b[i]);
    forall x
      ensures x in a[1..] <==> x in b[1..]
    {
      assert x in b <==> x == b[0] || x in b[1..];
    }
  }
}
