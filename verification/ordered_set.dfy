/**
  A JavaScript `Set` remembers the order in which its elements were first
  added, and `Array.from` hands them back in that order. This module models
  such a set as the sequence of its elements and proves what a caller of
  `add` followed by `Array.from` may rely on: no element twice, exactly the
  elements added, in the order of their first addition.
 */
module InsertionOrderedSet {

  /** True when no element of `s` occurs twice. */
  predicate NoDuplicates<T(==)>(s: seq<T>) {
    forall i, j :: 0 <= i < j < |s| ==> s[i] != s[j]
  }

  /** `Set.prototype.add`: an element already present leaves the set as it
      was; a new one is remembered after all the others. */
  function Add<T(==,!new)>(s: seq<T>, x: T): (r: seq<T>)
    ensures forall y :: y in r <==> y in s || y == x
    ensures NoDuplicates(s) ==> NoDuplicates(r)
    ensures x in s ==> r == s
    ensures x !in s ==> |r| == |s| + 1 && r[..|s|] == s && r[|s|] == x
  {
    if x in s then s else s + [x]
  }

  /** The contents, in iteration order, of a fresh set after `add` was called
      with every element of `xs` in turn. */
  function FromSeq<T(==,!new)>(xs: seq<T>): (r: seq<T>)
    ensures NoDuplicates(r)
    ensures forall y :: y in r <==> y in xs
    ensures |r| <= |xs|
    decreases |xs|
  {
    if |xs| == 0 then []
    else
      var init := xs[..|xs| - 1];
      assert xs == init + [xs[|xs| - 1]];
      Add(FromSeq(init), xs[|xs| - 1])
  }

  /** The position at which `x` occurs in `xs` for the first time. */
  function FirstIndex<T(==)>(xs: seq<T>, x: T): (i: nat)
    requires x in xs
    ensures i < |xs| && xs[i] == x
    ensures forall j :: 0 <= j < i ==> xs[j] != x
  {
    if xs[0] == x then 0 else 1 + FirstIndex(xs[1..], x)
  }

  /** True when every element of `s` occurs in `xs` and the elements of `s`
      appear in the order of their first occurrence in `xs`. */
  predicate InFirstOccurrenceOrder<T(==,!new)>(s: seq<T>, xs: seq<T>) {
    && (forall y :: y in s ==> y in xs)
    && forall i, j :: 0 <= i < j < |s| ==>
         s[i] in xs && s[j] in xs && FirstIndex(xs, s[i]) < FirstIndex(xs, s[j])
  }

  /** Adding elements at the end does not move an earlier first occurrence. */
  lemma {:induction false} FirstIndexOfPrefix<T(!new)>(xs: seq<T>, ys: seq<T>, x: T)
    requires x in xs
    ensures x in xs + ys
    ensures FirstIndex(xs + ys, x) == FirstIndex(xs, x)
    decreases |xs|
  {
    if xs[0] != x {
      assert (xs + ys)[1..] == xs[1..] + ys;
      FirstIndexOfPrefix(xs[1..], ys, x);
    }
  }

  /** Adding one more element is the same as adding all but the last and then
      the last. */
  lemma FromSeqSnoc<T(!new)>(xs: seq<T>, x: T)
    ensures FromSeq(xs + [x]) == Add(FromSeq(xs), x)
  {
  }

  /** The same, after a fixed prefix of earlier additions. */
  lemma {:induction false} AddAfter<T(!new)>(before: seq<T>, xs: seq<T>, x: T)
    ensures FromSeq(before + (xs + [x])) == Add(FromSeq(before + xs), x)
  {
    assert before + (xs + [x]) == (before + xs) + [x];
    FromSeqSnoc(before + xs, x);
  }

  /** Adding `x`, `x` again and then a different `y` leaves `x, y`. */
  lemma RepeatCollapses<T(!new)>(x: T, y: T)
    requires x != y
    ensures FromSeq([x, x, y]) == [x, y]
  {
  }

  /** The set hands its elements back in the order they were first added. */
  lemma {:induction false} FromSeqOrder<T(!new)>(xs: seq<T>)
    ensures InFirstOccurrenceOrder(FromSeq(xs), xs)
    decreases |xs|
  {
    if |xs| > 0 {
      var init := xs[..|xs| - 1];
      var x := xs[|xs| - 1];
      assert xs == init + [x];
      FromSeqOrder(init);
      var d := FromSeq(init);
      var r := FromSeq(xs);
      forall y | y in d
        ensures FirstIndex(xs, y) == FirstIndex(init, y)
      {
        FirstIndexOfPrefix(init, [x], y);
      }
      if x !in d {
        assert x !in init;
        assert FirstIndex(xs, x) == |init|;
        forall i, j | 0 <= i < j < |r|
          ensures FirstIndex(xs, r[i]) < FirstIndex(xs, r[j])
        {
          assert r[i] in d;
          if j < |d| {
            assert r[j] in d;
          }
        }
      }
    }
  }

  /** Dropping the first element keeps a sequence duplicate-free and in
      first-occurrence order, and the dropped element does not recur. */
  lemma TailKeepsOrder<T(!new)>(xs: seq<T>, s: seq<T>)
    requires |s| > 0 && NoDuplicates(s) && InFirstOccurrenceOrder(s, xs)
    ensures NoDuplicates(s[1..]) && InFirstOccurrenceOrder(s[1..], xs)
    ensures forall y :: y in s <==> y == s[0] || y in s[1..]
    ensures s[0] !in s[1..]
  {
  }

  /** The head of a sequence in first-occurrence order occurs in `xs` before
      every other element of the sequence. */
  lemma HeadOccursFirst<T(!new)>(xs: seq<T>, s: seq<T>)
    requires |s| > 0 && InFirstOccurrenceOrder(s, xs)
    ensures forall y :: y in s && y != s[0] ==>
              y in xs && s[0] in xs && FirstIndex(xs, s[0]) < FirstIndex(xs, y)
  {
    forall y | y in s && y != s[0]
      ensures y in xs && s[0] in xs && FirstIndex(xs, s[0]) < FirstIndex(xs, y)
    {
      var j :| 0 <= j < |s| && s[j] == y;
      assert 0 < j;
    }
  }

  /** Two non-empty sequences with the same elements, both in first-occurrence
      order, start with the same element. */
  lemma HeadsAgree<T(!new)>(xs: seq<T>, s: seq<T>, t: seq<T>)
    requires |s| > 0 && |t| > 0
    requires forall y :: y in s <==> y in t
    requires InFirstOccurrenceOrder(s, xs) && InFirstOccurrenceOrder(t, xs)
    ensures s[0] == t[0]
  {
    HeadOccursFirst(xs, s);
    HeadOccursFirst(xs, t);
    assert s[0] in t && t[0] in s;
  }

  /** Two duplicate-free sequences with the same elements, both in the order
      of first occurrence in `xs`, are the same sequence. */
  lemma {:induction false} OrderedUnique<T(!new)>(xs: seq<T>, s: seq<T>, t: seq<T>)
    requires NoDuplicates(s) && NoDuplicates(t)
    requires forall y :: y in s <==> y in t
    requires InFirstOccurrenceOrder(s, xs) && InFirstOccurrenceOrder(t, xs)
    ensures s == t
    decreases |s|
  {
    assert |s| > 0 ==> s[0] in t;
    assert |t| > 0 ==> t[0] in s;
    if |s| > 0 {
      HeadsAgree(xs, s, t);
      TailKeepsOrder(xs, s);
      TailKeepsOrder(xs, t);
      OrderedUnique(xs, s[1..], t[1..]);
      assert s == [s[0]] + s[1..] && t == [t[0]] + t[1..];
    }
  }

  /** `FromSeq` is characterised by its three properties: any duplicate-free
      sequence holding exactly the elements of `xs` in first-occurrence order
      is `FromSeq(xs)`. */
  lemma FromSeqIsUnique<T(!new)>(xs: seq<T>, s: seq<T>)
    requires NoDuplicates(s)
    requires forall y :: y in s <==> y in xs
    requires InFirstOccurrenceOrder(s, xs)
    ensures s == FromSeq(xs)
  {
    FromSeqOrder(xs);
    OrderedUnique(xs, s, FromSeq(xs));
  }

  /** Adding elements that are already present changes nothing. */
  lemma {:induction false} FromSeqIgnoresSeen<T(!new)>(xs: seq<T>, ys: seq<T>)
    requires forall y :: y in ys ==> y in xs
    ensures FromSeq(xs + ys) == FromSeq(xs)
    decreases |ys|
  {
    if |ys| > 0 {
      var init := ys[..|ys| - 1];
      var y := ys[|ys| - 1];
      assert ys == init + [y];
      assert xs + ys == (xs + init) + [y];
      FromSeqIgnoresSeen(xs, init);
      FromSeqSnoc(xs + init, y);
      assert y in FromSeq(xs + init);
    } else {
      assert xs + ys == xs;
    }
  }
}
