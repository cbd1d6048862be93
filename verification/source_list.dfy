/**
 A source list: the ordered, duplicate-free sequence of source expressions held for one
 directive (the `UniqueValuesArray` collaborator of the policy). Membership has set semantics,
 output order is first-insertion order. Every operation returns a new list.
 */
module SourceList {

  /** No entry occurs twice. */
  predicate Distinct(s: seq<string>) {
    forall i, j :: 0 <= i < j < |s| ==> s[i] != s[j]
  }

  /** Position of the first occurrence of `x` in `s`. */
  function IndexOf(s: seq<string>, x: string): (i: nat)
    requires x in s
    ensures i < |s| && s[i] == x
    ensures forall j :: 0 <= j < i ==> s[j] != x
  {
    if s[0] == x then 0 else 1 + IndexOf(s[1..], x)
  }

  /** Every entry of `r` occurs in `s`, and `r` lists them in the order of their first occurrence in `s`. */
  predicate InOrderOf(r: seq<string>, s: seq<string>) {
    && (forall i :: 0 <= i < |r| ==> r[i] in s)
    && (forall i, j :: 0 <= i < j < |r| ==> IndexOf(s, r[i]) < IndexOf(s, r[j]))
  }

  /** `add`: append `x` unless it is already present. */
  function Add(s: seq<string>, x: string): (r: seq<string>)
    ensures forall y {:trigger y in r} :: y in r <==> y in s || y == x
    ensures |s| <= |r| && r[..|s|] == s
    ensures |r| == if x in s then |s| else |s| + 1
    ensures Distinct(s) ==> Distinct(r)
  {
    if x in s then s else s + [x]
  }

  /** Adding to a list whose head differs from the item adds to its tail. */
  lemma AddCons(h: string, t: seq<string>, x: string)
    requires x != h
    ensures Add([h] + t, x) == [h] + Add(t, x)
  {
    assert x in [h] + t <==> x in t;
  }

  /** `addList`: `add` each of `xs` in turn. */
  function AddList(s: seq<string>, xs: seq<string>): (r: seq<string>)
    ensures |s| <= |r| && r[..|s|] == s
    ensures forall y {:trigger y in r} :: y in r <==> y in s || y in xs
    ensures Distinct(s) ==> Distinct(r)
    decreases |xs|
  {
    if xs == [] then s
    else
      var s' := Add(s, xs[0]);
      var r := AddList(s', xs[1..]);
      assert r[..|s|] == s by {
        assert r[..|s'|] == s';
        assert s'[..|s|] == s;
      }
      r
  }

  /** `addList` of `[x] + xs` adds `x` first. */
  lemma AddListCons(s: seq<string>, x: string, xs: seq<string>)
    ensures AddList(s, [x] + xs) == AddList(Add(s, x), xs)
  {
    assert ([x] + xs)[1..] == xs;
  }

  /**
   What `addList` appends after the original entries: only items that were absent, each once,
   in the order of their first occurrence in `xs`.
   */
  lemma {:induction false} AddListAppendsInOrder(s: seq<string>, xs: seq<string>)
    ensures forall i :: |s| <= i < |AddList(s, xs)| ==> AddList(s, xs)[i] !in s
    ensures Distinct(AddList(s, xs)[|s|..])
    ensures InOrderOf(AddList(s, xs)[|s|..], xs)
    decreases |xs|
  {
    if xs != [] {
      var s' := Add(s, xs[0]);
      var r := AddList(s', xs[1..]);
      AddListAppendsInOrder(s', xs[1..]);
      assert forall i :: |s| <= i < |s'| ==> s'[i] == xs[0] && xs[0] !in s;
      AddListSuffixOrder(s, xs, s', r);
    }
  }

  /** The ordering step of `AddList`: the items appended after the first one come later in `xs`. */
  lemma AddListSuffixOrder(s: seq<string>, xs: seq<string>, s': seq<string>, r: seq<string>)
    requires xs != [] && s' == Add(s, xs[0])
    requires |s'| <= |r| && r[..|s'|] == s'
    requires forall i :: |s'| <= i < |r| ==> r[i] !in s'
    requires Distinct(r[|s'|..]) && InOrderOf(r[|s'|..], xs[1..])
    ensures Distinct(r[|s|..])
    ensures forall i :: |s| <= i < |r| ==> r[i] !in s
    ensures InOrderOf(r[|s|..], xs)
  {
    var t, t' := r[|s|..], r[|s'|..];
    forall i | 0 <= i < |t'|
      ensures t'[i] in xs && t'[i] != xs[0] && IndexOf(xs, t'[i]) == 1 + IndexOf(xs[1..], t'[i])
    {
      assert t'[i] == r[|s'| + i];
      assert t'[i] in xs[1..];
    }
    if xs[0] in s {
      assert t == t';
    } else {
      assert t == [xs[0]] + t';
      PrependFirst(xs, t');
    }
  }

  /** Putting the first item of `xs` in front of an ordered run of later items keeps the run ordered. */
  lemma PrependFirst(xs: seq<string>, t': seq<string>)
    requires xs != []
    requires Distinct(t') && InOrderOf(t', xs[1..])
    requires forall i :: 0 <= i < |t'| ==> t'[i] in xs && t'[i] != xs[0] && IndexOf(xs, t'[i]) == 1 + IndexOf(xs[1..], t'[i])
    ensures Distinct([xs[0]] + t') && InOrderOf([xs[0]] + t', xs)
  {
    var t := [xs[0]] + t';
    assert IndexOf(xs, xs[0]) == 0;
    assert forall i {:trigger t[i]} :: 0 < i < |t| ==> t[i] == t'[i - 1];
    forall i, j | 0 <= i < j < |t| ensures t[i] != t[j] {
      if i > 0 {
        assert t'[i - 1] != t'[j - 1];
      }
    }
    forall i, j | 0 <= i < j < |t| ensures IndexOf(xs, t[i]) < IndexOf(xs, t[j]) {
      if i > 0 {
        assert IndexOf(xs[1..], t'[i - 1]) < IndexOf(xs[1..], t'[j - 1]);
      }
    }
  }

  /** `remove`: drop `x`, keep everything else in order. */
  function Remove(s: seq<string>, x: string): (r: seq<string>)
    ensures forall y {:trigger y in r} :: y in r <==> y in s && y != x
    ensures |r| <= |s|
    ensures x !in s ==> r == s
    ensures Distinct(s) ==> Distinct(r) && InOrderOf(r, s)
  {
    if s == [] then []
    else
      var r := Remove(s[1..], x);
      if s[0] == x then
        KeepOrderTail(s, r);
        r
      else
        KeepOrderCons(s, r);
        [s[0]] + r
  }

  /** `removeList`: drop every entry named in `xs`, keep everything else in order. */
  function RemoveList(s: seq<string>, xs: seq<string>): (r: seq<string>)
    ensures forall y {:trigger y in r} :: y in r <==> y in s && y !in xs
    ensures |r| <= |s|
    ensures (forall y :: y in xs ==> y !in s) ==> r == s
    ensures Distinct(s) ==> Distinct(r) && InOrderOf(r, s)
  {
    if s == [] then []
    else
      var r := RemoveList(s[1..], xs);
      if s[0] in xs then
        KeepOrderTail(s, r);
        assert s[0] in s;
        r
      else
        KeepOrderCons(s, r);
        assert [s[0]] + s[1..] == s;
        [s[0]] + r
  }

  /** Dropping the head of a duplicate-free list keeps the order of what is left. */
  lemma KeepOrderTail(s: seq<string>, r: seq<string>)
    requires s != []
    requires forall y :: y in r ==> y in s[1..]
    requires Distinct(s[1..]) ==> Distinct(r) && InOrderOf(r, s[1..])
    ensures Distinct(s) ==> Distinct(r) && InOrderOf(r, s)
  {
    if Distinct(s) {
      assert Distinct(s[1..]);
      TailIndex(s);
    }
  }

  /** Keeping the head of a duplicate-free list keeps the order of what is left. */
  lemma KeepOrderCons(s: seq<string>, r: seq<string>)
    requires s != []
    requires forall y :: y in r ==> y in s[1..]
    requires Distinct(s[1..]) ==> Distinct(r) && InOrderOf(r, s[1..])
    ensures Distinct(s) ==> Distinct([s[0]] + r) && InOrderOf([s[0]] + r, s)
  {
    if Distinct(s) {
      assert Distinct(s[1..]);
      TailIndex(s);
      var t := [s[0]] + r;
      assert s[0] !in s[1..];
      forall i, j | 0 <= i < j < |t| ensures t[i] != t[j] && IndexOf(s, t[i]) < IndexOf(s, t[j]) {
        assert t[j] == r[j - 1];
        if i > 0 {
          assert t[i] == r[i - 1];
        }
      }
    }
  }

  /** In a duplicate-free list, entries of the tail sit one position later in the whole. */
  lemma TailIndex(s: seq<string>)
    requires s != [] && Distinct(s)
    ensures forall y :: y in s[1..] ==> y != s[0] && IndexOf(s, y) == 1 + IndexOf(s[1..], y)
  {
    forall y | y in s[1..] ensures y != s[0] {
      var k :| 0 <= k < |s[1..]| && s[1..][k] == y;
      assert s[k + 1] == y;
    }
  }

  /** Adding an item twice is the same as adding it once. */
  lemma AddIdempotent(s: seq<string>, x: string)
    ensures Add(Add(s, x), x) == Add(s, x)
  {
  }

  /** `remove` distributes over concatenation. */
  lemma {:induction false} RemoveAppend(a: seq<string>, b: seq<string>, x: string)
    ensures Remove(a + b, x) == Remove(a, x) + Remove(b, x)
  {
    if a == [] {
      assert a + b == b;
    } else {
      assert (a + b)[1..] == a[1..] + b;
      RemoveAppend(a[1..], b, x);
    }
  }

  /** Removing an item just added removes it altogether. */
  lemma {:induction false} RemoveAfterAdd(s: seq<string>, x: string)
    ensures Remove(Add(s, x), x) == Remove(s, x)
  {
    if x !in s {
      RemoveAppend(s, [x], x);
      assert Remove([x], x) == [];
    }
  }

  /** Adding an absent item and then removing it gives back the original list. */
  lemma AddThenRemove(s: seq<string>, x: string)
    requires x !in s
    ensures Remove(Add(s, x), x) == s
  {
    RemoveAfterAdd(s, x);
  }

  /** `removeList` is `remove` applied to each named item in turn. */
  lemma {:induction false} RemoveListStep(s: seq<string>, x: string, xs: seq<string>)
    ensures RemoveList(s, [x] + xs) == RemoveList(Remove(s, x), xs)
  {
    if s != [] {
      RemoveListStep(s[1..], x, xs);
      if s[0] != x {
        assert ([s[0]] + Remove(s[1..], x))[1..] == Remove(s[1..], x);
      }
    }
  }

  /** `removeList` depends only on which of the list's own entries are named, not on order or repeats. */
  lemma {:induction false} RemoveListAgree(s: seq<string>, xs: seq<string>, ys: seq<string>)
    requires forall y :: y in s ==> (y in xs <==> y in ys)
    ensures RemoveList(s, xs) == RemoveList(s, ys)
  {
    if s != [] {
      RemoveListAgree(s[1..], xs, ys);
    }
  }

  /** Adding `a + b` is adding `a`, then `b`. */
  lemma {:induction false} AddListConcat(s: seq<string>, a: seq<string>, b: seq<string>)
    ensures AddList(s, a + b) == AddList(AddList(s, a), b)
    decreases |a|
  {
    if a == [] {
      assert a + b == b;
    } else {
      assert (a + b)[0] == a[0] && (a + b)[1..] == a[1..] + b;
      AddListConcat(Add(s, a[0]), a[1..], b);
    }
  }

  /** Adding items that are all present already changes nothing. */
  lemma {:induction false} AddListPresent(s: seq<string>, a: seq<string>)
    requires forall y :: y in a ==> y in s
    ensures AddList(s, a) == s
    decreases |a|
  {
    if a != [] {
      assert a[0] in s;
      AddListPresent(s, a[1..]);
    }
  }

  /** Adding a list twice is the same as adding it once. */
  lemma AddListIdempotent(s: seq<string>, xs: seq<string>)
    ensures AddList(AddList(s, xs), xs) == AddList(s, xs)
  {
    AddListPresent(AddList(s, xs), xs);
  }

  /** Adding duplicate-free items that are all absent appends them as they are. */
  lemma {:induction false} AddListFresh(s: seq<string>, a: seq<string>)
    requires Distinct(a)
    requires forall y :: y in a ==> y !in s
    ensures AddList(s, a) == s + a
    decreases |a|
  {
    if a != [] {
      FreshStep(s, a);
      AddListFresh(s + [a[0]], a[1..]);
      AppendHead(s, a);
    }
  }

  /** Moving the head of `a` onto the end of `s`. */
  lemma AppendHead(s: seq<string>, a: seq<string>)
    requires a != []
    ensures (s + [a[0]]) + a[1..] == s + a
  {
  }

  /** One step of `AddListFresh`: the head is appended, and the tail stays fresh for the longer list. */
  lemma FreshStep(s: seq<string>, a: seq<string>)
    requires a != [] && Distinct(a)
    requires forall y :: y in a ==> y !in s
    ensures AddList(s, a) == AddList(s + [a[0]], a[1..])
    ensures Distinct(a[1..]) && forall y :: y in a[1..] ==> y !in s + [a[0]]
  {
    assert a[0] in a;
    assert Add(s, a[0]) == s + [a[0]];
    DistinctTail(a);
    forall y | y in a[1..] ensures y !in s + [a[0]] {
      assert y in a;
    }
  }

  /** The tail of a duplicate-free list is duplicate-free and does not contain its head. */
  lemma DistinctTail(a: seq<string>)
    requires a != [] && Distinct(a)
    ensures Distinct(a[1..]) && a[0] !in a[1..]
  {
    assert forall k :: 0 <= k < |a[1..]| ==> a[1..][k] == a[k + 1];
  }

  /** Removing `y` after adding a list is the same as adding the list without `y` to the list without `y`. */
  lemma {:induction false} AddListRemove(s: seq<string>, xs: seq<string>, y: string)
    ensures Remove(AddList(s, xs), y) == AddList(Remove(s, y), Remove(xs, y))
    decreases |xs|
  {
    if xs != [] {
      var x := xs[0];
      AddListRemove(Add(s, x), xs[1..], y);
      if x == y {
        RemoveAfterAdd(s, y);
      } else {
        if x !in s {
          RemoveAppend(s, [x], y);
        }
        assert Remove(Add(s, x), y) == Add(Remove(s, y), x);
        assert Remove(xs, y) == [x] + Remove(xs[1..], y);
      }
    }
  }

  /** Adding a list to `[y] + t` keeps `y` in front and adds the rest of the items to `t`. */
  lemma {:induction false} AddListHead(y: string, t: seq<string>, xs: seq<string>)
    ensures AddList([y] + t, xs) == [y] + AddList(t, Remove(xs, y))
    decreases |xs|
  {
    if xs != [] {
      var x := xs[0];
      if x == y {
        assert Add([y] + t, x) == [y] + t;
        AddListHead(y, t, xs[1..]);
      } else {
        assert Add([y] + t, x) == [y] + Add(t, x);
        AddListHead(y, Add(t, x), xs[1..]);
        assert Remove(xs, y) == [x] + Remove(xs[1..], y);
      }
    }
  }
}
