/** The circular window buffer of windowbuff.c, read off as a sequence.
    Index 0 is the head (the focused window), s[i + 1] is the window that
    s[i]'s `next` points to, and the last element points back to s[0].
    The classes in WindowBuffer keep their nodes in step with these
    functions; the lemmas here state what the buffer promises. */
module WindowStack {

  /** An X11 window handle (an XID); the buffer only compares them. */
  type Window = nat

  /** Each handle appears at most once in the chain. */
  ghost predicate Distinct(s: seq<Window>) {
    forall i, j :: 0 <= i < j < |s| ==> s[i] != s[j]
  }

  function Last(s: seq<Window>): Window
    requires s != []
  {
    s[|s| - 1]
  }

  /** The position of `w` in the chain, counted from the head. */
  function IndexOf(s: seq<Window>, w: Window): (i: nat)
    requires w in s
    ensures i < |s| && s[i] == w
    ensures w !in s[..i]
  {
    if s[0] == w then 0
    else
      var j := IndexOf(s[1..], w);
      assert s[..j + 1] == [s[0]] + s[1..][..j];
      j + 1
  }

  /** The entry remWindow unlinks. Its search starts at the head and asks
      each entry whether its successor holds `w`, so it finds the first
      occurrence after the head, and reaches the head itself only when
      `w` occurs nowhere else. */
  function Target(s: seq<Window>, w: Window): (t: nat)
    requires w in s
    ensures t < |s| && s[t] == w
  {
    if w in s[1..] then IndexOf(s[1..], w) + 1 else 0
  }

  /** No entry strictly between the head and Target holds `w`, and Target
      is the head only when no other entry holds `w`. */
  lemma TargetIsFirstAfterHead(s: seq<Window>, w: Window)
    requires w in s
    ensures var t := Target(s, w);
            (t == 0 <==> w !in s[1..]) && forall i :: 1 <= i < t ==> s[i] != w
  {
    if w in s[1..] {
      var j := IndexOf(s[1..], w);
      forall i | 1 <= i < j + 1
        ensures s[i] != w
      {
        assert s[i] == s[1..][..j][i - 1];
      }
    }
  }

  /** With distinct handles, remWindow unlinks the head exactly when the
      head holds `w`. */
  lemma DistinctTarget(s: seq<Window>, w: Window)
    requires Distinct(s) && w in s
    ensures Target(s, w) == 0 <==> s[0] == w
  {
    TargetIsFirstAfterHead(s, w);
  }

  /** The chain without the element at position `t`, the others in place. */
  function Delete(s: seq<Window>, t: nat): (r: seq<Window>)
    requires t < |s|
    ensures |r| == |s| - 1
  {
    s[..t] + s[t + 1..]
  }

  /** The chain read from its k-th element instead of its head. */
  function Rotate(s: seq<Window>, k: nat): (r: seq<Window>)
    requires k <= |s|
    ensures |r| == |s|
  {
    s[k..] + s[..k]
  }

  /** The chain that remWindow leaves once `w` has been found: a sole
      element leaves the buffer empty; unlinking the head makes the
      head's predecessor (the last element) the new head; unlinking any
      other element leaves the head where it was. The element unlinked
      is the one at Target. */
  function Removed(s: seq<Window>, w: Window): (r: seq<Window>)
    requires w in s
    ensures |r| == |s| - 1
    ensures |s| >= 2 ==> r[0] == (if Target(s, w) == 0 then Last(s) else s[0])
  {
    var t := Target(s, w);
    if |s| == 1 then []
    else if t == 0 then [Last(s)] + s[1..|s| - 1]
    else s[..t] + s[t + 1..]
  }

  /** Unlinking takes out exactly one occurrence of `w`. */
  lemma RemovedMultiset(s: seq<Window>, w: Window)
    requires w in s
    ensures multiset(s) == multiset(Removed(s, w)) + multiset{w}
  {
    var t := Target(s, w);
    if |s| == 1 {
      assert s == [w];
    } else if t == 0 {
      HeadMovedMultiset(s);
    } else {
      DeleteMultiset(s, t);
    }
  }

  lemma HeadMovedMultiset(s: seq<Window>)
    requires |s| >= 2
    ensures multiset(s) == multiset([Last(s)] + s[1..|s| - 1]) + multiset{s[0]}
  {
    assert s == [s[0]] + s[1..|s| - 1] + [Last(s)];
  }

  lemma DeleteMultiset(s: seq<Window>, t: nat)
    requires t < |s|
    ensures multiset(s) == multiset(s[..t] + s[t + 1..]) + multiset{s[t]}
  {
    assert s == s[..t] + [s[t]] + s[t + 1..];
  }

  /** Index of the entry after the j-th in a cycle of n. */
  function Succ(n: nat, j: nat): nat
    requires j < n
  {
    if j == n - 1 then 0 else j + 1
  }

  /** Old position of the entry at position i after unlinking position t
      of a cycle of n >= 2: the head's predecessor moves to the front when
      t is the head, and the entries behind t move up by one otherwise. */
  function Src(n: nat, t: nat, i: nat): nat
    requires t < n && i < n - 1
  {
    if t == 0 then (if i == 0 then n - 1 else i) else (if i < t then i else i + 1)
  }

  /** Where each surviving window of Removed comes from. */
  lemma RemovedAt(s: seq<Window>, w: Window, i: nat)
    requires w in s && i < |s| - 1
    ensures Removed(s, w)[i] == s[Src(|s|, Target(s, w), i)]
  {
    var t := Target(s, w);
    if t == 0 {
      RemovedHeadAt(s, w, i);
    } else {
      RemovedInnerAt(s, w, i);
    }
  }

  lemma RemovedHeadAt(s: seq<Window>, w: Window, i: nat)
    requires w in s && i < |s| - 1 && Target(s, w) == 0
    ensures Removed(s, w)[i] == s[if i == 0 then |s| - 1 else i]
  {
    var r := Removed(s, w);
    assert r == [Last(s)] + s[1..|s| - 1];
    if i > 0 {
      assert r[i] == s[1..|s| - 1][i - 1];
    }
  }

  lemma RemovedInnerAt(s: seq<Window>, w: Window, i: nat)
    requires w in s && i < |s| - 1 && Target(s, w) > 0
    ensures var t := Target(s, w); Removed(s, w)[i] == s[if i < t then i else i + 1]
  {
    var t, r := Target(s, w), Removed(s, w);
    assert r == s[..t] + s[t + 1..];
    if i < t {
      assert r[i] == s[..t][i];
    } else {
      assert r[i] == s[t + 1..][i - t];
    }
  }

  /** Unlinking keeps the handles distinct and takes `w` out. */
  lemma RemovedDistinct(s: seq<Window>, w: Window)
    requires Distinct(s) && w in s
    ensures Distinct(Removed(s, w)) && w !in Removed(s, w)
  {
    var t, r := Target(s, w), Removed(s, w);
    if |s| >= 2 {
      if t == 0 {
        assert forall i :: 0 <= i < |r| ==> r[i] == s[if i == 0 then |s| - 1 else i];
      } else {
        assert forall i :: 0 <= i < |r| ==> r[i] == s[if i < t then i else i + 1];
      }
    }
  }

  /** Unlinking keeps the cyclic order of the remaining windows: read from
      the new head, the chain is the old one with `w` cut out, rotated so
      that the head's predecessor comes first when `w` was the head. */
  lemma RemovedKeepsCyclicOrder(s: seq<Window>, w: Window)
    requires w in s
    ensures exists k :: 0 <= k <= |s| - 1 && Removed(s, w) == Rotate(Delete(s, Target(s, w)), k)
  {
    var t := Target(s, w);
    if t == 0 && |s| >= 2 {
      var d := Delete(s, 0);
      assert d == s[1..];
      assert d[|s| - 2..] == [Last(s)];
      assert d[..|s| - 2] == s[1..|s| - 1];
      assert Removed(s, w) == Rotate(d, |s| - 2);
    } else {
      assert Removed(s, w) == Rotate(Delete(s, t), 0);
    }
  }

  /** Removing a window that is not the head leaves the head in place;
      removing the head of a longer chain moves the head to its
      predecessor; removing the only window empties the buffer. */
  lemma RemovedHead(s: seq<Window>, w: Window)
    requires Distinct(s) && w in s
    ensures |s| == 1 ==> Removed(s, w) == []
    ensures |s| >= 2 && s[0] != w ==> Removed(s, w)[0] == s[0]
    ensures |s| >= 2 && s[0] == w ==> Removed(s, w)[0] == Last(s)
    ensures forall x :: x in Removed(s, w) <==> x in s && x != w
  {
    var r := Removed(s, w);
    RemovedMultiset(s, w);
    DistinctTarget(s, w);
    forall x
      ensures x in r <==> x in s && x != w
    {
      assert x in r <==> x in multiset(r);
      assert x in s <==> x in multiset(s);
    }
  }

  /** One press of the cycle key: the head moves to head->next. */
  function Cycle(s: seq<Window>): (r: seq<Window>)
    ensures |r| == |s|
  {
    if s == [] then [] else s[1..] + [s[0]]
  }

  /** Cycling keeps the handles distinct. */
  lemma CycleDistinct(s: seq<Window>)
    requires Distinct(s)
    ensures Distinct(Cycle(s))
  {
    var r := Cycle(s);
    forall i, j | 0 <= i < j < |r|
      ensures r[i] != r[j]
    {
      var n := |s|;
      assert r[i] == s[Succ(n, i)] && r[j] == s[Succ(n, j)];
    }
  }

  /** The chain after `k` presses of the cycle key. */
  function CycleN(s: seq<Window>, k: nat): seq<Window>
  {
    if k == 0 then s else Cycle(CycleN(s, k - 1))
  }

  /** After k <= |s| presses, the chain is read from its k-th window. */
  lemma {:induction false} CycleNRotates(s: seq<Window>, k: nat)
    requires k <= |s|
    ensures CycleN(s, k) == Rotate(s, k)
  {
    if k > 0 {
      CycleNRotates(s, k - 1);
      CycleOfRotate(s, k);
    }
  }

  /** One more press moves the reading point one window further. */
  lemma CycleOfRotate(s: seq<Window>, k: nat)
    requires 0 < k <= |s|
    ensures Cycle(Rotate(s, k - 1)) == Rotate(s, k)
  {
    var p := Rotate(s, k - 1);
    assert p[0] == s[k - 1];
    assert p[1..] == s[k..] + s[..k - 1];
    assert s[..k] == s[..k - 1] + [s[k - 1]];
    assert p[1..] + [p[0]] == s[k..] + (s[..k - 1] + [s[k - 1]]);
  }

  /** As many presses as there are windows bring back the original head
      and the original chain. */
  lemma CycleFullTurn(s: seq<Window>)
    ensures CycleN(s, |s|) == s
  {
    CycleNRotates(s, |s|);
    assert s[|s|..] + s[..|s|] == s;
  }

  function Reverse(s: seq<Window>): (r: seq<Window>)
    ensures |r| == |s|
    ensures forall i :: 0 <= i < |s| ==> r[i] == s[|s| - 1 - i]
  {
    if s == [] then [] else [Last(s)] + Reverse(s[..|s| - 1])
  }

  /** The order in which repeatedly removing the head visits the windows
      (the drain loop of quit). */
  function DrainOrder(s: seq<Window>): (r: seq<Window>)
    ensures |r| == |s|
    decreases |s|
  {
    if s == [] then [] else [s[0]] + DrainOrder(Removed(s, s[0]))
  }

  /** Draining visits every window exactly as often as it is in the chain. */
  lemma {:induction false} DrainOrderMultiset(s: seq<Window>)
    ensures multiset(DrainOrder(s)) == multiset(s)
    decreases |s|
  {
    if s != [] {
      var rest := Removed(s, s[0]);
      DrainOrderMultiset(rest);
      RemovedMultiset(s, s[0]);
      assert DrainOrder(s) == [s[0]] + DrainOrder(rest);
    }
  }

  lemma RemovedHeadIsPredecessorFirst(s: seq<Window>)
    requires |s| >= 2 && Distinct(s)
    ensures Removed(s, s[0]) == [Last(s)] + s[1..|s| - 1]
  {
    DistinctTarget(s, s[0]);
  }

  lemma ReverseLast(s: seq<Window>)
    requires |s| >= 2
    ensures Reverse(s[1..]) == [Last(s)] + Reverse(s[1..|s| - 1])
  {
    assert s[1..][..|s| - 2] == s[1..|s| - 1];
  }

  /** With distinct handles, draining visits the head first and then
      every other window going backwards along the chain: each removal
      hands the head to the predecessor. */
  lemma {:induction false} DrainIsHeadThenPredecessors(s: seq<Window>)
    requires s != [] && Distinct(s)
    ensures DrainOrder(s) == [s[0]] + Reverse(s[1..])
    decreases |s|
  {
    if |s| >= 2 {
      var rest := Removed(s, s[0]);
      var mid := s[1..|s| - 1];
      RemovedHeadIsPredecessorFirst(s);
      RemovedDistinct(s, s[0]);
      DrainIsHeadThenPredecessors(rest);
      assert rest[1..] == mid;
      ReverseLast(s);
    }
  }

  /** chkWindowExists as written: on two or more windows its loop stops
      before the last element, so the last element is never reported. */
  function ExistsAsWritten(s: seq<Window>, w: Window): (b: bool)
    ensures b ==> w in s
    ensures s != [] ==> (b <== w == s[0])
  {
    if s == [] then false
    else if |s| == 1 then s[0] == w
    else w in s[..|s| - 1]
  }

  /** What the scan misses: with distinct handles, exactly the last
      element of a chain of two or more. */
  lemma ExistsAsWrittenMissesLast(s: seq<Window>, w: Window)
    requires Distinct(s)
    ensures ExistsAsWritten(s, w) <==> w in s && (|s| == 1 || w != Last(s))
  {
    if |s| >= 2 {
      var front := s[..|s| - 1];
      if w in front {
        var i :| 0 <= i < |front| && front[i] == w;
        assert s[i] == w && s[i] != s[|s| - 1];
      }
      if w in s && w != Last(s) {
        var i := Target(s, w);
        assert front[i] == w;
      }
    }
  }

  /** The smallest chain showing the defect: add A then B; the chain is
      B -> A -> B, and A is in it but not reported. */
  lemma LastWindowNotReported(a: Window, b: Window)
    requires a != b
    ensures a in [b, a] && !ExistsAsWritten([b, a], a)
  {
  }
}
