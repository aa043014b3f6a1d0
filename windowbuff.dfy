/** windowbuff.c: the circular singly linked buffer of windows that the
    window manager keeps, with its head as the focused window. The ghost
    sequence `nodes` lists the entries from the head along `next`, and
    `windows` their handles; WindowStack says what happens to them. */
module WindowBuffer {
  import opened WindowStack

  /** struct WindowEle: one entry of the chain. Its handle is set when
      the entry is allocated and never changed afterwards. */
  class WindowEle {
    const window: Window
    var next: WindowEle?

    constructor (w: Window)
      ensures window == w && next == null
    {
      window := w;
      next := null;
    }
  }

  /** struct WindowBuff: the chain, entered at its head. */
  class WindowBuff {
    var head: WindowEle?
    ghost var nodes: seq<WindowEle>
    ghost var windows: seq<Window>
    ghost var Repr: set<object>

    /** One cycle through all entries, the head first, each entry once;
        `head` is null exactly when the buffer is empty. Handles may
        repeat: addWindow does not check for them. */
    ghost predicate Valid()
      reads this, Repr
    {
      this in Repr &&
      (forall i :: 0 <= i < |nodes| ==> nodes[i] in Repr) &&
      |windows| == |nodes| &&
      (forall i :: 0 <= i < |nodes| ==> nodes[i].window == windows[i]) &&
      (head == null <==> nodes == []) &&
      (nodes != [] ==> head == nodes[0]) &&
      (forall i {:trigger nodes[i].next} :: 0 <= i < |nodes| ==> nodes[i].next == nodes[Succ(|nodes|, i)]) &&
      (forall i, j :: 0 <= i < j < |nodes| ==> nodes[i] != nodes[j])
    }

    /** Distinct positions hold distinct entries, in either order. */
    lemma NodesDistinct()
      requires Valid()
      ensures forall i, j :: 0 <= i < |nodes| && 0 <= j < |nodes| && i != j ==> nodes[i] != nodes[j]
    {
      forall i, j | 0 <= i < |nodes| && 0 <= j < |nodes| && i != j
        ensures nodes[i] != nodes[j]
      {
        if j < i {
          assert nodes[j] != nodes[i];
        }
      }
    }

    /** Following `next` from the k-th entry reaches the (k+1)-th, and the
        last entry leads back to the head; no other entry does. */
    lemma NextOf(k: nat)
      requires Valid() && k < |nodes|
      ensures nodes[k].next == nodes[if k == |nodes| - 1 then 0 else k + 1]
      ensures nodes[k].next == nodes[0] <==> k == |nodes| - 1
    {
      NodesDistinct();
    }

    /** The calloc'd buffer of setup: no head, no entries. */
    constructor ()
      ensures Valid() && fresh(Repr)
      ensures windows == [] && head == null
    {
      head := null;
      nodes, windows := [], [];
      Repr := {this};
    }

    /** addWindow: splices a new entry in as the head and retargets the
        old last entry to it. There is no duplicate check: a handle that
        is already in the buffer gets a second entry. */
    method AddWindow(w: Window)
      requires Valid()
      modifies Repr
      ensures Valid() && fresh(Repr - old(Repr))
      ensures windows == [w] + old(windows)
      ensures head != null && head.window == w
      ensures old(windows) == [] ==> head.next == head
    {
      NodesDistinct();
      var tmp := new WindowEle(w);
      tmp.next := if head != null then head else tmp;

      if head != null {
        var we := head;
        ghost var k := 0;
        while we.next != head
          invariant 0 <= k < |nodes| && we == nodes[k]
          decreases |nodes| - k
        {
          we := we.next;
          k := k + 1;
        }
        NextOf(k);
        we.next := tmp;
      }
      head := tmp;

      // The new entry leads to the old head and the old last entry to the
      // new one; every other link stays.
      ghost var chain := [tmp] + nodes;
      forall i | 0 <= i < |chain|
        ensures chain[i].next == chain[Succ(|chain|, i)]
      {
        if 1 <= i < |chain| - 1 {
          assert chain[i].next == old(nodes[i - 1].next);
        }
      }
      Retarget(chain, [w] + windows, Repr + {tmp});
    }

    /** chkWindowExists as written: the empty buffer holds nothing, a
        single entry is compared directly, and otherwise the scan stops
        when the next entry is the head, so the last entry is never
        compared (see WindowStack.ExistsAsWrittenMissesLast). */
    method ChkWindowExists(w: Window) returns (found: bool)
      requires Valid()
      ensures found == ExistsAsWritten(windows, w)
    {
      if head == null {
        return false;
      }
      if head == head.next {
        NextOf(0);
        return head.window == w;
      }
      var we := head;
      ghost var k := 0;
      while we.next != head
        invariant 0 <= k < |nodes| && we == nodes[k]
        invariant w !in windows[..k]
        decreases |nodes| - k
      {
        if we.window == w {
          return true;
        }
        assert windows[..k + 1] == windows[..k] + [windows[k]];
        NextOf(k);
        we := we.next;
        k := k + 1;
      }
      NextOf(k);
      return false;
    }

    /** The existence check as intended: the scan also compares the last
        entry before it stops, so every handle in the buffer is found. */
    method ChkWindowExistsFixed(w: Window) returns (found: bool)
      requires Valid()
      ensures found <==> w in windows
    {
      if head == null {
        return false;
      }
      var we := head;
      ghost var k := 0;
      while we.window != w && we.next != head
        invariant 0 <= k < |nodes| && we == nodes[k]
        invariant w !in windows[..k]
        decreases |nodes| - k
      {
        assert windows[..k + 1] == windows[..k] + [windows[k]];
        NextOf(k);
        we := we.next;
        k := k + 1;
      }
      found := we.window == w;
      if !found {
        NextOf(k);
        assert windows == windows[..k] + [windows[k]];
      }
    }

    /** The search loop of remWindow: walking from the head, the first
        entry whose successor holds `w`. That is the predecessor of the
        entry at Target (the last entry when Target is the head). */
    method FindPredecessor(w: Window) returns (we: WindowEle)
      requires Valid() && w in windows && |windows| >= 2
      ensures var t := Target(windows, w);
              we == nodes[if t == 0 then |nodes| - 1 else t - 1]
      ensures we.next != null && we.next.window == w
    {
      ghost var n := |nodes|;
      ghost var t := Target(windows, w);
      ghost var p := if t == 0 then n - 1 else t - 1;
      NextOf(p);
      TargetIsFirstAfterHead(windows, w);
      we := head;
      ghost var k := 0;
      while we.next.window != w
        invariant 0 <= k <= p < n == |nodes| && we == nodes[k]
        invariant we.next == nodes[if k == n - 1 then 0 else k + 1]
        decreases p - k
      {
        we := we.next;
        k := k + 1;
        NextOf(k);
      }
    }

    /** The unlinking part of remWindow, once `w` is known to be present:
        the only entry leaves an empty buffer; otherwise the predecessor
        of w's entry is found by a forward scan and linked past it, and if
        w's entry was the head the predecessor becomes the head. */
    method Unlink(w: Window)
      requires Valid() && w in windows
      modifies Repr
      ensures Valid() && Repr <= old(Repr)
      ensures windows == Removed(old(windows), w)
      ensures |old(windows)| == 1 ==> head == null
      ensures |old(windows)| >= 2 ==>
                head == if Target(old(windows), w) == 0 then old(nodes[|nodes| - 1]) else old(head)
    {
      NodesDistinct();
      NextOf(0);
      if head == head.next {
        head := null;
        nodes, windows := [], [];
        Repr := {this};
      } else {
        UnlinkFromCycle(w);
      }
    }

    /** Unlink on a chain of two or more entries. */
    method UnlinkFromCycle(w: Window)
      requires Valid() && w in windows && |windows| >= 2
      modifies Repr
      ensures Valid() && Repr <= old(Repr)
      ensures windows == Removed(old(windows), w)
      ensures head == if Target(old(windows), w) == 0 then old(nodes[|nodes| - 1]) else old(head)
    {
      NodesDistinct();
      ghost var n, s, chain := |nodes|, windows, nodes;
      ghost var t := Target(s, w);
      ghost var pre := if t == 0 then n - 1 else t - 1;
      var we := FindPredecessor(w);
      var del := we.next;
      assert we == chain[pre] && del == chain[t];
      assert head == del <==> t == 0;

      // The chain that will remain, read from the new head.
      ghost var rest := Remaining(chain, t);
      RelinkedWindows(chain, s, w, rest);
      RemainingOwned(chain, t, Repr);

      LinkPast(we, chain, t, pre);
      RelinkedIsCycle(chain, t, pre, rest);
      assert head == rest[0] == if t == 0 then chain[n - 1] else old(head);

      Retarget(rest, Removed(s, w), Repr - {del});
    }

    /** Points the ghost view at a chain already linked into one cycle. */
    ghost method Retarget(rest: seq<WindowEle>, ws: seq<Window>, repr: set<object>)
      requires this in repr && rest != [] && head == rest[0] && |ws| == |rest|
      requires forall i :: 0 <= i < |rest| ==> rest[i] in repr
      requires forall i :: 0 <= i < |rest| ==> rest[i].window == ws[i]
      requires forall i {:trigger rest[i].next} :: 0 <= i < |rest| ==> rest[i].next == rest[Succ(|rest|, i)]
      requires forall i, j :: 0 <= i < j < |rest| ==> rest[i] != rest[j]
      modifies this
      ensures Valid() && head == old(head)
      ensures nodes == rest && windows == ws && Repr == repr
    {
      nodes, windows, Repr := rest, ws, repr;
    }

    /** The two writes of remWindow: the predecessor `we` of the entry at
        position t is linked past it, and when that entry was the head
        the predecessor becomes the head. Every other link stays. */
    method LinkPast(we: WindowEle, ghost chain: seq<WindowEle>, ghost t: nat, ghost pre: nat)
      requires |chain| >= 2 && t < |chain| && pre == (if t == 0 then |chain| - 1 else t - 1)
      requires forall i, j :: 0 <= i < |chain| && 0 <= j < |chain| && i != j ==> chain[i] != chain[j]
      requires forall j {:trigger chain[j].next} :: 0 <= j < |chain| ==> chain[j].next == chain[Succ(|chain|, j)]
      requires we == chain[pre] && head == chain[0]
      modifies this`head, we`next
      ensures forall j :: 0 <= j < |chain| ==>
                chain[j].next == if j == pre then chain[Succ(|chain|, t)] else chain[Succ(|chain|, j)]
      ensures head == if t == 0 then we else old(head)
    {
      var del := we.next;
      assert del == chain[t];
      we.next := del.next;
      if head == del {
        head := we;
      }
      forall j | 0 <= j < |chain|
        ensures chain[j].next == if j == pre then chain[Succ(|chain|, t)] else chain[Succ(|chain|, j)]
      {
        if j != pre {
          assert chain[j] != we;
          assert chain[j].next == old(chain[j].next);
        }
      }
    }

    /** remWindow as written: a no-op when chkWindowExists says the
        window is absent (which, by the defect above, includes the last
        entry of a chain of two or more), and an unlink otherwise. */
    method RemWindow(w: Window)
      requires Valid()
      modifies Repr
      ensures Valid() && Repr <= old(Repr)
      ensures windows == if ExistsAsWritten(old(windows), w) then Removed(old(windows), w) else old(windows)
      ensures !ExistsAsWritten(old(windows), w) ==> head == old(head) && unchanged(old(Repr))
    {
      var present := ChkWindowExists(w);
      if !present {
        return;
      }
      Unlink(w);
    }

    /** remWindow with the corrected existence check: every window in the
        buffer is unlinked; an absent one changes nothing. */
    method RemWindowFixed(w: Window)
      requires Valid()
      modifies Repr
      ensures Valid() && Repr <= old(Repr)
      ensures windows == if w in old(windows) then Removed(old(windows), w) else old(windows)
      ensures w !in old(windows) ==> head == old(head) && unchanged(old(Repr))
    {
      var present := ChkWindowExistsFixed(w);
      if !present {
        return;
      }
      Unlink(w);
    }
  }

  /** The entries other than position t, read from the new head: the
      head's predecessor first when t is the head. */
  ghost function Remaining(chain: seq<WindowEle>, t: nat): (rest: seq<WindowEle>)
    requires |chain| >= 2 && t < |chain|
    ensures |rest| == |chain| - 1
    ensures forall i :: 0 <= i < |rest| ==> rest[i] == chain[Src(|chain|, t, i)]
  {
    if t == 0 then [chain[|chain| - 1]] + chain[1..|chain| - 1] else chain[..t] + chain[t + 1..]
  }

  /** The remaining entries stay in the footprint once the unlinked one
      leaves it, and they are still distinct. */
  lemma RemainingOwned(chain: seq<WindowEle>, t: nat, repr: set<object>)
    requires |chain| >= 2 && t < |chain|
    requires forall i, j :: 0 <= i < |chain| && 0 <= j < |chain| && i != j ==> chain[i] != chain[j]
    requires forall i :: 0 <= i < |chain| ==> chain[i] in repr
    ensures forall i :: 0 <= i < |chain| - 1 ==> Remaining(chain, t)[i] in repr - {chain[t]}
    ensures forall i, j :: 0 <= i < j < |chain| - 1 ==> Remaining(chain, t)[i] != Remaining(chain, t)[j]
  {
    var rest := Remaining(chain, t);
    forall i | 0 <= i < |chain| - 1
      ensures rest[i] in repr - {chain[t]}
    {
      assert Src(|chain|, t, i) != t;
    }
    forall i, j | 0 <= i < j < |chain| - 1
      ensures rest[i] != rest[j]
    {
      assert Src(|chain|, t, i) != Src(|chain|, t, j);
    }
  }

  /** Once the predecessor `pre` of position t is linked past it, the
      entries other than t, read in the order Src gives them, form one
      cycle again. */
  lemma RelinkedIsCycle(chain: seq<WindowEle>, t: nat, pre: nat, rest: seq<WindowEle>)
    requires |chain| >= 2 && t < |chain| && pre == (if t == 0 then |chain| - 1 else t - 1)
    requires forall j :: 0 <= j < |chain| ==>
               chain[j].next == if j == pre then chain[Succ(|chain|, t)] else chain[Succ(|chain|, j)]
    requires |rest| == |chain| - 1
    requires forall i :: 0 <= i < |rest| ==> rest[i] == chain[Src(|chain|, t, i)]
    ensures forall i {:trigger rest[i].next} :: 0 <= i < |rest| ==> rest[i].next == rest[Succ(|rest|, i)]
  {
    var n := |chain|;
    forall i | 0 <= i < n - 1
      ensures rest[i].next == rest[Succ(n - 1, i)]
    {
      var j := Src(n, t, i);
      assert Src(n, t, Succ(n - 1, i)) == if j == pre then Succ(n, t) else Succ(n, j);
    }
  }

  /** The handles of the relinked entries are those of Removed. */
  lemma RelinkedWindows(chain: seq<WindowEle>, s: seq<Window>, w: Window, rest: seq<WindowEle>)
    requires |chain| == |s| >= 2 && w in s
    requires forall j :: 0 <= j < |s| ==> chain[j].window == s[j]
    requires |rest| == |s| - 1
    requires forall i :: 0 <= i < |rest| ==> rest[i] == chain[Src(|s|, Target(s, w), i)]
    ensures forall i :: 0 <= i < |rest| ==> rest[i].window == Removed(s, w)[i]
  {
    forall i | 0 <= i < |rest|
      ensures rest[i].window == Removed(s, w)[i]
    {
      RemovedAt(s, w, i);
    }
  }

  /** Reading the cycle from the head's successor instead of the head
      keeps every `next` link pointing at the following entry: this is
      what tabNextWindow relies on when it moves the head along. */
  lemma CycledLinks(chain: seq<WindowEle>, cycled: seq<WindowEle>)
    requires chain != [] && cycled == chain[1..] + [chain[0]]
    requires forall j {:trigger chain[j].next} :: 0 <= j < |chain| ==> chain[j].next == chain[Succ(|chain|, j)]
    ensures forall i {:trigger cycled[i].next} :: 0 <= i < |cycled| ==> cycled[i].next == cycled[Succ(|cycled|, i)]
  {
    var n := |chain|;
    forall i | 0 <= i < n
      ensures cycled[i].next == cycled[Succ(n, i)]
    {
      assert cycled[i] == chain[Succ(n, i)];
      assert cycled[Succ(n, i)] == chain[Succ(n, Succ(n, i))];
    }
  }

  /** The defect on a concrete buffer: after adding A and then B, the
      as-written check does not report A and removing A leaves it in. */
  method LastWindowSurvivesRemoval(a: Window, b: Window) returns (reported: bool, stillThere: bool)
    requires a != b
    ensures !reported && stillThere
  {
    var wb := new WindowBuff();
    wb.AddWindow(a);
    wb.AddWindow(b);
    reported := wb.ChkWindowExists(a);
    wb.RemWindow(a);
    stillThere := wb.ChkWindowExistsFixed(a);
  }

  /** The same sequence with the corrected check removes A. */
  method LastWindowRemovedWhenFixed(a: Window, b: Window) returns (reported: bool, stillThere: bool)
    requires a != b
    ensures reported && !stillThere
  {
    var wb := new WindowBuff();
    wb.AddWindow(a);
    wb.AddWindow(b);
    reported := wb.ChkWindowExistsFixed(a);
    wb.RemWindowFixed(a);
    stillThere := wb.ChkWindowExistsFixed(a);
  }
}
