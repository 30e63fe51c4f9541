/** The lists of open devices and card descriptors, and the turns devices take on the cards (lib/libcard.c). */
module CardLists {

  class Node<T> {
    var item: T
    var next: Node?<T>
    var prev: Node?<T>

    constructor (item: T, parent: Node?<T>)
      ensures this.item == item && next == null && prev == parent
    {
      this.item, next, prev := item, null, parent;
    }
  }

  /** A list linked in both directions; nodes is its content, first to last. */
  class List<T> {
    var head: Node?<T>
    ghost var nodes: seq<Node<T>>

    ghost predicate Valid()
      reads this, nodes`next, nodes`prev
    {
      && (forall i, j | 0 <= i < j < |nodes| :: nodes[i] != nodes[j])
      && head == At(0)
      && forall i {:trigger nodes[i].next} {:trigger nodes[i].prev} | 0 <= i < |nodes| ::
           nodes[i].next == At(i + 1) && nodes[i].prev == At(i - 1)
    }

    /** The i-th node, or null outside the list. */
    ghost function At(i: int): Node?<T>
      reads this
    {
      if 0 <= i < |nodes| then nodes[i] else null
    }

    constructor ()
      ensures Valid() && nodes == []
    {
      head, nodes := null, [];
    }

    lemma Links(i: nat)
      requires Valid() && i < |nodes|
      ensures head == nodes[0] && nodes[i].next == At(i + 1) && nodes[i].prev == At(i - 1)
    {
    }

    lemma Ends()
      requires Valid()
      ensures head == null <==> nodes == []
      ensures head == At(0)
      ensures forall i, j | 0 <= i < j < |nodes| :: nodes[i] != nodes[j]
    {
    }

    method Last() returns (last: Node<T>)
      requires Valid() && nodes != []
      ensures last == nodes[|nodes| - 1]
    {
      hide Valid;
      Links(0);
      last := head;
      ghost var i := 0;
      while last.next != null
        invariant 0 <= i < |nodes| && last == nodes[i]
        decreases |nodes| - i
      {
        Links(i);
        last, i := last.next, i + 1;
      }
      Links(i);
    }

    /** A new node behind the last one. */
    method Add(item: T) returns (node: Node<T>)
      requires Valid()
      modifies this, nodes`next
      ensures Valid() && fresh(node) && nodes == old(nodes) + [node] && node.item == item
    {
      Ends();
      if head == null {
        node := new Node(item, null);
        head := node;
      } else {
        var last := Last();
        node := new Node(item, last);
        last.next := node;
      }
      nodes := nodes + [node];
    }

    /** Takes one node out; the others keep their order. */
    method Unlink(node: Node<T>, ghost k: nat)
      requires Valid() && k < |nodes| && node == nodes[k]
      modifies this, nodes`next, nodes`prev
      ensures Valid() && nodes == old(nodes[..k] + nodes[k + 1..])
    {
      Links(k);
      if node.next == null && node.prev == null {
        head := null;
      } else if node.next == null {
        node.prev.next := null;
      } else if node.prev == null {
        node.next.prev := null;
        head := node.next;
      } else {
        node.prev.next := node.next;
        node.next.prev := node.prev;
      }
      nodes := nodes[..k] + nodes[k + 1..];
    }
  }

  datatype Fd = Fd(card: int, fd: int)

  datatype DevState = InUse | ReqClose

  /** A device in redundant mode: where its next turn is, and whether its owner has closed it. */
  datatype Dev = Dev(mFdPtr: Node?<Fd>, state: DevState)

  const INVALID_FD := -1

  class Cards {
    const fds: List<Fd>
    const devs: List<Dev>

    /** Both lists are well formed, share no node, and no descriptor is listed twice. */
    ghost predicate Linked()
      reads this, fds, devs, fds.nodes, devs.nodes
    {
      && fds.Valid() && devs.Valid()
      && (forall i, j | 0 <= i < j < |fds.nodes| :: fds.nodes[i].item.fd != fds.nodes[j].item.fd)
    }

    /** Every device's turn is at a listed descriptor, or nowhere. */
    ghost predicate Pointed()
      reads this, fds, devs, devs.nodes
    {
      forall d | d in devs.nodes :: d.item.mFdPtr == null || d.item.mFdPtr in fds.nodes
    }

    /** While a descriptor is listed, every device has a turn. */
    ghost predicate TurnsSet()
      reads this, fds, devs, devs.nodes
    {
      fds.nodes != [] ==> forall d | d in devs.nodes :: d.item.mFdPtr != null
    }

    /** What holds whenever the mutex is free. */
    ghost predicate Valid()
      reads this, fds, devs, fds.nodes, devs.nodes
    {
      Linked() && Pointed() && TurnsSet()
    }

    /** Devices that stay, and descriptors of usable cards. */
    ghost function OpenDevs(): set<Node<Dev>>
      reads devs`nodes, devs.nodes`item
    {
      set d | d in devs.nodes && d.item.state != ReqClose
    }

    ghost function UsedFds(used: set<int>): set<Node<Fd>>
      reads fds`nodes, fds.nodes`item
    {
      set n | n in fds.nodes && n.item.fd in used
    }

    constructor ()
      ensures Valid() && fds.nodes == [] && devs.nodes == []
    {
      fds := new List();
      devs := new List();
    }

    /** __fd_m_head_all: every device starts again at the head. */
    method FdHeadAll()
      requires Linked()
      modifies devs.nodes`item
      ensures Valid()
      ensures forall d | d in devs.nodes :: d.item == old(d.item).(mFdPtr := fds.head)
    {
      hide List.Valid;
      devs.Ends();
      var dev := devs.head;
      ghost var i := 0;
      while dev != null
        invariant Linked() && i <= |devs.nodes| && dev == devs.At(i)
        invariant forall j | 0 <= j < |devs.nodes| ::
          devs.nodes[j].item == if j < i then old(devs.nodes[j].item).(mFdPtr := fds.head) else old(devs.nodes[j].item)
        decreases |devs.nodes| - i
      {
        devs.Links(i);
        devs.Ends();
        dev.item := dev.item.(mFdPtr := fds.head);
        dev, i := dev.next, i + 1;
      }
      fds.Ends();
    }

    /** __fd_m_add; a device that is just being opened may not have its turn yet. */
    method FdAdd(fd: int, card: int)
      requires Linked() && Pointed() && forall n | n in fds.nodes :: n.item.fd != fd
      modifies fds, fds.nodes`next, devs.nodes`item
      ensures Linked() && Pointed() && (old(TurnsSet()) ==> Valid())
      ensures |fds.nodes| == |old(fds.nodes)| + 1 && fds.nodes[..|old(fds.nodes)|] == old(fds.nodes)
      ensures fds.nodes[|old(fds.nodes)|].item == Fd(card, fd)
      ensures forall d | d in devs.nodes ::
                d.item == if old(fds.nodes) == [] then old(d.item).(mFdPtr := fds.nodes[0]) else old(d.item)
    {
      hide List.Valid;
      fds.Ends();
      if fds.head == null {
        var node := fds.Add(Fd(card, fd));
        FdHeadAll();
        fds.Ends();
      } else {
        var node := fds.Add(Fd(card, fd));
      }
    }

    /** The node with the given descriptor. */
    method Find(fd: int, ghost k: nat) returns (node: Node<Fd>)
      requires Linked() && k < |fds.nodes| && fds.nodes[k].item.fd == fd
      ensures node == fds.nodes[k]
    {
      hide List.Valid;
      fds.Links(k);
      node := fds.head;
      ghost var i := 0;
      while node.item.fd != fd
        invariant i <= k && node == fds.nodes[i]
        decreases |fds.nodes| - i
      {
        fds.Links(i);
        node, i := node.next, i + 1;
      }
    }

    /** __fd_m_del: takes the descriptor out; devices may still point to it. */
    method FdDel(fd: int, ghost k: nat)
      requires Linked() && k < |fds.nodes| && fds.nodes[k].item.fd == fd
      modifies fds, fds.nodes`next, fds.nodes`prev
      ensures Linked() && fds.nodes == old(fds.nodes[..k] + fds.nodes[k + 1..])
    {
      hide List.Valid;
      var node := Find(fd, k);
      fds.Unlink(node, k);
    }

    /** __fd_m_head: the device starts at the head. */
    method FdHead(dev: Node<Dev>) returns (fd: int)
      requires Linked() && Pointed() && dev in devs.nodes
      modifies dev`item
      ensures Linked() && Pointed() && dev.item == old(dev.item).(mFdPtr := fds.head)
      ensures fd == if fds.nodes == [] then -1 else fds.nodes[0].item.fd
    {
      dev.item := dev.item.(mFdPtr := fds.head);
      fd := INVALID_FD;
      if fds.head != null {
        fd := fds.head.item.fd;
      }
    }

    /** __fd_m_get_and_inc: the descriptor at the device's turn, which moves on and wraps to the head. */
    method GetAndInc(dev: Node<Dev>, ghost k: nat) returns (fd: Fd)
      requires Valid() && dev in devs.nodes
      requires fds.nodes != [] ==> k < |fds.nodes| && dev.item.mFdPtr == fds.nodes[k]
      modifies dev`item
      ensures Valid() && dev.item.state == old(dev.item.state)
      ensures forall n | n in fds.nodes :: n.item == old(n.item)
      ensures fds.nodes == [] ==> fd.fd == -1 && dev.item == old(dev.item)
      ensures fds.nodes != [] ==>
                fd == fds.nodes[k].item && dev.item.mFdPtr == fds.nodes[if k + 1 < |fds.nodes| then k + 1 else 0]
    {
      fd := Fd(0, INVALID_FD);
      var now := dev.item.mFdPtr;
      if now != null {
        fd := now.item;
        var next := now.next;
        if next == null {
          next := fds.head;
        }
        dev.item := dev.item.(mFdPtr := next);
      }
    }

    /** A redundant-mode open, for its part on the lists: a new device whose first turn is at the head. */
    method DevOpen() returns (dev: Node<Dev>)
      requires Valid()
      modifies devs, devs.nodes`next
      ensures Valid() && fresh(dev) && devs.nodes == old(devs.nodes) + [dev] && dev.item == Dev(fds.head, InUse)
    {
      hide List.Valid;
      fds.Ends();
      dev := devs.Add(Dev(null, InUse));
      var fd := FdHead(dev);
    }

    /** One step of the first walk of the health check: a device whose owner closed it leaves the list. */
    method DropIfClosed(dev: Node<Dev>, ghost a: seq<Node<Dev>>, ghost b: seq<Node<Dev>>)
      requires Valid() && devs.nodes == a + [dev] + b
      modifies devs, devs.nodes`next, devs.nodes`prev
      ensures Valid() && devs.nodes == a + (if dev.item.state == ReqClose then [] else [dev]) + b
    {
      hide List.Valid;
      if dev.item.state == ReqClose {
        assert devs.nodes[|a|] == dev && devs.nodes[..|a|] == a && devs.nodes[|a| + 1..] == b;
        devs.Unlink(dev, |a|);
      }
    }

    method DropClosedDevs()
      requires Valid()
      modifies devs, devs.nodes`next, devs.nodes`prev
      ensures Valid() && devs.nodes == Keep(old(devs.nodes), old(OpenDevs()))
      ensures forall d :: d in devs.nodes <==> d in old(devs.nodes) && old(d.item.state) != ReqClose
    {
      hide List.Valid, Pointed, TurnsSet, Linked, Walked, Keep;
      ghost var all, keep, j := devs.nodes, OpenDevs(), 0;
      WalkStarts(all, keep);
      Started();
      var dev := devs.head;
      while dev != null
        invariant Valid() && j <= |all| && Walked(devs.nodes, all, keep, j)
        invariant dev == if j < |all| then all[j] else null
        decreases |all| - j
      {
        ghost var a := WalkPoint(devs.nodes, all, keep, j);
        Following(|a|);
        var devNext := dev.next;
        assert dev in keep <==> dev.item.state != ReqClose;
        DropIfClosed(dev, a, all[j + 1..]);
        WalkNext(devs.nodes, all, keep, j, a);
        dev, j := devNext, j + 1;
      }
      WalkEnds(devs.nodes, all, keep, j);
      KeptIff(all, keep);
    }

    lemma Started()
      requires Linked()
      ensures devs.head == devs.At(0) && fds.head == fds.At(0)
    {
      devs.Ends();
      fds.Ends();
    }

    lemma Following(k: nat)
      requires Linked()
      ensures k < |devs.nodes| ==> devs.nodes[k].next == devs.At(k + 1)
      ensures k < |fds.nodes| ==> fds.nodes[k].next == fds.At(k + 1)
    {
    }

    /** One step of the second walk: a descriptor goes when no device is left or its card was found unusable. */
    method DropIfUnused(node: Node<Fd>, used: set<int>, ghost a: seq<Node<Fd>>, ghost b: seq<Node<Fd>>)
      requires Valid() && fds.nodes == a + [node] + b
      modifies fds, fds.nodes`next, fds.nodes`prev, devs.nodes`item
      ensures Valid() && fds.nodes == a + (if devs.nodes == [] || node.item.fd !in used then [] else [node]) + b
    {
      hide List.Valid;
      devs.Ends();
      if devs.head == null || node.item.fd !in used {
        assert fds.nodes[|a|] == node && fds.nodes[..|a|] == a && fds.nodes[|a| + 1..] == b;
        FdDel(node.item.fd, |a|);
        FdHeadAll();
      }
    }

    method DropFds(used: set<int>)
      requires Valid()
      modifies fds, fds.nodes`next, fds.nodes`prev, devs.nodes`item
      ensures Valid()
      ensures fds.nodes == Keep(old(fds.nodes), if devs.nodes == [] then {} else old(UsedFds(used)))
      ensures forall n ::
                n in fds.nodes <==> n in old(fds.nodes) && devs.nodes != [] && old(n.item.fd) in used
    {
      hide List.Valid, Pointed, TurnsSet, Linked, Walked, Keep;
      ghost var all, keep, j := fds.nodes, if devs.nodes == [] then {} else UsedFds(used), 0;
      WalkStarts(all, keep);
      Started();
      var node := fds.head;
      while node != null
        invariant Valid() && devs.nodes == old(devs.nodes) && j <= |all| && Walked(fds.nodes, all, keep, j)
        invariant node == if j < |all| then all[j] else null
        decreases |all| - j
      {
        assert node in keep <==> devs.nodes != [] && node.item.fd in used;
        ghost var a := WalkPoint(fds.nodes, all, keep, j);
        Following(|a|);
        var next := node.next;
        DropIfUnused(node, used, a, all[j + 1..]);
        WalkNext(fds.nodes, all, keep, j, a);
        node, j := next, j + 1;
      }
      WalkEnds(fds.nodes, all, keep, j);
      KeptIff(all, keep);
    }

    /** __mhealth_check, for what it does to the lists. */
    method HealthCheck(used: set<int>) returns (keepGoing: bool)
      requires Valid()
      modifies fds, devs, fds.nodes`next, fds.nodes`prev, devs.nodes`next, devs.nodes`prev, devs.nodes`item
      ensures Valid() && (keepGoing <==> devs.nodes != []) && (devs.nodes == [] ==> fds.nodes == [])
      ensures devs.nodes == Keep(old(devs.nodes), old(OpenDevs()))
      ensures devs.nodes != [] ==> fds.nodes == Keep(old(fds.nodes), old(UsedFds(used)))
      ensures forall d :: d in devs.nodes <==> d in old(devs.nodes) && old(d.item.state) != ReqClose
      ensures devs.nodes != [] ==> forall n :: n in fds.nodes <==> n in old(fds.nodes) && old(n.item.fd) in used
    {
      hide Keep, Linked, Pointed, TurnsSet, List.Valid;
      ghost var nodes := fds.nodes;
      DropClosedDevs();
      assert forall i | 0 <= i < |devs.nodes| :: devs.nodes[i] in old(devs.nodes);
      DropFds(used);
      NothingKept(nodes);
      Started();
      return devs.head != null;
    }

    /** Consecutive turns of a device with no change of the lists in between. */
    method TakeTurns(dev: Node<Dev>, ghost k: nat, n: nat) returns (got: seq<Fd>)
      requires Valid() && dev in devs.nodes && k < |fds.nodes| && dev.item.mFdPtr == fds.nodes[k]
      modifies dev`item
      ensures Valid() && |got| == n && |Turns(fds.nodes, k, n)| == n
      ensures forall n | n in fds.nodes :: n.item == old(n.item)
      ensures forall i | 0 <= i < n :: got[i] == Turns(fds.nodes, k, n)[i].item
    {
      hide Linked, Pointed;
      got := [];
      ghost var at: nat := k;
      TurnsLength(fds.nodes, k, n);
      TurnsWithin(fds.nodes, k, n);
      for i := 0 to n
        invariant Valid() && at < |fds.nodes| && dev.item.mFdPtr == fds.nodes[at] && |got| == i
        invariant Turns(fds.nodes, k, n)[i..] == Turns(fds.nodes, at, n - i)
        invariant forall n | n in fds.nodes :: n.item == old(n.item)
        invariant forall m | 0 <= m < i :: got[m] == Turns(fds.nodes, k, n)[m].item
      {
        ghost var all := Turns(fds.nodes, k, n);
        assert all[i] == all[i..][0] == fds.nodes[at] && all[i..][1..] == all[i + 1..];
        var fd := GetAndInc(dev, at);
        got := got + [fd];
        at := if at + 1 < |fds.nodes| then at + 1 else 0;
      }
    }
  }

  // ---- a walk that takes elements out ----

  /** The elements of s that are to be kept, in their order. */
  function Keep<T(==)>(s: seq<T>, keep: set<T>): seq<T> {
    if s == [] then [] else Keep(s[..|s| - 1], keep) + (if s[|s| - 1] in keep then [s[|s| - 1]] else [])
  }

  /** The walk over all has reached position j. */
  ghost predicate Walked<T>(s: seq<T>, all: seq<T>, keep: set<T>, j: nat) {
    j <= |all| && s == Keep(all[..j], keep) + all[j..]
  }

  lemma WalkStarts<T>(all: seq<T>, keep: set<T>)
    ensures Walked(all, all, keep, 0)
  {
  }

  /** What lies before and behind the element the walk is at. */
  lemma WalkPoint<T>(s: seq<T>, all: seq<T>, keep: set<T>, j: nat) returns (a: seq<T>)
    requires Walked(s, all, keep, j) && j < |all|
    ensures a == Keep(all[..j], keep) && s == a + [all[j]] + all[j + 1..] && |s| == |a| + |all| - j
    ensures s[|a|] == all[j] && (j + 1 < |all| ==> s[|a| + 1] == all[j + 1])
    ensures forall i | 0 <= i < |s| :: s[i] in all
  {
    a := Keep(all[..j], keep);
    forall i | 0 <= i < |s|
      ensures s[i] in all
    {
      if i < |a| {
        KeepMember(all[..j], keep, a[i]);
      }
    }
  }

  lemma WalkNext<T>(s: seq<T>, all: seq<T>, keep: set<T>, j: nat, a: seq<T>)
    requires j < |all| && a == Keep(all[..j], keep)
    requires s == a + (if all[j] in keep then [all[j]] else []) + all[j + 1..]
    ensures Walked(s, all, keep, j + 1)
  {
    assert all[..j + 1][..j] == all[..j];
  }

  lemma WalkEnds<T>(s: seq<T>, all: seq<T>, keep: set<T>, j: nat)
    requires Walked(s, all, keep, j) && j == |all|
    ensures s == Keep(all, keep)
  {
    assert all[..j] == all;
  }

  lemma {:induction false} NothingKept<T>(all: seq<T>)
    ensures Keep(all, {}) == []
    decreases |all|
  {
    if all != [] {
      NothingKept(all[..|all| - 1]);
    }
  }

  lemma {:induction false} KeepMember<T>(s: seq<T>, keep: set<T>, x: T)
    requires x in Keep(s, keep)
    ensures x in s && x in keep
    decreases |s|
  {
    var front := s[..|s| - 1];
    assert s == front + [s[|s| - 1]];
    if x in Keep(front, keep) {
      KeepMember(front, keep, x);
    }
  }

  lemma {:induction false} MemberKept<T>(s: seq<T>, keep: set<T>, x: T)
    requires x in s && x in keep
    ensures x in Keep(s, keep)
    decreases |s|
  {
    var front := s[..|s| - 1];
    assert s == front + [s[|s| - 1]];
    if x in front {
      MemberKept(front, keep, x);
    }
  }

  lemma KeptIff<T>(s: seq<T>, keep: set<T>)
    ensures forall x :: x in Keep(s, keep) <==> x in s && x in keep
  {
    forall x | x in Keep(s, keep)
      ensures x in s && x in keep
    {
      KeepMember(s, keep, x);
    }
    forall x | x in s && x in keep
      ensures x in Keep(s, keep)
    {
      MemberKept(s, keep, x);
    }
  }

  // ---- turns ----

  /** What n turns from position k on return. */
  function Turns<T>(s: seq<T>, k: nat, n: nat): seq<T>
    requires k < |s|
    decreases n
  {
    if n == 0 then [] else [s[k]] + Turns(s, if k + 1 < |s| then k + 1 else 0, n - 1)
  }

  lemma {:induction false} TurnsLength<T>(s: seq<T>, k: nat, n: nat)
    requires k < |s|
    ensures |Turns(s, k, n)| == n
    decreases n
  {
    if n > 0 {
      TurnsLength(s, if k + 1 < |s| then k + 1 else 0, n - 1);
    }
  }

  lemma {:induction false} TurnsWithin<T>(s: seq<T>, k: nat, n: nat)
    requires k < |s|
    ensures forall i | 0 <= i < |Turns(s, k, n)| :: Turns(s, k, n)[i] in s
    decreases n
  {
    if n > 0 {
      TurnsWithin(s, if k + 1 < |s| then k + 1 else 0, n - 1);
    }
  }

  lemma {:induction false} TurnsToEnd<T>(s: seq<T>, k: nat, n: nat)
    requires k < |s| && n <= |s| - k
    ensures Turns(s, k, n) == s[k..k + n]
    decreases n
  {
    if n > 1 {
      TurnsToEnd(s, k + 1, n - 1);
    }
  }

  lemma {:induction false} TurnsSplit<T>(s: seq<T>, k: nat, m: nat, n: nat)
    requires k < |s| && m == |s| - k
    ensures Turns(s, k, m + n) == s[k..] + Turns(s, 0, n)
    decreases |s| - k
  {
    if m > 1 {
      TurnsSplit(s, k + 1, m - 1, n);
    }
  }

  /** As many turns as there are descriptors visit each of them exactly once, whatever the first one is. */
  lemma EachOnce<T>(s: seq<T>, k: nat)
    requires k < |s|
    ensures Turns(s, k, |s|) == s[k..] + s[..k]
    ensures multiset(Turns(s, k, |s|)) == multiset(s)
  {
    TurnsSplit(s, k, |s| - k, k);
    TurnsToEnd(s, 0, k);
    assert s == s[..k] + s[k..];
  }
}

