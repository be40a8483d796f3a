/** list.h: doubly linked rings through shared nodes, and the sequences they stand for. */
module Ring {

  class ListHead {
    var next: ListHead?
    var prev: ListHead?

    constructor ()
    {
      next, prev := null, null;
    }
  }

  /** The ring read from the node after position k on, coming back to that node last. */
  function Rotated<T>(s: seq<T>, k: nat): seq<T>
    requires k <= |s|
  {
    s[k..] + s[..k]
  }

  /** The ring without the node at position j, read from the node after it. */
  function Without<T>(s: seq<T>, j: nat): seq<T>
    requires j < |s|
  {
    s[j + 1..] + s[..j]
  }

  ghost predicate Distinct<T>(s: seq<T>) {
    forall i, j :: 0 <= i < j < |s| ==> s[i] != s[j]
  }

  ghost predicate Linked(a: ListHead, b: ListHead)
    reads a, b
  {
    a.next == b && b.prev == a
  }

  /** s lists the nodes of a ring in `next` order from s[0] on, and `prev` is the other way round. */
  ghost predicate IsRing(s: seq<ListHead>)
    reads s
  {
    && s != [] && Distinct(s)
    && (forall i, j :: 0 <= i && i + 1 == j < |s| ==> Linked(s[i], s[j]))
    && Linked(s[|s| - 1], s[0])
  }

  // ---------- list.h ----------

  /** INIT_LIST_HEAD. */
  method InitListHead(list: ListHead)
    modifies list
    ensures IsRing([list])
  {
    list.next := list;
    list.prev := list;
  }

  /** __list_add between the last and the first node of a ring. */
  method ListAddBetween(entry: ListHead, prev: ListHead, next: ListHead, ghost s: seq<ListHead>)
    requires IsRing(s) && entry !in s && next == s[0] && prev == s[|s| - 1]
    modifies entry, s
    ensures IsRing(s + [entry])
  {
    next.prev := entry;
    entry.next := next;
    entry.prev := prev;
    prev.next := entry;
  }

  /** list_add_tail: before the head, so at the end of the ring as read from the head. */
  method ListAddTail(entry: ListHead, head: ListHead, ghost s: seq<ListHead>)
    requires IsRing(s) && entry !in s && head == s[0]
    modifies entry, s
    ensures IsRing(s + [entry])
  {
    ListAddBetween(entry, head.prev, head, s);
  }

  /** list_add: after a given node. */
  method ListAdd(entry: ListHead, head: ListHead, ghost s: seq<ListHead>, ghost i: nat)
    requires IsRing(s) && entry !in s && i < |s| && head == s[i]
    modifies entry, s
    ensures IsRing(s[..i + 1] + [entry] + s[i + 1..])
  {
    ghost var t := Rotated(s, i + 1);
    RotatedIsRing(s, i + 1);
    ListAddBetween(entry, head, head.next, t);
    RotatedIsRing(t + [entry], |s| - i - 1);
    assert Rotated(t + [entry], |s| - i - 1) == s[..i + 1] + [entry] + s[i + 1..];
  }

  /** list_del: the rest is a ring again, and the entry's links are poisoned. */
  method ListDel(entry: ListHead, ghost s: seq<ListHead>, ghost j: nat)
    requires IsRing(s) && j < |s| && entry == s[j]
    modifies s
    ensures |s| > 1 ==> IsRing(Without(s, j))
    ensures entry.next == null && entry.prev == null
  {
    ghost var t := Rotated(s, j);
    RotatedIsRing(s, j);
    assert t[0] == entry && Without(s, j) == t[1..];
    assert |t| > 1 ==> Linked(t[0], t[1]);
    var prev, next := entry.prev, entry.next;
    next.prev := prev;
    prev.next := next;
    entry.next := null;
    entry.prev := null;
  }

  // ---------- a ring is its sequence ----------

  lemma TurnedIsRing(s: seq<ListHead>)
    requires IsRing(s)
    ensures IsRing(s[1..] + [s[0]])
  {
    var t := s[1..] + [s[0]];
    forall i | 0 < i < |t|
      ensures Linked(t[i - 1], t[i])
    {
      assert Linked(s[i - 1 + 0], s[i]);
      if i + 1 < |s| {
        assert Linked(s[i], s[i + 1]);
      }
    }
    if |s| > 1 {
      assert Linked(s[0], s[1]);
    }
  }

  /** Any node may be the head: moving it only changes where the reading starts. */
  lemma {:induction false} RotatedIsRing(s: seq<ListHead>, k: nat)
    requires IsRing(s) && k <= |s|
    ensures IsRing(Rotated(s, k))
    decreases k
  {
    if k == 0 {
      assert Rotated(s, 0) == s;
    } else {
      TurnedIsRing(s);
      RotatedIsRing(s[1..] + [s[0]], k - 1);
      assert Rotated(s[1..] + [s[0]], k - 1) == Rotated(s, k);
    }
  }

  lemma {:induction false} SameUpTo(s: seq<ListHead>, t: seq<ListHead>, i: nat)
    requires IsRing(s) && IsRing(t) && s[0] == t[0] && i < |s| && i < |t|
    ensures s[i] == t[i]
  {
    if i > 0 {
      SameUpTo(s, t, i - 1);
      assert Linked(s[i - 1], s[i]) && Linked(t[i - 1], t[i]);
    }
  }

  lemma NotShorter(s: seq<ListHead>, t: seq<ListHead>)
    requires IsRing(s) && IsRing(t) && s[0] == t[0]
    ensures |s| >= |t|
  {
    if |s| < |t| {
      var beyond := t[|s|];
      assert t[|s| - 1].next == beyond;
      SameUpTo(s, t, |s| - 1);
    }
  }

  /** The head alone determines the sequence. */
  lemma RingDetermined(s: seq<ListHead>, t: seq<ListHead>)
    requires IsRing(s) && IsRing(t) && s[0] == t[0]
    ensures s == t
  {
    NotShorter(s, t);
    NotShorter(t, s);
    forall i | 0 <= i < |s|
      ensures s[i] == t[i]
    {
      SameUpTo(s, t, i);
    }
  }

  /** list_for_each: from the node after the head round to the head. */
  method ListForEach(head: ListHead, ghost s: seq<ListHead>) returns (visited: seq<ListHead>)
    requires IsRing(s) && head == s[0]
    ensures visited == s[1..]
  {
    visited := [];
    var pos := head.next;
    while pos != head
      invariant |visited| < |s| && visited == s[1..][..|visited|]
      invariant pos == if |visited| + 1 < |s| then s[|visited| + 1] else s[0]
      decreases |s| - |visited|
    {
      ghost var k := |visited| + 1;
      assert Linked(s[k - 1], s[k]);
      assert k + 1 < |s| ==> Linked(s[k], s[k + 1]);
      visited := visited + [pos];
      pos := pos.next;
    }
  }

  // ---------- a head pointer and its ring ----------

  /** A global `struct list_head *`: null when its ring is empty, else its first node. */
  class Queue {
    var head: ListHead?
    ghost var items: seq<ListHead>

    ghost predicate Valid()
      reads this, items
    {
      if items == [] then head == null else head == items[0] && IsRing(items)
    }

    constructor ()
      ensures Valid() && items == []
    {
      head, items := null, [];
    }

    /** Start a ring, or join its tail. */
    method Append(entry: ListHead)
      requires Valid() && entry !in items
      modifies this, entry, items
      ensures Valid() && items == old(items) + [entry]
    {
      if head == null {
        head := entry;
        InitListHead(head);
      } else {
        ListAddTail(entry, head, items);
      }
      items := items + [entry];
    }

    /** Unlink a node and let the head move to the one after it; a last node leaves the ring empty. */
    method Remove(entry: ListHead)
      requires Valid() && entry in items
      modifies this, items
      ensures Valid()
      ensures exists j: nat :: j < |old(items)| && old(items)[j] == entry && items == Without(old(items), j)
    {
      ghost var j :| 0 <= j < |items| && items[j] == entry;
      ghost var rest := Without(items, j);
      LoneNode();
      if head.next == head {
        if entry == head {
          head := null;
        }
      } else {
        head := entry.next;
        ListDel(entry, items, j);
      }
      items := rest;
    }

    /** A node is its own successor when it is the whole ring. */
    lemma LoneNode()
      requires Valid() && items != []
      ensures head.next == head <==> |items| == 1
    {
      if |items| > 1 {
        assert Linked(items[0], items[1]);
      }
    }

    /** Let go of the whole ring; its nodes keep their links. */
    method Clear()
      modifies this
      ensures Valid() && items == []
    {
      head, items := null, [];
    }

    /** Take the head off, as schedule and the allocator do. */
    method TakeHead() returns (entry: ListHead)
      requires Valid() && items != []
      modifies this, items
      ensures Valid() && entry == old(items)[0] && items == old(items)[1..]
    {
      entry := head;
      Remove(entry);
    }

    /** Move the head to the next node. */
    method Turn()
      requires Valid() && items != []
      modifies this
      ensures Valid() && items == Rotated(old(items), 1)
    {
      RotatedIsRing(items, 1);
      head := head.next;
      items := Rotated(items, 1);
    }
  }
}
