// The doubly linked list behind the list of alarms: a ring of links through the list head, each
// embedded in an object.  What insertion and removal do to the pointers is what they do to the
// sequence of links from the head on.

module LinkedList {
  class Link {
    var next: Link?
    var previous: Link?
    /** The object the link is the first member of; none for the head of a list. */
    var owner: object?

    /** A link in no list. */
    constructor ()
      ensures next == null && previous == null && owner == null
    {
      next, previous, owner := null, null, null;
    }

    /** The head of an empty list. */
    constructor Head()
      ensures Ring([this]) && owner == null
    {
      owner := null;
      new;
      next, previous := this, this;
      Alone(this);
    }
  }

  ghost predicate Distinct(links: seq<Link>) {
    forall i, j :: 0 <= i < j < |links| ==> links[i] != links[j]
  }

  /** Each link leads to the next one. */
  ghost predicate Path(links: seq<Link>)
    reads links`next
  {
    forall i, j :: 0 <= i && j == i + 1 < |links| ==> links[i].next == links[j]
  }

  /** Each link leads to the next one and back. */
  ghost predicate Chain(links: seq<Link>)
    reads links`next, links`previous
  {
    Path(links) && forall i, j :: 0 <= i && j == i + 1 < |links| ==> links[j].previous == links[i]
  }

  /** The links, starting with the head, are joined both ways in this order. */
  ghost predicate Ring(ring: seq<Link>)
    reads ring`next, ring`previous
  {
    |ring| > 0 && Distinct(ring) && Chain(ring + ring[..1])
  }

  /** Following `next` goes from one of these links to the other, and round again. */
  ghost predicate Circle(links: seq<Link>)
    reads links`next
  {
    |links| > 0 && Path(links + links[..1])
  }

  lemma {:induction false} CircleHolds(circle: seq<Link>, path: seq<Link>, n: nat)
    requires Circle(circle) && Path(path) && n < |path| && path[0] in circle
    ensures path[n] in circle
  {
    if n > 0 {
      CircleHolds(circle, path, n - 1);
      assert path[n - 1].next == path[n];
      var k :| 0 <= k < |circle| && circle[k] == path[n - 1];
      var round := circle + circle[..1];
      assert round[k].next == round[k + 1];
    }
  }

  /** Insert behind the head.  An entry that is in the list already closes a circle that the head
      is not in: a walk never ends, and the links behind the entry are lost to it. */
  method Insert(head: Link, entry: Link, ghost rest: seq<Link>)
    requires Ring([head] + rest) && entry != head
    modifies head`next, head`previous, entry`next, entry`previous, rest`previous
    ensures entry !in rest ==> Ring([head, entry] + rest)
    ensures forall i :: 0 <= i < |rest| && rest[i] == entry ==>
      head.next == entry && Circle([entry] + rest[..i]) && head !in rest[..i]
  {
    ghost var round := [head] + rest + [head];
    ghost var tail := rest + [head];
    assert [head] + rest + ([head] + rest)[..1] == round;
    assert round[0] == head && round[1] == tail[0];
    assert Chain(tail) by {
      assert forall i :: 0 <= i < |tail| ==> tail[i] == round[i + 1];
    }
    entry.previous := head;
    entry.next := head.next;
    head.next.previous := entry;
    head.next := entry;
    if entry !in rest {
      assert Chain(tail);
      Joined([head, entry], tail);
      assert [head, entry] + rest + ([head, entry] + rest)[..1] == [head, entry] + tail;
    }
    forall i | 0 <= i < |rest| && rest[i] == entry
      ensures Circle([entry] + rest[..i])
    {
      var circle := [entry] + rest[..i];
      assert circle + circle[..1] == [entry] + tail[..i + 1];
      assert Path(tail[..i + 1]);
      var again := [entry] + tail[..i + 1];
      assert forall k :: 0 < k < |again| ==> again[k] == tail[k - 1];
    }
  }

  /** Two chains joined at their ends are one. */
  lemma Joined(a: seq<Link>, b: seq<Link>)
    requires |a| > 0 && |b| > 0 && Chain(a) && Chain(b)
    requires a[|a| - 1].next == b[0] && b[0].previous == a[|a| - 1]
    ensures Chain(a + b)
  {
  }

  lemma Part(links: seq<Link>, lo: nat, hi: nat)
    requires lo <= hi <= |links| && Chain(links)
    ensures Chain(links[lo..hi])
  {
    assert forall i :: 0 <= i < hi - lo ==> links[lo..hi][i] == links[lo + i];
  }

  /** A chain whose inner pointers did not change is a chain. */
  twostate lemma StaysChain(links: seq<Link>)
    requires old(Chain(links))
    requires forall k :: 0 <= k < |links| - 1 ==> links[k].next == old(links[k].next)
    requires forall k :: 0 < k < |links| ==> links[k].previous == old(links[k].previous)
    ensures Chain(links)
  {
  }

  /** What stands before an entry of a ring, and what comes after it, round to the head. */
  lemma Cut(ring: seq<Link>, i: nat)
    requires Ring(ring) && 0 < i < |ring|
    ensures var entry, before, after := ring[i], ring[..i], ring[i + 1..] + ring[..1];
            && Chain(before) && Chain(after) && entry !in before && entry !in after
            && entry.previous == before[i - 1] && entry.next == after[0]
            && (forall k :: 0 <= k < i - 1 ==> before[k] != before[i - 1])
            && (forall k :: 0 <= k < |after| - 1 ==> after[k] != before[i - 1])
            && (forall k :: 0 < k < i ==> before[k] != after[0])
            && (forall k :: 0 < k < |after| ==> after[k] != after[0])
  {
    var round := ring + ring[..1];
    assert round[..i] == ring[..i] && round[i + 1..] == ring[i + 1..] + ring[..1];
    Part(round, 0, i);
    Part(round, i + 1, |round|);
    assert round[i - 1] == ring[i - 1] && round[i] == ring[i] && round[i + 1] == round[i + 1..][0];
  }

  /** A chain round to the head, without the entry that was cut out. */
  lemma Closed(ring: seq<Link>, i: nat)
    requires Distinct(ring) && 0 < i < |ring| && Chain(ring[..i] + (ring[i + 1..] + ring[..1]))
    ensures Ring(ring[..i] + ring[i + 1..])
  {
    var shorter := ring[..i] + ring[i + 1..];
    assert shorter[..1] == ring[..1] && shorter + shorter[..1] == ring[..i] + (ring[i + 1..] + ring[..1]);
  }

  lemma Alone(entry: Link)
    ensures Ring([entry]) <==> entry.next == entry && entry.previous == entry
  {
    var round := [entry] + [entry][..1];
    assert round[0] == entry && round[1] == entry;
  }

  /** Unlink an entry behind the head.  It is left in a ring of its own, in which unlinking it
      again changes nothing. */
  method Remove(entry: Link, ghost ring: seq<Link>, ghost i: nat)
    requires Ring(ring) && i < |ring| && ring[i] == entry && (i > 0 || |ring| == 1)
    modifies ring`next, ring`previous
    ensures Ring([entry])
    ensures i > 0 ==> Ring(ring[..i] + ring[i + 1..])
  {
    hide Ring, Chain;
    ghost var before, after := ring[..i], ring[i + 1..] + ring[..1];
    Apart(ring);
    if i > 0 {
      Cut(ring, i);
    } else {
      assert ring == [entry];
      Alone(entry);
    }
    entry.next.previous := entry.previous;
    entry.previous.next := entry.next;
    entry.previous := entry;
    entry.next := entry;
    Alone(entry);
    if i > 0 {
      StaysChain(before);
      StaysChain(after);
      Joined(before, after);
      Closed(ring, i);
    }
  }

  lemma Apart(ring: seq<Link>)
    requires Ring(ring)
    ensures Distinct(ring)
  {
  }

  lemma LinkAt(ring: seq<Link>, i: nat)
    requires Ring(ring) && i < |ring|
    ensures ring[i].next == if i + 1 < |ring| then ring[i + 1] else ring[0]
  {
    var round := ring + ring[..1];
    assert round[i] == ring[i] && round[i + 1] == if i + 1 < |ring| then ring[i + 1] else ring[0];
  }
}
