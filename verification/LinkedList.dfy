/**
 kern/lib/linked_list.h: circular doubly linked lists through a head.  The head of the source
 is a struct with the same two pointers as a frame, and cast to one; here both are frames.
 */
module LinkedList {
  import opened Wrappers

  class Frame {
    var next: Frame?
    var prev: Frame?
    var physicalAddress: nat

    constructor (physicalAddress: nat)
      ensures IsUnlinked(this) && this.physicalAddress == physicalAddress
    {
      this.next, this.prev, this.physicalAddress := null, null, physicalAddress;
    }
  }

  predicate IsUnlinked(f: Frame)
    reads f`next, f`prev
  {
    f.next == null && f.prev == null
  }

  /** From the head, both ways round, the list is exactly these frames. */
  ghost predicate Ring(head: Frame, s: seq<Frame>)
    reads head`next, head`prev, s`next, s`prev
  {
    && head !in s
    && (forall i, j :: 0 <= i < j < |s| ==> s[i] != s[j])
    && head.next == (if s == [] then head else s[0])
    && head.prev == (if s == [] then head else s[|s| - 1])
    && (forall i {:trigger s[i].next} :: 0 <= i < |s| ==> s[i].next == if i == |s| - 1 then head else s[i + 1])
    && (forall i {:trigger s[i].prev} :: 0 <= i < |s| ==> s[i].prev == if i == 0 then head else s[i - 1])
  }

  ghost function Before(head: Frame, s: seq<Frame>, k: nat): Frame
    requires k <= |s|
  {
    if k == 0 then head else s[k - 1]
  }

  ghost function After(head: Frame, s: seq<Frame>, k: nat): Frame
    requires k < |s|
  {
    if k == |s| - 1 then head else s[k + 1]
  }

  lemma Around(head: Frame, s: seq<Frame>, k: nat)
    requires Ring(head, s) && k < |s|
    ensures s[k].next == After(head, s, k) && s[k].prev == Before(head, s, k)
    ensures After(head, s, k) != s[k] && Before(head, s, k) != s[k]
    ensures forall i :: 0 <= i < |RemoveAt(s, k)| ==> RemoveAt(s, k)[i] == s[if i < k then i else i + 1]
  {
  }

  lemma Nearest(head: Frame, s: seq<Frame>)
    requires Ring(head, s)
    ensures head.next == head || (head.next != null && head.next in s)
    ensures head !in s
  {
  }

  method LlInit(head: Frame)
    modifies head`next, head`prev
    ensures Ring(head, [])
  {
    head.next := head;
    head.prev := head;
  }

  /** Puts an unlinked frame in front.  A head that was never initialised is zero, and the
      last assignment then goes through a null pointer: not ok. */
  method LlInsert(head: Frame, node: Frame, ghost s: seq<Frame>) returns (ok: bool)
    requires IsUnlinked(node) && node != head && node !in s
    requires head.next != null ==> Ring(head, s)
    modifies head`next, node`next, node`prev, (if head.next == null then {} else {head.next})`prev
    ensures ok <==> old(head.next) != null
    ensures ok ==> Ring(head, [node] + s)
  {
    ghost var t := [node] + s;
    node.next := head.next;
    node.prev := head;
    head.next := node;
    if node.next == null {
      return false;
    }
    node.next.prev := node;
    assert forall i :: 1 <= i < |t| ==> t[i] == s[i - 1];
    ok := true;
  }

  /** ll_unlink reading `next` before clearing it, as is plainly meant. */
  method LlUnlink(node: Frame, ghost head: Frame, ghost s: seq<Frame>, ghost k: nat)
    requires Ring(head, s) && k < |s| && s[k] == node
    modifies head`next, head`prev, s`next, s`prev
    ensures Ring(head, RemoveAt(s, k)) && IsUnlinked(node)
  {
    Around(head, s, k);
    hide RemoveAt;
    var next, prev := node.next, node.prev;
    if next != null {
      next.prev := prev;
      node.next := null;
    }
    if prev != null {
      prev.next := next;
      node.prev := null;
    }
  }

  /** ll_unlink as written.  The second half stores the `next` that the first half has just
      cleared, so the predecessor's `next` is lost, and no list is left behind the head. */
  method LlUnlinkAsWritten(node: Frame, ghost head: Frame, ghost s: seq<Frame>, ghost k: nat)
    requires Ring(head, s) && k < |s| && s[k] == node
    modifies head`next, head`prev, s`next, s`prev
    ensures IsUnlinked(node)
    ensures Before(head, s, k).next == null
    ensures After(head, s, k).prev == Before(head, s, k)
    ensures forall t: seq<Frame> :: !Ring(head, t)
  {
    Around(head, s, k);
    if node.next != null {
      node.next.prev := node.prev;
      node.next := null;
    }
    if node.prev != null {
      node.prev.next := node.next;
      node.prev := null;
    }
    forall t: seq<Frame>
      ensures !Ring(head, t)
    {
      ChainStops(head, s, k, t);
    }
  }

  /** A chain that runs from the head into a null pointer belongs to no ring. */
  lemma ChainStops(head: Frame, s: seq<Frame>, k: nat, t: seq<Frame>)
    requires k < |s| && head !in s
    requires k > 0 ==> head.next == s[0]
    requires forall i :: 0 <= i < k - 1 ==> s[i].next == s[i + 1]
    requires Before(head, s, k).next == null
    ensures !Ring(head, t)
  {
    if k > 0 && Ring(head, t) {
      SamePrefix(head, s, k, t);
    }
  }

  lemma {:induction false} SamePrefix(head: Frame, s: seq<Frame>, k: nat, t: seq<Frame>)
    requires 0 < k < |s| + 1 && head !in s && Ring(head, t)
    requires head.next == s[0]
    requires forall i :: 0 <= i < k - 1 ==> s[i].next == s[i + 1]
    ensures |t| >= k && t[k - 1] == s[k - 1]
  {
    assert s[k - 1] in s;
    if k > 1 {
      SamePrefix(head, s, k - 1, t);
      assert t[k - 2].next == s[k - 1];
    }
  }
}
