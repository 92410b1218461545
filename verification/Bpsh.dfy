/** The reorder buffer of bpsh: frames that come late, twice or early leave it as the
    in-order stream of the session. */
module Bpsh {
  import opened Options

  /** What matters here of a received frame. */
  datatype Frame = Frame(sessionId: nat, isError: bool, seqNum: nat, payload: seq<int>)

  predicate Ours(f: Frame, sessionId: nat) { f.sessionId == sessionId && !f.isError }

  /** The first frame of the session that came with this number. */
  function FirstWith(frames: seq<Frame>, sessionId: nat, n: nat): Option<Frame> {
    if frames == [] then None
    else
      var before := FirstWith(frames[..|frames| - 1], sessionId, n);
      var last := frames[|frames| - 1];
      if before.Some? then before
      else if Ours(last, sessionId) && last.seqNum == n then Some(last)
      else None
  }

  lemma FirstWithSnoc(frames: seq<Frame>, f: Frame, sessionId: nat, n: nat)
    ensures FirstWith(frames + [f], sessionId, n)
            == (var before := FirstWith(frames, sessionId, n);
                if before.Some? then before
                else if Ours(f, sessionId) && f.seqNum == n then Some(f)
                else None)
  {
    assert (frames + [f])[..|frames|] == frames;
  }

  /** The ERROR frames of the session, in the order in which they came. */
  function ErrorsOf(frames: seq<Frame>, sessionId: nat): seq<Frame> {
    if frames == [] then []
    else
      var last := frames[|frames| - 1];
      ErrorsOf(frames[..|frames| - 1], sessionId)
      + if last.isError && last.sessionId == sessionId then [last] else []
  }

  lemma ErrorsSnoc(frames: seq<Frame>, f: Frame, sessionId: nat)
    ensures ErrorsOf(frames + [f], sessionId)
            == ErrorsOf(frames, sessionId) + if f.isError && f.sessionId == sessionId then [f] else []
  {
    assert (frames + [f])[..|frames|] == frames;
  }

  predicate Sorted(pending: seq<Frame>) {
    forall i, j :: 0 <= i < j < |pending| ==> pending[i].seqNum < pending[j].seqNum
  }

  function HeldFrom(pending: seq<Frame>, n: nat): Option<Frame> {
    if pending == [] then None
    else if pending[0].seqNum == n then Some(pending[0])
    else HeldFrom(pending[1..], n)
  }

  /** What has become of the frame with this number: returned, or pending. */
  function Kept(ordered: seq<Frame>, pending: seq<Frame>, n: nat): Option<Frame> {
    if n < |ordered| then Some(ordered[n]) else HeldFrom(pending, n)
  }

  /** All that the buffer's history says: the frames returned are 0, 1, 2, ..., the pending ones
      lie above them in order, and of every number it is the first frame that is kept. */
  ghost predicate Books(received: seq<Frame>, sessionId: nat, ordered: seq<Frame>, pending: seq<Frame>) {
    && (forall k :: 0 <= k < |ordered| ==> ordered[k].seqNum == k)
    && Sorted(pending)
    && (forall k :: 0 <= k < |pending| ==> pending[k].seqNum >= |ordered|)
    && (forall n: nat {:trigger FirstWith(received, sessionId, n)} ::
          FirstWith(received, sessionId, n) == Kept(ordered, pending, n))
  }

  lemma {:induction false} HeldIff(pending: seq<Frame>, n: nat)
    ensures HeldFrom(pending, n).Some? <==> exists k :: 0 <= k < |pending| && pending[k].seqNum == n
    ensures HeldFrom(pending, n).Some? ==> HeldFrom(pending, n).value.seqNum == n
  {
    if pending != [] && pending[0].seqNum != n {
      HeldIff(pending[1..], n);
      if k :| 0 <= k < |pending| && pending[k].seqNum == n {
        assert pending[1..][k - 1] == pending[k];
      }
    }
  }

  lemma {:induction false} HeldAppend(a: seq<Frame>, b: seq<Frame>, n: nat)
    ensures HeldFrom(a + b, n) == if HeldFrom(a, n).Some? then HeldFrom(a, n) else HeldFrom(b, n)
  {
    if a == [] {
      assert a + b == b;
    } else {
      assert (a + b)[1..] == a[1..] + b;
      HeldAppend(a[1..], b, n);
    }
  }

  lemma HeldInserted(a: seq<Frame>, f: Frame, b: seq<Frame>, n: nat)
    requires HeldFrom(a + b, f.seqNum).None?
    ensures HeldFrom(a + [f] + b, n) == if n == f.seqNum then Some(f) else HeldFrom(a + b, n)
  {
    HeldAppend(a, b, n);
    HeldAppend(a + [f], b, n);
    HeldAppend(a, [f], n);
    assert [f][1..] == [];
  }

  // ---- What one frame does to the books ----------------------------------------------------------

  /** A frame that does not count, or of a number that is already kept, changes nothing. */
  lemma BooksIgnore(received: seq<Frame>, f: Frame, sessionId: nat, ordered: seq<Frame>, pending: seq<Frame>)
    requires Books(received, sessionId, ordered, pending)
    requires Ours(f, sessionId) ==> Kept(ordered, pending, f.seqNum).Some?
    ensures Books(received + [f], sessionId, ordered, pending)
  {
    forall n: nat ensures FirstWith(received + [f], sessionId, n) == Kept(ordered, pending, n) {
      FirstWithSnoc(received, f, sessionId, n);
      assert FirstWith(received, sessionId, n) == Kept(ordered, pending, n);
    }
  }

  lemma BooksReturn(received: seq<Frame>, f: Frame, sessionId: nat, ordered: seq<Frame>, pending: seq<Frame>)
    requires Books(received, sessionId, ordered, pending) && Ours(f, sessionId) && f.seqNum == |ordered|
    requires HeldFrom(pending, f.seqNum).None?
    ensures Books(received + [f], sessionId, ordered + [f], pending)
  {
    forall k | 0 <= k < |pending| ensures pending[k].seqNum >= |ordered| + 1 {
      HeldIff(pending, f.seqNum);
    }
    forall n: nat ensures FirstWith(received + [f], sessionId, n) == Kept(ordered + [f], pending, n) {
      FirstWithSnoc(received, f, sessionId, n);
      assert FirstWith(received, sessionId, n) == Kept(ordered, pending, n);
    }
  }

  lemma BooksInsert(received: seq<Frame>, f: Frame, sessionId: nat, ordered: seq<Frame>, a: seq<Frame>, b: seq<Frame>)
    requires Books(received, sessionId, ordered, a + b) && Ours(f, sessionId) && f.seqNum > |ordered|
    requires forall k :: 0 <= k < |a| ==> a[k].seqNum < f.seqNum
    requires forall k :: 0 <= k < |b| ==> b[k].seqNum > f.seqNum
    ensures Books(received + [f], sessionId, ordered, a + [f] + b)
  {
    SortedInsert(a, f, b);
    InsertKeepsAbove(a, f, b, |ordered|);
    forall n: nat ensures FirstWith(received + [f], sessionId, n) == Kept(ordered, a + [f] + b, n) {
      FirstWithSnoc(received, f, sessionId, n);
      NotHeld(a, f.seqNum, b);
      HeldInserted(a, f, b, n);
      assert FirstWith(received, sessionId, n) == Kept(ordered, a + b, n);
    }
  }

  lemma SortedInsert(a: seq<Frame>, f: Frame, b: seq<Frame>)
    requires Sorted(a + b)
    requires forall k :: 0 <= k < |a| ==> a[k].seqNum < f.seqNum
    requires forall k :: 0 <= k < |b| ==> b[k].seqNum > f.seqNum
    ensures Sorted(a + [f] + b)
  {
    var longer := a + [f] + b;
    forall i, j | 0 <= i < j < |longer| ensures longer[i].seqNum < longer[j].seqNum {
      var i', j' := if i <= |a| then i else i - 1, if j <= |a| then j else j - 1;
      assert i < |a| ==> longer[i] == (a + b)[i];
      assert j > |a| ==> longer[j] == (a + b)[j - 1] == b[j - 1 - |a|];
      assert i > |a| ==> longer[i] == (a + b)[i - 1];
      assert j < |a| ==> longer[j] == (a + b)[j];
    }
  }

  lemma InsertKeepsAbove(a: seq<Frame>, f: Frame, b: seq<Frame>, low: nat)
    requires f.seqNum >= low && forall k :: 0 <= k < |a + b| ==> (a + b)[k].seqNum >= low
    ensures forall k :: 0 <= k < |a + [f] + b| ==> (a + [f] + b)[k].seqNum >= low
  {
    forall k | 0 <= k < |a + [f] + b| ensures (a + [f] + b)[k].seqNum >= low {
      assert k < |a| ==> (a + [f] + b)[k] == (a + b)[k];
      assert k > |a| ==> (a + [f] + b)[k] == (a + b)[k - 1];
    }
  }

  lemma NotHeld(a: seq<Frame>, n: nat, b: seq<Frame>)
    requires forall k :: 0 <= k < |a| ==> a[k].seqNum < n
    requires forall k :: 0 <= k < |b| ==> b[k].seqNum > n
    ensures HeldFrom(a + b, n).None?
  {
    HeldIff(a + b, n);
  }

  /** The head of the pending list is returned when its turn has come. */
  lemma BooksTake(received: seq<Frame>, sessionId: nat, ordered: seq<Frame>, pending: seq<Frame>)
    requires Books(received, sessionId, ordered, pending) && pending != [] && pending[0].seqNum == |ordered|
    ensures Books(received, sessionId, ordered + [pending[0]], pending[1..])
  {
    forall n: nat ensures FirstWith(received, sessionId, n) == Kept(ordered + [pending[0]], pending[1..], n) {
      assert FirstWith(received, sessionId, n) == Kept(ordered, pending, n);
    }
  }

  lemma {:induction false} FirstIsOurs(frames: seq<Frame>, sessionId: nat, n: nat)
    ensures FirstWith(frames, sessionId, n).Some? ==> Ours(FirstWith(frames, sessionId, n).value, sessionId)
  {
    if frames != [] {
      FirstIsOurs(frames[..|frames| - 1], sessionId, n);
    }
  }

  lemma HeadIsOurs(received: seq<Frame>, sessionId: nat, ordered: seq<Frame>, pending: seq<Frame>)
    requires Books(received, sessionId, ordered, pending) && pending != []
    ensures Ours(pending[0], sessionId)
  {
    FirstIsOurs(received, sessionId, pending[0].seqNum);
    assert FirstWith(received, sessionId, pending[0].seqNum) == Kept(ordered, pending, pending[0].seqNum);
  }

  /** While it waits, the buffer has returned every number below the first one not received. */
  lemma WaitsForFirstMissing(received: seq<Frame>, sessionId: nat, ordered: seq<Frame>, pending: seq<Frame>)
    requires Books(received, sessionId, ordered, pending)
    requires pending == [] || pending[0].seqNum != |ordered|
    ensures FirstWith(received, sessionId, |ordered|) == None
    ensures forall n: nat :: n < |ordered| ==> FirstWith(received, sessionId, n) == Some(ordered[n])
  {
    HeldIff(pending, |ordered|);
  }

  /** Every frame received is exactly one of returned, reported as an error, freed or pending. */
  ghost predicate Accounts(received: seq<Frame>, ordered: seq<Frame>, errors: seq<Frame>,
                             freed: seq<Frame>, pending: seq<Frame>)
  {
    multiset(received) == multiset(ordered) + multiset(errors) + multiset(freed) + multiset(pending)
  }

  lemma AccountOneMore(received: seq<Frame>, f: Frame, ordered: seq<Frame>, errors: seq<Frame>,
                       freed: seq<Frame>, pending: seq<Frame>)
    requires Accounts(received, ordered, errors, freed, pending)
    ensures Accounts(received + [f], ordered + [f], errors, freed, pending)
    ensures Accounts(received + [f], ordered, errors + [f], freed, pending)
    ensures Accounts(received + [f], ordered, errors, freed + [f], pending)
  {}

  lemma AccountInserted(received: seq<Frame>, f: Frame, ordered: seq<Frame>, errors: seq<Frame>,
                        freed: seq<Frame>, a: seq<Frame>, b: seq<Frame>)
    requires Accounts(received, ordered, errors, freed, a + b)
    ensures Accounts(received + [f], ordered, errors, freed, a + [f] + b)
  {}

  lemma AccountTaken(received: seq<Frame>, ordered: seq<Frame>, errors: seq<Frame>,
                     freed: seq<Frame>, pending: seq<Frame>)
    requires Accounts(received, ordered, errors, freed, pending) && pending != []
    ensures Accounts(received, ordered + [pending[0]], errors, freed, pending[1..])
  {
    assert pending == [pending[0]] + pending[1..];
  }

  // ---- The linked list ---------------------------------------------------------------------------

  class Node {
    const frame: Frame
    var next: Node?

    constructor (frame: Frame)
      ensures this.frame == frame && next == null
    {
      this.frame, next := frame, null;
    }
  }

  ghost function FramesOf(spine: seq<Node>): seq<Frame> {
    seq(|spine|, k requires 0 <= k < |spine| => spine[k].frame)
  }

  ghost function After(spine: seq<Node>, k: nat): Node? {
    if k + 1 < |spine| then spine[k + 1] else null
  }

  /** The nodes of a list, in order. */
  ghost predicate Chain(head: Node?, spine: seq<Node>)
    reads spine
  {
    && head == (if spine == [] then null else spine[0])
    && (forall k :: 0 <= k < |spine| ==> spine[k].next == After(spine, k))
  }

  class Reorder {
    const sessionId: nat
    const arrivals: seq<Frame>   // the frames of this run, until the receiver is interrupted
    const running: nat -> bool   // whether bpsh is still to run, each time it looks
    var polls: nat
    var pos: nat
    var pendingHead: Node?
    var nextRecvSeq: nat
    ghost var spine: seq<Node>
    ghost var ordered: seq<Frame>
    ghost var errors: seq<Frame>
    ghost var freed: seq<Frame>

    ghost predicate Valid()
      reads this`pos, this`pendingHead, this`nextRecvSeq, this`spine, this`ordered, this`errors, this`freed, spine
    {
      && pos <= |arrivals|
      && nextRecvSeq == |ordered|
      && Chain(pendingHead, spine)
      && Books(arrivals[..pos], sessionId, ordered, FramesOf(spine))
      && Accounts(arrivals[..pos], ordered, errors, freed, FramesOf(spine))
      && errors == ErrorsOf(arrivals[..pos], sessionId)
    }

    constructor (sessionId: nat, arrivals: seq<Frame>, running: nat -> bool)
      ensures Valid() && ordered == [] && this.arrivals == arrivals && this.sessionId == sessionId && fresh(spine)
    {
      this.sessionId, this.arrivals, this.running := sessionId, arrivals, running;
      polls, pos, pendingHead, nextRecvSeq := 0, 0, null, 0;
      spine, ordered, errors, freed := [], [], [], [];
    }

    /** Nothing can be returned before another frame comes: every number below the first one
        that has not been received has been returned, and that one has not been received. */
    ghost predicate MustWait()
      reads this`pos, this`ordered
    {
      && pos <= |arrivals|
      && FirstWith(arrivals[..pos], sessionId, |ordered|) == None
      && (forall n: nat :: n < |ordered| ==> FirstWith(arrivals[..pos], sessionId, n) == Some(ordered[n]))
    }

    /** recvOnePending: the next frame, or none when the receiver is interrupted. It is called
        only where there is nothing to do but wait. */
    method RecvOne() returns (p: Node?)
      requires Valid() && MustWait()
      modifies this`pos
      ensures p == null <==> old(pos) == |arrivals|
      ensures p == null ==> pos == old(pos)
      ensures if p == null then Valid() else ValidBefore()
      ensures p != null ==> fresh(p) && pos == old(pos) + 1 <= |arrivals|
                            && p.frame == arrivals[old(pos)] && arrivals[..pos] == arrivals[..old(pos)] + [p.frame]
    {
      hide Books, Accounts, Chain, FramesOf, ErrorsOf, MustWait;
      if pos == |arrivals| {
        return null;
      }
      p := new Node(arrivals[pos]);
      pos := pos + 1;
    }

    /** Where a future frame belongs on the list: behind prev, before the k-th node. */
    method FindPlace(seqNum: nat) returns (prev: Node?, cur: Node?, ghost k: nat)
      requires Chain(pendingHead, spine)
      ensures k <= |spine|
      ensures prev == (if k == 0 then null else spine[k - 1]) && cur == (if k == |spine| then null else spine[k])
      ensures |FramesOf(spine)| == |spine| && forall i :: 0 <= i < k ==> FramesOf(spine)[i].seqNum < seqNum
      ensures cur != null ==> cur.frame.seqNum >= seqNum && FramesOf(spine)[k] == cur.frame
    {
      prev, cur, k := null, pendingHead, 0;
      while cur != null && cur.frame.seqNum < seqNum
        invariant k <= |spine|
        invariant prev == (if k == 0 then null else spine[k - 1]) && cur == (if k == |spine| then null else spine[k])
        invariant forall i :: 0 <= i < k ==> spine[i].frame.seqNum < seqNum
        decreases |spine| - k
      {
        assert cur == spine[k] && cur.next == After(spine, k);
        prev, cur, k := cur, cur.next, k + 1;
      }
    }

    /** The links of a new node, between prev and cur. */
    method Link(p: Node, prev: Node?, cur: Node?, ghost k: nat)
      requires Chain(pendingHead, spine) && Sorted(FramesOf(spine)) && k <= |spine| && p !in spine
      requires prev == (if k == 0 then null else spine[k - 1]) && cur == (if k == |spine| then null else spine[k])
      modifies this`pendingHead, this`spine, p, spine
      ensures spine == old(spine[..k]) + [p] + old(spine[k..]) && Chain(pendingHead, spine)
    {
      ghost var was := spine;
      DistinctNodes(spine);
      p.next := cur;
      if prev == null {
        pendingHead := p;
      } else {
        prev.next := p;
      }
      spine := spine[..k] + [p] + spine[k..];
      forall i | 0 <= i < |spine|
        ensures spine[i].next == After(spine, i)
      {
        if i < k {
          assert spine[i] == was[i] && old(was[i].next) == After(was, i);
        } else if i > k {
          assert spine[i] == was[i - 1] && old(was[i - 1].next) == After(was, i - 1);
        }
      }
    }

    lemma DistinctNodes(spine: seq<Node>)
      requires Sorted(FramesOf(spine))
      ensures forall i, j :: 0 <= i < j < |spine| ==> spine[i] != spine[j]
    {
      forall i, j | 0 <= i < j < |spine| ensures spine[i] != spine[j] {
        assert FramesOf(spine)[i].seqNum < FramesOf(spine)[j].seqNum;
      }
    }

    /** The head of the pending list comes off when its turn has come. */
    method TakeHead() returns (p: Node)
      requires Valid() && pendingHead != null && pendingHead.frame.seqNum == nextRecvSeq
      modifies this`pendingHead, this`nextRecvSeq, this`spine, this`ordered, spine
      ensures Valid() && ordered == old(ordered) + [p.frame] && p.frame.seqNum == old(nextRecvSeq)
      ensures p == old(pendingHead) && Ours(p.frame, sessionId) && spine == old(spine)[1..]
    {
      hide Books, Accounts, Chain, Sorted, FramesOf, ErrorsOf, Ours;
      p := pendingHead;
      TakeFacts();
      Unlink();
      nextRecvSeq := nextRecvSeq + 1;
      ordered := ordered + [p.frame];
    }

    /** What the books will say when the head has been taken. */
    lemma TakeFacts()
      requires Valid() && pendingHead != null && pendingHead.frame.seqNum == nextRecvSeq
      ensures spine != [] && Sorted(FramesOf(spine)) && Ours(pendingHead.frame, sessionId)
      ensures Books(arrivals[..pos], sessionId, ordered + [pendingHead.frame], FramesOf(spine[1..]))
      ensures Accounts(arrivals[..pos], ordered + [pendingHead.frame], errors, freed, FramesOf(spine[1..]))
    {
      HeadFrame();
      hide Chain, ErrorsOf;
      BooksTake(arrivals[..pos], sessionId, ordered, FramesOf(spine));
      HeadIsOurs(arrivals[..pos], sessionId, ordered, FramesOf(spine));
      AccountTaken(arrivals[..pos], ordered, errors, freed, FramesOf(spine));
      BooksSorted(arrivals[..pos], sessionId, ordered, FramesOf(spine));
      hide Books, Accounts, Sorted;
      assert FramesOf(spine)[1..] == FramesOf(spine[1..]);
    }

    method Unlink()
      requires Chain(pendingHead, spine) && pendingHead != null && Sorted(FramesOf(spine))
      modifies this`pendingHead, this`spine, spine
      ensures spine == old(spine)[1..] && Chain(pendingHead, spine)
    {
      assert pendingHead == spine[0] && pendingHead.next == After(spine, 0);
      ghost var was := spine;
      DistinctNodes(spine);
      var p := pendingHead;
      pendingHead := p.next;
      p.next := null;
      spine := spine[1..];
      forall i | 0 <= i < |spine| ensures spine[i].next == After(spine, i) {
        assert spine[i] == was[i + 1] && old(was[i + 1].next) == After(was, i + 1);
      }
    }

    lemma BooksSorted(received: seq<Frame>, sessionId: nat, ordered: seq<Frame>, pending: seq<Frame>)
      requires Books(received, sessionId, ordered, pending)
      ensures Sorted(pending) && forall k :: 0 <= k < |pending| ==> pending[k].seqNum >= |ordered|
    {}

    /** A frame that has just come in: it is returned, freed, or put on the list. */
    method Place(p: Node) returns (give: bool)
      requires pos > 0 && pos <= |arrivals| && arrivals[pos - 1] == p.frame && p !in spine
      requires ValidBefore()
      requires pendingHead == null || pendingHead.frame.seqNum != nextRecvSeq
      modifies this`pendingHead, this`nextRecvSeq, this`spine, this`ordered, this`errors, this`freed, spine, p
      ensures Valid()
      ensures forall i :: 0 <= i < |spine| ==> spine[i] in old(spine) || spine[i] == p
      ensures give <==> p.frame.sessionId == sessionId && (p.frame.isError || p.frame.seqNum == old(nextRecvSeq))
      ensures if give then
                if p.frame.isError then ordered == old(ordered) && errors == old(errors) + [p.frame]
                else ordered == old(ordered) + [p.frame] && p.frame.seqNum == old(nextRecvSeq)
              else ordered == old(ordered) && errors == old(errors)
    {
      hide ValidBefore, Valid, Books, Accounts, Chain, ErrorsOf, FramesOf;
      if p.frame.sessionId != sessionId {
        Free(p);
        return false;
      }
      if p.frame.isError {
        Raise(p);
        return true;
      }
      give := PlaceOurs(p);
    }

    /** A numbered frame of the session. */
    method PlaceOurs(p: Node) returns (give: bool)
      requires ValidBefore() && arrivals[pos - 1] == p.frame && p !in spine && Ours(p.frame, sessionId)
      requires pendingHead == null || pendingHead.frame.seqNum != nextRecvSeq
      modifies this`pendingHead, this`nextRecvSeq, this`spine, this`ordered, this`freed, spine, p
      ensures Valid()
      ensures forall i :: 0 <= i < |spine| ==> spine[i] in old(spine) || spine[i] == p
      ensures give <==> p.frame.seqNum == old(nextRecvSeq)
      ensures ordered == old(ordered) + if give then [p.frame] else []
    {
      hide ValidBefore, Valid, Books, Accounts, Chain, ErrorsOf, FramesOf;
      NextIsBefore();
      if p.frame.seqNum < nextRecvSeq {
        Free(p);
        return false;
      }
      if p.frame.seqNum == nextRecvSeq {
        ReturnNow(p);
        return true;
      }
      Buffer(p);
      give := false;
    }

    lemma NextIsBefore()
      requires ValidBefore()
      ensures nextRecvSeq == |ordered|
    {}

    /** A frame of another session, or of a number that has been returned. */
    method Free(p: Node)
      requires ValidBefore() && arrivals[pos - 1] == p.frame
      requires p.frame.sessionId != sessionId || (!p.frame.isError && p.frame.seqNum < nextRecvSeq)
      modifies this`freed
      ensures Valid()
    {
      hide Books, Accounts, Chain, ErrorsOf, FramesOf;
      ghost var received, pending := arrivals[..pos - 1], FramesOf(spine);
      assert arrivals[..pos] == received + [p.frame];
      AccountOneMore(received, p.frame, ordered, errors, freed, pending);
      ErrorsSnoc(received, p.frame, sessionId);
      BooksIgnore(received, p.frame, sessionId, ordered, pending);
      freed := freed + [p.frame];
    }

    /** An ERROR frame of the session. */
    method Raise(p: Node)
      requires ValidBefore() && arrivals[pos - 1] == p.frame
      requires p.frame.sessionId == sessionId && p.frame.isError
      modifies this`errors
      ensures Valid() && errors == old(errors) + [p.frame]
    {
      hide Books, Accounts, Chain, ErrorsOf, FramesOf;
      ghost var received, pending := arrivals[..pos - 1], FramesOf(spine);
      assert arrivals[..pos] == received + [p.frame];
      AccountOneMore(received, p.frame, ordered, errors, freed, pending);
      ErrorsSnoc(received, p.frame, sessionId);
      BooksIgnore(received, p.frame, sessionId, ordered, pending);
      errors := errors + [p.frame];
    }

    /** The frame that came in is the next one. */
    method ReturnNow(p: Node)
      requires ValidBefore() && arrivals[pos - 1] == p.frame && Ours(p.frame, sessionId)
      requires p.frame.seqNum == nextRecvSeq
      requires pendingHead == null || pendingHead.frame.seqNum != nextRecvSeq
      modifies this`nextRecvSeq, this`ordered
      ensures Valid() && ordered == old(ordered) + [p.frame]
    {
      hide Books, Accounts, Chain, ErrorsOf, Sorted, FramesOf;
      ghost var received, pending := arrivals[..pos - 1], FramesOf(spine);
      assert arrivals[..pos] == received + [p.frame];
      AccountOneMore(received, p.frame, ordered, errors, freed, pending);
      ErrorsSnoc(received, p.frame, sessionId);
      HeadFrame();
      BooksSorted(received, sessionId, ordered, pending);
      NotPending(pending, p.frame.seqNum);
      BooksReturn(received, p.frame, sessionId, ordered, pending);
      nextRecvSeq := nextRecvSeq + 1;
      ordered := ordered + [p.frame];
    }

    lemma HeadFrame()
      requires Chain(pendingHead, spine)
      ensures FramesOf(spine) == [] <==> pendingHead == null
      ensures pendingHead != null ==> FramesOf(spine)[0] == pendingHead.frame
    {}

    /** The state in which the frame last taken has not been dealt with. */
    ghost predicate ValidBefore()
      reads this`pos, this`pendingHead, this`nextRecvSeq, this`spine, this`ordered, this`errors, this`freed, spine
    {
      && 0 < pos <= |arrivals|
      && nextRecvSeq == |ordered|
      && Chain(pendingHead, spine)
      && Books(arrivals[..pos - 1], sessionId, ordered, FramesOf(spine))
      && Accounts(arrivals[..pos - 1], ordered, errors, freed, FramesOf(spine))
      && errors == ErrorsOf(arrivals[..pos - 1], sessionId)
    }

    lemma NotPending(pending: seq<Frame>, n: nat)
      requires Sorted(pending) && (forall k :: 0 <= k < |pending| ==> pending[k].seqNum >= n)
      requires pending == [] || pending[0].seqNum != n
      ensures HeldFrom(pending, n).None?
    {
      HeldIff(pending, n);
    }

    /** A future frame is put in its place, unless it is there already. */
    method Buffer(p: Node)
      requires ValidBefore() && arrivals[pos - 1] == p.frame && p !in spine
      requires Ours(p.frame, sessionId) && p.frame.seqNum > nextRecvSeq
      modifies this`pendingHead, this`spine, this`freed, spine, p
      ensures Valid()
      ensures forall i :: 0 <= i < |spine| ==> spine[i] in old(spine) || spine[i] == p
    {
      hide Books, Accounts, Chain, FramesOf, Sorted, Ours, Kept;
      var prev, cur, k := FindPlace(p.frame.seqNum);
      if cur != null && cur.frame.seqNum == p.frame.seqNum {
        Drop(p, k);
      } else {
        Insert(p, prev, cur, k);
      }
    }

    /** A frame of a number that is pending already. */
    method Drop(p: Node, ghost k: nat)
      requires ValidBefore() && arrivals[pos - 1] == p.frame && Ours(p.frame, sessionId)
      requires p.frame.seqNum > nextRecvSeq
      requires k < |spine| == |FramesOf(spine)| && FramesOf(spine)[k].seqNum == p.frame.seqNum
      modifies this`freed
      ensures Valid()
    {
      hide Books, Accounts, Chain, FramesOf, Sorted;
      assert arrivals[..pos] == arrivals[..pos - 1] + [p.frame];
      ErrorsSnoc(arrivals[..pos - 1], p.frame, sessionId);
      HeldIff(FramesOf(spine), p.frame.seqNum);
      BooksIgnore(arrivals[..pos - 1], p.frame, sessionId, ordered, FramesOf(spine));
      AccountOneMore(arrivals[..pos - 1], p.frame, ordered, errors, freed, FramesOf(spine));
      freed := freed + [p.frame];
    }

    method Insert(p: Node, prev: Node?, cur: Node?, ghost k: nat)
      requires ValidBefore() && arrivals[pos - 1] == p.frame && p !in spine
      requires Ours(p.frame, sessionId) && p.frame.seqNum > nextRecvSeq
      requires k <= |spine|
      requires prev == (if k == 0 then null else spine[k - 1]) && cur == (if k == |spine| then null else spine[k])
      requires |FramesOf(spine)| == |spine| && forall i :: 0 <= i < k ==> FramesOf(spine)[i].seqNum < p.frame.seqNum
      requires k < |spine| ==> FramesOf(spine)[k].seqNum > p.frame.seqNum
      modifies this`pendingHead, this`spine, spine, p
      ensures Valid() && spine == old(spine[..k]) + [p] + old(spine[k..])
    {
      hide Books, Accounts, Chain, FramesOf;
      assert arrivals[..pos] == arrivals[..pos - 1] + [p.frame];
      ErrorsSnoc(arrivals[..pos - 1], p.frame, sessionId);
      InsertAt(arrivals[..pos - 1], p.frame, sessionId, ordered, errors, freed, FramesOf(spine), k);
      BooksSorted(arrivals[..pos - 1], sessionId, ordered, FramesOf(spine));
      FramesOfInserted(spine, p, k);
      Link(p, prev, cur, k);
    }

    lemma FramesOfInserted(spine: seq<Node>, p: Node, k: nat)
      requires k <= |spine|
      ensures FramesOf(spine[..k] + [p] + spine[k..]) == FramesOf(spine)[..k] + [p.frame] + FramesOf(spine)[k..]
    {}

    lemma InsertAt(received: seq<Frame>, f: Frame, sessionId: nat, ordered: seq<Frame>, errors: seq<Frame>,
                   freed: seq<Frame>, pending: seq<Frame>, k: nat)
      requires Books(received, sessionId, ordered, pending) && Ours(f, sessionId) && f.seqNum > |ordered|
      requires Accounts(received, ordered, errors, freed, pending) && k <= |pending|
      requires forall i :: 0 <= i < k ==> pending[i].seqNum < f.seqNum
      requires k < |pending| ==> pending[k].seqNum > f.seqNum
      ensures Books(received + [f], sessionId, ordered, pending[..k] + [f] + pending[k..])
      ensures Accounts(received + [f], ordered, errors, freed, pending[..k] + [f] + pending[k..])
    {
      var a, b := pending[..k], pending[k..];
      BooksSorted(received, sessionId, ordered, pending);
      hide Books, Accounts;
      assert pending == a + b;
      forall i | 0 <= i < |b| ensures b[i].seqNum > f.seqNum {
        assert b[i] == pending[k + i];
      }
      BooksInsert(received, f, sessionId, ordered, a, b);
      AccountInserted(received, f, ordered, errors, freed, a, b);
    }

    /** recvOrderedFrame: the next number's frame if it is there, and none only when bpsh is to
        stop, or when no frame comes and the next number's has not been received. */
    method RecvOrderedFrame() returns (p: Node?)
      requires Valid()
      modifies this, spine
      ensures Valid()
      ensures p == null ==> ordered == old(ordered) && errors == old(errors)
      ensures p == null && running(polls) ==> pos == |arrivals| && MustWait()
      ensures p != null ==> p.frame.sessionId == sessionId
      ensures p != null && p.frame.isError ==> ordered == old(ordered) && errors == old(errors) + [p.frame]
      ensures p != null && !p.frame.isError ==>
                ordered == old(ordered) + [p.frame] && p.frame.seqNum == old(nextRecvSeq) == |old(ordered)|
      ensures old(running(polls)) && old(pendingHead != null && pendingHead.frame.seqNum == nextRecvSeq) ==>
                p == old(pendingHead) && pos == old(pos)
    {
      hide Valid, ValidBefore, MustWait, Books, Accounts, Chain, ErrorsOf, FramesOf;
      NextIs();
      ghost var pollsBefore := polls;
      while running(polls)
        invariant pos <= |arrivals| && nextRecvSeq == |ordered|
        invariant Valid() && ordered == old(ordered) && errors == old(errors)
        invariant forall i :: 0 <= i < |spine| ==> spine[i] in old(spine) || fresh(spine[i])
        invariant polls == pollsBefore ==> pos == old(pos) && pendingHead == old(pendingHead) && spine == old(spine)
        invariant polls > pollsBefore ==>
                    !old(pendingHead != null && pendingHead.frame.seqNum == nextRecvSeq)
        invariant polls >= pollsBefore
        decreases |arrivals| - pos
      {
        if pendingHead != null && pendingHead.frame.seqNum == nextRecvSeq {
          polls := polls + 1;
          p := TakeHead();
          return;
        }
        Waits();
        var q := RecvOne();
        if q == null {
          return null;
        }
        polls := polls + 1;
        var give := Place(q);
        NextIs();
        if give {
          return q;
        }
      }
      p := null;
    }

    lemma NextIs()
      requires Valid()
      ensures pos <= |arrivals| && nextRecvSeq == |ordered|
    {}

    lemma Waits()
      requires Valid() && (pendingHead == null || pendingHead.frame.seqNum != nextRecvSeq)
      ensures MustWait()
    {
      HeadFrame();
      WaitsForFirstMissing(arrivals[..pos], sessionId, ordered, FramesOf(spine));
    }
  }
}
