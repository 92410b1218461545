/** What a sender's transmit thread puts on the wire, what the receiver answers, and why
    the answers come in transfer order. Transfer n carries the n-th bundle begun. */
module Tcpv4Stream {
  import opened Octets
  import opened Options
  import opened Tcpv4Msg
  import opened Tcpv4Ext
  import opened Tcpv4Receive

  // ---- The segment stream ------------------------------------------------------------------

  /** The offset behind the last segment within its transfer. */
  function EndOff(sent: seq<Segment>): nat {
    if sent == [] then 0
    else
      var front, last := sent[..|sent| - 1], sent[|sent| - 1];
      (if last.Start() then 0 else EndOff(front)) + |last.data|
  }

  /** The number of the first transfer of which nothing has been written yet. */
  function NextUnwritten(sent: seq<Segment>): nat {
    if sent == [] then 0 else sent[|sent| - 1].id + 1
  }

  ghost predicate EmptyBetween(begun: seq<Octets>, lo: nat, hi: nat) {
    hi <= |begun| && forall i :: lo <= i < hi ==> begun[i] == []
  }

  /** seg may follow sent: it continues the transfer of the last segment, or starts a later
      one with only empty transfers, which need no segment, in between. The transfer left
      behind need not be complete: a refused one is abandoned. */
  ghost predicate Follows(begun: seq<Octets>, sent: seq<Segment>, seg: Segment) {
    && seg.id < |begun|
    && seg.data != []
    && var data := begun[seg.id];
       var off := if seg.Start() then 0 else EndOff(sent);
       && off + |seg.data| <= |data| < 0x1_0000_0000_0000_0000
       && seg.data == data[off..off + |seg.data|]
       && seg.End() == (off + |seg.data| == |data|)
       && (if seg.Start()
           then NextUnwritten(sent) <= seg.id && EmptyBetween(begun, NextUnwritten(sent), seg.id)
                && seg.ext == LengthExt(|data|)
           else sent != [] && sent[|sent| - 1].id == seg.id)
  }

  ghost predicate GoodStream(begun: seq<Octets>, sent: seq<Segment>) {
    sent == [] || (GoodStream(begun, sent[..|sent| - 1]) && Follows(begun, sent[..|sent| - 1], sent[|sent| - 1]))
  }

  lemma {:induction false} GoodStreamPrefix(begun: seq<Octets>, sent: seq<Segment>, n: nat)
    requires GoodStream(begun, sent) && n <= |sent|
    ensures GoodStream(begun, sent[..n])
  {
    if n < |sent| {
      var front := sent[..|sent| - 1];
      GoodStreamPrefix(begun, front, n);
      assert front[..n] == sent[..n];
    } else {
      assert sent[..n] == sent;
    }
  }

  lemma {:induction false} GoodStreamMore(begun: seq<Octets>, more: seq<Octets>, sent: seq<Segment>)
    requires GoodStream(begun, sent) && begun <= more
    ensures GoodStream(more, sent)
  {
    if sent != [] {
      GoodStreamMore(begun, more, sent[..|sent| - 1]);
    }
  }

  // ---- The replies -------------------------------------------------------------------------

  /** The events the peer gets to see. */
  function Replies(events: seq<Event>): seq<Event> {
    if events == [] then []
    else Replies(events[..|events| - 1])
         + (if events[|events| - 1].Deliver? then [] else [events[|events| - 1]])
  }

  lemma {:induction false} RepliesAppend(a: seq<Event>, b: seq<Event>)
    ensures Replies(a + b) == Replies(a) + Replies(b)
  {
    if b == [] {
      assert a + b == a;
    } else {
      assert (a + b)[..|a + b| - 1] == a + b[..|b| - 1];
      RepliesAppend(a, b[..|b| - 1]);
    }
  }

  lemma RepliesMonotone(a: seq<Event>, b: seq<Event>)
    requires a <= b
    ensures Replies(a) <= Replies(b)
  {
    RepliesAppend(a, b[|a|..]);
    assert b == a + b[|a|..];
  }

  /** How far the replies have come: the transfers below `next` are concluded (or empty),
      and `acked` octets of transfer `next` are acknowledged. */
  datatype Track = Track(next: nat, acked: nat)

  function IdOf(e: Event): nat
    requires !e.Deliver?
  {
    if e.Ack? then e.id else e.refusedId
  }

  function Advance(begun: seq<Octets>, tr: Track, e: Event): Track {
    match e
    case Ack(_, id, length) =>
      if id < |begun| && length == |begun[id]| then Track(id + 1, 0) else Track(id, length)
    case Refuse(_, id) => Track(id + 1, 0)
    case Deliver(_) => tr
  }

  function TrackOf(begun: seq<Octets>, replies: seq<Event>): Track {
    if replies == [] then Track(0, 0)
    else Advance(begun, TrackOf(begun, replies[..|replies| - 1]), replies[|replies| - 1])
  }

  /** A reply that is in order: it concerns the oldest transfer not concluded, and an
      acknowledgment covers more of it than the last one did. */
  ghost predicate InOrder(begun: seq<Octets>, tr: Track, e: Event) {
    && !e.Deliver?
    && tr.next <= IdOf(e) < |begun| && begun[IdOf(e)] != []
    && EmptyBetween(begun, tr.next, IdOf(e))
    && (e.Ack? ==> e.length <= |begun[e.id]| && e.length > (if e.id == tr.next then tr.acked else 0))
    && (e.Refuse? ==> e.reason != REFUSE_COMPLETED)
  }

  ghost predicate AllInOrder(begun: seq<Octets>, replies: seq<Event>) {
    replies == []
    || (AllInOrder(begun, replies[..|replies| - 1])
        && InOrder(begun, TrackOf(begun, replies[..|replies| - 1]), replies[|replies| - 1]))
  }

  lemma {:induction false} AllInOrderPrefix(begun: seq<Octets>, replies: seq<Event>, n: nat)
    requires AllInOrder(begun, replies) && n <= |replies|
    ensures AllInOrder(begun, replies[..n])
    ensures n < |replies| ==> InOrder(begun, TrackOf(begun, replies[..n]), replies[n])
  {
    if n == |replies| {
      assert replies[..n] == replies;
    } else if n < |replies| - 1 {
      var front := replies[..|replies| - 1];
      AllInOrderPrefix(begun, front, n);
      assert front[..n] == replies[..n];
    }
  }

  /** Bundles begun later do not change how far the replies have come. */
  lemma {:induction false} TrackMore(begun: seq<Octets>, more: seq<Octets>, replies: seq<Event>)
    requires AllInOrder(begun, replies) && begun <= more
    ensures TrackOf(more, replies) == TrackOf(begun, replies)
    ensures AllInOrder(more, replies)
  {
    if replies != [] {
      TrackMore(begun, more, replies[..|replies| - 1]);
    }
  }

  lemma {:induction false} TrackBounds(begun: seq<Octets>, replies: seq<Event>)
    requires AllInOrder(begun, replies)
    ensures var tr := TrackOf(begun, replies);
            && tr.next <= |begun|
            && (tr.acked > 0 ==> tr.next < |begun| && tr.acked < |begun[tr.next]|)
            && (tr.acked == 0 && tr.next > 0 ==> begun[tr.next - 1] != [])
  {
    if replies != [] {
      TrackBounds(begun, replies[..|replies| - 1]);
    }
  }

  // ---- The receiver's answers to such a stream ----------------------------------------------

  function Segs(items: seq<Item>): seq<Segment> {
    if items == [] then [] else Segs(items[..|items| - 1]) + [items[|items| - 1].seg]
  }

  /** Where the receiver and its replies stand after a stream. */
  ghost predicate Answered(begun: seq<Octets>, sent: seq<Segment>, r: Reassembly, tr: Track) {
    if sent == [] then r == FRESH && tr == Track(0, 0)
    else
      var i, off := sent[|sent| - 1].id, EndOff(sent);
      && i < |begun| && off <= |begun[i]|
      && r.id == i && r.active == (off < |begun[i]|)
      && (!r.refused ==> r.acc == begun[i][..off])
      && tr == if r.refused || off == |begun[i]| then Track(i + 1, 0) else Track(i, off)
  }

  predicate AcksWhole(begun: seq<Octets>, e: Event) {
    e.Ack? && e.id < |begun| && e.length == |begun[e.id]|
  }

  /** Each acknowledgment of a whole transfer is preceded by the delivery of that bundle. */
  ghost predicate AckedAreDelivered(begun: seq<Octets>, events: seq<Event>) {
    forall k {:trigger events[k]} :: 0 <= k < |events| && AcksWhole(begun, events[k]) ==>
      k > 0 && events[k - 1] == Deliver(begun[events[k].id])
  }

  /** Where a segment of the stream finds its transfer: at `from`, with that much held of it
      unless it was refused, and the replies not beyond it. */
  ghost predicate FoundAt(begun: seq<Octets>, o: Reassembly, seg: Segment, from: nat, tr: Track) {
    && o.active && !o.over && o.id == seg.id < |begun|
    && from + |seg.data| <= |begun[seg.id]| && seg.data != []
    && seg.data == begun[seg.id][from..from + |seg.data|]
    && seg.End() == (from + |seg.data| == |begun[seg.id]|)
    && (!o.refused ==> o.acc == begun[seg.id][..from])
    && (if o.refused then tr == Track(seg.id + 1, 0)
        else tr.next <= seg.id && EmptyBetween(begun, tr.next, seg.id)
             && (if tr.next == seg.id then tr.acked == from else from == 0))
  }

  lemma FindsTransfer(cfg: Config, begun: seq<Octets>, sent: seq<Segment>, seg: Segment, r: Reassembly, tr: Track)
    requires Answered(begun, sent, r, tr) && !r.over && Follows(begun, sent, seg) && !EndsSession(cfg, r, seg)
    ensures FoundAt(begun, Opened(r, seg), seg, if seg.Start() then 0 else EndOff(sent), tr)
  {}

  /** What the receiver does about it keeps the replies in order. */
  lemma AnswersFound(cfg: Config, begun: seq<Octets>, item: Item, r: Reassembly, from: nat, tr: Track)
    requires !r.over && !EndsSession(cfg, r, item.seg) && FoundAt(begun, Opened(r, item.seg), item.seg, from, tr)
    ensures var (r', events) := Receive(cfg, r, item);
            var to := from + |item.seg.data|;
            var tr' := if Replies(events) == [] then tr else Advance(begun, tr, Replies(events)[0]);
            && !r'.over && |Replies(events)| <= 1
            && (Replies(events) != [] ==> InOrder(begun, tr, Replies(events)[0]))
            && AckedAreDelivered(begun, events)
            && r'.id == item.seg.id && r'.active == (to < |begun[item.seg.id]|)
            && (!r'.refused ==> r'.acc == begun[item.seg.id][..to])
            && tr' == if r'.refused || to == |begun[item.seg.id]| then Track(item.seg.id + 1, 0)
                      else Track(item.seg.id, to)
  {
    var seg, o := item.seg, Opened(r, item.seg);
    var why := Refusal(cfg, o, item);
    RefusalReason(cfg, o, item);
    hide Refusal, EndsSession, Opened, Replies, EmptyBetween;
    var data := begun[seg.id];
    assert data[..from] + data[from..from + |seg.data|] == data[..from + |seg.data|];
    assert data[..|data|] == data;
    if why.Some? {
      RepliesOne([Refuse(why.value, seg.id)]);
    } else if o.refused {
      RepliesOne([]);
    } else {
      var ack := Ack(seg.flags, seg.id, |o.acc + seg.data|);
      assert [] + [ack] == [ack];
      RepliesOne([ack]);
      assert [Deliver(o.acc + seg.data)] + [ack] == [Deliver(o.acc + seg.data), ack];
      RepliesOne([Deliver(o.acc + seg.data), ack]);
    }
  }

  lemma RefusalReason(cfg: Config, o: Reassembly, item: Item)
    ensures var why := Refusal(cfg, o, item);
            (why.Some? ==> why.value != REFUSE_COMPLETED && !o.refused)
  {}

  lemma EndOffSnoc(sent: seq<Segment>, seg: Segment)
    ensures EndOff(sent + [seg]) == (if seg.Start() then 0 else EndOff(sent)) + |seg.data|
  {
    assert (sent + [seg])[..|sent|] == sent;
  }

  /** One more segment of the stream: the receiver's answer is in order. */
  lemma AnswersInOrder(cfg: Config, begun: seq<Octets>, sent: seq<Segment>, item: Item, r: Reassembly, tr: Track)
    requires Answered(begun, sent, r, tr) && !r.over && Follows(begun, sent, item.seg)
    ensures var (r', events) := Receive(cfg, r, item);
            && (r'.over ==> events == [])
            && (!r'.over ==>
                  && |Replies(events)| <= 1
                  && (Replies(events) == [] ==> Answered(begun, sent + [item.seg], r', tr))
                  && (Replies(events) != [] ==>
                        && InOrder(begun, tr, Replies(events)[0])
                        && Answered(begun, sent + [item.seg], r', Advance(begun, tr, Replies(events)[0])))
                  && AckedAreDelivered(begun, events))
  {
    if EndsSession(cfg, r, item.seg) {
      return;
    }
    FindsTransfer(cfg, begun, sent, item.seg, r, tr);
    AnswersFound(cfg, begun, item, r, if item.seg.Start() then 0 else EndOff(sent), tr);
    EndOffSnoc(sent, item.seg);
    hide Receive, Replies, InOrder, AckedAreDelivered, Advance, EndOff, EndsSession, Opened;
    assert FoundAt(begun, Opened(r, item.seg), item.seg, if item.seg.Start() then 0 else EndOff(sent), tr);
  }

  lemma RepliesOne(events: seq<Event>)
    ensures events == [] ==> Replies(events) == []
    ensures |events| == 1 && !events[0].Deliver? ==> Replies(events) == events
    ensures |events| == 2 && events[0].Deliver? && !events[1].Deliver? ==> Replies(events) == [events[1]]
  {
    if |events| == 1 {
      assert events[..0] == [];
    } else if |events| == 2 {
      assert events[..1][..0] == [];
    }
  }

  lemma AckedAreDeliveredAppend(begun: seq<Octets>, a: seq<Event>, b: seq<Event>)
    requires AckedAreDelivered(begun, a) && AckedAreDelivered(begun, b)
    ensures AckedAreDelivered(begun, a + b)
  {}

  lemma OneMoreReply(begun: seq<Octets>, a: seq<Event>, b: seq<Event>)
    requires AllInOrder(begun, Replies(a)) && |Replies(b)| <= 1
    requires Replies(b) != [] ==> InOrder(begun, TrackOf(begun, Replies(a)), Replies(b)[0])
    ensures AllInOrder(begun, Replies(a + b))
    ensures TrackOf(begun, Replies(a + b))
            == if Replies(b) == [] then TrackOf(begun, Replies(a))
               else Advance(begun, TrackOf(begun, Replies(a)), Replies(b)[0])
  {
    hide InOrder, Advance, Replies;
    RepliesAppend(a, b);
    var before, after := Replies(a), Replies(b);
    if after == [] {
      assert before + after == before;
    } else {
      assert before + after == before + [after[0]] && (before + after)[..|before|] == before;
    }
  }

  /** Whatever the receiver decides about the transfers, its answers to such a stream are
      in transfer order, and it acknowledges a whole transfer only after delivering it. */
  ghost predicate AnswersSound(cfg: Config, begun: seq<Octets>, items: seq<Item>) {
    && AllInOrder(begun, Replies(Events(cfg, items)))
    && AckedAreDelivered(begun, Events(cfg, items))
    && (!After(cfg, items).over ==>
          Answered(begun, Segs(items), After(cfg, items), TrackOf(begun, Replies(Events(cfg, items)))))
  }

  lemma OneMoreAnswer(cfg: Config, begun: seq<Octets>, front: seq<Item>, last: Item)
    requires AnswersSound(cfg, begun, front) && Follows(begun, Segs(front), last.seg)
    ensures AnswersSound(cfg, begun, front + [last])
  {
    hide Receive, Answered, InOrder, AckedAreDelivered, Follows, AllInOrder, TrackOf, Replies, After, Events, Advance;
    var items, r := front + [last], After(cfg, front);
    EventsSnoc(cfg, front, last);
    assert items[..|front|] == front;
    var more := Receive(cfg, r, last).1;
    OverIsQuiet(cfg, r, last);
    if r.over || Receive(cfg, r, last).0.over {
      assert Events(cfg, items) == Events(cfg, front);
    } else {
      AnswersInOrder(cfg, begun, Segs(front), last, r, TrackOf(begun, Replies(Events(cfg, front))));
      AckedAreDeliveredAppend(begun, Events(cfg, front), more);
      OneMoreReply(begun, Events(cfg, front), more);
    }
  }

  lemma {:induction false} StreamAnswered(cfg: Config, begun: seq<Octets>, items: seq<Item>)
    requires GoodStream(begun, Segs(items))
    ensures AnswersSound(cfg, begun, items)
  {
    hide Follows, Answered;
    if items == [] {
      NothingAnswered(begun);
    } else {
      hide AnswersSound;
      var front, last := items[..|items| - 1], items[|items| - 1];
      SegsLength(front);
      assert Segs(items)[..|items| - 1] == Segs(front);
      StreamAnswered(cfg, begun, front);
      OneMoreAnswer(cfg, begun, front, last);
      assert front + [last] == items;
    }
  }

  lemma NothingAnswered(begun: seq<Octets>)
    ensures Answered(begun, [], FRESH, Track(0, 0)) && AckedAreDelivered(begun, [])
  {}

  lemma OverIsQuiet(cfg: Config, r: Reassembly, item: Item)
    ensures var (r', events) := Receive(cfg, r, item);
            (r.over ==> r'.over) && (r'.over ==> events == [])
  {
    hide Refusal;
  }

  lemma {:induction false} SegsLength(items: seq<Item>)
    ensures |Segs(items)| == |items|
  {
    if items != [] {
      SegsLength(items[..|items| - 1]);
    }
  }
}
