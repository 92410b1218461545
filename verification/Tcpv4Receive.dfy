/** Reassembly of inbound transfers (RFC 9174, section 5.2), one whole segment at a time:
    the reference that the two cooperating threads of a session are measured against. */
module Tcpv4Receive {
  import opened Octets
  import opened Wire
  import opened Options
  import opened Tcpv4Msg
  import opened Tcpv4Ext

  /** What this node advertises: the largest segment and transfer it takes. */
  datatype Config = Config(segmentMru: nat, transferMru: nat)

  datatype Segment = Segment(flags: uint8, id: uint64, ext: Octets, data: Octets) {
    predicate Start() { IsStart(flags) }
    predicate End() { IsEnd(flags) }
  }

  /** A segment, and whether the session was found to be ending when it was handled. */
  datatype Item = Item(seg: Segment, ending: bool)

  /** What the session does about a transfer: give BP a bundle, or reply to the peer. */
  datatype Event =
    | Deliver(bundle: Octets)
    | Ack(flags: uint8, id: uint64, length: nat)
    | Refuse(reason: uint8, refusedId: uint64)

  datatype Reassembly = Reassembly(active: bool, id: uint64, acc: Octets, refused: bool, over: bool)

  const FRESH := Reassembly(false, 0, [], false, false)

  /** Segments that end the session instead: oversized, interleaved, or outside any transfer. */
  predicate EndsSession(cfg: Config, r: Reassembly, seg: Segment) {
    || |seg.data| > cfg.segmentMru
    || (if seg.Start() then r.active else !r.active || seg.id != r.id)
  }

  function Opened(r: Reassembly, seg: Segment): Reassembly {
    if seg.Start() then Reassembly(true, seg.id, [], false, false) else r
  }

  ghost predicate DeclaredTooLong(cfg: Config, ext: Octets) {
    exists n: uint64 :: Declares(ext, n) && n > cfg.transferMru
  }

  /** Why a segment makes the receiver refuse its transfer, if it does. */
  ghost function Refusal(cfg: Config, r: Reassembly, item: Item): (why: Option<uint8>)
    ensures r.refused ==> why.None?
    ensures why.None? && !r.refused ==> |r.acc| + |item.seg.data| <= cfg.transferMru
  {
    var seg := item.seg;
    if r.refused then None
    else if seg.Start() && item.ending then Some(REFUSE_SESS_TERM)
    else if seg.Start() && !Benign(seg.ext) then Some(REFUSE_EXT_FAILURE)
    else if seg.Start() && DeclaredTooLong(cfg, seg.ext) then Some(REFUSE_NO_RESOURCES)
    else if |r.acc| + |seg.data| > cfg.transferMru then Some(REFUSE_NO_RESOURCES)
    else None
  }

  /** One segment handled from beginning to end. */
  ghost function Receive(cfg: Config, r: Reassembly, item: Item): (Reassembly, seq<Event>) {
    var seg := item.seg;
    if r.over || EndsSession(cfg, r, seg) then (r.(over := true), [])
    else
      var o := Opened(r, seg);
      var why := Refusal(cfg, o, item);
      if why.Some? then (Reassembly(!seg.End(), o.id, o.acc, true, false), [Refuse(why.value, seg.id)])
      else if o.refused then (o.(active := !seg.End()), [])
      else
        var acc := o.acc + seg.data;
        (Reassembly(!seg.End(), o.id, acc, false, false),
         (if seg.End() then [Deliver(acc)] else []) + [Ack(seg.flags, seg.id, |acc|)])
  }

  ghost function After(cfg: Config, items: seq<Item>): Reassembly {
    if items == [] then FRESH
    else Receive(cfg, After(cfg, items[..|items| - 1]), items[|items| - 1]).0
  }

  /** The events that the n-th segment causes. */
  ghost function Caused(cfg: Config, items: seq<Item>, n: nat): seq<Event>
    requires n < |items|
  {
    Receive(cfg, After(cfg, items[..n]), items[n]).1
  }

  ghost function Events(cfg: Config, items: seq<Item>): seq<Event> {
    if items == [] then []
    else Events(cfg, items[..|items| - 1]) + Caused(cfg, items, |items| - 1)
  }

  lemma EventsSnoc(cfg: Config, items: seq<Item>, item: Item)
    ensures After(cfg, items + [item]) == Receive(cfg, After(cfg, items), item).0
    ensures Events(cfg, items + [item]) == Events(cfg, items) + Receive(cfg, After(cfg, items), item).1
  {
    assert (items + [item])[..|items|] == items;
  }

  lemma AfterOne(cfg: Config, items: seq<Item>, n: nat)
    requires n < |items|
    ensures After(cfg, items[..n + 1]) == Receive(cfg, After(cfg, items[..n]), items[n]).0
    ensures !After(cfg, items[..n + 1]).over ==> !After(cfg, items[..n]).over
  {
    assert items[..n + 1][..n] == items[..n];
  }

  // ---- What the reference promises about each transfer -----------------------------------

  function DataOf(items: seq<Item>): Octets {
    if items == [] then [] else DataOf(items[..|items| - 1]) + items[|items| - 1].seg.data
  }

  lemma DataOfOneMore(items: seq<Item>, i: nat, n: nat)
    requires i <= n < |items|
    ensures DataOf(items[i..n + 1]) == (if i == n then [] else DataOf(items[i..n])) + items[n].seg.data
  {
    assert items[i..n + 1][..n - i] == items[i..n];
  }

  /** Segments i to n belong to one transfer: i starts it, no other does, and none
      before n ends it. */
  predicate OneTransfer(items: seq<Item>, i: nat, n: nat) {
    && i <= n < |items|
    && items[i].seg.Start()
    && (forall k :: i < k <= n ==> !items[k].seg.Start())
    && (forall k :: i <= k < n ==> !items[k].seg.End())
  }

  /** After n segments of an accepted stream the state describes the open transfer. */
  lemma {:induction false} OpenTransfer(cfg: Config, items: seq<Item>, i: nat, n: nat)
    requires OneTransfer(items, i, n) && !After(cfg, items[..n + 1]).over
    ensures var r := After(cfg, items[..n + 1]);
            && r.id == items[i].seg.id == items[n].seg.id
            && r.active == !items[n].seg.End()
            && (!r.refused ==> r.acc == DataOf(items[i..n + 1]) && |r.acc| <= cfg.transferMru)
    decreases n - i
  {
    hide Refusal, After, DataOf;
    AfterOne(cfg, items, n);
    DataOfOneMore(items, i, n);
    if i < n {
      OpenTransfer(cfg, items, i, n - 1);
    }
  }

  /** Every reply is about its own transfer: an acknowledgment carries the running sum of
      that transfer's segments; the bundle goes to BP, whole and within the Transfer MRU,
      before the acknowledgment of its END segment. */
  lemma RepliesAreRunningSums(cfg: Config, items: seq<Item>, i: nat, n: nat)
    requires OneTransfer(items, i, n) && !After(cfg, items[..n + 1]).over
    ensures var data := DataOf(items[i..n + 1]);
            var id := items[i].seg.id;
            var sent := Caused(cfg, items, n);
            || sent == []
            || (exists reason :: sent == [Refuse(reason, id)])
            || (!items[n].seg.End() && sent == [Ack(items[n].seg.flags, id, |data|)])
            || (items[n].seg.End() && |data| <= cfg.transferMru
                && sent == [Deliver(data), Ack(items[n].seg.flags, id, |data|)])
  {
    hide Refusal;
    OpenTransfer(cfg, items, i, n);
    AfterOne(cfg, items, n);
    var why := Refusal(cfg, Opened(After(cfg, items[..n]), items[n].seg), items[n]);
    assert why.Some? ==> Caused(cfg, items, n) == [Refuse(why.value, items[n].seg.id)];
  }

  lemma RefuseMeansRefused(cfg: Config, r: Reassembly, item: Item)
    requires exists reason, id :: Receive(cfg, r, item).1 == [Refuse(reason, id)]
    ensures Receive(cfg, r, item).0.refused
  {
    hide Refusal;
    var sent := Receive(cfg, r, item).1;
    assert sent[0].Refuse?;
  }

  /** A refused transfer is refused once, and nothing is said about it afterwards. */
  lemma {:induction false} SilentAfterRefusal(cfg: Config, items: seq<Item>, i: nat, n: nat, m: nat)
    requires OneTransfer(items, i, m) && i <= n < m && !After(cfg, items[..m + 1]).over
    requires exists reason :: Caused(cfg, items, n) == [Refuse(reason, items[i].seg.id)]
    ensures After(cfg, items[..m + 1]).refused && Caused(cfg, items, m) == []
    decreases m
  {
    hide Refusal;
    AfterOne(cfg, items, m);
    AfterOne(cfg, items, m - 1);
    if n == m - 1 {
      RefuseMeansRefused(cfg, After(cfg, items[..n]), items[n]);
    } else {
      SilentAfterRefusal(cfg, items, i, n, m - 1);
    }
  }

  /** A transfer that no segment makes the receiver refuse is delivered when it ends. */
  lemma UnrefusedIsDelivered(cfg: Config, items: seq<Item>, i: nat, n: nat)
    requires OneTransfer(items, i, n) && items[n].seg.End()
    requires !After(cfg, items[..n + 1]).over && !After(cfg, items[..n + 1]).refused
    ensures Caused(cfg, items, n)
            == [Deliver(DataOf(items[i..n + 1])), Ack(items[n].seg.flags, items[i].seg.id, |DataOf(items[i..n + 1])|)]
  {
    hide Refusal;
    OpenTransfer(cfg, items, i, n);
    AfterOne(cfg, items, n);
  }

  // ---- Which transfers are refused ---------------------------------------------------------

  /** The first segment of a transfer is reason enough to refuse it. */
  ghost predicate StartRefused(cfg: Config, start: Item) {
    || start.ending || !Benign(start.seg.ext)
    || exists n: uint64 :: Declares(start.seg.ext, n) && n > cfg.transferMru
  }

  /** A transfer is refused exactly when it starts while the session is ending, when its extension
      list is broken or holds a CRITICAL item, when it declares a length above the Transfer MRU, or
      as soon as its segments add up to more than that. */
  lemma {:induction false} RefusedExactlyWhen(cfg: Config, items: seq<Item>, i: nat, n: nat)
    requires OneTransfer(items, i, n) && !After(cfg, items[..n + 1]).over
    ensures After(cfg, items[..n + 1]).refused <==>
              StartRefused(cfg, items[i]) || |DataOf(items[i..n + 1])| > cfg.transferMru
    decreases n - i
  {
    hide After, DataOf, StartRefused;
    AfterOne(cfg, items, n);
    DataOfOneMore(items, i, n);
    OpenTransfer(cfg, items, i, n);
    if i == n {
      FirstJudged(cfg, After(cfg, items[..n]), items[n]);
    } else {
      RefusedExactlyWhen(cfg, items, i, n - 1);
      OpenTransfer(cfg, items, i, n - 1);
      LaterJudged(cfg, After(cfg, items[..n]), items[n]);
    }
  }

  lemma FirstJudged(cfg: Config, r: Reassembly, item: Item)
    requires item.seg.Start() && !Receive(cfg, r, item).0.over
    ensures Receive(cfg, r, item).0.refused <==> StartRefused(cfg, item) || |item.seg.data| > cfg.transferMru
  {
    hide Benign, Declares;
  }

  lemma LaterJudged(cfg: Config, r: Reassembly, item: Item)
    requires !item.seg.Start() && !Receive(cfg, r, item).0.over
    ensures Receive(cfg, r, item).0.refused <==> r.refused || |r.acc| + |item.seg.data| > cfg.transferMru
  {
    hide Benign, Declares;
  }

  /** Whether the transfer is given to BP and acknowledged at its end, exactly. */
  lemma DeliveredExactlyWhen(cfg: Config, items: seq<Item>, i: nat, n: nat)
    requires OneTransfer(items, i, n) && items[n].seg.End() && !After(cfg, items[..n + 1]).over
    ensures var data := DataOf(items[i..n + 1]);
            Caused(cfg, items, n) == [Deliver(data), Ack(items[n].seg.flags, items[i].seg.id, |data|)] <==>
              !StartRefused(cfg, items[i]) && |data| <= cfg.transferMru
  {
    RefusedExactlyWhen(cfg, items, i, n);
    hide DataOf, StartRefused, OneTransfer;
    AfterOne(cfg, items, n);
    if !After(cfg, items[..n + 1]).refused {
      UnrefusedIsDelivered(cfg, items, i, n);
    } else {
      hide After;
      RefusedDeliversNone(cfg, After(cfg, items[..n]), items[n]);
    }
  }

  lemma RefusedDeliversNone(cfg: Config, r: Reassembly, item: Item)
    requires Receive(cfg, r, item).0.refused
    ensures |Receive(cfg, r, item).1| <= 1
  {
    hide Refusal;
  }

  /** What a refusal with this reason says of the transfer. */
  ghost predicate Reason(cfg: Config, items: seq<Item>, i: nat, n: nat, reason: uint8)
    requires i <= n < |items|
  {
    && (reason == 2 || reason == 5 || reason == 6)
    && (reason == 6 ==> n == i && items[i].ending)
    && (reason == 5 ==> n == i && !Benign(items[i].seg.ext))
    && (reason == 2 ==>
          || (n == i && exists length: uint64 :: Declares(items[i].seg.ext, length) && length > cfg.transferMru)
          || |DataOf(items[i..n + 1])| > cfg.transferMru)
  }

  lemma RefusedForReason(cfg: Config, items: seq<Item>, i: nat, n: nat, e: Event)
    requires OneTransfer(items, i, n) && !After(cfg, items[..n + 1]).over
    requires e.Refuse? && e in Caused(cfg, items, n)
    ensures Reason(cfg, items, i, n, e.reason)
  {
    hide Benign, Declares, DataOf, After;
    AfterOne(cfg, items, n);
    DataOfOneMore(items, i, n);
    if i < n {
      OpenTransfer(cfg, items, i, n - 1);
    }
    ReasonGiven(cfg, After(cfg, items[..n]), items[n], e);
  }

  lemma ReasonGiven(cfg: Config, r: Reassembly, item: Item, e: Event)
    requires e.Refuse? && e in Receive(cfg, r, item).1
    ensures var held := if item.seg.Start() then 0 else |r.acc|;
            && (e.reason == 2 || e.reason == 5 || e.reason == 6)
            && (e.reason == 6 ==> item.seg.Start() && item.ending)
            && (e.reason == 5 ==> item.seg.Start() && !Benign(item.seg.ext))
            && (e.reason == 2 ==> (item.seg.Start() && DeclaredTooLong(cfg, item.seg.ext))
                                  || held + |item.seg.data| > cfg.transferMru)
            && (!item.seg.Start() ==> !r.refused)
  {
    hide Benign, Declares;
  }

  /** The event says of a transfer among these segments what is true of it up to some segment:
      its number, the octets received so far, the bundle, why it is refused. */
  ghost predicate AboutTransfer(cfg: Config, items: seq<Item>, e: Event, i: nat, n: nat) {
    && OneTransfer(items, i, n)
    && match e
       case Deliver(bundle) => items[n].seg.End() && bundle == DataOf(items[i..n + 1])
       case Ack(flags, id, length) =>
         id == items[i].seg.id && flags == items[n].seg.flags && length == |DataOf(items[i..n + 1])|
       case Refuse(reason, id) => id == items[i].seg.id && Reason(cfg, items, i, n, reason)
  }

  ghost predicate AboutSome(cfg: Config, items: seq<Item>, e: Event) {
    exists i: nat, n: nat :: AboutTransfer(cfg, items, e, i, n)
  }

  lemma AboutInLonger(cfg: Config, items: seq<Item>, item: Item, e: Event)
    requires AboutSome(cfg, items, e)
    ensures AboutSome(cfg, items + [item], e)
  {
    hide DataOf;
    var i: nat, n: nat :| AboutTransfer(cfg, items, e, i, n);
    assert (items + [item])[i..n + 1] == items[i..n + 1];
    assert AboutTransfer(cfg, items + [item], e, i, n);
  }

  /** Whatever the peer sends, every event is about a transfer of its own: acknowledgments
      carry the running sum of its segments. */
  lemma {:induction false} EventsAreAboutTransfers(cfg: Config, items: seq<Item>)
    ensures forall e :: e in Events(cfg, items) ==> AboutSome(cfg, items, e)
  {
    hide Refusal, Receive, After, DataOf, AboutSome;
    if items != [] {
      var front, last := items[..|items| - 1], |items| - 1;
      EventsAreAboutTransfers(cfg, front);
      var sent := Caused(cfg, items, last);
      assert items == front + [items[last]];
      forall e | e in Events(cfg, items) ensures AboutSome(cfg, items, e) {
        if e in Events(cfg, front) {
          AboutInLonger(cfg, front, items[last], e);
        } else {
          CausedIsAbout(cfg, items, e);
        }
      }
    }
  }

  lemma CausedIsAbout(cfg: Config, items: seq<Item>, e: Event)
    requires items != [] && e in Caused(cfg, items, |items| - 1)
    ensures AboutSome(cfg, items, e)
  {
    hide Refusal, Receive, After, DataOf;
    var last := |items| - 1;
    if After(cfg, items).over {
      QuietWhenOver(cfg, items);
    }
    var i := OpenSince(cfg, items);
    assert items[..last + 1] == items;
    RepliesAreRunningSums(cfg, items, i, last);
    if e.Refuse? {
      RefusedForReason(cfg, items, i, last, e);
    }
    hide Reason;
    assert AboutTransfer(cfg, items, e, i, last);
  }

  /** The bundles among some events, in order. */
  function Bundles(events: seq<Event>): seq<Octets> {
    if events == [] then []
    else if events[0].Deliver? then [events[0].bundle] + Bundles(events[1..])
    else Bundles(events[1..])
  }

  lemma {:induction false} BundlesAppend(a: seq<Event>, b: seq<Event>)
    ensures Bundles(a + b) == Bundles(a) + Bundles(b)
  {
    if a == [] {
      assert a + b == b;
    } else {
      assert (a + b)[1..] == a[1..] + b;
      BundlesAppend(a[1..], b);
    }
  }

  lemma BundlesOf(bundle: Octets, e: Event)
    requires !e.Deliver?
    ensures Bundles([e]) == [] && Bundles([Deliver(bundle), e]) == [bundle]
  {
    assert [e][1..] == [] && [Deliver(bundle), e][1..] == [e];
  }

  /** A delivered transfer: where it starts and where it ends. */
  datatype Span = Span(first: nat, last: nat)

  /** The spans name whole transfers, one after another, and the bundles are their data. */
  predicate Spanned(cfg: Config, items: seq<Item>, bundles: seq<Octets>, spans: seq<Span>) {
    && |spans| == |bundles|
    && (forall k :: 0 <= k < |spans| ==>
          && OneTransfer(items, spans[k].first, spans[k].last)
          && items[spans[k].last].seg.End()
          && bundles[k] == DataOf(items[spans[k].first..spans[k].last + 1])
          && |bundles[k]| <= cfg.transferMru)
    && (forall k :: 0 <= k < |spans| - 1 ==> spans[k].last < spans[k + 1].first)
  }

  lemma QuietWhenOver(cfg: Config, items: seq<Item>)
    requires items != [] && After(cfg, items).over
    ensures Caused(cfg, items, |items| - 1) == []
  {
    hide Refusal;
  }

  /** Where the transfer of the last handled segment started. */
  lemma {:induction false} OpenSince(cfg: Config, items: seq<Item>) returns (i: nat)
    requires items != [] && !After(cfg, items).over
    ensures OneTransfer(items, i, |items| - 1)
  {
    hide Refusal;
    var front, last := items[..|items| - 1], |items| - 1;
    if items[last].seg.Start() {
      return last;
    }
    assert !After(cfg, front).over && After(cfg, front).active;
    i := OpenSince(cfg, front);
    assert front[..last] == front;
    OpenTransfer(cfg, front, i, last - 1);
  }

  lemma SpannedInLonger(cfg: Config, items: seq<Item>, item: Item, bundles: seq<Octets>, spans: seq<Span>)
    requires Spanned(cfg, items, bundles, spans)
    ensures Spanned(cfg, items + [item], bundles, spans)
  {
    var longer := items + [item];
    assert forall k :: 0 <= k < |spans| ==>
             items[spans[k].first..spans[k].last + 1] == longer[spans[k].first..spans[k].last + 1];
  }

  lemma NothingSpanned(cfg: Config)
    ensures Spanned(cfg, [], [], [])
  {}

  /** Whatever the peer sends, the bundles given to BP are distinct whole transfers of
      the stream, in stream order, each the concatenation of its segments. */
  lemma {:induction false} BundlesAreTransfers(cfg: Config, items: seq<Item>) returns (spans: seq<Span>)
    ensures Spanned(cfg, items, Bundles(Events(cfg, items)), spans)
  {
    hide Refusal, Receive, After, Spanned, DataOf;
    if items == [] {
      spans := [];
      NothingSpanned(cfg);
      return;
    }
    var front, last := items[..|items| - 1], |items| - 1;
    spans := BundlesAreTransfers(cfg, front);
    assert items == front + [items[last]];
    SpannedInLonger(cfg, front, items[last], Bundles(Events(cfg, front)), spans);
    var sent := Caused(cfg, items, last);
    BundlesAppend(Events(cfg, front), sent);
    if sent == [] {
      assert Events(cfg, items) == Events(cfg, front);
      return;
    }
    if After(cfg, items).over {
      QuietWhenOver(cfg, items);
    }
    var i := OpenSince(cfg, items);
    assert items[..last + 1] == items && items[i..last + 1] == items[i..];
    RepliesAreRunningSums(cfg, items, i, last);
    BundlesOf(DataOf(items[i..]), sent[|sent| - 1]);
    if sent[0].Deliver? {
      SpannedSnoc(cfg, items, Bundles(Events(cfg, front)), spans, i);
      spans := spans + [Span(i, last)];
      assert sent == [Deliver(DataOf(items[i..])), sent[1]];
      assert Bundles(Events(cfg, items)) == Bundles(Events(cfg, front)) + [DataOf(items[i..])];
    } else {
      assert sent == [sent[0]];
      assert Bundles(Events(cfg, items)) == Bundles(Events(cfg, front));
    }
  }

  /** A transfer that ends with the last segment follows every one that ended earlier. */
  lemma SpannedSnoc(cfg: Config, items: seq<Item>, bundles: seq<Octets>, spans: seq<Span>, i: nat)
    requires items != [] && Spanned(cfg, items[..|items| - 1], bundles, spans)
    requires OneTransfer(items, i, |items| - 1) && items[|items| - 1].seg.End()
    requires |DataOf(items[i..])| <= cfg.transferMru
    ensures Spanned(cfg, items, bundles + [DataOf(items[i..])], spans + [Span(i, |items| - 1)])
  {
    hide DataOf;
    var front, last := items[..|items| - 1], |items| - 1;
    assert i <= last;
    hide OneTransfer;
    EndsBefore(cfg, items, i, bundles, spans);
    assert items == front + [items[last]] && items[i..] == items[i..last + 1];
    SpannedInLonger(cfg, front, items[last], bundles, spans);
  }

  /** Transfers that ended before the last segment ended before the last transfer began. */
  lemma EndsBefore(cfg: Config, items: seq<Item>, i: nat, bundles: seq<Octets>, spans: seq<Span>)
    requires items != [] && OneTransfer(items, i, |items| - 1)
    requires Spanned(cfg, items[..|items| - 1], bundles, spans)
    ensures forall k :: 0 <= k < |spans| ==> spans[k].last < i
  {
    hide DataOf;
  }
}
