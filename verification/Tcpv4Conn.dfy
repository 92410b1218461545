/** The receiving half of a session object: the reassembly buffer, the hand-off slot and
    the critical sections of the two threads. Each method is one action of Tcpv4Rx. */
module Tcpv4Conn {
  import opened Octets
  import opened Options
  import opened Tcpv4Msg
  import opened Tcpv4Ext
  import opened Tcpv4Receive
  import opened Tcpv4Rx

  const INITIAL_CAP := 8192
  const MAX_BUNDLE := 256 * 1024 // bounds both configurable MRUs

  class Conn {
    const cfg: Config
    var rxBundle: array<uint8>
    var rxLen: nat
    var rxId: uint64
    var rxActive: bool
    var rxRefused: bool
    var dlvBundle: array<uint8>
    var dlvLen: nat
    var dlvId: uint64
    var dlvFlags: uint8
    var dlvPending: bool
    var dlvStopped: bool
    var dlvFailed: bool
    var ending: bool
    ghost var pc: RxPc
    ghost var dpc: DlvPc
    ghost var items: seq<Item>
    ghost var log: seq<Event>

    /** The buffer being filled and the buffer being delivered are never the same one. */
    ghost predicate Valid()
      reads this
    {
      && rxBundle != dlvBundle
      && rxLen <= rxBundle.Length && dlvLen <= dlvBundle.Length
      && rxLen <= cfg.transferMru <= MAX_BUNDLE
      && 1 <= cfg.segmentMru <= MAX_BUNDLE
      && (pc.AwaitRefuse? || pc.SendRefuse? ==> rxRefused)
      && (pc.Taking? && !rxRefused ==> rxLen + |pc.seg.data| <= cfg.transferMru)
    }

    ghost function Abs(): State
      requires Valid()
      reads this, rxBundle, dlvBundle
    {
      State(pc, rxActive, rxId, rxBundle[..rxLen], rxRefused,
            dpc, dlvBundle[..dlvLen], dlvId, dlvFlags, dlvPending, dlvStopped, dlvFailed,
            ending, items, log)
    }

    constructor (cfg: Config)
      requires 1 <= cfg.segmentMru <= MAX_BUNDLE && 1 <= cfg.transferMru <= MAX_BUNDLE
      ensures Valid() && Abs() == INITIAL && this.cfg == cfg
      ensures fresh(rxBundle) && fresh(dlvBundle)
    {
      this.cfg := cfg;
      rxBundle, rxLen, rxId, rxActive, rxRefused := new uint8[0], 0, 0, false, false;
      dlvBundle, dlvLen, dlvId, dlvFlags := new uint8[0], 0, 0, 0;
      dlvPending, dlvStopped, dlvFailed, ending := false, false, false, false;
      pc, dpc, items, log := Reading, Waiting, [], [];
    }

    /** rxReserve: room for want octets, keeping what is held. The old buffer is given up
        only for a new one; the buffer being delivered is never involved. */
    method RxReserve(want: nat)
      requires Valid() && want <= 2 * MAX_BUNDLE
      modifies this`rxBundle
      ensures Valid() && Abs() == old(Abs())
      ensures rxBundle.Length >= want
      ensures rxBundle == old(rxBundle) || fresh(rxBundle)
    {
      if want <= rxBundle.Length {
        return;
      }
      var cap := if rxBundle.Length == 0 then INITIAL_CAP else rxBundle.Length;
      while cap < want
        invariant cap >= 1 && cap >= rxBundle.Length
        decreases want - cap
      {
        cap := cap * 2;
      }
      var bigger := new uint8[cap];
      forall i | 0 <= i < rxLen {
        bigger[i] := rxBundle[i];
      }
      assert bigger[..rxLen] == rxBundle[..rxLen];
      rxBundle := bigger;
    }

    /** The START branch of handleXferSegment: a fresh transfer, refused at once when the
        session is ending, when an extension is critical, or when it is declared too long. */
    method StartTransfer(seg: Segment) returns (why: Option<uint8>)
      requires Valid() && pc.Reading? && seg.Start() && !rxActive
      modifies this`rxActive, this`rxId, this`rxLen, this`rxRefused, this`rxBundle
      ensures Valid() && rxActive && rxId == seg.id && rxLen == 0 && rxRefused == why.Some?
      ensures rxBundle == old(rxBundle) || fresh(rxBundle)
      ensures why == if ending then Some(REFUSE_SESS_TERM)
                     else if !Benign(seg.ext) then Some(REFUSE_EXT_FAILURE)
                     else if DeclaredTooLong(cfg, seg.ext) then Some(REFUSE_NO_RESOURCES)
                     else None
    {
      rxActive, rxId, rxLen, rxRefused := true, seg.id, 0, false;
      why := None;
      if ending {
        rxRefused, why := true, Some(REFUSE_SESS_TERM);
      } else {
        var critical := SegmentHasCriticalExt(seg.ext);
        if critical {
          rxRefused, why := true, Some(REFUSE_EXT_FAILURE);
        }
      }
      if !rxRefused {
        hide Benign, Declares;
        var rc, total := FindXferLength(seg.ext);
        if rc == 1 {
          OneLength(cfg, seg.ext, total);
          if total > cfg.transferMru {
            rxRefused, why := true, Some(REFUSE_NO_RESOURCES);
          } else {
            RxReserve(total);
          }
        }
      }
    }

    /** The state of the transfer a segment belongs to, as this thread holds it. */
    ghost function Current(): Reassembly
      requires rxLen <= rxBundle.Length
      reads this, rxBundle
    {
      Reassembly(rxActive, rxId, rxBundle[..rxLen], rxRefused, false)
    }

    /** The checks handleXferSegment makes on a header before it touches the payload. */
    method JudgeSegment(seg: Segment) returns (fatal: bool, why: Option<uint8>)
      requires Valid() && pc.Reading?
      modifies this`rxActive, this`rxId, this`rxLen, this`rxRefused, this`rxBundle
      ensures Valid() && (rxBundle == old(rxBundle) || fresh(rxBundle))
      ensures fatal == EndsSession(cfg, old(Current()), seg)
      ensures fatal ==> Current() == old(Current())
      ensures !fatal ==> rxActive
      ensures !fatal ==> Current() == Opened(old(Current()), seg).(refused := rxRefused)
      ensures !fatal ==> why == Refusal(cfg, Opened(old(Current()), seg), Item(seg, ending))
      ensures !fatal ==> rxRefused == (why.Some? || Opened(old(Current()), seg).refused)
      ensures !fatal && !rxRefused ==> rxLen + |seg.data| <= cfg.transferMru
    {
      hide Benign, DeclaredTooLong;
      why := None;
      if |seg.data| > cfg.segmentMru {
        return true, why; // SESS_TERM, resource exhaustion
      }
      if seg.Start() {
        if rxActive {
          return true, why; // MSG_REJECT: interleaved transfers
        }
        why := StartTransfer(seg);
        assert rxBundle[..rxLen] == [];
      } else if !rxActive || seg.id != rxId {
        return true, why; // MSG_REJECT: a segment outside any transfer
      }
      fatal := false;
      if !rxRefused && rxLen + |seg.data| > cfg.transferMru {
        rxRefused, why := true, Some(REFUSE_NO_RESOURCES);
      }
    }

    /** The same of the whole state. */
    method JudgeState(seg: Segment) returns (fatal: bool, why: Option<uint8>)
      requires Valid() && pc.Reading?
      modifies this`rxActive, this`rxId, this`rxLen, this`rxRefused, this`rxBundle
      ensures Valid() && (rxBundle == old(rxBundle) || fresh(rxBundle))
      ensures Abs() == old(Abs()).(active := Abs().active, id := Abs().id, rx := Abs().rx, refused := Abs().refused)
      ensures Judged(cfg, old(Abs()), Item(seg, ending), Abs(), fatal, why)
      ensures !fatal && why.Some? ==> rxRefused
      ensures !fatal && !rxRefused ==> rxLen + |seg.data| <= cfg.transferMru
    {
      hide Refusal, EndsSession, Opened;
      fatal, why := JudgeSegment(seg);
    }

    /** handleXferSegment, from the header to the point where the payload is dealt with. */
    method BeginSegment(seg: Segment)
      requires Valid() && pc.Reading?
      modifies this`pc, this`items, this`rxActive, this`rxId, this`rxLen, this`rxRefused, this`rxBundle
      ensures Valid() && Abs() == ApplyBegin(cfg, old(Abs()), seg)
      ensures (rxBundle == old(rxBundle) || fresh(rxBundle))
    {
      hide Abs, Judged, ApplyBegin, Valid;
      RecordIs();
      ghost var s := Abs();
      var fatal, why := JudgeState(seg);
      ghost var t := Abs();
      RecordIs();
      Enter(seg, fatal, why);
      BeginIs(cfg, s, seg, t, fatal, why);
    }

    lemma RecordIs()
      requires Valid()
      ensures Abs().ending == ending && Abs().items == items
    {}

    /** The segment is on record, and the thread knows what to do about it. */
    method Enter(seg: Segment, fatal: bool, why: Option<uint8>)
      requires !fatal && why.Some? ==> rxRefused
      requires Valid() && (!fatal && why.None? && !rxRefused ==> rxLen + |seg.data| <= cfg.transferMru)
      modifies this`pc, this`items
      ensures Valid()
      ensures Abs() == old(Abs()).(items := old(items) + [Item(seg, ending)],
                                   pc := if fatal then Gone
                                          else if why.Some? then AwaitRefuse(seg, why.value) else Taking(seg))
    {
      items := items + [Item(seg, ending)];
      pc := if fatal then Gone else if why.Some? then AwaitRefuse(seg, why.value) else Taking(seg);
    }

    /** Appends a payload to the reassembly buffer, growing it when needed. */
    method StorePayload(data: Octets)
      requires Valid() && rxLen + |data| <= cfg.transferMru
      modifies this`rxBundle, this`rxLen, rxBundle
      ensures rxBundle != dlvBundle && rxLen <= rxBundle.Length
      ensures rxBundle[..rxLen] == old(rxBundle[..rxLen]) + data && rxLen == old(rxLen) + |data|
    {
      RxReserve(rxLen + |data|);
      assert rxBundle[..rxLen] == Abs().rx;
      ghost var held := rxBundle[..rxLen];
      forall i | 0 <= i < |data| {
        rxBundle[rxLen + i] := data[i];
      }
      rxLen := rxLen + |data|;
      assert rxBundle[..rxLen] == held + data;
    }

    /** The rest of handleXferSegment: store the payload or drain it, and move on. */
    method TakeSegment(seg: Segment)
      requires Valid() && pc == Taking(seg)
      modifies this`pc, this`rxActive, this`rxBundle, this`rxLen, rxBundle
      ensures Valid() && Apply(cfg, old(Abs()), Take) == Some(Abs())
      ensures unchanged(dlvBundle)
    {
      if !rxRefused {
        StorePayload(seg.data);
      }
      if seg.End() {
        rxActive := false;
        pc := if rxRefused then Reading else HandingOver(seg.flags);
      } else {
        pc := if rxRefused then Reading else AwaitAck(seg.flags);
      }
    }

    /** rxAwaitDelivery, once its wait is over. */
    method RxAwaitDelivery() returns (bad: bool)
      requires Valid() && (pc.AwaitRefuse? || pc.AwaitAck?) && Drained(Abs())
      modifies this`pc
      ensures Valid() && bad == (dlvStopped || dlvFailed)
      ensures Apply(cfg, old(Abs()), if old(pc).AwaitRefuse? then PassRefuse else PassAck) == Some(Abs())
    {
      bad := dlvStopped || dlvFailed;
      if pc.AwaitRefuse? {
        pc := if bad then Taking(pc.seg) else SendRefuse(pc.seg, pc.reason);
      } else {
        pc := if bad then Gone else SendAck(pc.flags);
      }
    }

    /** handOverTransfer, once its wait is over: the buffers are swapped, not copied. */
    method HandOverTransfer(flags: uint8) returns (ok: bool)
      requires Valid() && pc == HandingOver(flags) && Drained(Abs())
      modifies this
      ensures Valid() && Apply(cfg, old(Abs()), HandOver) == Some(Abs())
      ensures ok == !(old(dlvStopped) || old(dlvFailed))
      ensures ok ==> dlvBundle == old(rxBundle) && rxBundle == old(dlvBundle)
    {
      if dlvStopped || dlvFailed {
        pc := Gone;
        return false;
      }
      var buf := dlvBundle;
      dlvBundle := rxBundle;
      rxBundle := buf;
      dlvLen := rxLen;
      dlvId := rxId;
      dlvFlags := flags;
      dlvPending := true;
      rxLen := 0;
      pc := Reading;
      assert rxBundle[..0] == [];
      return true;
    }

    /** tcpv4DeliveryThread: BP is offered exactly the octets that were handed over. */
    method DeliverToBP(ok: bool) returns (bundle: Octets)
      requires Valid() && dpc.Delivering?
      modifies this`dpc, this`log
      ensures Valid() && Apply(cfg, old(Abs()), DlvBundle(ok)) == Some(Abs())
      ensures bundle == old(Abs()).dlv
    {
      bundle := dlvBundle[..dlvLen];
      if ok {
        log, dpc := log + [Deliver(bundle)], Acking;
      } else {
        dpc := Settling(true);
      }
    }

    method SettleDelivery(failed: bool)
      requires Valid() && dpc == Settling(failed)
      modifies this`dlvPending, this`dlvFailed, this`dpc
      ensures Valid() && Apply(cfg, old(Abs()), DlvSettle) == Some(Abs())
    {
      dlvPending := false;
      if failed {
        dlvFailed := true;
      }
      dpc := if failed then Ended else Waiting;
    }
  }

  /** What the checks make of the state, and what they decide. */
  ghost predicate Judged(cfg: Config, s: State, item: Item, t: State, fatal: bool, why: Option<uint8>) {
    var r := Reassembly(s.active, s.id, s.rx, s.refused, false);
    var o := Opened(r, item.seg);
    && fatal == EndsSession(cfg, r, item.seg)
    && (if fatal then t.active == s.active && t.id == s.id && t.rx == s.rx && t.refused == s.refused
        else t.active && t.id == o.id && t.rx == o.acc && why == Refusal(cfg, o, item)
             && t.refused == (why.Some? || o.refused))
  }

  /** The checks determine the step. */
  lemma BeginIs(cfg: Config, s: State, seg: Segment, t: State, fatal: bool, why: Option<uint8>)
    requires t == s.(active := t.active, id := t.id, rx := t.rx, refused := t.refused)
    requires Judged(cfg, s, Item(seg, s.ending), t, fatal, why)
    ensures ApplyBegin(cfg, s, seg)
            == t.(items := s.items + [Item(seg, s.ending)],
                  pc := if fatal then Gone
                                          else if why.Some? then AwaitRefuse(seg, why.value) else Taking(seg))
  {
    hide Refusal, EndsSession, Opened;
  }

  /** A list declares one length, so comparing that one with the Transfer MRU decides. */
  lemma OneLength(cfg: Config, ext: Octets, total: uint64)
    requires Declares(ext, total)
    ensures DeclaredTooLong(cfg, ext) == (total > cfg.transferMru)
  {
    if DeclaredTooLong(cfg, ext) {
      var n: uint64 :| Declares(ext, n) && n > cfg.transferMru;
      DeclaresOnce(ext, n, total);
    }
  }
}
