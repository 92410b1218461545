/** The sending half of a session object: its two transfer lists and counters, and the
    sections that run under txMutex. Each method is one action of Tcpv4Tx. */
module Tcpv4TxConn {
  import opened Octets
  import opened Options
  import opened Tcpv4Msg
  import opened Tcpv4Tx

  class TxConn {
    var txQueue: seq<Xfer>
    var txWindow: seq<Xfer>
    var txCount: int
    var txBytes: int
    var nextTxId: nat
    var txAckedLen: nat
    var txStopped: bool

    /** This object's part of the state; the rest is taken from s, which the methods are
        given as a ghost for that reason. */
    ghost function In(s: State): State
      reads this
    {
      s.(queue := txQueue, window := txWindow, count := txCount, bytes := txBytes,
         nextId := nextTxId, ackedLen := txAckedLen, stopped := txStopped)
    }

    constructor ()
      ensures In(INITIAL) == INITIAL
    {
      txQueue, txWindow, txCount, txBytes, nextTxId, txAckedLen, txStopped := [], [], 0, 0, 0, 0, false;
    }

    /** Where the transfer with this id is on the window, if it is. */
    method Find(id: nat) returns (i: nat)
      ensures i == FindId(txWindow, id)
    {
      i := 0;
      while i < |txWindow| && txWindow[i].id != id
        invariant i <= |txWindow|
        invariant FindId(txWindow, id) == i + FindId(txWindow[i..], id)
      {
        assert txWindow[i..][1..] == txWindow[i + 1..];
        i := i + 1;
      }
    }

    /** tcpv4TxFinished */
    method Finished(i: nat, ghost s: State) returns (done: Option<Xfer>)
      requires i < |txWindow|
      modifies this`txWindow, this`txAckedLen, this`txCount, this`txBytes
      ensures (In(s), done) == TxFinished(old(In(s)), i)
    {
      var x := txWindow[i];
      if x.inFlight || (!x.acked && !x.refused) {
        return None;
      }
      if i == 0 {
        txAckedLen := 0;
      }
      txWindow := txWindow[..i] + txWindow[i + 1..];
      txCount := txCount - 1;
      txBytes := txBytes - x.length;
      return Some(x);
    }

    /** handleXferAck, from the lock to the unlock. done is to be reported by the caller. */
    method HandleXferAck(id: nat, length: nat, ghost s: State) returns (done: Option<Xfer>, unexpected: bool)
      modifies this`txWindow, this`txAckedLen, this`txCount, this`txBytes
      ensures unexpected == old(AckUnexpected(In(INITIAL), id, length))
      ensures s.rcv.Listening? ==>
                In(s).(rcv := if done.Some? then Retiring(done.value) else Listening)
                == ApplyAck(old(In(s)), id, length)
    {
      done, unexpected := None, false;
      if txWindow == [] || id != txWindow[0].id {
        unexpected := true;
      } else if length <= txAckedLen || length > txWindow[0].length {
        unexpected := true;
        txWindow := txWindow[0 := txWindow[0].(refused := true)];
        done := Finished(0, s);
      } else {
        txAckedLen := length;
        if txAckedLen == txWindow[0].length {
          txWindow := txWindow[0 := txWindow[0].(acked := true)];
          done := Finished(0, s);
        }
      }
    }

    /** handleXferRefuse, from the lock to the unlock. */
    method HandleXferRefuse(reason: uint8, id: nat, ghost s: State) returns (done: Option<Xfer>, unexpected: bool)
      modifies this`txWindow, this`txAckedLen, this`txCount, this`txBytes
      ensures unexpected == (old(FindId(txWindow, id)) == old(|txWindow|))
      ensures s.rcv.Listening? ==>
                In(s).(rcv := if done.Some? then Retiring(done.value) else Listening)
                == ApplyRefuse(old(In(s)), reason, id)
    {
      var i := Find(id);
      done, unexpected := None, i == |txWindow|;
      if !unexpected {
        var x := txWindow[i].(refused := true);
        if reason == REFUSE_COMPLETED {
          x := x.(completed := true);
        }
        txWindow := txWindow[i := x];
        done := Finished(i, s);
      }
    }

    /** queueXfer, once there is room: the serial number counts the bundles accepted. */
    method QueueXfer(serial: nat, bundle: Octets, ghost s: State)
      requires serial == |s.accepted|
      modifies this`txQueue, this`txCount, this`txBytes
      ensures In(s.(accepted := s.accepted + [bundle])) == ApplyEnqueue(old(In(s)), bundle)
    {
      txQueue := txQueue + [Xfer(serial, |bundle|, 0, false, false, false, false)];
      txCount := txCount + 1;
      txBytes := txBytes + |bundle|;
    }

    /** The transmit thread takes the next transfer, unless the session is stopping. */
    method BeginNext(ghost s: State) returns (x: Option<Xfer>)
      modifies this`txQueue, this`txWindow, this`nextTxId
      ensures x.None? <==> (old(txQueue) == [] || txStopped)
      ensures x.None? ==> In(s) == old(In(s))
      ensures x.Some? ==>
                In(s).(xmit := Sending(old(nextTxId), 0)) == ApplyBegin(old(In(s)))
      ensures x.Some? ==> txWindow == old(txWindow) + [x.value]
    {
      if txQueue == [] || txStopped {
        return None;
      }
      x := Some(txQueue[0].(id := nextTxId, inFlight := true));
      txQueue := txQueue[1..];
      nextTxId := nextTxId + 1;
      txWindow := txWindow + [x.value];
    }

    /** The transmit thread lets go of a transfer it has written, given up or abandoned. */
    method LetGo(i: nat, failed: bool, ghost s: State) returns (done: Option<Xfer>)
      requires i < |txWindow|
      modifies this`txWindow, this`txAckedLen, this`txCount, this`txBytes
      ensures
                In(s).(xmit := if done.Some? then Reporting(done.value, failed) else if failed then Exited else Idle,
                       failedId := if failed then Some(old(txWindow[i].id)) else s.failedId)
                == ApplyLetGo(old(In(s)), i, failed)
    {
      var x := txWindow[i].(inFlight := false);
      if failed {
        x := x.(refused := true);
      }
      txWindow := txWindow[i := x];
      done := Finished(i, s);
    }

    /** tcpv4TxDrain: everything left is spliced out, to be reported by the caller. */
    method Drain(ghost s: State) returns (dead: seq<Xfer>)
      modifies this`txQueue, this`txWindow, this`txCount, this`txBytes, this`txStopped
      ensures In(s).(dead := dead, drained := true) == ApplyDrain(old(In(s)))
    {
      txStopped, dead := true, [];
      while txQueue != []
        invariant Reverse(old(txQueue)) == Reverse(txQueue) + dead
        invariant txWindow == old(txWindow) && txStopped
        decreases |txQueue|
      {
        var x := txQueue[0];
        txQueue := txQueue[1..];
        dead := [x] + dead;
      }
      ghost var queued := dead;
      assert queued == Reverse(old(txQueue));
      while txWindow != []
        invariant txQueue == [] && txStopped
        invariant Reverse(old(txWindow)) + queued == Reverse(txWindow) + dead
        decreases |txWindow|
      {
        var x := txWindow[0];
        txWindow := txWindow[1..];
        dead := [x] + dead;
      }
      assert dead == Reverse(old(txWindow)) + queued;
      txCount, txBytes := 0, 0;
    }
  }
}
