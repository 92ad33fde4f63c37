/**
 * The bridge's mutable state and the procedures of usb2sock/usb2sock.c that
 * change it in place: the client list `clientlist[1024]` with its count
 * `clientlist_use`, and the socket and USB loops that act on it. close() and
 * write() on peer sockets are recorded in two logs so that their effect can
 * be stated; every operating-system and libusb call answers from an oracle.
 */
module Usb2Sock {
  import opened Codes
  import opened Fanout
  import opened Descriptors
  import opened Classify
  import opened Device

  class Bridge {
    /** `int clientlist[1024]`: the registered peers in slots 0..clientlistUse. */
    var clientlist: array<Fd>
    /** `unsigned clientlist_use`. */
    var clientlistUse: nat
    /** Every descriptor passed to close(), in order. */
    var closedLog: seq<Fd>
    /** Every successful write() to a peer, in order. */
    var sentLog: seq<Delivery>

    ghost predicate Valid()
      reads this
    {
      clientlist.Length == MaxClients && clientlistUse <= MaxClients
    }

    /** The fan-out state this object holds. */
    function Snapshot(): Peers
      reads this, clientlist
      requires Valid()
    {
      Peers(clientlist[..clientlistUse], closedLog, sentLog)
    }

    constructor ()
      ensures Valid() && fresh(clientlist)
      ensures Snapshot() == Peers([], [], [])
    {
      clientlist := new Fd[MaxClients];
      clientlistUse := 0;
      closedLog := [];
      sentLog := [];
    }

    /**
     * close_client (usb2sock.c:88-94): close the peer in slot i and shift the
     * later entries down one slot, element by element.
     */
    method CloseClient(i: nat)
      requires Valid() && i < clientlistUse
      modifies this, clientlist
      ensures Valid() && clientlist == old(clientlist)
      ensures Snapshot() == CloseAt(old(Snapshot()), i)
    {
      ghost var start := Snapshot();
      ghost var before := clientlist[..clientlistUse];
      closedLog := closedLog + [clientlist[i]];
      clientlistUse := clientlistUse - 1;
      var j := i;
      while j < clientlistUse
        invariant Valid() && clientlist == old(clientlist) && clientlistUse == |before| - 1
        invariant closedLog == start.closed + [before[i]] && sentLog == start.sent
        invariant i <= j <= clientlistUse
        invariant forall t :: 0 <= t < i ==> clientlist[t] == before[t]
        invariant forall t :: i <= t < j ==> clientlist[t] == before[t + 1]
        invariant forall t :: j <= t <= clientlistUse ==> clientlist[t] == before[t]
      {
        clientlist[j] := clientlist[j + 1];
        j := j + 1;
      }
      ShiftedIsRemoved(clientlist[..clientlistUse], before, i);
    }

    /**
     * The registry part of accept_any_connection (usb2sock.c:96-134): a
     * connection is registered at index clientlistUse below capacity, closed
     * at capacity, and closed but still registered when O_NONBLOCK fails.
     */
    method AcceptAnyConnection(ev: AcceptEvent)
      requires Valid()
      modifies this, clientlist
      ensures Valid() && clientlist == old(clientlist)
      ensures Snapshot() == AcceptStep(old(Snapshot()), ev)
    {
      match ev
      case NoPending(_) =>
      case Incoming(fd, addrLen, nonblockOk) =>
        if addrLen != SockAddrInLen {
          return;
        }
        if clientlistUse >= clientlist.Length {
          closedLog := closedLog + [fd];
          return;
        }
        if !nonblockOk {
          closedLog := closedLog + [fd];
        }
        clientlist[clientlistUse] := fd;
        clientlistUse := clientlistUse + 1;
        assert clientlist[..clientlistUse] == old(clientlist[..clientlistUse]) + [fd];
    }

    /**
     * recv_and_discard (usb2sock.c:136-158): read and discard from each peer;
     * move to the next peer only when a read would block, and remove the peer
     * in place (without advancing) on end of file or a read error.
     */
    method RecvAndDiscard(rs: seq<ReadResult>)
      requires Valid()
      modifies this, clientlist
      ensures Valid() && clientlist == old(clientlist)
      ensures Snapshot() == DrainStep(old(Snapshot()), rs)
    {
      DrainFromStart(Snapshot(), rs);
      ghost var goal := DrainStep(Snapshot(), rs);
      var i := 0;
      var k := 0;
      while i < clientlistUse
        invariant Valid() && clientlist == old(clientlist)
        invariant i <= clientlistUse
        invariant goal == DrainFrom(Snapshot(), i, rs, k)
        decreases if k < |rs| then |rs| - k else 0, clientlistUse - i
      {
        ghost var p := Snapshot();
        var r := ReadAt(rs, k);
        if r.ReadFailed? && IsWouldBlock(r.errno) {
          // would block: this peer is done, visit the next slot
          DrainFromKeep(p, i, rs, k);
          i := i + 1;
        } else if r.ReadFailed? || r.n == 0 {
          // end of file or a read error: remove the peer; the next one slides into slot i
          DrainFromDrop(p, i, rs, k);
          CloseClient(i);
        } else {
          // data: dropped, and the same peer is read again
          DrainFromData(p, i, rs, k);
        }
        k := k + 1;
      }
      DrainFromEnd(Snapshot(), i, rs, k);
    }

    /**
     * send_to_socket (usb2sock.c:160-187): write buf[ofs..buflen) to each
     * peer; a partial write stays on the same peer at the advanced offset, a
     * full, empty or would-block write moves on with the offset reset, and any
     * other failure removes the peer and resets the offset.
     */
    method SendToSocket(ws: seq<WriteResult>, buflen: nat)
      requires Valid()
      modifies this, clientlist
      ensures Valid() && clientlist == old(clientlist)
      ensures Snapshot() == SendStep(old(Snapshot()), ws, buflen)
    {
      SendFromStart(Snapshot(), ws, buflen);
      ghost var goal := SendStep(Snapshot(), ws, buflen);
      var ofs := 0;
      var i := 0;
      var k := 0;
      while i < clientlistUse
        invariant Valid() && clientlist == old(clientlist)
        invariant i <= clientlistUse && ofs <= buflen
        invariant goal == SendFrom(Snapshot(), i, ws, k, buflen, ofs)
        decreases if k < |ws| then |ws| - k else 0, clientlistUse - i
      {
        ghost var p := Snapshot();
        var w := WriteAt(ws, k);
        var n: int := if w.Accepts? then Min(w.room, buflen - ofs) else -1;
        if n < 0 && !IsWouldBlock(w.errno) {
          // broken peer: remove it; the next one slides into slot i and starts at offset 0
          SendFromDrop(p, i, ws, k, buflen, ofs);
          CloseClient(i);
          ofs := 0;
        } else if n > 0 && ofs + n < buflen {
          // partial write: the same peer is written again from the new offset
          SendFromPartial(p, i, ws, k, buflen, ofs);
          sentLog := sentLog + [Delivery(clientlist[i], ofs, ofs + n)];
          assert Snapshot() == p.(sent := p.sent + [Delivery(p.clients[i], ofs, ofs + n)]);
          ofs := ofs + n;
        } else if n > 0 {
          // the whole remainder was taken: on to the next peer
          SendFromFinish(p, i, ws, k, buflen, ofs);
          sentLog := sentLog + [Delivery(clientlist[i], ofs, ofs + n)];
          assert Snapshot() == p.(sent := p.sent + [Delivery(p.clients[i], ofs, buflen)]);
          ofs := 0;
          i := i + 1;
        } else {
          // would block, or no room: the rest of the frame is dropped for this peer
          SendFromSkip(p, i, ws, k, buflen, ofs);
          ofs := 0;
          i := i + 1;
        }
        assert goal == SendFrom(Snapshot(), i, ws, k + 1, buflen, ofs);
        k := k + 1;
      }
      SendFromEnd(Snapshot(), i, ws, k, buflen, ofs);
    }

    /**
     * start_stream (usb2sock.c:190-264): the handshake, then passes of
     * accept, drain, bulk read and broadcast until a bulk read stops the
     * session or the passes run out.
     */
    method StartStream(hs: Transfer, ticks: seq<Tick>) returns (r: int)
      requires Valid()
      modifies this, clientlist
      ensures Valid() && clientlist == old(clientlist)
      ensures r == StreamCode(hs, ticks)
      ensures Snapshot() == StreamPeers(old(Snapshot()), hs, ticks)
    {
      var handshake := ClassifyHandshake(hs.status, hs.transferred);
      if handshake.Abort? {
        return handshake.code;
      }
      ghost var start := Snapshot();
      var j := 0;
      while j < |ticks|
        invariant Valid() && clientlist == old(clientlist)
        invariant j <= |ticks|
        invariant LoopCode(ticks) == LoopCode(ticks[j..])
        invariant LoopPeers(start, ticks) == LoopPeers(Snapshot(), ticks[j..])
      {
        ghost var p := Snapshot();
        var t := ticks[j];
        LoopStep(p, ticks, j);
        AcceptAnyConnection(t.accept);
        RecvAndDiscard(t.inbound);
        var bulk := ClassifyBulkRead(t.bulk.status, t.bulk.transferred);
        match bulk {
          case NoSignal =>
          case Stop(c) =>
            return c;
          case Deliver(n) =>
            SendToSocket(t.outbound, n);
        }
        j := j + 1;
      }
      return 0;
    }

    /**
     * start_with_a_device (usb2sock.c:266-377) for one enumerated device.
     */
    method StartWithDevice(d: DeviceOracle) returns (run: DeviceRun)
      requires Valid()
      modifies this, clientlist
      ensures Valid() && clientlist == old(clientlist)
      ensures run == DeviceOutcome(d)
      ensures Snapshot() == DevicePeers(old(Snapshot()), d)
    {
      if d.descStatus != 0 {
        return DeviceRun(d.descStatus, false, None, false, None);
      }
      if d.idVendor != VendorIdDji || d.idProduct != DeviceIdGoggles {
        return DeviceRun(VendorIdDji, false, None, false, None);
      }
      if d.openStatus != 0 {
        return DeviceRun(WaitForHotplug, false, None, false, None);
      }
      if d.cfgStatus != 0 {
        // an unreadable configuration is logged and the device is used anyway
      } else if d.cfg == 0 {
        if d.setCfgStatus != 0 {
          return DeviceRun(d.setCfgStatus, true, None, false, None);
        }
      }
      if d.configStatus != 0 {
        return DeviceRun(d.configStatus, true, None, false, None);
      }
      var sel := ScanInterfaces(d.config);
      if d.claimStatus != 0 {
        return DeviceRun(d.claimStatus, true, Some(sel.iface), true, None);
      }
      if d.recheckStatus != 0 {
        return DeviceRun(d.recheckStatus, true, Some(sel.iface), true, None);
      }
      // recheckCfg and numConfigurations only feed a log line
      var r := StartStream(d.handshake, d.ticks);
      return DeviceRun(r, true, Some(sel.iface), true, Some(sel));
    }

    /**
     * One pass of the supervisor loop of start_usb2sock (usb2sock.c:444-467):
     * socket work, then the devices in list order until one answers something
     * other than VENDOR_ID_DJI, then the exit-or-retry decision.
     */
    method SuperviseRound(round: Round) returns (step: RoundStep)
      requires Valid()
      modifies this, clientlist
      ensures Valid() && clientlist == old(clientlist)
      ensures step == RoundDecision(round)
      ensures Snapshot() == RoundPeers(old(Snapshot()), round)
    {
      AcceptAnyConnection(round.accept);
      RecvAndDiscard(round.inbound);
      if round.devices.None? {
        // no device list: nothing is decided this pass
        return Retry;
      }
      var devs := round.devices.value;
      ghost var start := Snapshot();
      var r := 0;
      var i := 0;
      while i < |devs|
        invariant Valid() && clientlist == old(clientlist)
        invariant i <= |devs|
        invariant DeviceListCode(OutcomeCodes(devs), 0) == DeviceListCode(OutcomeCodes(devs[i..]), r)
        invariant ListPeers(start, devs) == ListPeers(Snapshot(), devs[i..])
      {
        assert OutcomeCodes(devs[i..])[1..] == OutcomeCodes(devs[i + 1..]);
        assert devs[i..][1..] == devs[i + 1..];
        var run := StartWithDevice(devs[i]);
        r := run.code;
        if r == VendorIdDji {
          // VENDOR_ID_DJI: this device is skipped
          i := i + 1;
          continue;
        }
        break;
      }
      if r == 0 {
        return Exit(0);
      }
      if r != WaitForHotplug && r != VendorIdDji {
        return Exit(r);
      }
      return Retry;
    }

    /**
     * The supervisor loop of start_usb2sock over a finite sequence of passes:
     * Some(code) when it leaves the loop, None while it would still be running.
     */
    method StartUsb2Sock(rounds: seq<Round>) returns (exit: Option<int>)
      requires Valid()
      modifies this, clientlist
      ensures Valid() && clientlist == old(clientlist)
      ensures exit == SupervisorExit(rounds)
      ensures Snapshot() == SupervisorPeers(old(Snapshot()), rounds)
    {
      var j := 0;
      while j < |rounds|
        invariant Valid() && clientlist == old(clientlist)
        invariant j <= |rounds|
        invariant SupervisorExit(rounds) == SupervisorExit(rounds[j..])
        invariant SupervisorPeers(old(Snapshot()), rounds) == SupervisorPeers(Snapshot(), rounds[j..])
      {
        assert rounds[j..][0] == rounds[j] && rounds[j..][1..] == rounds[j + 1..];
        var step := SuperviseRound(rounds[j]);
        if step.Exit? {
          return Some(step.code);
        }
        j := j + 1;
      }
      return None;
    }
  }
}
