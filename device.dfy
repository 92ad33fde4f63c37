/**
 * Specification of one streaming session (start_stream), of the handling of
 * one enumerated device (start_with_a_device) and of the supervisor loop
 * (start_usb2sock) of usb2sock/usb2sock.c, with every libusb call replaced by
 * the answer an oracle gives for it.
 */
module Device {
  import opened Codes
  import opened Descriptors
  import opened Classify
  import opened Fanout

  /** The answer of one libusb_bulk_transfer: its status and the bytes transferred. */
  datatype Transfer = Transfer(status: Status, transferred: nat)

  /**
   * One pass of the streaming loop: the accept, read and write oracles of the
   * socket work done in that pass, and the answer of the bulk read.
   */
  datatype Tick = Tick(accept: AcceptEvent, inbound: seq<ReadResult>, bulk: Transfer, outbound: seq<WriteResult>)

  /**
   * Everything libusb answers while start_with_a_device handles one device:
   * the device descriptor, open, the configuration before and after claiming,
   * set_configuration, the configuration descriptor, the claim, and the
   * transfers of the streaming session.
   */
  datatype DeviceOracle = DeviceOracle(
    descStatus: Status, idVendor: int, idProduct: int, numConfigurations: int,
    openStatus: Status,
    cfgStatus: Status, cfg: int,
    setCfgStatus: Status,
    configStatus: Status, config: ConfigDescriptor,
    claimStatus: Status,
    recheckStatus: Status, recheckCfg: int,
    handshake: Transfer, ticks: seq<Tick>)

  /**
   * What start_with_a_device did with one device: its return code, whether it
   * opened a handle, the interface number it asked to claim, whether it closed
   * the handle again, and the selection it handed to start_stream.
   */
  datatype DeviceRun = DeviceRun(code: int, handleOpened: bool, claimed: Option<int>, handleClosed: bool,
                                 stream: Option<Selection>)

  // ---------------------------------------------------------------------------
  // start_stream

  function BulkVerdictOf(t: Tick): BulkVerdict {
    ClassifyBulkRead(t.bulk.status, t.bulk.transferred)
  }

  /** The socket work of one pass, then the broadcast when the bulk read delivered data. */
  function TickPeers(p: Peers, t: Tick): Peers
  {
    var q := SocketWork(p, t);
    match BulkVerdictOf(t)
    case Deliver(n) => SendStep(q, t.outbound, n)
    case _ => q
  }

  /**
   * The code the streaming loop returns: that of the first pass whose bulk
   * read stops it, or 0 (the unreachable `return 0`) when the passes run out.
   */
  function LoopCode(ticks: seq<Tick>): int
  {
    if ticks == [] then 0
    else match BulkVerdictOf(ticks[0])
      case Stop(c) => c
      case _ => LoopCode(ticks[1..])
  }

  /** The fan-out state when the streaming loop returns. */
  function LoopPeers(p: Peers, ticks: seq<Tick>): Peers
    decreases |ticks|
  {
    if ticks == [] then p
    else
      var q := TickPeers(p, ticks[0]);
      if BulkVerdictOf(ticks[0]).Stop? then q else LoopPeers(q, ticks[1..])
  }

  /** One pass of the streaming loop, seen from the pass at index j. */
  lemma LoopStep(p: Peers, ticks: seq<Tick>, j: nat)
    requires j < |ticks|
    ensures var t := ticks[j];
      BulkVerdictOf(t).Stop? ==>
        LoopCode(ticks[j..]) == BulkVerdictOf(t).code && LoopPeers(p, ticks[j..]) == TickPeers(p, t)
    ensures var t := ticks[j];
      !BulkVerdictOf(t).Stop? ==>
        LoopCode(ticks[j..]) == LoopCode(ticks[j + 1..]) &&
        LoopPeers(p, ticks[j..]) == LoopPeers(TickPeers(p, t), ticks[j + 1..])
  {
    assert ticks[j..][0] == ticks[j] && ticks[j..][1..] == ticks[j + 1..];
  }

  /** The code start_stream returns (usb2sock.c:190-264). */
  function StreamCode(hs: Transfer, ticks: seq<Tick>): int
  {
    match ClassifyHandshake(hs.status, hs.transferred)
    case Abort(c) => c
    case Proceed => LoopCode(ticks)
  }

  /** The fan-out state when start_stream returns. */
  function StreamPeers(p: Peers, hs: Transfer, ticks: seq<Tick>): Peers
  {
    if ClassifyHandshake(hs.status, hs.transferred).Abort? then p else LoopPeers(p, ticks)
  }

  /**
   * The streaming loop returns 0 only when it was never stopped, and otherwise
   * WAIT_FOR_HOTPLUG or a negative libusb error.
   */
  lemma {:induction false} LoopCodeRange(ticks: seq<Tick>)
    ensures LoopCode(ticks) == 0 <==> forall i :: 0 <= i < |ticks| ==> !BulkVerdictOf(ticks[i]).Stop?
    ensures LoopCode(ticks) == 0 || LoopCode(ticks) == WaitForHotplug || LoopCode(ticks) < 0
    decreases |ticks|
  {
    if ticks != [] {
      LoopCodeRange(ticks[1..]);
      assert forall i :: 1 <= i < |ticks| ==> ticks[1..][i - 1] == ticks[i];
    }
  }

  /** start_stream returns 0, WAIT_FOR_HOTPLUG or a negative libusb error, never VENDOR_ID_DJI. */
  lemma StreamCodeRange(hs: Transfer, ticks: seq<Tick>)
    ensures var c := StreamCode(hs, ticks); c == 0 || c == WaitForHotplug || c < 0
  {
    LoopCodeRange(ticks);
  }

  /** No accept, and every read would block: the socket work of a pass is idle. */
  predicate QuietSockets(t: Tick) {
    t.accept.NoPending? && forall j :: 0 <= j < |t.inbound| ==> ReadWouldBlock(t.inbound[j])
  }

  /** The socket work of one pass: accept, then drain. */
  function SocketWork(p: Peers, t: Tick): Peers
  {
    DrainStep(AcceptStep(p, t.accept), t.inbound)
  }

  /**
   * A zero-byte timeout neither ends the loop nor sends anything: the pass
   * does its socket work and the session goes on. On a quiet pass the
   * session goes on exactly as if the pass had not happened.
   */
  lemma NoSignalIsIdle(p: Peers, t: Tick, rest: seq<Tick>)
    requires t.bulk == Transfer(ErrorTimeout, 0)
    ensures LoopCode([t] + rest) == LoopCode(rest)
    ensures LoopPeers(p, [t] + rest) == LoopPeers(SocketWork(p, t), rest)
    ensures SocketWork(p, t).sent == p.sent
    ensures QuietSockets(t) ==> LoopPeers(p, [t] + rest) == LoopPeers(p, rest)
  {
    assert ([t] + rest)[1..] == rest;
    if QuietSockets(t) {
      QuietDrainKeepsAll(p.clients, t.inbound, 0);
      assert p.closed + [] == p.closed;
      assert SocketWork(p, t) == p;
    }
  }

  /**
   * A device that disappears ends the session with WAIT_FOR_HOTPLUG after the
   * pass's socket work, with nothing sent and no peer closed beyond that
   * work; on a quiet pass every connected peer stays registered.
   */
  lemma DeviceGoneKeepsPeers(p: Peers, t: Tick, rest: seq<Tick>)
    requires DeviceGone(t.bulk.status)
    ensures LoopCode([t] + rest) == WaitForHotplug
    ensures LoopPeers(p, [t] + rest) == SocketWork(p, t)
    ensures SocketWork(p, t).sent == p.sent
    ensures QuietSockets(t) ==> LoopPeers(p, [t] + rest) == p
  {
    if QuietSockets(t) {
      QuietDrainKeepsAll(p.clients, t.inbound, 0);
      assert p.closed + [] == p.closed;
    }
  }

  /**
   * An I/O error on the handshake ends start_stream with WAIT_FOR_HOTPLUG
   * before any pass, so no peer is touched.
   */
  lemma HandshakeIoWaits(p: Peers, hs: Transfer, ticks: seq<Tick>)
    requires hs.status == ErrorIo
    ensures StreamCode(hs, ticks) == WaitForHotplug
    ensures StreamPeers(p, hs, ticks) == p
  {
  }

  /** No sequence of passes grows the client list beyond its capacity. */
  lemma {:induction false} LoopKeepsCapacity(p: Peers, ticks: seq<Tick>)
    requires |p.clients| <= MaxClients
    ensures |LoopPeers(p, ticks).clients| <= MaxClients
    decreases |ticks|
  {
    if ticks != [] {
      var t := ticks[0];
      var a := AcceptStep(p, t.accept);
      AcceptRespectsCapacity(p, t.accept);
      DrainPartitions(a.clients, t.inbound, 0);
      var q := DrainStep(a, t.inbound);
      assert |multiset(q.clients)| <= |multiset(a.clients)|;
      if BulkVerdictOf(t).Deliver? {
        SendPartitions(q.clients, t.outbound, 0, BulkVerdictOf(t).len, 0);
        var s := SendStep(q, t.outbound, BulkVerdictOf(t).len);
        assert |multiset(s.clients)| <= |multiset(q.clients)|;
      }
      LoopKeepsCapacity(TickPeers(p, t), ticks[1..]);
    }
  }

  // ---------------------------------------------------------------------------
  // start_with_a_device

  /** The device is the goggles (usb2sock.c:277). */
  predicate IsGoggles(d: DeviceOracle) {
    d.idVendor == VendorIdDji && d.idProduct == DeviceIdGoggles
  }

  /**
   * start_with_a_device (usb2sock.c:266-377). A failed get_configuration is
   * only logged; an unconfigured device is set to configuration 1; the claim
   * uses the selected interface number, -1 when none matched; a configuration
   * other than 1 after claiming is only logged. The handle is not closed when
   * set_configuration or get_config_descriptor fails.
   */
  function DeviceOutcome(d: DeviceOracle): DeviceRun
  {
    if d.descStatus != 0 then DeviceRun(d.descStatus, false, None, false, None)
    else if !IsGoggles(d) then DeviceRun(VendorIdDji, false, None, false, None)
    else if d.openStatus != 0 then DeviceRun(WaitForHotplug, false, None, false, None)
    else if d.cfgStatus == 0 && d.cfg == 0 && d.setCfgStatus != 0 then
      DeviceRun(d.setCfgStatus, true, None, false, None)
    else if d.configStatus != 0 then DeviceRun(d.configStatus, true, None, false, None)
    else
      var sel := LastMatch(d.config.interfaces);
      if d.claimStatus != 0 then DeviceRun(d.claimStatus, true, Some(sel.iface), true, None)
      else if d.recheckStatus != 0 then DeviceRun(d.recheckStatus, true, Some(sel.iface), true, None)
      else DeviceRun(StreamCode(d.handshake, d.ticks), true, Some(sel.iface), true, Some(sel))
  }

  /** The fan-out state after start_with_a_device: changed only by a streaming session. */
  function DevicePeers(p: Peers, d: DeviceOracle): Peers
  {
    if DeviceOutcome(d).stream.Some? then StreamPeers(p, d.handshake, d.ticks) else p
  }

  /**
   * A device answers VENDOR_ID_DJI exactly when its descriptor was read and it
   * is not the goggles; such a device is never opened and leaves the peers alone.
   */
  lemma WrongDeviceSkipped(d: DeviceOracle)
    ensures DeviceOutcome(d).code == VendorIdDji <==> d.descStatus == 0 && !IsGoggles(d)
    ensures DeviceOutcome(d).code == VendorIdDji ==>
      !DeviceOutcome(d).handleOpened && forall p :: DevicePeers(p, d) == p
  {
    StreamCodeRange(d.handshake, d.ticks);
  }

  /**
   * A handle is left open only on a path that returns a negative libusb error,
   * which makes the supervisor exit.
   */
  lemma HandleLeftOpenOnlyWhenFatal(d: DeviceOracle)
    ensures var r := DeviceOutcome(d);
      r.handleOpened && !r.handleClosed ==> r.code < 0 && SupervisorDecision(r.code) == Exit(r.code)
    ensures var r := DeviceOutcome(d);
      SupervisorDecision(r.code).Retry? ==> !r.handleOpened || r.handleClosed
  {
    StreamCodeRange(d.handshake, d.ticks);
  }

  /**
   * The interface claimed is the scan's selection, -1 exactly when no interface
   * matched; start_stream runs only after a successful claim and re-check.
   */
  lemma ClaimsSelectedInterface(d: DeviceOracle)
    ensures var r := DeviceOutcome(d);
      r.claimed.Some? ==>
        r.claimed.value == LastMatch(d.config.interfaces).iface &&
        (r.claimed.value == -1 <==> forall i :: 0 <= i < |d.config.interfaces| ==> !Matches(d.config.interfaces[i]))
    ensures var r := DeviceOutcome(d);
      r.stream.Some? <==> r.claimed.Some? && d.claimStatus == 0 && d.recheckStatus == 0
  {
    LastMatchNone(d.config.interfaces);
    var s := LastMatch(d.config.interfaces);
    if s != NoSelection {
      LastMatchIsLast(d.config.interfaces);
    }
  }

  // ---------------------------------------------------------------------------
  // start_usb2sock

  /** The codes the devices of a list would return, in order. */
  function OutcomeCodes(devs: seq<DeviceOracle>): seq<int>
  {
    seq(|devs|, i requires 0 <= i < |devs| => DeviceOutcome(devs[i]).code)
  }

  /** The fan-out state after the device loop: each device is handled until one does not answer VENDOR_ID_DJI. */
  function ListPeers(p: Peers, devs: seq<DeviceOracle>): Peers
    decreases |devs|
  {
    if devs == [] then p
    else
      var q := DevicePeers(p, devs[0]);
      if DeviceOutcome(devs[0]).code == VendorIdDji then ListPeers(q, devs[1..]) else q
  }

  /**
   * A device that decides the device loop: its descriptor could not be read,
   * or it is the goggles. Every other device answers VENDOR_ID_DJI.
   */
  predicate Decides(d: DeviceOracle) {
    d.descStatus != 0 || IsGoggles(d)
  }

  /**
   * The first deciding device in the list decides both the loop's code and the
   * fan-out state; the devices before it are skipped untouched.
   */
  lemma {:induction false} FirstDecidingDevice(p: Peers, devs: seq<DeviceOracle>, j: nat, r: int)
    requires j < |devs| && Decides(devs[j])
    requires forall i :: 0 <= i < j ==> !Decides(devs[i])
    ensures DeviceListCode(OutcomeCodes(devs), r) == DeviceOutcome(devs[j]).code
    ensures ListPeers(p, devs) == DevicePeers(p, devs[j])
    decreases j
  {
    WrongDeviceSkipped(devs[0]);
    if j > 0 {
      var tail := devs[1..];
      assert OutcomeCodes(devs)[1..] == OutcomeCodes(tail);
      assert forall i :: 0 <= i < j - 1 ==> tail[i] == devs[i + 1];
      assert tail[j - 1] == devs[j];
      FirstDecidingDevice(p, tail, j - 1, VendorIdDji);
    }
  }

  /**
   * Without a deciding device the loop's code is VENDOR_ID_DJI, or the initial
   * 0 for an empty list, and no device touches the fan-out state.
   */
  lemma {:induction false} NoDecidingDevice(p: Peers, devs: seq<DeviceOracle>, r: int)
    requires forall i :: 0 <= i < |devs| ==> !Decides(devs[i])
    ensures DeviceListCode(OutcomeCodes(devs), r) == if devs == [] then r else VendorIdDji
    ensures ListPeers(p, devs) == p
    decreases |devs|
  {
    if devs != [] {
      WrongDeviceSkipped(devs[0]);
      var tail := devs[1..];
      assert OutcomeCodes(devs)[1..] == OutcomeCodes(tail);
      assert forall i :: 0 <= i < |tail| ==> tail[i] == devs[i + 1];
      NoDecidingDevice(p, tail, VendorIdDji);
    }
  }

  /**
   * Two devices with other identities are skipped and the goggles, listed
   * third, decide the code.
   */
  lemma ThirdDeviceSelected(a: DeviceOracle, b: DeviceOracle, g: DeviceOracle)
    requires a.descStatus == 0 && b.descStatus == 0 && !IsGoggles(a) && !IsGoggles(b)
    requires g.descStatus == 0 && IsGoggles(g)
    ensures DeviceListCode(OutcomeCodes([a, b, g]), 0) == DeviceOutcome(g).code
    ensures forall p :: ListPeers(p, [a, b, g]) == DevicePeers(p, g)
  {
    forall p ensures ListPeers(p, [a, b, g]) == DevicePeers(p, g) {
      FirstDecidingDevice(p, [a, b, g], 2, 0);
    }
    FirstDecidingDevice(Peers([], [], []), [a, b, g], 2, 0);
  }

  /** One pass of the supervisor: the socket work, then the device list or its failure (None). */
  datatype Round = Round(accept: AcceptEvent, inbound: seq<ReadResult>, devices: Option<seq<DeviceOracle>>)

  /**
   * What one pass of the supervisor loop decides (usb2sock.c:444-467). When
   * libusb_get_device_list fails nothing is decided and the loop goes round.
   */
  function RoundDecision(round: Round): RoundStep
  {
    match round.devices
    case None => Retry
    case Some(devs) => SupervisorDecision(DeviceListCode(OutcomeCodes(devs), 0))
  }

  function RoundPeers(p: Peers, round: Round): Peers
  {
    var q := DrainStep(AcceptStep(p, round.accept), round.inbound);
    match round.devices
    case None => q
    case Some(devs) => ListPeers(q, devs)
  }

  /** The exit code of the supervisor over `rounds`, None while it is still running. */
  function SupervisorExit(rounds: seq<Round>): Option<int>
  {
    if rounds == [] then None
    else match RoundDecision(rounds[0])
      case Exit(c) => Some(c)
      case Retry => SupervisorExit(rounds[1..])
  }

  function SupervisorPeers(p: Peers, rounds: seq<Round>): Peers
    decreases |rounds|
  {
    if rounds == [] then p
    else
      var q := RoundPeers(p, rounds[0]);
      if RoundDecision(rounds[0]).Exit? then q else SupervisorPeers(q, rounds[1..])
  }

  /**
   * The supervisor leaves only with 0 or with a code that is neither
   * WAIT_FOR_HOTPLUG nor VENDOR_ID_DJI: unplugged or missing goggles never end it.
   */
  lemma {:induction false} SupervisorExitsOnlyWhenDecisive(rounds: seq<Round>)
    ensures SupervisorExit(rounds).Some? ==>
      SupervisorExit(rounds).value != WaitForHotplug && SupervisorExit(rounds).value != VendorIdDji
    ensures SupervisorExit(rounds).None? <==> forall i :: 0 <= i < |rounds| ==> RoundDecision(rounds[i]).Retry?
    decreases |rounds|
  {
    if rounds != [] {
      SupervisorExitsOnlyWhenDecisive(rounds[1..]);
      assert forall i :: 1 <= i < |rounds| ==> rounds[1..][i - 1] == rounds[i];
    }
  }
}
