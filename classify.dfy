/**
 * The branch-only decisions of usb2sock/usb2sock.c: what a handshake send
 * and a bulk read lead to (start_stream), and what the supervisor does with
 * the codes the devices of one enumeration return (start_usb2sock).
 */
module Classify {
  import opened Codes

  /** After the handshake the stream either proceeds or start_stream returns `code`. */
  datatype HandshakeVerdict = Proceed | Abort(code: int)

  /**
   * The handshake send of the 4-byte magic packet (usb2sock.c:210-222):
   * a timeout with nothing sent means the device is already streaming; an I/O
   * error means the device went away; any other error is returned as it is;
   * a short successful send is reported as a timeout.
   */
  function ClassifyHandshake(r: Status, sent: nat): (v: HandshakeVerdict)
    ensures v.Proceed? <==> (r == ErrorTimeout && sent == 0) || (r == 0 && sent == MagicLen)
    ensures v.Abort? ==> v.code != 0
    ensures v.Abort? ==> (v.code == WaitForHotplug <==> r == ErrorIo)
    ensures v.Abort? && r != 0 && r != ErrorIo ==> v.code == r
    ensures v.Abort? && r == 0 ==> v.code == ErrorTimeout
  {
    if r == ErrorTimeout && sent == 0 then Proceed
    else if r == ErrorIo then Abort(WaitForHotplug)
    else if r != 0 then Abort(r)
    else if sent != MagicLen then Abort(ErrorTimeout)
    else Proceed
  }

  /** A bulk read shows no signal, delivers `len` bytes, or ends the stream with `code`. */
  datatype BulkVerdict = NoSignal | Deliver(len: nat) | Stop(code: int)

  /** The errors that mean the device has been unplugged. */
  predicate DeviceGone(r: int) {
    r == ErrorIo || r == ErrorNoDevice || r == ErrorNotFound
  }

  /**
   * One bulk read of the streaming loop (usb2sock.c:237-260): a timeout with
   * no data is "no signal" and the loop goes on; I/O, no-device and not-found
   * errors send the supervisor back to waiting for the device; any other error
   * is returned; success broadcasts exactly the bytes received.
   */
  function ClassifyBulkRead(r: Status, got: nat): (v: BulkVerdict)
    ensures v.NoSignal? <==> r == ErrorTimeout && got == 0
    ensures v.Deliver? <==> r == 0
    ensures v.Deliver? ==> v.len == got
    ensures v.Stop? ==> v.code != 0 && (v.code == WaitForHotplug <==> DeviceGone(r))
    ensures v.Stop? && !DeviceGone(r) ==> v.code == r
  {
    if r == ErrorTimeout && got == 0 then NoSignal
    else if r == ErrorIo then Stop(WaitForHotplug)
    else if r == ErrorNoDevice then Stop(WaitForHotplug)
    else if r == ErrorNotFound then Stop(WaitForHotplug)
    else if r != 0 then Stop(r)
    else Deliver(got)
  }

  /**
   * The device loop of start_usb2sock (usb2sock.c:449-455) over the codes the
   * devices return, in list order: `r` starts at 0, a device that answers
   * VENDOR_ID_DJI ("not the right device") is skipped, the first other code
   * ends the loop.
   */
  function DeviceListCode(codes: seq<int>, r: int): int
  {
    if codes == [] then r
    else if codes[0] == VendorIdDji then DeviceListCode(codes[1..], codes[0])
    else codes[0]
  }

  /** The loop's code is the first code that is not VENDOR_ID_DJI. */
  lemma {:induction false} DeviceListFirstDecides(codes: seq<int>, r: int, j: nat)
    requires j < |codes| && codes[j] != VendorIdDji
    requires forall i :: 0 <= i < j ==> codes[i] == VendorIdDji
    ensures DeviceListCode(codes, r) == codes[j]
    decreases j
  {
    if j > 0 {
      var tail := codes[1..];
      assert tail[j - 1] == codes[j];
      assert forall i :: 0 <= i < j - 1 ==> tail[i] == codes[i + 1];
      DeviceListFirstDecides(tail, codes[0], j - 1);
    }
  }

  /**
   * When every device answers VENDOR_ID_DJI the loop's code is VENDOR_ID_DJI,
   * or the initial r for an empty list.
   */
  lemma {:induction false} DeviceListAllSkipped(codes: seq<int>, r: int)
    requires forall i :: 0 <= i < |codes| ==> codes[i] == VendorIdDji
    ensures DeviceListCode(codes, r) == if codes == [] then r else VendorIdDji
    decreases |codes|
  {
    if codes != [] {
      var tail := codes[1..];
      assert forall i :: 0 <= i < |tail| ==> tail[i] == codes[i + 1];
      DeviceListAllSkipped(tail, codes[0]);
    }
  }

  /** What one pass of the supervisor loop decides: leave with `code`, or try again. */
  datatype RoundStep = Exit(code: int) | Retry

  /**
   * The decision after the device loop (usb2sock.c:457-466): 0 and every code
   * other than WAIT_FOR_HOTPLUG and VENDOR_ID_DJI leave the supervisor loop;
   * those two wait and scan again.
   */
  function SupervisorDecision(r: int): (step: RoundStep)
    ensures step.Retry? <==> r == WaitForHotplug || r == VendorIdDji
    ensures step.Exit? ==> step.code == r
  {
    if r == 0 then Exit(0)
    else if r != WaitForHotplug && r != VendorIdDji then Exit(r)
    else Retry
  }

  /** An empty device list leaves r at 0, so the supervisor exits with 0. */
  lemma EmptyDeviceListExits()
    ensures SupervisorDecision(DeviceListCode([], 0)) == Exit(0)
  {
  }
}
