/**
 * The configuration descriptor tree a device reports, and the scan of
 * start_with_a_device (usb2sock/usb2sock.c:314-351) that picks the
 * vendor-specific interface (class 0xFF, subclass 0x43) and its bulk IN and
 * OUT endpoint addresses.
 */
module Descriptors {
  import opened Codes

  datatype Endpoint = Endpoint(address: Byte)

  datatype AltSetting = AltSetting(interfaceClass: Byte, interfaceSubClass: Byte, endpoints: seq<Endpoint>)

  datatype Interface = Interface(altsettings: seq<AltSetting>)

  datatype ConfigDescriptor = ConfigDescriptor(interfaces: seq<Interface>)

  /** find_FF_43, inEndpoint and outEndpoint; -1 marks "not found". */
  datatype Selection = Selection(iface: int, inEndpoint: int, outEndpoint: int)

  const NoSelection: Selection := Selection(-1, -1, -1)

  /** The direction bit LIBUSB_ENDPOINT_IN (0x80) of an endpoint address. */
  predicate IsIn(address: Byte) {
    (address as bv8) & 0x80 != 0
  }

  /**
   * The address of the first endpoint whose direction is IN (dirIn) or OUT
   * (!dirIn), or -1 when there is none.
   */
  function FirstEndpoint(eps: seq<Endpoint>, dirIn: bool): (a: int)
    ensures a == -1 <==> forall k :: 0 <= k < |eps| ==> IsIn(eps[k].address) != dirIn
    ensures a != -1 ==> exists k :: 0 <= k < |eps| && eps[k].address == a && IsIn(eps[k].address) == dirIn &&
                                   (forall j :: 0 <= j < k ==> IsIn(eps[j].address) != dirIn)
  {
    if eps == [] then -1
    else if IsIn(eps[0].address) == dirIn then eps[0].address
    else
      var a := FirstEndpoint(eps[1..], dirIn);
      assert forall k :: 1 <= k < |eps| ==> eps[k] == eps[1..][k - 1];
      a
  }

  /** Extending the endpoint list keeps an endpoint already found, or finds eps[k]. */
  lemma {:induction false} FirstEndpointExtend(eps: seq<Endpoint>, k: nat, dirIn: bool)
    requires k < |eps|
    ensures FirstEndpoint(eps[..k + 1], dirIn) ==
      if FirstEndpoint(eps[..k], dirIn) != -1 then FirstEndpoint(eps[..k], dirIn)
      else if IsIn(eps[k].address) == dirIn then eps[k].address
      else -1
    decreases k
  {
    if k > 0 {
      FirstEndpointExtend(eps[1..], k - 1, dirIn);
      assert eps[..k + 1][1..] == eps[1..][..k];
      assert eps[..k][1..] == eps[1..][..k - 1];
    }
  }

  /**
   * Alternate setting 0 of `itf` is the vendor interface (0xFF/0x43) and has
   * both an IN and an OUT endpoint.
   */
  predicate Matches(itf: Interface) {
    |itf.altsettings| > 0 &&
    itf.altsettings[0].interfaceClass == 0xff && itf.altsettings[0].interfaceSubClass == 0x43 &&
    FirstEndpoint(itf.altsettings[0].endpoints, true) != -1 &&
    FirstEndpoint(itf.altsettings[0].endpoints, false) != -1
  }

  /** The selection made by interface number i when it matches. */
  function SelectionOf(itf: Interface, i: int): Selection
    requires |itf.altsettings| > 0
  {
    Selection(i, FirstEndpoint(itf.altsettings[0].endpoints, true),
                 FirstEndpoint(itf.altsettings[0].endpoints, false))
  }

  /** The selection of the LAST matching interface in `ifs`, or NoSelection. */
  function LastMatch(ifs: seq<Interface>): Selection
  {
    if ifs == [] then NoSelection
    else if Matches(ifs[|ifs| - 1]) then SelectionOf(ifs[|ifs| - 1], |ifs| - 1)
    else LastMatch(ifs[..|ifs| - 1])
  }

  /** An endpoint that was found is a byte address of the asked direction. */
  lemma FoundEndpointDirection(eps: seq<Endpoint>, dirIn: bool)
    requires FirstEndpoint(eps, dirIn) != -1
    ensures 0 <= FirstEndpoint(eps, dirIn) < 256 && IsIn(FirstEndpoint(eps, dirIn)) == dirIn
  {
    var a := FirstEndpoint(eps, dirIn);
    var k :| 0 <= k < |eps| && eps[k].address == a && IsIn(eps[k].address) == dirIn;
  }

  /** All three values stay -1 exactly when no interface matches. */
  lemma {:induction false} LastMatchNone(ifs: seq<Interface>)
    ensures LastMatch(ifs) == NoSelection <==> forall i :: 0 <= i < |ifs| ==> !Matches(ifs[i])
    decreases |ifs|
  {
    if ifs != [] {
      var init := ifs[..|ifs| - 1];
      LastMatchNone(init);
      assert forall i :: 0 <= i < |init| ==> init[i] == ifs[i];
    }
  }

  /** When some interface matches, the selection is that of the LAST matching one. */
  lemma {:induction false} LastMatchIsLast(ifs: seq<Interface>)
    requires LastMatch(ifs) != NoSelection
    ensures var s := LastMatch(ifs);
      0 <= s.iface < |ifs| && Matches(ifs[s.iface]) &&
      (forall i :: s.iface < i < |ifs| ==> !Matches(ifs[i])) &&
      s == SelectionOf(ifs[s.iface], s.iface)
    decreases |ifs|
  {
    var n := |ifs| - 1;
    if !Matches(ifs[n]) {
      var init := ifs[..n];
      assert LastMatch(ifs) == LastMatch(init);
      LastMatchIsLast(init);
      var s := LastMatch(init);
      assert ifs[s.iface] == init[s.iface];
      forall i | s.iface < i < |ifs| ensures !Matches(ifs[i]) {
        if i < n {
          assert ifs[i] == init[i];
        }
      }
    }
  }

  /** The chosen IN endpoint has the 0x80 bit set and the chosen OUT endpoint has not. */
  lemma LastMatchDirections(ifs: seq<Interface>)
    requires LastMatch(ifs) != NoSelection
    ensures var s := LastMatch(ifs);
      0 <= s.inEndpoint < 256 && IsIn(s.inEndpoint) &&
      0 <= s.outEndpoint < 256 && !IsIn(s.outEndpoint)
  {
    LastMatchIsLast(ifs);
    var s := LastMatch(ifs);
    var eps := ifs[s.iface].altsettings[0].endpoints;
    FoundEndpointDirection(eps, true);
    FoundEndpointDirection(eps, false);
  }

  /** The inner scan over one alternate setting's endpoints (usb2sock.c:326-339). */
  method ScanEndpoints(alt: AltSetting) returns (firstIn: int, firstOut: int)
    ensures firstIn == FirstEndpoint(alt.endpoints, true)
    ensures firstOut == FirstEndpoint(alt.endpoints, false)
  {
    var eps := alt.endpoints;
    firstIn, firstOut := -1, -1;
    var k := 0;
    while k < |eps|
      invariant 0 <= k <= |eps|
      invariant firstIn == FirstEndpoint(eps[..k], true)
      invariant firstOut == FirstEndpoint(eps[..k], false)
    {
      FirstEndpointExtend(eps, k, true);
      FirstEndpointExtend(eps, k, false);
      var address := eps[k].address;
      if IsIn(address) && firstIn == -1 {
        firstIn := address;
      }
      if !IsIn(address) && firstOut == -1 {
        firstOut := address;
      }
      k := k + 1;
    }
    assert eps[..k] == eps;
  }

  /**
   * The interface scan of start_with_a_device (usb2sock.c:314-351): every
   * alternate setting of every interface is scanned, and alternate 0 of a
   * 0xFF/0x43 interface with both directions overwrites the selection, so the
   * last such interface wins.
   */
  method ScanInterfaces(config: ConfigDescriptor) returns (sel: Selection)
    ensures sel == LastMatch(config.interfaces)
    ensures sel == NoSelection <==> forall i :: 0 <= i < |config.interfaces| ==> !Matches(config.interfaces[i])
    ensures sel != NoSelection ==>
      0 <= sel.inEndpoint < 256 && IsIn(sel.inEndpoint) && 0 <= sel.outEndpoint < 256 && !IsIn(sel.outEndpoint)
  {
    var ifs := config.interfaces;
    var findFF43, inEndpoint, outEndpoint := -1, -1, -1;
    var i := 0;
    while i < |ifs|
      invariant 0 <= i <= |ifs|
      invariant Selection(findFF43, inEndpoint, outEndpoint) == LastMatch(ifs[..i])
    {
      var alts := ifs[i].altsettings;
      var j := 0;
      while j < |alts|
        invariant 0 <= j <= |alts|
        invariant Selection(findFF43, inEndpoint, outEndpoint) ==
          if j > 0 && Matches(ifs[i]) then SelectionOf(ifs[i], i) else LastMatch(ifs[..i])
      {
        var alt := alts[j];
        var firstIn, firstOut := ScanEndpoints(alt);
        if j == 0 && alt.interfaceClass == 0xff && alt.interfaceSubClass == 0x43 {
          if firstIn != -1 && firstOut != -1 {
            findFF43, inEndpoint, outEndpoint := i, firstIn, firstOut;
          }
        }
        j := j + 1;
      }
      assert ifs[..i + 1][..i] == ifs[..i];
      i := i + 1;
    }
    assert ifs[..i] == ifs;
    sel := Selection(findFF43, inEndpoint, outEndpoint);
    LastMatchNone(ifs);
    if sel != NoSelection {
      LastMatchDirections(ifs);
    }
  }
}
