/**
 * Pure specification of the socket fan-out of usb2sock/usb2sock.c: the client
 * list as a value, the effect of close_client and accept_any_connection on it,
 * and the two sweeps over it (recv_and_discard and send_to_socket).
 *
 * The operating system is an oracle: the n-th read() or write() of one sweep
 * gets the n-th element of a result sequence. A sequence that has run out
 * answers "would block" (EAGAIN), the socket having nothing more to say.
 */
module Fanout {
  import opened Codes

  /** What one read() on a peer socket reports. */
  datatype ReadResult = ReadBytes(n: nat) | ReadFailed(errno: int)

  /**
   * What one write() on a peer socket meets: room for `room` more bytes, or
   * a failure with errno. write() returns min(room, count).
   */
  datatype WriteResult = Accepts(room: nat) | WriteFailed(errno: int)

  /** Bytes buf[lo..hi) that one successful write() to the socket `fd` took. */
  datatype Delivery = Delivery(fd: Fd, lo: nat, hi: nat)

  /** The outcome of one accept() on the listening socket. */
  datatype AcceptEvent =
    | NoPending(errno: int)
    | Incoming(fd: Fd, addrLen: int, nonblockOk: bool)

  /**
   * The observable state of the fan-out: the registered peers in list order
   * (clientlist[0..clientlist_use)), every descriptor passed to close() so far,
   * and every delivery made so far.
   */
  datatype Peers = Peers(clients: seq<Fd>, closed: seq<Fd>, sent: seq<Delivery>)

  /** How the visit of one peer ended, and the index of the next oracle result. */
  datatype Visit = Visit(keep: bool, next: nat)

  /** How the visit of one peer by the broadcast ended, with what it delivered. */
  datatype SendVisit = SendVisit(keep: bool, out: seq<Delivery>, next: nat)

  /** The result of one sweep over the client list. */
  datatype Sweep = Sweep(kept: seq<Fd>, dropped: seq<Fd>, out: seq<Delivery>, next: nat)

  // ---------------------------------------------------------------------------
  // Generic facts about the client list

  /** `s` with the element at index i taken out. */
  function Removed(s: seq<Fd>, i: nat): seq<Fd>
    requires i < |s|
  {
    s[..i] + s[i + 1..]
  }

  /** `a` can be obtained from `b` by deleting elements: relative order is kept. */
  predicate Subseq(a: seq<Fd>, b: seq<Fd>)
    decreases |b|
  {
    a == [] || (b != [] && ((a[0] == b[0] && Subseq(a[1..], b[1..])) || Subseq(a, b[1..])))
  }

  /** close_client(i) leaves the entries before i, shifts the later ones down one slot. */
  lemma RemovedShiftsDown(s: seq<Fd>, i: nat)
    requires i < |s|
    ensures |Removed(s, i)| == |s| - 1
    ensures forall j :: 0 <= j < i ==> Removed(s, i)[j] == s[j]
    ensures forall j :: i <= j < |s| - 1 ==> Removed(s, i)[j] == s[j + 1]
    ensures Subseq(Removed(s, i), s)
    ensures multiset(Removed(s, i)) + multiset{s[i]} == multiset(s)
  {
    SubseqOfRemoved(s, i);
    assert s == s[..i] + [s[i]] + s[i + 1..];
  }

  /** A list that agrees with `s` before i and with s's next entry from i on is `Removed(s, i)`. */
  lemma ShiftedIsRemoved(a: seq<Fd>, s: seq<Fd>, i: nat)
    requires i < |s| && |a| == |s| - 1
    requires forall t :: 0 <= t < i ==> a[t] == s[t]
    requires forall t :: i <= t < |a| ==> a[t] == s[t + 1]
    ensures a == Removed(s, i)
  {
  }

  lemma {:induction false} SubseqRefl(s: seq<Fd>)
    ensures Subseq(s, s)
    decreases |s|
  {
    if s != [] {
      SubseqRefl(s[1..]);
    }
  }

  lemma {:induction false} SubseqOfRemoved(s: seq<Fd>, i: nat)
    requires i < |s|
    ensures Subseq(Removed(s, i), s)
    decreases i
  {
    if i == 0 {
      assert Removed(s, 0) == s[1..];
      SubseqRefl(s[1..]);
    } else {
      SubseqOfRemoved(s[1..], i - 1);
      assert Removed(s, i) == [s[0]] + Removed(s[1..], i - 1);
      assert Removed(s, i)[1..] == Removed(s[1..], i - 1);
    }
  }

  /** Keeping a first element, or skipping it, preserves the subsequence relation. */
  lemma SubseqCons(a: seq<Fd>, b: seq<Fd>, x: Fd)
    requires Subseq(a, b)
    ensures Subseq([x] + a, [x] + b)
    ensures Subseq(a, [x] + b)
  {
    assert ([x] + a)[1..] == a;
    assert ([x] + b)[1..] == b;
  }

  /** Removal of index i, applied to the whole state. */
  function CloseAt(p: Peers, i: nat): (q: Peers)
    requires i < |p.clients|
    ensures |q.clients| == |p.clients| - 1
  {
    Peers(Removed(p.clients, i), p.closed + [p.clients[i]], p.sent)
  }

  // ---------------------------------------------------------------------------
  // accept_any_connection

  /**
   * The registry part of accept_any_connection (usb2sock.c:96-134): a pending
   * connection whose address length is wrong is dropped without close(); at
   * capacity it is closed and not registered; otherwise it is appended, and
   * when O_NONBLOCK cannot be set it is closed and still appended.
   */
  function AcceptStep(p: Peers, ev: AcceptEvent): Peers
  {
    match ev
    case NoPending(_) => p
    case Incoming(fd, addrLen, nonblockOk) =>
      if addrLen != SockAddrInLen then p
      else if |p.clients| >= MaxClients then p.(closed := p.closed + [fd])
      else Peers(p.clients + [fd], if nonblockOk then p.closed else p.closed + [fd], p.sent)
  }

  /** A new peer lands at index clientlist_use only below capacity; at capacity the list is unchanged. */
  lemma AcceptRespectsCapacity(p: Peers, ev: AcceptEvent)
    requires |p.clients| <= MaxClients
    ensures var q := AcceptStep(p, ev);
      |q.clients| <= MaxClients &&
      q.sent == p.sent &&
      (q.clients == p.clients ||
       (|p.clients| < MaxClients && ev.Incoming? && q.clients == p.clients + [ev.fd]))
    ensures ev.Incoming? && ev.addrLen == SockAddrInLen && |p.clients| >= MaxClients ==>
      AcceptStep(p, ev) == p.(closed := p.closed + [ev.fd])
  {
  }

  // ---------------------------------------------------------------------------
  // recv_and_discard

  /** The read() oracle, answering EAGAIN once it has run out. */
  function ReadAt(rs: seq<ReadResult>, k: nat): ReadResult
  {
    if k < |rs| then rs[k] else ReadFailed(EAgain)
  }

  predicate IsData(r: ReadResult) {
    r.ReadBytes? && r.n > 0
  }

  predicate ReadWouldBlock(r: ReadResult) {
    r.ReadFailed? && IsWouldBlock(r.errno)
  }

  /**
   * One peer's share of recv_and_discard (usb2sock.c:139-157), starting at
   * oracle index k: data is read and discarded until a read would block (the
   * peer stays) or reports end of file or an error (the peer goes).
   */
  function PeerDrain(rs: seq<ReadResult>, k: nat): Visit
    decreases if k < |rs| then |rs| - k else 0
  {
    match ReadAt(rs, k)
    case ReadBytes(n) => if n == 0 then Visit(false, k + 1) else PeerDrain(rs, k + 1)
    case ReadFailed(e) => Visit(IsWouldBlock(e), k + 1)
  }

  /**
   * A peer's visit by the drain reads data until its first read that returns
   * no data; the peer survives exactly when that read would block.
   */
  lemma {:induction false} PeerDrainVerdict(rs: seq<ReadResult>, k: nat)
    ensures var v := PeerDrain(rs, k);
      k < v.next &&
      (forall j :: k <= j < v.next - 1 ==> IsData(ReadAt(rs, j))) &&
      !IsData(ReadAt(rs, v.next - 1)) &&
      (v.keep <==> ReadWouldBlock(ReadAt(rs, v.next - 1)))
    decreases if k < |rs| then |rs| - k else 0
  {
    if IsData(ReadAt(rs, k)) {
      PeerDrainVerdict(rs, k + 1);
    }
  }

  /** recv_and_discard over the peers `cs`, each visited once, in order. */
  function DrainPass(cs: seq<Fd>, rs: seq<ReadResult>, k: nat): Sweep
    decreases |cs|
  {
    if cs == [] then Sweep([], [], [], k)
    else
      var v := PeerDrain(rs, k);
      var rest := DrainPass(cs[1..], rs, v.next);
      if v.keep then rest.(kept := [cs[0]] + rest.kept)
      else rest.(dropped := [cs[0]] + rest.dropped)
  }

  /** recv_and_discard applied to the whole state. */
  function DrainStep(p: Peers, rs: seq<ReadResult>): Peers
  {
    var s := DrainPass(p.clients, rs, 0);
    Peers(s.kept, p.closed + s.dropped, p.sent)
  }

  /**
   * The drain visits every peer exactly once: the survivors and the removed
   * peers split the list, each in its original relative order.
   */
  lemma {:induction false} DrainPartitions(cs: seq<Fd>, rs: seq<ReadResult>, k: nat)
    ensures var s := DrainPass(cs, rs, k);
      multiset(s.kept) + multiset(s.dropped) == multiset(cs) &&
      Subseq(s.kept, cs) && Subseq(s.dropped, cs) && s.out == []
    decreases |cs|
  {
    if cs != [] {
      var v := PeerDrain(rs, k);
      var rest := DrainPass(cs[1..], rs, v.next);
      DrainPartitions(cs[1..], rs, v.next);
      PartitionCons(cs[0], v.keep, rest.kept, rest.dropped, cs[1..]);
      assert cs == [cs[0]] + cs[1..];
    }
  }

  /** When every remaining read would block, no peer is removed. */
  lemma {:induction false} QuietDrainKeepsAll(cs: seq<Fd>, rs: seq<ReadResult>, k: nat)
    requires forall j :: k <= j < |rs| ==> ReadWouldBlock(rs[j])
    ensures DrainPass(cs, rs, k).kept == cs
    ensures DrainPass(cs, rs, k).dropped == []
    decreases |cs|
  {
    if cs != [] {
      var v := PeerDrain(rs, k);
      assert v == Visit(true, k + 1);
      QuietDrainKeepsAll(cs[1..], rs, k + 1);
    }
  }

  /** A peer whose first read reports end of file is removed by the same drain. */
  lemma ClosedPeerRemoved(c: Fd, cs: seq<Fd>, rs: seq<ReadResult>, k: nat)
    requires k < |rs| && rs[k] == ReadBytes(0)
    ensures DrainPass([c] + cs, rs, k).dropped == [c] + DrainPass(cs, rs, k + 1).dropped
    ensures DrainPass([c] + cs, rs, k).kept == DrainPass(cs, rs, k + 1).kept
  {
    assert ([c] + cs)[1..] == cs;
  }

  /** One read that would block: the first peer is kept and the sweep moves on. */
  lemma DrainKeepStep(cs: seq<Fd>, rs: seq<ReadResult>, k: nat)
    requires cs != [] && ReadWouldBlock(ReadAt(rs, k))
    ensures DrainPass(cs, rs, k) == DrainPass(cs[1..], rs, k + 1).(kept := [cs[0]] + DrainPass(cs[1..], rs, k + 1).kept)
  {
  }

  /** One read at end of file or failing: the first peer is removed. */
  lemma DrainDropStep(cs: seq<Fd>, rs: seq<ReadResult>, k: nat)
    requires cs != [] && !IsData(ReadAt(rs, k)) && !ReadWouldBlock(ReadAt(rs, k))
    ensures DrainPass(cs, rs, k) == DrainPass(cs[1..], rs, k + 1).(dropped := [cs[0]] + DrainPass(cs[1..], rs, k + 1).dropped)
  {
  }

  /** One read that returned data: the sweep stays on the same peer. */
  lemma DrainDataStep(cs: seq<Fd>, rs: seq<ReadResult>, k: nat)
    requires cs != [] && IsData(ReadAt(rs, k))
    ensures DrainPass(cs, rs, k) == DrainPass(cs, rs, k + 1)
  {
    assert PeerDrain(rs, k) == PeerDrain(rs, k + 1);
  }

  /**
   * The state a drain sweep is heading for when the peers before slot i are
   * settled and the read oracle stands at k.
   */
  function DrainFrom(p: Peers, i: nat, rs: seq<ReadResult>, k: nat): Peers
    requires i <= |p.clients|
  {
    var s := DrainPass(p.clients[i..], rs, k);
    Peers(p.clients[..i] + s.kept, p.closed + s.dropped, p.sent)
  }

  /** A sweep that starts at slot 0 with a fresh oracle is recv_and_discard. */
  lemma DrainFromStart(p: Peers, rs: seq<ReadResult>)
    ensures DrainFrom(p, 0, rs, 0) == DrainStep(p, rs)
  {
    assert p.clients[0..] == p.clients;
  }

  /** Past the last peer nothing is left to do. */
  lemma DrainFromEnd(p: Peers, i: nat, rs: seq<ReadResult>, k: nat)
    requires i == |p.clients|
    ensures DrainFrom(p, i, rs, k) == p
  {
    assert p.clients[..i] == p.clients;
  }

  /** A read that would block settles slot i and moves on. */
  lemma DrainFromKeep(p: Peers, i: nat, rs: seq<ReadResult>, k: nat)
    requires i < |p.clients| && ReadWouldBlock(ReadAt(rs, k))
    ensures DrainFrom(p, i, rs, k) == DrainFrom(p, i + 1, rs, k + 1)
  {
    var cs := p.clients;
    DrainKeepStep(cs[i..], rs, k);
    assert cs[i..][1..] == cs[i + 1..];
    assert cs[..i + 1] == cs[..i] + [cs[i]];
    var s := DrainPass(cs[i + 1..], rs, k + 1);
    assert cs[..i] + ([cs[i]] + s.kept) == cs[..i + 1] + s.kept;
  }

  /** End of file or a failing read closes slot i, and the same slot is read next. */
  lemma DrainFromDrop(p: Peers, i: nat, rs: seq<ReadResult>, k: nat)
    requires i < |p.clients| && !IsData(ReadAt(rs, k)) && !ReadWouldBlock(ReadAt(rs, k))
    ensures DrainFrom(p, i, rs, k) == DrainFrom(CloseAt(p, i), i, rs, k + 1)
  {
    var cs := p.clients;
    var q := CloseAt(p, i);
    DrainDropStep(cs[i..], rs, k);
    assert cs[i..][1..] == cs[i + 1..];
    assert q.clients[..i] == cs[..i];
    assert q.clients[i..] == cs[i + 1..];
    var s := DrainPass(cs[i + 1..], rs, k + 1);
    assert p.closed + ([cs[i]] + s.dropped) == q.closed + s.dropped;
  }

  /** Data read from slot i is discarded, and the same slot is read again. */
  lemma DrainFromData(p: Peers, i: nat, rs: seq<ReadResult>, k: nat)
    requires i < |p.clients| && IsData(ReadAt(rs, k))
    ensures DrainFrom(p, i, rs, k) == DrainFrom(p, i, rs, k + 1)
  {
    DrainDataStep(p.clients[i..], rs, k);
  }

  // ---------------------------------------------------------------------------
  // send_to_socket

  /** The write() oracle, answering EAGAIN once it has run out. */
  function WriteAt(ws: seq<WriteResult>, k: nat): WriteResult
  {
    if k < |ws| then ws[k] else WriteFailed(EAgain)
  }

  function Min(a: nat, b: nat): nat {
    if a < b then a else b
  }

  /** A failure other than would-block: the only write outcome that removes a peer. */
  predicate WriteBroken(w: WriteResult) {
    w.WriteFailed? && !IsWouldBlock(w.errno)
  }

  /** The number of bytes write() reports for `count` bytes asked, or 0 on failure. */
  function Written(w: WriteResult, count: nat): (n: nat)
    ensures n <= count
  {
    if w.Accepts? then Min(w.room, count) else 0
  }

  /**
   * Deliveries `ds` form the contiguous run buf[from..to) in order, each non-empty.
   */
  predicate Contiguous(ds: seq<Delivery>, from: nat, to: nat)
  {
    if ds == [] then from == to
    else ds[0].lo == from && ds[0].lo < ds[0].hi && Contiguous(ds[1..], ds[0].hi, to)
  }

  /** Where a peer's offset stands after deliveries `ds` that started at `from`. */
  function Reached(ds: seq<Delivery>, from: nat): nat
  {
    if ds == [] then from else ds[|ds| - 1].hi
  }

  /**
   * One peer's share of send_to_socket (usb2sock.c:166-186), entered with
   * offset ofs into buf[0..len): a partial write advances the offset and
   * writes again to the same peer; a full write, a zero-byte write or a
   * would-block moves on and keeps the peer; any other failure removes it.
   */
  function PeerSend(fd: Fd, ws: seq<WriteResult>, k: nat, len: nat, ofs: nat): SendVisit
    requires ofs <= len
    decreases if k < |ws| then |ws| - k else 0
  {
    var w := WriteAt(ws, k);
    if WriteBroken(w) then SendVisit(false, [], k + 1)
    else
      var n := Written(w, len - ofs);
      if n == 0 then SendVisit(true, [], k + 1)
      else if ofs + n < len then
        var rest := PeerSend(fd, ws, k + 1, len, ofs + n);
        rest.(out := [Delivery(fd, ofs, ofs + n)] + rest.out)
      else SendVisit(true, [Delivery(fd, ofs, ofs + n)], k + 1)
  }

  /**
   * What one peer receives from a broadcast: the contiguous run
   * buf[ofs..reached) with reached <= len, in non-empty pieces. The peer is
   * removed exactly when its last write failed with an error other than
   * would-block, and a kept peer that did not get the whole buffer last met
   * a write that took nothing (its remainder of the frame is dropped).
   */
  lemma {:induction false} PeerSendDelivers(fd: Fd, ws: seq<WriteResult>, k: nat, len: nat, ofs: nat)
    requires ofs <= len
    ensures var v := PeerSend(fd, ws, k, len, ofs);
      Contiguous(v.out, ofs, Reached(v.out, ofs)) && Reached(v.out, ofs) <= len
    decreases if k < |ws| then |ws| - k else 0
  {
    var w := WriteAt(ws, k);
    if !WriteBroken(w) {
      var n := Written(w, len - ofs);
      if n > 0 && ofs + n < len {
        PeerSendDelivers(fd, ws, k + 1, len, ofs + n);
        var rest := PeerSend(fd, ws, k + 1, len, ofs + n);
        var d := Delivery(fd, ofs, ofs + n);
        assert PeerSend(fd, ws, k, len, ofs).out == [d] + rest.out;
        assert ([d] + rest.out)[1..] == rest.out;
        assert Reached([d] + rest.out, ofs) == Reached(rest.out, ofs + n);
      }
    }
  }

  /** A write that took no byte: a failure, or a socket without room. */
  predicate TookNothing(w: WriteResult) {
    w.WriteFailed? || w.room == 0
  }

  /**
   * A peer's visit ends at its first write that is not a partial one (every
   * earlier write took at least one byte): it is
   * removed exactly when that write failed with an error other than
   * would-block, and a kept peer short of the whole buffer last met a write
   * that took nothing, so the rest of its frame is dropped. Every delivery
   * goes to that peer.
   */
  lemma {:induction false} PeerSendVerdict(fd: Fd, ws: seq<WriteResult>, k: nat, len: nat, ofs: nat)
    requires ofs <= len
    ensures var v := PeerSend(fd, ws, k, len, ofs);
      k < v.next &&
      |v.out| >= v.next - 1 - k &&
      (forall j :: k <= j < v.next - 1 ==> WriteAt(ws, j).Accepts? && WriteAt(ws, j).room > 0) &&
      (forall d :: d in v.out ==> d.fd == fd) &&
      (v.keep <==> !WriteBroken(WriteAt(ws, v.next - 1))) &&
      (v.keep && Reached(v.out, ofs) < len ==> TookNothing(WriteAt(ws, v.next - 1)))
    decreases if k < |ws| then |ws| - k else 0
  {
    var w := WriteAt(ws, k);
    if !WriteBroken(w) {
      var n := Written(w, len - ofs);
      if n > 0 && ofs + n < len {
        PeerSendVerdict(fd, ws, k + 1, len, ofs + n);
        var rest := PeerSend(fd, ws, k + 1, len, ofs + n);
        var d := Delivery(fd, ofs, ofs + n);
        assert PeerSend(fd, ws, k, len, ofs) == rest.(out := [d] + rest.out);
        assert Reached([d] + rest.out, ofs) == Reached(rest.out, ofs + n);
      }
    }
  }

  /**
   * send_to_socket over the peers `cs`; the first is entered with offset ofs,
   * every later one with offset 0.
   */
  function SendPass(cs: seq<Fd>, ws: seq<WriteResult>, k: nat, len: nat, ofs: nat): Sweep
    requires ofs <= len
    decreases |cs|
  {
    if cs == [] then Sweep([], [], [], k)
    else
      var v := PeerSend(cs[0], ws, k, len, ofs);
      var rest := SendPass(cs[1..], ws, v.next, len, 0);
      if v.keep then Sweep([cs[0]] + rest.kept, rest.dropped, v.out + rest.out, rest.next)
      else Sweep(rest.kept, [cs[0]] + rest.dropped, v.out + rest.out, rest.next)
  }

  /** A write that moves on without removing: the first peer is kept with what was delivered now. */
  lemma SendKeepStep(cs: seq<Fd>, ws: seq<WriteResult>, k: nat, len: nat, ofs: nat)
    requires cs != [] && ofs <= len && !WriteBroken(WriteAt(ws, k))
    requires var n := Written(WriteAt(ws, k), len - ofs); n == 0 || ofs + n == len
    ensures var n := Written(WriteAt(ws, k), len - ofs);
      var rest := SendPass(cs[1..], ws, k + 1, len, 0);
      SendPass(cs, ws, k, len, ofs) ==
        Sweep([cs[0]] + rest.kept, rest.dropped,
              (if n == 0 then [] else [Delivery(cs[0], ofs, ofs + n)]) + rest.out, rest.next)
  {
  }

  /** A write failing with an error other than would-block removes the first peer. */
  lemma SendDropStep(cs: seq<Fd>, ws: seq<WriteResult>, k: nat, len: nat, ofs: nat)
    requires cs != [] && ofs <= len && WriteBroken(WriteAt(ws, k))
    ensures var rest := SendPass(cs[1..], ws, k + 1, len, 0);
      SendPass(cs, ws, k, len, ofs) == Sweep(rest.kept, [cs[0]] + rest.dropped, rest.out, rest.next)
  {
  }

  /** A partial write: the same peer is written again at the advanced offset. */
  lemma SendPartialStep(cs: seq<Fd>, ws: seq<WriteResult>, k: nat, len: nat, ofs: nat)
    requires cs != [] && ofs <= len && !WriteBroken(WriteAt(ws, k))
    requires var n := Written(WriteAt(ws, k), len - ofs); 0 < n && ofs + n < len
    ensures var n := Written(WriteAt(ws, k), len - ofs);
      var s := SendPass(cs, ws, k + 1, len, ofs + n);
      SendPass(cs, ws, k, len, ofs) == s.(out := [Delivery(cs[0], ofs, ofs + n)] + s.out)
  {
    var n := Written(WriteAt(ws, k), len - ofs);
    var v := PeerSend(cs[0], ws, k + 1, len, ofs + n);
    assert PeerSend(cs[0], ws, k, len, ofs) == v.(out := [Delivery(cs[0], ofs, ofs + n)] + v.out);
    var rest := SendPass(cs[1..], ws, v.next, len, 0);
    assert [Delivery(cs[0], ofs, ofs + n)] + v.out + rest.out == [Delivery(cs[0], ofs, ofs + n)] + (v.out + rest.out);
  }

  /**
   * The state a send sweep is heading for when the peers before slot i are
   * settled, the write oracle stands at k and slot i resumes at offset ofs.
   */
  function SendFrom(p: Peers, i: nat, ws: seq<WriteResult>, k: nat, len: nat, ofs: nat): Peers
    requires i <= |p.clients| && ofs <= len
  {
    var s := SendPass(p.clients[i..], ws, k, len, ofs);
    Peers(p.clients[..i] + s.kept, p.closed + s.dropped, p.sent + s.out)
  }

  /** A would-block or zero-byte write settles slot i with nothing delivered. */
  lemma SendFromSkip(p: Peers, i: nat, ws: seq<WriteResult>, k: nat, len: nat, ofs: nat)
    requires i < |p.clients| && ofs <= len && !WriteBroken(WriteAt(ws, k))
    requires Written(WriteAt(ws, k), len - ofs) == 0
    ensures SendFrom(p, i, ws, k, len, ofs) == SendFrom(p, i + 1, ws, k + 1, len, 0)
  {
    var cs := p.clients;
    SendKeepStep(cs[i..], ws, k, len, ofs);
    assert cs[i..][1..] == cs[i + 1..];
    assert cs[..i + 1] == cs[..i] + [cs[i]];
    var s := SendPass(cs[i + 1..], ws, k + 1, len, 0);
    assert cs[..i] + ([cs[i]] + s.kept) == cs[..i + 1] + s.kept;
    assert [] + s.out == s.out;
  }

  /** A write that completes the buffer is logged and settles slot i. */
  lemma SendFromFinish(p: Peers, i: nat, ws: seq<WriteResult>, k: nat, len: nat, ofs: nat)
    requires i < |p.clients| && ofs <= len && !WriteBroken(WriteAt(ws, k))
    requires var n := Written(WriteAt(ws, k), len - ofs); n > 0 && ofs + n == len
    ensures SendFrom(p, i, ws, k, len, ofs) ==
      SendFrom(p.(sent := p.sent + [Delivery(p.clients[i], ofs, len)]), i + 1, ws, k + 1, len, 0)
  {
    var cs := p.clients;
    SendKeepStep(cs[i..], ws, k, len, ofs);
    assert cs[i..][1..] == cs[i + 1..];
    assert cs[..i + 1] == cs[..i] + [cs[i]];
    var s := SendPass(cs[i + 1..], ws, k + 1, len, 0);
    assert cs[..i] + ([cs[i]] + s.kept) == cs[..i + 1] + s.kept;
    var d := [Delivery(cs[i], ofs, len)];
    assert p.sent + (d + s.out) == (p.sent + d) + s.out;
  }

  /** A write failing other than by would-block closes slot i; the same slot is written next from 0. */
  lemma SendFromDrop(p: Peers, i: nat, ws: seq<WriteResult>, k: nat, len: nat, ofs: nat)
    requires i < |p.clients| && ofs <= len && WriteBroken(WriteAt(ws, k))
    ensures SendFrom(p, i, ws, k, len, ofs) == SendFrom(CloseAt(p, i), i, ws, k + 1, len, 0)
  {
    var cs := p.clients;
    var q := CloseAt(p, i);
    SendDropStep(cs[i..], ws, k, len, ofs);
    assert cs[i..][1..] == cs[i + 1..];
    assert q.clients[..i] == cs[..i];
    assert q.clients[i..] == cs[i + 1..];
    var s := SendPass(cs[i + 1..], ws, k + 1, len, 0);
    assert p.closed + ([cs[i]] + s.dropped) == q.closed + s.dropped;
  }

  /** A partial write is logged, and slot i is written again at the advanced offset. */
  lemma SendFromPartial(p: Peers, i: nat, ws: seq<WriteResult>, k: nat, len: nat, ofs: nat)
    requires i < |p.clients| && ofs <= len && !WriteBroken(WriteAt(ws, k))
    requires var n := Written(WriteAt(ws, k), len - ofs); 0 < n && ofs + n < len
    ensures var n := Written(WriteAt(ws, k), len - ofs);
      var q := p.(sent := p.sent + [Delivery(p.clients[i], ofs, ofs + n)]);
      SendFrom(p, i, ws, k, len, ofs) == SendFrom(q, i, ws, k + 1, len, ofs + n)
  {
    var cs := p.clients;
    var n := Written(WriteAt(ws, k), len - ofs);
    SendPartialStep(cs[i..], ws, k, len, ofs);
    var s := SendPass(cs[i..], ws, k + 1, len, ofs + n);
    var d := [Delivery(cs[i], ofs, ofs + n)];
    assert p.sent + (d + s.out) == (p.sent + d) + s.out;
  }

  /** send_to_socket(len) applied to the whole state. */
  function SendStep(p: Peers, ws: seq<WriteResult>, len: nat): Peers
  {
    var s := SendPass(p.clients, ws, 0, len, 0);
    Peers(s.kept, p.closed + s.dropped, p.sent + s.out)
  }

  /** A sweep that starts at slot 0, offset 0 and a fresh oracle is send_to_socket. */
  lemma SendFromStart(p: Peers, ws: seq<WriteResult>, len: nat)
    ensures SendFrom(p, 0, ws, 0, len, 0) == SendStep(p, ws, len)
  {
    assert p.clients[0..] == p.clients;
  }

  /** Past the last peer nothing is left to do. */
  lemma SendFromEnd(p: Peers, i: nat, ws: seq<WriteResult>, k: nat, len: nat, ofs: nat)
    requires i == |p.clients| && ofs <= len
    ensures SendFrom(p, i, ws, k, len, ofs) == p
  {
    assert p.clients[..i] == p.clients;
  }

  /** The broadcast visits every peer once, keeping list order among survivors. */
  lemma {:induction false} SendPartitions(cs: seq<Fd>, ws: seq<WriteResult>, k: nat, len: nat, ofs: nat)
    requires ofs <= len
    ensures var s := SendPass(cs, ws, k, len, ofs);
      multiset(s.kept) + multiset(s.dropped) == multiset(cs) &&
      Subseq(s.kept, cs) && Subseq(s.dropped, cs)
    decreases |cs|
  {
    if cs != [] {
      var v := PeerSend(cs[0], ws, k, len, ofs);
      var rest := SendPass(cs[1..], ws, v.next, len, 0);
      SendPartitions(cs[1..], ws, v.next, len, 0);
      var s := SendPass(cs, ws, k, len, ofs);
      assert s.kept == (if v.keep then [cs[0]] + rest.kept else rest.kept);
      assert s.dropped == (if v.keep then rest.dropped else [cs[0]] + rest.dropped);
      PartitionCons(cs[0], v.keep, rest.kept, rest.dropped, cs[1..]);
      assert cs == [cs[0]] + cs[1..];
    }
  }

  /** Deciding the first peer extends a partition of the rest to one of the whole list. */
  lemma PartitionCons(c: Fd, keep: bool, kept: seq<Fd>, dropped: seq<Fd>, cs: seq<Fd>)
    requires multiset(kept) + multiset(dropped) == multiset(cs) && Subseq(kept, cs) && Subseq(dropped, cs)
    ensures var k := if keep then [c] + kept else kept;
      var d := if keep then dropped else [c] + dropped;
      multiset(k) + multiset(d) == multiset([c] + cs) && Subseq(k, [c] + cs) && Subseq(d, [c] + cs)
  {
    SubseqCons(kept, cs, c);
    SubseqCons(dropped, cs, c);
  }

  /** Every delivery of a broadcast lies inside buf[0..len) and goes to a listed peer. */
  lemma {:induction false} SendStaysInBuffer(cs: seq<Fd>, ws: seq<WriteResult>, k: nat, len: nat, ofs: nat)
    requires ofs <= len
    ensures forall d :: d in SendPass(cs, ws, k, len, ofs).out ==> d.lo < d.hi <= len && d.fd in cs
    decreases |cs|
  {
    if cs != [] {
      var v := PeerSend(cs[0], ws, k, len, ofs);
      PeerSendDelivers(cs[0], ws, k, len, ofs);
      PeerSendVerdict(cs[0], ws, k, len, ofs);
      ContiguousBounded(v.out, ofs, Reached(v.out, ofs), len);
      SendStaysInBuffer(cs[1..], ws, v.next, len, 0);
    }
  }

  lemma {:induction false} ContiguousBounded(ds: seq<Delivery>, from: nat, to: nat, len: nat)
    requires Contiguous(ds, from, to) && to <= len
    ensures forall d :: d in ds ==> from <= d.lo < d.hi <= to
    decreases |ds|
  {
    if ds != [] {
      ContiguousBounded(ds[1..], ds[0].hi, to, len);
      forall d | d in ds ensures from <= d.lo < d.hi <= to {
        if d != ds[0] {
          assert d in ds[1..];
        }
      }
    }
  }

  /** When no peer's socket has room, the broadcast changes nothing and sends nothing. */
  lemma {:induction false} BlockedSendKeepsAll(cs: seq<Fd>, ws: seq<WriteResult>, k: nat, len: nat)
    requires forall j :: k <= j < |ws| ==> ws[j].WriteFailed? && IsWouldBlock(ws[j].errno)
    ensures SendPass(cs, ws, k, len, 0) == Sweep(cs, [], [], k + |cs|)
    decreases |cs|
  {
    if cs != [] {
      assert PeerSend(cs[0], ws, k, len, 0) == SendVisit(true, [], k + 1);
      BlockedSendKeepsAll(cs[1..], ws, k + 1, len);
    }
  }

  /**
   * A slow peer that takes the first m < len bytes and then would block gets
   * exactly buf[0..m) and nothing of the rest of this frame.
   */
  lemma SlowPeerGetsPrefix(fd: Fd, ws: seq<WriteResult>, k: nat, len: nat, m: nat)
    requires 0 < m < len
    requires k + 1 < |ws| && ws[k] == Accepts(m) && ws[k + 1].WriteFailed? && IsWouldBlock(ws[k + 1].errno)
    ensures PeerSend(fd, ws, k, len, 0) == SendVisit(true, [Delivery(fd, 0, m)], k + 2)
  {
  }

  // ---------------------------------------------------------------------------
  // close_client as written

  /** A word shifted right by b bytes. */
  function Shifted(w: Fd, b: nat): nat
  {
    if b == 0 then w else Shifted(w, b - 1) / 0x100
  }

  /** Byte b (0..3) of a 32-bit little-endian word. */
  function ByteOf(w: Fd, b: nat): nat
    requires b < 4
  {
    Shifted(w, b) % 0x100
  }

  /** The weight 256^b of byte b of a word. */
  function Weight(b: nat): nat
    requires b < 4
  {
    if b == 0 then 1 else if b == 1 then 0x100 else if b == 2 then 0x1_0000 else 0x100_0000
  }

  /**
   * Word j of clientlist after `memmove(&clientlist[i], &clientlist[i + 1], n)`
   * with n counted in BYTES: a byte at offset (j - i) * 4 + b of the
   * destination comes from the next word when that offset is below n.
   */
  function WordAfterMove(s: seq<Fd>, i: nat, n: nat, j: nat): int
    requires i <= j < |s| && i + n < |s|
  {
    MovedByte(s, i, n, j, 0) * Weight(0) + MovedByte(s, i, n, j, 1) * Weight(1)
      + MovedByte(s, i, n, j, 2) * Weight(2) + MovedByte(s, i, n, j, 3) * Weight(3)
  }

  /** Byte b of word j after that memmove. */
  function MovedByte(s: seq<Fd>, i: nat, n: nat, j: nat, b: nat): nat
    requires i <= j < |s| && b < 4
  {
    if (j - i) * 4 + b < n && j + 1 < |s| then ByteOf(s[j + 1], b) else ByteOf(s[j], b)
  }

  /**
   * clientlist[0..clientlist_use) after close_client(i) AS WRITTEN
   * (usb2sock.c:88-94): the count clientlist_use - i of entries to shift is
   * passed to memmove as a byte count.
   */
  function CloseAsWritten(s: seq<Fd>, i: nat): (r: seq<int>)
    requires i < |s|
    ensures |r| == |s| - 1
    ensures forall j :: 0 <= j < i ==> r[j] == s[j]
  {
    var n := |s| - 1 - i;
    seq(|s| - 1, j requires 0 <= j < |s| - 1 =>
      if j < i then s[j] else WordAfterMove(s, i, n, j))
  }

  /** The four bytes of a word, weighted, add up to the word. */
  lemma WordFromBytes(w: Fd)
    ensures ByteOf(w, 0) * Weight(0) + ByteOf(w, 1) * Weight(1) + ByteOf(w, 2) * Weight(2)
      + ByteOf(w, 3) * Weight(3) == w
  {
    var q1, q2, q3 := Shifted(w, 1), Shifted(w, 2), Shifted(w, 3);
    assert Shifted(w, 0) == w && q1 == w / 0x100 && q2 == q1 / 0x100 && q3 == q2 / 0x100;
    assert w == q1 * 0x100 + w % 0x100;
    assert q1 == q2 * 0x100 + q1 % 0x100;
    assert q2 == q3 * 0x100 + q2 % 0x100;
    assert q3 < 0x100;
  }

  /**
   * Whenever at least two entries follow index i and the last two differ
   * (descriptors of open sockets always do), the byte-count memmove leaves the
   * last slot unshifted, so the list is not `Removed(s, i)`.
   */
  lemma CloseAsWrittenBreaksShift(s: seq<Fd>, i: nat)
    requires i + 2 < |s| && s[|s| - 2] != s[|s| - 1]
    ensures CloseAsWritten(s, i) != Removed(s, i)
  {
    var j := |s| - 2;
    var n := |s| - 1 - i;
    assert (j - i) * 4 >= n;
    WordFromBytes(s[j]);
    assert CloseAsWritten(s, i)[j] == s[j];
    assert Removed(s, i)[j] == s[j + 1];
  }

  /** Removing the first of the peers 10, 20, 30 as written leaves 20, 20 instead of 20, 30. */
  lemma CloseAsWrittenExample()
    ensures CloseAsWritten([10, 20, 30], 0) == [20, 20]
    ensures Removed([10, 20, 30], 0) == [20, 30]
  {
    var s: seq<Fd> := [10, 20, 30];
    assert WordAfterMove(s, 0, 2, 0) == 20;
    assert WordAfterMove(s, 0, 2, 1) == 20;
  }
}
