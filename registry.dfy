/**
 * The peer registry of `Client.__alertListener` (SkyChat.py) as values: one
 * iteration of the listener loop takes a received datagram and its source
 * address and says how the ordered `__peers` list changes and which outward
 * effects (reply, callbacks, end of the loop) happen. The `Client` class in
 * client.dfy is proved to follow `Step`.
 */
module Registry {
  import opened Types
  import opened Codec

  /** An entry of `__peers`: the parsed identity and the address set from the datagram. */
  datatype Peer = Peer(id: Identity, address: Option<Addr>)

  /** What one listener iteration does beyond changing `__peers`, in the order it does it. */
  datatype Effect =
    | Reply(to: Addr)           // `__alertBroadcast(addr)`: our own announcement, unicast
    | NewPeer(peer: Peer)       // the `newPeer` callback
    | DeletePeer(index: nat)    // the `deletePeer` callback with the removed index
    | StopListening            // the `return` on a logout for an unknown MAC
    | ListenerCrashed          // an exception escaped the loop (a frame that does not parse)

  /** How `__peers` changes in one iteration. */
  datatype Change = Unchanged | Appended(peer: Peer) | Removed(index: nat)

  datatype Outcome = Outcome(change: Change, effects: seq<Effect>)

  function Apply(peers: seq<Peer>, c: Change): (r: seq<Peer>)
    requires c.Removed? ==> c.index < |peers|
    ensures c.Appended? ==> r == peers + [c.peer]
    ensures c.Removed? ==> |r| == |peers| - 1
  {
    match c
    case Unchanged => peers
    case Appended(p) => peers + [p]
    case Removed(i) => peers[..i] + peers[i + 1..]
  }

  /** The first index whose entry has the given MAC (the searches at SkyChat.py:273-276 and 293-297). */
  function FindMac(peers: seq<Peer>, mac: int): (r: Option<nat>)
    ensures r.Some? ==> r.value < |peers| && peers[r.value].id.mac == mac
    ensures r.Some? ==> forall j :: 0 <= j < r.value ==> peers[j].id.mac != mac
    ensures r.None? ==> forall j :: 0 <= j < |peers| ==> peers[j].id.mac != mac
  {
    if |peers| == 0 then None
    else if peers[0].id.mac == mac then Some(0)
    else match FindMac(peers[1..], mac)
      case None => None
      case Some(i) => Some(i + 1)
  }

  /** One iteration of the discovery listener of the client whose MAC is `myMac`. */
  function Step(myMac: int, peers: seq<Peer>, d: Datagram, from: Addr): (o: Outcome)
    ensures o.change.Removed? ==> o.change.index < |peers|
  {
    match Decode(d)
    case ContactFrame(id) =>
      if id.mac == myMac then Outcome(Unchanged, [])
      else if FindMac(peers, id.mac).Some? then Outcome(Unchanged, [])
      else
        var p := Peer(id, Some(from));
        Outcome(Appended(p), [Reply(from), NewPeer(p)])
    case LogoutFrame(sender) =>
      (match FindMac(peers, sender)
       case None => Outcome(Unchanged, [StopListening])
       case Some(i) => Outcome(Removed(i), [DeletePeer(i)]))
    case Broken => Outcome(Unchanged, [ListenerCrashed])
    case Other => Outcome(Unchanged, [])
  }

  /** `__peers` after one iteration. */
  function Next(myMac: int, peers: seq<Peer>, d: Datagram, from: Addr): seq<Peer> {
    Apply(peers, Step(myMac, peers, d, from).change)
  }

  predicate Stops(effects: seq<Effect>) {
    StopListening in effects || ListenerCrashed in effects
  }

  // ---------------------------------------------------------------------------
  // One iteration, case by case.

  /** Our own broadcast echoed back changes nothing: no entry, no reply, no callback. */
  lemma SelfAnnouncementIgnored(myMac: int, peers: seq<Peer>, d: Datagram, from: Addr)
    requires Decode(d).ContactFrame? && Decode(d).id.mac == myMac
    ensures Step(myMac, peers, d, from) == Outcome(Unchanged, [])
  {
  }

  /** An announcement for a MAC already listed changes nothing, even if its name or address differ. */
  lemma KnownAnnouncementIgnored(myMac: int, peers: seq<Peer>, d: Datagram, from: Addr, j: nat)
    requires Decode(d).ContactFrame?
    requires j < |peers| && peers[j].id.mac == Decode(d).id.mac
    ensures Step(myMac, peers, d, from) == Outcome(Unchanged, [])
  {
  }

  /**
   * An announcement for a new MAC appends exactly one entry, at the end, carrying
   * the datagram's source address; it replies once to that address and calls
   * `newPeer` once. Every earlier entry stays where it was.
   */
  lemma NewAnnouncementAppends(myMac: int, peers: seq<Peer>, d: Datagram, from: Addr)
    requires Decode(d).ContactFrame? && Decode(d).id.mac != myMac
    requires forall j :: 0 <= j < |peers| ==> peers[j].id.mac != Decode(d).id.mac
    ensures var p := Peer(Decode(d).id, Some(from));
      Step(myMac, peers, d, from) == Outcome(Appended(p), [Reply(from), NewPeer(p)]) &&
      Next(myMac, peers, d, from) == peers + [p]
  {
  }

  /**
   * A logout for a listed MAC removes the first entry with that MAC, keeps the
   * others in order, and calls `deletePeer` with the entry's index before removal.
   */
  lemma LogoutRemovesFirstMatch(myMac: int, peers: seq<Peer>, d: Datagram, from: Addr, i: nat)
    requires Decode(d).LogoutFrame?
    requires i < |peers| && peers[i].id.mac == Decode(d).sender
    requires forall j :: 0 <= j < i ==> peers[j].id.mac != Decode(d).sender
    ensures Step(myMac, peers, d, from) == Outcome(Removed(i), [DeletePeer(i)])
    ensures Next(myMac, peers, d, from) == peers[..i] + peers[i + 1..]
  {
  }

  /** A logout for an unlisted MAC changes nothing and ends the listener loop. */
  lemma LogoutOfUnknownStops(myMac: int, peers: seq<Peer>, d: Datagram, from: Addr)
    requires Decode(d).LogoutFrame?
    requires forall j :: 0 <= j < |peers| ==> peers[j].id.mac != Decode(d).sender
    ensures Step(myMac, peers, d, from) == Outcome(Unchanged, [StopListening])
  {
  }

  /**
   * A datagram with neither marker changes nothing; one with a marker that does
   * not parse raises, which ends the listener thread with `__peers` unchanged.
   */
  lemma UnmarkedOrBrokenDatagram(myMac: int, peers: seq<Peer>, d: Datagram, from: Addr)
    requires Decode(d).Other? || Decode(d).Broken?
    ensures Step(myMac, peers, d, from).change == Unchanged
    ensures Stops(Step(myMac, peers, d, from).effects) <==> Decode(d).Broken?
  {
  }

  // ---------------------------------------------------------------------------
  // The registry invariant: one entry per MAC, never our own.

  predicate UniqueMacs(peers: seq<Peer>) {
    forall i, j :: 0 <= i < j < |peers| ==> peers[i].id.mac != peers[j].id.mac
  }

  predicate WellFormed(myMac: int, peers: seq<Peer>) {
    UniqueMacs(peers) && forall j :: 0 <= j < |peers| ==> peers[j].id.mac != myMac
  }

  /** Every iteration keeps `__peers` free of duplicate MACs and of our own MAC. */
  lemma StepKeepsWellFormed(myMac: int, peers: seq<Peer>, d: Datagram, from: Addr)
    requires WellFormed(myMac, peers)
    ensures WellFormed(myMac, Next(myMac, peers, d, from))
  {
  }

  /** Following one another, the iterations of the listener until it stops. */
  datatype Event = Event(d: Datagram, from: Addr)
  datatype Listening = Listening(peers: seq<Peer>, effects: seq<Effect>)

  /** `__peers` and the effects after the listener has taken `events` in order (or stopped). */
  function Listen(myMac: int, peers: seq<Peer>, events: seq<Event>): Listening
    decreases |events|
  {
    if |events| == 0 then Listening(peers, [])
    else
      var o := Step(myMac, peers, events[0].d, events[0].from);
      var next := Apply(peers, o.change);
      if Stops(o.effects) then Listening(next, o.effects)
      else
        var rest := Listen(myMac, next, events[1..]);
        Listening(rest.peers, o.effects + rest.effects)
  }

  /** The registry invariant holds after any sequence of datagrams. */
  lemma {:induction false} ListenKeepsWellFormed(myMac: int, peers: seq<Peer>, events: seq<Event>)
    requires WellFormed(myMac, peers)
    ensures WellFormed(myMac, Listen(myMac, peers, events).peers)
    decreases |events|
  {
    if |events| > 0 {
      StepKeepsWellFormed(myMac, peers, events[0].d, events[0].from);
      ListenKeepsWellFormed(myMac, Next(myMac, peers, events[0].d, events[0].from), events[1..]);
    }
  }

  // ---------------------------------------------------------------------------
  // Frames as another SkyChat client writes them.

  /** The announcements another client's `getData` writes, one per identity, sent from `froms`. */
  function Announcements(ids: seq<Identity>, froms: seq<Addr>): (es: seq<Event>)
    requires |ids| == |froms|
    requires forall k :: 0 <= k < |ids| ==> ids[k].name.Some? && ids[k].status.Some?
    ensures |es| == |ids|
  {
    seq(|ids|, k requires 0 <= k < |ids| => Event(Xml(EncodeContact(ids[k]).value), froms[k]))
  }

  /** The entries a run of new announcements adds, in arrival order. */
  function Registered(ids: seq<Identity>, froms: seq<Addr>): seq<Peer>
    requires |ids| == |froms|
  {
    if |ids| == 0 then [] else [Peer(ids[0], Some(froms[0]))] + Registered(ids[1..], froms[1..])
  }

  /** The entries a run of new announcements adds are one per announcement, in arrival order. */
  lemma {:induction false} RegisteredAt(ids: seq<Identity>, froms: seq<Addr>, k: nat)
    requires |ids| == |froms| && k < |ids|
    ensures |Registered(ids, froms)| == |ids|
    ensures Registered(ids, froms)[k] == Peer(ids[k], Some(froms[k]))
    decreases |ids|
  {
    if |ids| == 1 {
      assert Registered(ids[1..], froms[1..]) == [];
    } else if k == 0 {
      RegisteredAt(ids[1..], froms[1..], 0);
    } else {
      RegisteredAt(ids[1..], froms[1..], k - 1);
    }
  }

  /** The effects of a run of new announcements: one reply and one `newPeer` each. */
  function AnnounceEffects(ids: seq<Identity>, froms: seq<Addr>): seq<Effect>
    requires |ids| == |froms|
  {
    if |ids| == 0 then []
    else [Reply(froms[0]), NewPeer(Peer(ids[0], Some(froms[0])))] + AnnounceEffects(ids[1..], froms[1..])
  }

  /** The effects of new announcements come in pairs, reply first, one pair per announcement. */
  lemma {:induction false} AnnounceEffectsAt(ids: seq<Identity>, froms: seq<Addr>, k: nat)
    requires |ids| == |froms| && k < |ids|
    ensures |AnnounceEffects(ids, froms)| == 2 * |ids|
    ensures AnnounceEffects(ids, froms)[2 * k] == Reply(froms[k])
    ensures AnnounceEffects(ids, froms)[2 * k + 1] == NewPeer(Peer(ids[k], Some(froms[k])))
    decreases |ids|
  {
    if |ids| == 1 {
      assert AnnounceEffects(ids[1..], froms[1..]) == [];
    } else if k == 0 {
      AnnounceEffectsAt(ids[1..], froms[1..], 0);
    } else {
      AnnounceEffectsAt(ids[1..], froms[1..], k - 1);
    }
  }

  /** The MACs of `ids` are pairwise distinct, none is ours and none is listed in `peers`. */
  predicate NewMacs(myMac: int, peers: seq<Peer>, ids: seq<Identity>) {
    (forall k :: 0 <= k < |ids| ==> ids[k].mac != myMac) &&
    (forall k, l :: 0 <= k < l < |ids| ==> ids[k].mac != ids[l].mac) &&
    (forall k, j :: 0 <= k < |ids| && 0 <= j < |peers| ==> ids[k].mac != peers[j].id.mac)
  }

  /** Once the first of them is registered, the remaining MACs are still new. */
  lemma NewMacsTail(myMac: int, peers: seq<Peer>, ids: seq<Identity>, p: Peer)
    requires |ids| > 0 && NewMacs(myMac, peers, ids) && p.id == ids[0]
    ensures NewMacs(myMac, peers + [p], ids[1..])
  {
  }

  lemma ConcatAssociates<T>(a: seq<T>, b: seq<T>, c: seq<T>)
    ensures a + b + c == a + (b + c)
  {
  }

  /** The first of a run of new announcements registers its peer; the rest of the run follows. */
  lemma ListenFirstAnnouncement(myMac: int, peers: seq<Peer>, ids: seq<Identity>, froms: seq<Addr>)
    requires 0 < |ids| == |froms|
    requires forall k :: 0 <= k < |ids| ==> ids[k].name.Some? && ids[k].status.Some?
    requires ids[0].mac != myMac && forall j :: 0 <= j < |peers| ==> peers[j].id.mac != ids[0].mac
    ensures var p := Peer(ids[0], Some(froms[0]));
      var rest := Listen(myMac, peers + [p], Announcements(ids[1..], froms[1..]));
      Listen(myMac, peers, Announcements(ids, froms)) == Listening(rest.peers, [Reply(froms[0]), NewPeer(p)] + rest.effects)
  {
    var es := Announcements(ids, froms);
    assert es[0] == Event(Xml(EncodeContact(ids[0]).value), froms[0]);
    ContactRoundTrip(ids[0]);
    NewAnnouncementAppends(myMac, peers, es[0].d, es[0].from);
    assert es[1..] == Announcements(ids[1..], froms[1..]);
  }

  /**
   * Announcements of pairwise distinct, unlisted MACs, none of them ours, end with
   * exactly one new entry per MAC appended in arrival order, and with exactly one
   * reply and one `newPeer` callback each (see AnnounceEffectsAt).
   */
  lemma {:induction false} DistinctAnnouncementsRegisterEach(myMac: int, peers: seq<Peer>, ids: seq<Identity>, froms: seq<Addr>)
    requires |ids| == |froms|
    requires forall k :: 0 <= k < |ids| ==> ids[k].name.Some? && ids[k].status.Some?
    requires NewMacs(myMac, peers, ids)
    ensures Listen(myMac, peers, Announcements(ids, froms)) ==
      Listening(peers + Registered(ids, froms), AnnounceEffects(ids, froms))
    decreases |ids|
  {
    if |ids| == 0 {
      assert peers + [] == peers;
    } else {
      var p := Peer(ids[0], Some(froms[0]));
      ListenFirstAnnouncement(myMac, peers, ids, froms);
      NewMacsTail(myMac, peers, ids, p);
      DistinctAnnouncementsRegisterEach(myMac, peers + [p], ids[1..], froms[1..]);
      assert Registered(ids, froms) == [p] + Registered(ids[1..], froms[1..]);
      ConcatAssociates(peers, [p], Registered(ids[1..], froms[1..]));
    }
  }

  /**
   * Re-announcing a listed MAC (the unicast reply of a peer, or a restart) changes
   * nothing: the existing entry keeps its name, status and address.
   */
  lemma ReannouncementIsNoop(myMac: int, peers: seq<Peer>, id: Identity, from: Addr, j: nat)
    requires id.name.Some? && id.status.Some?
    requires j < |peers| && peers[j].id.mac == id.mac
    ensures Step(myMac, peers, Xml(EncodeContact(id).value), from) == Outcome(Unchanged, [])
  {
    ContactRoundTrip(id);
  }

  /**
   * A peer's logout frame removes its one entry from a well-formed registry, fires
   * `deletePeer` once with that entry's index, and leaves no entry with its MAC.
   */
  lemma PeerLogoutRemovesIt(myMac: int, peers: seq<Peer>, i: nat, from: Addr)
    requires UniqueMacs(peers) && i < |peers|
    ensures var d := Xml(LogoutElement(peers[i].id.mac));
      Step(myMac, peers, d, from) == Outcome(Removed(i), [DeletePeer(i)]) &&
      Next(myMac, peers, d, from) == peers[..i] + peers[i + 1..] &&
      forall k :: 0 <= k < |peers| - 1 ==> Next(myMac, peers, d, from)[k].id.mac != peers[i].id.mac
  {
    var mac := peers[i].id.mac;
    LogoutRoundTrip(mac);
    LogoutRemovesFirstMatch(myMac, peers, Xml(LogoutElement(mac)), from, i);
    var next := peers[..i] + peers[i + 1..];
    assert forall k :: 0 <= k < |next| ==> next[k] == peers[if k < i then k else k + 1];
  }

  /**
   * The client's own logout broadcast reaches its own listener; since a
   * well-formed registry never lists our own MAC, that frame ends the loop.
   */
  lemma OwnLogoutStopsListener(myMac: int, peers: seq<Peer>, from: Addr)
    requires WellFormed(myMac, peers)
    ensures Step(myMac, peers, Xml(LogoutElement(myMac)), from) == Outcome(Unchanged, [StopListening])
  {
    LogoutRoundTrip(myMac);
  }

  /**
   * Two hosts join. Host A's listener hears its own broadcast, then B's broadcast,
   * then B's unicast reply to A's broadcast. A ends with exactly one entry, for B,
   * and replies and calls `newPeer` exactly once.
   */
  lemma TwoHostsDiscoverEachOtherOnce(a: Identity, b: Identity, addrA: Addr, addrB: Addr)
    requires a.name.Some? && a.status.Some? && b.name.Some? && b.status.Some?
    requires a.mac != b.mac
    ensures var pb := Peer(b, Some(addrB));
      var heard := [Event(Xml(EncodeContact(a).value), addrA), Event(Xml(EncodeContact(b).value), addrB), Event(Xml(EncodeContact(b).value), addrB)];
      Listen(a.mac, [], heard) == Listening([pb], [Reply(addrB), NewPeer(pb)])
  {
    var pb := Peer(b, Some(addrB));
    var heard := [Event(Xml(EncodeContact(a).value), addrA), Event(Xml(EncodeContact(b).value), addrB), Event(Xml(EncodeContact(b).value), addrB)];
    ContactRoundTrip(a);
    ContactRoundTrip(b);
    SelfAnnouncementIgnored(a.mac, [], heard[0].d, addrA);
    NewAnnouncementAppends(a.mac, [], heard[1].d, addrB);
    KnownAnnouncementIgnored(a.mac, [pb], heard[2].d, addrB, 0);
    assert heard[2..][1..] == [];
    assert Listen(a.mac, [pb], heard[2..]) == Listening([pb], []);
    assert heard[1..][1..] == heard[2..] && heard[1..][0] == heard[1];
    assert Apply([], Appended(pb)) == [pb];
    assert Listen(a.mac, [], heard[1..]) == Listening([pb], [Reply(addrB), NewPeer(pb)]);
  }
}
