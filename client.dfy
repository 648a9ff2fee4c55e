/**
 * SkyChat.py's `Client`: the ordered `__peers` list of Contact objects, updated
 * by the discovery listener one datagram at a time and read by the connection
 * listener when a peer connects. Each loop iteration is one atomic step; the
 * sockets, the threads and the callbacks into the user interface are left to
 * the caller, which gets the effects back.
 */
module SkyChat {
  import opened Types
  import opened Codec
  import Registry
  import opened Session

  /** What the registry knows of a Contact. */
  function PeerOf(c: Contact): Registry.Peer {
    Registry.Peer(c.id, c.address)
  }

  function Infos(cs: seq<Contact>): (ps: seq<Registry.Peer>)
    ensures |ps| == |cs| && forall i :: 0 <= i < |cs| ==> ps[i] == PeerOf(cs[i])
  {
    seq(|cs|, i requires 0 <= i < |cs| => PeerOf(cs[i]))
  }

  /** The contacts whose address is `a`, in list order. */
  function WithAddress(cs: seq<Contact>, a: Addr): (r: seq<Contact>)
    ensures |r| <= |cs|
    ensures forall i :: 0 <= i < |r| ==> r[i] in cs && r[i].address == Some(a)
    ensures forall i :: 0 <= i < |cs| && cs[i].address == Some(a) ==> cs[i] in r
  {
    if |cs| == 0 then []
    else
      var last := cs[|cs| - 1];
      WithAddress(cs[..|cs| - 1], a) + (if last.address == Some(a) then [last] else [])
  }

  class Client {
    var peers: seq<Contact>
    const me: Identity
    const history: History
    var online: bool

    /**
     * Every contact shares the one history list, and the registry holds at most
     * one entry per MAC and never our own.
     */
    ghost predicate Valid()
      reads this
    {
      (forall c :: c in peers ==> c.history == history) &&
      Registry.WellFormed(me.mac, Infos(peers))
    }

    /**
     * A client with no peers yet, online. The threads and the first broadcast are
     * left to the caller. That broadcast serialises the local identity, which
     * raises unless its name and status are set, so `__init__` only returns then.
     */
    constructor (me: Identity, history: History)
      requires EncodeContact(me).Some?
      ensures Valid()
      ensures this.me == me && this.history == history && peers == [] && online
    {
      this.me := me;
      this.history := history;
      peers := [];
      online := true;
    }

    /** `logout`: the frame to broadcast, and the listeners' loop test now fails. */
    method Logout() returns (frame: Element)
      modifies this
      ensures frame == LogoutElement(me.mac) && Decode(Xml(frame)) == LogoutFrame(me.mac)
      ensures !online && peers == old(peers)
    {
      LogoutRoundTrip(me.mac);
      frame := LogoutElement(me.mac);
      online := false;
    }

    /**
     * The announcement branch of `__alertListener` (its address already set):
     * ignore our own MAC and a listed MAC; otherwise append a fresh contact at the
     * end, reply to its address and call `newPeer`.
     */
    method HandleAnnouncement(id: Identity, from: Addr) returns (effects: seq<Registry.Effect>)
      modifies this
      ensures online == old(online)
      ensures id.mac == me.mac || Registry.FindMac(Infos(old(peers)), id.mac).Some? ==>
        peers == old(peers) && effects == []
      ensures id.mac != me.mac && Registry.FindMac(Infos(old(peers)), id.mac).None? ==>
        |peers| == |old(peers)| + 1 && peers[..|old(peers)|] == old(peers) &&
        fresh(peers[|old(peers)|]) && PeerOf(peers[|old(peers)|]) == Registry.Peer(id, Some(from)) &&
        peers[|old(peers)|].history == history &&
        peers[|old(peers)|].connection.None? && peers[|old(peers)|].callback.None? &&
        effects == [Registry.Reply(from), Registry.NewPeer(Registry.Peer(id, Some(from)))]
    {
      effects := [];
      if id.mac != me.mac {
        // Make sure this is a new contact.
        var isNew := true;
        var k := 0;
        while k < |peers|
          invariant 0 <= k <= |peers| && isNew
          invariant forall j :: 0 <= j < k ==> peers[j].id.mac != id.mac
        {
          if peers[k].id.mac == id.mac {
            isNew := false;
            break;
          }
          k := k + 1;
        }
        if isNew {
          var c := new Contact(id, Some(from), history);
          peers := peers + [c];
          effects := [Registry.Reply(from), Registry.NewPeer(PeerOf(c))];
        } else {
          assert Infos(peers)[k].id.mac == id.mac;
        }
      }
    }

    /**
     * The control branch of `__alertListener` for the MAC in `sender`: remove the
     * first entry with that MAC and call `deletePeer` with its index, or, when no
     * entry has it, end the loop.
     */
    method HandleLogout(mac: int) returns (effects: seq<Registry.Effect>)
      modifies this
      ensures online == old(online)
      ensures var found := Registry.FindMac(Infos(old(peers)), mac);
        (found.None? ==> peers == old(peers) && effects == [Registry.StopListening]) &&
        (found.Some? ==>
           found.value < |old(peers)| &&
           peers == old(peers)[..found.value] + old(peers)[found.value + 1..] &&
           effects == [Registry.DeletePeer(found.value)])
    {
      ghost var before := Infos(peers);
      var index := -1;
      var pIndex := 0;
      while pIndex < |peers|
        invariant 0 <= pIndex <= |peers| && index == -1
        invariant forall j :: 0 <= j < pIndex ==> peers[j].id.mac != mac
      {
        if mac == peers[pIndex].id.mac {
          index := pIndex;
          break;
        }
        pIndex := pIndex + 1;
      }
      if index == -1 {
        return [Registry.StopListening];
      }
      assert before[index].id.mac == mac;
      assert Registry.FindMac(before, mac) == Some(index);
      peers := peers[..index] + peers[index + 1..];
      effects := [Registry.DeletePeer(index)];
    }

    /**
     * One iteration of `__alertListener` on a datagram from `from`, as
     * `Registry.Step` says: the same effects, and `peers` keeps its objects except
     * that one fresh contact is appended or one is removed. `listening` is whether
     * the loop goes round again.
     */
    method HandleDatagram(d: Datagram, from: Addr) returns (effects: seq<Registry.Effect>, listening: bool)
      requires Valid()
      modifies this
      ensures Valid() && online == old(online)
      ensures var o := Registry.Step(me.mac, Infos(old(peers)), d, from);
        effects == o.effects &&
        match o.change
        case Unchanged => peers == old(peers)
        case Appended(p) =>
          |peers| == |old(peers)| + 1 && peers[..|old(peers)|] == old(peers) &&
          fresh(peers[|old(peers)|]) && PeerOf(peers[|old(peers)|]) == p &&
          peers[|old(peers)|].connection.None? && peers[|old(peers)|].callback.None?
        case Removed(i) => i < |old(peers)| && peers == old(peers)[..i] + old(peers)[i + 1..]
      ensures Infos(peers) == Registry.Next(me.mac, Infos(old(peers)), d, from)
      ensures listening <==> online && !Registry.Stops(effects)
    {
      ghost var before := Infos(peers);
      effects := [];
      match Decode(d) {
        case ContactFrame(id) =>
          effects := HandleAnnouncement(id, from);
          if |peers| != |old(peers)| {
            assert Infos(peers) == before + [PeerOf(peers[|before|])];
          }
        case LogoutFrame(mac) =>
          effects := HandleLogout(mac);
          if |peers| != |old(peers)| {
            var i := Registry.FindMac(before, mac).value;
            assert Infos(peers) == before[..i] + before[i + 1..];
          }
        case Broken =>
          effects := [Registry.ListenerCrashed];
        case Other =>
      }
      listening := online && !Registry.Stops(effects);
      Registry.StepKeepsWellFormed(me.mac, before, d, from);
    }

    /**
     * The matching loop of `__connectionListener` for a connection accepted from
     * `from`: every peer with that address, in list order, gets a conversation
     * and is offered the connection, which it takes only if its slot is
     * empty. There is no `break`: all matching peers are visited. `listening` is
     * the loop test that follows.
     */
    method OnAccept(h: Handle, from: Addr) returns (conversations: seq<Contact>, listening: bool)
      modifies peers
      ensures conversations == WithAddress(peers, from)
      ensures forall c :: c in peers ==>
        c.callback == old(c.callback) &&
        c.connection == if c.address == Some(from) && old(c.connection).None? then Some(h) else old(c.connection)
      ensures listening == online
    {
      conversations := [];
      var i := 0;
      while i < |peers|
        invariant 0 <= i <= |peers|
        invariant conversations == WithAddress(peers[..i], from)
        invariant forall c :: c in peers ==>
          c.callback == old(c.callback) &&
          c.connection == if c in peers[..i] && c.address == Some(from) && old(c.connection).None? then Some(h) else old(c.connection)
      {
        var p := peers[i];
        assert peers[..i + 1][..i] == peers[..i];
        if p.address == Some(from) {
          conversations := conversations + [p];
          var _ := p.SetConnection(h);
        }
        i := i + 1;
      }
      assert peers[..i] == peers;
      listening := online;
    }
  }
}
