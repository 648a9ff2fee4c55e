/**
 * The classes of the model used together, the way the user interface drives
 * them: discovery, an inbound connection, a message, and a chat window opened
 * later for another contact.
 */
module Scenarios {
  import opened Types
  import opened Codec
  import Registry
  import opened Session
  import opened SkyChat

  /**
   * Host B discovers A and then C. A connects to B and sends "hi". When B's user
   * later opens a window for C, the window is replayed "hi": the history list is
   * shared by every Contact, so a replay is not limited to the messages of the
   * contact whose window is opened.
   */
  method SharedHistoryReplay(a: Identity, b: Identity, c: Identity, addrA: Addr, addrC: Addr, h: Handle, cbC: CallbackId)
    returns (replayedToC: seq<Delivery>)
    requires a.name.Some? && a.status.Some? && b.name.Some? && b.status.Some? && c.name.Some? && c.status.Some?
    requires a.mac != b.mac && c.mac != b.mac && a.mac != c.mac
    ensures replayedToC == [Delivery(cbC, "hi")]
  {
    var history := new History();
    var client := new Client(b, history);
    ContactRoundTrip(a);
    ContactRoundTrip(c);
    var fromA, fromC := Xml(EncodeContact(a).value), Xml(EncodeContact(c).value);

    Registry.NewAnnouncementAppends(b.mac, [], fromA, addrA);
    var effects, listening := client.HandleDatagram(fromA, addrA);
    assert |client.peers| == 1;
    var contactA := client.peers[0];
    assert PeerOf(contactA) == Infos(client.peers)[0];
    assert contactA.id == a && contactA.address == Some(addrA) && contactA.connection.None?;

    Registry.NewAnnouncementAppends(b.mac, Infos(client.peers), fromC, addrC);
    effects, listening := client.HandleDatagram(fromC, addrC);
    assert client.peers[..1] == [contactA] && |client.peers| == 2;
    var contactC := client.peers[1];

    var conversations, accepting := client.OnAccept(h, addrA);
    assert contactA in client.peers;
    var hi := Ready(Received("hi"), false);
    assert Records(hi, true) by { assert !IsSpace("hi"[0]); }
    assert contactA.history == history && history.entries == [];
    var delivered, end := contactA.ReceiveStep(hi);
    assert history.entries == ["hi"];

    replayedToC := contactC.SetMessageCallback(cbC);
  }
}
