# SkyChat peer discovery and sessions, modelled in Dafny

SkyChat is a serverless LAN chat. Every client broadcasts a `<Contact>` announcement on
UDP port 8497, keeps an ordered list of the peers it has heard (`Client.__peers`), answers
each newcomer with a unicast announcement, and broadcasts a `<control ... command="logout" />`
frame when it leaves. Messages travel over one TCP connection per peer (port 42111), owned by
the peer's `Contact` object, which also keeps a message history that it replays to a newly set
callback (a chat window).

This project models the core of `SkyChat.py`:

- `types.dfy` (`Types`): `Option`, and opaque addresses, socket handles and callback names.
- `codec.dfy` (`Codec`): the discovery frames as root elements (tag plus attribute map),
  Python's `str(int)`/`int(str)` for the MAC, the encoders `getData` and `__logoutCommand`, and
  the way the listener reads a datagram; round trips for both frames.
- `registry.dfy` (`Registry`): one iteration of `__alertListener` as a function `Step` on the
  list of peers as values, with lemmas for each case, the invariant "one entry per MAC, never
  our own", runs of many datagrams (`Listen`), and two-host discovery.
- `session.dfy` (`Session`): the `Contact` class with its connection slot and callback slot, the
  shared `History`, and one iteration (`ReceiveStep`) and a run (`Listen`) of the receive loop.
- `client.dfy` (`SkyChat`): the `Client` class. `HandleDatagram` runs the two linear searches of
  `__alertListener` as loops and is proved to follow `Registry.Step`. `OnAccept` is the matching
  loop of `__connectionListener`.
- `scenario.dfy` (`Scenarios`): the classes driven together. It shows that a window opened for
  one contact is replayed the messages of another, because the history is shared.

Sockets, threads and the user interface are left to the caller: each method takes what the
socket layer answered (a datagram and its source, a poll result, the outcome of a dial) as a
parameter. It returns what the source would do next (reply, callbacks, whether the loop goes
on) as values.

Behaviours of `SkyChat.py` that the model keeps:

- A frame that carries a marker but does not parse (bad XML, missing or non-integer `MAC` or
  `sender`) raises inside `__alertListener`, and the listener thread ends (`ListenerCrashed`).
- A logout for an unknown MAC ends the listener loop (`return`).
- The control branch never reads the `command` attribute, so any `<control sender=N>` is a
  logout.
- A logout removes the registry entry and calls `deletePeer`. It does not close that peer's
  connection.
- A blank read hands `"<close />"` to the callback and does not append it to the history. The
  callback is called without a None check. With no callback set, this raises, and the receive
  thread dies without closing the socket or emptying the slot.
- A contact announced without a `Name` attribute is registered with no name. The first
  non-blank read on its connection raises while logging `name + ": " + text`, before the text is
  recorded or delivered, and the receive thread dies the same way.
- `buff == '<close />'` compares bytes with a string and is never true. A peer that sends the
  text `<close />` has it recorded and delivered as an ordinary message.
- `closeConnection` clears the callback but leaves the connection slot as it was. Only the end
  of `__listen` empties the slot.
- An inbound connection from an unknown address is not closed and is not attached to any
  contact.
- The history is one list shared by every `Contact` (a class attribute). It is not kept per
  peer.

## Model

| member | source | states |
|---|---|---|
| `Codec.EncodeContact` | SkyChat.py:333-339 | a `Contact` element with exactly the attributes Name, Status and MAC; it exists exactly when the name and the status are set (ElementTree cannot serialise None) |
| `Codec.LogoutElement` | SkyChat.py:208-213 | a `control` element with exactly the attributes `sender` and `command`, the latter `logout` |
| `Codec.NatToString` | SkyChat.py:337 | `str` of a non-negative integer is non-empty, all decimal digits, with no leading zero |
| `Codec.IntToString` | SkyChat.py:337 | `str` of an integer is non-empty and starts with `-` exactly when the integer is negative |
| `Codec.ParseIntToString` | SkyChat.py:309 | `int(str(i)) == i` for every integer, so the MAC survives the text attribute |
| `Codec.Decode` | SkyChat.py:306-309 | how the listener reads a datagram (marker tests at lines 264 and 287, `sender` at 290-291): unparsable text with a marker is `Broken`, without one `Other`; a tag starting with `Contact` gives a contact frame exactly when `MAC` reads as an integer (else `Broken`), carrying `Name` and `Status` as found and that MAC; otherwise a tag starting with `control` gives a logout frame exactly when `sender` reads as an integer (else `Broken`), carrying that integer; any other tag is `Other` |
| `Codec.ContactRoundTrip` | SkyChat.py:333-339 | parsing what `getData` writes (with `ParseContact`, lines 306-309) gives back the name, status and MAC, with no address |
| `Codec.LogoutRoundTrip` | SkyChat.py:208-213 | the `sender` of the logout frame reads back, at lines 290-291, as the MAC that wrote it |
| `Registry.FindMac` | SkyChat.py:293-297 | the first index whose entry has the MAC (none before it has it), or None when no entry has it |
| `Registry.Step` | SkyChat.py:260-303 | one iteration of `__alertListener`; the index it removes is always within the list (each case is stated by the lemmas below) |
| `Registry.SelfAnnouncementIgnored` | SkyChat.py:268-269 | an announcement carrying our own MAC leaves the list unchanged, with no reply and no callback |
| `Registry.KnownAnnouncementIgnored` | SkyChat.py:271-278 | an announcement for a MAC already listed leaves the list unchanged, with no reply and no callback |
| `Registry.NewAnnouncementAppends` | SkyChat.py:278-285 | an announcement for a new MAC (not ours) appends exactly one entry at the end, with the datagram's source address, then replies once to that address and calls `newPeer` once; earlier entries are unchanged |
| `Registry.LogoutRemovesFirstMatch` | SkyChat.py:287-303 | a logout for a listed MAC removes only the first entry with it, keeps the rest in order, and calls `deletePeer` with that entry's index before removal |
| `Registry.LogoutOfUnknownStops` | SkyChat.py:299-300 | a logout for an unlisted MAC leaves the list unchanged and ends the listener loop |
| `Registry.UnmarkedOrBrokenDatagram` | SkyChat.py:264-291 | a datagram with neither marker changes nothing and the loop goes on; one with a marker that does not parse changes nothing and ends the listener |
| `Registry.StepKeepsWellFormed` | SkyChat.py:268-279 | after any iteration the list still holds at most one entry per MAC and none with our own MAC |
| `Registry.ListenKeepsWellFormed` | SkyChat.py:260-303 | the same holds after any sequence of datagrams |
| `Registry.RegisteredAt` | SkyChat.py:279 | the entries a run of new announcements appends are one per announcement, in arrival order, each with its source address |
| `Registry.AnnounceEffectsAt` | SkyChat.py:279-285 | the effects of a run of new announcements are one reply and then one `newPeer` per announcement, in arrival order |
| `Registry.ListenFirstAnnouncement` | SkyChat.py:278-285 | the first of a run of new announcements appends its peer, replies and calls `newPeer`, and the listener goes on with the rest |
| `Registry.DistinctAnnouncementsRegisterEach` | SkyChat.py:260-285 | announcements of pairwise distinct new MACs append one entry each, in arrival order with their source addresses, and produce one reply and one `newPeer` each |
| `Registry.ReannouncementIsNoop` | SkyChat.py:272-278 | an announcement, as another client writes it, for a MAC already listed changes nothing; the existing entry keeps its name, status and address |
| `Registry.PeerLogoutRemovesIt` | SkyChat.py:287-303 | a peer's logout frame removes its one entry, calls `deletePeer` with its index, and leaves no entry with its MAC |
| `Registry.OwnLogoutStopsListener` | SkyChat.py:299-300 | our own logout broadcast, heard by our own listener (sent at line 203), ends the listener loop and changes nothing |
| `Registry.TwoHostsDiscoverEachOtherOnce` | SkyChat.py:260-285 | a host that hears its own broadcast, a second host's broadcast and that host's reply ends with exactly one entry for the other host, one reply and one `newPeer` |
| `Session.StripEmptyIffBlank` | SkyChat.py:401 | `len(buff.strip()) == 0` holds exactly when the read is empty or all whitespace |
| `Session.History.constructor` | SkyChat.py:320 | the shared history starts empty |
| `Session.Contact.constructor` | SkyChat.py:323-331 | a parsed contact has the given identity and address, the shared history, no connection and no callback |
| `Session.Contact.SetConnection` | SkyChat.py:348-358 | an empty slot takes the connection and a listener starts; a filled slot is kept and no listener starts (the first connection wins); the callback is untouched |
| `Session.Contact.SendMessage` | SkyChat.py:372-380 | dials only when the slot is empty, and fails (raises) only then, when the address is unset or the connect fails; otherwise it writes the message on the connection now in the slot, the dialled one exactly when the slot was empty |
| `Session.Contact.SetMessageCallback` | SkyChat.py:341-346 | stores the callback and hands it every history entry exactly once, in append order; the connection is untouched |
| `Session.Contact.CloseConnection` | SkyChat.py:421-429 | closes the connection held, if any, clears the callback and leaves the slot as it was |
| `Session.Contact.ReceiveStep` | SkyChat.py:384-419 | a non-blank read on a named contact is appended to the history and handed to the callback if set; on a contact without a name it raises (line 405) with nothing recorded or delivered and no teardown; a blank read hands the close notice to the callback without recording it and ends the loop with callback and slot cleared, or raises when no callback is set; a failed poll or read, or an exceptional condition, ends the loop with teardown; nothing else ends it |
| `Session.Contact.Listen` | SkyChat.py:382-419 | the run stops at the first poll after which the loop does not go back to its test, or when the polls run out; it raises exactly when that last poll raises in `ReceiveStep`, leaving slot and callback as they were, and otherwise ends with both cleared; the history grows by exactly the messages recorded, in order; a callback set at the start receives each once, in order, then the close notice if the peer closed |
| `SkyChat.WithAddress` | SkyChat.py:233-235 | the contacts whose address matches, each one that matches and nothing else |
| `SkyChat.Client.constructor` | SkyChat.py:170-189 | a client with no peers yet, online, with the one shared history; built only for a local identity that `getData` can serialise, as the broadcast at line 189 raises otherwise |
| `SkyChat.Client.Logout` | SkyChat.py:195-213 | returns the logout frame, which reads back as our own MAC, and takes the client offline; the peers are unchanged |
| `SkyChat.Client.HandleAnnouncement` | SkyChat.py:266-285 | the search at lines 273-276 as a loop: our own MAC or a listed MAC leaves the list unchanged with no effects; a new MAC appends one fresh contact at the end (that address, the shared history, no connection, no callback), then replies to its address and calls `newPeer`; the earlier contacts are the same objects in the same order |
| `SkyChat.Client.HandleLogout` | SkyChat.py:289-303 | the search at lines 293-297 as a loop: the first contact with the MAC is removed, the others keep their order, and `deletePeer` gets its index; with no such contact the list is unchanged and the loop ends |
| `SkyChat.Client.HandleDatagram` | SkyChat.py:260-303 | the effects and the new peer list are those of `Registry.Step`; an appended contact is fresh, with no connection or callback, and the others are the same objects in the same order; the registry invariant and the shared history are kept; the loop goes on exactly when online and not stopped |
| `SkyChat.Client.OnAccept` | SkyChat.py:226-237 | every peer with the connection's address, in list order, gets a conversation and is offered the connection; it takes it only if its slot was empty; the other peers are untouched |
| `Scenarios.SharedHistoryReplay` | SkyChat.py:320 | after contact A delivers "hi", opening a window for contact C replays "hi" to it, because the history is shared |

## Left out

- Sockets: creating them, `bind` (including the exit when port 8497 is taken), `listen`, `accept`, `connect`, `sendto`, `send`, `recv`, `select` and its 5-second timeout, and the socket options. This is I/O. Handles, poll results, the outcome of a dial and the effects returned stand in for it.
- Threads: the two started by `Client.__init__`, the one per `setConnection`, and the races between them. Each loop iteration is one atomic step.
- `uuid.getnode()` as the default MAC: a hardware call. The MAC is always a parameter.
- XML text: escaping, whitespace, comments, child elements and text content. A frame is its root element. So the model does not see a marker that appears only in a comment or a child element.
- UTF-8 decoding of datagrams and of received bytes (`UnicodeDecodeError`): data is taken as already-decoded text.
- Codec.ParseInt: accepts only an optional sign and ASCII digits. Python's `int` also accepts surrounding whitespace, underscores between digits and non-ASCII digits. Such a frame parses in the source but is `Broken` in the model. SkyChat itself never writes one.
- Replies (the `Reply` effect) carry only the destination address. The payload is always `Codec.EncodeContact` of the local identity, which the client's constructor requires to exist, and a failure of `sendto` is not modelled.
- SkyChat.Client.constructor: a local identity without a name or status (the login dialog at FriendsList.py:24 cancelled) makes `__init__` raise at SkyChat.py:189 after both listener threads have started. Those threads keep running: the alert listener then appends each new peer and dies when its reply raises, before `newPeer` is called. The model has no client in that state.
- SkyChat.Client.OnAccept: the `newConversation` callback is the returned list of contacts. The loop test `while self.__online` is only the returned flag.
- Session.Contact.SendMessage: does not model the socket that leaks when `connect` raises, or a failure of the final `send`. In particular, after `CloseConnection` the slot still holds the closed socket until `__listen` empties it (up to the 5-second `select`); a `sendMessage` in that window raises `OSError` in the source, while the model reports `Sent` on that handle.
- Session.Contact.ReceiveStep: each `recv(1024)` is one message. A message split or merged across reads by TCP is not modelled.
- The accessors `getPeers`, `getName`, `getMAC`, `getAddress`: these are the fields themselves. `setAddress` is called only right after `ParseContact`, so the address is fixed when the contact is built.
- `Client.__peers` is also a class attribute shared between `Client` instances. The model has one client per process, as SkyChat does.
- `print` logging throughout.
- ChatWindow.py, FriendsList.py and __init__.py: the Tk user interface (windows, menus, list boxes, `after` polling).
