/**
 * The per-contact session of SkyChat.py's `Contact` class: the connection slot
 * where the first connection wins, lazy dialing in `sendMessage`, the message
 * history replayed to a newly set callback, one iteration of the receive loop
 * `__listen`, and `closeConnection`. Sockets are opaque handles; what the socket
 * layer answers (a poll result, a read, the outcome of a dial) is a parameter.
 */
module Session {
  import opened Types
  import opened Codec

  /**
   * The class attribute `Contact.__history`. It is only ever appended to, never
   * rebound on an instance, so every Contact object shares this one list.
   */
  class History {
    var entries: seq<string>

    constructor ()
      ensures entries == []
    {
      entries := [];
    }
  }

  // ---------------------------------------------------------------------------
  // `bytes.strip()`: the test that recognises a peer closing the conversation.

  /** The ASCII whitespace that `bytes.strip()` removes. */
  predicate IsSpace(c: char) {
    c == ' ' || c == '\t' || c == '\n' || c == '\r' || c == '\U{000B}' || c == '\U{000C}'
  }

  predicate IsBlank(s: string) {
    forall i :: 0 <= i < |s| ==> IsSpace(s[i])
  }

  function StripLeft(s: string): (r: string)
    ensures |r| <= |s| && r == s[|s| - |r|..]
    ensures |r| > 0 ==> !IsSpace(r[0])
  {
    if |s| > 0 && IsSpace(s[0]) then StripLeft(s[1..]) else s
  }

  function StripRight(s: string): (r: string)
    ensures |r| <= |s| && r == s[..|r|]
    ensures |r| > 0 ==> !IsSpace(r[|r| - 1])
  {
    if |s| > 0 && IsSpace(s[|s| - 1]) then StripRight(s[..|s| - 1]) else s
  }

  /** `s.strip()`: `s` without its leading and trailing whitespace. */
  function Strip(s: string): string {
    StripRight(StripLeft(s))
  }

  lemma {:induction false} StripLeftEmptyIffBlank(s: string)
    ensures |StripLeft(s)| == 0 <==> IsBlank(s)
    decreases |s|
  {
    if |s| > 0 && IsSpace(s[0]) {
      StripLeftEmptyIffBlank(s[1..]);
      assert IsBlank(s) <==> IsBlank(s[1..]) by {
        if IsBlank(s[1..]) {
          forall i | 0 <= i < |s| ensures IsSpace(s[i]) {
            if i > 0 { assert s[i] == s[1..][i - 1]; }
          }
        }
      }
    } else if |s| > 0 {
      assert !IsSpace(s[0]);
    }
  }

  lemma {:induction false} StripRightEmptyIffBlank(s: string)
    ensures |StripRight(s)| == 0 <==> IsBlank(s)
    decreases |s|
  {
    if |s| > 0 && IsSpace(s[|s| - 1]) {
      StripRightEmptyIffBlank(s[..|s| - 1]);
      assert IsBlank(s) <==> IsBlank(s[..|s| - 1]) by {
        if IsBlank(s[..|s| - 1]) {
          forall i | 0 <= i < |s| ensures IsSpace(s[i]) {
            if i < |s| - 1 { assert s[i] == s[..|s| - 1][i]; }
          }
        }
      }
    } else if |s| > 0 {
      assert !IsSpace(s[|s| - 1]);
    }
  }

  /** `len(buff.strip()) == 0` holds exactly for the empty and whitespace-only reads. */
  lemma StripEmptyIffBlank(s: string)
    ensures |Strip(s)| == 0 <==> IsBlank(s)
  {
    StripLeftEmptyIffBlank(s);
    StripRightEmptyIffBlank(StripLeft(s));
  }

  // ---------------------------------------------------------------------------
  // What the socket layer answers, and what the session hands on.

  /** The text handed to the callback when the peer closes the conversation. */
  const CloseNotice: string := "<close />"

  /** The outcome of `recv(1024)` on a readable connection. */
  datatype ReadOutcome = NotReadable | Received(data: string) | RecvRaised

  /** The outcome of the 5-second `select` on the connection, then of the read. */
  datatype Poll = PollRaised | Ready(read: ReadOutcome, exceptional: bool)

  /** One call of the message callback. */
  datatype Delivery = Delivery(to: CallbackId, message: string)

  /** How one iteration of `__listen` ends. */
  datatype LoopEnd =
    | KeepListening   // back to the loop test
    | Closed          // `break`: the connection is closed and released
    | Crashed         // an exception escaped `__listen`: no teardown ran

  /** What `sendMessage` did: wrote `payload` on `on`, or raised while dialing. */
  datatype SendResult = Sent(on: Handle, payload: string, dialled: bool) | ConnectFailed

  /** A read that the session treats as the peer closing the conversation. */
  predicate PeerClosed(p: Poll) {
    p.Ready? && p.read.Received? && IsBlank(p.read.data)
  }

  /** A read that the session records as a message. */
  predicate MessageRead(p: Poll) {
    p.Ready? && p.read.Received? && !IsBlank(p.read.data)
  }

  /**
   * A read that `__listen` records: a message, logged as `name + ": " + text`
   * before it is appended. That concatenation raises for a contact parsed
   * without a `Name` attribute, so an unnamed contact records nothing.
   */
  predicate Records(p: Poll, named: bool) {
    MessageRead(p) && named
  }

  /** A poll after which an iteration of `__listen` raises out of the loop. */
  predicate Crashes(p: Poll, hasCallback: bool, named: bool) {
    (PeerClosed(p) && !hasCallback) || (MessageRead(p) && !named)
  }

  /** A poll after which `__listen` goes back to its loop test. */
  predicate KeepsListening(p: Poll, named: bool) {
    p.Ready? && !p.exceptional && (p.read.NotReadable? || Records(p, named))
  }

  /** The messages that a run of polls records, in arrival order. */
  function Recorded(polls: seq<Poll>, named: bool): seq<string>
  {
    if |polls| == 0 then []
    else Recorded(polls[..|polls| - 1], named) + (if Records(polls[|polls| - 1], named) then [polls[|polls| - 1].read.data] else [])
  }

  /** Each message handed, in order, to the callback `cb`. */
  function DeliveredTo(cb: CallbackId, ms: seq<string>): (ds: seq<Delivery>)
    ensures |ds| == |ms|
    ensures forall i :: 0 <= i < |ms| ==> ds[i] == Delivery(cb, ms[i])
  {
    seq(|ms|, i requires 0 <= i < |ms| => Delivery(cb, ms[i]))
  }

  /** Reading one more poll records its message, if it carries one, after the others. */
  lemma RecordedNext(polls: seq<Poll>, named: bool, n: nat)
    requires n < |polls|
    ensures Recorded(polls[..n + 1], named) == Recorded(polls[..n], named) + (if Records(polls[n], named) then [polls[n].read.data] else [])
  {
    assert polls[..n + 1][..n] == polls[..n];
  }

  /** Delivering two runs of messages one after the other delivers their concatenation. */
  lemma DeliveredToAppend(cb: CallbackId, ms: seq<string>, more: seq<string>)
    ensures DeliveredTo(cb, ms + more) == DeliveredTo(cb, ms) + DeliveredTo(cb, more)
  {
  }

  /** A known peer: its identity, its address, and its one conversation. */
  class Contact {
    const id: Identity
    const address: Option<Addr>
    const history: History
    var connection: Option<Handle>
    var callback: Option<CallbackId>

    /** A Contact as `ParseContact` plus `setAddress` leave it: no connection, no callback. */
    constructor (id: Identity, address: Option<Addr>, history: History)
      ensures this.id == id && this.address == address && this.history == history
      ensures connection.None? && callback.None?
    {
      this.id := id;
      this.address := address;
      this.history := history;
      connection := None;
      callback := None;
    }

    /**
     * `setConnection`: an empty slot takes the connection and a listener starts on
     * it; a filled slot keeps its connection and no listener starts (first wins).
     */
    method SetConnection(h: Handle) returns (started: bool)
      modifies this
      ensures started <==> old(connection).None?
      ensures connection == if started then Some(h) else old(connection)
      ensures callback == old(callback)
    {
      if connection.Some? {
        return false;
      }
      connection := Some(h);
      started := true;
    }

    /**
     * `sendMessage`: dial only when the slot is empty, then write on whatever
     * connection the slot holds. `dialled` is the socket layer's answer to the
     * connect, None when it raises; connecting to an unset address raises too.
     */
    method SendMessage(message: string, dialled: Option<Handle>) returns (r: SendResult, started: bool)
      modifies this
      ensures r.ConnectFailed? <==> old(connection).None? && (address.None? || dialled.None?)
      ensures r.ConnectFailed? ==> connection == old(connection) && !started
      ensures r.Sent? ==> connection.Some? && r.on == connection.value && r.payload == message
      ensures r.Sent? ==> (r.dialled <==> old(connection).None?) && (started <==> r.dialled)
      ensures old(connection).Some? ==> connection == old(connection)
      ensures old(connection).None? && r.Sent? ==> connection == dialled
      ensures callback == old(callback)
    {
      started := false;
      var didDial := false;
      if connection.None? {
        if address.None? || dialled.None? {
          return ConnectFailed, false;
        }
        started := SetConnection(dialled.value);
        didDial := true;
      }
      r := Sent(connection.value, message, didDial);
    }

    /**
     * `setMessageCallback`: store the callback, then hand it every history entry
     * exactly once, in the order they were appended.
     */
    method SetMessageCallback(cb: CallbackId) returns (delivered: seq<Delivery>)
      modifies this
      ensures callback == Some(cb) && connection == old(connection)
      ensures delivered == DeliveredTo(cb, history.entries)
    {
      callback := Some(cb);
      delivered := [];
      var i := 0;
      while i < |history.entries|
        invariant 0 <= i <= |history.entries|
        invariant delivered == DeliveredTo(cb, history.entries[..i])
      {
        delivered := delivered + [Delivery(callback.value, history.entries[i])];
        i := i + 1;
      }
      assert history.entries[..i] == history.entries;
    }

    /**
     * `closeConnection`: close the socket if there is one and clear the callback.
     * The slot itself is left as it was; only the end of `__listen` empties it.
     */
    method CloseConnection() returns (closed: Option<Handle>)
      modifies this
      ensures closed == old(connection)
      ensures connection == old(connection) && callback.None?
    {
      closed := connection;
      callback := None;
    }

    /**
     * One iteration of `__listen`, entered while the slot holds a connection.
     * A non-blank read is logged with the contact's name, appended to the shared
     * history and handed to the callback if one is set; for a contact without a
     * name the logging raises first and the loop dies without teardown. A blank
     * read hands the close notice to the callback without recording it and ends
     * the loop; the callback is called without a check, so with none set this
     * raises and the loop dies without teardown. A failed poll or read, or an
     * exceptional condition, ends the loop too. Ending the loop normally closes
     * the connection, clears the callback and empties the slot.
     */
    method ReceiveStep(p: Poll) returns (delivered: seq<Delivery>, end: LoopEnd)
      requires connection.Some?
      modifies this, history
      ensures history.entries == old(history.entries) + (if Records(p, id.name.Some?) then [p.read.data] else [])
      ensures delivered == if old(callback).Some? && (PeerClosed(p) || Records(p, id.name.Some?))
        then [Delivery(old(callback).value, if PeerClosed(p) then CloseNotice else p.read.data)]
        else []
      ensures end == Crashed <==> Crashes(p, old(callback).Some?, id.name.Some?)
      ensures end == KeepListening <==> KeepsListening(p, id.name.Some?)
      ensures end == Closed ==> connection.None? && callback.None?
      ensures end != Closed ==> connection == old(connection) && callback == old(callback)
    {
      delivered := [];
      end := KeepListening;
      if p.PollRaised? {
        end := Closed;
      } else if p.read.RecvRaised? {
        end := Closed;
      } else if p.read.Received? {
        var buff := p.read.data;
        // `buff == '<close />'` compares bytes with str and is never true.
        StripEmptyIffBlank(buff);
        if |Strip(buff)| == 0 {
          if callback.None? {
            return [], Crashed;
          }
          delivered := [Delivery(callback.value, CloseNotice)];
          end := Closed;
        } else {
          // `self.__name + ": "` raises a TypeError, which `except socket.error` lets through.
          if id.name.None? {
            return [], Crashed;
          }
          history.entries := history.entries + [buff];
          if callback.Some? {
            delivered := [Delivery(callback.value, history.entries[|history.entries| - 1])];
          }
        }
      }
      if end == KeepListening && p.exceptional {
        end := Closed;
      }
      if end == Closed {
        var _ := CloseConnection();
        connection := None;
      }
    }

    /**
     * `__listen` over a run of poll results, until the loop ends or the run is
     * used up. The run stops at the first poll after which the loop does not go
     * back to its test. The history grows by exactly the messages recorded, in
     * order; a callback set at the start receives each of them once, in order,
     * then the close notice if the peer closed the conversation.
     */
    method Listen(polls: seq<Poll>) returns (delivered: seq<Delivery>, consumed: nat, end: LoopEnd)
      requires connection.Some?
      modifies this, history
      ensures consumed <= |polls|
      ensures forall i :: 0 <= i < consumed - 1 ==> KeepsListening(polls[i], id.name.Some?)
      ensures end == KeepListening <==> forall i :: 0 <= i < consumed ==> KeepsListening(polls[i], id.name.Some?)
      ensures end == KeepListening ==> consumed == |polls|
      ensures end == Crashed <==> 0 < consumed && Crashes(polls[consumed - 1], old(callback).Some?, id.name.Some?)
      ensures end == Closed ==> connection.None? && callback.None?
      ensures end != Closed ==> connection == old(connection) && callback == old(callback)
      ensures history.entries == old(history.entries) + Recorded(polls[..consumed], id.name.Some?)
      ensures old(callback).None? ==> delivered == []
      ensures old(callback).Some? ==> delivered == DeliveredTo(old(callback).value,
        Recorded(polls[..consumed], id.name.Some?) + (if end == Closed && PeerClosed(polls[consumed - 1]) then [CloseNotice] else []))
    {
      delivered := [];
      consumed := 0;
      end := KeepListening;
      while consumed < |polls|
        invariant consumed <= |polls|
        invariant connection == old(connection) && callback == old(callback)
        invariant forall i :: 0 <= i < consumed ==> KeepsListening(polls[i], id.name.Some?)
        invariant history.entries == old(history.entries) + Recorded(polls[..consumed], id.name.Some?)
        invariant delivered == if old(callback).Some? then DeliveredTo(old(callback).value, Recorded(polls[..consumed], id.name.Some?)) else []
      {
        var p, cb := polls[consumed], callback;
        var ds, e := ReceiveStep(p);
        RecordedNext(polls, id.name.Some?, consumed);
        if cb.Some? {
          var got := if Records(p, id.name.Some?) then [p.read.data] else [];
          DeliveredToAppend(cb.value, Recorded(polls[..consumed], id.name.Some?), got);
          DeliveredToAppend(cb.value, Recorded(polls[..consumed], id.name.Some?) + got, [CloseNotice]);
        }
        consumed := consumed + 1;
        delivered := delivered + ds;
        if e != KeepListening {
          end := e;
          break;
        }
      }
    }
  }
}
