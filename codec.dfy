/**
 * The discovery frame codec of SkyChat.py: the `<Contact Name= Status= MAC=>`
 * announcement written by `Contact.getData` and read by `ParseContact`, and the
 * `<control sender= command="logout" />` frame written by `Client.__logoutCommand`
 * and read by the control branch of `Client.__alertListener`.
 *
 * XML text is not modelled: a well-formed frame is its root element, a tag and a
 * map from attribute names to (unescaped) attribute values.
 */
module Codec {
  import opened Types

  /** The root element of an XML document: its tag and its attributes. */
  datatype Element = Element(tag: string, attrs: map<string, string>)

  /**
   * A received discovery datagram. `Xml` is text that ElementTree parses, given by
   * its root element. `Unparsable` is text that it rejects, given by whether the
   * text contains the substrings "<Contact" and "<control".
   */
  datatype Datagram = Xml(root: Element) | Unparsable(mentionsContact: bool, mentionsControl: bool)

  /**
   * What a Contact object says about a participant. `Name` and `Status` are
   * whatever `root.get` returned, so a missing attribute is `None`.
   */
  datatype Identity = Identity(name: Option<string>, status: Option<string>, mac: int)

  /** How one iteration of the discovery listener reads a datagram. */
  datatype Frame =
    | ContactFrame(id: Identity)   // an announcement; address still unset
    | LogoutFrame(sender: int)     // a control frame naming the leaving MAC
    | Broken                       // a marker was seen but parsing raised
    | Other                        // neither marker: ignored

  // ---------------------------------------------------------------------------
  // Decimal integers: Python's str(int) and the int(str) that reads it back.

  predicate IsDigit(c: char) {
    '0' <= c <= '9'
  }

  function DigitChar(d: nat): (c: char)
    requires d < 10
    ensures IsDigit(c) && (c as int) - ('0' as int) == d
  {
    ('0' as int + d) as char
  }

  function DigitValue(c: char): (d: nat)
    requires IsDigit(c)
    ensures d < 10 && DigitChar(d) == c
  {
    (c as int) - ('0' as int)
  }

  /** The decimal digits of `n`, most significant first, with no leading zero. */
  function NatToString(n: nat): (s: string)
    ensures |s| > 0
    ensures forall i :: 0 <= i < |s| ==> IsDigit(s[i])
    ensures |s| > 1 ==> s[0] != '0'
  {
    if n < 10 then [DigitChar(n)] else NatToString(n / 10) + [DigitChar(n % 10)]
  }

  /** Python's `str(i)` for an integer: a minus sign, then the digits of `|i|`. */
  function IntToString(i: int): (s: string)
    ensures |s| > 0
    ensures s[0] == '-' <==> i < 0
  {
    if i < 0 then "-" + NatToString(-i) else NatToString(i)
  }

  /** The value of a run of decimal digits. */
  function DigitsValue(s: string): nat
    requires forall i :: 0 <= i < |s| ==> IsDigit(s[i])
  {
    if |s| == 0 then 0 else DigitsValue(s[..|s| - 1]) * 10 + DigitValue(s[|s| - 1])
  }

  function ParseNat(s: string): (r: Option<nat>)
    ensures r.Some? <==> |s| > 0 && forall i :: 0 <= i < |s| ==> IsDigit(s[i])
  {
    if |s| > 0 && forall i :: 0 <= i < |s| ==> IsDigit(s[i]) then Some(DigitsValue(s)) else None
  }

  /**
   * Python's `int(s)` on text: an optional sign and decimal digits. `None` is the
   * ValueError that `int` raises on anything else.
   */
  function ParseInt(s: string): Option<int> {
    if |s| > 0 && (s[0] == '-' || s[0] == '+') then
      match ParseNat(s[1..])
      case None => None
      case Some(n) => Some(if s[0] == '-' then -(n as int) else n as int)
    else
      match ParseNat(s)
      case None => None
      case Some(n) => Some(n)
  }

  /** Reading back the decimal digits of `n` gives `n`. */
  lemma {:induction false} ParseNatToString(n: nat)
    ensures ParseNat(NatToString(n)) == Some(n)
  {
    var s := NatToString(n);
    if n < 10 {
      assert s[..0] == [];
      assert DigitsValue(s) == DigitValue(s[0]) == n;
    } else {
      ParseNatToString(n / 10);
      assert s[..|s| - 1] == NatToString(n / 10);
      assert DigitValue(s[|s| - 1]) == n % 10;
    }
  }

  /** `int(str(i)) == i` for every integer. */
  lemma ParseIntToString(i: int)
    ensures ParseInt(IntToString(i)) == Some(i)
  {
    if i < 0 {
      ParseNatToString(-i);
      assert IntToString(i)[1..] == NatToString(-i);
    } else {
      ParseNatToString(i);
    }
  }

  // ---------------------------------------------------------------------------
  // Frames.

  /** `root.get(key)`: the attribute's value, or None when it is absent. */
  function Get(e: Element, key: string): (r: Option<string>)
    ensures r.Some? <==> key in e.attrs
    ensures r.Some? ==> r.value == e.attrs[key]
  {
    if key in e.attrs then Some(e.attrs[key]) else None
  }

  /** `int(root.get(key))`: None when the attribute is absent (TypeError) or not an integer (ValueError). */
  function IntAttr(e: Element, key: string): Option<int> {
    match Get(e, key)
    case None => None
    case Some(v) => ParseInt(v)
  }

  /**
   * `Contact.getData`: a `Contact` element with the three attributes. Serialising
   * an attribute whose value is None raises, so a contact without a name or a
   * status cannot be encoded and the result is then None.
   */
  function EncodeContact(id: Identity): (r: Option<Element>)
    ensures r.Some? <==> id.name.Some? && id.status.Some?
    ensures r.Some? ==> r.value.tag == "Contact" && r.value.attrs.Keys == {"Name", "Status", "MAC"}
  {
    if id.name.Some? && id.status.Some? then
      Some(Element("Contact", map["Name" := id.name.value, "Status" := id.status.value, "MAC" := IntToString(id.mac)]))
    else
      None
  }

  /** `Client.__logoutCommand`: the control element naming the local MAC. */
  function LogoutElement(mac: int): (e: Element)
    ensures e.tag == "control" && e.attrs.Keys == {"sender", "command"}
    ensures e.attrs["command"] == "logout"
  {
    Element("control", map["sender" := IntToString(mac), "command" := "logout"])
  }

  predicate StartsWith(s: string, prefix: string) {
    |prefix| <= |s| && s[..|prefix|] == prefix
  }

  /**
   * How `__alertListener` reads a datagram. The substring test `"<Contact" in text`
   * is taken first, then `"<control" in text`; for a frame that is one element they
   * hold exactly when the tag starts with "Contact" or "control". `ParseContact`
   * does not look at the tag beyond that, and the control branch reads only the
   * `sender` attribute, never `command`.
   */
  function Decode(d: Datagram): (f: Frame)
    ensures d.Unparsable? ==> (f == if d.mentionsContact || d.mentionsControl then Broken else Other)
    ensures f.ContactFrame? ==> d.Xml? && StartsWith(d.root.tag, "Contact")
    ensures f.ContactFrame? ==>
      f.id.name == Get(d.root, "Name") && f.id.status == Get(d.root, "Status") && IntAttr(d.root, "MAC") == Some(f.id.mac)
    ensures f.LogoutFrame? ==> d.Xml? && StartsWith(d.root.tag, "control") && !StartsWith(d.root.tag, "Contact")
    ensures f.LogoutFrame? ==> IntAttr(d.root, "sender") == Some(f.sender)
    ensures d.Xml? && StartsWith(d.root.tag, "Contact") ==>
      (f.ContactFrame? <==> IntAttr(d.root, "MAC").Some?) && (f.Broken? <==> IntAttr(d.root, "MAC").None?)
    ensures d.Xml? && !StartsWith(d.root.tag, "Contact") && StartsWith(d.root.tag, "control") ==>
      (f.LogoutFrame? <==> IntAttr(d.root, "sender").Some?) && (f.Broken? <==> IntAttr(d.root, "sender").None?)
    ensures d.Xml? && !StartsWith(d.root.tag, "Contact") && !StartsWith(d.root.tag, "control") ==> f == Other
  {
    match d
    case Unparsable(c, k) => if c || k then Broken else Other
    case Xml(e) =>
      if StartsWith(e.tag, "Contact") then
        match IntAttr(e, "MAC")
        case None => Broken
        case Some(m) => ContactFrame(Identity(Get(e, "Name"), Get(e, "Status"), m))
      else if StartsWith(e.tag, "control") then
        match IntAttr(e, "sender")
        case None => Broken
        case Some(m) => LogoutFrame(m)
      else
        Other
  }

  /**
   * Round trip of the announcement: parsing what `getData` wrote gives back the
   * name, the status and the MAC (the address is not part of the frame).
   */
  lemma ContactRoundTrip(id: Identity)
    requires id.name.Some? && id.status.Some?
    ensures EncodeContact(id).Some?
    ensures Decode(Xml(EncodeContact(id).value)) == ContactFrame(id)
  {
    ParseIntToString(id.mac);
    assert StartsWith("Contact", "Contact");
  }

  /** Round trip of the logout frame: its `sender` reads back as the MAC that wrote it. */
  lemma LogoutRoundTrip(mac: int)
    ensures Decode(Xml(LogoutElement(mac))) == LogoutFrame(mac)
  {
    ParseIntToString(mac);
    assert StartsWith("control", "control");
    assert !StartsWith("control", "Contact") by { assert "control"[0] != "Contact"[0]; }
  }
}
