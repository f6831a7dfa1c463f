/** The keep-or-truncate decision for one parsed frame. */
module Policy {
  import opened Bytes
  import opened Parse

  const TRUNCATE_PAYLOAD_BYTES: nat := 24

  const TLS_HANDSHAKE_BYTES: seq<byte> := [0x14, 0x15, 0x16, 0x18]
  const TLS_APPLICATION_DATA: byte := 0x17

  const TLS_PORTS: seq<u16> := [443, 853, 465, 993, 995, 8443, 5061]
  const QUIC_PORTS: seq<u16> := [443]
  const IPSEC_PORTS: seq<u16> := [500, 4500]
  const SSH_PORTS: seq<u16> := [22]
  const SSH_BANNER: seq<byte> := [0x53, 0x53, 0x48, 0x2d]

  datatype Action = Keep | Truncate

  /** The fragment field of a frame taken as IPv4 must lie inside the captured bytes. */
  predicate FlagsReadable(p: ParsedFrame) {
    p.isIpv6 || p.ipStart + 8 <= |p.frame|
  }

  function DecideAction(p: ParsedFrame): Action
    requires LengthReadable(p) && FlagsReadable(p)
  {
    if !p.isIpv6 && U16At(p.frame, p.ipStart + 6) % 0x4000 != 0 then Keep
    else
      match p.l4
      case None => Keep
      case Some(l4) =>
        if l4.proto == Tcp then DecideTcp(l4.sport, l4.dport, Payload(p))
        else DecideUdp(l4.sport, l4.dport, Payload(p))
  }

  function DecideTcp(sport: u16, dport: u16, payload: seq<byte>): Action {
    if |payload| <= TRUNCATE_PAYLOAD_BYTES then Keep
    else
      var b0 := payload[0];
      var isTlsPort := sport in TLS_PORTS || dport in TLS_PORTS;
      var isHandshake := b0 in TLS_HANDSHAKE_BYTES;
      if isTlsPort && !isHandshake then Truncate
      else if !isTlsPort && b0 == TLS_APPLICATION_DATA then Truncate
      else if (sport in SSH_PORTS || dport in SSH_PORTS) && !(SSH_BANNER <= payload) then Truncate
      else Keep
  }

  function DecideUdp(sport: u16, dport: u16, payload: seq<byte>): Action {
    if |payload| <= TRUNCATE_PAYLOAD_BYTES then Keep
    else if sport in QUIC_PORTS || dport in QUIC_PORTS || sport in IPSEC_PORTS || dport in IPSEC_PORTS then Truncate
    else Keep
  }

  /**
   A TLS handshake record is meant to survive whole, on any ports. It does exactly when neither
   port is 22: the SSH rule is still asked after the TLS rules have passed.
   */
  lemma HandshakeKeptExactly(sport: u16, dport: u16, payload: seq<byte>)
    requires |payload| > TRUNCATE_PAYLOAD_BYTES && payload[0] in TLS_HANDSHAKE_BYTES
    ensures DecideTcp(sport, dport, payload) == Keep <==> sport != 22 && dport != 22
  {
    assert SSH_BANNER[0] == 0x53;
  }

  /** A truncated payload is never truncated again, whatever its ports and bytes. */
  lemma ShortPayloadKept(p: ParsedFrame)
    requires LengthReadable(p) && FlagsReadable(p)
    requires p.l4.Some? ==> |p.frame| <= p.l4.value.payloadStart + TRUNCATE_PAYLOAD_BYTES
    ensures DecideAction(p) == Keep
  {
  }

  // ---------------------------------------------------------------- the documented tree

  /** TLS on its ports unless a handshake, TLS application data elsewhere, and SSH behind its banner. */
  ghost predicate EncryptedTcp(ports: set<u16>, payload: seq<byte>)
    requires payload != []
  {
    var tls := ports * {443, 465, 853, 993, 995, 5061, 8443} != {};
    || (tls && payload[0] !in {0x14, 0x15, 0x16, 0x18})
    || (!tls && payload[0] == 0x17)
    || (22 in ports && (|payload| < 4 || payload[..4] != [0x53, 0x53, 0x48, 0x2d]))
  }

  ghost predicate EncryptedUdp(ports: set<u16>) {
    ports * {443, 500, 4500} != {}
  }

  /** A TCP or UDP packet with more than 24 payload bytes whose ports or first bytes speak for encryption. */
  ghost predicate LooksEncrypted(p: ParsedFrame)
    requires LengthReadable(p)
  {
    && p.l4.Some?
    && |Payload(p)| > 24
    && var ports := {p.l4.value.sport, p.l4.value.dport};
       if p.l4.value.proto == Tcp then EncryptedTcp(ports, Payload(p)) else EncryptedUdp(ports)
  }

  /**
   The decision is the documented tree with one gap: Truncate exactly for packets that look encrypted, except
   IPv4 fragments. An IPv6 fragment is decided like any other packet. Which port is which never matters.
   */
  lemma DecisionTree(p: ParsedFrame)
    requires LengthReadable(p) && FlagsReadable(p)
    ensures DecideAction(p) == Truncate <==>
              (p.isIpv6 || U16At(p.frame, p.ipStart + 6) % 0x4000 == 0) && LooksEncrypted(p)
  {
    hide Payload;
    if p.l4.Some? && |Payload(p)| > 24 {
      var l4, payload := p.l4.value, Payload(p);
      Meets(l4.sport, l4.dport, {443, 465, 853, 993, 995, 5061, 8443});
      Meets(l4.sport, l4.dport, {443, 500, 4500});
      assert SSH_BANNER <= payload <==> payload[..4] == SSH_BANNER;
    }
  }

  lemma Meets(a: u16, b: u16, s: set<u16>)
    ensures {a, b} * s != {} <==> a in s || b in s
  {
    if a in s {
      assert a in {a, b} * s;
    } else if b in s {
      assert b in {a, b} * s;
    }
  }
}
