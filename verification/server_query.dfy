/**
 * `MinecraftServerInfo`: the record of what a server reports, its MOTD as
 * HTML, and the legacy server-list ping that fills it. The client writes the
 * two bytes FE 01, reads one reply of at most 2048 bytes into a zeroed
 * buffer, checks that it starts with the kick byte FF, decodes bytes 3 up to
 * the number read as UTF-16BE, checks that the text starts with a section
 * sign and splits it on NUL; fields 3, 5, 4 and 2 are the MOTD, the maximum
 * and the current player count and the game version. Every failure after the
 * null check is caught and gives no record.
 */
module ServerQuery {
  import opened Wrappers
  import opened Utf16
  import opened TextSplit
  import opened FormatRegex
  import opened MotdFormat

  /** The size of the receive buffer. */
  const BufferSize: nat := 2048

  /** The request the client writes: the legacy server-list ping. */
  const PingRequest: seq<byte> := [0xFE, 0x01]

  /** The first byte of a valid reply. */
  const KickPacket: byte := 0xFF

  /** The character the reply's fields are separated by. */
  const Nul: char := '\0'

  /**
   * What a server reports. The fields are set once, by the constructor, and
   * never change.
   */
  datatype MinecraftServerInfo = MinecraftServerInfo(
    ServerMotd: string,
    MaxPlayerCount: string,
    CurrentPlayerCount: string,
    MinecraftVersion: string)
  {
    /**
     * The MOTD as HTML: the style codes are rewritten until none matches, then
     * the colour codes. An upper-case code fails the table lookup.
     */
    method MotdHtml() returns (r: Rendered)
      ensures r == FormatMotd(ServerMotd)
      ensures Section !in ServerMotd ==> r == Html(ServerMotd)
      ensures r.KeyNotFound? ==> r.code in UpperCodes && HasMarker(ServerMotd, {r.code})
      ensures '\n' !in ServerMotd ==> (r.KeyNotFound? <==> HasMarker(ServerMotd, UpperCodes))
      ensures '\n' !in ServerMotd && r.Html? ==>
        !HasMarker(r.text, StyleCodes) && !HasMarker(r.text, ColourCodes)
      ensures r.Html? ==> MarkerCount(r.text, ResetCodes) == MarkerCount(ServerMotd, ResetCodes)
    {
      UnknownMarkersKept(ServerMotd, ResetCodes);
      if Section !in ServerMotd {
        NoSectionUnchanged(ServerMotd);
      }
      if '\n' !in ServerMotd {
        UppercaseFails(ServerMotd);
        if FormatMotd(ServerMotd).Html? {
          FormattedHasNoCodes(ServerMotd);
        }
      }
      if FormatMotd(ServerMotd).KeyNotFound? {
        KeyNotFoundIsUppercase(ServerMotd, FormatMotd(ServerMotd).code);
      }

      var s := ServerMotd;
      while HasMatch(StylePattern, s)
        invariant RunPass(StylePattern, s) == RunPass(StylePattern, ServerMotd)
        decreases Sections(s)
      {
        assert s[0..] == s;
        match Replace(StylePattern, s) {
          case KeyNotFound(c) =>
            return KeyNotFound(c);
          case Html(t) =>
            s := t;
        }
      }
      ghost var styled := s;
      while HasMatch(ColourPattern, s)
        invariant RunPass(ColourPattern, s) == RunPass(ColourPattern, styled)
        decreases Sections(s)
      {
        assert s[0..] == s;
        match Replace(ColourPattern, s) {
          case KeyNotFound(c) =>
            return KeyNotFound(c);
          case Html(t) =>
            s := t;
        }
      }
      return Html(s);
    }
  }

  /** The server an endpoint names, and the port it listens on. */
  datatype Endpoint = Endpoint(address: seq<byte>, port: int)

  /**
   * How the server at an endpoint answers a request: it cannot be reached (the
   * connection, the write or the read fails), or the read delivers bytes.
   */
  datatype Reply = Unreachable | Replied(bytes: seq<byte>)

  /** The end of a call: an exception that leaves it, or the record it returns, null as `None`. */
  datatype Outcome =
    | ArgumentNullException
    | ArgumentOutOfRangeException
    | Returned(info: Option<MinecraftServerInfo>)

  /** The number of bytes one read into the buffer delivers. */
  function BytesRead(bytes: seq<byte>): (br: nat)
    ensures br <= BufferSize && br <= |bytes|
    ensures br == |bytes| || br == BufferSize
  {
    if |bytes| < BufferSize then |bytes| else BufferSize
  }

  /** The zeroed buffer after one read: the bytes read, then zeros. */
  function ReadBuffer(bytes: seq<byte>): (buff: seq<byte>)
    ensures |buff| == BufferSize
    ensures forall k :: 0 <= k < BytesRead(bytes) ==> buff[k] == bytes[k]
    ensures forall k :: BytesRead(bytes) <= k < BufferSize ==> buff[k] == 0
  {
    bytes[..BytesRead(bytes)] + seq(BufferSize - BytesRead(bytes), _ => 0)
  }

  /**
   * The fields of a reply text: at least six, none holding NUL, joined by NUL
   * they give the text, which starts with a section sign; and the record holds
   * fields 3, 5, 4 and 2.
   */
  ghost predicate IsRecord(fields: seq<string>, packet: string, info: MinecraftServerInfo)
  {
    && |fields| >= 6
    && (forall k :: 0 <= k < |fields| ==> Nul !in fields[k])
    && Join(fields, Nul) == packet
    && |packet| > 0 && packet[0] == Section
    && info == MinecraftServerInfo(fields[3], fields[5], fields[4], fields[2])
  }

  ghost predicate Describes(packet: string, info: MinecraftServerInfo)
  {
    exists fields :: IsRecord(fields, packet, info)
  }

  /**
   * The checks and the decoding that follow the read: `None` stands for every
   * exception the `catch` turns into null.
   */
  function ParseResponse(buff: seq<byte>, br: int): (r: Option<MinecraftServerInfo>)
    requires |buff| == BufferSize && br <= BufferSize
    ensures buff[0] != KickPacket ==> r.None?
    ensures br < 3 ==> r.None?
    ensures br >= 3 && (|Decode(buff[3..br])| == 0 || Decode(buff[3..br])[0] != Section) ==> r.None?
    ensures r.Some? ==> br >= 3 && Describes(Decode(buff[3..br]), r.value)
  {
    if buff[0] != KickPacket then None
    else if br < 3 then None
    else
      var packet := Decode(buff[3..br]);
      if |packet| == 0 || packet[0] != Section then None
      else
        var fields := Split(packet, Nul);
        if |fields| < 6 then None
        else
          JoinSplit(packet, Nul);
          assert IsRecord(fields, packet, MinecraftServerInfo(fields[3], fields[5], fields[4], fields[2]));
          Some(MinecraftServerInfo(fields[3], fields[5], fields[4], fields[2]))
  }

  /** A text that splits into fewer than six fields describes no record, so it gives none. */
  lemma RecordNeedsSixFields(packet: string, info: MinecraftServerInfo)
    ensures Describes(packet, info) ==> |Split(packet, Nul)| >= 6
  {
    if Describes(packet, info) {
      var fields :| IsRecord(fields, packet, info);
      SplitJoin(fields, Nul);
    }
  }

  /** Every text made of at least six NUL-free fields, the first starting with a section sign, is accepted. */
  lemma ParseResponseComplete(buff: seq<byte>, br: int, fields: seq<string>, info: MinecraftServerInfo)
    requires |buff| == BufferSize && 3 <= br <= BufferSize && buff[0] == KickPacket
    requires IsRecord(fields, Decode(buff[3..br]), info)
    ensures ParseResponse(buff, br) == Some(info)
  {
    SplitJoin(fields, Nul);
  }

  /**
   * `GetServerInformation(IPEndPoint)`: a null endpoint throws; otherwise the
   * ping is sent to the server the endpoint names, `server(endpoint)`, and
   * whatever goes wrong gives null.
   */
  function GetServerInformation(endpoint: Option<Endpoint>, server: Endpoint -> seq<byte> -> Reply): (r: Outcome)
    ensures endpoint.None? <==> r == ArgumentNullException
    ensures endpoint.Some? ==> r.Returned?
    ensures endpoint.Some? && server(endpoint.value)(PingRequest).Unreachable? ==> r == Returned(None)
    ensures endpoint.Some? && server(endpoint.value)(PingRequest).Replied? ==>
      var bytes := server(endpoint.value)(PingRequest).bytes;
      (bytes == [] || bytes[0] != KickPacket) ==> r == Returned(None)
  {
    if endpoint.None? then ArgumentNullException
    else
      match server(endpoint.value)(PingRequest)
      case Unreachable => Returned(None)
      case Replied(bytes) => Returned(ParseResponse(ReadBuffer(bytes), BytesRead(bytes)))
  }

  /**
   * `GetServerInformation(IPAddress, int)`: the endpoint constructor throws for
   * a null address and for a port outside 0 to 65535.
   */
  function GetServerInformationAt(ip: Option<seq<byte>>, port: int, server: Endpoint -> seq<byte> -> Reply): (r: Outcome)
    ensures ip.None? <==> r == ArgumentNullException
    ensures ip.Some? && (port < 0 || port > 65535) <==> r == ArgumentOutOfRangeException
    ensures ip.Some? && 0 <= port <= 65535 ==> r == GetServerInformation(Some(Endpoint(ip.value, port)), server)
  {
    if ip.None? then ArgumentNullException
    else if port < 0 || port > 65535 then ArgumentOutOfRangeException
    else GetServerInformation(Some(Endpoint(ip.value, port)), server)
  }

  /**
   * The reply a server writes: the kick byte, the length of the text in code
   * units as two bytes, and the text in UTF-16BE: a section sign and the
   * digit one, the protocol, the version, the MOTD, the current and the
   * maximum player count, separated by NUL.
   */
  function EncodeResponse(info: MinecraftServerInfo, protocol: string): (bytes: seq<byte>)
    ensures |bytes| >= 3 && bytes[0] == KickPacket
  {
    var text := Join(ResponseFields(info, protocol), Nul);
    var body := Encode(text);
    var units := |body| / 2;
    [KickPacket, (units / 256) % 256, units % 256] + body
  }

  function ResponseFields(info: MinecraftServerInfo, protocol: string): seq<string>
  {
    [[Section, '1'], protocol, info.MinecraftVersion, info.ServerMotd, info.CurrentPlayerCount, info.MaxPlayerCount]
  }

  /** A reply that fits the buffer and has no NUL inside a field is read back as the record it was made from. */
  lemma ProbeRoundTrip(endpoint: Endpoint, info: MinecraftServerInfo, protocol: string, server: Endpoint -> seq<byte> -> Reply)
    requires Nul !in protocol && Nul !in info.ServerMotd && Nul !in info.MaxPlayerCount
    requires Nul !in info.CurrentPlayerCount && Nul !in info.MinecraftVersion
    requires server(endpoint)(PingRequest) == Replied(EncodeResponse(info, protocol))
    requires |EncodeResponse(info, protocol)| <= BufferSize
    ensures GetServerInformation(Some(endpoint), server) == Returned(Some(info))
  {
    var fields := ResponseFields(info, protocol);
    var text := Join(fields, Nul);
    var bytes := EncodeResponse(info, protocol);
    var br := BytesRead(bytes);
    var buff := ReadBuffer(bytes);
    assert br == |bytes|;
    assert buff[3..br] == Encode(text);
    DecodeEncode(text);
    assert text[0] == Section;
    ParseResponseComplete(buff, br, fields, info);
  }
}
