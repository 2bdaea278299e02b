/** The WebSocket code at work: headers built in a buffer, bytes taken from a socket, the
    handshake's accept key. */
module WebSockets {
  import opened Octets
  import opened WebSocketFrames
  import Base64
  import Fips180
  import opened WebSocketSha1

  /** The first bytes of a frame, into the 14-byte header buffer. */
  method PutHeader(header: array<Byte>, len: nat, mask: bool) returns (hdrlen: nat)
    requires header.Length == 14 && len <= 0xFFFF
    modifies header
    ensures hdrlen <= 4 && header[..hdrlen] == [0x81] + LengthField(len, mask)
  {
    hide ByteOf, BigEndian, MaskBit;
    header[0] := 0x81;
    if len < 126 {
      header[1] := MaskBit(mask) | ByteOf(len);
      hdrlen := 2;
    } else {
      header[1] := MaskBit(mask) | 126;
      header[2] := ByteOf(len / 256);
      header[3] := ByteOf(len % 256);
      hdrlen := 4;
      TwoBytes(len);
    }
  }

  method MaskData(data: Bytes, key: Key) returns (masked: array<Byte>)
    ensures fresh(masked) && masked[..] == Masked(data, key)
  {
    masked := new Byte[|data|];
    for i := 0 to |data|
      invariant forall j :: 0 <= j < i ==> masked[j] == data[j] ^ key[j % 4]
    {
      masked[i] := data[i] ^ key[i % 4];
    }
  }

  /** `ws_send_frame`: the bytes that go on the wire.  The key is the four bytes drawn. */
  method SendFrame(data: Bytes, mask: bool, key: Key) returns (wire: Bytes)
    requires |data| <= 0xFFFF
    ensures wire == Frame(data, mask, key)
    ensures var h := if |data| < 126 then 2 else 4;
      && |wire| == h + (if mask then 4 else 0) + |data|
      && wire[0] == 0x81 && (wire[1] & 0x80 != 0) == mask && Announces(wire[1], wire[2..h], |data|)
      && (mask ==> wire[h..h + 4] == key
                   && forall i :: 0 <= i < |data| ==> wire[h + 4 + i] ^ wire[h + i % 4] == data[i])
      && (!mask ==> wire[h..] == data)
  {
    FrameBytes(data, mask, key);
    wire := WriteFrame(data, mask, key);
  }

  method WriteFrame(data: Bytes, mask: bool, key: Key) returns (wire: Bytes)
    requires |data| <= 0xFFFF
    ensures wire == Frame(data, mask, key)
  {
    hide LengthField, Masked;
    var header := new Byte[14];
    var hdrlen := PutHeader(header, |data|, mask);
    ghost var front := header[..hdrlen];
    if mask {
      header[hdrlen], header[hdrlen + 1], header[hdrlen + 2], header[hdrlen + 3] := key[0], key[1], key[2], key[3];
      hdrlen := hdrlen + 4;
      assert header[..hdrlen] == front + key;
    }
    wire := header[..hdrlen];
    if |data| > 0 {
      if mask {
        var masked := MaskData(data, key);
        wire := wire + masked[..];
      } else {
        wire := wire + data;
      }
    }
    ghost var body := if mask then Masked(data, key) else data;
    assert wire == front + (if mask then key + body else body);
  }

  lemma TwoBytes(n: nat)
    requires n <= 0xFFFF
    ensures BigEndian(n, 2) == [ByteOf(n / 256), ByteOf(n % 256)]
  {
    hide ByteOf;
    assert BigEndian(n / 256, 1) == [ByteOf(n / 256 % 256)];
  }

  class WebSocket {
    var input: Bytes
    var peerClosed: bool
    var open: bool
    var events: seq<Event>
    var sent: Bytes

    function State(): Socket
      reads this
    {
      Socket(input, peerClosed, open, events, sent)
    }

    /** `recv` on a non-blocking socket: -1 when nothing is there, 0 when nothing will come. */
    method Recv(cap: nat) returns (n: int, buf: Bytes)
      requires cap > 0
      modifies this`input
      ensures old(input) == [] ==> n == (if peerClosed then 0 else -1) && buf == [] && input == []
      ensures old(input) != [] ==>
        n == |buf| && n == (if cap < |old(input)| then cap else |old(input)|) && old(input) == buf + input
    {
      buf := [];
      if input == [] { return if peerClosed then 0 else -1, []; }
      n := if cap < |input| then cap else |input|;
      buf := input[..n];
      input := input[n..];
    }

    method FireClosed()
      modifies this`open, this`events
      ensures State() == Close(old(State()))
    {
      open := false;
      events := events + [Closed];
    }

    /** The loop over eight, or two, length bytes. */
    method ReadLength(ext: Bytes) returns (length: nat)
      ensures length == Value(ext)
    {
      length := 0;
      for i := 0 to |ext|
        invariant length == Value(ext[..i])
      {
        length := length * 256 + ValueOf(ext[i]);
        assert ext[..i + 1][..i] == ext[..i];
      }
      assert ext[..|ext|] == ext;
    }

    /** The header, when two bytes or more are there; what comes short is consumed and lost. */
    method RecvHeader() returns (h: Header)
      requires |input| >= 2
      modifies this`input
      ensures h == ReadHeader(old(input))
      ensures input == if h.Short? then [] else h.rest
    {
      hide ValueOf, Value, LengthBytes;
      ghost var all := input;
      var n, hdr := Recv(2);
      assert all[2..] == input && hdr == all[..2];
      var masked := hdr[1] & 0x80 != 0;
      var k := LengthBytes(hdr[1]);
      var payload_len := ValueOf(hdr[1] & 0x7F);
      if k > 0 {
        var m, ext := Recv(k);
        if m < k { return Short; }
        payload_len := ReadLength(ext);
        assert ext == all[2..2 + k] && input == all[2 + k..];
      }
      var mask: Key := [0, 0, 0, 0];
      if masked {
        ghost var rest := input;
        var m, drawn := Recv(4);
        if m < 4 { return Short; }
        mask := drawn;
        assert input == rest[4..] && mask == rest[..4];
      }
      h := Header(hdr[0] & 0x0F, masked, mask, payload_len, input);
    }

    /** The payload; false when the peer closed before it was complete. */
    method RecvPayload(length: nat) returns (payload: Bytes, ok: bool)
      requires |input| >= length || peerClosed
      modifies this`input
      ensures ok == (|old(input)| >= length)
      ensures ok ==> payload == old(input)[..length] && input == old(input)[length..]
      ensures !ok ==> input == []
    {
      ghost var all := input;
      payload := [];
      while |payload| < length
        invariant |payload| <= length && payload + input == all
      {
        var r, chunk := Recv(length - |payload|);
        if r <= 0 { return payload, false; }
        payload := payload + chunk;
      }
      assert all[..length] == payload && all[length..] == input;
      ok := true;
    }

    /** `ws_recv_frames`. */
    method RecvFrames()
      requires Arrived(State())
      modifies this
      ensures State() == Receive(old(State()))
    {
      hide ReadHeader, Masked, Deliver;
      if !open { return; }
      if |input| < 2 {
        var n, hdr := Recv(2);
        if n == 0 { FireClosed(); }
        return;
      }
      var h := RecvHeader();
      if h.Short? { return; }
      var payload := [];
      if 0 < h.length < LIMIT {
        var ok;
        payload, ok := RecvPayload(h.length);
        if !ok { FireClosed(); return; }
        if h.masked { payload := Unmask(payload, h.key); }
      }
      Handle(h.opcode, payload);
    }

    method Unmask(data: Bytes, mask: Key) returns (payload: Bytes)
      ensures payload == Masked(data, mask)
    {
      payload := data;
      for i := 0 to |data|
        invariant |payload| == |data|
        invariant forall j :: 0 <= j < |data| ==> payload[j] == if j < i then data[j] ^ mask[j % 4] else data[j]
      {
        payload := payload[i := payload[i] ^ mask[i % 4]];
      }
    }

    method Handle(opcode: Byte, payload: Bytes)
      requires open
      modifies this
      ensures State() == Deliver(old(State()), opcode, payload)
    {
      match opcode {
        case 1 => events := events + [Message(payload)];
        case 2 => events := events + [Message(payload)];
        case 8 => FireClosed();
        case 9 => sent := sent + [0x8A, 0x00];
        case _ =>
      }
    }
  }

  /** "258EAFA5-E914-47DA-95CA-C5AB0DC85B11" in ASCII. */
  const GUID: Bytes :=
    [0x32, 0x35, 0x38, 0x45, 0x41, 0x46, 0x41, 0x35]
    + [0x2D, 0x45, 0x39, 0x31, 0x34, 0x2D, 0x34, 0x37, 0x44, 0x41, 0x2D, 0x39, 0x35, 0x43, 0x41, 0x2D]
    + [0x43, 0x35, 0x41, 0x42, 0x30, 0x44, 0x43, 0x38, 0x35, 0x42, 0x31, 0x31]

  /** `compute_accept_key`: what RFC 6455 section 4.2.2 asks for. */
  method AcceptKey(key: Bytes) returns (accept: string)
    requires |key| < 0x8000_0000
    ensures accept == Base64.Encode(Fips180.Digest(Fips180.Sha1(key + GUID)))
    ensures |accept| == 28
  {
    hide Fips180.Sha1, Fips180.Digest, Base64.Encode;
    var sha := new WsSha1();
    sha.Update(key + GUID, []);
    assert [] + (key + GUID) == key + GUID;
    var digest := sha.Final(key + GUID);
    accept := Base64.EncodeBytes(digest[..]);
  }

  function Joined(chunks: seq<Bytes>): Bytes {
    if chunks == [] then [] else Joined(chunks[..|chunks| - 1]) + chunks[|chunks| - 1]
  }

  /** Fed in any chunks, the digest is that of the chunks joined. */
  method DigestChunks(chunks: seq<Bytes>) returns (digest: array<Byte>)
    requires |Joined(chunks)| < 0x2000_0000_0000_0000
    ensures digest[..] == Fips180.Digest(Fips180.Sha1(Joined(chunks)))
  {
    hide Fips180.Sha1, Fips180.Digest;
    var sha := new WsSha1();
    for i := 0 to |chunks|
      invariant sha.Fed(Joined(chunks[..i])) && fresh(sha) && fresh(sha.state) && fresh(sha.buffer)
    {
      sha.Update(chunks[i], Joined(chunks[..i]));
      assert chunks[..i + 1][..i] == chunks[..i];
    }
    assert chunks[..|chunks|] == chunks;
    digest := sha.Final(Joined(chunks));
  }
}
