/** The packets of the SFTP protocol, version 3 (draft-ietf-secsh-filexfer-02),
    as sftp.cc packs and unpacks them. */
module SftpWire {
  import opened Bytes
  import opened BufferedFile

  const UINT32: nat := 0x1_0000_0000
  const UINT64: nat := 0x1_0000_0000_0000_0000

  // Packet types (section 3) and status codes (section 7)
  const SSH_FXP_OPEN := 3
  const SSH_FXP_CLOSE := 4
  const SSH_FXP_READ := 5
  const SSH_FXP_WRITE := 6
  const SSH_FXP_OPENDIR := 11
  const SSH_FXP_READDIR := 12
  const SSH_FXP_REMOVE := 13
  const SSH_FXP_MKDIR := 14
  const SSH_FXP_RMDIR := 15
  const SSH_FXP_STAT := 17
  const SSH_FXP_RENAME := 18
  const SSH_FXP_READLINK := 19
  const SSH_FXP_STATUS := 101
  const SSH_FXP_HANDLE := 102
  const SSH_FXP_DATA := 103
  const SSH_FXP_NAME := 104
  const SSH_FXP_ATTRS := 105
  const SSH_FXP_EXTENDED := 200
  const SSH_FX_OK := 0
  const SSH_FX_EOF := 1
  const SSH_FX_NO_SUCH_FILE := 2
  const SSH_FX_OP_UNSUPPORTED := 8
  // Open flags (section 6.3)
  const SSH_FXF_OVERWRITE: nat := 0x1A
  // Attribute flags (section 5)
  const SSH_FILEXFER_ATTR_PERMISSIONS: nat := 4
  const POSIX_RENAME: Bytes := "posix-rename@openssh.org"

  // Packing ----------------------------------------------------------------------

  function PackUint8(u: nat): Bytes
    requires u < 256
  {
    [ByteOf(u)]
  }

  function PackUint32(u: nat): (r: Bytes)
    requires u < UINT32
    ensures |r| == 4
  {
    BigEndian32(u)
  }

  function PackUint64(u: nat): (r: Bytes)
    requires u < UINT64
    ensures |r| == 8
  {
    BigEndian32(u / UINT32) + BigEndian32(u % UINT32)
  }

  function PackString(t: Bytes): (r: Bytes)
    ensures |r| == 4 + |t|
  {
    BigEndian32(|t| % UINT32) + t
  }

  // Unpacking: an index into the packet moves on; running past the end throws ------

  function Uint32At(s: Bytes, i: nat): Option<nat>
  {
    if i + 4 <= |s| then
      Some(s[i] as int * 0x100_0000 + s[i + 1] as int * 0x1_0000 + s[i + 2] as int * 0x100 + s[i + 3] as int)
    else None
  }

  function Uint64At(s: Bytes, i: nat): Option<nat>
  {
    match (Uint32At(s, i), Uint32At(s, i + 4))
    case (Some(high), Some(low)) => Some(high * UINT32 + low)
    case _ => None
  }

  /** A length and so many octets, with the index after them.  A string cut
      off by the end of the packet comes out short. */
  function StringAt(s: Bytes, i: nat): (r: Option<(Bytes, nat)>)
    ensures r.Some? ==> i + 4 <= |s| && i + 4 <= r.value.1
  {
    match Uint32At(s, i)
    case None => None
    case Some(len) =>
      var start := i + 4;
      Some((s[start..if start + len <= |s| then start + len else |s|], start + len))
  }

  lemma {:induction false} BigEndianBack(u: nat)
    requires u < UINT32
    ensures Uint32At(BigEndian32(u), 0) == Some(u)
  {
    var r := BigEndian32(u);
    assert u == u / 0x100_0000 * 0x100_0000 + u / 0x1_0000 % 256 * 0x1_0000 + u / 0x100 % 256 * 0x100 + u % 256;
  }

  lemma {:induction false} Uint32Within(a: Bytes, u: nat, b: Bytes)
    requires u < UINT32
    ensures Uint32At(a + PackUint32(u) + b, |a|) == Some(u)
  {
    hide BigEndian32;
    BigEndianBack(u);
    var s, r := a + PackUint32(u) + b, BigEndian32(u);
    assert s[|a|] == r[0] && s[|a| + 1] == r[1] && s[|a| + 2] == r[2] && s[|a| + 3] == r[3];
  }

  lemma {:induction false} Uint64Within(a: Bytes, u: nat, b: Bytes)
    requires u < UINT64
    ensures Uint64At(a + PackUint64(u) + b, |a|) == Some(u)
  {
    hide Uint32At, BigEndian32;
    var high, low := PackUint32(u / UINT32), PackUint32(u % UINT32);
    Uint32Within(a, u / UINT32, low + b);
    assert a + high + (low + b) == a + PackUint64(u) + b;
    Uint32Within(a + high, u % UINT32, b);
    assert (a + high) + low + b == a + PackUint64(u) + b;
  }

  lemma {:induction false} StringWithin(a: Bytes, t: Bytes, b: Bytes)
    requires |t| < UINT32
    ensures StringAt(a + PackString(t) + b, |a|) == Some((t, |a| + 4 + |t|))
  {
    hide Uint32At, BigEndian32;
    var s := a + PackString(t) + b;
    Uint32Within(a, |t|, t + b);
    assert s == a + PackUint32(|t|) + (t + b);
    assert s[|a| + 4..|a| + 4 + |t|] == t;
  }

  // Packets on the stream -----------------------------------------------------------

  function Frame(packet: Bytes): Bytes
    requires |packet| < UINT32
  {
    PackUint32(|packet|) + packet
  }

  /** The first packet of a stream and what follows it. */
  function FirstPacket(s: Bytes): (r: Option<(Bytes, Bytes)>)
    ensures r.Some? ==> |r.value.1| < |s|
  {
    match Uint32At(s, 0)
    case None => None
    case Some(len) => if 4 + len <= |s| then Some((s[4..4 + len], s[4 + len..])) else None
  }

  lemma {:induction false} FirstPacketOfFrame(packet: Bytes, rest: Bytes)
    requires |packet| < UINT32
    ensures FirstPacket(Frame(packet) + rest) == Some((packet, rest))
  {
    hide Uint32At, BigEndian32;
    var s := Frame(packet) + rest;
    Uint32Within([], |packet|, packet + rest);
    assert s == [] + PackUint32(|packet|) + (packet + rest);
    assert s[4..4 + |packet|] == packet && s[4 + |packet|..] == rest;
  }

  function Frames(packets: seq<Bytes>): Bytes
    requires forall p :: p in packets ==> |p| < UINT32
  {
    if packets == [] then [] else Frame(packets[0]) + Frames(packets[1..])
  }

  function Unframe(s: Bytes): Option<seq<Bytes>>
    decreases |s|
  {
    if s == [] then Some([])
    else
      match FirstPacket(s)
      case None => None
      case Some((packet, rest)) =>
        match Unframe(rest)
        case None => None
        case Some(packets) => Some([packet] + packets)
  }

  /** A stream of framed packets is read back as exactly those packets. */
  lemma {:induction false} UnframeInvertsFrames(packets: seq<Bytes>)
    requires forall p :: p in packets ==> |p| < UINT32
    ensures Unframe(Frames(packets)) == Some(packets)
  {
    hide FirstPacket, Frame;
    if packets == [] {
    } else {
      var rest := Frames(packets[1..]);
      FirstPacketOfFrame(packets[0], rest);
      UnframeInvertsFrames(packets[1..]);
      assert packets == [packets[0]] + packets[1..];
      assert |Frame(packets[0]) + rest| > 0 by { FramedNotEmpty(packets[0], rest); }
    }
  }

  lemma {:induction false} FramedNotEmpty(packet: Bytes, rest: Bytes)
    requires |packet| < UINT32
    ensures Frame(packet) + rest != []
  {
  }

  /** `recv`: one packet, however the stream is chopped up, or nothing (the
      program gives up) when the stream ends within a packet. */
  method Recv(f: File) returns (r: Option<Bytes>)
    requires f.Valid() && f.mode != Writing && f.Truthful()
    modifies f, f.buffer
    ensures f.Valid() && f.mode == Reading
    ensures match FirstPacket(old(f.Rest()))
            case None => r == None
            case Some((packet, rest)) => r == Some(packet) && f.Rest() == rest && (packet != [] ==> f.Truthful())
  {
    hide File.Rest, BigEndian32;
    ghost var all := f.Rest();
    var slen := f.GetBytes(4, true);
    LengthWord(all, slen);
    if |slen| != 4 {
      return None;
    }
    var len := Uint32At(slen, 0).value;
    var packet := f.GetBytes(len, true);
    assert packet == all[4..][..|packet|];
    DropTwice(all, 4, |packet|);
    if |packet| != len {
      return None;
    }
    r := Some(packet);
  }

  /** Receiving again and again: whatever packets were sent come out, each once
      and in order.  (An empty packet would be no packet of the protocol.) */
  method RecvAll(f: File, ghost packets: seq<Bytes>) returns (received: seq<Bytes>)
    requires f.Valid() && f.mode != Writing && f.Truthful()
    requires (forall p :: p in packets ==> 0 < |p| < UINT32) && f.Rest() == Frames(packets)
    modifies f, f.buffer
    ensures f.Valid() && received == packets
  {
    hide File.Rest, FirstPacket, Frame;
    received := [];
    ghost var n := 0;
    assert packets[0..] == packets;
    while true
      invariant f.Valid() && f.mode != Writing && f.Truthful()
      invariant n <= |packets| && received == packets[..n]
      invariant (forall p :: p in packets[n..] ==> 0 < |p| < UINT32) && f.Rest() == Frames(packets[n..])
      decreases |packets| - n
    {
      NextFrame(packets, n);
      var r := Recv(f);
      if r.None? {
        break;
      }
      assert packets[..n + 1] == packets[..n] + [packets[n]];
      received := received + [r.value];
      n := n + 1;
    }
    assert packets[..|packets|] == packets;
  }

  lemma {:induction false} NextFrame(packets: seq<Bytes>, n: nat)
    requires n <= |packets| && forall p :: p in packets[n..] ==> 0 < |p| < UINT32
    ensures n == |packets| ==> Frames(packets[n..]) == [] && FirstPacket(Frames(packets[n..])) == None
    ensures n < |packets| ==>
              && packets[n] in packets[n..] && (forall p :: p in packets[n + 1..] ==> p in packets[n..])
              && FirstPacket(Frames(packets[n..])) == Some((packets[n], Frames(packets[n + 1..])))
  {
    hide Frame;
    if n < |packets| {
      assert packets[n..][0] == packets[n] && packets[n..][1..] == packets[n + 1..];
      FirstPacketOfFrame(packets[n], Frames(packets[n + 1..]));
    }
  }

  lemma {:induction false} LengthWord(all: Bytes, slen: Bytes)
    requires slen <= all && |slen| == if 4 < |all| then 4 else |all|
    ensures |slen| == 4 ==> Uint32At(slen, 0) == Uint32At(all, 0) && Uint32At(slen, 0).Some?
    ensures |slen| != 4 ==> Uint32At(all, 0) == None
  {
  }

  // Replies -----------------------------------------------------------------------

  datatype Reply =
    | Status(code: nat, message: Bytes, lang: Bytes)
    | Handle(handle: Bytes)
    | Data(data: Bytes)
    | Names(names: Bytes)
    | Attrs(attrs: Bytes)
  {
    predicate Fits()
    {
      match this
      case Status(code, message, lang) => code < UINT32 && |message| < UINT32 && |lang| < UINT32
      case Handle(handle) => |handle| < UINT32
      case Data(data) => |data| < UINT32
      case Names(_) => true
      case Attrs(_) => true
    }

    function Type(): (t: nat)
      ensures t < 256
    {
      match this
      case Status(_, _, _) => SSH_FXP_STATUS
      case Handle(_) => SSH_FXP_HANDLE
      case Data(_) => SSH_FXP_DATA
      case Names(_) => SSH_FXP_NAME
      case Attrs(_) => SSH_FXP_ATTRS
    }

    function Body(): Bytes
      requires Fits()
    {
      match this
      case Status(code, message, lang) => PackUint32(code) + PackString(message) + PackString(lang)
      case Handle(handle) => PackString(handle)
      case Data(data) => PackString(data)
      case Names(names) => names
      case Attrs(attrs) => attrs
    }
  }

  /** A reply as the server sends it: type, request id, body. */
  function EncodeReply(id: nat, r: Reply): Bytes
    requires id < UINT32 && r.Fits()
  {
    PackUint8(r.Type()) + PackUint32(id) + r.Body()
  }

  /** What the client looks at: the type octet, the id at index 1, and at
      index 5 the string or the status code. */
  lemma {:induction false} ReplyFields(id: nat, r: Reply)
    requires id < UINT32 && r.Fits()
    ensures var s := EncodeReply(id, r);
            && |s| >= 5
            && s[0] as int == r.Type()
            && Uint32At(s, 1) == Some(id)
            && (r.Data? ==> StringAt(s, 5) == Some((r.data, 9 + |r.data|)))
            && (r.Handle? ==> StringAt(s, 5) == Some((r.handle, 9 + |r.handle|)))
            && (r.Status? ==> Uint32At(s, 5) == Some(r.code))
  {
    hide Uint32At, StringAt, BigEndian32;
    var s := EncodeReply(id, r);
    var head := PackUint8(r.Type());
    Uint32Within(head, id, r.Body());
    assert s[0] == head[0];
    match r
    case Data(data) => StringWithin(head + PackUint32(id), data, []); assert s + [] == s;
    case Handle(handle) => StringWithin(head + PackUint32(id), handle, []); assert s + [] == s;
    case Status(code, message, lang) =>
      Uint32Within(head + PackUint32(id), code, PackString(message) + PackString(lang));
      assert s == head + PackUint32(id) + PackUint32(code) + (PackString(message) + PackString(lang));
    case Names(_) =>
    case Attrs(_) =>
  }

  // Requests ------------------------------------------------------------------------

  datatype Request =
    | Open(name: Path, pflags: nat)
    | Rename(oldpath: Path, newpath: Path)
    | Close(handle: Bytes)
    | Read(handle: Bytes, offset: nat, len: nat)
    | Write(handle: Bytes, offset: nat, data: Bytes)
    | Stat(path: Path)
    | Remove(path: Path)
    | Rmdir(path: Path)
    | Mkdir(path: Path, mode: nat)
    | Opendir(path: Path)
    | Readdir(handle: Bytes)
    | Readlink(path: Path)
    | PosixRename(oldpath: Path, newpath: Path)
  {
    predicate Fits()
    {
      match this
      case Open(name, pflags) => |name| < UINT32 && pflags < UINT32
      case Rename(oldpath, newpath) => |oldpath| < UINT32 && |newpath| < UINT32
      case Close(handle) => |handle| < UINT32
      case Read(handle, offset, len) => |handle| < UINT32 && offset < UINT64 && len < UINT32
      case Write(handle, offset, data) => |handle| < UINT32 && offset < UINT64 && |data| < UINT32
      case Stat(path) => |path| < UINT32
      case Remove(path) => |path| < UINT32
      case Rmdir(path) => |path| < UINT32
      case Mkdir(path, mode) => |path| < UINT32 && mode < UINT32
      case Opendir(path) => |path| < UINT32
      case Readdir(handle) => |handle| < UINT32
      case Readlink(path) => |path| < UINT32
      case PosixRename(oldpath, newpath) => |oldpath| < UINT32 && |newpath| < UINT32
    }
  }

  function PackRequest(id: nat, q: Request): Bytes
    requires id < UINT32 && q.Fits()
  {
    match q
    case Open(name, pflags) =>
      PackUint8(SSH_FXP_OPEN) + PackUint32(id) + PackString(name) + PackUint32(pflags) + PackUint32(0)
    case Rename(oldpath, newpath) =>
      PackUint8(SSH_FXP_RENAME) + PackUint32(id) + PackString(oldpath) + PackString(newpath)
    case Close(handle) => PackUint8(SSH_FXP_CLOSE) + PackUint32(id) + PackString(handle)
    case Read(handle, offset, len) =>
      PackUint8(SSH_FXP_READ) + PackUint32(id) + PackString(handle) + PackUint64(offset) + PackUint32(len)
    case Write(handle, offset, data) =>
      PackUint8(SSH_FXP_WRITE) + PackUint32(id) + PackString(handle) + PackUint64(offset) + PackString(data)
    case Stat(path) => PackUint8(SSH_FXP_STAT) + PackUint32(id) + PackString(path)
    case Remove(path) => PackUint8(SSH_FXP_REMOVE) + PackUint32(id) + PackString(path)
    case Rmdir(path) => PackUint8(SSH_FXP_RMDIR) + PackUint32(id) + PackString(path)
    case Mkdir(path, mode) =>
      PackUint8(SSH_FXP_MKDIR) + PackUint32(id) + PackString(path) + PackUint32(SSH_FILEXFER_ATTR_PERMISSIONS)
      + PackUint32(mode)
    case Opendir(path) => PackUint8(SSH_FXP_OPENDIR) + PackUint32(id) + PackString(path)
    case Readdir(handle) => PackUint8(SSH_FXP_READDIR) + PackUint32(id) + PackString(handle)
    case Readlink(path) => PackUint8(SSH_FXP_READLINK) + PackUint32(id) + PackString(path)
    case PosixRename(oldpath, newpath) =>
      PackUint8(SSH_FXP_EXTENDED) + PackUint32(id) + PackString(POSIX_RENAME) + PackString(oldpath)
      + PackString(newpath)
  }

  /** How section 6 of the draft reads a request. */
  function UnpackRequest(s: Bytes): Option<(nat, Request)>
  {
    if s == [] then None
    else
      match (Uint32At(s, 1), StringAt(s, 5))
      case (Some(id), Some((text, i))) =>
        var kind := s[0] as int;
        if kind == SSH_FXP_OPEN then
          match Uint32At(s, i)
          case Some(pflags) => Some((id, Open(text, pflags)))
          case None => None
        else if kind == SSH_FXP_RENAME then
          match StringAt(s, i)
          case Some((newpath, _)) => Some((id, Rename(text, newpath)))
          case None => None
        else if kind == SSH_FXP_CLOSE then Some((id, Close(text)))
        else if kind == SSH_FXP_STAT then Some((id, Stat(text)))
        else if kind == SSH_FXP_REMOVE then Some((id, Remove(text)))
        else if kind == SSH_FXP_RMDIR then Some((id, Rmdir(text)))
        else if kind == SSH_FXP_OPENDIR then Some((id, Opendir(text)))
        else if kind == SSH_FXP_READDIR then Some((id, Readdir(text)))
        else if kind == SSH_FXP_READLINK then Some((id, Readlink(text)))
        else if kind == SSH_FXP_MKDIR then
          match (Uint32At(s, i), Uint32At(s, i + 4))
          case (Some(flags), Some(mode)) =>
            if flags == SSH_FILEXFER_ATTR_PERMISSIONS then Some((id, Mkdir(text, mode))) else None
          case _ => None
        else if kind == SSH_FXP_EXTENDED && text == POSIX_RENAME then
          match StringAt(s, i)
          case Some((oldpath, j)) =>
            (match StringAt(s, j)
             case Some((newpath, _)) => Some((id, PosixRename(oldpath, newpath)))
             case None => None)
          case None => None
        else if kind == SSH_FXP_READ then
          match (Uint64At(s, i), Uint32At(s, i + 8))
          case (Some(offset), Some(len)) => Some((id, Read(text, offset, len)))
          case _ => None
        else if kind == SSH_FXP_WRITE then
          match (Uint64At(s, i), StringAt(s, i + 8))
          case (Some(offset), Some((data, _))) => Some((id, Write(text, offset, data)))
          case _ => None
        else None
      case _ => None
  }

  lemma {:induction false} RequestHead(kind: nat, id: nat, text: Bytes, tail: Bytes)
    requires kind < 256 && id < UINT32 && |text| < UINT32
    ensures var s := PackUint8(kind) + PackUint32(id) + PackString(text) + tail;
            s[0] as int == kind && Uint32At(s, 1) == Some(id) && StringAt(s, 5) == Some((text, 9 + |text|))
  {
    hide Uint32At, StringAt, BigEndian32;
    var s := PackUint8(kind) + PackUint32(id) + PackString(text) + tail;
    Uint32Within(PackUint8(kind), id, PackString(text) + tail);
    assert s == PackUint8(kind) + PackUint32(id) + (PackString(text) + tail);
    StringWithin(PackUint8(kind) + PackUint32(id), text, tail);
  }

  /** The server reads in each packet the request and id that were meant. */
  lemma {:induction false} UnpackInvertsPack(id: nat, q: Request)
    requires id < UINT32 && q.Fits()
    ensures UnpackRequest(PackRequest(id, q)) == Some((id, q))
  {
    match q
    case Open(name, pflags) => UnpackOpen(id, q);
    case Rename(oldpath, newpath) => UnpackRename(id, q);
    case Read(handle, offset, len) => UnpackRead(id, q);
    case Write(handle, offset, data) => UnpackWrite(id, q);
    case Mkdir(path, mode) => UnpackMkdir(id, q);
    case PosixRename(oldpath, newpath) => UnpackPosixRename(id, q);
    case Close(handle) => UnpackText(id, q, SSH_FXP_CLOSE, handle);
    case Stat(path) => UnpackText(id, q, SSH_FXP_STAT, path);
    case Remove(path) => UnpackText(id, q, SSH_FXP_REMOVE, path);
    case Rmdir(path) => UnpackText(id, q, SSH_FXP_RMDIR, path);
    case Opendir(path) => UnpackText(id, q, SSH_FXP_OPENDIR, path);
    case Readdir(handle) => UnpackText(id, q, SSH_FXP_READDIR, handle);
    case Readlink(path) => UnpackText(id, q, SSH_FXP_READLINK, path);
  }

  /** A request of nothing but a path or a handle. */
  lemma {:induction false} UnpackText(id: nat, q: Request, kind: nat, text: Bytes)
    requires id < UINT32 && kind < 256 && |text| < UINT32 && q.Fits()
    requires PackRequest(id, q) == PackUint8(kind) + PackUint32(id) + PackString(text)
    requires (kind, q) in {(SSH_FXP_CLOSE, Close(text)), (SSH_FXP_STAT, Stat(text)), (SSH_FXP_REMOVE, Remove(text)),
                           (SSH_FXP_RMDIR, Rmdir(text)), (SSH_FXP_OPENDIR, Opendir(text)),
                           (SSH_FXP_READDIR, Readdir(text)), (SSH_FXP_READLINK, Readlink(text))}
    ensures UnpackRequest(PackRequest(id, q)) == Some((id, q))
  {
    hide Uint32At, StringAt, BigEndian32, PackRequest;
    var s := PackRequest(id, q);
    RequestHead(kind, id, text, []);
    assert s + [] == s;
  }

  lemma {:induction false} UnpackOpen(id: nat, q: Request)
    requires id < UINT32 && q.Fits() && q.Open?
    ensures UnpackRequest(PackRequest(id, q)) == Some((id, q))
    ensures var s := PackRequest(id, q);
            && StringAt(s, 5) == Some((q.name, 9 + |q.name|)) && Uint32At(s, 9 + |q.name|) == Some(q.pflags)
            && Uint32At(s, 13 + |q.name|) == Some(0)
  {
    hide Uint32At, StringAt, BigEndian32;
    var s := PackRequest(id, q);
    var head := PackUint8(SSH_FXP_OPEN) + PackUint32(id) + PackString(q.name);
    RequestHead(SSH_FXP_OPEN, id, q.name, PackUint32(q.pflags) + PackUint32(0));
    assert s == head + (PackUint32(q.pflags) + PackUint32(0));
    Uint32Within(head, q.pflags, PackUint32(0));
    Uint32Within(head + PackUint32(q.pflags), 0, []);
    assert s + [] == s;
  }

  lemma {:induction false} UnpackRename(id: nat, q: Request)
    requires id < UINT32 && q.Fits() && q.Rename?
    ensures UnpackRequest(PackRequest(id, q)) == Some((id, q))
    ensures var s := PackRequest(id, q);
            && StringAt(s, 5) == Some((q.oldpath, 9 + |q.oldpath|))
            && StringAt(s, 9 + |q.oldpath|) == Some((q.newpath, 13 + |q.oldpath| + |q.newpath|))
  {
    hide Uint32At, StringAt, BigEndian32;
    var s := PackRequest(id, q);
    var head := PackUint8(SSH_FXP_RENAME) + PackUint32(id) + PackString(q.oldpath);
    RequestHead(SSH_FXP_RENAME, id, q.oldpath, PackString(q.newpath));
    StringWithin(head, q.newpath, []);
    assert s + [] == s;
  }

  lemma {:induction false} UnpackRead(id: nat, q: Request)
    requires id < UINT32 && q.Fits() && q.Read?
    ensures UnpackRequest(PackRequest(id, q)) == Some((id, q))
    ensures var s := PackRequest(id, q);
            && StringAt(s, 5) == Some((q.handle, 9 + |q.handle|)) && Uint64At(s, 9 + |q.handle|) == Some(q.offset)
            && Uint32At(s, 17 + |q.handle|) == Some(q.len)
  {
    hide Uint32At, Uint64At, StringAt, BigEndian32;
    var s := PackRequest(id, q);
    var head := PackUint8(SSH_FXP_READ) + PackUint32(id) + PackString(q.handle);
    RequestHead(SSH_FXP_READ, id, q.handle, PackUint64(q.offset) + PackUint32(q.len));
    assert s == head + (PackUint64(q.offset) + PackUint32(q.len));
    Uint64Within(head, q.offset, PackUint32(q.len));
    Uint32Within(head + PackUint64(q.offset), q.len, []);
    assert s + [] == s;
  }

  lemma {:induction false} UnpackWrite(id: nat, q: Request)
    requires id < UINT32 && q.Fits() && q.Write?
    ensures UnpackRequest(PackRequest(id, q)) == Some((id, q))
    ensures var s := PackRequest(id, q);
            && StringAt(s, 5) == Some((q.handle, 9 + |q.handle|)) && Uint64At(s, 9 + |q.handle|) == Some(q.offset)
            && StringAt(s, 17 + |q.handle|) == Some((q.data, 21 + |q.handle| + |q.data|))
  {
    hide Uint32At, Uint64At, StringAt, BigEndian32;
    var s := PackRequest(id, q);
    var head := PackUint8(SSH_FXP_WRITE) + PackUint32(id) + PackString(q.handle);
    RequestHead(SSH_FXP_WRITE, id, q.handle, PackUint64(q.offset) + PackString(q.data));
    assert s == head + (PackUint64(q.offset) + PackString(q.data));
    Uint64Within(head, q.offset, PackString(q.data));
    StringWithin(head + PackUint64(q.offset), q.data, []);
    assert s + [] == s;
  }

  lemma {:induction false} UnpackMkdir(id: nat, q: Request)
    requires id < UINT32 && q.Fits() && q.Mkdir?
    ensures UnpackRequest(PackRequest(id, q)) == Some((id, q))
    ensures var s := PackRequest(id, q);
            && StringAt(s, 5) == Some((q.path, 9 + |q.path|)) && Uint32At(s, 9 + |q.path|) == Some(4)
            && Uint32At(s, 13 + |q.path|) == Some(q.mode)
  {
    hide Uint32At, StringAt, BigEndian32;
    var s := PackRequest(id, q);
    var flags, mode := PackUint32(SSH_FILEXFER_ATTR_PERMISSIONS), PackUint32(q.mode);
    var head := PackUint8(SSH_FXP_MKDIR) + PackUint32(id) + PackString(q.path);
    RequestHead(SSH_FXP_MKDIR, id, q.path, flags + mode);
    assert s == head + (flags + mode);
    Uint32Within(head, SSH_FILEXFER_ATTR_PERMISSIONS, mode);
    Uint32Within(head + flags, q.mode, []);
    assert s + [] == s;
  }

  lemma {:induction false} UnpackPosixRename(id: nat, q: Request)
    requires id < UINT32 && q.Fits() && q.PosixRename?
    ensures UnpackRequest(PackRequest(id, q)) == Some((id, q))
    ensures var s := PackRequest(id, q);
            && StringAt(s, 5) == Some(("posix-rename@openssh.org", 33))
            && StringAt(s, 33) == Some((q.oldpath, 37 + |q.oldpath|))
            && StringAt(s, 37 + |q.oldpath|) == Some((q.newpath, 41 + |q.oldpath| + |q.newpath|))
  {
    hide Uint32At, StringAt, BigEndian32;
    var s := PackRequest(id, q);
    var oldpath, newpath := PackString(q.oldpath), PackString(q.newpath);
    var head := PackUint8(SSH_FXP_EXTENDED) + PackUint32(id) + PackString(POSIX_RENAME);
    assert |POSIX_RENAME| == 24;
    RequestHead(SSH_FXP_EXTENDED, id, POSIX_RENAME, oldpath + newpath);
    assert s == head + (oldpath + newpath);
    StringWithin(head, q.oldpath, newpath);
    StringWithin(head + oldpath, q.newpath, []);
    assert s + [] == s;
  }

  // The numbers of the draft ---------------------------------------------------------------

  /** Section 3: the first octet of a request. */
  lemma {:induction false} RequestNumbers(id: nat, q: Request)
    requires id < UINT32 && q.Fits()
    ensures |PackRequest(id, q)| >= 9
    ensures PackRequest(id, q)[0] as int ==
            match q
            case Open(_, _) => 3
            case Close(_) => 4
            case Read(_, _, _) => 5
            case Write(_, _, _) => 6
            case Opendir(_) => 11
            case Readdir(_) => 12
            case Remove(_) => 13
            case Mkdir(_, _) => 14
            case Rmdir(_) => 15
            case Stat(_) => 17
            case Rename(_, _) => 18
            case Readlink(_) => 19
            case PosixRename(_, _) => 200
  {
    hide BigEndian32;
  }

  /** ... and of a reply; the status codes of section 7; writing, creating and
      truncating, which make up the flags of section 6.3. */
  lemma {:induction false} ReplyNumbers(id: nat, r: Reply)
    requires id < UINT32 && r.Fits()
    ensures EncodeReply(id, r)[0] as int ==
            match r
            case Status(_, _, _) => 101
            case Handle(_) => 102
            case Data(_) => 103
            case Names(_) => 104
            case Attrs(_) => 105
    ensures SSH_FX_OK == 0 && SSH_FX_EOF == 1 && SSH_FX_NO_SUCH_FILE == 2 && SSH_FX_OP_UNSUPPORTED == 8
    ensures SSH_FXF_OVERWRITE == 0x02 + 0x08 + 0x10
  {
    hide BigEndian32;
  }

  /** A request to read 4096 octets from the third on, octet by octet. */
  lemma {:induction false} ReadExample()
    ensures PackRequest(258, Read("h", 2, 4096)) ==
            [ByteOf(5)] + [ByteOf(0), ByteOf(0), ByteOf(1), ByteOf(2)]
            + ([ByteOf(0), ByteOf(0), ByteOf(0), ByteOf(1)] + ['h'])
            + (Zero(4) + [ByteOf(0), ByteOf(0), ByteOf(0), ByteOf(2)])
            + [ByteOf(0), ByteOf(0), ByteOf(16), ByteOf(0)]
  {
    hide BigEndian32;
    WordExamples();
  }

  lemma {:induction false} WordExamples()
    ensures BigEndian32(258) == [ByteOf(0), ByteOf(0), ByteOf(1), ByteOf(2)]
    ensures BigEndian32(4096) == [ByteOf(0), ByteOf(0), ByteOf(16), ByteOf(0)]
    ensures BigEndian32(1) == [ByteOf(0), ByteOf(0), ByteOf(0), ByteOf(1)]
    ensures BigEndian32(2) == [ByteOf(0), ByteOf(0), ByteOf(0), ByteOf(2)]
    ensures BigEndian32(0) == Zero(4)
  {
  }

  function Zero(n: nat): Bytes { seq(n, _ => '\0') }
}
