/** The synchronous CTRL client: GET and SET requests carried in IPA frames over
    a TCP connection.

    The connection is modelled as an abstract byte source and sink. What the peer
    will deliver is a script of receive events (data, an error, or silence for
    longer than any timeout); what it will accept is a script of write outcomes.
    An exhausted receive script is end-of-file, an exhausted write script accepts
    everything. All framing and matching rules are then stated over these scripts. */
module SimpleCtrl {
  import opened CText

  /** The outer protocol byte of an Osmocom IPA frame. */
  const IPAC_PROTO_OSMO: byte := 0xEE
  /** The extension byte that marks a CTRL message inside an Osmocom frame. */
  const IPAC_PROTO_EXT_CTRL: byte := 0x00
  /** sizeof(struct ipaccess_head): 16-bit length, then the protocol byte. */
  const HEADER_LEN: nat := 3
  /** msgb_alloc takes a 16-bit size: the announced length plus the header must
      stay below this, or the size wraps and the receive cannot go on. */
  const MSGB_SIZE_LIMIT: nat := 0x1_0000
  /** Room for the command text in msgb_alloc_headroom(512 + 8, 8): 520 bytes less 8 of headroom. */
  const CMD_ROOM: nat := 512
  /** ETIMEDOUT on Linux. */
  const ETIMEDOUT: int := 110

  /** A C string: no NUL inside. */
  type CString = s: string | NUL !in s

  // ---------------------------------------------------------------------------
  // Timeouts

  datatype Timeval = Timeval(sec: nat, usec: nat)

  /** timeval_from_msec: no timeout for 0 ms, otherwise the same span split into
      seconds and microseconds. */
  function TimevalFromMsec(ms: uint32): (r: Option<Timeval>)
    ensures r.None? <==> ms == 0
    ensures r.Some? ==> r.value.usec < 1000000 && r.value.sec * 1000000 + r.value.usec == ms as int * 1000
  {
    if ms == 0 then None
    else Some(Timeval(ms as int / 1000, (ms as int % 1000) * 1000))
  }

  /** Whether select() is given a timeout at all: without one it waits for ever. */
  predicate Timed(ms: uint32) {
    TimevalFromMsec(ms).Some?
  }

  // ---------------------------------------------------------------------------
  // The connection

  /** What the peer makes happen on the next read attempt. */
  datatype RxEvent =
    | Data(bytes: seq<byte>)   // these bytes arrive (none: the peer closed)
    | Fail                     // select() or read() fails
    | Stall                    // nothing arrives within the timeout

  /** What the peer makes happen on the next write attempt. */
  datatype TxEvent =
    | Accept(n: nat)           // at most n bytes are taken
    | WriteFail                // select() or write() fails
    | WriteStall               // the socket does not become writable within the timeout

  datatype ReadResult = Got(bytes: seq<byte>) | ReadError | TimedOut

  /** The state of the connection as far as the client can observe it: what is
      still to come, what the peer will accept, and every byte sent so far. */
  datatype Io = Io(rx: seq<RxEvent>, tx: seq<TxEvent>, sent: seq<byte>)

  function Cost(e: RxEvent): nat {
    match e
    case Data(b) => |b| + 1
    case _ => 1
  }

  /** A measure of what is still to come, used to show that reading ends. */
  function Weight(rx: seq<RxEvent>): nat {
    if |rx| == 0 then 0 else Cost(rx[0]) + Weight(rx[1..])
  }

  /** One read of at most `count` bytes: read_timeout() when `timed`, a plain
      blocking read() otherwise. A blocking read waits out silence; a read of zero
      bytes returns at once. */
  function ReadStream(rx: seq<RxEvent>, count: nat, timed: bool): (r: (ReadResult, seq<RxEvent>))
    ensures Weight(r.1) <= Weight(rx)
    ensures r.0.Got? ==> |r.0.bytes| <= count && Weight(r.1) + |r.0.bytes| <= Weight(rx)
    ensures !timed ==> !r.0.TimedOut?
  {
    if count == 0 || |rx| == 0 then (Got([]), rx)
    else match rx[0]
      case Fail => (ReadError, rx[1..])
      case Stall => if timed then (TimedOut, rx[1..]) else ReadStream(rx[1..], count, timed)
      case Data(b) =>
        if |b| <= count then (Got(b), rx[1..])
        else
          var rest := [Data(b[count..])] + rx[1..];
          assert rest[1..] == rx[1..];
          (Got(b[..count]), rest)
  }

  /** One write of `data`: write_timeout(). The result is the byte count taken or a
      negative error. */
  function WriteStream(tx: seq<TxEvent>, data: seq<byte>, timed: bool): (r: (int, seq<TxEvent>))
    ensures r.0 <= |data|
    ensures r.0 < 0 ==> r.0 == -1 || (timed && r.0 == -ETIMEDOUT)
  {
    if |tx| == 0 then (|data|, tx)
    else match tx[0]
      case Accept(n) => (if n < |data| then n else |data|, tx[1..])
      case WriteFail => (-1, tx[1..])
      case WriteStall => if timed then (-ETIMEDOUT, tx[1..]) else WriteStream(tx[1..], data, timed)
  }

  /** The socket of one CTRL connection. */
  class Socket {
    var io: Io
    var closed: bool

    constructor (io0: Io)
      ensures io == io0 && !closed
    {
      io, closed := io0, false;
    }

    method Read(count: nat, timed: bool) returns (r: ReadResult)
      modifies this
      ensures (r, io.rx) == ReadStream(old(io.rx), count, timed)
      ensures io.tx == old(io.tx) && io.sent == old(io.sent) && closed == old(closed)
    {
      var res := ReadStream(io.rx, count, timed);
      r := res.0;
      io := io.(rx := res.1);
    }

    method Write(data: seq<byte>, timed: bool) returns (rc: int)
      modifies this
      ensures (rc, io.tx) == WriteStream(old(io.tx), data, timed)
      ensures io.rx == old(io.rx) && closed == old(closed)
      ensures io.sent == old(io.sent) + data[..if rc < 0 then 0 else rc]
    {
      var res := WriteStream(io.tx, data, timed);
      rc := res.0;
      io := io.(tx := res.1, sent := io.sent + data[..if rc < 0 then 0 else rc]);
    }

    method Close()
      modifies this
      ensures closed && io == old(io)
    {
      closed := true;
    }
  }

  // ---------------------------------------------------------------------------
  // IPA framing

  /** A received IPA frame: its protocol byte and the payload its header announced. */
  datatype Frame = Frame(proto: byte, payload: seq<byte>)

  /** The 16-bit big-endian length field of an IPA header. */
  function BigEndian16(hi: byte, lo: byte): (n: nat)
    ensures n < 0x1_0000
  {
    hi as nat * 256 + lo as nat
  }

  /** A frame on the wire: header (length of what follows, protocol), then payload. */
  function EncodeFrame(proto: byte, payload: seq<byte>): (b: seq<byte>)
    requires |payload| < 0x1_0000
    ensures |b| == HEADER_LEN + |payload| && b[HEADER_LEN..] == payload && b[2] == proto
    ensures BigEndian16(b[0], b[1]) == |payload|
  {
    [(|payload| / 256) as byte, (|payload| % 256) as byte, proto] + payload
  }

  /** simple_ipa_receive: a timed read of the 3-byte header, then one plain read of
      the announced payload. A read error, a header shorter than 3 bytes or a
      payload shorter than announced is a failure. So is a length whose buffer
      size, with the header, does not fit msgb_alloc's 16-bit size, where the
      code aborts; nothing of the payload is read then. */
  function IpaReceiveSpec(rx: seq<RxEvent>, timed: bool): (r: (Option<Frame>, seq<RxEvent>))
    ensures Weight(r.1) <= Weight(rx)
    ensures r.0.Some? ==>
      |r.0.value.payload| + HEADER_LEN < MSGB_SIZE_LIMIT && Weight(r.1) + HEADER_LEN + |r.0.value.payload| <= Weight(rx)
  {
    var (hdr, rx1) := ReadStream(rx, HEADER_LEN, timed);
    if !hdr.Got? || |hdr.bytes| < HEADER_LEN then (None, rx1)
    else
      var len := BigEndian16(hdr.bytes[0], hdr.bytes[1]);
      if len + HEADER_LEN >= MSGB_SIZE_LIMIT then (None, rx1)
      else
        var (body, rx2) := ReadStream(rx1, len, false);
        if !body.Got? || |body.bytes| < len then (None, rx2)
        else (Some(Frame(hdr.bytes[2], body.bytes)), rx2)
  }

  /** Whether simple_ctrl_receive keeps a frame, and the CTRL text it then hands
      on: an Osmocom frame whose first payload byte is the CTRL extension, with
      that byte stripped. A frame too short to hold the extension byte is
      discarded (see AcceptedAsWritten for what the code does with it). */
  function CtrlPayload(f: Frame): (r: Option<seq<byte>>)
    ensures r.Some? <==> f.proto == IPAC_PROTO_OSMO && |f.payload| > 0 && f.payload[0] == IPAC_PROTO_EXT_CTRL
    ensures r.Some? ==> [IPAC_PROTO_EXT_CTRL] + r.value == f.payload
  {
    if f.proto == IPAC_PROTO_OSMO && |f.payload| > 0 && f.payload[0] == IPAC_PROTO_EXT_CTRL
    then Some(f.payload[1..])
    else None
  }

  /** The acceptance test exactly as simple_ctrl_receive writes it: the extension
      byte is read at offset 3 from the header whatever the frame's length, so for
      an empty payload it is whatever byte `beyond` lies past the received data. */
  predicate AcceptedAsWritten(f: Frame, beyond: byte) {
    var ext := if |f.payload| > 0 then f.payload[0] else beyond;
    f.proto == IPAC_PROTO_OSMO && ext == IPAC_PROTO_EXT_CTRL
  }

  /** The code as written accepts an empty Osmocom frame when the byte past it is
      zero, and then hands on a payload that starts past the end of the data. */
  lemma EmptyFrameAcceptedAsWritten()
    ensures AcceptedAsWritten(Frame(IPAC_PROTO_OSMO, []), 0)
    ensures CtrlPayload(Frame(IPAC_PROTO_OSMO, [])).None?
  {
  }

  /** For every frame with a payload, the corrected test and the written one agree,
      whatever lies beyond the frame. */
  lemma CtrlPayloadAgrees(f: Frame, beyond: byte)
    requires |f.payload| > 0
    ensures CtrlPayload(f).Some? <==> AcceptedAsWritten(f, beyond)
  {
  }

  /** simple_ctrl_receive: receive frames until one is a CTRL frame, discarding the
      others; fail as soon as a receive fails. */
  function ReceiveSpec(rx: seq<RxEvent>, timed: bool): (r: (Option<seq<byte>>, seq<RxEvent>))
    ensures Weight(r.1) <= Weight(rx)
    decreases Weight(rx)
  {
    var (f, rx1) := IpaReceiveSpec(rx, timed);
    if f.None? then (None, rx1)
    else match CtrlPayload(f.value)
      case Some(p) => (Some(p), rx1)
      case None => ReceiveSpec(rx1, timed)
  }

  /** The bytes simple_ctrl_send puts on the wire for a command: the Osmocom
      header, the CTRL extension byte, then the command text. */
  function Request(cmd: string): (b: seq<byte>)
    requires |cmd| < CMD_ROOM
    ensures |b| == HEADER_LEN + 1 + |cmd|
    ensures BigEndian16(b[0], b[1]) == 1 + |cmd| && b[2] == IPAC_PROTO_OSMO
    ensures b[3] == IPAC_PROTO_EXT_CTRL && b[4..] == Bytes(cmd)
  {
    var b := EncodeFrame(IPAC_PROTO_OSMO, [IPAC_PROTO_EXT_CTRL] + Bytes(cmd));
    assert b[4..] == b[HEADER_LEN..][1..];
    b
  }

  /** simple_ctrl_send: write the whole request in one write_timeout(); a write
      error is passed on, a short write is -1, a complete write is 0. */
  function SendSpec(io: Io, timed: bool, cmd: string): (r: (int, Io))
    requires |cmd| < CMD_ROOM
    ensures r.1.rx == io.rx
    ensures r.0 == 0 <==> r.1.sent == io.sent + Request(cmd)
    ensures r.0 <= 0
  {
    var frame := Request(cmd);
    var (rc, tx') := WriteStream(io.tx, frame, timed);
    var io' := io.(tx := tx', sent := io.sent + frame[..if rc < 0 then 0 else rc]);
    if rc < 0 then (rc, io')
    else if rc < |frame| then
      assert |io'.sent| < |io.sent + frame|;
      (-1, io')
    else (0, io')
  }

  // ---------------------------------------------------------------------------
  // The reply scanner: sscanf(text, "<KEYWORD> %u %ms %ms", ...) == 3

  predicate NotSpace(c: char) {
    !IsSpace(c)
  }

  /** One word as %ms produces it and as a request or reply carries it: non-empty,
      no white space, no NUL, and every character a byte. */
  predicate Word(s: string) {
    |s| > 0 && forall c :: c in s ==> !IsSpace(c) && c != NUL && c as int < 0x100
  }

  /** The value %u stores: strtoul's 64-bit result (negated for a '-', ULONG_MAX
      on overflow) truncated to the 32 bits of an unsigned int. */
  function ScannedU32(negative: bool, n: nat): (v: uint32)
    ensures !negative && n < 0x1_0000_0000 ==> v as nat == n
  {
    var ulong := 0x1_0000_0000_0000_0000;
    var v64 := if n >= ulong then ulong - 1 else if negative then (ulong - n) % ulong else n;
    (v64 % 0x1_0000_0000) as uint32
  }

  /** Every character of a suffix occurs in the whole. */
  lemma InSuffix(s: string, k: nat)
    requires k <= |s|
    ensures forall c :: c in s[k..] ==> c in s
  {
    forall c | c in s[k..] ensures c in s {
      var j :| 0 <= j < |s| - k && s[k..][j] == c;
      assert s[k + j] == c;
    }
  }

  /** %u: skip white space, an optional sign, then at least one digit. */
  function ScanU32(s: string): (r: Option<(uint32, string)>)
    ensures r.Some? ==> |r.value.1| < |s|
  {
    var t := SkipSpace(s);
    var negative := |t| > 0 && t[0] == '-';
    var u := if |t| > 0 && (t[0] == '-' || t[0] == '+') then t[1..] else t;
    var digits := TakeWhile(u, IsDigit);
    if |digits| == 0 then None
    else Some((ScannedU32(negative, DigitsValue(digits)), u[|digits|..]))
  }

  /** %ms: skip white space, then take at least one non-space character. */
  function ScanWord(s: string): (r: Option<(string, string)>)
    ensures r.Some? ==> |r.value.0| > 0 && |r.value.1| + |r.value.0| <= |s|
  {
    var t := SkipSpace(s);
    var w := TakeWhile(t, NotSpace);
    if |w| == 0 then None
    else Some((w, t[|w|..]))
  }

  /** What %u leaves unread is made of characters of its input. */
  lemma ScanU32Chars(s: string)
    requires ScanU32(s).Some?
    ensures forall c :: c in ScanU32(s).value.1 ==> c in s
  {
    var t := SkipSpace(s);
    SkipSpaceSuffix(s);
    var u := if |t| > 0 && (t[0] == '-' || t[0] == '+') then t[1..] else t;
    var rest := ScanU32(s).value.1;
    assert rest == u[|TakeWhile(u, IsDigit)|..];
    assert rest == s[|s| - |rest|..];
    InSuffix(s, |s| - |rest|);
  }

  /** The word %ms takes holds no white space, and it and what is left unread are
      made of characters of the input. */
  lemma ScanWordChars(s: string)
    requires ScanWord(s).Some?
    ensures forall c :: c in ScanWord(s).value.0 ==> c in s && !IsSpace(c)
    ensures forall c :: c in ScanWord(s).value.1 ==> c in s
  {
    var t := SkipSpace(s);
    SkipSpaceSuffix(s);
    var w := TakeWhile(t, NotSpace);
    var rest := t[|w|..];
    assert ScanWord(s) == Some((w, rest));
    assert rest == s[|s| - |rest|..];
    InSuffix(s, |s| - |rest|);
    assert w == s[|s| - |t|..][..|w|];
    forall c | c in w ensures c in s && !IsSpace(c) {
      var j :| 0 <= j < |w| && w[j] == c;
      assert s[|s| - |t| + j] == c;
    }
  }

  datatype Reply = Reply(id: uint32, name: string, value: string)

  /** All three conversions of "<keyword> %u %ms %ms" succeed: the keyword must
      match literally, each blank in the format skips any white space, and what
      follows the third word is ignored. */
  function ScanReply(keyword: string, text: string): (r: Option<Reply>)
  {
    if |text| < |keyword| || text[..|keyword|] != keyword then None
    else ScanFields(text[|keyword|..])
  }

  /** A conversion of a scanf format: %u or %ms. */
  datatype Conv = ConvU32 | ConvStr

  /** What a conversion stores. */
  datatype Field = FNum(n: uint32) | FStr(s: string)

  /** One conversion, and what it leaves unread. */
  function ScanConv(c: Conv, s: string): (r: Option<(Field, string)>)
    ensures r.Some? ==> |r.value.1| < |s|
  {
    match c
    case ConvU32 => (match ScanU32(s) case None => None case Some(p) => Some((FNum(p.0), p.1)))
    case ConvStr => (match ScanWord(s) case None => None case Some(p) => Some((FStr(p.0), p.1)))
  }

  /** The conversions of a scanf format, in order. */
  datatype Convs = Done | Then(conv: Conv, next: Convs)

  /** The number of conversions, which sscanf's result counts. */
  function Arity(convs: Convs): nat {
    match convs
    case Done => 0
    case Then(_, next) => 1 + Arity(next)
  }

  /** The conversions of a format in turn, each after a blank that, like the
      conversions themselves, skips any white space. None as soon as one fails:
      sscanf's count of conversions then falls short. */
  function ScanConvs(convs: Convs, s: string): (r: Option<seq<Field>>)
    ensures r.Some? ==> |r.value| == Arity(convs)
    decreases |s|
  {
    match convs
    case Done => Some([])
    case Then(c, next) =>
      match ScanConv(c, s)
      case None => None
      case Some(p) =>
        match ScanConvs(next, p.1)
        case None => None
        case Some(fs) => Some([p.0] + fs)
  }

  /** The conversions of a reply: " %u %ms %ms". */
  const REPLY_CONVS: Convs := Then(ConvU32, Then(ConvStr, Then(ConvStr, Done)))

  /** The id, the variable and the value a reply's conversions store. */
  function ScanFields(t: string): (r: Option<Reply>)
  {
    match ScanConvs(REPLY_CONVS, t)
    case None => None
    case Some(fs) =>
      if fs[0].FNum? && fs[1].FStr? && fs[2].FStr? then Some(Reply(fs[0].n, fs[1].s, fs[2].s)) else None
  }

  /** The reply text read as a C string that ends with the CTRL payload at the
      latest: the reading the request functions use. */
  function ReplyText(p: seq<byte>): (s: string)
    ensures |s| <= |p| && s == Text(p)[..|s|]
    ensures forall c :: c in s ==> c != NUL && c as int < 0x100
  {
    var s := CStr(Text(p));
    assert forall i :: 0 <= i < |s| ==> s[i] == Text(p)[i];
    s
  }

  /** The reply text exactly as sscanf reads it in simple_ctrl_get and
      simple_ctrl_set. The received payload carries no terminating NUL, so the
      text runs on into `beyond`, the bytes that follow the data in memory, up to
      the first NUL there. It agrees with ReplyText when the payload holds a NUL
      or a NUL follows it. */
  function ReplyTextAsWritten(p: seq<byte>, beyond: seq<byte>): (s: string)
    ensures ReplyText(p) <= s
    ensures NUL in Text(p) || |beyond| == 0 || beyond[0] == 0 ==> s == ReplyText(p)
  {
    assert Text(p + beyond) == Text(p) + Text(beyond);
    CStrAppend(Text(p), Text(beyond));
    CStr(Text(p + beyond))
  }

  /** The line a CTRL server answers a request with. */
  function ReplyLine(keyword: string, id: uint32, name: string, value: string): string {
    keyword + " " + Decimal(id as nat) + " " + name + " " + value
  }

  // ---------------------------------------------------------------------------
  // The requests

  /** The id just sent: next_id - 1 in 32-bit arithmetic after next_id++. */
  function Inc(id: uint32): (r: uint32)
    ensures r as int == (id as int + 1) % 0x1_0000_0000
  {
    if id == 0xFFFF_FFFF then 0 else id + 1
  }

  function GetCmd(id: uint32, name: string): string {
    "GET " + Decimal(id as nat) + " " + name
  }

  function SetCmd(id: uint32, name: string, value: string): string {
    "SET " + Decimal(id as nat) + " " + name + " " + value
  }

  /** The GET reply check on the reply text: the value is handed back only for a
      GET_REPLY that echoes the id sent and the variable asked for. */
  function MatchGet(text: string, id: uint32, name: string): (r: Option<string>)
    ensures r.Some? <==> (var rep := ScanReply("GET_REPLY", text);
      rep.Some? && rep.value.id == id && rep.value.name == name)
    ensures r.Some? ==> r == Some(ScanReply("GET_REPLY", text).value.value)
  {
    match ScanReply("GET_REPLY", text)
    case Some(rep) => if rep.id == id && rep.name == name then Some(rep.value) else None
    case None => None
  }

  /** The SET reply check on the reply text: success only for a SET_REPLY that
      echoes the id sent, the variable and the value. */
  predicate MatchSet(text: string, id: uint32, name: string, value: string) {
    var rep := ScanReply("SET_REPLY", text);
    rep.Some? && rep.value.id == id && rep.value.name == name && rep.value.value == value
  }

  /** simple_ctrl_get with the handle's id `id`: format the request (failing when it
      does not fit the message buffer), send it, receive the next CTRL frame and
      check the reply. */
  function GetSpec(io: Io, timed: bool, id: uint32, name: string): (r: (Option<string>, Io))
    ensures |GetCmd(id, name)| >= CMD_ROOM ==> r == (None, io)
    ensures r.0.Some? ==>
      |GetCmd(id, name)| < CMD_ROOM && r.1.sent == io.sent + Request(GetCmd(id, name)) && Word(r.0.value)
  {
    var cmd := GetCmd(id, name);
    if |cmd| >= CMD_ROOM then (None, io)
    else
      var (rc, io1) := SendSpec(io, timed, cmd);
      if rc < 0 then (None, io1)
      else
        var (p, rx2) := ReceiveSpec(io1.rx, timed);
        var io2 := io1.(rx := rx2);
        if p.None? then (None, io2)
        else
          var r := MatchGet(ReplyText(p.value), id, name);
          if r.Some? then
            WordOfReply("GET_REPLY", ReplyText(p.value));
            (r, io2)
          else (r, io2)
  }

  /** simple_ctrl_set with the handle's id `id`: 0 on a matching SET_REPLY, -1 on
      anything else. */
  function SetSpec(io: Io, timed: bool, id: uint32, name: string, value: string): (r: (int, Io))
    ensures r.0 == 0 || r.0 == -1
    ensures |SetCmd(id, name, value)| >= CMD_ROOM ==> r == (-1, io)
    ensures r.0 == 0 ==>
      |SetCmd(id, name, value)| < CMD_ROOM && r.1.sent == io.sent + Request(SetCmd(id, name, value))
  {
    var cmd := SetCmd(id, name, value);
    if |cmd| >= CMD_ROOM then (-1, io)
    else
      var (rc, io1) := SendSpec(io, timed, cmd);
      if rc < 0 then (-1, io1)
      else
        var (p, rx2) := ReceiveSpec(io1.rx, timed);
        var io2 := io1.(rx := rx2);
        if p.Some? && MatchSet(ReplyText(p.value), id, name, value) then (0, io2) else (-1, io2)
  }

  /** Every word the scanner returns is free of NUL, given a NUL-free text. */
  lemma WordOfReply(keyword: string, text: string)
    requires ScanReply(keyword, text).Some?
    requires forall c :: c in text ==> c != NUL && c as int < 0x100
    ensures Word(ScanReply(keyword, text).value.value)
  {
    var t0 := text[|keyword|..];
    assert ScanReply(keyword, text) == ScanFields(t0);
    InSuffix(text, |keyword|);
    WordOfFields(t0);
  }

  lemma WordOfFields(t0: string)
    requires ScanFields(t0).Some?
    requires forall c :: c in t0 ==> c != NUL && c as int < 0x100
    ensures Word(ScanFields(t0).value.value)
  {
    ConvsWords(REPLY_CONVS, t0);
  }

  /** Every word the conversions store is non-empty, free of white space and made
      of characters of the text. */
  lemma {:induction false} ConvsWords(convs: Convs, s: string)
    requires ScanConvs(convs, s).Some?
    ensures forall i :: 0 <= i < |ScanConvs(convs, s).value| && ScanConvs(convs, s).value[i].FStr? ==>
      |ScanConvs(convs, s).value[i].s| > 0 &&
      forall x :: x in ScanConvs(convs, s).value[i].s ==> x in s && !IsSpace(x)
    decreases |s|
  {
    if convs.Then? {
      var p := ScanConv(convs.conv, s).value;
      ConvChars(convs.conv, s);
      var fs := ScanConvs(convs.next, p.1).value;
      ConvsWords(convs.next, p.1);
      assert ScanConvs(convs, s).value == [p.0] + fs;
    }
  }

  /** What a conversion stores and what it leaves unread come from its input. */
  lemma ConvChars(c: Conv, s: string)
    requires ScanConv(c, s).Some?
    ensures forall x :: x in ScanConv(c, s).value.1 ==> x in s
    ensures ScanConv(c, s).value.0.FStr? ==>
      |ScanConv(c, s).value.0.s| > 0 && forall x :: x in ScanConv(c, s).value.0.s ==> x in s && !IsSpace(x)
  {
    if c == ConvU32 {
      ScanU32Chars(s);
    } else {
      ScanWordChars(s);
    }
  }

  // ---------------------------------------------------------------------------
  // Properties of the framing and of the request/reply matching

  /** A frame that arrives whole is received as sent, and nothing more is consumed. */
  lemma IpaRoundTrip(proto: byte, payload: seq<byte>, rest: seq<RxEvent>, timed: bool)
    requires |payload| + HEADER_LEN < MSGB_SIZE_LIMIT
    ensures IpaReceiveSpec([Data(EncodeFrame(proto, payload))] + rest, timed) == (Some(Frame(proto, payload)), rest)
  {
    var b := EncodeFrame(proto, payload);
    var rx := [Data(b)] + rest;
    assert rx[1..] == rest;
    var (hdr, rx1) := ReadStream(rx, HEADER_LEN, timed);
    if |payload| == 0 {
      assert b[..HEADER_LEN] == b;
      assert rx1 == rest;
    } else {
      assert hdr == Got(b[..HEADER_LEN]);
      assert rx1 == [Data(payload)] + rest;
      assert rx1[1..] == rest;
    }
  }

  /** A header announcing more than msgb_alloc's 16-bit size can hold ends the
      receive with a failure once the header is read. */
  lemma ReceiveOversized(hi: byte, lo: byte, proto: byte, rest: seq<RxEvent>, timed: bool)
    requires BigEndian16(hi, lo) + HEADER_LEN >= MSGB_SIZE_LIMIT
    ensures IpaReceiveSpec([Data([hi, lo, proto])] + rest, timed) == (None, rest)
    ensures ReceiveSpec([Data([hi, lo, proto])] + rest, timed) == (None, rest)
  {
    assert ([Data([hi, lo, proto])] + rest)[1..] == rest;
  }

  /** A frame that is not a CTRL frame is skipped and the receive goes on. */
  lemma ReceiveSkips(proto: byte, payload: seq<byte>, rest: seq<RxEvent>, timed: bool)
    requires |payload| + HEADER_LEN < MSGB_SIZE_LIMIT && CtrlPayload(Frame(proto, payload)).None?
    ensures ReceiveSpec([Data(EncodeFrame(proto, payload))] + rest, timed) == ReceiveSpec(rest, timed)
  {
    IpaRoundTrip(proto, payload, rest, timed);
  }

  /** The first CTRL frame ends the receive, with the extension byte stripped. */
  lemma ReceiveTakes(text: seq<byte>, rest: seq<RxEvent>, timed: bool)
    requires |text| + 1 + HEADER_LEN < MSGB_SIZE_LIMIT
    ensures ReceiveSpec([Data(EncodeFrame(IPAC_PROTO_OSMO, [IPAC_PROTO_EXT_CTRL] + text))] + rest, timed) == (Some(text), rest)
  {
    IpaRoundTrip(IPAC_PROTO_OSMO, [IPAC_PROTO_EXT_CTRL] + text, rest, timed);
    assert ([IPAC_PROTO_EXT_CTRL] + text)[1..] == text;
  }

  /** A read error, a header cut short or a payload cut short ends the receive
      with a failure. */
  lemma ReceiveFails(rx: seq<RxEvent>, timed: bool)
    requires |rx| > 0
    requires rx[0] == Fail ||
      (rx[0].Data? && 0 < |rx[0].bytes| < HEADER_LEN) ||
      (rx[0].Data? && |rx[0].bytes| > HEADER_LEN &&
       |rx[0].bytes| < HEADER_LEN + BigEndian16(rx[0].bytes[0], rx[0].bytes[1]) &&
       (|rx| == 1 || rx[1] == Fail))
    ensures ReceiveSpec(rx, timed).0.None?
  {
    if rx[0].Data? && |rx[0].bytes| > HEADER_LEN {
      var b := rx[0].bytes;
      var (hdr, rx1) := ReadStream(rx, HEADER_LEN, timed);
      assert hdr == Got(b[..HEADER_LEN]);
      assert rx1 == [Data(b[HEADER_LEN..])] + rx[1..];
      assert rx1[1..] == rx[1..];
    }
  }

  /** With a timeout, silence ends the receive with a failure; without one, the
      receive waits it out. */
  lemma ReceiveStall(rest: seq<RxEvent>, timed: bool)
    ensures timed ==> ReceiveSpec([Stall] + rest, timed) == (None, rest)
    ensures !timed ==> ReceiveSpec([Stall] + rest, timed) == ReceiveSpec(rest, timed)
  {
    assert ([Stall] + rest)[1..] == rest;
    if !timed {
      assert IpaReceiveSpec([Stall] + rest, timed) == IpaReceiveSpec(rest, timed);
    }
  }

  /** %u reads back a number printed with %u. */
  lemma ScanU32Decimal(n: uint32, rest: string)
    requires |rest| == 0 || !IsDigit(rest[0])
    ensures ScanU32(" " + Decimal(n as nat) + rest) == Some((n, rest))
  {
    var d := Decimal(n as nat);
    var u := d + rest;
    assert (" " + d + rest) == " " + u;
    assert u[0] == d[0] && IsDigit(u[0]);
    SkipOneSpace(u);
    TakeWhileRun(d, rest, IsDigit);
    DecimalRoundTrip(n as nat);
    assert u[|d|..] == rest;
    assert ScannedU32(false, DigitsValue(d)) == n;
    var t := SkipSpace(" " + d + rest);
    assert t == u;
    assert t[0] != '-' && t[0] != '+';
    assert ScanU32(" " + d + rest) == Some((ScannedU32(false, DigitsValue(d)), u[|d|..]));
  }

  /** %ms reads back a word preceded by a blank. */
  lemma ScanWordBack(w: string, rest: string)
    requires Word(w) && (|rest| == 0 || IsSpace(rest[0]))
    ensures ScanWord(" " + w + rest) == Some((w, rest))
  {
    assert w[0] in w;
    assert (" " + w + rest) == " " + (w + rest);
    SkipOneSpace(w + rest);
    forall i | 0 <= i < |w| ensures NotSpace(w[i]) {
      assert w[i] in w;
    }
    TakeWhileRun(w, rest, NotSpace);
    assert (w + rest)[|w|..] == rest;
  }

  /** The scanner reads back every reply line a server formats. */
  lemma ScanReplyLine(keyword: string, id: uint32, name: string, value: string)
    requires Word(name) && Word(value)
    ensures ScanReply(keyword, ReplyLine(keyword, id, name, value)) == Some(Reply(id, name, value))
  {
    ScanReplyLineThen(keyword, id, name, value, "");
    assert ReplyLine(keyword, id, name, value) + "" == ReplyLine(keyword, id, name, value);
  }

  /** The scanner reads back a reply line followed by anything that starts with
      white space: what follows the third word is ignored. */
  lemma ScanReplyLineThen(keyword: string, id: uint32, name: string, value: string, rest: string)
    requires Word(name) && Word(value) && (|rest| == 0 || IsSpace(rest[0]))
    ensures ScanReply(keyword, ReplyLine(keyword, id, name, value) + rest) == Some(Reply(id, name, value))
  {
    var d := Decimal(id as nat);
    var text := ReplyLine(keyword, id, name, value) + rest;
    var t2 := " " + value + rest;
    var t1 := " " + name + t2;
    var t0 := " " + d + t1;
    Regroup(keyword, " ", d, " ", name, " ", value, rest);
    assert text == keyword + t0;
    assert text[..|keyword|] == keyword && text[|keyword|..] == t0;
    ScanU32Decimal(id, t1);
    ScanWordBack(name, t2);
    ScanWordBack(value, rest);
    ScanReplySteps(keyword, t0, id, t1, name, t2, value, rest);
  }

  /** ScanFields composed from its three conversions. */
  lemma ScanReplySteps(keyword: string, t0: string, id: uint32, t1: string, name: string, t2: string,
                       value: string, t3: string)
    requires ScanU32(t0) == Some((id, t1)) && ScanWord(t1) == Some((name, t2)) && ScanWord(t2) == Some((value, t3))
    ensures ScanReply(keyword, keyword + t0) == Some(Reply(id, name, value))
  {
    ConvOf(ConvStr, t2, FStr(value), t3);
    ConvOf(ConvStr, t1, FStr(name), t2);
    ConvOf(ConvU32, t0, FNum(id), t1);
    ReplyConvs(t0, id, t1, name, t2, value, t3);
    ReplyFields(t0, Reply(id, name, value));
    ScanReplyPrefix(keyword, t0, Reply(id, name, value));
  }

  /** The three conversions of a reply, one after the other. */
  lemma ReplyConvs(t0: string, id: uint32, t1: string, name: string, t2: string, value: string, t3: string)
    requires ScanConv(ConvU32, t0) == Some((FNum(id), t1))
    requires ScanConv(ConvStr, t1) == Some((FStr(name), t2))
    requires ScanConv(ConvStr, t2) == Some((FStr(value), t3))
    ensures ScanConvs(REPLY_CONVS, t0) == Some([FNum(id), FStr(name), FStr(value)])
  {
    ConvsStep(ConvStr, Done, t2, FStr(value), t3, []);
    assert [FStr(value)] + [] == [FStr(value)];
    ConvsStep(ConvStr, Then(ConvStr, Done), t1, FStr(name), t2, [FStr(value)]);
    assert [FStr(name)] + [FStr(value)] == [FStr(name), FStr(value)];
    ConvsStep(ConvU32, Then(ConvStr, Then(ConvStr, Done)), t0, FNum(id), t1, [FStr(name), FStr(value)]);
    assert [FNum(id)] + [FStr(name), FStr(value)] == [FNum(id), FStr(name), FStr(value)];
  }

  /** A conversion's result from the scanner it runs. */
  lemma ConvOf(c: Conv, s: string, f: Field, rest: string)
    requires c == ConvU32 ==> f.FNum? && ScanU32(s) == Some((f.n, rest))
    requires c == ConvStr ==> f.FStr? && ScanWord(s) == Some((f.s, rest))
    ensures ScanConv(c, s) == Some((f, rest))
  {
  }

  /** The fields of a reply from the values its conversions store. */
  lemma ReplyFields(t0: string, r: Reply)
    requires ScanConvs(REPLY_CONVS, t0) == Some([FNum(r.id), FStr(r.name), FStr(r.value)])
    ensures ScanFields(t0) == Some(r)
  {
  }

  /** One conversion, then the rest of the format. */
  lemma ConvsStep(c: Conv, next: Convs, s: string, f: Field, rest: string, fs: seq<Field>)
    requires ScanConv(c, s) == Some((f, rest)) && ScanConvs(next, rest) == Some(fs)
    ensures ScanConvs(Then(c, next), s) == Some([f] + fs)
  {
  }

  lemma ScanReplyPrefix(keyword: string, t0: string, r: Reply)
    requires ScanFields(t0) == Some(r)
    ensures ScanReply(keyword, keyword + t0) == Some(r)
  {
    assert (keyword + t0)[..|keyword|] == keyword;
    assert (keyword + t0)[|keyword|..] == t0;
  }

  lemma Regroup(a: string, b: string, c: string, d: string, e: string, f: string, g: string, h: string)
    ensures a + b + c + d + e + f + g + h == a + (b + c + (d + e + (f + g + h)))
  {
  }

  /** Text that can travel as a C string of bytes. */
  predicate CleanText(s: string) {
    forall c :: c in s ==> c != NUL && c as int < 0x100
  }

  /** A reply line is text that can travel as a C string of bytes. */
  lemma LineClean(keyword: string, id: uint32, name: string, value: string)
    requires Word(name) && Word(value) && CleanText(keyword)
    ensures CleanText(ReplyLine(keyword, id, name, value)) && IsByteText(ReplyLine(keyword, id, name, value))
  {
    var line := ReplyLine(keyword, id, name, value);
    var d := Decimal(id as nat);
    forall c | c in d ensures c != NUL && c as int < 0x100 {
      var i :| 0 <= i < |d| && d[i] == c;
      assert IsDigit(d[i]);
    }
    assert CleanText(line);
    forall i | 0 <= i < |line| ensures line[i] as int < 0x100 {
      assert line[i] in line;
    }
  }

  /** A reply line as the CTRL payload bytes carry it reads back as the same text. */
  lemma ReplyTextOfLine(keyword: string, id: uint32, name: string, value: string)
    requires Word(name) && Word(value) && CleanText(keyword)
    ensures ReplyText(Bytes(ReplyLine(keyword, id, name, value))) == ReplyLine(keyword, id, name, value)
  {
    var line := ReplyLine(keyword, id, name, value);
    LineClean(keyword, id, name, value);
    TextOfBytes(line);
    CStrOfPlain(line);
  }

  /** Read as written, a reply line runs on into the C string of the bytes past it. */
  lemma ReplyTextAsWrittenOfLine(keyword: string, id: uint32, name: string, value: string, beyond: seq<byte>)
    requires Word(name) && Word(value) && CleanText(keyword)
    ensures ReplyTextAsWritten(Bytes(ReplyLine(keyword, id, name, value)), beyond) ==
      ReplyLine(keyword, id, name, value) + CStr(Text(beyond))
  {
    var line := ReplyLine(keyword, id, name, value);
    LineClean(keyword, id, name, value);
    TextOfBytesThen(line, beyond);
    CStrAppend(line, Text(beyond));
  }

  /** A GET answered by the matching GET_REPLY returns the value, with the request
      on the wire and the rest of the stream unread. */
  lemma GetAnswered(sent: seq<byte>, rest: seq<RxEvent>, timed: bool, id: uint32, name: string, value: string)
    requires Word(name) && Word(value) && |GetCmd(id, name)| < CMD_ROOM
    requires |ReplyLine("GET_REPLY", id, name, value)| + 1 + HEADER_LEN < MSGB_SIZE_LIMIT
    ensures var line := Bytes(ReplyLine("GET_REPLY", id, name, value));
      var rx := [Data(EncodeFrame(IPAC_PROTO_OSMO, [IPAC_PROTO_EXT_CTRL] + line))] + rest;
      GetSpec(Io(rx, [], sent), timed, id, name) == (Some(value), Io(rest, [], sent + Request(GetCmd(id, name))))
  {
    var line := ReplyLine("GET_REPLY", id, name, value);
    ReceiveTakes(Bytes(line), rest, timed);
    ReplyTextOfLine("GET_REPLY", id, name, value);
    ScanReplyLine("GET_REPLY", id, name, value);
  }

  /** A GET_REPLY echoing another id, or another variable, is refused. */
  lemma GetMismatch(sent: seq<byte>, rest: seq<RxEvent>, timed: bool, id: uint32, name: string,
                    rid: uint32, rname: string, value: string)
    requires Word(name) && Word(rname) && Word(value) && |GetCmd(id, name)| < CMD_ROOM
    requires |ReplyLine("GET_REPLY", rid, rname, value)| + 1 + HEADER_LEN < MSGB_SIZE_LIMIT
    requires rid != id || rname != name
    ensures var line := Bytes(ReplyLine("GET_REPLY", rid, rname, value));
      var rx := [Data(EncodeFrame(IPAC_PROTO_OSMO, [IPAC_PROTO_EXT_CTRL] + line))] + rest;
      GetSpec(Io(rx, [], sent), timed, id, name).0.None?
  {
    var line := ReplyLine("GET_REPLY", rid, rname, value);
    ReceiveTakes(Bytes(line), rest, timed);
    ReplyTextOfLine("GET_REPLY", rid, rname, value);
    ScanReplyLine("GET_REPLY", rid, rname, value);
  }

  /** A SET answered by the matching SET_REPLY succeeds. */
  lemma SetAnswered(sent: seq<byte>, rest: seq<RxEvent>, timed: bool, id: uint32, name: string, value: string)
    requires Word(name) && Word(value) && |SetCmd(id, name, value)| < CMD_ROOM
    requires |ReplyLine("SET_REPLY", id, name, value)| + 1 + HEADER_LEN < MSGB_SIZE_LIMIT
    ensures var line := Bytes(ReplyLine("SET_REPLY", id, name, value));
      var rx := [Data(EncodeFrame(IPAC_PROTO_OSMO, [IPAC_PROTO_EXT_CTRL] + line))] + rest;
      SetSpec(Io(rx, [], sent), timed, id, name, value) == (0, Io(rest, [], sent + Request(SetCmd(id, name, value))))
  {
    var line := ReplyLine("SET_REPLY", id, name, value);
    ReceiveTakes(Bytes(line), rest, timed);
    ReplyTextOfLine("SET_REPLY", id, name, value);
    ScanReplyLine("SET_REPLY", id, name, value);
  }

  /** A SET_REPLY echoing another value is refused. */
  lemma SetValueMismatch(sent: seq<byte>, rest: seq<RxEvent>, timed: bool, id: uint32, name: string,
                         value: string, rvalue: string)
    requires Word(name) && Word(value) && Word(rvalue) && |SetCmd(id, name, value)| < CMD_ROOM
    requires |ReplyLine("SET_REPLY", id, name, rvalue)| + 1 + HEADER_LEN < MSGB_SIZE_LIMIT
    requires rvalue != value
    ensures var line := Bytes(ReplyLine("SET_REPLY", id, name, rvalue));
      var rx := [Data(EncodeFrame(IPAC_PROTO_OSMO, [IPAC_PROTO_EXT_CTRL] + line))] + rest;
      SetSpec(Io(rx, [], sent), timed, id, name, value).0 == -1
  {
    var line := ReplyLine("SET_REPLY", id, name, rvalue);
    ReceiveTakes(Bytes(line), rest, timed);
    ReplyTextOfLine("SET_REPLY", id, name, rvalue);
    ScanReplyLine("SET_REPLY", id, name, rvalue);
    assert !MatchSet(ReplyText(Bytes(line)), id, name, value);
  }

  // ---------------------------------------------------------------------------
  // The reply as the code scans it

  /** Bytes that end a word where they begin: none at all, a NUL, or white space. */
  predicate EndsWord(b: seq<byte>) {
    |b| == 0 || b[0] == 0 || IsSpace(b[0] as int as char)
  }

  /** The C string of bytes that end a word is empty or starts with white space. */
  lemma EndsWordText(b: seq<byte>)
    requires EndsWord(b)
    ensures var r := CStr(Text(b)); |r| == 0 || IsSpace(r[0])
  {
  }

  /** Bytes of a word, then bytes that end it, read as the word and what follows. */
  lemma WordThenText(tail: string, more: seq<byte>)
    requires Word(tail)
    ensures CStr(Text(Bytes(tail) + more)) == tail + CStr(Text(more))
  {
    forall i | 0 <= i < |tail| ensures tail[i] as int < 0x100 {
      assert tail[i] in tail;
    }
    TextOfBytesThen(tail, more);
    CStrAppend(tail, Text(more));
  }

  /** As written, the GET value of a matching reply runs on into whatever word
      characters lie past the frame: with `tail` there, ended by a NUL or white
      space, the value handed back is value + tail. The reading confined to the
      payload hands back the value sent. */
  lemma GetOverrunAsWritten(id: uint32, name: string, value: string, tail: string, more: seq<byte>)
    requires Word(name) && Word(value) && Word(tail) && EndsWord(more)
    ensures var line := Bytes(ReplyLine("GET_REPLY", id, name, value));
      MatchGet(ReplyText(line), id, name) == Some(value) &&
      MatchGet(ReplyTextAsWritten(line, Bytes(tail) + more), id, name) == Some(value + tail)
  {
    var rest := CStr(Text(more));
    OverrunText("GET_REPLY", id, name, value, tail, more);
    ReplyTextOfLine("GET_REPLY", id, name, value);
    ScanReplyLine("GET_REPLY", id, name, value);
    EndsWordText(more);
    ScanReplyLineThen("GET_REPLY", id, name, value + tail, rest);
  }

  /** As written, a SET_REPLY that echoes the value is refused when word
      characters lie past the frame, though the reading confined to the payload
      accepts it. */
  lemma SetOverrunAsWritten(id: uint32, name: string, value: string, tail: string, more: seq<byte>)
    requires Word(name) && Word(value) && Word(tail) && EndsWord(more)
    ensures var line := Bytes(ReplyLine("SET_REPLY", id, name, value));
      MatchSet(ReplyText(line), id, name, value) &&
      !MatchSet(ReplyTextAsWritten(line, Bytes(tail) + more), id, name, value)
  {
    var rest := CStr(Text(more));
    OverrunText("SET_REPLY", id, name, value, tail, more);
    ReplyTextOfLine("SET_REPLY", id, name, value);
    ScanReplyLine("SET_REPLY", id, name, value);
    EndsWordText(more);
    ScanReplyLineThen("SET_REPLY", id, name, value + tail, rest);
    assert |value + tail| > |value|;
  }

  /** A reply line followed by the bytes of a word reads, as written, as the line
      whose value has that word appended. */
  lemma OverrunText(keyword: string, id: uint32, name: string, value: string, tail: string, more: seq<byte>)
    requires Word(name) && Word(value) && Word(tail) && CleanText(keyword)
    ensures Word(value + tail)
    ensures ReplyTextAsWritten(Bytes(ReplyLine(keyword, id, name, value)), Bytes(tail) + more) ==
      ReplyLine(keyword, id, name, value + tail) + CStr(Text(more))
  {
    ReplyTextAsWrittenOfLine(keyword, id, name, value, Bytes(tail) + more);
    WordThenText(tail, more);
    assert ReplyLine(keyword, id, name, value) + (tail + CStr(Text(more))) ==
      ReplyLine(keyword, id, name, value + tail) + CStr(Text(more));
  }

  /** As written, a matching GET_REPLY hands back the value sent when the bytes
      past the frame end its last word. */
  lemma GetAnsweredAsWritten(id: uint32, name: string, value: string, beyond: seq<byte>)
    requires Word(name) && Word(value) && EndsWord(beyond)
    ensures MatchGet(ReplyTextAsWritten(Bytes(ReplyLine("GET_REPLY", id, name, value)), beyond), id, name) == Some(value)
  {
    ReplyTextAsWrittenOfLine("GET_REPLY", id, name, value, beyond);
    EndsWordText(beyond);
    ScanReplyLineThen("GET_REPLY", id, name, value, CStr(Text(beyond)));
  }

  /** As written, a SET_REPLY echoing the value is accepted when the bytes past
      the frame end its last word. */
  lemma SetAnsweredAsWritten(id: uint32, name: string, value: string, beyond: seq<byte>)
    requires Word(name) && Word(value) && EndsWord(beyond)
    ensures MatchSet(ReplyTextAsWritten(Bytes(ReplyLine("SET_REPLY", id, name, value)), beyond), id, name, value)
  {
    ReplyTextAsWrittenOfLine("SET_REPLY", id, name, value, beyond);
    EndsWordText(beyond);
    ScanReplyLineThen("SET_REPLY", id, name, value, CStr(Text(beyond)));
  }

  // ---------------------------------------------------------------------------
  // The handle

  /** How osmo_sock_init and the wait for the connection turn out. */
  datatype ConnectOutcome =
    | SockInitFailed   // no socket could be created
    | ConnectTimeout   // select() saw no connection within the timeout
    | SelectFailed     // select() failed
    | IoctlFailed      // the socket could not be set blocking again
    | Connected        // select() saw the socket writable and it was set blocking;
                       // whether the connect succeeded is not checked, so a refused
                       // connection shows up only as failing traffic

  /** struct simple_ctrl_handle. */
  class CtrlHandle {
    const sock: Socket
    var nextId: uint32
    var toutMsec: uint32

    constructor (s: Socket, tout: uint32)
      ensures sock == s && nextId == 0 && toutMsec == tout
    {
      sock, nextId, toutMsec := s, 0, tout;
    }

    /** simple_ctrl_set_timeout. */
    method SetTimeout(tout: uint32)
      modifies this
      ensures toutMsec == tout && nextId == old(nextId)
    {
      toutMsec := tout;
    }

    /** simple_ctrl_close. */
    method Close()
      modifies sock
      ensures sock.closed && sock.io == old(sock.io)
    {
      sock.Close();
    }

    /** simple_ipa_receive. */
    method IpaReceive() returns (f: Option<Frame>)
      modifies sock
      ensures (f, sock.io.rx) == IpaReceiveSpec(old(sock.io.rx), Timed(toutMsec))
      ensures sock.io.tx == old(sock.io.tx) && sock.io.sent == old(sock.io.sent)
      ensures sock.closed == old(sock.closed)
    {
      var hdr := sock.Read(HEADER_LEN, Timed(toutMsec));
      if !hdr.Got? || |hdr.bytes| < HEADER_LEN {
        return None;
      }
      var len := BigEndian16(hdr.bytes[0], hdr.bytes[1]);
      if len + HEADER_LEN >= MSGB_SIZE_LIMIT {
        return None;
      }
      var body := sock.Read(len, false);
      if !body.Got? || |body.bytes| < len {
        return None;
      }
      f := Some(Frame(hdr.bytes[2], body.bytes));
    }

    /** simple_ctrl_receive: loop until a CTRL frame arrives or a receive fails. */
    method Receive() returns (p: Option<seq<byte>>)
      modifies sock
      ensures (p, sock.io.rx) == ReceiveSpec(old(sock.io.rx), Timed(toutMsec))
      ensures sock.io.tx == old(sock.io.tx) && sock.io.sent == old(sock.io.sent)
      ensures sock.closed == old(sock.closed)
    {
      while true
        invariant ReceiveSpec(sock.io.rx, Timed(toutMsec)) == ReceiveSpec(old(sock.io.rx), Timed(toutMsec))
        invariant sock.io.tx == old(sock.io.tx) && sock.io.sent == old(sock.io.sent)
        invariant sock.closed == old(sock.closed)
        decreases Weight(sock.io.rx)
      {
        var f := IpaReceive();
        if f.None? {
          return None;
        }
        var c := CtrlPayload(f.value);
        if c.Some? {
          return c;
        }
      }
    }

    /** simple_ctrl_send of a formatted command. */
    method Send(cmd: string) returns (rc: int)
      requires |cmd| < CMD_ROOM
      modifies sock
      ensures (rc, sock.io) == SendSpec(old(sock.io), Timed(toutMsec), cmd)
      ensures sock.closed == old(sock.closed)
    {
      var frame := Request(cmd);
      rc := sock.Write(frame, Timed(toutMsec));
      if rc >= 0 && rc < |frame| {
        rc := -1;
      } else if rc >= 0 {
        rc := 0;
      }
    }

    /** simple_ctrl_get: the id is used and incremented even when the request
        cannot be formatted. */
    method Get(name: CString) returns (r: Option<string>)
      modifies this, sock
      ensures (r, sock.io) == GetSpec(old(sock.io), Timed(old(toutMsec)), old(nextId), name)
      ensures nextId == Inc(old(nextId)) && toutMsec == old(toutMsec)
      ensures sock.closed == old(sock.closed)
    {
      var id := nextId;
      nextId := Inc(nextId);
      var cmd := GetCmd(id, name);
      if |cmd| >= CMD_ROOM {
        return None;
      }
      var rc := Send(cmd);
      if rc < 0 {
        return None;
      }
      var p := Receive();
      if p.None? {
        return None;
      }
      r := MatchGet(ReplyText(p.value), id, name);
    }

    /** simple_ctrl_set. */
    method Set(name: CString, value: CString) returns (rc: int)
      modifies this, sock
      ensures (rc, sock.io) == SetSpec(old(sock.io), Timed(old(toutMsec)), old(nextId), name, value)
      ensures nextId == Inc(old(nextId)) && toutMsec == old(toutMsec)
      ensures sock.closed == old(sock.closed)
    {
      var id := nextId;
      nextId := Inc(nextId);
      var cmd := SetCmd(id, name, value);
      if |cmd| >= CMD_ROOM {
        return -1;
      }
      var sent := Send(cmd);
      if sent < 0 {
        return -1;
      }
      var p := Receive();
      if p.Some? && MatchSet(ReplyText(p.value), id, name, value) {
        return 0;
      }
      return -1;
    }
  }

  /** simple_ctrl_open: make a socket whose traffic io will carry and wait for the
      connection. When it comes up, a handle on that socket with id 0 and the given
      timeout; otherwise none, and the socket, if one was made, is closed. A connect
      timeout needs a timeout to happen. */
  method Open(outcome: ConnectOutcome, tout: uint32, io: Io) returns (h: CtrlHandle?, s: Socket?)
    requires outcome == ConnectTimeout ==> Timed(tout)
    ensures outcome == SockInitFailed <==> s == null
    ensures outcome == Connected <==> h != null
    ensures s != null ==> fresh(s) && s.io == io && (s.closed <==> outcome != Connected)
    ensures h != null ==> fresh(h) && h.sock == s && h.nextId == 0 && h.toutMsec == tout
  {
    if outcome == SockInitFailed {
      return null, null;
    }
    s := new Socket(io);
    if outcome != Connected {
      s.Close();
      return null, s;
    }
    h := new CtrlHandle(s, tout);
  }
}
