/** The DLE-stuffed framing of the serial driver: printer, byte-at-a-time parser, and their round trip. */
module SerialFraming {
  import Crc

  const STX: bv8 := 0x02
  const ETX: bv8 := 0x03
  const DLE: bv8 := 0x10
  const MAX_PAYLOAD_LEN := 64
  const HEADER_LEN := 4
  const MAX_MESSAGE_LEN := MAX_PAYLOAD_LEN - HEADER_LEN
  const BROADCAST_ADDRESS: bv8 := 0xff

  datatype Headers = Headers(to: bv8, from: bv8, id: bv8, flags: bv8)

  datatype Message = Message(headers: Headers, payload: seq<bv8>)

  // ---------------------------------------------------------------- printing

  /** The octets of a message that the frame check sequence covers, without the trailing DLE ETX. */
  function Content(m: Message): (s: seq<bv8>)
    ensures |s| == |m.payload| + HEADER_LEN
  {
    [m.headers.to, m.headers.from, m.headers.id, m.headers.flags] + m.payload
  }

  function Stuff(b: bv8): seq<bv8> { if b == DLE then [DLE, b] else [b] }

  function StuffAll(s: seq<bv8>): seq<bv8> {
    if s == [] then [] else StuffAll(s[..|s|-1]) + Stuff(s[|s|-1])
  }

  function Fcs(content: seq<bv8>): bv16 { Crc.Over(Crc.INITIAL, content + [DLE, ETX]) }

  /** What `send` writes for one message. */
  function Frame(m: Message): seq<bv8> {
    var fcs := Fcs(Content(m));
    [DLE, STX] + StuffAll(Content(m)) + [DLE, ETX] + [Crc.Hi8(fcs), Crc.Lo8(fcs)]
  }

  // ---------------------------------------------------------------- parsing

  datatype RxState = Initialising | Idle | Escaped | Data | Escape | WaitFcs1 | WaitFcs2

  datatype Parser = Parser(
    state: RxState, fcs: bv16, recd: bv16, store: seq<bv8>, len: nat,
    valid: bool, bad: nat, good: nat, headers: Headers, address: bv8, promiscuous: bool)
  {
    ghost predicate Fits() { |store| == MAX_PAYLOAD_LEN && len <= MAX_PAYLOAD_LEN }

    predicate Accepts(to: bv8) { promiscuous || to == address || to == BROADCAST_ADDRESS }

    /** Between messages, nothing uncollected. */
    ghost predicate Ready() { Fits() && state == Idle && !valid }
  }

  function Clear(p: Parser): Parser { p.(valid := false, fcs := Crc.INITIAL, len := 0) }

  /** An octet beyond the buffer is lost, and so is its part in the check sequence. */
  function Append(p: Parser, ch: bv8): Parser
    requires p.Fits()
  {
    if p.len < MAX_PAYLOAD_LEN then
      p.(store := p.store[p.len := ch], len := p.len + 1, fcs := Crc.Update(p.fcs, ch))
    else p
  }

  function Check(p: Parser): Parser
    requires p.Fits()
  {
    if p.recd != p.fcs then p.(bad := (p.bad + 1) % 0x10000) else
    var q := p.(headers := Headers(p.store[0], p.store[1], p.store[2], p.store[3]));
    if p.Accepts(p.store[0]) then q.(good := (p.good + 1) % 0x10000, valid := true) else q
  }

  function Upper(ch: bv8): bv16 { (ch as bv16) << 8 }

  function WithLower(r: bv16, ch: bv8): bv16 { r | (ch as bv16) }

  /** One octet from the serial port. */
  function Handle(p: Parser, ch: bv8): Parser
    requires p.Fits()
  {
    match p.state
    case Initialising => p
    case Idle => if ch == DLE then p.(state := Escaped) else p
    case Escaped => if ch == STX then Clear(p).(state := Data) else p.(state := Idle)
    case Data => if ch == DLE then p.(state := Escape) else Append(p, ch)
    case Escape =>
      if ch == ETX then p.(fcs := Crc.Update(Crc.Update(p.fcs, DLE), ETX), state := WaitFcs1)
      else if ch == DLE then Append(p, ch).(state := Data)
      else p.(state := Idle)
    case WaitFcs1 => p.(recd := Upper(ch), state := WaitFcs2)
    case WaitFcs2 => Check(p.(recd := WithLower(p.recd, ch), state := Idle))
  }

  lemma HandleKeeps(p: Parser, ch: bv8)
    requires p.Fits()
    ensures
      var q := Handle(p, ch);
      && q.Fits() && q.address == p.address && q.promiscuous == p.promiscuous
      && (q.valid ==> p.valid || p.state == WaitFcs2)
  {
    hide Crc.Update, Upper, WithLower, Append, Check;
    AppendKeeps(p, ch);
    CheckKeeps(p.(recd := WithLower(p.recd, ch), state := Idle));
  }

  lemma AppendKeeps(p: Parser, ch: bv8)
    requires p.Fits()
    ensures var q := Append(p, ch); q.Fits() && q == p.(store := q.store, len := q.len, fcs := q.fcs)
  {
    hide Crc.Update;
  }

  lemma CheckKeeps(p: Parser)
    requires p.Fits()
    ensures var q := Check(p); q == p.(bad := q.bad, good := q.good, headers := q.headers, valid := q.valid)
  {
  }

  function HandleAll(p: Parser, s: seq<bv8>): (q: Parser)
    requires p.Fits()
    ensures q.Fits() && q.address == p.address && q.promiscuous == p.promiscuous
    decreases s
  {
    if s == [] then p else
    HandleKeeps(p, s[0]);
    HandleAll(Handle(p, s[0]), s[1..])
  }

  lemma {:induction false} HandleConcat(p: Parser, s: seq<bv8>, t: seq<bv8>)
    requires p.Fits()
    ensures HandleAll(p, s + t) == HandleAll(HandleAll(p, s), t)
    decreases s
  {
    hide Handle;
    if s == [] {
      assert s + t == t;
    } else {
      HandleKeeps(p, s[0]);
      assert (s + t)[1..] == s[1..] + t;
      HandleConcat(Handle(p, s[0]), s[1..], t);
    }
  }

  /** `available`: octets are handled until a message is valid or the port is empty. */
  function Poll(p: Parser, input: seq<bv8>): (r: (Parser, seq<bv8>))
    requires p.Fits()
    ensures r.0.Fits() && |r.1| <= |input| && (!p.valid && r.0.valid ==> |r.1| < |input|)
    decreases input
  {
    if p.valid || input == [] then (p, input) else
    HandleKeeps(p, input[0]);
    Poll(Handle(p, input[0]), input[1..])
  }

  /** What `recv` yields: nothing, a message, or octets from beyond the buffer. */
  datatype Received = Nothing | Some(message: Message) | Overread

  function Take(s: seq<bv8>, size: nat): seq<bv8> { if size > |s| then s else s[..size] }

  /** How many octets are copied: the payload's, at most the room there is, in 8 bits. */
  function CopyLength(len: nat, size: nat): nat { if size > len - HEADER_LEN then (len - HEADER_LEN) % 256 else size }

  /** `recv` into a buffer of `size` octets. */
  function Recv(p: Parser, input: seq<bv8>, size: nat): (r: (Parser, seq<bv8>, Received))
    requires p.Fits()
    ensures r.0.Fits()
  {
    var (q, rest) := Poll(p, input);
    if !q.valid then (q, rest, Nothing) else
    var end := HEADER_LEN + CopyLength(q.len, size);
    (Clear(q), rest,
     if end > MAX_PAYLOAD_LEN then Overread else Some(Message(q.headers, q.store[HEADER_LEN..end])))
  }

  /** The copying stays inside the buffer exactly when the frame has its four headers; then it copies the payload. */
  lemma OverreadIff(p: Parser, input: seq<bv8>, size: nat)
    requires p.Fits() && Poll(p, input).0.valid
    ensures
      var q, r := Poll(p, input).0, Recv(p, input, size).2;
      && (r.Overread? <==> q.len < HEADER_LEN)
      && (q.len >= HEADER_LEN ==> r == Some(Message(q.headers, Take(q.store[HEADER_LEN..q.len], size))))
  {
    hide Poll;
  }

  /** Calling `recv` until it finds nothing more. */
  function RecvAll(p: Parser, input: seq<bv8>, size: nat): (Parser, seq<Message>)
    requires p.Fits() && !p.valid
    decreases |input|
  {
    var (q, rest, r) := Recv(p, input, size);
    if !r.Some? then (q, []) else
    var (final, ms) := RecvAll(q, rest, size);
    (final, [r.message] + ms)
  }

  // ---------------------------------------------------------------- one frame

  /** The content parsed so far. */
  ghost predicate Parsed(p: Parser, content: seq<bv8>) {
    && p.Fits() && p.state == Data && !p.valid
    && p.store[..p.len] == content && p.fcs == Crc.Over(Crc.INITIAL, content)
  }

  lemma AppendParsed(p: Parser, content: seq<bv8>, b: bv8)
    requires p.Fits() && p.store[..p.len] == content && p.fcs == Crc.Over(Crc.INITIAL, content)
    requires |content| < MAX_PAYLOAD_LEN
    ensures
      var q := Append(p, b);
      q == p.(store := q.store, len := q.len, fcs := q.fcs)
      && q.Fits() && q.store[..q.len] == content + [b] && q.fcs == Crc.Over(Crc.INITIAL, content + [b])
  {
    hide Crc.Update;
    assert (content + [b])[..|content|] == content;
  }

  /** A stuffed octet is read back as the octet. */
  lemma ParseStuffed(p: Parser, content: seq<bv8>, b: bv8)
    requires Parsed(p, content) && |content| < MAX_PAYLOAD_LEN
    ensures
      var q := HandleAll(p, Stuff(b));
      Parsed(q, content + [b]) && q == p.(store := q.store, len := q.len, fcs := q.fcs) && Quiet(p, Stuff(b))
  {
    hide Append, Crc.Update, Check, Upper, WithLower, Clear;
    AppendParsed(p, content, b);
    if b == DLE {
      var e := p.(state := Escape);
      AppendParsed(e, content, b);
      assert Handle(p, b) == e;
      HandleTwo(p, b, b);
      assert Handle(e, b) == Append(e, b).(state := Data);
    } else {
      HandleOne(p, b);
    }
  }

  lemma HandleOne(p: Parser, a: bv8)
    requires p.Fits()
    ensures HandleAll(p, [a]) == Handle(p, a) && Quiet(p, [a]) == !p.valid
  {
    hide Handle;
    HandleKeeps(p, a);
    assert [a][1..] == [];
  }

  lemma HandleTwo(p: Parser, a: bv8, b: bv8)
    requires p.Fits()
    ensures Handle(p, a).Fits() && HandleAll(p, [a, b]) == Handle(Handle(p, a), b)
    ensures Quiet(p, [a, b]) == (!p.valid && !Handle(p, a).valid)
  {
    hide Handle;
    HandleKeeps(p, a);
    HandleOne(Handle(p, a), b);
    assert [a, b][1..] == [b];
  }

  lemma {:induction false} ParseContent(p: Parser, s: seq<bv8>)
    requires Parsed(p, []) && |s| <= MAX_PAYLOAD_LEN
    ensures
      var q := HandleAll(p, StuffAll(s));
      Parsed(q, s) && q == p.(store := q.store, len := q.len, fcs := q.fcs) && Quiet(p, StuffAll(s))
  {
    hide Handle, Stuff, Crc.Update;
    if s != [] {
      var t, b := s[..|s|-1], s[|s|-1];
      ParseContent(p, t);
      HandleConcat(p, StuffAll(t), Stuff(b));
      ParseStuffed(HandleAll(p, StuffAll(t)), t, b);
      QuietConcat(p, StuffAll(t), Stuff(b));
      assert t + [b] == s;
    }
  }

  lemma JoinFcs(fcs: bv16)
    ensures WithLower(Upper(Crc.Hi8(fcs)), Crc.Lo8(fcs)) == fcs
  {
  }

  /** The result of a whole frame: its message, valid exactly when it is addressed to this node. */
  ghost predicate Holds(p: Parser, m: Message) {
    && p.Fits() && p.state == Idle && p.valid == p.Accepts(m.headers.to)
    && p.headers == m.headers && p.len == |m.payload| + HEADER_LEN && p.store[..p.len] == Content(m)
  }

  /** A message accepted is counted good, and nothing is counted bad. */
  predicate Counted(p: Parser, q: Parser) {
    q.bad == p.bad && q.good == if q.valid then (p.good + 1) % 0x10000 else p.good
  }

  /** The four octets that end a frame. */
  lemma ParseTrailer(p: Parser, m: Message)
    requires Parsed(p, Content(m)) && |m.payload| <= MAX_MESSAGE_LEN
    ensures
      var fcs := Fcs(Content(m));
      var s := [DLE, ETX, Crc.Hi8(fcs), Crc.Lo8(fcs)];
      Holds(HandleAll(p, s), m) && Quiet(p, s) && Counted(p, HandleAll(p, s))
      && HandleAll(p, s).address == p.address && HandleAll(p, s).promiscuous == p.promiscuous
  {
    hide Crc.Update, Crc.Lo8, Crc.Hi8, Upper, WithLower, Append, Content, Fcs, Clear;
    var fcs := Fcs(Content(m));
    var hi, lo := Crc.Hi8(fcs), Crc.Lo8(fcs);
    FcsOfTrailer(Content(m));
    JoinFcs(fcs);
    var q := p.(state := WaitFcs1, fcs := fcs);
    HandleFour(p, DLE, ETX, hi, lo);
    assert Handle(Handle(p, DLE), ETX) == q;
    var r := Handle(q, hi);
    assert r == q.(recd := Upper(hi), state := WaitFcs2);
    CheckFrame(r.(recd := fcs, state := Idle), m);
  }

  lemma CheckFrame(p: Parser, m: Message)
    requires p.Fits() && p.store[..p.len] == Content(m) && p.state == Idle && !p.valid && p.recd == p.fcs
    ensures Holds(Check(p), m) && Counted(p, Check(p))
  {
    var c := p.store[..p.len];
    assert c[0] == p.store[0] && c[1] == p.store[1] && c[2] == p.store[2] && c[3] == p.store[3];
    assert m.headers == Headers(c[0], c[1], c[2], c[3]);
  }

  lemma FcsOfTrailer(content: seq<bv8>)
    ensures Fcs(content) == Crc.Update(Crc.Update(Crc.Over(Crc.INITIAL, content), DLE), ETX)
  {
    hide Crc.Update;
    Crc.TwoBytesSplit(Crc.INITIAL, content + [DLE, ETX]);
    assert (content + [DLE, ETX])[..|content|] == content;
  }

  lemma HandleFour(p: Parser, a: bv8, b: bv8, c: bv8, d: bv8)
    requires p.Fits()
    ensures
      var q := Handle(p, a);
      q.Fits() && var r := Handle(q, b);
      r.Fits() && var s := Handle(r, c);
      s.Fits() && HandleAll(p, [a, b, c, d]) == Handle(s, d)
      && (!p.valid && !q.valid && !r.valid && !s.valid ==> Quiet(p, [a, b, c, d]))
  {
    hide Handle;
    HandleTwo(p, a, b);
    HandleKeeps(Handle(p, a), b);
    HandleTwo(Handle(Handle(p, a), b), c, d);
    HandleConcat(p, [a, b], [c, d]);
    var s := Handle(Handle(Handle(p, a), b), c);
    if !p.valid && !Handle(p, a).valid && !Handle(Handle(p, a), b).valid && !s.valid {
      QuietConcat(p, [a, b], [c, d]);
    }
    assert [a, b, c, d] == [a, b] + [c, d];
  }

  lemma ParseStart(p: Parser)
    requires p.Ready()
    ensures
      var q := HandleAll(p, [DLE, STX]);
      Parsed(q, []) && q.address == p.address && q.promiscuous == p.promiscuous && q.bad == p.bad && q.good == p.good
      && Quiet(p, [DLE, STX])
  {
    hide Crc.Update;
    HandleTwo(p, DLE, STX);
  }

  // ---------------------------------------------------------------- corrupted frames

  lemma DifferentFcs(c: seq<bv8>, d: seq<bv8>)
    requires Crc.Over(Crc.INITIAL, c) != Crc.Over(Crc.INITIAL, d)
    ensures Fcs(c) != Fcs(d)
  {
    hide Crc.Over;
    var t := [DLE, ETX];
    Crc.OverConcat(Crc.INITIAL, c, t);
    Crc.OverConcat(Crc.INITIAL, d, t);
    if Fcs(c) == Fcs(d) {
      Crc.OverIsOverBits(Crc.Over(Crc.INITIAL, c), t);
      Crc.OverIsOverBits(Crc.Over(Crc.INITIAL, d), t);
      Crc.OverBitsInjective(Crc.Over(Crc.INITIAL, c), Crc.Over(Crc.INITIAL, d), Crc.BitsOf(t));
    }
  }

  /** A frame whose content was altered in an odd number of bits is counted bad and never delivered. */
  lemma OddErrorsRejected(p: Parser, m: Message, c: seq<bv8>)
    requires p.Ready() && |m.payload| <= MAX_MESSAGE_LEN && |c| == |Content(m)|
    requires Crc.Differences(Crc.BitsOf(c), Crc.BitsOf(Content(m))) % 2 == 1
    ensures
      var fcs := Fcs(Content(m));
      var q := HandleAll(p, [DLE, STX] + StuffAll(c) + [DLE, ETX, Crc.Hi8(fcs), Crc.Lo8(fcs)]);
      q.state == Idle && !q.valid && q.bad == (p.bad + 1) % 0x10000
  {
    hide Content, Fcs, Crc.Over, HandleAll, StuffAll, Crc.BitsOf, Crc.Hi8, Crc.Lo8;
    Crc.OddErrorsDetected(Crc.INITIAL, c, Content(m));
    WrongContent(p, m, c);
  }

  lemma WrongContent(p: Parser, m: Message, c: seq<bv8>)
    requires p.Ready() && |m.payload| <= 60 && |c| == |Content(m)|
    requires Crc.Over(Crc.INITIAL, c) != Crc.Over(Crc.INITIAL, Content(m))
    ensures
      var fcs := Fcs(Content(m));
      var q := HandleAll(p, [DLE, STX] + StuffAll(c) + [DLE, ETX, Crc.Hi8(fcs), Crc.Lo8(fcs)]);
      q.state == Idle && !q.valid && q.bad == (p.bad + 1) % 0x10000
  {
    hide Handle, Content, StuffAll, Crc.Lo8, Crc.Hi8, HandleAll, Crc.Over, Crc.BitsOf, Fcs;
    var fcs := Fcs(Content(m));
    DifferentFcs(c, Content(m));
    var trailer := [DLE, ETX, Crc.Hi8(fcs), Crc.Lo8(fcs)];
    HandleConcat(p, [DLE, STX] + StuffAll(c), trailer);
    HandleConcat(p, [DLE, STX], StuffAll(c));
    ParseStart(p);
    ParseContent(HandleAll(p, [DLE, STX]), c);
    WrongTrailer(HandleAll(p, [DLE, STX] + StuffAll(c)), c, fcs);
  }

  lemma WrongTrailer(p: Parser, c: seq<bv8>, fcs: bv16)
    requires Parsed(p, c) && Fcs(c) != fcs
    ensures
      var q := HandleAll(p, [DLE, ETX, Crc.Hi8(fcs), Crc.Lo8(fcs)]);
      q.state == Idle && !q.valid && q.bad == (p.bad + 1) % 0x10000
  {
    hide Crc.Update, Crc.Lo8, Crc.Hi8, Upper, WithLower, Append, Fcs, Clear;
    var hi, lo := Crc.Hi8(fcs), Crc.Lo8(fcs);
    FcsOfTrailer(c);
    JoinFcs(fcs);
    var q := p.(state := WaitFcs1, fcs := Fcs(c));
    HandleFour(p, DLE, ETX, hi, lo);
    assert Handle(Handle(p, DLE), ETX) == q;
    assert Handle(q, hi) == q.(recd := Upper(hi), state := WaitFcs2);
  }

  /** Nor is one that was altered only within sixteen consecutive bits. */
  lemma BurstRejected(p: Parser, m: Message, c: seq<bv8>, pre: seq<bool>, v: bv16, w: bv16, post: seq<bool>)
    requires p.Ready() && |m.payload| <= 60 && |c| == |Content(m)| && v != w
    requires Crc.BitsOf(c) == pre + Crc.BitsOfWord(v, 16) + post
    requires Crc.BitsOf(Content(m)) == pre + Crc.BitsOfWord(w, 16) + post
    ensures
      var fcs := Fcs(Content(m));
      var q := HandleAll(p, [DLE, STX] + StuffAll(c) + [DLE, ETX, Crc.Hi8(fcs), Crc.Lo8(fcs)]);
      q.state == Idle && !q.valid && q.bad == (p.bad + 1) % 0x10000
  {
    hide Content, Fcs, Crc.Over, HandleAll, StuffAll, Crc.BitsOf, Crc.Hi8, Crc.Lo8;
    Crc.BurstDetected(Crc.INITIAL, c, Content(m), pre, v, w, post);
    WrongContent(p, m, c);
  }

  // ---------------------------------------------------------------- short frames

  function Printed(c: seq<bv8>): seq<bv8> {
    [DLE, STX] + StuffAll(c) + [DLE, ETX, Crc.Hi8(Fcs(c)), Crc.Lo8(Fcs(c))]
  }

  lemma RightTrailer(p: Parser, c: seq<bv8>)
    requires Parsed(p, c)
    ensures
      var s := [DLE, ETX, Crc.Hi8(Fcs(c)), Crc.Lo8(Fcs(c))];
      var q := HandleAll(p, s);
      Quiet(p, s) && q.valid == p.Accepts(p.store[0]) && q.len == p.len && q.store == p.store
  {
    hide Crc.Update, Crc.Lo8, Crc.Hi8, Upper, WithLower, Append, Fcs, Clear;
    var hi, lo := Crc.Hi8(Fcs(c)), Crc.Lo8(Fcs(c));
    FcsOfTrailer(c);
    JoinFcs(Fcs(c));
    var q := p.(state := WaitFcs1, fcs := Fcs(c));
    HandleFour(p, DLE, ETX, hi, lo);
    assert Handle(Handle(p, DLE), ETX) == q;
    assert Handle(q, hi) == q.(recd := Upper(hi), state := WaitFcs2);
  }

  /** A frame with the right check sequence but less than the headers is accepted by what the buffer holds in the
      headers' place, and then octets from beyond the buffer are returned. */
  lemma ShortFrameOverreads(p: Parser, c: seq<bv8>, size: nat)
    requires p.Ready() && |c| < HEADER_LEN
    ensures
      Recv(p, Printed(c), size).2 == if p.Accepts(if c == [] then p.store[0] else c[0]) then Overread else Nothing
  {
    hide Handle, StuffAll, Crc.Lo8, Crc.Hi8, HandleAll, Fcs, Quiet, Parsed, Crc.Update;
    var trailer := [DLE, ETX, Crc.Hi8(Fcs(c)), Crc.Lo8(Fcs(c))];
    ParseStart(p);
    var r := HandleAll(p, [DLE, STX]);
    StartStores(p);
    ParseContent(r, c);
    HandleConcat(p, [DLE, STX], StuffAll(c));
    QuietConcat(p, [DLE, STX], StuffAll(c));
    var t := HandleAll(p, [DLE, STX] + StuffAll(c));
    RightTrailer(t, c);
    HandleConcat(p, [DLE, STX] + StuffAll(c), trailer);
    QuietConcat(p, [DLE, STX] + StuffAll(c), trailer);
    PollThrough(p, Printed(c), []);
    assert Printed(c) + [] == Printed(c);
    var q := HandleAll(p, Printed(c));
    FirstStored(t, c);
    if c == [] { NoContent(); }
    if q.valid { OverreadIff(p, Printed(c), size); }
  }

  lemma StartStores(p: Parser)
    requires p.Ready()
    ensures HandleAll(p, [DLE, STX]).store == p.store
  {
    HandleTwo(p, DLE, STX);
  }

  lemma NoContent()
    ensures StuffAll([]) == [] && [DLE, STX] + [] == [DLE, STX]
  {
  }

  lemma FirstStored(t: Parser, c: seq<bv8>)
    requires Parsed(t, c) && |c| < HEADER_LEN
    ensures c != [] ==> t.store[0] == c[0]
    ensures t.len == |c|
  {
    hide Crc.Over;
    assert c != [] ==> t.store[..t.len][0] == t.store[0];
  }

  // ---------------------------------------------------------------- the stream

  /** No message is valid before any octet of `s`. */
  ghost predicate Quiet(p: Parser, s: seq<bv8>)
    requires p.Fits()
    decreases s
  {
    s == [] || (!p.valid && (HandleKeeps(p, s[0]); Quiet(Handle(p, s[0]), s[1..])))
  }

  lemma {:induction false} QuietConcat(p: Parser, s: seq<bv8>, t: seq<bv8>)
    requires p.Fits() && Quiet(p, s) && Quiet(HandleAll(p, s), t)
    ensures Quiet(p, s + t)
    decreases s
  {
    hide Handle;
    if s == [] {
      assert s + t == t;
    } else {
      HandleKeeps(p, s[0]);
      assert (s + t)[1..] == s[1..] + t;
      QuietConcat(Handle(p, s[0]), s[1..], t);
    }
  }

  lemma {:induction false} PollThrough(p: Parser, s: seq<bv8>, rest: seq<bv8>)
    requires p.Fits() && Quiet(p, s)
    ensures Poll(p, s + rest) == Poll(HandleAll(p, s), rest)
    decreases s
  {
    hide Handle;
    if s == [] {
      assert s + rest == rest;
    } else {
      HandleKeeps(p, s[0]);
      assert (s + rest)[1..] == s[1..] + rest;
      PollThrough(Handle(p, s[0]), s[1..], rest);
    }
  }

  /** Between frames the parser ignores everything but DLE. */
  lemma {:induction false} GapIgnored(p: Parser, gap: seq<bv8>)
    requires p.Ready() && DLE !in gap
    ensures HandleAll(p, gap) == p && Quiet(p, gap)
    decreases gap
  {
    hide Crc.Update;
    if gap != [] { GapIgnored(p, gap[1..]); }
  }

  /** Delivered by `recv` are the messages for this node, in order. */
  function Delivered(p: Parser, items: seq<(seq<bv8>, Message)>, size: nat): seq<Message> {
    if items == [] then [] else
    var m := items[0].1;
    (if p.promiscuous || m.headers.to == p.address || m.headers.to == 0xff then
       [Message(m.headers, if size > |m.payload| then m.payload else m.payload[..size])]
     else [])
    + Delivered(p, items[1..], size)
  }

  /** Gaps and frames as they arrive on the line. */
  function Stream(items: seq<(seq<bv8>, Message)>): seq<bv8> {
    if items == [] then [] else items[0].0 + Frame(items[0].1) + Stream(items[1..])
  }

  ghost predicate Sendable(items: seq<(seq<bv8>, Message)>) {
    forall i :: 0 <= i < |items| ==> DLE !in items[i].0 && |items[i].1.payload| <= MAX_MESSAGE_LEN
  }

  /** The octets of a frame without a DLE in it; the check sequence is over headers, payload and the closing pair. */
  lemma FrameBytes(m: Message)
    requires DLE !in Content(m)
    ensures
      var h := m.headers;
      var fcs := Crc.Over(0xffff, [h.to, h.from, h.id, h.flags] + m.payload + [0x10, 0x03]);
      Frame(m) ==
        [0x10, 0x02] + ([h.to, h.from, h.id, h.flags] + m.payload) + [0x10, 0x03] + [Crc.Hi8(fcs), Crc.Lo8(fcs)]
  {
    hide Crc.Over;
    NotStuffed(Content(m));
  }

  lemma {:induction false} NotStuffed(s: seq<bv8>)
    requires DLE !in s
    ensures StuffAll(s) == s
  {
    if s != [] {
      NotStuffed(s[..|s| - 1]);
      assert s[..|s| - 1] + [s[|s| - 1]] == s;
    }
  }

  /** A DLE is doubled. */
  lemma StuffedConcat(s: seq<bv8>, t: seq<bv8>)
    ensures StuffAll(s + [0x10] + t) == StuffAll(s) + [0x10, 0x10] + StuffAll(t)
  {
    StuffConcat(s + [0x10], t);
    StuffConcat(s, [0x10]);
    assert [DLE][..0] == [];
  }

  lemma {:induction false} StuffConcat(s: seq<bv8>, t: seq<bv8>)
    ensures StuffAll(s + t) == StuffAll(s) + StuffAll(t)
    decreases t
  {
    hide Stuff;
    if t == [] {
      assert s + t == s;
    } else {
      var n := |t| - 1;
      assert (s + t)[..|s + t| - 1] == s + t[..n];
      StuffConcat(s, t[..n]);
    }
  }

  lemma FrameQuiet(p: Parser, m: Message)
    requires p.Ready() && |m.payload| <= MAX_MESSAGE_LEN
    ensures Holds(HandleAll(p, Frame(m)), m) && Quiet(p, Frame(m)) && Counted(p, HandleAll(p, Frame(m)))
    ensures var q := HandleAll(p, Frame(m)); q.address == p.address && q.promiscuous == p.promiscuous
  {
    hide Handle, Content, StuffAll, Crc.Lo8, Crc.Hi8, HandleAll, Fcs, Quiet;
    var fcs := Fcs(Content(m));
    var trailer := [DLE, ETX, Crc.Hi8(fcs), Crc.Lo8(fcs)];
    assert Frame(m) == ([DLE, STX] + StuffAll(Content(m))) + trailer;
    HandleConcat(p, [DLE, STX] + StuffAll(Content(m)), trailer);
    HandleConcat(p, [DLE, STX], StuffAll(Content(m)));
    ParseStart(p);
    ParseContent(HandleAll(p, [DLE, STX]), Content(m));
    ParseTrailer(HandleAll(p, [DLE, STX] + StuffAll(Content(m))), m);
    QuietConcat(p, [DLE, STX], StuffAll(Content(m)));
    QuietConcat(p, [DLE, STX] + StuffAll(Content(m)), trailer);
  }

  /** Repeated `recv` over any list of sent messages, with any octets but DLE between the frames,
      delivers exactly those addressed to this node, in order and unchanged, and ends between messages. */
  lemma {:induction false} StreamRoundTrip(p: Parser, items: seq<(seq<bv8>, Message)>, size: nat)
    requires p.Ready() && Sendable(items)
    ensures
      var (q, ms) := RecvAll(p, Stream(items), size);
      && q.Ready() && ms == Delivered(p, items, size)
      && q.bad == p.bad && q.good % 0x10000 == (p.good + |ms|) % 0x10000
    decreases |items|
  {
    hide Handle, Frame, HandleAll, Quiet, Poll, Counted;
    if items == [] {
      NothingReceived(p, size);
    } else {
      var (gap, m) := items[0];
      var rest := Stream(items[1..]);
      assert Stream(items) == (gap + Frame(m)) + rest;
      FrameReceived(p, gap, m, rest, size);
      FrameQuiet(p, m);
      hide RecvAll, Recv;
      var q := HandleAll(p, Frame(m));
      var next := if q.valid then Clear(q) else q;
      StreamRoundTrip(next, items[1..], size);
      SameAddress(p, next, items[1..], size);
      AfterFrame(p, q, |RecvAll(next, rest, size).1|);
      assert [] + Delivered(p, items[1..], size) == Delivered(p, items[1..], size);
    }
  }

  lemma AfterFrame(p: Parser, q: Parser, n: nat)
    requires Counted(p, q)
    ensures q.bad == p.bad && (q.good + n) % 0x10000 == (p.good + (if q.valid then 1 else 0) + n) % 0x10000
  {
  }

  lemma NothingReceived(p: Parser, size: nat)
    requires p.Ready()
    ensures RecvAll(p, [], size) == (p, [])
  {
    PollEmpty(p);
  }

  /** A frame behind a gap is handled as a whole; then its message is returned, if it is for this node. */
  lemma FrameReceived(p: Parser, gap: seq<bv8>, m: Message, rest: seq<bv8>, size: nat)
    requires p.Ready() && DLE !in gap && |m.payload| <= MAX_MESSAGE_LEN
    ensures
      var q := HandleAll(p, Frame(m));
      && q.Fits()
      && RecvAll(p, (gap + Frame(m)) + rest, size) ==
           if q.valid then
             (var (final, ms) := RecvAll(Clear(q), rest, size);
              (final, [Message(m.headers, Take(m.payload, size))] + ms))
           else RecvAll(q, rest, size)
  {
    hide Handle, Frame, HandleAll, Quiet, Poll, Counted;
    GapIgnored(p, gap);
    FrameQuiet(p, m);
    QuietConcat(p, gap, Frame(m));
    HandleConcat(p, gap, Frame(m));
    PollThrough(p, gap + Frame(m), rest);
    var q := HandleAll(p, Frame(m));
    var input := (gap + Frame(m)) + rest;
    if q.valid {
      PollValid(q, rest);
      OverreadIff(p, input, size);
      assert q.store[HEADER_LEN..q.len] == q.store[..q.len][HEADER_LEN..] == m.payload;
    }
  }

  lemma PollEmpty(p: Parser)
    requires p.Fits()
    ensures Poll(p, []) == (p, [])
  {
  }

  lemma PollValid(p: Parser, rest: seq<bv8>)
    requires p.Fits() && p.valid
    ensures Poll(p, rest) == (p, rest)
  {
  }

  lemma {:induction false} SameAddress(p: Parser, q: Parser, items: seq<(seq<bv8>, Message)>, size: nat)
    requires p.address == q.address && p.promiscuous == q.promiscuous
    ensures Delivered(p, items, size) == Delivered(q, items, size)
  {
    if items != [] { SameAddress(p, q, items[1..], size); }
  }
}
