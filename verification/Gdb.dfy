/** The packets of the GDB Remote Serial Protocol: cutting the byte stream, checksums, escapes and numbers. */
module Gdb {
  import opened Bytes

  const BREAK: byte := 0x03
  const HASH: byte := 0x23
  const DOLLAR: byte := 0x24
  const STAR: byte := 0x2A
  const CLOSING_BRACE: byte := 0x7D

  const MAX_PACKET_LEN: nat := 4096

  // ---------------------------------------------------------------- bits

  function Pow2(n: nat): (p: nat)
    ensures p > 0
  {
    if n == 0 then 1 else 2 * Pow2(n - 1)
  }

  /** Bitwise or. */
  function Or(x: nat, y: nat): nat {
    if x == 0 then y else (if x % 2 == 1 || y % 2 == 1 then 1 else 0) + 2 * Or(x / 2, y / 2)
  }

  lemma {:induction false} OrShifted(x: nat, y: nat, n: nat)
    requires x < Pow2(n)
    ensures Or(x, y * Pow2(n)) == x + y * Pow2(n)
    decreases n
  {
    if n == 0 {
    } else {
      var z := y * Pow2(n - 1);
      assert y * Pow2(n) == 2 * z;
      OrShifted(x / 2, y, n - 1);
    }
  }

  lemma {:induction false} Pow2OfBytes(k: nat)
    ensures Pow2(8 * k) == Pow256(k)
  {
    if k == 0 {
    } else {
      Pow2OfBytes(k - 1);
      var n := 8 * (k - 1);
      assert Pow2(n + 4) == 16 * Pow2(n) by { assert Pow2(n + 2) == 4 * Pow2(n); }
      assert Pow2(n + 8) == 16 * Pow2(n + 4) by { assert Pow2(n + 6) == 4 * Pow2(n + 4); }
    }
  }

  // ---------------------------------------------------------------- hexadecimal digits

  function PackNibble(b: nat): byte
    requires b < 16
  {
    if b < 10 then 0x30 + b else 0x61 + b - 10
  }

  function Lower(c: byte): byte {
    if 0x41 <= c <= 0x5A then c + 0x20 else c
  }

  /** Characters above 127 are negative, hence below the digits. */
  function UnpackNibble(c: byte): byte {
    var l := Lower(c);
    if l <= 0x39 || l >= 0x80 then (l - 0x30) % 256 else (l - 0x61 + 10) % 256
  }

  lemma NibbleRoundTrip(b: nat)
    requires b < 16
    ensures UnpackNibble(PackNibble(b)) == b && PackNibble(b) != 0
  {
  }

  function PackByte(b: byte): (s: seq<byte>)
    ensures |s| == 2
  {
    [PackNibble(b / 16), PackNibble(b % 16)]
  }

  function UnpackPair(hi: byte, lo: byte): nat {
    Or(UnpackNibble(lo), UnpackNibble(hi) * Pow2(4))
  }

  lemma ByteRoundTrip(b: byte)
    ensures UnpackPair(PackByte(b)[0], PackByte(b)[1]) == b
  {
    hide PackNibble, UnpackNibble, Or;
    NibbleRoundTrip(b / 16);
    NibbleRoundTrip(b % 16);
    assert Pow2(4) == 16 by { assert Pow2(2) == 4; }
    OrShifted(b % 16, b / 16, 4);
  }

  // ---------------------------------------------------------------- numbers

  function Hex(bytes: seq<byte>): seq<byte> {
    if bytes == [] then [] else PackByte(bytes[0]) + Hex(bytes[1..])
  }

  /** `pack`: the digits of the four bytes of a word, least significant byte first. */
  function Pack(v: u32): seq<byte> {
    Hex(LittleEndian(v, 4))
  }

  function OrNul(s: seq<byte>, i: nat): byte {
    if i < |s| then s[i] else 0
  }

  /** `unpack`: pairs of digits from index `i` on, up to `l` digits or a NUL, put into `r`. */
  function UnpackFrom(s: seq<byte>, i: nat, l: nat, r: u32): u32
    decreases l - i
  {
    if i >= l || OrNul(s, i) == 0 then r
    else UnpackFrom(s, i + 2, l, U32(Or(r, UnpackPair(OrNul(s, i), OrNul(s, i + 1)) * Pow2(4 * i))))
  }

  method Unpack(s: seq<byte>, l: nat) returns (r: u32)
    ensures r == UnpackFrom(s, 0, l, 0)
  {
    hide UnpackPair, Or, Pow2;
    r := 0;
    var i := 0;
    while i < l && OrNul(s, i) != 0
      invariant UnpackFrom(s, i, l, r) == UnpackFrom(s, 0, l, 0)
    {
      r := U32(Or(r, UnpackPair(OrNul(s, i), OrNul(s, i + 1)) * Pow2(4 * i)));
      i := i + 2;
    }
  }

  lemma {:induction false} HexDigits(bytes: seq<byte>, k: nat)
    requires k < |bytes|
    ensures |Hex(bytes)| == 2 * |bytes|
    ensures Hex(bytes)[2 * k] == PackByte(bytes[k])[0] && Hex(bytes)[2 * k + 1] == PackByte(bytes[k])[1]
    decreases |bytes|
  {
    hide PackByte;
    if k > 0 {
      HexDigits(bytes[1..], k - 1);
    } else if |bytes| > 1 {
      HexDigits(bytes[1..], 0);
    } else {
      assert bytes[1..] == [];
    }
  }

  lemma {:induction false} PrefixValue(bytes: seq<byte>, k: nat)
    requires k < |bytes|
    ensures FromLittleEndian(bytes[..k + 1]) == FromLittleEndian(bytes[..k]) + bytes[k] * Pow256(k)
    decreases k
  {
    if k == 0 {
      assert bytes[..1][1..] == [];
    } else {
      var rest := bytes[1..];
      PrefixValue(rest, k - 1);
      assert bytes[..k + 1][1..] == rest[..k] && bytes[..k][1..] == rest[..k - 1];
      assert bytes[k] * Pow256(k) == 256 * (bytes[k] * Pow256(k - 1));
    }
  }

  /** One step of `unpack` on packed bytes adds the next byte. */
  lemma UnpackOne(bytes: seq<byte>, k: nat)
    requires k < |bytes| <= 4
    ensures |Hex(bytes)| == 2 * |bytes| && Hex(bytes)[2 * k] != 0
    ensures Or(FromLittleEndian(bytes[..k]), UnpackPair(Hex(bytes)[2 * k], Hex(bytes)[2 * k + 1]) * Pow2(8 * k))
         == FromLittleEndian(bytes[..k + 1])
  {
    hide Or, UnpackPair, PackByte, FromLittleEndian, Hex, Pow2, Pow256;
    HexDigits(bytes, k);
    DigitIsText(bytes[k]);
    ByteRoundTrip(bytes[k]);
    PrefixValue(bytes, k);
    Pow2OfBytes(k);
    FromLittleEndianBound(bytes[..k]);
    OrShifted(FromLittleEndian(bytes[..k]), bytes[k], 8 * k);
  }

  /** Reading on after `k` bytes have been put together gives the whole word. */
  lemma {:induction false} UnpackHex(bytes: seq<byte>, k: nat)
    requires k <= |bytes| <= 4
    ensures FromLittleEndian(bytes[..k]) < TWO_32
    ensures UnpackFrom(Hex(bytes), 2 * k, 2 * |bytes|, FromLittleEndian(bytes[..k])) == FromLittleEndian(bytes)
    decreases |bytes| - k
  {
    hide Or, UnpackPair, FromLittleEndian, Hex, Pow2;
    SmallWord(bytes[..k]);
    if k == |bytes| {
      assert bytes[..k] == bytes;
    } else {
      UnpackHex(bytes, k + 1);
      UnpackOne(bytes, k);
      assert 4 * (2 * k) == 8 * k && 2 * k + 2 == 2 * (k + 1);
    }
  }

  lemma DigitIsText(b: byte)
    ensures PackByte(b)[0] != 0
  {
    NibbleRoundTrip(b / 16);
  }

  lemma SmallWord(s: seq<byte>)
    requires |s| <= 4
    ensures FromLittleEndian(s) < TWO_32
  {
    FromLittleEndianBound(s);
    assert Pow256(2) == 256 * Pow256(1) && Pow256(1) == 256;
    assert Pow256(4) == 256 * Pow256(3) && Pow256(3) == 256 * Pow256(2);
  }

  lemma PackRoundTrip(v: u32)
    ensures UnpackFrom(Pack(v), 0, 8, 0) == v
  {
    hide UnpackFrom, Hex, LittleEndian, FromLittleEndian;
    var bytes := LittleEndian(v, 4);
    Pow256Values();
    LittleEndianRoundTrip(v, 4);
    UnpackHex(bytes, 0);
    NothingRead();
    assert bytes[..0] == [];
  }

  lemma NothingRead()
    ensures FromLittleEndian([]) == 0
  {
  }

  // ---------------------------------------------------------------- cutting the stream

  /** The first `#` from `i` on, or the length. */
  function FindHash(buf: seq<byte>, i: nat): (r: nat)
    requires i <= |buf|
    ensures i <= r <= |buf| && (r < |buf| ==> buf[r] == HASH)
    ensures forall k :: i <= k < r ==> buf[k] != HASH
    decreases |buf| - i
  {
    if i == |buf| || buf[i] == HASH then i else FindHash(buf, i + 1)
  }

  /** `packetMatcher`: how many bytes the first message has, if it is complete. */
  function Match(buf: seq<byte>): (r: Option<nat>)
    ensures r.Some? ==> 1 <= r.value <= |buf|
  {
    if buf == [] then None
    else if buf[0] != DOLLAR then Some(1)
    else
      var i := FindHash(buf, 1);
      if i + 3 <= |buf| then Some(i + 3) else None
  }

  /** The loop of the matcher. */
  method PacketMatcher(buf: seq<byte>) returns (r: Option<nat>)
    ensures r == Match(buf)
  {
    if buf == [] {
      return None;
    }
    if buf[0] != DOLLAR {
      return Some(1);
    }
    var i := 1;
    while i != |buf| && buf[i] != HASH
      invariant 1 <= i <= |buf| && FindHash(buf, i) == FindHash(buf, 1)
      decreases |buf| - i
    {
      i := i + 1;
    }
    return if i + 3 <= |buf| then Some(i + 3) else None;
  }

  lemma HashAt(buf: seq<byte>, i: nat)
    requires 1 <= i < |buf| && buf[i] == HASH && forall k :: 1 <= k < i ==> buf[k] != HASH
    ensures FindHash(buf, 1) == i
  {
  }

  /** A message that is complete stays what it is whatever follows, and no shorter part of it is complete. */
  lemma PrefixStable(buf: seq<byte>, more: seq<byte>)
    requires Match(buf).Some?
    ensures Match(buf + more) == Match(buf)
    ensures forall k :: 0 <= k < Match(buf).value ==> Match(buf[..k]) == None
  {
    if buf[0] == DOLLAR {
      var i := FindHash(buf, 1);
      HashAt(buf + more, i);
      forall k | 0 <= k < i + 3
        ensures Match(buf[..k]) == None
      {
        if k > 0 {
          var r := FindHash(buf[..k], 1);
          assert r < k ==> buf[r] == HASH;
        }
      }
    }
  }

  datatype Cuts = Cuts(messages: seq<seq<byte>>, rest: seq<byte>)

  /** All complete messages of a buffer, and what is left. */
  function Cut(buf: seq<byte>): Cuts
    decreases |buf|
  {
    match Match(buf)
    case None => Cuts([], buf)
    case Some(n) =>
      var c := Cut(buf[n..]);
      Cuts([buf[..n]] + c.messages, c.rest)
  }

  lemma CutStep(buf: seq<byte>, n: nat)
    requires Match(buf) == Some(n)
    ensures Cut(buf) == Cuts([buf[..n]] + Cut(buf[n..]).messages, Cut(buf[n..]).rest)
  {
  }

  lemma CutNothing(buf: seq<byte>)
    requires Match(buf) == None
    ensures Cut(buf) == Cuts([], buf)
  {
  }

  lemma {:induction false} CutMore(buf: seq<byte>, more: seq<byte>)
    ensures Cut(buf + more)
         == Cuts(Cut(buf).messages + Cut(Cut(buf).rest + more).messages, Cut(Cut(buf).rest + more).rest)
    decreases |buf|
  {
    hide Match, Cut;
    if Match(buf).Some? {
      var n := Match(buf).value;
      PrefixStable(buf, more);
      CutStep(buf, n);
      CutStep(buf + more, n);
      CutMore(buf[n..], more);
      assert (buf + more)[..n] == buf[..n] && (buf + more)[n..] == buf[n..] + more;
      var c, d := Cut(buf[n..]), Cut(Cut(buf[n..]).rest + more);
      assert [buf[..n]] + (c.messages + d.messages) == [buf[..n]] + c.messages + d.messages;
    } else {
      CutNothing(buf);
      var d := Cut(buf + more);
      assert [] + d.messages == d.messages;
    }
  }

  /** Messages cut as chunks arrive. */
  function Received(chunks: seq<seq<byte>>): Cuts {
    if chunks == [] then Cut([])
    else
      var before := Received(chunks[..|chunks| - 1]);
      var c := Cut(before.rest + chunks[|chunks| - 1]);
      Cuts(before.messages + c.messages, c.rest)
  }

  /** However a stream is fragmented, the same messages are cut from it. */
  lemma {:induction false} FragmentationDoesNotMatter(chunks: seq<seq<byte>>)
    ensures Received(chunks) == Cut(Flatten(chunks))
    decreases |chunks|
  {
    hide Cut;
    if chunks == [] {
    } else {
      var n := |chunks| - 1;
      FragmentationDoesNotMatter(chunks[..n]);
      CutMore(Flatten(chunks[..n]), chunks[n]);
    }
  }

  // ---------------------------------------------------------------- packets

  function Sum(s: seq<byte>): byte {
    if s == [] then 0 else (Sum(s[..|s| - 1]) + s[|s| - 1]) % 256
  }

  /** A packet with any checksum, and with its own. */
  function FrameWith(payload: seq<byte>, sum: byte): seq<byte> {
    [DOLLAR] + payload + [HASH] + PackByte(sum)
  }

  function Frame(payload: seq<byte>): seq<byte> {
    FrameWith(payload, Sum(payload))
  }

  datatype Event = Break | Ignored | Nack | Command(payload: seq<byte>)

  /** What the matcher cuts: something, and of a packet at least its frame. */
  predicate IsMessage(msg: seq<byte>) {
    msg != [] && (msg[0] == DOLLAR ==> |msg| >= 4)
  }

  /** `handlePacket` on one message. */
  function Interpret(msg: seq<byte>): Event
    requires IsMessage(msg)
  {
    if msg[0] == BREAK then Break
    else if msg[0] != DOLLAR then Ignored
    else
      var n := |msg|;
      if Sum(msg[1..n - 3]) != UnpackPair(msg[n - 2], msg[n - 1]) then Nack else Command(msg[1..n - 3])
  }

  lemma MatchedMessage(buf: seq<byte>)
    requires Match(buf).Some?
    ensures IsMessage(buf[..Match(buf).value])
  {
  }

  method Checksum(msg: seq<byte>) returns (sum: byte)
    requires |msg| >= 4
    ensures sum == Sum(msg[1..|msg| - 3])
  {
    sum := 0;
    for i := 1 to |msg| - 3
      invariant sum == Sum(msg[1..i])
    {
      assert msg[1..i + 1][..i - 1] == msg[1..i];
      sum := (sum + msg[i]) % 256;
    }
  }

  /** A framed payload is cut where it ends exactly when the payload has no `#`. */
  lemma FrameIsCut(payload: seq<byte>, sum: byte, rest: seq<byte>)
    ensures Match(FrameWith(payload, sum) + rest) == Some(|FrameWith(payload, sum)|) <==> HASH !in payload
  {
    hide PackByte;
    var buf, n := FrameWith(payload, sum) + rest, |payload|;
    assert buf[0] == DOLLAR;
    assert forall k :: 0 <= k < n ==> buf[k + 1] == payload[k];
    assert buf[n + 1] == HASH;
    if HASH !in payload {
      assert forall k :: 1 <= k < n + 1 ==> buf[k] == payload[k - 1];
      HashAt(buf, n + 1);
    } else {
      var k :| 0 <= k < n && payload[k] == HASH;
      assert buf[k + 1] == HASH;
    }
  }

  /** A packet is the command it carries exactly when its checksum is right; otherwise it is sent for again. */
  lemma FrameIsCommand(payload: seq<byte>, sum: byte)
    ensures IsMessage(FrameWith(payload, sum))
    ensures Interpret(FrameWith(payload, sum)) == if sum == Sum(payload) then Command(payload) else Nack
  {
    hide PackByte, UnpackPair;
    var f := FrameWith(payload, sum);
    var n := |f|;
    assert f[1..n - 3] == payload;
    assert f[n - 2] == PackByte(sum)[0] && f[n - 1] == PackByte(sum)[1];
    ByteRoundTrip(sum);
  }

  lemma {:induction false} SumOfDamaged(payload: seq<byte>, k: nat, b: byte)
    requires k < |payload|
    ensures Sum(payload[k := b]) == (Sum(payload) - payload[k] + b) % 256
    decreases |payload|
  {
    var n, damaged := |payload| - 1, payload[k := b];
    if k == n {
      assert damaged[..n] == payload[..n];
      ExchangeLast(Sum(payload[..n]), payload[n], b);
    } else {
      assert damaged[..n] == payload[..n][k := b];
      SumOfDamaged(payload[..n], k, b);
      ExchangeEarlier(Sum(payload[..n]), payload[k], b, payload[n]);
    }
  }

  lemma ExchangeLast(sum: byte, a: byte, b: byte)
    ensures (sum + b) % 256 == ((sum + a) % 256 - a + b) % 256
  {
    ReducedSum(sum + a, b - a);
  }

  lemma ExchangeEarlier(sum: byte, a: byte, b: byte, last: byte)
    ensures ((sum - a + b) % 256 + last) % 256 == ((sum + last) % 256 - a + b) % 256
  {
    ReducedSum(sum - a + b, last);
    ReducedSum(sum + last, b - a);
  }

  lemma ReducedSum(x: int, y: int)
    ensures (x % 256 + y) % 256 == (x + y) % 256
  {
    assert x % 256 + y == x + y - 256 * (x / 256);
  }

  /** A packet with one wrong byte in its payload is never taken for a command. */
  lemma DamageIsNoticed(payload: seq<byte>, k: nat, b: byte)
    requires k < |payload| && b != payload[k]
    ensures IsMessage(FrameWith(payload[k := b], Sum(payload)))
    ensures Interpret(FrameWith(payload[k := b], Sum(payload))) == Nack
  {
    hide FrameWith, Interpret, Sum;
    SumOfDamaged(payload, k, b);
    FrameIsCommand(payload[k := b], Sum(payload));
  }

  /** What arrives from a client: stray bytes (acknowledgements, breaks), and packets with any checksum. */
  datatype Item = Stray(c: byte) | Packet(payload: seq<byte>, sum: byte)

  predicate WellFormed(i: Item) {
    match i
    case Stray(c) => c != DOLLAR
    case Packet(payload, _) => HASH !in payload && |payload| + 4 <= MAX_PACKET_LEN
  }

  function Sent(i: Item): seq<byte> {
    match i
    case Stray(c) => [c]
    case Packet(payload, sum) => FrameWith(payload, sum)
  }

  function Meaning(i: Item): Event {
    match i
    case Stray(c) => if c == BREAK then Break else Ignored
    case Packet(payload, sum) => if sum == Sum(payload) then Command(payload) else Nack
  }

  function Stream(items: seq<Item>): seq<byte> {
    if items == [] then [] else Sent(items[0]) + Stream(items[1..])
  }

  function Messages(items: seq<Item>): seq<seq<byte>> {
    seq(|items|, i requires 0 <= i < |items| => Sent(items[i]))
  }

  lemma SentIsCut(i: Item, rest: seq<byte>)
    requires WellFormed(i)
    ensures Match(Sent(i) + rest) == Some(|Sent(i)|) && 1 <= |Sent(i)| <= MAX_PACKET_LEN
  {
    hide Match;
    match i {
      case Stray(c) => StrayIsCut(c, rest);
      case Packet(payload, sum) => FrameIsCut(payload, sum, rest);
    }
  }

  lemma StrayIsCut(c: byte, rest: seq<byte>)
    requires c != DOLLAR
    ensures Match([c] + rest) == Some(1)
  {
    assert ([c] + rest)[0] == c;
  }

  /** Any stream of well-formed items is cut into exactly those items. */
  lemma {:induction false} StreamIsCut(items: seq<Item>)
    requires forall i :: 0 <= i < |items| ==> WellFormed(items[i])
    ensures Cut(Stream(items)) == Cuts(Messages(items), [])
    decreases |items|
  {
    hide Match, Sent, WellFormed;
    if items == [] {
      EmptyIsNotCut();
    } else {
      var s := Sent(items[0]);
      SentIsCut(items[0], Stream(items[1..]));
      StreamIsCut(items[1..]);
      assert Stream(items)[..|s|] == s && Stream(items)[|s|..] == Stream(items[1..]);
      assert Messages(items) == [s] + Messages(items[1..]);
    }
  }

  lemma EmptyIsNotCut()
    ensures Match([]) == None
  {
  }

  /**
   Received in any fragments, the items come out in order, each packet as the command it carries, or as
   one to be sent again if its checksum is wrong.
   */
  lemma ItemsAreReceived(items: seq<Item>, chunks: seq<seq<byte>>)
    requires forall i :: 0 <= i < |items| ==> WellFormed(items[i])
    requires Flatten(chunks) == Stream(items)
    ensures Received(chunks) == Cuts(Messages(items), [])
    ensures forall i :: 0 <= i < |items| ==>
      && IsMessage(Messages(items)[i])
      && Interpret(Messages(items)[i]) == Meaning(items[i])
  {
    hide Received, Cut, Stream, Flatten;
    FragmentationDoesNotMatter(chunks);
    StreamIsCut(items);
    forall i | 0 <= i < |items|
      ensures IsMessage(Sent(items[i]))
      ensures Interpret(Sent(items[i])) == Meaning(items[i])
    {
      if items[i].Packet? {
        FrameIsCommand(items[i].payload, items[i].sum);
      }
    }
  }

  /** At no point does an incomplete message fill the receive buffer, so the connection is not dropped. */
  lemma {:induction false} BufferNeverFills(items: seq<Item>, sofar: nat)
    requires forall i :: 0 <= i < |items| ==> WellFormed(items[i])
    requires sofar <= |Stream(items)|
    ensures |Cut(Stream(items)[..sofar]).rest| < MAX_PACKET_LEN
    decreases |items|
  {
    hide Match, Sent, WellFormed;
    var buf := Stream(items)[..sofar];
    if items == [] {
      EmptyIsNotCut();
    } else {
      var s := Sent(items[0]);
      SentIsCut(items[0], Stream(items[1..]));
      SentIsCut(items[0], []);
      assert s + [] == s;
      if sofar < |s| {
        PrefixStable(s, []);
        assert buf == s[..sofar];
      } else {
        SentIsCut(items[0], Stream(items[1..])[..sofar - |s|]);
        assert buf == s + Stream(items[1..])[..sofar - |s|];
        assert buf[|s|..] == Stream(items[1..])[..sofar - |s|];
        BufferNeverFills(items[1..], sofar - |s|);
      }
    }
  }

  class Connection {
    var message: seq<byte>

    constructor ()
      ensures message == []
    {
      message := [];
    }

    /** A chunk arrives; `handlePacket` takes the messages that are complete out of the buffer. */
    method Receive(chunk: seq<byte>) returns (events: seq<Event>, ghost cut: seq<seq<byte>>)
      modifies this
      ensures cut == Cut(old(message) + chunk).messages && message == Cut(old(message) + chunk).rest
      ensures |events| == |cut|
      ensures forall i :: 0 <= i < |cut| ==>
        IsMessage(cut[i]) && events[i] == Interpret(cut[i])
    {
      hide Match, Interpret;
      message := message + chunk;
      ghost var all := message;
      events, cut := [], [];
      while true
        invariant Cut(all) == Cuts(cut + Cut(message).messages, Cut(message).rest)
        invariant |events| == |cut|
        invariant forall i :: 0 <= i < |cut| ==>
          IsMessage(cut[i]) && events[i] == Interpret(cut[i])
        decreases |message|
      {
        var len := Match(message);
        if len.None? {
          return;
        }
        MatchedMessage(message);
        var msg := message[..len.value];
        message := message[len.value..];
        events := events + [Interpret(msg)];
        cut := cut + [msg];
      }
    }
  }

  // ---------------------------------------------------------------- replies

  /** A byte with bit 5 inverted. */
  function Flip(c: byte): byte {
    if c / 32 % 2 == 1 then c - 32 else c + 32
  }

  predicate Special(c: byte) {
    c == DOLLAR || c == HASH || c == STAR || c == CLOSING_BRACE
  }

  function Escaped(c: byte): seq<byte> {
    if Special(c) then [CLOSING_BRACE, Flip(c)] else [c]
  }

  function Escape(s: seq<byte>): seq<byte> {
    if s == [] then [] else Escape(s[..|s| - 1]) + Escaped(s[|s| - 1])
  }

  /** Standard unescaping: a brace stands for the next byte with bit 5 inverted. */
  function Unescape(s: seq<byte>): seq<byte>
    decreases |s|
  {
    if s == [] then []
    else if s[0] == CLOSING_BRACE && |s| >= 2 then [Flip(s[1])] + Unescape(s[2..])
    else [s[0]] + Unescape(s[1..])
  }

  lemma SumSnoc(a: seq<byte>, c: byte)
    ensures Sum(a + [c]) == (Sum(a) + c) % 256
  {
    assert (a + [c])[..|a|] == a;
  }

  lemma EscapeSnoc(s: seq<byte>, i: nat)
    requires i < |s|
    ensures Escape(s[..i + 1]) == Escape(s[..i]) + Escaped(s[i])
  {
    assert s[..i + 1][..i] == s[..i];
  }

  lemma SumEscaped(body: seq<byte>, c: byte)
    ensures Sum(body + Escaped(c))
         == if Special(c) then ((Sum(body) + CLOSING_BRACE) % 256 + Flip(c)) % 256 else (Sum(body) + c) % 256
  {
    hide Flip, Sum, Special;
    if Special(c) {
      SumSnoc(body, CLOSING_BRACE);
      SumSnoc(body + [CLOSING_BRACE], Flip(c));
      assert body + [CLOSING_BRACE] + [Flip(c)] == body + Escaped(c);
    } else {
      SumSnoc(body, c);
    }
  }

  /** The loop over the characters of a reply, with its running checksum. */
  method EscapeReply(pkt: seq<byte>) returns (body: seq<byte>, checksum: byte)
    ensures body == Escape(pkt) && checksum == Sum(body)
  {
    assert pkt[..0] == [] && Escape([]) == [] && Sum([]) == 0;
    hide Sum, Escape, Flip, Special;
    body, checksum := [], 0;
    for i := 0 to |pkt|
      invariant body == Escape(pkt[..i]) && checksum == Sum(body)
    {
      var c := pkt[i];
      EscapeSnoc(pkt, i);
      SumEscaped(body, c);
      if Special(c) {
        checksum := ((checksum + CLOSING_BRACE) % 256 + Flip(c)) % 256;
        body := body + [CLOSING_BRACE, Flip(c)];
      } else {
        checksum := (checksum + c) % 256;
        body := body + [c];
      }
    }
    assert pkt[..|pkt|] == pkt;
  }

  method MakeReply(pkt: seq<byte>) returns (data: seq<byte>)
    ensures data == Frame(Escape(pkt))
  {
    var body, checksum := EscapeReply(pkt);
    data := [DOLLAR] + body + [HASH] + PackByte(checksum);
  }

  lemma EscapedIsPlain(c: byte)
    ensures Special(c) ==> Flip(Flip(c)) == c
    ensures forall k :: 0 <= k < |Escaped(c)| ==>
      Escaped(c)[k] != DOLLAR && Escaped(c)[k] != HASH && Escaped(c)[k] != STAR
    ensures |Escaped(c)| == 1 ==> c != CLOSING_BRACE
  {
  }

  lemma {:induction false} EscapeIsPlain(s: seq<byte>)
    ensures DOLLAR !in Escape(s) && HASH !in Escape(s) && STAR !in Escape(s)
    decreases |s|
  {
    hide Escaped;
    if s == [] {
    } else {
      EscapeIsPlain(s[..|s| - 1]);
      EscapedIsPlain(s[|s| - 1]);
    }
  }

  lemma UnescapeOne(c: byte, rest: seq<byte>)
    ensures Unescape(Escaped(c) + rest) == [c] + Unescape(rest)
  {
    EscapedIsPlain(c);
    var t := Escaped(c) + rest;
    if Special(c) {
      assert t[2..] == rest;
    } else {
      assert t[1..] == rest;
    }
  }

  lemma {:induction false} UnescapeMore(s: seq<byte>, rest: seq<byte>)
    ensures Unescape(Escape(s) + rest) == s + Unescape(rest)
    decreases |s|
  {
    hide Escaped, Unescape;
    if s == [] {
      assert Escape(s) + rest == rest;
    } else {
      var n := |s| - 1;
      UnescapeMore(s[..n], Escaped(s[n]) + rest);
      UnescapeOne(s[n], rest);
      assert Escape(s) + rest == Escape(s[..n]) + (Escaped(s[n]) + rest);
      assert s == s[..n] + [s[n]];
    }
  }

  lemma EscapeRoundTrip(s: seq<byte>)
    ensures Unescape(Escape(s)) == s
  {
    UnescapeMore(s, []);
    assert Escape(s) + [] == Escape(s);
    assert Unescape([]) == [];
  }

  /** Every reply is one packet with a valid checksum, whatever follows it, and unescapes to what was replied. */
  lemma ReplyIsRecovered(pkt: seq<byte>, rest: seq<byte>)
    ensures Match(Frame(Escape(pkt)) + rest) == Some(|Frame(Escape(pkt))|)
    ensures IsMessage(Frame(Escape(pkt))) && Interpret(Frame(Escape(pkt))) == Command(Escape(pkt))
    ensures Unescape(Escape(pkt)) == pkt
  {
    hide Match, FrameWith, Interpret;
    EscapeIsPlain(pkt);
    FrameIsCut(Escape(pkt), Sum(Escape(pkt)), rest);
    FrameIsCommand(Escape(pkt), Sum(Escape(pkt)));
    EscapeRoundTrip(pkt);
  }
}
