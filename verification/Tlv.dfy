/**
 * Tag-length-value framing in Comms over a byte stream that fragments reads and writes at will.
 * Every choice the operating system has (how much of a read or write happens, which errors occur)
 * is nondeterministic.
 */
module Tlv {
  import opened Words

  const HEADER_SIZE: nat := 12               // InternalTLV: packed u32 tag and u64 length
  const SEND_TLV_TEMP_BUFFER_SIZE: nat := 1024
  const MAX_MSG_SIZE: nat := 0x7fff_ffff

  datatype Message = Message(tag: u32, value: seq<u8>)

  // The format ----------------------------------------------------------------------------

  function Pow256(k: nat): (r: nat)
    ensures r >= 1
  {
    if k == 0 then 1 else 256 * Pow256(k - 1)
  }

  /** `k` bytes, least significant first. */
  function Le(n: nat, k: nat): (s: seq<u8>)
    ensures |s| == k
  {
    if k == 0 then [] else [n % 256] + Le(n / 256, k - 1)
  }

  function FromLe(s: seq<u8>): nat {
    if s == [] then 0 else s[0] + 256 * FromLe(s[1..])
  }

  lemma {:induction false} LeRoundTrip(n: nat, k: nat)
    requires n < Pow256(k)
    ensures FromLe(Le(n, k)) == n
  {
    if k > 0 {
      LeRoundTrip(n / 256, k - 1);
      assert Le(n, k)[1..] == Le(n / 256, k - 1);
    }
  }

  lemma {:induction false} FromLeRoundTrip(s: seq<u8>)
    ensures FromLe(s) < Pow256(|s|)
    ensures Le(FromLe(s), |s|) == s
  {
    if s != [] {
      FromLeRoundTrip(s[1..]);
      assert FromLe(s) % 256 == s[0] && FromLe(s) / 256 == FromLe(s[1..]);
    }
  }

  lemma Pow256Values()
    ensures Pow256(4) == 0x1_0000_0000 && Pow256(8) > MAX_MSG_SIZE
  {
    assert Pow256(2) == 0x1_0000;
    assert Pow256(4) == 0x1_0000 * Pow256(2);
    assert Pow256(6) == 0x1_0000 * Pow256(4);
    assert Pow256(8) == 0x1_0000 * Pow256(6);
  }

  function Header(tag: u32, length: nat): (h: seq<u8>)
    ensures |h| == HEADER_SIZE
  {
    Le(tag, 4) + Le(length, 8)
  }

  function Encode(m: Message): seq<u8> {
    Header(m.tag, |m.value|) + m.value
  }

  predicate Sendable(m: Message) { |m.value| <= MAX_MSG_SIZE }

  /** The tag and length a header stands for. */
  function ReadHeader(h: seq<u8>): (r: (u32, nat))
    requires |h| == HEADER_SIZE
  {
    FromLeRoundTrip(h[..4]);
    Pow256Values();
    (FromLe(h[..4]), FromLe(h[4..]))
  }

  /** The first message of a stream and what follows it; None if the stream does not start with one. */
  function Decode(s: seq<u8>): Option<(Message, seq<u8>)> {
    if |s| < HEADER_SIZE then None
    else
      var (tag, length) := ReadHeader(s[..HEADER_SIZE]);
      if length > MAX_MSG_SIZE || |s| < HEADER_SIZE + length then None
      else Some((Message(tag, s[HEADER_SIZE..HEADER_SIZE + length]), s[HEADER_SIZE + length..]))
  }

  lemma ReadHeaderOfHeader(tag: u32, length: nat)
    requires length <= MAX_MSG_SIZE
    ensures ReadHeader(Header(tag, length)) == (tag, length)
  {
    Pow256Values();
    hide Pow256, Le, FromLe;
    LeRoundTrip(tag, 4);
    LeRoundTrip(length, 8);
    assert Header(tag, length)[..4] == Le(tag, 4);
    assert Header(tag, length)[4..] == Le(length, 8);
  }

  lemma HeaderOfReadHeader(h: seq<u8>)
    requires |h| == HEADER_SIZE
    ensures Header(ReadHeader(h).0, ReadHeader(h).1) == h
  {
    hide Pow256, Le, FromLe;
    FromLeRoundTrip(h[..4]);
    FromLeRoundTrip(h[4..]);
    assert h == h[..4] + h[4..];
  }

  lemma DecodeEncode(m: Message, rest: seq<u8>)
    requires Sendable(m)
    ensures Decode(Encode(m) + rest) == Some((m, rest))
  {
    hide Header, ReadHeader;
    var s := Encode(m) + rest;
    ReadHeaderOfHeader(m.tag, |m.value|);
    assert s[..HEADER_SIZE] == Header(m.tag, |m.value|);
    assert s[HEADER_SIZE..HEADER_SIZE + |m.value|] == m.value;
    assert s[HEADER_SIZE + |m.value|..] == rest;
  }

  /** Only encodings decode. */
  lemma EncodeDecode(s: seq<u8>)
    requires Decode(s).Some?
    ensures Sendable(Decode(s).value.0) && s == Encode(Decode(s).value.0) + Decode(s).value.1
  {
    HeaderOfReadHeader(s[..HEADER_SIZE]);
    hide Header;
    var m, rest := Decode(s).value.0, Decode(s).value.1;
    assert s == s[..HEADER_SIZE] + m.value + rest;
  }

  function EncodeAll(ms: seq<Message>): seq<u8> {
    if ms == [] then [] else Encode(ms[0]) + EncodeAll(ms[1..])
  }

  function DecodeN(n: nat, s: seq<u8>): Option<(seq<Message>, seq<u8>)> {
    if n == 0 then Some(([], s))
    else match Decode(s)
         case None => None
         case Some((m, rest)) =>
           match DecodeN(n - 1, rest)
           case None => None
           case Some((ms, rest')) => Some(([m] + ms, rest'))
  }

  /** A stream of messages is received as exactly those messages, in order, with nothing lost or left over. */
  lemma {:induction false} StreamRoundTrip(ms: seq<Message>, rest: seq<u8>)
    requires forall m :: m in ms ==> Sendable(m)
    ensures DecodeN(|ms|, EncodeAll(ms) + rest) == Some((ms, rest))
    decreases |ms|
  {
    if ms == [] {
      assert EncodeAll(ms) + rest == rest;
    } else {
      hide Encode, Decode;
      var tail := EncodeAll(ms[1..]) + rest;
      assert EncodeAll(ms) + rest == Encode(ms[0]) + tail;
      DecodeEncode(ms[0], tail);
      StreamRoundTrip(ms[1..], rest);
      assert [ms[0]] + ms[1..] == ms;
    }
  }

  // The connection --------------------------------------------------------------------------

  lemma AfterHeader(s: seq<u8>, value: seq<u8>, rest: seq<u8>)
    requires |s| >= HEADER_SIZE && ReadHeader(s[..HEADER_SIZE]).1 == |value| <= MAX_MSG_SIZE
    requires s[HEADER_SIZE..] == value + rest
    ensures Decode(s) == Some((Message(ReadHeader(s[..HEADER_SIZE]).0, value), rest))
  {
    hide ReadHeader;
    assert s == s[..HEADER_SIZE] + (value + rest);
    assert s[HEADER_SIZE..HEADER_SIZE + |value|] == value;
    assert s[HEADER_SIZE + |value|..] == rest;
  }

  /** A prefix of `data` has been added to what was written before. */
  ghost predicate WentOut(before: seq<u8>, wire: seq<u8>, data: seq<u8>) {
    exists k: nat :: k <= |data| && wire == before + data[..k]
  }

  lemma PrefixOfFirst(before: seq<u8>, wire: seq<u8>, first: seq<u8>, second: seq<u8>)
    requires WentOut(before, wire, first)
    ensures WentOut(before, wire, first + second)
  {
    var k: nat :| k <= |first| && wire == before + first[..k];
    assert (first + second)[..k] == first[..k];
  }

  lemma PrefixOfSecond(before: seq<u8>, wire: seq<u8>, first: seq<u8>, second: seq<u8>)
    requires WentOut(before + first, wire, second)
    ensures WentOut(before, wire, first + second)
  {
    var k: nat :| k <= |second| && wire == before + first + second[..k];
    assert (first + second)[..|first| + k] == first + second[..k];
  }

  datatype IoResult = Moved(n: nat) | Failed(fatal: bool)

  class Comms {
    /** Whether the transport never fails except at the end of the stream. */
    const reliable: bool
    /** Whether the transport has a RawExchange of its own. */
    const hasRawExchange: bool
    var connected: bool
    /** How often the transport has moved less than it can, and how often for good. */
    ghost var troubles: nat
    ghost var breaks: nat
    /** Everything written so far. */
    var wire: seq<u8>
    /** Everything the peer has sent or will send and that is not read yet. */
    var inbox: seq<u8>

    constructor (reliable: bool, hasRawExchange: bool, incoming: seq<u8>)
      ensures connected && wire == [] && inbox == incoming
      ensures this.reliable == reliable && this.hasRawExchange == hasRawExchange
    {
      this.reliable, this.hasRawExchange := reliable, hasRawExchange;
      connected, wire, inbox := true, [], incoming;
    }

    /** write(2): some non-empty prefix of the data goes out, or nothing, or an error. */
    method RawSend(data: seq<u8>) returns (r: IoResult)
      requires data != []
      modifies `wire, `troubles, `breaks
      ensures troubles == old(troubles) + if r == Moved(0) || r.Failed? then 1 else 0
      ensures breaks == old(breaks) + if r == Failed(true) then 1 else 0
      ensures r.Moved? ==> r.n <= |data| && wire == old(wire) + data[..r.n]
      ensures r.Failed? ==> wire == old(wire)
      ensures reliable ==> r.Moved? && r.n > 0
    {
      if * {
        var n: nat :| n <= |data| && (reliable ==> n > 0);
        wire := wire + data[..n];
        troubles := troubles + if n == 0 then 1 else 0;
        return Moved(n);
      } else if !reliable {
        var fatal: bool := *;
        troubles, breaks := troubles + 1, breaks + if fatal then 1 else 0;
        return Failed(fatal);
      } else {
        wire := wire + data[..1];
        return Moved(1);
      }
    }

    /** read(2): at most `len` of the next bytes, none at the end of the stream, or an error. */
    method RawRecv(len: nat) returns (r: IoResult, data: seq<u8>)
      requires len > 0
      modifies `inbox, `troubles, `breaks
      ensures troubles == old(troubles) + if r == Moved(0) || r.Failed? then 1 else 0
      ensures breaks == old(breaks) + if r == Moved(0) || r == Failed(true) then 1 else 0
      ensures r.Moved? ==> r.n == |data| <= len && old(inbox) == data + inbox && (r.n == 0 ==> old(inbox) == [])
      ensures r.Failed? ==> inbox == old(inbox)
      ensures reliable ==> r.Moved?
    {
      data := [];
      if * {
        var n: nat :| n <= len && n <= |inbox| && (inbox != [] ==> n > 0);
        data, inbox := inbox[..n], inbox[n..];
        troubles, breaks := troubles + if n == 0 then 1 else 0, breaks + if n == 0 then 1 else 0;
        return Moved(n), data;
      } else if !reliable {
        var fatal: bool := *;
        troubles, breaks := troubles + 1, breaks + if fatal then 1 else 0;
        return Failed(fatal), [];
      } else {
        var n := if inbox == [] then 0 else 1;
        data, inbox := inbox[..n], inbox[n..];
        troubles, breaks := troubles + if n == 0 then 1 else 0, breaks + if n == 0 then 1 else 0;
        return Moved(n), data;
      }
    }

    method Send(data: seq<u8>) returns (ok: bool)
      modifies this
      ensures inbox == old(inbox)
      ensures ok ==> old(connected) && connected && wire == old(wire) + data
      ensures !ok ==> WentOut(old(wire), wire, data)
      ensures reliable && old(connected) ==> ok
      // it fails only with the transport, and only a fatal error ends the connection
      ensures ok <==> old(connected) && troubles == old(troubles)
      ensures connected <==> old(connected) && breaks == old(breaks)
    {
      if !connected {
        assert wire == old(wire) + data[..0];
        return false;
      }
      var total := 0;
      assert wire == old(wire) + data[..0];
      while total < |data|
        invariant total <= |data| && connected && inbox == old(inbox)
        invariant troubles == old(troubles) && breaks == old(breaks)
        invariant wire == old(wire) + data[..total]
        decreases |data| - total
      {
        var r := RawSend(data[total..]);
        match r
        case Failed(fatal) =>
          if fatal {
            connected := false;
          }
          return false;
        case Moved(n) =>
          assert data[..total] + data[total..][..n] == data[..total + n];
          if n == 0 {
            return false;
          }
          total := total + n;
      }
      assert data[..total] == data;
      return true;
    }

    method Recv(len: nat) returns (ok: bool, data: seq<u8>)
      modifies this
      ensures wire == old(wire)
      ensures ok ==> old(connected) && connected && |data| == len && old(inbox) == data + inbox
      ensures !ok ==> exists k: nat :: k <= |old(inbox)| && inbox == old(inbox)[k..]
      ensures reliable && old(connected) ==> (ok <==> |old(inbox)| >= len)
      // it fails only with the transport, and a fatal error or the end of the stream ends the connection
      ensures ok <==> old(connected) && troubles == old(troubles)
      ensures connected <==> old(connected) && breaks == old(breaks)
      ensures reliable && !ok ==> !connected
    {
      data := [];
      if !connected {
        assert inbox == old(inbox)[0..];
        return false, data;
      }
      assert inbox == old(inbox)[0..];
      while |data| < len
        invariant |data| <= len && connected && wire == old(wire)
        invariant troubles == old(troubles) && breaks == old(breaks)
        invariant |data| <= |old(inbox)| && data == old(inbox)[..|data|] && inbox == old(inbox)[|data|..]
        decreases len - |data|
      {
        var r, more := RawRecv(len - |data|);
        match r
        case Failed(fatal) =>
          if fatal {
            connected := false;
          }
          return false, data;
        case Moved(n) =>
          if n == 0 {
            connected := false;
            return false, data;
          }
          ghost var before := data;
          data := data + more;
          assert old(inbox)[|before|..] == more + inbox;
          assert old(inbox) == before + (more + inbox);
      }
      assert old(inbox) == data + inbox;
      return true, data;
    }

    method SendTLV(tag: u32, value: seq<u8>) returns (ok: bool)
      modifies this
      ensures inbox == old(inbox)
      ensures ok ==> old(connected) && connected && |value| <= MAX_MSG_SIZE
      ensures ok ==> wire == old(wire) + Encode(Message(tag, value))
      ensures !ok ==> WentOut(old(wire), wire, Encode(Message(tag, value)))
      ensures reliable && old(connected) && |value| <= MAX_MSG_SIZE ==> ok
      ensures ok <==> old(connected) && |value| <= MAX_MSG_SIZE && troubles == old(troubles)
      ensures connected <==> old(connected) && breaks == old(breaks)
    {
      ghost var e := Encode(Message(tag, value));
      if |value| > MAX_MSG_SIZE {
        assert wire == old(wire) + e[..0];
        return false;
      }
      var inlineSize := Min(|value|, SEND_TLV_TEMP_BUFFER_SIZE - HEADER_SIZE);
      var tlv := Header(tag, |value|) + value[..inlineSize];
      assert e == tlv + value[inlineSize..];
      ok := Send(tlv);
      if !ok {
        PrefixOfFirst(old(wire), wire, tlv, value[inlineSize..]);
        return;
      }
      if inlineSize < |value| {
        ok := Send(value[inlineSize..]);
        if !ok {
          PrefixOfSecond(old(wire), wire, tlv, value[inlineSize..]);
        }
      }
    }

    /** Receives tag and length; a length over the limit is an error, with the header consumed. */
    method RecvTL() returns (ok: bool, tag: u32, length: nat)
      modifies this
      ensures wire == old(wire)
      ensures ok ==>
                && old(connected) && connected && length <= MAX_MSG_SIZE
                && |old(inbox)| >= HEADER_SIZE && ReadHeader(old(inbox)[..HEADER_SIZE]) == (tag, length)
                && inbox == old(inbox)[HEADER_SIZE..]
      ensures !ok ==> exists k: nat :: k <= |old(inbox)| && inbox == old(inbox)[k..]
      ensures reliable && old(connected) ==>
                (ok <==> |old(inbox)| >= HEADER_SIZE && ReadHeader(old(inbox)[..HEADER_SIZE]).1 <= MAX_MSG_SIZE)
      ensures ok <==>
                && old(connected) && troubles == old(troubles)
                && |old(inbox)| >= HEADER_SIZE && ReadHeader(old(inbox)[..HEADER_SIZE]).1 <= MAX_MSG_SIZE
      ensures connected <==> old(connected) && breaks == old(breaks)
    {
      hide ReadHeader;
      var tl;
      ok, tl := Recv(HEADER_SIZE);
      if !ok {
        return false, 0, 0;
      }
      assert tl == old(inbox)[..HEADER_SIZE];
      assert inbox == old(inbox)[HEADER_SIZE..];
      var header := ReadHeader(tl);
      return header.1 <= MAX_MSG_SIZE, header.0, header.1;
    }

    /** RecvTLV into a container that is resized to fit. */
    method RecvTLV() returns (ok: bool, tag: u32, value: seq<u8>)
      modifies this
      ensures wire == old(wire)
      ensures ok ==> old(connected) && connected && Decode(old(inbox)) == Some((Message(tag, value), inbox))
      ensures !ok ==> exists k: nat :: k <= |old(inbox)| && inbox == old(inbox)[k..]
      ensures reliable && old(connected) ==> (ok <==> Decode(old(inbox)).Some?)
      ensures ok <==> old(connected) && troubles == old(troubles) && Decode(old(inbox)).Some?
      ensures connected <==> old(connected) && breaks == old(breaks)
    {
      var length;
      value := [];
      ok, tag, length := RecvTL();
      if !ok {
        return;
      }
      ghost var mid := inbox;
      if length > 0 {
        ok, value := Recv(length);
        if !ok {
          ghost var k: nat :| k <= |mid| && inbox == mid[k..];
          assert mid[k..] == old(inbox)[HEADER_SIZE + k..];
          return;
        }
      }
      AfterHeader(old(inbox), value, inbox);
    }

    /** RecvTLV into a buffer of fixed size, optionally insisting on a tag. */
    method RecvTLVInto(bufferSize: nat, expected: Option<u32>) returns (ok: bool, tag: u32, value: seq<u8>)
      modifies this
      ensures wire == old(wire)
      ensures ok ==>
                && old(connected) && connected && Decode(old(inbox)) == Some((Message(tag, value), inbox))
                && (expected.Some? ==> tag == expected.value) && |value| <= bufferSize
      ensures reliable && old(connected) && Decode(old(inbox)).Some? ==>
                var m := Decode(old(inbox)).value.0;
                var fits := (expected.Some? ==> m.tag == expected.value) && |m.value| <= bufferSize;
                // a message that is refused has lost its header, and its value is next in the stream
                (ok <==> fits) && (!fits ==> inbox == old(inbox)[HEADER_SIZE..])
      ensures ok <==>
                && old(connected) && troubles == old(troubles) && Decode(old(inbox)).Some?
                && var m := Decode(old(inbox)).value.0;
                   (expected.Some? ==> m.tag == expected.value) && |m.value| <= bufferSize
      ensures connected <==> old(connected) && breaks == old(breaks)
    {
      var length;
      value := [];
      ok, tag, length := RecvTL();
      if !ok {
        return;
      }
      if expected.Some? && tag != expected.value {
        return false, tag, value;
      }
      if length == 0 {
        AfterHeader(old(inbox), value, inbox);
        return;
      }
      if length > bufferSize {
        return false, tag, value;
      }
      ok, value := Recv(length);
      if ok {
        AfterHeader(old(inbox), value, inbox);
      }
    }

    /** RawExchange where there is one, otherwise Send and then Recv. */
    method Exchange(data: seq<u8>, len: nat) returns (ok: bool, reply: seq<u8>)
      modifies this
      ensures ok ==>
                && old(connected) && connected && wire == old(wire) + data
                && |reply| == len && old(inbox) == reply + inbox
      ensures !ok ==> WentOut(old(wire), wire, data)
      ensures !ok ==> exists k: nat :: k <= |old(inbox)| && inbox == old(inbox)[k..]
      ensures reliable && old(connected) ==> (ok <==> |old(inbox)| >= len)
      ensures ok <==> old(connected) && troubles == old(troubles)
      ensures connected <==> old(connected) && breaks == old(breaks)
    {
      reply := [];
      assert wire == old(wire) + data[..0] && inbox == old(inbox)[0..];
      if !connected {
        return false, reply;
      }
      if hasRawExchange {
        ok, reply := RawExchange(data, len);
        if !ok {
          connected := false;
        }
        return;
      }
      ok := Send(data);
      if ok {
        assert data[..|data|] == data;
        ok, reply := Recv(len);
      }
    }

    /** The transport's own exchange: writes everything and then reads `len` bytes, or fails on the way. */
    method RawExchange(data: seq<u8>, len: nat) returns (ok: bool, reply: seq<u8>)
      modifies `wire, `inbox, `troubles, `breaks
      ensures troubles - old(troubles) == breaks - old(breaks) == if ok then 0 else 1
      ensures ok ==> wire == old(wire) + data && |reply| == len && old(inbox) == reply + inbox
      ensures !ok ==> WentOut(old(wire), wire, data)
      ensures !ok ==> exists k: nat :: k <= |old(inbox)| && inbox == old(inbox)[k..]
      ensures reliable ==> (ok <==> |old(inbox)| >= len)
    {
      var fails: bool := *;
      if |inbox| < len || (fails && !reliable) {
        var k: nat, j: nat :| k <= |data| && j <= |inbox|;
        wire, inbox := wire + data[..k], inbox[j..];
        troubles, breaks := troubles + 1, breaks + 1;
        return false, [];
      }
      wire, reply, inbox := wire + data, inbox[..len], inbox[len..];
      return true, reply;
    }

    /** Sends one message and receives one, with the same effect as SendTLV followed by RecvTLV. */
    method ExchangeTLV(sendTag: u32, sendValue: seq<u8>) returns (ok: bool, tag: u32, value: seq<u8>)
      modifies this
      ensures ok ==>
                && old(connected) && connected && |sendValue| <= MAX_MSG_SIZE
                && wire == old(wire) + Encode(Message(sendTag, sendValue))
                && Decode(old(inbox)) == Some((Message(tag, value), inbox))
      ensures !ok ==> WentOut(old(wire), wire, Encode(Message(sendTag, sendValue)))
      ensures reliable && old(connected) ==>
                (ok <==> |sendValue| <= MAX_MSG_SIZE && Decode(old(inbox)).Some?)
      ensures ok <==>
                old(connected) && troubles == old(troubles) && |sendValue| <= MAX_MSG_SIZE && Decode(old(inbox)).Some?
      ensures connected <==> old(connected) && breaks == old(breaks)
    {
      tag, value := 0, [];
      ghost var e := Encode(Message(sendTag, sendValue));
      assert wire == old(wire) + e[..0];
      if |sendValue| > MAX_MSG_SIZE {
        return false, tag, value;
      }
      var inlineSize := Min(|sendValue|, SEND_TLV_TEMP_BUFFER_SIZE - HEADER_SIZE);
      var tlv := Header(sendTag, |sendValue|) + sendValue[..inlineSize];
      assert e == tlv + sendValue[inlineSize..];
      var tl;
      if inlineSize < |sendValue| {
        ok := Send(tlv);
        if !ok {
          PrefixOfFirst(old(wire), wire, tlv, sendValue[inlineSize..]);
          return;
        }
        ok, tl := Exchange(sendValue[inlineSize..], HEADER_SIZE);
        if !ok {
          PrefixOfSecond(old(wire), wire, tlv, sendValue[inlineSize..]);
        }
      } else {
        ok, tl := Exchange(tlv, HEADER_SIZE);
        if !ok {
          PrefixOfFirst(old(wire), wire, tlv, sendValue[inlineSize..]);
        }
      }
      if !ok {
        return;
      }
      assert wire == old(wire) + e && e[..|e|] == e;
      assert tl == old(inbox)[..HEADER_SIZE] && inbox == old(inbox)[HEADER_SIZE..];
      var header := ReadHeader(tl);
      tag := header.0;
      if header.1 > MAX_MSG_SIZE {
        return false, tag, value;
      }
      if header.1 > 0 {
        ok, value := Recv(header.1);
        if !ok {
          return;
        }
      }
      AfterHeader(old(inbox), value, inbox);
    }
  }

  lemma {:induction false} EncodeAllSnoc(ms: seq<Message>, m: Message)
    ensures EncodeAll(ms + [m]) == EncodeAll(ms) + Encode(m)
    decreases |ms|
  {
    hide Encode;
    if ms == [] {
      assert [m][1..] == [] && ms + [m] == [m];
    } else {
      EncodeAllSnoc(ms[1..], m);
      assert (ms + [m])[1..] == ms[1..] + [m];
    }
  }

  /** End to end: however the transport splits writes and reads, the peer gets the messages that were sent. */
  method Deliver(sender: Comms, receiver: Comms, ms: seq<Message>) returns (got: seq<Message>)
    requires sender != receiver && sender.reliable && receiver.reliable && sender.connected && receiver.connected
    requires sender.wire == [] && forall m :: m in ms ==> Sendable(m)
    modifies sender, receiver
    ensures got == ms && receiver.inbox == []
  {
    hide Encode, Decode;
    for i := 0 to |ms|
      invariant sender.connected && receiver.connected && sender.wire == EncodeAll(ms[..i])
    {
      var ok := sender.SendTLV(ms[i].tag, ms[i].value);
      assert ms[i] == Message(ms[i].tag, ms[i].value) && ms[i] in ms;
      EncodeAllSnoc(ms[..i], ms[i]);
      assert ms[..i + 1] == ms[..i] + [ms[i]];
    }
    assert ms[..|ms|] == ms && ms[0..] == ms;
    receiver.inbox := sender.wire;
    got := [];
    for i := 0 to |ms|
      invariant receiver.connected && got == ms[..i] && receiver.inbox == EncodeAll(ms[i..])
    {
      assert ms[i] in ms && ms[i..][1..] == ms[i + 1..];
      DecodeEncode(ms[i], EncodeAll(ms[i + 1..]));
      var ok, tag, value := receiver.RecvTLV();
      got := got + [Message(tag, value)];
      assert ms[..i + 1] == ms[..i] + [ms[i]];
    }
  }
}
