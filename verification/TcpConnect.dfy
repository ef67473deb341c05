// The framed TCP connection with its three buffers. The network is the two byte
// sequences at its ends: what the peer has sent, and what has been written.
module TcpConnect {
  import opened Comparators
  import opened Wrappers
  import opened FrameSpec

  // ---------- The byte orders of the standard library ----------

  // Converting the length to the head's integer type cuts off what the head has no
  // byte for.
  lemma Truncated16(big: bool, n: nat)
    ensures PutUint(big, n % 0x1_0000, 2) == PutUint(big, n, 2)
  {
    var q, v := n / 0x1_0000, n % 0x1_0000;
    Digit(n, 256 * q + v / 256, v % 256);
    Digit(256 * q + v / 256, q, v / 256);
    TwoBytes(n);
    TwoBytes(v);
  }

  lemma Truncated32(big: bool, n: nat)
    ensures PutUint(big, n % 0x1_0000_0000, 4) == PutUint(big, n, 4)
  {
    var q, v := n / 0x1_0000_0000, n % 0x1_0000_0000;
    var v1 := v / 256;
    Digit(n, 0x100_0000 * q + v1, v % 256);
    Digit(0x100_0000 * q + v1, 0x1_0000 * q + v1 / 256, v1 % 256);
    var high := v1 / 256;
    Digit(0x1_0000 * q + high, 256 * q + high / 256, high % 256);
    Digit(256 * q + high / 256, q, high / 256);
    FourBytes(n);
    FourBytes(v);
  }

  method PutUint16(big: bool, b: array<Byte>, v: nat)
    requires v < 0x1_0000 && b.Length >= 2
    modifies b
    ensures b[..2] == PutUint(big, v, 2) && b[2..] == old(b[2..])
  {
    TwoBytes(v);
    if big {
      b[0], b[1] := v / 256 % 256, v % 256;
    } else {
      b[0], b[1] := v % 256, v / 256 % 256;
    }
  }

  method PutUint32(big: bool, b: array<Byte>, v: nat)
    requires v < 0x1_0000_0000 && b.Length >= 4
    modifies b
    ensures b[..4] == PutUint(big, v, 4) && b[4..] == old(b[4..])
  {
    FourBytes(v);
    var low, high := v / 256 % 256, v / 256 / 256;
    if big {
      b[0], b[1], b[2], b[3] := high / 256 % 256, high % 256, low, v % 256;
    } else {
      b[0], b[1], b[2], b[3] := v % 256, low, high % 256, high / 256 % 256;
    }
  }

  method GetUint16(big: bool, b: array<Byte>) returns (v: nat)
    requires b.Length == 2
    ensures v == Uint(big, b[..])
  {
    var b0: int, b1: int := b[0], b[1];
    v := if big then 256 * b0 + b1 else b0 + 256 * b1;
    UintOfTwo(big, b[..]);
  }

  method GetUint32(big: bool, b: array<Byte>) returns (v: nat)
    requires b.Length == 4
    ensures v == Uint(big, b[..])
  {
    var b0: int, b1: int, b2: int, b3: int := b[0], b[1], b[2], b[3];
    v := if big then 0x100_0000 * b0 + 0x1_0000 * b1 + 256 * b2 + b3
         else b0 + 256 * b1 + 0x1_0000 * b2 + 0x100_0000 * b3;
    UintOfFour(big, b[..]);
    UintOfTwo(big, b[..][..2]);
    UintOfTwo(big, b[..][2..]);
  }

  class Connect<M> {
    const byteOrder: bool       // big-endian
    const headSize: nat
    const maxPacketSize: nat
    const hCache: array<Byte>
    const dCache: array<Byte>
    const cache: array<Byte>
    const unmarshal: seq<Byte> -> Option<M>
    var isClose: bool
    var input: seq<Byte>        // sent by the peer, not read yet
    var output: seq<Byte>       // written

    ghost const format: Format := Format(byteOrder, headSize, maxPacketSize)

    ghost predicate Valid() {
      && Supported(format)
      && hCache.Length == headSize && dCache.Length == maxPacketSize && cache.Length == maxPacketSize
      && hCache != dCache && hCache != cache && dCache != cache
    }

    constructor (byteOrder: bool, headSize: nat, maxPacketSize: nat, unmarshal: seq<Byte> -> Option<M>,
            input: seq<Byte>)
      requires headSize == 2 || headSize == 4
      ensures Valid() && fresh(hCache) && fresh(dCache) && fresh(cache)
      ensures format == Format(byteOrder, headSize, maxPacketSize) && this.unmarshal == unmarshal
      ensures !isClose && this.input == input && output == []
    {
      this.byteOrder, this.headSize, this.maxPacketSize := byteOrder, headSize, maxPacketSize;
      this.unmarshal := unmarshal;
      cache := new Byte[maxPacketSize];
      dCache := new Byte[maxPacketSize];
      hCache := new Byte[headSize];
      isClose := false;
      this.input, output := input, [];
    }

    method OnClose()
      modifies this`isClose
      ensures isClose
    {
      if !isClose {
        isClose := true;
      }
    }

    method PutSize(sz: nat)
      requires Valid() && headSize <= cache.Length
      modifies cache
      ensures cache[..headSize] == PutUint(byteOrder, sz, headSize)
    {
      if headSize == 2 {
        Truncated16(byteOrder, sz);
        PutUint16(byteOrder, cache, sz % 0x1_0000);
      } else {
        Truncated32(byteOrder, sz);
        PutUint32(byteOrder, cache, sz % 0x1_0000_0000);
      }
    }

    // Head and payload are put together in `cache` and written at once.
    method OnSend(d: seq<Byte>) returns (err: Option<FrameError>)
      requires Valid()
      modifies this`output, cache
      ensures err == if isClose then Some(ClosedErr)
                     else if |d| + headSize > maxPacketSize || |d| == 0 then Some(BadSize(|d|))
                     else None
      ensures output == if err.None? then old(output) + Frame(format, d) else old(output)
      ensures err.None? ==>
                var w := output[|old(output)|..];
                && |w| == headSize + |d| && w[headSize..] == d
                && (headSize == 2 && byteOrder ==> w[..2] == [|d| / 256 % 256, |d| % 256])
                && (headSize == 2 && !byteOrder ==> w[..2] == [|d| % 256, |d| / 256 % 256])
                && (headSize == 4 && byteOrder ==>
                      w[..4] == [|d| / 256 / 256 / 256 % 256, |d| / 256 / 256 % 256, |d| / 256 % 256, |d| % 256])
                && (headSize == 4 && !byteOrder ==>
                      w[..4] == [|d| % 256, |d| / 256 % 256, |d| / 256 / 256 % 256, |d| / 256 / 256 / 256 % 256])
    {
      if isClose {
        return Some(ClosedErr);
      }
      var sz := |d|;
      if sz + headSize > maxPacketSize || sz <= 0 {
        return Some(BadSize(sz));
      }
      PutSize(sz);
      forall i | 0 <= i < sz {
        cache[headSize + i] := d[i];
      }
      assert cache[..sz + headSize] == Frame(format, d);
      output := output + cache[..sz + headSize];
      FrameLayout(format, d);
      assert output[|old(output)|..] == Frame(format, d);
      return None;
    }

    // Fills the first `n` places of a buffer; `err` if the stream ends before.
    method ReadFull(buf: array<Byte>, n: nat) returns (rLen: nat, err: bool)
      requires n <= buf.Length
      modifies this`input, buf
      ensures err == (|old(input)| < n) && rLen == (if err then |old(input)| else n)
      ensures buf[..rLen] == old(input)[..rLen] && input == old(input)[rLen..]
    {
      rLen := if |input| < n then |input| else n;
      err := rLen < n;
      forall i | 0 <= i < rLen {
        buf[i] := input[i];
      }
      input := input[rLen..];
    }

    method ReadSize() returns (size: nat)
      requires Valid()
      ensures size == Uint(byteOrder, hCache[..])
    {
      if headSize == 2 {
        size := GetUint16(byteOrder, hCache);
      } else {
        size := GetUint32(byteOrder, hCache);
      }
    }

    // Head and payload are read into their own buffers; the bytes of a refused
    // frame's head stay consumed, and so does a payload that is not a message.
    method OnReceive() returns (r: Result<M, FrameError>)
      requires Valid()
      modifies this`input, hCache, dCache
      ensures isClose ==> r == Err(ClosedErr) && input == old(input)
      ensures !isClose ==>
                && r == Decoded(unmarshal, Receive(format, old(input)).0)
                && input == Receive(format, old(input)).1
      ensures !isClose && |old(input)| < headSize ==>
                r == Err(if old(input) == [] then HeadEnd else HeadCut) && input == []
      ensures !isClose && |old(input)| >= headSize ==>
                var size := HeadValue(byteOrder, old(input)[..headSize]);
                if size == 0 || size + headSize > maxPacketSize then
                  r == Err(BadSize(size)) && input == old(input)[headSize..]
                else if |old(input)| < headSize + size then
                  r == Err(if |old(input)| == headSize then DataEnd else DataCut) && input == []
                else
                  && input == old(input)[headSize + size..]
                  && var msg := unmarshal(old(input)[headSize..headSize + size]);
                     r == if msg.None? then Err(BadMessage) else Ok(msg.value)
    {
      if |input| >= headSize {
        ReceiveLayout(format, input);
      }
      if isClose {
        return Err(ClosedErr);
      }
      var rLen, err := ReadFull(hCache, headSize);
      if err {
        return Err(if rLen == 0 then HeadEnd else HeadCut);
      }
      assert hCache[..] == old(input)[..headSize];
      var size := ReadSize();
      if size + headSize > maxPacketSize || size <= 0 {
        return Err(BadSize(size));
      }
      rLen, err := ReadFull(dCache, size);
      if err {
        return Err(if rLen == 0 then DataEnd else DataCut);
      }
      var msg := unmarshal(dCache[..size]);
      if msg.None? {
        return Err(BadMessage);
      }
      return Ok(msg.value);
    }

    // The session's receive loop: until the first error.
    method ReceiveLoop() returns (messages: seq<M>, error: FrameError)
      requires Valid() && !isClose
      modifies this`input, hCache, dCache
      ensures var all := ReceiveAll(format, old(input));
              && messages == Messages(unmarshal, all.payloads)
              && error == if |messages| == |all.payloads| then all.error else BadMessage
    {
      messages := [];
      ghost var all := ReceiveMessages(format, unmarshal, input);
      MessagesOfPayloads(format, unmarshal, input);
      assert messages + all.0 == all.0;
      while true
        invariant all.0 == messages + ReceiveMessages(format, unmarshal, input).0
        invariant all.1 == ReceiveMessages(format, unmarshal, input).1
        decreases |input|
      {
        ghost var rest := Receive(format, input).1;
        var r := OnReceive();
        if r.Err? {
          return messages, r.error;
        }
        ghost var more := ReceiveMessages(format, unmarshal, rest).0;
        assert messages + ([r.value] + more) == (messages + [r.value]) + more;
        messages := messages + [r.value];
      }
    }

    // One turn of the session's send loop: a payload that is refused is dropped.
    method SendOrDrop(d: seq<Byte>)
      requires Valid() && !isClose
      modifies this`output, cache
      ensures output == if Sendable(format, d) then old(output) + Frame(format, d) else old(output)
    {
      var err := OnSend(d);
    }

    // The session's send loop, over the payloads that wait.
    method SendLoop(ds: seq<seq<Byte>>)
      requires Valid() && !isClose
      modifies this`output, cache
      ensures output == old(output) + Stream(format, Accepted(format, ds))
    {
      var i := 0;
      while i < |ds|
        invariant 0 <= i <= |ds|
        invariant output == old(output) + Stream(format, Accepted(format, ds[..i]))
      {
        SendOrDrop(ds[i]);
        assert ds[..i + 1][..i] == ds[..i];
        StreamSnoc(format, Accepted(format, ds[..i]), ds[i]);
        i := i + 1;
      }
      assert ds[..i] == ds;
    }
  }

  ghost function Accepted(f: Format, ds: seq<seq<Byte>>): (r: seq<seq<Byte>>)
    ensures AllSendable(f, r)
  {
    if ds == [] then []
    else
      var before, d := Accepted(f, ds[..|ds| - 1]), ds[|ds| - 1];
      if Sendable(f, d) then before + [d] else before
  }

  // One payload after the other, each kept exactly if it is neither empty nor too long.
  lemma {:induction false} AcceptedConcat(f: Format, a: seq<seq<Byte>>, b: seq<seq<Byte>>)
    ensures Accepted(f, a + b) == Accepted(f, a) + Accepted(f, b)
    ensures |a| == 1 ==> Accepted(f, a) == if 0 < |a[0]| && |a[0]| + f.head <= f.max then a else []
  {
    if |a| == 1 {
      assert a[..0] == [] && a == [a[0]];
    }
    if b == [] {
      assert a + b == a;
    } else {
      AcceptedConcat(f, a, b[..|b| - 1]);
      assert (a + b)[..|a + b| - 1] == a + b[..|b| - 1];
    }
  }

  lemma {:induction false} StreamSnoc(f: Format, ds: seq<seq<Byte>>, d: seq<Byte>)
    ensures Stream(f, ds + [d]) == Stream(f, ds) + Frame(f, d)
  {
    if ds == [] {
      assert Stream(f, [d][1..]) == [];
      assert [d] == ds + [d];
    } else {
      StreamSnoc(f, ds[1..], d);
      assert (ds + [d])[1..] == ds[1..] + [d];
    }
  }

  // The payloads that two ends exchange, from the sender's list to the receiver's loop.
  method Exchange<M>(byteOrder: bool, headSize: nat, maxPacketSize: nat, unmarshal: seq<Byte> -> Option<M>,
          ds: seq<seq<Byte>>)
    returns (messages: seq<M>, error: FrameError)
    requires headSize == 2 || headSize == 4
    ensures var f := Format(byteOrder, headSize, maxPacketSize);
            var all := ReceiveAll(f, Stream(f, Accepted(f, ds)));
            && messages == Messages(unmarshal, all.payloads)
            && error == if |messages| == |all.payloads| then all.error else BadMessage
  {
    ghost var f := Format(byteOrder, headSize, maxPacketSize);
    var sender := new Connect(byteOrder, headSize, maxPacketSize, unmarshal, []);
    sender.SendLoop(ds);
    assert sender.output == Stream(f, Accepted(f, ds));
    var receiver := new Connect(byteOrder, headSize, maxPacketSize, unmarshal, sender.output);
    messages, error := receiver.ReceiveLoop();
  }

  lemma {:induction false} BareMessages(bare: seq<Byte> -> Option<seq<Byte>>, ds: seq<seq<Byte>>)
    requires forall d :: bare(d) == Some(d)
    ensures Messages(bare, ds) == ds
  {
    if ds == [] {
    } else {
      BareMessages(bare, ds[1..]);
    }
  }

  // On bare payloads: what the sender accepted is what the receiver's loop returns if
  // and only if every length fits the head.
  method SendAndReceive(byteOrder: bool, headSize: nat, maxPacketSize: nat, ds: seq<seq<Byte>>)
    returns (payloads: seq<seq<Byte>>, error: FrameError)
    requires headSize == 2 || headSize == 4
    ensures var f := Format(byteOrder, headSize, maxPacketSize);
            && (payloads == Accepted(f, ds) <==> AllFit(f, Accepted(f, ds)))
            && (AllFit(f, Accepted(f, ds)) ==> error == HeadEnd)
            && (maxPacketSize < headSize + Capacity(headSize) ==> payloads == Accepted(f, ds))
  {
    var bare := (d: seq<Byte>) => Some(d);
    payloads, error := Exchange(byteOrder, headSize, maxPacketSize, bare, ds);
    ghost var f := Format(byteOrder, headSize, maxPacketSize);
    ghost var got := ReceiveAll(f, Stream(f, Accepted(f, ds))).payloads;
    BareMessages(bare, got);
    StreamRoundTripIff(f, Accepted(f, ds));
    AcceptedFitIff(f);
  }

  // On messages: with a packet size that fits the head, every message that is small
  // enough when marshalled arrives, in order, if unmarshalling undoes marshalling.
  method SendAndReceiveMessages<M>(byteOrder: bool, headSize: nat, maxPacketSize: nat,
                                   marshal: M -> seq<Byte>, unmarshal: seq<Byte> -> Option<M>, ms: seq<M>)
    returns (messages: seq<M>, error: FrameError)
    requires headSize == 2 || headSize == 4
    requires forall i :: 0 <= i < |ms| ==> unmarshal(marshal(ms[i])) == Some(ms[i])
    ensures maxPacketSize < headSize + Capacity(headSize) ==>
              messages == Small(Format(byteOrder, headSize, maxPacketSize), marshal, ms) && error == HeadEnd
  {
    ghost var f := Format(byteOrder, headSize, maxPacketSize);
    var ds := seq(|ms|, i requires 0 <= i < |ms| => marshal(ms[i]));
    messages, error := Exchange(byteOrder, headSize, maxPacketSize, unmarshal, ds);
    ghost var small := Small(f, marshal, ms);
    AcceptedOfSmall(f, marshal, ms);
    StreamRoundTripIff(f, Accepted(f, ds));
    AcceptedFitIff(f);
    MessagesComeBack(marshal, unmarshal, small);
  }

  // The messages whose marshalled form the sender accepts.
  ghost function Small<M>(f: Format, marshal: M -> seq<Byte>, ms: seq<M>): (r: seq<M>)
    ensures forall i :: 0 <= i < |r| ==> r[i] in ms
  {
    if ms == [] then []
    else
      var before, m := Small(f, marshal, ms[..|ms| - 1]), ms[|ms| - 1];
      if Sendable(f, marshal(m)) then before + [m] else before
  }

  lemma {:induction false} SmallConcat<M>(f: Format, marshal: M -> seq<Byte>, a: seq<M>, b: seq<M>)
    ensures Small(f, marshal, a + b) == Small(f, marshal, a) + Small(f, marshal, b)
    ensures |a| == 1 ==>
              var n := |marshal(a[0])|; Small(f, marshal, a) == if 0 < n && n + f.head <= f.max then a else []
  {
    if |a| == 1 {
      assert a[..0] == [] && a == [a[0]];
    }
    if b == [] {
      assert a + b == a;
    } else {
      SmallConcat(f, marshal, a, b[..|b| - 1]);
      assert (a + b)[..|a + b| - 1] == a + b[..|b| - 1];
    }
  }

  lemma {:induction false} AcceptedOfSmall<M>(f: Format, marshal: M -> seq<Byte>, ms: seq<M>)
    ensures var small := Small(f, marshal, ms);
            Accepted(f, seq(|ms|, i requires 0 <= i < |ms| => marshal(ms[i])))
            == seq(|small|, i requires 0 <= i < |small| => marshal(small[i]))
  {
    if ms == [] {
    } else {
      var n := |ms| - 1;
      var ds := seq(|ms|, i requires 0 <= i < |ms| => marshal(ms[i]));
      var front := ms[..n];
      AcceptedOfSmall(f, marshal, front);
      assert ds[..n] == seq(|front|, i requires 0 <= i < |front| => marshal(front[i]));
    }
  }
}
