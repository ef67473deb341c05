// Length-prefixed frames as byte sequences: what a sender writes for a list of
// payloads, and what a receiver reads from a stream of bytes.
module FrameSpec {
  import opened Comparators
  import opened Wrappers

  // ---------- Unsigned integers in bytes ----------

  function Capacity(width: nat): nat {
    if width == 0 then 1 else 256 * Capacity(width - 1)
  }

  // `n` in `width` bytes; what does not fit is cut off.
  function PutUint(big: bool, n: nat, width: nat): (b: seq<Byte>)
    ensures |b| == width
  {
    if width == 0 then []
    else if big then PutUint(big, n / 256, width - 1) + [n % 256]
    else [n % 256] + PutUint(big, n / 256, width - 1)
  }

  function Uint(big: bool, b: seq<Byte>): nat {
    if b == [] then 0
    else if big then 256 * Uint(big, b[..|b| - 1]) + b[|b| - 1]
    else b[0] + 256 * Uint(big, b[1..])
  }

  lemma Digit(n: nat, q: nat, r: nat)
    requires n == 256 * q + r && r < 256
    ensures n / 256 == q && n % 256 == r
  {
  }

  lemma UintStep(big: bool, b: seq<Byte>)
    requires b != []
    ensures big ==> Uint(big, b) == 256 * Uint(big, b[..|b| - 1]) + b[|b| - 1]
    ensures !big ==> Uint(big, b) == b[0] + 256 * Uint(big, b[1..])
  {
  }

  // One more byte in front of or behind the bytes of `q`.
  lemma PutStep(big: bool, q: nat, r: Byte, width: nat)
    ensures PutUint(big, 256 * q + r, width + 1)
            == if big then PutUint(big, q, width) + [r] else [r] + PutUint(big, q, width)
  {
    Digit(256 * q + r, q, r);
  }

  // Reading what was put gives the number if and only if it fits; what is read
  // always fits, and putting it again gives the bytes.
  lemma {:induction false} UintOfPut(big: bool, n: nat, width: nat)
    ensures Uint(big, PutUint(big, n, width)) < Capacity(width)
    ensures Uint(big, PutUint(big, n, width)) == n <==> n < Capacity(width)
  {
    if width == 0 {
    } else {
      UintOfPut(big, n / 256, width - 1);
      var b, rest := PutUint(big, n, width), PutUint(big, n / 256, width - 1);
      assert if big then b[..|b| - 1] == rest && b[|b| - 1] == n % 256 else b[0] == n % 256 && b[1..] == rest;
      assert n == 256 * (n / 256) + n % 256;
    }
  }

  lemma {:induction false} PutOfUint(big: bool, b: seq<Byte>)
    ensures Uint(big, b) < Capacity(|b|) && PutUint(big, Uint(big, b), |b|) == b
  {
    if b == [] {
    } else {
      var rest, digit := if big then b[..|b| - 1] else b[1..], if big then b[|b| - 1] else b[0];
      PutOfUint(big, rest);
      UintStep(big, b);
      PutStep(big, Uint(big, rest), digit, |rest|);
      assert b == if big then rest + [digit] else [digit] + rest;
    }
  }

  // ---------- Heads of two and of four bytes ----------

  lemma TwoBytes(n: nat)
    ensures PutUint(true, n, 2) == [n / 256 % 256, n % 256]
    ensures PutUint(false, n, 2) == [n % 256, n / 256 % 256]
  {
    assert PutUint(true, n / 256, 1) == PutUint(true, n / 256 / 256, 0) + [n / 256 % 256];
    assert PutUint(false, n / 256, 1) == [n / 256 % 256] + PutUint(false, n / 256 / 256, 0);
  }

  lemma FourBytes(n: nat)
    ensures var high := n / 256 / 256;
            && PutUint(true, n, 4) == [high / 256 % 256, high % 256, n / 256 % 256, n % 256]
            && PutUint(false, n, 4) == [n % 256, n / 256 % 256, high % 256, high / 256 % 256]
  {
    TwoBytes(n / 256 / 256);
    assert PutUint(true, n / 256, 3) == PutUint(true, n / 256 / 256, 2) + [n / 256 % 256];
    assert PutUint(false, n / 256, 3) == [n / 256 % 256] + PutUint(false, n / 256 / 256, 2);
  }

  lemma UintOfTwo(big: bool, b: seq<Byte>)
    requires |b| == 2
    ensures Uint(big, b) == if big then 256 * (b[0] as int) + b[1] else b[0] + 256 * (b[1] as int)
  {
    if big {
      UintStep(big, b[..1]);
    } else {
      UintStep(big, b[1..]);
    }
  }

  lemma UintOfFour(big: bool, b: seq<Byte>)
    requires |b| == 4
    ensures big ==> Uint(big, b) == 0x1_0000 * Uint(big, b[..2]) + 256 * (b[2] as int) + b[3]
    ensures !big ==> Uint(big, b) == b[0] + 256 * (b[1] as int) + 0x1_0000 * Uint(big, b[2..])
  {
    if big {
      UintStep(big, b[..3]);
      assert b[..3][..2] == b[..2];
    } else {
      UintStep(big, b[1..]);
      assert b[1..][1..] == b[2..];
    }
  }

  // The length that a head stands for.
  ghost function HeadValue(big: bool, head: seq<Byte>): nat
    requires |head| == 2 || |head| == 4
  {
    if |head| == 2 then
      var a: int, b: int := head[0], head[1];
      if big then 256 * a + b else a + 256 * b
    else
      var a: int, b: int, c: int, d: int := head[0], head[1], head[2], head[3];
      if big then 0x100_0000 * a + 0x1_0000 * b + 256 * c + d
      else a + 256 * b + 0x1_0000 * c + 0x100_0000 * d
  }

  lemma UintIsHeadValue(big: bool, head: seq<Byte>)
    requires |head| == 2 || |head| == 4
    ensures Uint(big, head) == HeadValue(big, head)
  {
    if |head| == 2 {
      UintOfTwo(big, head);
    } else {
      UintOfFour(big, head);
      UintOfTwo(big, head[..2]);
      UintOfTwo(big, head[2..]);
    }
  }

  // ---------- Frames ----------

  datatype Format = Format(big: bool, head: nat, max: nat)

  ghost predicate Supported(f: Format) {
    f.head == 2 || f.head == 4
  }

  // The sender's check: neither empty nor longer than a packet.
  predicate Sendable(f: Format, d: seq<Byte>) {
    0 < |d| && |d| + f.head <= f.max
  }

  // The length is not cut off in the head.
  ghost predicate Fits(f: Format, d: seq<Byte>) {
    |d| < Capacity(f.head)
  }

  ghost function Frame(f: Format, d: seq<Byte>): seq<Byte> {
    PutUint(f.big, |d|, f.head) + d
  }

  // A frame byte by byte: the length, its most significant byte first or last, and
  // then the payload.
  lemma FrameLayout(f: Format, d: seq<Byte>)
    requires Supported(f)
    ensures var w, n := Frame(f, d), |d|;
            && |w| == f.head + n && w[f.head..] == d
            && (f.head == 2 && f.big ==> w[..2] == [n / 256 % 256, n % 256])
            && (f.head == 2 && !f.big ==> w[..2] == [n % 256, n / 256 % 256])
            && (f.head == 4 && f.big ==>
                  w[..4] == [n / 256 / 256 / 256 % 256, n / 256 / 256 % 256, n / 256 % 256, n % 256])
            && (f.head == 4 && !f.big ==>
                  w[..4] == [n % 256, n / 256 % 256, n / 256 / 256 % 256, n / 256 / 256 / 256 % 256])
  {
    if f.head == 2 {
      TwoBytes(|d|);
    } else {
      FourBytes(|d|);
    }
  }

  ghost function Stream(f: Format, ds: seq<seq<Byte>>): seq<Byte> {
    if ds == [] then [] else Frame(f, ds[0]) + Stream(f, ds[1..])
  }

  datatype FrameError = ClosedErr | BadSize(size: nat) | HeadEnd | HeadCut | DataEnd | DataCut | BadMessage

  // One payload from the unread bytes, and the bytes left unread.
  ghost function Receive(f: Format, input: seq<Byte>): (Result<seq<Byte>, FrameError>, seq<Byte>) {
    if |input| < f.head then (Err(if input == [] then HeadEnd else HeadCut), [])
    else
      var size, rest := Uint(f.big, input[..f.head]), input[f.head..];
      if size + f.head > f.max || size <= 0 then (Err(BadSize(size)), rest)
      else if |rest| < size then (Err(if rest == [] then DataEnd else DataCut), [])
      else (Ok(rest[..size]), rest[size..])
  }

  // Receiving in terms of the input's bytes.
  lemma ReceiveLayout(f: Format, input: seq<Byte>)
    requires Supported(f) && |input| >= f.head
    ensures var (r, rest) := Receive(f, input);
            var size := HeadValue(f.big, input[..f.head]);
            if size == 0 || size + f.head > f.max then r == Err(BadSize(size)) && rest == input[f.head..]
            else if |input| < f.head + size then
              r == Err(if |input| == f.head then DataEnd else DataCut) && rest == []
            else r == Ok(input[f.head..f.head + size]) && rest == input[f.head + size..]
  {
    UintIsHeadValue(f.big, input[..f.head]);
    var size, rest := HeadValue(f.big, input[..f.head]), input[f.head..];
    if size <= |rest| {
      assert rest[..size] == input[f.head..f.head + size] && rest[size..] == input[f.head + size..];
    }
  }

  datatype Reading = Reading(payloads: seq<seq<Byte>>, unread: seq<Byte>, error: FrameError)

  // Payloads up to the first error, and the bytes from where the failing read began.
  ghost function ReceiveAll(f: Format, input: seq<Byte>): Reading
    decreases |input|
  {
    var (r, rest) := Receive(f, input);
    if r.Err? then Reading([], input, r.error)
    else
      var more := ReceiveAll(f, rest);
      more.(payloads := [r.value] + more.payloads)
  }

  // ---------- Messages ----------

  // What unmarshalling makes of a received payload.
  function Decoded<M>(unmarshal: seq<Byte> -> Option<M>, got: Result<seq<Byte>, FrameError>): Result<M, FrameError> {
    match got
    case Err(e) => Err(e)
    case Ok(d) => match unmarshal(d) case None => Err(BadMessage) case Some(m) => Ok(m)
  }

  // The messages of a list of payloads, up to the first that is none.
  ghost function Messages<M>(unmarshal: seq<Byte> -> Option<M>, ds: seq<seq<Byte>>): (ms: seq<M>)
    ensures |ms| <= |ds|
  {
    if ds == [] || unmarshal(ds[0]).None? then [] else [unmarshal(ds[0]).value] + Messages(unmarshal, ds[1..])
  }

  lemma {:induction false} MessagesAre<M>(unmarshal: seq<Byte> -> Option<M>, ds: seq<seq<Byte>>)
    ensures var ms := Messages(unmarshal, ds);
            && (forall i :: 0 <= i < |ms| ==> unmarshal(ds[i]) == Some(ms[i]))
            && (|ms| < |ds| ==> unmarshal(ds[|ms|]).None?)
  {
    if ds == [] {
    } else {
      MessagesAre(unmarshal, ds[1..]);
    }
  }

  // Messages up to the first error of any kind.
  ghost function ReceiveMessages<M>(f: Format, unmarshal: seq<Byte> -> Option<M>, input: seq<Byte>): (seq<M>,
          FrameError)
    decreases |input|
  {
    var (got, rest) := Receive(f, input);
    match Decoded(unmarshal, got)
    case Err(e) => ([], e)
    case Ok(m) => var more := ReceiveMessages(f, unmarshal, rest); ([m] + more.0, more.1)
  }

  // They are the messages of the payloads.
  lemma {:induction false} MessagesOfPayloads<M>(f: Format, unmarshal: seq<Byte> -> Option<M>, input: seq<Byte>)
    ensures var all := ReceiveAll(f, input);
            var ms := Messages(unmarshal, all.payloads);
            ReceiveMessages(f, unmarshal, input) == (ms, if |ms| == |all.payloads| then all.error else BadMessage)
    decreases |input|
  {
    var (got, rest) := Receive(f, input);
    if got.Err? {
    } else {
      MessagesOfPayloads(f, unmarshal, rest);
      var more := ReceiveAll(f, rest).payloads;
      assert ([got.value] + more)[1..] == more;
    }
  }

  // If every payload is the marshalled form of a message, the messages come back.
  lemma {:induction false} MessagesComeBack<M>(marshal: M -> seq<Byte>, unmarshal: seq<Byte> -> Option<M>, ms: seq<M>)
    requires forall i :: 0 <= i < |ms| ==> unmarshal(marshal(ms[i])) == Some(ms[i])
    ensures Messages(unmarshal, seq(|ms|, i requires 0 <= i < |ms| => marshal(ms[i]))) == ms
  {
    if ms == [] {
    } else {
      var ds := seq(|ms|, i requires 0 <= i < |ms| => marshal(ms[i]));
      var rest := ms[1..];
      assert ds[1..] == seq(|rest|, i requires 0 <= i < |rest| => marshal(rest[i]));
      MessagesComeBack(marshal, unmarshal, rest);
      assert ms == [ms[0]] + rest;
    }
  }

  // ---------- Round trips ----------

  // A sent payload is received, and nothing beyond it consumed, if and only if its
  // length fits the head; otherwise the receiver sees a shorter one or an error.
  lemma ReceivesFrameIff(f: Format, d: seq<Byte>, rest: seq<Byte>)
    requires Supported(f) && Sendable(f, d)
    ensures Receive(f, Frame(f, d) + rest) == (Ok(d), rest) <==> Fits(f, d)
    ensures !Fits(f, d) ==>
              var r := Receive(f, Frame(f, d) + rest).0; r == Err(BadSize(0)) || (r.Ok? && |r.value| < |d|)
  {
    var input, head := Frame(f, d) + rest, PutUint(f.big, |d|, f.head);
    UintOfPut(f.big, |d|, f.head);
    assert input[..f.head] == head && input[f.head..] == d + rest;
    assert (d + rest)[..|d|] == d && (d + rest)[|d|..] == rest;
  }

  lemma ReceivesOneMore(f: Format, d: seq<Byte>, rest: seq<Byte>)
    requires Supported(f) && Sendable(f, d) && Fits(f, d)
    ensures var more := ReceiveAll(f, rest);
            ReceiveAll(f, Frame(f, d) + rest) == more.(payloads := [d] + more.payloads)
  {
    ReceivesFrameIff(f, d, rest);
  }

  ghost predicate AllSendable(f: Format, ds: seq<seq<Byte>>) {
    forall i :: 0 <= i < |ds| ==> Sendable(f, ds[i])
  }

  ghost predicate AllFit(f: Format, ds: seq<seq<Byte>>) {
    forall i :: 0 <= i < |ds| ==> Fits(f, ds[i])
  }

  // Accepted payloads, written as one stream, are received as exactly that list if
  // and only if every length fits the head; then no byte is left.
  lemma {:induction false} StreamRoundTripIff(f: Format, ds: seq<seq<Byte>>)
    requires Supported(f) && AllSendable(f, ds)
    ensures ReceiveAll(f, Stream(f, ds)).payloads == ds <==> AllFit(f, ds)
    ensures AllFit(f, ds) ==> ReceiveAll(f, Stream(f, ds)) == Reading(ds, [], HeadEnd)
  {
    if ds == [] {
    } else {
      StreamRoundTripIff(f, ds[1..]);
      ReceivesFrameIff(f, ds[0], Stream(f, ds[1..]));
      assert AllFit(f, ds) <==> Fits(f, ds[0]) && AllFit(f, ds[1..]);
      assert ds == [ds[0]] + ds[1..];
      var read := ReceiveAll(f, Stream(f, ds)).payloads;
      if Fits(f, ds[0]) {
        assert read[0] == ds[0] && read[1..] == ReceiveAll(f, Stream(f, ds[1..])).payloads;
      } else {
        assert read == [] || read[0] != ds[0];
      }
    }
  }

  // Every payload that the sender accepts fits exactly if the packet size does.
  lemma AcceptedFitIff(f: Format)
    requires Supported(f)
    ensures (forall d :: Sendable(f, d) ==> Fits(f, d)) <==> f.max < f.head + Capacity(f.head)
  {
    if f.max >= f.head + Capacity(f.head) {
      var d := seq(Capacity(f.head), _ => 0 as Byte);
      assert Capacity(2) == 65536 && Capacity(4) == 4294967296;
      assert Sendable(f, d) && !Fits(f, d);
    }
  }

  // Whatever is received could have been sent, and sending it again gives the
  // bytes that were consumed.
  lemma ReceivedWasFrame(f: Format, input: seq<Byte>)
    requires Supported(f) && Receive(f, input).0.Ok?
    ensures var (r, rest) := Receive(f, input);
            Sendable(f, r.value) && Fits(f, r.value) && Frame(f, r.value) + rest == input
  {
    PutOfUint(f.big, input[..f.head]);
  }

  lemma Prepend(f: Format, d: seq<Byte>, ds: seq<seq<Byte>>, rest: seq<Byte>)
    ensures Stream(f, [d] + ds) + rest == Frame(f, d) + (Stream(f, ds) + rest)
    ensures Sendable(f, d) && AllSendable(f, ds) ==> AllSendable(f, [d] + ds)
    ensures Fits(f, d) && AllFit(f, ds) ==> AllFit(f, [d] + ds)
  {
    assert ([d] + ds)[1..] == ds;
  }

  // So any stream, sent by whom it may be, is the frames of what was received and
  // the bytes of a frame that cannot be received.
  lemma {:induction false} StreamOfReceived(f: Format, input: seq<Byte>)
    requires Supported(f)
    ensures var all := ReceiveAll(f, input);
            && AllSendable(f, all.payloads) && AllFit(f, all.payloads)
            && Stream(f, all.payloads) + all.unread == input
            && Receive(f, all.unread).0 == Err(all.error)
    decreases |input|
  {
    var (r, rest) := Receive(f, input);
    if r.Err? {
    } else {
      ReceivedWasFrame(f, input);
      StreamOfReceived(f, rest);
      var more := ReceiveAll(f, rest);
      Prepend(f, r.value, more.payloads, more.unread);
    }
  }

  // ---------- Cut connections ----------

  // A frame of which only the head, or less, or part of the payload has arrived.
  lemma ReceiveShort(f: Format, input: seq<Byte>)
    requires |input| >= f.head ==>
               var size := Uint(f.big, input[..f.head]);
               0 < size && size + f.head <= f.max && |input| < f.head + size
    ensures var r := Receive(f, input).0; r.Err? && !r.error.BadSize?
  {
  }

  lemma CutFrame(f: Format, d: seq<Byte>, rest: seq<Byte>, n: nat)
    requires Supported(f) && Sendable(f, d) && Fits(f, d) && n < |Frame(f, d)|
    ensures var r := Receive(f, (Frame(f, d) + rest)[..n]).0; r.Err? && !r.error.BadSize?
  {
    var input := (Frame(f, d) + rest)[..n];
    if n >= f.head {
      assert input[..f.head] == PutUint(f.big, |d|, f.head);
      assert Uint(f.big, input[..f.head]) == |d| by {
        UintOfPut(f.big, |d|, f.head);
      }
    }
    ReceiveShort(f, input);
  }

  lemma StreamOfTake(f: Format, ds: seq<seq<Byte>>, k: nat)
    requires k < |ds|
    ensures ds[..k + 1] == [ds[0]] + ds[1..][..k]
    ensures Stream(f, ds[..k + 1]) == Frame(f, ds[0]) + Stream(f, ds[1..][..k])
  {
    assert ds[..k + 1][1..] == ds[1..][..k];
  }

  // `k` is the number of frames that are complete in the first `n` bytes.
  ghost predicate Complete(f: Format, ds: seq<seq<Byte>>, n: nat, k: nat) {
    k <= |ds| && |Stream(f, ds[..k])| <= n && (k < |ds| ==> n < |Stream(f, ds[..k + 1])|)
  }

  lemma CompleteOneMore(f: Format, ds: seq<seq<Byte>>, n: nat, k: nat)
    requires ds != [] && Complete(f, ds[1..], n, k)
    ensures Complete(f, ds, |Frame(f, ds[0])| + n, k + 1) && ds[..k + 1] == [ds[0]] + ds[1..][..k]
  {
    StreamOfTake(f, ds, k);
    if k + 1 < |ds| {
      StreamOfTake(f, ds, k + 1);
    }
  }

  // A stream that ends after any number of its bytes gives the payloads whose
  // frames are complete, and no other.
  lemma {:induction false} CutStream(f: Format, ds: seq<seq<Byte>>, n: nat) returns (k: nat)
    requires Supported(f) && AllSendable(f, ds) && AllFit(f, ds) && n <= |Stream(f, ds)|
    ensures Complete(f, ds, n, k)
    ensures var all := ReceiveAll(f, Stream(f, ds)[..n]); all.payloads == ds[..k] && !all.error.BadSize?
  {
    if ds == [] {
      k := 0;
    } else if n < |Frame(f, ds[0])| {
      CutFrame(f, ds[0], Stream(f, ds[1..]), n);
      StreamOfTake(f, ds, 0);
      k := 0;
    } else {
      var frame, rest := Frame(f, ds[0]), Stream(f, ds[1..]);
      var m := n - |frame|;
      k := CutStream(f, ds[1..], m);
      CompleteOneMore(f, ds, m, k);
      ReceivesOneMore(f, ds[0], rest[..m]);
      assert (frame + rest)[..n] == frame + rest[..m];
      k := k + 1;
    }
  }
}
