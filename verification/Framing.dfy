/** The wire protocol: messages framed into a fixed buffer, and the reader that takes them out
    again however the bytes arrive. */
module Framing {
  import opened Sequences

  type byte = b: int | 0 <= b < 256

  const MSGID_LEN := 16
  const METHOD_LEN := 20
  const DATASRC_LEN := 4
  const MSGLEN_LEN := 4
  const HEADER_LEN := 44
  const BUFFER_MAX_LEN := 16 * 1024
  const TWO_32 := 0x1_0000_0000

  // ----- frames as byte sequences ----------------------------------------------------------

  /** kr_get_u32: most significant byte first. */
  function GetU32(b: seq<byte>): (v: nat)
    requires |b| == 4
    ensures v < TWO_32
  {
    b[0] as int * 0x100_0000 + b[1] as int * 0x1_0000 + b[2] as int * 0x100 + b[3] as int
  }

  /** kr_put_u32. */
  function PutU32(v: nat): (b: seq<byte>)
    ensures |b| == 4
  {
    [v / 0x100_0000 % 0x100, v / 0x1_0000 % 0x100, v / 0x100 % 0x100, v % 0x100]
  }

  /** A 32-bit number survives the wire. */
  lemma PutThenGet(v: nat)
    requires v < TWO_32
    ensures GetU32(PutU32(v)) == v
  {
    var v1, v2, v3 := v / 0x100, v / 0x1_0000, v / 0x100_0000;
    assert v2 == v1 / 0x100 && v3 == v2 / 0x100;
    assert v == v1 * 0x100 + v % 0x100;
    assert v1 == v2 * 0x100 + v1 % 0x100;
    assert v2 == v3 * 0x100 + v2 % 0x100;
    assert v3 % 0x100 == v3;
  }

  lemma GetThenPut(b: seq<byte>)
    requires |b| == 4
    ensures PutU32(GetU32(b)) == b
  {
    var b0, b1, b2, b3 := b[0] as int, b[1] as int, b[2] as int, b[3] as int;
    var v := GetU32(b);
    assert v / 0x100_0000 == b0;
    assert v / 0x1_0000 == b0 * 0x100 + b1;
    assert v / 0x100 == b0 * 0x1_0000 + b1 * 0x100 + b2;
    var p := PutU32(v);
    assert p[0] == b[0] && p[1] == b[1] && p[2] == b[2] && p[3] == b[3];
  }

  datatype Msg = Msg(msgid: seq<byte>, meth: seq<byte>, datasrc: nat, body: seq<byte>)

  predicate Sendable(m: Msg) {
    |m.msgid| == MSGID_LEN && |m.meth| == METHOD_LEN && m.datasrc < TWO_32 && |m.body| < TWO_32
  }

  function Encode(m: Msg): (s: seq<byte>)
    requires Sendable(m)
    ensures |s| == HEADER_LEN + |m.body|
  {
    m.msgid + m.meth + PutU32(m.datasrc) + PutU32(|m.body|) + m.body
  }

  function EncodeAll(ms: seq<Msg>): seq<byte>
    requires forall m :: m in ms ==> Sendable(m)
  {
    if ms == [] then [] else Encode(ms[0]) + EncodeAll(ms[1..])
  }

  /** The length of the frame whose header starts the bytes. */
  function FrameLength(s: seq<byte>): nat
    requires |s| >= HEADER_LEN
  {
    HEADER_LEN + GetU32(s[HEADER_LEN - MSGLEN_LEN..HEADER_LEN])
  }

  /** A whole frame is there. */
  predicate Complete(s: seq<byte>) {
    |s| >= HEADER_LEN && |s| >= FrameLength(s)
  }

  function Decode(s: seq<byte>): (m: Msg)
    requires Complete(s)
    ensures Sendable(m)
  {
    Msg(s[..16], s[16..36], GetU32(s[36..40]), s[HEADER_LEN..FrameLength(s)])
  }

  /** All frames, and what is left of the bytes. */
  function DecodeAll(s: seq<byte>): (r: (seq<Msg>, seq<byte>))
    ensures forall m :: m in r.0 ==> Sendable(m)
    ensures !Complete(r.1)
  {
    if !Complete(s) then ([], s)
    else var (ms, rest) := DecodeAll(s[FrameLength(s)..]); ([Decode(s)] + ms, rest)
  }

  lemma EncodeThenDecode(m: Msg, rest: seq<byte>)
    requires Sendable(m)
    ensures var s := Encode(m) + rest;
      Complete(s) && FrameLength(s) == |Encode(m)| && Decode(s) == m && s[FrameLength(s)..] == rest
  {
    PutThenGet(m.datasrc);
    PutThenGet(|m.body|);
    hide PutU32, GetU32;
    var s := Encode(m) + rest;
    assert s[40..44] == PutU32(|m.body|);
    assert s[36..40] == PutU32(m.datasrc);
    assert s[..16] == m.msgid;
    assert s[16..36] == m.meth;
    assert s[44..FrameLength(s)] == m.body;
  }

  lemma DecodeThenEncode(s: seq<byte>)
    requires Complete(s)
    ensures Encode(Decode(s)) == s[..FrameLength(s)]
  {
    GetThenPut(s[36..40]);
    GetThenPut(s[40..44]);
    assert s[..FrameLength(s)] == s[..16] + s[16..36] + s[36..40] + s[40..44] + s[44..FrameLength(s)];
  }

  lemma EncodeAllFirst(m: Msg, ms: seq<Msg>)
    requires Sendable(m) && forall m' :: m' in ms ==> Sendable(m')
    ensures EncodeAll([m] + ms) == Encode(m) + EncodeAll(ms)
  {
    assert ([m] + ms)[1..] == ms;
  }

  lemma DecodeAllStep(s: seq<byte>)
    ensures !Complete(s) ==> DecodeAll(s) == ([], s)
    ensures Complete(s) ==>
      DecodeAll(s) == ([Decode(s)] + DecodeAll(s[FrameLength(s)..]).0, DecodeAll(s[FrameLength(s)..]).1)
  {}

  /** What was decoded, encoded again, and what is left are the bytes received; what is left is
      never a whole frame. */
  lemma {:induction false} DecodedAndLeftover(s: seq<byte>)
    ensures EncodeAll(DecodeAll(s).0) + DecodeAll(s).1 == s
    ensures !Complete(DecodeAll(s).1)
  {
    DecodeAllStep(s);
    if Complete(s) {
      var k := FrameLength(s);
      DecodedAndLeftover(s[k..]);
      DecodeThenEncode(s);
      EncodeAllFirst(Decode(s), DecodeAll(s[k..]).0);
      hide *;
      Join(s, k, Encode(Decode(s)), EncodeAll(DecodeAll(s[k..]).0), DecodeAll(s[k..]).1);
    } else {
      assert EncodeAll([]) + s == s;
    }
  }

  lemma Join(s: seq<byte>, k: nat, a: seq<byte>, b: seq<byte>, c: seq<byte>)
    requires k <= |s| && a == s[..k] && b + c == s[k..]
    ensures (a + b) + c == s
  {
    assert s == s[..k] + s[k..];
  }

  /** Decoding undoes encoding. */
  lemma {:induction false} DecodeAllOfEncodeAll(ms: seq<Msg>, rest: seq<byte>)
    requires (forall m :: m in ms ==> Sendable(m)) && !Complete(rest)
    ensures DecodeAll(EncodeAll(ms) + rest) == (ms, rest)
  {
    if ms == [] {
      assert EncodeAll(ms) + rest == rest;
    } else {
      var tail := EncodeAll(ms[1..]) + rest;
      EncodeThenDecode(ms[0], tail);
      DecodeAllOfEncodeAll(ms[1..], rest);
      DecodeAllStep(Encode(ms[0]) + tail);
      EncodeAllFirst(ms[0], ms[1..]);
      hide *;
      assert ms == [ms[0]] + ms[1..];
      Associative(Encode(ms[0]), EncodeAll(ms[1..]), rest);
    }
  }

  lemma CompleteStays(a: seq<byte>, b: seq<byte>)
    requires Complete(a)
    ensures Complete(a + b) && FrameLength(a + b) == FrameLength(a) && Decode(a + b) == Decode(a)
    ensures (a + b)[FrameLength(a)..] == a[FrameLength(a)..] + b
  {
    assert (a + b)[40..44] == a[40..44];
    assert (a + b)[..16] == a[..16] && (a + b)[16..36] == a[16..36] && (a + b)[36..40] == a[36..40];
    assert (a + b)[44..FrameLength(a)] == a[44..FrameLength(a)];
  }

  /** Decoding a first, and then its leftover followed by b, is decoding a + b. */
  lemma {:induction false} DecodeInTwo(a: seq<byte>, b: seq<byte>)
    ensures var (ms, rest) := DecodeAll(a);
      DecodeAll(a + b) == (ms + DecodeAll(rest + b).0, DecodeAll(rest + b).1)
    decreases |a|
  {
    DecodeAllStep(a);
    DecodeAllStep(a + b);
    if Complete(a) {
      CompleteStays(a, b);
      var a' := a[FrameLength(a)..];
      DecodeInTwo(a', b);
      hide Decode, DecodeAll, FrameLength, Complete;
      var (ms, rest) := DecodeAll(a');
      assert [Decode(a)] + (ms + DecodeAll(rest + b).0) == ([Decode(a)] + ms) + DecodeAll(rest + b).0;
    } else {
      assert [] + DecodeAll(a + b).0 == DecodeAll(a + b).0;
    }
  }

  // ----- what lies where -------------------------------------------------------------------

  /** The number in four bytes. */
  function Number(b: seq<byte>): nat
    requires |b| == 4
  {
    b[0] as int * 16777216 + b[1] as int * 65536 + b[2] as int * 256 + b[3] as int
  }

  /** The bytes are one frame: 16 of the message id, 20 of the method, 4 of the data source, 4 of the
      length of the body, and the body. */
  ghost predicate Framed(s: seq<byte>, m: Msg) {
    && |s| == 44 + |m.body|
    && s[0..16] == m.msgid && s[16..36] == m.meth
    && Number(s[36..40]) == m.datasrc && Number(s[40..44]) == |m.body|
    && s[44..] == m.body
  }

  /** A message is written as its frame. */
  lemma EncodeFrames(m: Msg)
    requires Sendable(m)
    ensures Framed(Encode(m), m)
  {
    var s := Encode(m);
    PutThenGet(m.datasrc);
    PutThenGet(|m.body|);
    hide PutU32;
    assert s[0..16] == m.msgid && s[16..36] == m.meth && s[36..40] == PutU32(m.datasrc);
    assert s[40..44] == PutU32(|m.body|) && s[44..] == m.body;
  }

  /** What is taken out of the front of the bytes is the message of the frame there. */
  lemma DecodeFrames(s: seq<byte>)
    ensures Complete(s) <==> |s| >= 44 && |s| >= 44 + Number(s[40..44])
    ensures Complete(s) ==> FrameLength(s) == 44 + Number(s[40..44]) && Framed(s[..FrameLength(s)], Decode(s))
  {
    if Complete(s) {
      var t := s[..FrameLength(s)];
      assert t[0..16] == s[..16] && t[16..36] == s[16..36] && t[36..40] == s[36..40] && t[40..44] == s[40..44];
      assert t[44..] == s[44..FrameLength(s)];
    }
  }

  /** A frame has one message only, and a message one frame. */
  lemma FramedOnce(s: seq<byte>, m: Msg)
    requires Framed(s, m) && m.datasrc < 4294967296 && |m.body| < 4294967296
    ensures Sendable(m) && s == Encode(m) && Complete(s) && m == Decode(s)
  {
    DecodeFrames(s);
    DecodeThenEncode(s);
    assert s[..FrameLength(s)] == s;
    hide PutU32, GetU32;
    assert s[..16] == s[0..16] && s[44..FrameLength(s)] == s[44..];
  }

  /** The first place where the bytes differ decides. */
  ghost predicate Precedes(a: seq<byte>, b: seq<byte>) {
    exists k :: 0 <= k < |a| && k < |b| && a[..k] == b[..k] && a[k] < b[k]
  }

  /** Numbers compare on the wire as their bytes do, from the first. */
  lemma NumbersCompare(a: seq<byte>, b: seq<byte>)
    requires |a| == |b| == 4
    ensures Number(a) < Number(b) <==> Precedes(a, b)
  {
    if Precedes(a, b) {
      var k :| 0 <= k < |a| && a[..k] == b[..k] && a[k] < b[k];
      forall i | 0 <= i < k ensures a[i] == b[i] { assert a[..k][i] == b[..k][i]; }
    }
    if Number(a) < Number(b) {
      var k := if a[0] != b[0] then 0 else if a[1] != b[1] then 1 else if a[2] != b[2] then 2 else 3;
      assert a[..k] == b[..k] && a[k] < b[k];
    }
  }

  /** So do the data sources and the lengths in two frames. */
  lemma FramesCompare(s: seq<byte>, m: Msg, t: seq<byte>, n: Msg)
    requires Framed(s, m) && Framed(t, n)
    ensures m.datasrc < n.datasrc <==> Precedes(s[36..40], t[36..40])
    ensures |m.body| < |n.body| <==> Precedes(s[40..44], t[40..44])
  {
    NumbersCompare(s[36..40], t[36..40]);
    NumbersCompare(s[40..44], t[40..44]);
  }

  /** The bytes are frames of the messages, one after the other. */
  ghost predicate FramedAll(s: seq<byte>, ms: seq<Msg>)
    decreases |ms|
  {
    if ms == [] then s == []
    else exists k :: 0 <= k <= |s| && Framed(s[..k], ms[0]) && FramedAll(s[k..], ms[1..])
  }

  lemma {:induction false} EncodeAllFrames(ms: seq<Msg>)
    requires forall m :: m in ms ==> Sendable(m)
    ensures FramedAll(EncodeAll(ms), ms)
  {
    if ms != [] {
      var s, k := EncodeAll(ms), |Encode(ms[0])|;
      EncodeFrames(ms[0]);
      EncodeAllFrames(ms[1..]);
      assert s[..k] == Encode(ms[0]) && s[k..] == EncodeAll(ms[1..]);
    }
  }

  /** The bytes are frames of the messages and then the rest, which is no whole frame. */
  ghost predicate FramesThen(s: seq<byte>, ms: seq<Msg>, rest: seq<byte>) {
    var k := |s| - |rest|;
    && 0 <= k && FramedAll(s[..k], ms) && rest == s[k..]
    && (|rest| < 44 || |rest| < 44 + Number(rest[40..44]))
  }

  lemma DecodedFrames(s: seq<byte>)
    ensures FramesThen(s, DecodeAll(s).0, DecodeAll(s).1)
  {
    var ms, rest := DecodeAll(s).0, DecodeAll(s).1;
    DecodedAndLeftover(s);
    EncodeAllFrames(ms);
    DecodeFrames(rest);
    hide EncodeAll, DecodeAll, FramedAll, Complete, Number;
    var k := |EncodeAll(ms)|;
    assert s[..k] == EncodeAll(ms) && s[k..] == rest;
  }

  // ----- the buffer ------------------------------------------------------------------------

  class Buffer {
    var size: nat
    const data: array<byte>

    ghost predicate Valid()
      reads this
    {
      data.Length == BUFFER_MAX_LEN && size <= BUFFER_MAX_LEN
    }

    ghost function Bytes(): seq<byte>
      reads this, data
      requires Valid()
    {
      data[..size]
    }

    constructor ()
      ensures Valid() && Bytes() == [] && fresh(data)
    {
      size := 0;
      data := new byte[BUFFER_MAX_LEN](_ => 0);
    }
  }

  class Message {
    var msgid: seq<byte>
    var meth: seq<byte>
    var datasrc: nat
    var msglen: nat
    var msgbuf: seq<byte>

    /** The message the fields hold. */
    function Value(): Msg
      reads this
    {
      Msg(msgid, meth, datasrc, msgbuf)
    }

    /** kr_message_alloc. */
    constructor ()
      ensures msgbuf == [] && msglen == 0
    {
      msgid, meth, datasrc, msglen, msgbuf := [], [], 0, 0, [];
    }
  }

  /** Copy the frame at the front of the buffer into the message. */
  method ReadFrame(krbuf: Buffer, krmsg: Message)
    requires krbuf.Valid() && Complete(krbuf.Bytes())
    modifies krmsg
    ensures krmsg.Value() == Decode(krbuf.Bytes())
      && krmsg.msglen == |krmsg.msgbuf| == FrameLength(krbuf.Bytes()) - HEADER_LEN
  {
    ghost var s := krbuf.Bytes();
    ghost var k := FrameLength(s);
    assert s[40..44] == krbuf.data[40..44];
    hide GetU32;
    var p := 0;
    krmsg.msgid := krbuf.data[p..p + MSGID_LEN];
    p := p + MSGID_LEN;
    krmsg.meth := krbuf.data[p..p + METHOD_LEN];
    p := p + METHOD_LEN;
    krmsg.datasrc := GetU32(krbuf.data[p..p + DATASRC_LEN]);
    p := p + DATASRC_LEN;
    krmsg.msglen := GetU32(krbuf.data[p..p + MSGLEN_LEN]);
    p := p + MSGLEN_LEN;
    krmsg.msgbuf := krbuf.data[p..p + krmsg.msglen];
    assert s[..16] == krbuf.data[..16] && s[16..36] == krbuf.data[16..36] && s[36..40] == krbuf.data[36..40];
    assert s[44..k] == krbuf.data[44..k];
  }

  /** Move the bytes from position p on to the front of the buffer, by way of a copy. */
  method Shift(krbuf: Buffer, p: nat)
    requires krbuf.Valid() && p <= krbuf.size
    modifies krbuf, krbuf.data
    ensures krbuf.Valid() && krbuf.Bytes() == old(krbuf.Bytes())[p..]
  {
    var buff := new byte[BUFFER_MAX_LEN](_ => 0);
    var rest := krbuf.size - p;
    forall k | 0 <= k < rest { buff[k] := krbuf.data[p + k]; }
    forall k | 0 <= k < BUFFER_MAX_LEN { krbuf.data[k] := buff[k]; }
    krbuf.size := rest;
  }

  /** Take the frame at the front of the buffer out of it, if it is all there. */
  method Parse(krbuf: Buffer, krmsg: Message) returns (ret: int)
    requires krbuf.Valid()
    modifies krbuf, krbuf.data, krmsg
    ensures krbuf.Valid()
    ensures ret == if |old(krbuf.Bytes())| < HEADER_LEN then 1 else if !Complete(old(krbuf.Bytes())) then 2 else 0
    ensures ret != 0 ==> krbuf.Bytes() == old(krbuf.Bytes()) && krmsg.Value() == old(krmsg.Value())
    ensures ret == 0 ==> krmsg.Value() == Decode(old(krbuf.Bytes())) && krmsg.msglen == |krmsg.msgbuf|
    ensures ret == 0 ==> krbuf.Bytes() == old(krbuf.Bytes())[FrameLength(old(krbuf.Bytes()))..]
    ensures var s := old(krbuf.Bytes());
      && (ret == 1 <==> |s| < 44)
      && (ret == 2 <==> 44 <= |s| < 44 + Number(s[40..44]))
      && (ret == 0 ==> var n := 44 + Number(s[40..44]); Framed(s[..n], krmsg.Value()) && krbuf.Bytes() == s[n..])
  {
    DecodeFrames(krbuf.Bytes());
    if krbuf.size < HEADER_LEN {
      return 1;
    }
    var msglen := GetU32(krbuf.data[HEADER_LEN - MSGLEN_LEN..HEADER_LEN]);
    assert krbuf.Bytes()[40..44] == krbuf.data[40..44];
    if krbuf.size < HEADER_LEN + msglen {
      return 2;
    }
    hide Decode, GetU32;
    ReadFrame(krbuf, krmsg);
    Shift(krbuf, HEADER_LEN + krmsg.msglen);
    return 0;
  }

  /** Write the frame of a message into the buffer. */
  method Dump(krmsg: Message, krbuf: Buffer) returns (ret: int)
    requires krbuf.Valid() && Sendable(krmsg.Value()) && krmsg.msglen == |krmsg.msgbuf|
    requires HEADER_LEN + krmsg.msglen <= BUFFER_MAX_LEN
    modifies krbuf, krbuf.data
    ensures krbuf.Valid() && krmsg.Value() == old(krmsg.Value())
    ensures krbuf.Bytes() == Encode(old(krmsg.Value())) && ret == krbuf.size
    ensures Framed(krbuf.Bytes(), old(krmsg.Value()))
  {
    EncodeFrames(krmsg.Value());
    hide PutU32;
    var p: nat := 0;
    p := CopyIn(krbuf.data, p, krmsg.msgid);
    p := CopyIn(krbuf.data, p, krmsg.meth);
    p := CopyIn(krbuf.data, p, PutU32(krmsg.datasrc));
    p := CopyIn(krbuf.data, p, PutU32(krmsg.msglen));
    p := CopyIn(krbuf.data, p, krmsg.msgbuf);
    krbuf.size := HEADER_LEN + krmsg.msglen;
    return krbuf.size;
  }

  /** memcpy to position p, and the position after it. */
  method CopyIn(a: array<byte>, p: nat, s: seq<byte>) returns (q: nat)
    requires p + |s| <= a.Length
    modifies a
    ensures q == p + |s| && a[..q] == old(a[..p]) + s
  {
    forall k | 0 <= k < |s| { a[p + k] := s[k]; }
    q := p + |s|;
  }

  lemma CompleteNeedsHeader(s: seq<byte>)
    ensures Complete(s) ==> |s| >= HEADER_LEN && HEADER_LEN <= FrameLength(s) <= |s|
  {}

  // ----- the connection --------------------------------------------------------------------

  /** What read() reports. */
  datatype ReadResult = Data(bytes: seq<byte>) | Again | Failed | EndOfFile

  class Client {
    const inbuf: Buffer
    var inmsg: Message?
    var handled: seq<Msg>  // the messages given to the engine
    var open: bool
    ghost var received: seq<byte>

    /** The messages handled and the bytes in the buffer are what the bytes received decode to. */
    ghost predicate Valid()
      reads this, inbuf, inbuf.data
    {
      inbuf.Valid() && handled == DecodeAll(received).0 && inbuf.Bytes() == DecodeAll(received).1
    }

    constructor ()
      ensures Valid() && received == [] && open && inmsg == null
      ensures fresh(inbuf) && fresh(inbuf.data)
    {
      inbuf := new Buffer();
      inmsg := null;
      handled, received, open := [], [], true;
    }

    /** Hand over every whole message in the buffer. */
    method ProcessInputBuffer()
      requires inbuf.Valid()
      modifies this`inmsg, this`handled, inbuf, inbuf.data, if inmsg != null then {inmsg} else {}
      ensures inbuf.Valid()
      ensures handled == old(handled) + DecodeAll(old(inbuf.Bytes())).0
      ensures inbuf.Bytes() == DecodeAll(old(inbuf.Bytes())).1
      ensures inmsg == old(inmsg) || inmsg == null || fresh(inmsg)
    {
      ghost var s := inbuf.Bytes();
      hide DecodeAll, Decode, FrameLength, Complete;
      while inbuf.size != 0
        invariant inbuf.Valid()
        invariant inmsg == old(inmsg) || inmsg == null || fresh(inmsg)
        invariant handled + DecodeAll(inbuf.Bytes()).0 == old(handled) + DecodeAll(s).0
        invariant DecodeAll(inbuf.Bytes()).1 == DecodeAll(s).1
        decreases inbuf.size
      {
        ghost var before := inbuf.Bytes();
        DecodeAllStep(before);
        if inmsg == null {
          inmsg := new Message();
        }
        var ret := Parse(inbuf, inmsg);
        if ret < 0 {
          return;
        } else if ret > 0 {
          CompleteNeedsHeader(before);
          return;
        } else {
          CompleteNeedsHeader(before);
          Associative(handled, [inmsg.Value()], DecodeAll(inbuf.Bytes()).0);
          handled := handled + [inmsg.Value()];
          inmsg := null;
        }
      }
      assert inbuf.Bytes() == [];
      DecodeAllStep([]);
      CompleteNeedsHeader([]);
    }

    /** One readable event. read() is given the free room of the buffer. */
    method OnRead(r: ReadResult)
      requires Valid() && open
      requires r.Data? ==> 0 < |r.bytes| <= BUFFER_MAX_LEN - inbuf.size
      modifies this, inbuf, inbuf.data, if inmsg != null then {inmsg} else {}
      ensures Valid() && open == (r.Data? || r.Again?)
      ensures received == old(received) + (if r.Data? then r.bytes else [])
      ensures FramesThen(received, handled, inbuf.Bytes())
      ensures inmsg == old(inmsg) || inmsg == null || fresh(inmsg)
    {
      hide DecodeAll, Complete, FramesThen;
      match r {
        case Data(bytes) =>
          DecodeInTwo(received, bytes);
          ghost var rest := inbuf.Bytes();
          forall k | 0 <= k < |bytes| { inbuf.data[inbuf.size + k] := bytes[k]; }
          inbuf.size := inbuf.size + |bytes|;
          assert inbuf.Bytes() == rest + bytes;
          received := received + bytes;
          ProcessInputBuffer();
        case Again =>
          assert received + [] == received;
        case _ =>
          open := false;
          assert received + [] == received;
      }
      DecodedFrames(received);
    }

    /** The next read of a stream, of which n bytes have arrived, takes any number of bytes the
        buffer has room for. With a full buffer read() is asked for no bytes at all, and the
        connection is taken for closed. */
    method ReadNext(stream: seq<byte>, n: nat) returns (n': nat)
      requires Valid() && open && n < |stream| && received == stream[..n]
      modifies this, inbuf, inbuf.data, if inmsg != null then {inmsg} else {}
      ensures Valid() && n <= n' <= |stream| && received == stream[..n']
      ensures if open then n' > n else n' == n && Stuck(old(inbuf.Bytes()) + stream[n..])
      ensures open ==> (Stuck(old(inbuf.Bytes()) + stream[n..]) <==> Stuck(inbuf.Bytes() + stream[n'..]))
      ensures inmsg == old(inmsg) || inmsg == null || fresh(inmsg)
    {
      hide Stuck, DecodeAll, Complete;
      var room := BUFFER_MAX_LEN - inbuf.size;
      ghost var rest := inbuf.Bytes();
      assert !Complete(rest);
      if room == 0 {
        FullIsStuck(rest, stream[n..]);
        OnRead(EndOfFile);
        n' := n;
      } else {
        var k :| 1 <= k <= room && k <= |stream| - n;
        NextRead(rest, stream, n, k);
        DecodeInTwo(received, stream[n..n + k]);
        OnRead(Data(stream[n..n + k]));
        n' := n + k;
      }
    }

    /** A connection over which a stream of bytes arrives, however it is cut into reads. */
    method Receive(stream: seq<byte>) returns (n: nat)
      requires Valid() && received == [] && open
      modifies this, inbuf, inbuf.data, if inmsg != null then {inmsg} else {}
      ensures Valid() && n <= |stream| && received == stream[..n]
      ensures open <==> !Stuck(stream)
      ensures open ==> n == |stream|
    {
      n := 0;
      assert inbuf.Bytes() + stream[0..] == stream;
      hide Stuck, DecodeAll, Complete;
      while open && n < |stream|
        invariant Valid() && n <= |stream| && received == stream[..n]
        invariant open ==> (Stuck(stream) <==> Stuck(inbuf.Bytes() + stream[n..]))
        invariant !open ==> Stuck(stream)
        invariant inmsg == old(inmsg) || inmsg == null || fresh(inmsg)
        decreases open, |stream| - n
      {
        n := ReadNext(stream, n);
      }
      if open {
        assert inbuf.Bytes() + stream[n..] == inbuf.Bytes();
        RestIsNotStuck(inbuf.Bytes());
      }
    }
  }

  /** The reader gets stuck on a frame too long for the buffer once more than a buffer of it
      has arrived. */
  ghost predicate Stuck(s: seq<byte>) {
    |s| >= HEADER_LEN &&
    if FrameLength(s) > BUFFER_MAX_LEN then |s| > BUFFER_MAX_LEN
      else |s| >= FrameLength(s) && Stuck(s[FrameLength(s)..])
  }

  lemma {:induction false} StuckAfter(a: seq<byte>, b: seq<byte>)
    requires |a| <= BUFFER_MAX_LEN
    ensures Stuck(a + b) <==> Stuck(DecodeAll(a).1 + b)
    decreases |a|
  {
    DecodeAllStep(a);
    if Complete(a) {
      CompleteStays(a, b);
      StuckAfter(a[FrameLength(a)..], b);
    }
  }

  lemma NextRead(rest: seq<byte>, stream: seq<byte>, n: nat, k: nat)
    requires n + k <= |stream| && |rest| + k <= BUFFER_MAX_LEN
    ensures Stuck(rest + stream[n..]) <==> Stuck(DecodeAll(rest + stream[n..n + k]).1 + stream[n + k..])
    ensures stream[..n] + stream[n..n + k] == stream[..n + k]
  {
    hide *;
    StuckAfter(rest + stream[n..n + k], stream[n + k..]);
    assert (rest + stream[n..n + k]) + stream[n + k..] == rest + stream[n..];
  }

  lemma FullIsStuck(rest: seq<byte>, more: seq<byte>)
    requires !Complete(rest) && |rest| == BUFFER_MAX_LEN && more != []
    ensures Stuck(rest + more)
  {
    assert (rest + more)[40..44] == rest[40..44];
  }

  lemma RestIsNotStuck(rest: seq<byte>)
    requires !Complete(rest) && |rest| <= BUFFER_MAX_LEN
    ensures !Stuck(rest)
  {}

  /** A frame of at most 16384 bytes. */
  predicate Fits(m: Msg) {
    44 + |m.body| <= 16384
  }

  /** Encoded messages get stuck exactly when one of them does not fit the buffer. */
  lemma {:induction false} StuckOnEncoded(ms: seq<Msg>)
    requires forall m :: m in ms ==> Sendable(m)
    ensures Stuck(EncodeAll(ms)) <==> exists m :: m in ms && !Fits(m)
  {
    if ms != [] {
      var rest := EncodeAll(ms[1..]);
      EncodeThenDecode(ms[0], rest);
      StuckOnEncoded(ms[1..]);
      hide EncodeAll, Encode, FrameLength, Decode;
      assert ms == [ms[0]] + ms[1..];
    }
  }

  /** Whatever the messages and however their frames are cut into reads: the server handles
      exactly the messages sent, in order, if and only if they all fit the buffer. */
  method ServeAll(ms: seq<Msg>) returns (client: Client)
    requires forall m :: m in ms ==> Sendable(m)
    ensures fresh(client) && client.Valid()
      && EncodeAll(client.handled) + client.inbuf.Bytes() == client.received <= EncodeAll(ms)
    ensures FramedAll(EncodeAll(ms), ms) && FramedAll(EncodeAll(client.handled), client.handled)
    ensures client.open <==> forall m :: m in ms ==> Fits(m)
    ensures client.open ==> client.handled == ms && client.inbuf.Bytes() == []
  {
    client := new Client();
    var n := client.Receive(EncodeAll(ms));
    StuckOnEncoded(ms);
    EncodeAllFrames(ms);
    EncodeAllFrames(client.handled);
    DecodedAndLeftover(client.received);
    DecodeAllOfEncodeAll(ms, []);
    assert EncodeAll(ms) + [] == EncodeAll(ms);
  }
}
