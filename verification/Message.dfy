/** The internal protocol message: a 20-byte header and a payload, encoded to and decoded from a MyIOBuf. */
module Message {
  import opened Bytes
  import opened IOBuf

  const HEAD_LEN := 20
  const FLAG_DATA: Byte := 0
  const FLAG_HEARTBEAT: Byte := 1

  /** The fields of a message; an absent payload and an empty one are both []. */
  datatype Magic = Magic(length: nat, flag: Byte, version: nat, isRequest: int,
                         requestId: nat, serverNumber: nat, payload: seq<Byte>)
  {
    /** Every field in the range of its C++ type. */
    predicate InRange() {
      length < U32 && version < 0x1_0000 && -128 <= isRequest < 128 &&
      requestId < U32 * U32 && serverNumber < U32
    }

    /** The length field says what encode will really write. */
    predicate WellFormed() {
      InRange() && length == HEAD_LEN + |payload|
    }
  }

  function Int8ToByte(v: int): Byte
    requires -128 <= v < 128
  {
    if v < 0 then v + 256 else v
  }

  function ByteToInt8(b: Byte): int {
    if b < 128 then b else b - 256
  }

  /** Little-endian fields in writing order. */
  function EncodeBytes(m: Magic): (s: seq<Byte>)
    requires m.InRange()
    ensures |s| == HEAD_LEN + |m.payload|
  {
    ToLE(m.length, 4) + (ToLE(m.flag, 1) + (ToLE(m.version, 2) + (ToLE(Int8ToByte(m.isRequest), 1)
    + (ToLE(m.requestId, 8) + (ToLE(m.serverNumber, 4) + m.payload)))))
  }

  /** The header in the order in which encode appends it. */
  function HeaderBytes(m: Magic): (s: seq<Byte>)
    requires m.InRange()
    ensures |s| == HEAD_LEN
  {
    ToLE(m.length, 4) + ToLE(m.flag, 1) + ToLE(m.version, 2) + ToLE(Int8ToByte(m.isRequest), 1)
    + ToLE(m.requestId, 8) + ToLE(m.serverNumber, 4)
  }

  lemma HeaderThenPayload(m: Magic)
    requires m.InRange()
    ensures HeaderBytes(m) + m.payload == EncodeBytes(m)
  {
    Append6(ToLE(m.length, 4), ToLE(m.flag, 1), ToLE(m.version, 2), ToLE(Int8ToByte(m.isRequest), 1),
            ToLE(m.requestId, 8), ToLE(m.serverNumber, 4) + m.payload);
    var h := ToLE(m.length, 4) + ToLE(m.flag, 1) + ToLE(m.version, 2) + ToLE(Int8ToByte(m.isRequest), 1)
             + ToLE(m.requestId, 8);
    assert (h + ToLE(m.serverNumber, 4)) + m.payload == h + (ToLE(m.serverNumber, 4) + m.payload);
  }

  lemma Append6<T>(a: seq<T>, b: seq<T>, c: seq<T>, d: seq<T>, e: seq<T>, f: seq<T>)
    ensures a + b + c + d + e + f == a + (b + (c + (d + (e + f))))
  {
    assert d + (e + f) == (d + e) + f;
    assert c + ((d + e) + f) == (c + (d + e)) + f;
    assert c + (d + e) == (c + d) + e;
    calc {
      a + (b + (((c + d) + e) + f));
      (a + b) + (((c + d) + e) + f);
      ((a + b) + ((c + d) + e)) + f;
      (((a + b) + (c + d)) + e) + f;
      ((((a + b) + c) + d) + e) + f;
    }
  }

  /** The six header reads in order, and the rest. */
  function DecodeBytes(s: seq<Byte>): (m: Magic)
    requires |s| >= HEAD_LEN
    ensures m.InRange()
  {
    Pow256Values();
    var (length, s1) := TakeLE(s, 4);
    var (flag, s2) := TakeLE(s1, 1);
    var (version, s3) := TakeLE(s2, 2);
    var (isRequest, s4) := TakeLE(s3, 1);
    var (requestId, s5) := TakeLE(s4, 8);
    var (serverNumber, rest) := TakeLE(s5, 4);
    Magic(length, flag, version, ByteToInt8(isRequest), requestId, serverNumber, rest)
  }

  /** decode undoes encode. */
  lemma DecodeEncode(m: Magic)
    requires m.InRange()
    ensures DecodeBytes(EncodeBytes(m)) == m
  {
    Pow256Values();
    var s5 := ToLE(m.serverNumber, 4) + m.payload;
    var s4 := ToLE(m.requestId, 8) + s5;
    var s3 := ToLE(Int8ToByte(m.isRequest), 1) + s4;
    var s2 := ToLE(m.version, 2) + s3;
    var s1 := ToLE(m.flag, 1) + s2;
    TakeWritten(m.length, 4, s1);
    TakeWritten(m.flag, 1, s2);
    TakeWritten(m.version, 2, s3);
    TakeWritten(Int8ToByte(m.isRequest), 1, s4);
    TakeWritten(m.requestId, 8, s5);
    TakeWritten(m.serverNumber, 4, m.payload);
  }

  /** encode undoes decode: no two packets decode to the same message. */
  lemma EncodeDecode(s: seq<Byte>)
    requires |s| >= HEAD_LEN
    ensures EncodeBytes(DecodeBytes(s)) == s
  {
    Pow256Values();
    var s1 := TakeLE(s, 4).1;
    var s2 := TakeLE(s1, 1).1;
    var s3 := TakeLE(s2, 2).1;
    var s4 := TakeLE(s3, 1).1;
    var s5 := TakeLE(s4, 8).1;
    WriteTaken(s, 4);
    WriteTaken(s1, 1);
    WriteTaken(s2, 2);
    WriteTaken(s3, 1);
    WriteTaken(s4, 8);
    WriteTaken(s5, 4);
  }

  /** The header byte by byte: little-endian fields at fixed places, and a flag of two's complement. */
  lemma Layout(m: Magic)
    requires m.InRange()
    ensures var s := EncodeBytes(m);
            s[..4] == ToLE(m.length, 4) && s[4] == m.flag && s[5..7] == ToLE(m.version, 2) &&
            s[7] == m.isRequest % 256 && s[8..16] == ToLE(m.requestId, 8) && s[16..20] == ToLE(m.serverNumber, 4) &&
            s[20..] == m.payload
  {
    var s, v := EncodeBytes(m), Int8ToByte(m.isRequest);
    assert ToLE(m.flag, 1) == [m.flag] && ToLE(v, 1) == [v];
    hide ToLE;
    var n, version, id, number := ToLE(m.length, 4), ToLE(m.version, 2), ToLE(m.requestId, 8), ToLE(m.serverNumber, 4);
    assert s == n + ([m.flag] + (version + ([v] + (id + (number + m.payload)))));
    hide *;
    InFields(n, m.flag, version, v, id, number, m.payload);
  }

  lemma InFields(n: seq<Byte>, flag: Byte, version: seq<Byte>, v: Byte, id: seq<Byte>, number: seq<Byte>,
                 payload: seq<Byte>)
    requires |n| == 4 && |version| == 2 && |id| == 8 && |number| == 4
    ensures var s := n + ([flag] + (version + ([v] + (id + (number + payload)))));
            s[..4] == n && s[4] == flag && s[5..7] == version && s[7] == v && s[8..16] == id && s[16..20] == number &&
            s[20..] == payload
  {
    var s5 := number + payload;
    var s4 := id + s5;
    var s3 := [v] + s4;
    var s2 := version + s3;
    var s1 := [flag] + s2;
    var s := n + s1;
    assert s[4..] == s1 && s[5..] == s2 && s[7..] == s3 && s[8..] == s4 && s[16..] == s5;
    assert s[5..7] == s2[..2] && s[8..16] == s4[..8] && s[16..20] == s5[..4] && s[20..] == s5[4..];
  }

  /** Clearing isRequest changes one byte of the message and nothing else. */
  lemma MarkedAsAnswer(s: seq<Byte>)
    requires |s| >= HEAD_LEN
    ensures EncodeBytes(DecodeBytes(s).(isRequest := 0)) == s[7 := 0]
  {
    var m := DecodeBytes(s);
    var m' := m.(isRequest := 0);
    EncodeDecode(s);
    Layout(m);
    Layout(m');
    var s' := EncodeBytes(m');
    hide *;
    InParts(s');
    InParts(s[7 := 0]);
    assert s[7 := 0][..4] == s[..4] && s[7 := 0][5..7] == s[5..7] && s[7 := 0][8..16] == s[8..16];
    assert s[7 := 0][16..20] == s[16..20] && s[7 := 0][20..] == s[20..];
  }

  lemma InParts(s: seq<Byte>)
    requires |s| >= 20
    ensures s == s[..4] + ([s[4]] + s[5..7] + [s[7]]) + s[8..16] + s[16..20] + s[20..]
  {
    assert s[..8] == s[..4] + ([s[4]] + s[5..7] + [s[7]]);
    assert s[..16] == s[..8] + s[8..16] && s[..20] == s[..16] + s[16..20] && s == s[..20] + s[20..];
  }

  lemma DecodeEnds(s: seq<Byte>)
    requires |s| >= HEAD_LEN
    ensures DecodeBytes(s).length == FromLE(s[..4]) && DecodeBytes(s).payload == s[HEAD_LEN..]
  {
    EncodeDecode(s);
    HeaderThenPayload(DecodeBytes(s));
  }

  /** Creating the payload buffer from the length field leaves room for what follows the header. */
  predicate PayloadFits(s: seq<Byte>) {
    |s| > HEAD_LEN ==>
      var capacity := (FromLE(s[..4]) - HEAD_LEN) % U32;
      |s| < U32 && |s| - HEAD_LEN <= 2 * capacity && (|s| - HEAD_LEN > capacity ==> 2 * capacity < U32)
  }

  class MyMagicMessage {
    var length: nat
    var flag: Byte
    var version: nat
    var isRequest: int
    var requestId: nat
    var serverNumber: nat
    var payload: MyIOBuf?

    constructor ()
      ensures payload == null
    {
      payload := null;
    }

    ghost predicate Valid()
      reads this, payload, if payload == null then {} else {payload.buffer, payload.buffer.data}
    {
      payload != null ==> payload.Valid()
    }

    ghost function View(): Magic
      requires Valid()
      reads this, payload, if payload == null then {} else {payload.buffer, payload.buffer.data}
    {
      Magic(length, flag, version, isRequest, requestId, serverNumber,
            if payload == null then [] else payload.Contents())
    }

    /** The bytes of the message in a buffer they fill to the last byte: no compaction, no growth. */
    method Encode() returns (out: MyIOBuf)
      requires Valid() && View().WellFormed()
      ensures fresh(out) && fresh(out.buffer) && fresh(out.buffer.data)
      ensures out.Valid() && out.Contents() == EncodeBytes(View())
      ensures out.buffer.capacity == out.buffer.writeable == length && out.buffer.readable == 0
    {
      out := new MyIOBuf(length);
      WriteHeader(out);
      if payload != null {
        var bytes := payload.Peek();
        out.WriteBytes(bytes);
      }
      HeaderThenPayload(View());
    }

    method WriteHeader(out: MyIOBuf)
      requires Valid() && View().InRange() && out.Valid() && out.Contents() == []
      requires out.buffer.readable == out.buffer.writeable == 0 && HEAD_LEN <= out.buffer.capacity
      requires payload != null ==> out.buffer.data != payload.buffer.data && out.buffer != payload.buffer
      modifies out.buffer, out.buffer.data
      ensures out.Valid() && out.Contents() == HeaderBytes(View())
      ensures out.buffer.data == old(out.buffer.data) && out.buffer.capacity == old(out.buffer.capacity)
      ensures out.buffer.readable == 0 && out.buffer.writeable == HEAD_LEN
    {
      Pow256Values();
      out.WriteLE(length, 4);
      out.WriteLE(flag, 1);
      out.WriteLE(version, 2);
      out.WriteLE(Int8ToByte(isRequest), 1);
      out.WriteLE(requestId, 8);
      out.WriteLE(serverNumber, 4);
    }

    /**
     Reads the fields in order. It fails exactly on input shorter than the header, which it then uses up;
     the rest of the input becomes the payload and is not consumed. With no rest an earlier payload stays.
     */
    method Decode(packet: MyIOBuf) returns (ok: bool)
      requires packet.Valid()
      requires PayloadFits(packet.Contents())
      modifies this, packet.buffer`readable
      ensures packet.Valid()
      ensures ok <==> |old(packet.Contents())| >= HEAD_LEN
      ensures ok ==> packet.Contents() == old(packet.Contents())[HEAD_LEN..]
      ensures ok && (old(payload) == null || |old(packet.Contents())| > HEAD_LEN) ==>
                Valid() && View() == DecodeBytes(old(packet.Contents()))
      ensures ok && |old(packet.Contents())| == HEAD_LEN ==> payload == old(payload)
      ensures payload != old(payload) ==> fresh(payload) && fresh(payload.buffer) && fresh(payload.buffer.data)
      ensures !ok ==> packet.Contents() == [] && payload == old(payload)
    {
      ghost var s := packet.Contents();
      ok := ReadHeader(packet);
      if !ok {
        return;
      }
      DecodeEnds(s);
      var rest := packet.Peek();
      if rest != [] {
        payload := CreateFilled((length - HEAD_LEN) % U32, rest);
      }
    }

    method ReadHeader(packet: MyIOBuf) returns (ok: bool)
      requires packet.Valid()
      modifies this, packet.buffer`readable
      ensures packet.Valid() && payload == old(payload)
      ensures ok <==> |old(packet.Contents())| >= HEAD_LEN
      ensures ok ==> DecodeBytes(old(packet.Contents())) ==
                       Magic(length, flag, version, isRequest, requestId, serverNumber, packet.Contents())
      ensures !ok ==> packet.Contents() == []
    {
      ok := ReadFront(packet);
      if ok {
        ok := ReadBack(packet);
      }
    }

    method ReadFront(packet: MyIOBuf) returns (ok: bool)
      requires packet.Valid()
      modifies this`length, this`flag, this`version, packet.buffer`readable
      ensures packet.Valid()
      ensures ok <==> |old(packet.Contents())| >= 7
      ensures ok ==> var (l, s1) := TakeLE(old(packet.Contents()), 4);
                     var (f, s2) := TakeLE(s1, 1);
                     (length, flag) == (l, f) && (version, packet.Contents()) == TakeLE(s2, 2)
      ensures !ok ==> packet.Contents() == []
    {
      Pow256Values();
      var r := packet.ReadLE(4);
      if r.Overflow? { return false; }
      length := r.value;
      r := packet.ReadLE(1);
      if r.Overflow? { return false; }
      flag := r.value;
      r := packet.ReadLE(2);
      if r.Overflow? { return false; }
      version := r.value;
      ok := true;
    }

    method ReadBack(packet: MyIOBuf) returns (ok: bool)
      requires packet.Valid()
      modifies this`isRequest, this`requestId, this`serverNumber, packet.buffer`readable
      ensures packet.Valid()
      ensures ok <==> |old(packet.Contents())| >= 13
      ensures ok ==> var (i, s1) := TakeLE(old(packet.Contents()), 1);
                     var (q, s2) := TakeLE(s1, 8);
                     i < 256 && (isRequest, requestId) == (ByteToInt8(i), q) &&
                     (serverNumber, packet.Contents()) == TakeLE(s2, 4)
      ensures !ok ==> packet.Contents() == []
    {
      Pow256Values();
      var r := packet.ReadLE(1);
      if r.Overflow? { return false; }
      isRequest := ByteToInt8(r.value);
      r := packet.ReadLE(8);
      if r.Overflow? { return false; }
      requestId := r.value;
      r := packet.ReadLE(4);
      if r.Overflow? { return false; }
      serverNumber := r.value;
      ok := true;
    }
  }
}
