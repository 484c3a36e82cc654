/** The ICMP Echo / Echo Reply message (RFC 792): an 8-byte big-endian
    header (type, code, checksum, identifier, sequence number) followed by
    the payload, its wire encoding and decoding, and its Internet checksum. */
module Icmp {
  import opened Checksum

  const HeaderLength: nat := 8
  const EchoReply: byte := 0
  const EchoRequest: byte := 8

  /** One Echo message. The fields are bounded as the wire format bounds
      them: type and code one byte, the three others two bytes. */
  datatype Echo = Echo(
    msgType: byte,
    code: byte,
    checksum: u16,
    identifier: u16,
    sequenceNumber: u16,
    payload: seq<byte>)

  /** Why a buffer is not an Echo message: it is shorter than the header, or
      its type is neither Echo Reply nor Echo Request. */
  datatype DecodeError = TooShort | NotEcho(msgType: byte)

  datatype Result<T> = Ok(value: T) | Err(error: DecodeError)

  /** The header fields in wire order, as struct format `>BBHHH` packs them. */
  type Header = (byte, byte, u16, u16, u16)

  predicate IsEchoType(t: byte)
  {
    t == EchoReply || t == EchoRequest
  }

  /** A message built with the constructor's defaults (an Echo Request with
      code, checksum, identifier and sequence number 0) and the given payload. */
  function NewEcho(payload: seq<byte>): (p: Echo)
    ensures p.msgType == EchoRequest && p.payload == payload
    ensures p.code == 0 && p.checksum == 0 && p.identifier == 0 && p.sequenceNumber == 0
  {
    Echo(EchoRequest, 0, 0, 0, 0, payload)
  }

  /** A default message encodes as type 8 followed by seven zero bytes and
      the payload, and decodes back to itself. */
  lemma NewEchoWire(payload: seq<byte>)
    ensures Encode(NewEcho(payload)) == [EchoRequest, 0, 0, 0, 0, 0, 0, 0] + payload
    ensures Decode(Encode(NewEcho(payload))) == Ok(NewEcho(payload))
  {
    assert Be16(0) == [0, 0];
    assert PackHeader((EchoRequest, 0, 0, 0, 0)) == [EchoRequest, 0, 0, 0, 0, 0, 0, 0];
    DecodeEncode(NewEcho(payload));
  }

  /** The 8 header bytes: type, code, then the three 16-bit fields big-endian. */
  function PackHeader(h: Header): (r: seq<byte>)
    ensures |r| == HeaderLength
    ensures r[0] == h.0 && r[1] == h.1
    ensures r[2..4] == Be16(h.2) && r[4..6] == Be16(h.3) && r[6..8] == Be16(h.4)
  {
    [h.0, h.1] + Be16(h.2) + Be16(h.3) + Be16(h.4)
  }

  /** The header fields read back from 8 bytes; packing them again gives
      those very bytes. */
  function UnpackHeader(b: seq<byte>): (h: Header)
    requires |b| == HeaderLength
    ensures PackHeader(h) == b
  {
    Be16OfWord(b[2], b[3]);
    Be16OfWord(b[4], b[5]);
    Be16OfWord(b[6], b[7]);
    (b[0], b[1], Word(b[2], b[3]), Word(b[4], b[5]), Word(b[6], b[7]))
  }

  lemma UnpackPack(h: Header)
    ensures UnpackHeader(PackHeader(h)) == h
  {
    WordOfBe16(h.2);
    WordOfBe16(h.3);
    WordOfBe16(h.4);
  }

  /** The wire bytes: the header with the checksum as stored (not
      recomputed), then the payload unchanged; no padding. */
  function Encode(p: Echo): (r: seq<byte>)
    ensures |r| == HeaderLength + |p.payload|
    ensures r[0] == p.msgType && r[1] == p.code
    ensures r[2..4] == Be16(p.checksum)
    ensures r[4..6] == Be16(p.identifier)
    ensures r[6..8] == Be16(p.sequenceNumber)
    ensures r[HeaderLength..] == p.payload
  {
    PackHeader((p.msgType, p.code, p.checksum, p.identifier, p.sequenceNumber)) + p.payload
  }

  /** Parses the wire bytes. A buffer shorter than the header and a type
      other than 0 or 8 are errors; the checksum is kept as read, and
      everything after the header is the payload. */
  function Decode(data: seq<byte>): (r: Result<Echo>)
    ensures |data| < HeaderLength <==> r == Err(TooShort)
    ensures r.Err? && r.error.NotEcho? <==> |data| >= HeaderLength && !IsEchoType(data[0])
    ensures r.Err? && r.error.NotEcho? ==> r.error.msgType == data[0]
    ensures r.Ok? ==> r.value.msgType == data[0] && r.value.code == data[1]
    ensures r.Ok? ==> r.value.checksum == Word(data[2], data[3])
    ensures r.Ok? ==> r.value.identifier == Word(data[4], data[5])
    ensures r.Ok? ==> r.value.sequenceNumber == Word(data[6], data[7])
    ensures r.Ok? ==> r.value.payload == data[HeaderLength..]
  {
    if |data| < HeaderLength then Err(TooShort)
    else
      var (msgType, code, checksum, identifier, sequenceNumber) := UnpackHeader(data[..HeaderLength]);
      if !IsEchoType(msgType) then Err(NotEcho(msgType))
      else Ok(Echo(msgType, code, checksum, identifier, sequenceNumber, data[HeaderLength..]))
  }

  /** `IcmpEcho.from_bytes` as written: a default message whose fields
      are overwritten one by one, with an early exit on each error. */
  method FromBytes(data: seq<byte>) returns (r: Result<Echo>)
    ensures r == Decode(data)
  {
    if |data| < HeaderLength {
      return Err(TooShort);
    }
    var ret := NewEcho([]);
    ret := ret.(payload := data[HeaderLength..]);
    var (msgType, code, checksum, identifier, sequenceNumber) := UnpackHeader(data[..HeaderLength]);
    ret := ret.(msgType := msgType);
    if !IsEchoType(ret.msgType) {
      return Err(NotEcho(ret.msgType));
    }
    ret := ret.(code := code);
    ret := ret.(checksum := checksum);
    ret := ret.(identifier := identifier);
    ret := ret.(sequenceNumber := sequenceNumber);
    return Ok(ret);
  }

  /** Decoding what was encoded gives the message back, whenever its type
      is one the decoder accepts. */
  lemma DecodeEncode(p: Echo)
    requires IsEchoType(p.msgType)
    ensures Decode(Encode(p)) == Ok(p)
  {
    var e := Encode(p);
    assert e[..HeaderLength] == PackHeader((p.msgType, p.code, p.checksum, p.identifier, p.sequenceNumber));
    UnpackPack((p.msgType, p.code, p.checksum, p.identifier, p.sequenceNumber));
  }

  /** Encoding what was decoded gives back the very bytes decoded. */
  lemma EncodeDecode(data: seq<byte>)
    ensures Decode(data).Ok? ==> Encode(Decode(data).value) == data
  {
    if Decode(data).Ok? {
      assert PackHeader(UnpackHeader(data[..HeaderLength])) == data[..HeaderLength];
      assert data == data[..HeaderLength] + data[HeaderLength..];
    }
  }

  /** The checksum the message should carry: the Internet checksum of its
      encoding with the checksum field set to 0, which added to the folded
      sum of that encoding gives all ones. */
  function CalculatedChecksum(p: Echo): (c: u16)
    ensures c + Fold(WordSum(Padded(Encode(p.(checksum := 0))))) == 0xFFFF
  {
    InternetChecksum(Encode(p.(checksum := 0)))
  }

  /** `IcmpEcho.calculated_checksum` step by step: pack the
      header with a zero checksum, append the payload, pad to even length,
      sum the big-endian words, fold the carries, complement. */
  method CalculateChecksum(p: Echo) returns (c: u16)
    ensures c == CalculatedChecksum(p)
  {
    var data := PackHeader((p.msgType, p.code, 0, p.identifier, p.sequenceNumber)) + p.payload;
    ghost var unpadded := data;
    if |data| % 2 == 1 {
      data := data + [0];
    }
    assert data == Padded(unpadded);
    var sum: nat := 0;
    var pos := 0;
    while pos < |data|
      invariant 0 <= pos <= |data| && pos % 2 == 0
      invariant sum == WordSum(data[..pos])
    {
      var b1: int := data[pos];
      var b2: int := data[pos + 1];
      assert data[..pos + 2] == data[..pos] + data[pos..pos + 2];
      assert WordSum(data[pos..pos + 2]) == b1 * 0x100 + b2 by {
        assert data[pos..pos + 2][2..] == [];
      }
      WordSumAppend(data[..pos], data[pos..pos + 2]);
      sum := sum + (b1 * 0x100 + b2);
      pos := pos + 2;
    }
    assert data[..pos] == data;
    assert sum == WordSum(Padded(unpadded));
    ghost var total := sum;
    while sum >= 0x10000
      invariant Fold(sum) == Fold(total)
      decreases sum
    {
      sum := sum % 0x10000 + sum / 0x10000;
    }
    assert sum == Fold(total);
    c := (-(sum as int) - 1) % 0x10000;
  }

  /** The stored checksum is the one the message should carry, that is, it
      and the folded sum of the encoding with a zero checksum field add up
      to all ones. */
  predicate ValidChecksum(p: Echo): (b: bool)
    ensures b <==> p.checksum + Fold(WordSum(Padded(Encode(p.(checksum := 0))))) == 0xFFFF
  {
    p.checksum == CalculatedChecksum(p)
  }

  /** The calculated checksum does not depend on the stored one. */
  lemma ChecksumIgnoresStoredField(p: Echo, stored: u16)
    ensures CalculatedChecksum(p.(checksum := stored)) == CalculatedChecksum(p)
  {
    assert p.(checksum := stored).(checksum := 0) == p.(checksum := 0);
  }

  /** Storing the calculated checksum makes the message valid, and its
      encoding then passes the receiver's check. */
  lemma StampedIsValid(p: Echo)
    ensures ValidChecksum(p.(checksum := CalculatedChecksum(p)))
    ensures Verifies(Encode(p.(checksum := CalculatedChecksum(p))))
  {
    ChecksumIgnoresStoredField(p, CalculatedChecksum(p));
    ValidChecksumVerifies(p.(checksum := CalculatedChecksum(p)));
  }

  /** An odd-length message is checksummed as if its payload had one more
      zero byte (that byte never reaches the wire: see `Encode`). */
  lemma OddLengthPadding(p: Echo)
    requires (HeaderLength + |p.payload|) % 2 == 1
    ensures CalculatedChecksum(p.(payload := p.payload + [0])) == CalculatedChecksum(p)
  {
    var q := p.(checksum := 0);
    assert Encode(q.(payload := q.payload + [0])) == Encode(q) + [0];
    assert p.(payload := p.payload + [0]).(checksum := 0) == q.(payload := q.payload + [0]);
  }

  /** The word sum over an encoding is the word sum with a zero checksum
      field plus the stored checksum. */
  lemma WordSumWithChecksum(p: Echo)
    ensures WordSum(Padded(Encode(p))) == WordSum(Padded(Encode(p.(checksum := 0)))) + p.checksum
  {
    var z := p.(checksum := 0);
    var e, e0 := Encode(p), Encode(z);
    var hi: byte, lo: byte := e[2], e[3];
    var mid: seq<byte> := Padded(e0)[2 := hi];
    assert Padded(e) == mid[3 := lo];
    WordSumUpdate(Padded(e0), 2, hi);
    WordSumUpdate(mid, 3, lo);
  }

  /** A message with a valid checksum passes the receiver's check of RFC
      1071 (the folded sum over its encoding is all ones); conversely a
      message that passes it has a valid checksum, except when the
      calculated checksum is 0 and the stored one is 0xFFFF, the other
      ones' complement zero, which the equality test of `valid_checksum` refuses. */
  lemma ValidChecksumVerifies(p: Echo)
    ensures ValidChecksum(p) ==> Verifies(Encode(p))
    ensures Verifies(Encode(p)) ==> ValidChecksum(p) || (CalculatedChecksum(p) == 0 && p.checksum == 0xFFFF)
  {
    WordSumWithChecksum(p);
    ComplementCompletesSum(WordSum(Padded(Encode(p.(checksum := 0)))), p.checksum);
  }

  /** Changing any one byte of the encoding of a message whose checksum is
      valid is detected: the result fails the receiver's check, and if it
      still decodes, the decoded message's checksum is not valid. */
  lemma SingleByteChangeDetected(p: Echo, i: nat, v: byte)
    requires ValidChecksum(p)
    requires i < |Encode(p)| && v != Encode(p)[i]
    ensures !Verifies(Encode(p)[i := v])
    ensures Decode(Encode(p)[i := v]).Ok? ==> !ValidChecksum(Decode(Encode(p)[i := v]).value)
  {
    var e := Encode(p);
    var e' := e[i := v];
    ValidChecksumVerifies(p);
    ByteChangeBreaksVerification(e, i, v);
    if Decode(e').Ok? {
      EncodeDecode(e');
      ValidChecksumVerifies(Decode(e').value);
    }
  }

  /** The checksum of the default Echo Request with identifier 1, sequence
      number 2 and no payload: the words 0x0800, 0x0000, 0x0001, 0x0002 sum
      to 0x0803, whose complement is 0xF7FC. */
  lemma KnownVector()
    ensures CalculatedChecksum(Echo(EchoRequest, 0, 0, 1, 2, [])) == 0xF7FC
  {
    var e := Encode(Echo(EchoRequest, 0, 0, 1, 2, []));
    assert e == [8, 0, 0, 0, 0, 1, 0, 2];
    assert Padded(e) == e;
    assert WordSum(e[6..]) == 0x0002 by {
      assert e[6..][2..] == [];
    }
    assert e[4..][2..] == e[6..] && e[2..][2..] == e[4..];
    assert WordSum(e[4..]) == 0x0001 + 0x0002;
    assert WordSum(e[2..]) == 0x0000 + 0x0001 + 0x0002;
    assert WordSum(e) == 0x0800 + 0x0000 + 0x0001 + 0x0002;
  }
}
