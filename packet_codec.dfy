/** The packet codec of the Source-engine RCON protocol. A frame is
      [size:int32][id:int32][type:int32][body bytes][0x00][0x00]
    in little-endian order, where `size` counts every byte after itself. */
module PacketCodec {
  import opened Bytes

  // Field lengths and the two constant lengths derived from them.
  const SizeFieldLength: nat := 4
  const IdFieldLength: nat := 4
  const TypeFieldLength: nat := 4
  const EmptyBodyFieldLength: nat := 1  // the body's null terminator
  const EmptyStringLength: nat := 1     // the trailing empty string's null terminator

  /** `size` of a packet with an empty body. */
  const EmptyPacketSize: nat := IdFieldLength + TypeFieldLength + EmptyBodyFieldLength + EmptyStringLength
  /** Byte length of a packet with an empty body. */
  const EmptyPacketByteLength: nat := EmptyPacketSize + SizeFieldLength

  // Field offsets.
  const SizeOffset: nat := 0
  const IdOffset: nat := 4
  const TypeOffset: nat := 8
  const BodyOffset: nat := 12

  // The closed set of packet type codes of the Source RCON protocol.
  const ResponseValue: int := 0
  const ExecCommand: int := 2
  const AuthResponse: int := 2
  const Auth: int := 3
  const PacketTypes: set<int> := {ResponseValue, ExecCommand, AuthResponse, Auth}

  datatype Error = IllegalArgument | InvalidPacket

  datatype Result<T> = Success(value: T) | Failure(error: Error)

  datatype Outcome = Pass | Fail(error: Error)

  datatype Option<T> = None | Some(value: T)

  /** What decoding reports about a frame. */
  datatype Packet = Packet(id: int, ptype: int, body: seq<byte>)

  /** A built frame: its bytes together with what they decode to. */
  datatype Frame = Frame(bytes: array<byte>, packet: Packet)

  // ---------------------------------------------------------------------
  // Validators

  /** The type is one of the closed set of codes; every such code fits the
      int32 type field unchanged. */
  predicate IsValidPacketType(value: int): (ok: bool)
    ensures ok ==> 0 <= value && WrapInt32(value) == value
  {
    value in PacketTypes
  }

  /** The id is an integer in 1..2^31-1, so it fits the int32 id field
      unchanged and is never 0 or negative. */
  predicate IsValidPacketId(value: int): (ok: bool)
    ensures ok ==> 0 < value && WrapInt32(value) == value
  {
    0 < value <= MaxInt32
  }

  /** The body bytes contain no null byte (the in-band terminator): a search
      for a null from the start finds none. */
  predicate IsValidPacketBody(value: seq<byte>): (ok: bool)
    ensures ok <==> FirstNullFrom(value, 0).None?
  {
    0 !in value
  }

  /** The empty packet: its size field is 10 and it is 14 bytes long, 4 more
      than its size because the size field does not count itself. */
  lemma EmptyPacketLengths(id: int, ptype: int)
    ensures EmptyPacketSize == 10 && EmptyPacketByteLength == 14
    ensures |Layout(id, ptype, [])| == EmptyPacketByteLength
    ensures Int32At(Layout(id, ptype, []), SizeOffset) == EmptyPacketSize
  {
    DecodeEncodeInt32(EmptyPacketSize);
  }

  /** A valid id is exactly a positive value that the int32 id field
      carries unchanged. */
  lemma ValidIdIsPositiveInt32(value: int)
    ensures IsValidPacketId(value) <==> 0 < value && DecodeInt32(EncodeInt32(value)) == value
  {
    if IsValidPacketId(value) {
      DecodeEncodeInt32(value);
    }
  }

  /** The bounds of the id range: 1 and 2^31-1 are in, 0, -1 and 2^31 out. */
  lemma IdRangeBoundaries()
    ensures IsValidPacketId(1) && IsValidPacketId(0x7FFF_FFFF)
    ensures !IsValidPacketId(0) && !IsValidPacketId(-1) && !IsValidPacketId(0x8000_0000)
  {
  }

  /** The index of the first null byte of s at or after `from`, if any. */
  function FirstNullFrom(s: seq<byte>, from: nat): (r: Option<nat>)
    decreases |s| - from
    ensures r.Some? ==> from <= r.value < |s| && s[r.value] == 0
    ensures r.Some? ==> forall j :: from <= j < r.value ==> s[j] != 0
    ensures r.None? ==> forall j :: from <= j < |s| ==> s[j] != 0
  {
    if from >= |s| then None
    else if s[from] == 0 then Some(from)
    else FirstNullFrom(s, from + 1)
  }

  // ---------------------------------------------------------------------
  // Frame layout and decoding

  /** The bytes `build` lays out for (id, ptype, body). */
  function Layout(id: int, ptype: int, body: seq<byte>): (frame: seq<byte>)
    ensures |frame| == EmptyPacketByteLength + |body|
    ensures frame[SizeOffset..IdOffset] == EncodeInt32(|frame| - SizeFieldLength)
    ensures frame[IdOffset..TypeOffset] == EncodeInt32(id)
    ensures frame[TypeOffset..BodyOffset] == EncodeInt32(ptype)
    ensures frame[BodyOffset..BodyOffset + |body|] == body
    ensures frame[|frame| - 2] == 0 && frame[|frame| - 1] == 0
  {
    EncodeInt32(EmptyPacketSize + |body|) + EncodeInt32(id) + EncodeInt32(ptype) + body + [0, 0]
  }

  /** Writing the size, id and type fields and then the body over a zeroed
      buffer of the right length produces the layout. */
  lemma WritesMakeLayout(zeroed: seq<byte>, id: int, ptype: int, body: seq<byte>)
    requires |zeroed| == EmptyPacketByteLength + |body|
    requires forall i :: 0 <= i < |zeroed| ==> zeroed[i] == 0
    ensures Overwrite(Overwrite(Overwrite(Overwrite(zeroed,
              SizeOffset, EncodeInt32(EmptyPacketSize + |body|)),
              IdOffset, EncodeInt32(id)),
              TypeOffset, EncodeInt32(ptype)),
              BodyOffset, body) == Layout(id, ptype, body)
  {
  }

  /** The buffers on which `fromByteArray` ends by its own logic: the size
      field can be read, and whenever the size check passes there is room for
      id, type, body and both terminators. */
  predicate Readable(bytes: seq<byte>) {
    |bytes| >= SizeFieldLength &&
    (Int32At(bytes, SizeOffset) == |bytes| - SizeFieldLength ==> |bytes| >= EmptyPacketByteLength)
  }

  /** `fromByteArray` on a buffer's bytes: the size field must equal the
      number of bytes after it; the body is the `size - 10` bytes from offset
      12. Nothing is checked about id, type or the terminator bytes. */
  function Decode(bytes: seq<byte>): (r: Result<Packet>)
    requires Readable(bytes)
    ensures r.Failure? <==> Int32At(bytes, SizeOffset) != |bytes| - SizeFieldLength
    ensures r.Failure? ==> r.error == InvalidPacket
    ensures r.Success? ==> |bytes| >= EmptyPacketByteLength
    ensures r.Success? ==> r.value.id == Int32At(bytes, IdOffset) && r.value.ptype == Int32At(bytes, TypeOffset)
    ensures r.Success? ==> r.value.body == bytes[BodyOffset..|bytes| - 2]
  {
    var size := Int32At(bytes, SizeOffset);
    if size != |bytes| - SizeFieldLength then
      Failure(InvalidPacket)
    else
      Success(Packet(Int32At(bytes, IdOffset), Int32At(bytes, TypeOffset),
                     bytes[BodyOffset..BodyOffset + (size - EmptyPacketSize)]))
  }

  /** Decoding a laid-out frame gives back its id, type (after ToInt32) and
      body, unless the size field overflowed int32, in which case the size
      check rejects the frame. */
  lemma DecodeLayout(id: int, ptype: int, body: seq<byte>)
    ensures Decode(Layout(id, ptype, body)) ==
            if EmptyPacketSize + |body| <= MaxInt32
            then Success(Packet(WrapInt32(id), WrapInt32(ptype), body))
            else Failure(InvalidPacket)
  {
    var frame := Layout(id, ptype, body);
    DecodeEncode(EmptyPacketSize + |body|);
    DecodeEncode(id);
    DecodeEncode(ptype);
    assert Int32At(frame, IdOffset) == WrapInt32(id);
    assert Int32At(frame, TypeOffset) == WrapInt32(ptype);
  }

  /** Round trip: a frame built from valid arguments decodes to them. */
  lemma RoundTrip(id: int, ptype: int, body: seq<byte>)
    requires IsValidPacketId(id) && IsValidPacketType(ptype) && IsValidPacketBody(body)
    requires EmptyPacketSize + |body| <= MaxInt32
    ensures Decode(Layout(id, ptype, body)) == Success(Packet(id, ptype, body))
  {
    DecodeLayout(id, ptype, body);
  }

  /** The body of a laid-out frame is null-free exactly when the body's
      terminator is the first null byte after the type field, so the
      terminator marks where the body ends. */
  lemma TerminatorDelimitsBody(id: int, ptype: int, body: seq<byte>)
    ensures IsValidPacketBody(body) <==>
            FirstNullFrom(Layout(id, ptype, body), BodyOffset) == Some(BodyOffset + |body|)
  {
  }

  // ---------------------------------------------------------------------
  // Frame operations on buffers

  /** The writing half of `build`: a zeroed buffer of 14 + |body| bytes
      receives the size, id and type fields and then the body. */
  method WriteFrame(id: int, ptype: int, body: seq<byte>) returns (bytes: array<byte>)
    ensures fresh(bytes)
    ensures bytes[..] == Layout(id, ptype, body)
  {
    var bodyByteLength := |body|;
    var packetByteLength := EmptyPacketByteLength + bodyByteLength;
    bytes := new byte[packetByteLength](_ => 0);
    ghost var zeroed := bytes[..];
    SetInt32(bytes, SizeOffset, EmptyPacketSize + bodyByteLength);
    SetInt32(bytes, IdOffset, id);
    SetInt32(bytes, TypeOffset, ptype);
    SetBytes(bytes, body, BodyOffset);
    WritesMakeLayout(zeroed, id, ptype, body);
  }

  /** `build`: validates the arguments, lays the frame out in a zeroed
      buffer and decodes that buffer. */
  method Build(id: int, ptype: int, body: seq<byte>) returns (r: Result<Frame>)
    ensures r == Failure(IllegalArgument) <==>
            !(IsValidPacketId(id) && IsValidPacketType(ptype) && IsValidPacketBody(body))
    ensures r == Failure(InvalidPacket) <==>
            IsValidPacketId(id) && IsValidPacketType(ptype) && IsValidPacketBody(body) &&
            EmptyPacketSize + |body| > MaxInt32
    ensures (IsValidPacketId(id) && IsValidPacketType(ptype) && IsValidPacketBody(body) &&
             EmptyPacketSize + |body| <= MaxInt32) ==> r.Success?
    ensures r.Success? ==> fresh(r.value.bytes)
    ensures r.Success? ==> r.value.bytes[..] == Layout(id, ptype, body)
    ensures r.Success? ==> r.value.packet == Packet(id, ptype, body)
  {
    if !(IsValidPacketId(id) && IsValidPacketType(ptype) && IsValidPacketBody(body)) {
      return Failure(IllegalArgument);
    }
    var bytes := WriteFrame(id, ptype, body);
    var decoded := FromByteArray(bytes);
    DecodeLayout(id, ptype, body);
    match decoded
    case Success(p) =>
      r := Success(Frame(bytes, p));
    case Failure(e) =>
      r := Failure(e);
  }

  /** `fromByteArray`: reads the buffer's bytes, checks the size field
      against the buffer's length, then takes id, type and the body slice. */
  method FromByteArray(bytes: array<byte>) returns (r: Result<Packet>)
    requires Readable(bytes[..])
    ensures r.Failure? <==> Int32At(bytes[..], SizeOffset) != bytes.Length - SizeFieldLength
    ensures r == Decode(bytes[..])
  {
    var contents := bytes[..];
    r := Decode(contents);
  }

  /** `setId`: rejects an invalid id; otherwise overwrites only the id field. */
  method SetId(bytes: array<byte>, id: int) returns (r: Outcome)
    requires bytes.Length >= TypeOffset
    modifies bytes
    ensures r == if IsValidPacketId(id) then Pass else Fail(IllegalArgument)
    ensures r.Fail? ==> bytes[..] == old(bytes[..])
    ensures r.Pass? ==> bytes[..] == Overwrite(old(bytes[..]), IdOffset, EncodeInt32(id))
  {
    if !IsValidPacketId(id) {
      return Fail(IllegalArgument);
    }
    SetInt32(bytes, IdOffset, id);
    return Pass;
  }

  /** Relabelling with a valid id changes what a frame decodes to in its id
      only: the size check, type and body are as before. */
  lemma RelabelledDecode(before: seq<byte>, id: int)
    requires Readable(before) && |before| >= TypeOffset
    requires IsValidPacketId(id)
    ensures Readable(Overwrite(before, IdOffset, EncodeInt32(id)))
    ensures Decode(Overwrite(before, IdOffset, EncodeInt32(id))) ==
            match Decode(before)
            case Success(p) => Success(p.(id := id))
            case Failure(e) => Failure(e)
  {
    var after := Overwrite(before, IdOffset, EncodeInt32(id));
    assert after[SizeOffset..SizeOffset + 4] == before[SizeOffset..SizeOffset + 4];
    assert after[IdOffset..IdOffset + 4] == EncodeInt32(id);
    if |before| >= EmptyPacketByteLength {
      assert after[TypeOffset..TypeOffset + 4] == before[TypeOffset..TypeOffset + 4];
      assert after[BodyOffset..|after| - 2] == before[BodyOffset..|before| - 2];
    }
    DecodeEncodeInt32(id);
  }

  /** Relabelling a laid-out frame, as is done to reuse a pre-built empty
      packet under a fresh id, gives the frame laid out with the new id. */
  lemma RelabelBuiltFrame(id: int, ptype: int, body: seq<byte>, newId: int)
    ensures Overwrite(Layout(id, ptype, body), IdOffset, EncodeInt32(newId)) == Layout(newId, ptype, body)
  {
    var a := Overwrite(Layout(id, ptype, body), IdOffset, EncodeInt32(newId));
    var b := Layout(newId, ptype, body);
    forall k | 0 <= k < |b| ensures a[k] == b[k] {
      if k < IdOffset {
        assert a[k] == Layout(id, ptype, body)[SizeOffset..IdOffset][k];
        assert b[k] == b[SizeOffset..IdOffset][k];
      } else if k < TypeOffset {
        assert b[k] == b[IdOffset..TypeOffset][k - IdOffset];
      }
    }
  }

  // ---------------------------------------------------------------------
  // The body check as written

  /** `isValidPacketBody` as written: `!nullRegExp.test(value)` with a regular
      expression declared with the global flag. Such a `test` searches from
      the expression's `lastIndex`, resets `lastIndex` to 0 when it finds
      nothing (or when `lastIndex` is past the end), and sets it just past
      the match otherwise. Returns the verdict and the new `lastIndex`. */
  function IsValidPacketBodyAsWritten(value: seq<byte>, lastIndex: nat): (r: (bool, nat))
    ensures !r.0 <==> lastIndex <= |value| && exists j :: lastIndex <= j < |value| && value[j] == 0
    ensures !r.0 ==> lastIndex < r.1 <= |value| && value[r.1 - 1] == 0
    ensures !r.0 ==> forall j :: lastIndex <= j < r.1 - 1 ==> value[j] != 0
    ensures r.0 ==> r.1 == 0
    ensures lastIndex == 0 ==> r.0 == IsValidPacketBody(value)
  {
    if lastIndex > |value| then (true, 0)
    else match FirstNullFrom(value, lastIndex)
      case None => (true, 0)
      case Some(i) => (false, i + 1)
  }

  /** After one body with a null byte has been rejected, the same body is
      accepted by the next check. */
  lemma AsWrittenBodyCheckAcceptsNull()
    ensures !IsValidPacketBody([0])
    ensures !IsValidPacketBodyAsWritten([0], 0).0
    ensures IsValidPacketBodyAsWritten([0], IsValidPacketBodyAsWritten([0], 0).1).0
  {
  }
}
