/** Packing of HomePlug Green PHY management frames into a caller's buffer,
    and inspection of a received frame's message type.

    Layout of a frame (all fields packed, no alignment gaps):
      byte 0      management message version (always 1 here)
      bytes 1-2   MMTYPE, stored least significant byte first
      byte 3      fragmentation sequence number (FMI), 0
      byte 4      fragmentation options, 0
      bytes 5..   the payload struct of the (kind, variant) pair */
module FramePacker {
  import opened CodeMapper

  datatype Option<T> = None | Some(value: T)

  /** sizeof(struct hpgp_frame): version byte and 16-bit MMTYPE. */
  const FrameHeaderLen: nat := 1 + 2
  /** sizeof(struct hpgp_mme) without its data: FMI and FMI options. */
  const MmeHeaderLen: nat := 1 + 1
  /** Where the payload starts. */
  const HeaderLen: nat := FrameHeaderLen + MmeHeaderLen
  /** Destination and source addresses and EtherType of the Ethernet header. */
  const EthHeaderOffset: nat := 6 + 6 + 2
  /** The IEEE 802.3 minimum frame without FCS, less the Ethernet header:
      the least length a frame with a payload is reported to have. */
  const PadBound: nat := 60 - EthHeaderOffset
  const MmVersion: bv8 := 1
  /** One past the largest size_t of a 64-bit host. */
  const SizeLimit: nat := 0x1_0000_0000_0000_0000

  function Min(a: nat, b: nat): nat {
    if a > b then b else a
  }

  /** Least significant byte of an MMTYPE, stored first. */
  function LowByte(code: bv16): bv8 {
    (code & 0xFF) as bv8
  }

  function HighByte(code: bv16): bv8 {
    (code >> 8) as bv8
  }

  /** The MMTYPE field of a frame. */
  function ReadCode(frame: seq<bv8>): bv16
    requires |frame| >= FrameHeaderLen
  {
    ((frame[2] as bv16) << 8) | (frame[1] as bv16)
  }

  /** The MMTYPE read from a frame has byte 1 as its low byte and byte 2 as
      its high byte, so two frames with the same MMTYPE agree on both. */
  lemma ReadCodeBytes(frame: seq<bv8>)
    requires |frame| >= FrameHeaderLen
    ensures LowByte(ReadCode(frame)) == frame[1] && HighByte(ReadCode(frame)) == frame[2]
  {
  }

  /** Kind of a received frame. For every frame whose code this codec
      produces, the kind and variant read back re-encode to that code. */
  function FrameKind(frame: seq<bv8>): (kind: Kind)
    requires |frame| >= FrameHeaderLen
    ensures IsWireCode(ReadCode(frame)) ==> Encode(kind, FrameVariant(frame)) == ReadCode(frame)
    ensures kind < Max ==> Category(ReadCode(frame)) == StaCco || Category(ReadCode(frame)) == StaSta
    ensures Category(ReadCode(frame)) != StaCco && Category(ReadCode(frame)) != StaSta ==> kind == Max
  {
    DecodeExactOnWireCodes(ReadCode(frame));
    MmKind(ReadCode(frame))
  }

  /** Variant of a received frame: the two low bits of the first code byte. */
  function FrameVariant(frame: seq<bv8>): (variant: Variant)
    requires |frame| >= FrameHeaderLen
    ensures variant.Bits() == (frame[1] & 3) as bv16
  {
    VariantOf(ReadCode(frame))
  }

  /** The routines a dispatch table can hold: pack_nothing, and one routine
      per payload struct that copies at most that struct's size. */
  datatype PackRoutine =
    | PackNothing
    | PackSetKeyReq
    | PackSlacParmReq
    | PackSlacMatchReq
    | PackSlacParmCnf
    | PackSlacMatchCnf
    | PackStartAttenCharInd
    | PackMnbcSoundInd
    | PackAttenCharInd
    | PackAttenCharRsp
  {
    /** Size of the packed struct the routine copies, field by field. */
    function StructSize(): (size: nat)
      ensures size == 0 <==> this == PackNothing
    {
      match this
      case PackNothing => 0
      // key type, my nonce, your nonce, PID, PRN, PMN, CCo capability,
      // NID, key selection, key
      case PackSetKeyReq => 1 + 4 + 4 + 1 + 2 + 1 + 1 + 7 + 1 + 16
      // application type, security type, run id, cipher suite set size;
      // the zero-length cipher suite array adds nothing
      case PackSlacParmReq => 1 + 1 + 8 + 1
      // application type, security type, length, then PEV id and MAC,
      // EVSE id and MAC, run id, reserved
      case PackSlacMatchReq => 1 + 1 + 2 + (17 + 6 + 17 + 6 + 8 + 8)
      // target MAC, sounds, timeout, forwarding type, forwarding MAC,
      // application type, security type, run id, cipher suite
      case PackSlacParmCnf => 6 + 1 + 1 + 1 + 6 + 1 + 1 + 8 + 2
      // as the request's, then NID, reserved, NMK
      case PackSlacMatchCnf => 1 + 1 + 2 + (17 + 6 + 17 + 6 + 8 + 8 + 7 + 1 + 16)
      // application type, security type, then sounds, timeout, response
      // type, forwarding station, run id
      case PackStartAttenCharInd => 1 + 1 + (1 + 1 + 1 + 6 + 8)
      // application type, security type, then sender id, count, run id,
      // reserved, random value
      case PackMnbcSoundInd => 1 + 1 + (17 + 1 + 8 + 8 + 16)
      // application type, security type, then source MAC, run id, source
      // id, responder id, sounds, groups, attenuation profile
      case PackAttenCharInd => 1 + 1 + (6 + 8 + 17 + 17 + 1 + 1 + 58)
      // application type, security type, then source MAC, run id, source
      // id, responder id, result
      case PackAttenCharRsp => 1 + 1 + (6 + 8 + 17 + 17 + 1)
    }

    /** Kind of the message whose struct the routine copies. */
    function MsgKind(): Kind
      requires this != PackNothing
    {
      match this
      case PackSetKeyReq => SetKey
      case PackSlacParmReq => SlacParm
      case PackSlacMatchReq => SlacMatch
      case PackSlacParmCnf => SlacParm
      case PackSlacMatchCnf => SlacMatch
      case PackStartAttenCharInd => StartAttenChar
      case PackMnbcSoundInd => MnbcSound
      case PackAttenCharInd => AttenChar
      case PackAttenCharRsp => AttenChar
    }

    /** Variant of the message whose struct the routine copies. */
    function MsgVariant(): Variant
      requires this != PackNothing
    {
      match this
      case PackSetKeyReq | PackSlacParmReq | PackSlacMatchReq => Req
      case PackSlacParmCnf | PackSlacMatchCnf => Cnf
      case PackStartAttenCharInd | PackMnbcSoundInd | PackAttenCharInd => Ind
      case PackAttenCharRsp => Rsp
    }
  }

  /** The four dispatch tables, one entry per kind in kind order. */
  const ReqTable: seq<PackRoutine> := [
    PackNothing, PackNothing, PackSetKeyReq, PackNothing,          // DiscoverList .. GetKey
    PackNothing, PackNothing, PackNothing, PackNothing,            // BrgInfo .. NwStats
    PackSlacParmReq, PackNothing, PackNothing, PackNothing,        // SlacParm .. PkcsCert
    PackNothing, PackNothing, PackSlacMatchReq, PackNothing,       // MnbcSound .. SlacUserData
    PackNothing                                                    // AttenProfile
  ]

  const CnfTable: seq<PackRoutine> := [
    PackNothing, PackNothing, PackNothing, PackNothing,
    PackNothing, PackNothing, PackNothing, PackNothing,
    PackSlacParmCnf, PackNothing, PackNothing, PackNothing,
    PackNothing, PackNothing, PackSlacMatchCnf, PackNothing,
    PackNothing
  ]

  const IndTable: seq<PackRoutine> := [
    PackNothing, PackNothing, PackNothing, PackNothing,
    PackNothing, PackNothing, PackNothing, PackNothing,
    PackNothing, PackStartAttenCharInd, PackAttenCharInd, PackNothing,
    PackMnbcSoundInd, PackNothing, PackNothing, PackNothing,
    PackNothing
  ]

  const RspTable: seq<PackRoutine> := [
    PackNothing, PackNothing, PackNothing, PackNothing,
    PackNothing, PackNothing, PackNothing, PackNothing,
    PackNothing, PackNothing, PackAttenCharRsp, PackNothing,
    PackNothing, PackNothing, PackNothing, PackNothing,
    PackNothing
  ]

  /** The routine the variant's table holds for a kind. Every entry that
      copies anything copies the struct of that very kind and variant. */
  function Table(variant: Variant, kind: Kind): (routine: PackRoutine)
    requires kind < Max
    ensures routine != PackNothing ==> routine.MsgKind() == kind && routine.MsgVariant() == variant
  {
    match variant
    case Req => ReqTable[kind]
    case Cnf => CnfTable[kind]
    case Ind => IndTable[kind]
    case Rsp => RspTable[kind]
  }

  /** Each copying routine sits in its variant's table at its kind. */
  lemma EveryRoutineTabled(routine: PackRoutine)
    requires routine != PackNothing
    ensures routine.MsgKind() < Max
    ensures Table(routine.MsgVariant(), routine.MsgKind()) == routine
  {
  }

  /** The nine payload structs, in bytes, as packed. */
  lemma StructSizesAsDeclared()
    ensures PackSetKeyReq.StructSize() == 38
    ensures PackSlacParmReq.StructSize() == 11
    ensures PackSlacMatchReq.StructSize() == 66
    ensures PackSlacParmCnf.StructSize() == 27
    ensures PackSlacMatchCnf.StructSize() == 90
    ensures PackStartAttenCharInd.StructSize() == 19
    ensures PackMnbcSoundInd.StructSize() == 52
    ensures PackAttenCharInd.StructSize() == 110
    ensures PackAttenCharRsp.StructSize() == 51
  {
  }

  /** Each dispatch table has exactly one entry per kind. */
  lemma TablesHaveMaxEntries()
    ensures |ReqTable| == |CnfTable| == |IndTable| == |RspTable| == Max as int
  {
  }

  /** Bytes of payload a (variant, kind) pair carries; 0 for pack_nothing. */
  function PayloadSize(variant: Variant, kind: Kind): (size: nat)
    requires kind < Max
    ensures size == 0 <==> Table(variant, kind) == PackNothing
  {
    Table(variant, kind).StructSize()
  }

  /** Bytes copied for a pair when at most maxlen fit: the whole struct,
      or as much of it as fits. */
  function CopyLength(variant: Variant, kind: Kind, maxlen: nat): (n: nat)
    requires kind < Max
    ensures n <= PayloadSize(variant, kind) && n <= maxlen
    ensures n == PayloadSize(variant, kind) || n == maxlen
  {
    Min(PayloadSize(variant, kind), maxlen)
  }

  /** Length reported for n copied payload bytes. An empty payload stays 0;
      any other is reported at least as long as the minimum Ethernet frame
      needs, and is raised only to exactly that bound. */
  function PaddedLength(n: nat): (len: nat)
    ensures len == 0 <==> n == 0
    ensures n <= len
    ensures n > 0 ==> len + HeaderLen >= PadBound
    ensures len != n ==> len + HeaderLen == PadBound
  {
    if n != 0 && n + HeaderLen < PadBound then PadBound - HeaderLen else n
  }

  /** What pack returns for a pair and a buffer size. */
  function ReportedLength(variant: Variant, kind: Kind, bufsize: nat): (len: nat)
    requires kind < Max && bufsize >= HeaderLen
    ensures len == 0 || HeaderLen + len >= PadBound
    ensures len + HeaderLen == PadBound || len == PayloadSize(variant, kind) || HeaderLen + len == bufsize
    ensures len <= PayloadSize(variant, kind) || HeaderLen + len <= PadBound
  {
    PaddedLength(CopyLength(variant, kind, bufsize - HeaderLen))
  }

  /** Room for payload in a buffer of bufsize bytes, as pack computes it:
      MIN(bufsize, bufsize - header) in size_t arithmetic. */
  function MaxLenAsWritten(bufsize: nat): (maxlen: nat)
    requires bufsize < SizeLimit
    ensures maxlen <= bufsize
  {
    Min(bufsize, (bufsize - HeaderLen) % SizeLimit)
  }

  /** Below the header size the subtraction wraps and the MIN keeps the
      whole buffer size, so the payload would be copied past the end. */
  lemma MaxLenAsWrittenOverruns(bufsize: nat)
    requires 0 < bufsize < HeaderLen
    ensures MaxLenAsWritten(bufsize) == bufsize
    ensures HeaderLen + MaxLenAsWritten(bufsize) > bufsize
  {
  }

  /** Room for payload, refusing a buffer smaller than the header. */
  function MaxLen(bufsize: nat): (maxlen: Option<nat>)
    ensures maxlen.Some? <==> bufsize >= HeaderLen
    ensures maxlen.Some? ==> HeaderLen + maxlen.value == bufsize
  {
    if bufsize < HeaderLen then None else Some(Min(bufsize, bufsize - HeaderLen))
  }

  /** Where the header fits, both computations agree. */
  lemma MaxLenAgrees(bufsize: nat)
    requires HeaderLen <= bufsize < SizeLimit
    ensures MaxLen(bufsize) == Some(MaxLenAsWritten(bufsize))
  {
  }

  /** The first bufsize bytes of frame are what pack writes for the
      inputs: the header, the copied payload prefix, zeros elsewhere. */
  ghost predicate Packed(frame: seq<bv8>, kind: Kind, variant: Variant, data: seq<bv8>, bufsize: nat)
  {
    && kind < Max
    && HeaderLen <= bufsize <= |frame|
    && var n := CopyLength(variant, kind, bufsize - HeaderLen);
    && n <= |data|
    && frame[0] == MmVersion
    && ReadCode(frame) == Encode(kind, variant)
    && frame[FrameHeaderLen] == 0
    && frame[FrameHeaderLen + 1] == 0
    && frame[HeaderLen..HeaderLen + n] == data[..n]
    && (forall i :: HeaderLen + n <= i < bufsize ==> frame[i] == 0)
  }

  /** A packed frame starts with version 1, the MMTYPE least significant
      byte first, and two zero fragmentation bytes. */
  lemma PackedHeader(frame: seq<bv8>, kind: Kind, variant: Variant, data: seq<bv8>, bufsize: nat)
    requires Packed(frame, kind, variant, data, bufsize)
    ensures frame[..HeaderLen] == [MmVersion, LowByte(Encode(kind, variant)), HighByte(Encode(kind, variant)), 0, 0]
  {
    ReadCodeBytes(frame);
  }

  /** Inspecting a packed frame gives back the kind and variant packed. */
  lemma PackedInspects(frame: seq<bv8>, kind: Kind, variant: Variant, data: seq<bv8>, bufsize: nat)
    requires Packed(frame, kind, variant, data, bufsize)
    ensures FrameKind(frame) == kind
    ensures FrameVariant(frame) == variant
  {
    RoundTrip(kind, variant);
  }

  /** The bytes pack leaves below bufsize, written out: the header, the
      copied prefix of the payload, then zeros up to bufsize. */
  function PackedImage(kind: Kind, variant: Variant, data: seq<bv8>, bufsize: nat): (image: seq<bv8>)
    requires kind < Max && bufsize >= HeaderLen
    requires CopyLength(variant, kind, bufsize - HeaderLen) <= |data|
    ensures |image| == bufsize
    ensures image[..HeaderLen] == [MmVersion, LowByte(Encode(kind, variant)), HighByte(Encode(kind, variant)), 0, 0]
    ensures var n := CopyLength(variant, kind, bufsize - HeaderLen);
              image[HeaderLen..HeaderLen + n] == data[..n] &&
              forall i :: HeaderLen + n <= i < bufsize ==> image[i] == 0
  {
    var code := Encode(kind, variant);
    var n := CopyLength(variant, kind, bufsize - HeaderLen);
    [MmVersion, LowByte(code), HighByte(code), 0, 0] + data[..n] + seq(bufsize - HeaderLen - n, _ => 0)
  }

  /** A packed frame is, below bufsize, exactly the image written out. */
  lemma PackedIsImage(frame: seq<bv8>, kind: Kind, variant: Variant, data: seq<bv8>, bufsize: nat)
    requires Packed(frame, kind, variant, data, bufsize)
    ensures frame[..bufsize] == PackedImage(kind, variant, data, bufsize)
  {
  }

  /** Every input Pack accepts has a packed frame, so its postcondition
      can always be met: the image written out above is one. */
  lemma PackedExists(kind: Kind, variant: Variant, data: seq<bv8>, bufsize: nat)
    requires kind < Max && bufsize >= HeaderLen
    requires PayloadSize(variant, kind) <= |data|
    ensures exists frame :: Packed(frame, kind, variant, data, bufsize)
  {
    assert Packed(PackedImage(kind, variant, data, bufsize), kind, variant, data, bufsize);
  }

  /** Whatever the buffer held before, the packed bytes depend only on the
      inputs: no stale byte below bufsize survives. */
  lemma PackedDeterministic(f1: seq<bv8>, f2: seq<bv8>, kind: Kind, variant: Variant, data: seq<bv8>, bufsize: nat)
    requires Packed(f1, kind, variant, data, bufsize)
    requires Packed(f2, kind, variant, data, bufsize)
    ensures f1[..bufsize] == f2[..bufsize]
  {
  }

  /** A set-key request packed into 128 bytes: code 0x6008 stored low byte
      first, the 38-byte struct copied whole, length reported as 41. */
  lemma SetKeyRequestInto128(frame: seq<bv8>, data: seq<bv8>)
    requires Packed(frame, SetKey, Req, data, 128)
    ensures frame[..3] == [1, 0x08, 0x60]
    ensures frame[HeaderLen..HeaderLen + 38] == data[..38]
    ensures ReportedLength(Req, SetKey, 128) == 41
  {
  }

  /** Pairs without a payload struct are reported as 0, never padded; the
      only other way to get 0 is a buffer with no room after the header. */
  lemma EmptyOnlyWithoutPayload(variant: Variant, kind: Kind, bufsize: nat)
    requires kind < Max && bufsize >= HeaderLen
    ensures ReportedLength(variant, kind, bufsize) == 0 <==>
              Table(variant, kind) == PackNothing || bufsize == HeaderLen
  {
  }

  /** Truncated into a short buffer, a payload is still reported at the
      padded length, which exceeds the room the buffer had for it. */
  lemma PaddedPastShortBuffer(variant: Variant, kind: Kind, bufsize: nat)
    requires kind < Max && Table(variant, kind) != PackNothing
    requires HeaderLen < bufsize < PadBound
    ensures ReportedLength(variant, kind, bufsize) == PadBound - HeaderLen > bufsize - HeaderLen
  {
  }

  method SetMmver(buf: array<bv8>, mmv: bv8)
    requires buf.Length >= FrameHeaderLen
    modifies buf
    ensures buf[0] == mmv
    ensures forall i :: 1 <= i < buf.Length ==> buf[i] == old(buf[i])
  {
    buf[0] := mmv;
  }

  /** Stores the MMTYPE least significant byte first; reading it back gives it. */
  method SetMmtype(buf: array<bv8>, mmtype: bv16)
    requires buf.Length >= FrameHeaderLen
    modifies buf
    ensures buf[1] == LowByte(mmtype) && buf[2] == HighByte(mmtype)
    ensures ReadCode(buf[..]) == mmtype
    ensures forall i :: 0 <= i < buf.Length && i != 1 && i != 2 ==> buf[i] == old(buf[i])
  {
    buf[1] := LowByte(mmtype);
    buf[2] := HighByte(mmtype);
  }

  method SetFmi(buf: array<bv8>)
    requires buf.Length >= HeaderLen
    modifies buf
    ensures buf[FrameHeaderLen] == 0 && buf[FrameHeaderLen + 1] == 0
    ensures forall i :: 0 <= i < buf.Length && i != FrameHeaderLen && i != FrameHeaderLen + 1 ==>
              buf[i] == old(buf[i])
  {
    buf[FrameHeaderLen] := 0;
    buf[FrameHeaderLen + 1] := 0;
  }

  /** Writes version 1 and the MMTYPE, then clears the MME header. */
  method SetHeader(buf: array<bv8>, mmtype: bv16)
    requires buf.Length >= HeaderLen
    modifies buf
    ensures buf[0] == MmVersion && ReadCode(buf[..]) == mmtype
    ensures buf[FrameHeaderLen] == 0 && buf[FrameHeaderLen + 1] == 0
    ensures forall i :: HeaderLen <= i < buf.Length ==> buf[i] == old(buf[i])
  {
    SetMmver(buf, MmVersion);
    SetMmtype(buf, mmtype);
    ghost var typed := buf[..];
    Memset(buf, FrameHeaderLen, MmeHeaderLen);
    SetFmi(buf);
    assert buf[..FrameHeaderLen] == typed[..FrameHeaderLen];
    assert ReadCode(buf[..]) == ReadCode(typed);
  }

  /** memset(buf + at, 0, size). */
  method Memset(buf: array<bv8>, at: nat, size: nat)
    requires at + size <= buf.Length
    modifies buf
    ensures forall i :: at <= i < at + size ==> buf[i] == 0
    ensures forall i :: 0 <= i < buf.Length && !(at <= i < at + size) ==> buf[i] == old(buf[i])
  {
    forall i | at <= i < at + size {
      buf[i] := 0;
    }
  }

  /** memcpy(buf + at, src, len); returns len. */
  method Copy(buf: array<bv8>, at: nat, src: seq<bv8>, len: nat) returns (n: nat)
    requires at + len <= buf.Length && len <= |src|
    modifies buf
    ensures n == len
    ensures buf[at..at + len] == src[..len]
    ensures forall i :: 0 <= i < buf.Length && !(at <= i < at + len) ==> buf[i] == old(buf[i])
  {
    forall i | 0 <= i < len {
      buf[at + i] := src[i];
    }
    n := len;
  }

  /** Runs a table entry on the payload area: pack_nothing copies nothing,
      every other routine copies its struct, cut to maxlen. */
  method RunRoutine(routine: PackRoutine, buf: array<bv8>, data: seq<bv8>, maxlen: nat) returns (n: nat)
    requires HeaderLen + maxlen <= buf.Length
    requires routine.StructSize() <= |data|
    modifies buf
    ensures n == Min(routine.StructSize(), maxlen)
    ensures buf[HeaderLen..HeaderLen + n] == data[..n]
    ensures forall i :: 0 <= i < buf.Length && !(HeaderLen <= i < HeaderLen + n) ==> buf[i] == old(buf[i])
  {
    match routine
    case PackNothing =>
      n := 0;
    case _ =>
      var len := Min(routine.StructSize(), maxlen);
      n := Copy(buf, HeaderLen, data, len);
  }

  /** Packs a message of the given kind and variant into buf[..bufsize]
      and returns the payload length to report. */
  method Pack(kind: Kind, variant: Variant, data: seq<bv8>, buf: array<bv8>, bufsize: nat) returns (len: nat)
    requires kind < Max
    requires HeaderLen <= bufsize <= buf.Length
    requires PayloadSize(variant, kind) <= |data|
    modifies buf
    ensures Packed(buf[..], kind, variant, data, bufsize)
    ensures buf[bufsize..] == old(buf[bufsize..])
    ensures len == ReportedLength(variant, kind, bufsize)
  {
    var maxlen := MaxLen(bufsize).value;
    Memset(buf, 0, bufsize);
    SetHeader(buf, Encode(kind, variant));
    ghost var code := ReadCode(buf[..]);
    len := RunRoutine(Table(variant, kind), buf, data, maxlen);
    assert ReadCode(buf[..]) == code;
    if len != 0 && len + HeaderLen < PadBound {
      len := PadBound - HeaderLen;
    }
  }

  method PackRequest(kind: Kind, req: seq<bv8>, buf: array<bv8>, bufsize: nat) returns (len: nat)
    requires kind < Max
    requires HeaderLen <= bufsize <= buf.Length
    requires PayloadSize(Req, kind) <= |req|
    modifies buf
    ensures Packed(buf[..], kind, Req, req, bufsize)
    ensures buf[bufsize..] == old(buf[bufsize..])
    ensures len == ReportedLength(Req, kind, bufsize)
  {
    len := Pack(kind, Req, req, buf, bufsize);
  }

  method PackConfirm(kind: Kind, cnf: seq<bv8>, buf: array<bv8>, bufsize: nat) returns (len: nat)
    requires kind < Max
    requires HeaderLen <= bufsize <= buf.Length
    requires PayloadSize(Cnf, kind) <= |cnf|
    modifies buf
    ensures Packed(buf[..], kind, Cnf, cnf, bufsize)
    ensures buf[bufsize..] == old(buf[bufsize..])
    ensures len == ReportedLength(Cnf, kind, bufsize)
  {
    len := Pack(kind, Cnf, cnf, buf, bufsize);
  }

  method PackIndication(kind: Kind, ind: seq<bv8>, buf: array<bv8>, bufsize: nat) returns (len: nat)
    requires kind < Max
    requires HeaderLen <= bufsize <= buf.Length
    requires PayloadSize(Ind, kind) <= |ind|
    modifies buf
    ensures Packed(buf[..], kind, Ind, ind, bufsize)
    ensures buf[bufsize..] == old(buf[bufsize..])
    ensures len == ReportedLength(Ind, kind, bufsize)
  {
    len := Pack(kind, Ind, ind, buf, bufsize);
  }

  method PackResponse(kind: Kind, rsp: seq<bv8>, buf: array<bv8>, bufsize: nat) returns (len: nat)
    requires kind < Max
    requires HeaderLen <= bufsize <= buf.Length
    requires PayloadSize(Rsp, kind) <= |rsp|
    modifies buf
    ensures Packed(buf[..], kind, Rsp, rsp, bufsize)
    ensures buf[bufsize..] == old(buf[bufsize..])
    ensures len == ReportedLength(Rsp, kind, bufsize)
  {
    len := Pack(kind, Rsp, rsp, buf, bufsize);
  }
}
