/** The Management Message Type (MMTYPE) of HomePlug Green PHY management
    messages: a 16-bit code whose bits 15-13 hold the category (which pair of
    stations exchanges the message), bits 12-2 the function offset inside the
    category, and bits 1-0 the variant (request, confirm, indication,
    response). This module maps the codec's message kinds to codes and back. */
module CodeMapper {

  /** Ordinal of a message kind, as the 16-bit value both maps compute
      with. Values at or past Max are not kinds, but the enumeration can
      carry them and both maps give them a meaning. */
  type Kind = bv16

  const DiscoverList: Kind := 0
  const Encrypted: Kind := 1
  const SetKey: Kind := 2
  const GetKey: Kind := 3
  const BrgInfo: Kind := 4
  const NwInfo: Kind := 5
  const Hfid: Kind := 6
  const NwStats: Kind := 7
  const SlacParm: Kind := 8
  const StartAttenChar: Kind := 9
  const AttenChar: Kind := 10
  const PkcsCert: Kind := 11
  const MnbcSound: Kind := 12
  const Validate: Kind := 13
  const SlacMatch: Kind := 14
  const SlacUserData: Kind := 15
  const AttenProfile: Kind := 16
  /** Number of kinds; the reverse map also returns it for "unknown". */
  const Max: Kind := 17

  /** Largest value the reverse map can return: the top 11-bit offset in
      the station-to-station category, counted from SlacParm. */
  const MaxDecoded: Kind := 0x7ff - 0x19 + SlacParm

  /** The role of a message within its exchange; its enum value is the
      two low bits of the code. */
  datatype Variant = Req | Cnf | Ind | Rsp {
    function Bits(): (b: bv16)
      ensures b < 4
    {
      match this
      case Req => 0
      case Cnf => 1
      case Ind => 2
      case Rsp => 3
    }
  }

  /** Categories (the enum values of the field above MsbBit). */
  const StaCco: bv16 := 0
  const Proxy: bv16 := 1
  const CcoCco: bv16 := 2
  const StaSta: bv16 := 3
  const Manufacture: bv16 := 4
  const Vendor: bv16 := 5

  const MsbBit: nat := 13
  const OffsetBit: nat := 2

  function Category(code: bv16): bv16 {
    code >> MsbBit
  }

  function Offset(code: bv16): bv16 {
    (code >> OffsetBit) & 0x7ff
  }

  /** The codes the HomePlug Green PHY specification (as used by ISO 15118-3
      for SLAC) assigns to the request of each kind, in kind order:
      CC_DISCOVER_LIST, then CM_ENCRYPTED_PAYLOAD through CM_ATTEN_PROFILE. */
  const StandardCodes: seq<bv16> := [
    0x0014,
    0x6004, 0x6008, 0x600C,
    0x6020, 0x6038, 0x6040, 0x6048,
    0x6064, 0x6068, 0x606C, 0x6070, 0x6074, 0x6078, 0x607C, 0x6080, 0x6084
  ]

  /** Function offset of a kind inside its category: piecewise in the
      ordinal, the highest threshold tested first; DiscoverList is offset 5. */
  function OffsetOf(kind: Kind): (offset: bv16)
    requires kind < Max
    ensures kind == DiscoverList ==> offset == 5
    ensures kind != DiscoverList ==> 1 <= offset <= 0x21 && !IsGapOffset(offset)
  {
    if kind == DiscoverList then 0x05
    else if kind >= SlacParm then 0x19 + kind - SlacParm
    else if kind >= NwStats then 0x12 + kind - NwStats
    else if kind >= Hfid then 0x10 + kind - Hfid
    else if kind >= NwInfo then 0x0E + kind - NwInfo
    else if kind >= BrgInfo then 0x08 + kind - BrgInfo
    else kind
  }

  /** Base code of a kind, variant bits clear; 0 for a value that is not a
      kind. DiscoverList sits alone in the station-to-coordinator category,
      every other kind in the station-to-station one. */
  function MmCode(kind: Kind): (code: bv16)
    ensures code & 3 == 0
    ensures kind >= Max ==> code == 0
    ensures kind < Max ==> Category(code) == (if kind == DiscoverList then StaCco else StaSta)
    ensures kind < Max ==> Offset(code) == OffsetOf(kind)
  {
    if kind >= Max then 0
    else
      // For DiscoverList the base is the category value itself, unshifted;
      // it agrees with the shifted form only because StaCco is 0.
      var base: bv16 := if kind == DiscoverList then StaCco else StaSta << MsbBit;
      base + (OffsetOf(kind) << OffsetBit)
  }

  /** Kind named by a code. Not a validator: only the two categories the
      codec produces are looked at, and in the station-to-station one every
      offset is mapped back through the same thresholds, gaps included. */
  function MmKind(code: bv16): (kind: Kind)
    ensures kind <= MaxDecoded
    ensures kind < Max ==> Category(code) == StaCco || Category(code) == StaSta
    ensures Category(code) != StaCco && Category(code) != StaSta ==> kind == Max
    ensures Category(code) == StaCco ==>
              (kind == DiscoverList <==> Offset(code) == 5) && (kind == DiscoverList || kind == Max)
    ensures Category(code) == StaSta ==> (kind < Max <==> Offset(code) <= 0x21)
    ensures Category(code) == StaSta && Offset(code) == 0 ==> kind == DiscoverList
  {
    var msb := Category(code);
    var offset := Offset(code);
    if msb == StaCco then
      if offset == 5 then DiscoverList else Max
    else if msb == StaSta then
      if offset >= 0x19 then offset - 0x19 + SlacParm
      else if offset >= 0x12 then offset - 0x12 + NwStats
      else if offset >= 0x10 then offset - 0x10 + Hfid
      else if offset >= 0x0E then offset - 0x0E + NwInfo
      else if offset >= 0x08 then offset - 0x08 + BrgInfo
      else offset
    else
      Max
  }

  /** The variant carried by the two low bits; every 2-bit value is one. */
  function VariantOf(code: bv16): (variant: Variant)
    ensures variant.Bits() == code & 3
  {
    var bits := code & 3;
    if bits == 0 then Req
    else if bits == 1 then Cnf
    else if bits == 2 then Ind
    else Rsp
  }

  /** The code a packed frame carries: base code of the kind, variant or-ed in. */
  function Encode(kind: Kind, variant: Variant): (code: bv16)
    ensures VariantOf(code) == variant
    ensures code & 0xFFFC == MmCode(kind)
  {
    MmCode(kind) | variant.Bits()
  }

  /** Every code that the forward map produces for some kind and variant. */
  ghost predicate IsWireCode(code: bv16) {
    exists kind: Kind, variant: Variant :: kind < Max && Encode(kind, variant) == code
  }

  /** The base codes are the ones the standard assigns. */
  lemma MmCodeMatchesStandard(kind: Kind)
    requires kind < Max
    ensures MmCode(kind) == StandardCodes[kind]
  {
  }

  /** The variant bits leave category and offset alone. */
  lemma EncodeFields(kind: Kind, variant: Variant)
    ensures Category(Encode(kind, variant)) == Category(MmCode(kind))
    ensures Offset(Encode(kind, variant)) == Offset(MmCode(kind))
  {
  }

  /** Round trip: decoding the code of a kind and variant gives both back. */
  lemma RoundTrip(kind: Kind, variant: Variant)
    requires kind < Max
    ensures MmKind(Encode(kind, variant)) == kind
    ensures VariantOf(Encode(kind, variant)) == variant
  {
    EncodeFields(kind, variant);
  }

  /** Distinct kinds have distinct base codes. */
  lemma MmCodeInjective(k1: Kind, k2: Kind)
    requires k1 < Max && k2 < Max
    requires MmCode(k1) == MmCode(k2)
    ensures k1 == k2
  {
  }

  /** Past DiscoverList the base codes grow with the ordinal. */
  lemma MmCodeIncreasing(k1: Kind, k2: Kind)
    requires DiscoverList < k1 < k2 < Max
    ensures MmCode(k1) < MmCode(k2)
  {
  }

  /** A value that is not a kind maps to code 0, and code 0 with any variant
      bits maps back to the sentinel, because its category-0 offset is not 5. */
  lemma UnmappedKind(kind: Kind, variant: Variant)
    requires kind >= Max
    ensures MmCode(kind) == 0
    ensures MmKind(Encode(kind, variant)) == Max
  {
  }

  /** The decoder recognises exactly the produced codes: a code re-encodes
      from its decoded kind and variant if and only if it is a wire code. */
  lemma DecodeExactOnWireCodes(code: bv16)
    ensures IsWireCode(code) <==> MmKind(code) < Max && Encode(MmKind(code), VariantOf(code)) == code
  {
    if IsWireCode(code) {
      var kind: Kind, variant: Variant :| kind < Max && Encode(kind, variant) == code;
      RoundTrip(kind, variant);
    }
  }

  /** A code whose upper 14 bits are the standard code of a kind is
      produced, whatever its variant bits, and decodes to that kind. */
  lemma StandardCodesAreWire(code: bv16, kind: Kind)
    requires kind < Max && code & 0xFFFC == StandardCodes[kind]
    ensures IsWireCode(code)
    ensures MmKind(code) == kind
  {
    MmCodeMatchesStandard(kind);
    assert Encode(kind, VariantOf(code)) == code;
    RoundTrip(kind, VariantOf(code));
  }

  /** Every produced code is a standard code with variant bits or-ed in. */
  lemma WireCodesAreStandard(code: bv16)
    requires IsWireCode(code)
    ensures code & 0xFFFC in StandardCodes
  {
    var kind: Kind, variant: Variant :| kind < Max && Encode(kind, variant) == code;
    MmCodeMatchesStandard(kind);
    assert StandardCodes[kind] == code & 0xFFFC;
  }

  /** Gap offsets decode as if their range had no gaps: offset 0x0D,
      five past BrgInfo's 0x08, gives StartAttenChar (own offset 0x1A);
      offset 5 gives NwInfo (own offset 0x0E); offset 0x18 gives Validate
      (own offset 0x1E); and offset 0x23, past the last kind, gives 18,
      a value above Max. */
  lemma GapDecodes()
    ensures MmKind(0x6034) == StartAttenChar && OffsetOf(StartAttenChar) == 0x1A
    ensures MmKind(0x6014) == NwInfo && OffsetOf(NwInfo) == 0x0E
    ensures MmKind(0x6060) == Validate && OffsetOf(Validate) == 0x1E
    ensures MmKind(0x608C) == 18 > Max
  {
  }

  /** Offsets of the station-to-station category that no kind uses. */
  predicate IsGapOffset(offset: bv16) {
    || offset == 0
    || 4 <= offset <= 7
    || 9 <= offset <= 0x0D
    || offset == 0x0F
    || offset == 0x11
    || 0x13 <= offset <= 0x18
  }

  /** A station-to-station code at a gap offset still decodes to a kind,
      but not to one whose code it is: the reverse map counts on from the
      first kind of the offset range the gap lies in, as if that range had
      no gaps (offset 0 gives DiscoverList). */
  lemma GapOffsetsAlias(code: bv16)
    requires Category(code) == StaSta && IsGapOffset(Offset(code))
    ensures MmKind(code) < Max
    ensures MmCode(MmKind(code)) != code & 0xFFFC
    ensures !IsWireCode(code)
  {
    assert Category(code & 0xFFFC) == StaSta && Offset(code & 0xFFFC) == Offset(code);
    DecodeExactOnWireCodes(code);
  }
}
