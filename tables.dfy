/** The element-type and memory-area tables of `DataCreator`
    (datacreator.py:18-113). */
module Tables {
  import opened Wire

  /** The element types a value can be packed as. Each is a struct format
      character with a width in bytes; `Bit` and `UChar` share the format
      `B` and behave identically. */
  datatype ElemType =
    | Bit | Char | SChar | UChar | Short | UShort | Int | UInt | Long | ULong
    | LongLong | ULongLong | Float | Double | Str | Bytes
  {
    /** The width in bytes of one element, as listed in the table. */
    function Width(): (w: nat)
      ensures w == 1 || w == 2 || w == 4 || w == 8
      ensures Str? || Bytes? ==> w == 1
    {
      if Short? || UShort? then 2
      else if Int? || UInt? || Long? || ULong? || Float? then 4
      else if LongLong? || ULongLong? || Double? then 8
      else 1
    }

    /** Two's-complement formats (`b`, `h`, `i`, `l`, `q`). */
    predicate Signed() {
      SChar? || Short? || Int? || Long? || LongLong?
    }

    /** Formats whose values are Python integers. `Float` and `Double` are
        included: this model carries them as their IEEE 754 bit pattern. */
    predicate Numeric() {
      !(Char? || Str? || Bytes?)
    }
  }

  /** A memory area: its FINS area code and the size of one element. Only
      the code reaches the wire. */
  datatype MemArea = MemArea(code: Byte, size: nat)

  const CioBit := MemArea(0x30, 1)
  const WrBit := MemArea(0x31, 1)
  const HrBit := MemArea(0x32, 1)
  const ArBit := MemArea(0x33, 1)
  const CioForceBit := MemArea(0x70, 1)
  const WrForceBit := MemArea(0x71, 1)
  const HrForceBit := MemArea(0x72, 1)
  const CioWord := MemArea(0xb0, 2)
  const WrWord := MemArea(0xb1, 2)
  const HrWord := MemArea(0xb2, 2)
  const ArWord := MemArea(0xb3, 2)
  const CioForceWord := MemArea(0xf0, 4)
  const WrForceWord := MemArea(0xf1, 4)
  const HrForceWord := MemArea(0xf2, 4)
  const TimFlg := MemArea(0x09, 1)
  const TimForceFlg := MemArea(0x49, 1)
  const TimCurrent := MemArea(0x89, 2)
  const DmBit := MemArea(0x02, 1)
  const DmWord := MemArea(0x82, 1)
  const Em0Bit := MemArea(0x20, 1)
  const Em1Bit := MemArea(0x21, 1)
  const Em2Bit := MemArea(0x22, 1)
  const Em3Bit := MemArea(0x23, 1)
  const Em4Bit := MemArea(0x24, 1)
  const Em5Bit := MemArea(0x25, 1)
  const Em6Bit := MemArea(0x26, 1)
  const Em7Bit := MemArea(0x27, 1)
  const Em8Bit := MemArea(0x28, 1)
  const Em9Bit := MemArea(0x29, 1)
  const EmaBit := MemArea(0x2a, 1)
  const EmbBit := MemArea(0x2b, 1)
  const EmcBit := MemArea(0x2c, 1)
  const EmdBit := MemArea(0x2d, 1)
  const EmeBit := MemArea(0x2e, 1)
  const EmfBit := MemArea(0x2f, 1)
  const Em10Bit := MemArea(0xe0, 1)
  const Em11Bit := MemArea(0xe1, 1)
  const Em12Bit := MemArea(0xe2, 1)
  const Em13Bit := MemArea(0xe3, 1)
  const Em14Bit := MemArea(0xe4, 1)
  const Em15Bit := MemArea(0xe5, 1)
  const Em16Bit := MemArea(0xe6, 1)
  const Em17Bit := MemArea(0xe7, 1)
  const Em18Bit := MemArea(0xe8, 1)
  const Em0Word := MemArea(0xa0, 2)
  const Em1Word := MemArea(0xa1, 2)
  const Em2Word := MemArea(0xa2, 2)
  const Em3Word := MemArea(0xa3, 2)
  const Em4Word := MemArea(0xa4, 2)
  const Em5Word := MemArea(0xa5, 2)
  const Em6Word := MemArea(0xa6, 2)
  const Em7Word := MemArea(0xa7, 2)
  const Em8Word := MemArea(0xa8, 2)
  const Em9Word := MemArea(0xa9, 2)
  const EmaWord := MemArea(0xaa, 2)
  const EmbWord := MemArea(0xab, 2)
  const EmcWord := MemArea(0xac, 2)
  const EmdWord := MemArea(0xad, 2)
  const EmeWord := MemArea(0xae, 2)
  const EmfWord := MemArea(0xaf, 2)
  const Em10Word := MemArea(0x60, 2)
  const Em11Word := MemArea(0x61, 2)
  const Em12Word := MemArea(0x62, 2)
  const Em13Word := MemArea(0x63, 2)
  const Em14Word := MemArea(0x64, 2)
  const Em15Word := MemArea(0x65, 2)
  const Em16Word := MemArea(0x66, 2)
  const Em17Word := MemArea(0x67, 2)
  const EmCurrentBit := MemArea(0x0a, 1)
  const EmCurrentWord := MemArea(0x98, 2)
  const EmCurrentBunkNum := MemArea(0xbc, 2)
  const TkBit := MemArea(0x06, 1)
  const TkStatus := MemArea(0x46, 1)
  const Ir := MemArea(0xdc, 4)
  const Dr := MemArea(0xbc, 2)
  const Clock := MemArea(0x07, 1)}
