/** The FINS frame codec of `DataCreator` (datacreator.py): per-value
    encoding with the word swap, the header, the MEMORY AREA READ (01 01) and
    MEMORY AREA WRITE (01 02) command frames, and the decoding of a reply. */
module Codec {
  import opened Wire
  import opened Tables

  datatype Option<T> = None | Some(value: T)

  datatype Result<T, E> = Ok(value: T) | Err(error: E)

  /** A value handed to the encoder together with its element type. */
  datatype Value =
    | Num(n: int)             // an integer; for Float and Double, the IEEE 754 bit pattern
    | Text(s: string)         // a Python str, packed as Str
    | Raw(bytes: seq<Byte>)   // a Python bytes object: a Bytes blob or a one-byte Char

  /** One `(value, type)` pair of a format list. */
  datatype Item = Item(value: Value, ty: ElemType)

  /** A write payload: one `(value, type)` pair, or a list of them. */
  datatype WriteData = Single(item: Item) | Many(items: seq<Item>)

  /** The decoded payload of a reply: one value, a tuple of values, or the
      UTF-8 bytes of the text before its first NUL. */
  datatype Payload = Bare(v: Value) | Tuple(vs: seq<Value>) | Chars(text: seq<Byte>)

  /** A decoded reply: the completion code and the payload. */
  datatype Reply = Reply(code: U16, payload: Payload)

  /** The ways the decoder rejects a reply: `struct.unpack` raises for fewer
      than 14 bytes, for a word swap over an odd number of bytes and for a
      payload that is not a whole number of elements, and
      `.decode('utf-8')` raises for text bytes that are not UTF-8 (BadText). */
  datatype DecodeError = Truncated | OddWordPayload | PartialElement | BadText

  /** Half the range of a `width`-byte integer: the bound of the signed formats. */
  function Half(width: nat): nat {
    Pow256(width) / 2
  }

  /** A non-empty width has as many negative as non-negative signed values. */
  lemma HalfIsHalf(width: nat)
    requires width > 0
    ensures Pow256(width) == 2 * Half(width)
  {
    var p := Pow256(width - 1);
    var q := 128 * p;
    assert Pow256(width) == q + q;
    assert (q + q) / 2 == q;
  }

  /** The integers the struct format of `t` accepts. */
  predicate InRange(n: int, t: ElemType) {
    if t.Signed() then -(Half(t.Width()) as int) <= n < Half(t.Width())
    else 0 <= n < Pow256(t.Width())
  }

  /** The two's-complement bit pattern of an in-range integer: the integer
      itself, or the integer plus 256^width, below 256^width. */
  function ToUnsigned(n: int, t: ElemType): (u: nat)
    requires InRange(n, t)
    ensures u < Pow256(t.Width())
    ensures u == n || u == n + Pow256(t.Width())
  {
    HalfIsHalf(t.Width());
    if n < 0 then n + Pow256(t.Width()) else n
  }

  /** The integer a bit pattern denotes under the format of `t`. */
  function FromUnsigned(u: nat, t: ElemType): (n: int)
    requires u < Pow256(t.Width())
    ensures InRange(n, t)
    ensures ToUnsigned(n, t) == u
  {
    HalfIsHalf(t.Width());
    if t.Signed() && u >= Half(t.Width()) then u - Pow256(t.Width()) else u
  }

  predicate IsAscii(s: string) {
    forall i :: 0 <= i < |s| ==> s[i] as int < 128
  }

  /** The bytes of an ASCII string, which are also its UTF-8 encoding. */
  function AsciiBytes(s: string): (r: seq<Byte>)
    requires IsAscii(s)
    ensures |r| == |s|
    ensures forall i :: 0 <= i < |s| ==> r[i] == s[i] as int
  {
    if s == [] then [] else [s[0] as int] + AsciiBytes(s[1..])
  }

  /** Whether the encoder packs the item without raising: a `bytes` blob for
      Bytes, an ASCII str for Str, one byte for Char, an in-range integer for
      the rest. */
  predicate Fits(it: Item) {
    if it.ty.Bytes? then it.value.Raw?
    else if it.ty.Str? then it.value.Text? && IsAscii(it.value.s)
    else if it.ty.Char? then it.value.Raw? && |it.value.bytes| == 1
    else it.value.Num? && InRange(it.value.n, it.ty)
  }

  /** An item the encoder accepts. */
  type FitItem = it: Item | Fits(it) witness Item(Raw([]), Bytes)

  /** The bytes of one item before any swap: a Bytes blob verbatim, a Str
      reversed and then encoded, anything else packed big-endian at its width. */
  function Pack(it: FitItem): (r: seq<Byte>)
    ensures it.ty.Numeric() || it.ty.Char? ==> |r| == it.ty.Width()
    ensures it.ty.Str? ==> |r| == |it.value.s|
  {
    if it.ty.Bytes? || it.ty.Char? then it.value.bytes
    else if it.ty.Str? then Reverse(AsciiBytes(it.value.s))
    else ToBigEndian(ToUnsigned(it.value.n, it.ty), it.ty.Width())
  }

  /** Whether the encoder word-swaps the item: more than two bytes and not a blob. */
  predicate EncodeSwaps(it: FitItem)
  {
    |Pack(it)| > 2 && !it.ty.Bytes?
  }

  /** Left-pads an odd-length byte string with one zero byte. */
  function PadEven(s: seq<Byte>): (r: seq<Byte>)
    ensures |r| % 2 == 0 && |s| <= |r| <= |s| + 1
  {
    if |s| % 2 != 0 then [0] + s else s
  }

  /** The wire bytes of one item: swapped items come out rounded up to even
      length, any other item exactly as packed. */
  function EncodeValue(it: FitItem): (r: seq<Byte>)
    ensures EncodeSwaps(it) ==> |r| == |Pack(it)| + |Pack(it)| % 2
    ensures !EncodeSwaps(it) ==> r == Pack(it)
  {
    var bin := Pack(it);
    if |bin| > 2 && !it.ty.Bytes? then WordSwap(PadEven(bin)) else bin
  }

  /** Swapping an encoded item back yields its plain packing, left-padded
      to even length. */
  lemma EncodeValueUnswap(it: FitItem)
    requires EncodeSwaps(it)
    ensures WordSwap(EncodeValue(it)) == PadEven(Pack(it))
  {
    WordSwapInvolution(PadEven(Pack(it)));
  }

  /** The wire bytes of a format list: the items' encodings in list order. */
  function Encode(items: seq<FitItem>): (r: seq<Byte>)
  {
    if items == [] then [] else EncodeValue(items[0]) + Encode(items[1..])
  }

  /** Encoding distributes over the concatenation of format lists. */
  lemma {:induction false} EncodeConcat(a: seq<FitItem>, b: seq<FitItem>)
    ensures Encode(a + b) == Encode(a) + Encode(b)
  {
    if a == [] {
      assert a + b == b;
    } else {
      assert (a + b)[1..] == a[1..] + b;
      EncodeConcat(a[1..], b);
    }
  }

  /** The encoding of a suffix starts with the encoding of its first item. */
  lemma EncodeFrom(items: seq<FitItem>, k: nat)
    requires k < |items|
    ensures Encode(items[k..]) == EncodeValue(items[k]) + Encode(items[k + 1..])
  {
    assert items[k..][1..] == items[k + 1..];
  }

  /** Encoding one more item of a list appends that item's encoding. */
  lemma EncodeStep(items: seq<FitItem>, i: nat)
    requires i < |items|
    ensures Encode(items[..i + 1]) == Encode(items[..i]) + EncodeValue(items[i])
  {
    assert items[..i + 1] == items[..i] + [items[i]];
    EncodeConcat(items[..i], [items[i]]);
    assert Encode([items[i]]) == EncodeValue(items[i]) + Encode([]);
  }

  /** An item that is a single whole byte encodes to itself. */
  lemma EncodeUChar(x: Byte)
    ensures Fits(Item(Num(x), UChar))
    ensures EncodeValue(Item(Num(x), UChar)) == [x]
  {
    assert Pow256(1) == 256;
  }

  /** A 16-bit integer encodes big-endian, unswapped. */
  lemma EncodeUShort(x: U16)
    ensures Fits(Item(Num(x), UShort))
    ensures EncodeValue(Item(Num(x), UShort)) == BigEndian16(x)
  {
    assert Pow256(2) == 65536;
    assert ToBigEndian(x, 2) == ToBigEndian(x / 256, 1) + [x % 256];
  }

  /** A blob item encodes verbatim. */
  lemma EncodeBlob(blob: seq<Byte>)
    ensures Encode([Item(Raw(blob), Bytes)]) == blob
  {
    assert Encode([Item(Raw(blob), Bytes)]) == blob + Encode([]);
  }

  /** The format list of the fixed command preamble: the two command-code
      bytes as a blob, the area code, the address, the bit and the count. */
  function Preamble(command: seq<Byte>, area: MemArea, addr: U16, bit: Byte, num: U16): seq<FitItem> {
    EncodeUChar(area.code);
    EncodeUShort(addr);
    EncodeUChar(bit);
    EncodeUShort(num);
    [Item(Raw(command), Bytes), Item(Num(area.code), UChar), Item(Num(addr), UShort),
     Item(Num(bit), UChar), Item(Num(num), UShort)]
  }

  /** The big-endian bytes of a 16-bit value. */
  function BigEndian16(x: U16): seq<Byte> {
    [x / 256, x % 256]
  }

  /** The preamble is the command code, the area code, the address
      big-endian, the bit and the count big-endian, with nothing swapped. */
  lemma PreambleBytes(command: seq<Byte>, area: MemArea, addr: U16, bit: Byte, num: U16)
    ensures Encode(Preamble(command, area, addr, bit, num))
         == command + [area.code] + BigEndian16(addr) + [bit] + BigEndian16(num)
  {
    var p := Preamble(command, area, addr, bit, num);
    calc {
      Encode(p);
      { EncodeFrom(p, 0); assert p[0..] == p; }
      command + Encode(p[1..]);
      { EncodeFrom(p, 1); EncodeUChar(area.code); }
      command + ([area.code] + Encode(p[2..]));
      { EncodeFrom(p, 2); EncodeUShort(addr); }
      command + ([area.code] + (BigEndian16(addr) + Encode(p[3..])));
      { EncodeFrom(p, 3); EncodeUChar(bit); }
      command + ([area.code] + (BigEndian16(addr) + ([bit] + Encode(p[4..]))));
      { EncodeFrom(p, 4); EncodeUShort(num); }
      command + ([area.code] + (BigEndian16(addr) + ([bit] + (BigEndian16(num) + Encode(p[5..])))));
      { assert p[5..] == []; }
      command + [area.code] + BigEndian16(addr) + [bit] + BigEndian16(num);
    }
  }

  /** Each byte as a UChar item. */
  function UChars(xs: seq<Byte>): (items: seq<FitItem>)
    ensures |items| == |xs|
  {
    if xs == [] then []
    else
      EncodeUChar(xs[0]);
      [Item(Num(xs[0]), UChar)] + UChars(xs[1..])
  }

  /** A list of UChar items encodes to the bytes themselves. */
  lemma {:induction false} EncodeUChars(xs: seq<Byte>)
    ensures Encode(UChars(xs)) == xs
  {
    if xs != [] {
      EncodeUChar(xs[0]);
      EncodeUChars(xs[1..]);
      assert UChars(xs)[1..] == UChars(xs[1..]);
    }
  }

  /** The format list of the header: the three signature bytes as a blob,
      then the destination and source triples and the service id. */
  function HeaderItems(dstNet: Byte, dstNode: Byte, dstUnit: Byte,
                       srcNet: Byte, srcNode: Byte, srcUnit: Byte, srvId: Byte): seq<FitItem> {
    [Item(Raw([0x80, 0x00, 0x02]), Bytes)]
      + UChars([dstNet, dstNode, dstUnit, srcNet, srcNode, srcUnit, srvId])
  }

  /** The items of a write payload, in caller order. */
  function PayloadItems(data: WriteData): seq<Item> {
    match data
    case Single(it) => [it]
    case Many(items) => items
  }

  /** A write is refused exactly when a list is given whose length is not the
      count; a single item is never compared with the count. */
  predicate SizeMismatch(data: WriteData, num: U16) {
    data.Many? && |data.items| != num
  }

  /** The encoder is reached (and must not raise) only when the write is not refused. */
  predicate WriteFits(data: WriteData, num: U16) {
    !SizeMismatch(data, num) ==> forall i :: 0 <= i < |PayloadItems(data)| ==> Fits(PayloadItems(data)[i])
  }

  /** The wire bytes of a write payload: its items' encodings in caller order. */
  function EncodePayload(data: WriteData, num: U16): seq<Byte>
    requires WriteFits(data, num) && !SizeMismatch(data, num)
  {
    var items: seq<FitItem> := PayloadItems(data);
    Encode(items)
  }

  /** The body of an accepted write: the write preamble, then the payload. */
  lemma WriteBody(area: MemArea, addr: U16, bit: Byte, num: U16, data: WriteData)
    requires WriteFits(data, num) && !SizeMismatch(data, num)
    ensures Encode(Preamble([0x01, 0x02], area, addr, bit, num) + PayloadItems(data))
         == [0x01, 0x02, area.code] + BigEndian16(addr) + [bit] + BigEndian16(num) + EncodePayload(data, num)
  {
    var pre := Preamble([0x01, 0x02], area, addr, bit, num);
    var payload: seq<FitItem> := PayloadItems(data);
    calc {
      Encode(pre + payload);
      { EncodeConcat(pre, payload); }
      Encode(pre) + Encode(payload);
      { PreambleBytes([0x01, 0x02], area, addr, bit, num); }
      ([0x01, 0x02] + [area.code] + BigEndian16(addr) + [bit] + BigEndian16(num)) + Encode(payload);
      { assert [0x01, 0x02] + [area.code] == [0x01, 0x02, area.code]; }
      [0x01, 0x02, area.code] + BigEndian16(addr) + [bit] + BigEndian16(num) + Encode(payload);
    }
  }

  /** Text before the first NUL byte (`partition('\x00')[0]`). */
  function BeforeNul(s: seq<Byte>): (r: seq<Byte>)
    ensures |r| <= |s| && r == s[..|r|]
    ensures forall i :: 0 <= i < |r| ==> r[i] != 0
    ensures |r| < |s| ==> s[|r|] == 0
  {
    if s == [] || s[0] == 0 then [] else [s[0]] + BeforeNul(s[1..])
  }

  /** A UTF-8 continuation byte. */
  predicate Continuation(b: Byte) {
    0x80 <= b <= 0xBF
  }

  /** The length of the well-formed UTF-8 sequence at the start of `s`, or 0
      when none starts there. The byte ranges are those of Table 3-7 of the
      Unicode Standard, which Python's strict `utf-8` decoder enforces: no
      overlong forms, no surrogates, nothing above U+10FFFF. */
  function CharLength(s: seq<Byte>): (n: nat)
    requires s != []
    ensures n <= |s| && n <= 4
    ensures s[0] < 0x80 ==> n == 1
  {
    var b := s[0];
    if b < 0x80 then 1
    else if 0xC2 <= b <= 0xDF then
      if |s| >= 2 && Continuation(s[1]) then 2 else 0
    else if 0xE0 <= b <= 0xEF then
      var lo := if b == 0xE0 then 0xA0 else 0x80;
      var hi := if b == 0xED then 0x9F else 0xBF;
      if |s| >= 3 && lo <= s[1] <= hi && Continuation(s[2]) then 3 else 0
    else if 0xF0 <= b <= 0xF4 then
      var lo := if b == 0xF0 then 0x90 else 0x80;
      var hi := if b == 0xF4 then 0x8F else 0xBF;
      if |s| >= 4 && lo <= s[1] <= hi && Continuation(s[2]) && Continuation(s[3]) then 4 else 0
    else 0
  }

  /** Whether `bytes.decode('utf-8')` accepts `s`. */
  predicate ValidUtf8(s: seq<Byte>)
    decreases |s|
  {
    s == [] || (CharLength(s) > 0 && ValidUtf8(s[CharLength(s)..]))
  }

  /** Whether the decoder word-swaps the payload: text, or elements wider than a word. */
  predicate DecodeSwaps(dtype: ElemType) {
    dtype.Str? || dtype.Width() > 2
  }

  /** One element of width `|b|` under the format of `t`. */
  function UnpackOne(b: seq<Byte>, t: ElemType): (v: Value)
    requires !t.Str? && !t.Bytes? && |b| == t.Width()
    ensures t.Char? ==> v == Raw(b)
    ensures t.Numeric() ==> v.Num? && InRange(v.n, t) && ToBigEndian(ToUnsigned(v.n, t), |b|) == b
  {
    if t.Char? then Raw(b)
    else
      ToFromBigEndian(b);
      Num(FromUnsigned(FromBigEndian(b), t))
  }

  /** Splits a payload into consecutive elements of the width of `t`
      (`struct.unpack('!n' + fmt, bin)`). The decoder calls it only on a
      whole number of elements. */
  function UnpackAll(bin: seq<Byte>, t: ElemType): (vs: seq<Value>)
    requires !t.Str? && !t.Bytes?
    ensures |vs| == |bin| / t.Width()
    decreases |bin|
  {
    var w := t.Width();
    if |bin| < w then []
    else
      DropElement(|bin|, t);
      [UnpackOne(bin[..w], t)] + UnpackAll(bin[w..], t)
  }

  /** Taking one element off a payload leaves one element fewer. */
  lemma DropElement(n: nat, t: ElemType)
    requires n >= t.Width()
    ensures (n - t.Width()) / t.Width() + 1 == n / t.Width()
  {
    var w := t.Width();
    if w == 1 {
    } else if w == 2 {
      assert (n - 2) / 2 + 1 == n / 2;
    } else if w == 4 {
      assert (n - 4) / 4 + 1 == n / 4;
    } else {
      assert (n - 8) / 8 + 1 == n / 8;
    }
  }

  /** The value a decoded list of elements takes: one element bare, any
      other number as a tuple. */
  function Shape(vs: seq<Value>): (p: Payload)
    ensures p.Bare? <==> |vs| == 1
    ensures p.Bare? ==> p.v == vs[0]
    ensures p.Tuple? ==> p.vs == vs
  {
    if |vs| == 1 then Bare(vs[0]) else Tuple(vs)
  }

  /** Decodes the payload of a reply (the bytes after the completion code)
      for the element type `dtype`: text and wide types are word-swapped as a
      whole, then text is reversed, rejected unless it is UTF-8, and cut at
      the first NUL, and other types are split into elements. In UTF-8 the
      byte 0 occurs only as U+0000, so cutting the bytes at the first zero
      cuts the decoded text at its first NUL. */
  function DecodeValues(values: seq<Byte>, dtype: ElemType): (r: Result<Payload, DecodeError>)
    requires !dtype.Bytes?
    ensures r.Ok? <==> (DecodeSwaps(dtype) ==> |values| % 2 == 0) && |values| % dtype.Width() == 0
                       && (dtype.Str? ==> ValidUtf8(Reverse(WordSwap(values))))
    ensures r == Err(BadText) <==> dtype.Str? && |values| % 2 == 0 && !ValidUtf8(Reverse(WordSwap(values)))
    ensures r.Err? && DecodeSwaps(dtype) && |values| % 2 != 0 ==> r.error == OddWordPayload
    ensures r.Ok? ==> (r.value.Chars? <==> dtype.Str?)
    ensures r.Ok? && r.value.Chars? ==> 0 !in r.value.text
  {
    if DecodeSwaps(dtype) && |values| % 2 != 0 then Err(OddWordPayload)
    else
      var bin := if DecodeSwaps(dtype) then WordSwap(values) else values;
      if |bin| % dtype.Width() != 0 then Err(PartialElement)
      else if dtype.Str? then
        if ValidUtf8(Reverse(bin)) then Ok(Chars(BeforeNul(Reverse(bin)))) else Err(BadText)
      else Ok(Shape(UnpackAll(bin, dtype)))
  }

  /** Decodes a reply for the element type `dtype` (decode_read_data): the
      completion code is the big-endian word at bytes 12-13 and the payload
      starts at byte 14. A reply shorter than 14 bytes is rejected. */
  function Decode(data: seq<Byte>, dtype: ElemType): (r: Result<Reply, DecodeError>)
    requires !dtype.Bytes?
    ensures r == Err(Truncated) <==> |data| < 14
    ensures r.Ok? <==> |data| >= 14 && DecodeValues(data[14..], dtype).Ok?
    ensures r.Ok? ==> r.value.code == (data[12] as int) * 256 + data[13]
  {
    if |data| < 14 then Err(Truncated)
    else
      var code := (data[12] as int) * 256 + data[13];
      match DecodeValues(data[14..], dtype)
      case Ok(p) => Ok(Reply(code, p))
      case Err(e) => Err(e)
  }

  /** The state of a `DataCreator`: the source triple and service id given at
      construction, and the cached 10-byte header for the current destination. */
  class DataCreator {
    const srcNet: Byte
    const srcNode: Byte
    const srcUnit: Byte
    const srvId: Byte
    var header: seq<Byte>

    /** The cached header always carries the signature and this object's
        source triple and service id. */
    ghost predicate Valid()
      reads this
    {
      |header| == 10 && header[..3] == [0x80, 0x00, 0x02]
      && header[6..] == [srcNet, srcNode, srcUnit, srvId]
    }

    /** A creator for the given source, addressed to destination (0, 0, 0). */
    constructor (srcNet: Byte := 0, srcNode: Byte := 0, srcUnit: Byte := 0, srvId: Byte := 0)
      ensures this.srcNet == srcNet && this.srcNode == srcNode
      ensures this.srcUnit == srcUnit && this.srvId == srvId
      ensures header == [0x80, 0x00, 0x02, 0, 0, 0, srcNet, srcNode, srcUnit, srvId]
      ensures Valid()
    {
      this.srcNet, this.srcNode, this.srcUnit, this.srvId := srcNet, srcNode, srcUnit, srvId;
      new;
      SetDestination(0, 0);
    }

    /** The header for a destination: the signature 80 00 02, the destination
        triple, the source triple and the service id. The response delay does
        not reach the header. */
    function CreateHeader(dstNode: Byte, dstUnit: Byte, dstNet: Byte := 0, delay: int := 2): (r: seq<Byte>)
      ensures r == [0x80, 0x00, 0x02, dstNet, dstNode, dstUnit, srcNet, srcNode, srcUnit, srvId]
    {
      var ids := [dstNet, dstNode, dstUnit, srcNet, srcNode, srcUnit, srvId];
      EncodeConcat([Item(Raw([0x80, 0x00, 0x02]), Bytes)], UChars(ids));
      EncodeBlob([0x80, 0x00, 0x02]);
      EncodeUChars(ids);
      Encode(HeaderItems(dstNet, dstNode, dstUnit, srcNet, srcNode, srcUnit, srvId))
    }

    /** Replaces the cached header; nothing else changes. */
    method SetDestination(dstNet: Byte, dstNode: Byte, dstUnit: Byte := 0, delay: int := 2)
      modifies this`header
      ensures header == CreateHeader(dstNode, dstUnit, dstNet, delay)
      ensures header == [0x80, 0x00, 0x02, dstNet, dstNode, dstUnit, srcNet, srcNode, srcUnit, srvId]
      ensures Valid()
    {
      header := CreateHeader(dstNode, dstUnit, dstNet, delay);
    }

    /** Encodes a format list item by item, appending each item's bytes
        (swapped when wider than a word and not a blob) to the output. */
    method ConvertItems(items: seq<FitItem>) returns (out: seq<Byte>)
      ensures out == Encode(items)
    {
      out := [];
      for i := 0 to |items|
        invariant out == Encode(items[..i])
      {
        var it := items[i];
        var bin := Pack(it);
        var size := |bin|;
        if size > 2 && !it.ty.Bytes? {
          var inv;
          if size % 2 != 0 {
            inv := [0] + bin;
            size := size + 1;
          } else {
            inv := bin;
          }
          var words := Unpack16(inv);
          bin := Pack16(Reverse(words));
        }
        EncodeStep(items, i);
        out := out + bin;
      }
      assert items[..|items|] == items;
    }

    /** The MEMORY AREA READ frame: the cached header, 01 01, the area code,
        the address, the bit and the count, 18 bytes for a valid creator. */
    function ReadCommand(area: MemArea, addr: U16, bit: Byte, num: U16): (r: seq<Byte>)
      reads this
      ensures r == header + [0x01, 0x01, area.code] + BigEndian16(addr) + [bit] + BigEndian16(num)
      ensures Valid() ==> |r| == 18
    {
      PreambleBytes([0x01, 0x01], area, addr, bit, num);
      header + Encode(Preamble([0x01, 0x01], area, addr, bit, num))
    }

    /** The MEMORY AREA WRITE frame: refused (None) exactly when a list of
        values disagrees with the count; otherwise the cached header, 01 02,
        the area code, the address, the bit, the count, and the encodings of
        the values in caller order. */
    method WriteCommand(area: MemArea, addr: U16, bit: Byte, num: U16, data: WriteData)
      returns (r: Option<seq<Byte>>)
      requires WriteFits(data, num)
      ensures r.None? <==> SizeMismatch(data, num)
      ensures r.Some? ==> r.value == header + ([0x01, 0x02, area.code] + BigEndian16(addr) + [bit]
                                             + BigEndian16(num) + EncodePayload(data, num))
    {
      var fmt := Preamble([0x01, 0x02], area, addr, bit, num);
      var pre := fmt;
      match data {
        case Many(items) =>
          if num != |items| {
            return None;
          }
          for i := 0 to |items|
            invariant fmt == pre + items[..i]
          {
            fmt := fmt + [items[i]];
          }
          assert items[..|items|] == items;
        case Single(it) =>
          fmt := fmt + [it];
      }
      assert fmt == pre + PayloadItems(data);
      WriteBody(area, addr, bit, num, data);
      var body := ConvertItems(fmt);
      return Some(header + body);
    }
  }
}
