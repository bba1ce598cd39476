/** What the codec promises across calls: a payload encoded by the write path
    decodes back on the read path, narrow values in the order they were
    written, values wider than a PLC word in the opposite order (the swap
    covers the whole read payload, not each value), and text up to its first
    NUL. */
module CodecProperties {
  import opened Wire
  import opened Tables
  import opened Codec

  /** A reply as it arrives: twelve echoed header and command bytes, the
      completion code big-endian, then the payload. */
  function Response(echo: seq<Byte>, code: U16, payload: seq<Byte>): (r: seq<Byte>)
    requires |echo| == 12
    ensures |r| == 14 + |payload|
    ensures r[..12] == echo && r[14..] == payload
    ensures (r[12] as int) * 256 + r[13] == code
  {
    echo + BigEndian16(code) + payload
  }

  /** Element types that decode into one value per element. */
  predicate Scalar(t: ElemType) {
    t.Numeric() || t.Char?
  }

  /** Every value is acceptable to the encoder under `t`. */
  predicate AllFit(vs: seq<Value>, t: ElemType) {
    forall i :: 0 <= i < |vs| ==> Fits(Item(vs[i], t))
  }

  /** The format list that writes the values `vs`, each as a `t`. */
  function Typed(vs: seq<Value>, t: ElemType): (items: seq<FitItem>)
    requires AllFit(vs, t)
    ensures |items| == |vs|
  {
    if vs == [] then []
    else
      assert Fits(Item(vs[0], t));
      [Item(vs[0], t)] + Typed(vs[1..], t)
  }

  /** One more element keeps a length a whole number of elements. */
  lemma AddElement(n: nat, t: ElemType)
    requires n % t.Width() == 0
    ensures (n + t.Width()) % t.Width() == 0
  {
    var w := t.Width();
    if w == 1 {
    } else if w == 2 {
      assert (n + 2) % 2 == 0;
    } else if w == 4 {
      assert (n + 4) % 4 == 0;
    } else {
      assert (n + 8) % 8 == 0;
    }
  }

  /** The values' plain big-endian packings, one after another, with no swap. */
  function PackAll(vs: seq<Value>, t: ElemType): (r: seq<Byte>)
    requires Scalar(t) && AllFit(vs, t)
    ensures |r| % t.Width() == 0
  {
    if vs == [] then []
    else
      assert Fits(Item(vs[0], t));
      var rest := PackAll(vs[1..], t);
      AddElement(|rest|, t);
      Pack(Item(vs[0], t)) + rest
  }

  lemma {:induction false} PackAllConcat(a: seq<Value>, b: seq<Value>, t: ElemType)
    requires Scalar(t) && AllFit(a, t) && AllFit(b, t)
    ensures AllFit(a + b, t)
    ensures PackAll(a + b, t) == PackAll(a, t) + PackAll(b, t)
  {
    assert AllFit(a + b, t) by {
      forall i | 0 <= i < |a + b| ensures Fits(Item((a + b)[i], t)) {
        if i < |a| { assert (a + b)[i] == a[i]; } else { assert (a + b)[i] == b[i - |a|]; }
      }
    }
    if a == [] {
      assert a + b == b;
    } else {
      assert (a + b)[1..] == a[1..] + b;
      PackAllConcat(a[1..], b, t);
    }
  }

  /** Reversing values that all fit keeps them fitting. */
  lemma AllFitReverse(vs: seq<Value>, t: ElemType)
    requires AllFit(vs, t)
    ensures AllFit(Reverse(vs), t)
  {
    ReverseAt(vs);
    forall i | 0 <= i < |vs| ensures Fits(Item(Reverse(vs)[i], t)) {
      assert Reverse(vs)[i] == vs[|vs| - 1 - i];
    }
  }

  /** Reading back the bit pattern of an in-range integer yields the integer. */
  lemma FromToUnsigned(n: int, t: ElemType)
    requires InRange(n, t)
    ensures FromUnsigned(ToUnsigned(n, t), t) == n
  {
    HalfIsHalf(t.Width());
  }

  /** Unpacking one packed value gives the value back. */
  lemma UnpackPack(v: Value, t: ElemType)
    requires Scalar(t) && Fits(Item(v, t))
    ensures UnpackOne(Pack(Item(v, t)), t) == v
  {
    if t.Numeric() {
      var u := ToUnsigned(v.n, t);
      FromToBigEndian(u, t.Width());
      FromToUnsigned(v.n, t);
    }
  }

  /** Splitting plain packings into elements yields the values, in order. */
  lemma {:induction false} UnpackAllPackAll(vs: seq<Value>, t: ElemType)
    requires Scalar(t) && AllFit(vs, t)
    ensures UnpackAll(PackAll(vs, t), t) == vs
  {
    if vs != [] {
      var bin := PackAll(vs, t);
      var w := t.Width();
      var head := Pack(Item(vs[0], t));
      assert bin == head + PackAll(vs[1..], t);
      calc {
        UnpackAll(bin, t);
        [UnpackOne(bin[..w], t)] + UnpackAll(bin[w..], t);
        { assert bin[..w] == head && bin[w..] == PackAll(vs[1..], t); }
        [UnpackOne(head, t)] + UnpackAll(PackAll(vs[1..], t), t);
        { UnpackPack(vs[0], t); UnpackAllPackAll(vs[1..], t); }
        [vs[0]] + vs[1..];
        vs;
      }
    }
  }

  /** Packing an element read from the wire gives back its bytes. */
  lemma PackUnpack(b: seq<Byte>, t: ElemType)
    requires Scalar(t) && |b| == t.Width()
    ensures Fits(Item(UnpackOne(b, t), t))
    ensures Pack(Item(UnpackOne(b, t), t)) == b
  {
    var v := UnpackOne(b, t);
    if t.Char? {
      assert v == Raw(b);
    } else {
      assert v.Num? && InRange(v.n, t);
    }
  }

  /** A whole number of elements is empty or keeps a whole number of
      elements after the first. */
  lemma DropWhole(n: nat, t: ElemType)
    requires n % t.Width() == 0
    ensures n < t.Width() ==> n == 0
    ensures n >= t.Width() ==> (n - t.Width()) % t.Width() == 0
  {
    var w := t.Width();
    if w == 2 {
      assert n >= 2 ==> (n - 2) % 2 == 0;
    } else if w == 4 {
      assert n >= 4 ==> (n - 4) % 4 == 0;
    } else if w == 8 {
      assert n >= 8 ==> (n - 8) % 8 == 0;
    }
  }

  /** Every payload that is a whole number of elements is the plain packing
      of the values it splits into: a reply read from PLC memory decodes to
      exactly the values whose packings make up its bytes. */
  lemma {:induction false} PackAllUnpackAll(bin: seq<Byte>, t: ElemType)
    requires Scalar(t) && |bin| % t.Width() == 0
    ensures AllFit(UnpackAll(bin, t), t)
    ensures PackAll(UnpackAll(bin, t), t) == bin
    decreases |bin|
  {
    var w := t.Width();
    DropWhole(|bin|, t);
    if |bin| < w {
      assert bin == [];
    } else {
      var head, rest := bin[..w], bin[w..];
      assert bin == head + rest;
      var v := UnpackOne(head, t);
      var vs := UnpackAll(rest, t);
      assert UnpackAll(bin, t) == [v] + vs;
      PackUnpack(head, t);
      PackAllUnpackAll(rest, t);
      PackAllCons(v, vs, t);
    }
  }

  /** Putting a value in front of a list puts its packing in front. */
  lemma PackAllCons(v: Value, vs: seq<Value>, t: ElemType)
    requires Scalar(t) && Fits(Item(v, t)) && AllFit(vs, t)
    ensures AllFit([v] + vs, t)
    ensures PackAll([v] + vs, t) == Pack(Item(v, t)) + PackAll(vs, t)
  {
    var l := [v] + vs;
    forall i | 0 <= i < |l| ensures Fits(Item(l[i], t)) {
      if i > 0 {
        assert l[i] == vs[i - 1];
      }
    }
    assert l[1..] == vs;
  }

  /** Values no wider than a PLC word are written exactly as packed. */
  lemma {:induction false} EncodeNarrow(vs: seq<Value>, t: ElemType)
    requires Scalar(t) && t.Width() <= 2 && AllFit(vs, t)
    ensures Encode(Typed(vs, t)) == PackAll(vs, t)
  {
    if vs != [] {
      assert Typed(vs, t)[1..] == Typed(vs[1..], t);
      EncodeNarrow(vs[1..], t);
    }
  }

  /** A value wider than a PLC word is written at its width, and swapping it
      back yields its plain packing. */
  lemma WideValue(v: Value, t: ElemType)
    requires Scalar(t) && t.Width() > 2 && Fits(Item(v, t))
    ensures |EncodeValue(Item(v, t))| == t.Width()
    ensures WordSwap(EncodeValue(Item(v, t))) == PackAll([v], t)
  {
    var it: FitItem := Item(v, t);
    EncodeValueUnswap(it);
    assert t.Width() % 2 == 0;
    assert PackAll([v], t) == Pack(it) + PackAll([], t);
  }

  /** Appending a value at the end of a list appends its packing. */
  lemma PackAllSnoc(vs: seq<Value>, v: Value, t: ElemType)
    requires Scalar(t) && AllFit(vs, t) && Fits(Item(v, t))
    ensures AllFit(vs + [v], t)
    ensures PackAll(vs + [v], t) == PackAll(vs, t) + PackAll([v], t)
  {
    assert AllFit([v], t);
    PackAllConcat(vs, [v], t);
  }

  /** The format list of a non-empty list of values starts with the first value. */
  lemma EncodeTypedCons(vs: seq<Value>, t: ElemType)
    requires AllFit(vs, t) && vs != []
    ensures Fits(Item(vs[0], t))
    ensures Encode(Typed(vs, t)) == EncodeValue(Item(vs[0], t)) + Encode(Typed(vs[1..], t))
  {
    assert Fits(Item(vs[0], t));
    assert Typed(vs, t)[1..] == Typed(vs[1..], t);
  }

  lemma EvenSum(a: nat, b: nat)
    requires a % 2 == 0 && b % 2 == 0
    ensures (a + b) % 2 == 0
  {
  }

  /** Values wider than a PLC word are written as whole words each, so the
      write payload is a whole number of words. */
  lemma {:induction false} EncodeWideEven(vs: seq<Value>, t: ElemType)
    requires Scalar(t) && t.Width() > 2 && AllFit(vs, t)
    ensures |Encode(Typed(vs, t))| % 2 == 0
  {
    if vs != [] {
      EncodeTypedCons(vs, t);
      var head, tail := EncodeValue(Item(vs[0], t)), Encode(Typed(vs[1..], t));
      assert |head| % 2 == 0 by {
        WideValue(vs[0], t);
        assert t.Width() == 4 || t.Width() == 8;
      }
      assert |tail| % 2 == 0 by {
        EncodeWideEven(vs[1..], t);
      }
      assert |Encode(Typed(vs, t))| == |head| + |tail|;
      EvenSum(|head|, |tail|);
    } else {
      assert Typed(vs, t) == [];
    }
  }

  /** Values wider than a PLC word: swapping the whole write payload back
      yields the plain packings in the opposite order. */
  lemma {:induction false} EncodeWide(vs: seq<Value>, t: ElemType)
    requires Scalar(t) && t.Width() > 2 && AllFit(vs, t)
    ensures |Encode(Typed(vs, t))| % 2 == 0
    ensures AllFit(Reverse(vs), t)
    ensures WordSwap(Encode(Typed(vs, t))) == PackAll(Reverse(vs), t)
  {
    AllFitReverse(vs, t);
    EncodeWideEven(vs, t);
    if vs == [] {
      assert Pack16(Reverse(Unpack16([]))) == [];
    } else {
      var v, rest := vs[0], vs[1..];
      EncodeTypedCons(vs, t);
      var head, tail := EncodeValue(Item(v, t)), Encode(Typed(rest, t));
      EncodeWide(rest, t);
      WideValue(v, t);
      assert |head| % 2 == 0 by {
        assert t.Width() == 4 || t.Width() == 8;
      }
      calc {
        WordSwap(Encode(Typed(vs, t)));
        WordSwap(head + tail);
        { WordSwapConcat(head, tail); }
        WordSwap(tail) + WordSwap(head);
        PackAll(Reverse(rest), t) + PackAll([v], t);
        { PackAllSnoc(Reverse(rest), v, t); assert Reverse(vs) == Reverse(rest) + [v]; }
        PackAll(Reverse(vs), t);
      }
    }
  }

  /** A payload of a narrow type is split into elements as it arrives. */
  lemma DecodeValuesPlain(bin: seq<Byte>, t: ElemType)
    requires Scalar(t) && !DecodeSwaps(t) && |bin| % t.Width() == 0
    ensures DecodeValues(bin, t) == Ok(Shape(UnpackAll(bin, t)))
  {
  }

  /** A payload of a wide type is swapped as a whole, then split. */
  lemma DecodeValuesSwapped(bin: seq<Byte>, t: ElemType)
    requires Scalar(t) && DecodeSwaps(t) && |bin| % 2 == 0 && |bin| % t.Width() == 0
    ensures DecodeValues(bin, t) == Ok(Shape(UnpackAll(WordSwap(bin), t)))
  {
  }

  /** A text payload of even length that is UTF-8 once swapped and reversed
      is cut at the first NUL. */
  lemma DecodeValuesText(bin: seq<Byte>)
    requires |bin| % 2 == 0 && ValidUtf8(Reverse(WordSwap(bin)))
    ensures DecodeValues(bin, Str) == Ok(Chars(BeforeNul(Reverse(WordSwap(bin)))))
  {
  }

  /** A reply whose payload decodes carries the completion code and that payload. */
  lemma DecodeResponse(echo: seq<Byte>, code: U16, payload: seq<Byte>, t: ElemType, p: Payload)
    requires |echo| == 12 && !t.Bytes? && DecodeValues(payload, t) == Ok(p)
    ensures Decode(Response(echo, code, payload), t) == Ok(Reply(code, p))
  {
    var data := Response(echo, code, payload);
    assert data[14..] == payload;
    assert (data[12] as int) * 256 + data[13] == code;
    calc {
      Decode(data, t);
      Ok(Reply((data[12] as int) * 256 + data[13], p));
      Ok(Reply(code, p));
    }
  }

  /** A reply whose payload does not decode fails in the same way. */
  lemma DecodeResponseFails(echo: seq<Byte>, code: U16, payload: seq<Byte>, t: ElemType, e: DecodeError)
    requires |echo| == 12 && !t.Bytes? && DecodeValues(payload, t) == Err(e)
    ensures Decode(Response(echo, code, payload), t) == Err(e)
  {
    var data := Response(echo, code, payload);
    assert data[14..] == payload;
  }

  /** A reply without payload decodes to the empty tuple, or to empty text
      when text was asked for. */
  lemma DecodeEmpty(echo: seq<Byte>, code: U16, t: ElemType)
    requires |echo| == 12 && !t.Bytes?
    ensures Decode(Response(echo, code, []), t)
         == Ok(Reply(code, if t.Str? then Chars([]) else Tuple([])))
  {
    assert Pack16(Reverse(Unpack16([]))) == [];
    DecodeResponse(echo, code, [], t, if t.Str? then Chars([]) else Tuple([]));
  }

  /** Values no wider than a PLC word, written with `t` and read back with
      `t`, come back in the order they were written. */
  lemma DecodeNarrow(echo: seq<Byte>, code: U16, vs: seq<Value>, t: ElemType)
    requires |echo| == 12 && Scalar(t) && t.Width() <= 2 && AllFit(vs, t)
    ensures Decode(Response(echo, code, Encode(Typed(vs, t))), t) == Ok(Reply(code, Shape(vs)))
  {
    ValuesNarrow(vs, t);
    DecodeResponse(echo, code, Encode(Typed(vs, t)), t, Shape(vs));
  }

  /** The payload of narrow values decodes to the values in order. */
  lemma ValuesNarrow(vs: seq<Value>, t: ElemType)
    requires Scalar(t) && t.Width() <= 2 && AllFit(vs, t)
    ensures DecodeValues(Encode(Typed(vs, t)), t) == Ok(Shape(vs))
  {
    var payload := Encode(Typed(vs, t));
    assert payload == PackAll(vs, t) && |payload| % t.Width() == 0 by {
      EncodeNarrow(vs, t);
    }
    assert UnpackAll(payload, t) == vs by {
      UnpackAllPackAll(vs, t);
    }
    DecodeValuesPlain(payload, t);
  }

  /** Values wider than a PLC word, written with `t` and read back with `t`,
      come back in the opposite order: the whole payload is swapped as one. */
  lemma DecodeWide(echo: seq<Byte>, code: U16, vs: seq<Value>, t: ElemType)
    requires |echo| == 12 && Scalar(t) && t.Width() > 2 && AllFit(vs, t)
    ensures Decode(Response(echo, code, Encode(Typed(vs, t))), t) == Ok(Reply(code, Shape(Reverse(vs))))
  {
    ValuesWide(vs, t);
    DecodeResponse(echo, code, Encode(Typed(vs, t)), t, Shape(Reverse(vs)));
  }

  /** The payload of wide values decodes to the values in reverse order. */
  lemma ValuesWide(vs: seq<Value>, t: ElemType)
    requires Scalar(t) && t.Width() > 2 && AllFit(vs, t)
    ensures AllFit(Reverse(vs), t)
    ensures DecodeValues(Encode(Typed(vs, t)), t) == Ok(Shape(Reverse(vs)))
  {
    AllFitReverse(vs, t);
    var payload := Encode(Typed(vs, t));
    var swapped := PackAll(Reverse(vs), t);
    assert |payload| % t.Width() == 0 && WordSwap(payload) == swapped by {
      EncodeWide(vs, t);
    }
    assert |payload| % 2 == 0 by {
      EncodeWide(vs, t);
    }
    assert UnpackAll(swapped, t) == Reverse(vs) by {
      UnpackAllPackAll(Reverse(vs), t);
    }
    DecodeValuesSwapped(payload, t);
  }

  /** A single value of any integer, float or char type survives a write and
      a read with the same type. */
  lemma RoundTripOne(echo: seq<Byte>, code: U16, v: Value, t: ElemType)
    requires |echo| == 12 && Scalar(t) && Fits(Item(v, t))
    ensures Decode(Response(echo, code, EncodeValue(Item(v, t))), t) == Ok(Reply(code, Bare(v)))
  {
    var vs := [v];
    assert AllFit(vs, t);
    var payload := EncodeValue(Item(v, t));
    assert Encode(Typed(vs, t)) == payload by {
      assert Encode(Typed(vs, t)) == EncodeValue(Item(v, t)) + Encode([]);
    }
    assert DecodeValues(payload, t) == Ok(Bare(v)) by {
      if t.Width() <= 2 {
        ValuesNarrow(vs, t);
      } else {
        ValuesWide(vs, t);
        assert Reverse(vs) == vs;
      }
    }
    DecodeResponse(echo, code, payload, t, Bare(v));
  }

  /** Text that has no NUL character. */
  predicate NulFree(s: string) {
    forall i :: 0 <= i < |s| ==> s[i] != '\0'
  }

  /** The text prefix of a NUL-free byte string followed by nothing or by a
      NUL is the byte string itself. */
  lemma {:induction false} BeforeNulStops(c: seq<Byte>, rest: seq<Byte>)
    requires 0 !in c && (rest == [] || rest[0] == 0)
    ensures BeforeNul(c + rest) == c
  {
    if c == [] {
      assert c + rest == rest;
    } else {
      assert (c + rest)[1..] == c[1..] + rest;
      BeforeNulStops(c[1..], rest);
    }
  }

  /** ASCII text other than a single character, with no NUL, written as Str
      and read back as Str, comes back unchanged. An odd length of three or
      more picks up a padding byte that the read reverses into a trailing
      NUL, which the cut at the first NUL removes. */
  lemma RoundTripText(echo: seq<Byte>, code: U16, s: string)
    requires |echo| == 12 && IsAscii(s) && NulFree(s) && |s| != 1
    ensures Decode(Response(echo, code, EncodeValue(Item(Text(s), Str))), Str)
         == Ok(Reply(code, Chars(AsciiBytes(s))))
  {
    TextValues(s);
    DecodeResponse(echo, code, EncodeValue(Item(Text(s), Str)), Str, Chars(AsciiBytes(s)));
  }

  /** The payload of such a text decodes to the text's bytes. */
  lemma TextValues(s: string)
    requires IsAscii(s) && NulFree(s) && |s| != 1
    ensures DecodeValues(EncodeValue(Item(Text(s), Str)), Str) == Ok(Chars(AsciiBytes(s)))
  {
    var payload := EncodeValue(Item(Text(s), Str));
    var c := AsciiBytes(s);
    var pad: seq<Byte> := if |c| % 2 == 0 then [] else [0];
    TextPayload(s);
    assert Reverse(WordSwap(payload)) == c + pad;
    PaddedTextUtf8(s);
    assert BeforeNul(c + pad) == c by {
      NulFreeBytes(s);
      BeforeNulStops(c, pad);
    }
    DecodeValuesText(payload);
  }

  /** The text a Str payload reads back as, before the NUL cut, is the
      original text, followed by one NUL when a padding byte was added. */
  lemma TextPayload(s: string)
    requires IsAscii(s) && |s| != 1
    ensures |EncodeValue(Item(Text(s), Str))| % 2 == 0
    ensures Reverse(WordSwap(EncodeValue(Item(Text(s), Str))))
         == AsciiBytes(s) + if |s| % 2 == 0 then [] else [0]
  {
    TextUnswap(s);
    ReversePadded(AsciiBytes(s));
  }

  /** ASCII text, padded or not, is UTF-8. */
  lemma PaddedTextUtf8(s: string)
    requires IsAscii(s)
    ensures ValidUtf8(AsciiBytes(s) + if |s| % 2 == 0 then [] else [0])
  {
    var c := AsciiBytes(s);
    var pad: seq<Byte> := if |s| % 2 == 0 then [] else [0];
    forall i | 0 <= i < |c + pad| ensures (c + pad)[i] < 0x80 {
      if i < |c| {
        assert (c + pad)[i] == s[i] as int;
      }
    }
    AsciiUtf8(c + pad);
  }

  /** Bytes below 0x80 are each a one-byte UTF-8 sequence, so ASCII is UTF-8. */
  lemma {:induction false} AsciiUtf8(c: seq<Byte>)
    requires forall i :: 0 <= i < |c| ==> c[i] < 0x80
    ensures ValidUtf8(c)
  {
    if c != [] {
      assert CharLength(c) == 1;
      AsciiUtf8(c[1..]);
    }
  }

  /** The payload C3 00 is not text the read side accepts: swapped and
      reversed it is 00 C3, and C3 opens a two-byte UTF-8 sequence that
      ends early. */
  lemma TruncatedUtf8Rejected(echo: seq<Byte>, code: U16)
    requires |echo| == 12
    ensures Decode(Response(echo, code, [0xC3, 0x00]), Str) == Err(BadText)
  {
    var payload: seq<Byte> := [0xC3, 0x00];
    var text: seq<Byte> := [0x00, 0xC3];
    WordSwapOneWord(payload);
    assert Reverse(payload) == text by {
      ReverseAt(payload);
    }
    assert !ValidUtf8(text) by {
      assert CharLength(text) == 1 && text[1..] == [0xC3];
      assert CharLength([0xC3]) == 0;
    }
    DecodeResponseFails(echo, code, payload, Str, BadText);
  }

  /** Text without NUL characters encodes to bytes without zero bytes. */
  lemma NulFreeBytes(s: string)
    requires IsAscii(s) && NulFree(s)
    ensures 0 !in AsciiBytes(s)
  {
    var c := AsciiBytes(s);
    forall i | 0 <= i < |c| ensures c[i] != 0 {
      assert c[i] == s[i] as int;
    }
  }

  /** Swapping encoded text back yields the reversed text, left-padded to
      even length. */
  lemma TextUnswap(s: string)
    requires IsAscii(s) && |s| != 1
    ensures |EncodeValue(Item(Text(s), Str))| % 2 == 0
    ensures WordSwap(EncodeValue(Item(Text(s), Str))) == PadEven(Reverse(AsciiBytes(s)))
  {
    var it: FitItem := Item(Text(s), Str);
    var packed := Pack(it);
    if |s| == 0 {
      assert WordSwap([]) == [];
    } else if |s| == 2 {
      WordSwapOneWord(packed);
    } else {
      EncodeValueUnswap(it);
    }
  }

  /** Reversing the padded reversal gives the bytes back, followed by the
      pad byte if there was one. */
  lemma ReversePadded(c: seq<Byte>)
    ensures Reverse(PadEven(Reverse(c))) == c + if |c| % 2 == 0 then [] else [0]
  {
    var r := Reverse(c);
    ReverseReverse(c);
    if |c| % 2 == 0 {
      assert PadEven(r) == r;
      assert c + [] == c;
    } else {
      var pad: seq<Byte> := [0];
      assert PadEven(r) == pad + r;
      assert Reverse(pad + r) == c + pad by {
        ReverseConcat(pad, r);
        ReverseSingle(pad);
      }
    }
  }

  /** A one-character text is written as one byte, which the read side cannot
      swap as a word: the reply does not decode. */
  lemma OneCharTextFails(echo: seq<Byte>, code: U16, s: string)
    requires |echo| == 12 && IsAscii(s) && |s| == 1
    ensures Decode(Response(echo, code, EncodeValue(Item(Text(s), Str))), Str) == Err(OddWordPayload)
  {
    var payload := EncodeValue(Item(Text(s), Str));
    assert |payload| == 1;
    DecodeResponseFails(echo, code, payload, Str, OddWordPayload);
  }
}
