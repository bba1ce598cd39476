/** Byte-level building blocks of the FINS codec: the big-endian packing that
    Python's `struct` module performs for the formats `!B`, `!H`, `!I` and `!Q`,
    and the 16-bit word swap that the codec applies to values wider than one
    PLC word (datacreator.py, `_convert_data2ascii` and `decode_read_data`). */
module Wire {

  /** One octet on the wire. */
  type Byte = x: int | 0 <= x < 256

  /** One PLC word, as packed by the struct format `H`. */
  type U16 = x: int | 0 <= x < 0x1_0000

  /** The number of distinct values that `n` bytes can hold. */
  function Pow256(n: nat): (r: nat)
    ensures r >= 1
  {
    if n == 0 then 1 else 256 * Pow256(n - 1)
  }

  /** The `width`-byte big-endian representation of `n`, most significant byte first. */
  function ToBigEndian(n: nat, width: nat): (r: seq<Byte>)
    requires n < Pow256(width)
    ensures |r| == width
  {
    if width == 0 then []
    else
      assert n / 256 < Pow256(width - 1);
      ToBigEndian(n / 256, width - 1) + [n % 256]
  }

  /** The unsigned integer whose big-endian representation is `s`. */
  function FromBigEndian(s: seq<Byte>): (r: nat)
    ensures r < Pow256(|s|)
  {
    if s == [] then 0
    else
      var hi := FromBigEndian(s[..|s| - 1]);
      assert hi * 256 + s[|s| - 1] < Pow256(|s|) by {
        assert hi + 1 <= Pow256(|s| - 1);
        assert (hi + 1) * 256 <= Pow256(|s| - 1) * 256;
      }
      hi * 256 + s[|s| - 1]
  }

  /** Reading back a big-endian representation yields the packed number. */
  lemma {:induction false} FromToBigEndian(n: nat, width: nat)
    requires n < Pow256(width)
    ensures FromBigEndian(ToBigEndian(n, width)) == n
  {
    if width > 0 {
      var s := ToBigEndian(n, width);
      assert s[..|s| - 1] == ToBigEndian(n / 256, width - 1);
      FromToBigEndian(n / 256, width - 1);
    }
  }

  /** Packing the number a byte string denotes gives back the byte string. */
  lemma {:induction false} ToFromBigEndian(s: seq<Byte>)
    ensures ToBigEndian(FromBigEndian(s), |s|) == s
  {
    if s != [] {
      var init := s[..|s| - 1];
      var n := FromBigEndian(s);
      assert n / 256 == FromBigEndian(init) && n % 256 == s[|s| - 1];
      ToFromBigEndian(init);
      assert s == init + [s[|s| - 1]];
    }
  }

  /** The elements of `s` in the opposite order (Python's `s[::-1]`). */
  function Reverse<T>(s: seq<T>): (r: seq<T>)
    ensures |r| == |s|
  {
    if s == [] then [] else Reverse(s[1..]) + [s[0]]
  }

  /** Element `i` of the reversal is element `|s| - 1 - i` of the input. */
  lemma {:induction false} ReverseAt<T>(s: seq<T>)
    ensures forall i :: 0 <= i < |s| ==> Reverse(s)[i] == s[|s| - 1 - i]
  {
    if s != [] {
      ReverseAt(s[1..]);
      forall i | 0 <= i < |s|
        ensures Reverse(s)[i] == s[|s| - 1 - i]
      {
        if i < |s| - 1 {
          assert Reverse(s)[i] == Reverse(s[1..])[i];
        }
      }
    }
  }

  /** A one-element sequence is its own reversal. */
  lemma ReverseSingle<T>(s: seq<T>)
    requires |s| == 1
    ensures Reverse(s) == s
  {
    assert s[1..] == [];
  }

  lemma {:induction false} ReverseReverse<T>(s: seq<T>)
    ensures Reverse(Reverse(s)) == s
  {
    var r := Reverse(Reverse(s));
    ReverseAt(s);
    ReverseAt(Reverse(s));
    assert forall i :: 0 <= i < |s| ==> r[i] == Reverse(s)[|s| - 1 - i];
  }

  lemma {:induction false} ReverseConcat<T>(a: seq<T>, b: seq<T>)
    ensures Reverse(a + b) == Reverse(b) + Reverse(a)
  {
    ReverseAt(a + b);
    ReverseAt(a);
    ReverseAt(b);
    var l, r := Reverse(a + b), Reverse(b) + Reverse(a);
    assert |l| == |r|;
    forall i | 0 <= i < |l|
      ensures l[i] == r[i]
    {
      if i < |b| {
        assert r[i] == Reverse(b)[i];
      } else {
        assert r[i] == Reverse(a)[i - |b|];
      }
    }
  }

  /** Splits an even-length byte string into big-endian 16-bit words
      (`struct.unpack('!nH', s)` with `n == |s| / 2`). */
  function Unpack16(s: seq<Byte>): (ws: seq<U16>)
    requires |s| % 2 == 0
    ensures |ws| == |s| / 2
  {
    if s == [] then [] else [(s[0] as int) * 256 + s[1]] + Unpack16(s[2..])
  }

  /** Packs 16-bit words big-endian (`struct.pack('!nH', *ws)`). */
  function Pack16(ws: seq<U16>): (s: seq<Byte>)
    ensures |s| == 2 * |ws|
  {
    if ws == [] then [] else [ws[0] / 256, ws[0] % 256] + Pack16(ws[1..])
  }

  lemma {:induction false} Pack16Unpack16(s: seq<Byte>)
    requires |s| % 2 == 0
    ensures Pack16(Unpack16(s)) == s
  {
    if s != [] {
      var w := (s[0] as int) * 256 + s[1];
      assert w / 256 == s[0] && w % 256 == s[1];
      assert Unpack16(s)[1..] == Unpack16(s[2..]);
      Pack16Unpack16(s[2..]);
      assert s == [s[0], s[1]] + s[2..];
    }
  }

  lemma {:induction false} Unpack16Pack16(ws: seq<U16>)
    ensures Unpack16(Pack16(ws)) == ws
  {
    if ws != [] {
      var s := Pack16(ws);
      assert s[2..] == Pack16(ws[1..]);
      Unpack16Pack16(ws[1..]);
      assert (s[0] as int) * 256 + s[1] == ws[0];
    }
  }

  lemma {:induction false} Unpack16Concat(a: seq<Byte>, b: seq<Byte>)
    requires |a| % 2 == 0 && |b| % 2 == 0
    ensures Unpack16(a + b) == Unpack16(a) + Unpack16(b)
  {
    if a != [] {
      assert (a + b)[2..] == a[2..] + b;
      Unpack16Concat(a[2..], b);
    } else {
      assert a + b == b;
    }
  }

  lemma {:induction false} Pack16Concat(a: seq<U16>, b: seq<U16>)
    ensures Pack16(a + b) == Pack16(a) + Pack16(b)
  {
    if a != [] {
      assert (a + b)[1..] == a[1..] + b;
      Pack16Concat(a[1..], b);
    } else {
      assert a + b == b;
    }
  }

  /** The FINS word swap: the byte string is cut into big-endian 16-bit words,
      the order of the words is reversed, and the words are packed again. Each
      word keeps its own byte order. */
  function WordSwap(s: seq<Byte>): (r: seq<Byte>)
    requires |s| % 2 == 0
    ensures |r| == |s|
  {
    Pack16(Reverse(Unpack16(s)))
  }

  /** Swapping twice restores every even-length byte string: the decode-side
      swap undoes the encode-side one. */
  lemma WordSwapInvolution(s: seq<Byte>)
    requires |s| % 2 == 0
    ensures WordSwap(WordSwap(s)) == s
  {
    var ws := Reverse(Unpack16(s));
    Unpack16Pack16(ws);
    ReverseReverse(Unpack16(s));
    Pack16Unpack16(s);
  }

  /** Swapping a concatenation swaps each part and exchanges the parts: a
      swap over a whole payload reverses the order of the values in it. */
  lemma WordSwapConcat(a: seq<Byte>, b: seq<Byte>)
    requires |a| % 2 == 0 && |b| % 2 == 0
    ensures WordSwap(a + b) == WordSwap(b) + WordSwap(a)
  {
    Unpack16Concat(a, b);
    ReverseConcat(Unpack16(a), Unpack16(b));
    Pack16Concat(Reverse(Unpack16(b)), Reverse(Unpack16(a)));
  }

  /** A single word is left as it is. */
  lemma WordSwapOneWord(s: seq<Byte>)
    requires |s| == 2
    ensures WordSwap(s) == s
  {
    Pack16Unpack16(s);
  }

  /** Where each byte goes: word `k` of the result is word `n - 1 - k` of the
      input, for `n` words, with its two bytes in their original order. */
  lemma WordSwapAt(s: seq<Byte>, k: nat)
    requires |s| % 2 == 0 && k < |s| / 2
    ensures WordSwap(s)[2 * k] == s[|s| - 2 * k - 2]
    ensures WordSwap(s)[2 * k + 1] == s[|s| - 2 * k - 1]
  {
    var ws := Unpack16(s);
    var m := |ws| - 1 - k;
    assert 2 * m == |s| - 2 * k - 2;
    var rs := Reverse(ws);
    ReverseAt(ws);
    assert rs[k] == ws[m];
    calc {
      WordSwap(s)[2 * k];
      Pack16(rs)[2 * k];
      { PackAt(rs, k); }
      ws[m] / 256;
      { PackAt(ws, m); }
      Pack16(ws)[2 * m];
      { Pack16Unpack16(s); }
      s[2 * m];
    }
    calc {
      WordSwap(s)[2 * k + 1];
      Pack16(rs)[2 * k + 1];
      { PackAt(rs, k); }
      ws[m] % 256;
      { PackAt(ws, m); }
      Pack16(ws)[2 * m + 1];
      { Pack16Unpack16(s); }
      s[2 * m + 1];
    }
  }

  /** Word `k` of the input occupies bytes `2k` and `2k + 1` of the packing. */
  lemma {:induction false} PackAt(ws: seq<U16>, k: nat)
    requires k < |ws|
    ensures Pack16(ws)[2 * k] == ws[k] / 256
    ensures Pack16(ws)[2 * k + 1] == ws[k] % 256
  {
    if k > 0 {
      PackAt(ws[1..], k - 1);
      assert Pack16(ws) == [ws[0] / 256, ws[0] % 256] + Pack16(ws[1..]);
    }
  }
}
