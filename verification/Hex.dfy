/** Hex text and the bytes it spells. */
module Hex {
  import opened Wrappers
  import opened Host
  import opened Text

  function HexDigit(c: char): (r: Option<byte>)
    ensures r.Some? ==> r.value < 16
  {
    if '0' <= c <= '9' then Some((c - '0') as int)
    else if 'a' <= c <= 'f' then Some((c - 'a') as int + 10)
    else if 'A' <= c <= 'F' then Some((c - 'A') as int + 10)
    else None
  }

  function HexDecode(s: string): (r: Option<Bytes>)
    ensures r.Some? ==> |s| == 2 * |r.value|
  {
    if s == "" then Some([])
    else if |s| == 1 then None
    else
      var rest := HexDecode(s[2..]);
      if HexDigit(s[0]).Some? && HexDigit(s[1]).Some? && rest.Some?
      then Some([16 * HexDigit(s[0]).value + HexDigit(s[1]).value] + rest.value)
      else None
  }

  // ---------- spelling ----------

  function HexPair(b: byte): (s: string)
    ensures |s| == 2
  {
    ["0123456789abcdef"[b / 16], "0123456789abcdef"[b % 16]]
  }

  /** Two digits for every byte. */
  function HexEncode(data: Bytes): (s: string)
    ensures |s| == 2 * |data|
  {
    if data == [] then "" else HexPair(data[0]) + HexEncode(data[1..])
  }

  /** A small letter for a capital one. */
  function Lower(c: char): char {
    if 'A' <= c <= 'Z' then c - 'A' + 'a' else c
  }

  function Lowered(s: string): (r: string)
    ensures |r| == |s| && forall i :: 0 <= i < |s| ==> r[i] == Lower(s[i])
  {
    seq(|s|, i requires 0 <= i < |s| => Lower(s[i]))
  }

  predicate IsHexDigit(c: char) {
    c in "0123456789abcdefABCDEF"
  }

  /** Pairs of the characters that hex is written with. */
  predicate IsHex(s: string) {
    |s| % 2 == 0 && forall i :: 0 <= i < |s| ==> IsHexDigit(s[i])
  }

  lemma DigitExactly(c: char, v: byte)
    requires v < 16
    ensures HexDigit(c) == Some(v) <==> Lower(c) == "0123456789abcdef"[v]
  {
    var digits := "0123456789abcdef";
    assert v < 10 ==> digits[v] == '0' + v as char;
    assert v >= 10 ==> digits[v] == 'a' + (v - 10) as char;
  }

  lemma DecodeHead(s: string, data: Bytes)
    requires |s| >= 2 && data != []
    ensures HexDecode(s) == Some(data) <==>
              HexDigit(s[0]) == Some(data[0] / 16) && HexDigit(s[1]) == Some(data[0] % 16) &&
              HexDecode(s[2..]) == Some(data[1..])
  {
    DecodeStep(s);
    var high, low, rest := HexDigit(s[0]), HexDigit(s[1]), HexDecode(s[2..]);
    if high.Some? && low.Some? && rest.Some? {
      PairOfDigits(high.value, low.value, data[0]);
      SameHeadAndTail(16 * high.value + low.value, rest.value, data);
    }
  }

  lemma DecodeStep(s: string)
    requires |s| >= 2
    ensures var high, low, rest := HexDigit(s[0]), HexDigit(s[1]), HexDecode(s[2..]);
            HexDecode(s) == if high.Some? && low.Some? && rest.Some?
                            then Some([16 * high.value + low.value] + rest.value) else None
  {
  }

  lemma PairOfDigits(high: byte, low: byte, b: byte)
    requires high < 16 && low < 16
    ensures 16 * high + low == b <==> high == b / 16 && low == b % 16
  {
  }

  lemma SameHeadAndTail(b: byte, rest: Bytes, data: Bytes)
    requires data != []
    ensures [b] + rest == data <==> b == data[0] && rest == data[1..]
  {
    assert data == [data[0]] + data[1..];
    assert ([b] + rest)[1..] == rest;
  }

  lemma SpellingHead(s: string, data: Bytes)
    requires |s| >= 2 && data != []
    ensures Lowered(s) == HexEncode(data) <==>
              Lower(s[0]) == "0123456789abcdef"[data[0] / 16] && Lower(s[1]) == "0123456789abcdef"[data[0] % 16] &&
              Lowered(s[2..]) == HexEncode(data[1..])
  {
    assert Lowered(s) == [Lower(s[0]), Lower(s[1])] + Lowered(s[2..]);
    assert Lowered(s)[2..] == Lowered(s[2..]) && HexEncode(data)[2..] == HexEncode(data[1..]);
  }

  /** Decoding gives exactly the bytes that the text, capital letters or not, spells. */
  lemma {:induction false} HexDecodeExactly(s: string, data: Bytes)
    ensures HexDecode(s) == Some(data) <==> Lowered(s) == HexEncode(data)
  {
    if |s| >= 2 && data != [] {
      DecodeHead(s, data);
      SpellingHead(s, data);
      HexDecodeExactly(s[2..], data[1..]);
      DigitExactly(s[0], data[0] / 16);
      DigitExactly(s[1], data[0] % 16);
    }
  }

  lemma {:induction false} IsHexExactly(s: string)
    ensures HexDecode(s).Some? <==> IsHex(s)
  {
    if |s| >= 2 {
      DecodeStep(s);
      IsHexExactly(s[2..]);
      IsHexStep(s);
      DigitsAreListed(s[0]);
      DigitsAreListed(s[1]);
    }
  }

  lemma IsHexStep(s: string)
    requires |s| >= 2
    ensures IsHex(s) <==>
              IsHexDigit(s[0]) && IsHexDigit(s[1]) && IsHex(s[2..])
  {
    if IsHex(s) {
      forall i | 0 <= i < |s| - 2
        ensures IsHexDigit(s[2..][i])
      {
        assert s[2..][i] == s[i + 2];
      }
    }
    if IsHexDigit(s[0]) && IsHexDigit(s[1]) && IsHex(s[2..]) {
      forall i | 2 <= i < |s|
        ensures IsHexDigit(s[i])
      {
        assert s[i] == s[2..][i - 2];
      }
    }
  }

  lemma DigitsAreListed(c: char)
    ensures HexDigit(c).Some? <==> IsHexDigit(c)
  {
  }

  lemma {:induction false} EncodedIsLower(data: Bytes)
    ensures Lowered(HexEncode(data)) == HexEncode(data)
  {
    if data != [] {
      EncodedIsLower(data[1..]);
      var s := HexEncode(data);
      assert s[2..] == HexEncode(data[1..]);
      SpellingHead(s, data);
      DigitIsLower(data[0] / 16);
      DigitIsLower(data[0] % 16);
    }
  }

  lemma DigitIsLower(v: byte)
    requires v < 16
    ensures Lower("0123456789abcdef"[v]) == "0123456789abcdef"[v]
  {
  }

  /** Capital letters for small ones. */
  function Capitals(s: string): (r: string)
    ensures |r| == |s| && forall i :: 0 <= i < |s| ==> r[i] == if 'a' <= s[i] <= 'z' then s[i] - 'a' + 'A' else s[i]
  {
    seq(|s|, i requires 0 <= i < |s| => if 'a' <= s[i] <= 'z' then s[i] - 'a' + 'A' else s[i])
  }

  lemma CapitalsLowered(s: string)
    ensures Lowered(Capitals(s)) == Lowered(s)
  {
    forall i | 0 <= i < |s|
      ensures Lower(Capitals(s)[i]) == Lower(s[i])
    {
    }
  }

  /** Decoding inverts encoding, in small letters and in capitals. */
  lemma DecodeInvertsEncode(data: Bytes)
    ensures HexDecode(HexEncode(data)) == HexDecode(Capitals(HexEncode(data))) == Some(data)
  {
    EncodedIsLower(data);
    CapitalsLowered(HexEncode(data));
    HexDecodeExactly(HexEncode(data), data);
    HexDecodeExactly(Capitals(HexEncode(data)), data);
  }

  lemma {:induction false} EncodeConcat(a: Bytes, b: Bytes)
    ensures HexEncode(a + b) == HexEncode(a) + HexEncode(b)
  {
    if a == [] {
      assert a + b == b;
    } else {
      EncodeConcat(a[1..], b);
      assert (a + b)[0] == a[0] && (a + b)[1..] == a[1..] + b;
      Reassociate(HexPair(a[0]), HexEncode(a[1..]), HexEncode(b));
    }
  }

  /** Part of the bytes is spelled by the same part of the text. */
  lemma SliceIsSpelled(s: string, data: Bytes, i: nat, j: nat)
    requires Lowered(s) == HexEncode(data) && i <= j <= |data|
    ensures |s| == 2 * |data| && Lowered(s[2 * i..2 * j]) == HexEncode(data[i..j])
  {
    EncodedSlice(data, i, j);
    LoweredSlice(s, 2 * i, 2 * j);
  }

  lemma LoweredSlice(s: string, i: nat, j: nat)
    requires i <= j <= |s|
    ensures Lowered(s)[i..j] == Lowered(s[i..j])
  {
  }

  lemma EncodedSlice(data: Bytes, i: nat, j: nat)
    requires i <= j <= |data|
    ensures HexEncode(data)[2 * i..2 * j] == HexEncode(data[i..j])
  {
    EncodedTake(data, j);
    EncodedDrop(data[..j], i);
    TakeThenDrop(data, i, j);
    TakeThenDrop(HexEncode(data), 2 * i, 2 * j);
  }

  lemma TakeThenDrop<T>(xs: seq<T>, i: nat, j: nat)
    requires i <= j <= |xs|
    ensures xs[..j][i..] == xs[i..j]
  {
  }

  lemma EncodedTake(data: Bytes, j: nat)
    requires j <= |data|
    ensures HexEncode(data)[..2 * j] == HexEncode(data[..j])
  {
    EncodeConcat(data[..j], data[j..]);
    assert data == data[..j] + data[j..];
  }

  lemma EncodedDrop(data: Bytes, i: nat)
    requires i <= |data|
    ensures HexEncode(data)[2 * i..] == HexEncode(data[i..])
  {
    EncodeConcat(data[..i], data[i..]);
    assert data == data[..i] + data[i..];
  }

  /** Bytes are the same exactly when the texts that spell them are, but for capital letters. */
  lemma SameSpelling(s: string, a: Bytes, t: string, b: Bytes)
    requires Lowered(s) == HexEncode(a) && Lowered(t) == HexEncode(b)
    ensures a == b <==> Lowered(s) == Lowered(t)
  {
    HexDecodeExactly(s, a);
    HexDecodeExactly(s, b);
  }

  /** What is spelled in small letters is hex. */
  lemma EncodedIsHex(data: Bytes)
    ensures IsHex(HexEncode(data))
  {
    DecodeInvertsEncode(data);
    IsHexExactly(HexEncode(data));
  }
}
