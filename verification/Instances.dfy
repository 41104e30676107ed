/** A cipher and an index codec that have the properties the vault and the module rely on, so that
    what is proved from these properties is not empty. */
module Instances {
  import opened Wrappers
  import opened Host

  // ---------- a cipher that appends an empty tag ----------

  function Tagged(key: Bytes, nonce: Bytes, plaintext: Bytes): Bytes {
    plaintext + seq(TAG_LENGTH, _ => 0)
  }

  function Untagged(key: Bytes, nonce: Bytes, sealed: Bytes): Option<Bytes> {
    if |sealed| < TAG_LENGTH then None else Some(sealed[..|sealed| - TAG_LENGTH])
  }

  function TagCipher(): Cipher {
    Cipher.Cipher(Tagged, Untagged)
  }

  lemma TagCipherIsSound()
    ensures TagCipher().Sound()
  {
    forall k: Bytes, n: Bytes, p: Bytes
      ensures |Tagged(k, n, p)| == |p| + TAG_LENGTH && Untagged(k, n, Tagged(k, n, p)) == Some(p)
    {
      assert Tagged(k, n, p)[..|p|] == p;
    }
  }

  // ---------- a codec of four bytes for a character and one for the end of a name ----------

  const END: byte := 0
  const CHAR: byte := 1
  const WIDTH := 4

  function EncodeName(name: string): Bytes {
    if name == "" then [END]
    else
      var c := name[0] as int;
      [CHAR, c / 0x1_0000, c / 0x100 % 0x100, c % 0x100] + EncodeName(name[1..])
  }

  function EncodeNames(names: seq<string>): Bytes {
    if names == [] then [] else EncodeName(names[0]) + EncodeNames(names[1..])
  }

  /** The character that three bytes stand for, if there is one. */
  function DecodeChar(high: byte, middle: byte, low: byte): Option<char> {
    var code := high * 0x1_0000 + middle * 0x100 + low;
    if code < 0xD800 || 0xE000 <= code < 0x11_0000 then Some(code as char) else None
  }

  /** The first name and the bytes behind it. */
  function DecodeName(data: Bytes): (r: Option<(string, Bytes)>)
    ensures r.Some? ==> |data| == |EncodeName(r.value.0)| + |r.value.1|
  {
    if data == [] then None
    else if data[0] == END then Some(("", data[1..]))
    else if data[0] != CHAR || |data| < WIDTH || DecodeChar(data[1], data[2], data[3]).None? then None
    else
      match DecodeName(data[WIDTH..])
      case None => None
      case Some((name, rest)) =>
        var c := DecodeChar(data[1], data[2], data[3]).value;
        assert ([c] + name)[1..] == name;
        Some(([c] + name, rest))
  }

  lemma NameIsNotEmpty(name: string)
    ensures |EncodeName(name)| > 0
  {
  }

  function DecodeNames(data: Bytes): (r: Option<seq<string>>)
    ensures r.Some? ==> |EncodeNames(r.value)| == |data|
    decreases |data|
  {
    if data == [] then Some([])
    else
      match DecodeName(data)
      case None => None
      case Some((name, rest)) =>
        NameIsNotEmpty(name);
        match DecodeNames(rest)
        case None => None
        case Some(names) =>
          assert ([name] + names)[1..] == names;
          Some([name] + names)
  }

  lemma CharRoundTrip(c: char)
    ensures var n := c as int;
            n < 0x11_0000 && DecodeChar(n / 0x1_0000, n / 0x100 % 0x100, n % 0x100) == Some(c)
  {
  }

  lemma {:induction false} NameRoundTrip(name: string, rest: Bytes)
    ensures DecodeName(EncodeName(name) + rest) == Some((name, rest))
  {
    var data := EncodeName(name) + rest;
    if name == "" {
      assert data == [END] + rest;
    } else {
      CharRoundTrip(name[0]);
      NameRoundTrip(name[1..], rest);
      assert data[WIDTH..] == EncodeName(name[1..]) + rest;
      assert [name[0]] + name[1..] == name;
    }
  }

  lemma {:induction false} NamesRoundTrip(names: seq<string>)
    ensures DecodeNames(EncodeNames(names)) == Some(names)
  {
    if names != [] {
      NameIsNotEmpty(names[0]);
      NameRoundTrip(names[0], EncodeNames(names[1..]));
      NamesRoundTrip(names[1..]);
      assert [names[0]] + names[1..] == names;
    }
  }

  lemma {:induction false} DroppedIsNotLonger(names: seq<string>, n: string)
    ensures |EncodeNames(Dropped(names, n))| <= |EncodeNames(names)|
  {
    if names != [] {
      DroppedIsNotLonger(names[1..], n);
      assert names[0] != n ==> ([names[0]] + Dropped(names[1..], n))[1..] == Dropped(names[1..], n);
    }
  }

  function NameCodec(): Codec {
    Codec.Codec(EncodeNames, DecodeNames)
  }

  lemma NameCodecIsSound()
    ensures NameCodec().Sound()
  {
    forall names
      ensures DecodeNames(EncodeNames(names)) == Some(names)
    {
      NamesRoundTrip(names);
    }
    forall names, n
      ensures |EncodeNames(Dropped(names, n))| <= |EncodeNames(names)|
    {
      DroppedIsNotLonger(names, n);
    }
  }
}
