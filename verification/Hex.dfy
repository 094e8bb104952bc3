/** The hex form in which byte fields are kept in TOML files and shown as operation ids. */
module Hex {
  import opened Common

  predicate IsHexDigit(c: char) {
    '0' <= c <= '9' || 'a' <= c <= 'f' || 'A' <= c <= 'F'
  }

  predicate IsLowerHex(c: char) {
    '0' <= c <= '9' || 'a' <= c <= 'f'
  }

  function NibbleChar(n: nat): (c: char)
    requires n < 16
    ensures IsLowerHex(c) && DecodeNibble(c) == Some(n)
  {
    if n < 10 then '0' + n as char else 'a' + (n - 10) as char
  }

  function DecodeNibble(c: char): (n: Option<nat>)
    ensures n.Some? <==> IsHexDigit(c)
    ensures n.Some? ==> n.value < 16
  {
    if '0' <= c <= '9' then Some((c - '0') as nat)
    else if 'a' <= c <= 'f' then Some((c - 'a') as nat + 10)
    else if 'A' <= c <= 'F' then Some((c - 'A') as nat + 10)
    else None
  }

  /** The digits in order; both cases are read alike. */
  lemma DigitsInOrder(n: nat)
    requires n < 16
    ensures NibbleChar(n) == "0123456789abcdef"[n]
    ensures DecodeNibble("0123456789abcdef"[n]) == DecodeNibble("0123456789ABCDEF"[n]) == Some(n)
  {
  }

  function HexOf(bytes: Bytes): (s: string)
    ensures |s| == 2 * |bytes|
  {
    if bytes == [] then []
    else HexOf(bytes[..|bytes| - 1]) + [NibbleChar(bytes[|bytes| - 1] as nat / 16), NibbleChar(bytes[|bytes| - 1] as nat % 16)]
  }

  lemma {:induction false} HexAt(bytes: Bytes, i: nat)
    requires i < |bytes|
    ensures HexOf(bytes)[2 * i] == NibbleChar(bytes[i] as nat / 16)
    ensures HexOf(bytes)[2 * i + 1] == NibbleChar(bytes[i] as nat % 16)
    decreases |bytes|
  {
    if i < |bytes| - 1 { HexAt(bytes[..|bytes| - 1], i); }
  }

  /** The value of two hex digits. */
  function PairValue(hi: char, lo: char): Option<byte> {
    match (DecodeNibble(hi), DecodeNibble(lo))
    case (Some(h), Some(l)) => Some((16 * h + l) as byte)
    case _ => None
  }

  /** `bytes` is what the text says, digit pair by digit pair. */
  ghost predicate Spells(s: string, bytes: Bytes) {
    |s| == 2 * |bytes| && forall i :: 0 <= i < |bytes| ==> PairValue(s[2 * i], s[2 * i + 1]) == Some(bytes[i])
  }

  /** `hex_bytes::serialize`. */
  method Serialize(bytes: Bytes) returns (out: string)
    ensures out == HexOf(bytes)
    ensures Spells(out, bytes) && forall i :: 0 <= i < |out| ==> IsLowerHex(out[i])
  {
    out := [];
    for i := 0 to |bytes|
      invariant out == HexOf(bytes[..i])
      invariant forall j :: 0 <= j < |out| ==> IsLowerHex(out[j])
    {
      assert bytes[..i + 1][..i] == bytes[..i];
      out := out + [NibbleChar(bytes[i] as nat / 16), NibbleChar(bytes[i] as nat % 16)];
    }
    assert bytes[..|bytes|] == bytes;
    HexSpells(bytes);
  }

  /** `hex_bytes::deserialize`: even length and hex digits of either case, or an error. */
  method Deserialize(s: string) returns (r: Option<Bytes>)
    ensures r.Some? <==> |s| % 2 == 0 && forall i :: 0 <= i < |s| ==> IsHexDigit(s[i])
    ensures r.Some? ==> Spells(s, r.value)
  {
    if |s| % 2 != 0 { return None; }
    var out: Bytes := [];
    var i := 0;
    while i < |s|
      invariant 0 <= i <= |s| && i == 2 * |out|
      invariant forall j :: 0 <= j < i ==> IsHexDigit(s[j])
      invariant forall j :: 0 <= j < |out| ==> PairValue(s[2 * j], s[2 * j + 1]) == Some(out[j])
    {
      var hi, lo := DecodeNibble(s[i]), DecodeNibble(s[i + 1]);
      if hi.None? || lo.None? { return None; }
      out := out + [(16 * hi.value + lo.value) as byte];
      i := i + 2;
    }
    return Some(out);
  }

  /** The text determines the bytes, so reading back what was written gives the same bytes. */
  lemma SpellsUnique(s: string, a: Bytes, b: Bytes)
    requires Spells(s, a) && Spells(s, b)
    ensures a == b
  {
    forall i | 0 <= i < |a| ensures a[i] == b[i] {
      assert PairValue(s[2 * i], s[2 * i + 1]) == Some(a[i]);
    }
  }

  lemma HexSpells(bytes: Bytes)
    ensures Spells(HexOf(bytes), bytes)
  {
    forall i | 0 <= i < |bytes| ensures PairValue(HexOf(bytes)[2 * i], HexOf(bytes)[2 * i + 1]) == Some(bytes[i]) {
      HexAt(bytes, i);
    }
  }

  lemma HexInjective(a: Bytes, b: Bytes)
    requires HexOf(a) == HexOf(b)
    ensures a == b
  {
    HexSpells(a);
    HexSpells(b);
    SpellsUnique(HexOf(a), a, b);
  }

  /** What is written to a TOML file is what is read back. */
  method RoundTrip(bytes: Bytes) returns (r: Option<Bytes>)
    ensures r == Some(bytes)
  {
    var text := Serialize(bytes);
    r := Deserialize(text);
    assert forall i :: 0 <= i < |text| ==> IsHexDigit(text[i]);
    SpellsUnique(text, bytes, r.value);
  }
}
