/** Trie key encodings: KEYBYTES, HEX and COMPACT ("hex prefix" in Appendix C of
    the Ethereum Yellow Paper). Each encoder fills a byte buffer in place and is
    proved to leave exactly the sequence its specification function describes;
    the round trips are lemmas about those functions. */
module Encoding {

  type Byte = b: nat | b < 256

  /** One element of a HEX encoded key: a nibble, or the terminator 16. */
  type Nib = n: nat | n <= 16

  const TERMINATOR: Nib := 16

  predicate HasTerm(s: seq<Nib>) {
    |s| > 0 && s[|s| - 1] == TERMINATOR
  }

  /** Nibbles only, no terminator. */
  predicate IsPlain(s: seq<Nib>) {
    forall i :: 0 <= i < |s| ==> s[i] < 16
  }

  /** Nibbles followed by exactly one terminator. */
  predicate IsTerminated(s: seq<Nib>) {
    HasTerm(s) && IsPlain(s[..|s| - 1])
  }

  /** The domain of the HEX encoding: an optional terminator, only at the end. */
  predicate IsHex(s: seq<Nib>) {
    IsPlain(s) || IsTerminated(s)
  }

  function Hi(b: Byte): Nib {
    b / 16
  }

  function Lo(b: Byte): Nib {
    b % 16
  }

  function Nibbles(str: seq<Byte>): (r: seq<Nib>)
    ensures |r| == 2 * |str| && IsPlain(r)
  {
    if |str| == 0 then [] else [Hi(str[0]), Lo(str[0])] + Nibbles(str[1..])
  }

  function KeyHex(str: seq<Byte>): seq<Nib> {
    Nibbles(str) + [TERMINATOR]
  }

  /** Two nibbles as one byte: hi<<4 | lo. */
  function Join(hi: int, lo: int): (b: Byte)
    requires 0 <= hi < 16 && 0 <= lo < 16
    ensures Hi(b) == hi && Lo(b) == lo
  {
    16 * hi + lo
  }

  lemma JoinHiLo(b: Byte)
    ensures Hi(b) < 16 && Lo(b) < 16 && Join(Hi(b), Lo(b)) == b
  {
  }

  function Pack(nibbles: seq<Nib>): (r: seq<Byte>)
    requires IsPlain(nibbles) && |nibbles| % 2 == 0
    ensures 2 * |r| == |nibbles|
  {
    if |nibbles| == 0 then [] else [Join(nibbles[0], nibbles[1])] + Pack(nibbles[2..])
  }

  function Body(hex: seq<Nib>): seq<Nib> {
    if HasTerm(hex) then hex[..|hex| - 1] else hex
  }

  /** The first byte of a compact key: flag, oddness and, for an odd length, the first nibble. */
  function FlagByte(term: bool, body: seq<Nib>): (b: Byte)
    requires IsPlain(body)
    ensures Hi(b) % 2 == |body| % 2 && Hi(b) < 4 && (Hi(b) >= 2 <==> term)
    ensures Lo(b) == if |body| % 2 == 0 then 0 else body[0]
  {
    var flag := if term then 2 else 0;
    if |body| % 2 == 0 then Join(flag, 0) else Join(flag + 1, body[0])
  }

  function Even(body: seq<Nib>): (r: seq<Nib>)
    requires IsPlain(body)
    ensures |r| % 2 == 0 && IsPlain(r)
  {
    if |body| % 2 == 0 then body else body[1..]
  }

  /** HP(x, t) of the Yellow Paper, equation C.1. */
  function Compact(hex: seq<Nib>): seq<Byte>
    requires IsHex(hex)
  {
    [FlagByte(HasTerm(hex), Body(hex))] + Pack(Even(Body(hex)))
  }

  function Uncompact(compact: seq<Byte>): seq<Nib> {
    if |compact| == 0 then []
    else
      var base := KeyHex(compact);
      var kept := if base[0] < 2 then base[..|base| - 1] else base;
      kept[2 - base[0] % 2..]
  }

  /** What a compact encoding looks like: known flag, zero padding nibble. */
  predicate IsCompact(compact: seq<Byte>) {
    |compact| > 0 && Hi(compact[0]) < 4 && (Hi(compact[0]) % 2 == 0 ==> Lo(compact[0]) == 0)
  }

  lemma {:induction false} PackNibbles(str: seq<Byte>)
    ensures Pack(Nibbles(str)) == str
  {
    if |str| > 0 {
      PackNibbles(str[1..]);
      assert Nibbles(str)[2..] == Nibbles(str[1..]);
    }
  }

  lemma {:induction false} NibblesPack(nibbles: seq<Nib>)
    requires IsPlain(nibbles) && |nibbles| % 2 == 0
    ensures Nibbles(Pack(nibbles)) == nibbles
  {
    if |nibbles| > 0 {
      NibblesPack(nibbles[2..]);
      assert Pack(nibbles)[1..] == Pack(nibbles[2..]);
    }
  }

  /** The high nibble of each byte comes first. */
  lemma {:induction false} NibblesAt(str: seq<Byte>, i: nat)
    requires i < |str|
    ensures Nibbles(str)[2 * i] == str[i] / 16 && Nibbles(str)[2 * i + 1] == str[i] % 16
  {
    if i > 0 {
      NibblesAt(str[1..], i - 1);
    }
  }

  lemma KeyHexReads(str: seq<Byte>, hex: seq<Nib>)
    requires hex == KeyHex(str)
    ensures |hex| == 2 * |str| + 1 && hex[2 * |str|] == 16
    ensures forall i :: 0 <= i < |str| ==> hex[2 * i] == str[i] / 16 && hex[2 * i + 1] == str[i] % 16
  {
    forall i | 0 <= i < |str|
      ensures hex[2 * i] == str[i] / 16 && hex[2 * i + 1] == str[i] % 16
    {
      NibblesAt(str, i);
    }
  }

  /** Keys are terminated, so no key's path is a prefix of another's, and distinct keys
      have distinct paths. */
  lemma KeyHexInjective(a: seq<Byte>, b: seq<Byte>)
    ensures IsTerminated(KeyHex(a))
    ensures KeyHex(a) == KeyHex(b) ==> a == b
  {
    PackNibbles(a);
    PackNibbles(b);
    assert KeyHex(a)[..|KeyHex(a)| - 1] == Nibbles(a);
    assert KeyHex(b)[..|KeyHex(b)| - 1] == Nibbles(b);
  }

  /** Uncompact, read off the flag nibble: an odd length brings one nibble along, a flag of
      two or more brings the terminator. */
  lemma UncompactShape(b: Byte, rest: seq<Byte>)
    ensures Uncompact([b] + rest) == FlagNibble(b) + Nibbles(rest) + FlagTerm(b)
  {
    var c, tail := [b] + rest, Nibbles(rest);
    assert c[1..] == rest;
    ChopBase(b, tail);
    assert KeyHex(c) == [Hi(b), Lo(b)] + tail + [TERMINATOR];
  }

  lemma ChopBase(b: Byte, tail: seq<Nib>)
    ensures var base := [Hi(b), Lo(b)] + tail + [TERMINATOR];
            var kept := if base[0] < 2 then base[..|base| - 1] else base;
            kept[2 - base[0] % 2..] == FlagNibble(b) + tail + FlagTerm(b)
  {
    var base := [Hi(b), Lo(b)] + tail + [TERMINATOR];
    var kept := if base[0] < 2 then base[..|base| - 1] else base;
    assert kept == [Hi(b), Lo(b)] + tail + FlagTerm(b);
  }

  function FlagNibble(b: Byte): seq<Nib> {
    if Hi(b) % 2 == 1 then [Lo(b)] else []
  }

  function FlagTerm(b: Byte): seq<Nib> {
    if Hi(b) >= 2 then [TERMINATOR] else []
  }

  lemma FlagParts(term: bool, body: seq<Nib>)
    requires IsPlain(body)
    ensures FlagNibble(FlagByte(term, body)) + Even(body) == body
    ensures FlagTerm(FlagByte(term, body)) == if term then [TERMINATOR] else []
  {
  }

  lemma FlagByteOf(b: Byte, tail: seq<Nib>)
    requires IsPlain(tail) && |tail| % 2 == 0
    ensures Even(FlagNibble(b) + tail) == tail
    ensures FlagByte(Hi(b) >= 2, FlagNibble(b) + tail) == b <==> Hi(b) < 4 && (Hi(b) % 2 == 0 ==> Lo(b) == 0)
  {
    JoinHiLo(b);
    if Hi(b) % 2 == 1 {
      assert ([Lo(b)] + tail)[1..] == tail;
    } else {
      assert FlagNibble(b) + tail == tail;
    }
  }

  /** Every hex key survives compaction. */
  lemma UncompactCompact(hex: seq<Nib>)
    requires IsHex(hex)
    ensures IsCompact(Compact(hex)) && Uncompact(Compact(hex)) == hex
  {
    var first, even := FlagByte(HasTerm(hex), Body(hex)), Even(Body(hex));
    var c := Compact(hex);
    assert c[0] == first && c[1..] == Pack(even);
    assert IsCompact(c);
    calc {
      Uncompact(c);
      { UncompactShape(first, Pack(even)); }
      FlagNibble(c[0]) + Nibbles(c[1..]) + FlagTerm(c[0]);
      { NibblesPack(even); }
      FlagNibble(first) + even + FlagTerm(first);
      { FlagParts(HasTerm(hex), Body(hex)); }
      Body(hex) + FlagTerm(first);
      hex;
    }
  }

  lemma CompactOfParts(b: Byte, tail: seq<Nib>)
    requires IsPlain(tail) && |tail| % 2 == 0
    ensures IsHex(FlagNibble(b) + tail + FlagTerm(b))
    ensures Compact(FlagNibble(b) + tail + FlagTerm(b))
         == [FlagByte(Hi(b) >= 2, FlagNibble(b) + tail)] + Pack(tail)
  {
    var body := FlagNibble(b) + tail;
    var h := body + FlagTerm(b);
    assert Hi(b) >= 2 ==> h[..|h| - 1] == body;
    assert Hi(b) < 2 ==> h == body;
    assert IsPlain(body);
    assert Body(h) == body;
    FlagByteOf(b, tail);
  }

  lemma CompactShape(b: Byte, rest: seq<Byte>, hex: seq<Nib>)
    requires hex == FlagNibble(b) + Nibbles(rest) + FlagTerm(b)
    ensures IsHex(hex)
    ensures Compact(hex) == [b] + rest <==> Hi(b) < 4 && (Hi(b) % 2 == 0 ==> Lo(b) == 0)
  {
    var tail := Nibbles(rest);
    PackNibbles(rest);
    CompactOfParts(b, tail);
    FlagByteOf(b, tail);
    var first := FlagByte(Hi(b) >= 2, FlagNibble(b) + tail);
    assert [first] + rest == [b] + rest <==> first == b by {
      assert ([first] + rest)[0] == first && ([b] + rest)[0] == b;
    }
  }

  /** Decoding then encoding is the identity on exactly the well-formed compact keys. */
  lemma CompactUncompact(c: seq<Byte>)
    ensures IsHex(Uncompact(c))
    ensures IsCompact(c) <==> Compact(Uncompact(c)) == c
  {
    if |c| > 0 {
      var b, rest := c[0], c[1..];
      assert c == [b] + rest;
      UncompactShape(b, rest);
      CompactShape(b, rest, Uncompact(c));
    }
  }

  method KeybytesToHex(str: seq<Byte>) returns (nibbles: array<Nib>)
    ensures fresh(nibbles) && nibbles[..] == KeyHex(str)
    ensures nibbles.Length == 2 * |str| + 1 && nibbles[2 * |str|] == 16
    ensures forall i :: 0 <= i < |str| ==> nibbles[2 * i] == str[i] / 16 && nibbles[2 * i + 1] == str[i] % 16
  {
    var l := |str| * 2 + 1;
    nibbles := new Nib[l];
    for i := 0 to |str|
      invariant nibbles[..2 * i] + Nibbles(str[i..]) == Nibbles(str)
    {
      nibbles[i * 2] := Hi(str[i]);
      nibbles[i * 2 + 1] := Lo(str[i]);
    }
    nibbles[l - 1] := TERMINATOR;
    KeyHexReads(str, nibbles[..]);
  }

  /** Writes the packed nibbles into bytes[offset..], as the source does through a slice. */
  method DecodeNibbles(nibbles: seq<Nib>, bytes: array<Byte>, offset: nat)
    requires IsPlain(nibbles) && |nibbles| % 2 == 0
    requires offset + |nibbles| / 2 == bytes.Length
    modifies bytes
    ensures bytes[..] == old(bytes[..offset]) + Pack(nibbles)
  {
    var bi, ni := 0, 0;
    while ni < |nibbles|
      invariant ni == 2 * bi && ni <= |nibbles|
      invariant bytes[..offset] == old(bytes[..offset])
      invariant bytes[offset..offset + bi] + Pack(nibbles[ni..]) == Pack(nibbles)
    {
      bytes[offset + bi] := Join(nibbles[ni], nibbles[ni + 1]);
      bi, ni := bi + 1, ni + 2;
    }
    assert bytes[offset..] == Pack(nibbles);
    assert bytes[..] == bytes[..offset] + bytes[offset..];
  }

  method HexToCompact(hex: seq<Nib>) returns (buf: array<Byte>)
    requires IsHex(hex)
    ensures fresh(buf) && buf[..] == Compact(hex)
  {
    var terminator, rest := 0, hex;
    if HasTerm(hex) {
      terminator, rest := 1, hex[..|hex| - 1];
    }
    buf := new Byte[|rest| / 2 + 1];
    buf[0] := terminator * 32;
    if |rest| % 2 == 1 {
      buf[0] := buf[0] + 16;
      buf[0] := buf[0] + rest[0];
      rest := rest[1..];
    }
    DecodeNibbles(rest, buf, 1);
  }

  method CompactToHex(compact: seq<Byte>) returns (hex: seq<Nib>)
    ensures hex == Uncompact(compact)
  {
    if |compact| == 0 {
      return [];
    }
    var buf := KeybytesToHex(compact);
    var base := buf[..];
    if base[0] < 2 {
      base := base[..|base| - 1];
    }
    var chop := 2 - base[0] % 2;
    hex := base[chop..];
  }

  /** The inverse of KeybytesToHex; the source panics on an odd number of nibbles. */
  method HexToKeybytes(hex: seq<Nib>) returns (key: array<Byte>)
    requires IsHex(hex) && |Body(hex)| % 2 == 0
    ensures fresh(key) && Nibbles(key[..]) == Body(hex)
  {
    var rest := hex;
    if HasTerm(rest) {
      rest := rest[..|rest| - 1];
    }
    key := new Byte[|rest| / 2];
    DecodeNibbles(rest, key, 0);
    NibblesPack(rest);
    assert key[..] == Pack(rest);
  }

  method PrefixLen(a: seq<Nib>, b: seq<Nib>) returns (i: nat)
    ensures i == CommonPrefix(a, b)
  {
    i := 0;
    var length := if |b| < |a| then |b| else |a|;
    while i < length
      invariant i <= length
      invariant a[..i] == b[..i]
    {
      if a[i] != b[i] {
        break;
      }
      i := i + 1;
    }
    CommonPrefixUnique(a, b, i);
  }

  /** Length of the longest common prefix. */
  function CommonPrefix(a: seq<Nib>, b: seq<Nib>): (i: nat)
    ensures i <= |a| && i <= |b| && a[..i] == b[..i]
    ensures i < |a| && i < |b| ==> a[i] != b[i]
  {
    if |a| == 0 || |b| == 0 || a[0] != b[0] then 0
    else
      var r := CommonPrefix(a[1..], b[1..]);
      assert a[..r + 1] == [a[0]] + a[1..][..r];
      assert b[..r + 1] == [b[0]] + b[1..][..r];
      r + 1
  }

  lemma {:induction false} CommonPrefixUnique(a: seq<Nib>, b: seq<Nib>, i: nat)
    requires i <= |a| && i <= |b| && a[..i] == b[..i]
    requires i < |a| && i < |b| ==> a[i] != b[i]
    ensures i == CommonPrefix(a, b)
  {
    if i > 0 {
      assert a[1..][..i - 1] == a[..i][1..] && b[1..][..i - 1] == b[..i][1..];
      CommonPrefixUnique(a[1..], b[1..], i - 1);
    }
  }
}
