// Names and keys of the rootfs cache: the digest text written at build time,
// the key stored in the marker, and the names of directories under the root.
module CacheKey {
  import opened Text

  type Byte = n: nat | n < 256

  const STAGING_PREFIX := ".staging-"

  // ---- the digest text ---------------------------------------------------

  // Two lower-case digits a byte.
  function HexOf(bytes: seq<Byte>): string {
    if bytes == [] then ""
    else HexOf(bytes[..|bytes| - 1]) + HexByte(bytes[|bytes| - 1])
  }

  function HexByte(b: Byte): string {
    [DigitChar(b / 16), DigitChar(b % 16)]
  }

  // The fold into a mutated string that produces the digest text.
  method Hex(bytes: seq<Byte>) returns (out: string)
    ensures out == HexOf(bytes)
  {
    out := "";
    for i := 0 to |bytes|
      invariant out == HexOf(bytes[..i])
    {
      assert bytes[..i + 1][..i] == bytes[..i];
      out := out + HexByte(bytes[i]);
    }
    assert bytes[..|bytes|] == bytes;
  }

  function ByteOf(hi: char, lo: char): Byte
    requires IsLowerHex(hi) && IsLowerHex(lo)
  {
    DigitValue(hi).value * 16 + DigitValue(lo).value
  }

  lemma HexByteReadsBack(b: Byte)
    ensures var s := HexByte(b); |s| == 2 && IsLowerHex(s[0]) && IsLowerHex(s[1]) && ByteOf(s[0], s[1]) == b
  {
    DigitReadsBack(b / 16);
    DigitReadsBack(b % 16);
  }

  lemma ByteOfPrintsBack(hi: char, lo: char)
    requires IsLowerHex(hi) && IsLowerHex(lo)
    ensures HexByte(ByteOf(hi, lo)) == [hi, lo]
  {
    var b := ByteOf(hi, lo);
    assert b / 16 == DigitValue(hi).value && b % 16 == DigitValue(lo).value;
  }

  // Reads a digest text back; None for anything `Hex` cannot have written.
  function UnHex(s: string): Option<seq<Byte>> {
    if s == "" then Some([])
    else if |s| < 2 || !IsLowerHex(s[|s| - 2]) || !IsLowerHex(s[|s| - 1]) then None
    else Extended(UnHex(s[..|s| - 2]), ByteOf(s[|s| - 2], s[|s| - 1]))
  }

  function Extended(init: Option<seq<Byte>>, b: Byte): Option<seq<Byte>> {
    if init.None? then None else Some(init.value + [b])
  }

  lemma HexSnoc(init: seq<Byte>, b: Byte)
    ensures HexOf(init + [b]) == HexOf(init) + HexByte(b)
  {
    assert (init + [b])[..|init|] == init;
  }

  lemma UnHexSnoc(s: string, hi: char, lo: char)
    requires UnHex(s).Some? && IsLowerHex(hi) && IsLowerHex(lo)
    ensures UnHex(s + [hi, lo]) == Some(UnHex(s).value + [ByteOf(hi, lo)])
  {
    assert (s + [hi, lo])[..|s|] == s;
  }

  lemma {:induction false} HexDecodes(bytes: seq<Byte>)
    ensures UnHex(HexOf(bytes)) == Some(bytes)
    ensures forall i | 0 <= i < |HexOf(bytes)| :: IsLowerHex(HexOf(bytes)[i])
  {
    if bytes != [] {
      var init, last := bytes[..|bytes| - 1], bytes[|bytes| - 1];
      assert bytes == init + [last];
      HexDecodes(init);
      HexSnoc(init, last);
      HexByteReadsBack(last);
      UnHexSnoc(HexOf(init), HexByte(last)[0], HexByte(last)[1]);
    }
  }

  lemma {:induction false} HexEncodes(s: string)
    requires UnHex(s).Some?
    ensures HexOf(UnHex(s).value) == s
  {
    if s != "" {
      UnHexParts(s);
      var rest, hi, lo := s[..|s| - 2], s[|s| - 2], s[|s| - 1];
      HexEncodes(rest);
      HexSnocOf(UnHex(rest).value, hi, lo);
      assert s == rest + [hi, lo];
    }
  }

  lemma UnHexParts(s: string)
    requires s != "" && UnHex(s).Some?
    ensures |s| >= 2 && IsLowerHex(s[|s| - 2]) && IsLowerHex(s[|s| - 1]) && UnHex(s[..|s| - 2]).Some?
    ensures UnHex(s).value == UnHex(s[..|s| - 2]).value + [ByteOf(s[|s| - 2], s[|s| - 1])]
  {
  }

  lemma HexSnocOf(init: seq<Byte>, hi: char, lo: char)
    requires IsLowerHex(hi) && IsLowerHex(lo)
    ensures HexOf(init + [ByteOf(hi, lo)]) == HexOf(init) + [hi, lo]
  {
    HexSnoc(init, ByteOf(hi, lo));
    ByteOfPrintsBack(hi, lo);
  }

  // ---- the cache key and the marker --------------------------------------

  // A crate version as cargo admits it: starts with a digit, is one path
  // component.
  predicate ValidVersion(version: string) {
    version != "" && '0' <= version[0] <= '9' && '/' !in version
  }

  function Key(version: string, digest: string): string {
    version + "-" + Trim(digest)
  }

  predicate MarkerMatches(found: string, key: string) {
    Trim(found) == key
  }

  lemma KeyIsTrimmed(version: string, digest: string)
    requires ValidVersion(version)
    ensures Trim(Key(version, digest)) == Key(version, digest)
  {
    TrimIsTrimmed(digest);
    TrimOfTrimmed(Key(version, digest));
  }

  lemma DigestTextIsDashFree(bytes: seq<Byte>)
    ensures Trim(HexOf(bytes)) == HexOf(bytes) && '-' !in HexOf(bytes)
  {
    HexDecodes(bytes);
    TrimOfTrimmed(HexOf(bytes));
  }

  // Versions may hold dashes, yet a key still tells both parts apart.
  lemma KeysSeparateArchives(v: string, d: seq<Byte>, w: string, e: seq<Byte>)
    ensures Key(v, HexOf(d)) == Key(w, HexOf(e)) <==> v == w && d == e
  {
    DigestTextIsDashFree(d);
    DigestTextIsDashFree(e);
    if Key(v, HexOf(d)) == Key(w, HexOf(e)) {
      LastDash(v, w, HexOf(d), HexOf(e));
      HexDecodes(d);
      HexDecodes(e);
    }
  }

  // A marker holding one archive's key is accepted for that archive alone.
  lemma MarkerNamesOneArchive(v: string, d: seq<Byte>, w: string, e: seq<Byte>)
    requires ValidVersion(v)
    ensures MarkerMatches(Key(v, HexOf(d)), Key(w, HexOf(e))) <==> v == w && d == e
  {
    KeyIsTrimmed(v, HexOf(d));
    KeysSeparateArchives(v, d, w, e);
  }

  // White space around a stored key, as an editor may leave it, is ignored; so
  // is white space around the digest text.
  lemma MarkerIgnoresSpace(found: string, key: string, c: char)
    requires IsWhitespace(c)
    ensures MarkerMatches(found + [c], key) <==> MarkerMatches(found, key)
    ensures MarkerMatches([c] + found, key) <==> MarkerMatches(found, key)
    ensures Key(key, found + [c]) == Key(key, found) && Key(key, [c] + found) == Key(key, found)
  {
    TrimIgnoresTail(found, c);
    assert ([c] + found)[1..] == found;
  }

  // ---- names under the cache root ----------------------------------------

  function StagingName(version: string, pid: nat): string {
    STAGING_PREFIX + version + "-" + Numeral(pid, 10)
  }

  predicate IsStagingName(name: string) {
    STAGING_PREFIX <= name
  }

  // Two processes never share a staging name, whatever their versions, and no
  // version is taken for a staging name.
  lemma StagingNamesDistinct(v: string, p: nat, w: string, q: nat)
    ensures StagingName(v, p) == StagingName(w, q) <==> v == w && p == q
    ensures IsStagingName(StagingName(v, p))
    ensures ValidVersion(v) ==> !IsStagingName(v)
  {
    NumeralReadsBack(p, 10);
    NumeralReadsBack(q, 10);
    NumeralDigits(p, 10);
    NumeralDigits(q, 10);
    if StagingName(v, p) == StagingName(w, q) {
      LastDash(STAGING_PREFIX + v, STAGING_PREFIX + w, Numeral(p, 10), Numeral(q, 10));
      assert v == (STAGING_PREFIX + v)[|STAGING_PREFIX|..];
      assert w == (STAGING_PREFIX + w)[|STAGING_PREFIX|..];
    }
    assert StagingName(v, p)[..|STAGING_PREFIX|] == STAGING_PREFIX;
    assert STAGING_PREFIX[0] == '.';
  }
}
