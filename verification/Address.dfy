// IP addresses and their text: dotted decimal for IPv4, and for IPv6 the
// canonical form of section 4 of RFC 5952 (mixed notation for IPv4-mapped
// addresses, as its section 5 has it), with a reader for every form.
module Address {
  import opened Text
  import opened CacheKey

  type Octets = s: seq<Byte> | |s| == 4 witness [0, 0, 0, 0]
  type Segments = s: seq<bv16> | |s| == 8 witness [0, 0, 0, 0, 0, 0, 0, 0]

  datatype IpAddr = V4(octets: Octets) | V6(segments: Segments)

  // ---- which addresses a guest can use -----------------------------------

  predicate IsLoopback(addr: IpAddr) {
    match addr
    case V4(o) => o[0] == 127
    case V6(s) => s == [0, 0, 0, 0, 0, 0, 0, 1]
  }

  predicate IsUnspecified(addr: IpAddr) {
    match addr
    case V4(o) => o == [0, 0, 0, 0]
    case V6(s) => s == [0, 0, 0, 0, 0, 0, 0, 0]
  }

  predicate IsMulticast(addr: IpAddr) {
    match addr
    case V4(o) => 224 <= o[0] <= 239
    case V6(s) => s[0] & 0xff00 == 0xff00
  }

  predicate IsReachable(addr: IpAddr) {
    if IsLoopback(addr) || IsUnspecified(addr) || IsMulticast(addr) then false
    else
      match addr
      case V4(o) => !(o[0] == 169 && o[1] == 254) && o != [255, 255, 255, 255]
      case V6(s) => s[0] & 0xffc0 != 0xfe80
  }

  lemma MasksAreRanges(x: bv16)
    ensures x & 0xffc0 == 0xfe80 <==> 0xfe80 <= x <= 0xfebf
    ensures x & 0xff00 == 0xff00 <==> 0xff00 <= x
  {
  }

  // Unusable IPv6 addresses are exactly ::, ::1, the link-local range
  // fe80::/10 of section 2.5.6 of RFC 4291, and multicast ff00::/8.
  lemma ReachableV6Exactly(s: Segments)
    ensures !IsReachable(V6(s)) <==>
              || (s[0] == 0 && s[1] == 0 && s[2] == 0 && s[3] == 0 && s[4] == 0 && s[5] == 0 && s[6] == 0 && s[7] <= 1)
              || 0xfe80 <= s[0] <= 0xfebf
              || 0xff00 <= s[0]
  {
    MasksAreRanges(s[0]);
    assert s == [s[0], s[1], s[2], s[3], s[4], s[5], s[6], s[7]];
  }

  // An IPv4 address as the number it is on the wire.
  function Number(o: Octets): nat {
    var a: nat, b: nat, c: nat, d: nat := o[0], o[1], o[2], o[3];
    a * 0x100_0000 + b * 0x1_0000 + c * 0x100 + d
  }

  // Unusable IPv4 addresses are exactly 0.0.0.0, loopback 127.0.0.0/8,
  // link-local 169.254.0.0/16, multicast 224.0.0.0/4 and 255.255.255.255.
  lemma ReachableV4Exactly(o: Octets)
    ensures !IsReachable(V4(o)) <==>
              || Number(o) == 0
              || 0x7f00_0000 <= Number(o) <= 0x7fff_ffff
              || 0xa9fe_0000 <= Number(o) <= 0xa9fe_ffff
              || 0xe000_0000 <= Number(o) <= 0xefff_ffff
              || Number(o) == 0xffff_ffff
  {
    assert o == [o[0], o[1], o[2], o[3]];
  }

  // ---- IPv4 text ---------------------------------------------------------

  function OctetTexts(o: seq<Byte>): (r: seq<string>)
    ensures |r| == |o|
    ensures forall i | 0 <= i < |o| :: r[i] == Numeral(o[i], 10)
  {
    seq(|o|, i requires 0 <= i < |o| => Numeral(o[i], 10))
  }

  function PrintV4(o: Octets): string {
    Join(OctetTexts(o), '.')
  }

  // At most three digits, no leading zero, at most 255.
  function ParseOctet(s: string): Option<Byte> {
    if 1 <= |s| <= 3 && AllDigits(s, 10) && (s[0] != '0' || |s| == 1) && NumeralValue(s, 10) < 256
    then Some(NumeralValue(s, 10))
    else None
  }

  function ParseV4(s: string): Option<Octets> {
    var p := SplitBy(s, Is('.'));
    if |p| == 4 && ParseOctet(p[0]).Some? && ParseOctet(p[1]).Some? && ParseOctet(p[2]).Some? && ParseOctet(p[3]).Some?
    then Some([ParseOctet(p[0]).value, ParseOctet(p[1]).value, ParseOctet(p[2]).value, ParseOctet(p[3]).value])
    else None
  }

  lemma NumeralIsFree(n: nat, base: Base, c: char)
    requires !IsLowerHex(c)
    ensures Free(Numeral(n, base), Is(c))
  {
    NumeralDigits(n, base);
  }

  lemma OctetReadsBack(n: Byte)
    ensures ParseOctet(Numeral(n, 10)) == Some(n)
  {
    NumeralReadsBack(n, 10);
    NumeralDigits(n, 10);
    assert Power(10, 3) == 1000;
    NumeralLength(n, 10, 3);
  }

  lemma V4ReadsBack(o: Octets)
    ensures ParseV4(PrintV4(o)) == Some(o)
  {
    forall i | 0 <= i < 4 ensures Free(OctetTexts(o)[i], Is('.')) && ParseOctet(OctetTexts(o)[i]) == Some(o[i]) {
      NumeralIsFree(o[i], 10, '.');
      OctetReadsBack(o[i]);
    }
    SplitJoin(OctetTexts(o), '.', Is('.'));
    assert o == [o[0], o[1], o[2], o[3]];
  }

  // An IPv4 address has one text only: four decimal numbers without leading
  // zeros, joined by dots.
  lemma V4TextIsUnique(s: string, o: Octets)
    ensures ParseV4(s) == Some(o) <==> s == PrintV4(o)
  {
    V4ReadsBack(o);
    if ParseV4(s) == Some(o) {
      var p := SplitBy(s, Is('.'));
      forall i | 0 <= i < 4 ensures p[i] == OctetTexts(o)[i] {
        assert ParseOctet(p[i]) == Some(o[i]);
        DecimalIsUnique(p[i]);
      }
      assert p == OctetTexts(o);
      JoinSplit(s, '.');
    }
  }

  // ---- IPv6 text ---------------------------------------------------------

  function WordText(w: bv16): string {
    Numeral(w as nat, 16)
  }

  function WordTexts(ws: seq<bv16>): (r: seq<string>)
    ensures |r| == |ws|
    ensures forall i | 0 <= i < |ws| :: r[i] == WordText(ws[i])
  {
    seq(|ws|, i requires 0 <= i < |ws| => WordText(ws[i]))
  }

  // How many segments from `i` on are zero.
  function ZerosFrom(s: Segments, i: nat): (n: nat)
    requires i <= 8
    ensures i + n <= 8 && forall k | i <= k < i + n :: s[k] == 0
    decreases 8 - i
  {
    if i == 8 || s[i] != 0 then 0 else 1 + ZerosFrom(s, i + 1)
  }

  // Where the longest run of zeros starts, the first of equals.
  function LongestZeros(s: Segments, i: nat): (r: nat)
    requires i < 8
    ensures i <= r < 8
    ensures forall k | i <= k < 8 :: ZerosFrom(s, k) <= ZerosFrom(s, r)
    ensures forall k | i <= k < r :: ZerosFrom(s, k) < ZerosFrom(s, r)
    decreases 8 - i
  {
    if i == 7 then 7
    else
      var r := LongestZeros(s, i + 1);
      if ZerosFrom(s, i) >= ZerosFrom(s, r) then i else r
  }

  predicate IsMapped(s: Segments) {
    s[0] == 0 && s[1] == 0 && s[2] == 0 && s[3] == 0 && s[4] == 0 && s[5] == 0xffff
  }

  function MappedOctets(s: Segments): Octets {
    [s[6] as nat / 256, s[6] as nat % 256, s[7] as nat / 256, s[7] as nat % 256]
  }

  function OrEmpty(xs: seq<string>): (r: seq<string>)
    ensures r != []
  {
    if xs == [] then [""] else xs
  }

  // The text cut at its colons; "::" shows as an empty piece, with one more at
  // an end it touches.
  function V6Pieces(s: Segments): (r: seq<string>)
    ensures r != []
  {
    if IsMapped(s) then ["", "", "ffff", PrintV4(MappedOctets(s))] else PlainPieces(s)
  }

  function PlainPieces(s: Segments): (r: seq<string>)
    ensures r != []
  {
    var start := LongestZeros(s, 0);
    PiecesAround(s, start, ZerosFrom(s, start))
  }

  function PiecesAround(s: Segments, start: nat, n: nat): (r: seq<string>)
    requires start + n <= 8
    ensures r != []
  {
    if n > 1 then Compressed(WordTexts(s[..start]), WordTexts(s[start + n..])) else WordTexts(s)
  }

  predicate ZeroRun(s: Segments, i: nat, m: nat) {
    i + m <= 8 && forall k | i <= k < i + m :: s[k] == 0
  }

  // The longest run of zero segments, the first of equals.
  ghost predicate LongestRun(s: Segments, start: nat, n: nat) {
    ZeroRun(s, start, n) && forall i, m | 0 < m && ZeroRun(s, i, m) :: m < n || (m == n && start <= i)
  }

  lemma {:induction false} ZerosFromIsMaximal(s: Segments, i: nat, m: nat)
    requires ZeroRun(s, i, m)
    ensures m <= ZerosFrom(s, i)
    decreases m
  {
    if m > 0 {
      ZerosFromIsMaximal(s, i + 1, m - 1);
    }
  }

  // Canonical text: lower-case groups without leading zeros, and "::" for the
  // first of the longest runs of zeros where it replaces more than one group.
  lemma CanonicalV6(s: Segments) returns (start: nat, n: nat)
    requires !IsMapped(s)
    ensures LongestRun(s, start, n)
    ensures V6Pieces(s) == if n > 1 then Compressed(WordTexts(s[..start]), WordTexts(s[start + n..])) else WordTexts(s)
  {
    start := LongestZeros(s, 0);
    n := ZerosFrom(s, start);
    LongestZerosIsLongest(s);
  }

  lemma LongestZerosIsLongest(s: Segments)
    ensures var start := LongestZeros(s, 0); LongestRun(s, start, ZerosFrom(s, start))
  {
    var start := LongestZeros(s, 0);
    var n := ZerosFrom(s, start);
    forall i, m | 0 < m && ZeroRun(s, i, m) ensures m < n || (m == n && start <= i) {
      ZerosFromIsMaximal(s, i, m);
    }
  }

  function Compressed(hs: seq<string>, ts: seq<string>): (r: seq<string>)
    ensures r != []
  {
    OrEmpty(hs) + [""] + OrEmpty(ts)
  }

  function PrintV6(s: Segments): string {
    Join(V6Pieces(s), ':')
  }

  function ParseWord(s: string): Option<bv16> {
    if 1 <= |s| <= 4 && AllDigits(s, 16) && NumeralValue(s, 16) < 0x10000
    then Some(NumeralValue(s, 16) as bv16)
    else None
  }

  function ParseWords(xs: seq<string>): Option<seq<bv16>> {
    if xs == [] then Some([])
    else
      match (ParseWord(xs[0]), ParseWords(xs[1..]))
      case (Some(w), Some(ws)) => Some([w] + ws)
      case _ => None
  }

  function WordOf(hi: Byte, lo: Byte): bv16 {
    var n: nat := hi as nat * 256 + lo as nat;
    n as bv16
  }

  // Groups of which the last may be an IPv4 address, worth two.
  function ParseGroups(xs: seq<string>): Option<seq<bv16>> {
    if xs != [] && ParseV4(xs[|xs| - 1]).Some? then
      var o := ParseV4(xs[|xs| - 1]).value;
      match ParseWords(xs[..|xs| - 1])
      case Some(ws) => Some(ws + [WordOf(o[0], o[1]), WordOf(o[2], o[3])])
      case None => None
    else ParseWords(xs)
  }

  function FirstEmpty(xs: seq<string>): (k: nat)
    requires "" in xs
    ensures k < |xs| && xs[k] == "" && "" !in xs[..k]
  {
    if xs[0] == "" then 0 else 1 + FirstEmpty(xs[1..])
  }

  // Takes off the extra empty piece where "::" touches an end; None if an end
  // has a lone colon.
  function Ends(xs: seq<string>): Option<seq<string>>
    requires xs != []
  {
    var n := |xs|;
    if xs[0] == "" && !(n >= 3 && xs[1] == "") then None
    else if xs[n - 1] == "" && !(n >= 3 && xs[n - 2] == "") then None
    else Some(xs[(if xs[0] == "" then 1 else 0)..(if xs[n - 1] == "" then n - 1 else n)])
  }

  function Zeros(n: nat): (r: seq<bv16>)
    ensures |r| == n && forall i | 0 <= i < n :: r[i] == 0
  {
    seq(n, i => 0)
  }

  function ParsePieces(xs: seq<string>): Option<Segments>
    requires xs != []
  {
    if "" !in xs then
      match ParseGroups(xs)
      case Some(ws) => if |ws| == 8 then Some(ws) else None
      case None => None
    else
      match Ends(xs)
      case None => None
      case Some(ys) => ParseHalves(ys)
  }

  // Pieces around "::", which stands for at least one zero segment.
  function ParseHalves(ys: seq<string>): Option<Segments> {
    if "" !in ys then None
    else
      var k := FirstEmpty(ys);
      match (ParseWords(ys[..k]), ParseGroups(ys[k + 1..]))
      case (Some(h), Some(t)) => if |h| + |t| <= 7 then Some(h + Zeros(8 - |h| - |t|) + t) else None
      case _ => None
  }

  function ParseV6(s: string): Option<Segments> {
    ParsePieces(SplitBy(s, Is(':')))
  }

  lemma WordAsNat(w: bv16)
    ensures w as nat < 0x10000 && w as nat as bv16 == w
  {
  }

  lemma WordNumeral(n: nat)
    requires n < 0x10000
    ensures var s := Numeral(n, 16); 1 <= |s| <= 4 && AllDigits(s, 16) && NumeralValue(s, 16) == n
  {
    NumeralReadsBack(n, 16);
    assert Power(16, 4) == 0x10000;
    NumeralLength(n, 16, 4);
  }

  lemma WordReadsBack(w: bv16)
    ensures ParseWord(WordText(w)) == Some(w)
    ensures Free(WordText(w), Is(':')) && Free(WordText(w), Is('.'))
  {
    WordAsNat(w);
    WordNumeral(w as nat);
    NumeralIsFree(w as nat, 16, ':');
    NumeralIsFree(w as nat, 16, '.');
  }

  lemma ParseWordsCons(x: string, xs: seq<string>, w: bv16, ws: seq<bv16>)
    requires ParseWord(x) == Some(w) && ParseWords(xs) == Some(ws)
    ensures ParseWords([x] + xs) == Some([w] + ws)
  {
    assert ([x] + xs)[1..] == xs;
  }

  lemma {:induction false} WordsReadBack(ws: seq<bv16>)
    ensures ParseWords(WordTexts(ws)) == Some(ws)
  {
    if ws != [] {
      WordReadsBack(ws[0]);
      WordsReadBack(ws[1..]);
      ParseWordsCons(WordText(ws[0]), WordTexts(ws[1..]), ws[0], ws[1..]);
      assert WordTexts(ws) == [WordText(ws[0])] + WordTexts(ws[1..]) && ws == [ws[0]] + ws[1..];
    }
  }

  // No group of hexadecimal digits is taken for an IPv4 address.
  lemma WordsAreGroups(ws: seq<bv16>)
    ensures ParseGroups(WordTexts(ws)) == ParseWords(WordTexts(ws))
    ensures "" !in WordTexts(ws)
  {
    if ws != [] {
      WordReadsBack(ws[|ws| - 1]);
      SplitFree(WordTexts(ws)[|ws| - 1], Is('.'));
    }
  }

  lemma MappedReadsBack(s: Segments)
    requires IsMapped(s)
    ensures ParsePieces(V6Pieces(s)) == Some(s)
  {
    var text := PrintV4(MappedOctets(s));
    V4TextCharacters(MappedOctets(s));
    MappedEnds(text);
    MappedTail(s);
    ParsedAround([], ["ffff", text], [], [0xffff, s[6], s[7]]);
    MappedShape(s);
  }

  lemma WordsFree(ws: seq<bv16>)
    ensures AllFree(WordTexts(ws), Is(':'))
  {
    forall i | 0 <= i < |ws| ensures Free(WordTexts(ws)[i], Is(':')) {
      WordReadsBack(ws[i]);
    }
  }

  lemma PiecesFree(s: Segments)
    ensures AllFree(V6Pieces(s), Is(':'))
  {
    assert Free("ffff", Is(':')) && Free("", Is(':'));
    if IsMapped(s) {
      V4TextCharacters(MappedOctets(s));
    } else {
      var start := LongestZeros(s, 0);
      PiecesAroundFree(s, start, ZerosFrom(s, start));
    }
  }

  lemma PiecesAroundFree(s: Segments, start: nat, n: nat)
    requires start + n <= 8
    ensures AllFree(PiecesAround(s, start, n), Is(':'))
  {
    WordsFree(s);
    WordsFree(s[..start]);
    WordsFree(s[start + n..]);
    CompressedFree(WordTexts(s[..start]), WordTexts(s[start + n..]));
  }

  lemma CompressedFree(hs: seq<string>, ts: seq<string>)
    requires AllFree(hs, Is(':')) && AllFree(ts, Is(':'))
    ensures AllFree(Compressed(hs, ts), Is(':'))
  {
    assert Free("", Is(':'));
  }

  lemma ParsedAround(hs: seq<string>, ts: seq<string>, h: seq<bv16>, t: seq<bv16>)
    requires "" !in hs
    requires ParseWords(hs) == Some(h) && ParseGroups(ts) == Some(t) && |h| + |t| <= 7
    ensures ParseHalves(hs + [""] + ts) == Some(h + Zeros(8 - |h| - |t|) + t)
  {
    FirstEmptyBetween(hs, ts);
    var ys := hs + [""] + ts;
    assert ys[..|hs|] == hs && ys[|hs| + 1..] == ts;
  }

  lemma MappedShape(s: Segments)
    requires IsMapped(s)
    ensures [] + Zeros(5) + [0xffff, s[6], s[7]] == s
  {
  }

  lemma MappedEnds(text: string)
    requires text != ""
    ensures Ends(["", "", "ffff", text]) == Some([] + [""] + ["ffff", text])
  {
    assert ["", "", "ffff", text][1..4] == [] + [""] + ["ffff", text];
  }

  lemma MappedTail(s: Segments)
    requires IsMapped(s)
    ensures ParseGroups(["ffff", PrintV4(MappedOctets(s))]) == Some([0xffff, s[6], s[7]])
  {
    var o := MappedOctets(s);
    V4ReadsBack(o);
    FfffReads();
    GroupsOfMapped("ffff", PrintV4(o), 0xffff, o);
    HalvesJoin(s[6]);
    HalvesJoin(s[7]);
  }

  lemma FfffReads()
    ensures ParseWords(["ffff"]) == Some([0xffff])
  {
    WordReadsBack(0xffff);
    FfffText();
    assert ParseWord("ffff") == Some(0xffff);
    ParseWordsCons("ffff", [], 0xffff, []);
    assert ["ffff"] + [] == ["ffff"] && [0xffff as bv16] + [] == [0xffff];
  }

  lemma GroupsOfMapped(x: string, y: string, w: bv16, o: Octets)
    requires ParseWords([x]) == Some([w]) && ParseV4(y) == Some(o)
    ensures ParseGroups([x, y]) == Some([w, WordOf(o[0], o[1]), WordOf(o[2], o[3])])
  {
    assert [x, y][..1] == [x];
    assert [w] + [WordOf(o[0], o[1]), WordOf(o[2], o[3])] == [w, WordOf(o[0], o[1]), WordOf(o[2], o[3])];
  }

  lemma Halves(n: nat)
    requires n < 0x10000
    ensures n / 256 < 256 && n % 256 < 256 && n / 256 * 256 + n % 256 == n
  {
  }

  lemma WordOfHalves(hi: Byte, lo: Byte, n: nat)
    requires hi as nat * 256 + lo as nat == n && n < 0x10000
    ensures WordOf(hi, lo) == n as bv16
  {
  }

  lemma HalvesJoin(w: bv16)
    ensures var n := w as nat; n / 256 < 256 && n % 256 < 256 && WordOf(n / 256, n % 256) == w
  {
    var n := w as nat;
    WordAsNat(w);
    Halves(n);
    WordOfHalves(n / 256, n % 256, n);
  }

  lemma FfffText()
    ensures WordText(0xffff) == "ffff"
  {
    assert (0xffff as bv16) as nat == 0xffff;
    assert Numeral(0xf, 16) == "f";
    assert Numeral(0xff, 16) == "ff";
    assert Numeral(0xfff, 16) == "fff";
    assert Numeral(0xffff, 16) == "ffff";
  }

  lemma PlainReadsBack(s: Segments)
    requires !IsMapped(s)
    ensures ParsePieces(V6Pieces(s)) == Some(s)
  {
    var start := LongestZeros(s, 0);
    PiecesAroundRead(s, start, ZerosFrom(s, start));
  }

  lemma PiecesAroundRead(s: Segments, start: nat, n: nat)
    requires start + n <= 8 && forall k | start <= k < start + n :: s[k] == 0
    ensures ParsePieces(PiecesAround(s, start, n)) == Some(s)
  {
    if n > 1 {
      ZerosLeftOut(s, start, n);
    } else {
      AllWordsRead(s);
    }
  }

  lemma AllWordsRead(s: Segments)
    ensures ParsePieces(WordTexts(s)) == Some(s)
  {
    WordsReadBack(s);
    WordsAreGroups(s);
  }

  lemma ZerosLeftOut(s: Segments, start: nat, n: nat)
    requires n > 1 && start + n <= 8 && forall k | start <= k < start + n :: s[k] == 0
    ensures ParsePieces(Compressed(WordTexts(s[..start]), WordTexts(s[start + n..]))) == Some(s)
  {
    var h, t := s[..start], s[start + n..];
    WordsReadBack(h);
    WordsReadBack(t);
    WordsAreGroups(h);
    WordsAreGroups(t);
    CompressedReadsBack(WordTexts(h), WordTexts(t), h, t);
    ZerosInside(s, start, n);
    assert 8 - |h| - |t| == n;
  }

  lemma ZerosInside(s: Segments, start: nat, n: nat)
    requires start + n <= 8 && forall k | start <= k < start + n :: s[k] == 0
    ensures s[..start] + Zeros(n) + s[start + n..] == s
  {
  }

  lemma CompressedReadsBack(hs: seq<string>, ts: seq<string>, h: seq<bv16>, t: seq<bv16>)
    requires "" !in hs && "" !in ts && |h| + |t| <= 7
    requires ParseWords(hs) == Some(h) && ParseGroups(ts) == Some(t)
    ensures ParsePieces(Compressed(hs, ts)) == Some(h + Zeros(8 - |h| - |t|) + t)
  {
    EndsTakenOff(hs, ts);
    ParsedAround(hs, ts, h, t);
  }

  lemma EndsTakenOff(hs: seq<string>, ts: seq<string>)
    requires "" !in hs && "" !in ts
    ensures "" in Compressed(hs, ts) && Ends(Compressed(hs, ts)) == Some(hs + [""] + ts)
  {
    var xs := OrEmpty(hs) + [""] + OrEmpty(ts);
    assert xs[|OrEmpty(hs)|] == "";
    assert hs != [] ==> hs[0] in hs && xs[0] == hs[0];
    assert ts != [] ==> ts[|ts| - 1] in ts && xs[|xs| - 1] == ts[|ts| - 1];
    assert xs[(if hs == [] then 1 else 0)..(if ts == [] then |xs| - 1 else |xs|)] == hs + [""] + ts;
  }

  lemma FirstEmptyBetween(hs: seq<string>, ts: seq<string>)
    requires "" !in hs
    ensures "" in hs + [""] + ts && FirstEmpty(hs + [""] + ts) == |hs|
  {
    var ys := hs + [""] + ts;
    assert ys[|hs|] == "";
    assert forall i | 0 <= i < |hs| :: ys[i] == hs[i] && hs[i] in hs;
  }

  // ---- either family -----------------------------------------------------

  function Print(addr: IpAddr): string {
    match addr
    case V4(o) => PrintV4(o)
    case V6(s) => PrintV6(s)
  }

  function Parse(s: string): Option<IpAddr> {
    match ParseV4(s)
    case Some(o) => Some(V4(o))
    case None =>
      match ParseV6(s)
      case Some(ws) => Some(V6(ws))
      case None => None
  }

  // The characters of an address text: none is whitespace, a comment sign, a
  // shell pattern character, a backslash or NUL.
  predicate AddressChar(c: char) {
    IsLowerHex(c) || c == '.' || c == ':'
  }

  predicate AddressText(s: string) {
    s != "" && forall i | 0 <= i < |s| :: AddressChar(s[i])
  }

  predicate All(s: string, p: char -> bool) {
    forall i | 0 <= i < |s| :: p(s[i])
  }

  lemma {:induction false} JoinCharacters(xs: seq<string>, c: char, p: char -> bool)
    requires p(c) && forall i | 0 <= i < |xs| :: All(xs[i], p)
    ensures All(Join(xs, c), p)
  {
    if |xs| > 1 {
      assert forall i | 0 <= i < |xs| - 1 :: xs[1..][i] == xs[i + 1];
      JoinCharacters(xs[1..], c, p);
    }
  }

  predicate V4Char(c: char) {
    '0' <= c <= '9' || 'a' <= c <= 'f' || c == '.'
  }

  lemma V4TextCharacters(o: Octets)
    ensures AddressText(PrintV4(o)) && Free(PrintV4(o), Is(':'))
  {
    forall i | 0 <= i < 4 ensures All(OctetTexts(o)[i], V4Char) {
      NumeralDigits(o[i], 10);
    }
    JoinCharacters(OctetTexts(o), '.', V4Char);
    forall i | 0 <= i < |PrintV4(o)| ensures AddressChar(PrintV4(o)[i]) && PrintV4(o)[i] != ':' {
      assert V4Char(PrintV4(o)[i]);
    }
    assert OctetTexts(o)[0] != "";
  }

  lemma WordPieces(ws: seq<bv16>)
    ensures forall i | 0 <= i < |ws| :: All(WordTexts(ws)[i], AddressChar)
  {
    forall i | 0 <= i < |ws| ensures All(WordTexts(ws)[i], AddressChar) {
      NumeralDigits(ws[i] as nat, 16);
    }
  }

  predicate AllPieces(xs: seq<string>) {
    forall i | 0 <= i < |xs| :: All(xs[i], AddressChar)
  }

  lemma PiecesCharacters(s: Segments)
    ensures AllPieces(V6Pieces(s)) && |V6Pieces(s)| > 1
  {
    assert All("", AddressChar) && All("ffff", AddressChar);
    if IsMapped(s) {
      V4TextCharacters(MappedOctets(s));
    } else {
      var start := LongestZeros(s, 0);
      PiecesAroundCharacters(s, start, ZerosFrom(s, start));
    }
  }

  lemma PiecesAroundCharacters(s: Segments, start: nat, n: nat)
    requires start + n <= 8
    ensures AllPieces(PiecesAround(s, start, n)) && |PiecesAround(s, start, n)| > 1
  {
    WordPieces(s);
    WordPieces(s[..start]);
    WordPieces(s[start + n..]);
    CompressedCharacters(WordTexts(s[..start]), WordTexts(s[start + n..]));
  }

  lemma CompressedCharacters(hs: seq<string>, ts: seq<string>)
    requires AllPieces(hs) && AllPieces(ts)
    ensures AllPieces(Compressed(hs, ts)) && |Compressed(hs, ts)| > 1
  {
    assert All("", AddressChar);
  }

  lemma V6TextCharacters(s: Segments)
    ensures AddressText(PrintV6(s)) && ':' in PrintV6(s)
  {
    var xs := V6Pieces(s);
    PiecesCharacters(s);
    JoinCharacters(xs, ':', AddressChar);
    assert Join(xs, ':')[|xs[0]|] == ':';
  }

  lemma PrintCharacters(addr: IpAddr)
    ensures AddressText(Print(addr))
  {
    match addr
    case V4(o) => V4TextCharacters(o);
    case V6(s) => V6TextCharacters(s);
  }

  // Every address, of either family, reads back from its text.
  lemma AddressReadsBack(addr: IpAddr)
    ensures Parse(Print(addr)) == Some(addr)
  {
    match addr
    case V4(o) =>
      V4ReadsBack(o);
    case V6(s) =>
      V6ReadsBack(s);
      V6IsNotV4(s);
  }

  lemma V6IsNotV4(s: Segments)
    ensures ParseV4(PrintV6(s)) == None
  {
    V6TextCharacters(s);
    ForeignIsNotV4(PrintV6(s), ':');
  }

  lemma V6ReadsBack(s: Segments)
    ensures ParseV6(PrintV6(s)) == Some(s)
  {
    if IsMapped(s) {
      MappedReadsBack(s);
    } else {
      PlainReadsBack(s);
    }
    PiecesFree(s);
    SplitJoin(V6Pieces(s), ':', Is(':'));
  }

  // Characters no group of an address may hold.
  lemma ForeignIsNotOctet(x: string, c: char)
    requires c in x && DigitValue(c) == None
    ensures ParseOctet(x) == None && ParseWord(x) == None
  {
    var k :| 0 <= k < |x| && x[k] == c;
    assert !IsDigit(x[k], 10) && !IsDigit(x[k], 16);
  }

  lemma ForeignIsNotV4(s: string, c: char)
    requires c in s && DigitValue(c) == None && c != '.'
    ensures ParseV4(s) == None
  {
    var p := SplitBy(s, Is('.'));
    PieceWith(s, Is('.'), c);
    var i :| 0 <= i < |p| && c in p[i];
    ForeignIsNotOctet(p[i], c);
  }

  lemma {:induction false} WordsHoldNone(xs: seq<string>, c: char)
    requires ParseWords(xs).Some? && DigitValue(c) == None
    ensures forall x | x in xs :: c !in x
  {
    if xs != [] {
      if c in xs[0] {
        ForeignIsNotOctet(xs[0], c);
      }
      WordsHoldNone(xs[1..], c);
      assert xs == [xs[0]] + xs[1..];
    }
  }

  lemma GroupsHoldNone(xs: seq<string>, c: char)
    requires ParseGroups(xs).Some? && DigitValue(c) == None && c != '.'
    ensures forall x | x in xs :: c !in x
  {
    if xs != [] && ParseV4(xs[|xs| - 1]).Some? {
      var n := |xs| - 1;
      WordsHoldNone(xs[..n], c);
      if c in xs[n] {
        ForeignIsNotV4(xs[n], c);
      }
      assert xs == xs[..n] + [xs[n]];
    } else {
      WordsHoldNone(xs, c);
    }
  }

  lemma PiecesHoldNone(xs: seq<string>, c: char)
    requires xs != [] && ParsePieces(xs).Some? && DigitValue(c) == None && c != '.'
    ensures forall x | x in xs :: c !in x
  {
    if "" !in xs {
      GroupsHoldNone(xs, c);
    } else {
      HalvesHoldNone(Ends(xs).value, c);
      EndsKeepPieces(xs);
    }
  }

  lemma HalvesHoldNone(ys: seq<string>, c: char)
    requires ParseHalves(ys).Some? && DigitValue(c) == None && c != '.'
    ensures forall y | y in ys :: c !in y
  {
    var k := FirstEmpty(ys);
    WordsHoldNone(ys[..k], c);
    GroupsHoldNone(ys[k + 1..], c);
    forall i | 0 <= i < |ys| ensures c !in ys[i] {
      if i < k {
        assert ys[i] in ys[..k];
      } else if i > k {
        assert ys[i] == ys[k + 1..][i - k - 1];
      }
    }
  }

  lemma EndsKeepPieces(xs: seq<string>)
    requires xs != [] && Ends(xs).Some?
    ensures forall x | x in xs :: x == "" || x in Ends(xs).value
  {
    var lo, hi := if xs[0] == "" then 1 else 0, if xs[|xs| - 1] == "" then |xs| - 1 else |xs|;
    forall i | 0 <= i < |xs| ensures xs[i] == "" || xs[i] in Ends(xs).value {
      if lo <= i < hi {
        assert Ends(xs).value[i - lo] == xs[i];
      }
    }
  }

  // An address text holds hexadecimal digits, dots and colons only.
  lemma ForeignIsNotAddress(s: string, c: char)
    requires c in s && DigitValue(c) == None && c != '.' && c != ':'
    ensures Parse(s) == None
  {
    ForeignIsNotV4(s, c);
    var p := SplitBy(s, Is(':'));
    PieceWith(s, Is(':'), c);
    var i :| 0 <= i < |p| && c in p[i];
    assert p[i] in p;
    if ParsePieces(p).Some? {
      PiecesHoldNone(p, c);
    }
  }

  lemma {:induction false} PieceWith(s: string, sep: char -> bool, c: char)
    requires c in s && !sep(c)
    ensures exists i :: 0 <= i < |SplitBy(s, sep)| && c in SplitBy(s, sep)[i]
  {
    var p := SplitBy(s, sep);
    if c == s[0] {
      assert c in p[0];
    } else {
      PieceWith(s[1..], sep, c);
      var rest := SplitBy(s[1..], sep);
      var i :| 0 <= i < |rest| && c in rest[i];
      if sep(s[0]) {
        assert p[i + 1] == rest[i];
      } else if i > 0 {
        assert p[i] == rest[i];
      } else {
        assert p[0] == [s[0]] + rest[0] && c in p[0];
      }
    }
  }
}
