// Strings as the program and the guest shell take them apart: character
// classes, splitting, joining, trimming and numerals.
module Text {

  datatype Option<+T> = None | Some(value: T)

  // Unicode White_Space, the class behind `char::is_whitespace` and `str::trim`.
  predicate IsWhitespace(c: char) {
    var n := c as int;
    || 0x09 <= n <= 0x0d || n == 0x20 || n == 0x85 || n == 0xa0 || n == 0x1680
    || 0x2000 <= n <= 0x200a || n == 0x2028 || n == 0x2029 || n == 0x202f
    || n == 0x205f || n == 0x3000
  }

  // Unicode category Cc, the class behind `char::is_control`.
  predicate IsControl(c: char) {
    var n := c as int;
    n <= 0x1f || 0x7f <= n <= 0x9f
  }

  // ---- splitting ---------------------------------------------------------

  // The one-character separator class, as a value that can be handed to SplitBy.
  function Is(c: char): char -> bool {
    x => x == c
  }

  predicate Free(s: string, sep: char -> bool) {
    forall i | 0 <= i < |s| :: !sep(s[i])
  }

  predicate AllFree(xs: seq<string>, sep: char -> bool) {
    forall i | 0 <= i < |xs| :: Free(xs[i], sep)
  }

  // One line and what follows it.
  function Ln(line: string, rest: string): string {
    line + "\n" + rest
  }

  // Cuts `s` at every separator; a text with n separators has n + 1 pieces.
  function SplitBy(s: string, sep: char -> bool): (r: seq<string>)
    ensures |r| > 0
  {
    if s == "" then [""]
    else
      var rest := SplitBy(s[1..], sep);
      if sep(s[0]) then [""] + rest else [[s[0]] + rest[0]] + rest[1..]
  }

  function Join(xs: seq<string>, c: char): string {
    if xs == [] then ""
    else if |xs| == 1 then xs[0]
    else xs[0] + [c] + Join(xs[1..], c)
  }

  lemma {:induction false} SplitFree(s: string, sep: char -> bool)
    requires Free(s, sep)
    ensures SplitBy(s, sep) == [s]
  {
    if s != "" {
      SplitFree(s[1..], sep);
      assert [s[0]] + s[1..] == s;
    }
  }

  lemma FreeConcat(a: string, b: string, sep: char -> bool)
    ensures Free(a + b, sep) <==> Free(a, sep) && Free(b, sep)
  {
    assert forall i | 0 <= i < |a| :: (a + b)[i] == a[i];
    assert forall i | 0 <= i < |b| :: (a + b)[|a| + i] == b[i];
  }

  // Splitting is a homomorphism at a separator.
  lemma {:induction false} SplitAppend(a: string, c: char, b: string, sep: char -> bool)
    requires sep(c)
    ensures SplitBy(a + [c] + b, sep) == SplitBy(a, sep) + SplitBy(b, sep)
  {
    var s := a + [c] + b;
    if a == "" {
      assert s[0] == c && s[1..] == b;
    } else {
      assert s[0] == a[0] && s[1..] == a[1..] + [c] + b;
      SplitAppend(a[1..], c, b, sep);
    }
  }

  // Joining then splitting gives the pieces back, whatever they are, as long
  // as none of them holds a separator.
  lemma {:induction false} SplitJoin(xs: seq<string>, c: char, sep: char -> bool)
    requires xs != [] && sep(c) && AllFree(xs, sep)
    ensures SplitBy(Join(xs, c), sep) == xs
  {
    SplitFree(xs[0], sep);
    if |xs| > 1 {
      assert forall i | 0 <= i < |xs| - 1 :: xs[1..][i] == xs[i + 1];
      SplitJoin(xs[1..], c, sep);
      SplitAppend(xs[0], c, Join(xs[1..], c), sep);
    } else {
      assert xs == [xs[0]];
    }
  }

  lemma JoinFirst(x: char, rest: seq<string>, c: char)
    requires rest != []
    ensures Join([[x] + rest[0]] + rest[1..], c) == [x] + Join(rest, c)
  {
    var p := [[x] + rest[0]] + rest[1..];
    assert p[1..] == rest[1..];
    if |rest| > 1 {
      assert [x] + (rest[0] + [c] + Join(rest[1..], c)) == [x] + rest[0] + [c] + Join(rest[1..], c);
    }
  }

  // Every text is its pieces joined.
  lemma {:induction false} JoinSplit(s: string, c: char)
    ensures Join(SplitBy(s, Is(c)), c) == s
  {
    if s != "" {
      JoinSplit(s[1..], c);
      var rest := SplitBy(s[1..], Is(c));
      assert s == [s[0]] + s[1..];
      if s[0] == c {
        assert ([""] + rest)[1..] == rest;
      } else {
        JoinFirst(s[0], rest, c);
      }
    }
  }

  function NonEmpty(xs: seq<string>): (r: seq<string>)
    ensures forall x | x in r :: x != "" && x in xs
  {
    if xs == [] then []
    else (if xs[0] == "" then [] else [xs[0]]) + NonEmpty(xs[1..])
  }

  lemma {:induction false} NonEmptyAppend(xs: seq<string>, ys: seq<string>)
    ensures NonEmpty(xs + ys) == NonEmpty(xs) + NonEmpty(ys)
  {
    if xs == [] {
      assert xs + ys == ys;
    } else {
      assert (xs + ys)[1..] == xs[1..] + ys;
      NonEmptyAppend(xs[1..], ys);
    }
  }

  lemma {:induction false} NonEmptyAll(xs: seq<string>)
    requires forall x | x in xs :: x != ""
    ensures NonEmpty(xs) == xs
  {
    if xs != [] {
      assert xs[0] in xs && forall x | x in xs[1..] :: x in xs;
      NonEmptyAll(xs[1..]);
    }
  }

  // Maximal runs of non-separators: shell words and instruction tokens.
  function Words(s: string, sep: char -> bool): seq<string> {
    NonEmpty(SplitBy(s, sep))
  }

  lemma WordsJoin(xs: seq<string>, c: char, sep: char -> bool)
    requires sep(c) && AllFree(xs, sep) && forall x | x in xs :: x != ""
    ensures Words(Join(xs, c), sep) == xs
  {
    if xs == [] {
      assert SplitBy("", sep) == [""] && [""][1..] == [];
    } else {
      SplitJoin(xs, c, sep);
      NonEmptyAll(xs);
    }
  }

  lemma WordsAppend(a: string, c: char, b: string, sep: char -> bool)
    requires sep(c)
    ensures Words(a + [c] + b, sep) == Words(a, sep) + Words(b, sep)
  {
    SplitAppend(a, c, b, sep);
    NonEmptyAppend(SplitBy(a, sep), SplitBy(b, sep));
  }

  lemma WordsOfBlank(sep: char -> bool)
    ensures Words("", sep) == []
  {
    assert SplitBy("", sep) == [""] && [""][1..] == [];
  }

  lemma OneWord(s: string, sep: char -> bool)
    requires s != "" && Free(s, sep)
    ensures Words(s, sep) == [s]
  {
    SplitFree(s, sep);
    NonEmptyAll([s]);
  }

  lemma WordThenRest(s: string, c: char, rest: string, sep: char -> bool)
    requires s != "" && Free(s, sep) && sep(c)
    ensures Words(s + [c] + rest, sep) == [s] + Words(rest, sep)
  {
    WordsAppend(s, c, rest, sep);
    OneWord(s, sep);
  }

  lemma LeadingSeparator(c: char, rest: string, sep: char -> bool)
    requires sep(c)
    ensures Words([c] + rest, sep) == Words(rest, sep)
  {
    assert ([c] + rest)[1..] == rest;
  }

  // The first piece reaches to the first separator.
  lemma {:induction false} FirstPiece(s: string, sep: char -> bool)
    ensures var p := SplitBy(s, sep);
            p[0] <= s && Free(p[0], sep) && if |p[0]| == |s| then p == [s] else sep(s[|p[0]|])
  {
    if s != "" {
      FirstPiece(s[1..], sep);
      assert s == [s[0]] + s[1..];
    }
  }

  // So a text that starts with none starts with its first word.
  lemma FirstWord(s: string, sep: char -> bool)
    requires s != "" && !sep(s[0])
    ensures var w := Words(s, sep);
            w != [] && w[0] <= s && if |w[0]| == |s| then w == [s] else sep(s[|w[0]|])
  {
    var p := SplitBy(s, sep);
    FirstPiece(s, sep);
    assert p[0] != "";
    if |p[0]| == |s| {
      NonEmptyAll([s]);
    }
  }

  lemma {:induction false} AWord(s: string, k: nat, sep: char -> bool)
    requires k < |s| && !sep(s[k])
    ensures Words(s, sep) != []
  {
    if !sep(s[0]) {
      FirstWord(s, sep);
    } else {
      AWord(s[1..], k - 1, sep);
    }
  }

  // ---- trimming ----------------------------------------------------------

  function TrimStart(s: string): string {
    if s != "" && IsWhitespace(s[0]) then TrimStart(s[1..]) else s
  }

  function TrimEnd(s: string): string {
    if s != "" && IsWhitespace(s[|s| - 1]) then TrimEnd(s[..|s| - 1]) else s
  }

  function Trim(s: string): string {
    TrimEnd(TrimStart(s))
  }

  // A text with no whitespace at either end.
  predicate Trimmed(s: string) {
    s != "" ==> !IsWhitespace(s[0]) && !IsWhitespace(s[|s| - 1])
  }

  lemma TrimOfTrimmed(s: string)
    requires Trimmed(s)
    ensures Trim(s) == s
  {
  }

  // Trailing whitespace never changes what a trim leaves.
  lemma {:induction false} TrimIgnoresTail(s: string, c: char)
    requires IsWhitespace(c)
    ensures Trim(s + [c]) == Trim(s)
  {
    if s == "" {
      assert TrimStart([c]) == TrimStart([c][1..]) == "";
    } else if IsWhitespace(s[0]) {
      assert (s + [c])[1..] == s[1..] + [c];
      TrimIgnoresTail(s[1..], c);
    } else {
      assert (s + [c])[..|s|] == s;
    }
  }

  lemma TrimIsTrimmed(s: string)
    ensures Trimmed(Trim(s))
  {
    TrimStartFirst(s);
    TrimEndEnds(TrimStart(s));
  }

  lemma {:induction false} TrimStartFirst(s: string)
    ensures var r := TrimStart(s); r != "" ==> !IsWhitespace(r[0])
  {
    if s != "" && IsWhitespace(s[0]) {
      TrimStartFirst(s[1..]);
    }
  }

  lemma {:induction false} TrimEndEnds(s: string)
    requires s != "" ==> !IsWhitespace(s[0])
    ensures Trimmed(TrimEnd(s))
    ensures s != "" ==> TrimEnd(s) != ""
  {
    if s != "" && IsWhitespace(s[|s| - 1]) {
      TrimEndEnds(s[..|s| - 1]);
    }
  }

  lemma {:induction false} WordsOfTrimStart(s: string)
    ensures Words(TrimStart(s), IsWhitespace) == Words(s, IsWhitespace)
  {
    if s != "" && IsWhitespace(s[0]) {
      WordsOfTrimStart(s[1..]);
    }
  }

  lemma {:induction false} WordsOfTrimEnd(s: string)
    ensures Words(TrimEnd(s), IsWhitespace) == Words(s, IsWhitespace)
  {
    if s != "" && IsWhitespace(s[|s| - 1]) {
      var n := |s| - 1;
      WordsOfTrimEnd(s[..n]);
      assert s == s[..n] + [s[n]] + "";
      WordsAppend(s[..n], s[n], "", IsWhitespace);
      WordsOfBlank(IsWhitespace);
    }
  }

  // Outer white space does not change the words.
  lemma WordsOfTrim(s: string)
    ensures Words(Trim(s), IsWhitespace) == Words(s, IsWhitespace)
  {
    WordsOfTrimStart(s);
    WordsOfTrimEnd(TrimStart(s));
  }

  // A trimmed text is one word or none, or holds white space between two.
  lemma WordsOfTrimmed(s: string)
    requires Trimmed(s)
    ensures var w := Words(s, IsWhitespace);
            if s == "" then w == [] else if Free(s, IsWhitespace) then w == [s] else |w| >= 2
  {
    if s == "" {
      WordsOfBlank(IsWhitespace);
    } else if Free(s, IsWhitespace) {
      OneWord(s, IsWhitespace);
    } else {
      var i :| 0 <= i < |s| && IsWhitespace(s[i]);
      assert s == s[..i] + [s[i]] + s[i + 1..];
      WordsAppend(s[..i], s[i], s[i + 1..], IsWhitespace);
      AWord(s[..i], 0, IsWhitespace);
      AWord(s[i + 1..], |s| - i - 2, IsWhitespace);
    }
  }

  // ---- numerals ----------------------------------------------------------

  function DigitChar(d: nat): char
    requires d < 16
  {
    "0123456789abcdef"[d]
  }

  // The value of a digit in any base up to 16; upper case counts as hex too.
  function DigitValue(c: char): Option<nat> {
    if '0' <= c <= '9' then Some(c as int - '0' as int)
    else if 'a' <= c <= 'f' then Some(c as int - 'a' as int + 10)
    else if 'A' <= c <= 'F' then Some(c as int - 'A' as int + 10)
    else None
  }

  lemma DigitReadsBack(d: nat)
    requires d < 16
    ensures DigitValue(DigitChar(d)) == Some(d) && IsLowerHex(DigitChar(d))
  {
  }

  predicate IsDigit(c: char, base: nat) {
    DigitValue(c).Some? && DigitValue(c).value < base
  }

  predicate AllDigits(s: string, base: nat) {
    forall i | 0 <= i < |s| :: IsDigit(s[i], base)
  }

  // The bases in use.
  type Base = b: nat | b == 10 || b == 16 witness 10

  function Times(n: nat, base: Base): nat {
    if base == 10 then 10 * n else 16 * n
  }

  function Quotient(n: nat, base: Base): (q: nat)
    ensures Times(q, base) + Remainder(n, base) == n
    ensures n >= base ==> 0 < q < n
  {
    if base == 10 then n / 10 else n / 16
  }

  function Remainder(n: nat, base: Base): (r: nat)
    ensures r < base
  {
    if base == 10 then n % 10 else n % 16
  }

  // The shortest numeral of `n`, lower case.
  function Numeral(n: nat, base: Base): (s: string)
    ensures s != ""
  {
    if n < base then [DigitChar(n)]
    else Numeral(Quotient(n, base), base) + [DigitChar(Remainder(n, base))]
  }

  function NumeralValue(s: string, base: Base): nat
    requires AllDigits(s, base)
  {
    if s == "" then 0
    else Times(NumeralValue(s[..|s| - 1], base), base) + DigitValue(s[|s| - 1]).value
  }

  // The characters a numeral may use, as the names and addresses rely on.
  predicate IsLowerHex(c: char) {
    '0' <= c <= '9' || 'a' <= c <= 'f'
  }

  lemma {:induction false} NumeralDigits(n: nat, base: Base)
    ensures AllDigits(Numeral(n, base), base)
    ensures forall i | 0 <= i < |Numeral(n, base)| :: IsLowerHex(Numeral(n, base)[i])
    ensures n > 0 || |Numeral(n, base)| > 1 ==> Numeral(n, base)[0] != '0'
    decreases n
  {
    if n >= base {
      NumeralDigits(Quotient(n, base), base);
      DigitReadsBack(Remainder(n, base));
    } else {
      DigitReadsBack(n);
    }
  }

  lemma ValueSnoc(s: string, d: nat, base: Base)
    requires d < base && AllDigits(s, base)
    ensures AllDigits(s + [DigitChar(d)], base)
    ensures NumeralValue(s + [DigitChar(d)], base) == Times(NumeralValue(s, base), base) + d
  {
    DigitReadsBack(d);
    assert (s + [DigitChar(d)])[..|s|] == s;
  }

  // The two-way meaning of a numeral: it reads back as its number.
  lemma {:induction false} NumeralReadsBack(n: nat, base: Base)
    ensures AllDigits(Numeral(n, base), base)
    ensures NumeralValue(Numeral(n, base), base) == n
    decreases n
  {
    if n < base {
      ValueSnoc("", n, base);
      assert "" + [DigitChar(n)] == [DigitChar(n)];
    } else {
      NumeralReadsBack(Quotient(n, base), base);
      ValueSnoc(Numeral(Quotient(n, base), base), Remainder(n, base), base);
    }
  }

  lemma ValueOfDigits(s: string, base: Base)
    requires s != "" && AllDigits(s, base) && s[0] != '0'
    ensures NumeralValue(s, base) > 0
  {
    if |s| > 1 {
      ValueOfDigits(s[..|s| - 1], base);
    }
  }

  // Decimal digits without a leading zero are the numeral of their value.
  lemma {:induction false} DecimalIsUnique(s: string)
    requires s != "" && AllDigits(s, 10) && (s[0] != '0' || |s| == 1)
    ensures Numeral(NumeralValue(s, 10), 10) == s
  {
    var n := |s| - 1;
    if n > 0 {
      DigitPrintsBack(s[n]);
      DecimalIsUnique(s[..n]);
      ValueOfDigits(s[..n], 10);
      NumeralSnoc(NumeralValue(s[..n], 10), DigitValue(s[n]).value);
      assert s == s[..n] + [s[n]];
    } else {
      OneDigitIsUnique(s);
    }
  }

  lemma OneDigitIsUnique(s: string)
    requires |s| == 1 && AllDigits(s, 10)
    ensures Numeral(NumeralValue(s, 10), 10) == s
  {
    DigitPrintsBack(s[0]);
    assert s[..0] == "" && s == [s[0]];
  }

  lemma DigitPrintsBack(c: char)
    requires IsDigit(c, 10)
    ensures DigitChar(DigitValue(c).value) == c
  {
  }

  lemma NumeralSnoc(m: nat, d: nat)
    requires m > 0 && d < 10
    ensures Numeral(Times(m, 10) + d, 10) == Numeral(m, 10) + [DigitChar(d)]
  {
    assert Quotient(Times(m, 10) + d, 10) == m && Remainder(Times(m, 10) + d, 10) == d;
  }

  function Power(base: Base, k: nat): nat {
    if k == 0 then 1 else Times(Power(base, k - 1), base)
  }

  lemma {:induction false} NumeralLength(n: nat, base: Base, k: nat)
    requires k > 0 && n < Power(base, k)
    ensures |Numeral(n, base)| <= k
    decreases k
  {
    if n >= base {
      NumeralLength(Quotient(n, base), base, k - 1);
    }
  }

  // Two texts cut at their last dash agree when the tails hold none: what
  // makes `<version>-<suffix>` names unambiguous although versions hold dashes.
  lemma LastDash(a: string, b: string, x: string, y: string)
    requires a + "-" + x == b + "-" + y
    requires '-' !in x && '-' !in y
    ensures a == b && x == y
  {
    var s := a + "-" + x;
    assert s[|a|] == '-' && (b + "-" + y)[|b|] == '-';
    assert forall i | |a| < i < |s| :: s[i] == x[i - |a| - 1];
    assert forall i | |b| < i < |s| :: s[i] == y[i - |b| - 1];
    assert a == s[..|a|] && b == s[..|b|];
    assert x == s[|a| + 1..] && y == s[|b| + 1..];
  }
}
