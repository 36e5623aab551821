// Nameservers for the build VM: discovery, filtering and the resolver
// configuration texts they are read from.
module Dns {
  import opened Text
  import opened Address

  const MAX_NAMESERVERS := 3
  const FALLBACK := V4([1, 1, 1, 1])

  // ---- lines -------------------------------------------------------------

  function Chomp(line: string): string {
    if line != "" && line[|line| - 1] == '\r' then line[..|line| - 1] else line
  }

  function ChompAll(lines: seq<string>): (r: seq<string>)
    ensures |r| == |lines|
    ensures forall i | 0 <= i < |lines| :: r[i] == Chomp(lines[i])
  {
    seq(|lines|, i requires 0 <= i < |lines| => Chomp(lines[i]))
  }

  // `str::lines`: terminated lines lose their ending, a last unterminated one
  // stays as it is, and nothing follows a final newline.
  function Lines(text: string): seq<string> {
    var p := SplitBy(text, Is('\n'));
    var n := |p| - 1;
    ChompAll(p[..n]) + if p[n] == "" then [] else [p[n]]
  }

  // `filter_map` over lines.
  function FilterMap(lines: seq<string>, f: string -> Option<IpAddr>): seq<IpAddr> {
    if lines == [] then []
    else (match f(lines[0]) case Some(a) => [a] case None => []) + FilterMap(lines[1..], f)
  }

  lemma {:induction false} FilterMapAppend(xs: seq<string>, ys: seq<string>, f: string -> Option<IpAddr>)
    ensures FilterMap(xs + ys, f) == FilterMap(xs, f) + FilterMap(ys, f)
  {
    if xs == [] {
      assert xs + ys == ys;
    } else {
      assert (xs + ys)[1..] == xs[1..] + ys;
      FilterMapAppend(xs[1..], ys, f);
    }
  }

  lemma {:induction false} FilterMapSame(xs: seq<string>, ys: seq<string>, f: string -> Option<IpAddr>)
    requires |xs| == |ys| && forall i | 0 <= i < |xs| :: f(xs[i]) == f(ys[i])
    ensures FilterMap(xs, f) == FilterMap(ys, f)
  {
    if xs != [] {
      FilterMapSame(xs[1..], ys[1..], f);
    }
  }

  // A line reader to which a blank line and a CRLF ending mean nothing.
  ghost predicate EndingBlind(f: string -> Option<IpAddr>) {
    f("") == None && forall l: string {:trigger f(l + "\r")} :: f(l + "\r") == f(l)
  }

  // Reading a text is reading each of its lines, however it is terminated.
  lemma TextLineByLine(text: string, f: string -> Option<IpAddr>)
    requires EndingBlind(f)
    ensures FilterMap(Lines(text), f) == FilterMap(SplitBy(text, Is('\n')), f)
  {
    var p := SplitBy(text, Is('\n'));
    var n := |p| - 1;
    forall i | 0 <= i < n ensures f(Chomp(p[i])) == f(p[i]) {
      if Chomp(p[i]) != p[i] {
        assert Chomp(p[i]) + "\r" == p[i];
      }
    }
    FilterMapSame(ChompAll(p[..n]), p[..n], f);
    FilterMapAppend(ChompAll(p[..n]), if p[n] == "" then [] else [p[n]], f);
    FilterMapAppend(p[..n], [p[n]], f);
    assert p == p[..n] + [p[n]];
    assert [p[n]][1..] == [];
  }

  // So reading is a homomorphism at line ends.
  lemma TextConcat(a: string, b: string, f: string -> Option<IpAddr>)
    requires EndingBlind(f)
    ensures FilterMap(Lines(Ln(a, b)), f) == FilterMap(Lines(a), f) + FilterMap(Lines(b), f)
  {
    TextLineByLine(a, f);
    TextLineByLine(b, f);
    TextLineByLine(Ln(a, b), f);
    SplitAppend(a, '\n', b, Is('\n'));
    FilterMapAppend(SplitBy(a, Is('\n')), SplitBy(b, Is('\n')), f);
  }

  lemma TextOfOneLine(c: string, f: string -> Option<IpAddr>)
    requires EndingBlind(f) && Free(c, Is('\n'))
    ensures FilterMap(Lines(c), f) == match f(c) case Some(a) => [a] case None => []
  {
    TextLineByLine(c, f);
    SplitFree(c, Is('\n'));
    assert [c][1..] == [];
  }

  // A line standing between two texts adds what it says, in its place.
  lemma TextLineBetween(a: string, c: string, b: string, f: string -> Option<IpAddr>)
    requires EndingBlind(f) && Free(c, Is('\n'))
    ensures FilterMap(Lines(Ln(Ln(a, c), b)), f)
            == FilterMap(Lines(a), f) + (match f(c) case Some(x) => [x] case None => []) + FilterMap(Lines(b), f)
  {
    TextOfOneLine(c, f);
    TextConcat(a, c, f);
    TextConcat(Ln(a, c), b, f);
  }

  // ---- resolv.conf -------------------------------------------------------

  const DIRECTIVE := "nameserver"

  predicate IsCommentSign(c: char) {
    c == '#' || c == ';'
  }

  // Everything before the first comment sign.
  function Uncommented(s: string): string {
    if s == "" || IsCommentSign(s[0]) then "" else [s[0]] + Uncommented(s[1..])
  }

  function ParseLine(line: string): Option<IpAddr> {
    ParseDirective(Trim(Uncommented(line)))
  }

  function ParseDirective(l: string): Option<IpAddr> {
    if !(DIRECTIVE <= l) then None
    else
      var rest := l[|DIRECTIVE|..];
      if rest == "" || !IsWhitespace(rest[0]) then None else Parse(Trim(rest))
  }

  function ParseResolvConf(text: string): seq<IpAddr> {
    FilterMap(Lines(text), ParseLine)
  }

  lemma {:induction false} UncommentedAppend(a: string, x: string)
    ensures Uncommented(a + x) == if Free(a, IsCommentSign) then a + Uncommented(x) else Uncommented(a)
  {
    if a == "" {
      assert a + x == x;
    } else {
      assert (a + x)[1..] == a[1..] + x && (a + x)[0] == a[0];
      UncommentedAppend(a[1..], x);
      assert Free(a, IsCommentSign) <==> !IsCommentSign(a[0]) && Free(a[1..], IsCommentSign) by {
        assert forall i | 1 <= i < |a| :: a[i] == a[1..][i - 1];
      }
      assert a == [a[0]] + a[1..];
    }
  }

  lemma {:induction false} UncommentedFree(a: string)
    requires Free(a, IsCommentSign)
    ensures Uncommented(a) == a
  {
    UncommentedAppend(a, "");
    assert a + "" == a;
  }

  // A comment, or the carriage return of a CRLF ending, says nothing.
  predicate SaysNothing(x: string) {
    x != "" && (x == "\r" || IsCommentSign(x[0])) && Free(x, Is('\n'))
  }

  // A comment runs from the first '#' or ';' on, and nothing else starts one.
  lemma {:induction false} UncommentedExactly(line: string)
    ensures var u := Uncommented(line);
            u <= line && '#' !in u && ';' !in u && (|u| < |line| ==> line[|u|] == '#' || line[|u|] == ';')
  {
    if line != "" && !IsCommentSign(line[0]) {
      UncommentedExactly(line[1..]);
      assert line == [line[0]] + line[1..];
    }
  }

  lemma LineTailIgnored(line: string, x: string)
    requires SaysNothing(x)
    ensures ParseLine(line + x) == ParseLine(line)
  {
    UncommentedAppend(line, x);
    if Free(line, IsCommentSign) {
      UncommentedFree(line);
      if x == "\r" {
        assert Uncommented(x) == x by { assert x[1..] == ""; }
        TrimIgnoresTail(line, '\r');
      } else {
        assert line + "" == line;
      }
    }
  }

  lemma ParseLineEndingBlind()
    ensures EndingBlind(ParseLine)
  {
    forall l: string ensures ParseLine(l + "\r") == ParseLine(l) {
      LineTailIgnored(l, "\r");
    }
  }

  // Main result: parsing is a homomorphism at line ends.
  lemma ResolvConfConcat(a: string, b: string)
    ensures ParseResolvConf(Ln(a, b)) == ParseResolvConf(a) + ParseResolvConf(b)
  {
    ParseLineEndingBlind();
    TextConcat(a, b, ParseLine);
  }

  lemma {:induction false} SplitSuffix(a: string, x: string, sep: char -> bool)
    requires Free(x, sep)
    ensures var p := SplitBy(a, sep); SplitBy(a + x, sep) == p[..|p| - 1] + [p[|p| - 1] + x]
  {
    if a == "" {
      SplitFree(x, sep);
      assert a + x == x;
    } else {
      assert (a + x)[1..] == a[1..] + x && (a + x)[0] == a[0];
      SplitSuffix(a[1..], x, sep);
      PiecesSuffix(SplitBy(a[1..], sep), a[0], x);
    }
  }

  // The two ways a first character joins the pieces of what follows.
  lemma PiecesSuffix(rest: seq<string>, c: char, x: string)
    requires rest != []
    ensures var n, ext := |rest| - 1, rest[..|rest| - 1] + [rest[|rest| - 1] + x];
            && ([""] + rest)[..n + 1] + [([""] + rest)[n + 1] + x] == [""] + ext
            && var p := [[c] + rest[0]] + rest[1..];
               p[..n] + [p[n] + x] == [[c] + ext[0]] + ext[1..]
  {
    if |rest| == 1 {
      assert [c] + (rest[0] + x) == [c] + rest[0] + x;
    }
  }

  lemma LastLineNoise(a: string, x: string)
    requires SaysNothing(x)
    ensures ParseResolvConf(a + x) == ParseResolvConf(a)
  {
    ParseLineEndingBlind();
    TextLineByLine(a + x, ParseLine);
    TextLineByLine(a, ParseLine);
    SplitSuffix(a, x, Is('\n'));
    var p := SplitBy(a, Is('\n'));
    LineTailIgnored(p[|p| - 1], x);
    LastPieceReplaced(p, p[|p| - 1] + x, ParseLine);
  }

  lemma LastPieceReplaced(p: seq<string>, last: string, f: string -> Option<IpAddr>)
    requires p != [] && f(last) == f(p[|p| - 1])
    ensures FilterMap(p[..|p| - 1] + [last], f) == FilterMap(p, f)
  {
    var q := p[..|p| - 1] + [last];
    forall i | 0 <= i < |p| ensures f(p[i]) == f(q[i]) {
      assert q[i] == if i < |p| - 1 then p[i] else last;
    }
    FilterMapSame(p, q, f);
  }

  // A text of one line gives what that line gives.
  lemma ResolvConfLine(c: string)
    requires Free(c, Is('\n'))
    ensures ParseResolvConf(c) == match ParseLine(c) case Some(a) => [a] case None => []
  {
    ParseLineEndingBlind();
    TextOfOneLine(c, ParseLine);
  }

  // A comment or a CRLF ending may be added at any line end without changing
  // what is read.
  lemma LineEndNoise(a: string, x: string, b: string)
    requires SaysNothing(x)
    ensures ParseResolvConf(Ln(a + x, b)) == ParseResolvConf(Ln(a, b))
  {
    LastLineNoise(a, x);
    ResolvConfConcat(a + x, b);
    ResolvConfConcat(a, b);
  }

  // A line that gives no address may be inserted anywhere.
  lemma SilentLineInserted(a: string, c: string, b: string)
    requires Free(c, Is('\n')) && ParseLine(c) == None
    ensures ParseResolvConf(Ln(Ln(a, c), b)) == ParseResolvConf(Ln(a, b))
  {
    ResolvConfLine(c);
    ResolvConfConcat(a, c);
    ResolvConfConcat(Ln(a, c), b);
    ResolvConfConcat(a, b);
  }

  // An address is one word.
  lemma ParseOfTrimmed(a: string)
    requires Trimmed(a)
    ensures var w := Words(a, IsWhitespace); Parse(a) == if |w| == 1 then Parse(w[0]) else None
  {
    WordsOfTrimmed(a);
    if a == "" {
      assert SplitBy("", Is('.')) == [""] && SplitBy("", Is(':')) == [""];
    } else if !Free(a, IsWhitespace) {
      var i :| 0 <= i < |a| && IsWhitespace(a[i]);
      ForeignIsNotAddress(a, a[i]);
    }
  }

  lemma DirectiveWords(directive: string, rest: string)
    requires directive != "" && Free(directive, IsWhitespace) && rest != "" && IsWhitespace(rest[0])
    ensures Words(directive + rest, IsWhitespace) == [directive] + Words(Trim(rest), IsWhitespace)
  {
    var c, tail := rest[0], rest[1..];
    assert rest == [c] + tail && directive + rest == directive + [c] + tail;
    WordThenRest(directive, c, tail, IsWhitespace);
    LeadingSeparator(c, tail, IsWhitespace);
    WordsOfTrim(rest);
  }

  lemma FirstOfTwo(l: string)
    requires Trimmed(l) && |Words(l, IsWhitespace)| == 2
    ensures var d := Words(l, IsWhitespace)[0]; d <= l && |d| < |l| && IsWhitespace(l[|d|])
  {
    WordsOfTrimmed(l);
    FirstWord(l, IsWhitespace);
  }

  lemma DirectiveByWords(l: string)
    requires Trimmed(l)
    ensures var w := Words(l, IsWhitespace);
            ParseDirective(l) == if |w| == 2 && w[0] == DIRECTIVE then Parse(w[1]) else None
  {
    WordsOfTrimmed(l);
    if |Words(l, IsWhitespace)| == 2 {
      FirstOfTwo(l);
    }
    if DIRECTIVE <= l {
      var rest := l[|DIRECTIVE|..];
      assert l == DIRECTIVE + rest;
      if rest != "" && IsWhitespace(rest[0]) {
        WordsAfter(DIRECTIVE, rest);
      }
    }
  }

  lemma WordsAfter(directive: string, rest: string)
    requires directive != "" && Free(directive, IsWhitespace) && rest != "" && IsWhitespace(rest[0])
    ensures var w := Words(directive + rest, IsWhitespace);
            w != [] && w[0] == directive && Parse(Trim(rest)) == if |w| == 2 then Parse(w[1]) else None
  {
    DirectiveWords(directive, rest);
    TrimIsTrimmed(rest);
    ParseOfTrimmed(Trim(rest));
  }

  // What a line says, by its words: a line speaks exactly when, up to a
  // comment, it is two words, the directive and an address.
  lemma SpeakingLines(line: string)
    ensures var w := Words(Uncommented(line), IsWhitespace);
            ParseLine(line) == if |w| == 2 && w[0] == "nameserver" then Parse(w[1]) else None
  {
    WordsOfTrim(Uncommented(line));
    TrimIsTrimmed(Uncommented(line));
    DirectiveByWords(Trim(Uncommented(line)));
  }

  // So blank lines, comments and other directives are silent.
  lemma OtherLinesSilent(line: string)
    requires var w := Words(Uncommented(line), IsWhitespace); w == [] || w[0] != "nameserver"
    ensures ParseLine(line) == None
    ensures Free(line, Is('\n')) ==>
              forall a, b :: ParseResolvConf(Ln(Ln(a, line), b)) == ParseResolvConf(Ln(a, b))
  {
    SpeakingLines(line);
    if Free(line, Is('\n')) {
      forall a, b ensures ParseResolvConf(Ln(Ln(a, line), b)) == ParseResolvConf(Ln(a, b)) {
        SilentLineInserted(a, line, b);
      }
    }
  }

  // ---- the text the guest writes -----------------------------------------

  function NameserverLine(word: string): string {
    "nameserver " + word
  }

  function ResolvConfText(words: seq<string>): string {
    if words == [] then "" else Ln(NameserverLine(words[0]), ResolvConfText(words[1..]))
  }

  function Texts(addrs: seq<IpAddr>): (r: seq<string>)
    ensures |r| == |addrs|
    ensures forall i | 0 <= i < |addrs| :: r[i] == Print(addrs[i])
  {
    seq(|addrs|, i requires 0 <= i < |addrs| => Print(addrs[i]))
  }

  lemma AddressTextIsPlain(s: string)
    requires AddressText(s)
    ensures Trimmed(s) && Trim(s) == s && Free(s, IsCommentSign) && Free(s, Is('\n')) && Free(s, Is(' '))
  {
    forall i | 0 <= i < |s| ensures !IsWhitespace(s[i]) && !IsCommentSign(s[i]) && s[i] != '\n' && s[i] != ' ' {
      assert AddressChar(s[i]);
    }
    TrimOfTrimmed(s);
  }

  lemma DirectiveReads(text: string)
    requires AddressText(text)
    ensures ParseLine(NameserverLine(text)) == Parse(text)
    ensures Free(NameserverLine(text), Is('\n'))
  {
    AddressTextIsPlain(text);
    var line := NameserverLine(text);
    NameserverLineFree(text);
    UncommentedFree(line);
    TrimOfTrimmed(line);
    assert line[|DIRECTIVE|..] == " " + text;
    assert (" " + text)[1..] == text && TrimStart(" " + text) == TrimStart(text);
  }

  lemma NameserverLineFree(text: string)
    requires Free(text, IsCommentSign) && Free(text, Is('\n'))
    ensures Free(NameserverLine(text), IsCommentSign) && Free(NameserverLine(text), Is('\n'))
  {
    assert Free("nameserver ", IsCommentSign) && Free("nameserver ", Is('\n'));
    FreeConcat("nameserver ", text, IsCommentSign);
    FreeConcat("nameserver ", text, Is('\n'));
  }

  lemma NameserverLineReads(addr: IpAddr)
    ensures ParseLine(NameserverLine(Print(addr))) == Some(addr)
    ensures Free(NameserverLine(Print(addr)), Is('\n'))
  {
    PrintCharacters(addr);
    DirectiveReads(Print(addr));
    AddressReadsBack(addr);
  }

  // The list written one line an address reads back as itself.
  lemma {:induction false} ResolvConfReadsBack(addrs: seq<IpAddr>)
    ensures ParseResolvConf(ResolvConfText(Texts(addrs))) == addrs
  {
    if addrs == [] {
      EmptyFile();
    } else {
      ResolvConfReadsBack(addrs[1..]);
      assert Texts(addrs)[1..] == Texts(addrs[1..]);
      NameserverLineFirst(addrs[0], ResolvConfText(Texts(addrs[1..])));
      assert [addrs[0]] + addrs[1..] == addrs;
    }
  }

  lemma NameserverLineFirst(addr: IpAddr, rest: string)
    ensures ParseResolvConf(Ln(NameserverLine(Print(addr)), rest)) == [addr] + ParseResolvConf(rest)
  {
    var line := NameserverLine(Print(addr));
    NameserverLineReads(addr);
    ResolvConfLine(line);
    ResolvConfConcat(line, rest);
  }

  lemma EmptyFile()
    ensures ParseResolvConf("") == []
  {
    assert SplitBy("", Is('\n')) == [""];
  }

  // ---- scutil --dns ------------------------------------------------------

  // What follows the first occurrence of `pattern`.
  function After(s: string, pattern: string): Option<string> {
    if pattern <= s then Some(s[|pattern|..])
    else if s == "" then None
    else After(s[1..], pattern)
  }

  const OPENING := "nameserver["

  function ParseScutilLine(line: string): Option<IpAddr> {
    ParseUnindented(TrimStart(line))
  }

  function ParseScutil(output: string): seq<IpAddr> {
    FilterMap(Lines(output), ParseScutilLine)
  }

  lemma PrefixTail(s: string, pattern: string, c: char)
    requires c !in pattern
    ensures pattern <= s + [c] <==> pattern <= s
  {
    if |pattern| == |s| + 1 {
      assert pattern[|s|] in pattern;
    }
  }

  lemma {:induction false} AfterTail(s: string, pattern: string, c: char)
    requires pattern != "" && c !in pattern
    ensures After(s + [c], pattern) == match After(s, pattern) case Some(r) => Some(r + [c]) case None => None
  {
    PrefixTail(s, pattern, c);
    if pattern <= s {
      assert (s + [c])[|pattern|..] == s[|pattern|..] + [c];
    } else if s != "" {
      assert (s + [c])[1..] == s[1..] + [c];
      AfterTail(s[1..], pattern, c);
    } else {
      assert (s + [c])[1..] == "";
    }
  }

  lemma {:induction false} TrimStartTail(s: string, c: char)
    requires IsWhitespace(c)
    ensures TrimStart(s + [c]) == if TrimStart(s) == "" then "" else TrimStart(s) + [c]
  {
    if s == "" {
      assert TrimStart([c]) == TrimStart([c][1..]);
    } else if IsWhitespace(s[0]) {
      assert (s + [c])[1..] == s[1..] + [c];
      TrimStartTail(s[1..], c);
    }
  }

  // What follows the indentation of a line.
  function ParseUnindented(l: string): Option<IpAddr> {
    if !(OPENING <= l) then None
    else
      match After(l[|OPENING|..], " : ")
      case None => None
      case Some(addr) => Parse(Trim(addr))
  }

  lemma UnindentedTail(l: string)
    ensures ParseUnindented(l + ['\r']) == ParseUnindented(l)
  {
    PrefixTail(l, OPENING, '\r');
    if OPENING <= l {
      var rest := l[|OPENING|..];
      assert (l + ['\r'])[|OPENING|..] == rest + ['\r'];
      AfterTail(rest, " : ", '\r');
      if After(rest, " : ").Some? {
        TrimIgnoresTail(After(rest, " : ").value, '\r');
      }
    }
  }

  lemma ScutilEndingBlind()
    ensures EndingBlind(ParseScutilLine)
  {
    forall line: string ensures ParseScutilLine(line + "\r") == ParseScutilLine(line) {
      TrimStartTail(line, '\r');
      UnindentedTail(TrimStart(line));
    }
  }

  lemma {:induction false} AfterSkips(s: string, pattern: string, t: string)
    requires pattern != "" && Free(s, Is(pattern[0]))
    ensures After(s + pattern + t, pattern) == Some(t)
  {
    var u := s + pattern + t;
    if s == "" {
      assert u[..|pattern|] == pattern && u[|pattern|..] == t;
    } else {
      assert u[0] == s[0] && u[1..] == s[1..] + pattern + t;
      AfterSkips(s[1..], pattern, t);
    }
  }

  lemma {:induction false} IndentTrimmed(indent: string, s: string)
    requires forall i | 0 <= i < |indent| :: IsWhitespace(indent[i])
    requires s != "" && !IsWhitespace(s[0])
    ensures TrimStart(indent + s) == s
  {
    if indent != "" {
      assert (indent + s)[1..] == indent[1..] + s;
      IndentTrimmed(indent[1..], s);
    } else {
      assert indent + s == s;
    }
  }

  // One nameserver line of the tool, at any indentation and index.
  function ScutilEntry(index: nat, text: string): string {
    OPENING + ((Numeral(index, 10) + "]") + " : " + text)
  }

  function ScutilLine(indent: string, index: nat, addr: IpAddr): string {
    indent + ScutilEntry(index, Print(addr))
  }

  lemma ScutilEntryReads(index: nat, text: string)
    requires AddressText(text)
    ensures ParseUnindented(ScutilEntry(index, text)) == Parse(text)
    ensures ScutilEntry(index, text)[0] == 'n'
  {
    var s := Numeral(index, 10) + "]";
    var l, tail := ScutilEntry(index, text), s + " : " + text;
    NumeralIsFree(index, 10, ' ');
    FreeConcat(Numeral(index, 10), "]", Is(' '));
    assert l[..|OPENING|] == OPENING && l[|OPENING|..] == tail;
    AfterSkips(s, " : ", text);
    AddressTextIsPlain(text);
  }

  lemma ScutilLineReads(indent: string, index: nat, addr: IpAddr)
    requires forall i | 0 <= i < |indent| :: IsWhitespace(indent[i])
    ensures ParseScutilLine(ScutilLine(indent, index, addr)) == Some(addr)
  {
    PrintCharacters(addr);
    AddressReadsBack(addr);
    ScutilEntryReads(index, Print(addr));
    IndentTrimmed(indent, ScutilEntry(index, Print(addr)));
  }

  lemma ScutilLineFree(indent: string, index: nat, addr: IpAddr)
    requires Free(indent, Is('\n'))
    ensures Free(ScutilLine(indent, index, addr), Is('\n'))
  {
    PrintCharacters(addr);
    AddressTextIsPlain(Print(addr));
    ScutilEntryFree(index, Print(addr));
    FreeConcat(indent, ScutilEntry(index, Print(addr)), Is('\n'));
  }

  lemma ScutilEntryFree(index: nat, text: string)
    requires Free(text, Is('\n'))
    ensures Free(ScutilEntry(index, text), Is('\n'))
  {
    NumeralIsFree(index, 10, '\n');
    assert Free(OPENING, Is('\n')) && Free("]", Is('\n')) && Free(" : ", Is('\n'));
    ScutilPartsFree(OPENING, Numeral(index, 10), "]", " : ", text, Is('\n'));
  }

  lemma ScutilPartsFree(a: string, b: string, c: string, d: string, e: string, sep: char -> bool)
    requires Free(a, sep) && Free(b, sep) && Free(c, sep) && Free(d, sep) && Free(e, sep)
    ensures Free(a + ((b + c) + d + e), sep)
  {
    FreeConcat(b, c, sep);
    FreeConcat(b + c, d, sep);
    FreeConcat(b + c + d, e, sep);
    FreeConcat(a, b + c + d + e, sep);
  }

  // `pre` ends where `pattern` occurs first in `s`.
  predicate SplitsAt(s: string, pre: string, pattern: string, post: string) {
    s == pre + pattern + post && forall k | 0 <= k < |pre| :: !(pattern <= s[k..])
  }

  lemma {:induction false} AfterExactly(s: string, pattern: string) returns (pre: string)
    requires After(s, pattern).Some?
    ensures SplitsAt(s, pre, pattern, After(s, pattern).value)
  {
    if pattern <= s {
      pre := "";
      assert s == "" + pattern + s[|pattern|..];
    } else {
      var rest := AfterExactly(s[1..], pattern);
      pre := [s[0]] + rest;
      assert s == pre + pattern + After(s, pattern).value;
      forall k | 0 <= k < |pre| ensures !(pattern <= s[k..]) {
        if k > 0 {
          assert s[k..] == s[1..][k - 1..];
        } else {
          assert s[0..] == s;
        }
      }
    }
  }

  lemma {:induction false} AfterFound(s: string, pre: string, pattern: string, post: string)
    requires SplitsAt(s, pre, pattern, post)
    ensures After(s, pattern) == Some(post)
    decreases |pre|
  {
    if pre == "" {
      assert s[..|pattern|] == pattern && s[|pattern|..] == post;
    } else {
      assert s[0..] == s;
      var rest := pre[1..];
      assert s[1..] == rest + pattern + post;
      forall k | 0 <= k < |rest| ensures !(pattern <= s[1..][k..]) {
        assert s[1..][k..] == s[k + 1..];
      }
      AfterFound(s[1..], rest, pattern, post);
    }
  }

  // What a line of the tool says: exactly when, past its indentation, it opens
  // with the word and a bracket, and an address follows the first " : ".
  lemma ScutilSpeaks(line: string, addr: IpAddr)
    ensures ParseScutilLine(line) == Some(addr) <==>
              exists index, text :: "nameserver[" <= TrimStart(line)
                                    && SplitsAt(TrimStart(line)[11..], index, " : ", text)
                                    && Parse(Trim(text)) == Some(addr)
  {
    var l := TrimStart(line);
    if "nameserver[" <= l {
      var rest := l[11..];
      if After(rest, " : ").Some? {
        var index := AfterExactly(rest, " : ");
      }
      forall index, text | SplitsAt(rest, index, " : ", text) ensures After(rest, " : ") == Some(text) {
        AfterFound(rest, index, " : ", text);
      }
    }
  }

  // Wherever it stands in the output, a nameserver line adds its address in
  // its place, and a line that is none adds nothing.
  lemma ScutilReads(before: string, indent: string, index: nat, addr: IpAddr, rest: string)
    requires Free(indent, Is('\n')) && forall i | 0 <= i < |indent| :: IsWhitespace(indent[i])
    ensures ParseScutil(Ln(Ln(before, ScutilLine(indent, index, addr)), rest))
            == ParseScutil(before) + [addr] + ParseScutil(rest)
  {
    ScutilEndingBlind();
    ScutilLineReads(indent, index, addr);
    ScutilLineFree(indent, index, addr);
    TextLineBetween(before, ScutilLine(indent, index, addr), rest, ParseScutilLine);
  }

  lemma ScutilNoise(before: string, noise: string, rest: string)
    requires Free(noise, Is('\n')) && ParseScutilLine(noise) == None
    ensures ParseScutil(Ln(Ln(before, noise), rest)) == ParseScutil(before) + ParseScutil(rest)
  {
    ScutilEndingBlind();
    TextLineBetween(before, noise, rest, ParseScutilLine);
  }

  // ---- filtering ---------------------------------------------------------

  function Usable(addrs: seq<IpAddr>): seq<IpAddr> {
    if addrs == [] then []
    else
      var n := |addrs| - 1;
      Usable(addrs[..n]) + if IsReachable(addrs[n]) then [addrs[n]] else []
  }

  // The first occurrence of every address.
  function Firsts(addrs: seq<IpAddr>): (r: seq<IpAddr>)
    ensures forall a :: a in r <==> a in addrs
  {
    if addrs == [] then []
    else
      var n := |addrs| - 1;
      Firsts(addrs[..n]) + if addrs[n] in addrs[..n] then [] else [addrs[n]]
  }

  function Take<T>(xs: seq<T>, n: nat): seq<T> {
    if |xs| <= n then xs else xs[..n]
  }

  // The first three of the first occurrences of the reachable addresses.
  function Sanitized(addrs: seq<IpAddr>): seq<IpAddr> {
    Take(Firsts(Usable(addrs)), MAX_NAMESERVERS)
  }

  lemma UsableSnoc(addrs: seq<IpAddr>, i: nat)
    requires i < |addrs|
    ensures Usable(addrs[..i + 1])
            == if IsReachable(addrs[i]) then Usable(addrs[..i]) + [addrs[i]] else Usable(addrs[..i])
  {
    assert addrs[..i + 1][..i] == addrs[..i];
  }

  lemma FirstsSnoc(xs: seq<IpAddr>, a: IpAddr)
    ensures Firsts(xs + [a]) == if a in xs then Firsts(xs) else Firsts(xs) + [a]
  {
    assert (xs + [a])[..|xs|] == xs;
  }

  lemma {:induction false} LaterOnlyAppends(addrs: seq<IpAddr>, i: nat)
    requires i <= |addrs|
    ensures Firsts(Usable(addrs[..i])) <= Firsts(Usable(addrs))
    decreases |addrs| - i
  {
    if i == |addrs| {
      assert addrs[..i] == addrs;
    } else {
      UsableSnoc(addrs, i);
      if IsReachable(addrs[i]) {
        FirstsSnoc(Usable(addrs[..i]), addrs[i]);
      }
      LaterOnlyAppends(addrs, i + 1);
      assert Firsts(Usable(addrs[..i])) <= Firsts(Usable(addrs[..i + 1]));
    }
  }

  lemma KeepStep(addrs: seq<IpAddr>, i: nat)
    requires i < |addrs|
    ensures var before, now := Firsts(Usable(addrs[..i])), Firsts(Usable(addrs[..i + 1]));
            now == if !IsReachable(addrs[i]) || addrs[i] in before then before else before + [addrs[i]]
  {
    UsableSnoc(addrs, i);
    FirstsSnoc(Usable(addrs[..i]), addrs[i]);
  }

  // The loop stops at three; it computes what looking at the whole list would.
  method Sanitize(addrs: seq<IpAddr>) returns (kept: seq<IpAddr>)
    ensures kept == Sanitized(addrs)
  {
    kept := [];
    for i := 0 to |addrs|
      invariant kept == Firsts(Usable(addrs[..i])) && |kept| < MAX_NAMESERVERS
    {
      KeepStep(addrs, i);
      if !IsReachable(addrs[i]) {
        continue;
      }
      if addrs[i] !in kept {
        kept := kept + [addrs[i]];
      }
      if |kept| == MAX_NAMESERVERS {
        LaterOnlyAppends(addrs, i + 1);
        return;
      }
    }
    assert addrs[..|addrs|] == addrs;
  }

  predicate NoRepeats(xs: seq<IpAddr>) {
    forall i, j | 0 <= i < j < |xs| :: xs[i] != xs[j]
  }

  predicate Subsequence(xs: seq<IpAddr>, ys: seq<IpAddr>) {
    if xs == [] then true
    else if ys == [] then false
    else if xs[|xs| - 1] == ys[|ys| - 1] then Subsequence(xs[..|xs| - 1], ys[..|ys| - 1])
    else Subsequence(xs, ys[..|ys| - 1])
  }

  lemma {:induction false} SubsequenceLonger(xs: seq<IpAddr>, ys: seq<IpAddr>, y: IpAddr)
    requires Subsequence(xs, ys)
    ensures Subsequence(xs, ys + [y])
    decreases |ys|, 1
  {
    assert (ys + [y])[..|ys|] == ys;
    if xs != [] && xs[|xs| - 1] == y {
      SubsequenceShorter(xs, ys);
    }
  }

  lemma {:induction false} SubsequenceShorter(xs: seq<IpAddr>, ys: seq<IpAddr>)
    requires xs != [] && Subsequence(xs, ys)
    ensures Subsequence(xs[..|xs| - 1], ys)
    decreases |ys|, 0
  {
    var n := |ys| - 1;
    assert ys[..n] + [ys[n]] == ys;
    if xs[|xs| - 1] == ys[n] {
      SubsequenceLonger(xs[..|xs| - 1], ys[..n], ys[n]);
    } else {
      SubsequenceShorter(xs, ys[..n]);
      SubsequenceLonger(xs[..|xs| - 1], ys[..n], ys[n]);
    }
  }

  lemma {:induction false} UsableMembers(addrs: seq<IpAddr>)
    ensures forall a :: a in Usable(addrs) <==> a in addrs && IsReachable(a)
  {
    if addrs != [] {
      var n := |addrs| - 1;
      UsableMembers(addrs[..n]);
      assert addrs == addrs[..n] + [addrs[n]];
    }
  }

  lemma {:induction false} FirstsNoRepeats(xs: seq<IpAddr>)
    ensures NoRepeats(Firsts(xs))
  {
    if xs != [] {
      FirstsNoRepeats(xs[..|xs| - 1]);
    }
  }

  lemma {:induction false} FirstsInOrder(addrs: seq<IpAddr>)
    ensures Subsequence(Firsts(Usable(addrs)), addrs)
  {
    if addrs != [] {
      var n := |addrs| - 1;
      FirstsInOrder(addrs[..n]);
      assert addrs == addrs[..n] + [addrs[n]];
      KeepStep(addrs, n);
      assert addrs[..n + 1] == addrs;
      SubsequenceSnoc(Firsts(Usable(addrs[..n])), addrs[..n], addrs[n]);
    }
  }

  lemma SubsequenceSnoc(xs: seq<IpAddr>, ys: seq<IpAddr>, a: IpAddr)
    requires Subsequence(xs, ys)
    ensures Subsequence(xs, ys + [a]) && Subsequence(xs + [a], ys + [a])
  {
    SubsequenceLonger(xs, ys, a);
    assert (xs + [a])[..|xs|] == xs && (ys + [a])[..|ys|] == ys;
  }

  lemma {:induction false} FirstsOfDistinct(xs: seq<IpAddr>)
    requires NoRepeats(xs)
    ensures Firsts(xs) == xs
  {
    if xs != [] {
      var n := |xs| - 1;
      FirstsOfDistinct(xs[..n]);
      assert xs == xs[..n] + [xs[n]];
      FirstsSnoc(xs[..n], xs[n]);
    }
  }

  lemma {:induction false} UsableOfReachable(xs: seq<IpAddr>)
    requires forall i | 0 <= i < |xs| :: IsReachable(xs[i])
    ensures Usable(xs) == xs
  {
    if xs != [] {
      var n := |xs| - 1;
      UsableOfReachable(xs[..n]);
      assert xs == xs[..n] + [xs[n]];
    }
  }

  lemma {:induction false} PrefixIsSubsequence(xs: seq<IpAddr>, k: nat, ys: seq<IpAddr>)
    requires k <= |xs| && Subsequence(xs, ys)
    ensures Subsequence(xs[..k], ys)
    decreases |xs|
  {
    if k < |xs| {
      SubsequenceShorter(xs, ys);
      assert xs[..|xs| - 1][..k] == xs[..k];
      PrefixIsSubsequence(xs[..|xs| - 1], k, ys);
    } else {
      assert xs[..k] == xs;
    }
  }

  // Main result: what the loop keeps is a repeat-free subsequence of reachable
  // addresses, as long as it may be, and filtering again changes nothing.
  lemma SanitizedMeaning(addrs: seq<IpAddr>)
    ensures var r := Sanitized(addrs);
            && |r| <= 3 && NoRepeats(r) && Subsequence(r, addrs)
            && (forall a | a in r :: a in addrs && IsReachable(a))
            && (|r| < 3 ==> forall a | a in addrs && IsReachable(a) :: a in r)
            && Sanitized(r) == r
  {
    var all := Firsts(Usable(addrs));
    UsableMembers(addrs);
    FirstsNoRepeats(Usable(addrs));
    FirstsInOrder(addrs);
    var r := Sanitized(addrs);
    PrefixIsSubsequence(all, |r|, addrs);
    assert r == all[..|r|];
    forall a | a in r ensures a in addrs && IsReachable(a) {
      assert a in all && a in Usable(addrs);
    }
    UsableOfReachable(r);
    FirstsOfDistinct(r);
  }

  // ---- what the VM is given ----------------------------------------------

  // The host's own resolvers. `scutil` is the tool's output where the platform
  // has it, `conf` the contents of resolv.conf, each None when unreadable.
  // The tool has the first word, the file is asked only when the tool names no
  // usable resolver, and nothing is found exactly when neither names one.
  method HostNameservers(scutil: Option<string>, conf: Option<string>) returns (addrs: seq<IpAddr>)
    ensures addrs == HostList(scutil, conf)
    ensures Names(scutil, ParseScutil) ==> addrs == Sanitized(ParseScutil(scutil.value))
    ensures !Names(scutil, ParseScutil) && Names(conf, ParseResolvConf) ==>
              addrs == Sanitized(ParseResolvConf(conf.value))
    ensures addrs == [] <==> !Names(scutil, ParseScutil) && !Names(conf, ParseResolvConf)
  {
    HostListMeaning(scutil, conf);
    if scutil.Some? {
      addrs := Sanitize(ParseScutil(scutil.value));
      if addrs != [] {
        return;
      }
    }
    if conf.Some? {
      addrs := Sanitize(ParseResolvConf(conf.value));
    } else {
      addrs := [];
    }
  }

  function HostList(scutil: Option<string>, conf: Option<string>): seq<IpAddr> {
    var first := if scutil.Some? then Sanitized(ParseScutil(scutil.value)) else [];
    if first != [] then first
    else if conf.Some? then Sanitized(ParseResolvConf(conf.value))
    else []
  }

  // A source that can be read and names a resolver the guest can reach.
  predicate Names(source: Option<string>, parse: string -> seq<IpAddr>) {
    source.Some? && exists a :: a in parse(source.value) && IsReachable(a)
  }

  lemma SanitizedEmptyExactly(addrs: seq<IpAddr>)
    ensures Sanitized(addrs) == [] <==> !exists a :: a in addrs && IsReachable(a)
  {
    SanitizedMeaning(addrs);
    var r := Sanitized(addrs);
    if r != [] {
      assert r[0] in r;
    }
  }

  lemma HostListMeaning(scutil: Option<string>, conf: Option<string>)
    ensures var r := HostList(scutil, conf);
            && (Names(scutil, ParseScutil) ==> r == Sanitized(ParseScutil(scutil.value)))
            && (!Names(scutil, ParseScutil) && Names(conf, ParseResolvConf) ==>
                  r == Sanitized(ParseResolvConf(conf.value)))
            && (r == [] <==> !Names(scutil, ParseScutil) && !Names(conf, ParseResolvConf))
  {
    if scutil.Some? {
      SanitizedEmptyExactly(ParseScutil(scutil.value));
    }
    if conf.Some? {
      SanitizedEmptyExactly(ParseResolvConf(conf.value));
    }
  }

  function DefaultNameservers(scutil: Option<string>, conf: Option<string>): (r: seq<IpAddr>) {
    var host := HostList(scutil, conf);
    if host == [] then [FALLBACK] else host
  }

  datatype Choice = Chosen(addrs: seq<IpAddr>) | Unreachable(addr: IpAddr)

  function FirstUnreachable(dns: seq<IpAddr>): Option<IpAddr> {
    if dns == [] then None
    else if !IsReachable(dns[0]) then Some(dns[0])
    else FirstUnreachable(dns[1..])
  }

  // Addresses named on the command line are taken or refused as a whole; only
  // without any is the host asked.
  function VmNameservers(dns: seq<IpAddr>, scutil: Option<string>, conf: Option<string>): Choice {
    if dns == [] then Chosen(DefaultNameservers(scutil, conf))
    else if FirstUnreachable(dns).Some? then Unreachable(FirstUnreachable(dns).value)
    else Chosen(dns)
  }

  lemma {:induction false} FirstUnreachableMeaning(dns: seq<IpAddr>)
    ensures FirstUnreachable(dns) == None <==> forall a | a in dns :: IsReachable(a)
    ensures FirstUnreachable(dns).Some? ==>
              exists k :: 0 <= k < |dns| && dns[k] == FirstUnreachable(dns).value && !IsReachable(dns[k])
                          && forall j | 0 <= j < k :: IsReachable(dns[j])
  {
    if dns != [] {
      FirstUnreachableMeaning(dns[1..]);
      assert dns == [dns[0]] + dns[1..];
      if IsReachable(dns[0]) && FirstUnreachable(dns).Some? {
        var k :| 0 <= k < |dns| - 1 && dns[1..][k] == FirstUnreachable(dns).value && !IsReachable(dns[1..][k])
                 && forall j | 0 <= j < k :: IsReachable(dns[1..][j]);
        assert dns[k + 1] == dns[1..][k];
        assert forall j | 0 < j < k + 1 :: dns[j] == dns[1..][j - 1];
      }
    }
  }

  // Main result: a choice is made exactly when no address the user named is
  // unreachable; a refusal names the first offender. The choice is the user's
  // list verbatim; without one it is what the tool names, filtered, if that is
  // anything, else what the file names, else one fixed public resolver. It is
  // never empty and can be used in full.
  lemma VmNameserversMeaning(dns: seq<IpAddr>, scutil: Option<string>, conf: Option<string>)
    ensures var c := VmNameservers(dns, scutil, conf);
            && (c.Chosen? <==> forall a | a in dns :: IsReachable(a))
            && (c.Chosen? && dns != [] ==> c.addrs == dns)
            && (c.Chosen? ==> c.addrs != [] && forall a | a in c.addrs :: IsReachable(a))
            && (c.Chosen? && dns == [] ==> |c.addrs| <= 3 && NoRepeats(c.addrs))
            && (c.Unreachable? ==> exists k :: 0 <= k < |dns| && dns[k] == c.addr && !IsReachable(c.addr)
                                               && forall j | 0 <= j < k :: IsReachable(dns[j]))
    ensures dns == [] ==>
              VmNameservers(dns, scutil, conf) ==
                if Names(scutil, ParseScutil) then Chosen(Sanitized(ParseScutil(scutil.value)))
                else if Names(conf, ParseResolvConf) then Chosen(Sanitized(ParseResolvConf(conf.value)))
                else Chosen([V4([1, 1, 1, 1])])
  {
    FirstUnreachableMeaning(dns);
    HostListMeaning(scutil, conf);
    if scutil.Some? {
      SanitizedMeaning(ParseScutil(scutil.value));
    }
    if conf.Some? {
      SanitizedMeaning(ParseResolvConf(conf.value));
    }
    FallbackIsReachable();
  }

  lemma FallbackIsReachable()
    ensures IsReachable(V4([1, 1, 1, 1]))
  {
    ReachableV4Exactly([1, 1, 1, 1]);
  }
}
