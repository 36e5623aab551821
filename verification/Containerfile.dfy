// The generated Containerfile, and a reader that turns such a text back into
// instructions.
module Containerfile {
  import opened Text

  datatype Generated = Ok(text: string) | InvalidImageReference(image: string)

  predicate Accepted(image: string) {
    image != "" && forall i | 0 <= i < |image| :: !IsWhitespace(image[i]) && !IsControl(image[i])
  }

  const SOURCE := "build-containerfile"
  const TARGET := "/tmp/build-containerfile"
  const RUN_COMMAND := "cp " + TARGET + " \"$HOME/Containerfile\"" + " && rm " + TARGET

  function CopySection(copy: bool): string {
    if copy then Ln("COPY " + SOURCE + " " + TARGET, Ln("RUN " + RUN_COMMAND, Ln("", ""))) else ""
  }

  function FromLine(image: string, stage: string): string {
    "FROM " + image + " AS " + stage
  }

  const SYSTEM_COMMENT := "# System base"
  const FINAL_COMMENT := "# Final base image"

  function FinalStage(copy: bool): string {
    Ln(FINAL_COMMENT, Ln(FromLine("system", "final"), Ln("", CopySection(copy) + Ln("", ""))))
  }

  function Generate(from: string, copy: bool): Generated {
    if !Accepted(from) then InvalidImageReference(from)
    else Ok(Ln(SYSTEM_COMMENT, Ln(FromLine(from, "system"), Ln("", Ln("USER " + "0", Ln("", FinalStage(copy)))))))
  }

  // ---- the reader --------------------------------------------------------

  datatype Instr =
    | From(image: string, stage: string)
    | User(name: string)
    | Copy(source: string, target: string)
    | Run(command: string)

  // The instructions on one line: none for a blank or comment line, None for
  // anything the reader does not understand, a continued line included.
  function ReadLine(line: string): Option<seq<Instr>> {
    var t := Trim(line);
    if t == "" || t[0] == '#' then Some([])
    else if t[|t| - 1] == '\\' then None
    else
      var w := Words(t, IsWhitespace);
      if |w| == 4 && w[0] == "FROM" && w[2] == "AS" then Some([From(w[1], w[3])])
      else if |w| == 2 && w[0] == "USER" then Some([User(w[1])])
      else if |w| == 3 && w[0] == "COPY" then Some([Copy(w[1], w[2])])
      else if |w| > 1 && w[0] == "RUN" && |t| > |w[0]| then Some([Run(Trim(t[|w[0]|..]))])
      else None
  }

  function ReadLines(lines: seq<string>): Option<seq<Instr>> {
    if lines == [] then Some([])
    else
      match (ReadLine(lines[0]), ReadLines(lines[1..]))
      case (Some(a), Some(b)) => Some(a + b)
      case _ => None
  }

  function Read(text: string): Option<seq<Instr>> {
    ReadLines(SplitBy(text, Is('\n')))
  }

  lemma ReadLn(line: string, rest: string, a: seq<Instr>, b: seq<Instr>)
    requires Free(line, Is('\n')) && ReadLine(line) == Some(a) && Read(rest) == Some(b)
    ensures Read(Ln(line, rest)) == Some(a + b)
  {
    SplitAppend(line, '\n', rest, Is('\n'));
    SplitFree(line, Is('\n'));
    assert ([line] + SplitBy(rest, Is('\n')))[1..] == SplitBy(rest, Is('\n'));
  }

  lemma ReadBlank(rest: string, b: seq<Instr>)
    requires Read(rest) == Some(b)
    ensures Read(Ln("", rest)) == Some(b)
  {
    ReadLn("", rest, [], b);
    assert [] + b == b;
  }

  // A token of an instruction line.
  predicate Token(s: string) {
    s != "" && Free(s, IsWhitespace)
  }

  predicate Tokens(w: seq<string>) {
    forall i | 0 <= i < |w| :: Token(w[i])
  }

  lemma {:induction false} JoinEnds(w: seq<string>)
    requires w != [] && Tokens(w)
    ensures var line := Join(w, ' ');
            line != "" && line[0] == w[0][0] && line[|line| - 1] == w[|w| - 1][|w[|w| - 1]| - 1] && Free(line, Is('\n'))
  {
    assert Token(w[0]);
    if |w| > 1 {
      assert forall i | 0 <= i < |w| - 1 :: w[1..][i] == w[i + 1];
      JoinEnds(w[1..]);
    }
  }

  // A line of several tokens that does not end in a backslash is read by its
  // tokens.
  lemma TokensRead(w: seq<string>)
    requires |w| > 1 && Tokens(w)
    ensures var line := Join(w, ' ');
            && Words(line, IsWhitespace) == w && Trim(line) == line && line != "" && Free(line, Is('\n'))
            && line[0] == w[0][0] && line[|line| - 1] == w[|w| - 1][|w[|w| - 1]| - 1]
  {
    assert forall i | 0 <= i < |w| :: Token(w[i]);
    assert forall x | x in w :: x != "";
    WordsJoin(w, ' ', IsWhitespace);
    JoinEnds(w);
    TrimOfTrimmed(Join(w, ' '));
  }

  lemma JoinTwo(a: string, b: string)
    ensures Join([a, b], ' ') == a + " " + b
  {
    assert [a, b][1..] == [b];
  }

  lemma JoinThree(a: string, b: string, c: string)
    ensures Join([a, b, c], ' ') == a + " " + (b + " " + c)
  {
    JoinTwo(b, c);
    assert [a, b, c][1..] == [b, c];
  }

  lemma JoinFour(a: string, b: string, c: string, d: string)
    ensures Join([a, b, c, d], ' ') == a + " " + (b + " " + (c + " " + d))
  {
    JoinThree(b, c, d);
    assert [a, b, c, d][1..] == [b, c, d];
  }

  predicate PlainEnd(s: string) {
    s != "" && s[|s| - 1] != '\\'
  }

  lemma FromLineReads(image: string, stage: string)
    requires Token(image) && Token(stage) && PlainEnd(stage)
    ensures var line := FromLine(image, stage);
            ReadLine(line) == Some([From(image, stage)]) && Free(line, Is('\n'))
  {
    var w := ["FROM", image, "AS", stage];
    assert Token("FROM") && Token("AS");
    TokensRead(w);
    FromLineJoined(image, stage);
    FromWords(FromLine(image, stage), w);
  }

  lemma FromLineJoined(image: string, stage: string)
    ensures Join(["FROM", image, "AS", stage], ' ') == FromLine(image, stage)
  {
    JoinFour("FROM", image, "AS", stage);
  }

  lemma FromWords(line: string, w: seq<string>)
    requires Trim(line) == line && PlainEnd(line) && line[0] == 'F'
    requires Words(line, IsWhitespace) == w && |w| == 4 && w[0] == "FROM" && w[2] == "AS"
    ensures ReadLine(line) == Some([From(w[1], w[3])])
  {
  }

  lemma UserLineReads(name: string)
    requires Token(name) && PlainEnd(name)
    ensures ReadLine("USER " + name) == Some([User(name)]) && Free("USER " + name, Is('\n'))
  {
    assert Token("USER");
    TokensRead(["USER", name]);
    JoinTwo("USER", name);
    assert "USER" + " " + name == "USER " + name;
  }

  lemma CopyLineReads(source: string, target: string)
    requires Token(source) && Token(target) && PlainEnd(target)
    ensures var line := "COPY " + source + " " + target;
            ReadLine(line) == Some([Copy(source, target)]) && Free(line, Is('\n'))
  {
    assert Token("COPY");
    TokensRead(["COPY", source, target]);
    JoinThree("COPY", source, target);
    assert "COPY" + " " + (source + " " + target) == "COPY " + source + " " + target;
  }

  lemma CommentReads(line: string)
    requires line != "" && line[0] == '#'
    ensures ReadLine(line) == Some([])
  {
    assert TrimStart(line) == line;
    TrimEndKeepsFirst(line);
  }

  lemma SystemCommentReads()
    ensures ReadLine(SYSTEM_COMMENT) == Some([]) && Free(SYSTEM_COMMENT, Is('\n'))
  {
    CommentReads(SYSTEM_COMMENT);
  }

  lemma FinalCommentReads()
    ensures ReadLine(FINAL_COMMENT) == Some([]) && Free(FINAL_COMMENT, Is('\n'))
  {
    CommentReads(FINAL_COMMENT);
    FinalCommentIsALine();
  }

  lemma FinalCommentIsALine()
    ensures Free(FINAL_COMMENT, Is('\n'))
  {
  }

  lemma {:induction false} TrimEndKeepsFirst(s: string)
    requires s != "" && !IsWhitespace(s[0])
    ensures TrimEnd(s) != "" && TrimEnd(s)[0] == s[0]
  {
    if IsWhitespace(s[|s| - 1]) {
      TrimEndKeepsFirst(s[..|s| - 1]);
    }
  }

  lemma RunLineReads(command: string)
    requires command != "" && Trimmed(command) && PlainEnd(command) && Free(command, Is('\n'))
    ensures ReadLine("RUN " + command) == Some([Run(command)]) && Free("RUN " + command, Is('\n'))
  {
    var line := "RUN " + command;
    TrimOfTrimmed(line);
    TrimOfTrimmed(command);
    RunWords(command);
    assert line[3..] == " " + command && (" " + command)[1..] == command;
    assert TrimStart(" " + command) == TrimStart(command);
  }

  lemma RunWords(command: string)
    requires command != "" && !IsWhitespace(command[0])
    ensures var w := Words("RUN " + command, IsWhitespace); |w| > 1 && w[0] == "RUN"
  {
    SplitAppend("RUN", ' ', command, IsWhitespace);
    assert "RUN" + [' '] + command == "RUN " + command;
    SplitFree("RUN", IsWhitespace);
    var p := SplitBy(command, IsWhitespace);
    NonEmptyAppend(["RUN"], p);
    assert ["RUN"][1..] == [] && NonEmpty(["RUN"]) == ["RUN"];
    assert p[0] != "";
  }

  // ---- read-back ---------------------------------------------------------

  function CopyInstrs(copy: bool): seq<Instr> {
    if copy then [Copy(SOURCE, TARGET), Run(RUN_COMMAND)] else []
  }

  function Heads(image: string): seq<Instr> {
    [From(image, "system"), User("0"), From("system", "final")]
  }

  function Intended(image: string, copy: bool): seq<Instr> {
    Heads(image) + CopyInstrs(copy)
  }

  lemma EmptyReads()
    ensures Read("") == Some([]) && Read(Ln("", "")) == Some([])
  {
    assert SplitBy("", Is('\n')) == [""] && [""][1..] == [];
    assert ReadLine("") == Some([]) && ReadLines([]) == Some([]);
    var none: seq<Instr> := [];
    assert none + none == none;
    ReadBlank("", []);
  }

  lemma SectionReads(k: string, r: string, a: Instr, b: Instr)
    requires Free(k, Is('\n')) && ReadLine(k) == Some([a]) && Free(r, Is('\n')) && ReadLine(r) == Some([b])
    ensures Read(Ln(k, Ln(r, Ln("", ""))) + Ln("", "")) == Some([a, b])
  {
    EmptyReads();
    var blank := Ln("", "");
    ReadBlank(blank, []);
    ReadLn(r, Ln("", blank), [b], []);
    ReadLn(k, Ln(r, Ln("", blank)), [a], [b] + []);
    assert Ln(k, Ln(r, Ln("", ""))) + blank == Ln(k, Ln(r, Ln("", blank)));
    assert [a] + ([b] + []) == [a, b];
  }

  lemma FinalHeadReads(c: string, f: string, rest: string, a: Instr, tail: seq<Instr>)
    requires Free(c, Is('\n')) && ReadLine(c) == Some([]) && Free(f, Is('\n')) && ReadLine(f) == Some([a])
    requires Read(rest) == Some(tail)
    ensures Read(Ln(c, Ln(f, Ln("", rest)))) == Some([a] + tail)
  {
    ReadBlank(rest, tail);
    ReadLn(f, Ln("", rest), [a], tail);
    ReadLn(c, Ln(f, Ln("", rest)), [], [a] + tail);
    assert [] + ([a] + tail) == [a] + tail;
  }

  lemma SystemHeadReads(c: string, f: string, u: string, rest: string, a: Instr, b: Instr, tail: seq<Instr>)
    requires Free(c, Is('\n')) && ReadLine(c) == Some([]) && Free(f, Is('\n')) && ReadLine(f) == Some([a])
    requires Free(u, Is('\n')) && ReadLine(u) == Some([b]) && Read(rest) == Some(tail)
    ensures Read(Ln(c, Ln(f, Ln("", Ln(u, Ln("", rest)))))) == Some([a, b] + tail)
  {
    UserHeadReads(u, rest, b, tail);
    FinalHeadReads(c, f, Ln(u, Ln("", rest)), a, [b] + tail);
    assert [a] + ([b] + tail) == [a, b] + tail;
  }

  lemma UserHeadReads(u: string, rest: string, b: Instr, tail: seq<Instr>)
    requires Free(u, Is('\n')) && ReadLine(u) == Some([b]) && Read(rest) == Some(tail)
    ensures Read(Ln(u, Ln("", rest))) == Some([b] + tail)
  {
    ReadBlank(rest, tail);
    ReadLn(u, Ln("", rest), [b], tail);
  }

  lemma SectionOrNothingReads(copy: bool)
    ensures Read(CopySection(copy) + Ln("", "")) == Some(CopyInstrs(copy))
  {
    if copy {
      assert Token(SOURCE) && Token(TARGET) && PlainEnd(TARGET);
      CopyLineReads(SOURCE, TARGET);
      CommandIsPlain();
      RunLineReads(RUN_COMMAND);
      SectionReads("COPY " + SOURCE + " " + TARGET, "RUN " + RUN_COMMAND, Copy(SOURCE, TARGET), Run(RUN_COMMAND));
    } else {
      EmptyReads();
      assert "" + Ln("", "") == Ln("", "");
    }
  }

  lemma CommandIsPlain()
    ensures RUN_COMMAND != "" && Trimmed(RUN_COMMAND) && PlainEnd(RUN_COMMAND) && Free(RUN_COMMAND, Is('\n'))
  {
    assert TARGET[|TARGET| - 1] == 'e' && RUN_COMMAND[|RUN_COMMAND| - 1] == 'e';
    assert RUN_COMMAND[0] == 'c';
    assert Free(TARGET, Is('\n')) && Free("cp ", Is('\n'));
    assert Free(" \"$HOME/Containerfile\"", Is('\n')) && Free(" && rm ", Is('\n'));
  }

  lemma FinalFrom()
    ensures ReadLine(FromLine("system", "final")) == Some([From("system", "final")])
    ensures Free(FromLine("system", "final"), Is('\n'))
  {
    assert Token("system") && Token("final");
    FromLineReads("system", "final");
  }

  lemma FinalStageReads(copy: bool)
    ensures Read(FinalStage(copy)) == Some([From("system", "final")] + CopyInstrs(copy))
  {
    SectionOrNothingReads(copy);
    FinalFrom();
    FinalCommentReads();
    FinalHeadReads(FINAL_COMMENT, FromLine("system", "final"), CopySection(copy) + Ln("", ""),
                   From("system", "final"), CopyInstrs(copy));
  }

  lemma SystemStageReads(c: string, image: string, rest: string, tail: seq<Instr>)
    requires Free(c, Is('\n')) && ReadLine(c) == Some([])
    requires Token(image) && Read(rest) == Some(tail)
    ensures Read(Ln(c, Ln(FromLine(image, "system"), Ln("", Ln("USER " + "0", Ln("", rest))))))
            == Some([From(image, "system"), User("0")] + tail)
  {
    SystemFrom(image);
    RootLine();
    SystemHeadReads(c, FromLine(image, "system"), "USER " + "0", rest, From(image, "system"), User("0"), tail);
  }

  lemma SystemFrom(image: string)
    requires Token(image)
    ensures ReadLine(FromLine(image, "system")) == Some([From(image, "system")])
    ensures Free(FromLine(image, "system"), Is('\n'))
  {
    assert Token("system");
    FromLineReads(image, "system");
  }

  lemma RootLine()
    ensures ReadLine("USER " + "0") == Some([User("0")]) && Free("USER " + "0", Is('\n'))
  {
    assert Token("0");
    UserLineReads("0");
  }

  // Main result. A reference is refused exactly when it is empty or holds
  // white space or control characters; every other one yields a text that
  // reads back as exactly the intended instructions.
  lemma GeneratedReadsBack(image: string, copy: bool)
    ensures Generate(image, copy).Ok? <==>
              image != "" && !exists i :: 0 <= i < |image| && (IsWhitespace(image[i]) || IsControl(image[i]))
    ensures Generate(image, copy).Ok? ==> Read(Generate(image, copy).text) == Some(Intended(image, copy))
  {
    if Accepted(image) {
      FinalStageReads(copy);
      SystemCommentReads();
      SystemStageReads(SYSTEM_COMMENT, image, FinalStage(copy), [From("system", "final")] + CopyInstrs(copy));
      assert [From(image, "system"), User("0")] + ([From("system", "final")] + CopyInstrs(copy))
             == Intended(image, copy);
    }
  }

  // Different requests never share a text.
  lemma GenerateInjective(image: string, copy: bool, image': string, copy': bool)
    requires Generate(image, copy).Ok? && Generate(image, copy) == Generate(image', copy')
    ensures image == image' && copy == copy'
  {
    GeneratedReadsBack(image, copy);
    GeneratedReadsBack(image', copy');
    assert Intended(image, copy)[0] == Intended(image', copy')[0];
    assert |Intended(image, copy)| == |Intended(image', copy')|;
  }

  // ---- stages ------------------------------------------------------------

  // A user name as an engine resolves it: digits are a uid, anything else is
  // looked up in the image.
  function Uid(name: string, passwd: string -> nat): nat {
    if name != "" && AllDigits(name, 10) then NumeralValue(name, 10) else passwd(name)
  }

  // The uid each stage ends with: a stage starts from the user of the stage or
  // image it names. `known` are the stages before, `stage` the current one.
  function UserAfter(instrs: seq<Instr>, known: map<string, nat>, stage: string, user: nat,
                     imageUser: nat, passwd: string -> nat): nat
  {
    if instrs == [] then user
    else
      match instrs[0]
      case From(image, name) =>
        var ended := known[stage := user];
        UserAfter(instrs[1..], ended, name, if image in ended then ended[image] else imageUser, imageUser, passwd)
      case User(name) => UserAfter(instrs[1..], known, stage, Uid(name, passwd), imageUser, passwd)
      case _ => UserAfter(instrs[1..], known, stage, user, imageUser, passwd)
  }

  // Only FROM and USER change the user.
  lemma {:induction false} UserKept(instrs: seq<Instr>, known: map<string, nat>, stage: string, user: nat,
                                    imageUser: nat, passwd: string -> nat)
    requires forall i | 0 <= i < |instrs| :: instrs[i].Copy? || instrs[i].Run?
    ensures UserAfter(instrs, known, stage, user, imageUser, passwd) == user
  {
    if instrs != [] {
      UserKept(instrs[1..], known, stage, user, imageUser, passwd);
    }
  }

  lemma ZeroIsRoot(passwd: string -> nat)
    ensures Uid("0", passwd) == 0
  {
    NumeralReadsBack(0, 10);
    assert Numeral(0, 10) == "0";
  }

  lemma RootAfterHeads(image: string, tail: seq<Instr>, imageUser: nat, passwd: string -> nat)
    requires forall i | 0 <= i < |tail| :: tail[i].Copy? || tail[i].Run?
    ensures UserAfter(Heads(image) + tail, map[], "", imageUser, imageUser, passwd) == 0
  {
    var i := Heads(image) + tail;
    var k1: map<string, nat> := map["" := imageUser];
    var k2 := k1["system" := 0];
    var i1, i2 := i[1..], i[2..];
    ZeroIsRoot(passwd);
    assert i1[1..] == i2 && i2[1..] == tail && map[]["" := imageUser] == k1;
    var u := imageUser;
    assert UserAfter(i, map[], "", u, u, passwd) == UserAfter(i1, k1, "system", u, u, passwd);
    assert UserAfter(i1, k1, "system", u, u, passwd) == UserAfter(i2, k1, "system", 0, u, passwd);
    assert UserAfter(i2, k1, "system", 0, u, passwd) == UserAfter(tail, k2, "final", 0, u, passwd);
    UserKept(tail, k2, "final", 0, u, passwd);
  }

  // From the third instruction on - so at the COPY, at the RUN and in the
  // image - the uid is 0, since `final` inherits it from `system`; the project
  // image's own user is kept exactly when its uid is 0 already.
  lemma CopyRunsAsRoot(image: string, copy: bool, imageUser: nat, passwd: string -> nat, k: nat)
    requires image != "" && 3 <= k <= |Intended(image, copy)|
    ensures UserAfter(Intended(image, copy)[..k], map[], "", imageUser, imageUser, passwd) == 0
    ensures copy ==> Intended(image, copy)[3] == Copy(SOURCE, TARGET) && Intended(image, copy)[4] == Run(RUN_COMMAND)
    ensures UserAfter(Intended(image, copy), map[], "", imageUser, imageUser, passwd) == imageUser <==> imageUser == 0
  {
    var tail := CopyInstrs(copy);
    assert Intended(image, copy) == Heads(image) + tail;
    assert (Heads(image) + tail)[..k] == Heads(image) + tail[..k - 3];
    RootAfterHeads(image, tail[..k - 3], imageUser, passwd);
    RootAfterHeads(image, tail, imageUser, passwd);
  }

  // ---- what the copy does ------------------------------------------------

  type Files = map<string, string>

  // A word as the shell hands it on: quotes dropped, a leading $HOME replaced.
  function Expanded(word: string, home: string): string {
    var w := if |word| >= 2 && word[0] == '"' && word[|word| - 1] == '"' then word[1..|word| - 1] else word;
    if "$HOME" <= w then home + w[5..] else w
  }

  // Commands joined by "&&"; None if one fails or is none of the two known.
  function Shell(words: seq<string>, home: string, files: Files): Option<Files>
    decreases |words|
  {
    if |words| >= 3 && words[0] == "cp" then
      var source := Expanded(words[1], home);
      if source !in files then None else AndThen(words[3..], home, files[Expanded(words[2], home) := files[source]])
    else if |words| >= 2 && words[0] == "rm" then
      var gone := Expanded(words[1], home);
      if gone !in files then None else AndThen(words[2..], home, files - {gone})
    else None
  }

  function AndThen(words: seq<string>, home: string, files: Files): Option<Files>
    decreases |words|
  {
    if words == [] then Some(files) else if words[0] == "&&" then Shell(words[1..], home, files) else None
  }

  // The image's files after the instructions, starting from the base image's.
  function Built(instrs: seq<Instr>, context: Files, home: string, files: Files): Option<Files> {
    if instrs == [] then Some(files)
    else
      var after := match instrs[0]
                   case Copy(source, target) =>
                     if source in context then Some(files[target := context[source]]) else None
                   case Run(command) => Shell(Words(command, Is(' ')), home, files)
                   case _ => Some(files);
      if after == None then None else Built(instrs[1..], context, home, after.value)
  }

  lemma JoinSix(a: string, b: string, c: string, d: string, e: string, f: string)
    ensures Join([a, b, c, d, e, f], ' ') == a + " " + (b + " " + (c + " " + (d + " " + (e + " " + f))))
  {
    JoinFour(c, d, e, f);
    assert [a, b, c, d, e, f][1..] == [b, c, d, e, f] && [b, c, d, e, f][1..] == [c, d, e, f];
  }

  const IN_HOME := "\"$HOME/Containerfile\""

  lemma CommandWords()
    ensures Words(RUN_COMMAND, Is(' ')) == ["cp", TARGET, IN_HOME, "&&", "rm", TARGET]
  {
    var w := ["cp", TARGET, IN_HOME, "&&", "rm", TARGET];
    JoinSix("cp", TARGET, IN_HOME, "&&", "rm", TARGET);
    CommandText(TARGET);
    assert Free(TARGET, Is(' ')) && Free(IN_HOME, Is(' '));
    WordsJoin(w, ' ', Is(' '));
  }

  lemma CommandText(t: string)
    ensures "cp" + " " + (t + " " + (IN_HOME + " " + ("&&" + " " + ("rm" + " " + t))))
            == "cp " + t + " \"$HOME/Containerfile\"" + " && rm " + t
  {
    assert "cp" + " " == "cp " && " " + IN_HOME == " \"$HOME/Containerfile\"";
    assert " " + ("&&" + " " + ("rm" + " ")) == " && rm ";
  }

  lemma HomeExpands(home: string)
    ensures Expanded(IN_HOME, home) == home + "/Containerfile" && Expanded(TARGET, home) == TARGET
    ensures home + "/Containerfile" != TARGET
  {
    assert IN_HOME[1..|IN_HOME| - 1] == "$HOME/Containerfile";
    assert "$HOME/Containerfile"[5..] == "/Containerfile";
    assert TARGET[0] == '/' && "$HOME"[0] == '$';
    var h := home + "/Containerfile";
    assert h[|h| - 14] == '/' && TARGET[|TARGET| - 14] == '-';
  }

  // `cp` and `rm` by their effect: the file moves.
  lemma CommandMoves(source: string, word: string, target: string, home: string, files: Files)
    requires Expanded(source, home) == source && Expanded(word, home) == target && source != target && source in files
    ensures Shell(["cp", source, word, "&&", "rm", source], home, files)
            == Some((files - {source})[target := files[source]])
  {
    var w := ["cp", source, word, "&&", "rm", source];
    var copied := files[target := files[source]];
    assert w[3..] == ["&&", "rm", source] && ["&&", "rm", source][1..] == ["rm", source];
    assert ["rm", source][2..] == [];
    assert AndThen([], home, copied - {source}) == Some(copied - {source});
    assert Shell(["rm", source], home, copied) == Some(copied - {source});
    assert copied - {source} == (files - {source})[target := files[source]];
  }

  // Main result. When copying is asked for and the context holds the staged
  // file, the image gets $HOME/Containerfile with the staged contents, and apart
  // from the path it was copied through no other file changes; without copying
  // none does. Without the staged file the build fails.
  lemma CopyEmbedsStaged(image: string, copy: bool, context: Files, home: string, files: Files)
    ensures !copy ==> Built(Intended(image, copy), context, home, files) == Some(files)
    ensures copy && "build-containerfile" in context ==>
              Built(Intended(image, copy), context, home, files) ==
                Some((files - {TARGET})[home + "/Containerfile" := context["build-containerfile"]])
    ensures copy && "build-containerfile" !in context ==> Built(Intended(image, copy), context, home, files) == None
  {
    HeadsChangeNothing(image, CopyInstrs(copy), context, home, files);
    if copy && "build-containerfile" in context {
      CopyThenRun(context, home, files);
    }
  }

  lemma HeadsChangeNothing(image: string, tail: seq<Instr>, context: Files, home: string, files: Files)
    ensures Built(Heads(image) + tail, context, home, files) == Built(tail, context, home, files)
  {
    var i := Heads(image) + tail;
    assert i[1..][1..] == i[2..] && i[2..][1..] == tail;
    assert Built(i[2..], context, home, files) == Built(tail, context, home, files);
    assert Built(i[1..], context, home, files) == Built(i[2..], context, home, files);
  }

  lemma CopyThenRun(context: Files, home: string, files: Files)
    requires SOURCE in context
    ensures Built(CopyInstrs(true), context, home, files) ==
              Some((files - {TARGET})[home + "/Containerfile" := context[SOURCE]])
  {
    var i, copied := CopyInstrs(true), files[TARGET := context[SOURCE]];
    CommandWords();
    HomeExpands(home);
    CommandMoves(TARGET, IN_HOME, home + "/Containerfile", home, copied);
    assert copied - {TARGET} == files - {TARGET};
    assert i[1..] == [Run(RUN_COMMAND)] && i[1..][1..] == [];
    var last := (files - {TARGET})[home + "/Containerfile" := context[SOURCE]];
    assert Built([], context, home, last) == Some(last);
    assert Built(i[1..], context, home, copied) == Built([], context, home, last);
  }
}
