// Where the tarball of a VM build goes: the default name made from the tag,
// and the cut of an output path into a directory and a file name.
module OutputPaths {
  import opened Text

  // ---- the default name --------------------------------------------------

  predicate KeptInName(c: char) {
    'a' <= c <= 'z' || 'A' <= c <= 'Z' || '0' <= c <= '9' || c == '.' || c == '-' || c == '_'
  }

  function Cleaned(tag: string): (r: string)
    ensures |r| == |tag|
    ensures forall i | 0 <= i < |tag| :: r[i] == if KeptInName(tag[i]) then tag[i] else '-'
  {
    seq(|tag|, i requires 0 <= i < |tag| => if KeptInName(tag[i]) then tag[i] else '-')
  }

  function VmOutputPath(tag: string): string {
    Cleaned(tag) + ".tar"
  }

  // Letters, digits, dots, dashes and underscores of the tag stay, each in its
  // place; every other character becomes a dash.
  lemma DefaultNameOfTag(tag: string)
    ensures var p := VmOutputPath(tag);
            && |p| == |tag| + 4 && p[|tag|..] == ".tar"
            && forall i | 0 <= i < |tag| ::
                 if 'a' <= tag[i] <= 'z' || 'A' <= tag[i] <= 'Z' || '0' <= tag[i] <= '9' || tag[i] in ".-_"
                 then p[i] == tag[i] else p[i] == '-'
  {
    var p := VmOutputPath(tag);
    assert forall i | 0 <= i < |tag| :: p[i] == Cleaned(tag)[i];
  }

  // ---- components --------------------------------------------------------

  // Path components: repeated separators and "." do not count.
  function Components(path: string): seq<string> {
    NotDot(Words(path, Is('/')))
  }

  function NotDot(xs: seq<string>): (r: seq<string>)
    ensures forall x | x in r :: x in xs && x != "."
  {
    if xs == [] then [] else (if xs[0] == "." then [] else [xs[0]]) + NotDot(xs[1..])
  }

  predicate Absolute(path: string) {
    path != "" && path[0] == '/'
  }

  // `Path::file_name`.
  function FileName(path: string): Option<string> {
    var c := Components(path);
    if c == [] || c[|c| - 1] == ".." then None else Some(c[|c| - 1])
  }

  // The directory an output goes to; a bare file name means the current one.
  function OutputDir(path: string): string {
    var c := Components(path);
    var parent := if c == [] then "" else Join(c[..|c| - 1], '/');
    if Absolute(path) then "/" + parent else if parent == "" then "." else parent
  }

  // `Path::join` of a directory and a file name in it.
  function HostTarPath(outputDir: string, name: string): string {
    outputDir + "/" + name
  }

  // A component as it stands between separators.
  predicate Plain(x: string) {
    x != "" && x != "." && Free(x, Is('/'))
  }

  predicate AllPlain(xs: seq<string>) {
    forall i | 0 <= i < |xs| :: Plain(xs[i])
  }

  lemma {:induction false} NotDotAppend(xs: seq<string>, ys: seq<string>)
    ensures NotDot(xs + ys) == NotDot(xs) + NotDot(ys)
  {
    if xs == [] {
      assert xs + ys == ys;
    } else {
      assert (xs + ys)[1..] == xs[1..] + ys;
      NotDotAppend(xs[1..], ys);
    }
  }

  lemma {:induction false} NotDotAll(xs: seq<string>)
    requires forall x | x in xs :: x != "."
    ensures NotDot(xs) == xs
  {
    if xs != [] {
      assert xs[0] in xs && forall x | x in xs[1..] :: x in xs;
      NotDotAll(xs[1..]);
    }
  }

  lemma {:induction false} PiecesFree(s: string, sep: char -> bool)
    ensures AllFree(SplitBy(s, sep), sep)
  {
    if s != "" {
      PiecesFree(s[1..], sep);
    }
  }

  lemma ComponentsArePlain(path: string)
    ensures AllPlain(Components(path))
  {
    var p, c := SplitBy(path, Is('/')), Components(path);
    PiecesFree(path, Is('/'));
    forall i | 0 <= i < |c| ensures Plain(c[i]) {
      assert c[i] in c && c[i] in Words(path, Is('/')) && c[i] in p;
      var k :| 0 <= k < |p| && p[k] == c[i];
    }
  }

  // Components lie one after the other.
  lemma ComponentsAppend(a: string, b: string)
    ensures Components(a + "/" + b) == Components(a) + Components(b)
  {
    WordsAppend(a, '/', b, Is('/'));
    assert a + "/" + b == a + ['/'] + b;
    NotDotAppend(Words(a, Is('/')), Words(b, Is('/')));
  }

  lemma ComponentsOfPlain(x: string)
    requires Plain(x)
    ensures Components(x) == [x]
  {
    OneWord(x, Is('/'));
    NotDotAll([x]);
  }

  lemma ComponentsOfNone()
    ensures Components("") == [] && Components(".") == []
  {
    WordsOfBlank(Is('/'));
    OneWord(".", Is('/'));
    assert ["."][1..] == [];
  }

  // Components joined read back as themselves.
  lemma ComponentsJoin(xs: seq<string>)
    requires AllPlain(xs)
    ensures Components(Join(xs, '/')) == xs
  {
    forall x | x in xs ensures x != "" && x != "." {
      var k :| 0 <= k < |xs| && xs[k] == x;
      assert Plain(xs[k]);
    }
    assert AllFree(xs, Is('/')) by {
      assert forall i | 0 <= i < |xs| :: Plain(xs[i]);
    }
    WordsJoin(xs, '/', Is('/'));
    NotDotAll(xs);
  }

  // ---- the cut -----------------------------------------------------------

  lemma ComponentsOfDir(path: string)
    requires Components(path) != []
    ensures var c := Components(path); Components(OutputDir(path)) == c[..|c| - 1]
  {
    var c := Components(path);
    var init := c[..|c| - 1];
    ComponentsArePlain(path);
    ComponentsOfNone();
    assert AllPlain(init) by {
      assert forall i | 0 <= i < |init| :: init[i] == c[i];
    }
    ComponentsJoin(init);
    var parent := Join(init, '/');
    if Absolute(path) {
      ComponentsAppend("", parent);
      assert "" + "/" + parent == "/" + parent;
    }
  }

  lemma JoinedIsRelative(xs: seq<string>)
    requires AllPlain(xs)
    ensures !Absolute(Join(xs, '/'))
  {
    if xs != [] {
      assert Plain(xs[0]);
    }
  }

  // Main result, for every path. It has a file name exactly when it has a
  // component and does not end in ".."; then directory and name together are
  // the path again, component by component and from the same start.
  lemma OutputIsCutExactly(path: string)
    ensures FileName(path) == None <==>
              Components(path) == [] || Components(path)[|Components(path)| - 1] == ".."
    ensures FileName(path).Some? ==>
              var whole := HostTarPath(OutputDir(path), FileName(path).value);
              && Components(whole) == Components(path)
              && (Absolute(whole) <==> Absolute(path))
              && Plain(FileName(path).value) && FileName(path).value != ".."
  {
    if FileName(path).Some? {
      CutComponents(path);
      CutStarts(path);
    }
  }

  lemma CutComponents(path: string)
    requires FileName(path).Some?
    ensures Components(HostTarPath(OutputDir(path), FileName(path).value)) == Components(path)
    ensures Plain(FileName(path).value) && FileName(path).value != ".."
  {
    var c, name := Components(path), FileName(path).value;
    ComponentsArePlain(path);
    assert Plain(c[|c| - 1]);
    ComponentsOfDir(path);
    ComponentsAppend(OutputDir(path), name);
    ComponentsOfPlain(name);
    assert c == c[..|c| - 1] + [name];
  }

  lemma CutStarts(path: string)
    requires FileName(path).Some?
    ensures Absolute(HostTarPath(OutputDir(path), FileName(path).value)) <==> Absolute(path)
  {
    var c := Components(path);
    ComponentsArePlain(path);
    assert AllPlain(c[..|c| - 1]) by {
      assert forall i | 0 <= i < |c| - 1 :: c[..|c| - 1][i] == c[i];
    }
    JoinedIsRelative(c[..|c| - 1]);
  }

  // The name is what stands after the last separator.
  lemma NameAfterLastSlash(dir: string, name: string)
    requires Plain(name) && name != ".."
    ensures FileName(dir + "/" + name) == Some(name) && FileName(name) == Some(name)
  {
    ComponentsAppend(dir, name);
    ComponentsOfPlain(name);
    var c := Components(dir) + [name];
    assert c[|c| - 1] == name;
  }

  // Every tag gives a default name that is one plain path component: always a
  // file name, in the current directory, without NUL or separator.
  lemma DefaultNameIsTotal(tag: string)
    ensures var p := VmOutputPath(tag);
            && Free(p, Is('/')) && '\0' !in p
            && FileName(p) == Some(p) && OutputDir(p) == "."
  {
    var p := VmOutputPath(tag);
    DefaultNameOfTag(tag);
    forall i | 0 <= i < |p| ensures p[i] != '/' && p[i] != '\0' {
      assert i >= |tag| ==> p[i] == ".tar"[i - |tag|];
    }
    assert |p| >= 4;
    assert Plain(p);
    ComponentsOfPlain(p);
    assert [p][..0] == [];
  }
}
