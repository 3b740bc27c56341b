/** Path text: normalisation against a working directory, parents, names and components. */
module Paths {
  import opened Text

  const SLASH: char := '/'

  /** A path below the root, as the names along the way. */
  type Path = seq<string>

  // ------------------------------------------------------------------ normalisation

  function Expand(path: string, home: string): string {
    if path == "~" || "~/" <= path then home + path[1..] else path
  }

  function Absolute(path: string, cwd: string): string {
    if "/" <= path then path else (if cwd != "/" then cwd else "") + "/" + path
  }

  function Push(stack: Path, part: string): Path {
    if part == "" || part == "." then stack
    else if part == ".." then if stack == [] then [] else stack[..|stack| - 1]
    else stack + [part]
  }

  function Normalize(stack: Path, parts: seq<string>): Path
    decreases parts
  {
    if parts == [] then stack else Normalize(Push(stack, parts[0]), parts[1..])
  }

  /** The names a path denotes, before they are printed again. */
  function Names(path: string, cwd: string, home: string): Path {
    Normalize([], Split(Absolute(Expand(path, home), cwd), SLASH))
  }

  function Render(names: Path): string {
    "/" + Join(names, SLASH)
  }

  /** The canonical text of a path; a lone dash stays as it is. */
  function Canonical(path: string, cwd: string, home: string): string {
    if path == "-" then path else Render(Names(path, cwd, home))
  }

  method Canonicalize(path: string, cwd: string, home: string) returns (r: string)
    ensures r == Canonical(path, cwd, home)
  {
    var text := path;
    if text == "~" || "~/" <= text {
      text := home + text[1..];
    } else if text == "-" {
      return text;
    }
    if !("/" <= text) {
      var base := if cwd != "/" then cwd else "";
      text := base + "/" + text;
    }
    var pieces := Split(text, SLASH);
    var parts: seq<string> := [];
    for i := 0 to |pieces|
      invariant Normalize(parts, pieces[i..]) == Normalize([], pieces)
    {
      var part := pieces[i];
      assert pieces[i..][0] == part && pieces[i..][1..] == pieces[i + 1..];
      if part == "" || part == "." {
        continue;
      }
      if part == ".." {
        if parts != [] {
          parts := parts[..|parts| - 1];
        }
        continue;
      }
      parts := parts + [part];
    }
    r := Render(parts);
  }

  // ------------------------------------------------------------------ parents and components

  function RStrip(s: string): string {
    if s != [] && s[|s| - 1] == SLASH then RStrip(s[..|s| - 1]) else s
  }

  function LStrip(s: string): string {
    if s != [] && s[0] == SLASH then LStrip(s[1..]) else s
  }

  /** Position of the last slash, or -1. */
  function LastSlash(s: string): (i: int)
    ensures -1 <= i < |s|
  {
    if s == [] then -1
    else if s[|s| - 1] == SLASH then |s| - 1
    else LastSlash(s[..|s| - 1])
  }

  function ParentPath(abs: string): string {
    if abs == "/" then "/"
    else
      var t := RStrip(abs);
      var i := LastSlash(t);
      if i <= 0 then "/" else t[..i]
  }

  function BaseName(abs: string): string {
    abs[LastSlash(abs) + 1..]
  }

  function Components(abs: string): Path {
    if abs == "/" then [] else Split(RStrip(LStrip(abs)), SLASH)
  }

  // ------------------------------------------------------------------ normal forms

  predicate IsName(s: string) {
    s != "" && s != "." && s != ".." && SLASH !in s
  }

  predicate IsNormal(names: Path) {
    forall n :: n in names ==> IsName(n)
  }

  /** What Canonicalize returns: printed names, or the lone dash. */
  ghost predicate IsCanonical(abs: string) {
    abs == "-" || exists names: Path :: IsNormal(names) && abs == Render(names)
  }

  lemma {:induction false} NormalizeIsNormal(stack: Path, parts: seq<string>)
    requires IsNormal(stack) && forall p :: p in parts ==> SLASH !in p
    ensures IsNormal(Normalize(stack, parts))
    decreases parts
  {
    if parts != [] {
      NormalizeIsNormal(Push(stack, parts[0]), parts[1..]);
    }
  }

  lemma {:induction false} NormalizeConcat(stack: Path, a: seq<string>, b: seq<string>)
    ensures Normalize(stack, a + b) == Normalize(Normalize(stack, a), b)
    decreases a
  {
    if a == [] {
      assert a + b == b;
    } else {
      assert (a + b)[1..] == a[1..] + b;
      NormalizeConcat(Push(stack, a[0]), a[1..], b);
    }
  }

  lemma {:induction false} NormalizeOfNormal(stack: Path, names: Path)
    requires IsNormal(names)
    ensures Normalize(stack, names) == stack + names
    decreases names
  {
    if names != [] {
      assert names[0] in names;
      NormalizeOfNormal(stack + [names[0]], names[1..]);
      assert stack + [names[0]] + names[1..] == stack + names;
    }
  }

  lemma SplitRender(names: Path)
    requires IsNormal(names)
    ensures Split(Render(names), SLASH) == if names == [] then ["", ""] else [""] + names
  {
    var joined := Join(names, SLASH);
    assert Render(names) == [] + [SLASH] + joined;
    SplitAtSep([], joined, SLASH);
    if names != [] {
      SplitJoin(names, SLASH);
    }
  }

  lemma NormalizeRender(names: Path, stack: Path)
    requires IsNormal(names)
    ensures Normalize(stack, Split(Render(names), SLASH)) == stack + names
  {
    SplitRender(names);
    NormalizeOfNormal(stack, names);
    NormalizeConcat(stack, [""], if names == [] then [""] else names);
    assert Normalize(stack, [""]) == stack;
  }

  lemma NamesAreNormal(path: string, cwd: string, home: string)
    ensures IsNormal(Names(path, cwd, home))
  {
    var text := Absolute(Expand(path, home), cwd);
    SplitPiecesPlain(text, SLASH);
    NormalizeIsNormal([], Split(text, SLASH));
  }

  /** Normalisation yields a normal form, for every path, working directory and home. */
  lemma CanonicalIsCanonical(path: string, cwd: string, home: string)
    ensures IsCanonical(Canonical(path, cwd, home))
  {
    NamesAreNormal(path, cwd, home);
  }

  lemma NamesOfRender(names: Path, cwd: string, home: string)
    requires IsNormal(names)
    ensures Names(Render(names), cwd, home) == names && Canonical(Render(names), cwd, home) == Render(names)
  {
    NormalizeRender(names, []);
    assert Render(names)[0] == SLASH;
    assert [] + names == names;
  }

  /** Normalising twice is normalising once, whatever the second working directory and home are. */
  lemma CanonicalIdempotent(path: string, cwd: string, home: string, cwd': string, home': string)
    ensures Canonical(Canonical(path, cwd, home), cwd', home') == Canonical(path, cwd, home)
  {
    if path != "-" {
      NamesAreNormal(path, cwd, home);
      NamesOfRender(Names(path, cwd, home), cwd', home');
    }
  }

  // ------------------------------------------------------------------ composition

  /** Relative, and not one of the spellings with a meaning of their own. */
  predicate Plain(b: string) {
    !("/" <= b) && b != "~" && !("~/" <= b) && b != "-"
  }

  ghost predicate Composes(a: string, b: string, cwd: string, home: string) {
    Canonical(a + "/" + b, cwd, home) == Canonical(b, Canonical(a, cwd, home), home)
  }

  lemma SplitSlash(a: string, b: string)
    ensures Split(a + "/" + b, SLASH) == Split(a, SLASH) + Split(b, SLASH)
  {
    assert a + "/" + b == a + [SLASH] + b;
    SplitAtSep(a, b, SLASH);
  }

  /** A plain path continues the names of its working directory. */
  lemma NamesContinue(b: string, names: Path, home: string)
    requires Plain(b) && IsNormal(names)
    ensures Names(b, Render(names), home) == Normalize(names, Split(b, SLASH))
  {
    var pieces := Split(b, SLASH);
    if names == [] {
      assert Render(names) == "/";
      SplitSlash("", b);
      NormalizeConcat([], [""], pieces);
      assert Absolute(b, "/") == "" + "/" + b;
    } else {
      var base := Render(names);
      assert |Join(names, SLASH)| > 0 by {
        assert names[0] in names && |names[0]| > 0;
      }
      assert Absolute(b, base) == base + "/" + b;
      SplitSlash(base, b);
      NormalizeConcat([], Split(base, SLASH), pieces);
      NormalizeRender(names, []);
      assert [] + names == names;
    }
  }

  lemma ExpandJoined(a: string, b: string, home: string)
    ensures Expand(a + "/" + b, home) == Expand(a, home) + "/" + b
  {
    var path := a + "/" + b;
    TildeJoined(a, b);
    if a == "~" {
      assert path[1..] == "/" + b && home + a[1..] == home;
    } else if "~/" <= a {
      assert path[1..] == a[1..] + "/" + b;
      assert home + (a[1..] + "/" + b) == home + a[1..] + "/" + b;
    }
  }

  lemma TildeJoined(a: string, b: string)
    ensures a + "/" + b != "~"
    ensures "~/" <= a + "/" + b <==> a == "~" || "~/" <= a
  {
    var path := a + "/" + b;
    assert path[|a|] == SLASH;
    if |a| >= 2 {
      assert path[0] == a[0] && path[1] == a[1];
    } else if |a| == 1 {
      assert path[0] == a[0];
    }
  }

  lemma AbsoluteJoined(e: string, b: string, cwd: string)
    requires e != ""
    ensures Absolute(e + "/" + b, cwd) == Absolute(e, cwd) + "/" + b
  {
    assert (e + "/" + b)[0] == e[0];
    var base := (if cwd != "/" then cwd else "") + "/";
    assert base + (e + "/" + b) == base + e + "/" + b;
  }

  lemma NamesOfJoined(a: string, b: string, cwd: string, home: string)
    requires Expand(a, home) != ""
    ensures a + "/" + b != "-"
    ensures Names(a + "/" + b, cwd, home) == Normalize(Names(a, cwd, home), Split(b, SLASH))
  {
    assert (a + "/" + b)[|a|] == SLASH;
    ExpandJoined(a, b, home);
    AbsoluteJoined(Expand(a, home), b, cwd);
    hide Expand, Absolute;
    var text := Absolute(Expand(a, home), cwd);
    SplitSlash(text, b);
    NormalizeConcat([], Split(text, SLASH), Split(b, SLASH));
  }

  lemma ComposesWhenRooted(a: string, b: string, cwd: string, home: string)
    requires Plain(b) && Expand(a, home) != "" && a != "-"
    ensures Composes(a, b, cwd, home)
  {
    NamesOfJoined(a, b, cwd, home);
    NamesAreNormal(a, cwd, home);
    NamesContinue(b, Names(a, cwd, home), home);
  }

  lemma RootIsNoNames(cwd: string, home: string)
    ensures Canonical(".", cwd, home) == "/" <==> Names(".", cwd, home) == []
  {
    NamesAreNormal(".", cwd, home);
    if Names(".", cwd, home) != [] {
      JoinEnds(Names(".", cwd, home));
    }
  }

  /** After a lone dash the rest is taken from `-`, relative to nothing. */
  lemma ComposesAfterDash(b: string, cwd: string, home: string)
    requires Plain(b)
    ensures Names(".", cwd, home) == [] ==> Composes("-", b, cwd, home)
    ensures Names(".", cwd, home) != [] && b == "x" ==> !Composes("-", b, cwd, home)
  {
    var here := Names(".", cwd, home);
    assert "-" + "/" + b == "-/" + b && ("-/" + b)[1] == SLASH;
    DashJoined(b, cwd, home);
    NamesAreNormal(".", cwd, home);
    hide Names, Render;
    assert [] + ["-"] == ["-"];
    if here != [] && b == "x" {
      SplitPlain("x", SLASH);
      NormalizeOfNormal(here + ["-"], ["x"]);
      NormalizeOfNormal(["-"], ["x"]);
      assert |here + ["-"] + ["x"]| > |["-"] + ["x"]|;
      if Render(here + ["-"] + ["x"]) == Render(["-"] + ["x"]) {
        RenderInjective(here + ["-"] + ["x"], ["-"] + ["x"]);
        assert false;
      }
    }
  }

  /** After a path that vanishes the rest is taken from the root. */
  lemma ComposesAfterNothing(a: string, b: string, cwd: string, home: string)
    requires Plain(b) && Expand(a, home) == ""
    ensures Names(".", cwd, home) == [] ==> Composes(a, b, cwd, home)
    ensures Names(".", cwd, home) != [] && b == "x" ==> !Composes(a, b, cwd, home)
  {
    var here := Names(".", cwd, home);
    assert (a + "/" + b)[|a|] == SLASH && a != "-";
    VanishedJoined(a, b, cwd, home);
    NamesAreNormal(".", cwd, home);
    hide Names, Render, Expand;
    if here != [] && b == "x" {
      SplitPlain("x", SLASH);
      NormalizeOfNormal([], ["x"]);
      NormalizeOfNormal(here, ["x"]);
      assert |here + ["x"]| > |[] + ["x"]|;
      if Render([] + ["x"]) == Render(here + ["x"]) {
        RenderInjective([] + ["x"], here + ["x"]);
        assert false;
      }
    }
  }

  lemma RenderInjective(a: Path, b: Path)
    requires IsNormal(a) && IsNormal(b) && Render(a) == Render(b)
    ensures a == b
  {
    ComponentsOfRender(a);
    ComponentsOfRender(b);
  }

  lemma DotNames(cwd: string, home: string)
    ensures Names(".", cwd, home) == Names("", cwd, home) == Normalize([], Split(if cwd != "/" then cwd else "", SLASH))
  {
    var base := if cwd != "/" then cwd else "";
    SplitSlash(base, ".");
    SplitSlash(base, "");
    SplitPlain(".", SLASH);
    NormalizeConcat([], Split(base, SLASH), ["."]);
    NormalizeConcat([], Split(base, SLASH), [""]);
    var here := Normalize([], Split(base, SLASH));
    assert Normalize(here, ["."]) == here && Normalize(here, [""]) == here;
  }

  lemma DashHere(cwd: string, home: string)
    ensures Names("-", cwd, home) == Names(".", cwd, home) + ["-"]
  {
    var base := if cwd != "/" then cwd else "";
    assert Absolute(Expand("-", home), cwd) == base + "/" + "-";
    hide Absolute, Expand;
    SplitSlash(base, "-");
    SplitPlain("-", SLASH);
    NormalizeConcat([], Split(base, SLASH), ["-"]);
    DotNames(cwd, home);
    var here := Names(".", cwd, home);
    assert Normalize(here, ["-"]) == here + ["-"];
  }

  lemma BelowDash(b: string, home: string)
    requires Plain(b)
    ensures Names(b, "-", home) == Normalize(["-"], Split(b, SLASH))
  {
    assert Absolute(Expand(b, home), "-") == "-" + "/" + b;
    hide Absolute, Expand;
    SplitSlash("-", b);
    SplitPlain("-", SLASH);
    NormalizeConcat([], ["-"], Split(b, SLASH));
    assert Normalize([], ["-"]) == ["-"];
  }

  lemma DashJoined(b: string, cwd: string, home: string)
    requires Plain(b)
    ensures Names("-/" + b, cwd, home) == Normalize(Names(".", cwd, home) + ["-"], Split(b, SLASH))
    ensures Names(b, "-", home) == Normalize(["-"], Split(b, SLASH))
  {
    hide Names, Normalize, Split, Plain;
    NamesOfJoined("-", b, cwd, home);
    assert "-" + "/" + b == "-/" + b;
    DashHere(cwd, home);
    BelowDash(b, home);
  }

  lemma VanishedJoined(a: string, b: string, cwd: string, home: string)
    requires Plain(b) && Expand(a, home) == ""
    ensures Names(a + "/" + b, cwd, home) == Normalize([], Split(b, SLASH))
    ensures Names(b, Render(Names(a, cwd, home)), home) == Normalize(Names(".", cwd, home), Split(b, SLASH))
  {
    FromRoot(a, b, cwd, home);
    DotNames(cwd, home);
    assert Names(a, cwd, home) == Names("", cwd, home) by {
      assert Expand("", home) == "";
    }
    hide Normalize, Split, Plain, Names, Render;
    NamesAreNormal(a, cwd, home);
    NamesContinue(b, Names(a, cwd, home), home);
  }

  lemma FromRoot(a: string, b: string, cwd: string, home: string)
    requires Expand(a, home) == ""
    ensures Names(a + "/" + b, cwd, home) == Normalize([], Split(b, SLASH))
  {
    ExpandJoined(a, b, home);
    assert Expand(a + "/" + b, home) == "/" + b;
    assert Absolute("/" + b, cwd) == "/" + b;
    hide Expand, Absolute;
    SplitSlash("", b);
    assert "" + "/" + b == "/" + b;
    NormalizeConcat([], [""], Split(b, SLASH));
  }

  /**
   * Joining two paths with a slash is resolving the second from where the first leads, for every plain
   * second path, exactly when the first neither vanishes nor is a lone dash, or we start at the root.
   */
  lemma CompositionExactly(a: string, cwd: string, home: string)
    ensures (forall b :: Plain(b) ==> Composes(a, b, cwd, home))
              <==> (Expand(a, home) != "" && a != "-") || Canonical(".", cwd, home) == "/"
  {
    if Expand(a, home) != "" && a != "-" {
      forall b | Plain(b)
        ensures Composes(a, b, cwd, home)
      {
        ComposesWhenRooted(a, b, cwd, home);
      }
    } else {
      RootIsNoNames(cwd, home);
      hide Composes, Names, Canonical;
      assert Plain("x");
      forall b | Plain(b)
        ensures Names(".", cwd, home) == [] ==> Composes(a, b, cwd, home)
        ensures Names(".", cwd, home) != [] && b == "x" ==> !Composes(a, b, cwd, home)
      {
        if a == "-" {
          ComposesAfterDash(b, cwd, home);
        } else {
          ComposesAfterNothing(a, b, cwd, home);
        }
      }
    }
  }

  /**
   * What a path is taken relative to: `~` is the home directory, alone or before a slash and nowhere else; an
   * absolute path does not depend on the working directory; any other path continues it; `-` alone is itself.
   */
  lemma BasesExactly(path: string, rest: string, cwd: string, home: string)
    requires "/" <= home && "/" <= cwd
    ensures Canonical("-", cwd, home) == "-"
    ensures Canonical("~", cwd, home) == Canonical(home, cwd, home)
    ensures Canonical("~/" + rest, cwd, home) == Canonical(home + "/" + rest, cwd, home)
    ensures forall cwd': string, home': string :: "/" <= path ==> Canonical(path, cwd, home) == Canonical(path, cwd', home')
    ensures path != "-" && path != "~" && !("~/" <= path) && !("/" <= path) ==>
      Canonical(path, cwd, home) == Canonical(if cwd == "/" then "/" + path else cwd + "/" + path, cwd, home)
  {
    hide Normalize, Split, Render;
    assert home[0] == '/' && home != "-" && home != "~" && !("~/" <= home);
    TildeIsHome(rest, cwd, home);
    if "/" <= path {
      assert path[0] == '/';
      assert path != "-" && path != "~" && !("~/" <= path);
    }
    var full := if cwd == "/" then "/" + path else cwd + "/" + path;
    assert "" + "/" + path == "/" + path;
    RootedIsItself(full, cwd, home) by {
      assert full[0] == if cwd == "/" then '/' else cwd[0];
    }
  }

  lemma TildeIsHome(rest: string, cwd: string, home: string)
    requires "/" <= home
    ensures Expand("~", home) == home && Expand("~/" + rest, home) == home + "/" + rest
    ensures "~/" + rest != "-" && home + "/" + rest != "-"
    ensures Expand(home, home) == home && Expand(home + "/" + rest, home) == home + "/" + rest
  {
    assert ("~/" + rest)[1..] == "/" + rest && "~"[1..] == "" && home + "" == home;
    assert home[0] == '/' && (home + "/" + rest)[0] == '/' && ("~/" + rest)[0] == '~';
    assert home + ("/" + rest) == home + "/" + rest;
    assert "~/" <= "~/" + rest;
  }

  lemma RootedIsItself(path: string, cwd: string, home: string)
    requires path != "" && path[0] == '/'
    ensures Absolute(Expand(path, home), cwd) == path && path != "-"
  {
    assert "/" <= path && !("~/" <= path) && path != "~";
  }

  // ------------------------------------------------------------------ parents, names and components agree

  lemma {:induction false} StripsNothing(s: string)
    requires s != "" && s[0] != SLASH && s[|s| - 1] != SLASH
    ensures LStrip(s) == s && RStrip(s) == s && LStrip("/" + s) == s && RStrip("/" + s) == "/" + s
  {
    assert ("/" + s)[1..] == s;
  }

  lemma {:induction false} JoinEnds(names: Path)
    requires IsNormal(names) && names != []
    ensures var s := Join(names, SLASH); s != "" && s[0] != SLASH && s[|s| - 1] != SLASH
  {
    assert names[0] in names && names[0][0] in names[0];
    if |names| > 1 {
      JoinEnds(names[1..]);
    } else {
      assert names[0][|names[0]| - 1] in names[0];
    }
  }

  lemma ComponentsOfRender(names: Path)
    requires IsNormal(names)
    ensures Components(Render(names)) == names
  {
    if names != [] {
      JoinEnds(names);
      StripsNothing(Join(names, SLASH));
      SplitJoin(names, SLASH);
    }
  }

  lemma {:induction false} JoinSnoc(names: Path, last: string)
    ensures Join(names + [last], SLASH) == if names == [] then last else Join(names, SLASH) + "/" + last
  {
    if names == [] {
      assert [] + [last] == [last];
    } else {
      assert (names + [last])[1..] == names[1..] + [last];
      JoinSnoc(names[1..], last);
      if |names| > 1 {
        assert Join(names + [last], SLASH) == names[0] + [SLASH] + (Join(names[1..], SLASH) + "/" + last);
      }
    }
  }

  lemma {:induction false} LastSlashBefore(a: string, last: string)
    requires SLASH !in last
    ensures LastSlash(a + "/" + last) == |a|
    decreases last
  {
    if last != "" {
      var s, n := a + "/" + last, |last| - 1;
      assert s[..|s| - 1] == a + "/" + last[..n];
      assert s[|s| - 1] == last[n] && last[n] in last;
      LastSlashBefore(a, last[..n]);
    }
  }

  lemma ParentAndNameOf(base: string, last: string)
    requires SLASH !in last && last != ""
    ensures ParentPath(base + "/" + last) == if base == "" then "/" else base
    ensures BaseName(base + "/" + last) == last
  {
    var abs := base + "/" + last;
    LastSlashBefore(base, last);
    hide LastSlash;
    assert abs[|abs| - 1] == last[|last| - 1] && last[|last| - 1] in last;
    assert RStrip(abs) == abs && abs != "/";
    assert abs[..|base|] == base && abs[|base| + 1..] == last;
  }

  /** The parent and the base name of printed names are the names before the last, and the last. */
  lemma ParentOfRender(names: Path)
    requires IsNormal(names) && names != []
    ensures ParentPath(Render(names)) == Render(names[..|names| - 1])
    ensures BaseName(Render(names)) == names[|names| - 1]
  {
    hide ParentPath, BaseName;
    var init, last := names[..|names| - 1], names[|names| - 1];
    assert names == init + [last] && last in names;
    JoinSnoc(init, last);
    if init == [] {
      assert Render(names) == "" + "/" + last;
      ParentAndNameOf("", last);
    } else {
      assert Render(names) == Render(init) + "/" + last;
      ParentAndNameOf(Render(init), last);
    }
  }

  /** The lone dash behaves as the child of the root with that name. */
  lemma DashIsAChildOfRoot()
    ensures ParentPath("-") == "/" && BaseName("-") == "-" && Components("-") == ["-"] == Components("/-")
  {
    SplitPlain("-", SLASH);
    assert LStrip("/-") == "-";
  }

  lemma ComponentsOfParent(names: Path)
    requires IsNormal(names) && names != []
    ensures names == Components(ParentPath(Render(names))) + [BaseName(Render(names))]
  {
    var init := names[..|names| - 1];
    ParentOfRender(names);
    ComponentsOfRender(init);
    hide Render, Components, ParentPath, BaseName;
    assert names == init + [names[|names| - 1]];
  }

  /** For every canonical text, parent and base name split its components at the last one. */
  lemma ParentSplitsComponents(abs: string)
    requires IsCanonical(abs) && abs != "/"
    ensures Components(abs) != [] && IsNormal(Components(abs))
    ensures Components(abs) == Components(ParentPath(abs)) + [BaseName(abs)]
    ensures ParentPath(abs) == Render(Components(ParentPath(abs)))
  {
    hide ParentPath, BaseName, Components;
    if abs == "-" {
      DashIsAChildOfRoot();
      RootAndDash();
    } else {
      var names: Path :| IsNormal(names) && abs == Render(names);
      assert names != [] by {
        assert Join([], SLASH) == "";
      }
      NamesSplitAtLast(names);
    }
  }

  lemma RootAndDash()
    ensures Components("/") == [] && Render([]) == "/" && IsNormal(["-"])
  {
  }

  lemma NamesSplitAtLast(names: Path)
    requires IsNormal(names) && names != []
    ensures Components(Render(names)) == names
    ensures names == Components(ParentPath(Render(names))) + [BaseName(Render(names))]
    ensures ParentPath(Render(names)) == Render(Components(ParentPath(Render(names))))
  {
    hide ParentPath, BaseName, Components, Render;
    ComponentsOfRender(names);
    ComponentsOfParent(names);
    ParentOfRender(names);
    ComponentsOfRender(names[..|names| - 1]);
  }
}
