/** Paths as UTF-8 text: splitting, normalising and joining. */
module Paths {
  import opened Common

  type Text = seq<Byte>

  const SLASH: Byte := 47
  const DOT: Byte := 46
  const ROOT: Text := [SLASH]

  datatype FsError = NotFound | Busy | InvalidInput

  // ------------------------------------------------------------- split and join

  /** `str::split('/')` */
  function Split(s: Text): (r: seq<Text>)
    ensures |r| > 0
  {
    if s == [] then [[]]
    else if s[0] == SLASH then [[]] + Split(s[1..])
    else [[s[0]] + Split(s[1..])[0]] + Split(s[1..])[1..]
  }

  /** Each component after a slash. */
  function Join(parts: seq<Text>): Text {
    if parts == [] then [] else [SLASH] + parts[0] + Join(parts[1..])
  }

  /** The normal form of a path with these components. */
  function Render(parts: seq<Text>): (r: Text)
    ensures r != [] && r[0] == SLASH
  {
    if parts == [] then ROOT else Join(parts)
  }

  predicate Skipped(c: Text) { c == [] || c == [DOT] }

  predicate Clean(c: Text) { !Skipped(c) && c != [DOT, DOT] && SLASH !in c }

  predicate AllClean(parts: seq<Text>) { forall i :: 0 <= i < |parts| ==> Clean(parts[i]) }

  lemma {:induction false} SplitHasNoSlash(s: Text)
    ensures forall i :: 0 <= i < |Split(s)| ==> SLASH !in Split(s)[i]
  {
    if s != [] { SplitHasNoSlash(s[1..]); }
  }

  lemma {:induction false} SplitAt(c: Text, rest: Text)
    requires SLASH !in c
    ensures Split(c) == [c]
    ensures Split(c + [SLASH] + rest) == [c] + Split(rest)
  {
    var s := c + [SLASH] + rest;
    if c == [] {
      assert s[1..] == rest;
    } else {
      var t := c[1..] + [SLASH] + rest;
      assert s[1..] == t;
      SplitAt(c[1..], rest);
      assert c == [c[0]] + c[1..];
    }
  }

  /** Splitting undoes joining. */
  lemma {:induction false} SplitJoin(parts: seq<Text>)
    requires parts != [] && forall i :: 0 <= i < |parts| ==> SLASH !in parts[i]
    ensures Split(Join(parts)) == [[]] + parts
    ensures Split(Join(parts)[1..]) == parts
  {
    hide Split;
    var c, rest := parts[0], parts[1..];
    assert Join(parts)[1..] == c + Join(rest);
    assert Join(parts) == [SLASH] + (c + Join(rest));
    SplitAt([], c + Join(rest));
    assert [] + [SLASH] + (c + Join(rest)) == Join(parts);
    if rest == [] {
      assert c + Join(rest) == c;
      SplitAt(c, []);
    } else {
      SplitJoin(rest);
      var y := Join(rest)[1..];
      assert c + Join(rest) == c + [SLASH] + y;
      SplitAt(c, y);
      assert parts == [c] + rest;
    }
  }

  lemma {:induction false} JoinConcat(a: seq<Text>, b: seq<Text>)
    ensures Join(a + b) == Join(a) + Join(b)
  {
    if a == [] {
      assert a + b == b;
    } else {
      assert (a + b)[1..] == a[1..] + b;
      JoinConcat(a[1..], b);
      Regroup([SLASH] + a[0], Join(a[1..]), Join(b));
    }
  }

  lemma {:induction false} Regroup(x: Text, y: Text, z: Text)
    ensures x + (y + z) == (x + y) + z
  {
  }

  /** Normal forms determine their components. */
  lemma {:induction false} RenderInjective(a: seq<Text>, b: seq<Text>)
    requires AllClean(a) && AllClean(b) && Render(a) == Render(b)
    ensures a == b
  {
    if a != [] { SplitJoin(a); JoinLong(a); }
    if b != [] { SplitJoin(b); JoinLong(b); }
    assert a != [] && b != [] ==> a == ([[]] + a)[1..] && b == ([[]] + b)[1..];
  }

  lemma {:induction false} JoinLong(a: seq<Text>)
    requires a != [] && AllClean(a)
    ensures |Join(a)| > 1
  {
  }

  // ------------------------------------------------------------- normalisation

  /** What one component does to the stack. */
  function Enter(stack: seq<Text>, c: Text): seq<Text> {
    if Skipped(c) then stack
    else if c == [DOT, DOT] then (if stack == [] then stack else stack[..|stack| - 1])
    else stack + [c]
  }

  function Walk(stack: seq<Text>, comps: seq<Text>): seq<Text>
    decreases comps
  {
    if comps == [] then stack else Walk(Enter(stack, comps[0]), comps[1..])
  }

  /** Where a path leads from a working directory. */
  function Target(cwd: Text, input: Text): seq<Text> {
    Walk(if input != [] && input[0] == SLASH then [] else Walk([], Split(cwd)), Split(input))
  }

  lemma {:induction false} WalkClean(stack: seq<Text>, comps: seq<Text>)
    requires AllClean(stack) && forall i :: 0 <= i < |comps| ==> SLASH !in comps[i]
    ensures AllClean(Walk(stack, comps))
    decreases comps
  {
    if comps != [] { WalkClean(Enter(stack, comps[0]), comps[1..]); }
  }

  lemma {:induction false} WalkSnoc(stack: seq<Text>, comps: seq<Text>, c: Text)
    ensures Walk(stack, comps + [c]) == Enter(Walk(stack, comps), c)
    decreases comps
  {
    if comps == [] {
      assert comps + [c] == [c];
    } else {
      assert (comps + [c])[1..] == comps[1..] + [c];
      WalkSnoc(Enter(stack, comps[0]), comps[1..], c);
    }
  }

  /** Clean components are all entered. */
  lemma {:induction false} WalkAll(stack: seq<Text>, parts: seq<Text>)
    requires AllClean(parts)
    ensures Walk(stack, parts) == stack + parts
    decreases parts
  {
    if parts == [] {
      assert stack + parts == stack;
    } else {
      WalkAll(stack + [parts[0]], parts[1..]);
      assert parts == [parts[0]] + parts[1..];
      assert (stack + [parts[0]]) + parts[1..] == stack + parts;
    }
  }

  lemma {:induction false} TargetClean(cwd: Text, input: Text)
    ensures AllClean(Target(cwd, input))
  {
    SplitHasNoSlash(cwd);
    SplitHasNoSlash(input);
    WalkClean([], Split(cwd));
    WalkClean(if input != [] && input[0] == SLASH then [] else Walk([], Split(cwd)), Split(input));
  }

  /** A normal form leads, from anywhere, to its own components. */
  lemma {:induction false} TargetOfNormal(cwd: Text, parts: seq<Text>)
    requires AllClean(parts)
    ensures Target(cwd, Render(parts)) == parts
  {
    if parts == [] {
      assert ROOT[1..] == [];
      assert Split(ROOT) == [[]] + Split([]);
      assert Walk([], Split(ROOT)) == [] by { WalkSkips([], Split([])); assert Walk([], [[]]) == Walk([], []); }
    } else {
      SplitJoin(parts);
      WalkSkips([], parts);
      WalkAll([], parts);
    }
  }

  lemma {:induction false} WalkSkips(stack: seq<Text>, comps: seq<Text>)
    ensures Walk(stack, [[]] + comps) == Walk(stack, comps)
  {
    assert ([[]] + comps)[1..] == comps;
  }

  lemma {:induction false} SplitBoth(a: Text, b: Text)
    ensures Split(a + [SLASH] + b) == Split(a) + Split(b)
  {
    var s := a + [SLASH] + b;
    if a == [] {
      assert s == [SLASH] + b && s[1..] == b;
    } else {
      SplitBoth(a[1..], b);
      assert s[1..] == a[1..] + [SLASH] + b && s[0] == a[0];
      FirstComponent(s, Split(a[1..]) + Split(b));
      FirstComponent(a, Split(a[1..]));
      Widened(a[0], Split(a[1..]), Split(b));
    }
  }

  /** The components, given those of the rest of the text. */
  function Widen(b: Byte, rest: seq<Text>): seq<Text>
    requires rest != []
  {
    if b == SLASH then [[]] + rest else [[b] + rest[0]] + rest[1..]
  }

  lemma {:induction false} FirstComponent(s: Text, rest: seq<Text>)
    requires s != [] && Split(s[1..]) == rest
    ensures rest != [] && Split(s) == Widen(s[0], rest)
  {
  }

  lemma {:induction false} Widened(b: Byte, x: seq<Text>, y: seq<Text>)
    requires x != []
    ensures Widen(b, x + y) == Widen(b, x) + y
  {
    assert (x + y)[1..] == x[1..] + y && (x + y)[0] == x[0];
  }

  lemma {:induction false} TargetLast(cwd: Text, p: Text, c: Text)
    requires p != [] && SLASH !in c
    ensures Target(cwd, p + [SLASH] + c) == Enter(Target(cwd, p), c)
  {
    hide Walk, Split, Enter;
    var s := p + [SLASH] + c;
    assert s[0] == p[0];
    SplitBoth(p, c);
    SplitAt(c, []);
    WalkSnoc(if p[0] == SLASH then [] else Walk([], Split(cwd)), Split(p), c);
  }

  /** After a path, ".." leads to the directory above, and at the root nowhere else. */
  lemma {:induction false} DotDotGoesUp(cwd: Text, p: Text)
    requires p != []
    ensures var here := Target(cwd, p);
      Target(cwd, p + [SLASH] + [DOT, DOT]) == if here == [] then [] else here[..|here| - 1]
  {
    TargetLast(cwd, p, [DOT, DOT]);
  }

  /** A name leads one directory down, and nothing or "." stays. */
  lemma {:induction false} NamesGoDown(cwd: Text, p: Text, c: Text)
    requires p != [] && SLASH !in c && c != [DOT, DOT]
    ensures Target(cwd, p + [SLASH] + c) == if c == [] || c == [DOT] then Target(cwd, p) else Target(cwd, p) + [c]
  {
    TargetLast(cwd, p, c);
  }

  /** Where paths of one component lead. */
  lemma {:induction false} OneComponent(cwd: Text, c: Text)
    requires SLASH !in c && c != []
    ensures Target(cwd, ROOT) == []
    ensures var here := Target(ROOT, cwd);
      Target(cwd, c) ==
        if c == [DOT] then here
        else if c == [DOT, DOT] then (if here == [] then [] else here[..|here| - 1])
        else here + [c]
  {
    hide Split;
    RootLeadsNowhere();
    SplitAt(c, []);
    assert [c][1..] == [];
    var here := Target(ROOT, cwd);
    assert Walk(here, [c]) == Walk(Enter(here, c), []) == Enter(here, c);
  }

  lemma {:induction false} RootLeadsNowhere()
    ensures Walk([], Split(ROOT)) == []
  {
    assert ROOT[1..] == [];
    assert Split(ROOT) == [[]] + Split([]);
    WalkSkips([], Split([]));
    assert Walk([], [[]]) == Walk([], []);
  }

  /** An absolute path leads to the same place from everywhere. */
  lemma {:induction false} AbsoluteIgnoresCwd(cwd: Text, cwd': Text, p: Text)
    requires p != [] && p[0] == SLASH
    ensures Target(cwd, p) == Target(cwd', p)
  {
  }

  /** A relative path leads where it leads behind the normal form of the working directory. */
  lemma {:induction false} RelativeStartsAtCwd(cwd: Text, cwd': Text, p: Text)
    requires p != [] && p[0] != SLASH
    ensures Target(cwd, p) == Target(cwd', Render(Target(ROOT, cwd)) + [SLASH] + p)
  {
    hide Walk;
    RootLeadsNowhere();
    var here := Target(ROOT, cwd);
    assert here == Walk([], Split(cwd));
    TargetClean(ROOT, cwd);
    TargetOfNormal(cwd', here);
    var base := Render(here);
    assert (base + [SLASH] + p)[0] == SLASH;
    SplitBoth(base, p);
    WalkConcat([], Split(base), Split(p));
  }

  lemma {:induction false} WalkConcat(stack: seq<Text>, a: seq<Text>, b: seq<Text>)
    ensures Walk(stack, a + b) == Walk(Walk(stack, a), b)
    decreases a
  {
    if a == [] {
      assert a + b == b;
    } else {
      assert (a + b)[1..] == a[1..] + b;
      WalkConcat(Enter(stack, a[0]), a[1..], b);
    }
  }

  /** "/a/../b" is "/b". */
  lemma {:induction false} DotDotExample()
    ensures Render(Target(ROOT, [SLASH, 97, SLASH, DOT, DOT, SLASH, 98])) == [SLASH, 98]
  {
    hide Target;
    assert [SLASH, 97, SLASH, DOT, DOT, SLASH, 98] == [SLASH, 97, SLASH, DOT, DOT] + [SLASH] + [98];
    NamesGoDown(ROOT, [SLASH, 97, SLASH, DOT, DOT], [98]);
    assert [SLASH, 97, SLASH, DOT, DOT] == [SLASH, 97] + [SLASH] + [DOT, DOT];
    DotDotGoesUp(ROOT, [SLASH, 97]);
    JoinOne([97]);
    assert [SLASH] + [97] == [SLASH, 97] == Render([[97]]);
    TargetOfNormal(ROOT, [[97]]);
    assert Target(ROOT, [SLASH, 97])[..0] == [] && [] + [[98]] == [[98]];
    JoinOne([98]);
    assert [SLASH] + [98] == [SLASH, 98];
  }

  /** `parts` after the components of `text`: the loop both copies of `normalize_path` have. */
  method WalkText(stack: seq<Text>, text: Text) returns (parts: seq<Text>)
    ensures parts == Walk(stack, Split(text))
  {
    var comps := Split(text);
    parts := stack;
    for i := 0 to |comps|
      invariant parts == Walk(stack, comps[..i])
    {
      assert comps[..i + 1] == comps[..i] + [comps[i]];
      WalkSnoc(stack, comps[..i], comps[i]);
      if Skipped(comps[i]) {
        continue;
      }
      if comps[i] == [DOT, DOT] {
        if parts != [] { parts := parts[..|parts| - 1]; }
      } else {
        parts := parts + [comps[i]];
      }
    }
    assert comps[..|comps|] == comps;
  }

  method RenderParts(parts: seq<Text>) returns (out: Text)
    ensures out == Render(parts)
  {
    if parts == [] {
      return ROOT;
    }
    out := ROOT;
    for i := 0 to |parts|
      invariant out == if i == 0 then ROOT else Join(parts[..i])
    {
      assert parts[..i + 1] == parts[..i] + [parts[i]];
      JoinConcat(parts[..i], [parts[i]]);
      JoinOne(parts[i]);
      if i != 0 {
        Regroup(out, [SLASH], parts[i]);
        out := out + [SLASH];
      } else {
        assert Join(parts[..0]) == [];
        assert Join(parts[..1]) == [SLASH] + parts[0];
      }
      out := out + parts[i];
    }
    assert parts[..|parts|] == parts;
  }

  lemma {:induction false} JoinOne(c: Text)
    ensures Join([c]) == [SLASH] + c
  {
    assert [c][1..] == [];
    assert ([SLASH] + c) + [] == [SLASH] + c;
  }

  /** `vfs::path::normalize_path` */
  method NormalizePath(cwd: Text, input: Text) returns (r: Result<Text, FsError>)
    ensures r == if input == [] then Err(NotFound) else Ok(Render(Target(cwd, input)))
  {
    if input == [] {
      return Err(NotFound);
    }
    var parts := [];
    if input[0] != SLASH {
      parts := WalkText([], cwd);
    }
    parts := WalkText(parts, input);
    var out := RenderParts(parts);
    r := Ok(out);
  }

  /** `FsState::normalize_path`, the copy that first puts a slash before its base: it agrees on all inputs. */
  method NormalizePathFromBase(base: Text, input: Text) returns (r: Result<Text, FsError>)
    ensures r == if input == [] then Err(NotFound) else Ok(Render(Target(base, input)))
  {
    if input == [] {
      return Err(NotFound);
    }
    var seed := base;
    if seed == [] || seed[0] != SLASH {
      seed := [SLASH] + seed;
      assert seed[1..] == base;
      WalkSkips([], Split(base));
    }
    var parts := [];
    if input[0] != SLASH {
      parts := WalkText([], seed);
    }
    parts := WalkText(parts, input);
    var out := RenderParts(parts);
    r := Ok(out);
  }

  /** Normal forms are fixed points, whatever the working directory, and every result is one. */
  lemma {:induction false} Idempotent(cwd: Text, input: Text, cwd': Text)
    requires input != []
    ensures Render(Target(cwd', Render(Target(cwd, input)))) == Render(Target(cwd, input))
  {
    TargetClean(cwd, input);
    TargetOfNormal(cwd', Target(cwd, input));
  }

  /** No component of a result is empty, "." or "..". */
  lemma {:induction false} NoSpecialComponents(cwd: Text, input: Text)
    requires input != [] && Render(Target(cwd, input)) != ROOT
    ensures Split(Render(Target(cwd, input)))[0] == [] && AllClean(Split(Render(Target(cwd, input)))[1..])
    ensures Split(Render(Target(cwd, input)))[1..] == Target(cwd, input)
  {
    TargetClean(cwd, input);
    var parts := Target(cwd, input);
    SplitJoin(parts);
    assert ([[]] + parts)[1..] == parts;
  }

  // ------------------------------------------------------------ parent and name

  function TrimEnd(s: Text): Text {
    if s != [] && s[|s| - 1] == SLASH then TrimEnd(s[..|s| - 1]) else s
  }

  /** The last slash, if there is one. */
  function LastSlash(s: Text): (r: Option<nat>)
    ensures r.Some? ==> r.value < |s| && s[r.value] == SLASH
  {
    if s == [] then None else if s[|s| - 1] == SLASH then Some(|s| - 1) else LastSlash(s[..|s| - 1])
  }

  /** `split_parent` */
  function SplitParent(path: Text): (Text, Text) {
    if path == ROOT then (ROOT, [])
    else
      var t := TrimEnd(path);
      match LastSlash(t)
      case None => (ROOT, t)
      case Some(i) => if i == 0 then (ROOT, t[1..]) else (t[..i], t[i + 1..])
  }

  /** For every path: the name has no slash, and parent, slash and name are the path without slashes at its end. */
  lemma {:induction false} ParentRejoins(path: Text)
    requires path != ROOT
    ensures var (parent, name) := SplitParent(path); var t := TrimEnd(path);
      && SLASH !in name
      && (parent + [SLASH] + name == t || (parent == ROOT && (name == t || [SLASH] + name == t)))
      && (SLASH in t && t[0] != SLASH ==> parent + [SLASH] + name == t)
  {
    hide TrimEnd;
    var t := TrimEnd(path);
    NoSlashAfter(t);
  }

  lemma {:induction false} NoSlashAfter(s: Text)
    ensures LastSlash(s) == None ==> SLASH !in s
    ensures LastSlash(s).Some? ==> SLASH !in s[LastSlash(s).value + 1..]
  {
    if s != [] && s[|s| - 1] != SLASH {
      var front := s[..|s| - 1];
      NoSlashAfter(front);
      assert s == front + [s[|s| - 1]];
      if LastSlash(s).Some? {
        var i := LastSlash(s).value + 1;
        assert s[i..] == front[i..] + [s[|s| - 1]];
      }
    }
  }

  lemma {:induction false} LastSlashBefore(a: Text, c: Text)
    requires SLASH !in c
    ensures LastSlash(a + [SLASH] + c) == Some(|a|)
  {
    if c != [] {
      var s := a + [SLASH] + c;
      assert s[..|s| - 1] == a + [SLASH] + c[..|c| - 1];
      LastSlashBefore(a, c[..|c| - 1]);
    }
  }

  /** A normal form falls apart into the normal form of its directory and its last component. */
  lemma {:induction false} ParentAndName(dir: seq<Text>, name: Text)
    requires AllClean(dir) && Clean(name)
    ensures SplitParent(Render(dir + [name])) == (Render(dir), name)
  {
    var p, d := Render(dir + [name]), Join(dir);
    JoinConcat(dir, [name]);
    JoinOne(name);
    Regroup(d, [SLASH], name);
    assert p == d + [SLASH] + name;
    assert p[|p| - 1] == name[|name| - 1];
    LastSlashBefore(d, name);
    assert p[|d| + 1..] == name && p[..|d|] == d;
  }
}
