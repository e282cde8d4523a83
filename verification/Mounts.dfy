/** The mount table: file systems at normal-form paths, and which one a path belongs to. */
module Mounts {
  import opened Common
  import opened Paths

  datatype Record<F> = Record(fs: F, source: Option<Text>)

  type Table<F> = map<Text, Record<F>>

  ghost predicate Normal(t: Text) { exists parts :: AllClean(parts) && t == Render(parts) }

  /** The components of a normal form. */
  ghost function Parts(t: Text): (parts: seq<Text>)
    requires Normal(t)
    ensures AllClean(parts) && t == Render(parts)
  {
    var parts :| AllClean(parts) && t == Render(parts);
    parts
  }

  /** A mount at t serves p: its components are the first components of p. */
  ghost predicate Serves(t: Text, p: Text)
    requires Normal(t) && Normal(p)
  {
    Parts(t) <= Parts(p)
  }

  /** The test `resolve` makes, on bytes. */
  predicate Matches(t: Text, p: Text) {
    t == ROOT || p == t || (t <= p && |t| < |p| && p[|t|] == SLASH)
  }

  // ---------------------------------------------- byte prefix and component prefix

  lemma {:induction false} PartsOf(parts: seq<Text>)
    requires AllClean(parts)
    ensures Normal(Render(parts)) && Parts(Render(parts)) == parts
  {
    RenderInjective(parts, Parts(Render(parts)));
  }

  /** Cutting a joined path at a slash cuts it between components. */
  lemma {:induction false} CutAtSlash(a: seq<Text>, b: seq<Text>)
    requires AllClean(a) && AllClean(b)
    requires Join(a) <= Join(b) && (|Join(a)| == |Join(b)| || Join(b)[|Join(a)|] == SLASH)
    ensures a <= b
  {
    if a != [] {
      assert Join(a)[0] == SLASH && b != [];
      var x, y := a[0] + Join(a[1..]), b[0] + Join(b[1..]);
      assert Join(a) == [SLASH] + x && Join(b) == [SLASH] + y;
      assert x == Join(a)[1..] && y == Join(b)[1..];
      assert x <= y;
      SameFirst(a[0], Join(a[1..]), b[0], Join(b[1..]));
      assert Join(a[1..]) <= Join(b[1..]);
      CutAtSlash(a[1..], b[1..]);
      assert a == [a[0]] + a[1..] && b == [b[0]] + b[1..];
    }
  }

  /** A component ends where the next slash is. */
  lemma {:induction false} SameFirst(c: Text, x: Text, d: Text, y: Text)
    requires SLASH !in c && SLASH !in d && c + x <= d + y
    requires x == [] || x[0] == SLASH
    requires y == [] || y[0] == SLASH
    requires |c + x| == |d + y| || (d + y)[|c + x|] == SLASH
    ensures c == d && x <= y
  {
    var s, t := c + x, d + y;
    assert forall i :: 0 <= i < |c| ==> s[i] == c[i] != SLASH;
    assert forall i :: 0 <= i < |d| ==> t[i] == d[i] != SLASH;
    assert |c| < |s| ==> s[|c|] == SLASH;
    assert |d| < |t| ==> t[|d|] == SLASH;
    assert forall i :: 0 <= i < |s| ==> s[i] == t[i];
    assert |c| == |d|;
    assert c == s[..|c|] == t[..|c|] == d;
    assert x == s[|c|..] && y == t[|c|..];
  }

  /** The byte test and the component test agree on normal forms. */
  lemma {:induction false} MatchesIsServes(t: Text, p: Text)
    requires Normal(t) && Normal(p)
    ensures Matches(t, p) <==> Serves(t, p)
  {
    var a, b := Parts(t), Parts(p);
    if Serves(t, p) {
      var c := b[|a|..];
      assert b == a + c;
      JoinConcat(a, c);
      if a != [] && c != [] { assert p[|t|] == Join(c)[0]; }
    }
    if Matches(t, p) && t != ROOT {
      if b == [] { PartsOf([]); }
      CutAtSlash(a, b);
    }
    if t == ROOT { PartsOf([]); }
  }

  /** Among the mounts that serve p, a longer one has more components. */
  lemma {:induction false} LongerIsDeeper(t: Text, u: Text, p: Text)
    requires Normal(t) && Normal(u) && Normal(p) && Serves(t, p) && Serves(u, p)
    ensures |t| >= |u| ==> Parts(u) <= Parts(t)
    ensures |t| == |u| ==> t == u
  {
    var a, b := Parts(t), Parts(u);
    if |a| < |b| { Shorter(a, b); } else if |b| < |a| { Shorter(b, a); } else { assert a == b; }
  }

  lemma {:induction false} Shorter(a: seq<Text>, b: seq<Text>)
    requires AllClean(a) && AllClean(b) && a < b
    ensures |Render(a)| < |Render(b)|
  {
    assert b == a + b[|a|..];
    JoinConcat(a, b[|a|..]);
    JoinLong(b[|a|..]);
  }

  // ---------------------------------------------------------------------- resolve

  ghost predicate TableOk<F>(m: Table<F>) { forall t :: t in m ==> Normal(t) }

  /** r is the deepest mount that serves p, or None if none does. */
  ghost predicate Resolves<F>(m: Table<F>, p: Text, r: Option<Text>)
    requires TableOk(m) && Normal(p)
  {
    match r
    case None => forall t :: t in m ==> !Serves(t, p)
    case Some(t) => t in m && Serves(t, p) && forall u :: u in m && Serves(u, p) ==> Parts(u) <= Parts(t)
  }

  lemma {:induction false} ResolvesOnce<F>(m: Table<F>, p: Text, r: Option<Text>, r': Option<Text>)
    requires TableOk(m) && Normal(p) && Resolves(m, p, r) && Resolves(m, p, r')
    ensures r == r'
  {
    if r.Some? && r'.Some? {
      assert Parts(r.value) == Parts(r'.value);
    }
  }

  /** A mount at t, new, replaced or gone, changes nothing for paths that are not under t. */
  lemma {:induction false} OnlyBelow<F>(m: Table<F>, t: Text, x: Record<F>, p: Text, r: Option<Text>)
    requires TableOk(m) && Normal(t) && Normal(p) && !Serves(t, p)
    ensures TableOk(m[t := x]) && TableOk(m - {t})
    ensures Resolves(m[t := x], p, r) <==> Resolves(m, p, r)
    ensures Resolves(m - {t}, p, r) <==> Resolves(m, p, r)
    ensures Resolves(m, p, r) && r.Some? ==> r.value != t
  {
    assert m[t := x].Keys == m.Keys + {t};
    assert (m - {t}).Keys == m.Keys - {t};
  }

  /** Below t, mounting t leaves in place exactly the mounts deeper than t. */
  lemma {:induction false} BelowMount<F>(m: Table<F>, t: Text, x: Record<F>, p: Text, r: Option<Text>)
    requires TableOk(m) && Normal(t) && Normal(p) && Serves(t, p) && Resolves(m, p, r)
    ensures TableOk(m[t := x])
    ensures Resolves(m[t := x], p, if r.Some? && Parts(t) <= Parts(r.value) then r else Some(t))
  {
    var m' := m[t := x];
    if r.Some? {
      var a, b := Parts(t), Parts(r.value);
      assert a <= b || b <= a by { Comparable(a, b, Parts(p)); }
    }
    assert t in m';
    if !(r.Some? && Parts(t) <= Parts(r.value)) {
      forall u | u in m' && Serves(u, p) ensures Parts(u) <= Parts(t) {
        if u != t { Below(Parts(u), Parts(r.value), Parts(t)); }
      }
    }
  }

  lemma {:induction false} Comparable(a: seq<Text>, b: seq<Text>, c: seq<Text>)
    requires a <= c && b <= c
    ensures a <= b || b <= a
  {
  }

  lemma {:induction false} Below(a: seq<Text>, b: seq<Text>, c: seq<Text>)
    requires a <= b && b <= c
    ensures a <= c
  {
  }

  class MountTable<F(==)> {
    var mounts: Table<F>

    ghost predicate Valid()
      reads this
    {
      TableOk(mounts)
    }

    constructor ()
      ensures Valid() && mounts == map[]
    {
      mounts := map[];
    }

    method Mount(target: Text, fs: F, source: Option<Text>) returns (r: Result<(), FsError>)
      requires Valid()
      modifies this
      ensures Valid()
      ensures var t := Render(Target(ROOT, target));
        && r == (if target == [] then Err(NotFound) else if t != ROOT && t in old(mounts) then Err(Busy) else Ok(()))
        && mounts == if r.Err? then old(mounts) else old(mounts)[t := Record(fs, if t == ROOT then None else source)]
    {
      var n := NormalizePath(ROOT, target);
      if n.Err? {
        return Err(n.error);
      }
      TargetClean(ROOT, target);
      PartsOf(Target(ROOT, target));
      if n.value == ROOT {
        mounts := mounts[ROOT := Record(fs, None)];
        return Ok(());
      }
      if n.value in mounts {
        return Err(Busy);
      }
      mounts := mounts[n.value := Record(fs, source)];
      r := Ok(());
    }

    method Umount(target: Text) returns (r: Result<(), FsError>)
      requires Valid()
      modifies this
      ensures Valid()
      ensures var t := Render(Target(ROOT, target));
        && r == (if target == [] then Err(NotFound)
                 else if t == ROOT then Err(Busy)
                 else if t in old(mounts) then Ok(())
                 else Err(NotFound))
        && mounts == if r.Ok? then old(mounts) - {t} else old(mounts)
    {
      var n := NormalizePath(ROOT, target);
      if n.Err? {
        return Err(n.error);
      }
      if n.value == ROOT {
        return Err(Busy);
      }
      if n.value !in mounts {
        return Err(NotFound);
      }
      mounts := mounts - {n.value};
      r := Ok(());
    }

    /** The deepest mount above a path, in whatever order the table is read. */
    method Resolve(path: Text) returns (r: Option<(Text, F)>)
      requires Valid()
      ensures path == [] ==> r == None
      ensures path != [] ==>
        && Normal(Render(Target(ROOT, path)))
        && Resolves(mounts, Render(Target(ROOT, path)), if r.Some? then Some(r.value.0) else None)
        && (r.Some? ==> r.value.0 in mounts && r.value.1 == mounts[r.value.0].fs)
    {
      hide Matches, Serves, Normal;
      var n := NormalizePath(ROOT, path);
      if n.Err? {
        return None;
      }
      var p := n.value;
      TargetClean(ROOT, path);
      PartsOf(Target(ROOT, path));
      var todo, best := mounts.Keys, None;
      while todo != {}
        invariant todo <= mounts.Keys
        invariant best.Some? ==> best.value in mounts && best.value !in todo && Serves(best.value, p)
        invariant best == None ==> forall t :: t in mounts && t !in todo ==> !Serves(t, p)
        invariant best.Some? ==> forall t :: t in mounts && t !in todo && Serves(t, p) ==> Parts(t) <= Parts(best.value)
        decreases todo
      {
        var t :| t in todo;
        MatchesIsServes(t, p);
        if Matches(t, p) && !(best.Some? && |best.value| >= |t|) {
          if best.Some? { Deepest(mounts.Keys - todo, best.value, t, p); }
          best := Some(t);
        } else if Matches(t, p) {
          LongerIsDeeper(best.value, t, p);
        }
        todo := todo - {t};
      }
      r := if best.Some? then Some((best.value, mounts[best.value].fs)) else None;
    }
  }

  lemma {:induction false} Deepest(seen: set<Text>, best: Text, t: Text, p: Text)
    requires Normal(p) && Normal(t) && Normal(best) && Serves(t, p) && Serves(best, p) && |t| > |best|
    requires forall u :: u in seen ==> Normal(u)
    requires forall u :: u in seen && Serves(u, p) ==> Parts(u) <= Parts(best)
    ensures forall u :: u in seen && Serves(u, p) ==> Parts(u) <= Parts(t)
  {
    hide Serves, Normal;
    LongerIsDeeper(t, best, p);
    forall u | u in seen && Serves(u, p) ensures Parts(u) <= Parts(t) { Below(Parts(u), Parts(best), Parts(t)); }
  }
}
