/** Text as UTF-8 bytes: white space around it, and its order. */
module Texts {
  import opened Common
  import opened Paths

  // -------------------------------------------------------------------- trimming

  /** c is one character of the Unicode property White_Space. */
  predicate White(c: Text) {
    || (|c| == 1 && (9 <= c[0] <= 13 || c[0] == 32))
    || (|c| == 2 && c[0] == 0xC2 && (c[1] == 0x85 || c[1] == 0xA0))
    || (|c| == 3 && c[0] == 0xE1 && c[1] == 0x9A && c[2] == 0x80)
    || (|c| == 3 && c[0] == 0xE2 && c[1] == 0x80 && (0x80 <= c[2] <= 0x8A || c[2] in {0xA8, 0xA9, 0xAF}))
    || (|c| == 3 && c[0] == 0xE2 && c[1] == 0x81 && c[2] == 0x9F)
    || (|c| == 3 && c[0] == 0xE3 && c[1] == 0x80 && c[2] == 0x80)
  }

  predicate StartsWhite(s: Text, n: nat) { n <= |s| && White(s[..n]) }

  predicate EndsWhite(s: Text, n: nat) { n <= |s| && White(s[|s| - n..]) }

  /** `str::trim_start` */
  function TrimFront(s: Text): Text
    decreases |s|
  {
    if StartsWhite(s, 1) then TrimFront(s[1..])
    else if StartsWhite(s, 2) then TrimFront(s[2..])
    else if StartsWhite(s, 3) then TrimFront(s[3..])
    else s
  }

  function TrimBack(s: Text): Text
    decreases |s|
  {
    if EndsWhite(s, 1) then TrimBack(s[..|s| - 1])
    else if EndsWhite(s, 2) then TrimBack(s[..|s| - 2])
    else if EndsWhite(s, 3) then TrimBack(s[..|s| - 3])
    else s
  }

  /** `str::trim` */
  function Trim(s: Text): Text { TrimBack(TrimFront(s)) }

  function Concat(chars: seq<Text>): Text {
    if chars == [] then [] else chars[0] + Concat(chars[1..])
  }

  ghost predicate AllWhite(chars: seq<Text>) { forall i :: 0 <= i < |chars| ==> White(chars[i]) }

  lemma {:induction false} ConcatAppend(chars: seq<Text>, c: Text)
    ensures Concat(chars + [c]) == Concat(chars) + c
  {
    if chars == [] {
      assert chars + [c] == [c] && [c][1..] == [] && c + [] == c;
    } else {
      ConcatAppend(chars[1..], c);
      assert (chars + [c])[1..] == chars[1..] + [c];
      Regroup(chars[0], Concat(chars[1..]), c);
    }
  }

  lemma {:induction false} ConcatPrepend(c: Text, chars: seq<Text>)
    ensures Concat([c] + chars) == c + Concat(chars)
  {
    assert ([c] + chars)[1..] == chars;
  }

  /** t is s without the white space characters a and b around it, and has none of its own there. */
  ghost predicate Middle(s: Text, a: seq<Text>, t: Text, b: seq<Text>) {
    && s == Concat(a) + t + Concat(b) && AllWhite(a) && AllWhite(b)
    && (forall n: nat :: !StartsWhite(t, n)) && (forall n: nat :: !EndsWhite(t, n))
  }

  lemma {:induction false} FrontTrimmed(s: Text) returns (a: seq<Text>)
    ensures s == Concat(a) + TrimFront(s) && AllWhite(a) && forall n: nat :: !StartsWhite(TrimFront(s), n)
    decreases |s|
  {
    var m := if StartsWhite(s, 1) then 1 else if StartsWhite(s, 2) then 2 else if StartsWhite(s, 3) then 3 else 0;
    if m == 0 {
      a := [];
    } else {
      hide White, Concat;
      var rest := FrontTrimmed(s[m..]);
      a := [s[..m]] + rest;
      ConcatPrepend(s[..m], rest);
      assert s == s[..m] + s[m..];
      Regroup(s[..m], Concat(rest), TrimFront(s[m..]));
    }
  }

  lemma {:induction false} NoChars()
    ensures Concat([]) == []
  {
  }

  lemma {:induction false} LastChar(s: Text, m: nat)
    requires EndsWhite(s, m) || (m == 0 && !EndsWhite(s, 1) && !EndsWhite(s, 2) && !EndsWhite(s, 3))
    ensures if m == 0 then forall n: nat :: !EndsWhite(s, n) else m <= |s| && White(s[|s| - m..])
  {
    forall n: nat | EndsWhite(s, n) ensures 1 <= n <= 3 { assert |s[|s| - n..]| == n; }
  }

  lemma {:induction false} BackTrimmed(s: Text) returns (b: seq<Text>)
    ensures s == TrimBack(s) + Concat(b) && AllWhite(b) && forall n: nat :: !EndsWhite(TrimBack(s), n)
    decreases |s|
  {
    hide White, Concat, EndsWhite;
    var m := if EndsWhite(s, 1) then 1 else if EndsWhite(s, 2) then 2 else if EndsWhite(s, 3) then 3 else 0;
    LastChar(s, m);
    if m == 0 {
      b := [];
      NoChars();
    } else {
      var front, last := s[..|s| - m], s[|s| - m..];
      var rest := BackTrimmed(front);
      b := rest + [last];
      ConcatAppend(rest, last);
      assert s == front + last;
      Regroup(TrimBack(front), Concat(rest), last);
    }
  }

  /** White space goes from both ends, all of it, and nothing else does. */
  lemma {:induction false} TrimIsMiddle(s: Text)
    ensures exists a, b :: Middle(s, a, Trim(s), b)
  {
    hide TrimFront, TrimBack, White, Concat;
    var f := TrimFront(s);
    var a := FrontTrimmed(s);
    var b := BackTrimmed(f);
    var t := TrimBack(f);
    forall n: nat ensures !StartsWhite(t, n) {
      assert n <= |t| ==> f[..n] == t[..n];
      assert !StartsWhite(f, n);
    }
    Regroup(Concat(a), t, Concat(b));
    assert Middle(s, a, Trim(s), b);
  }

  // ----------------------------------------------------------------------- order

  /** The byte order of strings. */
  predicate Before(a: Text, b: Text) {
    if b == [] then false
    else if a == [] then true
    else a[0] < b[0] || (a[0] == b[0] && Before(a[1..], b[1..]))
  }

  lemma {:induction false} BeforeTotal(a: Text, b: Text)
    ensures a == b || Before(a, b) || Before(b, a)
    ensures Before(a, b) ==> a != b && !Before(b, a)
  {
    if a != [] && b != [] {
      BeforeTotal(a[1..], b[1..]);
      assert a == [a[0]] + a[1..] && b == [b[0]] + b[1..];
    }
  }

  lemma {:induction false} BeforeTrans(a: Text, b: Text, c: Text)
    requires Before(a, b) && Before(b, c)
    ensures Before(a, c)
  {
    if a != [] { if a[0] == b[0] == c[0] { BeforeTrans(a[1..], b[1..], c[1..]); } }
  }

  /** k is the first key. */
  ghost predicate First<T>(m: map<Text, T>, k: Text) {
    k in m && forall x :: x in m ==> x == k || Before(k, x)
  }

  method FirstKey<T>(m: map<Text, T>) returns (k: Text)
    requires m != map[]
    ensures First(m, k)
  {
    hide Before;
    k := AnyKey(m);
    var rest := m - {k};
    while rest != map[]
      invariant k in m && forall x :: x in m && x !in rest ==> x == k || Before(k, x)
      invariant forall x :: x in rest ==> x in m
      decreases |rest|
    {
      var x := AnyKey(rest);
      BeforeTotal(k, x);
      if Before(x, k) {
        forall y | y in m && y !in rest ensures Before(x, y) {
          if y != k { BeforeTrans(x, k, y); }
        }
        k := x;
      }
      Fewer(rest, x);
      rest := rest - {x};
    }
  }

  lemma {:induction false} Fewer<T>(m: map<Text, T>, k: Text)
    requires k in m
    ensures |m - {k}| < |m|
  {
    assert (m - {k}).Keys == m.Keys - {k};
  }

  /** The values of m in the order of their keys. */
  ghost predicate Listing<T>(s: seq<T>, keys: seq<Text>, m: map<Text, T>) {
    && |s| == |keys|
    && (forall i :: 0 <= i < |s| ==> keys[i] in m && m[keys[i]] == s[i])
    && (forall i, j :: 0 <= i < j < |keys| ==> Before(keys[i], keys[j]))
    && (forall k :: k in m ==> k in keys)
  }

  /** `BTreeMap::into_values` */
  method IntoValues<T>(m: map<Text, T>) returns (s: seq<T>, ghost keys: seq<Text>)
    ensures Listing(s, keys, m)
  {
    hide Before;
    var rest := m;
    s, keys := [], [];
    while rest != map[]
      invariant Listing(s, keys, m - rest.Keys)
      invariant forall x :: x in rest ==> x in m && rest[x] == m[x]
      invariant forall i, x :: 0 <= i < |keys| && x in rest ==> Before(keys[i], x)
      decreases |rest|
    {
      var k := FirstKey(rest);
      ListNext(s, keys, m, rest, k);
      Fewer(rest, k);
      s := s + [rest[k]];
      keys := keys + [k];
      rest := rest - {k};
    }
    assert m - rest.Keys == m;
  }

  lemma {:induction false} ListNext<T>(s: seq<T>, keys: seq<Text>, m: map<Text, T>, rest: map<Text, T>, k: Text)
    requires Listing(s, keys, m - rest.Keys) && First(rest, k)
    requires forall x :: x in rest ==> x in m && rest[x] == m[x]
    requires forall i, x :: 0 <= i < |keys| && x in rest ==> Before(keys[i], x)
    ensures Listing(s + [rest[k]], keys + [k], m - (rest - {k}).Keys)
    ensures forall i, x :: 0 <= i < |keys + [k]| && x in rest - {k} ==> Before((keys + [k])[i], x)
  {
    hide Before;
    var done, done' := m - rest.Keys, m - (rest - {k}).Keys;
    forall x ensures x in done' <==> x in done || x == k {}
    forall x | x in done' ensures x in keys + [k] {}
  }
}
