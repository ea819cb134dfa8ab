/**
 The whitespace steps of `clean_text` (Functions.py:20 and 26): replacing
 each run of whitespace by one space, and stripping both ends.
 */
module Whitespace {
  import opened CharClasses
  import opened Tokens

  /** Every maximal run of whitespace becomes one plain space; everything
      else is kept in order. */
  function CollapseSpaces(s: string): (r: string)
    ensures |r| <= |s|
    ensures r == [] <==> s == []
    ensures r != [] ==> (IsSpace(r[0]) <==> IsSpace(s[0]))
    ensures r != [] ==> (IsSpace(r[|r| - 1]) <==> IsSpace(s[|s| - 1]))
    ensures forall c :: c in r ==> c in s || c == ' '
  {
    if s == [] then []
    else if IsSpace(s[0]) then
      if |s| > 1 && IsSpace(s[1]) then CollapseSpaces(s[1..])
      else [' '] + CollapseSpaces(s[1..])
    else [s[0]] + CollapseSpaces(s[1..])
  }

  /** Putting `c` in front of a single-spaced string keeps it single-spaced
      unless it makes a second whitespace character in a row. */
  lemma SingleSpacedCons(c: char, r: string)
    ensures SingleSpaced([c] + r) <==>
              SingleSpaced(r) && (IsSpace(c) ==> c == ' ' && (r == [] || !IsSpace(r[0])))
  {
    var s := [c] + r;
    assert forall x :: x in s <==> x == c || x in r;
    if SingleSpaced(s) {
      forall i | 0 < i < |r|
        ensures !IsSpace(r[i - 1]) || !IsSpace(r[i])
      {
        assert s[i] == r[i - 1] && s[i + 1] == r[i];
      }
      if r != [] {
        assert s[0] == c && s[1] == r[0];
      }
    }
    if SingleSpaced(r) && (IsSpace(c) ==> c == ' ' && (r == [] || !IsSpace(r[0]))) {
      forall i | 0 < i < |s|
        ensures !IsSpace(s[i - 1]) || !IsSpace(s[i])
      {
        if i > 1 {
          assert s[i - 1] == r[i - 2] && s[i] == r[i - 1];
        }
      }
    }
  }

  /** The result of `CollapseSpaces` has single plain spaces only. */
  lemma {:induction false} CollapseIsSingleSpaced(s: string)
    ensures SingleSpaced(CollapseSpaces(s))
    decreases |s|
  {
    if s != [] {
      CollapseIsSingleSpaced(s[1..]);
      if !IsSpace(s[0]) || !(|s| > 1 && IsSpace(s[1])) {
        SingleSpacedCons(if IsSpace(s[0]) then ' ' else s[0], CollapseSpaces(s[1..]));
      }
    }
  }

  /** Text that is already single-spaced is a fixed point of `CollapseSpaces`. */
  lemma {:induction false} CollapseFixpoint(s: string)
    requires SingleSpaced(s)
    ensures CollapseSpaces(s) == s
    decreases |s|
  {
    if s != [] {
      assert s == [s[0]] + s[1..];
      SingleSpacedCons(s[0], s[1..]);
      CollapseFixpoint(s[1..]);
    }
  }

  /** `str.lstrip()`: drops the leading whitespace and nothing else. */
  function StripLeft(s: string): (r: string)
    ensures |r| <= |s| && r == s[|s| - |r|..]
    ensures r == [] || !IsSpace(r[0])
    ensures forall i :: 0 <= i < |s| - |r| ==> IsSpace(s[i])
    ensures forall c :: c in r ==> c in s
    ensures forall c :: c in s && !IsSpace(c) ==> c in r
  {
    if s != [] && IsSpace(s[0]) then StripLeft(s[1..]) else s
  }

  /** `str.rstrip()`: drops the trailing whitespace and nothing else. */
  function StripRight(s: string): (r: string)
    ensures |r| <= |s| && r == s[..|r|]
    ensures r == [] || !IsSpace(r[|r| - 1])
    ensures forall i :: |r| <= i < |s| ==> IsSpace(s[i])
    ensures forall c :: c in r ==> c in s
    ensures forall c :: c in s && !IsSpace(c) ==> c in r
  {
    if s != [] && IsSpace(s[|s| - 1]) then StripRight(s[..|s| - 1]) else s
  }

  /** Everything of `s` before index `i` and from index `j` on is whitespace. */
  predicate BlankOutside(s: string, i: nat, j: nat)
    requires i <= j <= |s|
  {
    && (forall k :: 0 <= k < i ==> IsSpace(s[k]))
    && (forall k :: j <= k < |s| ==> IsSpace(s[k]))
  }

  /** `str.strip()`: no whitespace left at either end, no other character
      removed, and a string that is already trimmed is returned as is
      (`StripIsSlice` states that nothing inside is touched). */
  function Strip(s: string): (r: string)
    ensures Trimmed(r)
    ensures |r| <= |s|
    ensures forall c :: c in r ==> c in s
    ensures forall c :: c in s && !IsSpace(c) ==> c in r
    ensures Trimmed(s) ==> r == s
  {
    var l := StripLeft(s);
    var r := StripRight(l);
    assert r != [] ==> r[0] == l[0];
    r
  }

  /** `Strip(s)` is the slice of `s` between its leading and its trailing
      whitespace: only whitespace at the two ends is dropped. */
  lemma {:induction false} StripIsSlice(s: string)
    ensures exists i, j :: 0 <= i <= j <= |s| && Strip(s) == s[i..j] && BlankOutside(s, i, j)
  {
    var l := StripLeft(s);
    var r := StripRight(l);
    var i := |s| - |l|;
    BlankEnds(s, i, l, r);
    assert Strip(s) == s[i..i + |r|] && BlankOutside(s, i, i + |r|);
  }

  /** Dropping blank ends one after the other leaves a slice with blank
      surroundings. */
  lemma BlankEnds(s: string, i: nat, l: string, r: string)
    requires i <= |s| && l == s[i..] && |r| <= |l| && r == l[..|r|]
    requires forall k :: 0 <= k < i ==> IsSpace(s[k])
    requires forall k :: |r| <= k < |l| ==> IsSpace(l[k])
    ensures r == s[i..i + |r|] && BlankOutside(s, i, i + |r|)
  {
    forall k | i + |r| <= k < |s|
      ensures IsSpace(s[k])
    {
      assert s[k] == l[k - i];
    }
  }

  /** Stripping a single-spaced string leaves it single-spaced. */
  lemma StripKeepsSingleSpaced(s: string)
    requires SingleSpaced(s)
    ensures SingleSpaced(Strip(s))
  {
    StripIsSlice(s);
    var i, j :| 0 <= i <= j <= |s| && Strip(s) == s[i..j];
    SingleSpacedSlice(s, i, j);
  }

  /** Collapsing whitespace does not change the tokens `str.split()` sees. */
  lemma {:induction false} CollapseKeepsTokens(s: string)
    ensures Split(CollapseSpaces(s)) == Split(s)
    decreases |s|
  {
    if s == [] {
    } else if IsSpace(s[0]) {
      CollapseKeepsTokens(s[1..]);
      if !(|s| > 1 && IsSpace(s[1])) {
        assert ([' '] + CollapseSpaces(s[1..]))[1..] == CollapseSpaces(s[1..]);
      }
    } else {
      var n := WordLen(s);
      var w, y := s[..n], s[n..];
      assert s == w + y;
      CollapseWordPrefix(w, y);
      CollapseKeepsTokens(y);
      SplitToken(w, CollapseSpaces(y));
    }
  }

  /** A non-whitespace character in front passes through `CollapseSpaces`. */
  lemma CollapseCons(c: char, y: string)
    requires !IsSpace(c)
    ensures CollapseSpaces([c] + y) == [c] + CollapseSpaces(y)
  {
    assert ([c] + y)[1..] == y;
  }

  /** A prefix without whitespace passes through `CollapseSpaces` unchanged. */
  lemma {:induction false} CollapseWordPrefix(w: string, y: string)
    requires forall i :: 0 <= i < |w| ==> !IsSpace(w[i])
    ensures CollapseSpaces(w + y) == w + CollapseSpaces(y)
  {
    if w == [] {
      assert w + y == y;
    } else {
      var c, v := w[0], w[1..];
      assert w == [c] + v;
      forall i | 0 <= i < |v|
        ensures !IsSpace(v[i])
      {
        assert v[i] == w[i + 1];
      }
      calc {
        CollapseSpaces(w + y);
        { assert w + y == [c] + (v + y); }
        CollapseSpaces([c] + (v + y));
        { CollapseCons(c, v + y); }
        [c] + CollapseSpaces(v + y);
        { CollapseWordPrefix(v, y); }
        [c] + (v + CollapseSpaces(y));
        { assert [c] + (v + CollapseSpaces(y)) == ([c] + v) + CollapseSpaces(y); }
        w + CollapseSpaces(y);
      }
    }
  }

  /** Stripping does not change the tokens `str.split()` sees. */
  lemma StripKeepsTokens(s: string)
    ensures Split(Strip(s)) == Split(s)
  {
    StripLeftKeepsTokens(s);
    StripRightKeepsTokens(StripLeft(s));
  }

  /** Leading whitespace contributes no token. */
  lemma {:induction false} StripLeftKeepsTokens(s: string)
    ensures Split(StripLeft(s)) == Split(s)
    decreases |s|
  {
    if s != [] && IsSpace(s[0]) {
      StripLeftKeepsTokens(s[1..]);
    }
  }

  /** Trailing whitespace contributes no token. */
  lemma StripRightKeepsTokens(s: string)
    ensures Split(StripRight(s)) == Split(s)
  {
    var r := StripRight(s);
    var b := s[|r|..];
    forall c | c in b
      ensures IsSpace(c)
    {
      var i :| 0 <= i < |b| && b[i] == c;
      assert b[i] == s[|r| + i];
    }
    assert s == r + b;
    SplitBlankSuffix(r, b);
  }
}
