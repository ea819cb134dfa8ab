/**
 Whitespace tokenisation as done by Python's `str.split()` without arguments
 and re-assembly with one space between tokens, the two halves of the
 stopword step of `clean_text` (Functions.py:28).
 */
module Tokens {
  import opened CharClasses

  /** A token of `str.split()`: non-empty and free of whitespace. */
  predicate IsToken(w: string) {
    w != [] && forall c :: c in w ==> !IsSpace(c)
  }

  /** No whitespace character other than the plain space U+0020, and never two
      whitespace characters side by side. */
  predicate SingleSpaced(s: string) {
    && (forall c :: c in s && IsSpace(c) ==> c == ' ')
    && (forall i :: 0 < i < |s| ==> !IsSpace(s[i - 1]) || !IsSpace(s[i]))
  }

  /** No whitespace at either end, as after `str.strip()`. */
  predicate Trimmed(s: string) {
    s == [] || (!IsSpace(s[0]) && !IsSpace(s[|s| - 1]))
  }

  /** Text without whitespace is trivially single-spaced and trimmed. */
  lemma NoSpaceShape(s: string)
    requires forall c :: c in s ==> !IsSpace(c)
    ensures SingleSpaced(s) && Trimmed(s)
  {
    forall i | 0 <= i < |s|
      ensures !IsSpace(s[i])
    {
      assert s[i] in s;
    }
  }

  /** Length of the run of non-whitespace characters that starts `s`. */
  function WordLen(s: string): (n: nat)
    ensures n <= |s|
    ensures forall i :: 0 <= i < n ==> !IsSpace(s[i])
    ensures n < |s| ==> IsSpace(s[n])
  {
    if s == [] || IsSpace(s[0]) then 0 else 1 + WordLen(s[1..])
  }

  /** `str.split()`: the maximal runs of non-whitespace characters, in order. */
  function Split(s: string): (ws: seq<string>)
    decreases |s|
    ensures forall w :: w in ws ==> IsToken(w)
    ensures forall w, c :: w in ws && c in w ==> c in s
    ensures ws == [] <==> forall c :: c in s ==> IsSpace(c)
  {
    if s == [] then []
    else if IsSpace(s[0]) then Split(s[1..])
    else
      var n := WordLen(s);
      [s[..n]] + Split(s[n..])
  }

  /** The tokens joined with one plain space between neighbours. */
  function Join(ws: seq<string>): (s: string)
    ensures forall c :: c in s ==> c == ' ' || exists w :: w in ws && c in w
    ensures (forall w :: w in ws ==> IsToken(w)) ==>
              SingleSpaced(s) && Trimmed(s) && (s == [] <==> ws == [])
  {
    if ws == [] then []
    else if |ws| == 1 then
      assert (forall v :: v in ws ==> IsToken(v)) ==>
               SingleSpaced(ws[0]) && Trimmed(ws[0]) && ws[0] != [] by {
        if forall v :: v in ws ==> IsToken(v) {
          assert ws[0] in ws;
          NoSpaceShape(ws[0]);
        }
      }
      ws[0]
    else
      assert (forall v :: v in ws ==> IsToken(v)) ==>
               var s := ws[0] + (" " + Join(ws[1..])); SingleSpaced(s) && Trimmed(s) by {
        if forall v :: v in ws ==> IsToken(v) {
          assert ws[0] in ws;
          assert forall v :: v in ws[1..] ==> v in ws;
          TokenSpaceShape(ws[0], Join(ws[1..]));
        }
      }
      ws[0] + (" " + Join(ws[1..]))
  }

  /** A token, one plain space and trimmed single-spaced text with something in
      it make trimmed single-spaced text. */
  lemma TokenSpaceShape(w: string, j: string)
    requires IsToken(w) && j != [] && SingleSpaced(j) && Trimmed(j)
    ensures SingleSpaced(w + (" " + j)) && Trimmed(w + (" " + j))
  {
    var s := w + (" " + j);
    forall i | 0 < i < |s|
      ensures !IsSpace(s[i - 1]) || !IsSpace(s[i])
    {
      if i < |w| {
        assert s[i - 1] == w[i - 1] && s[i - 1] in w;
      } else if i == |w| {
        assert s[i - 1] == w[|w| - 1] && s[i - 1] in w;
      } else if i == |w| + 1 {
        assert s[i] == j[0];
      } else {
        assert s[i - 1] == j[i - |w| - 2] && s[i] == j[i - |w| - 1];
      }
    }
    assert s[0] == w[0] && w[0] in w;
    assert s[|s| - 1] == j[|j| - 1];
  }

  /** Joining a list that starts with `w`. */
  lemma JoinCons(w: string, rest: seq<string>)
    ensures Join([w] + rest) == if rest == [] then w else w + (" " + Join(rest))
  {
    assert ([w] + rest)[1..] == rest;
  }

  /** A run of non-whitespace followed by whitespace or nothing is one word. */
  lemma {:induction false} WordLenAppend(w: string, y: string)
    requires forall c :: c in w ==> !IsSpace(c)
    requires y == [] || IsSpace(y[0])
    ensures WordLen(w + y) == |w|
  {
    if w != [] {
      assert (w + y)[1..] == w[1..] + y;
      WordLenAppend(w[1..], y);
    }
  }

  /** Splitting a token followed by whitespace or nothing yields that token first. */
  lemma SplitToken(w: string, y: string)
    requires IsToken(w)
    requires y == [] || IsSpace(y[0])
    ensures Split(w + y) == [w] + Split(y)
  {
    WordLenAppend(w, y);
    assert (w + y)[..|w|] == w;
    assert (w + y)[|w|..] == y;
  }

  /** Whitespace in front of a string contributes no token. */
  lemma {:induction false} SplitBlankPrefix(b: string, x: string)
    requires forall c :: c in b ==> IsSpace(c)
    ensures Split(b + x) == Split(x)
  {
    if b != [] {
      assert b[0] in b && (b + x)[0] == b[0];
      assert (b + x)[1..] == b[1..] + x;
      SplitBlankPrefix(b[1..], x);
    } else {
      assert b + x == x;
    }
  }

  /** Whitespace after a string contributes no token. */
  lemma {:induction false} SplitBlankSuffix(x: string, b: string)
    requires forall c :: c in b ==> IsSpace(c)
    ensures Split(x + b) == Split(x)
    decreases |x|
  {
    if x == [] {
      assert x + b == b;
    } else if IsSpace(x[0]) {
      assert (x + b)[1..] == x[1..] + b;
      SplitBlankSuffix(x[1..], b);
    } else {
      var n := WordLen(x);
      var y := x[n..];
      assert x == x[..n] + y;
      assert x + b == x[..n] + (y + b);
      assert IsToken(x[..n]);
      if y == [] {
        assert y + b == b;
        if b != [] {
          assert b[0] in b;
        }
        SplitToken(x[..n], b);
        SplitToken(x[..n], y);
      } else {
        SplitToken(x[..n], y + b);
        SplitToken(x[..n], y);
        SplitBlankSuffix(y, b);
      }
    }
  }

  /** Round trip: splitting the join of a token list gives the list back. */
  lemma {:induction false} SplitJoin(ws: seq<string>)
    requires forall w :: w in ws ==> IsToken(w)
    ensures Split(Join(ws)) == ws
  {
    if ws == [] {
    } else {
      var w, rest := ws[0], ws[1..];
      assert w in ws && IsToken(w);
      assert ws == [w] + rest;
      if rest == [] {
        assert w + [] == w;
        SplitToken(w, []);
      } else {
        assert forall v :: v in rest ==> v in ws;
        SplitJoin(rest);
        var j := Join(rest);
        SplitToken(w, " " + j);
        SplitBlankPrefix(" ", j);
        calc {
          Split(Join(ws));
          Split(w + (" " + j));
          [w] + Split(" " + j);
          [w] + Split(j);
          [w] + rest;
        }
      }
    }
  }

  /** Round trip the other way: trimmed single-spaced text is the join of
      its own tokens. */
  lemma {:induction false} JoinSplit(s: string)
    requires SingleSpaced(s) && Trimmed(s)
    ensures Join(Split(s)) == s
    decreases |s|
  {
    if s != [] {
      var n := WordLen(s);
      var w := s[..n];
      assert IsToken(w);
      if n == |s| {
        assert Split(s) == [w] by {
          assert s == w + [];
          SplitToken(w, []);
        }
        JoinCons(w, []);
      } else {
        var z := s[n + 1..];
        AfterFirstToken(s, n);
        assert s == w + (" " + z);
        assert Split(s) == [w] + Split(z) by {
          SplitToken(w, " " + z);
          SplitBlankPrefix(" ", z);
        }
        JoinSplit(z);
        assert Join(Split(s)) == w + (" " + z) by {
          JoinCons(w, Split(z));
        }
      }
    }
  }

  /** In trimmed single-spaced text, the first token is followed by exactly one
      plain space and then by trimmed single-spaced text with a token in it. */
  lemma AfterFirstToken(s: string, n: nat)
    requires SingleSpaced(s) && Trimmed(s)
    requires n == WordLen(s) < |s|
    ensures n + 1 < |s| && s[n] == ' '
    ensures SingleSpaced(s[n + 1..]) && Trimmed(s[n + 1..])
    ensures Split(s[n + 1..]) != []
  {
    assert s[n] in s;
    SingleSpacedSuffix(s, n + 1);
    var z := s[n + 1..];
    assert z[0] in z;
  }

  /** A suffix of single-spaced text is single-spaced. */
  lemma SingleSpacedSuffix(s: string, k: nat)
    requires k <= |s| && SingleSpaced(s)
    ensures SingleSpaced(s[k..])
  {
    var z := s[k..];
    forall i | 0 < i < |z|
      ensures !IsSpace(z[i - 1]) || !IsSpace(z[i])
    {
      assert z[i - 1] == s[k + i - 1] && z[i] == s[k + i];
    }
  }

  /** A slice of single-spaced text is single-spaced. */
  lemma SingleSpacedSlice(s: string, i: nat, j: nat)
    requires i <= j <= |s| && SingleSpaced(s)
    ensures SingleSpaced(s[i..j])
  {
    var z := s[i..j];
    forall k | 0 < k < |z|
      ensures !IsSpace(z[k - 1]) || !IsSpace(z[k])
    {
      assert z[k - 1] == s[i + k - 1] && z[k] == s[i + k];
    }
  }

  /** Joining the tokens of `s` never gives anything longer than `s`. */
  lemma {:induction false} JoinSplitLength(s: string)
    ensures |Join(Split(s))| <= |s|
    decreases |s|
  {
    if s == [] {
    } else if IsSpace(s[0]) {
      JoinSplitLength(s[1..]);
    } else {
      var n := WordLen(s);
      var rest := Split(s[n..]);
      JoinCons(s[..n], rest);
      if rest != [] {
        assert n < |s|;
        assert s[n..][0] == s[n] && s[n..][1..] == s[n + 1..];
        assert Split(s[n..]) == Split(s[n + 1..]);
        JoinSplitLength(s[n + 1..]);
      }
    }
  }
}
