/**
 The Arabic text normaliser `clean_text` (Functions.py:14-29): six steps
 chained over a string, with the stopword set taken as a parameter.
 */
module Functions {
  import opened CharClasses
  import opened Tokens
  import opened Whitespace

  /** Step 1 (Functions.py:16): deletes the diacritic class, keeps the rest in order. */
  function StripDiacritics(s: string): (r: string)
    ensures |r| <= |s|
    ensures forall c :: c in r <==> c in s && !IsDiacritic(c)
    ensures (forall c :: c in s ==> !IsDiacritic(c)) ==> r == s
  {
    if s == [] then []
    else if IsDiacritic(s[0]) then StripDiacritics(s[1..])
    else [s[0]] + StripDiacritics(s[1..])
  }

  /** Step 2 (Functions.py:18): deletes every character that is neither in the
      two Arabic blocks nor whitespace, keeps the rest in order. */
  function KeepArabicAndSpace(s: string): (r: string)
    ensures |r| <= |s|
    ensures forall c :: c in r <==> c in s && (InArabicBlocks(c) || IsSpace(c))
    ensures (forall c :: c in s ==> InArabicBlocks(c) || IsSpace(c)) ==> r == s
  {
    if s == [] then []
    else if InArabicBlocks(s[0]) || IsSpace(s[0]) then [s[0]] + KeepArabicAndSpace(s[1..])
    else KeepArabicAndSpace(s[1..])
  }

  /** Step 4 (Functions.py:21-25): replaces each letter variant by its canonical
      letter, position by position; every other character is left alone. */
  function FoldVariants(s: string): (r: string)
    ensures |r| == |s|
    ensures forall c :: c in r ==> !IsVariant(c)
    ensures forall i :: 0 <= i < |s| && !IsVariant(s[i]) ==> r[i] == s[i]
    ensures forall i :: 0 <= i < |s| && IsVariant(s[i]) ==> IsCanonicalChar(r[i])
    ensures forall i :: 0 <= i < |s| ==> (IsSpace(r[i]) <==> IsSpace(s[i]))
  {
    if s == [] then [] else [Fold(s[0])] + FoldVariants(s[1..])
  }

  /** Folding works position by position: each character is replaced by its
      own fold and by nothing else, so each variant becomes exactly the
      letter `Fold` names (bare alef, yeh, bare hamza or heh). */
  lemma {:induction false} FoldVariantsPointwise(s: string)
    ensures forall i :: 0 <= i < |s| ==> FoldVariants(s)[i] == Fold(s[i])
  {
    if s != [] {
      FoldVariantsPointwise(s[1..]);
    }
  }

  /** Text without letter variants is a fixed point of folding. */
  lemma FoldFixpoint(s: string)
    requires forall c :: c in s ==> !IsVariant(c)
    ensures FoldVariants(s) == s
  {
    forall i | 0 <= i < |s|
      ensures FoldVariants(s)[i] == s[i]
    {
      assert s[i] in s;
    }
  }

  /** Steps 1 to 3 (Functions.py:16-20): only single plain spaces and
      non-diacritic characters of the two Arabic blocks are left, with no
      whitespace at either end. */
  function ArabicOnly(s: string): (c: string)
    ensures |c| <= |s|
    ensures Trimmed(c)
    ensures forall x :: x in c ==> IsSpace(x) || (InArabicBlocks(x) && !IsDiacritic(x))
  {
    var b := KeepArabicAndSpace(StripDiacritics(s));
    var m := CollapseSpaces(b);
    assert forall x :: x in m && !IsSpace(x) ==> x in b;
    Strip(m)
  }

  /** After steps 1 to 3 the only whitespace is single plain spaces. */
  lemma ArabicOnlySingleSpaced(s: string)
    ensures SingleSpaced(ArabicOnly(s))
  {
    var m := CollapseSpaces(KeepArabicAndSpace(StripDiacritics(s)));
    CollapseIsSingleSpaced(KeepArabicAndSpace(StripDiacritics(s)));
    StripKeepsSingleSpaced(m);
  }

  /** Steps 1 to 5 (Functions.py:16-26): everything before the stopword filter. */
  function Prepare(s: string): (t: string)
    ensures |t| <= |s|
  {
    CollapseSpaces(FoldVariants(ArabicOnly(s)))
  }

  /** The tokens of `ws` that are not stopwords, in their original order. */
  function KeptTokens(ws: seq<string>, stopWords: set<string>): (r: seq<string>)
    ensures |r| <= |ws|
    ensures forall w :: w in r <==> w in ws && w !in stopWords
    ensures (forall w :: w in ws ==> w !in stopWords) ==> r == ws
  {
    if ws == [] then []
    else if ws[0] in stopWords then KeptTokens(ws[1..], stopWords)
    else [ws[0]] + KeptTokens(ws[1..], stopWords)
  }

  /** Step 6 (Functions.py:28): splits on whitespace, drops the stopwords and
      joins the survivors with one space. The tokens of the result are exactly
      the surviving tokens, none of them a stopword. */
  function RemoveStopwords(t: string, stopWords: set<string>): (r: string)
    ensures Split(r) == KeptTokens(Split(t), stopWords)
    ensures forall w :: w in Split(r) ==> w !in stopWords
    ensures SingleSpaced(r) && Trimmed(r)
    ensures |r| <= |t|
  {
    var ws := KeptTokens(Split(t), stopWords);
    SplitJoin(ws);
    JoinSplitLength(t);
    JoinKeptLength(Split(t), stopWords);
    Join(ws)
  }

  /** `clean_text` (Functions.py:14-29). Never longer than its input. */
  function CleanText(s: string, stopWords: set<string>): (r: string)
    ensures |r| <= |s|
  {
    RemoveStopwords(Prepare(s), stopWords)
  }

  // ---------------------------------------------------------------------------
  // Properties of the deletion steps

  /** Step 1 works character by character: deleting from a concatenation is
      concatenating the deletions, so the survivors keep their order and
      number. */
  lemma {:induction false} StripDiacriticsAppend(a: string, b: string)
    ensures StripDiacritics(a + b) == StripDiacritics(a) + StripDiacritics(b)
  {
    if a == [] {
      assert a + b == b;
    } else {
      assert (a + b)[0] == a[0];
      assert (a + b)[1..] == a[1..] + b;
      StripDiacriticsAppend(a[1..], b);
    }
  }

  /** Step 2 works character by character in the same way. */
  lemma {:induction false} KeepArabicAndSpaceAppend(a: string, b: string)
    ensures KeepArabicAndSpace(a + b) == KeepArabicAndSpace(a) + KeepArabicAndSpace(b)
  {
    if a == [] {
      assert a + b == b;
    } else {
      assert (a + b)[0] == a[0];
      assert (a + b)[1..] == a[1..] + b;
      KeepArabicAndSpaceAppend(a[1..], b);
    }
  }

  /** Steps 1 to 4 already leave single plain spaces only, so the second
      whitespace collapse (Functions.py:26) changes nothing. */
  lemma SecondCollapseIsIdentity(s: string)
    ensures Prepare(s) == FoldVariants(ArabicOnly(s))
  {
    var c := ArabicOnly(s);
    var d := FoldVariants(c);
    ArabicOnlySingleSpaced(s);
    forall x | x in d && IsSpace(x)
      ensures x == ' '
    {
      var i :| 0 <= i < |d| && d[i] == x;
      assert c[i] in c;
    }
    forall i | 0 < i < |d|
      ensures !IsSpace(d[i - 1]) || !IsSpace(d[i])
    {
      assert !IsSpace(c[i - 1]) || !IsSpace(c[i]);
    }
    CollapseFixpoint(d);
  }

  // ---------------------------------------------------------------------------
  // Properties of the stopword filter

  /** Dropping tokens never makes the joined text longer. */
  lemma {:induction false} JoinKeptLength(ws: seq<string>, stopWords: set<string>)
    ensures |Join(KeptTokens(ws, stopWords))| <= |Join(ws)|
  {
    if ws != [] {
      var rest := ws[1..];
      var kept := KeptTokens(rest, stopWords);
      JoinKeptLength(rest, stopWords);
      assert ws == [ws[0]] + rest;
      JoinCons(ws[0], rest);
      if ws[0] !in stopWords {
        JoinCons(ws[0], kept);
      }
    }
  }

  /** The filter works token by token, so it keeps the relative order of the
      survivors: filtering a concatenation is concatenating the filtered parts. */
  lemma {:induction false} KeptTokensAppend(xs: seq<string>, ys: seq<string>, stopWords: set<string>)
    ensures KeptTokens(xs + ys, stopWords) == KeptTokens(xs, stopWords) + KeptTokens(ys, stopWords)
  {
    if xs == [] {
      assert xs + ys == ys;
    } else {
      assert (xs + ys)[0] == xs[0];
      assert (xs + ys)[1..] == xs[1..] + ys;
      KeptTokensAppend(xs[1..], ys, stopWords);
    }
  }

  /** Text that is already tokens joined by single spaces, none of them a
      stopword, passes the stopword step unchanged. */
  lemma RemoveStopwordsFixpoint(r: string, stopWords: set<string>)
    requires SingleSpaced(r) && Trimmed(r)
    requires forall w :: w in Split(r) ==> w !in stopWords
    ensures RemoveStopwords(r, stopWords) == r
  {
    JoinSplit(r);
  }

  // ---------------------------------------------------------------------------
  // Properties of the text before the stopword filter

  /** After steps 1 to 5 the text holds only canonical characters and single plain
      spaces, with no space at either end. */
  lemma {:induction false} PrepareShape(s: string)
    ensures SingleSpaced(Prepare(s)) && Trimmed(Prepare(s))
    ensures forall c :: c in Prepare(s) ==> c == ' ' || IsCanonicalChar(c)
  {
    var c := ArabicOnly(s);
    var d := FoldVariants(c);
    var t := CollapseSpaces(d);
    CollapseIsSingleSpaced(d);
    forall x | x in t && x != ' '
      ensures IsCanonicalChar(x)
    {
      assert x in d;
      var i :| 0 <= i < |d| && d[i] == x;
      assert c[i] in c;
    }
    if t != [] {
      var k := |c| - 1;
      assert |d| == |c| && k == |d| - 1;
      assert !IsSpace(c[0]) && !IsSpace(c[k]);
      assert !IsSpace(d[0]) && !IsSpace(d[k]);
    }
  }

  /** The shape of normalised text: plain spaces and canonical characters only,
      single-spaced, with no space at either end. */
  predicate Normalised(t: string) {
    && SingleSpaced(t) && Trimmed(t)
    && forall c :: c in t ==> c == ' ' || IsCanonicalChar(c)
  }

  /** Text of whitespace and non-diacritic Arabic letters that is already
      trimmed and single-spaced is a fixed point of steps 1 to 3. */
  lemma ArabicOnlyFixpoint(t: string)
    requires SingleSpaced(t) && Trimmed(t)
    requires forall c :: c in t ==> IsSpace(c) || (InArabicBlocks(c) && !IsDiacritic(c))
    ensures ArabicOnly(t) == t
  {
    var a := StripDiacritics(t);
    assert a == t;
    var b := KeepArabicAndSpace(a);
    assert b == t;
    CollapseFixpoint(b);
  }

  /** Plain spaces and canonical characters are whitespace or non-diacritic
      Arabic letters, and none is a letter variant. */
  lemma CanonicalChars(t: string)
    requires forall c :: c in t ==> c == ' ' || IsCanonicalChar(c)
    ensures forall c :: c in t ==> IsSpace(c) || (InArabicBlocks(c) && !IsDiacritic(c))
    ensures forall c :: c in t ==> !IsVariant(c)
  {
  }

  /** Plain spaces and canonical characters pass steps 1 to 3 unchanged. */
  lemma CanonicalArabicOnly(t: string)
    requires Normalised(t)
    ensures ArabicOnly(t) == t
  {
    CanonicalChars(t);
    ArabicOnlyFixpoint(t);
  }

  /** Plain spaces and canonical characters pass step 4 unchanged. */
  lemma CanonicalFold(t: string)
    requires Normalised(t)
    ensures FoldVariants(t) == t
  {
    CanonicalChars(t);
    FoldFixpoint(t);
  }

  /** Normalised text is a fixed point of steps 1 to 5. */
  lemma {:induction false} PrepareFixpoint(t: string)
    requires Normalised(t)
    ensures Prepare(t) == t
  {
    CanonicalArabicOnly(t);
    CanonicalFold(t);
    CollapseFixpoint(t);
  }

  // ---------------------------------------------------------------------------
  // Properties of clean_text

  /** Every output character is a plain space or a canonical character. */
  lemma CleanTextCanonical(s: string, stopWords: set<string>)
    ensures forall c :: c in CleanText(s, stopWords) ==> c == ' ' || IsCanonicalChar(c)
  {
    var t := Prepare(s);
    PrepareShape(s);
    var ws := KeptTokens(Split(t), stopWords);
    forall c | c in CleanText(s, stopWords)
      ensures c == ' ' || IsCanonicalChar(c)
    {
      assert c in Join(ws);
      if c != ' ' {
        var w :| w in ws && c in w;
        assert c in t;
      }
    }
  }

  /** Every output character is a plain space or a letter of the two kept
      Arabic blocks, and none is a diacritic or a letter variant. */
  lemma CleanTextAlphabet(s: string, stopWords: set<string>)
    ensures forall c :: c in CleanText(s, stopWords) ==> c == ' ' || InArabicBlocks(c)
    ensures forall c :: c in CleanText(s, stopWords) ==> !IsDiacritic(c)
    ensures forall c :: c in CleanText(s, stopWords) ==> !IsVariant(c)
  {
    CleanTextCanonical(s, stopWords);
  }

  /** The output is its tokens joined by exactly one space: no space at either
      end and never two spaces in a row. */
  lemma CleanTextShape(s: string, stopWords: set<string>)
    ensures SingleSpaced(CleanText(s, stopWords)) && Trimmed(CleanText(s, stopWords))
    ensures CleanText(s, stopWords) == Join(Split(CleanText(s, stopWords)))
  {
    var ws := KeptTokens(Split(Prepare(s)), stopWords);
    SplitJoin(ws);
  }

  /** The output is empty exactly when every token left after steps 1 to 5 is a
      stopword. */
  lemma CleanTextEmpty(s: string, stopWords: set<string>)
    ensures CleanText(s, stopWords) == [] <==>
              forall w :: w in Split(Prepare(s)) ==> w in stopWords
  {
    var ws := KeptTokens(Split(Prepare(s)), stopWords);
    if ws != [] {
      assert ws[0] in ws;
    }
  }

  /** Text with no character in either kept Arabic block normalises to "". */
  lemma CleanTextWithoutArabic(s: string, stopWords: set<string>)
    requires forall c :: c in s ==> !InArabicBlocks(c)
    ensures CleanText(s, stopWords) == []
  {
    ArabicOnlyBlank(s);
    var d := FoldVariants(ArabicOnly(s));
    assert d == [];
    assert Prepare(s) == [];
    assert Split(Prepare(s)) == [];
  }

  /** Without Arabic letters nothing survives steps 1 to 3. */
  lemma ArabicOnlyBlank(s: string)
    requires forall c :: c in s ==> !InArabicBlocks(c)
    ensures ArabicOnly(s) == []
  {
  }

  /** Stopwords are looked up after folding, so a stopword spelled with a
      letter variant is not removed: "أن" is in the set, yet its folded form
      "ان" is what the filter sees, and it stays. */
  lemma CleanTextVariantStopword()
    ensures CleanText("\U{0623}\U{0646}", {"\U{0623}\U{0646}"}) == "\U{0627}\U{0646}"
  {
    var w := "\U{0623}\U{0646}";
    assert Fold('\U{0623}') == '\U{0627}' && Fold('\U{0646}') == '\U{0646}';
    assert FoldVariants(w) == "\U{0627}\U{0646}";
    CleanTextWord(w, {w});
  }

  /** Normalised text whose every token is a stopword normalises to "". */
  lemma {:induction false} CleanTextAllStopwords(s: string, stopWords: set<string>)
    requires Normalised(s)
    requires forall w :: w in Split(s) ==> w in stopWords
    ensures CleanText(s, stopWords) == []
  {
    assert Prepare(s) == s by {
      PrepareFixpoint(s);
    }
    CleanTextEmpty(s, stopWords);
  }

  /** `clean_text` is idempotent, whatever the stopword set. */
  lemma CleanTextIdempotent(s: string, stopWords: set<string>)
    ensures CleanText(CleanText(s, stopWords), stopWords) == CleanText(s, stopWords)
  {
    var r := CleanText(s, stopWords);
    CleanTextCanonical(s, stopWords);
    PrepareFixpoint(r);
    RemoveStopwordsFixpoint(r, stopWords);
  }

  /** One word of canonical characters and variants normalises to its
      folded form, unless that form is a stopword. */
  lemma CleanTextWord(w: string, stopWords: set<string>)
    requires w != []
    requires forall c :: c in w ==> IsCanonicalChar(c) || IsVariant(c)
    requires FoldVariants(w) !in stopWords
    ensures CleanText(w, stopWords) == FoldVariants(w)
  {
    PrepareWord(w);
    FoldedWordIsCanonical(w);
    RemoveStopwordsToken(FoldVariants(w), stopWords);
  }

  /** Steps 1 to 5 only fold a word of Arabic letters. */
  lemma PrepareWord(w: string)
    requires forall c :: c in w ==> IsCanonicalChar(c) || IsVariant(c)
    ensures Prepare(w) == FoldVariants(w)
  {
    assert forall c :: c in w ==> !IsSpace(c) && InArabicBlocks(c) && !IsDiacritic(c);
    NoSpaceShape(w);
    ArabicOnlyFixpoint(w);
    FoldedWordIsCanonical(w);
    NoSpaceShape(FoldVariants(w));
    CollapseFixpoint(FoldVariants(w));
  }

  /** A single token that is no stopword passes step 6 unchanged. */
  lemma RemoveStopwordsToken(f: string, stopWords: set<string>)
    requires IsToken(f) && f !in stopWords
    ensures RemoveStopwords(f, stopWords) == f
  {
    assert f + [] == f;
    SplitToken(f, []);
    assert KeptTokens([f], stopWords) == [f];
  }

  /** Folding a word of canonical characters and variants leaves only canonical characters. */
  lemma FoldedWordIsCanonical(w: string)
    requires forall c :: c in w ==> IsCanonicalChar(c) || IsVariant(c)
    ensures forall c :: c in FoldVariants(w) ==> IsCanonicalChar(c)
  {
    var f := FoldVariants(w);
    forall c | c in f
      ensures IsCanonicalChar(c)
    {
      var i :| 0 <= i < |f| && f[i] == c;
      assert w[i] in w;
    }
  }

  /** One canonical character or variant normalises to its folded form,
      unless that form is a stopword. */
  lemma CleanTextLetter(c: char, stopWords: set<string>)
    requires IsCanonicalChar(c) || IsVariant(c)
    requires [Fold(c)] !in stopWords
    ensures CleanText([c], stopWords) == [Fold(c)]
  {
    assert [c][1..] == [];
    assert FoldVariants([c]) == [Fold(c)];
    CleanTextWord([c], stopWords);
  }

  /** Inputs without Arabic letters normalise to "". */
  lemma CleanTextBlankExamples(stopWords: set<string>)
    ensures CleanText("", stopWords) == ""
    ensures CleanText("123 abc", stopWords) == ""
  {
    CleanTextWithoutArabic("", stopWords);
    CleanTextWithoutArabic("123 abc", stopWords);
  }

  /** The four alef forms all fold to bare alef. */
  lemma CleanTextAlefExample(stopWords: set<string>)
    requires "\U{0627}\U{0627}\U{0627}\U{0627}" !in stopWords
    ensures CleanText("\U{0625}\U{0623}\U{0622}\U{0627}", stopWords) == "\U{0627}\U{0627}\U{0627}\U{0627}"
  {
    var alefs := "\U{0625}\U{0623}\U{0622}\U{0627}";
    assert FoldVariants(alefs) == "\U{0627}\U{0627}\U{0627}\U{0627}";
    CleanTextWord(alefs, stopWords);
  }

  /** Alef maksura folds to yeh. */
  lemma CleanTextAlefMaksuraExample(stopWords: set<string>)
    requires "\U{064A}" !in stopWords
    ensures CleanText("\U{0649}", stopWords) == "\U{064A}"
  {
    assert Fold('\U{0649}') == '\U{064A}';
    CleanTextLetter('\U{0649}', stopWords);
  }

  /** Waw with hamza folds to bare hamza. */
  lemma CleanTextWawHamzaExample(stopWords: set<string>)
    requires "\U{0621}" !in stopWords
    ensures CleanText("\U{0624}", stopWords) == "\U{0621}"
  {
    assert Fold('\U{0624}') == '\U{0621}';
    CleanTextLetter('\U{0624}', stopWords);
  }

  /** Yeh with hamza folds to bare hamza. */
  lemma CleanTextYehHamzaExample(stopWords: set<string>)
    requires "\U{0621}" !in stopWords
    ensures CleanText("\U{0626}", stopWords) == "\U{0621}"
  {
    assert Fold('\U{0626}') == '\U{0621}';
    CleanTextLetter('\U{0626}', stopWords);
  }

  /** Teh marbuta folds to heh. */
  lemma CleanTextTehMarbutaExample(stopWords: set<string>)
    requires "\U{0647}" !in stopWords
    ensures CleanText("\U{0629}", stopWords) == "\U{0647}"
  {
    assert Fold('\U{0629}') == '\U{0647}';
    CleanTextLetter('\U{0629}', stopWords);
  }

  /** The tatweel U+0640 is not in the diacritic class, so it survives. */
  lemma CleanTextKeepsTatweel(stopWords: set<string>)
    requires "\U{0640}" !in stopWords
    ensures CleanText("\U{0640}", stopWords) == "\U{0640}"
  {
    assert Fold('\U{0640}') == '\U{0640}';
    CleanTextLetter('\U{0640}', stopWords);
  }

  /** Arabic-Indic digits lie in the Arabic block, so they survive; only other
      digits are deleted. */
  lemma CleanTextKeepsArabicIndicDigit(stopWords: set<string>)
    requires "\U{0663}" !in stopWords
    ensures CleanText("\U{0663}", stopWords) == "\U{0663}"
    ensures CleanText("3", stopWords) == ""
  {
    assert Fold('\U{0663}') == '\U{0663}';
    CleanTextLetter('\U{0663}', stopWords);
    CleanTextWithoutArabic("3", stopWords);
  }
}
