/**
 Character classes used by the Arabic text normaliser `clean_text`
 (Functions.py): whitespace, the diacritic class of its first regular
 expression, the two Arabic Unicode blocks it keeps, and the letter
 variants it folds onto canonical letters.
 */
module CharClasses {

  /** Python's `str.isspace()`. The regex class `\s` on a `str` pattern,
      `str.strip()` and `str.split()` without arguments all use this one test. */
  predicate IsSpace(c: char) {
    ('\t' <= c && c <= '\r')                  // U+0009 .. U+000D
    || ('\U{1C}' <= c && c <= '\U{1F}')       // information separators
    || c == ' '
    || c == '\U{85}' || c == '\U{A0}' || c == '\U{1680}'
    || ('\U{2000}' <= c && c <= '\U{200A}')
    || c == '\U{2028}' || c == '\U{2029}' || c == '\U{202F}'
    || c == '\U{205F}' || c == '\U{3000}'
  }

  /** The diacritic class removed by the first step: U+0617-U+061A,
      U+064B-U+0652, U+0670, U+0674, U+06D4 and U+06D6-U+06ED.
      The tatweel U+0640 is not in it. */
  predicate IsDiacritic(c: char) {
    ('\U{0617}' <= c && c <= '\U{061A}')
    || ('\U{064B}' <= c && c <= '\U{0652}')
    || c == '\U{0670}' || c == '\U{0674}' || c == '\U{06D4}'
    || ('\U{06D6}' <= c && c <= '\U{06ED}')
  }

  /** The Arabic block U+0600-U+06FF and the Arabic Supplement U+0750-U+077F. */
  predicate InArabicBlocks(c: char) {
    ('\U{0600}' <= c && c <= '\U{06FF}') || ('\U{0750}' <= c && c <= '\U{077F}')
  }

  /** The letters that folding replaces by a different letter:
      alef with hamza below, alef with hamza above, alef with madda,
      alef maksura, waw with hamza, yeh with hamza and teh marbuta. */
  predicate IsVariant(c: char) {
    c == '\U{0625}' || c == '\U{0623}' || c == '\U{0622}' || c == '\U{0649}'
    || c == '\U{0624}' || c == '\U{0626}' || c == '\U{0629}'
  }

  /** A character that may appear in normalised text besides the space: in
      one of the kept Arabic blocks, neither a diacritic nor a variant, and
      not whitespace. Besides letters, this admits the Arabic-Indic digits,
      Arabic punctuation such as U+060C and U+061F, the tatweel U+0640 and
      symbols such as U+06DE and U+06E9. */
  predicate IsCanonicalChar(c: char) {
    InArabicBlocks(c) && !IsDiacritic(c) && !IsVariant(c) && !IsSpace(c)
  }

  /** Folds one letter variant onto its canonical letter: the alef forms to
      bare alef U+0627, alef maksura to yeh U+064A, the hamza carriers to bare
      hamza U+0621 and teh marbuta to heh U+0647. */
  function Fold(c: char): (r: char)
    ensures !IsVariant(r)
    ensures !IsVariant(c) ==> r == c
    ensures IsVariant(c) ==> IsCanonicalChar(r)
    ensures IsVariant(c) ==> r in {'\U{0627}', '\U{064A}', '\U{0621}', '\U{0647}'}
    ensures IsSpace(r) <==> IsSpace(c)
    ensures InArabicBlocks(r) <==> InArabicBlocks(c)
    ensures IsDiacritic(r) <==> IsDiacritic(c)
  {
    if c == '\U{0625}' || c == '\U{0623}' || c == '\U{0622}' then '\U{0627}'
    else if c == '\U{0649}' then '\U{064A}'
    else if c == '\U{0624}' || c == '\U{0626}' then '\U{0621}'
    else if c == '\U{0629}' then '\U{0647}'
    else c
  }

  /** No whitespace character lies in the kept Arabic blocks, so the second
      step never deletes whitespace and never keeps it for being Arabic. */
  lemma SpaceIsNotArabic(c: char)
    ensures IsSpace(c) ==> !InArabicBlocks(c)
  {
  }

  /** The diacritic class lies inside the Arabic block and leaves out the
      tatweel U+0640. */
  lemma DiacriticsAreArabic(c: char)
    ensures IsDiacritic(c) ==> InArabicBlocks(c)
    ensures !IsDiacritic('\U{0640}')
  {
  }

  /** The kept blocks hold no ASCII letter or digit, but they hold the
      Arabic-Indic digits U+0660-U+0669. */
  lemma ArabicBlocksAndDigits(c: char)
    ensures InArabicBlocks(c) ==> !('0' <= c <= '9') && !('a' <= c <= 'z') && !('A' <= c <= 'Z')
    ensures '\U{0660}' <= c <= '\U{0669}' ==> InArabicBlocks(c)
  {
  }

  /** The variants are Arabic letters: in the Arabic block, neither
      diacritics nor whitespace. Bare alef is not one of them. */
  lemma VariantsAreLetters(c: char)
    ensures IsVariant(c) ==> InArabicBlocks(c) && !IsDiacritic(c) && !IsSpace(c)
    ensures !IsVariant('\U{0627}')
  {
  }
}
