# Arabic text normaliser of DialectoScope, in Dafny

DialectoScope sorts short Arabic texts into five regional dialects. Before a
text reaches the classifier it goes through `clean_text` (Functions.py:14-29),
a pure string-to-string normaliser. This project models that normaliser and
proves what it guarantees.

`clean_text` runs six steps, in this order:

1. It deletes the Arabic diacritics U+0617-U+061A, U+064B-U+0652, U+0670,
   U+0674, U+06D4 and U+06D6-U+06ED (`Functions.StripDiacritics`).
2. It deletes every character that is not in U+0600-U+06FF or U+0750-U+077F
   and is not whitespace (`Functions.KeepArabicAndSpace`).
3. It turns every run of whitespace into one space and strips both ends
   (`Whitespace.CollapseSpaces`, `Whitespace.Strip`).
4. It folds letter variants onto canonical letters:
   - alef with hamza below, alef with hamza above and alef with madda become
     bare alef;
   - alef maksura becomes yeh;
   - waw with hamza and yeh with hamza become bare hamza;
   - teh marbuta becomes heh.

   (`CharClasses.Fold`, `Functions.FoldVariants`)
5. It collapses whitespace again (`Whitespace.CollapseSpaces`).
6. It splits on whitespace, drops the tokens that are stopwords and joins the
   survivors with single spaces (`Tokens.Split`, `Functions.KeptTokens`,
   `Tokens.Join`, `Functions.RemoveStopwords`).

`Functions.CleanText(s, stopWords)` chains the six steps. The Arabic stopword
set comes from NLTK at Functions.py:11. Here it is a parameter, an arbitrary
`set<string>`.

The project has four modules:

- `CharClasses` holds the character classes and the fold map.
- `Tokens` models Python's `str.split()` and joining with one space.
- `Whitespace` holds the whitespace collapse and strip.
- `Functions` holds the steps, their composition and the properties of
  `clean_text`.

Python uses one whitespace test, `str.isspace()`, for the regex class `\s`, for
`str.strip()` and for `str.split()`. The model uses the same single predicate,
`CharClasses.IsSpace`, for all three.

Where the comments of Functions.py differ from the code, the model follows the code:

- The tatweel U+0640 is not in the step-1 class, although the comment at
  Functions.py:15 says tatweel is removed. It survives normalisation
  (`Functions.CleanTextKeepsTatweel`).
- Arabic-Indic digits U+0660-U+0669 and Arabic punctuation lie inside
  U+0600-U+06FF, so step 2 keeps them. Only digits outside the two Arabic
  blocks are removed (`Functions.CleanTextKeepsArabicIndicDigit`). So the
  output alphabet is "characters of the two Arabic blocks that are neither
  diacritics nor variants, plus the plain space". It is not "Arabic letters
  only".
- The stopword test at Functions.py:28 runs after the fold of steps 4-5, so it
  compares folded tokens with the stopword set as given. A stopword spelled
  with a hamza form of alef, alef maksura, waw or yeh with hamza, or teh
  marbuta never matches itself. Its word survives in folded spelling, unless
  that folded spelling is itself in the set
  (`Functions.CleanTextVariantStopword`). Text already in normalised form
  (trimmed, single plain spaces, canonical characters) whose tokens are all
  stopwords normalises to "" (`Functions.CleanTextAllStopwords`).

## Model

| member | source | states |
|---|---|---|
| CharClasses.SpaceIsNotArabic | Functions.py:18 | No whitespace character is in U+0600-U+06FF or U+0750-U+077F, so step 2 keeps whitespace only because it is whitespace. |
| CharClasses.DiacriticsAreArabic | Functions.py:15-16 | Every step-1 diacritic lies in the Arabic block. The tatweel U+0640 is not in the step-1 class. |
| CharClasses.ArabicBlocksAndDigits | Functions.py:17-18 | The kept blocks hold no ASCII digit or Latin letter, so step 2 removes them. The Arabic-Indic digits U+0660-U+0669 are in the kept blocks. |
| CharClasses.VariantsAreLetters | Functions.py:21-25 | Each variant lies in the Arabic block and is neither a diacritic nor whitespace. Bare alef is not a variant. |
| CharClasses.Fold | Functions.py:21-25 | The folded character is never a variant. A non-variant is left as is. A variant becomes one of bare alef, yeh, bare hamza or heh, each a canonical character: in the Arabic blocks, no diacritic, no variant, no whitespace. Whitespace status, block membership and diacritic status are preserved. |
| Functions.StripDiacritics | Functions.py:16 | A character occurs in the result iff it occurs in the input and is not a diacritic. The result is never longer. Text without diacritics comes back unchanged. |
| Functions.KeepArabicAndSpace | Functions.py:18 | A character occurs in the result iff it occurs in the input and is in one of the two Arabic blocks or is whitespace. The result is never longer. Text of such characters only comes back unchanged. |
| Functions.StripDiacriticsAppend | Functions.py:16 | Deleting diacritics from a concatenation concatenates the two results, so the kept characters stay in their order and nothing is inserted. |
| Functions.KeepArabicAndSpaceAppend | Functions.py:18 | Deleting non-Arabic characters from a concatenation concatenates the two results, so the kept characters stay in their order and nothing is inserted. |
| Whitespace.CollapseSpaces | Functions.py:20 | The result is never longer, and it is empty iff the input is. Its first and last characters are whitespace iff the input's are. Every character of the result is a character of the input or a plain space. |
| Whitespace.CollapseIsSingleSpaced | Functions.py:20 | After collapsing, the only whitespace is the plain space, and no two whitespace characters are adjacent. |
| Whitespace.CollapseFixpoint | Functions.py:26 | Collapsing single-spaced text changes nothing. |
| Whitespace.CollapseKeepsTokens | Functions.py:20 | Collapsing whitespace does not change the tokens `str.split()` sees. |
| Whitespace.StripLeft | Functions.py:20 | The result is a suffix of the input and does not start with whitespace. Everything dropped is whitespace, so every non-whitespace character is kept. |
| Whitespace.StripRight | Functions.py:20 | The result is a prefix of the input and does not end with whitespace. Everything dropped is whitespace, so every non-whitespace character is kept. |
| Whitespace.Strip | Functions.py:20 | The result has no whitespace at either end and is never longer. Its characters come from the input, and every non-whitespace character of the input is kept. Already-trimmed text comes back unchanged. |
| Whitespace.StripIsSlice | Functions.py:20 | The stripped text is a contiguous slice of the input, and everything outside that slice is whitespace. |
| Whitespace.StripKeepsSingleSpaced | Functions.py:20 | Stripping single-spaced text leaves it single-spaced. |
| Whitespace.StripKeepsTokens | Functions.py:20 | Stripping does not change the tokens `str.split()` sees. |
| Functions.ArabicOnly | Functions.py:16-20 | After steps 1-3 the text is never longer than the input and is trimmed. Every character is whitespace or a non-diacritic character of the two Arabic blocks. |
| Functions.ArabicOnlySingleSpaced | Functions.py:16-20 | After steps 1-3 the only whitespace is the plain space, and no two spaces are adjacent. |
| Functions.ArabicOnlyFixpoint | Functions.py:16-20 | Trimmed, single-spaced text of whitespace and non-diacritic Arabic-block characters passes steps 1-3 unchanged. |
| Functions.FoldVariants | Functions.py:21-25 | The length is kept and no variant is left. Non-variant positions are unchanged, and variant positions hold canonical characters. Whitespace positions are unchanged. |
| Functions.FoldVariantsPointwise | Functions.py:21-25 | Each position of the result holds the fold of the input character at that position. |
| Functions.FoldFixpoint | Functions.py:21-25 | Text without variants passes the fold unchanged. |
| Functions.Prepare | Functions.py:16-26 | Steps 1-5 never lengthen the text. |
| Functions.SecondCollapseIsIdentity | Functions.py:26 | The second whitespace collapse changes nothing: steps 1-5 equal steps 1-4. |
| Functions.PrepareShape | Functions.py:16-26 | After steps 1-5 the text is trimmed and single-spaced. Every character is a plain space or a canonical character. |
| Functions.PrepareFixpoint | Functions.py:16-26 | Trimmed, single-spaced text of plain spaces and canonical characters passes steps 1-5 unchanged. |
| Tokens.Split | Functions.py:28 | Every token is non-empty and free of whitespace, and its characters come from the input. There are no tokens iff the input is all whitespace. |
| Tokens.Join | Functions.py:28 | Every character is a plain space or a character of some token. Joining whitespace-free non-empty tokens gives trimmed, single-spaced text, which is empty iff the list is. |
| Tokens.SplitJoin | Functions.py:28 | Splitting the join of a token list gives that list back. |
| Tokens.JoinSplit | Functions.py:28 | Trimmed, single-spaced text is the join of its own tokens. |
| Tokens.JoinSplitLength | Functions.py:28 | Re-joining the tokens of a text never makes it longer. |
| Functions.KeptTokens | Functions.py:28 | A token survives iff it is in the list and not a stopword. The result is never longer. A list without stopwords is returned unchanged. |
| Functions.KeptTokensAppend | Functions.py:28 | Filtering a concatenation concatenates the filtered parts, so survivors keep their relative order. |
| Functions.JoinKeptLength | Functions.py:28 | Dropping stopwords never lengthens the joined text. |
| Functions.RemoveStopwords | Functions.py:28 | The result's tokens are exactly the input's non-stopword tokens, in order. None of them is a stopword. The result is trimmed and single-spaced, and never longer than the input. |
| Functions.RemoveStopwordsFixpoint | Functions.py:28 | Trimmed, single-spaced text without stopword tokens passes step 6 unchanged. |
| Functions.CleanText | Functions.py:14-29 | The output is never longer than the input. |
| Functions.CleanTextCanonical | Functions.py:14-29 | Every output character is a plain space or a canonical character. |
| Functions.CleanTextAlphabet | Functions.py:16-28 | Every output character is a plain space or lies in U+0600-U+06FF or U+0750-U+077F. No output character is a diacritic of the step-1 class or a letter variant. |
| Functions.CleanTextShape | Functions.py:20-28 | The output has no space at either end and no two spaces in a row. It equals its own tokens joined by single spaces. |
| Functions.CleanTextEmpty | Functions.py:28 | The output is empty iff every token left after steps 1-5 is a stopword. |
| Functions.CleanTextWithoutArabic | Functions.py:18-28 | Input with no character in the two Arabic blocks normalises to "". |
| Functions.CleanTextVariantStopword | Functions.py:21-28 | The stopword "أن", written with alef with hamza above, is not removed from the input "أن": the output is its folded spelling "ان". |
| Functions.CleanTextAllStopwords | Functions.py:28 | Trimmed, single-spaced text of plain spaces and canonical characters whose every token is a stopword normalises to "". |
| Functions.CleanTextIdempotent | Functions.py:14-29 | `clean_text(clean_text(s)) == clean_text(s)` for every input and every stopword set. |
| Functions.CleanTextWord | Functions.py:21-28 | One word of canonical characters and variants normalises to its folded form, unless that form is a stopword. |
| Functions.CleanTextLetter | Functions.py:21-28 | One canonical character or variant normalises to its fold, unless that one-character string is a stopword. |
| Functions.CleanTextBlankExamples | Functions.py:18-28 | "" and "123 abc" both normalise to "". |
| Functions.CleanTextAlefExample | Functions.py:21 | The four alef forms fold to four bare alefs, unless that string is a stopword. |
| Functions.CleanTextAlefMaksuraExample | Functions.py:22 | Alef maksura normalises to yeh, unless yeh alone is a stopword. |
| Functions.CleanTextWawHamzaExample | Functions.py:23 | Waw with hamza normalises to bare hamza, unless bare hamza alone is a stopword. |
| Functions.CleanTextYehHamzaExample | Functions.py:24 | Yeh with hamza normalises to bare hamza, unless bare hamza alone is a stopword. |
| Functions.CleanTextTehMarbutaExample | Functions.py:25 | Teh marbuta normalises to heh, unless heh alone is a stopword. |
| Functions.CleanTextKeepsTatweel | Functions.py:16 | A lone tatweel survives normalisation, because it is not in the step-1 class, unless the tatweel alone is a stopword. |
| Functions.CleanTextKeepsArabicIndicDigit | Functions.py:18 | A lone Arabic-Indic digit three survives normalisation, unless it is a stopword. An ASCII digit is removed. |

## Left out

- app.py is not part of this model. It is a Streamlit page that loads pickled objects, shows images and passes raw text to a classifier. It never calls `clean_text`.
- Deployment.py is not part of this model. It is a Flask service that forwards requests to a pickled vectorizer and classifier, rounds floats and reads `prediction[0]`. All of these are calls into foreign library code or floating point.
- APIrequests.py is not part of this model. It is an HTTP client with an interactive console loop. It calls `clean_text` but discards the result.
- The Flask prediction endpoint and the console client live in those files and are left out with them.
- The contents of the NLTK Arabic stopword list, loaded at Functions.py:11, are left out. Every stopword set is a parameter, and every property holds for all sets.
- The worked-example lemmas (`Functions.CleanTextAlefExample` and the single-letter examples) require that the expected output is not itself a stopword. The real NLTK list is not modelled, so this cannot be decided here.
- The Python regex engine is left out. Each regular expression is modelled as the character-class deletion or run replacement it denotes.
- Python strings may hold lone surrogate code points U+D800-U+DFFF. Dafny's `char` cannot, so inputs containing them are not modelled. Step 2 would delete them anyway.
