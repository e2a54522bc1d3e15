# Job-posting text normaliser

A Dafny model of `clean_text`, the function that the fake-job classifier
service applies to a job description before it is vectorised. The function
lower-cases the text, turns every character that is not an ASCII letter
into a blank, splits the result into words, drops the English stopwords,
lemmatises each surviving word and joins the lemmas with single blanks.

The stopword set and the lemmatiser come from NLTK. They are parameters of
the model: a `set<string>` and a function `string -> string`.

Modules:

- `Ascii` (`ascii.dfy`): letter and whitespace classes, ASCII lower-casing.
- `Words` (`words.dfy`): Python's argument-less `str.split` as `Split`,
  and `" ".join` as `Join`.
- `Preprocess` (`preprocess.dfy`): the letter filter, the stopword filter,
  the lemmatising loop and `CleanText`, with the properties of the whole pipeline.

`clean_text` removes web addresses and HTML tags only as far as their
non-letter characters go, and it keeps one-letter words.
`Preprocess.WebAddressPiecesSurvive` shows that `www.x.com` becomes
`www x com`.

## Model

| member | source | states |
|---|---|---|
| `Ascii.LowerChar` | preprocess.py:16 | only `A`-`Z` change, each to the same letter in lower case; a character is a letter exactly when its image is a lower-case letter; whitespace stays whitespace |
| `Ascii.Lower` | preprocess.py:16 | the lower-cased text has the same length and each character is its `LowerChar` image; its laws are `Ascii.LowerIdempotent` and `Ascii.LowerEqualIff` |
| `Ascii.LowerIdempotent` | preprocess.py:16 | lower-casing an already lower-cased text changes nothing |
| `Ascii.LowerEqualIff` | preprocess.py:16 | two texts lower-case to the same text exactly when they differ only in the case of their letters |
| `Preprocess.ReplaceNonLetters` | preprocess.py:17 | same length; letters are kept; every other character becomes a blank; the result holds only letters and blanks |
| `Preprocess.ReplaceLowerCommute` | preprocess.py:16-17 | lower-casing and the letter filter give the same result in either order |
| `Words.Split` | preprocess.py:18 | every word is non-empty and whitespace-free, and every character of a word comes from the input |
| `Words.SplitAtWhitespace` | preprocess.py:18 | a whitespace character separates words: the words of `a + [c] + b` are those of `a` followed by those of `b` |
| `Words.SplitBlank` | preprocess.py:18 | a whitespace-only string has no words |
| `Words.SplitToken` | preprocess.py:18 | a non-empty whitespace-free string is exactly one word |
| `Words.SplitKeepsVisible` | preprocess.py:18 | the words laid end to end are exactly the input's non-whitespace characters, in order |
| `Words.SplitJoin` | preprocess.py:18-25 | splitting a single-blank join of whitespace-free non-empty words gives back those words |
| `Words.Join` | preprocess.py:25 | a non-empty join starts with the first word and is as long as all the words plus one blank per neighbouring pair; `Words.JoinSingle` and `Words.JoinAppend` pin it down to the words separated by exactly one blank, and `Words.SplitJoin` is the split/join round trip |
| `Words.JoinSingle` | preprocess.py:25 | one word joins to itself |
| `Words.JoinAppend` | preprocess.py:25 | joining two non-empty runs of words puts exactly one blank between their joins; with `Words.JoinSingle` this fixes `Join` completely |
| `Words.JoinWellSpaced` | preprocess.py:25 | joining non-empty, blank-free words leaves no leading, trailing or doubled blank |
| `Words.JoinEmptyIff` | preprocess.py:25 | a join is empty exactly when there are no words, or just one empty word |
| `Preprocess.Tokens` | preprocess.py:16-18 | every word handed to the loop is non-empty and made of `a`-`z` only |
| `Preprocess.TokensSplitAtNonLetter` | preprocess.py:17-18 | a digit, punctuation mark, tab, newline or other non-letter never enters a word; it only separates the words on its two sides |
| `Preprocess.TokensKeepLetters` | preprocess.py:16-18 | the words laid end to end are the text's ASCII letters, lower-cased, in their original order |
| `Preprocess.TokensWithoutLetters` | preprocess.py:17-18 | a text without ASCII letters has no words |
| `Preprocess.TokensAreLoweredWords` | preprocess.py:16-22 | the words tested against the stopword set are the text's own words lower-cased, so a word is dropped exactly when its lower-case form is a stopword |
| `Preprocess.Unstopped` | preprocess.py:21-22 | a word is kept exactly when it occurs in the input and is not a stopword; never more words than the input |
| `Preprocess.UnstoppedAppend` | preprocess.py:21-22 | the stopword filter distributes over concatenation, so the kept words keep their order |
| `Preprocess.UnstoppedNone` | preprocess.py:21-22 | words with no stopword among them all pass |
| `Preprocess.UnstoppedEmptyIff` | preprocess.py:21-22 | nothing is kept exactly when every word is a stopword |
| `Preprocess.CleanWords` | preprocess.py:20-23 | one entry per non-stopword word, in the original order, each the lemmatiser applied once to that word; the stopword test comes before lemmatisation |
| `Preprocess.CleanTextSplitsIntoLemmas` | preprocess.py:20-25 | for a lemmatiser that returns whitespace-free words, the result splits back into exactly the kept lemmas, in order |
| `Preprocess.CleanTextLowerAndBlanks` | preprocess.py:15-25 | for a lemmatiser that returns lower-case words, every character of the result is a lower-case letter or a blank |
| `Preprocess.CleanTextWellSpaced` | preprocess.py:25 | for a lemmatiser that returns non-empty blank-free strings, the result has no leading, trailing or doubled blanks |
| `Preprocess.CleanText` | preprocess.py:15-25 | the whole of `clean_text`: the kept lemmas of the text's words joined by single blanks; it carries no contract of its own, its laws are the `CleanText…` lemmas below |
| `Preprocess.CleanTextOfStopwords` | preprocess.py:15-25 | whatever the lemmatiser, a text whose words are all stopwords, or that has no words, cleans to the empty string |
| `Preprocess.CleanTextOfEmpty` | preprocess.py:15-25 | empty input gives the empty string |
| `Preprocess.CleanTextWithoutLetters` | preprocess.py:15-25 | input without ASCII letters gives the empty string, whatever the stopwords and lemmatiser |
| `Preprocess.CleanTextEmptyIff` | preprocess.py:15-25 | for a lemmatiser that never returns the empty string, the result is empty exactly when every word of the text is a stopword |
| `Preprocess.CleanTextCaseInsensitive` | preprocess.py:16 | two texts that differ only in the case of their letters give the same result |
| `Preprocess.CleanTextIdempotent` | preprocess.py:15-25 | for a lemmatiser that maps kept words to non-stopword lower-case words it fixes, cleaning twice equals cleaning once |
| `Preprocess.CleanTextIdempotentIdentity` | preprocess.py:15-25 | with the identity lemmatiser, cleaning twice equals cleaning once |
| `Preprocess.WebAddressPiecesSurvive` | preprocess.py:17-25 | `www.x.com` cleans to `www x com`: web addresses are not removed and one-letter words are kept |

## Left out

- Downloading the NLTK corpora and building the stopword set (preprocess.py:7-11): network and disk I/O. The stopword set is a parameter.
- The WordNet lemmatiser (preprocess.py:12, 23): a foreign library whose code is not part of this model. The lemmatiser is an arbitrary function parameter; properties that need more of it state what they assume in their `requires`.
- Python's full-Unicode `str.lower` (preprocess.py:16): the model lower-cases ASCII only. A few non-ASCII characters lower-case into ASCII letters in Python (the Kelvin sign becomes `k`; `İ` becomes `i` plus a combining mark, so the length changes). For those inputs the model turns the character into a blank where Python keeps a letter. For every other non-ASCII character both lead to a blank.
- `Preprocess.CleanTextCaseInsensitive`: covers only ASCII case differences, because of the ASCII lower-casing above.
- Non-string arguments: `text.lower()` (preprocess.py:16) raises `AttributeError` when `clean_text` gets a number, a list or a boolean, which app.py:23-28 lets through from the JSON body and app.py:43-44 turns into a 500 response. The model's argument is always a string, so this error path is not modelled.
- All of app.py: Flask routing and CORS, loading the model files with joblib, the vectoriser and classifier calls, the floating-point probability, the catch-all error-to-500 wrapper. These are I/O and a foreign machine-learning library. The empty-description check (app.py:23-25) and the `fake`/`real` label rule (app.py:40) are one-line request plumbing and are not modelled.
- All of script.js: page DOM access, `fetch`, `localStorage` and the redirect are user-interface and network I/O.
