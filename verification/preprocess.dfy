/**
 The job-posting text normaliser `clean_text`: lower-case the text, turn
 every character that is not an ASCII letter into a blank, split into
 words, drop stopwords, lemmatise what is left and join it with single
 blanks. The stopword set and the lemmatiser come from a linguistic
 library and are parameters here.
 */
module Preprocess {
  import opened Ascii
  import opened Words

  /** The letter filter on one character: letters stay, anything else becomes a blank. */
  function KeepLetter(c: char): char {
    if IsLetter(c) then c else ' '
  }

  /**
   The letter filter on a string. A blank maps to itself, so this is the
   same as replacing every character outside `a-z`, `A-Z` and the blank.
   */
  function ReplaceNonLetters(s: string): (r: string)
    ensures |r| == |s|
    ensures forall i :: 0 <= i < |s| ==> IsLetter(s[i]) ==> r[i] == s[i]
    ensures forall i :: 0 <= i < |s| ==> !IsLetter(s[i]) ==> r[i] == ' '
  {
    seq(|s|, i requires 0 <= i < |s| => KeepLetter(s[i]))
  }

  /** The words the normaliser looks at: lower-cased, letters only, split on whitespace. */
  function Tokens(text: string): (ts: seq<string>)
    ensures forall k :: 0 <= k < |ts| ==> IsLowerWord(ts[k])
  {
    var r := ReplaceNonLetters(Lower(text));
    var ts := Split(r);
    assert forall k, i :: 0 <= k < |ts| && 0 <= i < |ts[k]| ==> IsLower(ts[k][i]) by {
      forall k, i | 0 <= k < |ts| && 0 <= i < |ts[k]|
        ensures IsLower(ts[k][i])
      {
        var c := ts[k][i];
        assert c in r && !IsWhitespace(c);
        var j :| 0 <= j < |r| && r[j] == c;
        assert !IsUpper(Lower(text)[j]);
      }
    }
    ts
  }

  /** The words of `ws` that are not stopwords, in their original order. */
  function Unstopped(ws: seq<string>, stop: set<string>): (r: seq<string>)
    ensures |r| <= |ws|
    ensures forall x :: x in r <==> x in ws && x !in stop
  {
    if ws == [] then []
    else if ws[0] in stop then Unstopped(ws[1..], stop)
    else [ws[0]] + Unstopped(ws[1..], stop)
  }

  /**
   The loop of `clean_text`: walk the words left to right and, for each one
   that is not a stopword, append its lemma. The stopword test is on the
   word itself, before lemmatisation.
   */
  function CleanWords(words: seq<string>, stop: set<string>, lemmatize: string -> string): (r: seq<string>)
    ensures |r| == |Unstopped(words, stop)|
    ensures forall i :: 0 <= i < |r| ==> r[i] == lemmatize(Unstopped(words, stop)[i])
  {
    if words == [] then []
    else if words[0] in stop then CleanWords(words[1..], stop, lemmatize)
    else [lemmatize(words[0])] + CleanWords(words[1..], stop, lemmatize)
  }

  /**
   `clean_text`: the kept lemmas of the text's words, joined by single
   blanks. Its properties are the `CleanText...` lemmas below.
   */
  function CleanText(text: string, stop: set<string>, lemmatize: string -> string): string
  {
    Join(CleanWords(Tokens(text), stop, lemmatize))
  }

  /** The ASCII letters of `s`, in order. */
  function Letters(s: string): string
  {
    if s == [] then ""
    else if IsLetter(s[0]) then [s[0]] + Letters(s[1..])
    else Letters(s[1..])
  }

  /** Lower-casing every word of a sequence. */
  function LowerEach(ws: seq<string>): (r: seq<string>)
    ensures |r| == |ws|
    ensures forall k :: 0 <= k < |ws| ==> r[k] == Lower(ws[k])
  {
    seq(|ws|, k requires 0 <= k < |ws| => Lower(ws[k]))
  }

  /** The lemmatiser that returns every word unchanged. */
  function Identity(w: string): string
  {
    w
  }

  /**
   A lemmatiser that, on every lower-case word that is not a stopword,
   returns a lower-case word that is not a stopword either and that it maps
   to itself. The identity is one.
   */
  ghost predicate StableLemmatizer(stop: set<string>, lemmatize: string -> string) {
    forall w :: IsLowerWord(w) && w !in stop ==>
      && IsLowerWord(lemmatize(w))
      && lemmatize(w) !in stop
      && lemmatize(lemmatize(w)) == lemmatize(w)
  }

  // ---------------------------------------------------------------------
  // The letter filter and lower-casing

  /** The letter filter distributes over concatenation. */
  lemma ReplaceAppend(a: string, b: string)
    ensures ReplaceNonLetters(a + b) == ReplaceNonLetters(a) + ReplaceNonLetters(b)
  {
    assert forall i :: 0 <= i < |a + b| ==>
      ReplaceNonLetters(a + b)[i] == (ReplaceNonLetters(a) + ReplaceNonLetters(b))[i];
  }

  /** Lower-casing and the letter filter may be applied in either order. */
  lemma ReplaceLowerCommute(s: string)
    ensures ReplaceNonLetters(Lower(s)) == Lower(ReplaceNonLetters(s))
  {
    assert forall i :: 0 <= i < |s| ==>
      ReplaceNonLetters(Lower(s))[i] == Lower(ReplaceNonLetters(s))[i];
  }

  /** Lower-casing each word commutes with putting a word in front. */
  lemma LowerEachCons(w: string, ws: seq<string>)
    ensures LowerEach([w] + ws) == [Lower(w)] + LowerEach(ws)
  {
  }

  /** Lower-casing before splitting is lower-casing each word after it. */
  lemma {:induction false} SplitLower(s: string)
    ensures Split(Lower(s)) == LowerEach(Split(s))
    decreases |s|
  {
    var t := Lower(s);
    if s != [] {
      assert IsWhitespace(t[0]) == IsWhitespace(s[0]);
      if IsWhitespace(s[0]) {
        assert t[1..] == Lower(s[1..]);
        SplitLower(s[1..]);
      } else {
        var n := WordLength(s);
        WordLengthUnique(t, n);
        assert t[..n] == Lower(s[..n]);
        assert t[n..] == Lower(s[n..]);
        assert Split(t) == [Lower(s[..n])] + Split(Lower(s[n..]));
        SplitLower(s[n..]);
        LowerEachCons(s[..n], Split(s[n..]));
      }
    }
  }

  /**
   The words the stopword set is consulted with are the lower-cased words
   of the text as written: a word is dropped exactly when its lower-case
   form is a stopword.
   */
  lemma TokensAreLoweredWords(text: string)
    ensures var raw := Split(ReplaceNonLetters(text));
      && |Tokens(text)| == |raw|
      && forall k :: 0 <= k < |raw| ==> Tokens(text)[k] == Lower(raw[k])
  {
    ReplaceLowerCommute(text);
    SplitLower(ReplaceNonLetters(text));
  }

  // ---------------------------------------------------------------------
  // Non-letters only separate words

  /**
   A character that is not an ASCII letter (a digit, punctuation, a tab, a
   newline, any other symbol) never ends up in a word: it only separates
   the words before it from the words after it.
   */
  lemma TokensSplitAtNonLetter(a: string, c: char, b: string)
    requires !IsLetter(c)
    ensures Tokens(a + [c] + b) == Tokens(a) + Tokens(b)
  {
    LowerAppend(a + [c], b);
    LowerAppend(a, [c]);
    var la, lb := Lower(a), Lower(b);
    assert Lower([c]) == [c];
    ReplaceAppend(la + [c], lb);
    ReplaceAppend(la, [c]);
    assert ReplaceNonLetters([c]) == [' '];
    SplitAtWhitespace(ReplaceNonLetters(la), ' ', ReplaceNonLetters(lb));
  }

  /** The visible characters left after lower-casing and the letter filter are the lower-cased letters. */
  lemma {:induction false} VisibleAfterFilter(s: string)
    ensures Visible(ReplaceNonLetters(Lower(s))) == Lower(Letters(s))
    decreases |s|
  {
    if s != [] {
      var c, rest := s[0], s[1..];
      assert s == [c] + rest;
      LowerAppend([c], rest);
      ReplaceAppend(Lower([c]), Lower(rest));
      VisibleAppend(ReplaceNonLetters(Lower([c])), ReplaceNonLetters(Lower(rest)));
      VisibleAfterFilter(rest);
      if IsLetter(c) {
        LowerAppend([c], Letters(rest));
      }
    }
  }

  /** The words, laid end to end, are the text's ASCII letters, lower-cased, in their original order. */
  lemma TokensKeepLetters(text: string)
    ensures Flatten(Tokens(text)) == Lower(Letters(text))
  {
    SplitKeepsVisible(ReplaceNonLetters(Lower(text)));
    VisibleAfterFilter(text);
  }

  /** A text without ASCII letters has no words. */
  lemma TokensWithoutLetters(text: string)
    requires forall i :: 0 <= i < |text| ==> !IsLetter(text[i])
    ensures Tokens(text) == []
  {
    SplitBlank(ReplaceNonLetters(Lower(text)));
  }

  // ---------------------------------------------------------------------
  // Stopword filter and lemmatisation

  /** The stopword filter distributes over concatenation, so it keeps the order of the words. */
  lemma {:induction false} UnstoppedAppend(a: seq<string>, b: seq<string>, stop: set<string>)
    ensures Unstopped(a + b, stop) == Unstopped(a, stop) + Unstopped(b, stop)
    decreases |a|
  {
    if a == [] {
      assert a + b == b;
    } else {
      assert (a + b)[1..] == a[1..] + b;
      UnstoppedAppend(a[1..], b, stop);
    }
  }

  /** A sequence without stopwords passes the filter unchanged. */
  lemma {:induction false} UnstoppedNone(ws: seq<string>, stop: set<string>)
    requires forall k :: 0 <= k < |ws| ==> ws[k] !in stop
    ensures Unstopped(ws, stop) == ws
    decreases |ws|
  {
    if ws != [] {
      UnstoppedNone(ws[1..], stop);
    }
  }

  /** The filter keeps nothing exactly when every word is a stopword. */
  lemma UnstoppedEmptyIff(ws: seq<string>, stop: set<string>)
    ensures Unstopped(ws, stop) == [] <==> forall k :: 0 <= k < |ws| ==> ws[k] in stop
  {
    if Unstopped(ws, stop) == [] {
      forall k | 0 <= k < |ws|
        ensures ws[k] in stop
      {
        assert ws[k] in ws;
      }
    } else {
      assert Unstopped(ws, stop)[0] in ws;
    }
  }

  // ---------------------------------------------------------------------
  // The joined result

  /** Every character of a join of lower-case words is a lower-case letter or a blank. */
  lemma {:induction false} JoinOfLowerWords(ws: seq<string>)
    requires forall k :: 0 <= k < |ws| ==> IsLowerWord(ws[k])
    ensures forall i :: 0 <= i < |Join(ws)| ==> IsLower(Join(ws)[i]) || Join(ws)[i] == ' '
    decreases |ws|
  {
    if |ws| > 1 {
      JoinOfLowerWords(ws[1..]);
      var w, rest := ws[0], Join(ws[1..]);
      assert Join(ws) == w + " " + rest;
      forall i | 0 <= i < |Join(ws)|
        ensures IsLower(Join(ws)[i]) || Join(ws)[i] == ' '
      {
        if i > |w| {
          assert Join(ws)[i] == rest[i - |w| - 1];
        }
      }
    }
  }

  /**
   If the lemmatiser turns every kept word into a non-empty, blank-free
   string, the result has no leading, trailing or doubled blanks.
   */
  lemma CleanTextWellSpaced(text: string, stop: set<string>, lemmatize: string -> string)
    requires forall w :: IsLowerWord(w) && w !in stop ==> |lemmatize(w)| > 0 && ' ' !in lemmatize(w)
    ensures WellSpaced(CleanText(text, stop, lemmatize))
  {
    var ts := Tokens(text);
    var us := Unstopped(ts, stop);
    var ks := CleanWords(ts, stop, lemmatize);
    forall k | 0 <= k < |ks|
      ensures |ks[k]| > 0 && ' ' !in ks[k]
    {
      assert us[k] in us;
    }
    JoinWellSpaced(ks);
  }

  /**
   If the lemmatiser turns every kept word into a lower-case word, every
   character of the result is a lower-case letter or a blank.
   */
  lemma CleanTextLowerAndBlanks(text: string, stop: set<string>, lemmatize: string -> string)
    requires forall w :: IsLowerWord(w) && w !in stop ==> IsLowerWord(lemmatize(w))
    ensures var r := CleanText(text, stop, lemmatize);
      forall i :: 0 <= i < |r| ==> IsLower(r[i]) || r[i] == ' '
  {
    var ts := Tokens(text);
    var us := Unstopped(ts, stop);
    var ks := CleanWords(ts, stop, lemmatize);
    forall k | 0 <= k < |ks|
      ensures IsLowerWord(ks[k])
    {
      assert us[k] in us;
    }
    JoinOfLowerWords(ks);
  }

  /**
   If the lemmatiser turns every kept word into a whitespace-free word, the
   result splits back into exactly the kept lemmas: one blank between
   neighbours, one lemma per non-stopword word, in order.
   */
  lemma CleanTextSplitsIntoLemmas(text: string, stop: set<string>, lemmatize: string -> string)
    requires forall w :: IsLowerWord(w) && w !in stop ==> IsToken(lemmatize(w))
    ensures var out := Split(CleanText(text, stop, lemmatize));
      && |out| == |Unstopped(Tokens(text), stop)|
      && forall k :: 0 <= k < |out| ==> out[k] == lemmatize(Unstopped(Tokens(text), stop)[k])
  {
    var ts := Tokens(text);
    var us := Unstopped(ts, stop);
    var ks := CleanWords(ts, stop, lemmatize);
    forall k | 0 <= k < |ks|
      ensures IsToken(ks[k])
    {
      assert us[k] in us;
    }
    SplitJoin(ks);
  }

  /** Empty input gives the empty string. */
  lemma CleanTextOfEmpty(stop: set<string>, lemmatize: string -> string)
    ensures CleanText("", stop, lemmatize) == ""
  {
  }

  /** Whatever the lemmatiser, a text whose words are all stopwords (or that has no words) gives the empty string. */
  lemma CleanTextOfStopwords(text: string, stop: set<string>, lemmatize: string -> string)
    requires forall k :: 0 <= k < |Tokens(text)| ==> Tokens(text)[k] in stop
    ensures CleanText(text, stop, lemmatize) == ""
  {
    UnstoppedEmptyIff(Tokens(text), stop);
  }

  /** A text without ASCII letters gives the empty string. */
  lemma CleanTextWithoutLetters(text: string, stop: set<string>, lemmatize: string -> string)
    requires forall i :: 0 <= i < |text| ==> !IsLetter(text[i])
    ensures CleanText(text, stop, lemmatize) == ""
  {
    TokensWithoutLetters(text);
  }

  /**
   When the lemmatiser never returns the empty string for a kept word, the
   result is empty exactly when every word of the text is a stopword
   (which includes a text with no words at all).
   */
  lemma CleanTextEmptyIff(text: string, stop: set<string>, lemmatize: string -> string)
    requires forall w :: IsLowerWord(w) && w !in stop ==> lemmatize(w) != ""
    ensures CleanText(text, stop, lemmatize) == "" <==>
      forall k :: 0 <= k < |Tokens(text)| ==> Tokens(text)[k] in stop
  {
    var ts := Tokens(text);
    var us := Unstopped(ts, stop);
    var ks := CleanWords(ts, stop, lemmatize);
    UnstoppedEmptyIff(ts, stop);
    if |ks| > 0 {
      assert us[0] in us;
      assert ks[0] != "";
    }
    JoinEmptyIff(ks);
  }

  /** Two texts that differ only in the case of their letters give the same result. */
  lemma CleanTextCaseInsensitive(a: string, b: string, stop: set<string>, lemmatize: string -> string)
    requires SameUpToCase(a, b)
    ensures CleanText(a, stop, lemmatize) == CleanText(b, stop, lemmatize)
  {
    LowerEqualIff(a, b);
  }

  /** A string made of lower-case letters and blanks passes lower-casing and the letter filter unchanged. */
  lemma FilterFixesLowerText(s: string)
    requires forall i :: 0 <= i < |s| ==> IsLower(s[i]) || s[i] == ' '
    ensures ReplaceNonLetters(Lower(s)) == s
  {
    LowerNoUpper(s);
  }

  /** With a stable lemmatiser, cleaning an already cleaned text changes nothing. */
  lemma CleanTextIdempotent(text: string, stop: set<string>, lemmatize: string -> string)
    requires StableLemmatizer(stop, lemmatize)
    ensures CleanText(CleanText(text, stop, lemmatize), stop, lemmatize) == CleanText(text, stop, lemmatize)
  {
    var ts := Tokens(text);
    var us := Unstopped(ts, stop);
    var ks := CleanWords(ts, stop, lemmatize);
    var s := Join(ks);
    forall k | 0 <= k < |ks|
      ensures IsLowerWord(ks[k]) && ks[k] !in stop && lemmatize(ks[k]) == ks[k]
    {
      assert us[k] in us;
    }
    forall k | 0 <= k < |ks|
      ensures IsToken(ks[k])
    {
      assert IsLowerWord(ks[k]);
    }
    JoinOfLowerWords(ks);
    FilterFixesLowerText(s);
    SplitJoin(ks);
    assert Tokens(s) == ks;
    UnstoppedNone(ks, stop);
    assert CleanWords(ks, stop, lemmatize) == ks;
  }

  /** With the identity lemmatiser, cleaning is idempotent. */
  lemma CleanTextIdempotentIdentity(text: string, stop: set<string>)
    ensures CleanText(CleanText(text, stop, Identity), stop, Identity) == CleanText(text, stop, Identity)
  {
    CleanTextIdempotent(text, stop, Identity);
  }

  /** A lower-case word is its own single token. */
  lemma TokensOfLowerWord(w: string)
    requires IsLowerWord(w)
    ensures Tokens(w) == [w]
  {
    FilterFixesLowerText(w);
    SplitToken(w);
  }

  /** One-letter words and the pieces of a web address are kept: only non-letters are removed. */
  lemma WebAddressPiecesSurvive()
    ensures CleanText("www.x.com", {}, Identity) == "www x com"
  {
    assert "www.x.com" == "www" + ['.'] + ("x" + ['.'] + "com");
    assert "www x com" == "www" + " " + ("x" + " " + "com");
    CleanTextOfDotted("www", "x", "com");
  }

  /** Three lower-case words joined by dots clean, with no stopwords and no lemmatising, to the same words joined by blanks. */
  lemma CleanTextOfDotted(a: string, b: string, c: string)
    requires IsLowerWord(a) && IsLowerWord(b) && IsLowerWord(c)
    ensures CleanText(a + ['.'] + (b + ['.'] + c), {}, Identity) == a + " " + (b + " " + c)
  {
    var ws := [a, b, c];
    TokensOfDotted(a, b, c);
    UnstoppedNone(ws, {});
    assert CleanWords(ws, {}, Identity) == ws;
    JoinThree(a, b, c);
  }

  /** Joining three words. */
  lemma JoinThree(a: string, b: string, c: string)
    ensures Join([a, b, c]) == a + " " + (b + " " + c)
  {
    assert [a, b, c][1..] == [b, c];
    assert [b, c][1..] == [c];
    assert Join([c]) == c;
    assert Join([b, c]) == b + " " + c;
  }

  /** Three lower-case words joined by dots are three tokens. */
  lemma TokensOfDotted(a: string, b: string, c: string)
    requires IsLowerWord(a) && IsLowerWord(b) && IsLowerWord(c)
    ensures Tokens(a + ['.'] + (b + ['.'] + c)) == [a, b, c]
  {
    TokensSplitAtNonLetter(b, '.', c);
    TokensSplitAtNonLetter(a, '.', b + ['.'] + c);
    TokensOfLowerWord(a);
    TokensOfLowerWord(b);
    TokensOfLowerWord(c);
  }
}
