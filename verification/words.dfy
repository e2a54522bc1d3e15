/**
 Splitting a string into whitespace-separated words, the way Python's
 argument-less `str.split` does, and joining words back with single blanks,
 the way `" ".join` does.
 */
module Words {
  import opened Ascii

  /** A word as `str.split` produces it: non-empty and free of whitespace. */
  predicate IsToken(w: string) {
    |w| > 0 && forall i :: 0 <= i < |w| ==> !IsWhitespace(w[i])
  }

  /** Every word of `ws` is a token. */
  predicate AllTokens(ws: seq<string>) {
    forall k :: 0 <= k < |ws| ==> IsToken(ws[k])
  }

  /** Every character of `s` is whitespace. */
  predicate IsBlank(s: string) {
    forall i :: 0 <= i < |s| ==> IsWhitespace(s[i])
  }

  /** Length of the run of non-whitespace characters that starts `s`. */
  function WordLength(s: string): (n: nat)
    ensures n <= |s|
    ensures forall i :: 0 <= i < n ==> !IsWhitespace(s[i])
    ensures n < |s| ==> IsWhitespace(s[n])
  {
    if s == [] || IsWhitespace(s[0]) then 0 else 1 + WordLength(s[1..])
  }

  /**
   The maximal runs of non-whitespace characters of `s`, left to right;
   leading, trailing and repeated whitespace produce no empty words.
   */
  function Split(s: string): (ws: seq<string>)
    ensures AllTokens(ws)
    ensures forall k, i :: 0 <= k < |ws| && 0 <= i < |ws[k]| ==> ws[k][i] in s
    decreases |s|
  {
    if s == [] then []
    else if IsWhitespace(s[0]) then Split(s[1..])
    else
      var n := WordLength(s);
      [s[..n]] + Split(s[n..])
  }

  /**
   The words of `ws` separated by exactly one blank: the result starts with
   the first word and is as long as all the words together plus one blank
   between each neighbouring pair.
   */
  function Join(ws: seq<string>): (r: string)
    ensures |ws| > 0 ==> |r| == |Flatten(ws)| + |ws| - 1
    ensures |ws| > 0 ==> ws[0] <= r
  {
    if |ws| == 0 then ""
    else if |ws| == 1 then ws[0]
    else ws[0] + " " + Join(ws[1..])
  }

  /** The concatenation of the words of `ws`, with nothing in between. */
  function Flatten(ws: seq<string>): string
  {
    if ws == [] then "" else ws[0] + Flatten(ws[1..])
  }

  /** The non-whitespace characters of `s`, in order. */
  function Visible(s: string): string
  {
    if s == [] then ""
    else if IsWhitespace(s[0]) then Visible(s[1..])
    else [s[0]] + Visible(s[1..])
  }

  /** No blank at either end and no two blanks in a row. */
  predicate WellSpaced(s: string) {
    && (|s| > 0 ==> s[0] != ' ' && s[|s| - 1] != ' ')
    && forall i :: 0 <= i < |s| - 1 ==> !(s[i] == ' ' && s[i + 1] == ' ')
  }

  /** `WordLength` is determined by its contract. */
  lemma WordLengthUnique(s: string, k: nat)
    requires k <= |s|
    requires forall i :: 0 <= i < k ==> !IsWhitespace(s[i])
    requires k < |s| ==> IsWhitespace(s[k])
    ensures WordLength(s) == k
  {
  }

  /** A single token splits into itself. */
  lemma SplitToken(w: string)
    requires IsToken(w)
    ensures Split(w) == [w]
  {
    WordLengthUnique(w, |w|);
    assert w[..|w|] == w;
    assert w[|w|..] == [];
  }

  /** A string of whitespace only has no words. */
  lemma {:induction false} SplitBlank(s: string)
    requires IsBlank(s)
    ensures Split(s) == []
    decreases |s|
  {
    if s != [] {
      SplitBlank(s[1..]);
    }
  }

  /** The first word of `a + [c] + b` is the first word of `a` when `a` starts with one and `c` is whitespace. */
  lemma SplitFirstWord(a: string, c: char, b: string)
    requires a != [] && !IsWhitespace(a[0]) && IsWhitespace(c)
    ensures var n := WordLength(a);
      Split(a + [c] + b) == [a[..n]] + Split(a[n..] + [c] + b)
  {
    var s := a + [c] + b;
    var n := WordLength(a);
    WordLengthUnique(s, n);
    assert s[..n] == a[..n];
    assert s[n..] == a[n..] + [c] + b;
  }

  /**
   A whitespace character separates words: the words of `a + [c] + b` are
   those of `a` followed by those of `b`.
   */
  lemma {:induction false} SplitAtWhitespace(a: string, c: char, b: string)
    requires IsWhitespace(c)
    ensures Split(a + [c] + b) == Split(a) + Split(b)
    decreases |a|
  {
    var s := a + [c] + b;
    if a == [] {
      assert s[1..] == b;
    } else if IsWhitespace(a[0]) {
      assert s[1..] == a[1..] + [c] + b;
      SplitAtWhitespace(a[1..], c, b);
    } else {
      var n := WordLength(a);
      SplitFirstWord(a, c, b);
      SplitAtWhitespace(a[n..], c, b);
      assert Split(a) == [a[..n]] + Split(a[n..]);
    }
  }

  /** Splitting undoes joining when every word is a token. */
  lemma {:induction false} SplitJoin(ws: seq<string>)
    requires AllTokens(ws)
    ensures Split(Join(ws)) == ws
    decreases |ws|
  {
    if |ws| == 1 {
      SplitToken(ws[0]);
    } else if |ws| > 1 {
      SplitToken(ws[0]);
      SplitJoin(ws[1..]);
      SplitAtWhitespace(ws[0], ' ', Join(ws[1..]));
    }
  }

  /** `Visible` distributes over concatenation. */
  lemma {:induction false} VisibleAppend(a: string, b: string)
    ensures Visible(a + b) == Visible(a) + Visible(b)
    decreases |a|
  {
    if a == [] {
      assert a + b == b;
    } else {
      assert (a + b)[1..] == a[1..] + b;
      VisibleAppend(a[1..], b);
    }
  }

  /** A string with no whitespace is its own visible part. */
  lemma {:induction false} VisibleOfWord(w: string)
    requires forall i :: 0 <= i < |w| ==> !IsWhitespace(w[i])
    ensures Visible(w) == w
    decreases |w|
  {
    if w != [] {
      VisibleOfWord(w[1..]);
    }
  }

  /**
   Splitting loses only whitespace: the words, laid end to end, are the
   non-whitespace characters of the input in their original order.
   */
  lemma {:induction false} SplitKeepsVisible(s: string)
    ensures Flatten(Split(s)) == Visible(s)
    decreases |s|
  {
    if s != [] {
      if IsWhitespace(s[0]) {
        SplitKeepsVisible(s[1..]);
      } else {
        var n := WordLength(s);
        SplitKeepsVisible(s[n..]);
        assert s == s[..n] + s[n..];
        VisibleAppend(s[..n], s[n..]);
        VisibleOfWord(s[..n]);
        assert ([s[..n]] + Split(s[n..]))[1..] == Split(s[n..]);
      }
    }
  }

  /** A non-empty join of non-empty words is non-empty. */
  lemma JoinNonEmpty(ws: seq<string>)
    requires |ws| > 0 && |ws[0]| > 0
    ensures |Join(ws)| > 0
  {
  }

  /** Joining words that are non-empty and blank-free leaves no stray blanks. */
  lemma {:induction false} JoinWellSpaced(ws: seq<string>)
    requires forall k :: 0 <= k < |ws| ==> |ws[k]| > 0 && ' ' !in ws[k]
    ensures WellSpaced(Join(ws))
    decreases |ws|
  {
    if |ws| > 1 {
      var w, rest := ws[0], Join(ws[1..]);
      JoinWellSpaced(ws[1..]);
      JoinNonEmpty(ws[1..]);
      var s := w + " " + rest;
      assert Join(ws) == s;
      forall i | 0 <= i < |s| - 1
        ensures !(s[i] == ' ' && s[i + 1] == ' ')
      {
        if i < |w| {
          assert s[i] == w[i];
        } else if i > |w| {
          assert s[i] == rest[i - |w| - 1] && s[i + 1] == rest[i - |w|];
        }
      }
    }
  }

  /** A join is empty exactly when there is nothing to join or all there is is one empty word. */
  lemma {:induction false} JoinEmptyIff(ws: seq<string>)
    ensures Join(ws) == "" <==> |ws| == 0 || (|ws| == 1 && ws[0] == "")
  {
  }

  /** A single word joins to itself. */
  lemma JoinSingle(w: string)
    ensures Join([w]) == w
  {
  }

  /**
   Joining two non-empty runs of words puts exactly one blank between
   them. With `JoinSingle` this determines `Join` completely.
   */
  lemma {:induction false} JoinAppend(a: seq<string>, b: seq<string>)
    requires |a| > 0 && |b| > 0
    ensures Join(a + b) == Join(a) + " " + Join(b)
    decreases |a|
  {
    if |a| > 1 {
      assert (a + b)[1..] == a[1..] + b;
      JoinAppend(a[1..], b);
    } else {
      assert (a + b)[1..] == b;
    }
  }
}
