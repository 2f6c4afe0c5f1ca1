/**
 What grep.c finds for the everyday patterns, said without its pattern language: a plain word,
 anchored or not, with a single '.', or after a starred character.
 */
module RegexLaws {
  import opened Regex

  /** No character of the word is special. */
  ghost predicate Plain(w: string) {
    forall i :: 0 <= i < |w| ==> w[i] != '.' && w[i] != '*' && w[i] != '^' && w[i] != '$'
  }

  /** A word matches at the beginning of what it is a prefix of. */
  lemma {:induction false} WordPrefix(w: string, text: string)
    requires Plain(w)
    ensures MatchesPrefix(w, text) <==> w <= text
  {
    if w == "" {
      EmptyPattern(text);
    } else {
      assert w[0] != "$"[0];
      OnePattern(w, text);
      if text != "" {
        WordPrefix(w[1..], text[1..]);
        assert w == [w[0]] + w[1..] && text == [text[0]] + text[1..];
      }
    }
  }

  /** Before a '$', of itself alone. */
  lemma {:induction false} WordToEnd(w: string, text: string)
    requires Plain(w)
    ensures MatchesPrefix(w + "$", text) <==> w == text
  {
    var re := w + "$";
    if w == "" {
      assert re == "$";
      EndPattern(text);
    } else {
      assert re[1..] == w[1..] + "$" && |re| >= 2;
      OnePattern(re, text);
      if text != "" {
        WordToEnd(w[1..], text[1..]);
        assert w == [w[0]] + w[1..] && text == [text[0]] + text[1..];
      }
    }
  }

  /** Pattern `re` without '^' is found where a suffix of the text begins with a match. */
  lemma {:induction false} FoundInside(re: string, text: string)
    requires re == "" || re[0] != '^'
    ensures Found(re, text) <==> exists i: nat :: SuffixMatches(re, text, i)
  {
    if i: nat, j: nat :| FoundAt(re, text, i, j) {
      FoundFrom(re, text, i);
      assert SuffixMatches(re, text, i);
    }
    if i: nat :| SuffixMatches(re, text, i) {
      FoundFrom(re, text, i);
    }
  }

  ghost predicate SuffixMatches(re: string, text: string, i: nat) {
    i <= |text| && MatchesPrefix(re, text[i..])
  }

  lemma {:induction false} FoundAtStart(re: string, text: string)
    ensures Found("^" + re, text) <==> MatchesPrefix(re, text)
  {
    assert ("^" + re)[1..] == re && text[0..] == text;
    FoundFrom(re, text, 0);
  }

  ghost predicate OccursAt(w: string, text: string, i: nat) {
    i <= |text| && w <= text[i..]
  }

  /** A plain word is found exactly if it occurs. */
  lemma {:induction false} WordFound(w: string, text: string)
    requires Plain(w)
    ensures Found(w, text) <==> exists i: nat :: OccursAt(w, text, i)
  {
    FoundInside(w, text);
    if i: nat :| SuffixMatches(w, text, i) {
      WordPrefix(w, text[i..]);
      assert OccursAt(w, text, i);
    }
    if i: nat :| OccursAt(w, text, i) {
      WordPrefix(w, text[i..]);
      assert SuffixMatches(w, text, i);
    }
  }

  /** After '^' if the text begins with it, and between '^' and '$' if it is the text. */
  lemma {:induction false} AnchoredWordFound(w: string, text: string)
    requires Plain(w)
    ensures Found("^" + w, text) <==> w <= text
    ensures Found("^" + (w + "$"), text) <==> text == w
  {
    FoundAtStart(w, text);
    WordPrefix(w, text);
    FoundAtStart(w + "$", text);
    WordToEnd(w, text);
  }

  /** Before '$' if the text ends with it. */
  lemma {:induction false} LastWordFound(w: string, text: string)
    requires Plain(w)
    ensures Found(w + "$", text) <==> |w| <= |text| && text[|text| - |w|..] == w
  {
    FoundInside(w + "$", text);
    if i: nat :| SuffixMatches(w + "$", text, i) {
      WordToEnd(w, text[i..]);
    }
    if |w| <= |text| && text[|text| - |w|..] == w {
      WordToEnd(w, text[|text| - |w|..]);
      assert SuffixMatches(w + "$", text, |text| - |w|);
    }
  }

  /** A '.' stands for any one character. */
  lemma {:induction false} DotPrefix(w: string, text: string)
    requires Plain(w)
    ensures MatchesPrefix("." + w, text) <==> text != "" && w <= text[1..]
  {
    var re := "." + w;
    assert re[1..] == w && re[0] != "$"[0] && (|re| >= 2 ==> re[1] == w[0]);
    OnePattern(re, text);
    if text != "" { WordPrefix(w, text[1..]); }
  }

  /** ".*" stands for anything, nothing included. */
  lemma {:induction false} AnythingPrefix(w: string, text: string)
    requires Plain(w)
    ensures MatchesPrefix(".*" + w, text) <==> exists i: nat :: OccursAt(w, text, i)
  {
    var re := ".*" + w;
    assert re[2..] == w;
    StarPattern(re, text);
    if i: nat :| StarAt('.', w, text, i) {
      WordPrefix(w, text[i..]);
      assert OccursAt(w, text, i);
    }
    if i: nat :| OccursAt(w, text, i) {
      WordPrefix(w, text[i..]);
      assert StarAt('.', w, text, i);
    }
  }

  /** The text begins with `n` times the character, and then the word. */
  ghost predicate RunThen(c: char, w: string, text: string, n: nat) {
    OccursAt(w, text, n) && forall k :: 0 <= k < n ==> text[k] == c
  }

  /** A starred character stands for any number of itself. */
  lemma {:induction false} RunPrefix(c: char, w: string, text: string)
    requires Plain(w) && c != '.'
    ensures MatchesPrefix([c, '*'] + w, text) <==> exists n: nat :: RunThen(c, w, text, n)
  {
    var re := [c, '*'] + w;
    assert re[2..] == w;
    StarPattern(re, text);
    if n: nat :| StarAt(c, w, text, n) {
      WordPrefix(w, text[n..]);
      assert RunThen(c, w, text, n);
    }
    if n: nat :| RunThen(c, w, text, n) {
      WordPrefix(w, text[n..]);
      assert StarAt(c, w, text, n);
    }
  }
}
