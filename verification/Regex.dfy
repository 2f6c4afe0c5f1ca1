/**
 The matcher of grep.c against the language of its patterns.

 A pattern is a sequence of atoms, each a character, '.' or either of them starred; '^' is special
 only at the very beginning and '$' only at the very end.  C strings are sequences without '\0'.
 */
module Regex {
  /** s[i] of a C string, its terminator included. */
  function At(s: string, i: nat): char {
    if i < |s| then s[i] else '\0'
  }

  predicate CString(s: string) {
    forall i :: 0 <= i < |s| ==> s[i] != '\0'
  }

  // ---- the language ----

  datatype Atom = One(c: char) | Star(c: char)

  /** The atoms of a pattern without its '^', and without a final '$'. */
  function Atoms(re: string): seq<Atom> {
    if re == [] then []
    else if |re| >= 2 && re[1] == '*' then [Star(re[0])] + Atoms(re[2..])
    else if re == "$" then []
    else [One(re[0])] + Atoms(re[1..])
  }

  /** The pattern ends with a '$' that is not starred. */
  predicate Ends(re: string) {
    if re == [] then false
    else if |re| >= 2 && re[1] == '*' then Ends(re[2..])
    else if re == "$" then true
    else Ends(re[1..])
  }

  predicate Fits(c: char, x: char) {
    c == '.' || c == x
  }

  /** The piece is in the language of the atom. */
  ghost predicate InAtom(a: Atom, piece: string) {
    match a
    case One(c) => |piece| == 1 && Fits(c, piece[0])
    case Star(c) => forall i :: 0 <= i < |piece| ==> Fits(c, piece[i])
  }

  function Concat(pieces: seq<string>): string {
    if pieces == [] then "" else pieces[0] + Concat(pieces[1..])
  }

  ghost predicate Splits(atoms: seq<Atom>, w: string, pieces: seq<string>) {
    && |pieces| == |atoms| && Concat(pieces) == w
    && forall k :: 0 <= k < |atoms| ==> InAtom(atoms[k], pieces[k])
  }

  /** The string is made of one piece for each atom. */
  ghost predicate InLanguage(atoms: seq<Atom>, w: string) {
    exists pieces :: Splits(atoms, w, pieces)
  }

  /** The first `j` characters of the text are in the language, and are all of it if the pattern ends with '$'. */
  ghost predicate PrefixAt(re: string, text: string, j: nat) {
    j <= |text| && InLanguage(Atoms(re), text[..j]) && (Ends(re) ==> j == |text|)
  }

  ghost predicate MatchesPrefix(re: string, text: string) {
    exists j: nat :: PrefixAt(re, text, j)
  }

  /** Some substring of the text, a prefix if the pattern begins with '^', is in the pattern's language. */
  ghost predicate Found(re: string, text: string) {
    if re != [] && re[0] == '^' then exists j: nat :: FoundAt(re[1..], text, 0, j)
    else exists i: nat, j: nat :: FoundAt(re, text, i, j)
  }

  ghost predicate FoundAt(re: string, text: string, i: nat, j: nat) {
    i <= j <= |text| && InLanguage(Atoms(re), text[i..j]) && (Ends(re) ==> j == |text|)
  }

  // ---- the cases of matchhere ----

  lemma {:induction false} NoAtoms(w: string)
    ensures InLanguage([], w) <==> w == ""
  {
    if InLanguage([], w) {
      var pieces :| Splits([], w, pieces);
    }
    assert Concat([]) == "" && Splits([], "", []);
  }

  /** The first atom takes the first piece. */
  lemma {:induction false} FirstAtom(a: Atom, atoms: seq<Atom>, w: string, i: nat)
    requires i <= |w| && InAtom(a, w[..i]) && InLanguage(atoms, w[i..])
    ensures InLanguage([a] + atoms, w)
  {
    var pieces :| Splits(atoms, w[i..], pieces);
    var all := [w[..i]] + pieces;
    assert all[1..] == pieces;
    assert Splits([a] + atoms, w, all);
  }

  lemma {:induction false} FirstPiece(a: Atom, atoms: seq<Atom>, w: string) returns (i: nat)
    requires InLanguage([a] + atoms, w)
    ensures i <= |w| && InAtom(a, w[..i]) && InLanguage(atoms, w[i..])
  {
    var all := [a] + atoms;
    var pieces :| Splits(all, w, pieces);
    i := |pieces[0]|;
    assert InAtom(all[0], pieces[0]);
    assert w[..i] == pieces[0] && w[i..] == Concat(pieces[1..]);
    forall k | 0 <= k < |atoms|
      ensures InAtom(atoms[k], pieces[1..][k])
    {
      assert InAtom(all[k + 1], pieces[k + 1]);
    }
    assert Splits(atoms, w[i..], pieces[1..]);
  }

  lemma {:induction false} EmptyPattern(text: string)
    ensures MatchesPrefix("", text)
  {
    NoAtoms("");
    assert text[..0] == "";
    assert PrefixAt("", text, 0);
  }

  lemma {:induction false} EndPattern(text: string)
    ensures MatchesPrefix("$", text) <==> text == ""
  {
    if j: nat :| PrefixAt("$", text, j) {
      NoAtoms(text[..j]);
    }
    if text == "" {
      NoAtoms("");
      assert PrefixAt("$", text, 0);
    }
  }

  /** A pattern that begins with an unstarred character. */
  lemma {:induction false} OnePattern(re: string, text: string)
    requires re != [] && !(|re| >= 2 && re[1] == '*') && re != "$"
    ensures MatchesPrefix(re, text) <==> text != "" && Fits(re[0], text[0]) && MatchesPrefix(re[1..], text[1..])
  {
    if j: nat :| PrefixAt(re, text, j) {
      var i := FirstPiece(One(re[0]), Atoms(re[1..]), text[..j]);
      assert text[..j][i..] == text[1..][..j - 1];
      assert PrefixAt(re[1..], text[1..], j - 1);
    }
    if text != "" && Fits(re[0], text[0]) && MatchesPrefix(re[1..], text[1..]) {
      var j: nat :| PrefixAt(re[1..], text[1..], j);
      assert text[..j + 1][1..] == text[1..][..j];
      FirstAtom(One(re[0]), Atoms(re[1..]), text[..j + 1], 1);
      assert PrefixAt(re, text, j + 1);
    }
  }

  /** The first `i` characters fit the starred one, and the rest of the pattern matches from there. */
  ghost predicate StarAt(c: char, re: string, text: string, i: nat) {
    i <= |text| && (forall k :: 0 <= k < i ==> Fits(c, text[k])) && MatchesPrefix(re, text[i..])
  }

  lemma {:induction false} StarPattern(re: string, text: string)
    requires |re| >= 2 && re[1] == '*'
    ensures MatchesPrefix(re, text) <==> exists i: nat :: StarAt(re[0], re[2..], text, i)
  {
    if j: nat :| PrefixAt(re, text, j) {
      var i := FirstPiece(Star(re[0]), Atoms(re[2..]), text[..j]);
      forall k | 0 <= k < i
        ensures Fits(re[0], text[k])
      {
        assert text[..j][..i][k] == text[k];
      }
      assert text[..j][i..] == text[i..][..j - i];
      assert PrefixAt(re[2..], text[i..], j - i);
      assert StarAt(re[0], re[2..], text, i);
    }
    if i: nat :| StarAt(re[0], re[2..], text, i) {
      var j: nat :| PrefixAt(re[2..], text[i..], j);
      assert text[..i + j][i..] == text[i..][..j] && text[..i + j][..i] == text[..i];
      FirstAtom(Star(re[0]), Atoms(re[2..]), text[..i + j], i);
      assert PrefixAt(re, text, i + j);
    }
  }

  // ---- match ----

  lemma {:induction false} FoundFrom(re: string, text: string, i: nat)
    requires i <= |text|
    ensures MatchesPrefix(re, text[i..]) <==> exists j: nat :: FoundAt(re, text, i, j)
  {
    if j: nat :| PrefixAt(re, text[i..], j) {
      assert text[i..][..j] == text[i..i + j];
      assert FoundAt(re, text, i, i + j);
    }
    if j: nat :| FoundAt(re, text, i, j) {
      assert text[i..][..j - i] == text[i..j];
      assert PrefixAt(re, text[i..], j - i);
    }
  }

  /** match() answers 1 exactly if the pattern's language is found in the text. */
  method Match(re: string, text: string) returns (r: int)
    requires CString(re) && CString(text)
    ensures r == if Found(re, text) then 1 else 0
  {
    if At(re, 0) == '^' {
      r := MatchHere(re[1..], text);
      FoundFrom(re[1..], text, 0);
      assert text[0..] == text;
      return;
    }
    var t := text;
    ghost var i := 0;
    while true
      invariant i <= |text| && t == text[i..]
      invariant forall x: nat, j: nat :: x < i ==> !FoundAt(re, text, x, j)
      decreases |text| - i
    {
      FoundFrom(re, text, i);
      var here := MatchHere(re, t);
      if here == 1 {
        return 1;
      }
      if At(t, 0) == '\0' {
        assert i == |text|;
        return 0;
      }
      t := t[1..];
      i := i + 1;
    }
  }

  /** matchhere(): the pattern matches at the beginning of the text. */
  method MatchHere(re: string, text: string) returns (r: int)
    requires CString(re) && CString(text)
    ensures r == if MatchesPrefix(re, text) then 1 else 0
    decreases |re|, 0
  {
    if At(re, 0) == '\0' {
      EmptyPattern(text);
      return 1;
    }
    if At(re, 1) == '*' {
      StarPattern(re, text);
      r := MatchStar(re[0], re[2..], text);
      return;
    }
    if At(re, 0) == '$' && At(re, 1) == '\0' {
      EndPattern(text);
      assert re == "$";
      return if At(text, 0) == '\0' then 1 else 0;
    }
    OnePattern(re, text);
    if At(text, 0) != '\0' && (At(re, 0) == '.' || At(re, 0) == At(text, 0)) {
      r := MatchHere(re[1..], text[1..]);
      return;
    }
    return 0;
  }

  /** matchstar(): any number of characters that fit `c`, and then the rest of the pattern. */
  method MatchStar(c: char, re: string, text: string) returns (r: int)
    requires CString(re) && CString(text)
    ensures r == if exists i: nat :: StarAt(c, re, text, i) then 1 else 0
    decreases |re|, 1
  {
    var t := text;
    ghost var i := 0;
    while true
      invariant i <= |text| && t == text[i..]
      invariant forall k :: 0 <= k < i ==> Fits(c, text[k])
      invariant forall x: nat :: x < i ==> !StarAt(c, re, text, x)
      decreases |text| - i
    {
      var here := MatchHere(re, t);
      if here == 1 {
        assert StarAt(c, re, text, i);
        return 1;
      }
      if At(t, 0) == '\0' || !(At(t, 0) == c || c == '.') {
        assert i < |text| ==> !Fits(c, text[i]);
        return 0;
      }
      t := t[1..];
      i := i + 1;
    }
  }
}
