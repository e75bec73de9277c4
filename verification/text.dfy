/** String operations of Python's `str` that both programs rely on, as they
    behave on the characters involved: `rstrip(chars)`, `strip()`, a
    character-wise approximation of `casefold()`, and the line splitting of a
    text file opened with `newline="\n"`. */
module Text {

  const EOL: string := "\n"

  /** The characters `rstrip("\n\r")` removes. */
  predicate IsTerminator(c: char) {
    c == '\n' || c == '\r'
  }

  /** The characters for which Python's `str.isspace()` holds, i.e. those
      that `str.strip()` with no argument removes. */
  predicate IsSpace(c: char) {
    || c == ' '
    || ('\t' <= c <= '\r')
    || ('\U{1C}' <= c <= '\U{1F}')
    || c == '\U{85}'
    || c == '\U{A0}'
    || c == '\U{1680}'
    || ('\U{2000}' <= c <= '\U{200A}')
    || c == '\U{2028}'
    || c == '\U{2029}'
    || c == '\U{202F}'
    || c == '\U{205F}'
    || c == '\U{3000}'
  }

  predicate AllSpace(s: string) {
    forall i :: 0 <= i < |s| ==> IsSpace(s[i])
  }

  /** A string `strip()` leaves unchanged: no space at either end. */
  predicate IsStripped(s: string) {
    s == [] || (!IsSpace(s[0]) && !IsSpace(s[|s| - 1]))
  }

  /** `s.rstrip(chars)`, where `drop` tells which characters are in `chars`:
      trailing characters are removed while they are dropped ones. */
  function RStripBy(s: string, drop: char -> bool): (r: string)
    decreases |s|
  {
    if s != [] && drop(s[|s| - 1]) then RStripBy(s[..|s| - 1], drop) else s
  }

  /** `rstrip` keeps the longest prefix that does not end in a dropped
      character: a prefix, not ending in one, with only dropped characters
      removed. */
  lemma {:induction false} RStripBySpec(s: string, drop: char -> bool)
    ensures var r := RStripBy(s, drop);
      && r <= s
      && (r == [] || !drop(r[|r| - 1]))
      && (forall i :: |r| <= i < |s| ==> drop(s[i]))
    decreases |s|
  {
    if s != [] && drop(s[|s| - 1]) {
      RStripBySpec(s[..|s| - 1], drop);
    }
  }

  /** `s.lstrip(chars)`: leading characters are removed while they are
      dropped ones. */
  function LStripBy(s: string, drop: char -> bool): (r: string)
    decreases |s|
  {
    if s != [] && drop(s[0]) then LStripBy(s[1..], drop) else s
  }

  /** `lstrip` keeps the longest suffix that does not start with a dropped
      character. */
  lemma {:induction false} LStripBySpec(s: string, drop: char -> bool)
    ensures var r := LStripBy(s, drop);
      && |r| <= |s| && r == s[|s| - |r|..]
      && (r == [] || !drop(r[0]))
      && (forall i :: 0 <= i < |s| - |r| ==> drop(s[i]))
    decreases |s|
  {
    if s != [] && drop(s[0]) {
      LStripBySpec(s[1..], drop);
      assert s[1..][|s| - 1 - |LStripBy(s, drop)|..] == s[|s| - |LStripBy(s, drop)|..];
    }
  }

  /** `line.rstrip("\n\r")`. */
  function RStripTerminators(s: string): (r: string)
    ensures |r| <= |s|
    ensures r == [] || !IsTerminator(r[|r| - 1])
  {
    RStripBySpec(s, IsTerminator);
    RStripBy(s, IsTerminator)
  }

  /** `rstrip("\n\r")` removes every trailing newline and carriage return
      and nothing else: spaces and tabs stay. */
  lemma RStripTerminatorsSpec(s: string)
    ensures var r := RStripTerminators(s);
      && r <= s
      && (r == [] || !IsTerminator(r[|r| - 1]))
      && (forall i :: |r| <= i < |s| ==> IsTerminator(s[i]))
  {
    RStripBySpec(s, IsTerminator);
  }

  /** `s.strip()`: whitespace removed at both ends. */
  function Strip(s: string): (r: string)
    ensures IsStripped(r)
    ensures |r| <= |s|
  {
    RStripBySpec(s, IsSpace);
    LStripBySpec(RStripBy(s, IsSpace), IsSpace);
    LStripBy(RStripBy(s, IsSpace), IsSpace)
  }

  /** The three conditions of `RStripBySpec` determine its result. */
  lemma RStripByUnique(s: string, drop: char -> bool, r: string)
    requires r <= s
    requires r == [] || !drop(r[|r| - 1])
    requires forall i :: |r| <= i < |s| ==> drop(s[i])
    ensures RStripBy(s, drop) == r
  {
    RStripBySpec(s, drop);
    var q := RStripBy(s, drop);
    assert |q| == |r|;
  }

  /** The three conditions of `LStripBySpec` determine its result. */
  lemma LStripByUnique(s: string, drop: char -> bool, r: string)
    requires |r| <= |s| && r == s[|s| - |r|..]
    requires r == [] || !drop(r[0])
    requires forall i :: 0 <= i < |s| - |r| ==> drop(s[i])
    ensures LStripBy(s, drop) == r
  {
    LStripBySpec(s, drop);
    var q := LStripBy(s, drop);
    assert |q| == |r|;
  }

  /** Appending only dropped characters to a string that does not end in one
      is undone by `RStripBy`. */
  lemma RStripByAppended(m: string, tail: string, drop: char -> bool)
    requires m == [] || !drop(m[|m| - 1])
    requires forall i :: 0 <= i < |tail| ==> drop(tail[i])
    ensures RStripBy(m + tail, drop) == m
  {
    var s := m + tail;
    assert m <= s;
    forall i | |m| <= i < |s|
      ensures drop(s[i])
    {
      assert s[i] == tail[i - |m|];
    }
    RStripByUnique(s, drop, m);
  }

  /** `strip()` leaves a string alone exactly when it has no space at either
      end. */
  lemma StripFixedPoints(s: string)
    ensures Strip(s) == s <==> IsStripped(s)
  {
    if IsStripped(s) {
      RStripByUnique(s, IsSpace, s);
      LStripByUnique(s, IsSpace, s);
    }
  }

  /** `strip()` is idempotent. */
  lemma StripIdempotent(s: string)
    ensures Strip(Strip(s)) == Strip(s)
  {
    StripFixedPoints(Strip(s));
  }

  /** `strip()` removes exactly the whitespace put around a stripped string. */
  lemma StripPadded(a: string, u: string, b: string)
    requires AllSpace(a) && AllSpace(b) && IsStripped(u)
    ensures Strip(a + u + b) == u
  {
    var s := a + u + b;
    var p := a + u;
    assert s == p + b;
    if u == [] {
      assert AllSpace(s) by {
        forall i | 0 <= i < |s|
          ensures IsSpace(s[i])
        {
          if i < |a| { assert s[i] == a[i]; } else { assert s[i] == b[i - |a|]; }
        }
      }
      RStripByUnique(s, IsSpace, []);
      LStripByUnique([], IsSpace, []);
    } else {
      assert p[|p| - 1] == u[|u| - 1];
      RStripByAppended(p, b, IsSpace);
      assert u == p[|p| - |u|..];
      forall i | 0 <= i < |p| - |u|
        ensures IsSpace(p[i])
      {
        assert p[i] == a[i];
      }
      LStripByUnique(p, IsSpace, u);
    }
  }

  /** A slice of whitespace characters is all whitespace. */
  lemma SpaceSlice(s: string, lo: nat, hi: nat)
    requires lo <= hi <= |s|
    requires forall i :: lo <= i < hi ==> IsSpace(s[i])
    ensures AllSpace(s[lo..hi])
  {
  }

  /** `strip()` keeps a contiguous piece of its argument and removes only
      whitespace around it. */
  lemma StripIsInfix(s: string) returns (k: nat)
    ensures k + |Strip(s)| <= |s|
    ensures s == s[..k] + Strip(s) + s[k + |Strip(s)|..]
    ensures AllSpace(s[..k]) && AllSpace(s[k + |Strip(s)|..])
  {
    var p := RStripBy(s, IsSpace);
    var r := LStripBy(p, IsSpace);
    RStripBySpec(s, IsSpace);
    LStripBySpec(p, IsSpace);
    k := |p| - |r|;
    assert p == s[..|p|];
    assert r == s[k..|p|];
    assert forall i :: 0 <= i < k ==> IsSpace(s[i]) by {
      forall i | 0 <= i < k
        ensures IsSpace(s[i])
      {
        assert s[i] == p[i];
      }
    }
    SpaceSlice(s, 0, k);
    SpaceSlice(s, |p|, |s|);
    assert s[..k] == s[0..k] && s[|p|..] == s[|p|..|s|];
    assert s == s[..k] + s[k..|p|] + s[|p|..];
  }

  /** `strip()` only removes characters: it never adds one. */
  lemma StripKeepsChars(s: string)
    ensures forall c :: c in Strip(s) ==> c in s
  {
    var k := StripIsInfix(s);
    var r := Strip(s);
    forall c | c in r
      ensures c in s
    {
      var i :| 0 <= i < |r| && r[i] == c;
      assert s[k + i] == c;
    }
  }

  /** The character-wise part of `casefold()` that matters to the client's
      exit keywords: ASCII capitals, capital E with acute, and the long s.
      Folding leaves no ASCII capital. */
  function FoldChar(c: char): (r: char)
    ensures !('A' <= r <= 'Z')
  {
    if 'A' <= c <= 'Z' then (c as int + 32) as char
    else if c == '\U{C9}' then '\U{E9}'
    else if c == '\U{17F}' then 's'
    else c
  }

  /** `s.casefold()`, character by character: the same length and no ASCII
      capital left. */
  function CaseFold(s: string): (r: string)
    ensures |r| == |s|
    ensures forall i :: 0 <= i < |r| ==> !('A' <= r[i] <= 'Z')
  {
    seq(|s|, i requires 0 <= i < |s| => FoldChar(s[i]))
  }

  /** Folding a folded text changes nothing. */
  lemma CaseFoldIdempotent(s: string)
    ensures CaseFold(CaseFold(s)) == CaseFold(s)
  {
    var f := CaseFold(s);
    forall i | 0 <= i < |f|
      ensures CaseFold(f)[i] == f[i]
    {
      assert f[i] == FoldChar(s[i]);
    }
  }

  /** Folding never turns a non-space into a space, nor the reverse. */
  lemma FoldKeepsSpace(c: char)
    ensures IsSpace(FoldChar(c)) == IsSpace(c)
  {
  }

  /** Concatenation of a sequence of lines. */
  function Concat(ls: seq<string>): string {
    if ls == [] then [] else ls[0] + Concat(ls[1..])
  }

  /** Concatenation distributes over appending sequences of lines. */
  lemma {:induction false} ConcatAppend(a: seq<string>, b: seq<string>)
    ensures Concat(a + b) == Concat(a) + Concat(b)
  {
    if a == [] {
      assert a + b == b;
    } else {
      assert (a + b)[0] == a[0];
      assert (a + b)[1..] == a[1..] + b;
      ConcatAppend(a[1..], b);
    }
  }

  /** A complete line as written on the wire: text free of newlines, then one
      newline. */
  predicate IsLine(l: string) {
    |l| > 0 && l[|l| - 1] == '\n' && '\n' !in l[..|l| - 1]
  }

  /** A piece of a split stream: non-empty, and with no newline before its
      last character. */
  predicate IsPiece(l: string) {
    l != [] && '\n' !in l[..|l| - 1]
  }

  /** Length of the first line of `s`: up to and including the first newline,
      or all of `s` when it has none. */
  function FirstLineLength(s: string): (n: nat)
    requires s != []
    ensures 0 < n <= |s|
    ensures '\n' !in s[..n - 1]
    ensures s[n - 1] == '\n' || n == |s|
  {
    if s[0] == '\n' || |s| == 1 then 1
    else
      var n := 1 + FirstLineLength(s[1..]);
      assert s[..n - 1] == [s[0]] + s[1..][..n - 2];
      n
  }

  /** The lines a Python text file opened with `newline="\n"` yields when
      iterated: the stream is cut right after every newline and nowhere
      else, so each line ends in its newline except possibly the last one,
      which is never empty. */
  function SplitLines(s: string): (ls: seq<string>)
    ensures Concat(ls) == s
    ensures forall i :: 0 <= i < |ls| ==> IsPiece(ls[i])
    ensures forall i :: 0 <= i < |ls| - 1 ==> IsLine(ls[i])
    decreases |s|
  {
    if s == [] then []
    else
      var n := FirstLineLength(s);
      var rest := SplitLines(s[n..]);
      var ls := [s[..n]] + rest;
      assert s == s[..n] + s[n..];
      assert ls[1..] == rest;
      assert ls[0][..n - 1] == s[..n - 1];
      assert IsPiece(ls[0]);
      ls
  }

  /** A last line without its newline stays a line of its own. */
  lemma SplitLinesExample()
    ensures SplitLines("a\nb") == ["a\n", "b"]
  {
    var s := "a\nb";
    var b := "b";
    assert FirstLineLength(b) == 1;
    assert b[..1] == b && b[1..] == [];
    assert SplitLines(b) == [b] + SplitLines([]);
    assert FirstLineLength(s) == 2;
    assert s[..2] == "a\n" && s[2..] == b;
    assert SplitLines(s) == [s[..2]] + SplitLines(b);
  }

  /** Splitting the concatenation of complete lines gives back the lines. */
  lemma {:induction false} SplitConcatLines(ls: seq<string>)
    requires forall i :: 0 <= i < |ls| ==> IsLine(ls[i])
    ensures SplitLines(Concat(ls)) == ls
  {
    if ls != [] {
      var s := Concat(ls);
      var l := ls[0];
      assert s == l + Concat(ls[1..]);
      var n := FirstLineLength(s);
      assert s[..|l|] == l;
      assert n == |l|;
      assert s[n..] == Concat(ls[1..]);
      SplitConcatLines(ls[1..]);
    }
  }
}
