/** Texts as Python's string methods treat them, characters being classified as in ASCII:
    letters and case, blanks, and stripping characters from either end.  What is stripped is
    the longest run of characters that satisfy a condition; taking such a run from the
    front, and leaving it out, are the two steps that the scanners are made of. */
module Strings {
  predicate IsLetter(c: char) {
    'A' <= c <= 'Z' || 'a' <= c <= 'z'
  }

  predicate AllLetters(s: string) {
    forall c :: c in s ==> IsLetter(c)
  }

  function LowerChar(c: char): char {
    if 'A' <= c <= 'Z' then (c as int + 32) as char else c
  }

  function Lower(s: string): (lower: string)
    ensures |lower| == |s| && forall i :: 0 <= i < |s| ==> lower[i] == LowerChar(s[i])
  {
    if s == "" then "" else [LowerChar(s[0])] + Lower(s[1..])
  }

  predicate IsSpace(c: char) {
    c == ' ' || '\t' <= c <= '\r' || '\U{1c}' <= c <= '\U{1f}'
  }

  predicate AllSpaces(s: string) {
    forall c :: c in s ==> IsSpace(c)
  }

  predicate StartsWith(s: string, p: char -> bool) {
    s != "" && p(s[0])
  }

  /** The longest prefix whose characters satisfy p. */
  function TakeWhile(s: string, p: char -> bool): (taken: string)
    ensures taken <= s
  {
    if StartsWith(s, p) then [s[0]] + TakeWhile(s[1..], p) else ""
  }

  function DropWhile(s: string, p: char -> bool): string {
    s[|TakeWhile(s, p)|..]
  }

  function StripRight(s: string, drop: char -> bool): string {
    if s != "" && drop(s[|s| - 1]) then StripRight(s[..|s| - 1], drop) else s
  }

  function Strip(s: string): string {
    StripRight(DropWhile(s, IsSpace), IsSpace)
  }

  lemma {:induction false} LowerLetters(s: string)
    requires AllLetters(s)
    ensures AllLetters(Lower(s)) && Lower(Lower(s)) == Lower(s)
  {
    if s != "" {
      LowerLetters(s[1..]);
      assert Lower(s)[1..] == Lower(s[1..]);
    }
  }

  lemma LowerAppend(s: string, t: string)
    ensures Lower(s + t) == Lower(s) + Lower(t)
  {
  }

  lemma LowerIsSameExactly(s: string)
    ensures Lower(s) == s <==> forall c :: c in s ==> !('A' <= c <= 'Z')
  {
    assert forall i :: 0 <= i < |s| ==> s[i] in s && Lower(s)[i] == LowerChar(s[i]);
    assert forall c :: LowerChar(c) == c <==> !('A' <= c <= 'Z');
  }

  lemma {:induction false} TakeWhileIs(s: string, p: char -> bool, n: nat)
    requires n <= |s| && (forall i :: 0 <= i < n ==> p(s[i])) && (n < |s| ==> !p(s[n]))
    ensures TakeWhile(s, p) == s[..n]
  {
    if n > 0 {
      TakeWhileIs(s[1..], p, n - 1);
      assert s[..n] == [s[0]] + s[1..][..n - 1];
    }
  }

  lemma {:induction false} TakeWhileTakes(s: string, p: char -> bool)
    ensures forall c :: c in TakeWhile(s, p) ==> p(c)
    ensures !StartsWith(DropWhile(s, p), p)
  {
    if StartsWith(s, p) {
      TakeWhileTakes(s[1..], p);
      assert s[|TakeWhile(s, p)|..] == s[1..][|TakeWhile(s[1..], p)|..];
    }
  }

  lemma TakeWhileAppend(a: string, b: string, p: char -> bool)
    requires (forall c :: c in a ==> p(c)) && !StartsWith(b, p)
    ensures TakeWhile(a + b, p) == a && DropWhile(a + b, p) == b
  {
    assert forall i :: 0 <= i < |a| ==> a[i] in a;
    TakeWhileIs(a + b, p, |a|);
    assert (a + b)[..|a|] == a && (a + b)[|a|..] == b;
  }

  lemma DroppedWhile(s: string, p: char -> bool)
    ensures forall c :: c in TakeWhile(s, p) ==> p(c)
    ensures s == TakeWhile(s, p) + DropWhile(s, p)
    ensures !StartsWith(DropWhile(s, p), p)
  {
    TakeWhileTakes(s, p);
  }

  lemma {:induction false} StripRightPrefix(s: string, drop: char -> bool)
    ensures StripRight(s, drop) <= s
    ensures StripRight(s, drop) != "" ==> !drop(StripRight(s, drop)[|StripRight(s, drop)| - 1])
    ensures forall c :: c in s[|StripRight(s, drop)|..] ==> drop(c)
  {
    if s != "" && drop(s[|s| - 1]) {
      var front := s[..|s| - 1];
      StripRightPrefix(front, drop);
      var n := |StripRight(front, drop)|;
      assert s[n..] == front[n..] + [s[|s| - 1]];
    }
  }

  lemma {:induction false} StripRightAppend(s: string, t: string, drop: char -> bool)
    requires forall c :: c in t ==> drop(c)
    ensures StripRight(s + t, drop) == StripRight(s, drop)
  {
    if t == "" {
      assert s + t == s;
    } else {
      var front := t[..|t| - 1];
      assert (s + t)[..|s + t| - 1] == s + front;
      StripRightAppend(s, front, drop);
    }
  }

  lemma {:induction false} StripRightStops(s: string, t: string, drop: char -> bool)
    requires StripRight(t, drop) != ""
    ensures StripRight(s + t, drop) == s + StripRight(t, drop)
  {
    if drop(t[|t| - 1]) {
      var front := t[..|t| - 1];
      assert (s + t)[..|s + t| - 1] == s + front;
      StripRightStops(s, front, drop);
    }
  }

  lemma {:induction false} StripRightAll(t: string, drop: char -> bool)
    requires StripRight(t, drop) == ""
    ensures forall c :: c in t ==> drop(c)
  {
    if t != "" {
      StripRightAll(t[..|t| - 1], drop);
      assert t == t[..|t| - 1] + [t[|t| - 1]];
    }
  }

  lemma {:induction false} StrippedRight(s: string)
    ensures StripRight(s, IsSpace) <= s
    ensures var t := StripRight(s, IsSpace); t != "" ==> !IsSpace(t[|t| - 1])
    ensures s != "" && !IsSpace(s[|s| - 1]) ==> StripRight(s, IsSpace) == s
    ensures forall c :: c in s && !IsSpace(c) ==> c in StripRight(s, IsSpace)
  {
    if s != "" && IsSpace(s[|s| - 1]) {
      StrippedRight(s[..|s| - 1]);
      assert s == s[..|s| - 1] + [s[|s| - 1]];
    }
  }
}
