/** Character classes and small string helpers shared by the parser and the converter.
    The regex classes `\s` and `\w`, `char.IsWhiteSpace`, `char.IsLower` and
    `char.ToLowerInvariant` are modelled on ASCII. */
module Chars {

  datatype Option<+T> = None | Some(value: T)

  /** The line terminator written by `StringBuilder.AppendLine`. */
  const NewLine: string := "\n"

  /** `\s` and `char.IsWhiteSpace`: space, tab, line feed, vertical tab, form feed, carriage return. */
  predicate IsSpace(c: char)
  {
    c == ' ' || c == '\t' || c == '\n' || c == '\r' || c == 11 as char || c == 12 as char
  }

  /** `\w`: letters, digits and the underscore. */
  predicate IsWord(c: char)
  {
    ('a' <= c <= 'z') || ('A' <= c <= 'Z') || ('0' <= c <= '9') || c == '_'
  }

  /** The character classes the scanners skip over; `TypeChar` is the type group
      `[\w\?\<\>\[\]\s]` of the property pattern. */
  datatype CharClass = Space | Word | TypeChar

  predicate InClass(c: char, k: CharClass)
  {
    match k
    case Space => IsSpace(c)
    case Word => IsWord(c)
    case TypeChar => IsWord(c) || c == '?' || c == '<' || c == '>' || c == '[' || c == ']' || IsSpace(c)
  }

  predicate IsLower(c: char) { 'a' <= c <= 'z' }

  predicate IsUpper(c: char) { 'A' <= c <= 'Z' }

  /** `char.ToLowerInvariant`: an upper-case letter becomes the lower-case letter at
      the same place in the alphabet; every other character is kept. */
  function ToLower(c: char): (r: char)
    ensures !IsUpper(r)
    ensures !IsUpper(c) ==> r == c
    ensures IsUpper(c) ==> IsLower(r) && r as int - 'a' as int == c as int - 'A' as int
  {
    if IsUpper(c) then (c as int + 32) as char else c
  }

  predicate AllWord(s: string)
  {
    forall i :: 0 <= i < |s| ==> IsWord(s[i])
  }

  /** No leading and no trailing whitespace. */
  predicate IsTrimmed(s: string)
  {
    s == [] || (!IsSpace(s[0]) && !IsSpace(s[|s| - 1]))
  }

  /** An identifier has no surrounding whitespace. */
  lemma WordIsTrimmed(t: string)
    requires AllWord(t)
    ensures IsTrimmed(t)
  {
    if t != [] {
      assert IsWord(t[0]) && IsWord(t[|t| - 1]);
    }
  }

  /** The end of the run of characters satisfying `p` that starts at `i`. */
  function RunEnd(s: string, i: nat, k: CharClass): (j: nat)
    requires i <= |s|
    ensures i <= j <= |s|
    ensures forall x :: i <= x < j ==> InClass(s[x], k)
    ensures j < |s| ==> !InClass(s[j], k)
    decreases |s| - i
  {
    if i < |s| && InClass(s[i], k) then RunEnd(s, i + 1, k) else i
  }

  /** The start of the run of characters satisfying `p` that ends at `hi`, not going below `lo`. */
  function RunStart(s: string, lo: nat, hi: nat, k: CharClass): (x: nat)
    requires lo <= hi <= |s|
    ensures lo <= x <= hi
    ensures forall y :: x <= y < hi ==> InClass(s[y], k)
    ensures lo < x ==> !InClass(s[x - 1], k)
    decreases hi - lo
  {
    if lo < hi && InClass(s[hi - 1], k) then RunStart(s, lo, hi - 1, k) else hi
  }

  /** `string.Trim()`: drops leading and trailing whitespace. The result is a slice
      of `s` with only whitespace before and after it, and has none at its ends. */
  function Trim(s: string): (t: string)
    ensures IsTrimmed(t)
    ensures |t| <= |s|
    ensures IsTrimmed(s) ==> t == s
    ensures exists a, b :: 0 <= a <= b <= |s| && t == s[a..b] && SpaceOutside(s, a, b)
  {
    var a := RunEnd(s, 0, Space);
    var b := RunStart(s, a, |s|, Space);
    assert IsTrimmed(s) && s != [] ==> a == 0 && b == |s|;
    assert SpaceOutside(s, a, b);
    s[a..b]
  }

  /** Everything of `s` before `a` and from `b` on is whitespace. */
  predicate SpaceOutside(s: string, a: nat, b: nat)
    requires a <= b <= |s|
  {
    && (forall x :: 0 <= x < a ==> IsSpace(s[x]))
    && (forall x :: b <= x < |s| ==> IsSpace(s[x]))
  }

  lemma SliceOfWindow(s: string, lo: nat, hi: nat, a: nat, b: nat)
    requires lo <= hi <= |s| && a <= b <= hi - lo
    ensures s[lo..hi][a..b] == s[lo + a..lo + b]
  {
    var u, v := s[lo..hi][a..b], s[lo + a..lo + b];
    assert |u| == |v|;
    forall k | 0 <= k < |u| ensures u[k] == v[k] {
      assert u[k] == s[lo..hi][a + k] == s[lo + a + k];
    }
  }

  /** A run is determined by its characters: it ends at the first character outside the class. */
  lemma {:induction false} RunEndIs(s: string, i: nat, j: nat, k: CharClass)
    requires i <= j <= |s|
    requires forall x :: i <= x < j ==> InClass(s[x], k)
    requires j < |s| ==> !InClass(s[j], k)
    ensures RunEnd(s, i, k) == j
    decreases j - i
  {
    if i < j {
      RunEndIs(s, i + 1, j, k);
    }
  }

  /** The same, backwards: a run ending at `hi` starts just after the last character
      outside the class. */
  lemma {:induction false} RunStartIs(s: string, lo: nat, x: nat, hi: nat, k: CharClass)
    requires lo <= x <= hi <= |s|
    requires forall y :: x <= y < hi ==> InClass(s[y], k)
    requires lo < x ==> !InClass(s[x - 1], k)
    ensures RunStart(s, lo, hi, k) == x
    decreases hi - x
  {
    if x < hi {
      RunStartIs(s, lo, x, hi - 1, k);
    }
  }

}
