/** The two recognisers of RegexPatterns.cs, written as forward scanners, and the
    anchored `^Head<\s*(\w+)\s*>$` pattern that the parser uses for `Nullable<T>`
    and the converter for `List<T>`. A regex `Match` is the leftmost match at or
    after a start offset; `Matches` restarts after the end of each match. */
module RegexPatterns {
  import opened Chars

  /** A match of `class\s+(\w+)`: its offset, the captured name and the offset just past it. */
  datatype ClassMatch = ClassMatch(index: nat, name: string, end: nat)

  /** A match of the property pattern: offset, raw type group, name group and end. */
  datatype PropMatch = PropMatch(index: nat, rawType: string, name: string, end: nat)

  // ---------------------------------------------------------------------------
  // ClassRegex = `class\s+(\w+)`

  /** What every match of `ClassRegex` in `s` satisfies: `class`, at least one
      whitespace character, then the name, a maximal non-empty run of word characters. */
  predicate IsClassMatch(s: string, m: ClassMatch)
  {
    && m.index + 5 < m.end - |m.name| < m.end <= |s|
    && s[m.index..m.index + 5] == "class"
    && (forall x :: m.index + 5 <= x < m.end - |m.name| ==> IsSpace(s[x]))
    && m.name == s[m.end - |m.name|..m.end]
    && AllWord(m.name)
    && (m.end < |s| ==> !IsWord(s[m.end]))
  }

  /** `ClassRegex` matching exactly at offset `i`. There is no word boundary before
      `class`, so `subclass Foo` holds a match at the offset of `class`. */
  function ClassMatchAt(s: string, i: nat): (r: Option<ClassMatch>)
    ensures r.Some? ==> r.value.index == i && IsClassMatch(s, r.value)
  {
    if i + 5 <= |s| && s[i..i + 5] == "class" then
      var w := RunEnd(s, i + 5, Space);
      if i + 5 < w && w < |s| && IsWord(s[w]) then
        var e := RunEnd(s, w, Word);
        Some(ClassMatch(i, s[w..e], e))
      else
        None
    else
      None
  }

  /** `ClassRegex.Match(s, from)`: the leftmost match at or after `from`. */
  function ClassMatchFrom(s: string, from: nat): (r: Option<ClassMatch>)
    requires from <= |s|
    ensures r.Some? ==> from <= r.value.index && ClassMatchAt(s, r.value.index) == r
    ensures r.Some? ==> forall j :: from <= j < r.value.index ==> ClassMatchAt(s, j).None?
    ensures r.None? ==> forall j :: from <= j ==> ClassMatchAt(s, j).None?
    decreases |s| - from
  {
    if from == |s| then None
    else if ClassMatchAt(s, from).Some? then ClassMatchAt(s, from)
    else ClassMatchFrom(s, from + 1)
  }

  /** Class matches of `s` at or after `from`, each ending before the next starts. */
  predicate ClassMatchesFrom(s: string, from: nat, ms: seq<ClassMatch>)
  {
    && (forall k :: 0 <= k < |ms| ==> from <= ms[k].index && IsClassMatch(s, ms[k]))
    && (forall k :: 0 <= k < |ms| - 1 ==> ms[k].end <= ms[k + 1].index)
  }

  /** `ClassRegex.Matches(s)` from offset `from`: successive, non-overlapping, in text order. */
  function ClassMatches(s: string, from: nat): (ms: seq<ClassMatch>)
    requires from <= |s|
    ensures ClassMatchesFrom(s, from, ms)
    decreases |s| - from
  {
    match ClassMatchFrom(s, from)
    case None => []
    case Some(m) =>
      var rest := ClassMatches(s, m.end);
      ClassMatchesCons(s, from, m, rest);
      [m] + rest
  }

  /** A match followed by the matches after its end is a sequence of matches. */
  lemma ClassMatchesCons(s: string, from: nat, m: ClassMatch, rest: seq<ClassMatch>)
    requires from <= m.index && IsClassMatch(s, m) && ClassMatchesFrom(s, m.end, rest)
    ensures ClassMatchesFrom(s, from, [m] + rest)
  {
  }

  /** `IsClassMatch` describes the matches of `ClassRegex` exactly: every text span
      of that shape is what `ClassMatchAt` finds at its offset. */
  lemma ClassMatchAtComplete(s: string, m: ClassMatch)
    requires IsClassMatch(s, m)
    ensures ClassMatchAt(s, m.index) == Some(m)
  {
    var ns := m.end - |m.name|;
    RunEndIs(s, m.index + 5, ns, Space);
    assert IsWord(s[ns]) by { assert s[ns] == m.name[0]; }
    assert forall x :: ns <= x < m.end ==> IsWord(s[x]) by {
      forall x | ns <= x < m.end ensures IsWord(s[x]) { assert s[x] == m.name[x - ns]; }
    }
    RunEndIs(s, ns, m.end, Word);
  }

  /** A class match found in a window `s[lo..hi]` of the text is a match of the
      whole text at the shifted offset, with the same name, provided the character
      that closes the window is not a word character. */
  lemma ClassMatchInWindow(s: string, lo: nat, hi: nat, m: ClassMatch)
    requires lo <= hi < |s| && !IsWord(s[hi])
    requires IsClassMatch(s[lo..hi], m)
    ensures IsClassMatch(s, ClassMatch(lo + m.index, m.name, lo + m.end))
  {
    var w := s[lo..hi];
    SliceOfWindow(s, lo, hi, m.index, m.index + 5);
    SliceOfWindow(s, lo, hi, m.end - |m.name|, m.end);
    if m.end < |w| {
      assert w[m.end] == s[lo + m.end];
    }
    var shifted := ClassMatch(lo + m.index, m.name, lo + m.end);
    assert forall x :: shifted.index + 5 <= x < shifted.end - |m.name| ==> IsSpace(s[x]) by {
      forall x | shifted.index + 5 <= x < shifted.end - |m.name| ensures IsSpace(s[x]) {
        assert IsSpace(w[x - lo]) && w[x - lo] == s[x];
      }
    }
  }

  // ---------------------------------------------------------------------------
  // PropertyRegex = `public\s+([\w\?\<\>\[\]\s]+)\s+(\w+)\s*{\s*get;\s*set;\s*}`

  /** `s[q..e]` is an accessor block `{\s*get;\s*set;\s*}` with its `get;` at `g`
      and its `set;` at `t`. */
  predicate AccessorLayout(s: string, q: nat, g: nat, t: nat, e: nat)
  {
    && q < g && g + 4 <= t && t + 4 < e <= |s|
    && s[q] == '{' && s[g..g + 4] == "get;" && s[t..t + 4] == "set;" && s[e - 1] == '}'
    && (forall x :: q < x < g ==> IsSpace(s[x]))
    && (forall x :: g + 4 <= x < t ==> IsSpace(s[x]))
    && (forall x :: t + 4 <= x < e - 1 ==> IsSpace(s[x]))
  }

  /** The accessor block `{\s*get;\s*set;\s*}` at offset `q`: the offset just past it. */
  function AccessorEnd(s: string, q: nat): (r: Option<nat>)
    requires q <= |s|
    ensures r.Some? ==> q < r.value <= |s| && s[q] == '{' && s[r.value - 1] == '}'
  {
    if q < |s| && s[q] == '{' then
      var a := RunEnd(s, q + 1, Space);
      if a + 4 <= |s| && s[a..a + 4] == "get;" then
        var b := RunEnd(s, a + 4, Space);
        if b + 4 <= |s| && s[b..b + 4] == "set;" then
          var c := RunEnd(s, b + 4, Space);
          if c < |s| && s[c] == '}' then Some(c + 1) else None
        else None
      else None
    else None
  }

  /** What `AccessorEnd` finds is an accessor block. */
  lemma AccessorEndIsLayout(s: string, q: nat)
    requires q <= |s|
    ensures AccessorEnd(s, q).Some? ==> exists g, t :: AccessorLayout(s, q, g, t, AccessorEnd(s, q).value)
  {
    if AccessorEnd(s, q).Some? {
      var g := RunEnd(s, q + 1, Space);
      var t := RunEnd(s, g + 4, Space);
      assert AccessorLayout(s, q, g, t, AccessorEnd(s, q).value);
    }
  }

  /** Every accessor block is found: `AccessorEnd` describes the blocks exactly. */
  lemma AccessorEndOfLayout(s: string, q: nat, g: nat, t: nat, e: nat)
    requires AccessorLayout(s, q, g, t, e)
    ensures AccessorEnd(s, q) == Some(e)
  {
    assert s[g] == "get;"[0] && s[t] == "set;"[0];
    RunEndIs(s, q + 1, g, Space);
    RunEndIs(s, g + 4, t, Space);
    RunEndIs(s, t + 4, e - 1, Space);
    AccessorEndOfRuns(s, q, g, t, e - 1);
  }

  lemma AccessorEndOfRuns(s: string, q: nat, g: nat, t: nat, c: nat)
    requires q < |s| && s[q] == '{'
    requires RunEnd(s, q + 1, Space) == g && g + 4 <= |s| && s[g..g + 4] == "get;"
    requires RunEnd(s, g + 4, Space) == t && t + 4 <= |s| && s[t..t + 4] == "set;"
    requires RunEnd(s, t + 4, Space) == c && c < |s| && s[c] == '}'
    ensures AccessorEnd(s, q) == Some(c + 1)
  {
  }

  /** Offsets, in the text, of the type group, of the name group and of the `{`
      that may open the accessor block. */
  datatype PropertySpans = PropertySpans(typeStart: nat, typeEnd: nat, nameStart: nat, nameEnd: nat, brace: nat)

  /** The spans lie after `a` in order, the type span holds type characters and the
      name span word characters. */
  predicate SpansFit(s: string, a: nat, p: PropertySpans)
  {
    && a < p.typeStart < p.typeEnd < p.nameStart < p.nameEnd <= p.brace <= |s|
    && (forall x :: p.typeStart <= x < p.typeEnd ==> InClass(s[x], TypeChar))
    && (forall x :: p.nameStart <= x < p.nameEnd ==> IsWord(s[x]))
  }

  /** Between the spans there is whitespace as the pattern asks: at least one character
      before the type group and between the groups, any number before the `{`. With
      `SpansFit` the spans parse `s[a..brace]` as `\s+([\w\?\<\>\[\]\s]+)\s+(\w+)\s*`. */
  predicate GapsFit(s: string, a: nat, p: PropertySpans)
    requires SpansFit(s, a, p)
  {
    && (forall x :: a <= x < p.typeStart ==> IsSpace(s[x]))
    && (forall x :: p.typeEnd <= x < p.nameStart ==> IsSpace(s[x]))
    && (forall x :: p.nameEnd <= x < p.brace ==> IsSpace(s[x]))
  }

  /** The match built from the groups found after `public` at `i`, ending at `e`. */
  function MatchOfSpans(s: string, i: nat, p: PropertySpans, e: nat): (m: PropMatch)
    requires i + 6 <= |s| && s[i..i + 6] == "public"
    requires SpansFit(s, i + 6, p) && p.brace < e <= |s|
    ensures m.index == i && m.end == e && IsPropertyMatch(s, m)
  {
    var rawType := s[p.typeStart..p.typeEnd];
    var name := s[p.nameStart..p.nameEnd];
    assert forall x :: 0 <= x < |rawType| ==> InClass(rawType[x], TypeChar) by {
      forall x | 0 <= x < |rawType| ensures InClass(rawType[x], TypeChar) {
        assert rawType[x] == s[p.typeStart + x];
      }
    }
    assert AllWord(name) by {
      forall x | 0 <= x < |name| ensures IsWord(name[x]) {
        assert name[x] == s[p.nameStart + x];
      }
    }
    PropMatch(i, rawType, name, e)
  }

  /** The groups of the property pattern after `public` (which ends at `a`). The type
      group, the separating whitespace, the name and the whitespace before the `{` all
      lie in the run of type characters after `public\s+`, and the `{` ends that run.
      The greedy type group takes all of the run except the name, the whitespace after
      it and one separating whitespace character. When the run holds only the name,
      the type group is a whitespace character after `public`; the pattern then needs
      at least three of them. */
  function PropertySpansAt(s: string, a: nat): (r: Option<PropertySpans>)
    requires a <= |s|
    ensures r.Some? ==> SpansFit(s, a, r.value)
  {
    var b := RunEnd(s, a, Space);
    var q := RunEnd(s, b, TypeChar);
    var we := RunStart(s, b, q, Space);
    var ns := RunStart(s, b, we, Word);
    if a < b && b < ns && ns < we && IsSpace(s[ns - 1]) then
      Some(PropertySpans(b, ns - 1, ns, we, q))
    else if a + 3 <= b && b == ns && ns < we then
      Some(PropertySpans(b - 2, b - 1, ns, we, q))
    else
      None
  }

  /** The spans found leave whitespace where the pattern asks for it. */
  lemma PropertySpansAtGaps(s: string, a: nat)
    requires a <= |s|
    ensures PropertySpansAt(s, a).Some? ==> GapsFit(s, a, PropertySpansAt(s, a).value)
  {
  }

  /** What every match of the property pattern satisfies: it starts with `public`, its
      type group is a non-empty run of type characters and its name a non-empty word. */
  predicate IsPropertyMatch(s: string, m: PropMatch)
  {
    && m.index + 6 < m.end <= |s|
    && s[m.index..m.index + 6] == "public"
    && m.rawType != []
    && (forall x :: 0 <= x < |m.rawType| ==> InClass(m.rawType[x], TypeChar))
    && m.name != []
    && AllWord(m.name)
  }

  /** `m` is a parse of the whole property pattern at `m.index`: `public`, then the spans
      `p` covering the text up to a `{`, then an accessor block ending at `m.end`; the
      two groups are the text of their spans. */
  ghost predicate PatternParse(s: string, m: PropMatch, p: PropertySpans)
  {
    && m.index + 6 <= |s| && s[m.index..m.index + 6] == "public"
    && SpansFit(s, m.index + 6, p) && GapsFit(s, m.index + 6, p) && p.brace < |s| && AccessorEnd(s, p.brace) == Some(m.end)
    && m.rawType == s[p.typeStart..p.typeEnd] && m.name == s[p.nameStart..p.nameEnd]
  }

  /** `PropertyRegex` matching exactly at offset `i`. */
  function PropertyMatchAt(s: string, i: nat): (r: Option<PropMatch>)
    ensures r.Some? ==> r.value.index == i && IsPropertyMatch(s, r.value)
  {
    if i + 6 <= |s| && s[i..i + 6] == "public" then
      match PropertySpansAt(s, i + 6)
      case None => None
      case Some(p) =>
        match AccessorEnd(s, p.brace)
        case None => None
        case Some(e) => Some(MatchOfSpans(s, i, p, e))
    else
      None
  }

  /** `PropertyRegex.Match(s, from)`: the leftmost match at or after `from`. */
  function PropertyMatchFrom(s: string, from: nat): (r: Option<PropMatch>)
    requires from <= |s|
    ensures r.Some? ==> from <= r.value.index && PropertyMatchAt(s, r.value.index) == r
    decreases |s| - from
  {
    if from == |s| then None
    else if PropertyMatchAt(s, from).Some? then PropertyMatchAt(s, from)
    else PropertyMatchFrom(s, from + 1)
  }

  /** The match `PropertyMatchFrom` finds is the leftmost one: no offset from `from` up
      to it holds a match, and when it finds none, no offset from `from` on does. */
  lemma PropertyMatchFromIsLeftmost(s: string, from: nat)
    requires from <= |s|
    ensures PropertyMatchFrom(s, from).Some? ==>
      forall j :: from <= j < PropertyMatchFrom(s, from).value.index ==> PropertyMatchAt(s, j).None?
    ensures PropertyMatchFrom(s, from).None? ==> forall j :: from <= j ==> PropertyMatchAt(s, j).None?
  {
    var r := PropertyMatchFrom(s, from);
    forall j | from <= j && (r.None? || j < r.value.index) ensures PropertyMatchAt(s, j).None? {
      PropertyMatchFromSkips(s, from, j);
    }
  }

  /** One offset at a time: an offset the scan passes over holds no match. */
  lemma {:induction false} PropertyMatchFromSkips(s: string, from: nat, j: nat)
    requires from <= |s| && from <= j
    requires PropertyMatchFrom(s, from).None? || j < PropertyMatchFrom(s, from).value.index
    ensures PropertyMatchAt(s, j).None?
    decreases j - from
  {
    if from == |s| {
      assert !(j + 6 <= |s|);
    } else if from < j {
      PropertyMatchFromSkips(s, from + 1, j);
    }
  }

  /** Property matches of `s` at or after `from`, each ending before the next starts. */
  predicate PropertyMatchesFrom(s: string, from: nat, ms: seq<PropMatch>)
  {
    && (forall k :: 0 <= k < |ms| ==> from <= ms[k].index && IsPropertyMatch(s, ms[k]))
    && (forall k :: 0 <= k < |ms| - 1 ==> ms[k].end <= ms[k + 1].index)
  }

  /** `PropertyRegex.Matches(s)` from offset `from`. */
  function PropertyMatches(s: string, from: nat): (ms: seq<PropMatch>)
    requires from <= |s|
    ensures PropertyMatchesFrom(s, from, ms)
    decreases |s| - from
  {
    match PropertyMatchFrom(s, from)
    case None => []
    case Some(m) =>
      var rest := PropertyMatches(s, m.end);
      PropertyMatchesCons(s, from, m, rest);
      [m] + rest
  }

  /** A match followed by the matches after its end is a sequence of matches. */
  lemma PropertyMatchesCons(s: string, from: nat, m: PropMatch, rest: seq<PropMatch>)
    requires from <= m.index && IsPropertyMatch(s, m) && PropertyMatchesFrom(s, m.end, rest)
    ensures PropertyMatchesFrom(s, from, [m] + rest)
  {
  }

  // ---------------------------------------------------------------------------
  // `^Head<\s*(\w+)\s*>$` on an already trimmed string

  /** The identifier inside `Head<...>` when the whole of `s` has that shape. */
  function GenericArgument(s: string, head: string): (r: Option<string>)
    ensures r.Some? ==>
      && |head| + 2 <= |s|
      && s[..|head|] == head && s[|head|] == '<' && s[|s| - 1] == '>'
      && r.value != [] && AllWord(r.value)
      && |r.value| + |head| + 2 <= |s|
  {
    if |head| + 1 < |s| && s[..|head|] == head && s[|head|] == '<' && s[|s| - 1] == '>' then
      var a := RunEnd(s, |head| + 1, Space);
      var b := RunEnd(s, a, Word);
      if a < b && RunEnd(s, b, Space) == |s| - 1 then Some(s[a..b]) else None
    else
      None
  }

  /** `Head<T>` for an identifier `T` is recognised, with `T` as the argument. */
  lemma {:induction false} GenericArgumentOfWrapped(head: string, t: string)
    requires t != [] && AllWord(t)
    ensures GenericArgument(head + "<" + t + ">", head) == Some(t)
  {
    var s := head + "<" + t + ">";
    assert s[..|head|] == head;
    assert s[|head|] == '<' && s[|s| - 1] == '>';
    assert !IsSpace(s[|head| + 1]) by { assert s[|head| + 1] == t[0]; }
    var b := RunEnd(s, |head| + 1, Word);
    assert forall x :: |head| + 1 <= x < |s| - 1 ==> s[x] == t[x - |head| - 1];
    assert b == |s| - 1;
    assert s[|head| + 1..|s| - 1] == t;
  }

  /** `s[lo..hi]` is `\s*(\w+)\s*` with the group at `s[a..b]`. */
  predicate PaddedWord(s: string, lo: nat, a: nat, b: nat, hi: nat)
  {
    && lo <= a < b <= hi <= |s|
    && (forall x :: lo <= x < a ==> IsSpace(s[x]))
    && (forall x :: a <= x < b ==> IsWord(s[x]))
    && (forall x :: b <= x < hi ==> IsSpace(s[x]))
  }

  /** `s` is `Head<`, a padded identifier and `>`, the whole of it. */
  predicate WrapsPaddedWord(s: string, head: string, a: nat, b: nat)
  {
    |head| + 1 < |s| && s[..|head|] == head && s[|head|] == '<' && s[|s| - 1] == '>' && PaddedWord(s, |head| + 1, a, b, |s| - 1)
  }

  /** What `GenericArgument` captures is the identifier of such a string. */
  lemma GenericArgumentIsGroup(s: string, head: string)
    ensures GenericArgument(s, head).Some? ==>
      exists a: nat, b: nat :: WrapsPaddedWord(s, head, a, b) && GenericArgument(s, head).value == s[a..b]
  {
    if GenericArgument(s, head).Some? {
      var a := RunEnd(s, |head| + 1, Space);
      var b := RunEnd(s, a, Word);
      assert WrapsPaddedWord(s, head, a, b);
    }
  }

  /** Every such string is matched, and its identifier captured. */
  lemma GenericArgumentOfPadded(s: string, head: string, a: nat, b: nat)
    requires WrapsPaddedWord(s, head, a, b)
    ensures GenericArgument(s, head) == Some(s[a..b])
  {
    assert IsWord(s[a]);
    RunEndIs(s, |head| + 1, a, Space);
    assert b < |s| - 1 ==> IsSpace(s[b]);
    RunEndIs(s, a, b, Word);
    RunEndIs(s, b, |s| - 1, Space);
  }

  /** An identifier is never of the shape `Head<...>`, since `<` is not a word character. */
  lemma GenericArgumentOfWord(s: string, head: string)
    requires AllWord(s)
    ensures GenericArgument(s, head).None?
  {
    if |head| + 1 < |s| {
      assert IsWord(s[|head|]);
    }
  }
}
