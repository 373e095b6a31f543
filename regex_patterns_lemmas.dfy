/** What the two recognisers accept: a class boundary needs no word boundary before
    `class`, a canonical property declaration always matches with its type and name as
    the groups, and a character outside the type class before the `{` rules a match out. */
module RegexPatternsLemmas {
  import opened Chars
  import opened RegexPatterns

  /** `subclass Foo` holds a class boundary at the offset of `class`. */
  lemma SubclassIsBoundary()
    ensures ClassMatchAt("subclass Foo", 3) == Some(ClassMatch(3, "Foo", 12))
  {
    var s := "subclass Foo";
    assert s[3..8] == "class";
    RunEndIs(s, 8, 9, Space);
    RunEndIs(s, 9, 12, Word);
    assert s[9..12] == "Foo";
  }

  /** The accessor block written `{ get; set; }` ends just after its `}`. */
  lemma AccessorOfCanonical(s: string, q: nat)
    requires q + 13 <= |s| && s[q..q + 13] == "{ get; set; }"
    ensures AccessorEnd(s, q) == Some(q + 13)
  {
    var w := s[q..q + 13];
    assert s[q] == w[0] == '{' && s[q + 1] == w[1] == ' ';
    assert s[q + 6] == w[6] == ' ' && s[q + 11] == w[11] == ' ' && s[q + 12] == w[12] == '}';
    SliceOfWindow(s, q, q + 13, 2, 6);
    assert w[2..6] == "get;";
    SliceOfWindow(s, q, q + 13, 7, 11);
    assert w[7..11] == "set;";
    forall x | q < x < q + 2 || q + 6 <= x < q + 7 || q + 11 <= x < q + 12
      ensures IsSpace(s[x])
    {
    }
    assert AccessorLayout(s, q, q + 2, q + 7, q + 13);
    AccessorEndOfLayout(s, q, q + 2, q + 7, q + 13);
  }

  /** The declaration `public T N { get; set; }` written with single spaces. */
  function Declaration(t: string, n: string): (s: string)
    ensures |s| == |t| + |n| + 22
  {
    "public " + t + " " + n + " { get; set; }"
  }

  /** A type the declaration lemmas accept: non-empty type characters, not starting
      with whitespace. */
  predicate IsTypeText(t: string)
  {
    t != [] && !IsSpace(t[0]) && forall x :: 0 <= x < |t| ==> InClass(t[x], TypeChar)
  }

  /** Where the parts of the declaration of type `t` and name `n` lie in `s`. */
  predicate DeclarationLayout(s: string, t: string, n: string)
  {
    && |s| == |t| + |n| + 22
    && s[0..6] == "public" && s[6] == ' '
    && s[7..7 + |t|] == t && s[7 + |t|] == ' '
    && s[8 + |t|..8 + |t| + |n|] == n && s[8 + |t| + |n|] == ' '
    && s[9 + |t| + |n|..22 + |t| + |n|] == "{ get; set; }"
  }

  lemma LayoutOfDeclaration(t: string, n: string)
    ensures DeclarationLayout(Declaration(t, n), t, n)
  {
    var s := Declaration(t, n);
    var p := "public " + t;
    var u := p + " " + n;
    assert s == u + " { get; set; }";
    assert s[0..6] == p[0..6];
    assert s[7..7 + |t|] == p[7..7 + |t|];
    assert s[8 + |t|..8 + |t| + |n|] == u[8 + |t|..8 + |t| + |n|];
    assert s[|u|..] == " { get; set; }";
    assert s[|u| + 1..|s|] == s[|u|..][1..];
  }

  /** The run of type characters after `public ` reaches up to the `{`. */
  lemma DeclarationTypeRun(s: string, t: string, n: string)
    requires DeclarationLayout(s, t, n) && IsTypeText(t) && AllWord(n)
    ensures RunEnd(s, 6, Space) == 7
    ensures RunEnd(s, 7, TypeChar) == 9 + |t| + |n|
  {
    var sp, ns, ne := 7 + |t|, 8 + |t|, 8 + |t| + |n|;
    assert s[7] == s[7..sp][0];
    RunEndIs(s, 6, 7, Space);
    forall x | 7 <= x < ne + 1 ensures InClass(s[x], TypeChar) {
      if x < sp {
        assert s[x] == s[7..sp][x - 7];
      } else if ns <= x < ne {
        assert s[x] == s[ns..ne][x - ns];
      }
    }
    assert s[ne + 1] == s[ne + 1..ne + 14][0];
    RunEndIs(s, 7, ne + 1, TypeChar);
  }

  /** Going back from the `{`: one space, then the name. */
  lemma DeclarationNameRun(s: string, t: string, n: string)
    requires DeclarationLayout(s, t, n) && n != [] && AllWord(n)
    ensures RunStart(s, 7, 9 + |t| + |n|, Space) == 8 + |t| + |n|
    ensures RunStart(s, 7, 8 + |t| + |n|, Word) == 8 + |t|
  {
    var ns, ne := 8 + |t|, 8 + |t| + |n|;
    assert s[ne - 1] == s[ns..ne][|n| - 1];
    RunStartIs(s, 7, ne, ne + 1, Space);
    forall x | ns <= x < ne ensures IsWord(s[x]) {
      assert s[x] == s[ns..ne][x - ns];
    }
    RunStartIs(s, 7, ns, ne, Word);
  }

  /** The groups the pattern finds after `public` in a declaration. */
  lemma DeclarationSpans(s: string, t: string, n: string)
    requires DeclarationLayout(s, t, n) && IsTypeText(t) && n != [] && AllWord(n)
    ensures PropertySpansAt(s, 6) == Some(PropertySpans(7, 7 + |t|, 8 + |t|, 8 + |t| + |n|, 9 + |t| + |n|))
  {
    DeclarationTypeRun(s, t, n);
    DeclarationNameRun(s, t, n);
  }

  /** The accessor block of a declaration ends it. */
  lemma DeclarationAccessor(s: string, t: string, n: string)
    requires DeclarationLayout(s, t, n)
    ensures AccessorEnd(s, 9 + |t| + |n|) == Some(|s|)
  {
    AccessorOfCanonical(s, 9 + |t| + |n|);
  }

  /** A declaration whose type is a run of type characters not starting with whitespace
      and whose name is an identifier matches the property pattern at its start, with
      the type and the name as its two groups. */
  lemma DeclarationMatchesAt(s: string, t: string, n: string)
    requires DeclarationLayout(s, t, n) && IsTypeText(t) && n != [] && AllWord(n)
    ensures PropertyMatchAt(s, 0) == Some(PropMatch(0, t, n, |s|))
  {
    DeclarationSpans(s, t, n);
    DeclarationAccessor(s, t, n);
    MatchOfParts(s, 7, 7 + |t|, 8 + |t|, 8 + |t| + |n|, 9 + |t| + |n|, |s|, t, n);
  }

  /** The property pattern at the start of `s` is assembled from its groups and its
      accessor block. */
  lemma MatchOfParts(s: string, ts: nat, te: nat, ns: nat, ne: nat, q: nat, e: nat, rawType: string, name: string)
    requires 6 <= |s| && s[0..6] == "public"
    requires PropertySpansAt(s, 6) == Some(PropertySpans(ts, te, ns, ne, q)) && AccessorEnd(s, q) == Some(e)
    requires ts <= te <= |s| && s[ts..te] == rawType
    requires ns <= ne <= |s| && s[ns..ne] == name
    ensures PropertyMatchAt(s, 0) == Some(PropMatch(0, rawType, name, e))
  {
  }

  /** It is the only match in the declaration. */
  lemma DeclarationMatches(t: string, n: string)
    requires IsTypeText(t) && n != [] && AllWord(n)
    ensures PropertyMatches(Declaration(t, n), 0) == [PropMatch(0, t, n, |Declaration(t, n)|)]
  {
    var s := Declaration(t, n);
    LayoutOfDeclaration(t, n);
    DeclarationMatchesAt(s, t, n);
    assert PropertyMatchFrom(s, 0) == PropertyMatchAt(s, 0);
  }

  /** The type group and everything up to the accessor block lie in one run of type
      characters, so the first character after `public` outside that class must be
      the `{`: any other character there rules out a match. */
  lemma ForeignCharacterRulesOut(s: string, i: nat, c: nat)
    requires i + 6 <= c < |s| && s[i..i + 6] == "public"
    requires forall x :: i + 6 <= x < c ==> InClass(s[x], TypeChar)
    requires !InClass(s[c], TypeChar) && s[c] != '{'
    ensures PropertyMatchAt(s, i).None?
  {
    var b := RunEnd(s, i + 6, Space);
    assert b <= c;
    RunEndIs(s, b, c, TypeChar);
  }

  /** A declaration whose type holds a character outside the type class, before any
      `{`, is not matched. */
  lemma ForeignTypeCharacter(t: string, n: string, j: nat)
    requires j < |t| && !InClass(t[j], TypeChar) && t[j] != '{'
    requires forall x :: 0 <= x < j ==> InClass(t[x], TypeChar)
    ensures PropertyMatchAt(Declaration(t, n), 0).None?
  {
    var s := Declaration(t, n);
    LayoutOfDeclaration(t, n);
    forall x | 6 <= x < 7 + j ensures InClass(s[x], TypeChar) {
      if 7 <= x {
        assert s[x] == s[7..7 + |t|][x - 7];
      }
    }
    assert s[7 + j] == s[7..7 + |t|][j];
    ForeignCharacterRulesOut(s, 0, 7 + j);
  }

  /** The comma in `Dictionary<string,int>` is outside the type class, so such a
      property is silently skipped. */
  lemma DictionaryIsSkipped()
    ensures PropertyMatchAt(Declaration("Dictionary<string,int>", "Map"), 0).None?
  {
    var t := "Dictionary<string,int>";
    assert t[17] == ',';
    ForeignTypeCharacter(t, "Map", 17);
  }

  /** The types the pattern's comments promise to accept are matched, whatever the
      property's name. */
  lemma PromisedTypesMatch(t: string, n: string)
    requires t == "List<Address>" || t == "long?" || t == "Nullable<int>"
    requires n != [] && AllWord(n)
    ensures PropertyMatches(Declaration(t, n), 0) == [PropMatch(0, t, n, |Declaration(t, n)|)]
  {
    PromisedTypesAreTypeText(t);
    DeclarationMatches(t, n);
  }

  lemma PromisedTypesAreTypeText(t: string)
    requires t == "List<Address>" || t == "long?" || t == "Nullable<int>"
    ensures IsTypeText(t)
  {
    forall x | 0 <= x < |t| ensures InClass(t[x], TypeChar) {
      assert IsWord(t[x]) || t[x] == '<' || t[x] == '>' || t[x] == '?';
    }
  }

  // ---------------------------------------------------------------------------
  // What `Matches` returns

  /** One of the class matches `ms` spans offset `j`. */
  predicate SpannedByClassMatch(ms: seq<ClassMatch>, j: nat)
  {
    exists k :: 0 <= k < |ms| && ms[k].index <= j < ms[k].end
  }

  /** One of the property matches `ms` spans offset `j`. */
  predicate SpannedByPropertyMatch(ms: seq<PropMatch>, j: nat)
  {
    exists k :: 0 <= k < |ms| && ms[k].index <= j < ms[k].end
  }

  /** `ClassRegex.Matches` loses no class boundary: every offset from `from` on that
      holds a class match lies within one of the matches returned, since each of them
      is the leftmost one after the end of the previous one. */
  lemma {:induction false} ClassMatchesComplete(s: string, from: nat, j: nat)
    requires from <= |s| && from <= j && ClassMatchAt(s, j).Some?
    ensures SpannedByClassMatch(ClassMatches(s, from), j)
    decreases |s| - from
  {
    var r := ClassMatchFrom(s, from);
    assert r.Some?;
    var m := r.value;
    assert m.index <= j;
    var rest := ClassMatches(s, m.end);
    assert ClassMatches(s, from) == [m] + rest;
    if m.end <= j {
      ClassMatchesComplete(s, m.end, j);
      ClassSpanOfRest(ClassMatches(s, from), m, rest, j);
    } else {
      assert ClassMatches(s, from)[0] == m;
    }
  }

  lemma ClassSpanOfRest(ms: seq<ClassMatch>, m: ClassMatch, rest: seq<ClassMatch>, j: nat)
    requires ms == [m] + rest && SpannedByClassMatch(rest, j)
    ensures SpannedByClassMatch(ms, j)
  {
    var k :| 0 <= k < |rest| && rest[k].index <= j < rest[k].end;
    assert ms[k + 1] == rest[k];
  }

  /** The same for `PropertyRegex.Matches`: every offset from `from` on that holds a
      property match lies within one of the matches returned. */
  lemma {:induction false} PropertyMatchesComplete(s: string, from: nat, j: nat)
    requires from <= |s| && from <= j && PropertyMatchAt(s, j).Some?
    ensures SpannedByPropertyMatch(PropertyMatches(s, from), j)
    decreases |s| - from
  {
    var m := PropertyMatchFromFinds(s, from, j);
    var rest := PropertyMatches(s, m.end);
    PropertyMatchesStep(s, from, m);
    if m.end <= j {
      PropertyMatchesComplete(s, m.end, j);
      PropertySpanOfRest(PropertyMatches(s, from), m, rest, j);
    } else {
      PropertySpanOfFirst(PropertyMatches(s, from), m, rest, j);
    }
  }

  lemma PropertySpanOfRest(ms: seq<PropMatch>, m: PropMatch, rest: seq<PropMatch>, j: nat)
    requires ms == [m] + rest && SpannedByPropertyMatch(rest, j)
    ensures SpannedByPropertyMatch(ms, j)
  {
    var k :| 0 <= k < |rest| && rest[k].index <= j < rest[k].end;
    assert ms[k + 1] == rest[k];
  }

  lemma PropertySpanOfFirst(ms: seq<PropMatch>, m: PropMatch, rest: seq<PropMatch>, j: nat)
    requires ms == [m] + rest && m.index <= j < m.end
    ensures SpannedByPropertyMatch(ms, j)
  {
    assert ms[0] == m;
  }

  /** When an offset from `from` on holds a match, the scan from `from` finds a match
      no later than that offset. */
  lemma PropertyMatchFromFinds(s: string, from: nat, j: nat) returns (m: PropMatch)
    requires from <= |s| && from <= j && PropertyMatchAt(s, j).Some?
    ensures PropertyMatchFrom(s, from) == Some(m) && from <= m.index <= j
  {
    PropertyMatchFromIsLeftmost(s, from);
    m := PropertyMatchFrom(s, from).value;
  }

  /** `Matches` is the match found from `from` followed by the matches after its end. */
  lemma PropertyMatchesStep(s: string, from: nat, m: PropMatch)
    requires from <= |s| && PropertyMatchFrom(s, from) == Some(m)
    ensures m.index < m.end <= |s| && PropertyMatches(s, from) == [m] + PropertyMatches(s, m.end)
  {
  }

  // ---------------------------------------------------------------------------
  // The property pattern, parse by parse

  /** What `PropertyMatchAt` finds is a parse of the whole pattern, its groups being
      the text of the spans `PropertySpansAt` settles on. */
  lemma PropertyMatchAtIsParse(s: string, i: nat)
    ensures PropertyMatchAt(s, i).Some? ==>
      && i + 6 <= |s| && PropertySpansAt(s, i + 6).Some?
      && PatternParse(s, PropertyMatchAt(s, i).value, PropertySpansAt(s, i + 6).value)
  {
    if PropertyMatchAt(s, i).Some? {
      PropertySpansAtGaps(s, i + 6);
    }
  }

  /** Wherever the text after `public` parses as the pattern's groups up to a `{`, the
      scanner finds spans with the same name group and `{`, and a type group that starts
      and ends no earlier: the greedy `\s+` and type group of the backtracking engine. */
  lemma PropertySpansAtGreedy(s: string, a: nat, p: PropertySpans)
    requires SpansFit(s, a, p) && GapsFit(s, a, p) && p.brace < |s| && s[p.brace] == '{'
    ensures PropertySpansAt(s, a).Some?
    ensures var f := PropertySpansAt(s, a).value;
      && f.nameStart == p.nameStart && f.nameEnd == p.nameEnd && f.brace == p.brace
      && p.typeStart <= f.typeStart && p.typeEnd <= f.typeEnd
  {
    var b := RunsOfParse(s, a, p);
    SpansOfRuns(s, a, b, p.typeStart, p.typeEnd, p.nameStart, p.nameEnd, p.brace);
  }

  /** The runs `PropertySpansAt` scans, over a parse `p` of the pattern: the whitespace
      after `public` ends at `b`, inside the type group or at the name; the type
      characters from there end at the `{`; going back from the `{`, the whitespace
      starts at the end of the name and the word characters at its start. */
  lemma RunsOfParse(s: string, a: nat, p: PropertySpans) returns (b: nat)
    requires SpansFit(s, a, p) && GapsFit(s, a, p) && p.brace < |s| && s[p.brace] == '{'
    ensures b == RunEnd(s, a, Space) && p.typeStart <= b <= p.nameStart
    ensures RunEnd(s, b, TypeChar) == p.brace
    ensures RunStart(s, b, p.brace, Space) == p.nameEnd
    ensures RunStart(s, b, p.nameEnd, Word) == p.nameStart
    ensures b < p.nameStart ==> IsSpace(s[p.nameStart - 1])
  {
    b := RunEnd(s, a, Space);
    assert !IsSpace(s[p.nameStart]) by { assert IsWord(s[p.nameStart]); }
    forall x | b <= x < p.brace ensures InClass(s[x], TypeChar) {
      if p.typeEnd <= x < p.nameStart || p.nameEnd <= x {
        assert IsSpace(s[x]);
      }
    }
    RunEndIs(s, b, p.brace, TypeChar);
    assert !IsSpace(s[p.nameEnd - 1]) by { assert IsWord(s[p.nameEnd - 1]); }
    RunStartIs(s, b, p.nameEnd, p.brace, Space);
    if b < p.nameStart {
      assert IsSpace(s[p.nameStart - 1]);
    }
    RunStartIs(s, b, p.nameStart, p.nameEnd, Word);
  }

  /** With those runs, `PropertySpansAt` settles on the latest type group. */
  lemma SpansOfRuns(s: string, a: nat, b: nat, ts: nat, te: nat, ns: nat, ne: nat, q: nat)
    requires a < ts < te < ns < ne <= q <= |s| && ts <= b <= ns
    requires b == RunEnd(s, a, Space) && RunEnd(s, b, TypeChar) == q
    requires RunStart(s, b, q, Space) == ne && RunStart(s, b, ne, Word) == ns
    requires b < ns ==> IsSpace(s[ns - 1])
    ensures PropertySpansAt(s, a).Some?
    ensures var f := PropertySpansAt(s, a).value;
      f.nameStart == ns && f.nameEnd == ne && f.brace == q && ts <= f.typeStart && te <= f.typeEnd
  {
  }

  /** A parse of the pattern at `m.index` is found there: `PropertyMatchAt` answers a
      match with the same name group and the same end, whose type group is the greedy
      one, starting and ending no earlier than that of `m`'s parse. */
  lemma PropertyMatchAtComplete(s: string, m: PropMatch, p: PropertySpans)
    requires PatternParse(s, m, p)
    ensures PropertyMatchAt(s, m.index).Some? && PropertySpansAt(s, m.index + 6).Some?
    ensures var f := PropertyMatchAt(s, m.index).value;
      var q := PropertySpansAt(s, m.index + 6).value;
      && f.name == m.name && f.end == m.end
      && PatternParse(s, f, q) && p.typeStart <= q.typeStart && p.typeEnd <= q.typeEnd
  {
    PropertySpansAtGreedy(s, m.index + 6, p);
    var q := PropertySpansAt(s, m.index + 6).value;
    MatchOfFoundSpans(s, m.index, q, m.end);
    PropertyMatchAtIsParse(s, m.index);
  }

  /** The match at `i` once the spans and the end of the accessor block are known. */
  lemma MatchOfFoundSpans(s: string, i: nat, q: PropertySpans, e: nat)
    requires i + 6 <= |s| && s[i..i + 6] == "public"
    requires PropertySpansAt(s, i + 6) == Some(q) && AccessorEnd(s, q.brace) == Some(e)
    ensures PropertyMatchAt(s, i) == Some(PropMatch(i, s[q.typeStart..q.typeEnd], s[q.nameStart..q.nameEnd], e))
  {
  }
}
