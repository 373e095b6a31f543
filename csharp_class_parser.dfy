/** `CSharpClassParser`: finds the first class of a C# source text and builds its tree
    of properties and nested classes. The loops of the source (`FindMatchingBrace`,
    `ParseNestedClasses`, `ParseProperties`, the copy of the nested classes in
    `ParseClassAt`) are methods, each proved equal to a specification function; the
    properties the source promises are proved about those functions. */
module CSharpClassParser {
  import opened Chars
  import opened RegexPatterns
  import opened Models

  /** The two `FormatException`s of `ExtractClassBody`, with the class name they report. */
  datatype ParseError = MissingOpeningBrace(className: string) | MissingClosingBrace(className: string)

  datatype Result<+T> = Ok(value: T) | Err(error: ParseError)

  // ---------------------------------------------------------------------------
  // FindMatchingBrace

  function Delta(c: char): int
  {
    if c == '{' then 1 else if c == '}' then -1 else 0
  }

  /** The number of `{` minus the number of `}` in `text[lo..hi]`. */
  function Depth(text: string, lo: nat, hi: nat): int
    requires lo <= hi <= |text|
    decreases hi
  {
    if hi == lo then 0 else Depth(text, lo, hi - 1) + Delta(text[hi - 1])
  }

  /** The first `j >= i` at which the depth counted from `start` over `text[start..j + 1]`
      is zero, or -1 when there is none. */
  function FirstBalanced(text: string, start: nat, i: nat): (r: int)
    requires start <= i <= |text|
    ensures r == -1 || i <= r < |text|
    ensures r != -1 ==> Depth(text, start, r + 1) == 0
    ensures r != -1 ==> forall j :: i < j <= r ==> Depth(text, start, j) != 0
    ensures r == -1 ==> forall j :: i < j <= |text| ==> Depth(text, start, j) != 0
    decreases |text| - i
  {
    if i == |text| then -1
    else if Depth(text, start, i + 1) == 0 then i
    else FirstBalanced(text, start, i + 1)
  }

  predicate IsOpenBraceAt(text: string, startIndex: int)
  {
    0 <= startIndex < |text| && text[startIndex] == '{'
  }

  /** The `}` that closes the `{` at `startIndex`, or -1. */
  function MatchingBrace(text: string, startIndex: int): (r: int)
    ensures r == -1 || (IsOpenBraceAt(text, startIndex) && startIndex <= r < |text|)
  {
    if IsOpenBraceAt(text, startIndex) then FirstBalanced(text, startIndex, startIndex) else -1
  }

  /** Once the depth is one after the opening `{`, it stays positive as long as it is not zero. */
  lemma {:induction false} DepthPositiveUntilBalanced(text: string, start: nat, n: nat)
    requires IsOpenBraceAt(text, start) && start <= n <= |text|
    requires forall j :: start < j <= n ==> Depth(text, start, j) != 0
    ensures forall j :: start < j <= n ==> Depth(text, start, j) > 0
    decreases n - start
  {
    if start < n {
      DepthPositiveUntilBalanced(text, start, n - 1);
      if n - 1 > start {
        assert Depth(text, start, n) > 0;
      } else {
        assert Depth(text, start, start + 1) == 1;
      }
    }
  }

  /** `FindMatchingBrace` answers -1 for a start that is out of range or not on `{`;
      otherwise it answers the first position where the brace depth counted from the
      start falls back to zero, which is a `}`, the depth being positive before it;
      and -1 when the depth stays positive to the end of the text. */
  lemma MatchingBraceIsFirstBalancedClose(text: string, startIndex: int)
    ensures !IsOpenBraceAt(text, startIndex) ==> MatchingBrace(text, startIndex) == -1
    ensures IsOpenBraceAt(text, startIndex) && MatchingBrace(text, startIndex) != -1 ==>
      var r := MatchingBrace(text, startIndex);
      && startIndex < r < |text| && text[r] == '}'
      && Depth(text, startIndex, r + 1) == 0
      && forall j :: startIndex < j <= r ==> Depth(text, startIndex, j) > 0
    ensures IsOpenBraceAt(text, startIndex) && MatchingBrace(text, startIndex) == -1 ==>
      forall j :: startIndex < j <= |text| ==> Depth(text, startIndex, j) > 0
  {
    if IsOpenBraceAt(text, startIndex) {
      var start: nat := startIndex;
      var r := MatchingBrace(text, start);
      assert Depth(text, start, start + 1) == 1;
      if r == -1 {
        DepthPositiveUntilBalanced(text, start, |text|);
      } else {
        DepthPositiveUntilBalanced(text, start, r);
        assert start < r;
        assert Depth(text, start, r) > 0;
      }
    }
  }

  /** The depth-counting scan of the source. */
  method FindMatchingBrace(text: string, startIndex: int) returns (r: int)
    ensures r == MatchingBrace(text, startIndex)
  {
    if startIndex < 0 || startIndex >= |text| || text[startIndex] != '{' {
      return -1;
    }
    var depth := 0;
    for i := startIndex to |text|
      invariant depth == Depth(text, startIndex, i)
      invariant i > startIndex ==> depth > 0
      invariant FirstBalanced(text, startIndex, startIndex) == FirstBalanced(text, startIndex, i)
    {
      if text[i] == '{' {
        depth := depth + 1;
      } else if text[i] == '}' {
        depth := depth - 1;
        if depth == 0 {
          return i;
        }
      }
    }
    return -1;
  }

  // ---------------------------------------------------------------------------
  // FindClassMatch and ExtractClassBody

  /** `string.IndexOf(c, from)`. */
  function IndexOf(s: string, c: char, from: nat): (r: int)
    requires from <= |s|
    ensures r == -1 || (from <= r < |s| && s[r] == c)
    ensures forall j :: from <= j < |s| && (r == -1 || j < r) ==> s[j] != c
    decreases |s| - from
  {
    if from == |s| then -1 else if s[from] == c then from else IndexOf(s, c, from + 1)
  }

  /** The class match at `classKeywordIndex`. The source asks `ClassRegex` for the leftmost
      match from there and throws `ArgumentException` unless it starts exactly there; the
      caller guarantees a match there, and `FindClassMatchIsLeftmost` shows the leftmost
      match is then this one. */
  function FindClassMatch(classKeywordIndex: nat, source: string): (m: ClassMatch)
    requires classKeywordIndex <= |source| && ClassMatchAt(source, classKeywordIndex).Some?
    ensures m.index == classKeywordIndex && IsClassMatch(source, m)
  {
    ClassMatchAt(source, classKeywordIndex).value
  }

  /** At the offset of a class match, `FindClassMatch` finds that match. */
  lemma FindClassMatchFinds(source: string, m: ClassMatch)
    requires IsClassMatch(source, m)
    ensures m.index <= |source| && ClassMatchAt(source, m.index).Some?
    ensures FindClassMatch(m.index, source) == m
  {
    ClassMatchAtComplete(source, m);
  }

  /** `ClassRegex.Match(source, classKeywordIndex)` is the match at that offset when
      there is one there, so the `ArgumentException` is not thrown. */
  lemma FindClassMatchIsLeftmost(classKeywordIndex: nat, source: string)
    requires classKeywordIndex <= |source| && ClassMatchAt(source, classKeywordIndex).Some?
    ensures ClassMatchFrom(source, classKeywordIndex) == Some(FindClassMatch(classKeywordIndex, source))
  {
    var r := ClassMatchFrom(source, classKeywordIndex);
    assert r.Some? && r.value.index == classKeywordIndex;
  }

  datatype ClassBody = ClassBody(braceOpen: nat, braceClose: nat, body: string)

  /** `cb` is the class body found from `from`: its `{` is the first one from there,
      its `}` is a brace where the depth counted from that `{` is back to zero, and its
      text lies strictly between the two. */
  predicate IsClassBodyFrom(source: string, from: nat, cb: ClassBody)
  {
    && from <= cb.braceOpen < cb.braceClose < |source|
    && source[cb.braceOpen] == '{' && source[cb.braceClose] == '}'
    && (forall j :: from <= j < cb.braceOpen ==> source[j] != '{')
    && Depth(source, cb.braceOpen, cb.braceClose + 1) == 0
    && cb.body == source[cb.braceOpen + 1..cb.braceClose]
  }

  /** The body of a class ends at the `}` of its class, which is not a word character. */
  lemma ClassBodyIsBodyAt(source: string, from: nat, cb: ClassBody)
    requires IsClassBodyFrom(source, from, cb)
    ensures cb.braceOpen + 1 + |cb.body| == cb.braceClose
    ensures BodyAt(source, cb.braceOpen + 1, cb.body)
  {
    assert |cb.body| == cb.braceClose - cb.braceOpen - 1;
    assert source[cb.braceClose] == '}';
  }

  /** No `{` from `from` on. */
  predicate NoOpeningBrace(source: string, from: nat)
  {
    forall j :: from <= j < |source| ==> source[j] != '{'
  }

  /** The first `{` from `from` on is at `o`. */
  predicate FirstOpenBrace(source: string, from: nat, o: nat)
  {
    from <= o < |source| && source[o] == '{' && forall j :: from <= j < o ==> source[j] != '{'
  }

  /** The first `{` from `from` on is never closed: the depth counted from it stays
      positive to the end of the text. */
  predicate UnbalancedFrom(source: string, from: nat)
  {
    exists o: nat :: from <= o < |source| && FirstOpenBrace(source, from, o) && forall j :: o < j <= |source| ==> Depth(source, o, j) > 0
  }

  /** The braces of the class whose keyword is at `classMatchIndex`: the first `{` from
      there and its matching `}`, and the text strictly between them. */
  function ExtractClassBody(source: string, classMatchIndex: nat, className: string): (r: Result<ClassBody>)
    requires classMatchIndex <= |source|
    ensures r.Err? ==> r.error.className == className
    ensures r.Err? && r.error.MissingOpeningBrace? <==> NoOpeningBrace(source, classMatchIndex)
    ensures r.Ok? ==> IsClassBodyFrom(source, classMatchIndex, r.value)
  {
    var braceOpen := IndexOf(source, '{', classMatchIndex);
    if braceOpen == -1 then Err(MissingOpeningBrace(className))
    else
      var braceClose := MatchingBrace(source, braceOpen);
      MatchingBraceIsFirstBalancedClose(source, braceOpen);
      if braceClose == -1 then Err(MissingClosingBrace(className))
      else Ok(ClassBody(braceOpen, braceClose, source[braceOpen + 1..braceClose]))
  }

  /** The `}` of a class body is the brace matching its `{`: the depth counted from the
      `{` is positive up to it. */
  predicate ClosesOpenBrace(source: string, cb: ClassBody)
  {
    && cb.braceOpen < cb.braceClose < |source|
    && (forall j :: cb.braceOpen < j <= cb.braceClose ==> Depth(source, cb.braceOpen, j) > 0)
    && cb.braceClose == MatchingBrace(source, cb.braceOpen)
  }

  /** `ExtractClassBody` pairs the first `{` after the keyword with its matching `}`,
      and reports a missing closing brace exactly when that `{` is never closed. */
  lemma ExtractClassBodyMatchesBraces(source: string, classMatchIndex: nat, className: string)
    requires classMatchIndex <= |source|
    ensures var r := ExtractClassBody(source, classMatchIndex, className);
      && (r.Err? && r.error.MissingClosingBrace? <==> UnbalancedFrom(source, classMatchIndex))
      && (r.Ok? ==> ClosesOpenBrace(source, r.value))
  {
    var braceOpen := IndexOf(source, '{', classMatchIndex);
    if braceOpen != -1 {
      MatchingBraceIsFirstBalancedClose(source, braceOpen);
      assert FirstOpenBrace(source, classMatchIndex, braceOpen);
      FirstOpenBraceIsUnique(source, classMatchIndex, braceOpen);
    }
  }

  lemma FirstOpenBraceIsUnique(source: string, from: nat, o: nat)
    requires FirstOpenBrace(source, from, o)
    ensures forall o': nat :: FirstOpenBrace(source, from, o') ==> o' == o
  {
  }

  // ---------------------------------------------------------------------------
  // The class tree

  /** `body` is the text of `source` from `bodyStart` up to a character that is not a
      word character (the `}` closing a class body). */
  predicate BodyAt(source: string, bodyStart: nat, body: string)
  {
    && bodyStart + |body| < |source|
    && source[bodyStart..bodyStart + |body|] == body
    && !IsWord(source[bodyStart + |body|])
  }

  /** A class match of a body, moved to its place in the whole text. */
  function Shift(bodyStart: nat, m: ClassMatch): ClassMatch
  {
    ClassMatch(bodyStart + m.index, m.name, bodyStart + m.end)
  }

  /** A class match found in a class body is a class match of the whole text at the
      shifted offset. */
  lemma ShiftedClassMatch(source: string, bodyStart: nat, body: string, m: ClassMatch)
    requires BodyAt(source, bodyStart, body) && IsClassMatch(body, m)
    ensures IsClassMatch(source, Shift(bodyStart, m))
  {
    ClassMatchInWindow(source, bodyStart, bodyStart + |body|, m);
  }

  /** An accepted nested class: the offset of its keyword, the offset of its closing
      brace and its tree. */
  datatype NestedRange = NestedRange(start: nat, end: nat, parsed: CSharpClass)

  /** What `ParseClassAt` returns: the class and the offset of its closing brace. */
  datatype Parsed = Parsed(cls: CSharpClass, endIndex: nat)

  /** `nestedRanges.Any(r => g >= r.start && g <= r.end)`. */
  predicate Covered(ranges: seq<NestedRange>, g: int)
  {
    exists i :: 0 <= i < |ranges| && ranges[i].start <= g <= ranges[i].end
  }

  /** The trees of the accepted ranges, in order. */
  function Classes(ranges: seq<NestedRange>): (cs: seq<CSharpClass>)
    ensures |cs| == |ranges|
  {
    if ranges == [] then [] else Classes(ranges[..|ranges| - 1]) + [ranges[|ranges| - 1].parsed]
  }

  /** The class of the class match `m`, with its closing brace (`ParseClassAt`). */
  function ClassTree(source: string, m: ClassMatch): (r: Result<Parsed>)
    requires IsClassMatch(source, m)
    ensures r.Ok? ==> m.index < r.value.endIndex < |source| && source[r.value.endIndex] == '}'
    ensures r.Ok? ==> r.value.cls.name == m.name
    ensures r.Ok? ==> r.value.endIndex == MatchingBrace(source, IndexOf(source, '{', m.index))
    decreases |source| - m.index, 2, 0
  {
    match ExtractClassBody(source, m.index, m.name)
    case Err(e) => Err(e)
    case Ok(cb) =>
      ClassBodyIsBodyAt(source, m.index, cb);
      ClassInBody(source, m.name, cb)
  }

  /** The class named `name` whose body is `cb`: the nested classes at the class
      matches of the body are parsed first, then the property matches of the body
      outside them are collected. */
  function ClassInBody(source: string, name: string, cb: ClassBody): (r: Result<Parsed>)
    requires BodyAt(source, cb.braceOpen + 1, cb.body)
    ensures r.Ok? ==> r.value.cls.name == name && r.value.endIndex == cb.braceClose
    decreases |source| - cb.braceOpen, 2
  {
    ClassFromMatches(source, name, cb, ClassMatches(cb.body, 0), PropertyMatches(cb.body, 0))
  }

  /** The class named `name` whose body is `cb`, given class matches `cms` and property
      matches `pms` of the body. */
  function ClassFromMatches(source: string, name: string, cb: ClassBody, cms: seq<ClassMatch>, pms: seq<PropMatch>): (r: Result<Parsed>)
    requires BodyAt(source, cb.braceOpen + 1, cb.body) && ClassMatchesFrom(cb.body, 0, cms)
    ensures r.Ok? ==> r.value.cls.name == name && r.value.endIndex == cb.braceClose
    decreases |source| - cb.braceOpen, 1
  {
    Assemble(name, cb.braceClose, pms, cb.braceOpen + 1, NestedRanges(source, cb.braceOpen + 1, cb.body, cms, 0, []))
  }

  /** The class named `name` closed at `braceClose`, once the nested ranges of its body
      are known: its properties are the property matches `pms` outside those ranges. */
  function Assemble(name: string, braceClose: nat, pms: seq<PropMatch>, bodyStart: nat, nested: Result<seq<NestedRange>>): (r: Result<Parsed>)
    ensures r.Err? <==> nested.Err?
    ensures r.Err? ==> r.error == nested.error
    ensures r.Ok? ==> r.value.cls.name == name && r.value.endIndex == braceClose
  {
    match nested
    case Err(e) => Err(e)
    case Ok(ranges) => Ok(Parsed(CSharpClass(name, KeptProperties(pms, bodyStart, ranges), Classes(ranges)), braceClose))
  }

  /** `ClassInBody` is the class assembled from the nested ranges of its body. */
  lemma ClassInBodyIsAssembled(source: string, name: string, cb: ClassBody)
    requires BodyAt(source, cb.braceOpen + 1, cb.body)
    ensures ClassInBody(source, name, cb)
      == Assemble(name, cb.braceClose, PropertyMatches(cb.body, 0), cb.braceOpen + 1,
           NestedRanges(source, cb.braceOpen + 1, cb.body, ClassMatches(cb.body, 0), 0, []))
  {
    ClassInBodyFromMatches(source, name, cb);
    ClassFromMatchesIsAssembled(source, name, cb, ClassMatches(cb.body, 0), PropertyMatches(cb.body, 0));
  }

  /** `ClassInBody` works from the class and property matches of its body. */
  lemma ClassInBodyFromMatches(source: string, name: string, cb: ClassBody)
    requires BodyAt(source, cb.braceOpen + 1, cb.body)
    ensures ClassInBody(source, name, cb) == ClassFromMatches(source, name, cb, ClassMatches(cb.body, 0), PropertyMatches(cb.body, 0))
  {
  }

  /** `ClassFromMatches` is the class assembled from the nested ranges of the matches. */
  lemma ClassFromMatchesIsAssembled(source: string, name: string, cb: ClassBody, cms: seq<ClassMatch>, pms: seq<PropMatch>)
    requires BodyAt(source, cb.braceOpen + 1, cb.body) && ClassMatchesFrom(cb.body, 0, cms)
    ensures ClassFromMatches(source, name, cb, cms, pms)
      == Assemble(name, cb.braceClose, pms, cb.braceOpen + 1, NestedRanges(source, cb.braceOpen + 1, cb.body, cms, 0, []))
  {
  }

  /** `ClassTree` by the outcome `x` of extracting the body: an error is the result,
      and a body, which starts after the keyword, is parsed. */
  lemma ClassTreeExtracted(source: string, m: ClassMatch, x: Result<ClassBody>)
    requires IsClassMatch(source, m) && x == ExtractClassBody(source, m.index, m.name)
    ensures x.Err? ==> ClassTree(source, m) == Err(x.error)
    ensures x.Ok? ==> m.index < x.value.braceOpen && BodyAt(source, x.value.braceOpen + 1, x.value.body)
    ensures x.Ok? ==> ClassTree(source, m) == ClassInBody(source, m.name, x.value)
  {
    if x.Ok? {
      assert source[m.index] == "class"[0];
      ClassBodyIsBodyAt(source, m.index, x.value);
    }
  }

  /** `ParseNestedClasses` from the `i`-th class match `ms` of the body on, having
      accepted `acc` so far: a match inside an accepted range is skipped, any other is
      parsed at its offset in the whole text and its range accepted. */
  function NestedRanges(source: string, bodyStart: nat, body: string, ms: seq<ClassMatch>, i: nat, acc: seq<NestedRange>): (r: Result<seq<NestedRange>>)
    requires BodyAt(source, bodyStart, body)
    requires ClassMatchesFrom(body, 0, ms) && i <= |ms|
    decreases |source| - bodyStart + 1, 0, |ms| - i
  {
    if i == |ms| then Ok(acc)
    else
      var g := bodyStart + ms[i].index;
      if Covered(acc, g) then NestedRanges(source, bodyStart, body, ms, i + 1, acc)
      else
        ShiftedClassMatch(source, bodyStart, body, ms[i]);
        match ClassTree(source, Shift(bodyStart, ms[i]))
        case Err(e) => Err(e)
        case Ok(p) => NestedRanges(source, bodyStart, body, ms, i + 1, acc + [NestedRange(g, p.endIndex, p.cls)])
  }

  /** One step of `NestedRanges` whose match is inside an accepted range. */
  lemma NestedRangesSkip(source: string, bodyStart: nat, body: string, ms: seq<ClassMatch>, i: nat, acc: seq<NestedRange>)
    requires BodyAt(source, bodyStart, body)
    requires ClassMatchesFrom(body, 0, ms) && i < |ms|
    requires Covered(acc, bodyStart + ms[i].index)
    ensures NestedRanges(source, bodyStart, body, ms, i, acc) == NestedRanges(source, bodyStart, body, ms, i + 1, acc)
  {
  }

  /** One step of `NestedRanges` whose match is outside every accepted range: it
      parses the class at the shifted offset, and a failure there is the result. */
  lemma NestedRangesParseErr(source: string, bodyStart: nat, body: string, ms: seq<ClassMatch>, i: nat, acc: seq<NestedRange>, e: ParseError)
    requires BodyAt(source, bodyStart, body)
    requires ClassMatchesFrom(body, 0, ms) && i < |ms|
    requires !Covered(acc, bodyStart + ms[i].index)
    requires IsClassMatch(source, Shift(bodyStart, ms[i])) && ClassTree(source, Shift(bodyStart, ms[i])) == Err(e)
    ensures NestedRanges(source, bodyStart, body, ms, i, acc) == Err(e)
  {
  }

  /** One step of `NestedRanges` whose match is outside every accepted range and whose
      class parses: its range is accepted. */
  lemma NestedRangesParseOk(source: string, bodyStart: nat, body: string, ms: seq<ClassMatch>, i: nat, acc: seq<NestedRange>, p: Parsed)
    requires BodyAt(source, bodyStart, body)
    requires ClassMatchesFrom(body, 0, ms) && i < |ms|
    requires !Covered(acc, bodyStart + ms[i].index)
    requires IsClassMatch(source, Shift(bodyStart, ms[i])) && ClassTree(source, Shift(bodyStart, ms[i])) == Ok(p)
    ensures NestedRanges(source, bodyStart, body, ms, i, acc)
      == NestedRanges(source, bodyStart, body, ms, i + 1, acc + [NestedRange(bodyStart + ms[i].index, p.endIndex, p.cls)])
  {
  }

  // ---------------------------------------------------------------------------
  // Properties

  /** The type normalisation of `ParseProperties`: a trailing `?` is dropped (and the
      rest trimmed), then `Nullable<T>` becomes `T`; either makes the property nullable. */
  function NormalizeType(rawType: string): (r: (string, bool))
    ensures |r.0| <= |rawType|
    ensures r.1 <==> r.0 != rawType
  {
    var (stripped, nullable) :=
      if |rawType| > 0 && rawType[|rawType| - 1] == '?' then (Trim(rawType[..|rawType| - 1]), true)
      else (rawType, false);
    match GenericArgument(stripped, "Nullable")
    case Some(inner) => (inner, true)
    case None => (stripped, nullable)
  }

  /** The property a match describes: the trimmed name, and the normalised trimmed
      type, nullable exactly when normalising rewrote it. */
  function PropertyOf(m: PropMatch): (r: CSharpProperty)
    ensures r.isNullable <==> r.typeName != Trim(m.rawType)
    ensures |r.typeName| <= |m.rawType| && |r.name| <= |m.name|
  {
    var (typeName, isNullable) := NormalizeType(Trim(m.rawType));
    CSharpProperty(Trim(m.name), typeName, isNullable)
  }

  /** The properties of the matches `ms` whose offset in the whole text lies outside
      every accepted nested range, in order. */
  function KeptProperties(ms: seq<PropMatch>, bodyStart: nat, ranges: seq<NestedRange>): (ps: seq<CSharpProperty>)
    ensures |ps| <= |ms|
  {
    if ms == [] then []
    else
      var last := ms[|ms| - 1];
      KeptProperties(ms[..|ms| - 1], bodyStart, ranges)
        + (if Covered(ranges, bodyStart + last.index) then [] else [PropertyOf(last)])
  }

  /** One more match: its property is kept exactly when no accepted range covers it. */
  lemma KeptPropertiesStep(ms: seq<PropMatch>, i: nat, bodyStart: nat, ranges: seq<NestedRange>)
    requires i < |ms|
    ensures KeptProperties(ms[..i + 1], bodyStart, ranges)
      == KeptProperties(ms[..i], bodyStart, ranges) + (if Covered(ranges, bodyStart + ms[i].index) then [] else [PropertyOf(ms[i])])
  {
    assert ms[..i + 1][..i] == ms[..i];
  }

  // ---------------------------------------------------------------------------
  // The parser's methods

  /** `ParseProperties`. */
  method ParseProperties(classBody: string, classBodyStart: nat, nestedRanges: seq<NestedRange>) returns (properties: seq<CSharpProperty>)
    ensures properties == KeptProperties(PropertyMatches(classBody, 0), classBodyStart, nestedRanges)
  {
    var ms := PropertyMatches(classBody, 0);
    properties := CollectProperties(ms, classBodyStart, nestedRanges);
  }

  /** The loop of `ParseProperties` over the property matches `ms` of the body. */
  method CollectProperties(ms: seq<PropMatch>, classBodyStart: nat, nestedRanges: seq<NestedRange>) returns (properties: seq<CSharpProperty>)
    ensures properties == KeptProperties(ms, classBodyStart, nestedRanges)
  {
    properties := [];
    for i := 0 to |ms|
      invariant properties == KeptProperties(ms[..i], classBodyStart, nestedRanges)
    {
      KeptPropertiesStep(ms, i, classBodyStart, nestedRanges);
      var propGlobalIndex := classBodyStart + ms[i].index;
      if Covered(nestedRanges, propGlobalIndex) {
        continue;
      }
      properties := properties + [PropertyOf(ms[i])];
    }
    assert ms[..|ms|] == ms;
  }

  /** `ParseNestedClasses`. */
  method ParseNestedClasses(classBody: string, classBodyStart: nat, source: string) returns (r: Result<seq<NestedRange>>)
    requires BodyAt(source, classBodyStart, classBody)
    ensures r == NestedRanges(source, classBodyStart, classBody, ClassMatches(classBody, 0), 0, [])
    decreases |source| - classBodyStart + 1, 3
  {
    var ms := ClassMatches(classBody, 0);
    r := AcceptNestedClasses(classBody, classBodyStart, source, ms);
  }

  /** The loop of `ParseNestedClasses` over the class matches `ms` of the body. */
  method AcceptNestedClasses(classBody: string, classBodyStart: nat, source: string, ms: seq<ClassMatch>) returns (r: Result<seq<NestedRange>>)
    requires BodyAt(source, classBodyStart, classBody) && ClassMatchesFrom(classBody, 0, ms)
    ensures r == NestedRanges(source, classBodyStart, classBody, ms, 0, [])
    decreases |source| - classBodyStart + 1, 2
  {
    var nestedRanges := [];
    for i := 0 to |ms|
      invariant NestedRanges(source, classBodyStart, classBody, ms, i, nestedRanges)
             == NestedRanges(source, classBodyStart, classBody, ms, 0, [])
    {
      var next := AcceptNestedClass(classBody, classBodyStart, source, ms, i, nestedRanges);
      if next.Err? {
        return next;
      }
      nestedRanges := next.value;
    }
    return Ok(nestedRanges);
  }

  /** One iteration of the loop of `ParseNestedClasses`: the `i`-th class match of the
      body is skipped when an accepted range covers it, and parsed otherwise. */
  method AcceptNestedClass(classBody: string, classBodyStart: nat, source: string, ms: seq<ClassMatch>, i: nat, nestedRanges: seq<NestedRange>)
    returns (r: Result<seq<NestedRange>>)
    requires BodyAt(source, classBodyStart, classBody) && ClassMatchesFrom(classBody, 0, ms) && i < |ms|
    ensures r.Err? ==> NestedRanges(source, classBodyStart, classBody, ms, i, nestedRanges) == Err(r.error)
    ensures r.Ok? ==>
      NestedRanges(source, classBodyStart, classBody, ms, i, nestedRanges) == NestedRanges(source, classBodyStart, classBody, ms, i + 1, r.value)
    decreases |source| - classBodyStart + 1, 1
  {
    var nestedGlobalIndex := classBodyStart + ms[i].index;
    if Covered(nestedRanges, nestedGlobalIndex) {
      NestedRangesSkip(source, classBodyStart, classBody, ms, i, nestedRanges);
      return Ok(nestedRanges);
    }
    r := AcceptUncoveredClass(classBody, classBodyStart, source, ms, i, nestedRanges);
  }

  /** An iteration of the loop of `ParseNestedClasses` whose class match lies outside
      every accepted range: the class there is parsed and its range accepted. */
  method AcceptUncoveredClass(classBody: string, classBodyStart: nat, source: string, ms: seq<ClassMatch>, i: nat, nestedRanges: seq<NestedRange>)
    returns (r: Result<seq<NestedRange>>)
    requires BodyAt(source, classBodyStart, classBody) && ClassMatchesFrom(classBody, 0, ms) && i < |ms|
    requires !Covered(nestedRanges, classBodyStart + ms[i].index)
    ensures r.Err? ==> NestedRanges(source, classBodyStart, classBody, ms, i, nestedRanges) == Err(r.error)
    ensures r.Ok? ==>
      NestedRanges(source, classBodyStart, classBody, ms, i, nestedRanges) == NestedRanges(source, classBodyStart, classBody, ms, i + 1, r.value)
    decreases |source| - classBodyStart + 1, 0
  {
    var nestedGlobalIndex := classBodyStart + ms[i].index;
    ShiftedClassMatch(source, classBodyStart, classBody, ms[i]);
    var nested := ParseClassAt(nestedGlobalIndex, source, Shift(classBodyStart, ms[i]));
    if nested.Err? {
      NestedRangesParseErr(source, classBodyStart, classBody, ms, i, nestedRanges, nested.error);
      return Err(nested.error);
    }
    NestedRangesParseOk(source, classBodyStart, classBody, ms, i, nestedRanges, nested.value);
    return Ok(nestedRanges + [NestedRange(nestedGlobalIndex, nested.value.endIndex, nested.value.cls)]);
  }

  /** The loop of `ParseClassAt` that adds the tree of each accepted range to the class. */
  method AddNestedClasses(nestedRanges: seq<NestedRange>) returns (nestedClasses: seq<CSharpClass>)
    ensures nestedClasses == Classes(nestedRanges)
  {
    nestedClasses := [];
    for i := 0 to |nestedRanges|
      invariant nestedClasses == Classes(nestedRanges[..i])
    {
      assert nestedRanges[..i + 1][..i] == nestedRanges[..i];
      nestedClasses := nestedClasses + [nestedRanges[i].parsed];
    }
    assert nestedRanges[..|nestedRanges|] == nestedRanges;
  }

  /** `ParseClassAt`. */
  method ParseClassAt(classKeywordIndex: nat, source: string, ghost m: ClassMatch) returns (r: Result<Parsed>)
    requires IsClassMatch(source, m) && m.index == classKeywordIndex
    ensures r == ClassTree(source, m)
    decreases |source| - classKeywordIndex, 5
  {
    FindClassMatchFinds(source, m);
    var match_ := FindClassMatch(classKeywordIndex, source);
    var extracted := ExtractClassBody(source, match_.index, match_.name);
    ClassTreeExtracted(source, match_, extracted);
    if extracted.Err? {
      return Err(extracted.error);
    }
    r := ParseClassBody(source, match_.name, extracted.value);
  }

  /** The part of `ParseClassAt` after the body is found: the nested classes, then the
      properties outside them. */
  method ParseClassBody(source: string, className: string, cb: ClassBody) returns (r: Result<Parsed>)
    requires BodyAt(source, cb.braceOpen + 1, cb.body)
    ensures r == ClassInBody(source, className, cb)
    decreases |source| - cb.braceOpen, 4
  {
    ClassInBodyIsAssembled(source, className, cb);
    var nested := ParseNestedClasses(cb.body, cb.braceOpen + 1, source);
    if nested.Err? {
      return Err(nested.error);
    }
    var nestedRanges := nested.value;
    var properties := ParseProperties(cb.body, cb.braceOpen + 1, nestedRanges);
    var nestedClasses := AddNestedClasses(nestedRanges);
    return Ok(Parsed(CSharpClass(className, properties, nestedClasses), cb.braceClose));
  }

  /** What `ParseClasses` answers: no class (`null`) when `ClassRegex` matches nowhere,
      otherwise the class at the first match, or the error that aborted its parse. */
  function Parse(input: string): (r: Result<Option<CSharpClass>>)
    ensures r == Ok(None) <==> forall j: nat :: ClassMatchAt(input, j).None?
    ensures r.Ok? && r.value.Some? ==>
      exists k: nat :: k <= |input| && ClassMatchAt(input, k).Some? && r.value.value.name == ClassMatchAt(input, k).value.name
        && forall j: nat :: j < k ==> ClassMatchAt(input, j).None?
  {
    match ClassMatchFrom(input, 0)
    case None => Ok(None)
    case Some(m) =>
      match ClassTree(input, m)
      case Err(e) => Err(e)
      case Ok(p) => Ok(Some(p.cls))
  }

  /** `ParseClasses`. */
  method ParseClasses(input: string) returns (r: Result<Option<CSharpClass>>)
    ensures r == Parse(input)
  {
    var firstMatch := ClassMatchFrom(input, 0);
    if firstMatch.None? {
      return Ok(None);
    }
    var parsed := ParseClassAt(firstMatch.value.index, input, firstMatch.value);
    if parsed.Err? {
      return Err(parsed.error);
    }
    return Ok(Some(parsed.value.cls));
  }
}
