/** What the parser promises beyond computing its result: the nested classes it
    accepts occupy ordered, disjoint ranges of the text, every class boundary of a
    body lies in one of them, properties are filtered in source order, and types
    are normalised as `Nullable` and `?` say. */
module CSharpClassParserLemmas {
  import opened Chars
  import opened RegexPatterns
  import opened Models
  import opened CSharpClassParser
  import opened RegexPatternsLemmas

  // ---------------------------------------------------------------------------
  // Accepted nested ranges

  /** Each range is non-empty and ends before the next one starts. */
  predicate RangesOrdered(ranges: seq<NestedRange>)
  {
    && (forall k :: 0 <= k < |ranges| ==> ranges[k].start < ranges[k].end)
    && (forall j, k :: 0 <= j < k < |ranges| ==> ranges[j].end < ranges[k].start)
  }

  /** Every range starts at or after `lo` and ends before `hi`. */
  predicate RangesWithin(ranges: seq<NestedRange>, lo: nat, hi: nat)
  {
    forall k :: 0 <= k < |ranges| ==> lo <= ranges[k].start && ranges[k].end < hi
  }

  /** Every accepted range starts before `g`. */
  predicate StartsBefore(ranges: seq<NestedRange>, g: nat)
  {
    forall k :: 0 <= k < |ranges| ==> ranges[k].start < g
  }

  /** Appending a range that starts after the end of every range keeps them ordered. */
  lemma OrderedAppend(ranges: seq<NestedRange>, r: NestedRange)
    requires RangesOrdered(ranges) && r.start < r.end
    requires forall k :: 0 <= k < |ranges| ==> ranges[k].end < r.start
    ensures RangesOrdered(ranges + [r])
  {
    var rs := ranges + [r];
    forall j, k | 0 <= j < k < |rs| ensures rs[j].end < rs[k].start {
      if k < |ranges| {
        assert rs[j] == ranges[j] && rs[k] == ranges[k];
      }
    }
  }

  /** A match outside every range accepted so far lies after all of them, since each
      of them started at an earlier match. */
  lemma UncoveredIsAfter(ranges: seq<NestedRange>, g: nat)
    requires StartsBefore(ranges, g) && !Covered(ranges, g)
    ensures forall k :: 0 <= k < |ranges| ==> ranges[k].end < g
  {
    forall k | 0 <= k < |ranges| ensures ranges[k].end < g {
      assert !(ranges[k].start <= g <= ranges[k].end);
    }
  }

  /** The offsets of successive class matches increase. */
  lemma MatchesIncrease(body: string, ms: seq<ClassMatch>, i: nat)
    requires ClassMatchesFrom(body, 0, ms) && i + 1 < |ms|
    ensures ms[i].index < ms[i + 1].index
  {
    assert IsClassMatch(body, ms[i]);
  }

  /** The outcome `r` of `ParseNestedClasses`, when it succeeds, extends `acc` with
      ordered, disjoint ranges that lie between `lo` and `hi`. */
  predicate OrderedOutcome(r: Result<seq<NestedRange>>, acc: seq<NestedRange>, lo: nat, hi: nat)
  {
    r.Ok? ==> acc <= r.value && RangesOrdered(r.value) && RangesWithin(r.value, lo, hi)
  }

  /** Accepting the range `r` of a match outside the ranges accepted so far keeps them
      ordered and inside the text, and the next match starts after all of them. */
  lemma AcceptKeepsOrder(acc: seq<NestedRange>, r: NestedRange, lo: nat, hi: nat, next: nat)
    requires RangesOrdered(acc) && RangesWithin(acc, lo, hi)
    requires StartsBefore(acc, r.start) && !Covered(acc, r.start)
    requires lo <= r.start < r.end < hi && r.start < next
    ensures RangesOrdered(acc + [r]) && RangesWithin(acc + [r], lo, hi) && StartsBefore(acc + [r], next)
  {
    UncoveredIsAfter(acc, r.start);
    OrderedAppend(acc, r);
  }

  /** A longer prefix in an outcome gives the shorter one too. */
  lemma OrderedOutcomeOfPrefix(r: Result<seq<NestedRange>>, acc: seq<NestedRange>, acc': seq<NestedRange>, lo: nat, hi: nat)
    requires acc <= acc' && OrderedOutcome(r, acc', lo, hi)
    ensures OrderedOutcome(r, acc, lo, hi)
  {
  }

  /** The range accepted for a match outside every accepted range whose class parses:
      it starts at the match and ends at the class's closing brace. */
  lemma AcceptedRange(source: string, bodyStart: nat, body: string, ms: seq<ClassMatch>, i: nat, acc: seq<NestedRange>, p: Parsed)
    returns (x: NestedRange)
    requires BodyAt(source, bodyStart, body)
    requires ClassMatchesFrom(body, 0, ms) && i < |ms|
    requires !Covered(acc, bodyStart + ms[i].index)
    requires IsClassMatch(source, Shift(bodyStart, ms[i])) && ClassTree(source, Shift(bodyStart, ms[i])) == Ok(p)
    ensures x.start == bodyStart + ms[i].index < x.end < |source| && source[x.end] == '}'
    ensures NestedRanges(source, bodyStart, body, ms, i, acc) == NestedRanges(source, bodyStart, body, ms, i + 1, acc + [x])
  {
    x := NestedRange(bodyStart + ms[i].index, p.endIndex, p.cls);
    NestedRangesParseOk(source, bodyStart, body, ms, i, acc, p);
  }

  /** `ParseNestedClasses` from the `i`-th match on extends the ranges accepted so far,
      and keeps them ordered, disjoint and inside the text after the body start. */
  lemma {:induction false} NestedRangesOrdered(source: string, bodyStart: nat, body: string, ms: seq<ClassMatch>, i: nat, acc: seq<NestedRange>)
    requires BodyAt(source, bodyStart, body)
    requires ClassMatchesFrom(body, 0, ms) && i <= |ms|
    requires RangesOrdered(acc) && RangesWithin(acc, bodyStart, |source|)
    requires i < |ms| ==> StartsBefore(acc, bodyStart + ms[i].index)
    ensures OrderedOutcome(NestedRanges(source, bodyStart, body, ms, i, acc), acc, bodyStart, |source|)
    decreases |ms| - i
  {
    if i < |ms| {
      var g := bodyStart + ms[i].index;
      var next := if i + 1 < |ms| then bodyStart + ms[i + 1].index else g + 1;
      if i + 1 < |ms| {
        MatchesIncrease(body, ms, i);
      }
      if Covered(acc, g) {
        NestedRangesSkip(source, bodyStart, body, ms, i, acc);
        NestedRangesOrdered(source, bodyStart, body, ms, i + 1, acc);
      } else {
        ShiftedClassMatch(source, bodyStart, body, ms[i]);
        var t := ClassTree(source, Shift(bodyStart, ms[i]));
        if t.Err? {
          NestedRangesParseErr(source, bodyStart, body, ms, i, acc, t.error);
        } else {
          var r := AcceptedRange(source, bodyStart, body, ms, i, acc, t.value);
          AcceptKeepsOrder(acc, r, bodyStart, |source|, next);
          NestedRangesOrdered(source, bodyStart, body, ms, i + 1, acc + [r]);
          OrderedOutcomeOfPrefix(NestedRanges(source, bodyStart, body, ms, i + 1, acc + [r]), acc, acc + [r], bodyStart, |source|);
        }
      }
    }
  }

  /** The nested classes a body accepts occupy ordered, disjoint ranges of the text,
      each starting inside the body, after the `{` that opens it. */
  lemma AcceptedRangesOrdered(source: string, bodyStart: nat, body: string)
    requires BodyAt(source, bodyStart, body)
    ensures NestedRanges(source, bodyStart, body, ClassMatches(body, 0), 0, []).Ok? ==>
      var rs := NestedRanges(source, bodyStart, body, ClassMatches(body, 0), 0, []).value;
      RangesOrdered(rs) && RangesWithin(rs, bodyStart, |source|)
  {
    NestedRangesOrdered(source, bodyStart, body, ClassMatches(body, 0), 0, []);
  }

  /** When `r` succeeds it extends `acc`, and every match of `ms` from the `i`-th on,
      placed at `bodyStart`, lies inside one of its ranges. */
  predicate CoveringOutcome(r: Result<seq<NestedRange>>, acc: seq<NestedRange>, bodyStart: nat, ms: seq<ClassMatch>, i: nat)
  {
    r.Ok? ==> acc <= r.value && CoversMatches(r.value, bodyStart, ms, i)
  }

  /** Every match of `ms` from the `i`-th on, placed at `bodyStart`, lies inside one of the ranges. */
  predicate CoversMatches(ranges: seq<NestedRange>, bodyStart: nat, ms: seq<ClassMatch>, i: nat)
    decreases |ms| - i
  {
    i < |ms| ==> Covered(ranges, bodyStart + ms[i].index) && CoversMatches(ranges, bodyStart, ms, i + 1)
  }

  lemma {:induction false} CoversEveryMatch(ranges: seq<NestedRange>, bodyStart: nat, ms: seq<ClassMatch>, i: nat)
    requires CoversMatches(ranges, bodyStart, ms, i)
    ensures forall k :: i <= k < |ms| ==> Covered(ranges, bodyStart + ms[k].index)
    decreases |ms| - i
  {
    if i < |ms| {
      CoversEveryMatch(ranges, bodyStart, ms, i + 1);
    }
  }

  /** A match covered by a range accepted earlier stays covered in any outcome. */
  lemma CoverSkipCase(r: Result<seq<NestedRange>>, r': Result<seq<NestedRange>>, acc: seq<NestedRange>, bodyStart: nat, ms: seq<ClassMatch>, i: nat)
    requires i < |ms| && r == r' && Covered(acc, bodyStart + ms[i].index)
    requires CoveringOutcome(r', acc, bodyStart, ms, i + 1)
    ensures CoveringOutcome(r, acc, bodyStart, ms, i)
  {
    if r.Ok? {
      var g := bodyStart + ms[i].index;
      var j :| 0 <= j < |acc| && acc[j].start <= g <= acc[j].end;
      assert r.value[j] == acc[j];
      assert Covered(r.value, g);
    }
  }

  /** A match whose class is accepted as range `x` is covered by `x`. */
  lemma CoverAcceptCase(r: Result<seq<NestedRange>>, r': Result<seq<NestedRange>>, acc: seq<NestedRange>, x: NestedRange, bodyStart: nat, ms: seq<ClassMatch>, i: nat)
    requires i < |ms| && r == r' && x.start <= bodyStart + ms[i].index <= x.end
    requires CoveringOutcome(r', acc + [x], bodyStart, ms, i + 1)
    ensures CoveringOutcome(r, acc, bodyStart, ms, i)
  {
    if r.Ok? {
      assert r.value[|acc|] == (acc + [x])[|acc|] == x;
    }
  }

  /** Every class boundary of the body from the `i`-th on ends up inside an accepted
      range: either a range accepted earlier covers it or it starts one. */
  lemma {:induction false} NestedRangesCover(source: string, bodyStart: nat, body: string, ms: seq<ClassMatch>, i: nat, acc: seq<NestedRange>)
    requires BodyAt(source, bodyStart, body)
    requires ClassMatchesFrom(body, 0, ms) && i <= |ms|
    ensures CoveringOutcome(NestedRanges(source, bodyStart, body, ms, i, acc), acc, bodyStart, ms, i)
    decreases |ms| - i
  {
    if i < |ms| {
      var g := bodyStart + ms[i].index;
      if Covered(acc, g) {
        NestedRangesSkip(source, bodyStart, body, ms, i, acc);
        NestedRangesCover(source, bodyStart, body, ms, i + 1, acc);
        CoverSkipCase(NestedRanges(source, bodyStart, body, ms, i, acc), NestedRanges(source, bodyStart, body, ms, i + 1, acc), acc, bodyStart, ms, i);
      } else {
        ShiftedClassMatch(source, bodyStart, body, ms[i]);
        var t := ClassTree(source, Shift(bodyStart, ms[i]));
        if t.Err? {
          NestedRangesParseErr(source, bodyStart, body, ms, i, acc, t.error);
        } else {
          var x := AcceptedRange(source, bodyStart, body, ms, i, acc, t.value);
          NestedRangesCover(source, bodyStart, body, ms, i + 1, acc + [x]);
          CoverAcceptCase(NestedRanges(source, bodyStart, body, ms, i, acc), NestedRanges(source, bodyStart, body, ms, i + 1, acc + [x]), acc, x, bodyStart, ms, i);
        }
      }
    }
  }

  /** Each range ends on the `}` that closes its class. */
  predicate EndsOnBrace(source: string, ranges: seq<NestedRange>)
  {
    forall k :: 0 <= k < |ranges| ==> ranges[k].end < |source| && source[ranges[k].end] == '}'
  }

  /** `ParseNestedClasses` from the `i`-th match on only adds ranges that end on a `}`. */
  lemma {:induction false} NestedRangesEndOnBrace(source: string, bodyStart: nat, body: string, ms: seq<ClassMatch>, i: nat, acc: seq<NestedRange>)
    requires BodyAt(source, bodyStart, body)
    requires ClassMatchesFrom(body, 0, ms) && i <= |ms|
    requires EndsOnBrace(source, acc)
    ensures NestedRanges(source, bodyStart, body, ms, i, acc).Ok? ==>
      EndsOnBrace(source, NestedRanges(source, bodyStart, body, ms, i, acc).value)
    decreases |ms| - i
  {
    if i < |ms| {
      if Covered(acc, bodyStart + ms[i].index) {
        NestedRangesSkip(source, bodyStart, body, ms, i, acc);
        NestedRangesEndOnBrace(source, bodyStart, body, ms, i + 1, acc);
      } else {
        ShiftedClassMatch(source, bodyStart, body, ms[i]);
        var t := ClassTree(source, Shift(bodyStart, ms[i]));
        if t.Err? {
          NestedRangesParseErr(source, bodyStart, body, ms, i, acc, t.error);
        } else {
          var x := AcceptedRange(source, bodyStart, body, ms, i, acc, t.value);
          assert EndsOnBrace(source, acc + [x]) by {
            forall k | 0 <= k < |acc + [x]| ensures (acc + [x])[k].end < |source| && source[(acc + [x])[k].end] == '}' {
              if k < |acc| {
                assert (acc + [x])[k] == acc[k];
              }
            }
          }
          NestedRangesEndOnBrace(source, bodyStart, body, ms, i + 1, acc + [x]);
        }
      }
    }
  }

  /** No character of a class match is a `}`. */
  lemma ClassMatchHasNoBrace(s: string, m: ClassMatch, x: nat)
    requires IsClassMatch(s, m) && m.index <= x < m.end
    ensures s[x] != '}'
  {
    if x < m.index + 5 {
      assert s[x] == s[m.index..m.index + 5][x - m.index];
    } else if x >= m.end - |m.name| {
      assert s[x] == m.name[x - (m.end - |m.name|)];
    }
  }

  /** A `}` at or after the start of a class match of the body lies past its end. */
  lemma BraceAfterClassMatch(source: string, bodyStart: nat, body: string, m: ClassMatch, e: nat)
    requires BodyAt(source, bodyStart, body) && IsClassMatch(body, m)
    requires bodyStart + m.index <= e < |source| && source[e] == '}'
    ensures bodyStart + m.end <= e
  {
    if e < bodyStart + m.end {
      ClassMatchHasNoBrace(body, m, e - bodyStart);
    }
  }

  /** No class boundary of a body is lost: wherever in the body the class pattern
      matches, that offset is the start of a direct nested class or lies inside one. */
  lemma AcceptedRangesCover(source: string, bodyStart: nat, body: string, j: nat)
    requires BodyAt(source, bodyStart, body) && ClassMatchAt(body, j).Some?
    ensures NestedRanges(source, bodyStart, body, ClassMatches(body, 0), 0, []).Ok? ==>
      Covered(NestedRanges(source, bodyStart, body, ClassMatches(body, 0), 0, []).value, bodyStart + j)
  {
    var ms := ClassMatches(body, 0);
    var r := NestedRanges(source, bodyStart, body, ms, 0, []);
    if r.Ok? {
      NestedRangesCover(source, bodyStart, body, ms, 0, []);
      CoversEveryMatch(r.value, bodyStart, ms, 0);
      NestedRangesEndOnBrace(source, bodyStart, body, ms, 0, []);
      ClassMatchesComplete(body, 0, j);
      CoveredInsideMatch(source, bodyStart, body, ms, r.value, j);
    }
  }

  /** An offset inside a class match whose start a range covers is covered by that
      range too, since the range ends on a `}` and the match holds none. */
  lemma CoveredInsideMatch(source: string, bodyStart: nat, body: string, ms: seq<ClassMatch>, rs: seq<NestedRange>, j: nat)
    requires BodyAt(source, bodyStart, body) && ClassMatchesFrom(body, 0, ms) && EndsOnBrace(source, rs)
    requires forall k :: 0 <= k < |ms| ==> Covered(rs, bodyStart + ms[k].index)
    requires SpannedByClassMatch(ms, j)
    ensures Covered(rs, bodyStart + j)
  {
    var k :| 0 <= k < |ms| && ms[k].index <= j < ms[k].end;
    var i :| 0 <= i < |rs| && rs[i].start <= bodyStart + ms[k].index <= rs[i].end;
    BraceAfterClassMatch(source, bodyStart, body, ms[k], rs[i].end);
  }

  /** The direct nested classes of a class follow the order of their ranges. */
  lemma {:induction false} ClassesInOrder(ranges: seq<NestedRange>)
    ensures forall k :: 0 <= k < |ranges| ==> Classes(ranges)[k] == ranges[k].parsed
  {
    if ranges != [] {
      ClassesInOrder(ranges[..|ranges| - 1]);
    }
  }

  /** Every class boundary of a body lies after the keyword of the class that owns the
      body, so each recursive parse starts further into the text. */
  lemma NestedKeywordsAdvance(source: string, m: ClassMatch)
    requires IsClassMatch(source, m)
    ensures ExtractClassBody(source, m.index, m.name).Ok? ==>
      var cb := ExtractClassBody(source, m.index, m.name).value;
      forall k :: 0 <= k < |ClassMatches(cb.body, 0)| ==> m.index < cb.braceOpen + 1 + ClassMatches(cb.body, 0)[k].index
  {
    ClassTreeExtracted(source, m, ExtractClassBody(source, m.index, m.name));
  }

  // ---------------------------------------------------------------------------
  // Properties

  /** The filter of `ParseProperties` with any description `f` of a match: the
      description of each match outside every range, in order. */
  function KeptBy<T>(ms: seq<PropMatch>, bodyStart: nat, ranges: seq<NestedRange>, f: PropMatch -> T): seq<T>
  {
    if ms == [] then []
    else
      KeptBy(ms[..|ms| - 1], bodyStart, ranges, f)
        + (if Covered(ranges, bodyStart + ms[|ms| - 1].index) then [] else [f(ms[|ms| - 1])])
  }

  /** `KeptProperties` is that filter with `PropertyOf` as the description. */
  lemma {:induction false} KeptPropertiesIsKeptBy(ms: seq<PropMatch>, bodyStart: nat, ranges: seq<NestedRange>)
    ensures KeptProperties(ms, bodyStart, ranges) == KeptBy(ms, bodyStart, ranges, PropertyOf)
  {
    if ms != [] {
      KeptPropertiesIsKeptBy(ms[..|ms| - 1], bodyStart, ranges);
    }
  }

  /** Filtering a concatenation filters each part. */
  lemma {:induction false} KeptByAppend<T>(ms: seq<PropMatch>, ms': seq<PropMatch>, bodyStart: nat, ranges: seq<NestedRange>, f: PropMatch -> T)
    ensures KeptBy(ms + ms', bodyStart, ranges, f) == KeptBy(ms, bodyStart, ranges, f) + KeptBy(ms', bodyStart, ranges, f)
    decreases |ms'|
  {
    if ms' == [] {
      assert ms + ms' == ms;
    } else {
      var init := ms'[..|ms'| - 1];
      assert (ms + ms')[..|ms + ms'| - 1] == ms + init;
      KeptByAppend(ms, init, bodyStart, ranges, f);
    }
  }

  /** The positions of the matches outside every range, in increasing order. */
  function KeptIndices(ms: seq<PropMatch>, bodyStart: nat, ranges: seq<NestedRange>): (ks: seq<nat>)
    ensures forall j :: 0 <= j < |ks| ==> ks[j] < |ms|
  {
    if ms == [] then []
    else
      KeptIndices(ms[..|ms| - 1], bodyStart, ranges)
        + (if Covered(ranges, bodyStart + ms[|ms| - 1].index) then [] else [|ms| - 1])
  }

  /** The filter keeps a match exactly when no range covers it, and keeps the order. */
  lemma {:induction false} KeptIndicesAreUncovered(ms: seq<PropMatch>, bodyStart: nat, ranges: seq<NestedRange>)
    ensures var ks := KeptIndices(ms, bodyStart, ranges);
      && (forall i, j :: 0 <= i < j < |ks| ==> ks[i] < ks[j])
      && (forall k :: 0 <= k < |ms| ==> (k in ks <==> !Covered(ranges, bodyStart + ms[k].index)))
  {
    if ms != [] {
      var init := ms[..|ms| - 1];
      KeptIndicesAreUncovered(init, bodyStart, ranges);
      forall k | 0 <= k < |init| ensures ms[k] == init[k] { }
    }
  }

  /** The `j`-th kept description is the description of the `j`-th kept match. */
  lemma {:induction false} KeptByIndices<T>(ms: seq<PropMatch>, bodyStart: nat, ranges: seq<NestedRange>, f: PropMatch -> T)
    ensures |KeptBy(ms, bodyStart, ranges, f)| == |KeptIndices(ms, bodyStart, ranges)|
    ensures forall j :: 0 <= j < |KeptIndices(ms, bodyStart, ranges)| ==>
      KeptBy(ms, bodyStart, ranges, f)[j] == f(ms[KeptIndices(ms, bodyStart, ranges)[j]])
  {
    if ms != [] {
      var init := ms[..|ms| - 1];
      KeptByIndices(init, bodyStart, ranges, f);
      forall k | 0 <= k < |init| ensures ms[k] == init[k] { }
    }
  }

  /** With no nested class every match is kept. */
  lemma {:induction false} NothingCoveredKeepsAll(ms: seq<PropMatch>, bodyStart: nat)
    ensures KeptIndices(ms, bodyStart, []) == seq(|ms|, k => k)
  {
    if ms != [] {
      NothingCoveredKeepsAll(ms[..|ms| - 1], bodyStart);
    }
  }

  // ---------------------------------------------------------------------------
  // Type normalisation

  /** An identifier is kept as it is and is not nullable. */
  lemma IdentifierIsKept(t: string)
    requires AllWord(t)
    ensures NormalizeType(t) == (t, false)
  {
    GenericArgumentOfWord(t, "Nullable");
    if t != [] {
      assert IsWord(t[|t| - 1]);
    }
  }

  /** `T?` for an identifier `T` becomes `T`, nullable. */
  lemma TrailingQuestionMark(t: string)
    requires AllWord(t)
    ensures NormalizeType(t + "?") == (t, true)
  {
    WordIsTrimmed(t);
    assert (t + "?")[..|t|] == t;
    GenericArgumentOfWord(t, "Nullable");
  }

  /** `Nullable<T>` for an identifier `T` becomes `T`, nullable. */
  lemma NullableGeneric(t: string)
    requires t != [] && AllWord(t)
    ensures NormalizeType("Nullable<" + t + ">") == (t, true)
  {
    var w := "Nullable<" + t + ">";
    GenericArgumentOfWrapped("Nullable", t);
    assert w[|w| - 1] == '>';
  }

  /** `List<T>` is not `Nullable<T>`: it is kept as written, not nullable. */
  lemma ListIsKept(t: string)
    ensures NormalizeType("List<" + t + ">") == ("List<" + t + ">", false)
  {
    var w := "List<" + t + ">";
    assert w[|w| - 1] == '>';
    assert w[0] == 'L';
  }

  /** A trailing `?` on a trimmed type that does not already end in `?` changes nothing
      but the nullable flag, which it sets. */
  lemma QuestionMarkOnlySetsNullable(w: string)
    requires IsTrimmed(w) && (w == [] || w[|w| - 1] != '?')
    ensures NormalizeType(w + "?").0 == NormalizeType(w).0
    ensures NormalizeType(w + "?").1
  {
    var v := w + "?";
    assert v[..|v| - 1] == w;
  }

  /** So does `Nullable<T>?`. */
  lemma NullableGenericQuestionMark(t: string)
    requires t != [] && AllWord(t)
    ensures NormalizeType("Nullable<" + t + ">?") == (t, true)
  {
    var w := "Nullable<" + t + ">";
    assert w + "?" == "Nullable<" + t + ">?";
    assert IsTrimmed(w) by { assert w[0] == 'N' && w[|w| - 1] == '>'; }
    QuestionMarkOnlySetsNullable(w);
    NullableGeneric(t);
  }

  // ---------------------------------------------------------------------------
  // One declaration, from text to property

  /** A body holding one declaration `public T N { get; set; }` and no nested class
      yields one property: the name `N` with the normalised type `T`. */
  lemma DeclaredProperty(t: string, n: string, bodyStart: nat)
    requires IsTypeText(t) && IsTrimmed(t) && n != [] && AllWord(n)
    ensures KeptProperties(PropertyMatches(Declaration(t, n), 0), bodyStart, [])
      == [CSharpProperty(n, NormalizeType(t).0, NormalizeType(t).1)]
  {
    DeclarationMatches(t, n);
    WordIsTrimmed(n);
    var ms := PropertyMatches(Declaration(t, n), 0);
    assert ms[..0] == [];
  }

  /** `public T N { get; set; }` for an identifier `T`: type `T`, not nullable. */
  lemma DeclaredPlainProperty(t: string, n: string, bodyStart: nat)
    requires t != [] && AllWord(t) && n != [] && AllWord(n)
    ensures KeptProperties(PropertyMatches(Declaration(t, n), 0), bodyStart, []) == [CSharpProperty(n, t, false)]
  {
    WordIsTrimmed(t);
    assert !IsSpace(t[0]) && IsWord(t[0]);
    DeclaredProperty(t, n, bodyStart);
    IdentifierIsKept(t);
  }

  /** `public T? N { get; set; }`: type `T`, nullable. */
  lemma DeclaredOptionalProperty(t: string, n: string, bodyStart: nat)
    requires t != [] && AllWord(t) && n != [] && AllWord(n)
    ensures KeptProperties(PropertyMatches(Declaration(t + "?", n), 0), bodyStart, []) == [CSharpProperty(n, t, true)]
  {
    var w := t + "?";
    assert w[0] == t[0] && w[|w| - 1] == '?';
    assert forall x :: 0 <= x < |w| ==> InClass(w[x], TypeChar) by {
      forall x | 0 <= x < |w| ensures InClass(w[x], TypeChar) {
        if x < |t| { assert w[x] == t[x]; }
      }
    }
    DeclaredProperty(w, n, bodyStart);
    TrailingQuestionMark(t);
  }

  /** `public Nullable<T> N { get; set; }`: type `T`, nullable. */
  lemma DeclaredNullableProperty(t: string, n: string, bodyStart: nat)
    requires t != [] && AllWord(t) && n != [] && AllWord(n)
    ensures KeptProperties(PropertyMatches(Declaration("Nullable<" + t + ">", n), 0), bodyStart, []) == [CSharpProperty(n, t, true)]
  {
    var w := "Nullable<" + t + ">";
    assert w[0] == 'N' && w[|w| - 1] == '>';
    assert forall x :: 0 <= x < |w| ==> InClass(w[x], TypeChar) by {
      forall x | 0 <= x < |w| ensures InClass(w[x], TypeChar) {
        if 9 <= x < 9 + |t| { assert w[x] == t[x - 9]; }
      }
    }
    DeclaredProperty(w, n, bodyStart);
    NullableGeneric(t);
  }

  /** `public List<T> N { get; set; }`: type `List<T>` as written, not nullable. */
  lemma DeclaredListProperty(t: string, n: string, bodyStart: nat)
    requires t != [] && AllWord(t) && n != [] && AllWord(n)
    ensures KeptProperties(PropertyMatches(Declaration("List<" + t + ">", n), 0), bodyStart, [])
      == [CSharpProperty(n, "List<" + t + ">", false)]
  {
    var w := "List<" + t + ">";
    assert w[0] == 'L' && w[|w| - 1] == '>';
    assert forall x :: 0 <= x < |w| ==> InClass(w[x], TypeChar) by {
      forall x | 0 <= x < |w| ensures InClass(w[x], TypeChar) {
        if 5 <= x < 5 + |t| { assert w[x] == t[x - 5]; }
      }
    }
    DeclaredProperty(w, n, bodyStart);
    ListIsKept(t);
  }
}
