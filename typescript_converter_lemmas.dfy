/** What the emitter promises: types are mapped with at most one `[]` and mapping
    twice changes nothing, names are camel-cased idempotently, and the classes
    written are the pre-order of the tree with every repeated name (and all that
    is nested in it) left out. */
module TypeScriptConverterLemmas {
  import opened Chars
  import opened RegexPatterns
  import opened Models
  import opened TypeScriptConverter

  // ---------------------------------------------------------------------------
  // MapType

  /** The table's values are identifiers that the table maps to themselves. */
  lemma TableValuesAreWords(t: string)
    ensures t in TypeMap ==> AllWord(TypeMap[t]) && TypeMap[t] != [] && ScalarType(TypeMap[t]) == TypeMap[t]
  {
    assert AllWord("number") by { assert forall x :: 0 <= x < 6 ==> IsWord("number"[x]); }
    assert AllWord("string") by { assert forall x :: 0 <= x < 6 ==> IsWord("string"[x]); }
  }

  /** An identifier is never a `List<...>`, so it only goes through the table: this
      is why `MapType` recurses at most once. */
  lemma MapTypeOfIdentifier(t: string)
    requires AllWord(t)
    ensures MapType(t) == ScalarType(t)
  {
    WordIsTrimmed(t);
    GenericArgumentOfWord(t, "List");
  }

  lemma ListIsTrimmed(t: string)
    ensures Trim("List<" + t + ">") == "List<" + t + ">"
  {
    var w := "List<" + t + ">";
    assert w[0] == 'L' && w[|w| - 1] == '>';
  }

  /** `List<T>` for an identifier `T` maps to the table entry of `T` followed by `[]`. */
  lemma MapTypeOfList(t: string)
    requires t != [] && AllWord(t)
    ensures MapType("List<" + t + ">") == ScalarType(t) + "[]"
  {
    ListIsTrimmed(t);
    GenericArgumentOfWrapped("List", t);
    MapTypeOfTrimmedList("List<" + t + ">", t);
  }

  lemma MapTypeOfTrimmedList(w: string, t: string)
    requires Trim(w) == w && GenericArgument(w, "List") == Some(t)
    ensures MapType(w) == ScalarType(t) + "[]"
  {
  }

  /** An identifier followed by `[]` is left as it is. */
  lemma ArrayTypeIsKept(u: string)
    requires u != [] && AllWord(u)
    ensures MapType(u + "[]") == u + "[]"
  {
    var r := u + "[]";
    assert r[|r| - 1] == ']' && r[0] == u[0] && IsWord(u[0]);
    assert IsTrimmed(r);
    assert GenericArgument(r, "List").None?;
    assert r !in TypeMap by { assert |r| >= 3 && r[|r| - 1] == ']'; }
  }

  /** A type already mapped maps to itself. */
  lemma MapTypeIdempotent(s: string)
    ensures MapType(MapType(s)) == MapType(s)
  {
    var t := Trim(s);
    match GenericArgument(t, "List")
    case Some(inner) =>
      MapTypeOfIdentifier(inner);
      TableValuesAreWords(inner);
      ArrayTypeIsKept(ScalarType(inner));
    case None =>
      if t in TypeMap {
        TableValuesAreWords(t);
        MapTypeOfIdentifier(TypeMap[t]);
      } else {
        assert Trim(t) == t;
      }
  }

  // ---------------------------------------------------------------------------
  // ToCamelCase

  /** A name is left as it is exactly when it is empty or does not start with an
      upper-case letter. */
  lemma ToCamelCaseUnchanged(name: string)
    ensures ToCamelCase(name) == name <==> (name == [] || !IsUpper(name[0]))
  {
    if name != [] && IsUpper(name[0]) {
      assert ToCamelCase(name)[0] != name[0];
    }
  }

  /** Camel-casing twice is camel-casing once. */
  lemma ToCamelCaseIdempotent(name: string)
    ensures ToCamelCase(ToCamelCase(name)) == ToCamelCase(name)
  {
    ToCamelCaseUnchanged(ToCamelCase(name));
  }

  // ---------------------------------------------------------------------------
  // Which classes are written

  /** The classes of the tree in pre-order: a class, then the pre-order of each
      nested class in turn. */
  function PreOrder(c: CSharpClass): (r: seq<CSharpClass>)
    ensures r != [] && r[0] == c
    decreases c, 0
  {
    [c] + PreOrderChildren(c.nestedClasses, |c.nestedClasses|)
  }

  function PreOrderChildren(cs: seq<CSharpClass>, n: nat): seq<CSharpClass>
    requires n <= |cs|
    decreases cs, n
  {
    if n == 0 then [] else PreOrderChildren(cs, n - 1) + PreOrder(cs[n - 1])
  }

  function Names(cs: seq<CSharpClass>): set<string>
  {
    set i | 0 <= i < |cs| :: cs[i].name
  }

  predicate DistinctNames(cs: seq<CSharpClass>)
  {
    forall i, j :: 0 <= i < j < |cs| ==> cs[i].name != cs[j].name
  }

  /** `a` is `b` with some elements left out. */
  predicate IsSubsequence(a: seq<CSharpClass>, b: seq<CSharpClass>)
    decreases |b|
  {
    if a == [] then true
    else if b == [] then false
    else if a[|a| - 1] == b[|b| - 1] then IsSubsequence(a[..|a| - 1], b[..|b| - 1])
    else IsSubsequence(a, b[..|b| - 1])
  }

  lemma NamesAppend(a: seq<CSharpClass>, b: seq<CSharpClass>)
    ensures Names(a + b) == Names(a) + Names(b)
  {
    var ab := a + b;
    forall x | x in Names(ab) ensures x in Names(a) + Names(b) {
      var i :| 0 <= i < |ab| && ab[i].name == x;
      if i >= |a| { assert b[i - |a|] == ab[i]; }
    }
    forall x | x in Names(a) + Names(b) ensures x in Names(ab) {
      if x in Names(a) {
        var i :| 0 <= i < |a| && a[i].name == x;
        assert ab[i] == a[i];
      } else {
        var i :| 0 <= i < |b| && b[i].name == x;
        assert ab[|a| + i] == b[i];
      }
    }
  }

  lemma NamesOne(c: CSharpClass)
    ensures Names([c]) == {c.name}
  {
    assert [c][0] == c;
  }

  /** The names of two lists with distinct names and no name in common are distinct. */
  lemma DistinctAppend(a: seq<CSharpClass>, b: seq<CSharpClass>)
    requires DistinctNames(a) && DistinctNames(b) && Names(a) !! Names(b)
    ensures DistinctNames(a + b)
  {
    var ab := a + b;
    forall i, j | 0 <= i < j < |ab| ensures ab[i].name != ab[j].name {
      if j < |a| {
        assert ab[i] == a[i] && ab[j] == a[j];
      } else if i >= |a| {
        assert ab[i] == b[i - |a|] && ab[j] == b[j - |a|];
      } else {
        assert ab[i] == a[i] && ab[j] == b[j - |a|];
        assert ab[i].name in Names(a) && ab[j].name in Names(b);
      }
    }
  }

  /** Visiting writes classes with distinct names, none of them written before, and
      afterwards the written names are the earlier ones and theirs. */
  lemma {:induction false} VisitWritesNewNames(c: CSharpClass, emitted: set<string>)
    ensures var (vs, after) := Visit(c, emitted);
      DistinctNames(vs) && Names(vs) !! emitted && after == emitted + Names(vs)
    decreases c, 0
  {
    if c.name !in emitted {
      var inside := emitted + {c.name};
      var (below, after) := VisitChildren(c.nestedClasses, |c.nestedClasses|, inside);
      VisitChildrenWritesNewNames(c.nestedClasses, |c.nestedClasses|, inside);
      NamesOne(c);
      NamesAppend([c], below);
      DistinctAppend([c], below);
    }
  }

  lemma {:induction false} VisitChildrenWritesNewNames(cs: seq<CSharpClass>, n: nat, emitted: set<string>)
    requires n <= |cs|
    ensures var (vs, after) := VisitChildren(cs, n, emitted);
      DistinctNames(vs) && Names(vs) !! emitted && after == emitted + Names(vs)
    decreases cs, n
  {
    if n > 0 {
      var (before, mid) := VisitChildren(cs, n - 1, emitted);
      VisitChildrenWritesNewNames(cs, n - 1, emitted);
      var (last, after) := Visit(cs[n - 1], mid);
      VisitWritesNewNames(cs[n - 1], mid);
      NamesAppend(before, last);
      DistinctAppend(before, last);
    }
  }

  /** Leaving elements out of two lists leaves them out of their concatenation. */
  lemma {:induction false} SubsequenceAppend(a: seq<CSharpClass>, b: seq<CSharpClass>, a': seq<CSharpClass>, b': seq<CSharpClass>)
    requires IsSubsequence(a, b) && IsSubsequence(a', b')
    ensures IsSubsequence(a + a', b + b')
    decreases |b'|
  {
    if a' == [] {
      assert a + a' == a;
      SubsequenceOfLonger(a, b, b');
    } else {
      assert b' != [];
      var x, y := a + a', b + b';
      assert x[..|x| - 1] == a + a'[..|a'| - 1];
      assert y[..|y| - 1] == b + b'[..|b'| - 1];
      if a'[|a'| - 1] == b'[|b'| - 1] {
        SubsequenceAppend(a, b, a'[..|a'| - 1], b'[..|b'| - 1]);
      } else {
        SubsequenceAppend(a, b, a', b'[..|b'| - 1]);
      }
    }
  }

  /** A subsequence of `b` is one of `b + c`. */
  lemma {:induction false} SubsequenceOfLonger(a: seq<CSharpClass>, b: seq<CSharpClass>, c: seq<CSharpClass>)
    requires IsSubsequence(a, b)
    ensures IsSubsequence(a, b + c)
    decreases |c|
  {
    if c == [] {
      assert b + c == b;
    } else {
      var c' := c[..|c| - 1];
      SubsequenceOfLonger(a, b, c');
      SubsequenceSnoc(a, b + c', c[|c| - 1]);
      assert b + c' + [c[|c| - 1]] == b + c;
    }
  }

  /** A subsequence of `q` is one of `q + [x]`. */
  lemma {:induction false} SubsequenceSnoc(p: seq<CSharpClass>, q: seq<CSharpClass>, x: CSharpClass)
    requires IsSubsequence(p, q)
    ensures IsSubsequence(p, q + [x])
    decreases |p| + |q|, 1
  {
    var q' := q + [x];
    assert q'[..|q'| - 1] == q;
    if p != [] && p[|p| - 1] == x {
      SubsequenceDropLast(p, q);
    }
  }

  /** Dropping the last element of a subsequence keeps it a subsequence. */
  lemma {:induction false} SubsequenceDropLast(a: seq<CSharpClass>, b: seq<CSharpClass>)
    requires a != [] && IsSubsequence(a, b)
    ensures IsSubsequence(a[..|a| - 1], b)
    decreases |a| + |b|, 0
  {
    assert b != [];
    var b' := b[..|b| - 1];
    assert b' + [b[|b| - 1]] == b;
    if a[|a| - 1] != b[|b| - 1] {
      SubsequenceDropLast(a, b');
    }
    SubsequenceSnoc(a[..|a| - 1], b', b[|b| - 1]);
  }

  lemma {:induction false} SubsequenceOfItself(a: seq<CSharpClass>)
    ensures IsSubsequence(a, a)
    decreases |a|
  {
    if a != [] {
      SubsequenceOfItself(a[..|a| - 1]);
    }
  }

  /** The classes written are the pre-order of the tree with some classes left out. */
  lemma {:induction false} VisitFollowsPreOrder(c: CSharpClass, emitted: set<string>)
    ensures IsSubsequence(Visit(c, emitted).0, PreOrder(c))
    decreases c, 0
  {
    if c.name !in emitted {
      var inside := emitted + {c.name};
      VisitChildrenFollowsPreOrder(c.nestedClasses, |c.nestedClasses|, inside);
      SubsequenceOfItself([c]);
      SubsequenceAppend([c], [c], VisitChildren(c.nestedClasses, |c.nestedClasses|, inside).0,
        PreOrderChildren(c.nestedClasses, |c.nestedClasses|));
    }
  }

  lemma {:induction false} VisitChildrenFollowsPreOrder(cs: seq<CSharpClass>, n: nat, emitted: set<string>)
    requires n <= |cs|
    ensures IsSubsequence(VisitChildren(cs, n, emitted).0, PreOrderChildren(cs, n))
    decreases cs, n
  {
    if n > 0 {
      var mid := VisitChildren(cs, n - 1, emitted).1;
      VisitChildrenFollowsPreOrder(cs, n - 1, emitted);
      VisitFollowsPreOrder(cs[n - 1], mid);
      SubsequenceAppend(VisitChildren(cs, n - 1, emitted).0, PreOrderChildren(cs, n - 1),
        Visit(cs[n - 1], mid).0, PreOrder(cs[n - 1]));
    }
  }

  /** When no name repeats and none was written before, every class is written, in
      pre-order. */
  lemma {:induction false} VisitIsPreOrder(c: CSharpClass, emitted: set<string>)
    requires DistinctNames(PreOrder(c)) && Names(PreOrder(c)) !! emitted
    ensures Visit(c, emitted).0 == PreOrder(c)
    decreases c, 0
  {
    var below := PreOrderChildren(c.nestedClasses, |c.nestedClasses|);
    NamesAppend([c], below);
    assert c.name in Names(PreOrder(c)) by { assert PreOrder(c)[0] == c; }
    DistinctTail([c], below);
    NamesOne(c);
    VisitChildrenIsPreOrder(c.nestedClasses, |c.nestedClasses|, emitted + {c.name});
  }

  lemma {:induction false} VisitChildrenIsPreOrder(cs: seq<CSharpClass>, n: nat, emitted: set<string>)
    requires n <= |cs|
    requires DistinctNames(PreOrderChildren(cs, n)) && Names(PreOrderChildren(cs, n)) !! emitted
    ensures VisitChildren(cs, n, emitted).0 == PreOrderChildren(cs, n)
    decreases cs, n
  {
    if n > 0 {
      var front, back := PreOrderChildren(cs, n - 1), PreOrder(cs[n - 1]);
      NamesAppend(front, back);
      DistinctHead(front, back);
      DistinctTail(front, back);
      VisitChildrenIsPreOrder(cs, n - 1, emitted);
      VisitChildrenWritesNewNames(cs, n - 1, emitted);
      VisitIsPreOrder(cs[n - 1], VisitChildren(cs, n - 1, emitted).1);
    }
  }

  /** The parts of a list with distinct names have distinct names, and none in common. */
  lemma DistinctHead(a: seq<CSharpClass>, b: seq<CSharpClass>)
    requires DistinctNames(a + b)
    ensures DistinctNames(a)
  {
    forall i, j | 0 <= i < j < |a| ensures a[i].name != a[j].name {
      assert (a + b)[i] == a[i] && (a + b)[j] == a[j];
    }
  }

  lemma DistinctTail(a: seq<CSharpClass>, b: seq<CSharpClass>)
    requires DistinctNames(a + b)
    ensures DistinctNames(b) && Names(a) !! Names(b)
  {
    var ab := a + b;
    forall i, j | 0 <= i < j < |b| ensures b[i].name != b[j].name {
      assert ab[|a| + i] == b[i] && ab[|a| + j] == b[j];
    }
    forall i, j | 0 <= i < |a| && 0 <= j < |b| ensures a[i].name != b[j].name {
      assert ab[i] == a[i] && ab[|a| + j] == b[j];
    }
  }

  /** A class whose name was already written is skipped with everything nested in
      it: here the second `A` is skipped, and `C`, nested only in it, is never written. */
  lemma RepeatedNameDropsSubtree()
    ensures var a1 := CSharpClass("A", [], []);
      var a2 := CSharpClass("A", [], [CSharpClass("C", [], [])]);
      var root := CSharpClass("R", [], [a1, a2]);
      Visit(root, {}).0 == [root, a1] && "C" !in Visit(root, {}).1
  {
    var a1 := CSharpClass("A", [], []);
    var a2 := CSharpClass("A", [], [CSharpClass("C", [], [])]);
    var root := CSharpClass("R", [], [a1, a2]);
    var cs := root.nestedClasses;
    assert "A" != "R" by { assert "A"[0] != "R"[0]; }
    var e1, e2 := {} + {"R"}, {} + {"R"} + {"A"};
    assert VisitChildren(cs, 0, e1) == ([], e1);
    assert a1.name !in e1 && |a1.nestedClasses| == 0;
    assert VisitChildren(a1.nestedClasses, 0, e2) == ([], e2);
    assert Visit(a1, e1).0 == [a1];
    assert VisitChildren(cs, 1, e1).0 == [a1];
    assert a2.name in e2;
    assert VisitChildren(cs, 2, e1) == ([a1], e2);
    assert "C" !in e2 by { assert "C"[0] != "R"[0] && "C"[0] != "A"[0]; }
  }

  // ---------------------------------------------------------------------------
  // The shape of a block

  /** The number of line breaks in `s`. */
  function Lines(s: string): nat
  {
    if s == [] then 0 else Lines(s[..|s| - 1]) + (if s[|s| - 1] == '\n' then 1 else 0)
  }

  predicate OneLine(s: string)
  {
    forall i :: 0 <= i < |s| ==> s[i] != '\n'
  }

  lemma {:induction false} LinesAppend(a: string, b: string)
    ensures Lines(a + b) == Lines(a) + Lines(b)
    decreases |b|
  {
    if b == [] {
      assert a + b == a;
    } else {
      assert (a + b)[..|a + b| - 1] == a + b[..|b| - 1];
      LinesAppend(a, b[..|b| - 1]);
    }
  }

  lemma {:induction false} LinesOfOneLine(s: string)
    requires OneLine(s)
    ensures Lines(s) == 0
    decreases |s|
  {
    if s != [] {
      LinesOfOneLine(s[..|s| - 1]);
    }
  }

  lemma TrimOneLine(s: string)
    requires OneLine(s)
    ensures OneLine(Trim(s))
  {
  }

  lemma WordOneLine(u: string)
    requires AllWord(u)
    ensures OneLine(u) && OneLine(u + "[]")
  {
    forall i | 0 <= i < |u| + 2 ensures (u + "[]")[i] != '\n' {
      if i < |u| { assert IsWord(u[i]); }
    }
    forall i | 0 <= i < |u| ensures u[i] != '\n' {
      assert IsWord(u[i]);
    }
  }

  /** A mapped type stays on one line. */
  lemma MapTypeOneLine(s: string)
    requires OneLine(s)
    ensures OneLine(MapType(s))
  {
    TrimOneLine(s);
    match GenericArgument(Trim(s), "List")
    case Some(inner) =>
      MapTypeOfIdentifier(inner);
      TableValuesAreWords(inner);
      WordOneLine(ScalarType(inner));
    case None =>
      TableValuesAreWords(Trim(s));
      if Trim(s) in TypeMap {
        WordOneLine(TypeMap[Trim(s)]);
      }
  }

  /** A camel-cased name stays on one line. */
  lemma CamelCaseOneLine(name: string)
    requires OneLine(name)
    ensures OneLine(ToCamelCase(name))
  {
    var r := ToCamelCase(name);
    forall i | 0 <= i < |r| ensures r[i] != '\n' {
      if i > 0 { assert r[i] == r[1..][i - 1] == name[1..][i - 1] == name[i]; }
    }
  }

  /** The line written from one-line parts is one line. */
  lemma LineOfParts(name: string, kind: string, typ: string)
    requires OneLine(name) && OneLine(typ) && (kind == "?: " || kind == ": ")
    ensures Lines("    " + name + kind + typ + ";" + NewLine) == 1
  {
    var body := "    " + name + kind + typ + ";";
    assert OneLine(body);
    LinesOfOneLine(body);
    LinesAppend(body, NewLine);
  }

  /** A property's line is one line, when its name and type are. */
  lemma PropertyLineIsOneLine(p: CSharpProperty)
    requires OneLine(p.name) && OneLine(p.typeName)
    ensures Lines(PropertyLine(p)) == 1
  {
    MapTypeOneLine(p.typeName);
    CamelCaseOneLine(p.name);
    LineOfParts(ToCamelCase(p.name), if p.isNullable then "?: " else ": ", MapType(p.typeName));
  }

  /** One line per property. */
  lemma {:induction false} PropertyLinesCount(ps: seq<CSharpProperty>)
    requires forall i :: 0 <= i < |ps| ==> OneLine(ps[i].name) && OneLine(ps[i].typeName)
    ensures Lines(PropertyLines(ps)) == |ps|
    decreases |ps|
  {
    if ps != [] {
      PropertyLinesCount(ps[..|ps| - 1]);
      PropertyLineIsOneLine(ps[|ps| - 1]);
      LinesAppend(PropertyLines(ps[..|ps| - 1]), PropertyLine(ps[|ps| - 1]));
    }
  }

  /** A block is a header line, one line per property, a closing line and a blank line. */
  lemma BlockLines(c: CSharpClass)
    requires OneLine(c.name)
    requires forall i :: 0 <= i < |c.properties| ==> OneLine(c.properties[i].name) && OneLine(c.properties[i].typeName)
    ensures Lines(Block(c)) == |c.properties| + 3
  {
    var head := "export interface " + c.name + " {";
    assert OneLine(head);
    LinesOfOneLine(head);
    LinesAppend(head, NewLine);
    assert Header(c.name) == head + NewLine;
    PropertyLinesCount(c.properties);
    LinesAppend(Header(c.name), PropertyLines(c.properties));
    assert Lines(NewLine) == 1 by { assert NewLine[..0] == []; }
    assert Lines("}") == 0 by { assert "}"[..0] == []; }
    LinesAppend("}", NewLine);
    LinesAppend("}" + NewLine, NewLine);
    LinesAppend(Header(c.name) + PropertyLines(c.properties), Footer);
  }
}
