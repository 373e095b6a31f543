/** The TypeScript emitter: one flat `export interface` block per class, written in
    pre-order, skipping any class whose name was already written together with
    everything nested in it. */
module TypeScriptConverter {
  import opened Chars
  import opened RegexPatterns
  import opened Models

  // ---------------------------------------------------------------------------
  // Types and names

  /** `_typeMap`: the C# types with a fixed TypeScript counterpart. */
  const TypeMap: map<string, string> := map["string" := "string", "int" := "number", "long" := "number"]

  /** The table lookup with its fallback: a type without an entry is taken to be a
      class name and kept as it is. */
  function ScalarType(t: string): (r: string)
    ensures r == t || r in TypeMap.Values
    ensures r in TypeMap ==> TypeMap[r] == r
    ensures t != [] && AllWord(t) ==> r != [] && AllWord(r)
  {
    assert "number" !in TypeMap by { assert "number"[0] != "string"[0] && |"number"| != |"int"| && |"number"| != |"long"|; }
    assert AllWord("number") by { assert forall x :: 0 <= x < 6 ==> IsWord("number"[x]); }
    assert AllWord("string") by { assert forall x :: 0 <= x < 6 ==> IsWord("string"[x]); }
    if t in TypeMap then TypeMap[t] else t
  }

  /** `MapType`: the trimmed type; `List<T>` becomes the mapped `T` followed by `[]`.
      The argument of a list is an identifier, so the recursion goes one level deep:
      the result is the table entry of the trimmed type, or the table entry of the
      list's argument, an identifier, followed by one `[]`. */
  function MapType(csharpType: string): (r: string)
    ensures GenericArgument(Trim(csharpType), "List").None? ==> r == ScalarType(Trim(csharpType))
    ensures GenericArgument(Trim(csharpType), "List").Some? ==>
      var u := ScalarType(GenericArgument(Trim(csharpType), "List").value);
      r == u + "[]" && u != [] && AllWord(u)
    decreases |csharpType|
  {
    var t := Trim(csharpType);
    match GenericArgument(t, "List")
    case Some(inner) =>
      WordIsTrimmed(inner);
      GenericArgumentOfWord(inner, "List");
      MapType(inner) + "[]"
    case None => ScalarType(t)
  }

  /** `ToCamelCase`: the first character lower-cased unless it already is lower case. */
  function ToCamelCase(name: string): (r: string)
    ensures |r| == |name|
    ensures name != [] ==> r[0] == ToLower(name[0]) && r[1..] == name[1..]
  {
    if name == [] then name
    else if IsLower(name[0]) then name
    else [ToLower(name[0])] + name[1..]
  }

  // ---------------------------------------------------------------------------
  // The text of one class

  /** The line of one property: `    name: T;` or, when nullable, `    name?: T;`. */
  function PropertyLine(p: CSharpProperty): string
  {
    "    " + ToCamelCase(p.name) + (if p.isNullable then "?: " else ": ") + MapType(p.typeName) + ";" + NewLine
  }

  /** The texts `f(x)` of the elements of `xs`, one after another. */
  function Joined<T>(xs: seq<T>, f: T -> string): string
  {
    if xs == [] then [] else Joined(xs[..|xs| - 1], f) + f(xs[|xs| - 1])
  }

  /** The property lines of `ps`, in order. */
  function PropertyLines(ps: seq<CSharpProperty>): string
  {
    Joined(ps, PropertyLine)
  }

  /** The first line of a block. */
  function Header(name: string): string
  {
    "export interface " + name + " {" + NewLine
  }

  /** The closing brace and the blank line after a block. */
  const Footer: string := "}" + NewLine + NewLine

  /** The block of one class, without its nested classes. */
  function Block(c: CSharpClass): string
  {
    Header(c.name) + PropertyLines(c.properties) + Footer
  }

  /** The blocks of `cs`, in order. */
  function Blocks(cs: seq<CSharpClass>): string
  {
    Joined(cs, Block)
  }

  // ---------------------------------------------------------------------------
  // Which classes are written

  /** The classes `AppendClass(c)` writes, in order, when the names in `emitted` are
      already written, and the names written afterwards. */
  function Visit(c: CSharpClass, emitted: set<string>): (r: (seq<CSharpClass>, set<string>))
    ensures emitted <= r.1
    ensures r.0 == [] <==> c.name in emitted
    ensures r.0 != [] ==> r.0[0] == c && c.name in r.1
    decreases c, 0
  {
    if c.name in emitted then ([], emitted)
    else
      var (below, after) := VisitChildren(c.nestedClasses, |c.nestedClasses|, emitted + {c.name});
      ([c] + below, after)
  }

  /** The classes written by visiting `cs[..n]` in turn. */
  function VisitChildren(cs: seq<CSharpClass>, n: nat, emitted: set<string>): (r: (seq<CSharpClass>, set<string>))
    requires n <= |cs|
    ensures emitted <= r.1
    decreases cs, n
  {
    if n == 0 then ([], emitted)
    else
      var (before, mid) := VisitChildren(cs, n - 1, emitted);
      var (last, after) := Visit(cs[n - 1], mid);
      (before + last, after)
  }

  /** The number of classes in the tree of `c`, counting `c`. */
  function Size(c: CSharpClass): nat
    decreases c, 0
  {
    1 + Sizes(c.nestedClasses, |c.nestedClasses|)
  }

  /** The number of classes in the trees of `cs[..n]`. */
  function Sizes(cs: seq<CSharpClass>, n: nat): nat
    requires n <= |cs|
    decreases cs, n
  {
    if n == 0 then 0 else Sizes(cs, n - 1) + Size(cs[n - 1])
  }

  /** One tree holds no more classes than the list of trees it is in. */
  lemma {:induction false} SizeOfChild(cs: seq<CSharpClass>, n: nat, j: nat)
    requires j < n <= |cs|
    ensures Size(cs[j]) <= Sizes(cs, n)
    decreases n
  {
    if j < n - 1 {
      SizeOfChild(cs, n - 1, j);
    }
  }

  /** `ConvertClasses`: the output for a root class, or for none. */
  function Convert(root: Option<CSharpClass>): string
  {
    match root
    case None => ""
    case Some(c) => Blocks(Visit(c, {}).0)
  }

  // ---------------------------------------------------------------------------
  // The converter's methods

  /** The string builder and the set of names written so far. `block` is the text
      written for one class's own lines; it is `Block`, but the methods that only
      decide which blocks come in which order see it through `WritesBlocks` alone. */
  class Emitter {
    var text: string
    var emitted: set<string>
    ghost const block: CSharpClass -> string

    constructor ()
      ensures text == "" && emitted == {} && block == Block
    {
      text := "";
      emitted := {};
      block := Block;
    }

    /** `block` agrees with `Block` wherever `Block` is looked at. */
    ghost predicate WritesBlocks()
    {
      forall c {:trigger Block(c)} :: block(c) == Block(c)
    }

    /** `AppendClass`. */
    method AppendClass(c: CSharpClass)
      requires WritesBlocks()
      modifies this
      ensures text == old(text) + Joined(Visit(c, old(emitted)).0, block)
      ensures emitted == Visit(c, old(emitted)).1
      decreases Size(c), 1
    {
      if c.name in emitted {
        return;
      }
      emitted := emitted + {c.name};
      AppendBlock(c);
      AppendNestedClasses(c.nestedClasses);
      ghost var below := VisitChildren(c.nestedClasses, |c.nestedClasses|, old(emitted) + {c.name}).0;
      JoinedCons(c, below, block);
      Associative(old(text), block(c), Joined(below, block));
    }

    /** The header, property and closing lines `AppendClass` writes for `c` itself. */
    method AppendBlock(c: CSharpClass)
      requires WritesBlocks()
      modifies this
      ensures text == old(text) + block(c)
      ensures emitted == old(emitted)
    {
      text := text + Header(c.name);
      ghost var head := text;
      var i := 0;
      while i < |c.properties|
        invariant i <= |c.properties|
        invariant text == head + PropertyLines(c.properties[..i])
        invariant emitted == old(emitted)
      {
        JoinedStep(c.properties, i, PropertyLine);
        Associative(head, PropertyLines(c.properties[..i]), PropertyLine(c.properties[i]));
        text := text + PropertyLine(c.properties[i]);
        i := i + 1;
      }
      assert c.properties[..i] == c.properties;
      Associative(old(text), Header(c.name), PropertyLines(c.properties));
      Associative(old(text), Header(c.name) + PropertyLines(c.properties), Footer);
      text := text + Footer;
      assert block(c) == Block(c);
    }

    /** The loop of `AppendClass` over the nested classes. */
    method AppendNestedClasses(cs: seq<CSharpClass>)
      requires WritesBlocks()
      modifies this
      ensures text == old(text) + Joined(VisitChildren(cs, |cs|, old(emitted)).0, block)
      ensures emitted == VisitChildren(cs, |cs|, old(emitted)).1
      decreases Sizes(cs, |cs|), 2
    {
      ghost var t0, e0 := text, emitted;
      var j := 0;
      while j < |cs|
        invariant WroteChildren(cs, j, e0, t0, text, emitted, block)
      {
        ghost var before, seen := text, emitted;
        SizeOfChild(cs, |cs|, j);
        AppendClass(cs[j]);
        NextChildText(cs, j, e0, t0, before, seen, text, emitted, block);
        j := j + 1;
      }
    }
  }

  /** After the first `j` nested classes of `cs`, the text `t` and the set `e` are
      what visiting them appends to `t0` and leaves in `e0`. */
  predicate WroteChildren(cs: seq<CSharpClass>, j: nat, e0: set<string>, t0: string, t: string, e: set<string>, block: CSharpClass -> string)
  {
    j <= |cs| && t == t0 + Joined(VisitChildren(cs, j, e0).0, block) && e == VisitChildren(cs, j, e0).1
  }

  /** Visiting one more nested class writes its classes after the earlier ones. */
  lemma NextChild(cs: seq<CSharpClass>, j: nat, emitted: set<string>, block: CSharpClass -> string)
    requires j < |cs|
    ensures Joined(VisitChildren(cs, j + 1, emitted).0, block)
      == Joined(VisitChildren(cs, j, emitted).0, block) + Joined(Visit(cs[j], VisitChildren(cs, j, emitted).1).0, block)
    ensures VisitChildren(cs, j + 1, emitted).1 == Visit(cs[j], VisitChildren(cs, j, emitted).1).1
  {
    JoinedAppend(VisitChildren(cs, j, emitted).0, Visit(cs[j], VisitChildren(cs, j, emitted).1).0, block);
  }

  /** The same, for the text and the set of names held before and after the class is visited. */
  lemma NextChildText(cs: seq<CSharpClass>, j: nat, emitted: set<string>, t0: string, t: string, e: set<string>, t': string, e': set<string>, block: CSharpClass -> string)
    requires j < |cs| && WroteChildren(cs, j, emitted, t0, t, e, block)
    requires t' == t + Joined(Visit(cs[j], e).0, block) && e' == Visit(cs[j], e).1
    ensures WroteChildren(cs, j + 1, emitted, t0, t', e', block)
  {
    NextChild(cs, j, emitted, block);
    Associative(t0, Joined(VisitChildren(cs, j, emitted).0, block), Joined(Visit(cs[j], e).0, block));
  }

  /** `ConvertClasses`: a fresh builder and a fresh set for every call. */
  method ConvertClasses(rootClass: Option<CSharpClass>) returns (s: string)
    ensures rootClass.None? ==> s == ""
    ensures s == Convert(rootClass)
  {
    var e := new Emitter();
    if rootClass.Some? {
      e.AppendClass(rootClass.value);
    }
    s := e.text;
  }

  /** Joining a concatenation joins each part. */
  lemma {:induction false} JoinedAppend<T>(a: seq<T>, b: seq<T>, f: T -> string)
    ensures Joined(a + b, f) == Joined(a, f) + Joined(b, f)
    decreases |b|
  {
    if b == [] {
      assert a + b == a;
    } else {
      assert (a + b)[..|a + b| - 1] == a + b[..|b| - 1];
      JoinedAppend(a, b[..|b| - 1], f);
    }
  }

  /** Regrouping appends to the builder, proved once over plain strings so that the
      methods above do not have to prove it with their block functions in view. */
  lemma Associative(a: string, b: string, c: string)
    ensures a + (b + c) == (a + b) + c
  {
  }

  /** A first element puts its text in front. */
  lemma JoinedCons<T>(x: T, xs: seq<T>, f: T -> string)
    ensures Joined([x] + xs, f) == f(x) + Joined(xs, f)
  {
    JoinedAppend([x], xs, f);
    assert [x][..0] == [];
  }

  /** One more element adds its text at the end. */
  lemma JoinedStep<T>(xs: seq<T>, i: nat, f: T -> string)
    requires i < |xs|
    ensures Joined(xs[..i + 1], f) == Joined(xs[..i], f) + f(xs[i])
  {
    assert xs[..i + 1][..i] == xs[..i];
  }
}
