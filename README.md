# Netstrata core in Dafny

Netstrata turns the text of a C# class (possibly with nested classes) into
TypeScript `export interface` declarations. This project models its two working
parts and proves what they promise:

- **`CSharpClassParser`** finds the first `class Name` boundary of the input.
  - It locates the class body by counting brace depth (`FindMatchingBrace`).
  - It parses the *direct* nested classes at their absolute offsets. A class
    boundary inside an already accepted nested range is skipped.
  - It collects the `public T Name { get; set; }` properties that lie outside
    every nested range.
  - It normalises `T?` and `Nullable<T>` to `T` with a nullable flag.
- **`TypeScriptConverter`** walks the class tree in pre-order and writes one
  flat interface block per class.
  - A class whose name was already written is skipped, together with
    everything nested in it.
  - It trims the type. `List<X>`, for an identifier `X` with or without
    whitespace around it, becomes the mapping of `X` followed by `[]`, so
    `List<int>` gives `number[]`. `string` stays `string`; `int` and `long`
    become `number`. Any other trimmed type is kept as a class name.
  - It lower-cases the first letter of property names.
- **`RegexPatterns`**: the two recognisers `ClassRegex` and `PropertyRegex`
  define what counts as a class boundary and as a property declaration.
- **`Models`**: `CSharpClass` and `CSharpProperty` form the tree passed from
  the parser to the converter.

Modules:

- `Chars` holds the character classes, `Trim`, and the run scanners the
  recognisers are built from.
- `RegexPatterns` writes both regexes as forward scanners.
  - For `ClassRegex` it proves exactly what the pattern accepts.
  - For `PropertyRegex` it proves that every match found is a parse of the
    pattern in the text (`PatternParse`). Conversely, wherever the text parses
    as the pattern, a match is found at that offset with the same name and
    end, and with the type group the backtracking engine settles on.
  - The match lists are complete: every offset at which a pattern matches lies
    inside a listed match.
  - It also holds the anchored `^Head<\s*(\w+)\s*>$` matcher, proved to
    capture exactly the padded identifier. The parser uses it for
    `Nullable<T>` and the converter for `List<T>`.
- `Models` holds the tree as datatypes. The source fills a class's two
  get-only lists while that class is being parsed and never touches them
  afterwards, so a finished class is a value.
- `CSharpClassParser` has a specification function for each operation:
  - `MatchingBrace` for `FindMatchingBrace`;
  - `ClassTree` and `NestedRanges` for `ParseClassAt` and `ParseNestedClasses`;
  - `KeptProperties` for `ParseProperties`;
  - `Parse` for `ParseClasses`.

  The source's loops are methods, each proved equal to its function. Together
  the methods are mutually recursive, exactly as `ParseClassAt` and
  `ParseNestedClasses` are in the source. The recursion terminates because a
  nested keyword always lies after the keyword of the class that contains it.
  `CSharpClassParserLemmas` proves the properties of the parse.
- `TypeScriptConverter` has the following parts:
  - `MapType` and `ToCamelCase` are functions.
  - `Visit` and `Convert` specify which classes are written, and in what order.
  - The class `Emitter` holds the `StringBuilder` (a `string` field) and the
    emitted-name `HashSet` (a `set` field). Its methods `AppendClass`,
    `AppendBlock` and `AppendNestedClasses` are proved to append exactly the
    specified blocks.

  `TypeScriptConverterLemmas` proves pre-order, uniqueness of names, the shape
  of a block and the laws of `MapType` and `ToCamelCase`.

Where the code and its documentation or tests disagree, the model follows the code:

- `ParseClasses` returns no class (`null`) when the input holds no class
  boundary. The test `ParseClasses_NoClass_ThrowsFormatException`
  (Netstrata.Tests/Utilities/Parsers/CSharpClassParserTests.cs:49-58) expects
  a `FormatException`. `Parse` answers `Ok(None)` exactly when no offset holds
  a class match.
- The documentation describes a nested class's range as lying inside its
  parent's body. The code does not guarantee that: `IndexOf('{')` searches
  from the nested keyword to the end of the whole text. A nested class
  without its own `{` before the parent's `}` therefore takes a later brace.
  The model proves only what the code ensures:
  - accepted ranges are ordered and disjoint;
  - each one starts at or after the start of the body and ends before the
    end of the text;
  - every offset of the body at which the class pattern matches lies inside
    one of them (`AcceptedRangesCover`).
- The documentation says that, of two classes with the same name, the first
  one met in pre-order is written. The code returns before visiting the
  nested classes of a skipped class, so nothing nested in a skipped class is
  written from there. In `R[A, A[C]]` the class `C`, which occurs only under
  the skipped `A`, is never written (`RepeatedNameDropsSubtree`).
- The comment on `CSharpProperty.Type` (Netstrata/Models/CSharpProperty.cs:6)
  speaks of TypeScript types. The parser stores the normalised C# type, for
  example `List<int>` or `long` (`DeclaredListProperty`,
  `DeclaredNullableProperty`).

## Model

Some specification functions have no contract of their own and are stated
through the lemmas about them:

- `NestedRanges`, through `NestedRangesSkip`, `NestedRangesParseErr`,
  `NestedRangesParseOk`, `AcceptedRangesOrdered` and `AcceptedRangesCover`;
- `Convert`, through `ConvertClasses` and the `Visit` lemmas;
- `Block`, `Header`, `Footer`, `PropertyLine` and `PropertyLines`, through
  `AppendBlock`, `BlockLines`, `PropertyLinesCount` and `PropertyLineIsOneLine`;
- the table `TypeMap`, through `ScalarType` and `TableValuesAreWords`;
- the datatypes `CSharpClass` and `CSharpProperty` of `Models`, through every
  row that builds or reads them.

| member | source | states |
|---|---|---|
| Chars.Trim | Netstrata/Utilities/Parsers/CSharpClassParser.cs:84-85 | `string.Trim()`: the result is a slice `s[a..b]` of the input with only whitespace outside it and none at either of its ends, so it is the input without its leading and trailing whitespace; a trimmed string is unchanged |
| Chars.ToLower | Netstrata/Utilities/Parsers/TypeScriptConverter.cs:77 | `char.ToLowerInvariant` on ASCII: an upper-case letter becomes the lower-case letter at the same place in the alphabet, any other character is unchanged, and the result is never upper case |
| RegexPatterns.ClassMatchAt | Netstrata/Utilities/RegexPatterns.cs:8 | a match of `class\s+(\w+)` at offset `i` starts at `i` and has the shape `IsClassMatch`: `class`, at least one whitespace character, then a maximal non-empty word run captured as the name |
| RegexPatterns.ClassMatchAtComplete | Netstrata/Utilities/RegexPatterns.cs:8 | conversely, every span of that shape is the match found at its offset, so `IsClassMatch` describes the class boundaries exactly |
| RegexPatterns.ClassMatchFrom | Netstrata/Utilities/Parsers/CSharpClassParser.cs:13 | `Regex.Match(s, from)`: the result is a match at the smallest offset at or after `from` that holds one, and none exactly when no offset from there holds one |
| RegexPatterns.ClassMatches | Netstrata/Utilities/Parsers/CSharpClassParser.cs:64 | `Regex.Matches`: class matches in text order, each ending before the next starts (for completeness see `ClassMatchesComplete`) |
| RegexPatternsLemmas.ClassMatchesComplete | Netstrata/Utilities/Parsers/CSharpClassParser.cs:64 | the list misses no class boundary: every offset from `from` on at which `class\s+(\w+)` matches lies inside a listed match |
| RegexPatterns.ClassMatchInWindow | Netstrata/Utilities/Parsers/CSharpClassParser.cs:64-66 | a class match found in a window of the text (a class body) is a match of the whole text at the shifted offset with the same name, when the window is closed by a non-word character |
| RegexPatternsLemmas.SubclassIsBoundary | Netstrata/Utilities/RegexPatterns.cs:8 | there is no word boundary before `class`: `subclass Foo` holds a class boundary at offset 3 named `Foo` |
| RegexPatterns.AccessorEnd | Netstrata/Utilities/RegexPatterns.cs:13 | the accessor block `{\s*get;\s*set;\s*}` at `q`, when present, starts with `{` at `q` and ends with `}` inside the text |
| RegexPatterns.AccessorEndIsLayout | Netstrata/Utilities/RegexPatterns.cs:13 | a block found is, in the text, `{`, whitespace, `get;`, whitespace, `set;`, whitespace and `}` |
| RegexPatterns.AccessorEndOfLayout | Netstrata/Utilities/RegexPatterns.cs:13 | conversely, text of that layout at `q` is an accessor block that ends just after its `}` |
| RegexPatternsLemmas.AccessorOfCanonical | Netstrata/Utilities/RegexPatterns.cs:13 | `{ get; set; }` written with single spaces is an accessor block ending just after its `}` |
| RegexPatterns.PropertySpansAt | Netstrata/Utilities/RegexPatterns.cs:13 | the type and name groups the backtracking pattern settles on after `public\s+` lie in order, the type group made of `[\w?<>\[\]\s]` and the name of word characters |
| RegexPatterns.PropertySpansAtGaps | Netstrata/Utilities/RegexPatterns.cs:13 | the groups found are separated as the pattern asks: whitespace after `public` and between the groups (at least one character each), and any whitespace before the `{` |
| RegexPatternsLemmas.PropertySpansAtGreedy | Netstrata/Utilities/RegexPatterns.cs:13 | wherever the text after `public` parses as `\s+(type)\s+(\w+)\s*` before a `{`, the groups found have that parse's name and `{`, and a type group that starts and ends no earlier: the greedy choice of the backtracking engine |
| RegexPatterns.PropertyMatchAt | Netstrata/Utilities/RegexPatterns.cs:12-13 | a property match at `i` starts with `public`, has a non-empty type group of type characters and a non-empty word name |
| RegexPatternsLemmas.PropertyMatchAtIsParse | Netstrata/Utilities/RegexPatterns.cs:12-13 | every property match is a parse of the pattern in the text: `public`, then whitespace, the type group and the name as slices of the text, whitespace, and an accessor block ending where the match ends |
| RegexPatternsLemmas.PropertyMatchAtComplete | Netstrata/Utilities/RegexPatterns.cs:12-13 | conversely, wherever the text parses as the pattern, a match is found at that offset with that parse's name and end and a type group ending no earlier |
| RegexPatterns.PropertyMatchFrom | Netstrata/Utilities/RegexPatterns.cs:12-13 | the match found from `from` is a property match at its offset, at or after `from` (that it is the leftmost is `PropertyMatchFromIsLeftmost`) |
| RegexPatterns.PropertyMatchFromIsLeftmost | Netstrata/Utilities/RegexPatterns.cs:12-13 | no offset between `from` and the match found holds a property match, and none at all holds one when none is found: the leftmost match, as `Regex.Match` finds it |
| RegexPatterns.PropertyMatches | Netstrata/Utilities/Parsers/CSharpClassParser.cs:78 | `PropertyRegex.Matches(body)`: property matches in text order, each ending before the next starts (for completeness see `PropertyMatchesComplete`) |
| RegexPatternsLemmas.PropertyMatchesComplete | Netstrata/Utilities/Parsers/CSharpClassParser.cs:78 | the list misses no declaration: every offset from `from` on at which the property pattern matches lies inside a listed match |
| RegexPatternsLemmas.DeclarationSpans | Netstrata/Utilities/RegexPatterns.cs:13 | in `public T N { get; set; }` the groups found are exactly the type `T` and the name `N` |
| RegexPatternsLemmas.DeclarationMatchesAt | Netstrata/Utilities/RegexPatterns.cs:12-13 | that declaration is a property match from its start to its end, with type group `T` and name group `N` |
| RegexPatternsLemmas.DeclarationMatches | Netstrata/Utilities/RegexPatterns.cs:12-13 | and it is the only property match of that text |
| RegexPatternsLemmas.PromisedTypesMatch | Netstrata/Utilities/RegexPatterns.cs:10-13 | the types the pattern's comment promises, `List<Address>`, `long?` and `Nullable<int>`, are accepted: the declaration yields one match with that type group |
| RegexPatternsLemmas.ForeignCharacterRulesOut | Netstrata/Utilities/RegexPatterns.cs:13 | a character outside the type class between `public` and the accessor's `{` rules out a property match at that `public` |
| RegexPatternsLemmas.ForeignTypeCharacter | Netstrata/Utilities/RegexPatterns.cs:13 | a declared type holding such a character yields no property match |
| RegexPatternsLemmas.DictionaryIsSkipped | Netstrata/Utilities/RegexPatterns.cs:13 | `public Dictionary<string,int> Map { get; set; }` is not a property: the comma is outside the type class, so the declaration is silently dropped |
| RegexPatterns.GenericArgument | Netstrata/Utilities/Parsers/CSharpClassParser.cs:95 | `^Head<\s*(\w+)\s*>$` on a trimmed string: when it matches, the string starts with `Head<`, ends with `>` and the captured argument is a non-empty identifier shorter than the string |
| RegexPatterns.GenericArgumentIsGroup | Netstrata/Utilities/Parsers/CSharpClassParser.cs:95 | the captured argument is the identifier between `Head<` and `>`, with only whitespace around it |
| RegexPatterns.GenericArgumentOfPadded | Netstrata/Utilities/Parsers/CSharpClassParser.cs:95-99 | conversely, `Head<`, an identifier padded with whitespace, and `>` is matched with that identifier captured |
| RegexPatterns.GenericArgumentOfWrapped | Netstrata/Utilities/Parsers/CSharpClassParser.cs:95-99 | `Head<T>` for an identifier `T` is matched with `T` captured |
| RegexPatterns.GenericArgumentOfWord | Netstrata/Utilities/Parsers/TypeScriptConverter.cs:59-60 | an identifier never matches `Head<...>` |
| CSharpClassParser.FirstBalanced | Netstrata/Utilities/Parsers/CSharpClassParser.cs:119-129 | the first position from `i` at which the brace depth counted from the start returns to zero, the depth being non-zero at every position before it; -1 when it never does |
| CSharpClassParser.MatchingBrace | Netstrata/Utilities/Parsers/CSharpClassParser.cs:114-130 | -1 unless the start holds a `{`; otherwise -1 or a position of the text at or after the start (which position is stated by `MatchingBraceIsFirstBalancedClose`) |
| CSharpClassParser.MatchingBraceIsFirstBalancedClose | Netstrata/Utilities/Parsers/CSharpClassParser.cs:114-129 | -1 for a start out of range or not on `{`; otherwise the answer is a `}` after the start where the depth is zero and was positive at every earlier position, and -1 means the depth stays positive to the end of the text |
| CSharpClassParser.FindMatchingBrace | Netstrata/Utilities/Parsers/CSharpClassParser.cs:114-130 | the depth-counting loop returns exactly `MatchingBrace(text, startIndex)` (loop invariant: the counter is the depth of the text scanned so far) |
| CSharpClassParser.IndexOf | Netstrata/Utilities/Parsers/CSharpClassParser.cs:51 | `string.IndexOf(c, from)`: the first position at or after `from` holding `c`, or -1 when no such position exists |
| CSharpClassParser.FindClassMatch | Netstrata/Utilities/Parsers/CSharpClassParser.cs:41-47 | the class match at the given offset, which starts there; its name is the captured group |
| CSharpClassParser.FindClassMatchFinds | Netstrata/Utilities/Parsers/CSharpClassParser.cs:41-47 | at the offset of any class match, `FindClassMatch` finds that very match |
| CSharpClassParser.FindClassMatchIsLeftmost | Netstrata/Utilities/Parsers/CSharpClassParser.cs:43-45 | the leftmost match from an offset that holds a match is the match at that offset, so the `ArgumentException` is never thrown |
| CSharpClassParser.ExtractClassBody | Netstrata/Utilities/Parsers/CSharpClassParser.cs:49-59 | a missing opening brace is reported exactly when no `{` follows the keyword; both errors carry the class name; on success the `{` is the first one after the keyword, the depth from it is back to zero at the `}`, and the body is the text strictly between them |
| CSharpClassParser.ExtractClassBodyMatchesBraces | Netstrata/Utilities/Parsers/CSharpClassParser.cs:49-59 | the `}` is the brace matching that first `{`: `FindMatchingBrace`'s answer, with the depth positive before it. A missing closing brace is reported exactly when the depth from that first `{` stays positive to the end of the text |
| CSharpClassParser.ClassBodyIsBodyAt | Netstrata/Utilities/Parsers/CSharpClassParser.cs:55-57 | the body starts after the `{`, has length `braceClose - braceOpen - 1` and is closed by the `}` |
| CSharpClassParser.ShiftedClassMatch | Netstrata/Utilities/Parsers/CSharpClassParser.cs:66-69 | a class match of the body moved by `classBodyStart` is a class match of the whole source, so the recursive `ParseClassAt` finds its class |
| CSharpClassParser.Classes | Netstrata/Utilities/Parsers/CSharpClassParser.cs:35-36 | one nested class per accepted range |
| CSharpClassParser.ClassTree | Netstrata/Utilities/Parsers/CSharpClassParser.cs:24-39 | a parsed class carries the captured name, and its end index is the `}` matching the first `{` after its keyword |
| CSharpClassParser.ClassInBody | Netstrata/Utilities/Parsers/CSharpClassParser.cs:30-38 | the class built from a body carries the given name and ends at the body's `}` |
| CSharpClassParser.ClassFromMatches | Netstrata/Utilities/Parsers/CSharpClassParser.cs:30-38 | the class built from given matches of a body carries the given name and ends at the body's `}` |
| CSharpClassParser.ClassInBodyIsAssembled | Netstrata/Utilities/Parsers/CSharpClassParser.cs:30-38 | the class of a body is assembled from the nested ranges of the body's class matches and from its property matches |
| CSharpClassParser.Assemble | Netstrata/Utilities/Parsers/CSharpClassParser.cs:30-38 | the class fails exactly when its nested classes fail, with the same error, and otherwise has the given name and closing brace |
| CSharpClassParser.ClassTreeExtracted | Netstrata/Utilities/Parsers/CSharpClassParser.cs:26-32 | an error from `ExtractClassBody` is the error of the whole class; otherwise the `{` lies after the keyword and the class is built from that body |
| CSharpClassParser.NestedRangesSkip | Netstrata/Utilities/Parsers/CSharpClassParser.cs:66-68 | a match covered by an accepted range is skipped |
| CSharpClassParser.NestedRangesParseErr | Netstrata/Utilities/Parsers/CSharpClassParser.cs:69 | an uncovered match whose class fails to parse aborts the nested classes with that error |
| CSharpClassParser.NestedRangesParseOk | Netstrata/Utilities/Parsers/CSharpClassParser.cs:69-70 | an uncovered match whose class parses adds the range from its keyword to its closing brace, with its tree |
| CSharpClassParser.KeptProperties | Netstrata/Utilities/Parsers/CSharpClassParser.cs:75-109 | no more properties than property matches |
| CSharpClassParser.NormalizeType | Netstrata/Utilities/Parsers/CSharpClassParser.cs:87-100 | the normalised type is never longer than the raw type, and the property is nullable exactly when the type was rewritten |
| CSharpClassParser.PropertyOf | Netstrata/Utilities/Parsers/CSharpClassParser.cs:84-106 | the property's type is the trimmed type group normalised, nullable exactly when normalising rewrote it; neither name nor type is longer than its group |
| CSharpClassParser.KeptPropertiesStep | Netstrata/Utilities/Parsers/CSharpClassParser.cs:78-107 | one more match adds its property at the end exactly when no accepted range covers its absolute offset |
| CSharpClassParser.ParseProperties | Netstrata/Utilities/Parsers/CSharpClassParser.cs:75-109 | returns exactly `KeptProperties` of the body's property matches |
| CSharpClassParser.CollectProperties | Netstrata/Utilities/Parsers/CSharpClassParser.cs:77-108 | the filtering loop returns `KeptProperties` of the matches (loop invariant over the prefix) |
| CSharpClassParser.ParseNestedClasses | Netstrata/Utilities/Parsers/CSharpClassParser.cs:61-73 | returns exactly `NestedRanges` of the body's class matches, from no accepted range |
| CSharpClassParser.AcceptNestedClasses | Netstrata/Utilities/Parsers/CSharpClassParser.cs:63-72 | the loop returns `NestedRanges` from the first match, stopping at the first error |
| CSharpClassParser.AcceptNestedClass | Netstrata/Utilities/Parsers/CSharpClassParser.cs:64-71 | one iteration: an error is the result of the whole loop, otherwise the loop continues from the new ranges |
| CSharpClassParser.AcceptUncoveredClass | Netstrata/Utilities/Parsers/CSharpClassParser.cs:66-70 | an uncovered match is parsed at its absolute offset and its range appended |
| CSharpClassParser.AddNestedClasses | Netstrata/Utilities/Parsers/CSharpClassParser.cs:35-36 | the copy loop adds the tree of each accepted range, in order |
| CSharpClassParser.ParseClassAt | Netstrata/Utilities/Parsers/CSharpClassParser.cs:24-39 | returns exactly `ClassTree` of the class match at the given offset |
| CSharpClassParser.ParseClassBody | Netstrata/Utilities/Parsers/CSharpClassParser.cs:30-38 | the nested classes first, then the properties outside them: exactly `ClassInBody` |
| CSharpClassParser.Parse | Netstrata/Utilities/Parsers/CSharpClassParser.cs:11-18 | no class (`null`) exactly when no offset holds a class match; otherwise the root is named after the first class match of the input |
| CSharpClassParser.ParseClasses | Netstrata/Utilities/Parsers/CSharpClassParser.cs:11-18 | returns exactly `Parse(input)` |
| CSharpClassParserLemmas.MatchesIncrease | Netstrata/Utilities/Parsers/CSharpClassParser.cs:64 | the offsets of successive class matches strictly increase |
| CSharpClassParserLemmas.UncoveredIsAfter | Netstrata/Utilities/Parsers/CSharpClassParser.cs:66-68 | an uncovered match that every accepted range starts before lies after the end of every accepted range |
| CSharpClassParserLemmas.OrderedAppend | Netstrata/Utilities/Parsers/CSharpClassParser.cs:70 | appending a range that starts after every accepted range ends keeps the ranges ordered |
| CSharpClassParserLemmas.AcceptKeepsOrder | Netstrata/Utilities/Parsers/CSharpClassParser.cs:66-70 | accepting the range of an uncovered match keeps the ranges ordered, inside the text, and starting before the next match |
| CSharpClassParserLemmas.AcceptedRange | Netstrata/Utilities/Parsers/CSharpClassParser.cs:66-70 | the accepted range starts at the absolute offset of its match and ends at a later `}` inside the text |
| CSharpClassParserLemmas.NestedRangesOrdered | Netstrata/Utilities/Parsers/CSharpClassParser.cs:61-73 | the loop only appends to the accepted ranges, and keeps them ordered and inside the text |
| CSharpClassParserLemmas.AcceptedRangesOrdered | Netstrata/Utilities/Parsers/CSharpClassParser.cs:61-73 | the accepted nested ranges of a body are non-empty, strictly increasing and disjoint (each starts after the previous one ends), start at or after the start of the body and end inside the text |
| CSharpClassParserLemmas.CoverSkipCase | Netstrata/Utilities/Parsers/CSharpClassParser.cs:67-68 | a match covered by an earlier range stays covered in the outcome |
| CSharpClassParserLemmas.CoverAcceptCase | Netstrata/Utilities/Parsers/CSharpClassParser.cs:69-70 | an accepted match is covered by its own range |
| CSharpClassParserLemmas.NestedRangesCover | Netstrata/Utilities/Parsers/CSharpClassParser.cs:64-71 | every class match from the current one on ends up inside an accepted range |
| CSharpClassParserLemmas.NestedRangesEndOnBrace | Netstrata/Utilities/Parsers/CSharpClassParser.cs:61-73 | every accepted range ends on the `}` that closes its class |
| CSharpClassParserLemmas.CoveredInsideMatch | Netstrata/Utilities/Parsers/CSharpClassParser.cs:64-68 | an offset inside a class match whose start a range covers is covered too: the range ends on a `}` and a class match holds none |
| CSharpClassParserLemmas.AcceptedRangesCover | Netstrata/Utilities/Parsers/CSharpClassParser.cs:61-73 | every offset of a body at which `class\s+(\w+)` matches is the start of a direct nested class or lies inside one, so a grandchild is attached to its own parent only |
| CSharpClassParserLemmas.ClassesInOrder | Netstrata/Utilities/Parsers/CSharpClassParser.cs:35-36 | the `k`-th nested class is the tree of the `k`-th accepted range |
| CSharpClassParserLemmas.NestedKeywordsAdvance | Netstrata/Utilities/Parsers/CSharpClassParser.cs:51-69 | every class boundary of a body, at its absolute offset, lies after the keyword of the enclosing class, which bounds the recursion |
| CSharpClassParserLemmas.KeptPropertiesIsKeptBy | Netstrata/Utilities/Parsers/CSharpClassParser.cs:78-106 | the property filter is a filter on the matches followed by `PropertyOf` on each kept match |
| CSharpClassParserLemmas.KeptByAppend | Netstrata/Utilities/Parsers/CSharpClassParser.cs:78-108 | filtering a concatenation filters each part |
| CSharpClassParserLemmas.KeptIndices | Netstrata/Utilities/Parsers/CSharpClassParser.cs:80-82 | the positions of the kept matches are positions of matches |
| CSharpClassParserLemmas.KeptIndicesAreUncovered | Netstrata/Utilities/Parsers/CSharpClassParser.cs:80-82 | a match is kept exactly when no accepted range covers its absolute offset, and the kept positions strictly increase |
| CSharpClassParserLemmas.KeptByIndices | Netstrata/Utilities/Parsers/CSharpClassParser.cs:78-108 | the `j`-th property kept is the property of the `j`-th uncovered match, so the properties keep their order in the body |
| CSharpClassParserLemmas.NothingCoveredKeepsAll | Netstrata/Utilities/Parsers/CSharpClassParser.cs:80-82 | with no nested class every property match is kept |
| CSharpClassParserLemmas.IdentifierIsKept | Netstrata/Utilities/Parsers/CSharpClassParser.cs:84-100 | a plain identifier is kept as it is and is not nullable |
| CSharpClassParserLemmas.TrailingQuestionMark | Netstrata/Utilities/Parsers/CSharpClassParser.cs:90-94 | `T?` becomes `T`, nullable |
| CSharpClassParserLemmas.NullableGeneric | Netstrata/Utilities/Parsers/CSharpClassParser.cs:95-100 | `Nullable<T>` becomes `T`, nullable |
| CSharpClassParserLemmas.NullableGenericQuestionMark | Netstrata/Utilities/Parsers/CSharpClassParser.cs:90-100 | `Nullable<T>?` also becomes `T`, nullable |
| CSharpClassParserLemmas.QuestionMarkOnlySetsNullable | Netstrata/Utilities/Parsers/CSharpClassParser.cs:90-100 | adding `?` to a trimmed type not already ending in `?` leaves the normalised type unchanged and makes it nullable |
| CSharpClassParserLemmas.ListIsKept | Netstrata/Utilities/Parsers/CSharpClassParser.cs:95-100 | `List<T>` is kept as written and is not nullable |
| CSharpClassParserLemmas.DeclaredProperty | Netstrata/Utilities/Parsers/CSharpClassParser.cs:78-106 | a body holding one declaration `public T N { get; set; }` and no nested class yields exactly one property: name `N`, with the normalised type and flag of `T` |
| CSharpClassParserLemmas.DeclaredPlainProperty | Netstrata/Utilities/Parsers/CSharpClassParser.cs:101-106 | `public T N { get; set; }` yields the property `N` of type `T`, not nullable |
| CSharpClassParserLemmas.DeclaredOptionalProperty | Netstrata/Utilities/Parsers/CSharpClassParser.cs:90-106 | `public T? N { get; set; }` yields `N` of type `T`, nullable |
| CSharpClassParserLemmas.DeclaredNullableProperty | Netstrata/Utilities/Parsers/CSharpClassParser.cs:95-106 | `public Nullable<T> N { get; set; }` yields `N` of type `T`, nullable |
| CSharpClassParserLemmas.DeclaredListProperty | Netstrata/Utilities/Parsers/CSharpClassParser.cs:95-106 | `public List<T> N { get; set; }` yields `N` of type `List<T>`, not nullable: the stored type is the C# type |
| TypeScriptConverter.ScalarType | Netstrata/Utilities/Parsers/TypeScriptConverter.cs:66-70 | the result is the type itself or a value of `_typeMap`; a result with a table entry maps to itself, so looking up twice is looking up once; an identifier maps to an identifier |
| TypeScriptConverterLemmas.TableValuesAreWords | Netstrata/Utilities/Parsers/TypeScriptConverter.cs:9-14 | every value of `_typeMap` is a non-empty identifier that the table maps to itself |
| TypeScriptConverter.MapType | Netstrata/Utilities/Parsers/TypeScriptConverter.cs:54-71 | a trimmed type that is not `List<X>` goes through the table lookup with its fallback; `List<X>` becomes the lookup of the identifier `X`, itself a non-empty identifier, followed by exactly one `[]` |
| TypeScriptConverterLemmas.MapTypeOfIdentifier | Netstrata/Utilities/Parsers/TypeScriptConverter.cs:59-70 | an identifier is never a list, so it only goes through the table |
| TypeScriptConverterLemmas.MapTypeOfList | Netstrata/Utilities/Parsers/TypeScriptConverter.cs:59-63 | `List<T>` maps to the table entry of `T` followed by `[]`: `List<int>` gives `number[]` |
| TypeScriptConverterLemmas.ArrayTypeIsKept | Netstrata/Utilities/Parsers/TypeScriptConverter.cs:66-70 | an identifier followed by `[]` is not in the table and passes through unchanged |
| TypeScriptConverterLemmas.MapTypeIdempotent | Netstrata/Utilities/Parsers/TypeScriptConverter.cs:54-71 | mapping an already mapped type changes nothing |
| TypeScriptConverter.ToCamelCase | Netstrata/Utilities/Parsers/TypeScriptConverter.cs:73-78 | the name keeps its length; its first character is lower-cased and the rest is unchanged |
| TypeScriptConverterLemmas.ToCamelCaseUnchanged | Netstrata/Utilities/Parsers/TypeScriptConverter.cs:73-78 | a name is returned unchanged exactly when it is empty or does not start with an upper-case letter |
| TypeScriptConverterLemmas.ToCamelCaseIdempotent | Netstrata/Utilities/Parsers/TypeScriptConverter.cs:73-78 | camel-casing twice is camel-casing once |
| TypeScriptConverter.Visit | Netstrata/Utilities/Parsers/TypeScriptConverter.cs:27-52 | the emitted set only grows; nothing is written exactly when the class's name was already written, and otherwise the class is written first and its name is then in the set |
| TypeScriptConverter.VisitChildren | Netstrata/Utilities/Parsers/TypeScriptConverter.cs:50-51 | visiting nested classes in turn only adds to the emitted set |
| TypeScriptConverter.Emitter.constructor | Netstrata/Utilities/Parsers/TypeScriptConverter.cs:18-19 | a fresh builder holds no text and a fresh set no name |
| TypeScriptConverter.Emitter.AppendClass | Netstrata/Utilities/Parsers/TypeScriptConverter.cs:27-52 | appends exactly the blocks of the classes `Visit` selects from the tree, in that order, and leaves the emitted set as `Visit` computes it |
| TypeScriptConverter.Emitter.AppendBlock | Netstrata/Utilities/Parsers/TypeScriptConverter.cs:33-47 | appends the header line, one line per property in declaration order, the `}` line and a blank line, and leaves the emitted set unchanged |
| TypeScriptConverter.Emitter.AppendNestedClasses | Netstrata/Utilities/Parsers/TypeScriptConverter.cs:50-51 | appends the nested classes' blocks in list order, each visited with the names written by those before it |
| TypeScriptConverter.NextChild | Netstrata/Utilities/Parsers/TypeScriptConverter.cs:50-51 | visiting one more nested class writes its blocks after those of the earlier ones and continues from their emitted set |
| TypeScriptConverter.ConvertClasses | Netstrata/Utilities/Parsers/TypeScriptConverter.cs:16-25 | no root gives the empty string; a root gives the blocks of `Visit(root, {})`. The result is a function of the tree, so two conversions of one tree agree |
| TypeScriptConverter.JoinedAppend | Netstrata/Utilities/Parsers/TypeScriptConverter.cs:50-51 | the text of a concatenation of classes is the text of each part, one after the other |
| TypeScriptConverterLemmas.PreOrder | Netstrata/Utilities/Parsers/TypeScriptConverter.cs:33-51 | the pre-order of a tree is non-empty and starts with its root |
| TypeScriptConverterLemmas.VisitWritesNewNames | Netstrata/Utilities/Parsers/TypeScriptConverter.cs:30-31 | the classes written have pairwise distinct names, none of them written before, and the emitted set grows by exactly their names |
| TypeScriptConverterLemmas.VisitChildrenWritesNewNames | Netstrata/Utilities/Parsers/TypeScriptConverter.cs:30-51 | the same for the nested classes visited in turn |
| TypeScriptConverterLemmas.VisitFollowsPreOrder | Netstrata/Utilities/Parsers/TypeScriptConverter.cs:27-52 | the classes written are the pre-order of the tree with some classes left out, order kept |
| TypeScriptConverterLemmas.VisitChildrenFollowsPreOrder | Netstrata/Utilities/Parsers/TypeScriptConverter.cs:50-51 | the same for the nested classes visited in turn |
| TypeScriptConverterLemmas.VisitIsPreOrder | Netstrata/Utilities/Parsers/TypeScriptConverter.cs:27-52 | when no name repeats in the tree and none was written before, every class is written, in pre-order: parent block first, then each nested class's blocks in list order |
| TypeScriptConverterLemmas.VisitChildrenIsPreOrder | Netstrata/Utilities/Parsers/TypeScriptConverter.cs:50-51 | the same for the nested classes visited in turn |
| TypeScriptConverterLemmas.RepeatedNameDropsSubtree | Netstrata/Utilities/Parsers/TypeScriptConverter.cs:30-51 | in the tree `R[A, A[C]]` only `R` and the first `A` are written, and `C`, whose class occurs only under the skipped `A`, is never written |
| TypeScriptConverterLemmas.PropertyLineIsOneLine | Netstrata/Utilities/Parsers/TypeScriptConverter.cs:40-43 | a property line is exactly one line when the property's name and type have no line break |
| TypeScriptConverterLemmas.MapTypeOneLine | Netstrata/Utilities/Parsers/TypeScriptConverter.cs:54-71 | mapping a type introduces no line break |
| TypeScriptConverterLemmas.PropertyLinesCount | Netstrata/Utilities/Parsers/TypeScriptConverter.cs:35-44 | one line per property |
| TypeScriptConverterLemmas.BlockLines | Netstrata/Utilities/Parsers/TypeScriptConverter.cs:33-47 | a block has exactly as many lines as properties plus three: the header, the `}` and the blank line |

## Left out

- Netstrata/Program.cs reads a hard-coded input and writes to the console. It
  is I/O glue and is not part of this model.
- `\s`, `\w`, `char.IsWhiteSpace`, `char.IsLower` and `char.ToLowerInvariant`
  are modelled on ASCII. The Unicode and culture rules of .NET are not
  modelled.
- `Environment.NewLine`, which `AppendLine` writes, is the fixed string `"\n"`.
- The .NET regex engine is not modelled. Each of the source's patterns is a
  scanner that yields the match the engine would yield:
  - `ClassRegex`;
  - `PropertyRegex`, including its backtracking analysed by hand;
  - the anchored `Nullable<...>` and `List<...>` patterns.

  The anchored patterns are only applied to trimmed strings, so `$` matching
  before a final line feed never arises.
- `RegexOptions.Compiled` and `StringComparer.Ordinal` are configuration.
  Ordinal comparison of names is Dafny string equality.
- The `ArgumentException` of `FindClassMatch` is a precondition, not a
  modelled error. The parser only calls it at offsets that hold a class match,
  and `FindClassMatchIsLeftmost` shows the exception is then not thrown.
  `ParseClassAt` carries that match as a ghost parameter.
- The two `FormatException`s are the `Err` values of a `Result`. `null` for
  no class and for no root is `Option.None`.
- The source fills `Properties` and `NestedClasses` in place with
  `AddRange`/`Add` while it builds a class. The model builds the finished
  lists as sequences and constructs the class once. Aliasing of those lists
  is not modelled. Nothing in the source changes them after `ParseClassAt`
  returns.
- The default values of the model classes are not modelled: `""` for `Name`
  and `Type`, `false` for `IsNullable`, and empty lists. The parser sets every
  field when it creates an object, so no default survives into the tree.
- Integer widths are not modelled. Offsets in the source are 32-bit `int`, but
  .NET strings are shorter than `int.MaxValue`, so no offset computation
  overflows.
- Whole-input parses of multi-line sample texts are not proved as concrete
  cases. The behaviour on such inputs follows from the general lemmas:
  - one declaration in a body (`DeclaredProperty` and its corollaries);
  - the ordering, covering and filtering lemmas of nested ranges.
- The brace-depth scan ignores string and comment literals, as the source does.
  Braces inside literals are counted like any other brace.
