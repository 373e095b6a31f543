/** The tree the parser builds and the converter walks. The source fills the two
    lists of a class in place while parsing it and never changes them afterwards,
    so a finished class is a value. */
module Models {

  /** A property: its name, its normalised C# type (for example `long`, `List<int>`,
      `Address`; never a TypeScript type) and whether it was declared nullable. */
  datatype CSharpProperty = CSharpProperty(name: string, typeName: string, isNullable: bool)

  /** A class: its name, its own properties in declaration order and its direct
      nested classes in declaration order. */
  datatype CSharpClass = CSharpClass(name: string, properties: seq<CSharpProperty>, nestedClasses: seq<CSharpClass>)
}
