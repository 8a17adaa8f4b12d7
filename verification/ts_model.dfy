/** The answers the scanners get from the TypeScript compiler and the file
    system, as plain data. The compiler itself is not modelled: a type is
    what the type checker reports for it, a source file is the part of its
    syntax tree the scanners look at, and a directory is what listing it
    returns. */
module TsModel {
  import opened Wrappers
  import opened Text
  import Paths

  /** A checked type, as far as the classifiers distinguish types. Union
      arms are listed in the type checker's order. */
  datatype TsType =
    | StringType
    | NumberType
    | BooleanType
    | StringLiteral(value: string)
    | UndefinedType
    | NullType
    | UnionType(arms: seq<TsType>)
    | OtherType

  /** One property of the props type: its name and its checked type. */
  datatype Property = Property(name: string, ty: TsType)

  /** A parameter's type annotation: whether it is a type reference, whether
      the referenced name resolves to a symbol, and the properties of the
      annotated type. */
  datatype Annotation = Annotation(isTypeReference: bool, resolvesToSymbol: bool, properties: seq<Property>)

  datatype Param = Param(annotation: Option<Annotation>)

  /** A function-like declaration: its parameter list. */
  datatype FunctionShape = FunctionShape(params: seq<Param>)

  /** What `export default <identifier>` resolves to. */
  datatype Declaration = DeclaredFunction(name: Option<string>, fn: FunctionShape) | OtherDeclaration

  datatype ExportExpression = Identifier(resolvesTo: Option<Declaration>) | OtherExpression

  datatype Initializer = ArrowFunction(fn: FunctionShape) | OtherInitializer

  datatype VarDecl = VarDecl(name: string, initializer: Option<Initializer>)

  /** The syntax-tree nodes the scanners tell apart, with the children a
      traversal would descend into. */
  datatype Node =
    | ExportAssignment(expression: ExportExpression)
    | FunctionDeclaration(isExport: bool, isDefault: bool, name: Option<string>, fn: FunctionShape, body: seq<Node>)
    | VariableStatement(isExport: bool, isDefault: bool, declarations: seq<VarDecl>, children: seq<Node>)
    | OtherNode(children: seq<Node>)

  /** A directory entry as listing its directory reports it: a regular
      file, a subdirectory with its own listing, or anything else. */
  datatype Entry =
    | File(name: string)
    | Directory(name: string, listing: Listing)
    | Special(name: string)
  {
    function Name(): string {
      match this
      case File(n) => n
      case Directory(n, _) => n
      case Special(n) => n
    }
  }

  /** The result of reading a directory: its entries in listing order, or
      a read error. */
  datatype Listing = Readable(entries: seq<Entry>) | Unreadable

  /** Names both scanners keep: ending in `.ts` or `.tsx`. */
  predicate IsSourceName(name: string) {
    EndsWith(name, ".tsx") || EndsWith(name, ".ts")
  }
}
