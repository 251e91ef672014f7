/** The part of Go's syntax tree (`go/ast`) that the extractor walks. The
    parser itself is not modelled: a source unit arrives either parsed or with
    the reason it failed to parse. */
module Ast {
  import opened Wrappers
  import opened TypeRender

  /** One comment `*ast.Comment`: its text as written, including its comment
      marker. Its position is never read, so it is not modelled. */
  datatype Comment = Comment(text: string)

  /** One entry `*ast.Field` of a struct's field list. `names` is empty for an
      embedded field; `tag` is the raw tag literal, back-quotes or double
      quotes included; `None` stands for a nil tag or comment group. */
  datatype FieldGroup = FieldGroup(
    doc: Option<seq<Comment>>,
    names: seq<string>,
    typ: Expr,
    tag: Option<string>,
    comment: Option<seq<Comment>>)

  /** The type a type spec declares: a struct type with its field list, or any
      other type (alias, interface, function type, ...). */
  datatype TypeBody = StructType(fields: seq<FieldGroup>) | OtherType

  /** One spec of a general declaration. */
  datatype Spec =
    | TypeSpec(name: string, body: TypeBody, comment: Option<seq<Comment>>)
    | ImportSpec
    | ValueSpec

  /** A top-level declaration: a general declaration (`type`, `var`, `const`,
      `import`, possibly a parenthesised group) with its doc comment, or a
      function declaration. */
  datatype Decl =
    | GenDecl(doc: Option<seq<Comment>>, specs: seq<Spec>)
    | FuncDecl

  /** One input file after `parser.ParseFile`. */
  datatype SourceUnit = Parsed(decls: seq<Decl>) | Unparseable(reason: string)
}
