/** The fragment of Go's syntax tree (package go/ast) that the netipv6zone
    fix inspects and produces. Nodes the fix never looks inside are kept as
    opaque `Other` nodes. */
module GoAst {

  datatype Option<T> = None | Some(value: T)

  datatype Expr =
      /** an identifier such as `net`, `ip1` or a field key `IP` */
      Ident(name: string)
      /** a basic literal; `lit` is its source text, so the integer zero is "0"
          and the string "0" is "\"0\"" */
    | BasicLit(lit: string)
      /** `key: value` inside a composite literal */
    | KeyValue(key: Expr, value: Expr)
      /** `x.sel`; the selected identifier is a pointer that may be nil */
    | Selector(x: Expr, sel: Option<string>)
      /** `T{elts}`; the type is nil when it is elided inside an outer literal */
    | Composite(typ: Option<Expr>, elts: seq<Expr>)
      /** any other expression node, by its kind */
    | Other(kind: string)

}
