/** Symbols and call edges as boundary/collect.py records them. */
module CallGraph {

  /** A signature: function name and file. */
  datatype Sym = Sym(name: string, file: string)

  /** A call whose callee is known. */
  datatype Edge = Edge(from: Sym, to: Sym)

  datatype Option<+T> = None | Some(value: T)

  /** An edge of a `.boundary` file; the callee is missing for built-ins and assembly. */
  datatype MetaEdge = MetaEdge(from: Sym, to: Option<Sym>)
}
