/** The records shared by the rule-application and diagnostics pipeline,
    and the abstract view of the structural query engine it consumes. */
module LintTypes {

  datatype Option<T> = None | Some(value: T)

  /** The errors the pipeline can abort with. */
  datatype LintError =
    | QueryCompileFailed(ruleName: string)          // the rule's query text does not compile
    | MissingErrorCapture(query: string)            // the compiled query has no `@error` capture
    | CaptureNotFound(name: string, template: string) // a description placeholder names no capture
    | NonUtf8Text                                   // a captured node's bytes are not valid UTF-8

  datatype Result<T> = Ok(value: T) | Err(error: LintError)

  /** The raw record of a syntax-tree range: byte offsets and 0-based rows and columns. */
  datatype Span = Span(startByte: nat, endByte: nat, startRow: nat, startCol: nat, endRow: nat, endCol: nat)

  /** A range as the syntax tree hands it out: never reversed. Ranges are
      compared by plain equality of all six fields. */
  type Range = s: Span | s.startByte <= s.endByte && s.startRow <= s.endRow
    witness Span(0, 0, 0, 0, 0, 0)

  /** One capture of a match: the capture's name in the query, the captured
      node's range, its text (None when the bytes are not UTF-8) and whether
      the node has a following named sibling. */
  datatype Capture = Capture(name: string, range: Range, text: Option<string>, hasNextNamedSibling: bool)

  /** A match is the list of its captures, in the engine's order. */
  type Match = seq<Capture>

  /** What the engine gives for one query text against the file's tree: either
      the query does not compile, or the set of capture names it declares
      together with its matches in traversal order. */
  datatype QueryRun = CompileFailed | Compiled(captureNames: set<string>, matches: seq<Match>)

  datatype Rule = Rule(name: string, description: string, query: string)

  datatype RawDiagnostic = RawDiagnostic(rule: string, description: string, range: Range)

  /** The three capture names with a meaning to the pipeline. */
  const ErrorName: string := "error"
  const FilterName: string := "filter"
  const TrailingName: string := "trailing"

  /** Concatenation is associative; the solver does not always find it. */
  lemma AppendAssoc<T>(x: seq<T>, y: seq<T>, z: seq<T>)
    ensures (x + y) + z == x + (y + z)
  {
  }
}
