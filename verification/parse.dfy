/**
 * The node shapes of a parsed template that the field walk looks at. The
 * real tree comes from Go's `text/template/parse`; every other kind of node
 * (text, constants, `if`, `range`, `template`, ...) is `Other`.
 */
module Parse {

  datatype Node =
    | List(nodes: seq<Node>)     // *parse.ListNode: Nodes
    | Action(pipe: Node)         // *parse.ActionNode: Pipe
    | Pipe(cmds: seq<Node>)      // *parse.PipeNode: Cmds
    | Command(args: seq<Node>)   // *parse.CommandNode: Args
    | Field(ident: seq<string>)  // *parse.FieldNode: Ident, `.A.B` is ["A", "B"]
    | Other
}
