/** The diagnostic record and the messages of the four findings. */
module Report {
  import opened Syntax

  /**
   * One diagnostic: the reported node's start and end (line and character
   * offset), the message, and the path of the file holding the node.
   */
  datatype Report = Report(pos: Range, message: string, file: string)

  /** The four ways a throw site can break the contract, in ladder order. */
  datatype Finding =
    | WrongClass(calleeText: string)
    | NoArguments
    | NotAnObject
    | UndeclaredId

  /** The prefix shared by the three messages about a thrown APIError's argument. */
  const InvalidArgument := "invalid constructor argument: "

  /** The text of the wrong-class message before and after the callee's text. */
  const WrongClassHead := "instance of "
  const WrongClassTail := " is thrown instead of APIError"

  /**
   * The message of a finding. The three findings about the argument share
   * the prefix `InvalidArgument`; the wrong-class message does not, and
   * quotes the callee's text between its fixed head and tail.
   */
  function Message(f: Finding): (r: string)
    ensures !f.WrongClass? <==> InvalidArgument <= r
    ensures f.WrongClass? ==>
      |r| >= |WrongClassHead| + |WrongClassTail| && r[|WrongClassHead|..|r| - |WrongClassTail|] == f.calleeText
  {
    match f
    case WrongClass(name) =>
      var r := WrongClassHead + name + WrongClassTail;
      assert r[2] == WrongClassHead[2];
      r
    case NoArguments => InvalidArgument + "arguments are not supplied from call site"
    case NotAnObject => InvalidArgument + "the first argument is not an object"
    case UndeclaredId =>
      InvalidArgument + "type of id is not declared in `meta.errors` section. consider add it."
  }

  /** createError: a diagnostic for `node` that copies the node's position unchanged. */
  function CreateError(node: Node, message: string, path: string): (r: Report)
    ensures r.pos.start == node.range.start && r.pos.end == node.range.end
    ensures r.message == message && r.file == path
  {
    Report(node.range, message, path)
  }

  /** The four messages are pairwise different, so a report's message names its finding. */
  lemma MessagesDistinguishFindings(f: Finding, g: Finding)
    requires Message(f) == Message(g)
    ensures f == g
  {
  }
}
