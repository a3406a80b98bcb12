/**
 * The interface to the TypeScript type checker. The checker itself is not
 * modelled: its queries are the function fields of `Checker`, and the
 * analysis is proved correct for every checker.
 */
module Types {
  import opened Wrappers
  import opened Syntax

  /** A property symbol: its name, and an identity distinguishing symbols of equal name. */
  datatype Symbol = Symbol(name: string, key: nat)

  /**
   * What the analysis reads of a type: its properties in declaration
   * order (getProperties) and, when the type is a string literal type
   * (isStringLiteral), its literal value (getLiteralValue). The key tells
   * apart types that agree on both, such as `any` and `unknown`, so that
   * assignability may treat them differently.
   */
  datatype Ty = Ty(properties: seq<Symbol>, stringLiteral: Option<string>, key: nat)

  /**
   * The comparison target built from an endpoint's permitted identifiers:
   * the `never` type, or the union of the given string literal types.
   */
  datatype Target = Never | Union(literals: seq<string>)

  /**
   * The checker's queries.
   * - typeAt: getTypeAtLocation of a node of the file with the given path;
   * - typeOfSymbol: getTypeOfSymbolAtLocation of a symbol, at the file with the given path;
   * - definitionFiles: the paths of the files holding the definitions of an
   *   identifier of the file with the given path (getDefinitionNodes, each
   *   mapped to its source file's path);
   * - assignable: isTypeAssignableTo(type, target).
   */
  datatype Checker = Checker(
    typeAt: (Node, string) -> Ty,
    typeOfSymbol: (Symbol, string) -> Ty,
    definitionFiles: (Node, string) -> seq<string>,
    assignable: (Ty, Target) -> bool)

  /** Type.getProperty(name): the first property of `t` with that name, if any. */
  function GetProperty(t: Ty, name: string): (r: Option<Symbol>)
    ensures r.Some? ==> r.value in t.properties && r.value.name == name
    ensures r.None? <==> forall s :: s in t.properties ==> s.name != name
  {
    FirstNamed(t.properties, name)
  }

  function FirstNamed(ss: seq<Symbol>, name: string): (r: Option<Symbol>)
    ensures r.Some? ==> r.value in ss && r.value.name == name
    ensures r.None? <==> forall s :: s in ss ==> s.name != name
  {
    if ss == [] then None
    else if ss[0].name == name then Some(ss[0])
    else FirstNamed(ss[1..], name)
  }

  /**
   * The part of TypeScript's assignability that the analysis relies on: a
   * string literal type is assignable to a union of string literal types
   * exactly when its value is one of them, and to `never` not at all.
   */
  ghost predicate LiteralSemantics(assignable: (Ty, Target) -> bool)
  {
    && (forall t: Ty, ls: seq<string> ::
          t.stringLiteral.Some? ==> (assignable(t, Union(ls)) <==> t.stringLiteral.value in ls))
    && (forall t: Ty :: t.stringLiteral.Some? ==> !assignable(t, Never))
  }

  /**
   * The reading under which the union target is the error type (an `any`):
   * every type is assignable to the union of a non-empty list of literals.
   * This is what getTypeAtLocation gives for a node that has no parse-tree
   * original, as a node built with ts.factory has none.
   */
  ghost predicate UnionIsErrorType(assignable: (Ty, Target) -> bool)
  {
    forall t: Ty, ls: seq<string> :: ls != [] ==> assignable(t, Union(ls))
  }
}
