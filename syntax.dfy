/**
 * The part of a TypeScript syntax tree the analysis looks at, as a closed
 * tagged variant: one constructor per node kind that the analysis
 * distinguishes, and `Other` for every remaining kind.
 *
 * Every node carries its source range (start and end line plus character
 * offset, as ts-morph's getStartLineNumber/getStart/getEndLineNumber/getEnd
 * return them) and its source text (getText()).
 */
module Syntax {
  import opened Wrappers

  datatype Position = Position(line: int, bytes: int)

  datatype Range = Range(start: Position, end: Position)

  /** The modifiers of a class declaration that decide whether it is a candidate. */
  datatype ClassFlags = ClassFlags(isExported: bool, isAbstract: bool, isAmbient: bool)

  /**
   * The `extends Base<Meta, ...>` clause, as its ExpressionWithTypeArguments
   * node: the base expression and the type arguments.
   */
  datatype ExtendsClause = ExtendsClause(expression: Node, typeArguments: seq<Node>)

  datatype Node =
    | ThrowStatement(range: Range, text: string, expression: Node)
    | NewExpression(range: Range, text: string, callee: Node, typeArguments: seq<Node>, arguments: seq<Node>)
    | Identifier(range: Range, text: string)
    /**
     * A class: its candidate flags, its decorators (the expression-bearing
     * part of its modifiers), its type parameters, its `extends` clause, the
     * types of its `implements` clause and its members.
     */
    | ClassDeclaration(range: Range, text: string, flags: ClassFlags, decorators: seq<Node>,
                       typeParameters: seq<Node>, extendsClause: Option<ExtendsClause>,
                       implementsTypes: seq<Node>, members: seq<Node>)
    | Other(range: Range, text: string, children: seq<Node>)

  /** A parsed file: its path and its top-level statements. */
  datatype SourceFile = SourceFile(path: string, statements: seq<Node>)

  /**
   * The node followed by all of its descendants in pre-order, children
   * visited in the order ts.forEachChild visits them.
   */
  function Subtree(n: Node): (r: seq<Node>)
    ensures |r| >= 1 && r[0] == n
    decreases n, 1
  {
    [n] + match n
      case ThrowStatement(_, _, e) => Subtree(e)
      case NewExpression(_, _, f, tas, args) => Subtree(f) + Forest(tas) + Forest(args)
      case Identifier(_, _) => []
      case ClassDeclaration(_, _, _, ds, tps, h, im, ms) =>
        Forest(ds) + Forest(tps)
        + (match h
            case None => []
            case Some(hc) => Subtree(hc.expression) + Forest(hc.typeArguments))
        + Forest(im) + Forest(ms)
      case Other(_, _, cs) => Forest(cs)
  }

  /** The subtrees of a list of siblings, one after the other. */
  function Forest(ns: seq<Node>): seq<Node>
    decreases ns, 0
  {
    if ns == [] then [] else Subtree(ns[0]) + Forest(ns[1..])
  }

  /**
   * The children of a node in the order ts.forEachChild visits them: a
   * `new` expression's callee, type arguments and arguments; a class's
   * decorators, type parameters, the base expression and type arguments of
   * its `extends` clause, its `implements` types, then its members.
   */
  function Children(n: Node): seq<Node>
  {
    match n
    case ThrowStatement(_, _, e) => [e]
    case NewExpression(_, _, f, tas, args) => [f] + tas + args
    case Identifier(_, _) => []
    case ClassDeclaration(_, _, _, ds, tps, h, im, ms) =>
      ds + tps + (match h case None => [] case Some(hc) => [hc.expression] + hc.typeArguments) + im + ms
    case Other(_, _, cs) => cs
  }

  /** Every node below the file, in the order `file.forEachDescendant` visits them. */
  function Descendants(file: SourceFile): (r: seq<Node>)
    ensures forall x :: x in r <==>
      exists i :: 0 <= i < |file.statements| && x in Subtree(file.statements[i])
  {
    assert forall x :: x in Forest(file.statements) <==>
      exists i :: 0 <= i < |file.statements| && x in Subtree(file.statements[i]) by {
      forall x ensures x in Forest(file.statements) <==>
        exists i :: 0 <= i < |file.statements| && x in Subtree(file.statements[i]) {
        ForestMembership(file.statements, x);
      }
    }
    Forest(file.statements)
  }

  lemma {:induction false} ForestAppend(a: seq<Node>, b: seq<Node>)
    ensures Forest(a + b) == Forest(a) + Forest(b)
    decreases a
  {
    if a == [] {
      assert a + b == b;
    } else {
      assert (a + b)[1..] == a[1..] + b;
      ForestAppend(a[1..], b);
    }
  }

  /**
   * The traversal is a pre-order one: a node, then the traversals of its
   * children one after the other, in forEachChild order.
   */
  lemma SubtreeIsPreorder(n: Node)
    ensures Subtree(n) == [n] + Forest(Children(n))
  {
    match n
    case ThrowStatement(_, _, e) =>
      ForestSingleton(e);
    case NewExpression(_, _, f, tas, args) =>
      ForestSingleton(f);
      ForestAppend([f], tas);
      ForestAppend([f] + tas, args);
    case Identifier(_, _) =>
    case ClassDeclaration(_, _, _, _, _, _, _, _) =>
      ClassChildrenInOrder(n);
    case Other(_, _, cs) =>
  }

  lemma ClassChildrenInOrder(n: Node)
    requires n.ClassDeclaration?
    ensures Subtree(n) == [n] + Forest(Children(n))
  {
    var ds, tps, h, im, ms := n.decorators, n.typeParameters, n.extendsClause, n.implementsTypes, n.members;
    var heritage := match h case None => [] case Some(hc) => [hc.expression] + hc.typeArguments;
    assert Children(n) == ds + tps + heritage + im + ms;
    var fh := match h case None => [] case Some(hc) => Subtree(hc.expression) + Forest(hc.typeArguments);
    assert Subtree(n) == [n] + (Forest(ds) + Forest(tps) + fh + Forest(im) + Forest(ms));
    if h.Some? {
      ForestSingleton(h.value.expression);
      ForestAppend([h.value.expression], h.value.typeArguments);
    }
    assert Forest(heritage) == fh;
    ForestAppend(ds, tps);
    ForestAppend(ds + tps, heritage);
    ForestAppend(ds + tps + heritage, im);
    ForestAppend(ds + tps + heritage + im, ms);
  }

  lemma ForestSingleton(n: Node)
    ensures Forest([n]) == Subtree(n)
  {
    assert [n][1..] == [];
  }

  /**
   * A node lies in the traversal of `n` exactly when it is `n` itself or lies
   * in the traversal of one of `n`'s children.
   */
  lemma SubtreeMembership(n: Node, x: Node)
    ensures x in Subtree(n) <==>
      x == n || exists i :: 0 <= i < |Children(n)| && x in Subtree(Children(n)[i])
  {
    SubtreeIsPreorder(n);
    ForestMembership(Children(n), x);
  }

  /** A node is in the forest of a list exactly when it is in the subtree of one of its elements. */
  lemma {:induction false} ForestMembership(ns: seq<Node>, x: Node)
    ensures x in Forest(ns) <==> exists i :: 0 <= i < |ns| && x in Subtree(ns[i])
    decreases ns
  {
    if ns != [] {
      ForestMembership(ns[1..], x);
      if x in Forest(ns[1..]) {
        var i :| 0 <= i < |ns[1..]| && x in Subtree(ns[1..][i]);
        assert x in Subtree(ns[i + 1]);
      }
      if exists i :: 0 <= i < |ns| && x in Subtree(ns[i]) {
        var i :| 0 <= i < |ns| && x in Subtree(ns[i]);
        if i > 0 {
          assert ns[i] == ns[1..][i - 1];
        }
      }
    }
  }

  /** Whatever lies below a node of a subtree lies in that subtree. */
  lemma {:induction false} SubtreeTransitive(n: Node, x: Node, y: Node)
    requires x in Subtree(n) && y in Subtree(x)
    ensures y in Subtree(n)
    decreases n
  {
    if x != n {
      match n
      case ThrowStatement(_, _, e) =>
        SubtreeTransitive(e, x, y);
      case NewExpression(_, _, f, tas, args) =>
        if x in Subtree(f) {
          SubtreeTransitive(f, x, y);
        } else if x in Forest(tas) {
          ForestTransitive(tas, x, y);
        } else {
          ForestTransitive(args, x, y);
        }
      case Identifier(_, _) =>
      case ClassDeclaration(_, _, _, ds, tps, h, im, ms) =>
        if x in Forest(ds) {
          ForestTransitive(ds, x, y);
        } else if x in Forest(tps) {
          ForestTransitive(tps, x, y);
        } else if h.Some? && x in Subtree(h.value.expression) {
          SubtreeTransitive(h.value.expression, x, y);
        } else if h.Some? && x in Forest(h.value.typeArguments) {
          ForestTransitive(h.value.typeArguments, x, y);
        } else if x in Forest(im) {
          ForestTransitive(im, x, y);
        } else {
          ForestTransitive(ms, x, y);
        }
      case Other(_, _, cs) =>
        ForestTransitive(cs, x, y);
    }
  }

  lemma {:induction false} ForestTransitive(ns: seq<Node>, x: Node, y: Node)
    requires x in Forest(ns) && y in Subtree(x)
    ensures y in Forest(ns)
    decreases ns
  {
    ForestMembership(ns, x);
    var i :| 0 <= i < |ns| && x in Subtree(ns[i]);
    SubtreeTransitive(ns[i], x, y);
    ForestMembership(ns, y);
  }

  /**
   * The scan covers the whole file: every node nested anywhere inside a
   * top-level statement, in particular inside any class body, is visited.
   */
  lemma NestedNodesAreDescendants(file: SourceFile, s: Node, x: Node)
    requires s in file.statements && x in Subtree(s)
    ensures x in Descendants(file)
  {
    var i :| 0 <= i < |file.statements| && file.statements[i] == s;
    ForestMembership(file.statements, x);
  }
}
