/**
 * The throw-site scanner: the decision ladder applied to one visited node,
 * and the scan of every node of a file that accumulates the diagnostics.
 */
module Scanner {
  import opened Wrappers
  import opened Syntax
  import opened Types
  import opened Report
  import opened Metadata

  /** The only error class an endpoint may throw: the callee's text must be exactly this. */
  const SanctionedClass := "ApiError"

  /** A throw statement whose operand is a `new` expression: the only nodes the ladder looks at. */
  predicate IsThrowOfNew(a: Node)
  {
    a.ThrowStatement? && a.expression.NewExpression?
  }

  /**
   * The ladder for one visited node, first failing check decides:
   * the callee's text is "ApiError", a first argument exists, the first
   * argument's type has an `id` property, and the type of that property is
   * assignable to the target.
   */
  function Decide(a: Node, target: Target, file: string, ck: Checker): (r: Option<Finding>)
    ensures !IsThrowOfNew(a) ==> r == None
    ensures r.Some? && r.value.WrongClass? ==>
      r.value.calleeText == a.expression.callee.text && r.value.calleeText != SanctionedClass
    ensures r.Some? && !r.value.WrongClass? ==> a.expression.callee.text == SanctionedClass
  {
    if !IsThrowOfNew(a) then None
    else
      var e := a.expression;
      if e.callee.text != SanctionedClass then Some(WrongClass(e.callee.text))
      else if |e.arguments| == 0 then Some(NoArguments)
      else
        match GetProperty(ck.typeAt(e.arguments[0], file), "id")
        case None => Some(NotAnObject)
        case Some(id) =>
          if ck.assignable(ck.typeOfSymbol(id, file), target) then None else Some(UndeclaredId)
  }

  /** The diagnostic a visited node contributes, placed at the throw statement. */
  function Verdict(a: Node, target: Target, file: string, ck: Checker): (r: Option<Report>)
    ensures r.Some? <==> Decide(a, target, file, ck).Some?
    ensures r.Some? ==> r.value.pos == a.range && r.value.file == file
    ensures r.Some? ==> r.value.message == Message(Decide(a, target, file, ck).value)
  {
    match Decide(a, target, file, ck)
    case None => None
    case Some(f) => Some(CreateError(a, Message(f), file))
  }

  /** The diagnostics of a sequence of visited nodes, in visiting order. */
  function ScanReports(nodes: seq<Node>, target: Target, file: string, ck: Checker): (r: seq<Report>)
    ensures |r| <= |nodes|
    ensures forall x :: x in r ==> x.file == file
  {
    if nodes == [] then []
    else
      (match Verdict(nodes[0], target, file, ck) case None => [] case Some(r) => [r])
      + ScanReports(nodes[1..], target, file, ck)
  }

  /**
   * The scan of `forEachDescendant`: the callback's early returns are the
   * branches of the ladder, and `errors` is the array it appends to.
   */
  method Scan(nodes: seq<Node>, target: Target, file: string, ck: Checker) returns (errors: seq<Report>)
    ensures errors == ScanReports(nodes, target, file, ck)
  {
    errors := [];
    for k := 0 to |nodes|
      invariant errors == ScanReports(nodes[..k], target, file, ck)
    {
      ScanStep(nodes, k, target, file, ck);
      var a := nodes[k];
      if a.ThrowStatement? && a.expression.NewExpression? {
        var e := a.expression;
        var newTarget := e.callee.text;
        if newTarget != SanctionedClass {
          errors := errors + [CreateError(a, Message(WrongClass(newTarget)), file)];
        } else if |e.arguments| == 0 {
          errors := errors + [CreateError(a, Message(NoArguments), file)];
        } else {
          var abb := GetProperty(ck.typeAt(e.arguments[0], file), "id");
          if abb.None? {
            errors := errors + [CreateError(a, Message(NotAnObject), file)];
          } else {
            var from := ck.typeOfSymbol(abb.value, file);
            var assignable := ck.assignable(from, target);
            if !assignable {
              errors := errors + [CreateError(a, Message(UndeclaredId), file)];
            }
          }
        }
      }
    }
    assert nodes[..|nodes|] == nodes;
  }

  lemma {:induction false} ScanAppend(a: seq<Node>, b: seq<Node>, target: Target, file: string, ck: Checker)
    ensures ScanReports(a + b, target, file, ck) == ScanReports(a, target, file, ck) + ScanReports(b, target, file, ck)
    decreases a
  {
    if a == [] {
      assert a + b == b;
    } else {
      assert (a + b)[0] == a[0] && (a + b)[1..] == a[1..] + b;
      ScanAppend(a[1..], b, target, file, ck);
      var h := match Verdict(a[0], target, file, ck) case None => [] case Some(v) => [v];
      var ra, rb := ScanReports(a[1..], target, file, ck), ScanReports(b, target, file, ck);
      assert ScanReports(a + b, target, file, ck) == h + (ra + rb);
      assert h + (ra + rb) == (h + ra) + rb;
    }
  }

  lemma ScanStep(nodes: seq<Node>, k: nat, target: Target, file: string, ck: Checker)
    requires k < |nodes|
    ensures ScanReports(nodes[..k + 1], target, file, ck) ==
      ScanReports(nodes[..k], target, file, ck) +
      (match Verdict(nodes[k], target, file, ck) case None => [] case Some(r) => [r])
  {
    assert nodes[..k + 1] == nodes[..k] + [nodes[k]];
    ScanAppend(nodes[..k], [nodes[k]], target, file, ck);
  }

  /** A report of the scan is exactly the verdict of one of the visited nodes. */
  lemma {:induction false} ScanReportsExactly(nodes: seq<Node>, target: Target, file: string, ck: Checker, r: Report)
    ensures r in ScanReports(nodes, target, file, ck) <==>
      exists k :: 0 <= k < |nodes| && Verdict(nodes[k], target, file, ck) == Some(r)
    ensures r in ScanReports(nodes, target, file, ck) <==>
      exists x :: x in nodes && Verdict(x, target, file, ck) == Some(r)
    decreases nodes
  {
    if nodes != [] {
      ScanReportsExactly(nodes[1..], target, file, ck, r);
      var head := match Verdict(nodes[0], target, file, ck) case None => [] case Some(v) => [v];
      assert ScanReports(nodes, target, file, ck) == head + ScanReports(nodes[1..], target, file, ck);
      if exists k :: 0 <= k < |nodes| && Verdict(nodes[k], target, file, ck) == Some(r) {
        var k :| 0 <= k < |nodes| && Verdict(nodes[k], target, file, ck) == Some(r);
        if k > 0 {
          assert nodes[k] == nodes[1..][k - 1];
        }
      }
      if r in ScanReports(nodes[1..], target, file, ck) {
        var k :| 0 <= k < |nodes[1..]| && Verdict(nodes[1..][k], target, file, ck) == Some(r);
        assert nodes[1..][k] == nodes[k + 1];
      }
    }
    if r in ScanReports(nodes, target, file, ck) {
      var k :| 0 <= k < |nodes| && Verdict(nodes[k], target, file, ck) == Some(r);
      assert nodes[k] in nodes;
    }
    if exists x :: x in nodes && Verdict(x, target, file, ck) == Some(r) {
      var x :| x in nodes && Verdict(x, target, file, ck) == Some(r);
      var k :| 0 <= k < |nodes| && nodes[k] == x;
    }
  }

  /** The number of throw-of-new statements among the visited nodes. */
  function ThrowSites(nodes: seq<Node>): nat
  {
    if nodes == [] then 0 else (if IsThrowOfNew(nodes[0]) then 1 else 0) + ThrowSites(nodes[1..])
  }

  /** Each throw site contributes at most one diagnostic per scan, and nothing else contributes any. */
  lemma {:induction false} AtMostOneReportPerThrowSite(nodes: seq<Node>, target: Target, file: string, ck: Checker)
    ensures |ScanReports(nodes, target, file, ck)| <= ThrowSites(nodes)
    decreases nodes
  {
    if nodes != [] {
      AtMostOneReportPerThrowSite(nodes[1..], target, file, ck);
    }
  }

  /** Removing the nodes that are not throw-of-new statements does not change the scan. */
  lemma {:induction false} OnlyThrowSitesReport(nodes: seq<Node>, target: Target, file: string, ck: Checker)
    ensures ScanReports(nodes, target, file, ck) == ScanReports(ThrowSitesOnly(nodes), target, file, ck)
    decreases nodes
  {
    if nodes != [] {
      OnlyThrowSitesReport(nodes[1..], target, file, ck);
      var t := ThrowSitesOnly(nodes);
      if IsThrowOfNew(nodes[0]) {
        assert t == [nodes[0]] + ThrowSitesOnly(nodes[1..]);
        assert t != [] && t[0] == nodes[0] && t[1..] == ThrowSitesOnly(nodes[1..]);
        assert ScanReports(t, target, file, ck) ==
          (match Verdict(t[0], target, file, ck) case None => [] case Some(r) => [r])
          + ScanReports(t[1..], target, file, ck);
      } else {
        assert Verdict(nodes[0], target, file, ck) == None;
        assert t == ThrowSitesOnly(nodes[1..]);
      }
    }
  }

  function ThrowSitesOnly(nodes: seq<Node>): (r: seq<Node>)
    ensures forall a :: a in r <==> a in nodes && IsThrowOfNew(a)
  {
    if nodes == [] then []
    else (if IsThrowOfNew(nodes[0]) then [nodes[0]] else []) + ThrowSitesOnly(nodes[1..])
  }

  /** A thrown `new X(...)` that succeeds every check: the declarative reading of compliance. */
  ghost predicate Compliant(a: Node, target: Target, file: string, ck: Checker)
    requires IsThrowOfNew(a)
  {
    var e := a.expression;
    && e.callee.text == SanctionedClass
    && |e.arguments| > 0
    && exists id :: GetProperty(ck.typeAt(e.arguments[0], file), "id") == Some(id)
                 && ck.assignable(ck.typeOfSymbol(id, file), target)
  }

  /** A visited node yields no diagnostic exactly when it is not a throw of `new`, or it is compliant. */
  lemma SilentExactlyWhenCompliant(a: Node, target: Target, file: string, ck: Checker)
    ensures Decide(a, target, file, ck).None? <==> !IsThrowOfNew(a) || Compliant(a, target, file, ck)
  {
    if IsThrowOfNew(a) && Compliant(a, target, file, ck) {
      var e := a.expression;
      var id :| GetProperty(ck.typeAt(e.arguments[0], file), "id") == Some(id)
             && ck.assignable(ck.typeOfSymbol(id, file), target);
    }
  }

  /**
   * Which check decides: each finding arises exactly when every earlier
   * check passes and its own check fails.
   */
  lemma FirstFailingCheckDecides(a: Node, target: Target, file: string, ck: Checker)
    requires IsThrowOfNew(a)
    ensures var e := a.expression;
      && (Decide(a, target, file, ck).Some? && Decide(a, target, file, ck).value.WrongClass?
          <==> e.callee.text != SanctionedClass)
      && (Decide(a, target, file, ck) == Some(NoArguments)
          <==> e.callee.text == SanctionedClass && |e.arguments| == 0)
      && (Decide(a, target, file, ck) == Some(NotAnObject)
          <==> e.callee.text == SanctionedClass && |e.arguments| > 0
               && GetProperty(ck.typeAt(e.arguments[0], file), "id").None?)
      && (Decide(a, target, file, ck) == Some(UndeclaredId)
          <==> e.callee.text == SanctionedClass && |e.arguments| > 0
               && GetProperty(ck.typeAt(e.arguments[0], file), "id").Some?
               && !ck.assignable(ck.typeOfSymbol(GetProperty(ck.typeAt(e.arguments[0], file), "id").value, file), target))
  {
  }

  /**
   * A thrown `new X(...)` with X other than "ApiError" is reported as such
   * whatever its arguments, the checker and the target: no argument check runs.
   */
  lemma WrongClassIgnoresArguments(a: Node, b: Node, ta: Target, tb: Target, file: string, ck1: Checker, ck2: Checker)
    requires IsThrowOfNew(a) && IsThrowOfNew(b)
    requires a.expression.callee.text == b.expression.callee.text != SanctionedClass
    ensures Decide(a, ta, file, ck1) == Decide(b, tb, file, ck2) == Some(WrongClass(a.expression.callee.text))
  {
  }

  /**
   * For a thrown `new ApiError(arg)` whose `id` has a string literal type,
   * and TypeScript's literal semantics, the throw is silent exactly when the
   * literal is one of the permitted identifiers, and otherwise reported as
   * undeclared; with no permitted identifier every such throw is reported.
   */
  lemma LiteralIdDecidedByMembership(a: Node, allowed: seq<string>, file: string, ck: Checker, id: Symbol)
    requires LiteralSemantics(ck.assignable)
    requires IsThrowOfNew(a) && a.expression.callee.text == SanctionedClass
    requires |a.expression.arguments| > 0
    requires GetProperty(ck.typeAt(a.expression.arguments[0], file), "id") == Some(id)
    requires ck.typeOfSymbol(id, file).stringLiteral.Some?
    ensures var v := ck.typeOfSymbol(id, file).stringLiteral.value;
      Decide(a, TargetOf(allowed), file, ck) == (if v in allowed then None else Some(UndeclaredId))
  {
    TargetAcceptsExactlyAllowed(allowed, ck.assignable, ck.typeOfSymbol(id, file));
  }

  /**
   * The code as written, if the union target is the error type: with at
   * least one permitted identifier, no `new ApiError` is ever reported as
   * undeclared, whatever the type of its `id`.
   */
  lemma ErrorTypedUnionNeverUndeclared(a: Node, allowed: seq<string>, file: string, ck: Checker)
    requires UnionIsErrorType(ck.assignable)
    requires allowed != []
    ensures Decide(a, TargetOf(allowed), file, ck) != Some(UndeclaredId)
  {
  }
}
