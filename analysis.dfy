/**
 * The analysis driver: which top-level classes are candidates, which
 * candidates are endpoints (and with what target), the per-class check and
 * its composition over a file and over all files.
 */
module Analysis {
  import opened Wrappers
  import opened Syntax
  import opened Types
  import opened Report
  import opened Metadata
  import opened Scanner

  /** The two ways the analysis aborts instead of reporting. */
  datatype Fault =
    /** `throw new Error("not single")`: the base identifier has no definition. */
    | BaseWithoutDefinition
    /**
     * An endpoint's `extends` clause has no type argument, so the checker
     * is asked for the type of `undefined`.
     */
    | MissingMetadataArgument

  /** The run's fixed inputs: the `--root` argument and the type checker of the loaded project. */
  datatype Context = Context(projectRoot: string, checker: Checker)

  /** The only file whose base class makes a class an endpoint. */
  function EndpointBasePath(root: string): string
  {
    root + "/packages/backend/src/server/api/endpoint-base.ts"
  }

  /** A top-level statement that checkFile hands to checkClass. */
  predicate IsCandidate(s: Node)
  {
    && s.ClassDeclaration?
    && !s.flags.isAbstract && !s.flags.isAmbient && s.flags.isExported
  }

  /** The candidates among a file's statements, in statement order. */
  function Candidates(statements: seq<Node>): (r: seq<Node>)
    ensures forall s :: s in r <==> s in statements && IsCandidate(s)
    ensures forall i :: 0 <= i < |r| ==> IsCandidate(r[i])
    ensures |r| <= |statements|
  {
    if statements == [] then []
    else (if IsCandidate(statements[0]) then [statements[0]] else []) + Candidates(statements[1..])
  }

  /**
   * The candidates keep statement order: those of `a + b` are those of `a`
   * followed by those of `b`.
   */
  lemma {:induction false} CandidatesAppend(a: seq<Node>, b: seq<Node>)
    ensures Candidates(a + b) == Candidates(a) + Candidates(b)
    decreases a
  {
    if a == [] {
      assert a + b == b;
    } else {
      assert (a + b)[0] == a[0] && (a + b)[1..] == a[1..] + b;
      CandidatesAppend(a[1..], b);
      var h := if IsCandidate(a[0]) then [a[0]] else [];
      assert Candidates(a + b) == h + (Candidates(a[1..]) + Candidates(b));
      assert h + (Candidates(a[1..]) + Candidates(b)) == (h + Candidates(a[1..])) + Candidates(b);
    }
  }

  datatype Classification = NotEndpoint | Endpoint(target: Target)

  /** The base identifier of a class's `extends` clause, when the base is a plain identifier. */
  predicate ExtendsIdentifier(c: Node)
    requires c.ClassDeclaration?
  {
    c.extendsClause.Some? && c.extendsClause.value.expression.Identifier?
  }

  /** getDefinitionNodes of the base identifier, as the paths of the defining files. */
  function BaseDefinitions(c: Node, file: SourceFile, ctx: Context): seq<string>
    requires c.ClassDeclaration? && ExtendsIdentifier(c)
  {
    ctx.checker.definitionFiles(c.extendsClause.value.expression, file.path)
  }

  /** The base identifier's first definition lies in the endpoint base file. */
  predicate ExtendsEndpointBase(c: Node, file: SourceFile, ctx: Context)
    requires c.ClassDeclaration?
  {
    && ExtendsIdentifier(c)
    && |BaseDefinitions(c, file, ctx)| > 0
    && BaseDefinitions(c, file, ctx)[0] == EndpointBasePath(ctx.projectRoot)
  }

  /** The target of an endpoint: built from the identifiers its metadata type argument permits. */
  function MetadataTarget(c: Node, file: SourceFile, ctx: Context): Target
    requires c.ClassDeclaration? && c.extendsClause.Some? && |c.extendsClause.value.typeArguments| > 0
  {
    var meta := ctx.checker.typeAt(c.extendsClause.value.typeArguments[0], file.path);
    TargetOf(AllowedIdentifiers(meta, file.path, ctx.checker))
  }

  /** The head of checkClass: every early return, the fatal error, and the endpoint's target. */
  function Classify(c: Node, file: SourceFile, ctx: Context): (r: Result<Classification, Fault>)
    requires c.ClassDeclaration?
    ensures r == Err(BaseWithoutDefinition) <==> ExtendsIdentifier(c) && BaseDefinitions(c, file, ctx) == []
    ensures r == Err(MissingMetadataArgument) <==>
      ExtendsEndpointBase(c, file, ctx) && c.extendsClause.value.typeArguments == []
    ensures r.Ok? && r.value.Endpoint? ==> ExtendsEndpointBase(c, file, ctx)
  {
    match c.extendsClause
    case None => Ok(NotEndpoint)
    case Some(h) =>
      if !h.expression.Identifier? then Ok(NotEndpoint)
      else
        var defs := ctx.checker.definitionFiles(h.expression, file.path);
        if |defs| == 0 then Err(BaseWithoutDefinition)
        else if defs[0] != EndpointBasePath(ctx.projectRoot) then Ok(NotEndpoint)
        else if |h.typeArguments| == 0 then Err(MissingMetadataArgument)
        else
          var meta := ctx.checker.typeAt(h.typeArguments[0], file.path);
          Ok(Endpoint(TargetOf(AllowedIdentifiers(meta, file.path, ctx.checker))))
  }

  /** checkClass: the reports of one class, or the fault that aborts the run. */
  function ClassReports(c: Node, file: SourceFile, ctx: Context): (r: Result<seq<Report>, Fault>)
    requires c.ClassDeclaration?
    ensures c.extendsClause.None? ==> r == Ok([])
    ensures c.extendsClause.Some? && !ExtendsIdentifier(c) ==> r == Ok([])
    ensures ExtendsIdentifier(c) ==> (r == Err(BaseWithoutDefinition) <==> BaseDefinitions(c, file, ctx) == [])
    ensures ExtendsIdentifier(c) && BaseDefinitions(c, file, ctx) != [] && !ExtendsEndpointBase(c, file, ctx) ==>
      r == Ok([])
    ensures ExtendsEndpointBase(c, file, ctx) ==>
      (r == Err(MissingMetadataArgument) <==> c.extendsClause.value.typeArguments == [])
    ensures ExtendsEndpointBase(c, file, ctx) && |c.extendsClause.value.typeArguments| > 0 ==>
      r == Ok(ScanReports(Descendants(file), MetadataTarget(c, file, ctx), file.path, ctx.checker))
    ensures r.Ok? ==> forall x :: x in r.value ==> x.file == file.path
  {
    match Classify(c, file, ctx)
    case Err(f) => Err(f)
    case Ok(NotEndpoint) => Ok([])
    case Ok(Endpoint(target)) =>
      Ok(ScanReports(Descendants(file), target, file.path, ctx.checker))
  }

  /** checkClass as the program runs it: the early returns, then the scan of the whole file. */
  method CheckClass(c: Node, file: SourceFile, ctx: Context) returns (r: Result<seq<Report>, Fault>)
    requires c.ClassDeclaration?
    ensures r == ClassReports(c, file, ctx)
  {
    var cls := Classify(c, file, ctx);
    match cls
    case Err(f) =>
      return Err(f);
    case Ok(NotEndpoint) =>
      return Ok([]);
    case Ok(Endpoint(target)) =>
      var errors := Scan(Descendants(file), target, file.path, ctx.checker);
      return Ok(errors);
  }

  /** Sequential composition of two steps: the first fault aborts, otherwise the reports are concatenated. */
  function Then(a: Result<seq<Report>, Fault>, b: Result<seq<Report>, Fault>): (r: Result<seq<Report>, Fault>)
    ensures r.Ok? <==> a.Ok? && b.Ok?
    ensures r.Ok? ==> r.value == a.value + b.value
    ensures a.Err? ==> r == a
    ensures a.Ok? && b.Err? ==> r == b
  {
    match a
    case Err(f) => Err(f)
    case Ok(ra) =>
      match b
      case Err(f) => Err(f)
      case Ok(rb) => Ok(ra + rb)
  }

  /** Every class of `cs` classifies without a fault. */
  predicate ClassifyWithoutFault(cs: seq<Node>, file: SourceFile, ctx: Context)
    requires forall c :: c in cs ==> c.ClassDeclaration?
  {
    forall i :: 0 <= i < |cs| ==> Classify(cs[i], file, ctx).Ok?
  }

  /** The targets of the endpoints among `cs`, in order. */
  function EndpointTargets(cs: seq<Node>, file: SourceFile, ctx: Context): (r: seq<Target>)
    requires forall c :: c in cs ==> c.ClassDeclaration?
    ensures |r| <= |cs|
  {
    if cs == [] then []
    else
      (match Classify(cs[0], file, ctx) case Ok(Endpoint(t)) => [t] case _ => [])
      + EndpointTargets(cs[1..], file, ctx)
  }

  /** The whole-file scans against each of the targets `ts`, one after the other. */
  function ScansAgainst(ts: seq<Target>, file: SourceFile, ck: Checker): (r: seq<Report>)
    ensures forall x :: x in r ==> x.file == file.path
  {
    if ts == [] then []
    else ScanReports(Descendants(file), ts[0], file.path, ck) + ScansAgainst(ts[1..], file, ck)
  }

  /**
   * The `.flatMap(checkClass)` over a file's candidates: it passes exactly
   * when every candidate classifies without a fault, and then it holds the
   * whole-file scan against every endpoint's target, in candidate order.
   */
  function CheckClasses(cs: seq<Node>, file: SourceFile, ctx: Context): (r: Result<seq<Report>, Fault>)
    requires forall c :: c in cs ==> c.ClassDeclaration?
    ensures r.Ok? <==> ClassifyWithoutFault(cs, file, ctx)
    ensures r.Ok? ==> r.value == ScansAgainst(EndpointTargets(cs, file, ctx), file, ctx.checker)
  {
    if cs == [] then Ok([])
    else
      var r := Then(ClassReports(cs[0], file, ctx), CheckClasses(cs[1..], file, ctx));
      ClassifiedAllSplit(cs, file, ctx);
      EndpointTargetsStep(cs, file, ctx);
      r
  }

  lemma ClassifiedAllSplit(cs: seq<Node>, file: SourceFile, ctx: Context)
    requires cs != [] && forall c :: c in cs ==> c.ClassDeclaration?
    ensures ClassifyWithoutFault(cs, file, ctx) <==>
      Classify(cs[0], file, ctx).Ok? && ClassifyWithoutFault(cs[1..], file, ctx)
  {
  }

  lemma EndpointTargetsStep(cs: seq<Node>, file: SourceFile, ctx: Context)
    requires cs != [] && forall c :: c in cs ==> c.ClassDeclaration?
    ensures var k := Classify(cs[0], file, ctx);
      k.Ok? && k.value.Endpoint? ==>
        ScansAgainst(EndpointTargets(cs, file, ctx), file, ctx.checker) ==
        ScanReports(Descendants(file), k.value.target, file.path, ctx.checker)
        + ScansAgainst(EndpointTargets(cs[1..], file, ctx), file, ctx.checker)
    ensures var k := Classify(cs[0], file, ctx);
      k.Ok? && k.value.NotEndpoint? ==> EndpointTargets(cs, file, ctx) == EndpointTargets(cs[1..], file, ctx)
  {
  }

  /** checkFile: the candidates among the top-level statements, each checked in order. */
  function CheckFile(file: SourceFile, ctx: Context): (r: Result<seq<Report>, Fault>)
    ensures r.Ok? <==> ClassifyWithoutFault(Candidates(file.statements), file, ctx)
    ensures r.Ok? ==>
      r.value == ScansAgainst(EndpointTargets(Candidates(file.statements), file, ctx), file, ctx.checker)
    ensures r.Ok? ==> forall x :: x in r.value ==> x.file == file.path
  {
    CheckClasses(Candidates(file.statements), file, ctx)
  }

  /** checkFiles: every file checked in order; every report names one of the files. */
  function CheckFiles(files: seq<SourceFile>, ctx: Context): (r: Result<seq<Report>, Fault>)
    ensures r.Ok? ==> forall x :: x in r.value ==> exists i :: 0 <= i < |files| && x.file == files[i].path
  {
    if files == [] then Ok([])
    else
      var r := Then(CheckFile(files[0], ctx), CheckFiles(files[1..], ctx));
      assert r.Ok? ==> forall x :: x in r.value ==> exists i :: 0 <= i < |files| && x.file == files[i].path by {
        if r.Ok? {
          forall x | x in r.value ensures exists i :: 0 <= i < |files| && x.file == files[i].path {
            if x in CheckFile(files[0], ctx).value {
              assert x.file == files[0].path;
            } else {
              var i :| 0 <= i < |files[1..]| && x.file == files[1..][i].path;
              assert x.file == files[i + 1].path;
            }
          }
        }
      }
      r
  }
}
