/**
 * Properties of the whole analysis: eligibility, the fatal error, the
 * file-wide reach of every endpoint's scan, and the order and abort
 * behaviour of checkFile and checkFiles.
 */
module Properties {
  import opened Wrappers
  import opened Syntax
  import opened Types
  import opened Report
  import opened Metadata
  import opened Scanner
  import opened Analysis

  /**
   * A class is an endpoint with target `t` exactly when its base is a plain
   * identifier whose first definition lies in the endpoint base file, it has
   * a metadata type argument, and `t` is built from the identifiers that
   * argument's type permits.
   */
  lemma EndpointExactly(c: Node, file: SourceFile, ctx: Context, t: Target)
    requires c.ClassDeclaration?
    ensures Classify(c, file, ctx) == Ok(Endpoint(t)) <==>
      && ExtendsIdentifier(c)
      && var h := c.extendsClause.value;
         var defs := ctx.checker.definitionFiles(h.expression, file.path);
         && |defs| > 0 && defs[0] == EndpointBasePath(ctx.projectRoot)
         && |h.typeArguments| > 0
         && t == TargetOf(AllowedIdentifiers(ctx.checker.typeAt(h.typeArguments[0], file.path), file.path, ctx.checker))
  {
  }

  /**
   * Only the first definition of the base identifier is read: any list of
   * definitions with the same first element classifies the class the same
   * way, so several definitions are accepted where the error text
   * "not single" suggests they are not.
   */
  lemma OnlyFirstDefinitionMatters(c: Node, file: SourceFile, ctx: Context, defs: seq<string>)
    requires c.ClassDeclaration? && ExtendsIdentifier(c)
    requires var base := c.extendsClause.value.expression;
      |defs| > 0 && |ctx.checker.definitionFiles(base, file.path)| > 0
      && defs[0] == ctx.checker.definitionFiles(base, file.path)[0]
    ensures var base := c.extendsClause.value.expression;
      var ck := ctx.checker;
      var ck' := ck.(definitionFiles := (n, p) => if n == base && p == file.path then defs else ck.definitionFiles(n, p));
      Classify(c, file, ctx.(checker := ck')) == Classify(c, file, ctx)
  {
    var base := c.extendsClause.value.expression;
    var ck := ctx.checker;
    var ck' := ck.(definitionFiles := (n, p) => if n == base && p == file.path then defs else ck.definitionFiles(n, p));
    assert ck'.definitionFiles(base, file.path) == defs;
    assert ck'.typeAt == ck.typeAt && ck'.typeOfSymbol == ck.typeOfSymbol;
    if |c.extendsClause.value.typeArguments| > 0 {
      MetadataIgnoresDefinitions(c, file, ck, ck');
    }
  }

  /** The identifier extraction reads only the checker's symbol types. */
  lemma MetadataIgnoresDefinitions(c: Node, file: SourceFile, ck: Checker, ck': Checker)
    requires c.ClassDeclaration? && c.extendsClause.Some? && |c.extendsClause.value.typeArguments| > 0
    requires ck'.typeOfSymbol == ck.typeOfSymbol
    ensures var meta := ck.typeAt(c.extendsClause.value.typeArguments[0], file.path);
      AllowedIdentifiers(meta, file.path, ck') == AllowedIdentifiers(meta, file.path, ck)
  {
    var meta := ck.typeAt(c.extendsClause.value.typeArguments[0], file.path);
    var errs := ErrorsSymbols(meta.properties);
    ErrorEntriesSameTypes(errs, file.path, ck, ck');
    var entries := ErrorEntries(errs, file.path, ck);
    IdSymbolsSameTypes(entries, file.path, ck, ck');
    LiteralValuesSameTypes(IdSymbols(entries, file.path, ck), file.path, ck, ck');
  }

  lemma {:induction false} ErrorEntriesSameTypes(errs: seq<Symbol>, file: string, ck: Checker, ck': Checker)
    requires ck'.typeOfSymbol == ck.typeOfSymbol
    ensures ErrorEntries(errs, file, ck') == ErrorEntries(errs, file, ck)
    decreases errs
  {
    if errs != [] {
      ErrorEntriesSameTypes(errs[1..], file, ck, ck');
    }
  }

  lemma {:induction false} IdSymbolsSameTypes(entries: seq<Symbol>, file: string, ck: Checker, ck': Checker)
    requires ck'.typeOfSymbol == ck.typeOfSymbol
    ensures IdSymbols(entries, file, ck') == IdSymbols(entries, file, ck)
    decreases entries
  {
    if entries != [] {
      IdSymbolsSameTypes(entries[1..], file, ck, ck');
    }
  }

  lemma {:induction false} LiteralValuesSameTypes(ids: seq<Symbol>, file: string, ck: Checker, ck': Checker)
    requires ck'.typeOfSymbol == ck.typeOfSymbol
    ensures LiteralValues(ids, file, ck') == LiteralValues(ids, file, ck)
    decreases ids
  {
    if ids != [] {
      LiteralValuesSameTypes(ids[1..], file, ck, ck');
    }
  }

  /**
   * A file none of whose candidates is an endpoint yields no report,
   * whatever its throw statements; in particular a file without exported,
   * concrete, non-ambient top-level classes.
   */
  lemma {:induction false} NoEndpointNoReports(cs: seq<Node>, file: SourceFile, ctx: Context)
    requires forall c :: c in cs ==> c.ClassDeclaration? && Classify(c, file, ctx) == Ok(NotEndpoint)
    ensures CheckClasses(cs, file, ctx) == Ok([])
    decreases cs
  {
    if cs != [] {
      NoEndpointNoReports(cs[1..], file, ctx);
    }
  }

  lemma NoCandidateNoReports(file: SourceFile, ctx: Context)
    requires forall s :: s in file.statements ==> !IsCandidate(s)
    ensures CheckFile(file, ctx) == Ok([])
  {
  }

  /** When a file's classes all pass, every class's reports are among the file's. */
  lemma {:induction false} ClassReportsIncluded(cs: seq<Node>, file: SourceFile, ctx: Context, c: Node)
    requires forall d :: d in cs ==> d.ClassDeclaration?
    requires CheckClasses(cs, file, ctx).Ok? && c in cs
    ensures ClassReports(c, file, ctx).Ok?
    ensures forall r :: r in ClassReports(c, file, ctx).value ==> r in CheckClasses(cs, file, ctx).value
    decreases cs
  {
    if c != cs[0] {
      ClassReportsIncluded(cs[1..], file, ctx, c);
    }
  }

  /**
   * The scan of an endpoint reaches the whole file: a throw site nested
   * anywhere in any top-level statement, including the body of another
   * class and of a class that is not itself a candidate, is checked against
   * this endpoint's target, and its report is in the file's reports.
   */
  lemma ScanReachesWholeFile(file: SourceFile, ctx: Context, c: Node, t: Target, s: Node, x: Node, r: Report)
    requires c in file.statements && s in file.statements && x in Subtree(s)
    requires IsCandidate(c) && Classify(c, file, ctx) == Ok(Endpoint(t))
    requires CheckFile(file, ctx).Ok? && Verdict(x, t, file.path, ctx.checker) == Some(r)
    ensures r in CheckFile(file, ctx).value
  {
    var cs := Candidates(file.statements);
    ClassReportsIncluded(cs, file, ctx, c);
    NestedNodesAreDescendants(file, s, x);
    var d := Descendants(file);
    var k :| 0 <= k < |d| && d[k] == x;
    ScanReportsExactly(d, t, file.path, ctx.checker, r);
  }

  /**
   * A file with two endpoints scans the whole file twice, once against
   * each endpoint's target: every throw site is checked by both.
   */
  lemma TwoEndpointsScan(file: SourceFile, ctx: Context, t1: Target, t2: Target)
    requires |Candidates(file.statements)| == 2
    requires Classify(Candidates(file.statements)[0], file, ctx) == Ok(Endpoint(t1))
    requires Classify(Candidates(file.statements)[1], file, ctx) == Ok(Endpoint(t2))
    ensures CheckFile(file, ctx) ==
      Ok(ScanReports(Descendants(file), t1, file.path, ctx.checker)
         + ScanReports(Descendants(file), t2, file.path, ctx.checker))
  {
    var cs := Candidates(file.statements);
    var d := Descendants(file);
    var s1 := ScanReports(d, t1, file.path, ctx.checker);
    var s2 := ScanReports(d, t2, file.path, ctx.checker);
    assert ClassReports(cs[0], file, ctx) == Ok(s1);
    assert ClassReports(cs[1], file, ctx) == Ok(s2);
    var tail := cs[1..];
    assert tail[0] == cs[1] && tail[1..] == [];
    assert CheckClasses(tail[1..], file, ctx) == Ok([]);
    assert CheckClasses(tail, file, ctx) == Ok(s2 + []);
    assert s2 + [] == s2;
  }

  lemma ThenAssociative(a: Result<seq<Report>, Fault>, b: Result<seq<Report>, Fault>, c: Result<seq<Report>, Fault>)
    ensures Then(Then(a, b), c) == Then(a, Then(b, c))
  {
    if a.Ok? && b.Ok? && c.Ok? {
      assert (a.value + b.value) + c.value == a.value + (b.value + c.value);
    }
  }

  /** Reports come in file order: checking `a + b` is checking `a`, then `b`. */
  lemma {:induction false} CheckFilesAppend(a: seq<SourceFile>, b: seq<SourceFile>, ctx: Context)
    ensures CheckFiles(a + b, ctx) == Then(CheckFiles(a, ctx), CheckFiles(b, ctx))
    decreases a
  {
    if a == [] {
      assert a + b == b;
      var r := CheckFiles(b, ctx);
      if r.Ok? {
        assert [] + r.value == r.value;
      }
    } else {
      assert (a + b)[1..] == a[1..] + b;
      CheckFilesAppend(a[1..], b, ctx);
      ThenAssociative(CheckFile(a[0], ctx), CheckFiles(a[1..], ctx), CheckFiles(b, ctx));
    }
  }

  /**
   * The run aborts exactly when some file aborts, and then with the fault
   * of the first such file: no reports of the other files survive.
   */
  lemma CheckFilesAbortsOnFirstFault(files: seq<SourceFile>, ctx: Context, f: Fault)
    ensures CheckFiles(files, ctx) == Err(f) <==>
      exists i :: 0 <= i < |files| && CheckFile(files[i], ctx) == Err(f)
                  && forall j :: 0 <= j < i ==> CheckFile(files[j], ctx).Ok?
  {
    if CheckFiles(files, ctx) == Err(f) {
      AbortHasFirstFault(files, ctx, f);
    }
    if exists i :: 0 <= i < |files| && CheckFile(files[i], ctx) == Err(f)
                   && forall j :: 0 <= j < i ==> CheckFile(files[j], ctx).Ok? {
      var i :| 0 <= i < |files| && CheckFile(files[i], ctx) == Err(f)
               && forall j :: 0 <= j < i ==> CheckFile(files[j], ctx).Ok?;
      FirstFaultAborts(files, ctx, f, i);
    }
  }

  lemma {:induction false} AbortHasFirstFault(files: seq<SourceFile>, ctx: Context, f: Fault)
    requires CheckFiles(files, ctx) == Err(f)
    ensures exists i :: 0 <= i < |files| && CheckFile(files[i], ctx) == Err(f)
                        && forall j :: 0 <= j < i ==> CheckFile(files[j], ctx).Ok?
    decreases files
  {
    if CheckFile(files[0], ctx).Ok? {
      assert CheckFiles(files[1..], ctx) == Err(f);
      AbortHasFirstFault(files[1..], ctx, f);
      var i :| 0 <= i < |files[1..]| && CheckFile(files[1..][i], ctx) == Err(f)
               && forall j :: 0 <= j < i ==> CheckFile(files[1..][j], ctx).Ok?;
      assert CheckFile(files[i + 1], ctx) == Err(f);
      forall j | 0 < j < i + 1 ensures CheckFile(files[j], ctx).Ok? {
        assert files[j] == files[1..][j - 1];
      }
    } else {
      assert CheckFile(files[0], ctx) == Err(f);
    }
  }

  lemma {:induction false} FirstFaultAborts(files: seq<SourceFile>, ctx: Context, f: Fault, i: nat)
    requires i < |files| && CheckFile(files[i], ctx) == Err(f)
    requires forall j :: 0 <= j < i ==> CheckFile(files[j], ctx).Ok?
    ensures CheckFiles(files, ctx) == Err(f)
    decreases i
  {
    if i > 0 {
      assert CheckFile(files[0], ctx).Ok?;
      assert files[1..][i - 1] == files[i];
      forall j | 0 <= j < i - 1 ensures CheckFile(files[1..][j], ctx).Ok? {
        assert files[1..][j] == files[j + 1];
      }
      FirstFaultAborts(files[1..], ctx, f, i - 1);
    }
  }

  /** The endpoints' targets are exactly the targets of the classes of `cs` that classify as endpoints. */
  lemma {:induction false} EndpointTargetsExactly(cs: seq<Node>, file: SourceFile, ctx: Context, t: Target)
    requires forall c :: c in cs ==> c.ClassDeclaration?
    ensures t in EndpointTargets(cs, file, ctx) <==> exists c :: c in cs && Classify(c, file, ctx) == Ok(Endpoint(t))
    decreases cs
  {
    if cs != [] {
      EndpointTargetsExactly(cs[1..], file, ctx, t);
      if exists c :: c in cs && Classify(c, file, ctx) == Ok(Endpoint(t)) {
        var c :| c in cs && Classify(c, file, ctx) == Ok(Endpoint(t));
        if c != cs[0] {
          assert c in cs[1..];
        }
      }
    }
  }

  /** A report of the scans is exactly the verdict of a visited node against one of the targets. */
  lemma {:induction false} ScansAgainstExactly(ts: seq<Target>, file: SourceFile, ck: Checker, r: Report)
    ensures r in ScansAgainst(ts, file, ck) <==>
      exists t, x :: t in ts && x in Descendants(file) && Verdict(x, t, file.path, ck) == Some(r)
    decreases ts
  {
    if ts != [] {
      var d := Descendants(file);
      ScansAgainstExactly(ts[1..], file, ck, r);
      ScanReportsExactly(d, ts[0], file.path, ck, r);
      assert ScansAgainst(ts, file, ck) == ScanReports(d, ts[0], file.path, ck) + ScansAgainst(ts[1..], file, ck);
      if exists t, x :: t in ts && x in d && Verdict(x, t, file.path, ck) == Some(r) {
        var t, x :| t in ts && x in d && Verdict(x, t, file.path, ck) == Some(r);
        if t != ts[0] {
          assert t in ts[1..];
        }
      }
    }
  }

  /**
   * A passing file reports exactly the verdicts of its visited nodes
   * against the targets of its endpoints: every report comes from some
   * endpoint's check of some throw site, and every such verdict is reported.
   */
  lemma FileReportsExactly(file: SourceFile, ctx: Context, r: Report)
    requires CheckFile(file, ctx).Ok?
    ensures r in CheckFile(file, ctx).value <==>
      exists c, t, x :: c in Candidates(file.statements) && Classify(c, file, ctx) == Ok(Endpoint(t))
                     && x in Descendants(file) && Verdict(x, t, file.path, ctx.checker) == Some(r)
  {
    var cs := Candidates(file.statements);
    var ts := EndpointTargets(cs, file, ctx);
    ScansAgainstExactly(ts, file, ctx.checker, r);
    forall t ensures t in ts <==> exists c :: c in cs && Classify(c, file, ctx) == Ok(Endpoint(t)) {
      EndpointTargetsExactly(cs, file, ctx, t);
    }
  }

  /**
   * A passing file gives no report exactly when every throw site of the
   * file passes the ladder against the target of every endpoint of the
   * file; for a file with one endpoint, exactly when its own sites comply.
   */
  lemma SilentFileExactlyWhenCompliant(file: SourceFile, ctx: Context)
    requires CheckFile(file, ctx).Ok?
    ensures CheckFile(file, ctx).value == [] <==>
      forall c, t, x ::
        (c in Candidates(file.statements) && Classify(c, file, ctx) == Ok(Endpoint(t)) && x in Descendants(file))
        ==> Decide(x, t, file.path, ctx.checker).None?
  {
    var rs := CheckFile(file, ctx).value;
    if rs != [] {
      FileReportsExactly(file, ctx, rs[0]);
    }
    if exists c, t, x :: c in Candidates(file.statements) && Classify(c, file, ctx) == Ok(Endpoint(t))
                       && x in Descendants(file) && Decide(x, t, file.path, ctx.checker).Some? {
      var c, t, x :| c in Candidates(file.statements) && Classify(c, file, ctx) == Ok(Endpoint(t))
                    && x in Descendants(file) && Decide(x, t, file.path, ctx.checker).Some?;
      var r := Verdict(x, t, file.path, ctx.checker).value;
      FileReportsExactly(file, ctx, r);
    }
  }

  /** Each target's scan contributes at most one report per throw site of the file. */
  lemma {:induction false} ScansAgainstBound(ts: seq<Target>, file: SourceFile, ck: Checker)
    ensures |ScansAgainst(ts, file, ck)| <= |ts| * ThrowSites(Descendants(file))
    decreases ts
  {
    if ts != [] {
      ScansAgainstBound(ts[1..], file, ck);
      AtMostOneReportPerThrowSite(Descendants(file), ts[0], file.path, ck);
      var n := ThrowSites(Descendants(file));
      assert |ts| == |ts[1..]| + 1;
      ProductStep(|ts[1..]|, n);
    }
  }

  lemma ProductStep(a: nat, n: nat)
    ensures (a + 1) * n == a * n + n
  {
  }

  /**
   * A passing file with N endpoints gives at most N reports per throw site,
   * so at most one per throw site and candidate.
   */
  lemma ReportsPerThrowSiteAtMostEndpoints(file: SourceFile, ctx: Context)
    requires CheckFile(file, ctx).Ok?
    ensures var cs := Candidates(file.statements);
      var n := ThrowSites(Descendants(file));
      && |CheckFile(file, ctx).value| <= |EndpointTargets(cs, file, ctx)| * n
      && |CheckFile(file, ctx).value| <= |cs| * n
  {
    var cs := Candidates(file.statements);
    var ts := EndpointTargets(cs, file, ctx);
    var n := ThrowSites(Descendants(file));
    ScansAgainstBound(ts, file, ctx.checker);
    ProductMonotone(|ts|, |cs|, n);
  }

  lemma ProductMonotone(a: nat, b: nat, n: nat)
    requires a <= b
    ensures a * n <= b * n
  {
  }

  /**
   * checkFile aborts exactly when some candidate's classification faults,
   * and then with the fault of the first such candidate.
   */
  lemma CheckClassesAbortsOnFirstFault(cs: seq<Node>, file: SourceFile, ctx: Context, f: Fault)
    requires forall c :: c in cs ==> c.ClassDeclaration?
    ensures CheckClasses(cs, file, ctx) == Err(f) <==>
      exists i :: 0 <= i < |cs| && Classify(cs[i], file, ctx) == Err(f)
                  && forall j :: 0 <= j < i ==> Classify(cs[j], file, ctx).Ok?
  {
  }

  /** A run over one file is that file's check. */
  lemma CheckFilesSingle(file: SourceFile, ctx: Context)
    ensures CheckFiles([file], ctx) == CheckFile(file, ctx)
  {
    assert [file][1..] == [];
    if CheckFile(file, ctx).Ok? {
      assert CheckFile(file, ctx).value + [] == CheckFile(file, ctx).value;
    }
  }

  /**
   * A passing run passes every file, and its reports are exactly the
   * reports of its files.
   */
  lemma {:induction false} RunReportsExactly(files: seq<SourceFile>, ctx: Context, x: Report)
    requires CheckFiles(files, ctx).Ok?
    ensures forall i :: 0 <= i < |files| ==> CheckFile(files[i], ctx).Ok?
    ensures x in CheckFiles(files, ctx).value <==>
      exists i :: 0 <= i < |files| && CheckFile(files[i], ctx).Ok? && x in CheckFile(files[i], ctx).value
    decreases files
  {
    if files != [] {
      var head, rest := CheckFile(files[0], ctx), CheckFiles(files[1..], ctx);
      assert head.Ok? && rest.Ok? && CheckFiles(files, ctx).value == head.value + rest.value;
      RunReportsExactly(files[1..], ctx, x);
      forall i | 0 < i < |files| ensures CheckFile(files[i], ctx).Ok? {
        assert files[i] == files[1..][i - 1];
      }
      if x in rest.value {
        var i :| 0 <= i < |files[1..]| && CheckFile(files[1..][i], ctx).Ok? && x in CheckFile(files[1..][i], ctx).value;
        assert files[1..][i] == files[i + 1];
      }
      if exists i :: 0 <= i < |files| && CheckFile(files[i], ctx).Ok? && x in CheckFile(files[i], ctx).value {
        var i :| 0 <= i < |files| && CheckFile(files[i], ctx).Ok? && x in CheckFile(files[i], ctx).value;
        if i > 0 {
          assert files[i] == files[1..][i - 1];
        }
      }
    }
  }
}
