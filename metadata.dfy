/**
 * The metadata resolver: from the type of an endpoint's metadata type
 * argument to the list of error identifiers it permits, and from that list
 * to the type a thrown error's `id` must be assignable to.
 *
 * The source writes the extraction as one filter/map/flatMap chain; each
 * stage is a function here, and AllowedIdentifiers composes them in the
 * source's order.
 */
module Metadata {
  import opened Wrappers
  import opened Types

  /** Stage 1, `.filter(s => s.getName() === "errors")`. */
  function ErrorsSymbols(props: seq<Symbol>): (r: seq<Symbol>)
    ensures forall s :: s in r <==> s in props && s.name == "errors"
    ensures |r| <= |props|
    ensures (forall s :: s in props ==> s.name != "errors") ==> r == []
  {
    if props == [] then []
    else (if props[0].name == "errors" then [props[0]] else []) + ErrorsSymbols(props[1..])
  }

  /**
   * Stages 2 and 3, `.map(getTypeOfSymbolAtLocation).flatMap(getProperties)`:
   * the properties of the type of every `errors` symbol, one after the other.
   */
  function ErrorEntries(errs: seq<Symbol>, file: string, ck: Checker): (r: seq<Symbol>)
    ensures forall p :: p in r <==>
      exists e :: e in errs && p in ck.typeOfSymbol(e, file).properties
  {
    if errs == [] then []
    else
      var rest := ErrorEntries(errs[1..], file, ck);
      assert forall e :: e in errs <==> e == errs[0] || e in errs[1..];
      ck.typeOfSymbol(errs[0], file).properties + rest
  }

  /**
   * Stages 4 and 5, `.map(s => typeOf(s).getProperty("id")).filter(x => !!x)`:
   * the `id` symbol of every entry's type, dropping entries that have none.
   */
  function IdSymbols(entries: seq<Symbol>, file: string, ck: Checker): (r: seq<Symbol>)
    ensures forall i :: i in r <==>
      exists p :: p in entries && GetProperty(ck.typeOfSymbol(p, file), "id") == Some(i)
    ensures |r| <= |entries|
  {
    if entries == [] then []
    else
      var rest := IdSymbols(entries[1..], file, ck);
      assert forall p :: p in entries <==> p == entries[0] || p in entries[1..];
      match GetProperty(ck.typeOfSymbol(entries[0], file), "id")
      case Some(i) => [i] + rest
      case None => rest
  }

  /**
   * Stages 6 to 8, `.map(typeOf).filter(isStringLiteral).map(getLiteralValue)`:
   * the literal values of the `id` types that are string literal types.
   */
  function LiteralValues(ids: seq<Symbol>, file: string, ck: Checker): (r: seq<string>)
    ensures forall v :: v in r <==>
      exists i :: i in ids && ck.typeOfSymbol(i, file).stringLiteral == Some(v)
    ensures |r| <= |ids|
  {
    if ids == [] then []
    else
      var rest := LiteralValues(ids[1..], file, ck);
      assert forall i :: i in ids <==> i == ids[0] || i in ids[1..];
      match ck.typeOfSymbol(ids[0], file).stringLiteral
      case Some(v) => [v] + rest
      case None => rest
  }

  /**
   * The permitted identifiers of an endpoint whose metadata type is `meta`,
   * with duplicates, in property order. Without an `errors` property
   * nothing is permitted.
   */
  function AllowedIdentifiers(meta: Ty, file: string, ck: Checker): (r: seq<string>)
    ensures (forall s :: s in meta.properties ==> s.name != "errors") ==> r == []
  {
    var entries := ErrorEntries(ErrorsSymbols(meta.properties), file, ck);
    LiteralValues(IdSymbols(entries, file, ck), file, ck)
  }

  /** The identifiers permitted by the `errors` entries `entries`, in their order. */
  function EntryIdentifiers(entries: seq<Symbol>, file: string, ck: Checker): seq<string>
  {
    LiteralValues(IdSymbols(entries, file, ck), file, ck)
  }

  /**
   * The declaration path of a permitted value: `e` is an `errors` property
   * of the metadata type, `p` an entry of its type, `i` that entry's `id`
   * property, and the type of `i` is the string literal type of `v`.
   */
  ghost predicate Declares(meta: Ty, file: string, ck: Checker, e: Symbol, p: Symbol, i: Symbol, v: string)
  {
    && e in meta.properties && e.name == "errors"
    && p in ck.typeOfSymbol(e, file).properties
    && GetProperty(ck.typeOfSymbol(p, file), "id") == Some(i)
    && ck.typeOfSymbol(i, file).stringLiteral == Some(v)
  }

  /**
   * A value is permitted exactly when some `errors` property of the
   * metadata type has an entry whose `id` property's type is the string
   * literal type of that value.
   */
  lemma AllowedIdentifiersExactly(meta: Ty, file: string, ck: Checker, v: string)
    ensures v in AllowedIdentifiers(meta, file, ck) <==>
      exists e, p, i :: Declares(meta, file, ck, e, p, i, v)
  {
    var errs := ErrorsSymbols(meta.properties);
    var entries := ErrorEntries(errs, file, ck);
    var ids := IdSymbols(entries, file, ck);
    if v in AllowedIdentifiers(meta, file, ck) {
      var i :| i in ids && ck.typeOfSymbol(i, file).stringLiteral == Some(v);
      var p :| p in entries && GetProperty(ck.typeOfSymbol(p, file), "id") == Some(i);
      var e :| e in errs && p in ck.typeOfSymbol(e, file).properties;
      assert Declares(meta, file, ck, e, p, i, v);
    }
    if exists e, p, i :: Declares(meta, file, ck, e, p, i, v) {
      var e, p, i :| Declares(meta, file, ck, e, p, i, v);
      assert e in errs;
      assert p in entries;
      assert i in ids;
    }
  }

  /** Entries contribute in order: the list for `a + b` is the list for `a` followed by the list for `b`. */
  lemma {:induction false} EntryIdentifiersAppend(a: seq<Symbol>, b: seq<Symbol>, file: string, ck: Checker)
    ensures EntryIdentifiers(a + b, file, ck) == EntryIdentifiers(a, file, ck) + EntryIdentifiers(b, file, ck)
    decreases a
  {
    if a == [] {
      assert a + b == b;
    } else {
      assert (a + b)[1..] == a[1..] + b;
      EntryIdentifiersAppend(a[1..], b, file, ck);
      var t := ck.typeOfSymbol(a[0], file);
      match GetProperty(t, "id")
      case None =>
      case Some(i) =>
        var ids := IdSymbols(a + b, file, ck);
        assert ids == [i] + IdSymbols(a[1..] + b, file, ck);
        assert ids[1..] == IdSymbols(a[1..] + b, file, ck);
        assert IdSymbols(a, file, ck)[1..] == IdSymbols(a[1..], file, ck);
    }
  }

  /** The target built from the identifiers: `never` for none, otherwise their union. */
  function TargetOf(allowed: seq<string>): (t: Target)
    ensures t == Never <==> allowed == []
    ensures t.Union? ==> t.literals == allowed
  {
    if |allowed| > 0 then Union(allowed) else Never
  }

  /**
   * Under TypeScript's literal semantics, a string literal `id` type is
   * accepted by the target exactly when its value is permitted; with
   * nothing permitted, it is never accepted.
   */
  lemma TargetAcceptsExactlyAllowed(allowed: seq<string>, assignable: (Ty, Target) -> bool, t: Ty)
    requires LiteralSemantics(assignable)
    requires t.stringLiteral.Some?
    ensures assignable(t, TargetOf(allowed)) <==> t.stringLiteral.value in allowed
  {
    if allowed == [] {
      assert !assignable(t, Never);
    } else {
      assert assignable(t, Union(allowed)) <==> t.stringLiteral.value in allowed;
    }
  }
}
