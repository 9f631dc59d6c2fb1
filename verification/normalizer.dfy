/** `QueryNormalizer.normalizeGraphQLQuery`: parse, prune every definition,
    resolve the operation, derive its signature, hash the printed signature;
    the whole pipeline memoized on `(operationName, rawQuery)`. The parser,
    the signature transform, the printer and SHA-256 are library code and
    appear here as parameters. */
module QueryNormalizer {
  import opened Wrappers
  import opened GraphqlAst
  import opened Pruner
  import opened OperationResolver
  import opened HexDigest
  import Memoize

  /** The number of bytes of a SHA-256 digest. */
  const DigestLength: nat := 32

  type Digest = s: seq<int8> | |s| == DigestLength witness seq(32, _ => 0 as int8)

  /** The result record: the hex digest of the printed signature, the printed
      signature itself, and the pruned document. */
  datatype NormalizedQuery = NormalizedQuery(operationHash: string, printedAst: string, normalizedDocument: Document)

  /** A parse failure carries the parser's message; an unresolvable operation
      carries the resolver's error. */
  datatype NormalizeError = ParseError(message: string) | Unresolvable(cause: ResolveError)

  /** The library collaborators the normalizer calls: graphql-java's parser,
      `AstSignature.signatureQuery`, `AstPrinter.printAstCompact`, and SHA-256
      over the bytes of a string. */
  datatype Services = Services(
    parseDocument: string -> Result<Document, string>,
    signatureQuery: (Document, Option<string>) -> Document,
    printAstCompact: Document -> string,
    sha256: string -> Digest)

  /** The hex rendering of a SHA-256 digest: 64 lower-case digits that read
      back as the digest. */
  function OperationHash(d: Digest): (h: string)
    ensures |h| == 2 * DigestLength == 64
    ensures IsHexText(h)
    ensures HexDecode(h) == Some(d)
  {
    HexEncode(d)
  }

  /** `normalizeGraphQLQueryHelper`, the un-memoized pipeline. */
  function NormalizeHelper(services: Services, operationName: Option<string>, rawQuery: string)
    : (r: Result<NormalizedQuery, NormalizeError>)
    ensures services.parseDocument(rawQuery).Failure? ==>
              r == Failure(ParseError(services.parseDocument(rawQuery).error))
    ensures services.parseDocument(rawQuery).Success? ==>
              (r.Failure? <==> ResolveOperation(services.parseDocument(rawQuery).value, operationName).Failure?)
    ensures services.parseDocument(rawQuery).Success? && r.Failure? ==>
              r.error == Unresolvable(UnresolvableOperation(UnresolvableMessage))
    ensures r.Success? ==> DocumentTypenameFree(r.value.normalizedDocument)
    ensures r.Success? ==> |r.value.operationHash| == 64 && IsHexText(r.value.operationHash)
    ensures r.Success? ==> HexDecode(r.value.operationHash) == Some(services.sha256(r.value.printedAst))
    ensures r.Success? ==> r.value.normalizedDocument == NormalizeDocument(services.parseDocument(rawQuery).value)
    ensures r.Success? ==>
              var parsed := services.parseDocument(rawQuery).value;
              r.value.printedAst
              == services.printAstCompact(services.signatureQuery(
                   NormalizeDocument(parsed), ResolveOperation(parsed, operationName).value.operationName))
  {
    match services.parseDocument(rawQuery)
    case Failure(message) => Failure(ParseError(message))
    case Success(rawDoc) =>
      var normalizedDoc := NormalizeDocument(rawDoc);
      ResolveAfterNormalize(rawDoc, operationName);
      match ResolveOperation(normalizedDoc, operationName)
      case Failure(e) => Failure(Unresolvable(e))
      case Success(operation) =>
        var signatureDoc := services.signatureQuery(normalizedDoc, operation.operationName);
        var printedAst := services.printAstCompact(signatureDoc);
        Success(NormalizedQuery(OperationHash(services.sha256(printedAst)), printedAst, normalizedDoc))
  }

  /** Pruning does not change which operation is chosen: the normalized
      document resolves exactly when the parsed one does, to the pruned copy
      of the same operation. */
  lemma ResolveAfterNormalize(doc: Document, operationName: Option<string>)
    ensures ResolveOperation(NormalizeDocument(doc), operationName).Success?
            == ResolveOperation(doc, operationName).Success?
    ensures ResolveOperation(doc, operationName).Success? ==>
              ResolveOperation(NormalizeDocument(doc), operationName).value
              == NormalizeDefinition(ResolveOperation(doc, operationName).value)
  {
    var defs, norm := doc.definitions, NormalizeDocument(doc).definitions;
    assert forall j :: 0 <= j < |defs| ==> (Selects(norm[j], operationName) <==> Selects(defs[j], operationName));
  }

  /** The key of the cache: the optional operation name and the raw text,
      compared exactly. */
  type CacheKey = (Option<string>, string)

  /** The pipeline as the two-argument function that gets memoized. */
  function Pipeline(services: Services): (Option<string>, string) -> Result<NormalizedQuery, NormalizeError>
  {
    (operationName: Option<string>, rawQuery: string) => NormalizeHelper(services, operationName, rawQuery)
  }

  /** Every cached entry is what the pipeline computes for its key. */
  ghost predicate CacheHolds(services: Services, cache: map<CacheKey, NormalizedQuery>) {
    Memoize.Consistent(cache, Memoize.Paired(Pipeline(services)))
  }

  /** `normalizeGraphQLQuery(operationName, rawQuery)`: the memoized pipeline.
      Its callers see exactly what the pipeline computes; failures are passed
      on and never cached; only the entry of the call's own key can change. */
  function NormalizeGraphQLQuery(services: Services, cache: map<CacheKey, NormalizedQuery>,
                                 operationName: Option<string>, rawQuery: string)
    : (r: Memoize.Call<CacheKey, NormalizedQuery, NormalizeError>)
    ensures r == Memoize.Memoized1(Memoize.Paired(Pipeline(services)), cache, (operationName, rawQuery))
    ensures CacheHolds(services, cache) ==>
              r.output == NormalizeHelper(services, operationName, rawQuery) && CacheHolds(services, r.cache)
    ensures r.computed <==> (operationName, rawQuery) !in cache
    ensures r.output.Failure? ==> r.cache == cache
    ensures r.output.Success? ==> (operationName, rawQuery) in r.cache
    ensures forall k :: k != (operationName, rawQuery) ==> Memoize.Untouched(cache, r.cache, k)
  {
    Memoize.Memoized2(Pipeline(services), cache, operationName, rawQuery)
  }

  /** A query normalized once is served from the cache afterwards: the same
      `(operationName, rawQuery)` returns the same result without running the
      pipeline, and the cache stays as it was. */
  lemma RepeatedQueryIsHit(services: Services, cache: map<CacheKey, NormalizedQuery>,
                           operationName: Option<string>, rawQuery: string)
    requires NormalizeGraphQLQuery(services, cache, operationName, rawQuery).output.Success?
    ensures var first := NormalizeGraphQLQuery(services, cache, operationName, rawQuery);
            var second := NormalizeGraphQLQuery(services, first.cache, operationName, rawQuery);
            second.output == first.output && !second.computed && second.cache == first.cache
  {
  }

  /** Documents that prune to the same tree, such as queries that differ only
      in `__typename` selections, normalize to the same hash and signature. */
  lemma TypenameDifferencesInvisible(services: Services, operationName: Option<string>, q1: string, q2: string)
    requires services.parseDocument(q1).Success? && services.parseDocument(q2).Success?
    requires NormalizeDocument(services.parseDocument(q1).value) == NormalizeDocument(services.parseDocument(q2).value)
    ensures NormalizeHelper(services, operationName, q1) == NormalizeHelper(services, operationName, q2)
  {
  }

  /** An unparsable query fails with the parser's message and leaves no cache entry. */
  lemma ParseFailureNotCached(services: Services, cache: map<CacheKey, NormalizedQuery>,
                              operationName: Option<string>, rawQuery: string)
    requires CacheHolds(services, cache)
    requires services.parseDocument(rawQuery).Failure?
    ensures var r := NormalizeGraphQLQuery(services, cache, operationName, rawQuery);
            r.output == Failure(ParseError(services.parseDocument(rawQuery).error))
            && r.cache == cache && (operationName, rawQuery) !in r.cache
  {
  }
}
