# GraphQL query normalization and memoization, modelled in Dafny

This project models the query normalizer of the Viaduct GraphQL service and
the memoizing wrapper it is built on.

- `QueryNormalizer.normalizeGraphQLQuery` takes an optional operation name and a raw query text.
  It parses the text into a document and drops every `__typename` field from every operation and fragment definition, at any depth.
  It then picks the operation to normalize, derives the operation's signature, and hashes the printed signature with SHA-256.
  The hash is rendered as lower-case hex.
- The whole pipeline is memoized on the pair `(operationName, rawQuery)` through the `memoize(cache)` extension functions.

The model is purely functional. The syntax tree is a set of immutable datatypes, and every rewrite is a recursive function.
A memoized call is a step from a cache (a `map`) to an output and a new cache.

Modules, one per concept:

| file | module | models |
|---|---|---|
| `wrappers.dfy` | `Wrappers` | `Option` (a Kotlin nullable) and `Result` (a value or a thrown error) |
| `ast.dfy` | `GraphqlAst` | documents, definitions, selection sets and selections; the "no `__typename` anywhere" and "same except nested set" predicates |
| `pruner.dfy` | `Pruner` | `removeTypenameFields` and the definition-rewriting map over a document |
| `resolver.dfy` | `OperationResolver` | choosing the first (matching) operation, or the error |
| `hex.dfy` | `HexDigest` | the `"%02x"` fold over the digest bytes, with a decoder as its inverse |
| `memoize.dfy` | `Memoize` | `getOrPut`, the 1- and 2-argument `memoize(cache)` forms, the capacity-only forms |
| `normalizer.dfy` | `QueryNormalizer` | the pipeline `normalizeGraphQLQueryHelper` and its memoized entry point |

The external collaborators are parameters bundled in `QueryNormalizer.Services`: graphql-java's parser, `AstSignature.signatureQuery`, `AstPrinter.printAstCompact` and SHA-256.
SHA-256 is modelled as any function from a string to 32 bytes.

## Model

| member | source | states |
|---|---|---|
| `Pruner.RemoveTypenameFields` | src/main/kotlin/com/airbnb/viaduct/graphql/QueryNormalizer.kt:76-94 | no `__typename` field occurs at any depth of the result, and the top level is no longer than the input |
| `Pruner.PruneSelections` | src/main/kotlin/com/airbnb/viaduct/graphql/QueryNormalizer.kt:77-90 | the rebuilt list is no longer than the input and every element of it is free of `__typename` fields, itself and below |
| `Pruner.PruneSelection` | src/main/kotlin/com/airbnb/viaduct/graphql/QueryNormalizer.kt:79-89 | a survivor keeps its kind, name, alias, arguments, directives and type condition; only its nested set may change, and it has one exactly when the input did; fragment spreads, other selections and selections without a nested set come back unchanged; a field or inline fragment with a nested set gets exactly that set with its `__typename` fields removed; a survivor that is not a `__typename` field ends up free of them |
| `Pruner.SurvivorsMembership` | src/main/kotlin/com/airbnb/viaduct/graphql/QueryNormalizer.kt:77-79 | a selection survives the filter if and only if it is in the input and is not a `__typename` field |
| `Pruner.SurvivorsConcat` | src/main/kotlin/com/airbnb/viaduct/graphql/QueryNormalizer.kt:77-79 | the filter distributes over concatenation, so survivors keep their relative order |
| `Pruner.PruneIsFilterThenMap` | src/main/kotlin/com/airbnb/viaduct/graphql/QueryNormalizer.kt:77-90 | the output has one element per survivor, and the i-th output is the i-th survivor rebuilt |
| `Pruner.PruneSelectionsConcat` | src/main/kotlin/com/airbnb/viaduct/graphql/QueryNormalizer.kt:77-90 | pruning a concatenation is the concatenation of the pruned parts |
| `Pruner.EverySurvivorKept` | src/main/kotlin/com/airbnb/viaduct/graphql/QueryNormalizer.kt:77-89 | every input selection that is not a `__typename` field appears, rebuilt, in the output |
| `Pruner.OutputComesFromSurvivor` | src/main/kotlin/com/airbnb/viaduct/graphql/QueryNormalizer.kt:77-89 | every output selection is the rebuild of some input selection that is not a `__typename` field |
| `Pruner.PruneKeepsLengthIff` | src/main/kotlin/com/airbnb/viaduct/graphql/QueryNormalizer.kt:77-79 | one level keeps its length if and only if it holds no `__typename` field |
| `Pruner.RemoveTypenameFieldsIdentity` | src/main/kotlin/com/airbnb/viaduct/graphql/QueryNormalizer.kt:76-94 | a set without `__typename` fields at any depth is returned unchanged |
| `Pruner.FixedPointIff` | src/main/kotlin/com/airbnb/viaduct/graphql/QueryNormalizer.kt:76-94 | a set is left unchanged by the prune if and only if it holds no `__typename` field at any depth |
| `Pruner.RemoveTypenameFieldsIdempotent` | src/main/kotlin/com/airbnb/viaduct/graphql/QueryNormalizer.kt:76-94 | pruning an already pruned set returns it unchanged |
| `Pruner.TypenameInsertionInvisible` | src/main/kotlin/com/airbnb/viaduct/graphql/QueryNormalizer.kt:77-79 | inserting a `__typename` field at any position of a level does not change the pruned result |
| `Pruner.NormalizeDefinition` | src/main/kotlin/com/airbnb/viaduct/graphql/QueryNormalizer.kt:44-55 | a definition keeps its kind, names, type condition and directives, has a set exactly when it had one, and ends up free of `__typename` fields; other definitions are returned as they are |
| `Pruner.NormalizeDocument` | src/main/kotlin/com/airbnb/viaduct/graphql/QueryNormalizer.kt:42-57 | the document keeps the same number of definitions, index by index the same except for their sets, and none of them holds a `__typename` field |
| `Pruner.NormalizeDocumentPrunesEachSet` | src/main/kotlin/com/airbnb/viaduct/graphql/QueryNormalizer.kt:45-53 | an operation or fragment that owns a set gets exactly the pruned set; every other definition is returned as it was |
| `Pruner.NormalizeDocumentIdempotent` | src/main/kotlin/com/airbnb/viaduct/graphql/QueryNormalizer.kt:42-57 | rewriting a rewritten document changes nothing |
| `Pruner.NormalizeDocumentIdentity` | src/main/kotlin/com/airbnb/viaduct/graphql/QueryNormalizer.kt:42-57 | a document without `__typename` fields is returned unchanged |
| `OperationResolver.FirstSelectedFrom` | src/main/kotlin/com/airbnb/viaduct/graphql/QueryNormalizer.kt:60-63 | the index found is a qualifying operation with no qualifying one before it, and no index means no definition qualifies |
| `OperationResolver.ResolveOperation` | src/main/kotlin/com/airbnb/viaduct/graphql/QueryNormalizer.kt:60-64 | resolution succeeds if and only if some definition is an operation that matches the requested name (any operation when no name is given); the result is an operation carrying the requested name; otherwise the error with the source's fixed message |
| `OperationResolver.ResolveIsFirstOfOperations` | src/main/kotlin/com/airbnb/viaduct/graphql/QueryNormalizer.kt:60-64 | the resolver equals listing the operations in order, taking the first (matching) one, and failing on a null result |
| `OperationResolver.FirstOperationChosen` | src/main/kotlin/com/airbnb/viaduct/graphql/QueryNormalizer.kt:60-61 | with no name, the first operation in document order is chosen |
| `OperationResolver.FirstNamedOperationChosen` | src/main/kotlin/com/airbnb/viaduct/graphql/QueryNormalizer.kt:62-63 | with a name, the first operation with exactly that name is chosen, even after other operations |
| `OperationResolver.NoOperationFails` | src/main/kotlin/com/airbnb/viaduct/graphql/QueryNormalizer.kt:60-64 | a document without operations fails whatever name is requested |
| `HexDigest.Unsigned` | src/main/kotlin/com/airbnb/viaduct/graphql/QueryNormalizer.kt:71 | the value printed for a signed byte is below 256 and congruent to the byte modulo 256 |
| `HexDigest.HexDigit` | src/main/kotlin/com/airbnb/viaduct/graphql/QueryNormalizer.kt:71 | the digit printed for a nibble is a lower-case hex character whose value is the nibble |
| `HexDigest.FormatByte` | src/main/kotlin/com/airbnb/viaduct/graphql/QueryNormalizer.kt:71 | one byte prints as exactly two lower-case hex digits, zero-padded, whose value is the byte's unsigned value |
| `HexDigest.HexEncode` | src/main/kotlin/com/airbnb/viaduct/graphql/QueryNormalizer.kt:69-71 | n bytes give 2n characters forming well-formed lower-case hex text, and decoding that text gives the bytes back |
| `HexDigest.HexTextChars` | src/main/kotlin/com/airbnb/viaduct/graphql/QueryNormalizer.kt:69-71 | text is well-formed hex, the shape every rendering has, if and only if it has even length and every character is a lower-case hex digit |
| `HexDigest.EncodeDecode` | src/main/kotlin/com/airbnb/viaduct/graphql/QueryNormalizer.kt:69-71 | every even-length lower-case hex string is the rendering of the bytes it decodes to |
| `HexDigest.HexEncodeInjective` | src/main/kotlin/com/airbnb/viaduct/graphql/QueryNormalizer.kt:69-71 | different digests render to different strings |
| `QueryNormalizer.OperationHash` | src/main/kotlin/com/airbnb/viaduct/graphql/QueryNormalizer.kt:69-71 | a 32-byte digest renders to 64 lower-case hex characters that decode back to the digest |
| `QueryNormalizer.NormalizeHelper` | src/main/kotlin/com/airbnb/viaduct/graphql/QueryNormalizer.kt:36-74 | a parse failure is passed on with the parser's message; a parsed query fails if and only if no operation of the parsed document qualifies, and then with the unresolvable-operation error and its fixed message, never as a parse error; a success carries a document without `__typename` fields and a 64-character hex hash that decodes to the digest of the printed signature; the document returned is the pruned parsed document, and the printed signature is the printer's output for the signature of that document under the name of the operation the parsed document resolves to |
| `QueryNormalizer.ResolveAfterNormalize` | src/main/kotlin/com/airbnb/viaduct/graphql/QueryNormalizer.kt:42-64 | the pruned document resolves exactly when the parsed one does, to the pruned copy of the same operation |
| `QueryNormalizer.NormalizeGraphQLQuery` | src/main/kotlin/com/airbnb/viaduct/graphql/QueryNormalizer.kt:33-34 | the call is the one-argument memoized pipeline keyed by the pair `(operationName, rawQuery)`; the pipeline runs if and only if that pair is not cached, so a cached query is neither parsed nor hashed again; with a cache that holds only pipeline results, the call returns what the pipeline returns and the cache keeps that property; failures are never cached; a success leaves its key cached; no other key changes |
| `QueryNormalizer.RepeatedQueryIsHit` | src/main/kotlin/com/airbnb/viaduct/graphql/QueryNormalizer.kt:33-34 | after a successful normalization, the same operation name and query text return the same result without running the pipeline and without changing the cache |
| `QueryNormalizer.TypenameDifferencesInvisible` | src/main/kotlin/com/airbnb/viaduct/graphql/QueryNormalizer.kt:42-73 | two queries whose parsed documents prune to the same tree normalize to the same result, hash included |
| `QueryNormalizer.ParseFailureNotCached` | src/main/kotlin/com/airbnb/viaduct/graphql/QueryNormalizer.kt:33-40 | an unparsable query fails with the parser's message and leaves no cache entry for its key |
| `Memoize.NewCache` | src/main/kotlin/com/airbnb/viaduct/utils/Memoize.kt:6-10 | the JVM map rejects a negative initial capacity with an `IllegalArgumentException`, and accepts every other capacity, the default 256 included, as a map without entries |
| `Memoize.GetOrPut` | src/main/kotlin/com/airbnb/viaduct/utils/Memoize.kt:14-15 | the function runs if and only if the key is absent; a hit returns the stored value and leaves the map unchanged; a miss returns the computed result and stores it only on success; no other key changes |
| `Memoize.Memoized1` | src/main/kotlin/com/airbnb/viaduct/utils/Memoize.kt:12-16 | with a cache holding only results of `f`, the call returns `f(a)` and the cache keeps that property; `f` runs if and only if `a` is not cached; no other key changes |
| `Memoize.Memoized2` | src/main/kotlin/com/airbnb/viaduct/utils/Memoize.kt:22-26 | the same, keyed by the pair `(a, b)`: a call leaves the entry of every pair differing in either argument unchanged |
| `Memoize.RepeatedCallIsHit` | src/main/kotlin/com/airbnb/viaduct/utils/Memoize.kt:14-15 | after a successful call, the same call returns the same value without running `f` and without changing the cache |
| `Memoize.RepeatedCallIsHit2` | src/main/kotlin/com/airbnb/viaduct/utils/Memoize.kt:24-25 | the same for the two-argument form |
| `Memoize.FailureIsRetried` | src/main/kotlin/com/airbnb/viaduct/utils/Memoize.kt:15 | a failed call leaves the cache unchanged, and the next identical call runs `f` again |
| `Memoize.FreshCacheMisses` | src/main/kotlin/com/airbnb/viaduct/utils/Memoize.kt:6-20 | the default capacity is accepted; on the map a capacity-only overload creates from an accepted capacity, the first call for any key runs the function and returns its result, in both forms |
| `Memoize.Run` | src/main/kotlin/com/airbnb/viaduct/utils/Memoize.kt:14-15 | a sequence of calls yields one output per call, runs `f` at most once per call, and never loses a cached key |
| `Memoize.RunIsTransparent` | src/main/kotlin/com/airbnb/viaduct/utils/Memoize.kt:14-15 | from a cache holding only results of `f`, every call of a sequence returns `f` of its key, and the cache keeps that property |
| `Memoize.RunInvokesOncePerKey` | src/main/kotlin/com/airbnb/viaduct/utils/Memoize.kt:14-15 | when `f` succeeds, it runs exactly once per distinct key that was not already cached |
| `Memoize.RunCachesEveryKey` | src/main/kotlin/com/airbnb/viaduct/utils/Memoize.kt:14-15 | when `f` succeeds, the cache ends up holding its old keys plus every key of the sequence |

## Left out

- Parsing (`Parser().parseDocument`), `AstSignature().signatureQuery`, `AstPrinter.printAstCompact` and SHA-256 (`MessageDigest`, with `toByteArray`'s charset) are library code. They are parameters of `QueryNormalizer.Services` and nothing is assumed of them beyond their types. The digest is any function to 32 bytes. The signature and the printer receive the modelled tree, so a difference the tree leaves out, such as a comment or a source location, cannot change the hash in the model.
- The syntax tree keeps what normalization reads, rebuilds or passes on to the signature and the printer: names, aliases, arguments with opaque literal values, directives with their arguments, an operation's variable definitions (name, type and default as opaque text), type conditions and nested sets. Source locations, comments and ignored characters are not modelled, and neither are variable definitions on fragment definitions, which the GraphQL specification does not allow.
- Caffeine's `maximumSize(1_000)` bound and its eviction are not modelled. The eviction policy is internal to the library; the model's cache only grows.
- Concurrency of `ConcurrentMap.getOrPut` is not modelled. The calls are sequential. Under a race the Kotlin extension may run the function more than once before `putIfAbsent` settles.
- `getOrPut` recomputes when a stored value is null. This is not modelled because the cached `NormalizedQuery` is never null.
- The 3-, 4- and 5-argument `memoize` forms are not modelled. They repeat the 2-argument pattern with `Triple`, `Quadruple` and `Quintuple` keys, and the last two types are not part of this model.
- The unresolvable-operation error carries only the fixed message of the `RuntimeException` thrown at QueryNormalizer.kt:64; it names neither the requested nor the available operations.
- Re-normalizing the printed signature is not modelled, nor is any claim that doing so gives the same hash. That property depends entirely on the signature and printer libraries.
