# Protected-region support: builder and merge driver, in Dafny

This project models the core of `AbstractProtectedRegionSupport` from the
xtext-protected-regions repository. That class keeps hand-written code inside
"protected regions" across regenerations of generated files. It has two parts:

- `Builder` registers region parsers under path filters. It reads directories of
  previously generated files into a **protected-region pool**, a map from region
  id to region. After the first read that completes, registration is locked.
  A region id may enter the pool only once per run; a second sighting of an id
  inside one file (two parsers with the same comment starts) is skipped silently.
- `mergeProtectedRegions` runs every parser whose filter accepts a generated
  file, one after another. Each parser re-parses the previous step's output and
  either merges it against the pool (forward) or fills it in from the file on
  disk (inverse).

## Layout

- `Errors.dfy`: `Option`, `Outcome`, `Result`, and `Failure`, the exceptions as values.
- `Documents.dfy`: `Region` (`Plain` or `Marked(id, content)`), `Document`, `Pool`,
  and the pool invariant `WellKeyed` (every entry is a marked region stored under its own id).
- `PathFilters.dfy`: `String.startsWith`/`endsWith`, and the `PathFilter` class
  (accept-all, file-extension, or caller-supplied). It is a class so that the
  parser table's keys compare by object identity, which is what Java's `HashMap`
  does for the accept-all and file-extension filters, since neither overrides `equals`.
- `Collaborators.dfy`: the region parser, `RegionUtil.merge`/`fillIn`, `IDocument.getContents`, the file-system
  reader and the factory. Each is a function-valued field that nothing constrains.
- `RegionPool.dfy`: how `internal_read` fills the pool. It is written as three left folds:
  regions of a document, parsers on a file, files of a read. A raised failure is kept.
  Next to the folds are the lemmas about them, including a reference definition
  (`CleanKeys`) of a read that does not throw.
- `RegionSupport.dfy`: `mergeProtectedRegions` as the fold `MergeSteps`, its lemmas,
  and the support class whose method is proved equal to the fold.
- `Builders.dfy`: the parser table with map-put semantics (`Put`), and the `Builder`
  class. Each loop of `internal_read` (files, parsers, regions) is its own method,
  proved equal to the matching fold.

`isVisited` is modelled as written: a plain string-prefix test on canonical paths.
So after `/a/src` was read, `/a/src-gen` counts as visited too.

## Model

| member | source | states |
|---|---|---|
| PathFilters.EndsWithIff | net.danieldietrich.protectedregions/src/main/java/net/danieldietrich/protectedregions/support/AbstractProtectedRegionSupport.java:226 | `endsWith(e)` holds exactly when the path is some string followed by `e` |
| PathFilters.StartsWithIff | net.danieldietrich.protectedregions/src/main/java/net/danieldietrich/protectedregions/support/AbstractProtectedRegionSupport.java:151 | `startsWith(p)` holds exactly when the path is `p` followed by some string |
| PathFilters.PathFilter.Accept | net.danieldietrich.protectedregions/src/main/java/net/danieldietrich/protectedregions/support/AbstractProtectedRegionSupport.java:224-230 | the accept-all filter accepts every path; a FileExtensionFilter accepts exactly the paths that end with one of its extensions; a custom filter answers its own predicate |
| Builders.Builder.constructor | net.danieldietrich.protectedregions/src/main/java/net/danieldietrich/protectedregions/support/AbstractProtectedRegionSupport.java:72-91 | a new builder has no parsers, an empty pool, no visited paths, is unlocked, and holds one ACCEPT_ALL filter object |
| Builders.Put | net.danieldietrich.protectedregions/src/main/java/net/danieldietrich/protectedregions/support/AbstractProtectedRegionSupport.java:117 | after `parsers.put(f, p)`, `f` finds `p`; the key set gains `f`; keys stay distinct; a filter not yet registered is appended |
| Builders.PutKeepsOthers | net.danieldietrich.protectedregions/src/main/java/net/danieldietrich/protectedregions/support/AbstractProtectedRegionSupport.java:117 | `put` under one filter leaves every other filter's parser as it was |
| Builders.Builder.AddParserWithFilter | net.danieldietrich.protectedregions/src/main/java/net/danieldietrich/protectedregions/support/AbstractProtectedRegionSupport.java:108-119 | a null parser throws; then a locked builder throws; both leave the table unchanged; otherwise the parser is put under the filter, or under ACCEPT_ALL when the filter is null |
| Builders.Builder.AddParser | net.danieldietrich.protectedregions/src/main/java/net/danieldietrich/protectedregions/support/AbstractProtectedRegionSupport.java:93-97 | registers under ACCEPT_ALL, so a second `addParser(p)` replaces the first; same refusals as above |
| Builders.Builder.AddParserForExtensions | net.danieldietrich.protectedregions/src/main/java/net/danieldietrich/protectedregions/support/AbstractProtectedRegionSupport.java:99-106 | null or empty extensions throw first; otherwise the parser is appended under a fresh extension filter that no earlier entry shares, after the null-parser and lock checks |
| Builders.Builder.IsVisited | net.danieldietrich.protectedregions/src/main/java/net/danieldietrich/protectedregions/support/AbstractProtectedRegionSupport.java:149-156 | true exactly when some visited path is a prefix of the canonical path |
| Builders.Builder.IngestDocument | net.danieldietrich.protectedregions/src/main/java/net/danieldietrich/protectedregions/support/AbstractProtectedRegionSupport.java:182-202 | the region loop leaves the pool, the per-file seen ids and the outcome that `IngestRegions` gives, the partial pool included when it throws |
| Builders.Builder.IngestFileRegions | net.danieldietrich.protectedregions/src/main/java/net/danieldietrich/protectedregions/support/AbstractProtectedRegionSupport.java:166-203 | the seen ids are cleared for each file, then each accepting parser has its turn, as `IngestParsers` gives |
| Builders.Builder.InternalRead | net.danieldietrich.protectedregions/src/main/java/net/danieldietrich/protectedregions/support/AbstractProtectedRegionSupport.java:158-205 | the pool and outcome after the read are those of `IngestFiles` over the listed files, and the pool stays well keyed |
| Builders.Builder.Read | net.danieldietrich.protectedregions/src/main/java/net/danieldietrich/protectedregions/support/AbstractProtectedRegionSupport.java:127-147 | no parsers: throws, nothing changes; missing path: returns, nothing changes; no files: throws "no directory", nothing changes; visited prefix: skipped, nothing changes; otherwise the pool is as `IngestFiles` gives, and only when that completes is the canonical path recorded and registration locked; the pool never loses or changes an entry; a read that fails although every file parses throws "duplicate region id" naming an id of one of its files that the pool already held or an earlier file of the read brought |
| Builders.Builder.ReadAll | net.danieldietrich.protectedregions/src/main/java/net/danieldietrich/protectedregions/support/AbstractProtectedRegionSupport.java:121-125 | `read(path)` is `read(path, null)`: the same four guard cases with the same outcomes and no state change, and otherwise the pool as `IngestFiles` gives over all files of the path, with the canonical path recorded and registration locked only when that completes |
| Builders.Builder.Build | net.danieldietrich.protectedregions/src/main/java/net/danieldietrich/protectedregions/support/AbstractProtectedRegionSupport.java:207-213 | a fresh support from the factory, holding the builder's parser table and pool |
| Builders.ReadThenRegister | net.danieldietrich.protectedregions/src/main/java/net/danieldietrich/protectedregions/support/AbstractProtectedRegionSupport.java:113-145 | after a read that went through `internal_read`, or on an already locked builder, `addParser` throws and the table is unchanged |
| RegionPool.IngestRegionsSummary | net.danieldietrich.protectedregions/src/main/java/net/danieldietrich/protectedregions/support/AbstractProtectedRegionSupport.java:182-200 | ingesting a document succeeds exactly when none of its ids not yet seen in the file is pooled; it never removes or replaces an entry; it keeps the pool well keyed; on success it adds those ids, each with its first region, and marks all of the document's ids as seen; a failure names an id that was already pooled |
| RegionPool.PlainRegionsAreIgnored | net.danieldietrich.protectedregions/src/main/java/net/danieldietrich/protectedregions/support/AbstractProtectedRegionSupport.java:184-185 | dropping the plain regions of a document does not change what it does to the pool |
| RegionPool.SeenIdsAreSkipped | net.danieldietrich.protectedregions/src/main/java/net/danieldietrich/protectedregions/support/AbstractProtectedRegionSupport.java:190-194 | a document whose ids were all seen already in this file changes neither the pool nor the outcome |
| RegionPool.SecondSightingIsSilent | net.danieldietrich.protectedregions/src/main/java/net/danieldietrich/protectedregions/support/AbstractProtectedRegionSupport.java:190-194 | when two parsers find the same document in one file, the second finding is a no-op rather than a duplicate error |
| RegionPool.IngestParsersGrows | net.danieldietrich.protectedregions/src/main/java/net/danieldietrich/protectedregions/support/AbstractProtectedRegionSupport.java:169-203 | the parsers' turns on a file never remove or replace a pool entry, even when one throws, and keep the pool well keyed |
| RegionPool.IngestParsersIsConcat | net.danieldietrich.protectedregions/src/main/java/net/danieldietrich/protectedregions/support/AbstractProtectedRegionSupport.java:169-203 | the parsers' turns on one file act as one ingest of their documents concatenated in table order; an unreadable or unparsable file throws |
| RegionPool.IngestFilesSummary | net.danieldietrich.protectedregions/src/main/java/net/danieldietrich/protectedregions/support/AbstractProtectedRegionSupport.java:164-204 | a read never removes or replaces a pool entry and keeps the pool well keyed; it completes exactly when the reference definition `CleanKeys` does, and then the pool keys are the ones `CleanKeys` computes and each new id holds the first marked region with that id among one file's accepting parsers, in table order |
| RegionPool.CleanKeysIff | net.danieldietrich.protectedregions/src/main/java/net/danieldietrich/protectedregions/support/AbstractProtectedRegionSupport.java:197-200 | a read is clean exactly when every file can be read and parsed, no file brings a pooled id and no two files share an id; the keys afterwards are the old keys plus every file's ids |
| RegionPool.FailedReadNamesClash | net.danieldietrich.protectedregions/src/main/java/net/danieldietrich/protectedregions/support/AbstractProtectedRegionSupport.java:164-200 | a read that fails although every file can be read and parsed fails with "duplicate region id" for an id that one of its files brings and that the pool held before the read or an earlier file of the read brought |
| RegionPool.CrossFileDuplicateThrows | net.danieldietrich.protectedregions/src/main/java/net/danieldietrich/protectedregions/support/AbstractProtectedRegionSupport.java:164-200 | two different files of one read that carry the same id make the read throw, because the seen set is cleared per file; when every file parses, what it throws is a duplicate-region-id failure |
| RegionPool.PooledIdThrows | net.danieldietrich.protectedregions/src/main/java/net/danieldietrich/protectedregions/support/AbstractProtectedRegionSupport.java:197-199 | a file that carries an id pooled by an earlier read makes the read throw; when every file parses, what it throws is a duplicate-region-id failure |
| RegionPool.NoRollback | net.danieldietrich.protectedregions/src/main/java/net/danieldietrich/protectedregions/support/AbstractProtectedRegionSupport.java:197-200 | entries pooled from earlier files of a read remain, unchanged, after the read, even when a later file throws |
| RegionSupport.ProtectedRegionSupport.constructor | net.danieldietrich.protectedregions/src/main/java/net/danieldietrich/protectedregions/support/AbstractProtectedRegionSupport.java:23-25 | a support holds the given reader |
| RegionSupport.ProtectedRegionSupport.SetParsers | net.danieldietrich.protectedregions/src/main/java/net/danieldietrich/protectedregions/support/AbstractProtectedRegionSupport.java:55-57 | the support's table becomes the given one |
| RegionSupport.ProtectedRegionSupport.SetProtectedRegionPool | net.danieldietrich.protectedregions/src/main/java/net/danieldietrich/protectedregions/support/AbstractProtectedRegionSupport.java:60-62 | the support's pool becomes the given one |
| RegionSupport.ProtectedRegionSupport.MergeProtectedRegions | net.danieldietrich.protectedregions/src/main/java/net/danieldietrich/protectedregions/support/AbstractProtectedRegionSupport.java:28-52 | the loop returns what the fold `Merged` gives for the support's table and pool |
| RegionSupport.UntouchedIff | net.danieldietrich.protectedregions/src/main/java/net/danieldietrich/protectedregions/support/AbstractProtectedRegionSupport.java:29-51 | the document stays null exactly when no filter of the table accepts the file name |
| RegionSupport.NoParserKeepsContents | net.danieldietrich.protectedregions/src/main/java/net/danieldietrich/protectedregions/support/AbstractProtectedRegionSupport.java:51 | when no filter accepts the file, the generated contents are returned as they are |
| RegionSupport.OnlyAcceptingCount | net.danieldietrich.protectedregions/src/main/java/net/danieldietrich/protectedregions/support/AbstractProtectedRegionSupport.java:30-33 | parsers whose filter rejects the file take no part: the merge equals the merge over the accepting entries alone |
| RegionSupport.ForwardParsersChain | net.danieldietrich.protectedregions/src/main/java/net/danieldietrich/protectedregions/support/AbstractProtectedRegionSupport.java:35-48 | with two accepting forward parsers, the second parses the first one's merged output, not the generated contents, and the result is its merge against the pool |
| RegionSupport.InverseParserFillsIn | net.danieldietrich.protectedregions/src/main/java/net/danieldietrich/protectedregions/support/AbstractProtectedRegionSupport.java:41-46 | for a table whose only parser accepting the file is an inverse one: an inverse parser whose file reads as null leaves the document as re-parsed; otherwise the result is `fillIn` of that document with the parsed file, or a throw when the file does not parse |
| RegionSupport.MalformedContentsThrow | net.danieldietrich.protectedregions/src/main/java/net/danieldietrich/protectedregions/support/AbstractProtectedRegionSupport.java:35-36 | when the first accepting parser rejects the generated contents, the merge throws |

## Left out

- The region parser's scanning, `RegionUtil.merge`, `RegionUtil.fillIn` and `IDocument.getContents` are not part of this model. Their sources are not available, so they are function-valued fields that nothing constrains. Nothing is claimed about losslessness, about the marker text a document prints, or about merge semantics.
- `IRegionParser.parse` may throw on malformed text. This is modelled as `None` and surfaces as `MalformedInput`. Exceptions thrown by `merge`/`fillIn` are not modelled.
- `IFileSystemReader` is a value of function fields (`pathExists`, `hasFiles`, `canonicalPath`, `listFiles`, `listFilteredFiles`, `readFile`). It performs file-system I/O. `listFiles(path, filter)` is the reader's own function and is not tied to the filter's `accept`.
- `readFile` returning null for a listed file inside `internal_read` hands null to the parser, whose reaction is not part of this model. The model aborts the read there with `UnreadableFile`.
- The iteration order of the `HashMap` of parsers is unspecified in Java. The model uses the order of the table (insertion order, with a re-registered filter keeping its place). Every lemma holds for any table order.
- `build()` hands the builder's own map objects to the support, so a later `read` on the builder also changes the support's pool. The model copies the values at `build` time. It does not capture that aliasing.
- `ACCEPT_ALL_FILTER` is static in Java and shared by all builders. The model gives each builder one such object; only identity within one builder affects behaviour.
- `IFactory.createInstance` is a `Factory` value that fixes the reader and the merge functions of the support it builds. Reflection-style construction is not modelled.
- `LOGGER.warning` for a skipped path is a side effect with no checkable outcome and is left out.
- A support whose `setParsers` or `setProtectedRegionPool` was never called has a null table or a null pool in Java, because the constructor sets only the reader. A null table makes merging fail with a null-pointer exception at `parsers.keySet()` (line 30). A null pool is handed to `RegionUtil.merge` (line 48) when a forward parser accepts the file, and how `merge` reacts is not modelled. The model starts a support with an empty table and an empty pool.
- Filters are compared by object identity. A caller's `IPathFilter` that overrides `equals`/`hashCode`, so that two filter objects share one `HashMap` key, is not modelled.
- Null elements inside the extension array, and null paths, are not modelled: strings are never null here.
- `IProtectedRegionParser` (an interface only) and the `AllTests` suite declaration have no behaviour to model.
