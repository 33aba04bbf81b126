/**
 * AbstractProtectedRegionSupport.Builder: registers parsers under path
 * filters, reads directories into the protected-region pool, and builds the
 * support. Registration is locked once a read has completed.
 */
module Builders {

  import opened Errors
  import opened Documents
  import opened PathFilters
  import opened Collaborators
  import opened RegionPool
  import opened RegionSupport

  /** parsers.get(filter): the parser registered under that filter object. */
  function Lookup(table: seq<Entry>, filter: PathFilter): Option<RegionParser> {
    if table == [] then None
    else if table[0].0 == filter then Some(table[0].1)
    else Lookup(table[1..], filter)
  }

  /** The filter objects of the table (parsers.keySet()). */
  function Filters(table: seq<Entry>): set<PathFilter> {
    if table == [] then {} else {table[0].0} + Filters(table[1..])
  }

  /** No filter object is registered twice, as with the keys of a map. */
  predicate DistinctFilters(table: seq<Entry>) {
    table == [] || (table[0].0 !in Filters(table[1..]) && DistinctFilters(table[1..]))
  }

  /** A filter belongs to the table exactly when some entry carries it. */
  lemma {:induction false} FiltersIff(table: seq<Entry>, filter: PathFilter)
    ensures filter in Filters(table) <==> exists i :: 0 <= i < |table| && table[i].0 == filter
  {
    if table != [] {
      FiltersIff(table[1..], filter);
      if exists i :: 0 <= i < |table| && table[i].0 == filter {
        var i :| 0 <= i < |table| && table[i].0 == filter;
        if i > 0 { assert table[1..][i - 1] == table[i]; }
      }
      if filter in Filters(table[1..]) {
        var i :| 0 <= i < |table[1..]| && table[1..][i].0 == filter;
        assert table[i + 1] == table[1..][i];
      }
    }
  }

  /**
   * parsers.put(filter, parser): the entry of the same filter object gets the
   * new parser in its place, and a filter not yet registered is added last.
   */
  function Put(table: seq<Entry>, filter: PathFilter, parser: RegionParser): (r: seq<Entry>)
    ensures Lookup(r, filter) == Some(parser)
    ensures Filters(r) == Filters(table) + {filter}
    ensures DistinctFilters(table) ==> DistinctFilters(r)
    ensures filter !in Filters(table) ==> r == table + [(filter, parser)]
  {
    if table == [] then [(filter, parser)]
    else if table[0].0 == filter then [(filter, parser)] + table[1..]
    else
      var rest := Put(table[1..], filter, parser);
      assert ([table[0]] + rest)[1..] == rest;
      [table[0]] + rest
  }

  /** After a put, every other filter object finds what it found before. */
  lemma {:induction false} PutKeepsOthers(table: seq<Entry>, filter: PathFilter, parser: RegionParser, other: PathFilter)
    requires other != filter
    ensures Lookup(Put(table, filter, parser), other) == Lookup(table, other)
  {
    if table != [] && table[0].0 != filter {
      PutKeepsOthers(table[1..], filter, parser, other);
    }
  }

  /** isVisited: the canonical path starts with a path read before. */
  ghost predicate Visited(visitedPaths: set<string>, canonicalPath: string) {
    exists p :: p in visitedPaths && StartsWith(canonicalPath, p)
  }

  /** The files a read walks: all files below the path, or those the read's filter lets through. */
  function Listing(reader: FileSystem, path: string, filter: PathFilter?): seq<string> {
    if filter == null then reader.listFiles(path) else reader.listFilteredFiles(path, filter)
  }

  /** One more file of a read: its parsers' turns start from the pool so far, with nothing seen. */
  lemma FileStep(pool0: Pool, files: seq<string>, i: nat, entries: seq<Entry>, reader: FileSystem)
    requires i < |files|
    requires IngestFiles(Start(pool0), files[..i], entries, reader).failure.None?
    ensures IngestFiles(Start(pool0), files[..i + 1], entries, reader)
         == IngestParsers(Ingest(IngestFiles(Start(pool0), files[..i], entries, reader).pool, {}, None), entries, files[i], reader)
  {
    assert files[..i + 1][..i] == files[..i];
  }

  class Builder {
    const reader: FileSystem
    const factory: Factory
    /** ACCEPT_ALL_FILTER: the one filter object that stands for "no filter". */
    const acceptAll: PathFilter

    var parsers: seq<Entry>
    var pool: Pool
    var visitedPaths: set<string>
    var locked: bool

    /**
     * The builder's invariant: the table is a map from filter objects, every
     * pool entry sits under its own id, and registration is locked exactly
     * when some read has completed, which needs a parser.
     */
    ghost predicate Valid()
      reads this
    {
      && acceptAll.kind.AcceptAll?
      && DistinctFilters(parsers)
      && WellKeyed(pool)
      && (locked <==> visitedPaths != {})
      && (locked ==> parsers != [])
    }

    constructor (reader: FileSystem, factory: Factory)
      ensures Valid()
      ensures this.reader == reader && this.factory == factory
      ensures parsers == [] && pool == map[] && visitedPaths == {} && !locked
    {
      this.reader := reader;
      this.factory := factory;
      acceptAll := new PathFilter(AcceptAll);
      parsers := [];
      pool := map[];
      visitedPaths := {};
      locked := false;
    }

    /**
     * addParser(parser, filter): a null parser is refused, then a locked
     * builder refuses; otherwise the parser is registered under the filter,
     * or under ACCEPT_ALL_FILTER when the filter is null.
     */
    method AddParserWithFilter(parser: RegionParser?, filter: PathFilter?) returns (r: Outcome)
      requires Valid()
      modifies this`parsers
      ensures Valid()
      ensures parser == null ==> r == Fail(NullParser) && parsers == old(parsers)
      ensures parser != null && locked ==> r == Fail(AddParserLocked) && parsers == old(parsers)
      ensures parser != null && !locked ==>
        r == Pass && parsers == Put(old(parsers), if filter == null then acceptAll else filter, parser)
    {
      if parser == null {
        return Fail(NullParser);
      }
      if locked {
        return Fail(AddParserLocked);
      }
      var parserFilter := if filter == null then acceptAll else filter;
      parsers := Put(parsers, parserFilter, parser);
      r := Pass;
    }

    /** addParser(parser): the parser applies to every file. */
    method AddParser(parser: RegionParser?) returns (r: Outcome)
      requires Valid()
      modifies this`parsers
      ensures Valid()
      ensures parser == null ==> r == Fail(NullParser) && parsers == old(parsers)
      ensures parser != null && locked ==> r == Fail(AddParserLocked) && parsers == old(parsers)
      ensures parser != null && !locked ==> r == Pass && parsers == Put(old(parsers), acceptAll, parser)
      ensures parser != null && !locked ==> Lookup(parsers, acceptAll) == Some(parser)
    {
      r := AddParserWithFilter(parser, null);
    }

    /**
     * addParser(parser, fileExtensions...): a null or empty list of extensions
     * is refused first; otherwise the parser is added under a new
     * FileExtensionFilter, which no earlier registration can share.
     */
    method AddParserForExtensions(parser: RegionParser?, extensions: Option<seq<string>>) returns (r: Outcome)
      requires Valid()
      modifies this`parsers
      ensures Valid()
      ensures (extensions.None? || extensions.value == []) ==> r == Fail(NoExtensions) && parsers == old(parsers)
      ensures extensions.Some? && extensions.value != [] ==>
        && (parser == null ==> r == Fail(NullParser) && parsers == old(parsers))
        && (parser != null && locked ==> r == Fail(AddParserLocked) && parsers == old(parsers))
        && (parser != null && !locked ==>
              && r == Pass
              && |parsers| == |old(parsers)| + 1
              && parsers[..|old(parsers)|] == old(parsers)
              && fresh(parsers[|old(parsers)|].0)
              && parsers[|old(parsers)|].0.kind == Extensions(extensions.value)
              && parsers[|old(parsers)|].1 == parser)
    {
      if extensions.None? || extensions.value == [] {
        return Fail(NoExtensions);
      }
      var filter := new PathFilter(Extensions(extensions.value));
      FiltersIff(parsers, filter);
      r := AddParserWithFilter(parser, filter);
    }

    /** isVisited: a scan over the paths read before. */
    method IsVisited(canonicalPath: string) returns (b: bool)
      ensures b == Visited(visitedPaths, canonicalPath)
    {
      var rest := visitedPaths;
      while rest != {}
        invariant rest <= visitedPaths
        invariant forall p :: p in visitedPaths - rest ==> !StartsWith(canonicalPath, p)
        decreases rest
      {
        var p :| p in rest;
        if StartsWith(canonicalPath, p) {
          return true;
        }
        rest := rest - {p};
      }
      b := false;
    }

    /**
     * internal_read: every listed file, every parser whose filter accepts it,
     * every marked region of the parsed document, into the pool. Its outcome,
     * the pool included when it throws part-way, is that of IngestFiles.
     */
    method InternalRead(path: string, filter: PathFilter?) returns (r: Outcome)
      requires Valid()
      modifies this`pool
      ensures Valid()
      ensures var s := IngestFiles(Start(old(pool)), Listing(reader, path, filter), parsers, reader);
        pool == s.pool && r == (if s.failure.None? then Pass else Fail(s.failure.value))
    {
      ghost var pool0 := pool;
      var files := Listing(reader, path, filter);
      var i := 0;
      while i < |files|
        invariant 0 <= i <= |files|
        invariant IngestFiles(Start(pool0), files[..i], parsers, reader).failure.None?
        invariant IngestFiles(Start(pool0), files[..i], parsers, reader).pool == pool
        invariant WellKeyed(pool)
      {
        FileStep(pool0, files, i, parsers, reader);
        r := IngestFileRegions(files[i]);
        if r.Fail? {
          IngestFilesFailedPrefix(Start(pool0), files, i + 1, parsers, reader);
          return;
        }
        i := i + 1;
      }
      assert files[..i] == files;
      r := Pass;
    }

    /**
     * The body of internal_read's loop over files: visitedRegions starts
     * empty, then each parser whose filter accepts the file has its turn.
     */
    method IngestFileRegions(file: string) returns (r: Outcome)
      requires WellKeyed(pool)
      modifies this`pool
      ensures WellKeyed(pool)
      ensures var s := IngestParsers(Ingest(old(pool), {}, None), parsers, file, reader);
        pool == s.pool && r == (if s.failure.None? then Pass else Fail(s.failure.value))
    {
      ghost var fileStart := Ingest(pool, {}, None);
      var visitedRegions: set<string> := {};
      var j := 0;
      while j < |parsers|
        invariant 0 <= j <= |parsers|
        invariant IngestParsers(fileStart, parsers[..j], file, reader) == Ingest(pool, visitedRegions, None)
        invariant WellKeyed(pool)
      {
        assert parsers[..j + 1][..j] == parsers[..j];
        var entry := parsers[j];
        var accepted := entry.0.Accept(file);
        if accepted {
          var input := reader.readFile(file);
          if input.None? {
            IngestParsersFailedPrefix(fileStart, parsers, j + 1, file, reader);
            return Fail(UnreadableFile(file));
          }
          var document := entry.1.parse(input.value);
          if document.None? {
            IngestParsersFailedPrefix(fileStart, parsers, j + 1, file, reader);
            return Fail(MalformedInput(file));
          }
          visitedRegions, r := IngestDocument(document.value, visitedRegions);
          if r.Fail? {
            IngestParsersFailedPrefix(fileStart, parsers, j + 1, file, reader);
            return;
          }
        }
        j := j + 1;
      }
      assert parsers[..j] == parsers;
      r := Pass;
    }

    /**
     * The body of internal_read's loop over regions: plain regions and ids
     * already seen in this file are passed over, a pooled id throws, any other
     * marked region is pooled under its id.
     */
    method IngestDocument(regions: Document, visitedRegions: set<string>) returns (seen: set<string>, r: Outcome)
      requires WellKeyed(pool)
      modifies this`pool
      ensures WellKeyed(pool)
      ensures var s := IngestRegions(Ingest(old(pool), visitedRegions, None), regions);
        && pool == s.pool
        && (s.failure.None? ==> r == Pass && seen == s.seen)
        && (s.failure.Some? ==> r == Fail(s.failure.value))
    {
      ghost var start := Ingest(pool, visitedRegions, None);
      seen := visitedRegions;
      var k := 0;
      while k < |regions|
        invariant 0 <= k <= |regions|
        invariant IngestRegions(start, regions[..k]) == Ingest(pool, seen, None)
        invariant WellKeyed(pool)
      {
        assert regions[..k + 1][..k] == regions[..k];
        var region := regions[k];
        if region.Marked? {
          var id := region.id;
          if id !in seen {
            seen := seen + {id};
            if id in pool {
              IngestRegionsFailedPrefix(start, regions, k + 1);
              return seen, Fail(DuplicateRegionId(id));
            }
            pool := pool[id := region];
          }
        }
        k := k + 1;
      }
      assert regions[..k] == regions;
      r := Pass;
    }

    /**
     * read(path, filter): refuses before any parser is registered; ignores a
     * path that does not exist; refuses a path without files; skips a path
     * whose canonical form starts with one read before. Otherwise it reads the
     * files into the pool and, only if that completes, records the canonical
     * path and locks registration.
     */
    method Read(path: string, filter: PathFilter?) returns (r: Outcome)
      requires Valid()
      modifies this`pool, this`visitedPaths, this`locked
      ensures Valid() && Extends(pool, old(pool))
      ensures parsers == []
        ==> r == Fail(NoParsers) && pool == old(pool) && visitedPaths == old(visitedPaths) && locked == old(locked)
      ensures parsers != [] && !reader.pathExists(path)
        ==> r == Pass && pool == old(pool) && visitedPaths == old(visitedPaths) && locked == old(locked)
      ensures parsers != [] && reader.pathExists(path) && !reader.hasFiles(path)
        ==> r == Fail(NoDirectory(path)) && pool == old(pool) && visitedPaths == old(visitedPaths) && locked == old(locked)
      ensures parsers != [] && reader.pathExists(path) && reader.hasFiles(path)
              && Visited(old(visitedPaths), reader.canonicalPath(path))
        ==> r == Pass && pool == old(pool) && visitedPaths == old(visitedPaths) && locked == old(locked)
      ensures parsers != [] && reader.pathExists(path) && reader.hasFiles(path)
              && !Visited(old(visitedPaths), reader.canonicalPath(path))
        ==> var s := IngestFiles(Start(old(pool)), Listing(reader, path, filter), parsers, reader);
            && pool == s.pool
            && (s.failure.None? ==>
                  r == Pass && visitedPaths == old(visitedPaths) + {reader.canonicalPath(path)} && locked)
            && (s.failure.Some? ==>
                  r == Fail(s.failure.value) && visitedPaths == old(visitedPaths) && locked == old(locked))
      ensures var files := Listing(reader, path, filter);
        (r.Fail? && parsers != [] && reader.pathExists(path) && reader.hasFiles(path)
         && Readable(files, parsers, reader))
        ==> exists i, id :: 0 <= i < |files| && id in FileIds(files[i], parsers, reader)
              && r.failure == DuplicateRegionId(id)
              && (id in old(pool) || exists j :: 0 <= j < i && id in FileIds(files[j], parsers, reader))
    {
      if parsers == [] {
        return Fail(NoParsers);
      }
      if !reader.pathExists(path) {
        return Pass;
      }
      if !reader.hasFiles(path) {
        return Fail(NoDirectory(path));
      }
      var canonicalPath := reader.canonicalPath(path);
      var visited := IsVisited(canonicalPath);
      if visited {
        return Pass;
      }
      IngestFilesSummary(Start(pool), Listing(reader, path, filter), parsers, reader);
      FailedReadNamesClash(Start(pool), Listing(reader, path, filter), parsers, reader);
      r := InternalRead(path, filter);
      if r.Fail? {
        return;
      }
      visitedPaths := visitedPaths + {canonicalPath};
      locked := true;
    }

    /** read(path): read with no filter on the files, so every file of the path is listed. */
    method ReadAll(path: string) returns (r: Outcome)
      requires Valid()
      modifies this`pool, this`visitedPaths, this`locked
      ensures Valid() && Extends(pool, old(pool))
      ensures parsers == []
        ==> r == Fail(NoParsers) && pool == old(pool) && visitedPaths == old(visitedPaths) && locked == old(locked)
      ensures parsers != [] && !reader.pathExists(path)
        ==> r == Pass && pool == old(pool) && visitedPaths == old(visitedPaths) && locked == old(locked)
      ensures parsers != [] && reader.pathExists(path) && !reader.hasFiles(path)
        ==> r == Fail(NoDirectory(path)) && pool == old(pool) && visitedPaths == old(visitedPaths) && locked == old(locked)
      ensures parsers != [] && reader.pathExists(path) && reader.hasFiles(path)
              && Visited(old(visitedPaths), reader.canonicalPath(path))
        ==> r == Pass && pool == old(pool) && visitedPaths == old(visitedPaths) && locked == old(locked)
      ensures parsers != [] && reader.pathExists(path) && reader.hasFiles(path)
              && !Visited(old(visitedPaths), reader.canonicalPath(path))
        ==> var s := IngestFiles(Start(old(pool)), Listing(reader, path, null), parsers, reader);
            && pool == s.pool
            && (s.failure.None? ==>
                  r == Pass && visitedPaths == old(visitedPaths) + {reader.canonicalPath(path)} && locked)
            && (s.failure.Some? ==>
                  r == Fail(s.failure.value) && visitedPaths == old(visitedPaths) && locked == old(locked))
    {
      r := Read(path, null);
    }

    /** build: a new support from the factory, given the parser table and the pool. */
    method Build() returns (support: ProtectedRegionSupport)
      ensures fresh(support)
      ensures support.reader == factory.reader && support.util == factory.util
      ensures support.parsers == parsers && support.pool == pool
    {
      support := new ProtectedRegionSupport(factory.reader, factory.util);
      support.SetParsers(parsers);
      support.SetProtectedRegionPool(pool);
    }
  }

  /**
   * The builder's life cycle: once a read has gone through internal_read,
   * or if registration was already locked, registering a parser is refused
   * and the table stays as it was.
   */
  method ReadThenRegister(builder: Builder, path: string, parser: RegionParser, filter: PathFilter?)
    returns (read: Outcome, added: Outcome)
    requires builder.Valid()
    modifies builder`pool, builder`visitedPaths, builder`locked, builder`parsers
    ensures builder.Valid()
    ensures old(builder.locked) || (old(builder.parsers) != [] && read.Pass? && builder.reader.pathExists(path)
                                    && builder.reader.hasFiles(path)
                                    && !Visited(old(builder.visitedPaths), builder.reader.canonicalPath(path)))
      ==> added == Fail(AddParserLocked) && builder.parsers == old(builder.parsers)
  {
    read := builder.Read(path, filter);
    added := builder.AddParserWithFilter(parser, filter);
  }
}
