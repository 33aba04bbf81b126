/**
 * How Builder.internal_read fills the protected-region pool, as functions:
 * regions within a document, the parsers applied to a file, the files of a
 * directory. Each level is a left fold; a failure, once raised, is kept.
 */
module RegionPool {

  import opened Errors
  import opened Documents
  import opened Collaborators

  /**
   * The state of internal_read between two steps: the pool, the ids already
   * seen in the current file (visitedRegions) and the exception thrown, if any.
   */
  datatype Ingest = Ingest(pool: Pool, seen: set<string>, failure: Option<Failure>)

  /** The state at the start of internal_read. */
  function Start(pool: Pool): Ingest {
    Ingest(pool, {}, None)
  }

  /**
   * One region of a parsed document: plain regions are ignored, an id already
   * seen in this file is skipped, an id already pooled throws, any other
   * marked region is pooled under its id.
   */
  function IngestRegion(st: Ingest, region: Region): Ingest {
    if st.failure.Some? || region.Plain? || region.id in st.seen then st
    else if region.id in st.pool then
      Ingest(st.pool, st.seen + {region.id}, Some(DuplicateRegionId(region.id)))
    else
      Ingest(st.pool[region.id := region], st.seen + {region.id}, None)
  }

  /** The regions of one document, in order. */
  function IngestRegions(st: Ingest, doc: Document): Ingest {
    if doc == [] then st
    else IngestRegion(IngestRegions(st, doc[..|doc| - 1]), doc[|doc| - 1])
  }

  /** One parser of the table applied to one file, if its filter accepts the file. */
  ghost function IngestParser(st: Ingest, entry: Entry, file: string, reader: FileSystem): Ingest {
    if st.failure.Some? || !entry.0.Accepts(file) then st
    else
      match reader.readFile(file)
      case None => st.(failure := Some(UnreadableFile(file)))
      case Some(input) =>
        match entry.1.parse(input)
        case None => st.(failure := Some(MalformedInput(file)))
        case Some(doc) => IngestRegions(st, doc)
  }

  /** Every parser of the table applied to one file, in table order. */
  ghost function IngestParsers(st: Ingest, entries: seq<Entry>, file: string, reader: FileSystem): Ingest {
    if entries == [] then st
    else IngestParser(IngestParsers(st, entries[..|entries| - 1], file, reader), entries[|entries| - 1], file, reader)
  }

  /** One file: the ids seen are forgotten, then every parser has its turn. */
  ghost function IngestFile(st: Ingest, file: string, entries: seq<Entry>, reader: FileSystem): Ingest {
    if st.failure.Some? then st else IngestParsers(st.(seen := {}), entries, file, reader)
  }

  /** The files of one read, in listing order. */
  ghost function IngestFiles(st: Ingest, files: seq<string>, entries: seq<Entry>, reader: FileSystem): Ingest {
    if files == [] then st
    else IngestFile(IngestFiles(st, files[..|files| - 1], entries, reader), files[|files| - 1], entries, reader)
  }

  /**
   * The regions that the accepting parsers of the table find in a file, one
   * document after another; None when a read or a parse of it fails.
   */
  ghost function FileRegions(file: string, entries: seq<Entry>, reader: FileSystem): Option<Document> {
    if entries == [] then Some([])
    else
      var earlier := FileRegions(file, entries[..|entries| - 1], reader);
      var entry := entries[|entries| - 1];
      if earlier.None? || !entry.0.Accepts(file) then earlier
      else
        match reader.readFile(file)
        case None => None
        case Some(input) =>
          match entry.1.parse(input)
          case None => None
          case Some(doc) => Some(earlier.value + doc)
  }

  /** The region ids of a file, over all accepting parsers. */
  ghost function FileIds(file: string, entries: seq<Entry>, reader: FileSystem): set<string> {
    match FileRegions(file, entries, reader)
    case None => {}
    case Some(doc) => MarkedIds(doc)
  }

  /**
   * A reference definition of a clean read, on ids only: every file can be
   * read and parsed and brings ids that are new to the pool; the answer is
   * the set of pool keys afterwards.
   */
  ghost function CleanKeys(keys: set<string>, files: seq<string>, entries: seq<Entry>, reader: FileSystem): Option<set<string>> {
    if files == [] then Some(keys)
    else
      var earlier := CleanKeys(keys, files[..|files| - 1], entries, reader);
      var regions := FileRegions(files[|files| - 1], entries, reader);
      if earlier.None? || regions.None? || !(MarkedIds(regions.value) !! earlier.value) then None
      else Some(earlier.value + MarkedIds(regions.value))
  }

  /** Every file of a read can be read and parsed. */
  ghost predicate Readable(files: seq<string>, entries: seq<Entry>, reader: FileSystem) {
    forall i :: 0 <= i < |files| ==> FileRegions(files[i], entries, reader).Some?
  }

  /** No file of a read brings one of the given ids. */
  ghost predicate FreshTo(keys: set<string>, files: seq<string>, entries: seq<Entry>, reader: FileSystem) {
    forall i :: 0 <= i < |files| ==> FileIds(files[i], entries, reader) !! keys
  }

  /** No two files of a read bring the same id. */
  ghost predicate Apart(files: seq<string>, entries: seq<Entry>, reader: FileSystem) {
    forall i, j :: 0 <= i < j < |files| ==> FileIds(files[i], entries, reader) !! FileIds(files[j], entries, reader)
  }

  // ---------------------------------------------------------------------------
  // A raised failure is kept.

  lemma {:induction false} IngestRegionsKeepsFailure(st: Ingest, doc: Document)
    requires st.failure.Some?
    ensures IngestRegions(st, doc) == st
  {
    if doc != [] {
      IngestRegionsKeepsFailure(st, doc[..|doc| - 1]);
    }
  }

  lemma {:induction false} IngestParsersKeepsFailure(st: Ingest, entries: seq<Entry>, file: string, reader: FileSystem)
    requires st.failure.Some?
    ensures IngestParsers(st, entries, file, reader) == st
  {
    if entries != [] {
      IngestParsersKeepsFailure(st, entries[..|entries| - 1], file, reader);
    }
  }

  /** Ingesting two documents one after the other is ingesting their concatenation. */
  lemma {:induction false} IngestRegionsConcat(st: Ingest, a: Document, b: Document)
    ensures IngestRegions(st, a + b) == IngestRegions(IngestRegions(st, a), b)
  {
    if b == [] {
      assert a + b == a;
    } else {
      assert (a + b)[..|a + b| - 1] == a + b[..|b| - 1];
      assert (a + b)[|a + b| - 1] == b[|b| - 1];
      IngestRegionsConcat(st, a, b[..|b| - 1]);
    }
  }

  /** A failure raised by a prefix of the regions is the outcome of the whole document. */
  lemma IngestRegionsFailedPrefix(st: Ingest, doc: Document, k: nat)
    requires k <= |doc| && IngestRegions(st, doc[..k]).failure.Some?
    ensures IngestRegions(st, doc) == IngestRegions(st, doc[..k])
  {
    assert doc == doc[..k] + doc[k..];
    IngestRegionsConcat(st, doc[..k], doc[k..]);
    IngestRegionsKeepsFailure(IngestRegions(st, doc[..k]), doc[k..]);
  }

  /** A failure raised by a prefix of the parser table is the outcome of the whole file. */
  lemma {:induction false} IngestParsersFailedPrefix(st: Ingest, entries: seq<Entry>, k: nat, file: string, reader: FileSystem)
    requires k <= |entries| && IngestParsers(st, entries[..k], file, reader).failure.Some?
    ensures IngestParsers(st, entries, file, reader) == IngestParsers(st, entries[..k], file, reader)
  {
    if k < |entries| {
      var front := entries[..|entries| - 1];
      assert front[..k] == entries[..k];
      IngestParsersFailedPrefix(st, front, k, file, reader);
    } else {
      assert entries[..k] == entries;
    }
  }

  /** A failure raised by a prefix of the files is the outcome of the whole read. */
  lemma {:induction false} IngestFilesFailedPrefix(st: Ingest, files: seq<string>, k: nat, entries: seq<Entry>, reader: FileSystem)
    requires k <= |files| && IngestFiles(st, files[..k], entries, reader).failure.Some?
    ensures IngestFiles(st, files, entries, reader) == IngestFiles(st, files[..k], entries, reader)
  {
    if k < |files| {
      var front := files[..|files| - 1];
      assert front[..k] == files[..k];
      IngestFilesFailedPrefix(st, front, k, entries, reader);
    } else {
      assert files[..k] == files;
    }
  }

  // ---------------------------------------------------------------------------
  // One document.

  /**
   * What ingesting a document does to a pool. The ids it brings that were not
   * yet seen in this file are the incoming ones. The ingest succeeds exactly
   * when no incoming id is already pooled; it never removes or replaces an
   * entry, even when it throws; on success the incoming ids are added, each
   * with the first region that carries it; on failure the reported id is an
   * incoming id that was already pooled.
   */
  lemma {:induction false} IngestRegionsSummary(st: Ingest, doc: Document)
    requires st.failure.None?
    ensures var r := IngestRegions(st, doc);
      var incoming := MarkedIds(doc) - st.seen;
      && Extends(r.pool, st.pool)
      && (WellKeyed(st.pool) ==> WellKeyed(r.pool))
      && (r.failure.None? <==> incoming !! st.pool.Keys)
      && (r.failure.None? ==> r.pool.Keys == st.pool.Keys + incoming && r.seen == st.seen + MarkedIds(doc))
      && (r.failure.None? ==> forall id :: id in incoming ==> FirstMarked(doc, id) == Some(r.pool[id]))
      && (r.failure.Some? ==> exists id :: id in incoming && id in st.pool && r.failure.value == DuplicateRegionId(id))
  {
    if doc != [] {
      var front := doc[..|doc| - 1];
      var last := doc[|doc| - 1];
      IngestRegionsSummary(st, front);
      var p := IngestRegions(st, front);
      if p.failure.None? && last.Marked? {
        var id := last.id;
        forall x | x in MarkedIds(front) - st.seen
          ensures FirstMarked(doc, x) == FirstMarked(front, x)
        {
          FirstMarkedIsFirst(front, x);
        }
        if id in MarkedIds(front) {
          FirstMarkedIsFirst(front, id);
        } else if id !in st.seen {
          FirstMarkedIsFirst(front, id);
        }
      }
    }
  }

  /** A document whose ids were all seen already in this file changes nothing. */
  lemma {:induction false} SeenIdsAreSkipped(st: Ingest, doc: Document)
    requires st.failure.None? && MarkedIds(doc) <= st.seen
    ensures IngestRegions(st, doc) == st
  {
    IngestRegionsSummary(st, doc);
    var r := IngestRegions(st, doc);
    assert r.pool == st.pool;
  }

  /**
   * Two parsers that find the same document in one file: the second sighting
   * of every id is silent, and the pool is as after the first.
   */
  lemma SecondSightingIsSilent(st: Ingest, doc: Document)
    requires st.failure.None?
    requires IngestRegions(st, doc).failure.None?
    ensures IngestRegions(st, doc + doc) == IngestRegions(st, doc)
  {
    IngestRegionsConcat(st, doc, doc);
    IngestRegionsSummary(st, doc);
    SeenIdsAreSkipped(IngestRegions(st, doc), doc);
  }

  // ---------------------------------------------------------------------------
  // One file.

  /** The parsers' turns on one file never remove or replace a pool entry, even when one throws. */
  lemma {:induction false} IngestParsersGrows(st: Ingest, entries: seq<Entry>, file: string, reader: FileSystem)
    requires st.failure.None?
    ensures var r := IngestParsers(st, entries, file, reader);
      Extends(r.pool, st.pool) && (WellKeyed(st.pool) ==> WellKeyed(r.pool))
  {
    if entries != [] {
      var front := entries[..|entries| - 1];
      IngestParsersGrows(st, front, file, reader);
      var p := IngestParsers(st, front, file, reader);
      if p.failure.None? && entries[|entries| - 1].0.Accepts(file) {
        var input := reader.readFile(file);
        if input.Some? && entries[|entries| - 1].1.parse(input.value).Some? {
          IngestRegionsSummary(p, entries[|entries| - 1].1.parse(input.value).value);
        }
      }
    }
  }

  /**
   * The parsers' turns on one file act as one ingest of the documents they
   * find, concatenated in table order; when a read or a parse fails they throw.
   */
  lemma {:induction false} IngestParsersIsConcat(st: Ingest, entries: seq<Entry>, file: string, reader: FileSystem)
    requires st.failure.None?
    ensures var regions := FileRegions(file, entries, reader);
      && (regions.Some? ==> IngestParsers(st, entries, file, reader) == IngestRegions(st, regions.value))
      && (regions.None? ==> IngestParsers(st, entries, file, reader).failure.Some?)
  {
    if entries != [] {
      var front := entries[..|entries| - 1];
      var entry := entries[|entries| - 1];
      IngestParsersIsConcat(st, front, file, reader);
      var p := IngestParsers(st, front, file, reader);
      var earlier := FileRegions(file, front, reader);
      if earlier.Some? && entry.0.Accepts(file) {
        var input := reader.readFile(file);
        if input.Some? && entry.1.parse(input.value).Some? {
          var doc := entry.1.parse(input.value).value;
          IngestRegionsConcat(st, earlier.value, doc);
          if p.failure.Some? {
            IngestRegionsKeepsFailure(p, doc);
          }
        }
      }
    }
  }

  // ---------------------------------------------------------------------------
  // The files of one read.

  /**
   * What one read does to the pool. It never removes or replaces an entry,
   * even when it throws; it keeps every entry under its own id; it succeeds
   * exactly when CleanKeys says the files are clean, and then the pool keys
   * are the ones CleanKeys computes.
   */
  lemma {:induction false} IngestFilesSummary(st: Ingest, files: seq<string>, entries: seq<Entry>, reader: FileSystem)
    requires st.failure.None?
    ensures var r := IngestFiles(st, files, entries, reader);
      var clean := CleanKeys(st.pool.Keys, files, entries, reader);
      && Extends(r.pool, st.pool)
      && (WellKeyed(st.pool) ==> WellKeyed(r.pool))
      && (r.failure.None? <==> clean.Some?)
      && (r.failure.None? ==> r.pool.Keys == clean.value)
      && (r.failure.None? ==> forall id :: id in r.pool.Keys - st.pool.Keys ==>
            exists i :: 0 <= i < |files| && FileRegions(files[i], entries, reader).Some?
              && FirstMarked(FileRegions(files[i], entries, reader).value, id) == Some(r.pool[id]))
  {
    if files != [] {
      var front := files[..|files| - 1];
      var file := files[|files| - 1];
      IngestFilesSummary(st, front, entries, reader);
      var p := IngestFiles(st, front, entries, reader);
      if p.failure.None? {
        var q := p.(seen := {});
        IngestParsersGrows(q, entries, file, reader);
        IngestParsersIsConcat(q, entries, file, reader);
        var regions := FileRegions(file, entries, reader);
        if regions.Some? {
          IngestRegionsSummary(q, regions.value);
          var r := IngestFiles(st, files, entries, reader);
          if r.failure.None? {
            forall id | id in r.pool.Keys - st.pool.Keys
              ensures exists i :: 0 <= i < |files| && FileRegions(files[i], entries, reader).Some?
                        && FirstMarked(FileRegions(files[i], entries, reader).value, id) == Some(r.pool[id])
            {
              if id in p.pool.Keys {
                var i :| 0 <= i < |front| && FileRegions(front[i], entries, reader).Some?
                          && FirstMarked(FileRegions(front[i], entries, reader).value, id) == Some(p.pool[id]);
                assert files[i] == front[i];
              } else {
                assert FileRegions(files[|files| - 1], entries, reader) == regions;
              }
            }
          }
        }
      }
    }
  }

  /**
   * What a read that throws reports, when every file can be read and parsed:
   * the duplicate-id error, naming an id that some file brings and that the
   * pool held before the read or an earlier file of the read brought.
   */
  lemma {:induction false} FailedReadNamesClash(st: Ingest, files: seq<string>, entries: seq<Entry>, reader: FileSystem)
    requires st.failure.None?
    ensures var r := IngestFiles(st, files, entries, reader);
      (r.failure.Some? && Readable(files, entries, reader)) ==>
        exists i, id :: 0 <= i < |files| && id in FileIds(files[i], entries, reader)
          && r.failure.value == DuplicateRegionId(id)
          && (id in st.pool || exists j :: 0 <= j < i && id in FileIds(files[j], entries, reader))
  {
    var r := IngestFiles(st, files, entries, reader);
    if files != [] && r.failure.Some? && Readable(files, entries, reader) {
      var n := |files| - 1;
      var front := files[..n];
      var file := files[n];
      assert forall i :: 0 <= i < n ==> front[i] == files[i];
      var p := IngestFiles(st, front, entries, reader);
      if p.failure.Some? {
        FailedReadNamesClash(st, front, entries, reader);
        var i, id :| 0 <= i < n && id in FileIds(front[i], entries, reader)
          && p.failure.value == DuplicateRegionId(id)
          && (id in st.pool || exists j :: 0 <= j < i && id in FileIds(front[j], entries, reader));
      } else {
        var id := LastFileClash(st, front, file, entries, reader);
        assert id in FileIds(files[n], entries, reader);
      }
    }
  }

  /** The last file of a read throws on an id it brings that the pool held after the earlier files. */
  lemma LastFileClash(st: Ingest, front: seq<string>, file: string, entries: seq<Entry>, reader: FileSystem)
    returns (id: string)
    requires st.failure.None?
    requires IngestFiles(st, front, entries, reader).failure.None?
    requires FileRegions(file, entries, reader).Some?
    requires IngestFile(IngestFiles(st, front, entries, reader), file, entries, reader).failure.Some?
    ensures id in FileIds(file, entries, reader)
    ensures IngestFile(IngestFiles(st, front, entries, reader), file, entries, reader).failure.value == DuplicateRegionId(id)
    ensures id in st.pool || exists j :: 0 <= j < |front| && id in FileIds(front[j], entries, reader)
  {
    var p := IngestFiles(st, front, entries, reader);
    var q := p.(seen := {});
    IngestParsersIsConcat(q, entries, file, reader);
    var regions := FileRegions(file, entries, reader).value;
    IngestRegionsSummary(q, regions);
    id :| id in MarkedIds(regions) && id in q.pool && IngestRegions(q, regions).failure.value == DuplicateRegionId(id);
    IngestFilesSummary(st, front, entries, reader);
    CleanKeysIff(st.pool.Keys, front, entries, reader);
  }

  /**
   * The reference definition, spelled out: a read is clean exactly when every
   * file can be read and parsed, no file brings an id the pool already holds,
   * and no two files bring the same id; the pool keys afterwards are the old
   * keys and the ids of every file.
   */
  lemma {:induction false} CleanKeysIff(keys: set<string>, files: seq<string>, entries: seq<Entry>, reader: FileSystem)
    ensures var clean := CleanKeys(keys, files, entries, reader);
      && (clean.Some? <==>
            Readable(files, entries, reader) && FreshTo(keys, files, entries, reader) && Apart(files, entries, reader))
      && (clean.Some? ==> forall id :: id in clean.value <==>
            id in keys || exists i :: 0 <= i < |files| && id in FileIds(files[i], entries, reader))
  {
    CleanKeysHolds(keys, files, entries, reader);
    CleanKeysValue(keys, files, entries, reader);
  }

  /** The first half of CleanKeysIff: when the reference read is clean. */
  lemma {:induction false} CleanKeysHolds(keys: set<string>, files: seq<string>, entries: seq<Entry>, reader: FileSystem)
    ensures CleanKeys(keys, files, entries, reader).Some? <==>
            Readable(files, entries, reader) && FreshTo(keys, files, entries, reader) && Apart(files, entries, reader)
  {
    if files != [] {
      var n := |files| - 1;
      var front := files[..n];
      var ids := FileIds(files[n], entries, reader);
      var earlier := CleanKeys(keys, front, entries, reader);
      CleanKeysHolds(keys, front, entries, reader);
      CleanKeysValue(keys, front, entries, reader);
      assert forall i :: 0 <= i < n ==> files[i] == front[i];
      assert Readable(files, entries, reader) <==>
        Readable(front, entries, reader) && FileRegions(files[n], entries, reader).Some?;
      assert FreshTo(keys, files, entries, reader) <==> FreshTo(keys, front, entries, reader) && ids !! keys;
      assert Apart(files, entries, reader) <==>
        Apart(front, entries, reader) && forall i :: 0 <= i < n ==> FileIds(front[i], entries, reader) !! ids;
      if earlier.Some? && FileRegions(files[n], entries, reader).Some? {
        // The last file is clean exactly when it is fresh to the pool and to
        // every earlier file.
        assert ids !! earlier.value <==>
          ids !! keys && forall i :: 0 <= i < n ==> FileIds(front[i], entries, reader) !! ids;
      }
    }
  }

  /** The second half of CleanKeysIff: the keys of a clean reference read. */
  lemma {:induction false} CleanKeysValue(keys: set<string>, files: seq<string>, entries: seq<Entry>, reader: FileSystem)
    ensures var clean := CleanKeys(keys, files, entries, reader);
      clean.Some? ==> forall id :: id in clean.value <==>
        id in keys || exists i :: 0 <= i < |files| && id in FileIds(files[i], entries, reader)
  {
    if files != [] {
      var n := |files| - 1;
      var front := files[..n];
      CleanKeysValue(keys, front, entries, reader);
      assert forall i :: 0 <= i < n ==> files[i] == front[i];
    }
  }

  /**
   * Uniqueness across files: two different files of one read that bring the
   * same id make the read throw, whatever the ids seen within each file.
   */
  lemma CrossFileDuplicateThrows(st: Ingest, files: seq<string>, entries: seq<Entry>, reader: FileSystem, i: nat, j: nat, id: string)
    requires st.failure.None?
    requires i < j < |files|
    requires id in FileIds(files[i], entries, reader) && id in FileIds(files[j], entries, reader)
    ensures IngestFiles(st, files, entries, reader).failure.Some?
    ensures Readable(files, entries, reader) ==>
      IngestFiles(st, files, entries, reader).failure.value.DuplicateRegionId?
  {
    IngestFilesSummary(st, files, entries, reader);
    CleanKeysIff(st.pool.Keys, files, entries, reader);
    FailedReadNamesClash(st, files, entries, reader);
  }

  /** A read whose files bring an id the pool already holds (from an earlier read) throws. */
  lemma PooledIdThrows(st: Ingest, files: seq<string>, entries: seq<Entry>, reader: FileSystem, i: nat, id: string)
    requires st.failure.None?
    requires i < |files|
    requires id in st.pool && id in FileIds(files[i], entries, reader)
    ensures IngestFiles(st, files, entries, reader).failure.Some?
    ensures Readable(files, entries, reader) ==>
      IngestFiles(st, files, entries, reader).failure.value.DuplicateRegionId?
  {
    IngestFilesSummary(st, files, entries, reader);
    CleanKeysIff(st.pool.Keys, files, entries, reader);
    FailedReadNamesClash(st, files, entries, reader);
  }

  /** The marked regions of a document, in order. */
  function OnlyMarked(doc: Document): Document {
    if doc == [] then []
    else
      var last := doc[|doc| - 1];
      OnlyMarked(doc[..|doc| - 1]) + if last.Marked? then [last] else []
  }

  /** Only marked regions reach the pool: dropping the plain ones changes nothing. */
  lemma {:induction false} PlainRegionsAreIgnored(st: Ingest, doc: Document)
    ensures IngestRegions(st, doc) == IngestRegions(st, OnlyMarked(doc))
  {
    if doc != [] {
      var front := doc[..|doc| - 1];
      var last := doc[|doc| - 1];
      PlainRegionsAreIgnored(st, front);
      var m := OnlyMarked(doc);
      if last.Marked? {
        assert m[..|m| - 1] == OnlyMarked(front);
      } else {
        assert m == OnlyMarked(front);
      }
    }
  }

  /**
   * No rollback: whatever the files before the i-th put into the pool stays
   * there, unchanged, after the whole read, even when a later file throws.
   */
  lemma {:induction false} NoRollback(st: Ingest, files: seq<string>, i: nat, entries: seq<Entry>, reader: FileSystem)
    requires st.failure.None? && i <= |files|
    ensures Extends(IngestFiles(st, files, entries, reader).pool, IngestFiles(st, files[..i], entries, reader).pool)
  {
    if i < |files| {
      var front := files[..|files| - 1];
      assert front[..i] == files[..i];
      NoRollback(st, front, i, entries, reader);
      var p := IngestFiles(st, front, entries, reader);
      if p.failure.None? {
        IngestParsersGrows(p.(seen := {}), entries, files[|files| - 1], reader);
      }
    } else {
      assert files[..i] == files;
    }
  }
}
