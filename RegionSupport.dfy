/**
 * AbstractProtectedRegionSupport: the parser table and the pool handed over by
 * the builder, and mergeProtectedRegions, which runs the accepting parsers of
 * the table one after another over a freshly generated file.
 */
module RegionSupport {

  import opened Errors
  import opened Documents
  import opened Collaborators

  /**
   * One parser's turn on a generated file. The parser re-parses the generated
   * contents (first turn) or the contents of the document so far (later
   * turns); an inverse parser then fills that document in from the file on
   * disk, or leaves it as re-parsed when the reader returns null; a forward
   * parser merges it against the pool.
   */
  ghost function MergeStep(acc: Result<Option<Document>>, entry: Entry, fileName: string, contents: string,
                           pool: Pool, reader: FileSystem, util: RegionUtil): Result<Option<Document>>
  {
    if acc.Err? || !entry.0.Accepts(fileName) then acc
    else
      var source := if acc.value.None? then contents else util.contents(acc.value.value);
      match entry.1.parse(source)
      case None => Err(MalformedInput(fileName))
      case Some(doc) =>
        if entry.1.inverse then
          match reader.readFile(fileName)
          case None => Ok(Some(doc))
          case Some(input) =>
            match entry.1.parse(input)
            case None => Err(MalformedInput(fileName))
            case Some(previous) => Ok(Some(util.fillIn(doc, previous)))
        else Ok(Some(util.merge(doc, pool)))
  }

  /** Every parser's turn, in table order; Ok(None) while no filter has accepted the file. */
  ghost function MergeSteps(entries: seq<Entry>, fileName: string, contents: string,
                            pool: Pool, reader: FileSystem, util: RegionUtil): Result<Option<Document>>
  {
    if entries == [] then Ok(None)
    else MergeStep(MergeSteps(entries[..|entries| - 1], fileName, contents, pool, reader, util),
                   entries[|entries| - 1], fileName, contents, pool, reader, util)
  }

  /** What mergeProtectedRegions returns: the generated contents when no parser applied. */
  ghost function Merged(entries: seq<Entry>, fileName: string, contents: string,
                        pool: Pool, reader: FileSystem, util: RegionUtil): Result<string>
  {
    match MergeSteps(entries, fileName, contents, pool, reader, util)
    case Err(failure) => Err(failure)
    case Ok(None) => Ok(contents)
    case Ok(Some(doc)) => Ok(util.contents(doc))
  }

  /** The entries of the table whose filter accepts the file, in table order. */
  ghost function Accepting(entries: seq<Entry>, fileName: string): (r: seq<Entry>)
    ensures |r| <= |entries|
    ensures forall e :: e in r ==> e in entries && e.0.Accepts(fileName)
  {
    if entries == [] then []
    else
      var last := entries[|entries| - 1];
      Accepting(entries[..|entries| - 1], fileName) + if last.0.Accepts(fileName) then [last] else []
  }

  /** The file is left untouched exactly when no filter of the table accepts it. */
  lemma {:induction false} UntouchedIff(entries: seq<Entry>, fileName: string, contents: string,
                                        pool: Pool, reader: FileSystem, util: RegionUtil)
    ensures MergeSteps(entries, fileName, contents, pool, reader, util) == Ok(None)
        <==> forall i :: 0 <= i < |entries| ==> !entries[i].0.Accepts(fileName)
  {
    if entries != [] {
      var front := entries[..|entries| - 1];
      UntouchedIff(front, fileName, contents, pool, reader, util);
      assert forall i :: 0 <= i < |front| ==> front[i] == entries[i];
    }
  }

  /** When no filter accepts the file, mergeProtectedRegions returns the generated contents. */
  lemma NoParserKeepsContents(entries: seq<Entry>, fileName: string, contents: string,
                              pool: Pool, reader: FileSystem, util: RegionUtil)
    requires forall i :: 0 <= i < |entries| ==> !entries[i].0.Accepts(fileName)
    ensures Merged(entries, fileName, contents, pool, reader, util) == Ok(contents)
  {
    UntouchedIff(entries, fileName, contents, pool, reader, util);
  }

  /** Parsers whose filter rejects the file take no part in the merge. */
  lemma {:induction false} OnlyAcceptingCount(entries: seq<Entry>, fileName: string, contents: string,
                                              pool: Pool, reader: FileSystem, util: RegionUtil)
    ensures MergeSteps(entries, fileName, contents, pool, reader, util)
         == MergeSteps(Accepting(entries, fileName), fileName, contents, pool, reader, util)
  {
    if entries != [] {
      var front := entries[..|entries| - 1];
      var last := entries[|entries| - 1];
      OnlyAcceptingCount(front, fileName, contents, pool, reader, util);
      var before := MergeSteps(front, fileName, contents, pool, reader, util);
      var a := Accepting(entries, fileName);
      if last.0.Accepts(fileName) {
        assert a == Accepting(front, fileName) + [last];
        assert a[..|a| - 1] == Accepting(front, fileName);
        assert MergeSteps(a, fileName, contents, pool, reader, util)
            == MergeStep(before, last, fileName, contents, pool, reader, util);
      } else {
        assert a == Accepting(front, fileName);
        assert MergeStep(before, last, fileName, contents, pool, reader, util) == before;
      }
    }
  }

  /** Once a parser's turn has thrown, the merge throws that failure. */
  lemma {:induction false} FailureIsFinal(entries: seq<Entry>, k: nat, fileName: string, contents: string,
                                          pool: Pool, reader: FileSystem, util: RegionUtil)
    requires k <= |entries| && MergeSteps(entries[..k], fileName, contents, pool, reader, util).Err?
    ensures MergeSteps(entries, fileName, contents, pool, reader, util)
         == MergeSteps(entries[..k], fileName, contents, pool, reader, util)
  {
    if k < |entries| {
      var front := entries[..|entries| - 1];
      assert front[..k] == entries[..k];
      FailureIsFinal(front, k, fileName, contents, pool, reader, util);
    } else {
      assert entries[..k] == entries;
    }
  }

  /** The turns of a table of two parsers, one after the other. */
  lemma TwoSteps(a: seq<Entry>, fileName: string, contents: string, pool: Pool, reader: FileSystem, util: RegionUtil)
    requires |a| == 2
    ensures MergeSteps(a, fileName, contents, pool, reader, util)
         == MergeStep(MergeStep(Ok(None), a[0], fileName, contents, pool, reader, util), a[1], fileName, contents, pool, reader, util)
  {
    var a1 := a[..1];
    assert a1[..0] == [] && a1[0] == a[0];
    assert MergeSteps(a1, fileName, contents, pool, reader, util)
        == MergeStep(MergeSteps([], fileName, contents, pool, reader, util), a[0], fileName, contents, pool, reader, util);
    assert a[..|a| - 1] == a1;
  }

  /**
   * Two forward parsers accept the file: the first parses the generated
   * contents and merges against the pool, the second re-parses that output
   * (not the generated contents) and merges it again.
   */
  lemma ForwardParsersChain(entries: seq<Entry>, fileName: string, contents: string,
                            pool: Pool, reader: FileSystem, util: RegionUtil,
                            first: Document, second: Document)
    requires |Accepting(entries, fileName)| == 2
    requires !Accepting(entries, fileName)[0].1.inverse && !Accepting(entries, fileName)[1].1.inverse
    requires Accepting(entries, fileName)[0].1.parse(contents) == Some(first)
    requires Accepting(entries, fileName)[1].1.parse(util.contents(util.merge(first, pool))) == Some(second)
    ensures Merged(entries, fileName, contents, pool, reader, util) == Ok(util.contents(util.merge(second, pool)))
  {
    var a := Accepting(entries, fileName);
    OnlyAcceptingCount(entries, fileName, contents, pool, reader, util);
    assert a[0] in a && a[1] in a;
    TwoSteps(a, fileName, contents, pool, reader, util);
    var afterFirst := MergeStep(Ok(None), a[0], fileName, contents, pool, reader, util);
    assert afterFirst == Ok(Some(util.merge(first, pool)));
  }

  /**
   * An inverse parser whose file the reader cannot return leaves the document
   * as the parser re-parsed it; one whose file it returns fills the document
   * in from that file's regions.
   */
  lemma InverseParserFillsIn(entries: seq<Entry>, fileName: string, contents: string,
                             pool: Pool, reader: FileSystem, util: RegionUtil, doc: Document)
    requires |Accepting(entries, fileName)| == 1
    requires Accepting(entries, fileName)[0].1.inverse
    requires Accepting(entries, fileName)[0].1.parse(contents) == Some(doc)
    ensures reader.readFile(fileName).None? ==>
      Merged(entries, fileName, contents, pool, reader, util) == Ok(util.contents(doc))
    ensures reader.readFile(fileName).Some? ==>
      match Accepting(entries, fileName)[0].1.parse(reader.readFile(fileName).value)
      case None => Merged(entries, fileName, contents, pool, reader, util) == Err(MalformedInput(fileName))
      case Some(previous) => Merged(entries, fileName, contents, pool, reader, util) == Ok(util.contents(util.fillIn(doc, previous)))
  {
    var a := Accepting(entries, fileName);
    OnlyAcceptingCount(entries, fileName, contents, pool, reader, util);
    assert a[..0] == [];
    assert a[0] in a;
  }

  /** The first accepting parser failing on the generated contents makes the merge throw. */
  lemma MalformedContentsThrow(entries: seq<Entry>, fileName: string, contents: string,
                               pool: Pool, reader: FileSystem, util: RegionUtil)
    requires |Accepting(entries, fileName)| > 0
    requires Accepting(entries, fileName)[0].1.parse(contents).None?
    ensures Merged(entries, fileName, contents, pool, reader, util) == Err(MalformedInput(fileName))
  {
    var a := Accepting(entries, fileName);
    OnlyAcceptingCount(entries, fileName, contents, pool, reader, util);
    var a1 := a[..1];
    assert a1[..0] == [];
    assert a[0] in a;
    FailureIsFinal(a, 1, fileName, contents, pool, reader, util);
  }

  /** AbstractProtectedRegionSupport, as built by the builder's factory. */
  class ProtectedRegionSupport {
    const reader: FileSystem
    const util: RegionUtil
    var parsers: seq<Entry>
    var pool: Pool

    constructor (reader: FileSystem, util: RegionUtil)
      ensures this.reader == reader && this.util == util
      ensures parsers == [] && pool == map[]
    {
      this.reader := reader;
      this.util := util;
      parsers := [];
      pool := map[];
    }

    method SetParsers(parsers: seq<Entry>)
      modifies this`parsers
      ensures this.parsers == parsers
    {
      this.parsers := parsers;
    }

    method SetProtectedRegionPool(pool: Pool)
      modifies this`pool
      ensures this.pool == pool
    {
      this.pool := pool;
    }

    /** mergeProtectedRegions: the final text of a generated file. */
    method MergeProtectedRegions(fileName: string, contents: string) returns (r: Result<string>)
      ensures r == Merged(parsers, fileName, contents, pool, reader, util)
    {
      var document: Option<Document> := None;
      var i := 0;
      while i < |parsers|
        invariant 0 <= i <= |parsers|
        invariant MergeSteps(parsers[..i], fileName, contents, pool, reader, util) == Ok(document)
      {
        assert parsers[..i + 1][..i] == parsers[..i];
        var entry := parsers[i];
        var accepted := entry.0.Accept(fileName);
        if accepted {
          var parser := entry.1;
          var source := if document.None? then contents else util.contents(document.value);
          var parsed := parser.parse(source);
          if parsed.None? {
            FailureIsFinal(parsers, i + 1, fileName, contents, pool, reader, util);
            return Err(MalformedInput(fileName));
          }
          document := parsed;
          if parser.inverse {
            var input := reader.readFile(fileName);
            if input.Some? {
              var previous := parser.parse(input.value);
              if previous.None? {
                FailureIsFinal(parsers, i + 1, fileName, contents, pool, reader, util);
                return Err(MalformedInput(fileName));
              }
              document := Some(util.fillIn(document.value, previous.value));
            }
          } else {
            document := Some(util.merge(document.value, pool));
          }
        }
        i := i + 1;
      }
      assert parsers[..i] == parsers;
      r := if document.None? then Ok(contents) else Ok(util.contents(document.value));
    }
  }
}
