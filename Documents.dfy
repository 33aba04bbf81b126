/** The parsed document: an ordered sequence of plain and marked regions. */
module Documents {

  import opened Errors

  /**
   * IRegion: plain text, or a marked (protected) region carrying its id. The
   * text a document prints (IDocument.getContents, markers included) is a
   * collaborator of its own: RegionUtil.contents.
   */
  datatype Region = Plain(text: string) | Marked(id: string, content: string)

  /** IDocument: the regions of one parsed text, in order. */
  type Document = seq<Region>

  /** The protected-region pool: region id to the region captured under it. */
  type Pool = map<string, Region>

  /** The ids of the marked regions of a document. */
  function MarkedIds(doc: Document): set<string> {
    if doc == [] then {}
    else
      var last := doc[|doc| - 1];
      MarkedIds(doc[..|doc| - 1]) + if last.Marked? then {last.id} else {}
  }

  /** The first marked region of the document with the given id, if any. */
  function FirstMarked(doc: Document, id: string): Option<Region> {
    if doc == [] then None
    else
      var last := doc[|doc| - 1];
      var earlier := FirstMarked(doc[..|doc| - 1], id);
      if earlier.Some? then earlier
      else if last.Marked? && last.id == id then Some(last)
      else None
  }

  /** Every pool entry is a marked region stored under its own id. */
  predicate WellKeyed(pool: Pool) {
    forall id :: id in pool ==> pool[id].Marked? && pool[id].id == id
  }

  /** `big` keeps every entry of `small` unchanged. */
  predicate Extends(big: Pool, small: Pool) {
    forall id :: id in small ==> id in big && big[id] == small[id]
  }

  /** An id is marked in a document exactly when it is the id of one of its marked regions. */
  lemma {:induction false} MarkedIdsIff(doc: Document, id: string)
    ensures id in MarkedIds(doc) <==> exists i :: 0 <= i < |doc| && doc[i].Marked? && doc[i].id == id
  {
    if doc != [] {
      var front := doc[..|doc| - 1];
      MarkedIdsIff(front, id);
      if id in MarkedIds(front) {
        var i :| 0 <= i < |front| && front[i].Marked? && front[i].id == id;
        assert doc[i] == front[i];
      }
      if exists i :: 0 <= i < |doc| && doc[i].Marked? && doc[i].id == id {
        var i :| 0 <= i < |doc| && doc[i].Marked? && doc[i].id == id;
        if i < |front| {
          assert front[i] == doc[i];
        }
      }
    }
  }

  /** FirstMarked finds a region exactly for the marked ids, and what it finds is the earliest one. */
  lemma {:induction false} FirstMarkedIsFirst(doc: Document, id: string)
    ensures FirstMarked(doc, id).Some? <==> id in MarkedIds(doc)
    ensures FirstMarked(doc, id).Some? ==>
      exists i :: 0 <= i < |doc| && doc[i] == FirstMarked(doc, id).value && doc[i].Marked? && doc[i].id == id &&
        forall j :: 0 <= j < i ==> !(doc[j].Marked? && doc[j].id == id)
  {
    if doc != [] {
      var front := doc[..|doc| - 1];
      FirstMarkedIsFirst(front, id);
      if FirstMarked(front, id).Some? {
        var i :| 0 <= i < |front| && front[i] == FirstMarked(front, id).value && front[i].Marked? && front[i].id == id &&
          forall j :: 0 <= j < i ==> !(front[j].Marked? && front[j].id == id);
        assert doc[i] == front[i];
        assert forall j :: 0 <= j < i ==> doc[j] == front[j];
      } else if doc[|doc| - 1].Marked? && doc[|doc| - 1].id == id {
        MarkedIdsIff(front, id);
        assert forall j :: 0 <= j < |front| ==> doc[j] == front[j];
      }
    }
  }
}
