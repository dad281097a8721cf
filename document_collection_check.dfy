/**
 * What the sync checker expects the Publishing API to hold for a document
 * collection: the checks it runs against the draft and the live content
 * store, and the details hash it expects there.
 *
 * The database is represented by what the queries read from it: each linked
 * document carries the states of its editions (in the order the query returns
 * them) and its published edition, if any. The checks and the hash that the
 * common edition format contributes, the topical-event lookup and the
 * govspeak renderer are parameters.
 */
module DocumentCollectionCheck {
  import opened Wrappers
  import Seqs

  type ContentId = string

  /** `published_edition` of a document, reduced to whether it is withdrawn. */
  datatype PublishedEdition = PublishedEdition(withdrawn: bool)

  /** A document linked from a collection. */
  datatype Document = Document(
    contentId: ContentId,
    editionStates: seq<string>,
    publishedEdition: Option<PublishedEdition>)

  /** A group of a collection: a heading, a govspeak body and its documents. */
  datatype Group = Group(heading: string, body: string, documents: seq<Document>)

  /** An edition of a document collection. */
  datatype CollectionEdition = CollectionEdition(
    id: int,
    documents: seq<Document>,
    groups: seq<Group>)

  /** A check to run against the content store; those of the common edition format are not modelled further. */
  datatype Check =
    | LinksCheck(linkType: string, expected: seq<ContentId>)
    | BaseCheck(name: string)

  /** A hash key: a Ruby symbol, or a string once `stringify_keys` has been applied. */
  datatype Key = Symbol(name: string) | Text(name: string)

  /** A value of the details hash. */
  datatype Value =
    | Str(s: string)
    | StrList(items: seq<string>)
    | HashList(rows: seq<map<Key, Value>>)
    | Other(description: string)

  /** `root_path`. */
  const RootPath := "/government/collections/"

  const DeletedState := "deleted"

  /** `document_is_deleted?`: the last edition state is "deleted"; a document with no editions is not deleted. */
  predicate DocumentIsDeleted(d: Document) {
    |d.editionStates| > 0 && d.editionStates[|d.editionStates| - 1] == DeletedState
  }

  /** `latest_edition_published?`: there is a published edition and it is not withdrawn. */
  predicate LatestEditionPublished(d: Document) {
    d.publishedEdition.Some? && !d.publishedEdition.value.withdrawn
  }

  predicate NotDeleted(d: Document) {
    !DocumentIsDeleted(d)
  }

  function ContentIdOf(d: Document): ContentId {
    d.contentId
  }

  /** `collect(&:content_id)`. */
  function ContentIds(docs: seq<Document>): (r: seq<ContentId>)
    ensures |r| == |docs|
    ensures forall i :: 0 <= i < |docs| ==> r[i] == docs[i].contentId
  {
    Seqs.Map(docs, ContentIdOf)
  }

  /**
   * The content ids of the documents a filter keeps are an order-preserving
   * subsequence of all the content ids, and are the ids of exactly the kept
   * documents.
   */
  lemma SelectedContentIds(docs: seq<Document>, p: Document -> bool)
    ensures forall id :: id in ContentIds(Seqs.Select(docs, p)) <==>
      exists d :: d in docs && p(d) && d.contentId == id
    ensures Seqs.IsSubsequence(ContentIds(Seqs.Select(docs, p)), ContentIds(docs))
  {
    var kept := Seqs.Select(docs, p);
    Seqs.SelectIsSubsequence(docs, p);
    Seqs.MapSubsequence(kept, docs, ContentIdOf);
    forall id ensures id in ContentIds(kept) <==> exists d :: d in docs && p(d) && d.contentId == id {
      Seqs.MapMembership(kept, ContentIdOf, id);
      forall d ensures d in kept <==> d in docs && p(d) {
        Seqs.SelectMembership(docs, p, d);
      }
    }
  }

  /**
   * `draft_linked_document_content_ids`: the content ids of the linked
   * documents, in order, leaving out the deleted ones.
   */
  function DraftLinkedDocumentContentIds(edition: CollectionEdition): (r: seq<ContentId>)
    ensures |r| <= |edition.documents|
    ensures forall id :: id in r <==>
      exists d :: d in edition.documents && !DocumentIsDeleted(d) && d.contentId == id
    ensures Seqs.IsSubsequence(r, ContentIds(edition.documents))
  {
    SelectedContentIds(edition.documents, NotDeleted);
    ContentIds(Seqs.Select(edition.documents, NotDeleted))
  }

  /**
   * `linked_document_content_ids`: the content ids, in order, of exactly the
   * linked documents whose published edition exists and is not withdrawn.
   */
  function LinkedDocumentContentIds(edition: CollectionEdition): (r: seq<ContentId>)
    ensures |r| <= |edition.documents|
    ensures forall id :: id in r <==>
      exists d :: d in edition.documents && LatestEditionPublished(d) && d.contentId == id
    ensures Seqs.IsSubsequence(r, ContentIds(edition.documents))
  {
    SelectedContentIds(edition.documents, LatestEditionPublished);
    ContentIds(Seqs.Select(edition.documents, LatestEditionPublished))
  }

  /**
   * `checks_for_draft`: the checks of the common format, then the links check
   * for the topical events of the edition expected in draft, then the links
   * check for its documents that are not deleted.
   */
  function ChecksForDraft(
    base: seq<Check>, topicalEventsFor: int -> seq<ContentId>, expectedInDraft: CollectionEdition): (r: seq<Check>)
    ensures |r| == |base| + 2 && r[..|base|] == base
    ensures r[|base|] == LinksCheck("topical_events", topicalEventsFor(expectedInDraft.id))
    ensures r[|base| + 1] == LinksCheck("documents", DraftLinkedDocumentContentIds(expectedInDraft))
  {
    base + [
      LinksCheck("topical_events", topicalEventsFor(expectedInDraft.id)),
      LinksCheck("documents", DraftLinkedDocumentContentIds(expectedInDraft))
    ]
  }

  /**
   * `checks_for_live`: the checks of the common format, then the links check
   * for the topical events of the edition expected live, then the links check
   * for its documents that are live.
   */
  function ChecksForLive(
    base: seq<Check>, topicalEventsFor: int -> seq<ContentId>, expectedInLive: CollectionEdition): (r: seq<Check>)
    ensures |r| == |base| + 2 && r[..|base|] == base
    ensures r[|base|] == LinksCheck("topical_events", topicalEventsFor(expectedInLive.id))
    ensures r[|base| + 1] == LinksCheck("documents", LinkedDocumentContentIds(expectedInLive))
  {
    base + [
      LinksCheck("topical_events", topicalEventsFor(expectedInLive.id)),
      LinksCheck("documents", LinkedDocumentContentIds(expectedInLive))
    ]
  }

  /** The string-keyed record one group is serialised to. */
  function GroupEntry(render: string -> string, g: Group): map<Key, Value> {
    map[Text("title") := Str(g.heading),
        Text("body") := Str(render(g.body)),
        Text("documents") := StrList(ContentIds(g.documents))]
  }

  /**
   * `collection_groups`: one record per group, in order, with exactly the
   * string keys "title", "body" and "documents".
   */
  function CollectionGroups(render: string -> string, edition: CollectionEdition): (r: seq<map<Key, Value>>)
    ensures |r| == |edition.groups|
    ensures forall i :: 0 <= i < |r| ==>
      && r[i].Keys == {Text("title"), Text("body"), Text("documents")}
      && r[i][Text("title")] == Str(edition.groups[i].heading)
      && r[i][Text("body")] == Str(render(edition.groups[i].body))
      && r[i][Text("documents")] == StrList(ContentIds(edition.groups[i].documents))
  {
    Seqs.Map(edition.groups, g => GroupEntry(render, g))
  }

  /**
   * `expected_details_hash`: the hash of the common format with the symbol key
   * `collection_groups` set to the serialised groups, replacing any value the
   * common format gave it; every other key keeps its value.
   */
  function ExpectedDetailsHash(
    baseHash: map<Key, Value>, render: string -> string, edition: CollectionEdition): (h: map<Key, Value>)
    ensures h.Keys == baseHash.Keys + {Symbol("collection_groups")}
    ensures h[Symbol("collection_groups")] == HashList(CollectionGroups(render, edition))
    ensures forall k :: k in baseHash && k != Symbol("collection_groups") ==> h[k] == baseHash[k]
  {
    baseHash[Symbol("collection_groups") := HashList(CollectionGroups(render, edition))]
  }

  // ----- properties -----

  /**
   * The draft document ids are fixed by two facts alone: they come from an
   * order-preserving subsequence of the linked documents, and that subsequence
   * holds every occurrence of each document that is not deleted and none of the
   * deleted ones.
   */
  lemma DraftLinksCharacterised(edition: CollectionEdition, kept: seq<Document>)
    requires Seqs.IsSubsequence(kept, edition.documents)
    requires forall d :: multiset(kept)[d] == if DocumentIsDeleted(d) then 0 else multiset(edition.documents)[d]
    ensures DraftLinkedDocumentContentIds(edition) == ContentIds(kept)
  {
    Seqs.SelectUnique(edition.documents, NotDeleted, kept);
  }

  /**
   * The live document ids are fixed the same way: an order-preserving
   * subsequence holding every occurrence of each document whose published
   * edition exists and is not withdrawn, and nothing else.
   */
  lemma LiveLinksCharacterised(edition: CollectionEdition, kept: seq<Document>)
    requires Seqs.IsSubsequence(kept, edition.documents)
    requires forall d :: multiset(kept)[d] == if LatestEditionPublished(d) then multiset(edition.documents)[d] else 0
    ensures LinkedDocumentContentIds(edition) == ContentIds(kept)
  {
    Seqs.SelectUnique(edition.documents, LatestEditionPublished, kept);
  }

  /** Each linked document is judged on its own: the draft ids of a concatenation are the concatenated draft ids. */
  lemma DraftLinksOfConcatenation(edition: CollectionEdition, a: seq<Document>, b: seq<Document>)
    requires edition.documents == a + b
    ensures DraftLinkedDocumentContentIds(edition) ==
      DraftLinkedDocumentContentIds(edition.(documents := a)) + DraftLinkedDocumentContentIds(edition.(documents := b))
  {
    Seqs.SelectAppend(a, b, NotDeleted);
    Seqs.MapAppend(Seqs.Select(a, NotDeleted), Seqs.Select(b, NotDeleted), ContentIdOf);
  }

  /** The live ids of a concatenation are the concatenated live ids. */
  lemma LiveLinksOfConcatenation(edition: CollectionEdition, a: seq<Document>, b: seq<Document>)
    requires edition.documents == a + b
    ensures LinkedDocumentContentIds(edition) ==
      LinkedDocumentContentIds(edition.(documents := a)) + LinkedDocumentContentIds(edition.(documents := b))
  {
    Seqs.SelectAppend(a, b, LatestEditionPublished);
    Seqs.MapAppend(Seqs.Select(a, LatestEditionPublished), Seqs.Select(b, LatestEditionPublished), ContentIdOf);
  }

  /**
   * Only the last edition state decides whether the draft view drops a
   * document: one with no editions, or whose last state is anything but
   * "deleted", is kept even if an earlier edition was deleted.
   */
  lemma DraftLinksOfOne(edition: CollectionEdition, d: Document)
    requires edition.documents == [d]
    ensures DraftLinkedDocumentContentIds(edition) ==
      if |d.editionStates| > 0 && d.editionStates[|d.editionStates| - 1] == "deleted" then [] else [d.contentId]
  {
  }

  /** A single document appears in the live view exactly when it has a published edition that is not withdrawn. */
  lemma LiveLinksOfOne(edition: CollectionEdition, d: Document)
    requires edition.documents == [d]
    ensures LinkedDocumentContentIds(edition) ==
      if d.publishedEdition.Some? && !d.publishedEdition.value.withdrawn then [d.contentId] else []
  {
  }

  /**
   * When every linked document is live and none is deleted, the draft and the
   * live view expect the same checks for the same edition.
   */
  lemma DraftAndLiveAgree(base: seq<Check>, topicalEventsFor: int -> seq<ContentId>, edition: CollectionEdition)
    requires forall d :: d in edition.documents ==> LatestEditionPublished(d) && !DocumentIsDeleted(d)
    ensures ChecksForDraft(base, topicalEventsFor, edition) == ChecksForLive(base, topicalEventsFor, edition)
    ensures DraftLinkedDocumentContentIds(edition) == ContentIds(edition.documents)
  {
    Seqs.SelectAll(edition.documents, NotDeleted);
    Seqs.SelectAll(edition.documents, LatestEditionPublished);
  }

  /**
   * Three linked documents, two live and one withdrawn, none deleted: the
   * live view expects the two live ones and the draft view all three.
   */
  lemma OneOfThreeWithdrawn(
    base: seq<Check>, topicalEventsFor: int -> seq<ContentId>, edition: CollectionEdition,
    da: Document, db: Document, dc: Document)
    requires edition.documents == [da, db, dc]
    requires LatestEditionPublished(da) && LatestEditionPublished(db)
    requires dc.publishedEdition == Some(PublishedEdition(true))
    requires !DocumentIsDeleted(da) && !DocumentIsDeleted(db) && !DocumentIsDeleted(dc)
    ensures ChecksForLive(base, topicalEventsFor, edition)[|base| + 1] ==
      LinksCheck("documents", [da.contentId, db.contentId])
    ensures ChecksForDraft(base, topicalEventsFor, edition)[|base| + 1] ==
      LinksCheck("documents", [da.contentId, db.contentId, dc.contentId])
  {
    LiveLinksOfThree(edition, da, db, dc);
    DraftLinksOfThree(edition, da, db, dc);
  }

  lemma LiveLinksOfThree(edition: CollectionEdition, da: Document, db: Document, dc: Document)
    requires edition.documents == [da, db, dc]
    requires LatestEditionPublished(da) && LatestEditionPublished(db) && !LatestEditionPublished(dc)
    ensures LinkedDocumentContentIds(edition) == [da.contentId, db.contentId]
  {
    var s := edition.documents;
    assert s[1..] == [db, dc] && s[1..][1..] == [dc] && s[1..][1..][1..] == [];
    assert Seqs.Select(s[1..][1..], LatestEditionPublished) == [];
    assert Seqs.Select(s[1..], LatestEditionPublished) == [db];
  }

  lemma DraftLinksOfThree(edition: CollectionEdition, da: Document, db: Document, dc: Document)
    requires edition.documents == [da, db, dc]
    requires !DocumentIsDeleted(da) && !DocumentIsDeleted(db) && !DocumentIsDeleted(dc)
    ensures DraftLinkedDocumentContentIds(edition) == [da.contentId, db.contentId, dc.contentId]
  {
    Seqs.SelectAll(edition.documents, NotDeleted);
  }

  /** A collection with no groups serialises to no groups; the details hash still carries the key. */
  lemma NoGroups(baseHash: map<Key, Value>, render: string -> string, edition: CollectionEdition)
    requires edition.groups == []
    ensures CollectionGroups(render, edition) == []
    ensures ExpectedDetailsHash(baseHash, render, edition)[Symbol("collection_groups")] == HashList([])
  {
  }
}
