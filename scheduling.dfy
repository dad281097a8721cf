/**
 * The Publishing API requests that scheduling and unscheduling an edition
 * issue. The requests are recorded, in order, in the log of a
 * `PublishingApi`; `Schedule` and `Unschedule` append to that log.
 *
 * The public path of an edition in a locale is a parameter of the API
 * object, and the identifier generated for a `coming_soon` item is a
 * parameter of `Schedule`.
 */
module Scheduling {
  import Seqs

  type ContentId = string
  type Path = string
  type Locale = string

  /** The locale of an edition's canonical public path. */
  const DefaultLocale: Locale := "en"

  const ComingSoonSchema := "coming_soon"
  const GoneType := "gone"

  /** One request to the Publishing API. */
  datatype Request =
    | PutContent(contentId: ContentId, schemaName: string)
    | PutIntent(path: Path, publishTime: int)
    | DestroyIntent(path: Path)
    | Unpublish(contentId: ContentId, kind: string, locale: Locale, discardDrafts: bool)

  /**
   * An edition as scheduling sees it: its content id, the locales it has
   * content in, its scheduled publication time, and whether its document
   * already has a published edition.
   */
  datatype Edition = Edition(
    contentId: ContentId,
    locales: seq<Locale>,
    scheduledPublication: int,
    documentHasPublishedEdition: bool)
  {
    /** The first edition of a document is one whose document has never been published. */
    predicate IsFirstEdition() {
      !documentHasPublishedEdition
    }
  }

  predicate IsPutIntent(r: Request) { r.PutIntent? }
  predicate IsPutContent(r: Request) { r.PutContent? }
  predicate IsDestroyIntent(r: Request) { r.DestroyIntent? }
  predicate IsUnpublish(r: Request) { r.Unpublish? }

  /**
   * What scheduling does for one locale: register a publish intent at the
   * locale's public path for the scheduled time and, for a first edition,
   * put a `coming_soon` content item at the generated identifier.
   */
  function LocaleRequests(publicPath: (Edition, Locale) -> Path, e: Edition, comingSoonId: ContentId, l: Locale): (r: seq<Request>)
    ensures |r| >= 1 && r[0] == PutIntent(publicPath(e, l), e.scheduledPublication)
    ensures e.IsFirstEdition() <==> |r| == 2
    ensures e.IsFirstEdition() ==> r[1] == PutContent(comingSoonId, ComingSoonSchema)
    ensures !e.IsFirstEdition() ==> |r| == 1
  {
    [PutIntent(publicPath(e, l), e.scheduledPublication)] +
    (if e.IsFirstEdition() then [PutContent(comingSoonId, ComingSoonSchema)] else [])
  }

  /** The requests scheduling issues for the given locales, one locale after another. */
  function ScheduleRequests(publicPath: (Edition, Locale) -> Path, e: Edition, comingSoonId: ContentId, locales: seq<Locale>): seq<Request>
    decreases |locales|
  {
    if locales == [] then []
    else
      ScheduleRequests(publicPath, e, comingSoonId, locales[..|locales| - 1]) +
      LocaleRequests(publicPath, e, comingSoonId, locales[|locales| - 1])
  }

  /**
   * What unscheduling does: destroy the publish intent at the canonical
   * public path and, for a first edition, unpublish the edition's content as
   * `gone` in English, discarding drafts.
   */
  function UnscheduleRequests(publicPath: (Edition, Locale) -> Path, e: Edition): (r: seq<Request>)
    ensures e.IsFirstEdition() ==> r == [DestroyIntent(publicPath(e, DefaultLocale)), Unpublish(e.contentId, GoneType, DefaultLocale, true)]
    ensures !e.IsFirstEdition() ==> r == [DestroyIntent(publicPath(e, DefaultLocale))]
  {
    [DestroyIntent(publicPath(e, DefaultLocale))] +
    (if e.IsFirstEdition() then [Unpublish(e.contentId, GoneType, DefaultLocale, true)] else [])
  }

  /** The Publishing API as the scheduling services reach it: every request is appended to a log. */
  class PublishingApi {
    var requests: seq<Request>
    const publicPath: (Edition, Locale) -> Path

    constructor(publicPath: (Edition, Locale) -> Path)
      ensures requests == []
      ensures this.publicPath == publicPath
    {
      requests := [];
      this.publicPath := publicPath;
    }

    /** `Scheduler#perform!`: the requests of each locale of the edition, in order. */
    method Schedule(e: Edition, comingSoonId: ContentId)
      modifies this
      ensures requests == old(requests) + ScheduleRequests(publicPath, e, comingSoonId, e.locales)
    {
      var i := 0;
      while i < |e.locales|
        invariant 0 <= i <= |e.locales|
        invariant requests == old(requests) + ScheduleRequests(publicPath, e, comingSoonId, e.locales[..i])
      {
        assert e.locales[..i + 1][..i] == e.locales[..i];
        requests := requests + LocaleRequests(publicPath, e, comingSoonId, e.locales[i]);
        i := i + 1;
      }
      assert e.locales[..|e.locales|] == e.locales;
    }

    /** `Unscheduler#perform!`. */
    method Unschedule(e: Edition)
      modifies this
      ensures requests == old(requests) + UnscheduleRequests(publicPath, e)
    {
      requests := requests + [DestroyIntent(publicPath(e, DefaultLocale))];
      if e.IsFirstEdition() {
        requests := requests + [Unpublish(e.contentId, GoneType, DefaultLocale, true)];
      }
    }
  }

  // ----- properties of the requests -----

  /**
   * Scheduling registers exactly one publish intent per locale, in the order
   * of the locales, each at that locale's public path and all for the
   * scheduled time.
   */
  lemma {:induction false} ScheduleIntents(publicPath: (Edition, Locale) -> Path, e: Edition, comingSoonId: ContentId, locales: seq<Locale>)
    ensures var intents := Seqs.Select(ScheduleRequests(publicPath, e, comingSoonId, locales), IsPutIntent);
      && |intents| == |locales|
      && forall i :: 0 <= i < |locales| ==> intents[i] == PutIntent(publicPath(e, locales[i]), e.scheduledPublication)
    decreases |locales|
  {
    if locales != [] {
      var init, last := locales[..|locales| - 1], locales[|locales| - 1];
      ScheduleIntents(publicPath, e, comingSoonId, init);
      var pre := ScheduleRequests(publicPath, e, comingSoonId, init);
      var head := LocaleRequests(publicPath, e, comingSoonId, last);
      Seqs.SelectAppend(pre, head, IsPutIntent);
      assert Seqs.Select(head, IsPutIntent) == [head[0]] by {
        assert head[1..] == [] || head[1..][1..] == [];
      }
      var intents := Seqs.Select(pre, IsPutIntent) + [head[0]];
      forall i | 0 <= i < |locales|
        ensures intents[i] == PutIntent(publicPath(e, locales[i]), e.scheduledPublication)
      {
        if i < |init| {
          assert locales[i] == init[i];
        }
      }
    }
  }

  /**
   * A first edition gets one `coming_soon` item per locale, all at the
   * generated identifier; a subsequent edition gets no content item at all.
   */
  lemma {:induction false} ScheduleContentItems(publicPath: (Edition, Locale) -> Path, e: Edition, comingSoonId: ContentId, locales: seq<Locale>)
    ensures var items := Seqs.Select(ScheduleRequests(publicPath, e, comingSoonId, locales), IsPutContent);
      && |items| == (if e.IsFirstEdition() then |locales| else 0)
      && forall q :: q in items ==> q == PutContent(comingSoonId, ComingSoonSchema)
    decreases |locales|
  {
    if locales != [] {
      var init, last := locales[..|locales| - 1], locales[|locales| - 1];
      ScheduleContentItems(publicPath, e, comingSoonId, init);
      var head := LocaleRequests(publicPath, e, comingSoonId, last);
      Seqs.SelectAppend(ScheduleRequests(publicPath, e, comingSoonId, init), head, IsPutContent);
      if e.IsFirstEdition() {
        assert head[1..][1..] == [];
        assert Seqs.Select(head, IsPutContent) == [PutContent(comingSoonId, ComingSoonSchema)];
      } else {
        assert Seqs.Select(head, IsPutContent) == [];
      }
    }
  }

  /**
   * Scheduling only registers intents, for the scheduled time at the path of
   * one of the given locales, and, for a first edition only, puts the
   * `coming_soon` item; it never destroys an intent or unpublishes.
   */
  lemma {:induction false} ScheduleRequestKinds(publicPath: (Edition, Locale) -> Path, e: Edition, comingSoonId: ContentId, locales: seq<Locale>)
    ensures forall q :: q in ScheduleRequests(publicPath, e, comingSoonId, locales) ==>
      || (q.PutIntent? && q.publishTime == e.scheduledPublication && exists l :: l in locales && q.path == publicPath(e, l))
      || (q == PutContent(comingSoonId, ComingSoonSchema) && e.IsFirstEdition())
    decreases |locales|
  {
    if locales != [] {
      var init := locales[..|locales| - 1];
      ScheduleRequestKinds(publicPath, e, comingSoonId, init);
      assert forall l :: l in init ==> l in locales;
      assert locales[|locales| - 1] in locales;
    }
  }

  /**
   * A first edition in one locale: scheduling puts exactly one `coming_soon`
   * item, at the generated identifier, and exactly one intent, at the
   * edition's public path for its scheduled publication time.
   */
  lemma FirstEditionScheduled(publicPath: (Edition, Locale) -> Path, e: Edition, comingSoonId: ContentId)
    requires e.IsFirstEdition() && |e.locales| == 1
    ensures Seqs.Select(ScheduleRequests(publicPath, e, comingSoonId, e.locales), IsPutContent) ==
      [PutContent(comingSoonId, ComingSoonSchema)]
    ensures Seqs.Select(ScheduleRequests(publicPath, e, comingSoonId, e.locales), IsPutIntent) ==
      [PutIntent(publicPath(e, e.locales[0]), e.scheduledPublication)]
  {
    ScheduleContentItems(publicPath, e, comingSoonId, e.locales);
    ScheduleIntents(publicPath, e, comingSoonId, e.locales);
    var items := Seqs.Select(ScheduleRequests(publicPath, e, comingSoonId, e.locales), IsPutContent);
    assert items[0] in items;
  }

  /**
   * A subsequent edition: scheduling issues no content PUT, only one intent per
   * locale for the scheduled publication time.
   */
  lemma SubsequentEditionScheduled(publicPath: (Edition, Locale) -> Path, e: Edition, comingSoonId: ContentId)
    requires !e.IsFirstEdition()
    ensures forall q :: q in ScheduleRequests(publicPath, e, comingSoonId, e.locales) ==>
      q.PutIntent? && q.publishTime == e.scheduledPublication
    ensures |ScheduleRequests(publicPath, e, comingSoonId, e.locales)| == |e.locales|
  {
    var r := ScheduleRequests(publicPath, e, comingSoonId, e.locales);
    ScheduleRequestKinds(publicPath, e, comingSoonId, e.locales);
    ScheduleIntents(publicPath, e, comingSoonId, e.locales);
    Seqs.SelectAll(r, IsPutIntent);
  }

  /**
   * An edition translated into English and French: one intent at each of the
   * two locale paths, both for the same publication time, and no other intent.
   */
  lemma TranslatedEditionScheduled(publicPath: (Edition, Locale) -> Path, e: Edition, comingSoonId: ContentId)
    requires e.locales == ["en", "fr"]
    ensures Seqs.Select(ScheduleRequests(publicPath, e, comingSoonId, e.locales), IsPutIntent) ==
      [PutIntent(publicPath(e, "en"), e.scheduledPublication), PutIntent(publicPath(e, "fr"), e.scheduledPublication)]
  {
    ScheduleIntents(publicPath, e, comingSoonId, e.locales);
  }

  /**
   * Unscheduling destroys exactly one intent, at the canonical path, whatever
   * locales the edition has, and never puts content.
   */
  lemma UnscheduleSinglePath(publicPath: (Edition, Locale) -> Path, e: Edition)
    ensures Seqs.Select(UnscheduleRequests(publicPath, e), IsDestroyIntent) == [DestroyIntent(publicPath(e, DefaultLocale))]
    ensures Seqs.Select(UnscheduleRequests(publicPath, e), IsPutContent) == []
  {
    var r := UnscheduleRequests(publicPath, e);
    assert r[1..] == [] || r[1..][1..] == [];
  }

  /**
   * A first edition is unpublished as `gone` in English with its drafts
   * discarded; a subsequent edition is not unpublished at all.
   */
  lemma UnscheduleGone(publicPath: (Edition, Locale) -> Path, e: Edition)
    ensures e.IsFirstEdition() ==>
      Seqs.Select(UnscheduleRequests(publicPath, e), IsUnpublish) == [Unpublish(e.contentId, "gone", "en", true)]
    ensures !e.IsFirstEdition() ==> Seqs.Select(UnscheduleRequests(publicPath, e), IsUnpublish) == []
  {
    var r := UnscheduleRequests(publicPath, e);
    assert r[1..] == [] || r[1..][1..] == [];
  }

  /**
   * When the edition has English content, the intent unscheduling destroys is
   * one that scheduling registered.
   */
  lemma UnscheduleUndoesEnglishIntent(publicPath: (Edition, Locale) -> Path, e: Edition, comingSoonId: ContentId)
    requires DefaultLocale in e.locales
    ensures var p := publicPath(e, DefaultLocale);
      && DestroyIntent(p) in UnscheduleRequests(publicPath, e)
      && PutIntent(p, e.scheduledPublication) in ScheduleRequests(publicPath, e, comingSoonId, e.locales)
  {
    var i :| 0 <= i < |e.locales| && e.locales[i] == DefaultLocale;
    ScheduleIntents(publicPath, e, comingSoonId, e.locales);
    var intents := Seqs.Select(ScheduleRequests(publicPath, e, comingSoonId, e.locales), IsPutIntent);
    assert intents[i] in intents;
  }
}
