# Whitehall: document-collection sync checks, speech types, scheduling requests

A Dafny model of three small pieces of the Whitehall publishing system, each
with proofs about it:

- **Document-collection sync check** (`document_collection_check.dfy`,
  module `DocumentCollectionCheck`). For one edition of a document collection
  it builds the checks that the sync checker runs against the draft and the
  live content store, and the details hash it expects there. The draft view
  drops a linked document whose *last* edition state is `"deleted"`. The live
  view keeps a linked document only if it has a published edition that is not
  withdrawn. Each group is serialised to a record with the string keys
  `"title"`, `"body"` and `"documents"`. The root path is the constant
  `RootPath`, `"/government/collections/"`.
- **Speech-type catalogue** (`speech_type.dfy`, module `SpeechTypes`). It
  covers:
  - the slug: the name downcased, with every maximal run of characters
    outside `[a-z]` replaced by one `-`;
  - the genus, which falls back to the name;
  - the first-match lookups by name and by slug;
  - the six fixed speech types and the statement and non-statement lists.
- **Scheduling requests** (`scheduling.dfy`, module `Scheduling`). These are
  the Publishing API calls that scheduling and unscheduling an edition make,
  as the integration test states them. A `PublishingApi` object keeps a log
  of requests. Its `Schedule` method loops over the edition's locales and
  appends, for each one:
  - a publish intent at that locale's path;
  - for a first edition, a `coming_soon` content item.

  `Unschedule` appends the destruction of the intent at the canonical path
  and, for a first edition, an unpublish request of type `gone`.

`seqs.dfy` (module `Seqs`) holds the Ruby enumerable operations the code is
written with: `select`/`reject`, `map`/`collect` and `find`. It proves that
`select` is the one order-preserving subsequence that keeps exactly the
selected occurrences. `wrappers.dfy` holds `Option`, which stands for Ruby's
`nil`-or-value.

`checks_for_draft` and `checks_for_live` put `topical_events` first, and so
does the model.

## Model

| member | source | states |
|---|---|---|
| DocumentCollectionCheck.ChecksForDraft | lib/sync_checker/formats/document_collection_check.rb:12-25 | the base checks stay an unchanged prefix, followed by exactly two links checks: `topical_events` for the edition expected in draft, then `documents` with the draft document ids |
| DocumentCollectionCheck.ChecksForLive | lib/sync_checker/formats/document_collection_check.rb:27-40 | the base checks stay an unchanged prefix, followed by exactly `topical_events` for the edition expected live and `documents` with the live document ids |
| DocumentCollectionCheck.DraftLinkedDocumentContentIds | lib/sync_checker/formats/document_collection_check.rb:70-74 | the result is an order-preserving subsequence of the linked content ids, no longer than the documents; an id is in it exactly when some linked document that is not deleted has that id |
| DocumentCollectionCheck.LinkedDocumentContentIds | lib/sync_checker/formats/document_collection_check.rb:64-68 | the result is an order-preserving subsequence of the linked content ids; an id is in it exactly when some linked document with a published, non-withdrawn edition has that id |
| DocumentCollectionCheck.DraftLinksCharacterised | lib/sync_checker/formats/document_collection_check.rb:70-82 | any order-preserving subsequence of the documents that holds every occurrence of the non-deleted documents and none of the deleted ones gives exactly the draft ids |
| DocumentCollectionCheck.LiveLinksCharacterised | lib/sync_checker/formats/document_collection_check.rb:64-86 | any order-preserving subsequence of the documents that holds every occurrence of the published, non-withdrawn documents and nothing else gives exactly the live ids |
| DocumentCollectionCheck.DraftLinksOfConcatenation | lib/sync_checker/formats/document_collection_check.rb:70-74 | each document is judged on its own: the draft ids of `a + b` are the draft ids of `a` followed by those of `b` |
| DocumentCollectionCheck.LiveLinksOfConcatenation | lib/sync_checker/formats/document_collection_check.rb:64-68 | the live ids of `a + b` are the live ids of `a` followed by those of `b` |
| DocumentCollectionCheck.DraftLinksOfOne | lib/sync_checker/formats/document_collection_check.rb:76-82 | a single document is dropped from the draft view exactly when it has editions and the last one's state is `"deleted"`; with no editions, or an earlier deleted edition only, it is kept |
| DocumentCollectionCheck.LiveLinksOfOne | lib/sync_checker/formats/document_collection_check.rb:84-86 | a single document is in the live view exactly when its published edition exists and is not withdrawn |
| DocumentCollectionCheck.DraftAndLiveAgree | lib/sync_checker/formats/document_collection_check.rb:12-40 | when every linked document is live and none is deleted, draft and live expect the same checks, and the draft ids are all the content ids |
| DocumentCollectionCheck.OneOfThreeWithdrawn | lib/sync_checker/formats/document_collection_check.rb:27-40 | with three linked documents, two live and one withdrawn, none deleted, the live documents check expects the two live ids and the draft one all three |
| DocumentCollectionCheck.LiveLinksOfThree | lib/sync_checker/formats/document_collection_check.rb:64-68 | of three documents, two live and the third not, the live ids are those of the first two |
| DocumentCollectionCheck.DraftLinksOfThree | lib/sync_checker/formats/document_collection_check.rb:70-74 | of three documents none of which is deleted, the draft ids are all three, in order |
| DocumentCollectionCheck.CollectionGroups | lib/sync_checker/formats/document_collection_check.rb:50-58 | one record per group, in order; each has exactly the string keys `title`, `body`, `documents`, holding the heading, the rendered body and the group's content ids in order |
| DocumentCollectionCheck.ExpectedDetailsHash | lib/sync_checker/formats/document_collection_check.rb:42-46 | the keys are the base hash's plus `:collection_groups`, which holds the serialised groups; every other key keeps its base value |
| DocumentCollectionCheck.NoGroups | lib/sync_checker/formats/document_collection_check.rb:50-51 | a collection with no groups serialises to an empty list, and the details hash still carries it |
| DocumentCollectionCheck.ContentIds | lib/sync_checker/formats/document_collection_check.rb:55 | one id per document, in order, each the document's content id |
| SpeechTypes.Downcase | app/models/speech_type.rb:7 | `downcase` keeps the length and lowers each ASCII capital, leaving every other character as it is |
| SpeechTypes.CollapseIsSlug | app/models/speech_type.rb:7 | replacing the runs yields only `[a-z]` and `-`, never two `-` in a row; it is empty exactly when its input is, and starts with the input's first letter, or with `-` |
| SpeechTypes.SlugIsSlug | app/models/speech_type.rb:7 | every slug contains only `a`-`z` and `-` and never two consecutive `-` |
| SpeechTypes.CollapseKeepsLetters | app/models/speech_type.rb:7 | the `[a-z]` characters survive the replacement in order, and no new one appears |
| SpeechTypes.SlugKeepsLetters | app/models/speech_type.rb:7 | the letters of a slug are exactly those of the downcased name, in order |
| SpeechTypes.CollapseFixedPoint | app/models/speech_type.rb:7 | the run replacement leaves a string unchanged exactly when it already is a slug |
| SpeechTypes.SlugIdempotent | app/models/speech_type.rb:7 | the slug of a slug is the slug itself |
| SpeechTypes.DraftTextSlug | app/models/speech_type.rb:35-38 | the slug of "Draft text" is `draft-text` |
| SpeechTypes.ImportedAwaitingTypeSlug | app/models/speech_type.rb:45 | the slug of "Imported - Awaiting Type" is `imported-awaiting-type`: the run `" - "` becomes one `-` |
| SpeechTypes.TranscriptSlug | app/models/speech_type.rb:31-34 | the slug of "Transcript" is `transcript` |
| SpeechTypes.SpeakingNotesSlug | app/models/speech_type.rb:39-42 | the slug of "Speaking notes" is `speaking-notes` |
| SpeechTypes.WrittenStatementSlug | app/models/speech_type.rb:43 | the slug of "Written statement to parliament" is `written-statement-to-parliament` |
| SpeechTypes.OralStatementSlug | app/models/speech_type.rb:44 | the slug of "Oral statement to parliament" is `oral-statement-to-parliament` |
| SpeechTypes.TableSlugs | app/models/speech_type.rb:31-45 | the slugs of all six speech types |
| SpeechTypes.SpeechType.Genus | app/models/speech_type.rb:10-12 | the stored genus when it is set, otherwise the name |
| SpeechTypes.TableGenus | app/models/speech_type.rb:31-45 | the two statements' and ImportedAwaitingType's genus is their name, for example "Written statement to parliament"; the three non-statements' genus is "Speech" |
| SpeechTypes.FindByName | app/models/speech_type.rb:14-16 | nothing is found exactly when no type has the name; otherwise the result is the catalogue's first type with that name |
| SpeechTypes.FindBySlug | app/models/speech_type.rb:18-20 | nothing is found exactly when no type has the slug; otherwise the result is the catalogue's first type with that slug |
| SpeechTypes.SlugInitial | app/models/speech_type.rb:7 | a name starting with a capital has a non-empty slug starting with that letter lowered |
| SpeechTypes.SlugInitials | app/models/speech_type.rb:31-45 | each of the six slugs starts with its name's first letter, lowered |
| SpeechTypes.IdsDistinct | app/models/speech_type.rb:31-45 | the six ids are pairwise distinct |
| SpeechTypes.NameInitialsDistinct | app/models/speech_type.rb:31-45 | the six names start with pairwise distinct letters |
| SpeechTypes.SlugsDistinct | app/models/speech_type.rb:31-45 | the six slugs are pairwise distinct |
| SpeechTypes.FindsEveryTypeBySlug | app/models/speech_type.rb:18-20 | each of the six types is found again by its own slug |
| SpeechTypes.FindsEveryTypeByName | app/models/speech_type.rb:14-16 | each of the six types is found again by its own name |
| SpeechTypes.StatementsPartition | app/models/speech_type.rb:22-28 | statements and non-statements are disjoint; with ImportedAwaitingType, which is in neither, they make up the catalogue |
| Scheduling.LocaleRequests | test/integration/scheduling_test.rb:18-27 | for one locale: an intent at that locale's path for the scheduled time, followed by a `coming_soon` item at the generated id exactly when the edition is a first edition |
| Scheduling.PublishingApi.constructor | test/integration/scheduling_test.rb:7-16 | the request log starts empty |
| Scheduling.PublishingApi.Schedule | test/integration/scheduling_test.rb:100-102 | the log grows by the requests of each locale of the edition, in locale order, and nothing else |
| Scheduling.PublishingApi.Unschedule | test/integration/scheduling_test.rb:61-97 | the log grows by exactly the unscheduling requests |
| Scheduling.ScheduleIntents | test/integration/scheduling_test.rb:45-59 | scheduling registers exactly one intent per locale, in locale order, at that locale's path, all for the same scheduled time |
| Scheduling.ScheduleContentItems | test/integration/scheduling_test.rb:18-43 | a first edition gets one `coming_soon` item per locale, all at the generated id; a subsequent edition gets no content item |
| Scheduling.ScheduleRequestKinds | test/integration/scheduling_test.rb:18-43 | every scheduling request is an intent for the scheduled time at one of the edition's locale paths, or the `coming_soon` item of a first edition |
| Scheduling.FirstEditionScheduled | test/integration/scheduling_test.rb:18-27 | a first edition in one locale gets exactly one `coming_soon` PUT at the generated id and one intent at its path with `publish_time` equal to the scheduled publication |
| Scheduling.SubsequentEditionScheduled | test/integration/scheduling_test.rb:29-43 | a subsequent edition gets no content PUT: only intents for the scheduled time, one per locale |
| Scheduling.TranslatedEditionScheduled | test/integration/scheduling_test.rb:45-59 | an edition in `en` and `fr` gets exactly two intents, at the English and the French path, with the same publish time |
| Scheduling.UnscheduleRequests | test/integration/scheduling_test.rb:61-97 | unscheduling destroys the intent at the canonical `en` path; a first edition is also unpublished with type `gone`, locale `en`, discarding drafts |
| Scheduling.UnscheduleSinglePath | test/integration/scheduling_test.rb:84-97 | unscheduling destroys exactly one intent, at the canonical path, whatever locales the edition has, and never PUTs content |
| Scheduling.UnscheduleGone | test/integration/scheduling_test.rb:61-82 | a first edition is unpublished exactly once, as `gone` in `en` with drafts discarded; a subsequent edition is never unpublished |
| Scheduling.UnscheduleUndoesEnglishIntent | test/integration/scheduling_test.rb:61-97 | for an edition with English content, the intent unscheduling destroys is one that scheduling registered |

## Left out

- The database queries become data. `Edition.unscoped.where(...).pluck(:state)` is each document's `editionStates`, in the order the query returns them; that order is not modelled. `TopicalEvent.for_edition(...).pluck(:content_id)` is the parameter `topicalEventsFor`.
- The checks and the hash of the common edition format (`super`) are parameters. What a `LinksCheck` does when it runs against the Publishing API is not shown, so only the construction of checks is modelled.
- `edition_expected_in_draft` and `edition_expected_in_live` are parameters. The case where one is `nil`, in which the Ruby raises, is not modelled.
- `rendering_app` (lib/sync_checker/formats/document_collection_check.rb:8-10) names a constant of the rendering-app module, which is not part of this model.
- The govspeak renderer is an uninterpreted parameter `render`. Its memoisation in `govspeak_renderer` has no observable effect, so it is not modelled.
- Ruby hashes are ordered; the details hash is a `map`, so key order is not modelled.
- SpeechTypes.Downcase: lowers ASCII capitals only, not Unicode case folding.
- SpeechTypes.All: `all` comes from `ActiveRecordLikeInterface`, which is not part of this model. It is taken to be the six types in the order they are created.
- `explanation` and `key` are stored on each speech type; no property is stated about them.
- The `Scheduler` and `Unscheduler` implementations are not part of this model. The calls the model issues are taken from what the integration test (test/integration/scheduling_test.rb) asserts:
  - scheduling a first edition: a `coming_soon` content item at the generated identifier, and a publish intent at the canonical path (lines 18-27);
  - scheduling a subsequent edition: a publish intent, and no content item (lines 29-43);
  - scheduling a first edition translated into English and French: a publish intent at each locale's path (lines 45-59);
  - unscheduling a first edition: the intent destroyed, and an unpublish of type `gone` in locale `en` with drafts discarded (lines 61-82);
  - unscheduling a subsequent edition: the intent destroyed, and no content item (lines 84-97).

  Where the test is silent, the model makes its own choice; the lines on `ScheduleContentItems`, `UnscheduleGone` and `LocaleRequests` below say which. Left out of the services:
  - their workflow checks and the `options` of `scheduler(edition, options)`;
  - failure handling;
  - Sidekiq and the stubbed worker;
  - the user acting.
- The identifier `SecureRandom.uuid` generates is a parameter of `Schedule`.
- Public paths are the abstract function `publicPath`.
- Timestamps are integers, without `as_json` formatting.
- The test's setup changes the edition (`title=`, `save!`, `submit!`); that is not modelled: the edition is a value with its locales already given.
- Scheduling.ScheduleContentItems: the model puts one `coming_soon` item per locale, each at the same generated identifier. This is the model's own choice: the translated first edition (test lines 45-59) is scheduled in English and French, but that test asserts only the two intents and says nothing about `coming_soon` items. With one locale the model issues the single item the test at lines 18-27 asserts.
- Scheduling.UnscheduleGone: for a subsequent edition the model issues no unpublish request at all. This too is the model's choice: it follows the test's title (line 84), while the test itself only forbids a PUT to the content endpoint (line 96).
- Scheduling.LocaleRequests: the test does not fix the order of the requests within one locale. The model issues the intent before the `coming_soon` item, and its properties are stated over the selected requests of each kind.
