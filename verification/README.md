# Cookbook content admission and publish dispatch

A Dafny model of the decision logic in the views of the Pulp cookbook plugin
(`pulp_cookbook/app/viewsets.py`). The plugin manages Chef cookbook tarballs.
It admits an uploaded tar as content only if the tar's embedded `metadata.json` agrees
with what the caller declared. It also publishes a repository, or one explicit
repository version, by queueing an asynchronous task.

The model covers three pure steps:

- **Publish-target resolution** (`PublishTarget.Resolve`):
  `_RepositoryPublishURLSerializer.validate` turns a request naming a
  repository or a repository version (exactly one of the two) into validated
  data that carries exactly one concrete version. A repository is resolved to
  its latest version by the platform's lookup. That lookup is a parameter of type
  `Repository -> Option<RepositoryVersion>`. `LatestIn` is a reference instance
  of it over a recorded version history.
- **Content admission** (`ContentAdmission.Admit`): the checks of
  `CookbookPackageContentViewSet.create`, in their order: artifact present,
  name present, `metadata.json` found, declared version equal to the tar's.
  On success it returns the fields the content is saved with: the declared name,
  the tar's version and the tar's dependencies. The metadata reader
  (`CookbookMetadata.from_cookbook_file`) is a parameter returning the metadata
  or "no metadata file".
- **Publish task description** (`PublishDispatch.Describe`, `Publish`): the
  reservation list `[version's repository, publisher]` and the keyword
  arguments `publisher_pk` and `repository_version_pk`, which hold `str(pk)` of each
  object. Primary keys are the platform's UUIDs. `Uuids.Str` models Python's
  canonical `str(uuid)` text. `Uuids.Parse` reads that text back, and both round
  trips are proved. So the task receives texts that name exactly the
  publisher and version that were resolved.

Validation errors are `FieldError(field, message)` (DRF's `{'field': message}`
detail) or `NonFieldError(message)`. They carry the plugin's own messages.

Python's `not x` on an optional serializer field is modelled as absence. A
model instance is always truthy, and the serializer drops fields that were not
sent and refuses `null`, so "present but falsy" cannot reach `validate`.

## Model

| member | source | states |
|---|---|---|
| PublishTarget.Resolve | pulp_cookbook/app/viewsets.py:61-82 | succeeds exactly when the request designates a version (only a version given, or only a repository whose latest version exists), and then carries that one version and keeps `repository`; a request naming only a version comes back unchanged; neither given, both given and a repository without versions each fail with their own non-field message |
| PublishTarget.LatestIn | pulp_cookbook/app/viewsets.py:71 | the reference latest-version lookup answers iff the history holds a version of the repository, and then answers a version of that repository from the history whose number no other version of it exceeds |
| PublishTarget.ResolveRepositoryToNewest | pulp_cookbook/app/viewsets.py:70-75 | a request naming only a repository that has versions resolves, keeps the repository, and targets its highest-numbered version |
| ContentAdmission.Admit | pulp_cookbook/app/viewsets.py:92-116 | admits iff artifact and name are given, the tar has metadata, and any declared version equals the tar's; a missing artifact is reported before anything else, a missing name before the tar is read, a tar without metadata as an `artifact` error whatever version was declared, a differing declared version (and only that) as a `version` error; admitted content has the declared name and the tar's own version and dependencies |
| ContentAdmission.DeclaredVersionDoesNotMatter | pulp_cookbook/app/viewsets.py:107-116 | an admitted request yields the same content when its declared version is dropped: the tar's version is authoritative |
| ContentAdmission.CorrectedRetrySucceeds | pulp_cookbook/app/viewsets.py:107-116 | a request rejected for its declared version is admitted once the version is set to the tar's, with the same content as when it is left out |
| PublishDispatch.Describe | pulp_cookbook/app/viewsets.py:140-145 | reserves exactly the version's repository then the publisher; the keyword arguments `publisher_pk` and `repository_version_pk` each read back as the publisher's and the version's key, which (with `Uuids.StrParse`) makes each exactly the canonical text of that key |
| PublishDispatch.Publish | pulp_cookbook/app/viewsets.py:135-146 | for a publisher already looked up, a task is described exactly when the request designates a version; otherwise the resolver's error is returned and nothing is reserved; the second reservation is always the publisher |
| PublishDispatch.PublishTargetsDesignatedVersion | pulp_cookbook/app/viewsets.py:135-145 | for the version a request designates, the publish call yields exactly the task description for that version |
| PublishDispatch.PublishRepositoryReservesIt | pulp_cookbook/app/viewsets.py:70-75 | publishing a repository with versions reserves that repository and the publisher, and hands the task the key of the version the lookup chose |
| Uuids.Str | pulp_cookbook/app/viewsets.py:143-144 | `str(pk)` is always 36 characters with hyphens exactly at positions 8, 13, 18 and 23 and lower-case hexadecimal digits elsewhere |
| Uuids.ParseStr | pulp_cookbook/app/viewsets.py:143-144 | reading back the text of a key gives that key, so distinct keys never share a text |
| Uuids.StrParse | pulp_cookbook/app/viewsets.py:143-144 | every canonical text is the text of the key it reads as, so the text passed to the task is determined by the key |

## Left out

- Metadata parsing (`CookbookMetadata.from_cookbook_file`) is not part of this model: it is the parameter `read`. A `KeyError` raised inside it would also surface as the `name` error (line 101); only a missing `name` field is modelled.
- The platform's `RepositoryVersion.latest` is not part of this model: it is the parameter `latest`. `LatestIn` states the expected behaviour (the highest-numbered version of the repository) but does not model that lookup's filtering of incomplete versions.
- The publisher lookup `self.get_object()` (line 134) is the `publisher` parameter of `Publish`. A missing publisher (404) or a forbidden one is rejected before the request body is resolved, so neither is modelled.
- Metadata without a readable version or dependencies is not modelled: the reader always yields both. If reading the version raised a `KeyError`, the `try` at lines 107-112 would swallow it and skip the version check. Line 113 would then raise the same error outside any handler.
- URI resolution and DRF field validation: the field declarations (lines 43-59), `get_resource` (line 95) and `serializer.is_valid` (lines 115 and 137) are framework behaviour. A URI that does not resolve, or a content record the serializer refuses (for instance a duplicate), is not modelled.
- `@transaction.atomic` and persistence: the model returns the fields the content is saved with. The assignment `content.artifact = artifact` (line 117) is never saved in this code, so no binding is claimed.
- Task-queue execution and the mutual exclusion `apply_async_with_reservation` provides belong to the platform's task system. Only the reservation list and arguments handed to it are modelled.
- HTTP responses and headers, `OperationPostponedResponse` (lines 119-120, 147), and the filter class (lines 32-38) are I/O and scaffolding.
- Uuids.Parse reads only the canonical lower-case hyphenated form, which is all `str(uuid)` produces. Python's `uuid.UUID` constructor also accepts other spellings.
