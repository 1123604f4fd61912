/** `_RepositoryPublishURLSerializer.validate`: turns a publish request naming a
    repository, or one of its versions, into validated data that carries exactly
    one concrete repository version. */
module PublishTarget {
  import opened Results
  import opened Entities
  import opened Validation

  /** The serializer's validated data. Both fields are optional; a field the
      caller left out is absent (the serializer refuses `null`), and a model
      instance is always truthy, so Python's `not x` is `x.None?` here. */
  datatype PublishData = PublishData(repository: Option<Repository>, repositoryVersion: Option<RepositoryVersion>)

  /** `RepositoryVersion.latest(repository)`: the platform's lookup of the
      newest version of a repository, `None` when it has none. */
  type LatestLookup = Repository -> Option<RepositoryVersion>

  const NeitherGivenMessage: string :=
    "Either the 'repository' or 'repository_version' need to be specified"
  const NoVersionMessage: string :=
    "Repository has no version available to publish"
  const BothGivenMessage: string :=
    "Either the 'repository' or 'repository_version' need to be specified but not both."

  /** The version a request designates: the version it names, or the newest
      version of the repository it names; nothing when it names both or neither. */
  predicate Designates(data: PublishData, latest: LatestLookup, v: RepositoryVersion) {
    match (data.repository, data.repositoryVersion)
    case (None, Some(given)) => v == given
    case (Some(repo), None) => latest(repo) == Some(v)
    case _ => false
  }

  /** A lookup that only ever answers with a version of the repository it was asked about. */
  ghost predicate AnswersOwnVersions(latest: LatestLookup) {
    forall repo :: latest(repo).Some? ==> latest(repo).value.repository == repo
  }

  function Resolve(data: PublishData, latest: LatestLookup): (r: Result<PublishData, ValidationError>)
    // success means: exactly one concrete version, the one the request designates
    ensures r.Success? ==> r.value.repositoryVersion.Some?
    ensures r.Success? ==> Designates(data, latest, r.value.repositoryVersion.value)
    ensures forall v :: Designates(data, latest, v) ==> r.Success?
    ensures r.Success? ==> r.value.repository == data.repository
    // the three rejections, each with its own message
    ensures data.repository.None? && data.repositoryVersion.None? ==>
              r == Failure(NonFieldError(NeitherGivenMessage))
    ensures data.repository.Some? && data.repositoryVersion.Some? ==>
              r == Failure(NonFieldError(BothGivenMessage))
    ensures data.repository.Some? && data.repositoryVersion.None? && latest(data.repository.value).None? ==>
              r == Failure(NonFieldError(NoVersionMessage))
    // a request naming a version passes through untouched
    ensures data.repository.None? && data.repositoryVersion.Some? ==> r == Success(data)
  {
    if data.repository.None? && data.repositoryVersion.None? then
      Failure(NonFieldError(NeitherGivenMessage))
    else if data.repository.None? && data.repositoryVersion.Some? then
      Success(data)
    else if data.repository.Some? && data.repositoryVersion.None? then
      match latest(data.repository.value)
      // `{'repository_version': version}` updated with `data`, which holds only `repository`
      case Some(version) => Success(PublishData(data.repository, Some(version)))
      case None => Failure(NonFieldError(NoVersionMessage))
    else
      Failure(NonFieldError(BothGivenMessage))
  }

  /** A request designates at most one version. */
  lemma DesignatesUnique(data: PublishData, latest: LatestLookup, v: RepositoryVersion, w: RepositoryVersion)
    requires Designates(data, latest, v) && Designates(data, latest, w)
    ensures v == w
  {
  }

  /** The newest version of `repo` recorded in `history`: the highest number,
      and among equal numbers the one recorded last. A reference instance of
      `LatestLookup`. */
  function LatestIn(history: seq<RepositoryVersion>, repo: Repository): (r: Option<RepositoryVersion>)
    ensures r.Some? <==> exists i :: 0 <= i < |history| && history[i].repository == repo
    ensures r.Some? ==> r.value in history && r.value.repository == repo
    ensures r.Some? ==> forall i :: 0 <= i < |history| && history[i].repository == repo ==>
                                    history[i].number <= r.value.number
  {
    if |history| == 0 then None
    else
      var earlierVersions := history[..|history| - 1];
      var last := history[|history| - 1];
      var earlier := LatestIn(earlierVersions, repo);
      assert forall i :: 0 <= i < |earlierVersions| ==> earlierVersions[i] == history[i];
      if last.repository != repo then earlier
      else if earlier.Some? && earlier.value.number > last.number then earlier
      else Some(last)
  }

  lemma LatestInAnswersOwnVersions(history: seq<RepositoryVersion>)
    ensures AnswersOwnVersions(repo => LatestIn(history, repo))
  {
  }

  /** Publishing a repository that has versions targets its newest one, when
      the lookup answers as `LatestIn` does. */
  lemma ResolveRepositoryToNewest(history: seq<RepositoryVersion>, repo: Repository, latest: LatestLookup, i: nat)
    requires latest(repo) == LatestIn(history, repo)
    requires i < |history| && history[i].repository == repo
    ensures var r := Resolve(PublishData(Some(repo), None), latest);
            && r.Success?
            && r.value.repository == Some(repo)
            && r.value.repositoryVersion.value in history
            && r.value.repositoryVersion.value.repository == repo
            && history[i].number <= r.value.repositoryVersion.value.number
  {
  }
}
