/** `CookbookPublisherViewSet.publish`: once the request is resolved to one
    repository version, the publish task is queued with a reservation on the
    version's repository and on the publisher, and with the two primary keys as
    text, from which the task later looks the objects up again. */
module PublishDispatch {
  import opened Results
  import opened Uuids
  import opened Entities
  import opened Validation
  import opened PublishTarget

  /** A resource the task queue reserves for the task. */
  datatype Resource = RepositoryResource(repository: Repository) | PublisherResource(publisher: Publisher)

  /** The task's keyword arguments `publisher_pk` and `repository_version_pk`. */
  datatype TaskKwargs = TaskKwargs(publisherPk: string, repositoryVersionPk: string)

  /** What `apply_async_with_reservation` is called with. */
  datatype TaskDescriptor = TaskDescriptor(reservations: seq<Resource>, kwargs: TaskKwargs)

  function Describe(publisher: Publisher, version: RepositoryVersion): (t: TaskDescriptor)
    ensures t.reservations == [RepositoryResource(version.repository), PublisherResource(publisher)]
    // each argument is the canonical text of a key, and reads back as that very key
    ensures Parse(t.kwargs.publisherPk) == Some(publisher.pk)
    ensures Parse(t.kwargs.repositoryVersionPk) == Some(version.pk)
  {
    ParseStr(publisher.pk);
    ParseStr(version.pk);
    TaskDescriptor(
      [RepositoryResource(version.repository), PublisherResource(publisher)],
      TaskKwargs(Str(publisher.pk), Str(version.pk)))
  }

  /** The whole publish call: resolve, then describe the task for the resolved
      version. The publisher is the one the view has already looked up; a
      missing or forbidden publisher is rejected before this point. */
  function Publish(publisher: Publisher, data: PublishData, latest: LatestLookup): (r: Result<TaskDescriptor, ValidationError>)
    // a request is queued exactly when it resolves; a rejection queues nothing
    ensures r.Success? <==> exists v :: Designates(data, latest, v)
    ensures r.Failure? ==> r == Failure(Resolve(data, latest).error)
    ensures r.Success? ==> |r.value.reservations| == 2 && r.value.reservations[1] == PublisherResource(publisher)
  {
    var validated :- Resolve(data, latest);
    Success(Describe(publisher, validated.repositoryVersion.value))
  }

  /** The task published is the one for the designated version. */
  lemma PublishTargetsDesignatedVersion(publisher: Publisher, data: PublishData, latest: LatestLookup, v: RepositoryVersion)
    requires Designates(data, latest, v)
    ensures Publish(publisher, data, latest) == Success(Describe(publisher, v))
  {
  }

  /** Publishing a repository reserves that repository, and the version key the
      task receives is that of the version the lookup chose. */
  lemma PublishRepositoryReservesIt(publisher: Publisher, repo: Repository, latest: LatestLookup)
    requires AnswersOwnVersions(latest)
    requires latest(repo).Some?
    ensures var r := Publish(publisher, PublishData(Some(repo), None), latest);
            && r.Success?
            && r.value.reservations == [RepositoryResource(repo), PublisherResource(publisher)]
            && Parse(r.value.kwargs.repositoryVersionPk) == Some(latest(repo).value.pk)
  {
  }
}
