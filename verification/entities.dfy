/** The platform objects the plugin's views handle, reduced to the attributes
    the views use: the UUID primary keys handed to the publish task, a
    version's repository, and an artifact's file. */
module Entities {
  import opened Uuids

  datatype Repository = Repository(pk: Uuid)

  /** An immutable snapshot of a repository; `number` orders the snapshots of
      one repository. */
  datatype RepositoryVersion = RepositoryVersion(pk: Uuid, repository: Repository, number: nat)

  datatype Publisher = Publisher(pk: Uuid)

  /** A stored blob; `fileName` is the storage location the metadata reader opens. */
  datatype Artifact = Artifact(fileName: string)

  /** What the reader finds in a cookbook tar's `metadata.json`: the cookbook's
      version and its dependencies (dependency name to version constraint). */
  datatype CookbookMetadata = CookbookMetadata(version: string, dependencies: map<string, string>)
}
