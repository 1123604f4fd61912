/** The checks of `CookbookPackageContentViewSet.create`: an uploaded cookbook
    tar is admitted as content only if the request names the artifact and the
    cookbook, the tar holds a `metadata.json`, and a declared version agrees with
    it. The version and dependencies of the new content come from the tar. */
module ContentAdmission {
  import opened Results
  import opened Entities
  import opened Validation

  /** The request data: every field may be missing. */
  datatype CreateRequest = CreateRequest(artifact: Option<Artifact>, name: Option<string>, version: Option<string>)

  /** What `CookbookMetadata.from_cookbook_file` does: return the metadata, or
      raise `FileNotFoundError` when the tar has no `metadata.json`. */
  datatype Extraction = Found(metadata: CookbookMetadata) | NoMetadataFile

  /** The metadata reader, given the artifact's file name and the cookbook name. */
  type MetadataReader = (string, string) -> Extraction

  /** The fields the new content record is saved with. */
  datatype ContentFields = ContentFields(name: string, version: string, dependencies: map<string, string>)

  const RequiredMessage: string := "This field is required"
  const NoMetadataMessage: string := "No metadata.json found in cookbook tar"
  const VersionMismatchMessage: string := "version does not correspond to version in cookbook tar"

  /** The relation the content record keeps to the artifact it was made from:
      its version and dependencies are those the artifact's own metadata declares. */
  predicate DescribesArtifact(content: ContentFields, artifact: Artifact, read: MetadataReader) {
    match read(artifact.fileName, content.name)
    case Found(m) => content.version == m.version && content.dependencies == m.dependencies
    case NoMetadataFile => false
  }

  /** A request every check accepts: artifact and name given, metadata found, and
      any declared version equal to the one in the metadata. */
  predicate Admissible(req: CreateRequest, read: MetadataReader) {
    && req.artifact.Some?
    && req.name.Some?
    && read(req.artifact.value.fileName, req.name.value).Found?
    && (req.version.None? || req.version.value == read(req.artifact.value.fileName, req.name.value).metadata.version)
  }

  function Admit(req: CreateRequest, read: MetadataReader): (r: Result<ContentFields, ValidationError>)
    ensures r.Success? <==> Admissible(req, read)
    // on success: the declared name, the tar's version and the tar's dependencies
    ensures r.Success? ==> r.value.name == req.name.value
    ensures r.Success? ==> DescribesArtifact(r.value, req.artifact.value, read)
    // the checks in their order; the first one that fails decides the error
    ensures req.artifact.None? ==> r == Failure(FieldError(ArtifactField, RequiredMessage))
    ensures req.artifact.Some? && req.name.None? ==> r == Failure(FieldError(NameField, RequiredMessage))
    ensures req.artifact.Some? && req.name.Some? && read(req.artifact.value.fileName, req.name.value).NoMetadataFile? ==>
              r == Failure(FieldError(ArtifactField, NoMetadataMessage))
    ensures r == Failure(FieldError(VersionField, VersionMismatchMessage)) <==>
              && req.artifact.Some? && req.name.Some?
              && read(req.artifact.value.fileName, req.name.value).Found?
              && req.version.Some?
              && req.version.value != read(req.artifact.value.fileName, req.name.value).metadata.version
    ensures r.Failure? ==> r.error.FieldError?
  {
    match req.artifact
    case None => Failure(FieldError(ArtifactField, RequiredMessage))
    case Some(artifact) =>
      // A `KeyError` raised inside the reader would be reported as the name error
      // too; only the missing name is modelled.
      match req.name
      case None => Failure(FieldError(NameField, RequiredMessage))
      case Some(name) =>
        match read(artifact.fileName, name)
        case NoMetadataFile => Failure(FieldError(ArtifactField, NoMetadataMessage))
        case Found(metadata) =>
          // The source's `try` around this comparison also encloses the read of
          // the metadata's version, so a `KeyError` there would skip the check;
          // the reader here always yields a version.
          if req.version.Some? && req.version.value != metadata.version then
            Failure(FieldError(VersionField, VersionMismatchMessage))
          else
            Success(ContentFields(name, metadata.version, metadata.dependencies))
  }

  /** Whether or not a version was declared, an admitted request yields the same
      content: the tar's version is authoritative. */
  lemma DeclaredVersionDoesNotMatter(req: CreateRequest, read: MetadataReader)
    requires Admit(req, read).Success?
    ensures Admit(req.(version := None), read) == Admit(req, read)
  {
  }

  /** A request rejected only for its declared version is admitted once the
      version is corrected to the tar's, or left out, and then yields the same
      content either way. */
  lemma CorrectedRetrySucceeds(req: CreateRequest, read: MetadataReader)
    requires Admit(req, read) == Failure(FieldError(VersionField, VersionMismatchMessage))
    ensures var found := read(req.artifact.value.fileName, req.name.value).metadata.version;
            && Admit(req.(version := Some(found)), read).Success?
            && Admit(req.(version := Some(found)), read) == Admit(req.(version := None), read)
  {
  }
}
