/** The shape of a `rest_framework.serializers.ValidationError` as the plugin
    raises it: either a detail dictionary with one field name, or a plain
    (non-field) message. */
module Validation {

  /** The request fields the plugin names in its per-field errors. */
  datatype Field = ArtifactField | NameField | VersionField

  datatype ValidationError =
    | FieldError(field: Field, message: string)
    | NonFieldError(message: string)
}
