/** The loaded, version-detected summary of an API description document. */
module Spec {

  datatype SpecVersion = V20 | V30 | V31
  {
    /** The human-readable name of the version, as shown in the header. */
    function Label(): string
    {
      match this
      case V20 => "Swagger 2.0"
      case V30 => "OpenAPI 3.0"
      case V31 => "OpenAPI 3.1"
    }
  }

  /** No two versions share a label. */
  lemma LabelInjective(a: SpecVersion, b: SpecVersion)
    requires a.Label() == b.Label()
    ensures a == b
  {
  }

  lemma LabelValues()
    ensures V20.Label() == "Swagger 2.0"
    ensures V30.Label() == "OpenAPI 3.0"
    ensures V31.Label() == "OpenAPI 3.1"
  {
  }

  datatype LoadedSpec = LoadedSpec(
    title: string,
    openapiVersion: string,
    version: SpecVersion,
    schemaNames: seq<string>)
}
