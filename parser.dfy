/**
 * Loading a document: the generic decoding of the text decides which
 * dialect it is, by the `swagger` field of a Swagger Object (OpenAPI
 * Specification 2.0) and the `openapi` field of an OpenAPI Object
 * (OpenAPI 3.0.3, section 4.7.1), before the OpenAPI 3 reader is used.
 */
module Parser {
  import opened Wrappers
  import opened Spec
  import opened ParserV3

  /** A decoded YAML/JSON value: only whether it is a string matters. */
  datatype Value = Text(s: string) | NonText

  /** The top-level fields of the generic decoding that are looked at. */
  datatype RawDocument = RawDocument(swagger: Option<Value>, openapi: Option<Value>)

  /** What the decoding libraries make of the text: the generic decoding
      (none when the text is not YAML or JSON), and the typed OpenAPI 3
      decoding of the same text (none when it does not fit). */
  datatype Content = Content(raw: Option<RawDocument>, typed: Option<OpenApi>)

  /** A field's value when it is a string; absent otherwise. */
  function AsText(v: Option<Value>): Option<string> {
    if v.Some? && v.value.Text? then Some(v.value.s) else None
  }

  predicate IsSwagger2(raw: RawDocument) {
    AsText(raw.swagger).Some? && "2." <= AsText(raw.swagger).value
  }

  predicate IsOpenApi3(raw: RawDocument) {
    AsText(raw.openapi).Some? && "3." <= AsText(raw.openapi).value
  }

  function ParseSpec(content: Content): (r: Result<LoadedSpec, ParseError>)
    ensures content.raw.None? ==> r == Failure(NotYamlOrJson)
    ensures content.raw.Some? && IsSwagger2(content.raw.value) ==> r == Failure(SwaggerNotImplemented)
    ensures content.raw.Some? && !IsSwagger2(content.raw.value) && !IsOpenApi3(content.raw.value) ==>
      r == Failure(UnknownVersion)
    ensures content.raw.Some? && !IsSwagger2(content.raw.value) && IsOpenApi3(content.raw.value) ==>
      r == Parse(content.typed)
    ensures r.Success? <==>
      content.raw.Some? && !IsSwagger2(content.raw.value) && IsOpenApi3(content.raw.value)
      && content.typed.Some?
    ensures r.Success? ==> r.value.version != V20
  {
    match content.raw
    case None => Failure(NotYamlOrJson)
    case Some(raw) =>
      if IsSwagger2(raw) then Failure(SwaggerNotImplemented)
      else if IsOpenApi3(raw) then Parse(content.typed)
      else Failure(UnknownVersion)
  }

  /** The Swagger check comes first: a document that declares both
      `swagger: 2.x` and `openapi: 3.x` is still refused. */
  lemma SwaggerCheckedFirst(swagger: string, openapi: string, typed: Option<OpenApi>)
    requires "2." <= swagger && "3." <= openapi
    ensures ParseSpec(Content(Some(RawDocument(Some(Text(swagger)), Some(Text(openapi)))), typed))
      == Failure(SwaggerNotImplemented)
  {
  }

  /** A `swagger` or `openapi` field that is not a string counts as absent. */
  lemma NonTextIsAbsent(raw: RawDocument, typed: Option<OpenApi>)
    ensures
      var swagger := if raw.swagger == Some(NonText) then None else raw.swagger;
      var openapi := if raw.openapi == Some(NonText) then None else raw.openapi;
      ParseSpec(Content(Some(raw), typed)) == ParseSpec(Content(Some(RawDocument(swagger, openapi)), typed))
  {
  }

  /** A document with neither field is refused. */
  lemma NoVersionRefused(typed: Option<OpenApi>)
    ensures ParseSpec(Content(Some(RawDocument(None, None)), typed)) == Failure(UnknownVersion)
  {
  }

  /** When the two decodings agree on the `openapi` string, a loaded
      document records that string and its version matches it. */
  lemma LoadedVersionMatchesDocument(content: Content)
    requires content.raw.Some? && content.typed.Some?
    requires AsText(content.raw.value.openapi) == Some(content.typed.value.openapi)
    requires ParseSpec(content).Success?
    ensures "3." <= ParseSpec(content).value.openapiVersion
    ensures ParseSpec(content).value.version == V31 <==> "3.1" <= ParseSpec(content).value.openapiVersion
  {
  }
}
