/**
 * Reading an OpenAPI 3.x document (the OpenAPI Object of OpenAPI 3.0.3,
 * section 4.7.1, and 3.1.0, section 4.8.1) into a loaded summary.  The
 * typed decoding of the text is done by a library outside this model; its
 * outcome is the input here: either nothing (the text does not fit an
 * OpenAPI Object) or the fields this component reads.
 */
module ParserV3 {
  import opened Wrappers
  import opened Spec
  import opened StringOrder

  /** The Components Object (OpenAPI 3.0.3, section 4.7.7): the keys of its
      `schemas` map, in document order. */
  datatype Components = Components(schemaKeys: seq<string>)

  /** The fields of a decoded OpenAPI Object that are read here. */
  datatype OpenApi = OpenApi(openapi: string, title: string, components: Option<Components>)

  /** Why a document could not be loaded. */
  datatype ParseError =
    | NotYamlOrJson
    | SwaggerNotImplemented
    | UnknownVersion
    | NotOpenApi3

  function Message(e: ParseError): string {
    match e
    case NotYamlOrJson => "failed to parse spec as YAML/JSON"
    case SwaggerNotImplemented => "Swagger 2.0 support is not yet implemented"
    case UnknownVersion =>
      "Cannot determine OpenAPI version from spec (expected 'openapi: 3.x' or 'swagger: 2.0')"
    case NotOpenApi3 => "failed to parse OpenAPI 3.x spec"
  }

  /** The version of an `openapi` string: 3.1 for anything that starts with
      "3.1", and 3.0 otherwise; never Swagger 2.0. */
  function Classify(openapi: string): (v: SpecVersion)
    ensures v == V31 <==> "3.1" <= openapi
    ensures v != V20
  {
    if "3.1" <= openapi then V31 else V30
  }

  /** The top-level schema names, sorted; none without a Components Object. */
  function SchemaNames(components: Option<Components>): (names: seq<string>)
    ensures components.None? ==> names == []
    ensures components.Some? ==>
      Sorted(names) && multiset(names) == multiset(components.value.schemaKeys)
  {
    match components
    case None => []
    case Some(c) => Sort(c.schemaKeys)
  }

  function Parse(doc: Option<OpenApi>): (r: Result<LoadedSpec, ParseError>)
    ensures doc.None? <==> r == Failure(NotOpenApi3)
    ensures r.Success? <==> doc.Some?
    ensures r.Success? ==>
      && r.value.title == doc.value.title
      && r.value.openapiVersion == doc.value.openapi
      && (r.value.version == V31 <==> "3.1" <= doc.value.openapi)
      && r.value.version != V20
      && Sorted(r.value.schemaNames)
      && (doc.value.components.None? ==> r.value.schemaNames == [])
      && (doc.value.components.Some? ==>
            multiset(r.value.schemaNames) == multiset(doc.value.components.value.schemaKeys))
  {
    match doc
    case None => Failure(NotOpenApi3)
    case Some(api) =>
      Success(LoadedSpec(api.title, api.openapi, Classify(api.openapi), SchemaNames(api.components)))
  }

  /** The petstore document: version 3.0.0, titled "Petstore", schemas
      declared as Pets, Error, Pet, NewPet. */
  const Petstore := OpenApi("3.0.0", "Petstore", Some(Components(["Pets", "Error", "Pet", "NewPet"])))

  lemma PetstoreNamesSorted()
    ensures Sorted(["Error", "NewPet", "Pet", "Pets"])
  {
    var names := ["Error", "NewPet", "Pet", "Pets"];
    assert LessEq("Error", "NewPet");
    assert LessEq("NewPet", "Pet");
    assert LessEq("Pet", "Pets") by {
      assert LessEq("et", "ets") by {
        assert LessEq("t", "ts") by {
          assert LessEq("", "s");
        }
      }
    }
    forall i, j | 0 <= i < j < 4 ensures LessEq(names[i], names[j]) {
      if j == i + 2 {
        LessEqTransitive(names[i], names[i + 1], names[j]);
      } else if j == i + 3 {
        LessEqTransitive(names[i], names[i + 1], names[i + 2]);
        LessEqTransitive(names[i], names[i + 2], names[j]);
      }
    }
  }

  /** Sorting yields the one sorted arrangement of the names. */
  lemma SortIsTheSortedArrangement(keys: seq<string>, expected: seq<string>)
    requires Sorted(expected) && multiset(expected) == multiset(keys)
    ensures Sort(keys) == expected
  {
    SortedUnique(Sort(keys), expected);
  }

  lemma PetstoreSameNames()
    ensures multiset(["Error", "NewPet", "Pet", "Pets"]) == multiset(Petstore.components.value.schemaKeys)
  {
  }

  lemma PetstoreVersion()
    ensures Classify(Petstore.openapi) == V30
  {
    assert "3.1"[2] != "3.0.0"[2];
  }

  lemma PetstoreNames()
    ensures SchemaNames(Petstore.components) == ["Error", "NewPet", "Pet", "Pets"]
  {
    PetstoreNamesSorted();
    PetstoreSameNames();
    SortIsTheSortedArrangement(Petstore.components.value.schemaKeys, ["Error", "NewPet", "Pet", "Pets"]);
  }

  /** The petstore document loads as OpenAPI 3.0 with its schema names in
      alphabetical order. */
  lemma PetstoreLoads()
    ensures Parse(Some(Petstore)) ==
      Success(LoadedSpec("Petstore", "3.0.0", V30, ["Error", "NewPet", "Pet", "Pets"]))
  {
    PetstoreVersion();
    PetstoreNames();
  }
}
