/** The output contract: errors, per-field results and the envelope that
    bundles them (src/doc2json/envelope.py). Fixed constructor fields stand
    for the models' refusal of extra attributes. */
module Envelope {
  import opened Wrappers
  import opened Values
  import opened Schema

  /** A validation error; `field` names the LabelField it is about. */
  datatype ExtractionError = ExtractionError(
    code: string,
    message: string,
    field: Option<string> := None)

  /** The extracted value of one label field with its provenance. The
      confidence is whatever the service reported (a float, or None). */
  datatype FieldResult = FieldResult(
    value: Value := VNone,
    confidence: Value := VNone,
    source: Option<string> := None,
    raw: Option<map<string, Value>> := None)

  /** The result of one extraction run. It is an object because the
      validator appends to `errors` and assigns `ok` in place. `labels` holds
      the schema the run used (its dictionary dump is not modelled). */
  class ExtractionEnvelope {
    var ok: bool
    var docType: string
    var modelId: string
    var labels: LabelSchema
    var data: map<string, FieldResult>
    var errors: seq<ExtractionError>
    var warnings: seq<string>
    var meta: map<string, Value>

    constructor (
      docType: string,
      modelId: string,
      labels: LabelSchema,
      data: map<string, FieldResult>,
      ok: bool := true,
      errors: seq<ExtractionError> := [],
      warnings: seq<string> := [],
      meta: map<string, Value> := map[])
      ensures this.ok == ok && this.docType == docType && this.modelId == modelId
      ensures this.labels == labels && this.data == data
      ensures this.errors == errors && this.warnings == warnings && this.meta == meta
    {
      this.ok := ok;
      this.docType := docType;
      this.modelId := modelId;
      this.labels := labels;
      this.data := data;
      this.errors := errors;
      this.warnings := warnings;
      this.meta := meta;
    }
  }

  /** The defaults: an error without a field, an empty field result. */
  lemma Defaults(code: string, message: string)
    ensures ExtractionError(code, message).field == None
    ensures FieldResult() == FieldResult(VNone, VNone, None, None)
  {
  }

  /** A client: an envelope built from the required arguments alone starts
      out ok, without errors, warnings or meta. */
  method DefaultEnvelope(docType: string, modelId: string, labels: LabelSchema)
    returns (env: ExtractionEnvelope)
    ensures fresh(env)
    ensures env.ok && env.errors == [] && env.warnings == [] && env.meta == map[]
  {
    env := new ExtractionEnvelope(docType, modelId, labels, map[]);
  }
}
