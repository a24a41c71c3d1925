/** The schema registry: which fields a document type declares
    (src/doc2json/schema.py). */
module Schema {
  import opened Wrappers

  /** The six semantic field types a LabelField may declare. */
  datatype FieldType = String | Number | Date | Currency | Email | Phone

  /** The literal each type is written as. */
  function TypeName(t: FieldType): string {
    match t
    case String => "string"
    case Number => "number"
    case Date => "date"
    case Currency => "currency"
    case Email => "email"
    case Phone => "phone"
  }

  /** The `Literal[...]` check applied to a `type` given as text: exactly the
      six literals are accepted. */
  function ParseFieldType(s: string): (r: Option<FieldType>)
    ensures r.Some? ==> TypeName(r.value) == s
  {
    if s == "string" then Some(String)
    else if s == "number" then Some(Number)
    else if s == "date" then Some(Date)
    else if s == "currency" then Some(Currency)
    else if s == "email" then Some(Email)
    else if s == "phone" then Some(Phone)
    else None
  }

  /** Every type's literal is accepted and read back as that type, so the
      literals are six distinct strings. */
  lemma FieldTypeNames(t: FieldType)
    ensures ParseFieldType(TypeName(t)) == Some(t)
  {
  }

  /** A declared target field. */
  datatype LabelField = LabelField(
    name: string,
    fieldType: FieldType := String,
    required: bool := false,
    hints: Option<seq<string>> := None,
    description: Option<string> := None)

  /** The fields expected for one document type. */
  datatype LabelSchema = LabelSchema(
    docType: string,
    version: string := "1.0",
    fields: seq<LabelField>)

  /** The names of a schema's fields, in order. */
  function FieldNames(fields: seq<LabelField>): seq<string> {
    seq(|fields|, k requires 0 <= k < |fields| => fields[k].name)
  }

  /** No two fields share a name. */
  predicate UniqueNames(fields: seq<LabelField>) {
    forall i, j | 0 <= i < j < |fields| :: fields[i].name != fields[j].name
  }

  /** `invoice_labels()`. */
  function InvoiceLabels(): (r: LabelSchema)
    ensures r.docType == "invoice" && r.version == "1.0"
    ensures FieldNames(r.fields) == ["date", "total", "company_name"]
    ensures UniqueNames(r.fields)
    ensures r.fields[0].fieldType == Date && r.fields[1].fieldType == Currency
      && r.fields[2].fieldType == String
    ensures forall k | 0 <= k < |r.fields| :: r.fields[k].required
    ensures forall k | 0 <= k < |r.fields| ::
      r.fields[k].hints == None && r.fields[k].description == None
  {
    LabelSchema(
      docType := "invoice",
      fields := [
        LabelField("date", fieldType := Date, required := true),
        LabelField("total", fieldType := Currency, required := true),
        LabelField("company_name", fieldType := String, required := true)
      ])
  }

  /** The defaults of a LabelField built from a name alone. */
  lemma LabelFieldDefaults(name: string)
    ensures LabelField(name) == LabelField(name, String, false, None, None)
  {
  }
}
