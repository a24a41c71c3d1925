/** The normaliser and the validator together, as the command-line front
    end chains them: what the validator makes of the data the envelope
    builder extracts from a service result. */
module Pipeline {
  import opened Wrappers
  import opened Values
  import opened PyStr
  import opened Schema
  import opened Envelope
  import opened Strptime
  import opened Validate
  import opened ValidateProofs
  import opened Extract
  import opened ExtractProofs

  /** A service field map for an invoice: a typed date, a currency object
      and a vendor name recognised as text. */
  function ServiceFields(y: nat, m: nat, d: nat, amount: string, vendor: string): Fields {
    map[
      "InvoiceDate" := Some(FieldObject(valueDate := VDate(y, m, d), confidence := VFloat("0.9"))),
      "InvoiceTotal" := Some(FieldObject(valueCurrency := VObject(map["amount" := VFloat(amount), "currency_code" := VStr("EUR"), "currency_symbol" := VStr("€")]))),
      "VendorName" := Some(FieldObject(content := VStr(vendor)))
    ]
  }

  /** The three objects of such a map. */
  lemma ServiceFieldsLookup(y: nat, m: nat, d: nat, amount: string, vendor: string, fields: Fields)
    requires fields == ServiceFields(y, m, d, amount, vendor)
    ensures fields["InvoiceDate"] == Some(FieldObject(valueDate := VDate(y, m, d), confidence := VFloat("0.9")))
    ensures fields["InvoiceTotal"] == Some(FieldObject(valueCurrency := VObject(map["amount" := VFloat(amount), "currency_code" := VStr("EUR"), "currency_symbol" := VStr("€")])))
    ensures fields["VendorName"] == Some(FieldObject(content := VStr(vendor)))
  {
  }

  /** The date is the date value itself, with its confidence. */
  lemma ServiceDateExtracted(y: nat, m: nat, d: nat, amount: string, vendor: string, fields: Fields)
    requires fields == ServiceFields(y, m, d, amount, vendor)
    ensures InvoiceData(fields)["date"].value == VDate(y, m, d)
    ensures InvoiceData(fields)["date"].confidence == VFloat("0.9")
  {
    ServiceFieldsLookup(y, m, d, amount, vendor, fields);
    ExtractValueFollowsSourceOrder(fields["InvoiceDate"].value);
    DateFromInvoiceDate(fields);
  }

  /** The total is the currency's amount. */
  lemma ServiceTotalExtracted(y: nat, m: nat, d: nat, amount: string, vendor: string, fields: Fields)
    requires fields == ServiceFields(y, m, d, amount, vendor)
    ensures InvoiceData(fields)["total"].value == VFloat(amount)
  {
    ServiceFieldsLookup(y, m, d, amount, vendor, fields);
    var total := fields["InvoiceTotal"].value;
    ExtractValueFollowsSourceOrder(total);
    assert ExtractValue(fields["InvoiceTotal"]) == total.valueCurrency;
    CurrencyObjectGivesAmount(VFloat(amount), VStr("EUR"), VStr("€"));
    TotalFromInvoiceTotal(fields);
  }

  /** The company name is the vendor text. */
  lemma ServiceCompanyExtracted(y: nat, m: nat, d: nat, amount: string, vendor: string, fields: Fields)
    requires fields == ServiceFields(y, m, d, amount, vendor)
    ensures InvoiceData(fields)["company_name"].value == VStr(vendor)
  {
    ServiceFieldsLookup(y, m, d, amount, vendor, fields);
    ExtractValueFollowsSourceOrder(fields["VendorName"].value);
    CompanyFallsBackToCustomer(fields);
  }

  /** What the builder records for such a map: the date value itself, the
      currency's amount and the vendor text. */
  lemma ServiceFieldsExtracted(y: nat, m: nat, d: nat, amount: string, vendor: string)
    ensures InvoiceData(ServiceFields(y, m, d, amount, vendor))["date"].value == VDate(y, m, d)
    ensures InvoiceData(ServiceFields(y, m, d, amount, vendor))["date"].confidence == VFloat("0.9")
    ensures InvoiceData(ServiceFields(y, m, d, amount, vendor))["total"].value == VFloat(amount)
    ensures InvoiceData(ServiceFields(y, m, d, amount, vendor))["company_name"].value == VStr(vendor)
  {
    var fields := ServiceFields(y, m, d, amount, vendor);
    ServiceDateExtracted(y, m, d, amount, vendor, fields);
    ServiceTotalExtracted(y, m, d, amount, vendor, fields);
    ServiceCompanyExtracted(y, m, d, amount, vendor, fields);
  }

  /** A field with a non-empty value raises no missing-field error. */
  lemma PresentFieldPasses(f: LabelField, data: map<string, FieldResult>)
    requires f.name in data && !IsEmpty(data[f.name].value)
    ensures RequiredError(f, data) == []
  {
  }

  /** A non-empty value of a string field, or one its type check accepts,
      raises no type error. */
  lemma CheckedFieldPasses(show: Value -> string, f: LabelField, data: map<string, FieldResult>)
    requires f.name in data && !IsEmpty(data[f.name].value)
    requires TypeCheck(show, f.fieldType, f.name, data[f.name].value) == []
    ensures TypeError(show, f, data) == []
  {
  }

  /** Data whose date parses, whose total is numeric and whose company is
      not blank passes both passes of the invoice schema. */
  lemma InvoiceDataPasses(show: Value -> string, data: map<string, FieldResult>)
    requires "date" in data && "total" in data && "company_name" in data
    requires !IsEmpty(data["date"].value) && DateAccepted(show, data["date"].value)
    requires !IsEmpty(data["total"].value) && ParseNumber(show, data["total"].value)
    requires !IsEmpty(data["company_name"].value)
    ensures RequiredPassErrors(InvoiceLabels().fields, data) == []
    ensures TypePassErrors(show, InvoiceLabels().fields, data) == []
  {
    var fs := InvoiceLabels().fields;
    InvoiceFields();
    assert fs == [fs[0], fs[1], fs[2]];
    PresentFieldPasses(fs[0], data);
    PresentFieldPasses(fs[1], data);
    PresentFieldPasses(fs[2], data);
    DateCheckPasses(show, "date", data["date"].value);
    AmountCheckPasses(show, "total", data["total"].value);
    CheckedFieldPasses(show, fs[0], data);
    CheckedFieldPasses(show, fs[1], data);
    CheckedFieldPasses(show, fs[2], data);
    ThreeFieldPasses(show, fs[0], fs[1], fs[2], data);
  }

  /** The extracted data of a well-formed invoice meets the conditions
      of InvoiceDataPasses. */
  lemma ExtractedInvoiceWellFormed(show: Value -> string, y: nat, m: nat, d: nat, amount: string, vendor: string,
                                   data: map<string, FieldResult>)
    requires ShowAgrees(show)
    requires ValidDate(y, m, d)
    requires !IsEmpty(VStr(vendor))
    requires data == InvoiceData(ServiceFields(y, m, d, amount, vendor))
    ensures "date" in data && "total" in data && "company_name" in data
    ensures !IsEmpty(data["date"].value) && DateAccepted(show, data["date"].value)
    ensures !IsEmpty(data["total"].value) && ParseNumber(show, data["total"].value)
    ensures !IsEmpty(data["company_name"].value)
  {
    ServiceFieldsExtracted(y, m, d, amount, vendor);
    DateValueChecks(show, y, m, d, data["date"].value);
    NumberValueChecks(show, amount, data["total"].value);
  }

  lemma DateValueChecks(show: Value -> string, y: nat, m: nat, d: nat, v: Value)
    requires ShowAgrees(show) && ValidDate(y, m, d) && v == VDate(y, m, d)
    ensures !IsEmpty(v) && DateAccepted(show, v)
  {
    DateValuesAccepted(show, y, m, d);
  }

  lemma NumberValueChecks(show: Value -> string, amount: string, v: Value)
    requires v == VFloat(amount)
    ensures !IsEmpty(v) && ParseNumber(show, v)
  {
    NumbersAccepted(show, v);
  }

  /** The extracted data of a well-formed invoice passes both validation
      passes under the invoice schema. */
  lemma ExtractedInvoiceValidates(show: Value -> string, y: nat, m: nat, d: nat, amount: string, vendor: string)
    requires ShowAgrees(show)
    requires ValidDate(y, m, d)
    requires !IsEmpty(VStr(vendor))
    ensures RequiredPassErrors(InvoiceLabels().fields, InvoiceData(ServiceFields(y, m, d, amount, vendor))) == []
    ensures TypePassErrors(show, InvoiceLabels().fields, InvoiceData(ServiceFields(y, m, d, amount, vendor))) == []
  {
    var data := InvoiceData(ServiceFields(y, m, d, amount, vendor));
    ExtractedInvoiceWellFormed(show, y, m, d, amount, vendor, data);
    InvoiceDataPasses(show, data);
  }

  /** A service result without documents yields data that the required
      pass rejects field by field, in schema order. */
  lemma NoDocumentsAllMissing(show: Value -> string, result: ReadResult)
    requires result.documents == []
    ensures RequiredPassErrors(InvoiceLabels().fields, InvoiceData(FirstDocumentFields(result.documents)))
      == [MissingError("date"), MissingError("total"), MissingError("company_name")]
    ensures TypePassErrors(show, InvoiceLabels().fields, InvoiceData(FirstDocumentFields(result.documents))) == []
  {
    var data := InvoiceData(FirstDocumentFields(result.documents));
    NoDocumentsNoValues();
    assert data["date"].value == VNone && data["total"].value == VNone && data["company_name"].value == VNone;
    EmptyDataRequired(data);
    EmptyDataTyped(show, data);
  }

  lemma EmptyDataRequired(data: map<string, FieldResult>)
    requires "date" in data && "total" in data && "company_name" in data
    requires data["date"].value == VNone && data["total"].value == VNone && data["company_name"].value == VNone
    ensures RequiredPassErrors(InvoiceLabels().fields, data)
      == [MissingError("date"), MissingError("total"), MissingError("company_name")]
  {
    var fs := InvoiceLabels().fields;
    InvoiceFields();
    assert fs == [fs[0], fs[1], fs[2]];
    RequiredPassSplit(fs[0], fs[1], fs[2], data);
  }

  lemma EmptyDataTyped(show: Value -> string, data: map<string, FieldResult>)
    requires "date" in data && "total" in data && "company_name" in data
    requires data["date"].value == VNone && data["total"].value == VNone && data["company_name"].value == VNone
    ensures TypePassErrors(show, InvoiceLabels().fields, data) == []
  {
    var fs := InvoiceLabels().fields;
    InvoiceFields();
    assert fs == [fs[0], fs[1], fs[2]];
    TypePassSplit(show, fs[0], fs[1], fs[2], data);
  }
}
