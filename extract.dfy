/** The value normaliser (src/doc2json/extract.py): what is read out of the
    recognition service's result once the service has answered. The
    service itself is not modelled; its result is the datatype ReadResult. */
module Extract {
  import opened Wrappers
  import opened Values
  import opened PyStr
  import opened Schema
  import opened Envelope

  // ----- the service's result, as far as the normaliser reads it -----

  /** A service field object, slot by slot; an absent attribute reads as
      VNone, exactly as `getattr(obj, name, None)` does. */
  datatype FieldObject = FieldObject(
    value: Value := VNone,
    valueString: Value := VNone,
    valueDate: Value := VNone,
    valueNumber: Value := VNone,
    valueInteger: Value := VNone,
    valueCurrency: Value := VNone,
    valuePhoneNumber: Value := VNone,
    valueAddress: Value := VNone,
    content: Value := VNone,
    confidence: Value := VNone)

  /** The field map of an analysed document; a key may map to None. */
  type Fields = map<string, Option<FieldObject>>

  /** A recognised line; `content` None stands for a missing attribute. */
  datatype Line = Line(content: Option<string>)

  /** A page; a missing or None `lines` reads as no lines. */
  datatype Page = Page(lines: seq<Line>)

  datatype AnalyzedDocument = AnalyzedDocument(fields: Fields)

  /** The analysis result; missing or None `pages` and `documents` read as
      empty lists. */
  datatype ReadResult = ReadResult(
    pages: seq<Page>,
    content: Option<string>,
    documents: seq<AnalyzedDocument>)

  // ----- _extract_value -----

  /** The slots `_extract_value` reads, in the order it reads them:
      `value`, the seven typed slots, then `content`. */
  function Slots(o: FieldObject): seq<Value> {
    [o.value, o.valueString, o.valueDate, o.valueNumber, o.valueInteger,
     o.valueCurrency, o.valuePhoneNumber, o.valueAddress, o.content]
  }

  /** Slot `i` is the first one that is not None. */
  predicate FirstSetAt(vs: seq<Value>, i: int) {
    0 <= i < |vs| && vs[i] != VNone && forall j | 0 <= j < i :: vs[j] == VNone
  }

  /** The index of the first slot that is not None, or |vs| when all are. */
  function FirstSet(vs: seq<Value>): (i: nat)
    ensures i <= |vs|
    ensures forall j | 0 <= j < i :: vs[j] == VNone
    ensures i < |vs| ==> vs[i] != VNone
  {
    if vs == [] then 0
    else if vs[0] != VNone then 0
    else 1 + FirstSet(vs[1..])
  }

  /** `_extract_value(field_obj)`: None for no object; otherwise the first
      slot that is not None, in slot order, or None when every slot is. */
  function ExtractValue(o: Option<FieldObject>): (r: Value)
    ensures o.None? ==> r == VNone
    ensures o.Some? ==> (r == VNone <==> forall j | 0 <= j < |Slots(o.value)| :: Slots(o.value)[j] == VNone)
    ensures o.Some? && r != VNone ==>
      exists i | 0 <= i < |Slots(o.value)| :: FirstSetAt(Slots(o.value), i) && Slots(o.value)[i] == r
  {
    if o.None? then VNone
    else
      var i := FirstSet(Slots(o.value));
      if i < |Slots(o.value)| then Slots(o.value)[i] else VNone
  }

  // ----- _pick_field -----

  /** What `_pick_field` returns: value, confidence and the matched key. */
  datatype Picked = Picked(value: Value, confidence: Value, key: Option<string>)

  /** Candidate `k` is present, maps to an object and yields a value. */
  predicate Yields(fields: Fields, k: string) {
    k in fields && fields[k].Some? && ExtractValue(fields[k]) != VNone
  }

  /** No candidate before position `i` yields a value. */
  predicate NoneYieldBefore(fields: Fields, candidates: seq<string>, i: int)
    requires i <= |candidates|
  {
    forall j | 0 <= j < i :: !Yields(fields, candidates[j])
  }

  /** `_pick_field(fields, candidates)`: the first candidate, in list
      order, that yields a value, with that value and the confidence of the
      same object; (None, None, None) when none does. */
  function PickField(fields: Fields, candidates: seq<string>): (r: Picked)
    ensures r.key.None? <==> NoneYieldBefore(fields, candidates, |candidates|)
    ensures r.key.None? <==> r.value == VNone
    ensures r.key.None? ==> r.confidence == VNone
    ensures r.key.Some? ==>
      exists i | 0 <= i < |candidates| :: candidates[i] == r.key.value && NoneYieldBefore(fields, candidates, i)
    ensures r.key.Some? ==>
      Yields(fields, r.key.value)
      && r.value == ExtractValue(fields[r.key.value])
      && r.confidence == fields[r.key.value].value.confidence
  {
    if candidates == [] then Picked(VNone, VNone, None)
    else
      var k := candidates[0];
      if Yields(fields, k) then
        assert NoneYieldBefore(fields, candidates, 0);
        Picked(ExtractValue(fields[k]), fields[k].value.confidence, Some(k))
      else
        var r := PickField(fields, candidates[1..]);
        assert forall i | 0 <= i < |candidates[1..]| ::
          NoneYieldBefore(fields, candidates[1..], i) ==> NoneYieldBefore(fields, candidates, i + 1);
        r
  }

  // ----- _currency_to_jsonable -----

  /** The amount kept for validation and the plain dictionary kept for the
      JSON output (None when the value does not look like a currency). */
  datatype CurrencyParts = CurrencyParts(amount: Value, raw: Option<map<string, Value>>)

  /** A dict with an "amount" key: the first case of `_currency_to_jsonable`. */
  predicate IsAmountDict(v: Value) {
    v.VDict? && "amount" in v.entries
  }

  /** `getattr(v, "currency_code", None) or getattr(v, "currencyCode", None)`. */
  function CurrencyCode(v: Value): Value {
    Or(GetAttr(v, "currency_code"), GetAttr(v, "currencyCode"))
  }

  /** `getattr(v, "currency_symbol", None) or getattr(v, "currencySymbol", None)`. */
  function CurrencySymbol(v: Value): Value {
    Or(GetAttr(v, "currency_symbol"), GetAttr(v, "currencySymbol"))
  }

  /** At least one of amount, code and symbol is not None. */
  predicate LooksLikeCurrency(v: Value) {
    GetAttr(v, "amount") != VNone || CurrencyCode(v) != VNone || CurrencySymbol(v) != VNone
  }

  function CurrencyDict(amount: Value, code: Value, symbol: Value): map<string, Value> {
    map["amount" := amount, "currencyCode" := code, "currencySymbol" := symbol]
  }

  /** `_currency_to_jsonable(v)`. */
  function CurrencyToJsonable(v: Value): (r: CurrencyParts)
    ensures v == VNone ==> r == CurrencyParts(VNone, None)
    ensures IsAmountDict(v) ==>
      r.amount == v.entries["amount"]
      && r.raw == Some(CurrencyDict(DictGet(v.entries, "amount"), DictGet(v.entries, "currencyCode"),
                                    DictGet(v.entries, "currencySymbol")))
    ensures v != VNone && !IsAmountDict(v) && LooksLikeCurrency(v) ==>
      r.amount == GetAttr(v, "amount")
      && r.raw == Some(CurrencyDict(GetAttr(v, "amount"), CurrencyCode(v), CurrencySymbol(v)))
    ensures v != VNone && !IsAmountDict(v) && !LooksLikeCurrency(v) ==> r == CurrencyParts(v, None)
    ensures r.raw.Some? ==>
      r.raw.value.Keys == {"amount", "currencyCode", "currencySymbol"}
      && r.raw.value["amount"] == r.amount
    ensures r.raw.None? ==> r.amount == v
  {
    if v == VNone then CurrencyParts(VNone, None)
    else if IsAmountDict(v) then
      CurrencyParts(DictGet(v.entries, "amount"),
        Some(CurrencyDict(DictGet(v.entries, "amount"), DictGet(v.entries, "currencyCode"),
                          DictGet(v.entries, "currencySymbol"))))
    else
      var amount, code, symbol := GetAttr(v, "amount"), CurrencyCode(v), CurrencySymbol(v);
      if amount == VNone && code == VNone && symbol == VNone then CurrencyParts(v, None)
      else CurrencyParts(amount, Some(CurrencyDict(amount, code, symbol)))
  }

  // ----- _flatten_read_result -----

  /** The truthy line contents of one page, in line order. */
  function LineTexts(lines: seq<Line>): seq<string> {
    if lines == [] then []
    else
      var last := lines[|lines| - 1];
      LineTexts(lines[..|lines| - 1])
        + (if last.content.Some? && last.content.value != "" then [last.content.value] else [])
  }

  /** The chunks `_flatten_read_result` collects: page order, then line order. */
  function Chunks(pages: seq<Page>): seq<string> {
    if pages == [] then []
    else Chunks(pages[..|pages| - 1]) + LineTexts(pages[|pages| - 1].lines)
  }

  /** The text `_flatten_read_result` returns: the chunks joined by newlines,
      or the top-level content when there are no chunks and it is truthy. */
  function ReadText(r: ReadResult): string {
    var chunks := Chunks(r.pages);
    if chunks == [] && r.content.Some? && r.content.value != "" then r.content.value
    else Join("\n", chunks)
  }

  /** `_flatten_read_result(result)`: appends every truthy line content to
      a list, page by page, then joins. */
  method FlattenReadResult(result: ReadResult) returns (text: string)
    ensures text == ReadText(result)
  {
    var chunks: seq<string> := [];
    for p := 0 to |result.pages|
      invariant chunks == Chunks(result.pages[..p])
    {
      var lines := result.pages[p].lines;
      assert result.pages[..p + 1][..p] == result.pages[..p];
      ghost var before := chunks;
      for l := 0 to |lines|
        invariant chunks == before + LineTexts(lines[..l])
      {
        assert lines[..l + 1][..l] == lines[..l];
        var line := lines[l];
        if line.content.Some? && line.content.value != "" {
          chunks := chunks + [line.content.value];
        }
      }
      assert lines[..|lines|] == lines;
    }
    assert result.pages[..|result.pages|] == result.pages;
    if chunks == [] && result.content.Some? && result.content.value != "" {
      return result.content.value;
    }
    return Join("\n", chunks);
  }

  // ----- the envelope-building tail of extract_document_to_json -----

  const Source := "prebuilt-invoice"

  /** The fixed candidate keys: the envelope does not consult the labels. */
  const DateCandidates: seq<string> := ["InvoiceDate"]
  const TotalCandidates: seq<string> := ["InvoiceTotal"]
  const CompanyCandidates: seq<string> := ["VendorName", "CustomerName"]

  /** The first document's fields, or none when there is no document. */
  function FirstDocumentFields(documents: seq<AnalyzedDocument>): Fields {
    if documents == [] then map[] else documents[0].fields
  }

  /** The matched key as the JSON value stored under "azure_key". */
  function KeyValue(key: Option<string>): Value {
    if key.Some? then VStr(key.value) else VNone
  }

  /** The raw currency dictionary as a value. */
  function RawValue(raw: Option<map<string, Value>>): Value {
    if raw.Some? then VDict(raw.value) else VNone
  }

  /** The result recorded for one picked field. */
  function Recorded(p: Picked, raw: map<string, Value>): (r: FieldResult)
    ensures r.source == Some(Source) && r.raw == Some(raw)
  {
    FieldResult(value := p.value, confidence := p.confidence, source := Some(Source), raw := Some(raw))
  }

  /** The total after `_currency_to_jsonable`: its amount when the raw
      dictionary is not None, the picked value otherwise. */
  function TotalValue(picked: Value): Value {
    var parts := CurrencyToJsonable(picked);
    if parts.raw.Some? then parts.amount else picked
  }

  /** The `data` dictionary of the envelope. */
  function InvoiceData(fields: Fields): (r: map<string, FieldResult>)
    ensures r.Keys == {"date", "total", "company_name"}
    ensures forall k | k in r :: r[k].source == Some(Source) && r[k].raw.Some?
  {
    var date := PickField(fields, DateCandidates);
    var total := PickField(fields, TotalCandidates);
    var company := PickField(fields, CompanyCandidates);
    var currency := CurrencyToJsonable(total.value);
    DataOf(Recorded(date, map["azure_key" := KeyValue(date.key)]),
           Recorded(total.(value := TotalValue(total.value)),
                    map["azure_key" := KeyValue(total.key), "currency" := RawValue(currency.raw)]),
           Recorded(company, map["azure_key" := KeyValue(company.key)]))
  }

  /** The three results under their keys. */
  function DataOf(date: FieldResult, total: FieldResult, company: FieldResult): (r: map<string, FieldResult>)
    ensures r.Keys == {"date", "total", "company_name"}
    ensures r["date"] == date && r["total"] == total && r["company_name"] == company
    ensures forall k | k in r :: r[k] == date || r[k] == total || r[k] == company
  {
    map["date" := date, "total" := total, "company_name" := company]
  }

  /** Lines 127-185 of `extract_document_to_json`: the envelope built from
      the service's result. It is ok, has no errors, counts the documents in
      `meta`, and its data comes from the first document only. */
  method BuildEnvelope(result: ReadResult, labels: LabelSchema, modelId: string)
    returns (env: ExtractionEnvelope)
    ensures fresh(env)
    ensures env.ok && env.errors == [] && env.warnings == []
    ensures env.docType == labels.docType && env.modelId == modelId && env.labels == labels
    ensures result.documents != [] ==> env.data == InvoiceData(result.documents[0].fields)
    ensures result.documents == [] ==> env.data == InvoiceData(map[])
    ensures env.meta == map["documents" := VInt(|result.documents|)]
  {
    var fields := FirstDocumentFields(result.documents);
    var text := FlattenReadResult(result);
    env := new ExtractionEnvelope(labels.docType, modelId, labels, InvoiceData(fields),
      ok := true, errors := [], meta := map["documents" := VInt(|result.documents|)]);
  }
}

/** What the value normaliser promises, proved about the functions above. */
module ExtractProofs {
  import opened Wrappers
  import opened Values
  import opened PyStr
  import opened Schema
  import opened Envelope
  import opened Extract

  // ----- _extract_value -----

  /** `_extract_value` as the source spells it out: `value`, then each
      typed slot in turn, then `content`. */
  function SourceOrder(o: FieldObject): Value {
    if o.value != VNone then o.value
    else if o.valueString != VNone then o.valueString
    else if o.valueDate != VNone then o.valueDate
    else if o.valueNumber != VNone then o.valueNumber
    else if o.valueInteger != VNone then o.valueInteger
    else if o.valueCurrency != VNone then o.valueCurrency
    else if o.valuePhoneNumber != VNone then o.valuePhoneNumber
    else if o.valueAddress != VNone then o.valueAddress
    else o.content
  }

  /** At most one slot is the first set one. */
  lemma FirstSetAtUnique(vs: seq<Value>, i: int, j: int)
    requires FirstSetAt(vs, i) && FirstSetAt(vs, j)
    ensures i == j
  {
  }

  /** When slot `i` is the first set one, it is the value extracted. */
  lemma ExtractFirstSet(o: FieldObject, i: int)
    requires FirstSetAt(Slots(o), i)
    ensures ExtractValue(Some(o)) == Slots(o)[i]
  {
    var vs := Slots(o);
    var i' :| 0 <= i' < |vs| && FirstSetAt(vs, i') && vs[i'] == ExtractValue(Some(o));
    FirstSetAtUnique(vs, i, i');
  }

  /** The slot-sequence definition agrees with the source's chain of
      early returns on every field object. */
  lemma ExtractValueFollowsSourceOrder(o: FieldObject)
    ensures ExtractValue(Some(o)) == SourceOrder(o)
  {
    var vs := Slots(o);
    if o.value != VNone { ExtractFirstSet(o, 0); }
    else if o.valueString != VNone { ExtractFirstSet(o, 1); }
    else if o.valueDate != VNone { ExtractFirstSet(o, 2); }
    else if o.valueNumber != VNone { ExtractFirstSet(o, 3); }
    else if o.valueInteger != VNone { ExtractFirstSet(o, 4); }
    else if o.valueCurrency != VNone { ExtractFirstSet(o, 5); }
    else if o.valuePhoneNumber != VNone { ExtractFirstSet(o, 6); }
    else if o.valueAddress != VNone { ExtractFirstSet(o, 7); }
    else if o.content != VNone { ExtractFirstSet(o, 8); }
    else {
      assert forall j | 0 <= j < |vs| :: vs[j] == VNone;
    }
  }

  // ----- _pick_field -----

  /** The first yielding candidate is the one picked, with its own value
      and confidence. */
  lemma PickFieldFirstYielding(fields: Fields, candidates: seq<string>, i: int)
    requires 0 <= i < |candidates|
    requires Yields(fields, candidates[i]) && NoneYieldBefore(fields, candidates, i)
    ensures PickField(fields, candidates).key == Some(candidates[i])
    ensures PickField(fields, candidates).value == ExtractValue(fields[candidates[i]])
    ensures PickField(fields, candidates).confidence == fields[candidates[i]].value.confidence
  {
    var r := PickField(fields, candidates);
    assert !NoneYieldBefore(fields, candidates, |candidates|);
    var i' :| 0 <= i' < |candidates| && candidates[i'] == r.key.value && NoneYieldBefore(fields, candidates, i');
    assert Yields(fields, candidates[i']);
    assert i' <= i;
    assert i <= i';
  }

  /** Searching `a + b` is searching `a`, then `b` only when `a` yields
      nothing: the candidate list is tried strictly in order. */
  lemma {:induction false} PickFieldConcat(fields: Fields, a: seq<string>, b: seq<string>)
    ensures PickField(fields, a + b) ==
      if PickField(fields, a).key.Some? then PickField(fields, a) else PickField(fields, b)
  {
    if a != [] {
      assert (a + b)[0] == a[0];
      assert (a + b)[1..] == a[1..] + b;
      PickFieldConcat(fields, a[1..], b);
    } else {
      assert a + b == b;
    }
  }

  /** Keys that are absent, map to None or yield nothing are skipped. */
  lemma PickFieldSkipsNonYielding(fields: Fields, k: string, rest: seq<string>)
    requires !Yields(fields, k)
    ensures PickField(fields, [k] + rest) == PickField(fields, rest)
  {
    PickFieldConcat(fields, [k], rest);
    assert PickField(fields, [k][1..]) == PickField(fields, []);
  }

  // ----- _currency_to_jsonable -----

  /** The plain dictionary is itself a dict with an "amount" key, and
      decomposing it again gives the same amount and dictionary. */
  lemma CurrencyRawIsFixedPoint(v: Value)
    requires CurrencyToJsonable(v).raw.Some?
    ensures CurrencyToJsonable(VDict(CurrencyToJsonable(v).raw.value)) == CurrencyToJsonable(v)
  {
    var r := CurrencyToJsonable(v);
    var raw := r.raw.value;
    assert IsAmountDict(VDict(raw));
    assert "currencyCode" in raw && "currencySymbol" in raw;
    assert CurrencyDict(DictGet(raw, "amount"), DictGet(raw, "currencyCode"), DictGet(raw, "currencySymbol")) == raw;
  }

  /** The currency code falls back to `currencyCode` only when
      `currency_code` is falsy, an empty string included. */
  lemma CurrencyCodeFallback(amount: Value, code: string)
    requires code != ""
    ensures CurrencyToJsonable(VObject(map["amount" := amount, "currency_code" := VStr(""), "currencyCode" := VStr(code)])).raw
      == Some(CurrencyDict(amount, VStr(code), VNone))
  {
    var v := VObject(map["amount" := amount, "currency_code" := VStr(""), "currencyCode" := VStr(code)]);
    assert GetAttr(v, "currency_code") == VStr("");
    assert CurrencyCode(v) == VStr(code);
    assert CurrencySymbol(v) == VNone;
  }

  /** A service CurrencyValue gives its amount for validation. */
  lemma CurrencyObjectGivesAmount(amount: Value, code: Value, symbol: Value)
    requires amount != VNone
    ensures CurrencyToJsonable(VObject(map["amount" := amount, "currency_code" := code, "currency_symbol" := symbol]))
      == CurrencyParts(amount, Some(CurrencyDict(amount, Or(code, VNone), Or(symbol, VNone))))
  {
    var v := VObject(map["amount" := amount, "currency_code" := code, "currency_symbol" := symbol]);
    assert GetAttr(v, "amount") == amount;
    assert GetAttr(v, "currencyCode") == VNone && GetAttr(v, "currencySymbol") == VNone;
  }

  /** A value that does not look like a currency (a number, a string, a
      dict without "amount") passes through unchanged. */
  lemma NonCurrencyPassesThrough(v: Value)
    requires v.VInt? || v.VFloat? || v.VStr? || v.VDate? || (v.VDict? && "amount" !in v.entries)
    ensures CurrencyToJsonable(v) == CurrencyParts(v, None)
  {
    assert GetAttr(v, "amount") == VNone && CurrencyCode(v) == VNone && CurrencySymbol(v) == VNone;
  }

  // ----- _flatten_read_result -----

  /** The chunks of a page are its truthy line contents, in order. */
  lemma {:induction false} LineTextsConcat(a: seq<Line>, b: seq<Line>)
    ensures LineTexts(a + b) == LineTexts(a) + LineTexts(b)
    decreases |b|
  {
    if b == [] {
      assert a + b == a;
    } else {
      var b' := b[..|b| - 1];
      assert (a + b)[..|a + b| - 1] == a + b';
      assert (a + b)[|a + b| - 1] == b[|b| - 1];
      LineTextsConcat(a, b');
    }
  }

  /** Pages contribute their chunks in page order. */
  lemma {:induction false} ChunksConcat(a: seq<Page>, b: seq<Page>)
    ensures Chunks(a + b) == Chunks(a) + Chunks(b)
    decreases |b|
  {
    if b == [] {
      assert a + b == a;
    } else {
      var b' := b[..|b| - 1];
      var last := LineTexts(b[|b| - 1].lines);
      assert (a + b)[..|a + b| - 1] == a + b';
      assert (a + b)[|a + b| - 1] == b[|b| - 1];
      assert Chunks(a + b) == Chunks(a + b') + last;
      ChunksConcat(a, b');
      assert Chunks(b) == Chunks(b') + last;
    }
  }

  /** Line `l` of page `p` has truthy content `s`. */
  predicate OnLine(pages: seq<Page>, p: int, l: int, s: string) {
    0 <= p < |pages| && 0 <= l < |pages[p].lines| && pages[p].lines[l].content == Some(s) && s != ""
  }

  /** A string is a chunk of a page exactly when it is the truthy content
      of one of its lines. */
  lemma {:induction false} LineTextsMembers(lines: seq<Line>, s: string)
    ensures s in LineTexts(lines) <==>
      exists l | 0 <= l < |lines| :: lines[l].content == Some(s) && s != ""
  {
    if lines != [] {
      var init := lines[..|lines| - 1];
      LineTextsMembers(init, s);
      if exists l | 0 <= l < |init| :: init[l].content == Some(s) && s != "" {
        var l :| 0 <= l < |init| && init[l].content == Some(s) && s != "";
        assert lines[l] == init[l];
      }
      if exists l | 0 <= l < |lines| :: lines[l].content == Some(s) && s != "" {
        var l :| 0 <= l < |lines| && lines[l].content == Some(s) && s != "";
        if l < |init| {
          assert init[l] == lines[l];
        }
      }
    }
  }

  /** A string is a chunk exactly when it is the truthy content of some
      line of some page. */
  lemma {:induction false} ChunksMembers(pages: seq<Page>, s: string)
    ensures s in Chunks(pages) <==> exists p, l :: OnLine(pages, p, l, s)
  {
    if pages != [] {
      var init := pages[..|pages| - 1];
      var last := pages[|pages| - 1];
      ChunksMembers(init, s);
      LineTextsMembers(last.lines, s);
      if exists p, l :: OnLine(init, p, l, s) {
        var p, l :| OnLine(init, p, l, s);
        assert OnLine(pages, p, l, s);
      }
      if exists l | 0 <= l < |last.lines| :: last.lines[l].content == Some(s) && s != "" {
        var l :| 0 <= l < |last.lines| && last.lines[l].content == Some(s) && s != "";
        assert OnLine(pages, |pages| - 1, l, s);
      }
      if exists p, l :: OnLine(pages, p, l, s) {
        var p, l :| OnLine(pages, p, l, s);
        if p < |init| {
          assert OnLine(init, p, l, s);
        } else {
          assert last.lines[l].content == Some(s);
        }
      }
    }
  }

  /** Every chunk is non-empty. */
  lemma {:induction false} ChunksNonEmpty(pages: seq<Page>)
    ensures forall k | 0 <= k < |Chunks(pages)| :: Chunks(pages)[k] != ""
  {
    forall k | 0 <= k < |Chunks(pages)|
      ensures Chunks(pages)[k] != ""
    {
      ChunksMembers(pages, Chunks(pages)[k]);
    }
  }

  /** When there is at least one chunk and no chunk holds a newline,
      splitting the text at newlines gives back the chunks. */
  lemma ReadTextSplitsIntoChunks(r: ReadResult)
    requires Chunks(r.pages) != []
    requires forall k | 0 <= k < |Chunks(r.pages)| :: '\n' !in Chunks(r.pages)[k]
    ensures Split(ReadText(r), '\n') == Chunks(r.pages)
  {
    SplitJoin(Chunks(r.pages), '\n');
  }

  /** Without chunks the text is the truthy top-level content, else "". */
  lemma NoChunksText(r: ReadResult)
    requires Chunks(r.pages) == []
    ensures r.content.Some? && r.content.value != "" ==> ReadText(r) == r.content.value
    ensures !(r.content.Some? && r.content.value != "") ==> ReadText(r) == ""
  {
  }

  // ----- the envelope-building tail -----

  /** The data keys are the invoice schema's field names, whatever the
      schema passed in says. */
  lemma DataKeysAreInvoiceFields(fields: Fields)
    ensures forall k :: k in InvoiceData(fields) <==> k in FieldNames(InvoiceLabels().fields)
  {
    var names := FieldNames(InvoiceLabels().fields);
    assert names == ["date", "total", "company_name"];
  }

  /** The date comes from "InvoiceDate" alone: its value, confidence and
      key when it yields a value, all None otherwise. */
  lemma DateFromInvoiceDate(fields: Fields)
    ensures Yields(fields, "InvoiceDate") ==>
      InvoiceData(fields)["date"] == FieldResult(ExtractValue(fields["InvoiceDate"]), fields["InvoiceDate"].value.confidence,
                                                 Some(Source), Some(map["azure_key" := VStr("InvoiceDate")]))
    ensures !Yields(fields, "InvoiceDate") ==>
      InvoiceData(fields)["date"] == FieldResult(VNone, VNone, Some(Source), Some(map["azure_key" := VNone]))
  {
    if Yields(fields, "InvoiceDate") {
      PickFieldFirstYielding(fields, DateCandidates, 0);
    }
  }

  /** The company name is the vendor's when "VendorName" yields a value,
      the customer's when only "CustomerName" does, None otherwise. */
  lemma CompanyFallsBackToCustomer(fields: Fields)
    ensures Yields(fields, "VendorName") ==>
      InvoiceData(fields)["company_name"].value == ExtractValue(fields["VendorName"])
      && InvoiceData(fields)["company_name"].confidence == fields["VendorName"].value.confidence
      && InvoiceData(fields)["company_name"].raw == Some(map["azure_key" := VStr("VendorName")])
    ensures !Yields(fields, "VendorName") && Yields(fields, "CustomerName") ==>
      InvoiceData(fields)["company_name"].value == ExtractValue(fields["CustomerName"])
      && InvoiceData(fields)["company_name"].confidence == fields["CustomerName"].value.confidence
      && InvoiceData(fields)["company_name"].raw == Some(map["azure_key" := VStr("CustomerName")])
    ensures !Yields(fields, "VendorName") && !Yields(fields, "CustomerName") ==>
      InvoiceData(fields)["company_name"].value == VNone
      && InvoiceData(fields)["company_name"].confidence == VNone
      && InvoiceData(fields)["company_name"].raw == Some(map["azure_key" := VNone])
  {
    if Yields(fields, "VendorName") {
      PickFieldFirstYielding(fields, CompanyCandidates, 0);
    } else if Yields(fields, "CustomerName") {
      assert NoneYieldBefore(fields, CompanyCandidates, 1);
      PickFieldFirstYielding(fields, CompanyCandidates, 1);
    }
  }

  /** The total: the amount of a currency-like value, which may be None,
      otherwise the picked value; the currency dictionary sits beside the
      matched key. When "InvoiceTotal" yields nothing the total, its
      confidence, its key and its currency are all None. */
  lemma TotalFromInvoiceTotal(fields: Fields)
    ensures Yields(fields, "InvoiceTotal") ==>
      InvoiceData(fields)["total"].raw ==
        Some(map["azure_key" := VStr("InvoiceTotal"), "currency" := RawValue(CurrencyToJsonable(ExtractValue(fields["InvoiceTotal"])).raw)])
    ensures Yields(fields, "InvoiceTotal") && CurrencyToJsonable(ExtractValue(fields["InvoiceTotal"])).raw.Some? ==>
      InvoiceData(fields)["total"].value == CurrencyToJsonable(ExtractValue(fields["InvoiceTotal"])).amount
    ensures Yields(fields, "InvoiceTotal") && CurrencyToJsonable(ExtractValue(fields["InvoiceTotal"])).raw.None? ==>
      InvoiceData(fields)["total"].value == ExtractValue(fields["InvoiceTotal"])
    ensures Yields(fields, "InvoiceTotal") ==>
      InvoiceData(fields)["total"].confidence == fields["InvoiceTotal"].value.confidence
    ensures !Yields(fields, "InvoiceTotal") ==>
      InvoiceData(fields)["total"]
      == FieldResult(VNone, VNone, Some(Source), Some(map["azure_key" := VNone, "currency" := VNone]))
  {
    if Yields(fields, "InvoiceTotal") {
      PickFieldFirstYielding(fields, TotalCandidates, 0);
    }
  }

  /** Without documents every field result is empty apart from its source
      and its `azure_key` of None. */
  lemma NoDocumentsNoValues()
    ensures forall k | k in InvoiceData(FirstDocumentFields([])) ::
      InvoiceData(FirstDocumentFields([]))[k].value == VNone
      && InvoiceData(FirstDocumentFields([]))[k].confidence == VNone
  {
    var fields: Fields := map[];
    assert !Yields(fields, "InvoiceDate") && !Yields(fields, "InvoiceTotal");
    DateFromInvoiceDate(fields);
    CompanyFallsBackToCustomer(fields);
  }
}
