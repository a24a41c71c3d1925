/** The validator (src/doc2json/validate.py): a required-field pass and a
    type pass that append errors to an envelope, then `ok` from the count.
    `str(v)` of a value is the parameter `show`; what the model needs of it
    is ShowAgrees. */
module Validate {
  import opened Wrappers
  import opened Values
  import opened PyStr
  import opened Strptime
  import opened IsoDates
  import opened Schema
  import opened Envelope

  /** `str()` leaves a string as it is and gives a date its ISO text. */
  ghost predicate ShowAgrees(show: Value -> string) {
    (forall v: Value | v.VStr? :: show(v) == v.s)
    && (forall v: Value | v.VDate? :: show(v) == IsoFormat(v.year, v.month, v.day))
  }

  // ----- _is_empty -----

  /** `_is_empty(v)`: None, or a string that strips to nothing. */
  predicate IsEmpty(v: Value)
    ensures IsEmpty(v) <==> v == VNone || (v.VStr? && forall k | 0 <= k < |v.s| :: IsSpace(v.s[k]))
  {
    v.VNone? || (v.VStr? && Strip(v.s) == "")
  }

  // ----- _parse_date -----

  /** `%Y-%m-%d`, `%d/%m/%Y`, `%m/%d/%Y`, `%d-%m-%Y`, in the order tried. */
  const DateFormats: seq<Format> := [
    Format(Year, '-', Month, '-', Day),
    Format(Day, '/', Month, '/', Year),
    Format(Month, '/', Day, '/', Year),
    Format(Day, '-', Month, '-', Year)
  ]

  /** The first ten characters of the stripped text. */
  function DateText(show: Value -> string, v: Value): (r: string)
    ensures |r| <= 10
  {
    Prefix(Strip(show(v)), 10)
  }

  /** Some format parses the first ten characters of the stripped text. */
  predicate DateAccepted(show: Value -> string, v: Value) {
    DateTextAccepted(DateText(show, v))
  }

  predicate DateTextAccepted(t: string) {
    exists k | 0 <= k < |DateFormats| :: Parses(DateFormats[k], t)
  }

  /** The loop of `_parse_date(v)`: tries the formats in order and stops at
      the first that parses. */
  method FirstFormatParsing(formats: seq<Format>, t: string) returns (ok: bool)
    ensures ok <==> exists k | 0 <= k < |formats| :: Parses(formats[k], t)
  {
    for i := 0 to |formats|
      invariant forall k | 0 <= k < i :: !Parses(formats[k], t)
    {
      if Parses(formats[i], t) {
        return true;
      }
    }
    return false;
  }

  /** `_parse_date(v)`. */
  method ParseDate(show: Value -> string, v: Value) returns (ok: bool)
    ensures ok <==> DateAccepted(show, v)
  {
    var s := Strip(show(v));
    var s10 := if |s| <= 10 then s else s[..10];
    assert s10 == DateText(show, v);
    ok := FirstFormatParsing(DateFormats, s10);
  }

  // ----- _parse_number -----

  predicate IsNumeric(v: Value) {
    v.VInt? || v.VBool? || v.VFloat?
  }

  /** The characters the regex class `[\d.,\-]` keeps. */
  predicate IsNumberChar(c: char) {
    IsAsciiDigit(c) || c == '.' || c == ',' || c == '-'
  }

  /** `re.sub(r"[^\d.,\-]", "", s)`. */
  function KeepNumberChars(s: string): string {
    Filter(s, IsNumberChar)
  }

  predicate IsNotPeriod(c: char) { c != '.' }

  predicate IsNotComma(c: char) { c != ',' }

  /** The decimal-separator heuristic: with both separators the later one is
      the decimal point and the other is dropped; a lone comma with no
      period becomes the point; otherwise the text is left as it is. */
  function NormaliseSeparators(s: string): string {
    if ',' in s && '.' in s then
      if LastIndexOf(s, ',') > LastIndexOf(s, '.') then
        ReplaceChar(Filter(s, IsNotPeriod), ',', '.')
      else
        Filter(s, IsNotComma)
    else if multiset(s)[','] == 1 && multiset(s)['.'] == 0 then
      ReplaceChar(s, ',', '.')
    else
      s
  }

  predicate AllDigits(s: string) {
    forall k | 0 <= k < |s| :: IsAsciiDigit(s[k])
  }

  /** What `float()` accepts among texts over digits, '.', ',' and '-':
      an optional minus, then digits with an optional fraction, or a
      fraction alone. */
  predicate IsFloatLiteral(s: string) {
    var body := if |s| > 0 && s[0] == '-' then s[1..] else s;
    var p := IndexOf(body, '.');
    if p < 0 then body != [] && AllDigits(body)
    else AllDigits(body[..p]) && AllDigits(body[p + 1..]) && (p > 0 || p + 1 < |body|)
  }

  /** `_parse_number(v)`. */
  predicate ParseNumber(show: Value -> string, v: Value) {
    IsNumeric(v) || NumberTextAccepted(show(v))
  }

  /** The text branch of `_parse_number`: not blank, and a float literal once
      cleaned and normalised. */
  predicate NumberTextAccepted(s: string) {
    var stripped := Strip(s);
    stripped != "" && IsFloatLiteral(NormaliseSeparators(KeepNumberChars(stripped)))
  }

  // ----- the email check -----

  /** `s[i..j]`, `@`, `s[j+1..k]`, `.`, `s[k+1..l]` is a match of the
      pattern `[^@]+@[^@]+\.[^@]+`. */
  ghost predicate EmailMatchAt(s: string, i: int, j: int, k: int, l: int) {
    0 <= i < j && j + 1 < k && k + 1 < l <= |s|
    && s[j] == '@' && s[k] == '.' && NoAt(s[i..j]) && NoAt(s[j + 1..k]) && NoAt(s[k + 1..l])
  }

  /** `re.search(r"[^@]+@[^@]+\.[^@]+", s)` finds a match. */
  ghost predicate EmailPatternFound(s: string) {
    exists i, j, k, l :: EmailMatchAt(s, i, j, k, l)
  }

  /** A run of `[^@]`. */
  predicate NoAt(t: string) {
    '@' !in t
  }

  /** The '@' at `j` and the '.' at `k` have a non-'@' character before the
      '@', only non-'@' characters between them and a non-'@' after the '.'. */
  predicate EmailShapeAt(s: string, j: int, k: int) {
    0 < j && j + 1 < k && k + 1 < |s|
    && s[j - 1] != '@' && s[j] == '@' && s[k] == '.' && s[k + 1] != '@' && NoAt(s[j + 1..k])
  }

  /** The same search, looking only at the characters next to the '@' and
      the '.'. */
  predicate LooksLikeEmail(s: string) {
    exists j, k | 0 < j < |s| && j < k < |s| :: EmailShapeAt(s, j, k)
  }

  // ----- the two passes -----

  const MissingRequiredField := "MISSING_REQUIRED_FIELD"
  const InvalidEmail := "INVALID_EMAIL"
  const InvalidDate := "INVALID_DATE"
  const InvalidNumber := "INVALID_NUMBER"

  function MissingError(name: string): ExtractionError {
    ExtractionError(MissingRequiredField, "Required field not found", Some(name))
  }

  /** The field has no result, or its value is empty. */
  predicate Missing(data: map<string, FieldResult>, name: string) {
    name !in data || IsEmpty(data[name].value)
  }

  /** What the required-field pass appends for one field. */
  function RequiredError(f: LabelField, data: map<string, FieldResult>): seq<ExtractionError> {
    if f.required && Missing(data, f.name) then [MissingError(f.name)] else []
  }

  /** What the required-field pass appends for `fields`, in order. */
  function RequiredPassErrors(fields: seq<LabelField>, data: map<string, FieldResult>): seq<ExtractionError> {
    if fields == [] then []
    else RequiredPassErrors(fields[..|fields| - 1], data) + RequiredError(fields[|fields| - 1], data)
  }

  /** The error a failed check of type `t` appends; string and phone have none. */
  function TypeCheck(show: Value -> string, t: FieldType, name: string, v: Value): seq<ExtractionError> {
    match t
    case Email =>
      if LooksLikeEmail(show(v)) then [] else [ExtractionError(InvalidEmail, "Not a valid email", Some(name))]
    case Date =>
      if DateAccepted(show, v) then [] else [ExtractionError(InvalidDate, "Not a valid date", Some(name))]
    case Number =>
      if ParseNumber(show, v) then [] else [ExtractionError(InvalidNumber, "Not numeric", Some(name))]
    case Currency =>
      if ParseNumber(show, v) then [] else [ExtractionError(InvalidNumber, "Not numeric", Some(name))]
    case String => []
    case Phone => []
  }

  /** What the type pass appends for one field: nothing when it is missing. */
  function TypeError(show: Value -> string, f: LabelField, data: map<string, FieldResult>): seq<ExtractionError> {
    if Missing(data, f.name) then [] else TypeCheck(show, f.fieldType, f.name, data[f.name].value)
  }

  /** What the type pass appends for `fields`, in order. */
  function TypePassErrors(show: Value -> string, fields: seq<LabelField>, data: map<string, FieldResult>): seq<ExtractionError> {
    if fields == [] then []
    else TypePassErrors(show, fields[..|fields| - 1], data) + TypeError(show, fields[|fields| - 1], data)
  }

  /** The errors the type pass appends for one field's value `v`. */
  method CheckType(show: Value -> string, f: LabelField, v: Value) returns (errs: seq<ExtractionError>)
    ensures errs == TypeCheck(show, f.fieldType, f.name, v)
  {
    errs := [];
    if f.fieldType == Email {
      if !LooksLikeEmail(show(v)) {
        errs := [ExtractionError(InvalidEmail, "Not a valid email", Some(f.name))];
      }
    } else if f.fieldType == Date {
      var parsed := ParseDate(show, v);
      if !parsed {
        errs := [ExtractionError(InvalidDate, "Not a valid date", Some(f.name))];
      }
    } else if f.fieldType == Number || f.fieldType == Currency {
      if !ParseNumber(show, v) {
        errs := [ExtractionError(InvalidNumber, "Not numeric", Some(f.name))];
      }
    }
  }

  /** The first loop of `validate`: one missing-field error per required
      field without a non-empty value, appended in schema order. */
  method AppendRequiredErrors(env: ExtractionEnvelope, fields: seq<LabelField>)
    modifies env`errors
    ensures env.errors == old(env.errors) + RequiredPassErrors(fields, env.data)
  {
    ghost var before := env.errors;
    for i := 0 to |fields|
      invariant env.errors == before + RequiredPassErrors(fields[..i], env.data)
    {
      var f := fields[i];
      var fr: Option<FieldResult> := if f.name in env.data then Some(env.data[f.name]) else None;
      if f.required {
        if fr.None? || IsEmpty(fr.value.value) {
          env.errors := env.errors + [MissingError(f.name)];
        }
      }
      assert fields[..i + 1][..i] == fields[..i];
    }
    assert fields[..|fields|] == fields;
  }

  /** The second loop of `validate`: the type errors of the fields that
      have a non-empty value, appended in schema order. */
  method AppendTypeErrors(show: Value -> string, env: ExtractionEnvelope, fields: seq<LabelField>)
    modifies env`errors
    ensures env.errors == old(env.errors) + TypePassErrors(show, fields, env.data)
  {
    ghost var before := env.errors;
    for i := 0 to |fields|
      invariant env.errors == before + TypePassErrors(show, fields[..i], env.data)
    {
      assert fields[..i + 1][..i] == fields[..i];
      var f := fields[i];
      var fr: Option<FieldResult> := if f.name in env.data then Some(env.data[f.name]) else None;
      if fr.None? {
        continue;
      }
      var v := fr.value.value;
      if IsEmpty(v) {
        continue;
      }
      var errs := CheckType(show, f, v);
      env.errors := env.errors + errs;
    }
    assert fields[..|fields|] == fields;
  }

  /** `validate(envelope, labels)`: appends the required-pass errors and then
      the type-pass errors to the envelope's own list, sets `ok` and returns
      the same envelope. */
  method Validate(show: Value -> string, env: ExtractionEnvelope, labels: LabelSchema)
    returns (out: ExtractionEnvelope)
    modifies env`errors, env`ok
    ensures out == env
    ensures env.errors == old(env.errors) + RequiredPassErrors(labels.fields, env.data)
                          + TypePassErrors(show, labels.fields, env.data)
    ensures env.ok <==> |env.errors| == 0
  {
    AppendRequiredErrors(env, labels.fields);
    AppendTypeErrors(show, env, labels.fields);
    env.ok := |env.errors| == 0;
    out := env;
  }
}

/** What the validator promises, proved about the functions that specify
    its two passes. */
module ValidateProofs {
  import opened Wrappers
  import opened Values
  import opened PyStr
  import opened Strptime
  import opened IsoDates
  import opened Schema
  import opened Envelope
  import opened Validate

  /** The required pass appends a MISSING_REQUIRED_FIELD error naming a
      field exactly for the required fields whose result is missing or empty. */
  lemma {:induction false} RequiredPassExactly(fields: seq<LabelField>, data: map<string, FieldResult>, e: ExtractionError)
    ensures e in RequiredPassErrors(fields, data) <==>
      exists i | 0 <= i < |fields| ::
        fields[i].required && Missing(data, fields[i].name) && e == MissingError(fields[i].name)
  {
    if fields != [] {
      var init := fields[..|fields| - 1];
      RequiredPassExactly(init, data, e);
      if e in RequiredPassErrors(init, data) {
        var i :| 0 <= i < |init| && init[i].required && Missing(data, init[i].name) && e == MissingError(init[i].name);
        assert fields[i] == init[i];
      }
      if exists i | 0 <= i < |fields| :: fields[i].required && Missing(data, fields[i].name) && e == MissingError(fields[i].name) {
        var i :| 0 <= i < |fields| && fields[i].required && Missing(data, fields[i].name) && e == MissingError(fields[i].name);
        if i < |init| {
          assert init[i] == fields[i];
        }
      }
    }
  }

  /** With unique field names, each field gets the error at most once: once
      when it is required and missing, never otherwise. */
  lemma {:induction false} RequiredPassCount(fields: seq<LabelField>, data: map<string, FieldResult>, i: nat)
    requires UniqueNames(fields)
    requires i < |fields|
    ensures multiset(RequiredPassErrors(fields, data))[MissingError(fields[i].name)]
      == if fields[i].required && Missing(data, fields[i].name) then 1 else 0
  {
    var n := |fields| - 1;
    var init := fields[..n];
    assert UniqueNames(init);
    assert fields == init + [fields[n]];
    if i == n {
      forall j | 0 <= j < |init|
        ensures init[j].name != fields[n].name
      {
        assert init[j] == fields[j];
      }
      RequiredPassExactly(init, data, MissingError(fields[i].name));
    } else {
      RequiredPassCount(init, data, i);
      assert init[i] == fields[i];
      assert fields[i].name != fields[n].name;
    }
  }

  /** The required pass walks the fields in order: the errors for a prefix
      of the schema come before those for the rest. */
  lemma {:induction false} RequiredPassConcat(a: seq<LabelField>, b: seq<LabelField>, data: map<string, FieldResult>)
    ensures RequiredPassErrors(a + b, data) == RequiredPassErrors(a, data) + RequiredPassErrors(b, data)
    decreases |b|
  {
    if b == [] {
      assert a + b == a;
    } else {
      var m := |b| - 1;
      assert (a + b)[..|a + b| - 1] == a + b[..m];
      assert (a + b)[|a + b| - 1] == b[m];
      RequiredPassConcat(a, b[..m], data);
    }
  }

  /** The errors `perField` gives for each field, in order: the shape of
      both passes. */
  function Collected(fields: seq<LabelField>, perField: LabelField -> seq<ExtractionError>): seq<ExtractionError> {
    if fields == [] then []
    else Collected(fields[..|fields| - 1], perField) + perField(fields[|fields| - 1])
  }

  lemma {:induction false} CollectedMembers(fields: seq<LabelField>, perField: LabelField -> seq<ExtractionError>, e: ExtractionError)
    ensures e in Collected(fields, perField) <==> exists i | 0 <= i < |fields| :: e in perField(fields[i])
  {
    if fields != [] {
      var init := fields[..|fields| - 1];
      CollectedMembers(init, perField, e);
      if e in Collected(init, perField) {
        var i :| 0 <= i < |init| && e in perField(init[i]);
        assert fields[i] == init[i];
      }
      if exists i | 0 <= i < |fields| :: e in perField(fields[i]) {
        var i :| 0 <= i < |fields| && e in perField(fields[i]);
        if i < |init| {
          assert init[i] == fields[i];
        }
      }
    }
  }

  lemma {:induction false} TypePassCollected(show: Value -> string, fields: seq<LabelField>, data: map<string, FieldResult>)
    ensures TypePassErrors(show, fields, data) == Collected(fields, f => TypeError(show, f, data))
  {
    if fields != [] {
      TypePassCollected(show, fields[..|fields| - 1], data);
    }
  }

  /** The type pass appends an error for a field only when the field has a
      non-empty value and the check of its type fails. */
  lemma TypePassExactly(show: Value -> string, fields: seq<LabelField>, data: map<string, FieldResult>, e: ExtractionError)
    ensures e in TypePassErrors(show, fields, data) <==>
      exists i | 0 <= i < |fields| :: e in TypeError(show, fields[i], data)
  {
    TypePassCollected(show, fields, data);
    CollectedMembers(fields, f => TypeError(show, f, data), e);
  }

  /** The code a failed check of each type appends; string and phone fields
      have no check. */
  function ErrorCodeFor(t: FieldType): Option<string> {
    match t
    case Email => Some(InvalidEmail)
    case Date => Some(InvalidDate)
    case Number => Some(InvalidNumber)
    case Currency => Some(InvalidNumber)
    case String => None
    case Phone => None
  }

  /** Every type-pass error names a field with a non-empty value whose type
      has a check, and carries that type's code: string and phone fields
      are never checked. */
  lemma TypePassErrorsNameCheckedFields(show: Value -> string, fields: seq<LabelField>, data: map<string, FieldResult>, e: ExtractionError)
    requires e in TypePassErrors(show, fields, data)
    ensures e.field.Some?
    ensures exists i | 0 <= i < |fields| ::
      fields[i].name == e.field.value && !Missing(data, fields[i].name)
      && ErrorCodeFor(fields[i].fieldType) == Some(e.code)
  {
    TypePassExactly(show, fields, data, e);
  }

  /** No field gets both a MISSING_REQUIRED_FIELD error and a type error:
      the type pass skips exactly the values the required pass objects to. */
  lemma NoFieldGetsBoth(show: Value -> string, fields: seq<LabelField>, data: map<string, FieldResult>,
                        e1: ExtractionError, e2: ExtractionError)
    requires e1 in RequiredPassErrors(fields, data)
    requires e2 in TypePassErrors(show, fields, data)
    ensures e1.field != e2.field
  {
    RequiredPassExactly(fields, data, e1);
    TypePassExactly(show, fields, data, e2);
  }

  /** The email check is the regular-expression search. */
  lemma EmailCheckIsPatternSearch(s: string)
    ensures LooksLikeEmail(s) <==> EmailPatternFound(s)
  {
    if LooksLikeEmail(s) {
      var j, k :| 0 < j < |s| && j < k < |s| && EmailShapeAt(s, j, k);
      assert s[j - 1..j] == [s[j - 1]] && s[k + 1..k + 2] == [s[k + 1]];
      assert EmailMatchAt(s, j - 1, j, k, k + 2);
    }
    if EmailPatternFound(s) {
      var i, j, k, l :| EmailMatchAt(s, i, j, k, l);
      assert s[i..j][j - 1 - i] == s[j - 1];
      assert s[k + 1..l][0] == s[k + 1];
      assert EmailShapeAt(s, j, k);
    }
  }

  // ----- the number heuristic -----

  predicate IsDigitOrMinus(c: char) {
    IsAsciiDigit(c) || c == '-'
  }

  /** The separator heuristic never touches digits or signs. With both
      separators the earlier kind is dropped and each occurrence of the
      later kind becomes a point in its place; a lone comma becomes the
      point in its place; a text with no comma, or with several commas and
      no point, is left as it is. */
  lemma NormaliseSeparatorsFacts(s: string)
    ensures Filter(NormaliseSeparators(s), IsDigitOrMinus) == Filter(s, IsDigitOrMinus)
    ensures ',' in s && '.' in s ==>
      ',' !in NormaliseSeparators(s)
      && multiset(NormaliseSeparators(s))['.']
         == multiset(s)[if LastIndexOf(s, ',') > LastIndexOf(s, '.') then ',' else '.']
    ensures multiset(s)[','] == 1 && '.' !in s ==>
      ',' !in NormaliseSeparators(s) && multiset(NormaliseSeparators(s))['.'] == 1
    ensures ',' !in s || ('.' !in s && multiset(s)[','] >= 2) ==> NormaliseSeparators(s) == s
    ensures ',' in s && '.' in s && LastIndexOf(s, ',') > LastIndexOf(s, '.') ==>
      ReplaceChar(NormaliseSeparators(s), '.', ',') == Filter(s, IsNotPeriod)
    ensures ',' in s && '.' in s && LastIndexOf(s, ',') <= LastIndexOf(s, '.') ==>
      NormaliseSeparators(s) == Filter(s, IsNotComma)
    ensures multiset(s)[','] == 1 && '.' !in s ==>
      |NormaliseSeparators(s)| == |s|
      && forall k | 0 <= k < |s| :: NormaliseSeparators(s)[k] == if k == IndexOf(s, ',') then '.' else s[k]
  {
    if ',' in s && '.' in s {
      if LastIndexOf(s, ',') > LastIndexOf(s, '.') {
        CommaDecimal(s);
      } else {
        PeriodDecimal(s);
      }
    } else if multiset(s)[','] == 1 && multiset(s)['.'] == 0 {
      LoneComma(s);
    }
  }

  /** The comma comes last: periods go and the comma becomes the point. */
  lemma CommaDecimal(s: string)
    requires ',' in s && '.' in s && LastIndexOf(s, ',') > LastIndexOf(s, '.')
    ensures Filter(NormaliseSeparators(s), IsDigitOrMinus) == Filter(s, IsDigitOrMinus)
    ensures ',' !in NormaliseSeparators(s)
    ensures multiset(NormaliseSeparators(s))['.'] == multiset(s)[',']
    ensures ReplaceChar(NormaliseSeparators(s), '.', ',') == Filter(s, IsNotPeriod)
  {
    var t := Filter(s, IsNotPeriod);
    assert NormaliseSeparators(s) == ReplaceChar(t, ',', '.');
    PeriodsDroppedCommaReplaced(s);
    assert '.' !in t;
    ReplaceCharBack(t, ',', '.');
  }

  lemma PeriodsDroppedCommaReplaced(s: string)
    ensures var r := ReplaceChar(Filter(s, IsNotPeriod), ',', '.');
      Filter(r, IsDigitOrMinus) == Filter(s, IsDigitOrMinus)
      && ',' !in r && multiset(r)['.'] == multiset(s)[',']
  {
    var t := Filter(s, IsNotPeriod);
    FilterReplace(t, ',', '.', IsDigitOrMinus);
    FilterFilter(s, IsNotPeriod, IsDigitOrMinus);
    FilterCount(s, IsNotPeriod, ',');
    assert '.' !in t;
    ReplaceCharCount(t, ',', '.');
  }

  /** The period comes last: commas go. */
  lemma PeriodDecimal(s: string)
    requires ',' in s && '.' in s && LastIndexOf(s, ',') <= LastIndexOf(s, '.')
    ensures Filter(NormaliseSeparators(s), IsDigitOrMinus) == Filter(s, IsDigitOrMinus)
    ensures ',' !in NormaliseSeparators(s)
    ensures multiset(NormaliseSeparators(s))['.'] == multiset(s)['.']
    ensures NormaliseSeparators(s) == Filter(s, IsNotComma)
  {
    assert NormaliseSeparators(s) == Filter(s, IsNotComma);
    FilterFilter(s, IsNotComma, IsDigitOrMinus);
    FilterCount(s, IsNotComma, '.');
  }

  /** A lone comma and no period: the comma becomes the point. */
  lemma LoneComma(s: string)
    requires multiset(s)[','] == 1 && multiset(s)['.'] == 0
    ensures Filter(NormaliseSeparators(s), IsDigitOrMinus) == Filter(s, IsDigitOrMinus)
    ensures ',' !in NormaliseSeparators(s) && multiset(NormaliseSeparators(s))['.'] == 1
    ensures |NormaliseSeparators(s)| == |s|
    ensures forall k | 0 <= k < |s| ::
      NormaliseSeparators(s)[k] == if k == IndexOf(s, ',') then '.' else s[k]
  {
    assert '.' !in s;
    assert NormaliseSeparators(s) == ReplaceChar(s, ',', '.');
    FilterReplace(s, ',', '.', IsDigitOrMinus);
    ReplaceCharCount(s, ',', '.');
    forall k | 0 <= k < |s| && s[k] == ','
      ensures k == IndexOf(s, ',')
    {
      SingleOccurrence(s, ',', k);
    }
  }

  /** Values that are already numbers are accepted without looking at
      their text. */
  lemma NumbersAccepted(show: Value -> string, v: Value)
    requires v.VInt? || v.VBool? || v.VFloat?
    ensures ParseNumber(show, v)
  {
  }

  /** Several commas and no point: the text keeps its commas and `float()`
      refuses it, so "1,234,567" is not a number. */
  lemma SeveralCommasRejected(show: Value -> string, v: Value)
    requires !IsNumeric(v)
    requires '.' !in KeepNumberChars(Strip(show(v)))
    requires multiset(KeepNumberChars(Strip(show(v))))[','] >= 2
    ensures !ParseNumber(show, v)
  {
    var t := KeepNumberChars(Strip(show(v)));
    NormaliseSeparatorsFacts(t);
    assert t != [];
    var body := if t[0] == '-' then t[1..] else t;
    if t[0] == '-' {
      assert t == [t[0]] + t[1..];
    }
    assert ',' in body;
    var j :| 0 <= j < |body| && body[j] == ',';
    assert !IsAsciiDigit(body[j]);
  }

  /** The integer part of a grouped number holds no decimal separator, and
      holds the thousands separator exactly when there are several groups. */
  lemma GroupedIntegerPart(sign: string, groups: seq<string>, sep: char, point: char)
    requires sign == "" || sign == "-"
    requires |groups| >= 1
    requires forall i, k | 0 <= i < |groups| && 0 <= k < |groups[i]| :: IsAsciiDigit(groups[i][k])
    requires (sep == ',' && point == '.') || (sep == '.' && point == ',')
    ensures point !in sign + Join([sep], groups)
    ensures |groups| >= 2 <==> sep in sign + Join([sep], groups)
  {
    var g := Join([sep], groups);
    JoinChars([sep], groups, c => IsAsciiDigit(c) || c == sep);
    assert point !in g;
    if |groups| >= 2 {
      assert g == groups[0] + [sep] + Join([sep], groups[1..]);
      assert g[|groups[0]|] == sep;
    } else {
      assert g == groups[0];
      assert sep !in g;
    }
    assert sign + g == sign + g;
  }

  /** A decimal separator that occurs once, with only digits after it, comes
      after every other separator. */
  lemma DecimalSeparatorLast(x: string, frac: string, sep: char, point: char)
    requires sep != point && point !in x && sep !in frac && point !in frac
    ensures var s := x + [point] + frac;
      point in s && multiset(s)[point] == 1 && (sep in s <==> sep in x)
      && (sep in s ==> LastIndexOf(s, sep) < LastIndexOf(s, point))
  {
    var s := x + [point] + frac;
    assert s[|x|] == point;
    assert multiset(s) == multiset(x) + multiset([point]) + multiset(frac);
    LastIndexOfConcat(x + [point], frac, point);
    LastIndexOfConcat(x + [point], frac, sep);
    assert LastIndexOf(x + [point], sep) == LastIndexOf(x, sep);
  }

  /** Filtering out the thousands separator of a grouped number. */
  lemma FilterGrouped(sign: string, groups: seq<string>, frac: string, sep: char, point: char, keep: char -> bool)
    requires sign == "" || sign == "-"
    requires forall i, k | 0 <= i < |groups| && 0 <= k < |groups[i]| :: IsAsciiDigit(groups[i][k])
    requires AllDigits(frac)
    requires !keep(sep) && keep(point) && keep('-') && forall c: char :: IsAsciiDigit(c) ==> keep(c)
    ensures Filter(sign + Join([sep], groups) + [point] + frac, keep) == sign + Join("", groups) + [point] + frac
  {
    var g := Join([sep], groups);
    FilterJoin(sep, groups, keep);
    FilterConcat(sign + g + [point], frac, keep);
    FilterConcat(sign + g, [point], keep);
    FilterConcat(sign, g, keep);
    FilterAll(sign, keep);
    FilterAll(frac, keep);
    FilterAll([point], keep);
  }

  /** Turning the one comma of a number into a point. */
  lemma ReplaceDecimalComma(x: string, frac: string)
    requires ',' !in x && ',' !in frac
    ensures ReplaceChar(x + [','] + frac, ',', '.') == x + "." + frac
  {
    ReplaceCharConcat(x + [','], frac, ',', '.');
    ReplaceCharConcat(x, [','], ',', '.');
    ReplaceCharAbsent(x, ',', '.');
    ReplaceCharAbsent(frac, ',', '.');
  }

  /** Which branch of the heuristic a text takes when its decimal
      separator occurs once, after any thousands separator. */
  lemma NormaliseBranch(s: string, sep: char, point: char)
    requires (sep == ',' && point == '.') || (sep == '.' && point == ',')
    requires multiset(s)[point] == 1
    requires sep in s ==> LastIndexOf(s, sep) < LastIndexOf(s, point)
    ensures point == ',' && sep in s ==> NormaliseSeparators(s) == ReplaceChar(Filter(s, IsNotPeriod), ',', '.')
    ensures point == ',' && sep !in s ==> NormaliseSeparators(s) == ReplaceChar(s, ',', '.')
    ensures point == '.' && sep in s ==> NormaliseSeparators(s) == Filter(s, IsNotComma)
    ensures point == '.' && sep !in s ==> NormaliseSeparators(s) == s
  {
    assert point in s;
  }

  /** The digits of a grouped number, with its sign, hold no comma. */
  lemma IntegerDigits(sign: string, groups: seq<string>)
    requires sign == "" || sign == "-"
    requires forall i, k | 0 <= i < |groups| && 0 <= k < |groups[i]| :: IsAsciiDigit(groups[i][k])
    ensures AllDigits(Join("", groups))
    ensures ',' !in sign + Join("", groups)
  {
    var c := Join("", groups);
    JoinChars("", groups, IsAsciiDigit);
    assert forall k | 0 <= k < |sign + c| :: (sign + c)[k] == if k < |sign| then sign[k] else c[k - |sign|];
  }

  lemma SeveralGroupsNormalise(sign: string, groups: seq<string>, frac: string, sep: char, point: char)
    requires sign == "" || sign == "-"
    requires |groups| >= 2
    requires forall i, k | 0 <= i < |groups| && 0 <= k < |groups[i]| :: IsAsciiDigit(groups[i][k])
    requires AllDigits(frac)
    requires (sep == ',' && point == '.') || (sep == '.' && point == ',')
    ensures NormaliseSeparators(sign + Join([sep], groups) + [point] + frac) == sign + Join("", groups) + "." + frac
  {
    var g := Join([sep], groups);
    GroupedIntegerPart(sign, groups, sep, point);
    DecimalSeparatorLast(sign + g, frac, sep, point);
    NormaliseBranch(sign + g + [point] + frac, sep, point);
    IntegerDigits(sign, groups);
    if point == ',' {
      FilterGrouped(sign, groups, frac, sep, point, IsNotPeriod);
      ReplaceDecimalComma(sign + Join("", groups), frac);
    } else {
      FilterGrouped(sign, groups, frac, sep, point, IsNotComma);
    }
  }

  lemma OneGroupNormalises(sign: string, group: string, frac: string, sep: char, point: char)
    requires sign == "" || sign == "-"
    requires AllDigits(group) && AllDigits(frac)
    requires (sep == ',' && point == '.') || (sep == '.' && point == ',')
    ensures NormaliseSeparators(sign + group + [point] + frac) == sign + group + "." + frac
  {
    GroupedIntegerPart(sign, [group], sep, point);
    DecimalSeparatorLast(sign + group, frac, sep, point);
    NormaliseBranch(sign + group + [point] + frac, sep, point);
    IntegerDigits(sign, [group]);
    if point == ',' {
      ReplaceDecimalComma(sign + group, frac);
    }
  }

  /** A grouped number, thousands separated by one separator and the
      fraction by the other (or a plain number with either as its decimal
      separator), normalises to the digits with a point before the
      fraction: "1.234,56" and "1,234.56" both become "1234.56". */
  lemma GroupedNumberNormalises(sign: string, groups: seq<string>, frac: string, sep: char, point: char)
    requires sign == "" || sign == "-"
    requires |groups| >= 1
    requires forall i, k | 0 <= i < |groups| && 0 <= k < |groups[i]| :: IsAsciiDigit(groups[i][k])
    requires AllDigits(frac)
    requires (sep == ',' && point == '.') || (sep == '.' && point == ',')
    ensures NormaliseSeparators(sign + Join([sep], groups) + [point] + frac) == sign + Join("", groups) + "." + frac
  {
    if |groups| == 1 {
      assert forall k | 0 <= k < |groups[0]| :: IsAsciiDigit(groups[0][k]);
      OneGroupNormalises(sign, groups[0], frac, sep, point);
    } else {
      SeveralGroupsNormalise(sign, groups, frac, sep, point);
    }
  }

  lemma NumberCharNotSpace(c: char)
    requires IsNumberChar(c)
    ensures !IsSpace(c)
  {
  }

  lemma NumberCharsStripped(s: string)
    requires forall k | 0 <= k < |s| :: IsNumberChar(s[k])
    ensures Strip(s) == s
  {
    if s != [] {
      NumberCharNotSpace(s[0]);
      NumberCharNotSpace(s[|s| - 1]);
    }
    StripUnchanged(s);
  }

  /** A text made only of number characters reaches the heuristic as it is. */
  lemma NumberCharsKept(s: string)
    requires forall k | 0 <= k < |s| :: IsNumberChar(s[k])
    ensures KeepNumberChars(Strip(s)) == s
  {
    NumberCharsStripped(s);
    FilterAll(s, IsNumberChar);
  }

  /** Digits, a point and digits, with an optional minus, is a float literal. */
  lemma DecimalIsFloatLiteral(sign: string, c: string, frac: string)
    requires sign == "" || sign == "-"
    requires c != [] && AllDigits(c) && AllDigits(frac)
    ensures IsFloatLiteral(sign + c + "." + frac)
  {
    var n := sign + c + "." + frac;
    var body := c + "." + frac;
    if sign == "-" {
      assert n == ['-'] + body;
    } else {
      assert n == body && n[0] == c[0];
    }
    IndexOfAt(body, '.', |c|);
    assert body[..|c|] == c && body[|c| + 1..] == frac;
  }

  /** A grouped number is made of number characters. */
  lemma GroupedNumberChars(sign: string, groups: seq<string>, frac: string, sep: char, point: char)
    requires sign == "" || sign == "-"
    requires forall i, k | 0 <= i < |groups| && 0 <= k < |groups[i]| :: IsAsciiDigit(groups[i][k])
    requires AllDigits(frac)
    requires (sep == ',' && point == '.') || (sep == '.' && point == ',')
    ensures forall k | 0 <= k < |sign + Join([sep], groups) + [point] + frac| ::
      IsNumberChar((sign + Join([sep], groups) + [point] + frac)[k])
  {
    var g := Join([sep], groups);
    var s := sign + g + [point] + frac;
    JoinChars([sep], groups, c => IsAsciiDigit(c) || c == sep);
    forall k | 0 <= k < |s|
      ensures IsNumberChar(s[k])
    {
      if k < |sign| {
        assert s[k] == sign[k];
      } else if k < |sign| + |g| {
        assert s[k] == g[k - |sign|];
      } else if k > |sign| + |g| {
        assert s[k] == frac[k - |sign| - |g| - 1];
      }
    }
  }

  /** Such a number, as text, passes the number check. */
  lemma GroupedTextAccepted(sign: string, groups: seq<string>, frac: string, sep: char, point: char)
    requires sign == "" || sign == "-"
    requires |groups| >= 1 && groups[0] != []
    requires forall i, k | 0 <= i < |groups| && 0 <= k < |groups[i]| :: IsAsciiDigit(groups[i][k])
    requires AllDigits(frac)
    requires (sep == ',' && point == '.') || (sep == '.' && point == ',')
    ensures NumberTextAccepted(sign + Join([sep], groups) + [point] + frac)
  {
    var s := sign + Join([sep], groups) + [point] + frac;
    GroupedNumberChars(sign, groups, frac, sep, point);
    NumberCharsKept(s);
    GroupedNumberNormalises(sign, groups, frac, sep, point);
    IntegerDigits(sign, groups);
    JoinStartsWithFirst("", groups);
    DecimalIsFloatLiteral(sign, Join("", groups), frac);
  }

  /** Such a number, written as a string, passes the number check. */
  lemma GroupedNumberAccepted(show: Value -> string, sign: string, groups: seq<string>, frac: string, sep: char, point: char)
    requires ShowAgrees(show)
    requires sign == "" || sign == "-"
    requires |groups| >= 1 && groups[0] != []
    requires forall i, k | 0 <= i < |groups| && 0 <= k < |groups[i]| :: IsAsciiDigit(groups[i][k])
    requires AllDigits(frac)
    requires (sep == ',' && point == '.') || (sep == '.' && point == ',')
    ensures ParseNumber(show, VStr(sign + Join([sep], groups) + [point] + frac))
  {
    GroupedTextAccepted(sign, groups, frac, sep, point);
  }

  // ----- the date check -----

  /** A date value is accepted: its text is the ISO form, which the first
      format parses. */
  lemma DateValuesAccepted(show: Value -> string, y: nat, m: nat, d: nat)
    requires ShowAgrees(show)
    requires ValidDate(y, m, d)
    ensures DateAccepted(show, VDate(y, m, d))
  {
    var s := IsoFormat(y, m, d);
    assert show(VDate(y, m, d)) == s;
    assert |s| == 10 && s[0] == Fixed(y, 4)[0] && s[9] == Fixed(d, 2)[1];
    StripUnchanged(s);
    IsoFormatParses(y, m, d);
    assert Parses(DateFormats[0], DateText(show, VDate(y, m, d)));
  }

  /** A string with no whitespace at its ends is checked by its first ten
      characters. */
  lemma StringDateText(show: Value -> string, s: string)
    requires ShowAgrees(show)
    requires s != [] && !IsSpace(s[0]) && !IsSpace(s[|s| - 1])
    ensures DateText(show, VStr(s)) == Prefix(s, 10)
    ensures |s| <= 10 ==> DateText(show, VStr(s)) == s
  {
    StripUnchanged(s);
  }

  lemma TimestampTokens()
    ensures TokensMatch(Format(Year, '-', Month, '-', Day), "2020", "12", "20")
  {
    FourDigitValue("2020");
    TwoDigitValue("12");
    TwoDigitValue("20");
  }

  /** "2020-12-20" parses as an ISO date. */
  lemma TimestampDateParses()
    ensures Parses(DateFormats[0], "2020-12-20")
  {
    TimestampTokens();
    assert "2020" + ['-'] + "12" + ['-'] + "20" == "2020-12-20";
    CutJoined(DateFormats[0], "2020", "12", "20");
  }

  lemma TimestampDateText(show: Value -> string)
    requires ShowAgrees(show)
    ensures DateText(show, VStr("2020-12-20T00:00:00")) == "2020-12-20"
  {
    var s := "2020-12-20T00:00:00";
    StringDateText(show, s);
    assert Prefix(s, 10) == "2020-12-20";
  }

  /** Only the first ten characters count: a timestamp is accepted by its
      date part. */
  lemma TimestampAccepted(show: Value -> string)
    requires ShowAgrees(show)
    ensures DateAccepted(show, VStr("2020-12-20T00:00:00"))
  {
    TimestampDateText(show);
    TimestampDateParses();
    assert DateTextAccepted("2020-12-20");
  }

  lemma LeapDayTokens()
    ensures TokensMatch(Format(Day, '/', Month, '/', Year), "29", "02", "2024")
  {
    FourDigitValue("2024");
    TwoDigitValue("02");
    TwoDigitValue("29");
    assert TokenValue("2024") == 2024 && TokenValue("02") == 2 && TokenValue("29") == 29;
    assert IsLeapYear(2024);
  }

  lemma NoLeapDayTokens()
    ensures !TokensMatch(Format(Day, '/', Month, '/', Year), "29", "02", "2023")
    ensures !TokensMatch(Format(Month, '/', Day, '/', Year), "29", "02", "2023")
  {
    FourDigitValue("2023");
    TwoDigitValue("02");
    TwoDigitValue("29");
  }

  lemma MonthEndTokens()
    ensures !TokensMatch(Format(Year, '-', Month, '-', Day), "2024", "02", "30")
    ensures !TokensMatch(Format(Day, '-', Month, '-', Year), "2024", "02", "30")
  {
    FourDigitValue("2024");
    TwoDigitValue("02");
    TwoDigitValue("30");
  }

  /** "29/02/2024" parses as day 29 of February 2024. */
  lemma LeapDayParses()
    ensures Parses(DateFormats[1], "29/02/2024")
  {
    LeapDayTokens();
    assert "29" + ['/'] + "02" + ['/'] + "2024" == "29/02/2024";
    CutJoined(DateFormats[1], "29", "02", "2024");
  }

  /** "29/02/2023" names no date under any format. */
  lemma MissingLeapDayRejected(k: nat)
    requires k < |DateFormats|
    ensures !Parses(DateFormats[k], "29/02/2023")
  {
    var s := "29/02/2023";
    if k == 0 || k == 3 {
      assert '-' !in s;
    } else {
      NoLeapDayTokens();
      assert "29" + ['/'] + "02" + ['/'] + "2023" == s;
      CutJoined(DateFormats[k], "29", "02", "2023");
    }
  }

  /** "2024-02-30" names no date under any format. */
  lemma DayPastMonthEndRejected(k: nat)
    requires k < |DateFormats|
    ensures !Parses(DateFormats[k], "2024-02-30")
  {
    var s := "2024-02-30";
    if k == 1 || k == 2 {
      assert '/' !in s;
    } else {
      MonthEndTokens();
      assert "2024" + ['-'] + "02" + ['-'] + "30" == s;
      CutJoined(DateFormats[k], "2024", "02", "30");
    }
  }

  lemma CalendarTexts()
    ensures DateTextAccepted("29/02/2024")
    ensures !DateTextAccepted("29/02/2023")
    ensures !DateTextAccepted("2024-02-30")
  {
    LeapDayParses();
    forall k | 0 <= k < |DateFormats|
      ensures !Parses(DateFormats[k], "29/02/2023") && !Parses(DateFormats[k], "2024-02-30")
    {
      MissingLeapDayRejected(k);
      DayPastMonthEndRejected(k);
    }
  }

  /** Ten-character strings are checked whole. */
  lemma LeapDayText(show: Value -> string)
    requires ShowAgrees(show)
    ensures DateText(show, VStr("29/02/2024")) == "29/02/2024"
  {
    StringDateText(show, "29/02/2024");
  }

  lemma MissingLeapDayText(show: Value -> string)
    requires ShowAgrees(show)
    ensures DateText(show, VStr("29/02/2023")) == "29/02/2023"
  {
    StringDateText(show, "29/02/2023");
  }

  lemma MonthEndText(show: Value -> string)
    requires ShowAgrees(show)
    ensures DateText(show, VStr("2024-02-30")) == "2024-02-30"
  {
    StringDateText(show, "2024-02-30");
  }

  /** Day-first dates are tried before month-first ones, and the calendar
      decides: 29 February exists in 2024 and not in 2023, and no year has
      a 30 February. */
  lemma CalendarExamples(show: Value -> string)
    requires ShowAgrees(show)
    ensures DateAccepted(show, VStr("29/02/2024"))
    ensures !DateAccepted(show, VStr("29/02/2023"))
    ensures !DateAccepted(show, VStr("2024-02-30"))
  {
    CalendarTexts();
    LeapDayText(show);
    MissingLeapDayText(show);
    MonthEndText(show);
  }

  // ----- whole-schema examples -----

  lemma IsoDateTokens()
    ensures TokensMatch(Format(Year, '-', Month, '-', Day), "2024", "01", "31")
  {
    FourDigitValue("2024");
    TwoDigitValue("01");
    TwoDigitValue("31");
  }

  lemma IsoDateParses()
    ensures Parses(DateFormats[0], "2024-01-31")
  {
    IsoDateTokens();
    assert "2024" + ['-'] + "01" + ['-'] + "31" == "2024-01-31";
    CutJoined(DateFormats[0], "2024", "01", "31");
  }

  lemma IsoDateAccepted(show: Value -> string)
    requires ShowAgrees(show)
    ensures DateAccepted(show, VStr("2024-01-31"))
  {
    IsoDateParses();
    assert DateTextAccepted("2024-01-31");
    IsoDateText(show);
  }

  lemma IsoDateText(show: Value -> string)
    requires ShowAgrees(show)
    ensures DateText(show, VStr("2024-01-31")) == "2024-01-31"
  {
    StringDateText(show, "2024-01-31");
  }

  /** "1.234,56": a period groups the thousands and the comma carries the
      decimals. */
  lemma EuropeanAmountAccepted(show: Value -> string)
    requires ShowAgrees(show)
    ensures ParseNumber(show, VStr("1.234,56"))
  {
    var groups := ["1", "234"];
    assert Join(['.'], groups) == "1.234";
    assert "" + Join(['.'], groups) + [','] + "56" == "1.234,56";
    GroupedNumberAccepted(show, "", groups, "56", '.', ',');
  }

  /** The data of an envelope with the three invoice fields. */
  function SampleData(date: Value, total: Value, company: Value): map<string, FieldResult> {
    map["date" := FieldResult(value := date), "total" := FieldResult(value := total),
        "company_name" := FieldResult(value := company)]
  }

  lemma NotBlank(s: string)
    requires s != [] && !IsSpace(s[0])
    ensures !IsEmpty(VStr(s))
  {
  }

  /** The required pass over a three-field schema, field by field. */
  lemma RequiredPassSplit(a: LabelField, b: LabelField, c: LabelField, data: map<string, FieldResult>)
    ensures RequiredPassErrors([a, b, c], data) == RequiredError(a, data) + RequiredError(b, data) + RequiredError(c, data)
  {
    assert [a, b, c][..2] == [a, b] && [a, b][..1] == [a] && [a][..0] == [];
    assert RequiredPassErrors([a], data) == RequiredError(a, data);
    assert RequiredPassErrors([a, b], data) == RequiredError(a, data) + RequiredError(b, data);
  }

  /** The type pass over a three-field schema, field by field. */
  lemma TypePassSplit(show: Value -> string, a: LabelField, b: LabelField, c: LabelField, data: map<string, FieldResult>)
    ensures TypePassErrors(show, [a, b, c], data) == TypeError(show, a, data) + TypeError(show, b, data) + TypeError(show, c, data)
  {
    assert [a, b, c][..2] == [a, b] && [a, b][..1] == [a] && [a][..0] == [];
    assert TypePassErrors(show, [a], data) == TypeError(show, a, data);
    assert TypePassErrors(show, [a, b], data) == TypeError(show, a, data) + TypeError(show, b, data);
  }

  /** Both passes over a three-field schema, field by field. */
  lemma ThreeFieldPasses(show: Value -> string, a: LabelField, b: LabelField, c: LabelField, data: map<string, FieldResult>)
    ensures RequiredPassErrors([a, b, c], data) == RequiredError(a, data) + RequiredError(b, data) + RequiredError(c, data)
    ensures TypePassErrors(show, [a, b, c], data) == TypeError(show, a, data) + TypeError(show, b, data) + TypeError(show, c, data)
  {
    RequiredPassSplit(a, b, c, data);
    TypePassSplit(show, a, b, c, data);
  }

  lemma InvoiceFields()
    ensures InvoiceLabels().fields == [
      LabelField("date", fieldType := Date, required := true),
      LabelField("total", fieldType := Currency, required := true),
      LabelField("company_name", fieldType := String, required := true)]
  {
  }

  /** With no date and no total, the required pass reports each once, in
      schema order, and the company name not at all. */
  lemma MissingFieldsExample()
    ensures RequiredPassErrors(InvoiceLabels().fields, SampleData(VNone, VNone, VStr("ACME")))
      == [MissingError("date"), MissingError("total")]
  {
    InvoiceFields();
    var data := SampleData(VNone, VNone, VStr("ACME"));
    var fs := InvoiceLabels().fields;
    RequiredPassSplit(fs[0], fs[1], fs[2], data);
    NotBlank("ACME");
    assert data["company_name"].value == VStr("ACME");
    assert RequiredError(fs[2], data) == [];
  }

  /** The type pass skips the missing values. */
  lemma MissingFieldsTyped(show: Value -> string)
    ensures TypePassErrors(show, InvoiceLabels().fields, SampleData(VNone, VNone, VStr("ACME"))) == []
  {
    InvoiceFields();
    var data := SampleData(VNone, VNone, VStr("ACME"));
    var fs := InvoiceLabels().fields;
    TypePassSplit(show, fs[0], fs[1], fs[2], data);
    assert data["date"].value == VNone && data["total"].value == VNone;
    assert Missing(data, "date") && Missing(data, "total");
    assert TypeError(show, fs[2], data) == [];
  }

  lemma AmountCheckPasses(show: Value -> string, name: string, v: Value)
    requires ParseNumber(show, v)
    ensures TypeCheck(show, Currency, name, v) == []
  {
  }

  lemma DateCheckPasses(show: Value -> string, name: string, v: Value)
    requires DateAccepted(show, v)
    ensures TypeCheck(show, Date, name, v) == []
  {
  }

  /** The well-formed sample, one field at a time. */
  lemma WellFormedDate(show: Value -> string)
    requires ShowAgrees(show)
    ensures var data := SampleData(VStr("2024-01-31"), VStr("1.234,56"), VStr("ACME"));
      var f := LabelField("date", fieldType := Date, required := true);
      RequiredError(f, data) == [] && TypeError(show, f, data) == []
  {
    var data := SampleData(VStr("2024-01-31"), VStr("1.234,56"), VStr("ACME"));
    var v := VStr("2024-01-31");
    assert data["date"].value == v;
    NotBlank("2024-01-31");
    assert !Missing(data, "date");
    IsoDateAccepted(show);
    DateCheckPasses(show, "date", v);
  }

  lemma WellFormedTotal(show: Value -> string)
    requires ShowAgrees(show)
    ensures var data := SampleData(VStr("2024-01-31"), VStr("1.234,56"), VStr("ACME"));
      var f := LabelField("total", fieldType := Currency, required := true);
      RequiredError(f, data) == [] && TypeError(show, f, data) == []
  {
    var data := SampleData(VStr("2024-01-31"), VStr("1.234,56"), VStr("ACME"));
    var v := VStr("1.234,56");
    assert data["total"].value == v;
    NotBlank("1.234,56");
    assert !Missing(data, "total");
    EuropeanAmountAccepted(show);
    AmountCheckPasses(show, "total", v);
  }

  lemma WellFormedCompany(show: Value -> string)
    ensures var data := SampleData(VStr("2024-01-31"), VStr("1.234,56"), VStr("ACME"));
      var f := LabelField("company_name", fieldType := String, required := true);
      RequiredError(f, data) == [] && TypeError(show, f, data) == []
  {
    var data := SampleData(VStr("2024-01-31"), VStr("1.234,56"), VStr("ACME"));
    assert data["company_name"].value == VStr("ACME");
    NotBlank("ACME");
    assert !Missing(data, "company_name");
  }

  /** A well-formed date and a European amount pass both checks. */
  lemma WellFormedInvoiceExample(show: Value -> string)
    requires ShowAgrees(show)
    ensures RequiredPassErrors(InvoiceLabels().fields, SampleData(VStr("2024-01-31"), VStr("1.234,56"), VStr("ACME"))) == []
    ensures TypePassErrors(show, InvoiceLabels().fields, SampleData(VStr("2024-01-31"), VStr("1.234,56"), VStr("ACME"))) == []
  {
    InvoiceFields();
    var data := SampleData(VStr("2024-01-31"), VStr("1.234,56"), VStr("ACME"));
    ThreeFieldPasses(show, LabelField("date", fieldType := Date, required := true),
      LabelField("total", fieldType := Currency, required := true),
      LabelField("company_name", fieldType := String, required := true), data);
    WellFormedDate(show);
    WellFormedTotal(show);
    WellFormedCompany(show);
  }
}
