/** `lib.ValidateStruct`: turns the struct validator's list of violations into
    the `{field, message}` entries the handlers send back. The validator's own
    evaluation of the tags is not modelled; its outcome is the input. */
module Validation {
  import opened Strings

  /** One violation as the validator reports it: the field's name (as the
      registered tag-name function produced it), the failed tag and the tag's
      parameter (`3` in `min=3`). */
  datatype FieldError = FieldError(field: string, tag: string, param: string)

  /** What `validate.Struct` returned: nil, a `ValidationErrors` list, or some
      other error (such as an invalid argument). */
  datatype ValidatorResult = Passed | Violations(errors: seq<FieldError>) | OtherError

  datatype ErrMessage = ErrMessage(field: string, message: string)

  /** The tag-name function registered with the validator: the json tag's name
      (the text before its first comma), or "" for a tag named "-". */
  function TagName(jsonTag: string): (name: string)
    ensures |name| <= |jsonTag|
    ensures name != "" ==> name == jsonTag[..|name|] && !Contains(name, ",")
    ensures name != "" ==> |name| == |jsonTag| || jsonTag[|name|] == ','
    ensures name == "" <==>
      || jsonTag == "" || jsonTag[0] == ','
      || jsonTag == "-" || (|jsonTag| >= 2 && jsonTag[..2] == "-,")
  {
    var cut := Index(jsonTag, ",");
    var head := Split(jsonTag, ",")[0];
    assert head == if cut < 0 then jsonTag else jsonTag[..cut];
    SplitPiecesFree(jsonTag, ",");
    assert cut >= 0 ==> OccursAt(jsonTag, ",", cut) && jsonTag[cut..cut + 1] == [jsonTag[cut]];
    assert jsonTag != "" && jsonTag[0] == ',' ==> OccursAt(jsonTag, ",", 0);
    assert |jsonTag| >= 2 && jsonTag[..2] == "-," ==>
      jsonTag[0] == '-' && !OccursAt(jsonTag, ",", 0) && OccursAt(jsonTag, ",", 1);
    if head == "-" then "" else head
  }

  const Fallback := "Unsupported error message, please contact the developer :P"

  /** The tags the message table knows. */
  const KnownTags := {"required", "email", "min", "max", "len", "eq", "ne", "lt", "lte",
                      "gt", "gte", "alphanum", "url", "uuid", "numeric", "boolean"}

  /** The fixed tag-to-message table. `field` is the name as the validator
      reports it (not lower-cased) and `param` the tag's parameter. */
  function MessageFor(tag: string, field: string, param: string): (msg: string)
    ensures tag !in KnownTags ==> msg == Fallback
    ensures msg != ""
  {
    if tag == "required" then field + " is required"
    else if tag == "email" then "Invalid email format"
    else if tag == "min" then field + " is too short, at least minimum of " + param + " characters"
    else if tag == "max" then field + " is too long, at least maximum of " + param + " characters"
    else if tag == "len" then field + " must be at least " + param + " long"
    else if tag == "eq" then field + " must be equal to " + param
    else if tag == "ne" then field + " must not be equal to " + param
    else if tag == "lt" then field + " must be less than " + param
    else if tag == "lte" then field + " must be less than or equal to " + param
    else if tag == "gt" then field + " must be greater than " + param
    else if tag == "gte" then field + " must be greater than or equal to " + param
    else if tag == "alphanum" then field + " must contain only alphanumeric characters"
    else if tag == "url" then "Invalid URL format"
    else if tag == "uuid" then "Invalid UUID format"
    else if tag == "numeric" then "Only numeric values are allowed"
    else if tag == "boolean" then field + " must be a boolean value"
    else Fallback
  }

  /** The entry for one violation: the reported name lower-cased, and the
      table's message. */
  function Entry(e: FieldError): ErrMessage {
    ErrMessage(ToLower(e.field), MessageFor(e.tag, e.field, e.param))
  }

  /** An entry's field is the reported name with its letters lower-cased: same
      length, no upper-case ASCII letter left, and lower-casing it again changes
      nothing. Its message is never empty. */
  lemma EntryShape(e: FieldError)
    ensures |Entry(e).field| == |e.field|
    ensures forall k :: 0 <= k < |e.field| ==> !('A' <= Entry(e).field[k] <= 'Z')
    ensures ToLower(Entry(e).field) == Entry(e).field
    ensures Entry(e).message != ""
  {
    ToLowerIdempotent(e.field);
  }

  /** The messages for the three tags the records use, and `numeric`'s
      independence from the field. */
  lemma TableForModelTags(field: string, other: string, param: string)
    ensures MessageFor("required", field, param) == field + " is required"
    ensures MessageFor("min", field, param) == field + " is too short, at least minimum of " + param + " characters"
    ensures MessageFor("max", field, param) == field + " is too long, at least maximum of " + param + " characters"
    ensures MessageFor("numeric", field, param) == MessageFor("numeric", other, "") == "Only numeric values are allowed"
  {
  }

  /** One entry per violation, in the validator's order. */
  function Entries(errors: seq<FieldError>): (entries: seq<ErrMessage>)
    ensures |entries| == |errors|
    ensures forall k :: 0 <= k < |errors| ==> entries[k] == Entry(errors[k])
  {
    if errors == [] then [] else [Entry(errors[0])] + Entries(errors[1..])
  }

  /** What ValidateStruct returns for a validator outcome: the entries of the
      violations, and nothing (Go's nil slice) in every other case. */
  function Messages(result: ValidatorResult): (messages: seq<ErrMessage>)
    ensures messages == [] <==> !result.Violations? || result.errors == []
  {
    if result.Violations? then Entries(result.errors) else []
  }

  /** Entries of consecutive runs of violations concatenate: each violation's
      entry depends on that violation alone. */
  lemma {:induction false} EntriesAppend(a: seq<FieldError>, b: seq<FieldError>)
    ensures Entries(a + b) == Entries(a) + Entries(b)
  {
    if a == [] {
      assert a + b == b;
    } else {
      assert (a + b)[1..] == a[1..] + b;
      EntriesAppend(a[1..], b);
    }
  }

  /** ValidateStruct: one entry per violation, in the validator's order; no
      entries (Go's nil slice) when validation passed or failed with an error
      that is not a list of violations. */
  method ValidateStruct(result: ValidatorResult) returns (messages: seq<ErrMessage>)
    ensures messages == Messages(result)
    ensures !result.Violations? ==> messages == []
    ensures result.Violations? ==> |messages| == |result.errors|
    ensures result.Violations? ==>
      forall k :: 0 <= k < |messages| ==> messages[k] == Entry(result.errors[k])
  {
    messages := [];
    if result.Violations? {
      var errs := result.errors;
      var k := 0;
      while k < |errs|
        invariant 0 <= k <= |errs|
        invariant messages == Entries(errs[..k])
      {
        EntriesAppend(errs[..k], [errs[k]]);
        assert errs[..k + 1] == errs[..k] + [errs[k]];
        messages := messages + [Entry(errs[k])];
        k := k + 1;
      }
      assert errs[..k] == errs;
    }
  }
}
