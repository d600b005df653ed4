/**
  The per-batch change-data-capture transform (`lambda_handler`).

  Each input record carries an identifier and a base64 payload holding a
  change envelope: an `eventName` and, under `dynamodb.NewImage`, the
  post-change row as attribute-typed values (`{"S": ...}` for strings,
  `{"N": ...}` for numbers). Every record yields exactly one outcome, in
  input order:

  - `Dropped` when the envelope's event is neither `INSERT` nor `MODIFY`;
    the payload is passed through;
  - `Ok` with the flattened business record, serialised as one JSON object
    and a line feed, UTF-8 encoded, then base64 encoded;
  - `ProcessingFailed` when any step raises; the payload is passed through.
 */
module TransformationLayer {
  import opened Prelude
  import opened Json
  import Numbers
  import Base64
  import Utf8

  /** An input record. Both keys are required of the caller; the typing
      makes a record without them unrepresentable. */
  datatype RawRecord = RawRecord(recordId: string, data: string)

  datatype Status = Ok | Dropped | ProcessingFailed

  /** An output record: the identifier echoed, the status, and the payload. */
  datatype Outcome = Outcome(recordId: string, result: Status, data: string)

  /** Why a record failed; this is what the handler logs, and it never
      reaches the output. */
  datatype Fault =
    | Base64Error           // `b64decode` raised
    | JsonError             // `json.loads` raised
    | EnvelopeNotADict      // the document has no `.get`
    | MissingKey(key: string)      // a subscript raised `KeyError` or `TypeError`
    | BadNumber(field: string)     // `int()` or `float()` raised

  /** The flattened row. Attributes read under `S` are copied as they are
      (the handler does not check that they hold strings). */
  datatype BusinessRecord = BusinessRecord(
    orderid: Json,
    productName: Json,
    quantity: int,
    price: real,
    customerId: Json,
    paymentMethod: Json,
    status: Json,
    orderTimestamp: Json,
    cdcEventType: string,
    totalPrice: real)

  /** The classification of one payload before it is turned into an outcome. */
  datatype Verdict = Transformed(record: BusinessRecord) | Filtered | Failed(fault: Fault)

  /** The event types the pipeline keeps; only a string names one, so an
      absent `eventName` (null) never does. */
  predicate IsTracked(eventName: Json)
    ensures IsTracked(eventName) ==> eventName.JStr?
  {
    eventName == JStr("INSERT") || eventName == JStr("MODIFY")
  }

  /** The order and names of the keys of a serialised business record. */
  const RecordKeys: seq<string> := [
    "orderid", "product_name", "quantity", "price", "customer_id",
    "payment_method", "status", "order_timestamp", "cdc_event_type", "total_price"]

  /** The dict the handler builds, as a JSON object. */
  function ToJson(br: BusinessRecord): (j: Json)
    ensures j.JObject? && Keys(j.members) == RecordKeys
  {
    JObject([
      ("orderid", br.orderid),
      ("product_name", br.productName),
      ("quantity", JInt(br.quantity)),
      ("price", JFloat(br.price)),
      ("customer_id", br.customerId),
      ("payment_method", br.paymentMethod),
      ("status", br.status),
      ("order_timestamp", br.orderTimestamp),
      ("cdc_event_type", JStr(br.cdcEventType)),
      ("total_price", JFloat(br.totalPrice))])
  }

  function Require(v: Option<Json>, key: string): (r: Result<Json, Fault>)
    ensures r.Failure? ==> r.error == MissingKey(key)
  {
    match v
    case Some(x) => Success(x)
    case None => Failure(MissingKey(key))
  }

  function Convert<T>(v: Option<T>, field: string): (r: Result<T, Fault>)
    ensures r.Failure? ==> r.error == BadNumber(field)
  {
    match v
    case Some(x) => Success(x)
    case None => Failure(BadNumber(field))
  }

  /** `round(price * quantity, 2)`: a whole number of cents within half a
      cent of the exact product. */
  function TotalPrice(price: real, quantity: int): (t: real)
    ensures Numbers.IsCents(t)
    ensures -0.005 <= t - price * quantity as real <= 0.005
  {
    Numbers.Round2(price * quantity as real)
  }

  /** `image[field][tag]`. */
  function Attribute(image: Json, field: string, tag: string): (r: Result<Json, Fault>)
    ensures !image.JObject? ==> r == Failure(MissingKey(field))
    ensures r.Failure? ==> r.error.MissingKey?
  {
    var attribute :- Require(Subscript(image, field), field);
    Require(Subscript(attribute, tag), tag)
  }

  /** Extracts `dynamodb.NewImage` and builds the business record, reading the
      fields in the order the handler's dict literal lists them; the first
      step that raises decides the fault. */
  function Flatten(doc: Json, eventName: string): (r: Result<BusinessRecord, Fault>)
    ensures Subscript(doc, "dynamodb").None? ==> r == Failure(MissingKey("dynamodb"))
    ensures r.Failure? ==> r.error.MissingKey? || r.error.BadNumber?
    ensures r.Success? ==> doc.JObject? && r.value.cdcEventType == eventName
  {
    var dynamodb :- Require(Subscript(doc, "dynamodb"), "dynamodb");
    var image :- Require(Subscript(dynamodb, "NewImage"), "NewImage");
    BuildRecord(image, eventName)
  }

  /** The dict literal of the handler, read off the new image. A missing
      attribute is reported under its own name; the total is the price times
      the quantity, rounded to cents. */
  function BuildRecord(image: Json, eventName: string): (r: Result<BusinessRecord, Fault>)
    ensures !image.JObject? ==> r == Failure(MissingKey("orderid"))
    ensures r.Failure? ==> r.error.MissingKey? || r.error.BadNumber?
    ensures r.Success? ==>
      && r.value.cdcEventType == eventName
      && r.value.totalPrice == TotalPrice(r.value.price, r.value.quantity)
  {
    var orderid :- Attribute(image, "orderid", "S");
    var productName :- Attribute(image, "product_name", "S");
    var quantityText :- Attribute(image, "quantity", "N");
    var quantity :- Convert(ToInt(quantityText), "quantity");
    var priceText :- Attribute(image, "price", "N");
    var price :- Convert(ToFloat(priceText), "price");
    var customerId :- Attribute(image, "customer_id", "S");
    var paymentMethod :- Attribute(image, "payment_method", "S");
    var status :- Attribute(image, "status", "S");
    var timestamp :- Attribute(image, "timestamp", "S");
    Success(BusinessRecord(
      orderid, productName, quantity, price, customerId, paymentMethod, status,
      timestamp, eventName, TotalPrice(price, quantity)))
  }

  /** Decode, parse, filter, flatten — in that order: a payload that is not
      base64 fails as such whatever it holds, and only a readable envelope
      object is filtered or transformed. */
  function Classify(lib: JsonLib, data: string): (v: Verdict)
    ensures v == Failed(Base64Error) <==> Base64.Decode(data).None?
    ensures v.Filtered? || v.Transformed? ==>
      var payload := Base64.Decode(data);
      && payload.Some? && lib.loads(payload.value).Some?
      && lib.loads(payload.value).value.JObject?
    ensures v.Transformed? ==> IsTracked(JStr(v.record.cdcEventType))
  {
    match Base64.Decode(data)
    case None => Failed(Base64Error)
    case Some(payload) =>
      match lib.loads(payload)
      case None => Failed(JsonError)
      case Some(doc) =>
        match Get(doc, "eventName")
        case None => Failed(EnvelopeNotADict)
        case Some(eventName) =>
          if !IsTracked(eventName) then Filtered
          else
            match Flatten(doc, eventName.s)
            case Failure(fault) => Failed(fault)
            case Success(br) => Transformed(br)
  }

  /** `json.dumps(record) + '\n'`: the serialised record and one closing
      line feed, the only one when `json.dumps` writes none. */
  function RecordText(lib: JsonLib, br: BusinessRecord): (t: string)
    ensures |t| > 0 && t[|t| - 1] == '\n' && t[..|t| - 1] == lib.dumps(ToJson(br))
    ensures Faithful(lib) ==> forall i :: 0 <= i < |t| - 1 ==> t[i] != '\n'
  {
    var line := lib.dumps(ToJson(br));
    assert (line + "\n")[..|line|] == line;
    line + "\n"
  }

  /** The payload of an `Ok` outcome: base64 text that decodes back to the
      UTF-8 octets of the record's text. */
  function EncodeRecord(lib: JsonLib, br: BusinessRecord): (s: string)
    ensures Base64.IsEncodingText(s) && |s| % 4 == 0
    ensures Base64.Decode(s) == Some(Utf8.Encode(RecordText(lib, br)))
  {
    var octets := Utf8.Encode(RecordText(lib, br));
    Base64.DecodeEncode(octets);
    Base64.Encode(octets)
  }

  /** The outcome of one record. */
  function ProcessRecord(lib: JsonLib, r: RawRecord): (o: Outcome)
    ensures o.recordId == r.recordId
  {
    match Classify(lib, r.data)
    case Transformed(br) => Outcome(r.recordId, Ok, EncodeRecord(lib, br))
    case Filtered => Outcome(r.recordId, Dropped, r.data)
    case Failed(_) => Outcome(r.recordId, ProcessingFailed, r.data)
  }

  /** The batch as a whole: one outcome per record, position by position. */
  function Transform(lib: JsonLib, records: seq<RawRecord>): (out: seq<Outcome>)
    ensures |out| == |records|
    ensures forall i :: 0 <= i < |records| ==> out[i].recordId == records[i].recordId
  {
    seq(|records|, i requires 0 <= i < |records| => ProcessRecord(lib, records[i]))
  }

  /** One pass of the handler's loop, step by step: every exception of the
      `try` block leaves the `ProcessingFailed` outcome in place, the filter
      `continue`s with a `Dropped` one. */
  method HandleRecord(lib: JsonLib, record: RawRecord) returns (outcome: Outcome)
    ensures outcome == ProcessRecord(lib, record)
  {
    outcome := Outcome(record.recordId, ProcessingFailed, record.data);
    var payload := Base64.Decode(record.data);
    if payload.Some? {
      var doc := lib.loads(payload.value);
      if doc.Some? {
        var eventName := Get(doc.value, "eventName");
        if eventName.Some? {
          if !IsTracked(eventName.value) {
            outcome := Outcome(record.recordId, Dropped, record.data);
          } else {
            var flat := Flatten(doc.value, eventName.value.s);
            if flat.Success? {
              var text := lib.dumps(ToJson(flat.value)) + "\n";
              var encoded := Base64.Encode(Utf8.Encode(text));
              outcome := Outcome(record.recordId, Ok, encoded);
            }
          }
        }
      }
    }
  }

  /** The handler: one outcome per record, appended in input order. It
      computes the batch transform. */
  method LambdaHandler(lib: JsonLib, records: seq<RawRecord>) returns (output: seq<Outcome>)
    ensures |output| == |records|
    ensures forall i :: 0 <= i < |records| ==> output[i] == ProcessRecord(lib, records[i])
  {
    output := [];
    for i := 0 to |records|
      invariant |output| == i
      invariant forall k :: 0 <= k < i ==> output[k] == ProcessRecord(lib, records[k])
    {
      var outcome := HandleRecord(lib, records[i]);
      output := output + [outcome];
    }
  }
}
