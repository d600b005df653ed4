/**
  What the batch transform guarantees, stated against definitions that do not
  go through `Classify`: the decoded envelope, its event name, the new image
  and its typed fields, read directly.
 */
module TransformationProperties {
  import opened Prelude
  import opened Json
  import opened TransformationLayer
  import Numbers
  import Base64
  import Utf8

  /** The document a payload carries, when it is base64 and JSON at all. */
  function Envelope(lib: JsonLib, data: string): Option<Json> {
    var payload :- Base64.Decode(data);
    lib.loads(payload)
  }

  /** `eventName` of an envelope object, null when absent. */
  function EventName(doc: Json): Json
    requires doc.JObject?
  {
    match Lookup(doc.members, "eventName")
    case Some(v) => v
    case None => JNull
  }

  /** `doc['dynamodb']['NewImage']`, when both subscripts succeed. */
  function NewImage(doc: Json): Option<Json> {
    match Subscript(doc, "dynamodb")
    case Some(d) => Subscript(d, "NewImage")
    case None => None
  }

  /** `image[field][tag]`, when both subscripts succeed. */
  function Field(image: Json, field: string, tag: string): Option<Json> {
    match Subscript(image, field)
    case Some(a) => Subscript(a, tag)
    case None => None
  }

  /** Every attribute the business record needs is present under its tag,
      and the two numeric ones convert. */
  predicate ImageComplete(image: Json) {
    && Field(image, "orderid", "S").Some?
    && Field(image, "product_name", "S").Some?
    && Field(image, "quantity", "N").Some?
    && ToInt(Field(image, "quantity", "N").value).Some?
    && Field(image, "price", "N").Some?
    && ToFloat(Field(image, "price", "N").value).Some?
    && Field(image, "customer_id", "S").Some?
    && Field(image, "payment_method", "S").Some?
    && Field(image, "status", "S").Some?
    && Field(image, "timestamp", "S").Some?
  }

  /** The business record a complete image describes, read field by field:
      string attributes verbatim, `order_timestamp` from `timestamp`, the
      event type as given, and the total as the rounded product. */
  function Expected(image: Json, eventName: string): BusinessRecord
    requires ImageComplete(image)
  {
    var quantity := ToInt(Field(image, "quantity", "N").value).value;
    var price := ToFloat(Field(image, "price", "N").value).value;
    BusinessRecord(
      Field(image, "orderid", "S").value,
      Field(image, "product_name", "S").value,
      quantity,
      price,
      Field(image, "customer_id", "S").value,
      Field(image, "payment_method", "S").value,
      Field(image, "status", "S").value,
      Field(image, "timestamp", "S").value,
      eventName,
      TotalPrice(price, quantity))
  }

  /** `Attribute` reads the same value as `Field`. */
  lemma AttributeIsField(image: Json, field: string, tag: string)
    ensures Attribute(image, field, tag).Success? <==> Field(image, field, tag).Some?
    ensures Attribute(image, field, tag).Success? ==> Attribute(image, field, tag).value == Field(image, field, tag).value
  {
  }

  /** `NewImage` reads the two subscripts `Flatten` applies. */
  lemma ReadImage(doc: Json)
    ensures NewImage(doc).Some? <==>
      Subscript(doc, "dynamodb").Some? && Subscript(Subscript(doc, "dynamodb").value, "NewImage").Some?
    ensures NewImage(doc).Some? ==> NewImage(doc).value == Subscript(Subscript(doc, "dynamodb").value, "NewImage").value
  {
  }

  /** Building the record succeeds exactly when the image is complete. */
  lemma BuildRecordSucceeds(image: Json, eventName: string)
    ensures BuildRecord(image, eventName).Success? <==> ImageComplete(image)
  {
    AttributeIsField(image, "orderid", "S");
    AttributeIsField(image, "product_name", "S");
    AttributeIsField(image, "quantity", "N");
    AttributeIsField(image, "price", "N");
    AttributeIsField(image, "customer_id", "S");
    AttributeIsField(image, "payment_method", "S");
    AttributeIsField(image, "status", "S");
    AttributeIsField(image, "timestamp", "S");
  }

  /** A complete image builds the record it describes. */
  lemma BuildRecordValue(image: Json, eventName: string)
    requires ImageComplete(image)
    ensures BuildRecord(image, eventName) == Success(Expected(image, eventName))
  {
    AttributeIsField(image, "orderid", "S");
    AttributeIsField(image, "product_name", "S");
    AttributeIsField(image, "quantity", "N");
    AttributeIsField(image, "price", "N");
    AttributeIsField(image, "customer_id", "S");
    AttributeIsField(image, "payment_method", "S");
    AttributeIsField(image, "status", "S");
    AttributeIsField(image, "timestamp", "S");
  }

  /** Flattening succeeds exactly when the new image is there and complete,
      and then yields the record that image describes. */
  lemma FlattenSpec(doc: Json, eventName: string)
    ensures Flatten(doc, eventName).Success? <==> NewImage(doc).Some? && ImageComplete(NewImage(doc).value)
    ensures Flatten(doc, eventName).Success? ==> Flatten(doc, eventName).value == Expected(NewImage(doc).value, eventName)
  {
    ReadImage(doc);
    if NewImage(doc).Some? {
      var image := NewImage(doc).value;
      BuildRecordSucceeds(image, eventName);
      if ImageComplete(image) {
        BuildRecordValue(image, eventName);
      }
      assert Flatten(doc, eventName) == BuildRecord(image, eventName);
    }
  }

  /** Only a transformed record comes out `Ok`; every other outcome carries
      its input payload unchanged. */
  lemma PassThrough(lib: JsonLib, r: RawRecord)
    ensures ProcessRecord(lib, r).result == Ok <==> Classify(lib, r.data).Transformed?
    ensures ProcessRecord(lib, r).result != Ok ==> ProcessRecord(lib, r).data == r.data
  {
  }

  /** A record is dropped exactly when its payload decodes and parses to an
      object whose event name (null when absent) is neither INSERT nor
      MODIFY; its payload then goes out unchanged. */
  lemma DroppedIff(lib: JsonLib, r: RawRecord)
    ensures ProcessRecord(lib, r).result == Dropped <==>
      (var doc := Envelope(lib, r.data);
       doc.Some? && doc.value.JObject? && !IsTracked(EventName(doc.value)))
    ensures ProcessRecord(lib, r).result == Dropped ==> ProcessRecord(lib, r) == Outcome(r.recordId, Dropped, r.data)
  {
  }

  /** Decoding and parsing come before the filter: a payload that is not
      base64, not JSON, or not a JSON object fails, whatever event it might
      have named. */
  lemma UnreadableFails(lib: JsonLib, r: RawRecord)
    requires Envelope(lib, r.data).None? || !Envelope(lib, r.data).value.JObject?
    ensures ProcessRecord(lib, r) == Outcome(r.recordId, ProcessingFailed, r.data)
  {
  }

  /** A tracked envelope whose new image is missing or incomplete fails,
      and its payload goes out unchanged. */
  lemma IncompleteImageFails(lib: JsonLib, r: RawRecord)
    requires Envelope(lib, r.data).Some? && Envelope(lib, r.data).value.JObject?
    requires IsTracked(EventName(Envelope(lib, r.data).value))
    requires NewImage(Envelope(lib, r.data).value).None? || !ImageComplete(NewImage(Envelope(lib, r.data).value).value)
    ensures ProcessRecord(lib, r) == Outcome(r.recordId, ProcessingFailed, r.data)
  {
    var doc := Envelope(lib, r.data).value;
    FlattenSpec(doc, EventName(doc).s);
  }

  /** A record is transformed exactly when its payload decodes and parses to
      an object with a tracked event and a complete new image. */
  lemma OkIff(lib: JsonLib, r: RawRecord)
    ensures ProcessRecord(lib, r).result == Ok <==>
      (var doc := Envelope(lib, r.data);
       && doc.Some? && doc.value.JObject? && IsTracked(EventName(doc.value))
       && NewImage(doc.value).Some? && ImageComplete(NewImage(doc.value).value))
  {
    var doc := Envelope(lib, r.data);
    if doc.Some? && doc.value.JObject? && IsTracked(EventName(doc.value)) {
      FlattenSpec(doc.value, EventName(doc.value).s);
    }
  }

  /** In a transformed record the event type is the envelope's, INSERT or
      MODIFY, and the fields are those the envelope's new image describes. */
  lemma OkFieldMapping(lib: JsonLib, r: RawRecord)
    requires ProcessRecord(lib, r).result == Ok
    ensures
      var doc := Envelope(lib, r.data).value;
      var br := Classify(lib, r.data).record;
      && doc.JObject?
      && JStr(br.cdcEventType) == EventName(doc)
      && (br.cdcEventType == "INSERT" || br.cdcEventType == "MODIFY")
      && NewImage(doc).Some? && ImageComplete(NewImage(doc).value)
      && br == Expected(NewImage(doc).value, br.cdcEventType)
  {
    var doc := Envelope(lib, r.data).value;
    FlattenSpec(doc, EventName(doc).s);
  }

  /** The payload of a transformed record is text-safe base64 that decodes
      to the UTF-8 encoding of the serialised record, which ends in a line
      feed. */
  lemma OkPayloadDecodes(lib: JsonLib, r: RawRecord)
    requires ProcessRecord(lib, r).result == Ok
    ensures
      var o := ProcessRecord(lib, r);
      var br := Classify(lib, r.data).record;
      && Base64.Decode(o.data) == Some(Utf8.Encode(lib.dumps(ToJson(br)) + "\n"))
      && Utf8.Decode(Base64.Decode(o.data).value) == Some(lib.dumps(ToJson(br)) + "\n")
  {
    var br := Classify(lib, r.data).record;
    var text := RecordText(lib, br);
    Base64.DecodeEncode(Utf8.Encode(text));
    Utf8.DecodeEncode(text);
  }

  lemma FaithfulLine(lib: JsonLib, v: Json)
    requires Faithful(lib) && Loadable(v)
    ensures '\n' !in lib.dumps(v)
    ensures lib.loads(Utf8.Encode(lib.dumps(v) + "\n")) == Some(v)
  {
  }

  /** The keys of a business record are pairwise different. */
  lemma RecordKeysDistinct(br: BusinessRecord)
    ensures DistinctKeys(ToJson(br).members)
  {
    var ms := ToJson(br).members;
    forall i, j | 0 <= i < j < |ms|
      ensures ms[i].0 != ms[j].0
    {
      assert ms[i].0 == RecordKeys[i] && ms[j].0 == RecordKeys[j];
      assert RecordKeys[i][0] != RecordKeys[j][0] || |RecordKeys[i]| != |RecordKeys[j]|;
    }
  }

  /** A record built from loadable attributes, with decimal price and total,
      is itself loadable. */
  lemma RecordJsonLoadable(br: BusinessRecord)
    requires Loadable(br.orderid) && Loadable(br.productName) && Loadable(br.customerId)
    requires Loadable(br.paymentMethod) && Loadable(br.status) && Loadable(br.orderTimestamp)
    requires Numbers.IsDecimal(br.price) && Numbers.IsDecimal(br.totalPrice)
    ensures Loadable(ToJson(br))
  {
    RecordKeysDistinct(br);
    var ms := ToJson(br).members;
    assert Loadable(JFloat(br.price)) && Loadable(JFloat(br.totalPrice));
    forall i | 0 <= i < |ms|
      ensures Loadable(ms[i].1)
    {
    }
  }

  lemma FieldLoadable(image: Json, field: string, tag: string)
    requires Loadable(image) && Field(image, field, tag).Some?
    ensures Loadable(Field(image, field, tag).value)
  {
    SubscriptLoadable(image, field);
    SubscriptLoadable(Subscript(image, field).value, tag);
  }

  /** The record a loadable image describes is loadable. */
  lemma ExpectedLoadable(image: Json, eventName: string)
    requires Loadable(image) && ImageComplete(image)
    ensures Loadable(ToJson(Expected(image, eventName)))
  {
    var br := Expected(image, eventName);
    FieldLoadable(image, "orderid", "S");
    FieldLoadable(image, "product_name", "S");
    FieldLoadable(image, "price", "N");
    FieldLoadable(image, "customer_id", "S");
    FieldLoadable(image, "payment_method", "S");
    FieldLoadable(image, "status", "S");
    FieldLoadable(image, "timestamp", "S");
    Numbers.CentsAreDecimal(br.totalPrice);
    RecordJsonLoadable(br);
  }

  /** With a faithful codec the record of a transformed payload is a value
      the codec reads back: the envelope is loadable, hence so are its new
      image, the attributes copied from it, the parsed price, and the
      rounded total. */
  lemma RecordLoadable(lib: JsonLib, r: RawRecord)
    requires Faithful(lib)
    requires ProcessRecord(lib, r).result == Ok
    ensures Loadable(ToJson(Classify(lib, r.data).record))
  {
    OkFieldMapping(lib, r);
    var doc := Envelope(lib, r.data).value;
    assert Loadable(doc);
    SubscriptLoadable(doc, "dynamodb");
    SubscriptLoadable(Subscript(doc, "dynamodb").value, "NewImage");
    var br := Classify(lib, r.data).record;
    ExpectedLoadable(NewImage(doc).value, br.cdcEventType);
  }

  lemma TrailingNewline(line: string)
    ensures var text := line + "\n"; text[|text| - 1] == '\n' && text[..|text| - 1] == line
  {
  }

  /** With a faithful codec, the octets an `Ok` payload decodes to end in
      0x0A, the UTF-8 line feed, and hold no other: the record is one line
      at the octet level too, since every multi-octet UTF-8 form uses only
      octets at or above 0x80. */
  lemma OkPayloadOctets(lib: JsonLib, r: RawRecord)
    requires Faithful(lib)
    requires ProcessRecord(lib, r).result == Ok
    ensures Base64.Decode(ProcessRecord(lib, r).data).Some?
    ensures
      var bytes := Base64.Decode(ProcessRecord(lib, r).data).value;
      && |bytes| > 0 && bytes[|bytes| - 1] == 0x0A
      && 0x0A !in bytes[..|bytes| - 1]
  {
    var br := Classify(lib, r.data).record;
    var line := lib.dumps(ToJson(br));
    OkPayloadDecodes(lib, r);
    assert '\n' !in line;
    Utf8.NewlineOctet(line);
    Utf8.EncodeAppend(line, "\n");
    assert Utf8.Encode("\n") == [0x0A] by {
      assert Utf8.Encode("\n") == Utf8.EncodeChar('\n') + Utf8.Encode("\n"[1..]);
    }
    var bytes := Utf8.Encode(line + "\n");
    assert bytes[..|bytes| - 1] == Utf8.Encode(line);
  }

  /** With a faithful JSON codec the decoded text of a transformed record is
      one JSON object with exactly the business-record keys, followed by
      exactly one line feed, the only one in the text. */
  lemma OkPayloadIsOneJsonLine(lib: JsonLib, r: RawRecord)
    requires Faithful(lib)
    requires ProcessRecord(lib, r).result == Ok
    ensures Base64.Decode(ProcessRecord(lib, r).data).Some?
    ensures
      var bytes := Base64.Decode(ProcessRecord(lib, r).data).value;
      && Utf8.Decode(bytes).Some?
      && var text := Utf8.Decode(bytes).value;
      && |text| > 0 && text[|text| - 1] == '\n' && '\n' !in text[..|text| - 1]
      && lib.loads(bytes) == Some(ToJson(Classify(lib, r.data).record))
      && Keys(lib.loads(bytes).value.members) == RecordKeys
  {
    var br := Classify(lib, r.data).record;
    OkPayloadDecodes(lib, r);
    RecordLoadable(lib, r);
    FaithfulLine(lib, ToJson(br));
    TrailingNewline(lib.dumps(ToJson(br)));
  }

  /** The dropped and failed outcomes carry their input payload, so feeding
      them back in reproduces them. */
  lemma ReprocessNotOk(lib: JsonLib, r: RawRecord)
    requires ProcessRecord(lib, r).result != Ok
    ensures
      var o := ProcessRecord(lib, r);
      ProcessRecord(lib, RawRecord(o.recordId, o.data)) == o
  {
  }

  /** A business record has no `eventName` key. */
  lemma RecordHasNoEventName(br: BusinessRecord)
    ensures Lookup(ToJson(br).members, "eventName").None?
  {
    var ms := ToJson(br).members;
    forall i | 0 <= i < |ms|
      ensures ms[i].0 != "eventName"
    {
      assert ms[i].0 == RecordKeys[i];
    }
  }

  /** Feeding a transformed record back in drops it: its payload is a
      business record, which names no tracked event, so the transform is
      never applied twice. */
  lemma ReprocessOk(lib: JsonLib, r: RawRecord)
    requires Faithful(lib)
    requires ProcessRecord(lib, r).result == Ok
    ensures
      var o := ProcessRecord(lib, r);
      ProcessRecord(lib, RawRecord(o.recordId, o.data)) == Outcome(o.recordId, Dropped, o.data)
  {
    var br := Classify(lib, r.data).record;
    OkPayloadDecodes(lib, r);
    RecordLoadable(lib, r);
    RecordHasNoEventName(br);
  }

  /** Record isolation: an outcome depends on its own record only, so two
      batches that agree at a position agree on its outcome. */
  lemma Isolation(lib: JsonLib, a: seq<RawRecord>, b: seq<RawRecord>, i: int)
    requires 0 <= i < |a| && 0 <= i < |b| && a[i] == b[i]
    ensures Transform(lib, a)[i] == Transform(lib, b)[i]
  {
  }

  /** Splitting a batch and transforming the parts gives the same outcomes
      in the same order. */
  lemma TransformConcat(lib: JsonLib, a: seq<RawRecord>, b: seq<RawRecord>)
    ensures Transform(lib, a + b) == Transform(lib, a) + Transform(lib, b)
  {
    var whole := Transform(lib, a + b);
    var parts := Transform(lib, a) + Transform(lib, b);
    forall i | 0 <= i < |whole|
      ensures whole[i] == parts[i]
    {
      if i < |a| {
        assert (a + b)[i] == a[i];
      } else {
        assert (a + b)[i] == b[i - |a|];
      }
    }
  }
}
