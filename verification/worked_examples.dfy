/**
  The worked examples of the transform: the end-to-end INSERT of order 4821,
  and the rounding of 12.345 times 3.
 */
module TransformationExamples {
  import opened Prelude
  import opened Json
  import opened Numbers
  import opened TransformationLayer
  import opened TransformationProperties
  import Base64
  import Utf8
  import ReferenceCodec

  /** The new image of the end-to-end example: two laptops at 499.99. */
  function ExampleImage(): Json {
    JObject([
      ("orderid", JObject([("S", JStr("4821"))])),
      ("product_name", JObject([("S", JStr("Laptop"))])),
      ("quantity", JObject([("N", JStr("2"))])),
      ("price", JObject([("N", JStr("499.99"))])),
      ("customer_id", JObject([("S", JStr("1204"))])),
      ("payment_method", JObject([("S", JStr("UPI"))])),
      ("status", JObject([("S", JStr("pending"))])),
      ("timestamp", JObject([("S", JStr("2024-01-01T00:00:00Z"))]))])
  }

  /** The envelope of the end-to-end example: an INSERT of order 4821. */
  function ExampleDocument(): Json {
    JObject([
      ("eventName", JStr("INSERT")),
      ("dynamodb", JObject([("NewImage", ExampleImage())]))])
  }

  /** The business record the example is expected to flatten to. */
  function ExampleRecord(): BusinessRecord {
    BusinessRecord(
      JStr("4821"), JStr("Laptop"), 2, 499.99, JStr("1204"), JStr("UPI"),
      JStr("pending"), JStr("2024-01-01T00:00:00Z"), "INSERT", 999.98)
  }

  lemma SingleMember(key: string, v: Json)
    ensures Subscript(JObject([(key, v)]), key) == Some(v)
  {
    LookupLast([(key, v)], key, 0);
  }

  lemma ExampleEnvelopeParts()
    ensures Get(ExampleDocument(), "eventName") == Some(JStr("INSERT"))
    ensures NewImage(ExampleDocument()) == Some(ExampleImage())
  {
    var ms := ExampleDocument().members;
    LookupLast(ms, "eventName", 0);
    LookupLast(ms, "dynamodb", 1);
    SingleMember("NewImage", ExampleImage());
  }

  /** An attribute of the example image, found at its position. */
  lemma ImageAttribute(i: int, key: string, tag: string, v: Json)
    requires 0 <= i < |ExampleImage().members|
    requires ExampleImage().members[i] == (key, JObject([(tag, v)]))
    requires forall j :: i < j < |ExampleImage().members| ==> ExampleImage().members[j].0 != key
    ensures Field(ExampleImage(), key, tag) == Some(v)
  {
    LookupLast(ExampleImage().members, key, i);
    SingleMember(tag, v);
  }

  lemma ExampleOrderId()
    ensures Field(ExampleImage(), "orderid", "S") == Some(JStr("4821"))
  {
    ImageAttribute(0, "orderid", "S", JStr("4821"));
  }

  lemma ExampleProductName()
    ensures Field(ExampleImage(), "product_name", "S") == Some(JStr("Laptop"))
  {
    ImageAttribute(1, "product_name", "S", JStr("Laptop"));
  }

  lemma ExampleQuantity()
    ensures Field(ExampleImage(), "quantity", "N") == Some(JStr("2"))
  {
    ImageAttribute(2, "quantity", "N", JStr("2"));
  }

  lemma ExamplePrice()
    ensures Field(ExampleImage(), "price", "N") == Some(JStr("499.99"))
  {
    ImageAttribute(3, "price", "N", JStr("499.99"));
  }

  lemma ExampleCustomerId()
    ensures Field(ExampleImage(), "customer_id", "S") == Some(JStr("1204"))
  {
    ImageAttribute(4, "customer_id", "S", JStr("1204"));
  }

  lemma ExamplePaymentMethod()
    ensures Field(ExampleImage(), "payment_method", "S") == Some(JStr("UPI"))
  {
    ImageAttribute(5, "payment_method", "S", JStr("UPI"));
  }

  lemma ExampleStatus()
    ensures Field(ExampleImage(), "status", "S") == Some(JStr("pending"))
  {
    ImageAttribute(6, "status", "S", JStr("pending"));
  }

  lemma ExampleTimestamp()
    ensures Field(ExampleImage(), "timestamp", "S") == Some(JStr("2024-01-01T00:00:00Z"))
  {
    ImageAttribute(7, "timestamp", "S", JStr("2024-01-01T00:00:00Z"));
  }

  lemma DigitsExample()
    ensures AllDigits("49999") && DigitsValue("49999") == 49999
  {
    assert "49999"[..4] == "4999";
    assert "4999"[..3] == "499";
    assert "499"[..2] == "49";
    assert "49"[..1] == "4";
    assert "4"[..0] == "";
  }

  lemma DigitRunExample()
    ensures DigitRun("499.99") == 3 && DigitRun("99") == 2
  {
    assert "499.99"[1..] == "99.99";
    assert "99.99"[1..] == "9.99";
    assert "9.99"[1..] == ".99";
    assert DigitRun(".99") == 0;
    assert "99"[1..] == "9";
    assert "9"[1..] == "";
  }

  lemma SignExample()
    ensures SplitSign("499.99") == (false, "499.99") && SplitSign("2") == (false, "2")
  {
  }

  lemma ScaleExample()
    ensures Scale(49999, -2) == 499.99
  {
  }

  lemma PriceParts()
    ensures "499.99"[..3] == "499" && "499.99"[3..] == ".99" && ".99"[1..] == "99"
    ensures "99"[..2] == "99" && "99"[2..] == "" && "499" + "99" == "49999"
  {
  }

  lemma ParsePriceExample()
    ensures ParseFloat("499.99") == Some(499.99)
  {
    StripUnchanged("499.99");
    SignExample();
    DigitRunExample();
    DigitsExample();
    PriceParts();
    ScaleExample();
  }

  lemma SingleDigitExample()
    ensures AllDigits("2") && DigitsValue("2") == 2
  {
    assert "2"[..0] == "";
  }

  lemma ParseQuantityExample()
    ensures ParseInt("2") == Some(2)
  {
    StripUnchanged("2");
    SignExample();
    SingleDigitExample();
  }

  lemma ExampleTotal()
    ensures TotalPrice(499.99, 2) == 999.98
  {
    assert RoundHalfEven(499.99 * 2.0 * 100.0) == 99998;
  }

  /** The example image is complete and describes the expected record. */
  lemma ExampleImageDescribesRecord()
    ensures ImageComplete(ExampleImage())
    ensures Expected(ExampleImage(), "INSERT") == ExampleRecord()
  {
    ExampleOrderId();
    ExampleProductName();
    ExampleQuantity();
    ExamplePrice();
    ExampleCustomerId();
    ExamplePaymentMethod();
    ExampleStatus();
    ExampleTimestamp();
    ParsePriceExample();
    ParseQuantityExample();
    ExampleTotal();
  }

  /** The end-to-end example: the INSERT of two laptops at 499.99 flattens
      to a record with total 999.98 and event type INSERT. */
  lemma ExampleFlattens()
    ensures Flatten(ExampleDocument(), "INSERT") == Success(ExampleRecord())
  {
    ExampleEnvelopeParts();
    ExampleImageDescribesRecord();
    FlattenSpec(ExampleDocument(), "INSERT");
  }

  /** A record whose payload carries the example envelope comes out `Ok`,
      and its payload is the example record, serialised and encoded. */
  lemma ExampleIsOk(lib: JsonLib, r: RawRecord)
    requires Base64.Decode(r.data).Some? && lib.loads(Base64.Decode(r.data).value) == Some(ExampleDocument())
    ensures ProcessRecord(lib, r) ==
      Outcome(r.recordId, Ok, Base64.Encode(Utf8.Encode(lib.dumps(ToJson(ExampleRecord())) + "\n")))
  {
    ExampleEnvelopeParts();
    ExampleFlattens();
  }

  /** The rounding example: 12.345 times 3 is exactly 37.035, a tie, which
      goes to the even neighbour 37.04. */
  lemma RoundingExample()
    ensures Round2(12.345 * 3 as real) == 37.04
  {
    assert RoundHalfEven(37.035 * 100.0) == 3704;
  }

  /** The attribute names of the example image differ pairwise, in their
      first letter or in their length. */
  lemma ImageKeysDistinct()
    ensures DistinctKeys(ExampleImage().members)
  {
    var ms := ExampleImage().members;
    var ks := Keys(ms);
    assert ks == ["orderid", "product_name", "quantity", "price", "customer_id",
      "payment_method", "status", "timestamp"];
    forall i, j | 0 <= i < j < |ms|
      ensures ms[i].0 != ms[j].0
    {
      assert ks[i][0] != ks[j][0] || |ks[i]| != |ks[j]|;
    }
  }

  lemma SingleLoadable(key: string, v: Json)
    requires Loadable(v)
    ensures Loadable(JObject([(key, v)]))
  {
  }

  /** The example envelope is a value the reference codec reads back: it
      holds no float, and no object in it binds a key twice. */
  lemma ExampleLoadable()
    ensures Loadable(ExampleDocument())
  {
    var ms := ExampleImage().members;
    ImageKeysDistinct();
    forall i | 0 <= i < |ms|
      ensures Loadable(ms[i].1)
    {
      assert ms[i].1 == JObject([(ms[i].1.members[0].0, ms[i].1.members[0].1)]);
      SingleLoadable(ms[i].1.members[0].0, ms[i].1.members[0].1);
    }
    assert Loadable(ExampleImage());
    assert Loadable(JObject([("NewImage", ExampleImage())]));
  }

  /** The assumptions about the codec and an `Ok` outcome hold together: under
      the reference codec, a record carrying the example envelope is `Ok`. */
  lemma ReferenceCodecExample()
    ensures Faithful(ReferenceCodec.Codec())
    ensures var lib := ReferenceCodec.Codec();
      var data := Base64.Encode(Utf8.Encode(lib.dumps(ExampleDocument()) + "\n"));
      ProcessRecord(lib, RawRecord("4821", data)).result == Ok
  {
    var lib := ReferenceCodec.Codec();
    ReferenceCodec.CodecFaithful();
    ExampleLoadable();
    var octets := Utf8.Encode(lib.dumps(ExampleDocument()) + "\n");
    Base64.DecodeEncode(octets);
    assert lib.loads(octets) == Some(ExampleDocument());
    ExampleIsOk(lib, RawRecord("4821", Base64.Encode(octets)));
  }
}
