# CDC batch transform — a Dafny model

This project models `lambda_handler` in `transformation_layer.py`, the batch
stage of a change-data-capture pipeline. It receives a batch of records, each
holding a `recordId` and a base64 `data` payload. Every record yields exactly
one outcome, in input order:

- The payload is base64-decoded and parsed as JSON.
- An envelope whose `eventName` is neither `INSERT` nor `MODIFY` is `Dropped`.
  Its payload passes through unchanged.
- A tracked envelope is flattened from `dynamodb.NewImage` into a business
  record. The string attributes (`S`) are copied. `quantity` goes through
  `int()` and `price` through `float()`. The total is `round(price * quantity, 2)`.
- The flattened record is serialised with `json.dumps`, followed by a line
  feed, UTF-8 encoded, base64 encoded, and returned as `Ok`.
- Any exception in the per-record `try` block gives `ProcessingFailed`. Its
  payload also passes through unchanged.

Files and modules:

- `prelude.dfy` (`Prelude`): octets, `Option` and `Result`.
- `base64.dfy` (`Base64`): the alphabet and padding of section 4 of RFC 4648.
  It covers the encoder and a strict decoder, with the round trip proved.
- `utf8.dfy` (`Utf8`): the encoder and a strict decoder, with round trips in
  both directions.
- `numbers.dfy` (`Numbers`): Python's `int()` and `float()` on decimal text,
  `int()` on a float, and `round(x, 2)`.
- `json.dfy` (`Json`): decoded JSON values, dict subscripting and `.get`, and
  `int()`/`float()` applied to decoded values.
  - The text codec (`json.loads`, `json.dumps`) is a parameter, `JsonLib`.
  - What the model relies on about it is the predicate `Faithful`: `dumps`
    writes no raw line feed, `loads` only produces loadable values, and `loads`
    reads back what `dumps` wrote of a loadable value.
  - A value is loadable (`Loadable`) when every float in it is a finite
    decimal and no object in it binds a key twice.
- `reference_codec.dfy` (`ReferenceCodec`): a small line-free text format
  with its writer and reader. It shows that a codec meeting `Faithful`
  exists, so the lemmas that assume it are not vacuous. It is not a model of
  Python's `json` module and has no rows under "## Model".
- `transformation.dfy` (`TransformationLayer`): the per-record
  classification, the outcome, the batch, and the handler's loop as a method.
- `properties.dfy` (`TransformationProperties`): the guarantees of the
  transform. They are stated against readings of the envelope (`Envelope`,
  `EventName`, `NewImage`, `Field`, `ImageComplete`, `Expected`). These
  readings perform the same lookups and conversions as the handler, written
  as flat conditions on the document rather than as its sequence of steps
  that stop at the first failure.
- `worked_examples.dfy` (`TransformationExamples`): the end-to-end INSERT of
  order 4821, and the rounding of 12.345 × 3.

Modelling choices:

- Floats are exact `real`s.
  - `float(s)` is the exact value of the decimal text.
  - `round(x, 2)` gives the nearest hundredth, ties to the even neighbour.
    This is Python's rule applied to the exact value. So 12.345 × 3 = 37.035
    rounds to 37.04, and 499.99 × 2 = 999.98.
- Attribute values are not type-checked:
  - Attributes read under `S` are copied as they are, whatever JSON value they
    hold. The handler never checks that they are strings, so `{"S": 5}`
    flattens to `5`.
  - `int()` and `float()` accept JSON numbers and booleans as well as numeric
    text, as Python does. In the model an `N` attribute fails when it is null,
    a list or a dict, or text that does not parse. Python also fails on a few
    oversized numbers that the model accepts; these are listed under
    "Left out".
- `float()` of text is split in two: `ParseFloat` handles the surrounding
  whitespace and the sign, and `ParseDecimal` reads the unsigned digits,
  point and exponent.
- A document that is valid JSON but not an object fails at `data.get` (Python
  raises `AttributeError`). It is therefore `ProcessingFailed`, not `Dropped`,
  whatever it contains.
- Which exception occurred is recorded as a `Fault` inside `Verdict`. Like the
  code, which only logs it, the outcome does not carry it.

## Model

| member | source | states |
|---|---|---|
| TransformationLayer.LambdaHandler | transformation_layer.py:4-57 | the handler returns one outcome per input record, in input order, and outcome i is the outcome of record i on its own |
| TransformationLayer.HandleRecord | transformation_layer.py:8-55 | one pass of the loop: the try block, the filter's `continue` and the catch-all `except` together yield exactly the outcome that `ProcessRecord` assigns to the record |
| TransformationLayer.Transform | transformation_layer.py:5-7 | the outcome batch has the input's length, and the `recordId` at each position is the input's |
| TransformationLayer.ProcessRecord | transformation_layer.py:16-55 | every outcome echoes the record's `recordId` |
| TransformationLayer.Classify | transformation_layer.py:10-36 | a payload fails as base64 exactly when it does not decode; only a payload that decodes and parses to an object is filtered or transformed; a transformed record's event type is INSERT or MODIFY |
| TransformationLayer.IsTracked | transformation_layer.py:15 | only a string names a tracked event, so an absent `eventName` (null) is never tracked |
| TransformationLayer.Flatten | transformation_layer.py:24 | an envelope without `dynamodb` fails with that missing key; every failure is a missing key or a bad number; a success comes from a dict and carries the envelope's event type |
| TransformationLayer.BuildRecord | transformation_layer.py:25-36 | an image that is not a dict fails at `orderid`; every failure is a missing key or a bad number; a built record carries the event type, and its total is the rounded product of its own price and quantity |
| TransformationLayer.TotalPrice | transformation_layer.py:35 | the total is a whole number of cents within half a cent of price times quantity |
| TransformationLayer.RecordText | transformation_layer.py:39 | the text is the serialised record followed by one line feed, and with a faithful codec that line feed is its only one |
| TransformationLayer.EncodeRecord | transformation_layer.py:39-40 | the payload is valid base64 text of a length divisible by four, and decodes to the UTF-8 octets of the record's text |
| TransformationLayer.ToJson | transformation_layer.py:25-36 | the serialised record is a JSON object with exactly the ten business-record keys, in the order of the dict literal |
| TransformationProperties.PassThrough | transformation_layer.py:43-55 | an outcome is `Ok` exactly when the payload classifies as transformed; every `Dropped` and `ProcessingFailed` outcome carries the input payload unchanged |
| TransformationProperties.DroppedIff | transformation_layer.py:14-21 | a record is `Dropped` exactly when its payload decodes and parses to an object whose `eventName` (null when absent) is neither INSERT nor MODIFY; the input payload is then passed through |
| TransformationProperties.UnreadableFails | transformation_layer.py:10-14 | a payload that is not base64, not JSON, or not a JSON object gives `ProcessingFailed` with the input payload, before any filtering |
| TransformationProperties.IncompleteImageFails | transformation_layer.py:24-35 | a tracked envelope whose `NewImage` is missing, lacks a required attribute under its tag, or has an unparsable quantity or price gives `ProcessingFailed` with the input payload |
| TransformationProperties.OkIff | transformation_layer.py:10-47 | a record is `Ok` exactly when its payload decodes to an object with a tracked event and a complete new image |
| TransformationProperties.OkFieldMapping | transformation_layer.py:25-36 | in an `Ok` record the event type is the envelope's (INSERT or MODIFY) and every field is the one the new image describes: `S` values verbatim, `timestamp` as `order_timestamp`, parsed quantity and price, and the total as the rounded product |
| TransformationProperties.FlattenSpec | transformation_layer.py:24-36 | flattening succeeds exactly when `dynamodb.NewImage` exists and is complete, and then yields the record it describes |
| TransformationProperties.BuildRecordSucceeds | transformation_layer.py:25-36 | building the record from an image succeeds exactly when every required attribute is present under its tag and both numbers convert |
| TransformationProperties.BuildRecordValue | transformation_layer.py:25-36 | a complete image builds exactly the record it describes |
| TransformationProperties.OkPayloadDecodes | transformation_layer.py:39-46 | the payload of an `Ok` record base64-decodes to the UTF-8 encoding of the serialised record plus a line feed, and UTF-8-decodes back to that text |
| TransformationProperties.OkPayloadIsOneJsonLine | transformation_layer.py:39-40 | with a faithful JSON codec, the decoded text of an `Ok` record ends in a line feed, has no other line feed, and parses back to the business record with exactly its ten keys |
| TransformationProperties.RecordLoadable | transformation_layer.py:24-36 | with a faithful codec, the record of an `Ok` outcome is loadable: its attributes come from a loaded document, its price is a finite decimal, its total a whole number of cents, and its ten keys are distinct |
| TransformationProperties.OkPayloadOctets | transformation_layer.py:39-40 | with a faithful JSON codec, the octets of an `Ok` payload end in the line-feed octet 0x0A and contain no other |
| TransformationProperties.RecordHasNoEventName | transformation_layer.py:25-36 | a serialised business record has no `eventName` key |
| TransformationProperties.ReprocessOk | transformation_layer.py:14-21 | with a faithful JSON codec, feeding an `Ok` outcome back in drops it, so the transform is never applied twice |
| TransformationProperties.ReprocessNotOk | transformation_layer.py:49-55 | feeding a `Dropped` or `ProcessingFailed` outcome back in reproduces it |
| TransformationProperties.Isolation | transformation_layer.py:7-55 | the outcome at a position depends only on the record at that position, not on the rest of the batch |
| TransformationProperties.TransformConcat | transformation_layer.py:5-57 | transforming a concatenated batch gives the concatenation of the parts' outcomes |
| Base64.Encode | transformation_layer.py:40 | `b64encode` gives four characters per started group of three octets, all from the alphabet or `=` |
| Base64.Decode | transformation_layer.py:10 | text that decodes has a length that is a multiple of four, and yields between 3n−2 and 3n octets for n groups |
| Base64.ValueOf | transformation_layer.py:10 | a character has a six-bit value exactly when it is in the alphabet, and `CharOf` maps that value back to it |
| Base64.CharOf | transformation_layer.py:40 | each six-bit value maps to an alphabet character, never the pad |
| Base64.DecodeEncodeGroup | transformation_layer.py:40 | a full group of three octets decodes back from its four characters |
| Base64.DecodeEncode | transformation_layer.py:40 | decoding inverts encoding for every octet string |
| Utf8.Encode | transformation_layer.py:40 | `encode('utf-8')` gives between one and four octets per character |
| Utf8.Decode | transformation_layer.py:40 | decoded text has no more characters than the octets it came from |
| Utf8.EncodeChar | transformation_layer.py:40 | a scalar value takes one to four octets, one exactly for ASCII (the octet is the code point), otherwise a lead octet followed by continuation octets |
| Utf8.DecodeEncode | transformation_layer.py:40 | strict decoding inverts `encode('utf-8')` for every string |
| Utf8.EncodeDecode | transformation_layer.py:40 | whatever the strict decoder accepts re-encodes to exactly the same octets |
| Utf8.EncodeAppend | transformation_layer.py:39-40 | encoding distributes over concatenation |
| Utf8.NewlineOctet | transformation_layer.py:39-40 | octet 0x0A occurs in the encoding exactly when the text has a line feed |
| Json.Lookup | transformation_layer.py:24 | a dict subscript finds a value exactly when the key is bound, and then the value of its last binding |
| Json.LookupLast | transformation_layer.py:24 | the binding found is the last one for the key |
| Json.Subscript | transformation_layer.py:24 | only a dict can be subscripted by a key |
| Json.Get | transformation_layer.py:14 | `.get` succeeds exactly on a dict, gives null for a missing key, and agrees with subscripting where that succeeds |
| Json.SubscriptLoadable | transformation_layer.py:24 | a value found by subscripting a loadable dict is loadable |
| Json.ToInt | transformation_layer.py:28 | `int()` raises on null, lists and dicts, succeeds on numbers and booleans, keeps an integer, and moves a float by less than one |
| Json.ToFloat | transformation_layer.py:29 | `float()` raises on null, lists and dicts, succeeds on numbers and booleans, keeps an integer's value, and gives a finite decimal on a loadable value |
| Json.ToFloatAgreesWithToInt | transformation_layer.py:28-29 | every value `int()` accepts, `float()` accepts, and the two agree except on floats, which `int()` truncates |
| Numbers.ParseIntShowInt | transformation_layer.py:28 | `int()` parses the canonical decimal text of every integer back to that integer |
| Numbers.ParseInt | transformation_layer.py:28 | `int()` of text succeeds exactly when the stripped text is an optional sign and at least one digit, and a negative result had a minus sign |
| Numbers.ParseFloat | transformation_layer.py:29 | every value `float()` reads from text is a finite decimal |
| Numbers.ParseFloatFraction | transformation_layer.py:29 | `float("w.ds")` is the whole part plus the digits after the point, divided by ten to the number of those digits |
| Numbers.ParseFloatOfInteger | transformation_layer.py:29 | on text `int()` accepts, `float()` gives the same value |
| Numbers.TruncateTowardZero | transformation_layer.py:28 | `int()` of a float drops the fraction toward zero: the result has the float's sign and lies within one of it, on zero's side |
| Numbers.Strip | transformation_layer.py:28-29 | the text parsed is a contiguous piece of the input with only whitespace around it, and it neither starts nor ends with whitespace |
| Numbers.RoundHalfEven | transformation_layer.py:35 | the integer chosen is within one half of the value, and at an exact half it is even |
| Numbers.RoundHalfEvenNearest | transformation_layer.py:35 | no integer is strictly closer to the value than the one chosen |
| Numbers.Round2 | transformation_layer.py:35 | `round(x, 2)` is a whole number of hundredths within half a hundredth of x |
| Numbers.Round2Nearest | transformation_layer.py:35 | no whole number of hundredths is strictly closer to x, and at an exact tie the even neighbour is chosen |
| Numbers.Round2Idempotent | transformation_layer.py:35 | rounding a rounded total changes nothing |
| TransformationExamples.ExampleFlattens | transformation_layer.py:24-36 | the INSERT of two laptops at 499.99 flattens to the record with total 999.98 and event type INSERT |
| TransformationExamples.ExampleIsOk | transformation_layer.py:10-47 | a record carrying that envelope comes out `Ok` with the record serialised, followed by a line feed, and encoded |
| TransformationExamples.ParsePriceExample | transformation_layer.py:29 | `float("499.99")` is 499.99 |
| TransformationExamples.ParseQuantityExample | transformation_layer.py:28 | `int("2")` is 2 |
| TransformationExamples.ExampleTotal | transformation_layer.py:35 | `round(499.99 * 2, 2)` is 999.98 |
| TransformationExamples.ReferenceCodecExample | transformation_layer.py:10-47 | the reference codec is faithful and, under it, a record carrying the example envelope comes out `Ok`, so both assumptions can hold together |
| TransformationExamples.RoundingExample | transformation_layer.py:35 | `round(12.345 * 3, 2)` is 37.04: the exact product 37.035 is a tie, which goes to the even neighbour |

## Left out

- `mock_data_generator.py`: it generates test traffic against the table and is not part of the transform.
- `json.loads` and `json.dumps`: their internals are not modelled. They are the two functions of a `JsonLib` parameter. The lemmas about the `Ok` payload's text assume `Faithful`: no raw line feed in `dumps` output, only loadable values from `loads`, and `loads` reads back what `dumps` wrote of a loadable value. How `dumps` formats floats is left abstract. Python's codec meets `Faithful` only on values whose floats are binary doubles and whose integers have at most 4300 digits. `json.loads` reads a float back as the nearest double, and since Python 3.11 both functions raise `ValueError` on an integer of more than 4300 digits. Texts spelling `NaN`, `Infinity` or a number beyond the float range have no value in this model at all.
- Binary floating point: `price` and `total_price` are exact reals. Rounding a binary double can differ from rounding the exact decimal product (Python's `round(2.675, 2)` is 2.67). Infinities, NaN and negative zero are not represented. The exceptions Python raises when an integer is too large for a float are listed below.
- TransformationProperties.OkPayloadIsOneJsonLine: its parse-back clause holds for any codec that meets `Faithful`. The model's prices are exact decimals such as 499.99, which are not binary doubles. So for Python's `json` the clause holds only up to the binary rounding admitted on the line above, and only for integers of at most 4300 digits. For Python, rounding changes only the float values, so the decoded text is still one line holding the ten keys.
- Lenient base64 decoding: `b64decode` without `validate=True` discards characters outside the alphabet and ignores data after the padding. The model's decoder is strict, so payloads of that kind fail where Python would accept them.
- Numbers.ParseInt: Python's `int()` also accepts underscores between digits and non-ASCII digits and whitespace. The model accepts ASCII text only. Since Python 3.11, `int()` also raises `ValueError` on text of more than 4300 digits. The model parses text of any length.
- Numbers.ParseFloat: Python's `float()` also accepts underscores, non-ASCII digits, non-ASCII whitespace around the number (such as U+00A0), `inf`, `nan` and `infinity`. The model accepts decimal text with an optional exponent only.
- Json.ToFloat: Python's `float()` of a JSON integer beyond the float range (about 1.8 × 10^308) raises `OverflowError`. The model gives the exact value.
- TransformationLayer.TotalPrice: `float * int` raises `OverflowError` when the quantity is beyond the float range. The model multiplies exactly.
- TransformationProperties.OkIff: its "exactly when" counts a record as `Ok` when both numbers convert in the model. Python makes three more inputs `ProcessingFailed`: a quantity text of more than 4300 digits, a JSON integer price beyond the float range, and a quantity beyond the float range in the product.
- Lone surrogates in strings: a Dafny `char` is a Unicode scalar value, so text that `encode('utf-8')` would reject cannot be written. `json.dumps` escapes non-ASCII text by default anyway.
- The `print` at line 50 that logs the exception: it is an observability side effect. The fault is kept inside `Verdict` but does not reach the output.
- The `context` argument: it is unused by the handler.
- The `{'records': output}` wrapper: the handler's result is the outcome sequence itself.
- Caller-contract violations: an `event` without `records`, or a record without `recordId` or `data`, would make the handler raise outside the `try` block (or inside its `except`). The `RawRecord` type makes such inputs unrepresentable.
- The serialisation step cannot raise: `dumps` is a total function of the record, and every Dafny string has a UTF-8 encoding. So no `ProcessingFailed` outcome arises after flattening succeeds.
- TransformationLayer.ProcessRecord: its own contract only echoes the `recordId`. The pass-through and `Ok` conditions are stated by `PassThrough`, `DroppedIff` and `OkIff`.
