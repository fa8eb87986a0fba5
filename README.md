# Base64Encode, modelled in Dafny

`com.github.christiangda.pig.url.Base64Encode` is an Apache Pig user-defined
function. Its `exec` takes one tuple and returns null, the Base64 encoding of
the UTF-8 bytes of the tuple's first field, or throws an `ExecException`.
Its `getArgToFuncMapping` declares that it accepts one unnamed `chararray`.

This project models both operations and the encodings `exec` relies on:

- `wrappers.dfy`, `bytes.dfy`: `Option` (Java null, failed decodes) and the octet type.
- `utf8.dfy` (module `Utf8`): `String.getBytes(UTF-8)` as RFC 3629 section 3
  encoding of Unicode scalar values, with a strict decoder as its specification.
- `base64.dfy` (module `Base64`): the result of Jetty's `B64Code.encode`, that is
  standard Base64 of RFC 4648 section 4 (alphabet `A-Z a-z 0-9 + /`, `=` padding,
  no line breaks), as a recursive function over 3-byte groups, with a strict
  decoder that accepts exactly the canonical encodings.
- `base64_encode.dfy` (module `Base64Encode`): the tuple as
  `Option<seq<Datum>>` (a closed union of Pig's runtime field classes), the
  outcome as `Null | Ok(string) | Err(message)`, `Exec` as the fixed chain of
  tests of the Java method, and `GetArgToFuncMapping` with the signature it builds.

The test `input.get(0) == ""` on line 64 compares references, not contents.
The model follows the code: `Str(s, interned)` records whether the field is
the very object the literal `""` denotes, and only that object takes the
pass-through branch. A content comparison was most likely intended; the
code does not compare contents, and the model keeps the code's behaviour. A constructed empty string alone still gives `""` (the encoding
of no bytes), but followed by more fields it gives the arity error
(`ConstructedEmptyString`).

## Model

| member | source | states |
|---|---|---|
| `Base64Encode.Exec` | src/main/java/com/github/christiangda/pig/url/Base64Encode.java:56-86 | null is returned exactly when the tuple is null, empty or has a null first field; every error carries either the arity message or the "Invalid data type for argument " prefix |
| `Base64Encode.NoInput` | src/main/java/com/github/christiangda/pig/url/Base64Encode.java:59 | when the first test does not fire, the tuple exists and its field 0 can be read and is non-null |
| `Base64Encode.IsEmptyLiteral` | src/main/java/com/github/christiangda/pig/url/Base64Encode.java:64 | the identity test holds only for an empty String, and never for a String that is not the literal's own object, whatever its contents |
| `Base64Encode.TypeOf` | src/main/java/com/github/christiangda/pig/url/Base64Encode.java:80 | the class-to-tag step of DataType.findType: chararray exactly for String, NULL exactly for null, ERROR exactly for a class Pig does not know |
| `Base64Encode.Signature` | src/main/java/com/github/christiangda/pig/url/Base64Encode.java:91 | the declared schema has exactly one field, with no alias and type chararray |
| `Base64Encode.NoInputIsNull` | src/main/java/com/github/christiangda/pig/url/Base64Encode.java:59-61 | a null tuple, an empty tuple or a null field 0 yields null and never an error |
| `Base64Encode.EmptyLiteralPassesThrough` | src/main/java/com/github/christiangda/pig/url/Base64Encode.java:64-70 | the literal "" in field 0 is returned unchanged however many fields follow, because this test precedes the arity test |
| `Base64Encode.ArityCheckedBeforeType` | src/main/java/com/github/christiangda/pig/url/Base64Encode.java:68-82 | more than one field, with field 0 non-null and not the literal "", is the error "Wrong number of arguments > 1" whatever field 0's type |
| `Base64Encode.NonStringIsTypeError` | src/main/java/com/github/christiangda/pig/url/Base64Encode.java:76-82 | one non-null non-String field is the error "Invalid data type for argument " followed by the name of its type |
| `Base64Encode.StringIsEncoded` | src/main/java/com/github/christiangda/pig/url/Base64Encode.java:76-85 | one String field other than the literal "" gives the Base64 of its UTF-8 bytes |
| `Base64Encode.ConstructedEmptyString` | src/main/java/com/github/christiangda/pig/url/Base64Encode.java:64-85 | an empty String that fails the identity test gives "" when alone and the arity error when more fields follow |
| `Base64Encode.StringRoundTrip` | src/main/java/com/github/christiangda/pig/url/Base64Encode.java:85 | one String field never errors, and the result Base64-decodes and then UTF-8-decodes back to the string |
| `Base64Encode.ResultShape` | src/main/java/com/github/christiangda/pig/url/Base64Encode.java:85 | every string exec returns comes from a String field and has length 4*ceil(n/3) for its n UTF-8 bytes, alphabet characters, then exactly the right number of '=' |
| `Base64Encode.ErrorIffSignatureRejects` | src/main/java/com/github/christiangda/pig/url/Base64Encode.java:59-93 | apart from null input and the literal "", exec errs exactly on the tuples that do not conform to the declared signature |
| `Base64Encode.ExampleHello` | src/main/java/com/github/christiangda/pig/url/Base64Encode.java:85 | the field "hello" gives "aGVsbG8=" |
| `Base64Encode.ExampleOthers` | src/main/java/com/github/christiangda/pig/url/Base64Encode.java:59-82 | [""] gives "", [null], [] and a null tuple give null, ["hello","world"] gives the arity error, [3.14] the type error for double, a Byte field the one for byte and an object of an unknown class the one for ERROR |
| `Base64Encode.GetArgToFuncMapping` | src/main/java/com/github/christiangda/pig/url/Base64Encode.java:89-93 | the list has one entry, for the implementing class, whose schema has exactly one field, unnamed and of type chararray |
| `Base64.Encode` | src/main/java/com/github/christiangda/pig/url/Base64Encode.java:85 | n bytes give 4*ceil(n/3) characters |
| `Base64.EncodeShape` | src/main/java/com/github/christiangda/pig/url/Base64Encode.java:85 | every character is in the 64-character alphabet or is '=', and '=' fills exactly the last 2 (n mod 3 = 1), 1 (n mod 3 = 2) or 0 positions |
| `Base64.DecodeEncode` | src/main/java/com/github/christiangda/pig/url/Base64Encode.java:85 | standard Base64 decoding of the encoding recovers the bytes exactly |
| `Base64.EncodeDecode` | src/main/java/com/github/christiangda/pig/url/Base64Encode.java:85 | every string the strict decoder accepts is the encoding of the bytes it returns |
| `Base64.DecodeIff` | src/main/java/com/github/christiangda/pig/url/Base64Encode.java:85 | decoding s gives b if and only if s is the encoding of b |
| `Base64.EncodeInjective` | src/main/java/com/github/christiangda/pig/url/Base64Encode.java:37-39 | distinct byte sequences have distinct encodings |
| `Base64.Value` | src/main/java/com/github/christiangda/pig/url/Base64Encode.java:85 | the value of an alphabet character is the one the alphabet maps back to that character |
| `Base64.DigitInverse` | src/main/java/com/github/christiangda/pig/url/Base64Encode.java:85 | each 6-bit value maps to an alphabet character other than '=' whose value is itself |
| `Utf8.EncodeScalar` | src/main/java/com/github/christiangda/pig/url/Base64Encode.java:85 | a scalar value takes one to four bytes |
| `Utf8.Encode` | src/main/java/com/github/christiangda/pig/url/Base64Encode.java:85 | a string of n scalar values takes between n and 4n bytes |
| `Utf8.DecodeScalar` | src/main/java/com/github/christiangda/pig/url/Base64Encode.java:85 | a decoded scalar value consumes between one and four of the available bytes |
| `Utf8.DecodeScalarEncode` | src/main/java/com/github/christiangda/pig/url/Base64Encode.java:85 | the encoding of a scalar value, followed by anything, decodes to that value and its length |
| `Utf8.EncodeDecodeScalar` | src/main/java/com/github/christiangda/pig/url/Base64Encode.java:85 | bytes the scalar decoder accepts are the encoding of the value it returns |
| `Utf8.DecodeEncode` | src/main/java/com/github/christiangda/pig/url/Base64Encode.java:85 | decoding the UTF-8 bytes of a string gives the string back |
| `Utf8.EncodeDecode` | src/main/java/com/github/christiangda/pig/url/Base64Encode.java:85 | every byte sequence the strict decoder accepts is the encoding of the string it returns |
| `Utf8.DecodeIff` | src/main/java/com/github/christiangda/pig/url/Base64Encode.java:85 | decoding b gives s if and only if b is the UTF-8 encoding of s |
| `Utf8.EncodeInjective` | src/main/java/com/github/christiangda/pig/url/Base64Encode.java:85 | distinct strings have distinct UTF-8 encodings |
| `Utf8.EncodeAscii` | src/main/java/com/github/christiangda/pig/url/Base64Encode.java:85 | an ASCII string's UTF-8 bytes are its character codes, one byte per character |

## Left out

- Pig host plumbing: `EvalFunc`, the `Tuple` API, `FuncSpec` and `Schema` objects are reduced to the datatypes `Datum`, `FieldSchema` and `FuncSpec`. No `IOException` is raised other than the `ExecException`s modelled as `Err`; `getBytes` with UTF-8 cannot throw `UnsupportedEncodingException`, and `FrontendException` is never raised by the modelled code.
- `ExecException` and `PigException.ERROR`: a thrown error is the outcome `Err(message)`; the severity code is not modelled.
- `DataType.findTypeName`: its name table is a lookup of the host, given to `Exec` as the parameter `typeName`; its exact strings are not modelled. The class-to-tag step inside it (`DataType.findType`) is modelled by `TypeOf` over a closed set of field classes: every class `findType` does not recognise is the single `Datum` constructor `Other`, tagged ERROR.
- `this.getClass().getName()`: given to `GetArgToFuncMapping` as the parameter `className`.
- Java strings are UTF-16; the model's strings are sequences of Unicode scalar values, so unpaired surrogates and their replacement by `getBytes` are not modelled.
- Jetty's `B64Code` internals (buffer sizing, `char[]` allocation): only the RFC 4648 section 4 result is modelled; the decoder exists only as the encoder's specification.
- Payloads of non-String fields (`Float`, `Double`, `BigDecimal` as `real`, integers as bounded ranges) are carried but never inspected; floating-point semantics are not modelled.
- Concurrent invocation by the host: the function keeps no state, so there is nothing to model.
