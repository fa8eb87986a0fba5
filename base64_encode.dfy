/**
 * The Pig user-defined function com.github.christiangda.pig.url.Base64Encode:
 * exec maps one input tuple to null, to a string, or to an error, and
 * getArgToFuncMapping declares the one-chararray signature it accepts.
 */
module Base64Encode {
  import opened Wrappers
  import opened Bytes
  import Utf8
  import Base64

  /** Pig's type tags, as DataType names them. */
  datatype PigType =
    | NullType | BooleanType | ByteType | IntegerType | LongType | FloatType | DoubleType
    | DateTimeType | ByteArrayType | CharArrayType | BigIntegerType | BigDecimalType
    | MapType | InternalMapType | TupleType | BagType | GenericWritableComparableType
    | ErrorType

  type int8 = x: int | -0x80 <= x < 0x80
  type int32 = x: int | -0x8000_0000 <= x < 0x8000_0000
  type int64 = x: int | -0x8000_0000_0000_0000 <= x < 0x8000_0000_0000_0000

  /**
   * One field of a tuple, by its runtime class. A String also records
   * whether it is the very object the literal "" denotes in the UDF's code
   * (interned): Java's == on objects compares references, not contents.
   * The flag only matters when s is empty; for any other string it is ignored.
   */
  datatype Datum =
    | Absent                                  // Java null
    | Str(s: string, interned: bool)          // java.lang.String
    | Boolean(b: bool)
    | Byte(v: int8)
    | Integer(i: int32)
    | Long(l: int64)
    | Float(f: real)
    | Double(d: real)
    | DateTime(millis: int64)
    | ByteArray(bytes: seq<byte>)
    | BigInteger(n: int)
    | BigDecimal(r: real)
    | MapValue(entries: seq<(string, Datum)>)
    | InternalMap(pairs: seq<(Datum, Datum)>)
    | TupleValue(items: seq<Datum>)
    | Bag(tuples: seq<seq<Datum>>)
    | Writable                                // a Hadoop WritableComparable
    | Other                                   // an object of any other class

  /** The Pig type of a field, as DataType.findType classifies its class. */
  function TypeOf(d: Datum): (t: PigType)
    ensures t == CharArrayType <==> d.Str?
    ensures t == NullType <==> d.Absent?
    ensures t == ErrorType <==> d.Other?
  {
    match d
    case Absent => NullType
    case Str(_, _) => CharArrayType
    case Boolean(_) => BooleanType
    case Byte(_) => ByteType
    case Integer(_) => IntegerType
    case Long(_) => LongType
    case Float(_) => FloatType
    case Double(_) => DoubleType
    case DateTime(_) => DateTimeType
    case ByteArray(_) => ByteArrayType
    case BigInteger(_) => BigIntegerType
    case BigDecimal(_) => BigDecimalType
    case MapValue(_) => MapType
    case InternalMap(_) => InternalMapType
    case TupleValue(_) => TupleType
    case Bag(_) => BagType
    case Writable => GenericWritableComparableType
    case Other => ErrorType
  }

  /** What exec does with one tuple: return null, return a string, or throw. */
  datatype ExecResult = Null | Ok(value: string) | Err(message: string)

  const ArityMessage: string := "Wrong number of arguments > 1"
  const TypeMessagePrefix: string := "Invalid data type for argument "

  /** `input.get(0) == ""`: true only for the String object that the literal "" denotes. */
  predicate IsEmptyLiteral(d: Datum): (r: bool)
    ensures r ==> TypeOf(d) == CharArrayType && d.s == ""
    ensures d.Str? && !d.interned ==> !r
  {
    d.Str? && d.s == "" && d.interned
  }

  /** The first test of exec: no tuple, an empty tuple, or a null first field. */
  predicate NoInput(input: Option<seq<Datum>>): (r: bool)
    ensures !r ==> input.Some? && |input.value| >= 1 && !input.value[0].Absent?
  {
    input.None? || |input.value| == 0 || input.value[0].Absent?
  }

  /**
   * exec. The tuple is None for a null Tuple reference. typeName stands for
   * DataType.findTypeName, a lookup table of the host.
   */
  function Exec(input: Option<seq<Datum>>, typeName: PigType -> string): (r: ExecResult)
    ensures r.Null? <==> NoInput(input)
    ensures r.Err? ==>
      || r.message == ArityMessage
      || (|TypeMessagePrefix| <= |r.message| && r.message[..|TypeMessagePrefix|] == TypeMessagePrefix)
  {
    if NoInput(input) then Null
    else
      var fields := input.value;
      if IsEmptyLiteral(fields[0]) then Ok(fields[0].s)
      else if |fields| > 1 then Err(ArityMessage)
      else if fields[0].Str? then Ok(Base64.Encode(Utf8.Encode(fields[0].s)))
      else Err(TypeMessagePrefix + typeName(TypeOf(fields[0])))
  }

  // ---------------------------------------------------------------------
  // The declared signature

  /** A field of a schema: its alias (null in Java when absent) and its type. */
  datatype FieldSchema = FieldSchema(alias: Option<string>, fieldType: PigType)

  /** A function specification: the implementing class and its input schema. */
  datatype FuncSpec = FuncSpec(className: string, inputSchema: seq<FieldSchema>)

  /** The input schema the UDF declares: one unnamed chararray. */
  function Signature(): (r: seq<FieldSchema>)
    ensures |r| == 1 && r[0].alias.None? && r[0].fieldType == CharArrayType
  {
    [FieldSchema(None, CharArrayType)]
  }

  /**
   * getArgToFuncMapping. className stands for this.getClass().getName().
   */
  method GetArgToFuncMapping(className: string) returns (funcList: seq<FuncSpec>)
    ensures |funcList| == 1
    ensures funcList[0].className == className
    ensures funcList[0].inputSchema == Signature()
    ensures |funcList[0].inputSchema| == 1
    ensures funcList[0].inputSchema[0].alias.None?
    ensures funcList[0].inputSchema[0].fieldType == CharArrayType
  {
    funcList := [];
    funcList := funcList + [FuncSpec(className, Signature())];
  }

  /** A tuple whose fields match a schema exactly: same arity, each field null or of the declared type. */
  predicate Conforms(schema: seq<FieldSchema>, fields: seq<Datum>)
  {
    && |fields| == |schema|
    && forall i :: 0 <= i < |fields| ==> fields[i].Absent? || TypeOf(fields[i]) == schema[i].fieldType
  }

  // ---------------------------------------------------------------------
  // The order of the tests in exec

  /** A null tuple, an empty tuple or a null first field gives null, never an error. */
  lemma NoInputIsNull(input: Option<seq<Datum>>, typeName: PigType -> string)
    requires NoInput(input)
    ensures Exec(input, typeName) == Null
  {
  }

  /** The literal "" in the first field is passed through, however many fields follow it. */
  lemma EmptyLiteralPassesThrough(fields: seq<Datum>, typeName: PigType -> string)
    requires |fields| >= 1 && fields[0] == Str("", true)
    ensures Exec(Some(fields), typeName) == Ok("")
  {
  }

  /** More than one field is an arity error, whatever the type of the first field. */
  lemma ArityCheckedBeforeType(fields: seq<Datum>, typeName: PigType -> string)
    requires |fields| > 1 && !fields[0].Absent? && !IsEmptyLiteral(fields[0])
    ensures Exec(Some(fields), typeName) == Err(ArityMessage)
  {
  }

  /** A single field that is not a String is a type error naming its type. */
  lemma NonStringIsTypeError(d: Datum, typeName: PigType -> string)
    requires !d.Absent? && !d.Str?
    ensures Exec(Some([d]), typeName) == Err(TypeMessagePrefix + typeName(TypeOf(d)))
  {
  }

  /** A single String field that is not the literal "" is Base64 of its UTF-8 bytes. */
  lemma StringIsEncoded(s: string, interned: bool, typeName: PigType -> string)
    requires !(s == "" && interned)
    ensures Exec(Some([Str(s, interned)]), typeName) == Ok(Base64.Encode(Utf8.Encode(s)))
  {
  }

  /**
   * An empty String that is not the literal object fails the identity test:
   * alone it still gives "" (the encoding of no bytes), and with more
   * fields after it the call is an arity error.
   */
  lemma ConstructedEmptyString(rest: seq<Datum>, typeName: PigType -> string)
    ensures Exec(Some([Str("", false)]), typeName) == Ok("")
    ensures |rest| > 0 ==> Exec(Some([Str("", false)] + rest), typeName) == Err(ArityMessage)
  {
    assert Utf8.Encode("") == [];
  }

  /**
   * A single String field never gives an error, and what it gives is
   * canonical Base64 that decodes, then UTF-8 decodes, back to the string.
   */
  lemma {:induction false} StringRoundTrip(s: string, interned: bool, typeName: PigType -> string)
    ensures Exec(Some([Str(s, interned)]), typeName).Ok?
    ensures var v := Exec(Some([Str(s, interned)]), typeName).value;
      && Base64.Decode(v) == Some(Utf8.Encode(s))
      && Utf8.Decode(Base64.Decode(v).value) == Some(s)
  {
    Utf8.DecodeEncode(s);
    Base64.DecodeEncode(Utf8.Encode(s));
    if s == "" {
      assert Utf8.Encode(s) == [];
    }
  }

  /**
   * Every string exec returns has the shape of a Base64 encoding of the
   * first field's UTF-8 bytes: 4 characters per started group of 3 bytes,
   * alphabet characters, then the right number of '='.
   */
  lemma {:induction false} ResultShape(fields: seq<Datum>, typeName: PigType -> string)
    requires Exec(Some(fields), typeName).Ok?
    ensures fields[0].Str?
    ensures var v, n := Exec(Some(fields), typeName).value, |Utf8.Encode(fields[0].s)|;
      && |v| == 4 * ((n + 2) / 3)
      && Base64.Padded(v, Base64.PadCount(n))
  {
    var s := fields[0].s;
    Base64.EncodeShape(Utf8.Encode(s));
    if IsEmptyLiteral(fields[0]) {
      assert Utf8.Encode(s) == [];
    }
  }

  /**
   * Apart from the literal "" shortcut, exec fails exactly on the
   * non-null calls that the declared signature does not admit.
   */
  lemma {:induction false} ErrorIffSignatureRejects(fields: seq<Datum>, typeName: PigType -> string)
    requires |fields| > 0 && !fields[0].Absent? && !IsEmptyLiteral(fields[0])
    ensures Exec(Some(fields), typeName).Err? <==> !Conforms(Signature(), fields)
  {
    if |fields| == 1 && !fields[0].Str? {
      assert TypeOf(fields[0]) != CharArrayType;
    }
  }

  // ---------------------------------------------------------------------
  // Worked examples

  lemma HelloBytes()
    ensures Utf8.Encode("hello") == [104, 101, 108, 108, 111]
  {
    assert Utf8.Encode("o") == [111];
    assert Utf8.Encode("lo") == [108, 111];
    assert Utf8.Encode("llo") == [108, 108, 111];
    assert Utf8.Encode("ello") == [101, 108, 108, 111];
  }

  lemma HelloBase64()
    ensures Base64.Encode([104, 101, 108, 108, 111]) == "aGVsbG8="
  {
    var b: seq<byte> := [104, 101, 108, 108, 111];
    assert Base64.EncodeGroup(104, 101, 108) == "aGVs";
    assert Base64.EncodeFinal2(108, 111) == "bG8=";
    assert b[3..] == [108, 111];
    Base64.EncodeUnfold(b);
  }

  lemma ExampleHello(typeName: PigType -> string)
    ensures Exec(Some([Str("hello", false)]), typeName) == Ok("aGVsbG8=")
  {
    HelloBytes();
    HelloBase64();
  }

  lemma ExampleOthers(typeName: PigType -> string)
    ensures Exec(Some([Str("", true)]), typeName) == Ok("")
    ensures Exec(Some([Absent]), typeName) == Null
    ensures Exec(Some([]), typeName) == Null
    ensures Exec(None, typeName) == Null
    ensures Exec(Some([Str("hello", false), Str("world", false)]), typeName) == Err(ArityMessage)
    ensures Exec(Some([Double(3.14)]), typeName) == Err(TypeMessagePrefix + typeName(DoubleType))
    ensures Exec(Some([Byte(1)]), typeName) == Err(TypeMessagePrefix + typeName(ByteType))
    ensures Exec(Some([Other]), typeName) == Err(TypeMessagePrefix + typeName(ErrorType))
  {
  }
}
