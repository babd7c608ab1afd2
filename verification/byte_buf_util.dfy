/** ByteBufUtil: the serializer registry and the type-directed binary
    codec. Every value position is a presence byte followed, when the value
    is not null, by the registered serializer's bytes, an array (int count,
    then the elements) or an object (its selected fields in name order).
    Primitive-typed fields and primitive array components are written raw,
    without a presence byte and without consulting the registry. */
module ByteBufUtil {
  import opened Lang
  import opened Buffer
  import Utf8
  import opened Reflect
  import opened StreamUtil
  import opened Fields

  /** A registered (writer, reader) pair. The reader is handed the bytes
      from the cursor on and answers the value and how many bytes it took. */
  datatype Serializer = Serializer(write: Val -> Result<seq<Byte>>, read: seq<Byte> -> Result<(Val, nat)>)

  /** The serializer registry. The static initializer registers the
      built-in serializers and registration only adds or replaces, so their
      keys are always present. */
  type Registry = reg: map<Ty, Serializer> | HasBuiltinKeys(reg) witness BuiltinTable

  /** When s can write v, its reader gives v back from the written bytes
      followed by anything, and consumes exactly the written bytes. */
  ghost predicate ReadsBack(s: Serializer, v: Val, rest: seq<Byte>) {
    s.write(v).Ok? ==> s.read(s.write(v).value + rest) == Ok((v, |s.write(v).value|))
  }

  /** A serializer that reads back everything it writes. */
  ghost predicate Lawful(s: Serializer) {
    forall v, rest :: ReadsBack(s, v, rest)
  }

  ghost predicate LawfulAt(reg: Registry, t: Ty) {
    t in reg ==> Lawful(reg[t])
  }

  /** Every registered serializer reads back what it writes. */
  ghost predicate AllLawful(reg: Registry) {
    forall t :: LawfulAt(reg, t)
  }

  /** The raw fixed-width form of a primitive (ByteBuf.writeBoolean,
      writeByte, writeShort, writeInt, writeLong, writeFloat, writeDouble,
      writeChar). */
  function WritePrim(k: PrimKind, v: Val): (r: Result<seq<Byte>>)
    ensures r.Ok? <==> IsPrimValue(v, k)
    ensures r.Ok? ==> |r.value| == Width(k)
    ensures r.Err? ==> r.error == IllegalArgument
  {
    if !IsPrimValue(v, k) then Err(IllegalArgument)
    else if k == Boolean then Ok([if v.b then 1 else 0])
    else if IsSigned(k) then Ok(WriteSigned(v.n, Width(k)))
    else Ok(ToBigEndian(v.n, Width(k)))
  }

  /** The matching ByteBuf read; readBoolean takes any non-zero byte as true. */
  function ReadPrim(k: PrimKind, bs: seq<Byte>): (r: Result<(Val, nat)>)
    ensures r.Ok? <==> |bs| >= Width(k)
    ensures r.Ok? ==> r.value.1 == Width(k) && IsPrimValue(r.value.0, k)
    ensures r.Err? ==> r.error == IndexOutOfBounds
  {
    var w := Width(k);
    if |bs| < w then Err(IndexOutOfBounds)
    else if k == Boolean then Ok((Bool(bs[0] != 0), 1))
    else if IsSigned(k) then Ok((Num(k, ReadSigned(bs[..w])), w))
    else Ok((Num(k, FromBigEndian(bs[..w])), w))
  }

  lemma ReadWritePrim(k: PrimKind, v: Val, rest: seq<Byte>)
    requires WritePrim(k, v).Ok?
    ensures ReadPrim(k, WritePrim(k, v).value + rest) == Ok((v, Width(k)))
  {
    var w := Width(k);
    var bs := WritePrim(k, v).value + rest;
    assert bs[..w] == WritePrim(k, v).value;
    if k != Boolean {
      if IsSigned(k) {
        ReadWriteSigned(v.n, w);
      } else {
        FromToBigEndian(v.n, w);
      }
    }
  }

  /** Every byte other than zero reads as true, as the presence byte does. */
  lemma ReadBooleanNonZero(b: Byte, rest: seq<Byte>)
    requires b != 0
    ensures ReadPrim(Boolean, [b] + rest) == Ok((Bool(true), 1))
  {
  }

  /** writeString: the int count of UTF-8 bytes (not of chars), then the bytes. */
  function WriteString(v: Val): (r: Result<seq<Byte>>)
    ensures r.Ok? <==> v.Str? && |Utf8.Encode(v.s)| <= IntMax
    ensures r.Ok? ==> |r.value| == 4 + |Utf8.Encode(v.s)|
    ensures r.Ok? ==> ReadInt(r.value) == |Utf8.Encode(v.s)| && r.value[4..] == Utf8.Encode(v.s)
  {
    if !v.Str? then Err(IllegalArgument)
    else
      var data := Utf8.Encode(v.s);
      if |data| > IntMax then Err(IllegalArgument)
      else
        ReadWriteInt(|data|, data);
        Ok(WriteInt(|data|) + data)
  }

  /** readString: an int count, then that many bytes decoded as UTF-8. */
  function ReadString(bs: seq<Byte>): (r: Result<(Val, nat)>)
    ensures r.Ok? ==> r.value.0.Str? && 4 <= r.value.1 <= |bs|
    ensures r.Ok? ==> Utf8.Encode(r.value.0.s) == bs[4..r.value.1]
    ensures r.Ok? ==> r.value.1 == 4 + ReadInt(bs)
    ensures r.Ok? <==>
      (|bs| >= 4 && 0 <= ReadInt(bs) <= |bs| - 4 && Utf8.Decode(bs[4..4 + ReadInt(bs)]).Some?)
    ensures |bs| < 4 || ReadInt(bs) < 0 || |bs| - 4 < ReadInt(bs) ==> r == Err(IndexOutOfBounds)
  {
    if |bs| < 4 then Err(IndexOutOfBounds)
    else
      var n := ReadInt(bs);
      if n < 0 || |bs| - 4 < n then Err(IndexOutOfBounds)
      else match Utf8.Decode(bs[4..4 + n])
        case None => Err(MalformedInput)
        case Some(s) =>
          Utf8.EncodeDecode(bs[4..4 + n]);
          Ok((Str(s), 4 + n))
  }

  lemma ReadWriteString(v: Val, rest: seq<Byte>)
    requires WriteString(v).Ok?
    ensures ReadString(WriteString(v).value + rest) == Ok((v, |WriteString(v).value|))
  {
    var data := Utf8.Encode(v.s);
    var bs := WriteString(v).value + rest;
    ReadWriteInt(|data|, data + rest);
    assert bs == WriteInt(|data|) + (data + rest);
    assert bs[4..4 + |data|] == data;
    Utf8.DecodeEncode(v.s);
  }

  function PrimSerializer(k: PrimKind): Serializer {
    Serializer(v => WritePrim(k, v), bs => ReadPrim(k, bs))
  }

  function StringSerializer(): Serializer {
    Serializer(WriteString, ReadString)
  }

  lemma PrimSerializerLawful(k: PrimKind)
    ensures Lawful(PrimSerializer(k))
  {
    forall v, rest
      ensures ReadsBack(PrimSerializer(k), v, rest)
    {
      if WritePrim(k, v).Ok? {
        ReadWritePrim(k, v, rest);
      }
    }
  }

  lemma StringSerializerLawful()
    ensures Lawful(StringSerializer())
  {
    forall v, rest
      ensures ReadsBack(StringSerializer(), v, rest)
    {
      if WriteString(v).Ok? {
        ReadWriteString(v, rest);
      }
    }
  }

  /** registerSerializer(writer, reader, types...): one serializer for each
      listed type, replacing whatever was registered for it before. */
  function RegisterSerializer(reg: Registry, s: Serializer, types: seq<Ty>): (r: Registry)
    ensures r.Keys == reg.Keys + set t | t in types
    ensures forall t :: t in types ==> r[t] == s
    ensures forall t :: t in reg && t !in types ==> r[t] == reg[t]
    decreases |types|
  {
    if types == [] then reg else RegisterSerializer(reg[types[0] := s], s, types[1..])
  }

  /** The registry as the static initializer leaves it: one serializer per
      primitive kind, shared by the primitive and its wrapper, and one for
      String. */
  const BuiltinTable: map<Ty, Serializer> :=
    map[
      Prim(Boolean) := PrimSerializer(Boolean), Boxed(Boolean) := PrimSerializer(Boolean),
      Prim(Byte) := PrimSerializer(Byte), Boxed(Byte) := PrimSerializer(Byte),
      Prim(Short) := PrimSerializer(Short), Boxed(Short) := PrimSerializer(Short),
      Prim(Int) := PrimSerializer(Int), Boxed(Int) := PrimSerializer(Int),
      Prim(Long) := PrimSerializer(Long), Boxed(Long) := PrimSerializer(Long),
      Prim(Float) := PrimSerializer(Float), Boxed(Float) := PrimSerializer(Float),
      Prim(Double) := PrimSerializer(Double), Boxed(Double) := PrimSerializer(Double),
      Prim(Char) := PrimSerializer(Char), Boxed(Char) := PrimSerializer(Char),
      StringType := StringSerializer()
    ]

  function Builtins(): Registry {
    BuiltinTable
  }

  /** The types the static initializer registers. */
  const BuiltinTypes: set<Ty> :=
    {Prim(Boolean), Boxed(Boolean), Prim(Byte), Boxed(Byte), Prim(Short), Boxed(Short),
     Prim(Int), Boxed(Int), Prim(Long), Boxed(Long), Prim(Float), Boxed(Float),
     Prim(Double), Boxed(Double), Prim(Char), Boxed(Char), StringType}

  /** The registry has the static initializer's keys. */
  predicate HasBuiltinKeys(reg: map<Ty, Serializer>) {
    BuiltinTypes <= reg.Keys
  }

  lemma BuiltinTypesShape(t: Ty)
    ensures t in BuiltinTypes <==> t.Prim? || t.Boxed? || t == StringType
  {
    if t.Prim? || t.Boxed? {
      match t.kind
      case Boolean =>
      case Byte =>
      case Short =>
      case Int =>
      case Long =>
      case Float =>
      case Double =>
      case Char =>
    }
  }

  lemma BuiltinsEntries(k: PrimKind)
    ensures Builtins()[Prim(k)] == PrimSerializer(k) && Builtins()[Boxed(k)] == PrimSerializer(k)
  {
    match k
    case Boolean =>
    case Byte =>
    case Short =>
    case Int =>
    case Long =>
    case Float =>
    case Double =>
    case Char =>
  }

  /** Nothing but the primitives, their wrappers and String is built in,
      and every built-in serializer reads back what it writes. */
  lemma BuiltinsShape()
    ensures Builtins().Keys == BuiltinTypes
    ensures AllLawful(Builtins())
  {
    var b := Builtins();
    forall t
      ensures LawfulAt(b, t)
    {
      if t == StringType {
        StringSerializerLawful();
      } else if t in b {
        BuiltinsEntries(t.kind);
        PrimSerializerLawful(t.kind);
      }
    }
  }

  lemma RegisterKeepsLawful(reg: Registry, s: Serializer, types: seq<Ty>)
    requires AllLawful(reg) && Lawful(s)
    ensures AllLawful(RegisterSerializer(reg, s, types))
  {
    var r := RegisterSerializer(reg, s, types);
    forall t
      ensures LawfulAt(r, t)
    {
      assert LawfulAt(reg, t);
    }
  }

  /** write(type, src, buffer, predicate): the bytes appended to the buffer. */
  function Encode(reg: Registry, fields: Traversal, t: Ty, v: Val): (r: Result<seq<Byte>>)
    ensures v == Null ==> r == Ok([0])
    ensures v != Null && r.Ok? ==> |r.value| >= 1 && r.value[0] == 1
    ensures v != Null && t in reg ==> (r.Ok? <==> reg[t].write(v).Ok?)
    ensures v != Null && t in reg && r.Ok? ==> r.value[1..] == reg[t].write(v).value
    ensures v != Null && t !in reg && t.ArrayOf? && r.Ok? ==>
      v.Arr? && |v.elems| <= IntMax && |r.value| >= 5 && ReadInt(r.value[1..]) == |v.elems|
    decreases v, 1
  {
    if v == Null then Ok([0])
    else if t in reg then
      var payload :- reg[t].write(v);
      Ok([1] + payload)
    else match t
      case ArrayOf(c) =>
        if !v.Arr? || |v.elems| > IntMax then Err(IllegalArgument)
        else
          var body :- EncodeElems(reg, fields, c, v, 0);
          ReadWriteInt(|v.elems|, body);
          assert ([1] + WriteInt(|v.elems|) + body)[1..] == WriteInt(|v.elems|) + body;
          Ok([1] + WriteInt(|v.elems|) + body)
      case ClassType(c) =>
        var fs :- fields(c);
        var body :- EncodeFields(reg, fields, fs, v);
        Ok([1] + body)
      case _ => BuiltinTypesShape(t); assert false; Err(IllegalArgument)
  }

  /** writeComponent: a primitive component raw, any other through write
      with the component type. */
  function EncodeElem(reg: Registry, fields: Traversal, c: Ty, e: Val): Result<seq<Byte>>
    decreases e, 2
  {
    if c.Prim? then WritePrim(c.kind, e) else Encode(reg, fields, c, e)
  }

  /** writeArray's loop over elements i.. of an array with component type c. */
  function EncodeElems(reg: Registry, fields: Traversal, c: Ty, v: Val, i: nat): Result<seq<Byte>>
    requires v.Arr? && i <= |v.elems|
    decreases v, 0, |v.elems| - i
  {
    if i == |v.elems| then Ok([])
    else
      var head :- EncodeElem(reg, fields, c, v.elems[i]);
      var tail :- EncodeElems(reg, fields, c, v, i + 1);
      Ok(head + tail)
  }

  /** writeObject's loop: each field through writeField, under forEachUnchecked. */
  function EncodeFields(reg: Registry, fields: Traversal, fs: seq<Field>, v: Val): Result<seq<Byte>>
    decreases v, 0, |fs|
  {
    if fs == [] then Ok([])
    else match WriteField(reg, fields, fs[0], v)
      case Err(e) => Err(Escape(e, IsReflective))
      case Ok(head) =>
        var tail :- EncodeFields(reg, fields, fs[1..], v);
        Ok(head + tail)
  }

  /** writeField: a primitive field raw, any other through write with the
      field's declared type. */
  function WriteField(reg: Registry, fields: Traversal, f: Field, v: Val): Result<seq<Byte>>
    decreases v, 0, 0
  {
    var x :- GetField(v, f);
    if f.Type().Prim? then WritePrim(f.Type().kind, x) else Encode(reg, fields, f.Type(), x)
  }

  /** A primitive read, as the value and the bytes after it. */
  function ReadRaw(k: PrimKind, bs: seq<Byte>): (r: Result<(Val, seq<Byte>)>)
    ensures r.Ok? ==> |r.value.1| < |bs|
  {
    var p :- ReadPrim(k, bs);
    Ok((p.0, bs[p.1..]))
  }

  /** read(type, dest, buffer, predicate): the value read and the bytes
      after it. Only an object read uses dest; it is filled in place. */
  function Decode(reg: Registry, ct: ClassTable, fields: Traversal, t: Ty, dest: Val, bs: seq<Byte>): (r: Result<(Val, seq<Byte>)>)
    ensures r.Ok? ==> |r.value.1| < |bs|
    ensures |bs| == 0 ==> r == Err(IndexOutOfBounds)
    ensures |bs| > 0 && bs[0] == 0 ==> r == Ok((Null, bs[1..]))
    ensures |bs| > 0 && bs[0] != 0 && t !in reg && t.ArrayOf? ==>
      && (|bs| < 5 ==> r == Err(IndexOutOfBounds))
      && (|bs| >= 5 && ReadInt(bs[1..]) < 0 ==> r == Err(NegativeArraySize(ReadInt(bs[1..]))))
      && (r.Ok? ==> r.value.0.Arr? && r.value.0.comp == t.comp && |r.value.0.elems| == ReadInt(bs[1..]))
    ensures |bs| > 0 && bs[0] != 0 && t !in reg && t.ClassType? && dest.Obj? && r.Ok? ==>
      && fields(t.name).Ok?
      && r.value.0.Obj? && r.value.0.cls == dest.cls && r.value.0.fields.Keys == dest.fields.Keys
      && forall g :: g in dest.fields && g !in fields(t.name).value ==> r.value.0.fields[g] == dest.fields[g]
    decreases |bs|, 0
  {
    if |bs| == 0 then Err(IndexOutOfBounds)
    else if bs[0] == 0 then Ok((Null, bs[1..]))
    else
      var rest := bs[1..];
      if t in reg then
        var p :- reg[t].read(rest);
        if p.1 > |rest| then Err(IndexOutOfBounds) else Ok((p.0, rest[p.1..]))
      else match t
        case ArrayOf(c) =>
          if |rest| < 4 then Err(IndexOutOfBounds)
          else
            var n := ReadInt(rest);
            if n < 0 then Err(NegativeArraySize(n))
            else
              var p :- DecodeElems(reg, ct, fields, c, n, rest[4..]);
              Ok((Arr(c, p.0), p.1))
        case ClassType(c) =>
          var base :- if dest != Null then Ok(dest) else NewInstance(ct, c);
          var fs :- fields(c);
          DecodeFields(reg, ct, fields, fs, base, rest)
        case _ => BuiltinTypesShape(t); assert false; Err(IllegalArgument)
  }

  /** readComponent: a primitive component raw, any other through read
      with the component type and no destination. */
  function DecodeElem(reg: Registry, ct: ClassTable, fields: Traversal, c: Ty, bs: seq<Byte>): (r: Result<(Val, seq<Byte>)>)
    ensures r.Ok? ==> |r.value.1| < |bs|
    decreases |bs|, 1
  {
    if c.Prim? then ReadRaw(c.kind, bs) else Decode(reg, ct, fields, c, Null, bs)
  }

  /** readArray's loop over count elements. */
  function DecodeElems(reg: Registry, ct: ClassTable, fields: Traversal, c: Ty, count: nat, bs: seq<Byte>): (r: Result<(seq<Val>, seq<Byte>)>)
    ensures r.Ok? ==> |r.value.0| == count && |r.value.1| <= |bs|
    decreases |bs|, 2, count
  {
    if count == 0 then Ok(([], bs))
    else
      var p :- DecodeElem(reg, ct, fields, c, bs);
      var q :- DecodeElems(reg, ct, fields, c, count - 1, p.1);
      Ok(([p.0] + q.0, q.1))
  }

  /** readObject's loop: each field through readField, under forEachUnchecked.
      The object keeps its class and its fields, and those not in fs keep
      their values. */
  function DecodeFields(reg: Registry, ct: ClassTable, fields: Traversal, fs: seq<Field>, obj: Val, bs: seq<Byte>): (r: Result<(Val, seq<Byte>)>)
    ensures r.Ok? ==> |r.value.1| <= |bs|
    ensures fs == [] ==> r == Ok((obj, bs))
    ensures r.Ok? && obj.Obj? ==>
      && r.value.0.Obj? && r.value.0.cls == obj.cls && r.value.0.fields.Keys == obj.fields.Keys
      && forall g :: g in obj.fields && g !in fs ==> r.value.0.fields[g] == obj.fields[g]
    ensures r.Err? ==> IsReflective(r.error) || r.error.UnknownException?
    decreases |bs|, 2, |fs|
  {
    if fs == [] then Ok((obj, bs))
    else match ReadField(reg, ct, fields, fs[0], obj, bs)
      case Err(e) => Err(Escape(e, IsReflective))
      case Ok(p) => DecodeFields(reg, ct, fields, fs[1..], p.0, p.1)
  }

  /** readField: a primitive field raw, any other through read with the
      field's current value as destination. */
  function ReadField(reg: Registry, ct: ClassTable, fields: Traversal, f: Field, obj: Val, bs: seq<Byte>): (r: Result<(Val, seq<Byte>)>)
    ensures r.Ok? ==> |r.value.1| < |bs|
    ensures r.Ok? ==> obj.Obj? && f in obj.fields && r.value.0.Obj?
    ensures r.Ok? ==> r.value.0.cls == obj.cls && r.value.0.fields.Keys == obj.fields.Keys
    ensures r.Ok? ==> forall g :: g in obj.fields && g != f ==> r.value.0.fields[g] == obj.fields[g]
    ensures r.Ok? && f.Type().Prim? ==> ReadRaw(f.Type().kind, bs) == Ok((r.value.0.fields[f], r.value.1))
    ensures r.Ok? && !f.Type().Prim? ==> Decode(reg, ct, fields, f.Type(), obj.fields[f], bs) == Ok((r.value.0.fields[f], r.value.1))
    decreases |bs|, 1
  {
    if f.Type().Prim? then
      var p :- ReadRaw(f.Type().kind, bs);
      var obj' :- SetField(obj, f, p.0);
      Ok((obj', p.1))
    else
      var cur :- GetField(obj, f);
      var p :- Decode(reg, ct, fields, f.Type(), cur, bs);
      // the get above has shown f to be a field of obj, so this set succeeds
      match SetField(obj, f, p.0)
        case Ok(obj') => Ok((obj', p.1))
        case Err(e) => Err(e)
  }

  /** A primitive field or array component is written and read raw,
      whatever the registry holds. */
  lemma PrimitivesIgnoreRegistry(reg1: Registry, reg2: Registry, ct: ClassTable, fields: Traversal, f: Field, k: PrimKind, v: Val, bs: seq<Byte>)
    ensures f.Type().Prim? ==> WriteField(reg1, fields, f, v) == WriteField(reg2, fields, f, v)
    ensures f.Type().Prim? ==> ReadField(reg1, ct, fields, f, v, bs) == ReadField(reg2, ct, fields, f, v, bs)
    ensures EncodeElem(reg1, fields, Prim(k), v) == WritePrim(k, v) == EncodeElem(reg2, fields, Prim(k), v)
    ensures DecodeElem(reg1, ct, fields, Prim(k), bs) == ReadRaw(k, bs) == DecodeElem(reg2, ct, fields, Prim(k), bs)
  {
  }

  /** readArray reads every element with the component type and no
      destination: element j is what such a read gives where the bytes of
      the elements before it end. */
  lemma {:induction false} DecodeElemsEach(reg: Registry, ct: ClassTable, fields: Traversal, c: Ty, count: nat, bs: seq<Byte>, j: nat)
    requires DecodeElems(reg, ct, fields, c, count, bs).Ok? && j < count
    ensures DecodeElems(reg, ct, fields, c, j, bs).Ok?
    ensures DecodeElem(reg, ct, fields, c, DecodeElems(reg, ct, fields, c, j, bs).value.1).Ok?
    ensures DecodeElem(reg, ct, fields, c, DecodeElems(reg, ct, fields, c, j, bs).value.1).value.0
         == DecodeElems(reg, ct, fields, c, count, bs).value.0[j]
    ensures c.Prim? ==> ReadRaw(c.kind, DecodeElems(reg, ct, fields, c, j, bs).value.1).Ok?
    ensures !c.Prim? ==> Decode(reg, ct, fields, c, Null, DecodeElems(reg, ct, fields, c, j, bs).value.1).Ok?
    decreases j
  {
    var p := DecodeElem(reg, ct, fields, c, bs).value;
    var q := DecodeElems(reg, ct, fields, c, count - 1, p.1).value;
    assert DecodeElems(reg, ct, fields, c, count, bs).value.0 == [p.0] + q.0;
    if j > 0 {
      DecodeElemsEach(reg, ct, fields, c, count - 1, p.1, j - 1);
      var h := DecodeElems(reg, ct, fields, c, j - 1, p.1).value;
      assert DecodeElems(reg, ct, fields, c, j, bs) == Ok(([p.0] + h.0, h.1));
    }
  }

  /** An array read ignores the destination: arrays are always read fresh,
      by readArray or by the array type's serializer. */
  lemma DecodeArrayIgnoresDest(reg: Registry, ct: ClassTable, fields: Traversal, c: Ty, d1: Val, d2: Val, bs: seq<Byte>)
    ensures Decode(reg, ct, fields, ArrayOf(c), d1, bs) == Decode(reg, ct, fields, ArrayOf(c), d2, bs)
  {
  }

  /** One step of writeObject's forEachUnchecked loop: the field's bytes
      appended to what is already written. */
  function WriteStep(reg: Registry, fields: Traversal, v: Val): (seq<Byte>, Field) -> Result<seq<Byte>> {
    (acc: seq<Byte>, f: Field) => match WriteField(reg, fields, f, v)
      case Ok(b) => Ok(acc + b)
      case Err(e) => Err(e)
  }

  /** writeObject's field loop is forEachUnchecked over the fields with
      WriteStep, starting from what the buffer already holds. */
  lemma {:induction false} EncodeFieldsLoop(reg: Registry, fields: Traversal, fs: seq<Field>, v: Val, acc: seq<Byte>)
    ensures ForEachUnchecked(fs, acc, WriteStep(reg, fields, v), IsReflective)
         == match EncodeFields(reg, fields, fs, v)
            case Ok(b) => Ok(acc + b)
            case Err(e) => Err(e)
  {
    if fs != [] {
      match WriteField(reg, fields, fs[0], v)
      case Err(e) =>
      case Ok(head) =>
        EncodeFieldsLoop(reg, fields, fs[1..], v, acc + head);
        if EncodeFields(reg, fields, fs[1..], v).Ok? {
          assert acc + head + EncodeFields(reg, fields, fs[1..], v).value
              == acc + (head + EncodeFields(reg, fields, fs[1..], v).value);
        }
    } else {
      assert acc + [] == acc;
    }
  }

  /** One step of readObject's forEachUnchecked loop: the object and the
      unread bytes after the field is read into it. */
  function ReadStep(reg: Registry, ct: ClassTable, fields: Traversal): ((Val, seq<Byte>), Field) -> Result<(Val, seq<Byte>)> {
    (st: (Val, seq<Byte>), f: Field) => ReadField(reg, ct, fields, f, st.0, st.1)
  }

  /** readObject's field loop is forEachUnchecked over the fields with ReadStep. */
  lemma {:induction false} DecodeFieldsLoop(reg: Registry, ct: ClassTable, fields: Traversal, fs: seq<Field>, obj: Val, bs: seq<Byte>)
    ensures ForEachUnchecked(fs, (obj, bs), ReadStep(reg, ct, fields), IsReflective) == DecodeFields(reg, ct, fields, fs, obj, bs)
    decreases |fs|
  {
    if fs != [] {
      match ReadField(reg, ct, fields, fs[0], obj, bs)
      case Err(e) =>
      case Ok(p) => DecodeFieldsLoop(reg, ct, fields, fs[1..], p.0, p.1);
    }
  }

  /** write(src, buffer, predicate): null is a single false byte, anything
      else is written as its runtime class. */
  function Write(reg: Registry, ct: ClassTable, src: Val, sel: Option<Field -> bool>): (r: Result<seq<Byte>>)
    ensures src == Null ==> r == Ok([0])
    ensures src != Null ==> r == Encode(reg, StreamFields(ct, sel), RuntimeType(src), src)
    ensures r.Ok? ==> |r.value| >= 1 && (r.value[0] == 0 <==> src == Null)
    ensures r.Ok? ==> forall t, d, rest :: src == Null ==>
      Decode(reg, ct, StreamFields(ct, sel), t, d, r.value + rest) == Ok((Null, rest))
  {
    if src == Null then Ok([0]) else Encode(reg, StreamFields(ct, sel), RuntimeType(src), src)
  }

  /** read(type, buffer, predicate): a read with no destination. */
  function Read(reg: Registry, ct: ClassTable, t: Ty, bs: seq<Byte>, sel: Option<Field -> bool>): Result<(Val, seq<Byte>)> {
    Decode(reg, ct, StreamFields(ct, sel), t, Null, bs)
  }

  /** read(dest, buffer, predicate): a read into dest, as dest's runtime class. */
  function ReadInto(reg: Registry, ct: ClassTable, dest: Val, bs: seq<Byte>, sel: Option<Field -> bool>): (r: Result<(Val, seq<Byte>)>)
    ensures dest == Null ==> r == Err(NullPointer)
    ensures r.Ok? ==> |r.value.1| < |bs|
    ensures dest.Obj? && |bs| > 0 && bs[0] != 0 && ClassType(dest.cls) !in reg && r.Ok? ==>
      r.value.0.Obj? && r.value.0.cls == dest.cls && r.value.0.fields.Keys == dest.fields.Keys
  {
    if dest == Null then Err(NullPointer) else Decode(reg, ct, StreamFields(ct, sel), RuntimeType(dest), dest, bs)
  }
}
