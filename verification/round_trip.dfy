/** The codec against the copier: reading back what was written is
    copying, field for field, into the same destination, provided the
    serializer registry and the immutable-class set agree on which reference
    types are leaves. From that and the copy's identity law follows the
    plain round trip read(write(v)) == v. */
module RoundTrip {
  import opened Lang
  import opened Buffer
  import opened Reflect
  import opened StreamUtil
  import opened Fields
  import opened ByteBufUtil
  import opened CopyUtil

  /** The registry and the immutable set name the same reference types. */
  predicate Aligned(reg: Registry, imm: Immutables) {
    && (forall t :: t in imm && !t.Prim? ==> t in reg)
    && (forall t :: t in reg && !t.Prim? ==> t in imm)
  }

  /** The two static initializers agree. */
  lemma BuiltinsAligned()
    ensures Aligned(Builtins(), BuiltinImmutables)
  {
    BuiltinsShape();
    forall t | t in BuiltinImmutables && !t.Prim?
      ensures t in Builtins()
    {
      BuiltinImmutablesShape(t);
      BuiltinTypesShape(t);
    }
    forall t | t in Builtins() && !t.Prim?
      ensures t in BuiltinImmutables
    {
      BuiltinImmutablesShape(t);
      BuiltinTypesShape(t);
    }
  }

  /** Registering a reference type both ways keeps the two in step. */
  lemma RegisterBothAligned(reg: Registry, imm: Immutables, s: Serializer, t: Ty)
    requires Aligned(reg, imm)
    ensures Aligned(RegisterSerializer(reg, s, [t]), RegisterImmutableClass(imm, t))
  {
  }

  /** The codec's and the copier's static state fit together: every
      serializer reads back what it writes, and the two agree on the leaf
      types. */
  ghost predicate Coherent(reg: Registry, imm: Immutables) {
    AllLawful(reg) && Aligned(reg, imm)
  }

  /** A result paired with the bytes that follow. */
  function WithRest<T>(r: Result<T>, rest: seq<Byte>): Result<(T, seq<Byte>)> {
    match r
    case Ok(x) => Ok((x, rest))
    case Err(e) => Err(e)
  }

  /** Reading back an encoding of v as type t into destination d gives what
      copying v into d gives, failures included, and stops exactly at the
      end of the encoding. */
  lemma {:induction false} DecodeEncode(reg: Registry, imm: Immutables, ct: ClassTable, fields: Traversal, t: Ty, v: Val, d: Val, rest: seq<Byte>)
    requires Coherent(reg, imm) && Encode(reg, fields, t, v).Ok?
    ensures Decode(reg, ct, fields, t, d, Encode(reg, fields, t, v).value + rest)
         == WithRest(Copy(ct, imm, fields, t, v, d), rest)
    decreases v, 2
  {
    if v == Null {
      assert (Encode(reg, fields, t, v).value + rest)[1..] == rest;
    } else if t in reg {
      DecodeEncodeRegistered(reg, imm, ct, fields, t, v, d, rest);
    } else if t.ArrayOf? {
      DecodeEncodeArray(reg, imm, ct, fields, t.comp, v, d, rest);
    } else if t.ClassType? {
      DecodeEncodeObject(reg, imm, ct, fields, t.name, v, d, rest);
    } else {
      BuiltinTypesShape(t);
    }
  }

  /** A registered type: the serializer's law, and the copy shares the value. */
  lemma DecodeEncodeRegistered(reg: Registry, imm: Immutables, ct: ClassTable, fields: Traversal, t: Ty, v: Val, d: Val, rest: seq<Byte>)
    requires Coherent(reg, imm) && v != Null && t in reg && Encode(reg, fields, t, v).Ok?
    ensures Decode(reg, ct, fields, t, d, Encode(reg, fields, t, v).value + rest)
         == WithRest(Copy(ct, imm, fields, t, v, d), rest)
  {
    var w := reg[t].write(v).value;
    assert (Encode(reg, fields, t, v).value + rest)[1..] == w + rest;
    assert LawfulAt(reg, t);
    assert ReadsBack(reg[t], v, rest);
    assert (w + rest)[|w|..] == rest;
  }

  lemma {:induction false} DecodeEncodeArray(reg: Registry, imm: Immutables, ct: ClassTable, fields: Traversal, c: Ty, v: Val, d: Val, rest: seq<Byte>)
    requires Coherent(reg, imm) && v != Null && ArrayOf(c) !in reg && Encode(reg, fields, ArrayOf(c), v).Ok?
    ensures Decode(reg, ct, fields, ArrayOf(c), d, Encode(reg, fields, ArrayOf(c), v).value + rest)
         == WithRest(Copy(ct, imm, fields, ArrayOf(c), v, d), rest)
    decreases v, 1
  {
    var n := |v.elems|;
    var body := EncodeElems(reg, fields, c, v, 0).value;
    var bs := Encode(reg, fields, ArrayOf(c), v).value + rest;
    assert bs[1..] == WriteInt(n) + (body + rest);
    ReadWriteInt(n, body + rest);
    assert bs[1..][4..] == body + rest;
    assert !IsImmutable(imm, ArrayOf(c));
    DecodeEncodeElems(reg, imm, ct, fields, c, v, 0, rest);
  }

  lemma {:induction false} DecodeEncodeObject(reg: Registry, imm: Immutables, ct: ClassTable, fields: Traversal, c: ClassName, v: Val, d: Val, rest: seq<Byte>)
    requires Coherent(reg, imm) && v != Null && ClassType(c) !in reg && Encode(reg, fields, ClassType(c), v).Ok?
    ensures Decode(reg, ct, fields, ClassType(c), d, Encode(reg, fields, ClassType(c), v).value + rest)
         == WithRest(Copy(ct, imm, fields, ClassType(c), v, d), rest)
    decreases v, 1
  {
    var fs := fields(c).value;
    var body := EncodeFields(reg, fields, fs, v).value;
    assert (Encode(reg, fields, ClassType(c), v).value + rest)[1..] == body + rest;
    var base := if d != Null then Ok(d) else NewInstance(ct, c);
    if base.Ok? {
      DecodeEncodeFields(reg, imm, ct, fields, fs, v, base.value, rest);
    }
  }

  lemma {:induction false} DecodeEncodeElem(reg: Registry, imm: Immutables, ct: ClassTable, fields: Traversal, c: Ty, e: Val, rest: seq<Byte>)
    requires Coherent(reg, imm) && EncodeElem(reg, fields, c, e).Ok?
    ensures DecodeElem(reg, ct, fields, c, EncodeElem(reg, fields, c, e).value + rest)
         == WithRest(CopyElem(ct, imm, fields, c, e), rest)
    decreases e, 3
  {
    if c.Prim? {
      ReadWritePrim(c.kind, e, rest);
      assert (WritePrim(c.kind, e).value + rest)[Width(c.kind)..] == rest;
    } else {
      DecodeEncode(reg, imm, ct, fields, c, e, Null, rest);
    }
  }

  lemma {:induction false} DecodeEncodeElems(reg: Registry, imm: Immutables, ct: ClassTable, fields: Traversal, c: Ty, v: Val, i: nat, rest: seq<Byte>)
    requires Coherent(reg, imm) && v.Arr? && i <= |v.elems| && EncodeElems(reg, fields, c, v, i).Ok?
    ensures DecodeElems(reg, ct, fields, c, |v.elems| - i, EncodeElems(reg, fields, c, v, i).value + rest)
         == WithRest(CopyElems(ct, imm, fields, c, v, i), rest)
    decreases v, 0, |v.elems| - i
  {
    if i < |v.elems| {
      var tail := EncodeElems(reg, fields, c, v, i + 1).value;
      DecodeEncodeElem(reg, imm, ct, fields, c, v.elems[i], tail + rest);
      DecodeEncodeElems(reg, imm, ct, fields, c, v, i + 1, rest);
      DecodeEncodeElemsStep(reg, imm, ct, fields, c, v, i, rest);
    } else {
      assert EncodeElems(reg, fields, c, v, i).value + rest == rest;
    }
  }

  /** One element of the array loop, given the laws for the element and
      for the elements after it. */
  lemma DecodeEncodeElemsStep(reg: Registry, imm: Immutables, ct: ClassTable, fields: Traversal, c: Ty, v: Val, i: nat, rest: seq<Byte>)
    requires v.Arr? && i < |v.elems| && EncodeElems(reg, fields, c, v, i).Ok?
    requires DecodeElem(reg, ct, fields, c, EncodeElem(reg, fields, c, v.elems[i]).value + (EncodeElems(reg, fields, c, v, i + 1).value + rest))
          == WithRest(CopyElem(ct, imm, fields, c, v.elems[i]), EncodeElems(reg, fields, c, v, i + 1).value + rest)
    requires DecodeElems(reg, ct, fields, c, |v.elems| - (i + 1), EncodeElems(reg, fields, c, v, i + 1).value + rest)
          == WithRest(CopyElems(ct, imm, fields, c, v, i + 1), rest)
    ensures DecodeElems(reg, ct, fields, c, |v.elems| - i, EncodeElems(reg, fields, c, v, i).value + rest)
         == WithRest(CopyElems(ct, imm, fields, c, v, i), rest)
  {
    var head := EncodeElem(reg, fields, c, v.elems[i]).value;
    var tail := EncodeElems(reg, fields, c, v, i + 1).value;
    assert EncodeElems(reg, fields, c, v, i).value + rest == head + (tail + rest);
  }

  lemma {:induction false} DecodeEncodeFields(reg: Registry, imm: Immutables, ct: ClassTable, fields: Traversal, fs: seq<Field>, v: Val, acc: Val, rest: seq<Byte>)
    requires Coherent(reg, imm) && EncodeFields(reg, fields, fs, v).Ok?
    ensures DecodeFields(reg, ct, fields, fs, acc, EncodeFields(reg, fields, fs, v).value + rest)
         == WithRest(CopyFields(ct, imm, fields, fs, v, acc), rest)
    decreases v, 0, |fs|
  {
    if fs != [] {
      var head := WriteField(reg, fields, fs[0], v).value;
      var tail := EncodeFields(reg, fields, fs[1..], v).value;
      assert EncodeFields(reg, fields, fs, v).value + rest == head + (tail + rest);
      ReadWriteField(reg, imm, ct, fields, fs[0], v, acc, tail + rest);
      match CopyField(ct, imm, fields, fs[0], v, acc)
      case Err(_) =>
      case Ok(acc') =>
        DecodeEncodeFields(reg, imm, ct, fields, fs[1..], v, acc', rest);
    } else {
      assert EncodeFields(reg, fields, fs, v).value + rest == rest;
    }
  }

  lemma {:induction false} ReadWriteField(reg: Registry, imm: Immutables, ct: ClassTable, fields: Traversal, f: Field, v: Val, acc: Val, rest: seq<Byte>)
    requires Coherent(reg, imm) && WriteField(reg, fields, f, v).Ok?
    ensures ReadField(reg, ct, fields, f, acc, WriteField(reg, fields, f, v).value + rest)
         == WithRest(CopyField(ct, imm, fields, f, v, acc), rest)
    decreases v, 0, 0
  {
    var x := v.fields[f];
    if f.Type().Prim? {
      ReadWritePrim(f.Type().kind, x, rest);
      assert (WritePrim(f.Type().kind, x).value + rest)[Width(f.Type().kind)..] == rest;
    } else if acc.Obj? && f in acc.fields {
      DecodeEncode(reg, imm, ct, fields, f.Type(), x, acc.fields[f], rest);
    }
  }

  /** The plain round trip: a value that its own copy reproduces reads back
      as itself, and the read stops where the write ended. */
  lemma WriteRead(reg: Registry, imm: Immutables, ct: ClassTable, v: Val, rest: seq<Byte>, sel: Option<Field -> bool>)
    requires Coherent(reg, imm) && WellFormed(ct) && v != Null
    requires Write(reg, ct, v, sel).Ok?
    requires Fits(ct, imm, StreamFields(ct, sel), RuntimeType(v), v, Null)
    ensures Read(reg, ct, RuntimeType(v), Write(reg, ct, v, sel).value + rest, sel) == Ok((v, rest))
  {
    DecodeEncode(reg, imm, ct, StreamFields(ct, sel), RuntimeType(v), v, Null, rest);
    StreamFieldsNoRepeats(ct, sel);
    CopyReproduces(ct, imm, StreamFields(ct, sel), RuntimeType(v), v, Null);
  }

  /** Reading into an existing object of the same class copies the written
      value into it. */
  lemma WriteReadInto(reg: Registry, imm: Immutables, ct: ClassTable, v: Val, dest: Val, rest: seq<Byte>, sel: Option<Field -> bool>)
    requires Coherent(reg, imm)
    requires v != Null && dest != Null && RuntimeType(dest) == RuntimeType(v)
    requires Write(reg, ct, v, sel).Ok?
    ensures ReadInto(reg, ct, dest, Write(reg, ct, v, sel).value + rest, sel) == WithRest(CopyInto(ct, imm, v, dest, sel), rest)
  {
    DecodeEncode(reg, imm, ct, StreamFields(ct, sel), RuntimeType(v), v, dest, rest);
  }
}
