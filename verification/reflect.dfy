/** The closed type universe that replaces Java reflection: type
    descriptors, field descriptors, the class table, object values as
    finite trees, and the reflective primitives the engines use
    (Class.newInstance, Field.get, Field.set). */
module Reflect {
  import opened Lang
  import opened Buffer

  type ClassName = string

  /** java.lang.Object: the root every superclass walk stops before. */
  const ObjectClass: ClassName := "java.lang.Object"

  /** The eight Java primitive types. */
  datatype PrimKind = Boolean | Byte | Short | Int | Long | Float | Double | Char

  /** A Class object as the engines see it. */
  datatype Ty =
    | Prim(kind: PrimKind)        // boolean.class, int.class, ...
    | Boxed(kind: PrimKind)       // Boolean.class, Integer.class, ...
    | StringType                  // String.class
    | ArrayOf(comp: Ty)           // an array class and its component type
    | ClassType(name: ClassName)  // any other class

  /** A field as its class declares it; `sync` is the @Sync annotation. */
  datatype FieldDecl = FieldDecl(name: string, ty: Ty, isStatic: bool, sync: bool)

  /** A java.lang.reflect.Field: a declaration together with the class that
      declares it, so that a field shadowed by a subclass field of the same
      name is still a different field. */
  datatype Field = Field(owner: ClassName, decl: FieldDecl) {
    function Name(): string { decl.name }
    function Type(): Ty { decl.ty }
  }

  /** A runtime value. Objects are finite trees: no sharing, no cycles.
      An object maps each of its instance fields to the field's value. */
  datatype Val =
    | Null
    | Bool(b: bool)
    | Num(kind: PrimKind, n: int)   // every primitive but boolean; float and double as raw bits
    | Str(s: string)
    | Arr(comp: Ty, elems: seq<Val>)
    | Obj(cls: ClassName, fields: map<Field, Val>)

  /** A class: its superclass (None for an interface), the fields it
      declares itself, and the state its no-argument constructor leaves an
      instance in (None when Class.newInstance fails for it). */
  datatype ClassDecl = ClassDecl(superclass: Option<ClassName>, declared: seq<FieldDecl>, ctor: Option<map<Field, Val>>)

  type ClassTable = map<ClassName, ClassDecl>

  /** The number of bytes ByteBuf uses for a primitive. */
  function Width(k: PrimKind): (r: nat)
    ensures 1 <= r <= 8
  {
    match k
    case Boolean => 1
    case Byte => 1
    case Short => 2
    case Int => 4
    case Long => 8
    case Float => 4
    case Double => 8
    case Char => 2
  }

  /** byte, short, int and long are signed; char is an unsigned code unit,
      and float and double are carried as their unsigned raw bits. */
  predicate IsSigned(k: PrimKind) {
    k == Byte || k == Short || k == Int || k == Long
  }

  /** Whether v is a value of the primitive type k. */
  predicate IsPrimValue(v: Val, k: PrimKind) {
    if k == Boolean then v.Bool?
    else
      && v.Num? && v.kind == k
      && (if IsSigned(k) then FitsSigned(v.n, Width(k)) else 0 <= v.n < Pow256(Width(k)))
  }

  /** Object.getClass() of a non-null value: primitives are always boxed. */
  function RuntimeType(v: Val): (t: Ty)
    requires v != Null
    ensures !t.Prim?
  {
    match v
    case Bool(_) => Boxed(Boolean)
    case Num(k, _) => Boxed(k)
    case Str(_) => StringType
    case Arr(c, _) => ArrayOf(c)
    case Obj(c, _) => ClassType(c)
  }

  /** Class.newInstance: a fresh instance in the state its no-argument
      constructor leaves it. */
  function NewInstance(ct: ClassTable, c: ClassName): (r: Result<Val>)
    ensures r.Ok? ==> r.value.Obj? && r.value.cls == c
    ensures r.Ok? <==> c == ObjectClass || (c in ct && ct[c].ctor.Some?)
  {
    if c == ObjectClass then Ok(Obj(ObjectClass, map[]))
    else if c !in ct then Err(NoClassDef(c))
    else match ct[c].ctor
      case None => Err(Instantiation(c))
      case Some(m) => Ok(Obj(c, m))
  }

  /** Field.get: the value of field f of obj. */
  function GetField(obj: Val, f: Field): (r: Result<Val>)
    ensures r.Ok? <==> obj.Obj? && f in obj.fields
    ensures r.Ok? ==> r.value == obj.fields[f] && r.value < obj
    ensures r.Err? ==> r.error == IllegalArgument
  {
    if obj.Obj? && f in obj.fields then Ok(obj.fields[f]) else Err(IllegalArgument)
  }

  /** Field.set: obj with field f holding x, and nothing else changed. */
  function SetField(obj: Val, f: Field, x: Val): (r: Result<Val>)
    ensures r.Ok? <==> obj.Obj? && f in obj.fields
    ensures r.Ok? ==> r.value.Obj? && r.value.cls == obj.cls && r.value.fields.Keys == obj.fields.Keys
    ensures r.Ok? ==> r.value.fields[f] == x
    ensures r.Ok? ==> forall g :: g in obj.fields && g != f ==> r.value.fields[g] == obj.fields[g]
    ensures r.Err? ==> r.error == IllegalArgument
  {
    if obj.Obj? && f in obj.fields then Ok(Obj(obj.cls, obj.fields[f := x])) else Err(IllegalArgument)
  }

  /** Field.get after Field.set: the field reads back the value set, every
      other field reads as before, and a set does not change which fields
      can be read. */
  lemma GetAfterSet(obj: Val, f: Field, g: Field, x: Val)
    requires SetField(obj, f, x).Ok?
    ensures GetField(SetField(obj, f, x).value, f) == Ok(x)
    ensures g != f ==> GetField(SetField(obj, f, x).value, g) == GetField(obj, g)
    ensures GetField(SetField(obj, f, x).value, g).Ok? <==> GetField(obj, g).Ok?
  {
  }

  /** Field.set of the value Field.get returns changes nothing. */
  lemma SetWhatGetGives(obj: Val, f: Field)
    requires GetField(obj, f).Ok?
    ensures SetField(obj, f, GetField(obj, f).value) == Ok(obj)
  {
    assert obj.fields[f := obj.fields[f]] == obj.fields;
  }
}
