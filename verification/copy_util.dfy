/** CopyUtil: the type-directed deep copy. Immutable values are shared,
    arrays are always fresh, and objects are filled in place into the
    destination when there is one. */
module CopyUtil {
  import opened Lang
  import opened Reflect
  import opened StreamUtil
  import opened Fields

  /** The classes the static initializer registers as immutable. */
  const BuiltinImmutables: set<Ty> :=
    {Boxed(Boolean), Boxed(Byte), Boxed(Short), Boxed(Int), Boxed(Long),
     Boxed(Float), Boxed(Double), Boxed(Char), StringType}

  /** The immutable-class set; registration only adds, so the built-in
      classes are always in it. */
  type Immutables = imm: set<Ty> | BuiltinImmutables <= imm witness BuiltinImmutables

  lemma BuiltinImmutablesShape(t: Ty)
    ensures t in BuiltinImmutables <==> t.Boxed? || t == StringType
  {
    if t.Boxed? {
      match t.kind
      case Boolean =>
      case Byte =>
      case Short =>
      case Int =>
      case Long =>
      case Float =>
      case Double =>
      case Char =>
    }
  }

  /** registerImmutableClass: values of type t are shared by every copy from now on. */
  function RegisterImmutableClass(imm: Immutables, t: Ty): (r: Immutables)
    ensures forall u :: u in r <==> u in imm || u == t
  {
    imm + {t}
  }

  /** isImmutable: primitive types, and the registered classes. */
  predicate IsImmutable(imm: set<Ty>, t: Ty) {
    t.Prim? || t in imm
  }

  /** copy(type, src, dest, predicate). */
  function Copy(ct: ClassTable, imm: Immutables, fields: Traversal, t: Ty, src: Val, dest: Val): (r: Result<Val>)
    ensures src == Null ==> r == Ok(Null)
    ensures src != Null && IsImmutable(imm, t) ==> r == Ok(src)
    ensures src != Null && !IsImmutable(imm, t) && t.ArrayOf? && r.Ok? ==>
      src.Arr? && r.value.Arr? && r.value.comp == t.comp && |r.value.elems| == |src.elems|
    ensures src != Null && !IsImmutable(imm, t) && t.ClassType? && dest.Obj? && r.Ok? ==>
      && fields(t.name).Ok?
      && r.value.Obj? && r.value.cls == dest.cls && r.value.fields.Keys == dest.fields.Keys
      && forall g :: g in dest.fields && g !in fields(t.name).value ==> r.value.fields[g] == dest.fields[g]
    ensures src != Null && !IsImmutable(imm, t) && t.ClassType? && dest == Null && r.Ok? ==>
      r.value.Obj? && r.value.cls == t.name
    decreases src, 1
  {
    if src == Null then Ok(Null)
    else if IsImmutable(imm, t) then Ok(src)
    else match t
      case ArrayOf(c) =>
        if !src.Arr? then Err(IllegalArgument)
        else
          var elems :- CopyElems(ct, imm, fields, c, src, 0);
          Ok(Arr(c, elems))
      case ClassType(c) =>
        var base :- if dest != Null then Ok(dest) else NewInstance(ct, c);
        var fs :- fields(c);
        CopyFields(ct, imm, fields, fs, src, base)
      case _ => BuiltinImmutablesShape(t); assert false; Err(IllegalArgument)
  }

  /** copyComponent: a primitive component as it is, any other copied
      with the component type and no destination. */
  function CopyElem(ct: ClassTable, imm: Immutables, fields: Traversal, c: Ty, e: Val): (r: Result<Val>)
    decreases e, 2
  {
    if c.Prim? then Ok(e) else Copy(ct, imm, fields, c, e, Null)
  }

  /** copyArray's loop over elements i.. of src. */
  function CopyElems(ct: ClassTable, imm: Immutables, fields: Traversal, c: Ty, src: Val, i: nat): (r: Result<seq<Val>>)
    requires src.Arr? && i <= |src.elems|
    ensures r.Ok? ==> |r.value| == |src.elems| - i
    ensures r.Ok? ==> forall j :: 0 <= j < |r.value| ==> CopyElem(ct, imm, fields, c, src.elems[i + j]) == Ok(r.value[j])
    ensures r.Ok? <==> forall j :: i <= j < |src.elems| ==> CopyElem(ct, imm, fields, c, src.elems[j]).Ok?
    decreases src, 0, |src.elems| - i
  {
    if i == |src.elems| then Ok([])
    else
      var e :- CopyElem(ct, imm, fields, c, src.elems[i]);
      var es :- CopyElems(ct, imm, fields, c, src, i + 1);
      Ok([e] + es)
  }

  /** copyObject's loop: each field through copyField, under forEachUnchecked.
      The object being filled in, acc, keeps its class and its fields, and
      the fields not in fs keep their values. */
  function CopyFields(ct: ClassTable, imm: Immutables, fields: Traversal, fs: seq<Field>, src: Val, acc: Val): (r: Result<Val>)
    ensures fs == [] ==> r == Ok(acc)
    ensures r.Ok? && acc.Obj? ==>
      && r.value.Obj? && r.value.cls == acc.cls && r.value.fields.Keys == acc.fields.Keys
      && forall g :: g in acc.fields && g !in fs ==> r.value.fields[g] == acc.fields[g]
    ensures r.Err? ==> IsReflective(r.error) || r.error.UnknownException?
    decreases src, 0, |fs|
  {
    if fs == [] then Ok(acc)
    else match CopyField(ct, imm, fields, fs[0], src, acc)
      case Err(e) => Err(Escape(e, IsReflective))
      case Ok(acc') => CopyFields(ct, imm, fields, fs[1..], src, acc')
  }

  /** copyField: a primitive field's value is set as it is; any other is
      copied into the destination's current value of the field. */
  function CopyField(ct: ClassTable, imm: Immutables, fields: Traversal, f: Field, src: Val, acc: Val): (r: Result<Val>)
    ensures r.Ok? ==> acc.Obj? && f in acc.fields && src.Obj? && f in src.fields
    ensures r.Ok? ==> r.value.Obj? && r.value.cls == acc.cls && r.value.fields.Keys == acc.fields.Keys
    ensures r.Ok? ==> forall g :: g in acc.fields && g != f ==> r.value.fields[g] == acc.fields[g]
    ensures r.Ok? && f.Type().Prim? ==> r.value.fields[f] == src.fields[f]
    ensures r.Ok? && !f.Type().Prim? ==> Copy(ct, imm, fields, f.Type(), src.fields[f], acc.fields[f]) == Ok(r.value.fields[f])
    decreases src, 0, 0
  {
    var x :- GetField(src, f);
    if f.Type().Prim? then SetField(acc, f, x)
    else
      var cur :- GetField(acc, f);
      var y :- Copy(ct, imm, fields, f.Type(), x, cur);
      // the get above has shown f to be a field of acc, so this set succeeds
      match SetField(acc, f, y)
        case Ok(acc') => Ok(acc')
        case Err(e) => Err(e)
  }

  /** One step of copyObject's forEachUnchecked loop. */
  function CopyStep(ct: ClassTable, imm: Immutables, fields: Traversal, src: Val): (Val, Field) -> Result<Val> {
    (acc: Val, f: Field) => CopyField(ct, imm, fields, f, src, acc)
  }

  /** copyObject's field loop is forEachUnchecked over the fields with CopyStep. */
  lemma {:induction false} CopyFieldsLoop(ct: ClassTable, imm: Immutables, fields: Traversal, fs: seq<Field>, src: Val, acc: Val)
    ensures ForEachUnchecked(fs, acc, CopyStep(ct, imm, fields, src), IsReflective) == CopyFields(ct, imm, fields, fs, src, acc)
    decreases |fs|
  {
    if fs != [] {
      match CopyField(ct, imm, fields, fs[0], src, acc)
      case Err(e) =>
      case Ok(acc') => CopyFieldsLoop(ct, imm, fields, fs[1..], src, acc');
    }
  }

  /** copy(src, dest, predicate): the copy follows src's runtime class. */
  function CopyInto(ct: ClassTable, imm: Immutables, src: Val, dest: Val, sel: Option<Field -> bool>): (r: Result<Val>)
    ensures src == Null ==> r == Ok(Null)
    ensures src != Null && (src.Bool? || src.Num? || src.Str?) ==> r == Ok(src)
    ensures src.Arr? && r.Ok? ==> r.value.Arr? && r.value.comp == src.comp && |r.value.elems| == |src.elems|
    ensures src.Obj? && ClassType(src.cls) !in imm && dest.Obj? && r.Ok? ==>
      r.value.Obj? && r.value.cls == dest.cls && r.value.fields.Keys == dest.fields.Keys
  {
    if src == Null then Ok(Null)
    else
      BuiltinImmutablesShape(RuntimeType(src));
      Copy(ct, imm, StreamFields(ct, sel), RuntimeType(src), src, dest)
  }

  /** copy(src, predicate): a copy with no destination. */
  function CopyOf(ct: ClassTable, imm: Immutables, src: Val, sel: Option<Field -> bool>): Result<Val> {
    CopyInto(ct, imm, src, Null, sel)
  }

  /** copy(type, src, predicate): a copy as the given type with no destination. */
  function CopyAs(ct: ClassTable, imm: Immutables, t: Ty, src: Val, sel: Option<Field -> bool>): Result<Val> {
    Copy(ct, imm, StreamFields(ct, sel), t, src, Null)
  }

  /** After registerImmutableClass(t), every copy of a value as t shares
      it, whatever the destination; in particular copy(src, dest, predicate)
      returns src itself once src's runtime class is registered. */
  lemma RegisteredIsShared(ct: ClassTable, imm: Immutables, fields: Traversal, t: Ty, src: Val, dest: Val, sel: Option<Field -> bool>)
    ensures Copy(ct, RegisterImmutableClass(imm, t), fields, t, src, dest) == Ok(src)
    ensures src != Null && RuntimeType(src) == t ==>
      CopyInto(ct, RegisterImmutableClass(imm, t), src, dest, sel) == Ok(src)
  {
  }

  /** Registration only adds: what was shared before stays shared. */
  lemma RegisterKeepsShared(ct: ClassTable, imm: Immutables, fields: Traversal, t: Ty, u: Ty, src: Val, dest: Val)
    requires IsImmutable(imm, u)
    ensures Copy(ct, imm, fields, u, src, dest) == Ok(src)
    ensures Copy(ct, RegisterImmutableClass(imm, t), fields, u, src, dest) == Ok(src)
  {
  }

  /** An object copy without a destination is a copy into a fresh instance. */
  lemma CopyWithoutDest(ct: ClassTable, imm: Immutables, fields: Traversal, c: ClassName, src: Val)
    requires src != Null && !IsImmutable(imm, ClassType(c))
    ensures NewInstance(ct, c).Err? ==> Copy(ct, imm, fields, ClassType(c), src, Null) == Err(NewInstance(ct, c).error)
    ensures NewInstance(ct, c).Ok? ==>
      Copy(ct, imm, fields, ClassType(c), src, Null) == Copy(ct, imm, fields, ClassType(c), src, NewInstance(ct, c).value)
  {
  }

  /** An array copy never looks at the destination: arrays are always fresh. */
  lemma CopyArrayIgnoresDest(ct: ClassTable, imm: Immutables, fields: Traversal, c: Ty, src: Val, d1: Val, d2: Val)
    ensures Copy(ct, imm, fields, ArrayOf(c), src, d1) == Copy(ct, imm, fields, ArrayOf(c), src, d2)
  {
  }

  /** copyField looks at the object being filled in only at the field it
      copies. */
  lemma CopyFieldLocal(ct: ClassTable, imm: Immutables, fields: Traversal, f: Field, src: Val, a: Val, b: Val)
    requires a.Obj? && b.Obj? && a.fields.Keys == b.fields.Keys && f in a.fields && a.fields[f] == b.fields[f]
    ensures CopyField(ct, imm, fields, f, src, a).Ok? == CopyField(ct, imm, fields, f, src, b).Ok?
    ensures CopyField(ct, imm, fields, f, src, a).Ok? ==>
      CopyField(ct, imm, fields, f, src, a).value.fields[f] == CopyField(ct, imm, fields, f, src, b).value.fields[f]
  {
    if src.Obj? && f in src.fields && !f.Type().Prim? {
      var y := Copy(ct, imm, fields, f.Type(), src.fields[f], a.fields[f]);
      assert CopyField(ct, imm, fields, f, src, a) == if y.Ok? then SetField(a, f, y.value) else Err(y.error);
      assert CopyField(ct, imm, fields, f, src, b) == if y.Ok? then SetField(b, f, y.value) else Err(y.error);
    }
  }

  /** out holds, at each field of fs, what copying that field alone into
      acc would leave there. */
  ghost predicate Assigned(ct: ClassTable, imm: Immutables, fields: Traversal, fs: seq<Field>, src: Val, acc: Val, out: Val)
    requires acc.Obj? && out.Obj?
  {
    forall f :: f in fs ==>
      && f in acc.fields && f in out.fields && CopyField(ct, imm, fields, f, src, acc).Ok?
      && out.fields[f] == CopyField(ct, imm, fields, f, src, acc).value.fields[f]
  }

  /** When no field is visited twice, the order of the field loop does not
      matter: each visited field ends up as copying that field alone into
      the original object would leave it. */
  lemma {:induction false} CopyFieldsAssigns(ct: ClassTable, imm: Immutables, fields: Traversal, fs: seq<Field>, src: Val, acc: Val)
    requires NoDup(fs) && acc.Obj? && CopyFields(ct, imm, fields, fs, src, acc).Ok?
    ensures CopyFields(ct, imm, fields, fs, src, acc).value.Obj?
    ensures Assigned(ct, imm, fields, fs, src, acc, CopyFields(ct, imm, fields, fs, src, acc).value)
    decreases |fs|
  {
    if fs != [] {
      var acc' := CopyField(ct, imm, fields, fs[0], src, acc).value;
      var out := CopyFields(ct, imm, fields, fs, src, acc).value;
      CopyFieldsAssigns(ct, imm, fields, fs[1..], src, acc');
      AssignedStep(ct, imm, fields, fs, src, acc, acc', out);
    }
  }

  /** The induction step: the first field of fs is copied into acc and then
      left alone, and the later fields see acc' only where acc' agrees with acc. */
  lemma AssignedStep(ct: ClassTable, imm: Immutables, fields: Traversal, fs: seq<Field>, src: Val, acc: Val, acc': Val, out: Val)
    requires NoDup(fs) && fs != [] && acc.Obj? && out.Obj?
    requires CopyField(ct, imm, fields, fs[0], src, acc) == Ok(acc')
    requires CopyFields(ct, imm, fields, fs[1..], src, acc').Ok?
    requires out == CopyFields(ct, imm, fields, fs[1..], src, acc').value
    requires Assigned(ct, imm, fields, fs[1..], src, acc', out)
    ensures Assigned(ct, imm, fields, fs, src, acc, out)
  {
    forall f | f in fs[1..]
      ensures f in acc.fields && CopyField(ct, imm, fields, f, src, acc).Ok?
      ensures out.fields[f] == CopyField(ct, imm, fields, f, src, acc).value.fields[f]
    {
      assert f != fs[0];
      CopyFieldLocal(ct, imm, fields, f, src, acc', acc);
    }
    assert fs[0] !in fs[1..];
  }

  /** Copying into an object changes exactly the fields the traversal
      visits; each of those is copied as if on its own, and every other
      field keeps its value. */
  lemma CopyIntoObject(ct: ClassTable, imm: Immutables, fields: Traversal, c: ClassName, src: Val, dest: Val)
    requires src != Null && !IsImmutable(imm, ClassType(c)) && dest.Obj? && NoRepeats(fields)
    requires Copy(ct, imm, fields, ClassType(c), src, dest).Ok?
    ensures fields(c).Ok?
    ensures forall g :: g in fields(c).value ==> g in dest.fields && CopyField(ct, imm, fields, g, src, dest).Ok?
    ensures forall g :: g in dest.fields ==>
      Copy(ct, imm, fields, ClassType(c), src, dest).value.fields[g]
        == if g in fields(c).value then CopyField(ct, imm, fields, g, src, dest).value.fields[g] else dest.fields[g]
  {
    CopyFieldsAssigns(ct, imm, fields, fields(c).value, src, dest);
  }

  /** Whether copying v as type t into d reproduces v exactly: an object
      whose base (d, or a fresh instance when d is null) has v's class and
      fields, agrees with v on every field the traversal skips, and whose
      visited reference fields fit the base's current values in turn. */
  ghost predicate Fits(ct: ClassTable, imm: Immutables, fields: Traversal, t: Ty, v: Val, d: Val)
    decreases v
  {
    if v == Null || IsImmutable(imm, t) then true
    else match t
      case ArrayOf(c) =>
        && v.Arr? && v.comp == c
        && forall i :: 0 <= i < |v.elems| ==> c.Prim? || Fits(ct, imm, fields, c, v.elems[i], Null)
      case ClassType(c) =>
        var base := if d != Null then Ok(d) else NewInstance(ct, c);
        && base.Ok? && base.value.Obj? && v.Obj?
        && base.value.cls == v.cls && base.value.fields.Keys == v.fields.Keys
        && fields(c).Ok?
        && (forall g :: g in v.fields && g !in fields(c).value ==> v.fields[g] == base.value.fields[g])
        && (forall f :: f in fields(c).value ==>
              f in v.fields && (f.Type().Prim? || Fits(ct, imm, fields, f.Type(), v.fields[f], base.value.fields[f])))
      case _ => false
  }

  /** A copy reproduces every value that fits its destination. */
  lemma {:induction false} CopyReproduces(ct: ClassTable, imm: Immutables, fields: Traversal, t: Ty, v: Val, d: Val)
    requires NoRepeats(fields) && Fits(ct, imm, fields, t, v, d)
    ensures Copy(ct, imm, fields, t, v, d) == Ok(v)
    decreases v, 1
  {
    if v != Null && !IsImmutable(imm, t) {
      match t
      case ArrayOf(c) =>
        CopyElemsReproduce(ct, imm, fields, c, v, 0);
        assert v.elems[0..] == v.elems;
      case ClassType(c) =>
        var base := if d != Null then d else NewInstance(ct, c).value;
        CopyFieldsReproduce(ct, imm, fields, fields(c).value, v, base);
    }
  }

  lemma {:induction false} CopyElemsReproduce(ct: ClassTable, imm: Immutables, fields: Traversal, c: Ty, v: Val, i: nat)
    requires NoRepeats(fields) && v.Arr? && i <= |v.elems|
    requires forall j :: 0 <= j < |v.elems| ==> c.Prim? || Fits(ct, imm, fields, c, v.elems[j], Null)
    ensures CopyElems(ct, imm, fields, c, v, i) == Ok(v.elems[i..])
    decreases v, 0, |v.elems| - i
  {
    if i < |v.elems| {
      if !c.Prim? {
        CopyReproduces(ct, imm, fields, c, v.elems[i], Null);
      }
      CopyElemsReproduce(ct, imm, fields, c, v, i + 1);
      assert v.elems[i..] == [v.elems[i]] + v.elems[i + 1..];
    } else {
      assert v.elems[i..] == [];
    }
  }

  /** The loop invariant: acc already agrees with v outside fs, and the
      fields still to copy each fit acc's current value. */
  lemma {:induction false} CopyFieldsReproduce(ct: ClassTable, imm: Immutables, fields: Traversal, fs: seq<Field>, v: Val, acc: Val)
    requires NoRepeats(fields) && NoDup(fs)
    requires v.Obj? && acc.Obj? && acc.cls == v.cls && acc.fields.Keys == v.fields.Keys
    requires forall g :: g in v.fields && g !in fs ==> v.fields[g] == acc.fields[g]
    requires forall f :: f in fs ==> f in v.fields && (f.Type().Prim? || Fits(ct, imm, fields, f.Type(), v.fields[f], acc.fields[f]))
    ensures CopyFields(ct, imm, fields, fs, v, acc) == Ok(v)
    decreases v, 0, |fs|
  {
    if fs == [] {
      assert acc.fields == v.fields;
    } else {
      var f := fs[0];
      if !f.Type().Prim? {
        CopyReproduces(ct, imm, fields, f.Type(), v.fields[f], acc.fields[f]);
      }
      var acc' := CopyField(ct, imm, fields, f, v, acc).value;
      assert acc'.fields[f] == v.fields[f];
      assert forall g :: g in fs[1..] ==> g != f;
      CopyFieldsReproduce(ct, imm, fields, fs[1..], v, acc');
    }
  }

  /** copy(src, null): a full copy with no destination reproduces every
      value that fits a fresh instance, as the copy test expects. */
  lemma CopyOfReproduces(ct: ClassTable, imm: Immutables, src: Val)
    requires WellFormed(ct) && src != Null
    requires Fits(ct, imm, StreamFields(ct, None), RuntimeType(src), src, Null)
    ensures CopyOf(ct, imm, src, None) == Ok(src)
  {
    StreamFieldsNoRepeats(ct, None);
    CopyReproduces(ct, imm, StreamFields(ct, None), RuntimeType(src), src, Null);
  }
}
