/** ConfigUtil: the facade. Two complementary field predicates, "has the
    @Sync annotation" for what a server sends and "lacks it" for what stays
    on the client, composed with the copier and the codec. Every facade
    method drops its result, so what a call does is the state it leaves
    the destination object (or the buffer) in. */
module ConfigUtil {
  import opened Lang
  import opened Buffer
  import opened Reflect
  import opened StreamUtil
  import opened Fields
  import opened ByteBufUtil
  import opened CopyUtil
  import opened RoundTrip

  /** field.isAnnotationPresent(Sync.class) */
  predicate IsSync(f: Field) {
    f.decl.sync
  }

  /** The predicate copyClientSettings passes: fields without @Sync. */
  const ClientSettings: Option<Field -> bool> := Some(f => !IsSync(f))

  /** The predicate writeServerSettings and readServerSettings pass: fields with @Sync. */
  const ServerSettings: Option<Field -> bool> := Some(f => IsSync(f))

  /** copyAllSettings passes no predicate. */
  const AllSettings: Option<Field -> bool> := None

  /** Every instance field is a client setting or a server setting and not
      both; static fields are neither; with no predicate every instance
      field is selected. */
  lemma SettingsPartition(f: Field)
    ensures Selects(AllSettings, f) <==> !f.decl.isStatic
    ensures Selects(ClientSettings, f) <==> !f.decl.isStatic && !IsSync(f)
    ensures Selects(ServerSettings, f) <==> !f.decl.isStatic && IsSync(f)
    ensures Selects(AllSettings, f) <==> Selects(ClientSettings, f) || Selects(ServerSettings, f)
    ensures !(Selects(ClientSettings, f) && Selects(ServerSettings, f))
  {
  }

  /** For any class, the client and server traversals split the full one:
      a field is visited by the full traversal exactly when one of the two
      visits it. */
  lemma TraversalsPartition(ct: ClassTable, c: ClassName)
    ensures SelectedFields(ct, c, ClientSettings).Ok? == SelectedFields(ct, c, AllSettings).Ok?
    ensures SelectedFields(ct, c, ServerSettings).Ok? == SelectedFields(ct, c, AllSettings).Ok?
    ensures SelectedFields(ct, c, AllSettings).Ok? ==> forall f ::
      (f in SelectedFields(ct, c, AllSettings).value <==>
       f in SelectedFields(ct, c, ClientSettings).value || f in SelectedFields(ct, c, ServerSettings).value)
    ensures SelectedFields(ct, c, AllSettings).Ok? ==> forall f ::
      !(f in SelectedFields(ct, c, ClientSettings).value && f in SelectedFields(ct, c, ServerSettings).value)
  {
    if SelectedFields(ct, c, AllSettings).Ok? {
      forall f
        ensures (f in SelectedFields(ct, c, AllSettings).value <==>
                 f in SelectedFields(ct, c, ClientSettings).value || f in SelectedFields(ct, c, ServerSettings).value)
        ensures !(f in SelectedFields(ct, c, ClientSettings).value && f in SelectedFields(ct, c, ServerSettings).value)
      {
        SettingsPartition(f);
      }
    }
  }

  /** Whether copy(src, dest, predicate) fills dest in place: src is an
      object of a class that is not immutable and dest is given. Otherwise
      the copy is a new value (or src itself) and dest is left alone. */
  predicate CopiesIntoDest(imm: Immutables, src: Val, dest: Val) {
    src.Obj? && dest != Null && ClassType(src.cls) !in imm
  }

  /** The state copy(src, dest, predicate) leaves dest in, its result being
      dropped. */
  function CopySettings(ct: ClassTable, imm: Immutables, src: Val, dest: Val, sel: Option<Field -> bool>): (r: Result<Val>)
    ensures r.Ok? <==> CopyInto(ct, imm, src, dest, sel).Ok?
    ensures r.Ok? && !CopiesIntoDest(imm, src, dest) ==> r.value == dest
    ensures r.Ok? && CopiesIntoDest(imm, src, dest) && dest.Obj? ==>
      r.value.Obj? && r.value.cls == dest.cls && r.value.fields.Keys == dest.fields.Keys
  {
    var out :- CopyInto(ct, imm, src, dest, sel);
    Ok(if CopiesIntoDest(imm, src, dest) then out else dest)
  }

  /** copyClientSettings(src, dest). */
  function CopyClientSettings(ct: ClassTable, imm: Immutables, src: Val, dest: Val): Result<Val> {
    CopySettings(ct, imm, src, dest, ClientSettings)
  }

  /** copyAllSettings(src, dest). */
  function CopyAllSettings(ct: ClassTable, imm: Immutables, src: Val, dest: Val): Result<Val> {
    CopySettings(ct, imm, src, dest, AllSettings)
  }

  /** writeServerSettings(src, buffer): the buffer with src's @Sync fields appended. */
  function WriteServerSettings(reg: Registry, ct: ClassTable, src: Val, buf: seq<Byte>): (r: Result<seq<Byte>>)
    ensures r.Ok? <==> Write(reg, ct, src, ServerSettings).Ok?
    ensures r.Ok? ==> |r.value| == |buf| + |Write(reg, ct, src, ServerSettings).value|
    ensures r.Ok? ==> r.value[..|buf|] == buf && r.value[|buf|..] == Write(reg, ct, src, ServerSettings).value
  {
    var bs :- Write(reg, ct, src, ServerSettings);
    assert (buf + bs)[..|buf|] == buf && (buf + bs)[|buf|..] == bs;
    Ok(buf + bs)
  }

  /** Whether read(dest, buffer, predicate) fills dest in place: the
      presence byte is set and dest's class has no serializer. */
  predicate ReadsIntoDest(reg: Registry, dest: Val, buf: seq<Byte>) {
    dest.Obj? && |buf| > 0 && buf[0] != 0 && ClassType(dest.cls) !in reg
  }

  /** readServerSettings(dest, buffer): the state dest is left in, and the
      bytes after what was read. */
  function ReadServerSettings(reg: Registry, ct: ClassTable, dest: Val, buf: seq<Byte>): (r: Result<(Val, seq<Byte>)>)
    ensures dest == Null ==> r == Err(NullPointer)
    ensures r.Ok? <==> ReadInto(reg, ct, dest, buf, ServerSettings).Ok?
    ensures r.Ok? ==> |r.value.1| < |buf|
    ensures r.Ok? && !ReadsIntoDest(reg, dest, buf) ==> r.value.0 == dest
    ensures r.Ok? && ReadsIntoDest(reg, dest, buf) ==>
      r.value.0.Obj? && r.value.0.cls == dest.cls && r.value.0.fields.Keys == dest.fields.Keys
  {
    var p :- ReadInto(reg, ct, dest, buf, ServerSettings);
    Ok((if ReadsIntoDest(reg, dest, buf) then p.0 else dest, p.1))
  }

  /** dest' is dest with the fields of src's class that sel selects copied
      over from src, the traversal applying sel again below, and every other
      field of dest as it was. */
  ghost predicate CopiedFrom(ct: ClassTable, imm: Immutables, sel: Option<Field -> bool>, src: Val, dest: Val, dest': Val)
    requires src.Obj? && dest.Obj?
  {
    && SelectedFields(ct, src.cls, sel).Ok?
    && dest'.Obj? && dest'.cls == dest.cls && dest'.fields.Keys == dest.fields.Keys
    && (forall g :: g in dest.fields && g !in SelectedFields(ct, src.cls, sel).value ==>
          dest'.fields[g] == dest.fields[g])
    && (forall g :: g in SelectedFields(ct, src.cls, sel).value ==>
          g in src.fields && g in dest.fields
          && if g.Type().Prim? then dest'.fields[g] == src.fields[g]
             else Copy(ct, imm, StreamFields(ct, sel), g.Type(), src.fields[g], dest.fields[g]) == Ok(dest'.fields[g]))
  }

  /** What a settings copy into an object does to it. */
  lemma CopySettingsEffect(ct: ClassTable, imm: Immutables, src: Val, dest: Val, sel: Option<Field -> bool>)
    requires WellFormed(ct) && CopiesIntoDest(imm, src, dest) && dest.Obj?
    requires CopySettings(ct, imm, src, dest, sel).Ok?
    ensures CopiedFrom(ct, imm, sel, src, dest, CopySettings(ct, imm, src, dest, sel).value)
  {
    var fields := StreamFields(ct, sel);
    StreamFieldsNoRepeats(ct, sel);
    CopyIntoObject(ct, imm, fields, src.cls, src, dest);
  }

  /** copyClientSettings changes exactly the instance fields without @Sync
      of src's class hierarchy: @Sync and static fields keep their values. */
  lemma CopyClientSettingsEffect(ct: ClassTable, imm: Immutables, src: Val, dest: Val)
    requires WellFormed(ct) && CopiesIntoDest(imm, src, dest) && dest.Obj?
    requires CopyClientSettings(ct, imm, src, dest).Ok?
    ensures DeclaredFields(ct, src.cls).Ok?
    ensures forall g :: g in dest.fields && (IsSync(g) || g.decl.isStatic) ==>
      CopyClientSettings(ct, imm, src, dest).value.fields[g] == dest.fields[g]
    ensures forall g :: g in DeclaredFields(ct, src.cls).value && !IsSync(g) && !g.decl.isStatic && g.Type().Prim? ==>
      g in src.fields && g in dest.fields && CopyClientSettings(ct, imm, src, dest).value.fields[g] == src.fields[g]
    ensures forall g :: g in DeclaredFields(ct, src.cls).value && !IsSync(g) && !g.decl.isStatic && !g.Type().Prim? ==>
      g in src.fields && g in dest.fields &&
      Copy(ct, imm, StreamFields(ct, ClientSettings), g.Type(), src.fields[g], dest.fields[g])
        == Ok(CopyClientSettings(ct, imm, src, dest).value.fields[g])
  {
    CopySettingsEffect(ct, imm, src, dest, ClientSettings);
  }

  /** copyAllSettings copies every instance field of src's class hierarchy;
      only static fields keep their values. */
  lemma CopyAllSettingsEffect(ct: ClassTable, imm: Immutables, src: Val, dest: Val)
    requires WellFormed(ct) && CopiesIntoDest(imm, src, dest) && dest.Obj?
    requires CopyAllSettings(ct, imm, src, dest).Ok?
    ensures DeclaredFields(ct, src.cls).Ok?
    ensures forall g :: g in dest.fields && g.decl.isStatic ==>
      CopyAllSettings(ct, imm, src, dest).value.fields[g] == dest.fields[g]
    ensures forall g :: g in DeclaredFields(ct, src.cls).value && !g.decl.isStatic && g.Type().Prim? ==>
      g in src.fields && g in dest.fields && CopyAllSettings(ct, imm, src, dest).value.fields[g] == src.fields[g]
    ensures forall g :: g in DeclaredFields(ct, src.cls).value && !g.decl.isStatic && !g.Type().Prim? ==>
      g in src.fields && g in dest.fields &&
      Copy(ct, imm, StreamFields(ct, AllSettings), g.Type(), src.fields[g], dest.fields[g])
        == Ok(CopyAllSettings(ct, imm, src, dest).value.fields[g])
  {
    CopySettingsEffect(ct, imm, src, dest, AllSettings);
  }

  /** Reading back what writeServerSettings wrote acts on dest as copying
      the server settings into it: exactly the @Sync fields are restored,
      the others are untouched, and the read consumes exactly the bytes
      written. */
  lemma ServerSettingsRoundTrip(reg: Registry, imm: Immutables, ct: ClassTable, src: Val, dest: Val, rest: seq<Byte>)
    requires Coherent(reg, imm) && WellFormed(ct)
    requires src.Obj? && dest.Obj? && dest.cls == src.cls && ClassType(src.cls) !in reg
    requires WriteServerSettings(reg, ct, src, []).Ok?
    ensures ReadServerSettings(reg, ct, dest, WriteServerSettings(reg, ct, src, []).value + rest)
         == WithRest(CopySettings(ct, imm, src, dest, ServerSettings), rest)
    ensures CopySettings(ct, imm, src, dest, ServerSettings).Ok? ==>
      CopiedFrom(ct, imm, ServerSettings, src, dest, CopySettings(ct, imm, src, dest, ServerSettings).value)
  {
    var bs := WriteServerSettings(reg, ct, src, []).value;
    assert bs == Write(reg, ct, src, ServerSettings).value;
    WriteReadInto(reg, imm, ct, src, dest, rest, ServerSettings);
    assert ClassType(src.cls) !in imm;
    if CopySettings(ct, imm, src, dest, ServerSettings).Ok? {
      CopySettingsEffect(ct, imm, src, dest, ServerSettings);
    }
  }
}
