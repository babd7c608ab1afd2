/** StreamUtil: the superclass walk, the concatenation of declared fields
    along it, and the first-error-wins loop the engines run over fields. */
module StreamUtil {
  import opened Lang
  import opened Reflect

  /** No element occurs twice. */
  predicate NoDup<T(==)>(s: seq<T>) {
    forall i, j :: 0 <= i < j < |s| ==> s[i] != s[j]
  }

  /** The walk from c upwards, refusing to enter a class twice; `unvisited`
      holds the classes it may still enter. */
  function Walk(ct: ClassTable, c: ClassName, unvisited: set<ClassName>): (r: Result<seq<ClassName>>)
    ensures r.Ok? ==> (r.value == [] <==> c == ObjectClass)
    ensures r.Ok? && r.value != [] ==> r.value[0] == c
    ensures r.Ok? ==> forall i :: 0 <= i < |r.value| ==> r.value[i] in ct && r.value[i] in unvisited
    ensures r.Ok? ==> forall i :: 0 <= i < |r.value| - 1 ==> ct[r.value[i]].superclass == Some(r.value[i + 1])
    ensures r.Ok? && r.value != [] ==> ct[r.value[|r.value| - 1]].superclass == Some(ObjectClass)
    ensures r.Ok? ==> ObjectClass !in r.value && NoDup(r.value)
    decreases unvisited
  {
    if c == ObjectClass then Ok([])
    else if c !in ct then Err(NoClassDef(c))
    else if c !in unvisited then Err(StackOverflow)
    else match ct[c].superclass
      case None => Err(NullPointer)
      case Some(s) =>
        var rest :- Walk(ct, s, unvisited - {c});
        Ok([c] + rest)
  }

  /** streamClassHierarchy: the class itself, then each superclass in turn,
      stopping before java.lang.Object. */
  function ClassHierarchy(ct: ClassTable, c: ClassName): Result<seq<ClassName>> {
    Walk(ct, c, ct.Keys)
  }

  lemma HierarchyOfObject(ct: ClassTable)
    ensures ClassHierarchy(ct, ObjectClass) == Ok([])
  {
  }

  /** Which classes may still be entered does not matter, as long as the
      walk's own classes may. */
  lemma {:induction false} WalkUnvisited(ct: ClassTable, c: ClassName, u: set<ClassName>, u': set<ClassName>)
    requires Walk(ct, c, u).Ok?
    requires forall x :: x in Walk(ct, c, u).value ==> x in u'
    ensures Walk(ct, c, u') == Walk(ct, c, u)
    decreases u
  {
    var h := Walk(ct, c, u).value;
    if c != ObjectClass {
      var s := ct[c].superclass.value;
      assert h[1..] == Walk(ct, s, u - {c}).value;
      forall x | x in h[1..]
        ensures x in u' - {c}
      {
        assert x != h[0];
      }
      WalkUnvisited(ct, s, u - {c}, u' - {c});
    }
  }

  /** The hierarchy of a class is the class followed by the hierarchy of its
      superclass. */
  lemma HierarchyOfSuperclass(ct: ClassTable, c: ClassName)
    requires ClassHierarchy(ct, c).Ok? && c != ObjectClass
    ensures ct[c].superclass.Some?
    ensures ClassHierarchy(ct, ct[c].superclass.value).Ok?
    ensures ClassHierarchy(ct, c).value == [c] + ClassHierarchy(ct, ct[c].superclass.value).value
  {
    var s := ct[c].superclass.value;
    var h := ClassHierarchy(ct, c).value;
    assert Walk(ct, s, ct.Keys - {c}).value == h[1..];
    WalkUnvisited(ct, s, ct.Keys - {c}, ct.Keys);
  }

  /** The Field objects of the fields class c declares itself, in
      declaration order (Class.getDeclaredFields). */
  function LevelFields(ct: ClassTable, c: ClassName): (r: seq<Field>)
    requires c in ct
    ensures |r| == |ct[c].declared|
    ensures forall i :: 0 <= i < |r| ==> r[i] == Field(c, ct[c].declared[i])
  {
    seq(|ct[c].declared|, i requires 0 <= i < |ct[c].declared| => Field(c, ct[c].declared[i]))
  }

  /** The declared fields of each class of h, concatenated in order. */
  function FieldsOf(ct: ClassTable, h: seq<ClassName>): seq<Field>
    requires forall i :: 0 <= i < |h| ==> h[i] in ct
  {
    if h == [] then [] else LevelFields(ct, h[0]) + FieldsOf(ct, h[1..])
  }

  /** streamDeclaredFields: the declared fields of every class of the
      hierarchy, most-derived class first, with nothing merged or dropped. */
  function DeclaredFields(ct: ClassTable, c: ClassName): Result<seq<Field>> {
    var h :- ClassHierarchy(ct, c);
    Ok(FieldsOf(ct, h))
  }

  /** The total number of fields the classes of h declare. */
  function DeclaredCount(ct: ClassTable, h: seq<ClassName>): nat
    requires forall i :: 0 <= i < |h| ==> h[i] in ct
  {
    if h == [] then 0 else |ct[h[0]].declared| + DeclaredCount(ct, h[1..])
  }

  lemma {:induction false} FieldsOfMembers(ct: ClassTable, h: seq<ClassName>)
    requires forall i :: 0 <= i < |h| ==> h[i] in ct
    ensures |FieldsOf(ct, h)| == DeclaredCount(ct, h)
    ensures forall f :: f in FieldsOf(ct, h) <==> f.owner in h && f.decl in ct[f.owner].declared
  {
    if h != [] {
      FieldsOfMembers(ct, h[1..]);
      var level := LevelFields(ct, h[0]);
      forall f: Field | f.owner == h[0] && f.decl in ct[f.owner].declared
        ensures f in level
      {
        var i :| 0 <= i < |ct[h[0]].declared| && ct[h[0]].declared[i] == f.decl;
        assert level[i] == f;
      }
    }
  }

  /** The declared fields of a class are its own, followed by those of its
      superclass; their number is the sum over the hierarchy (a field that
      shadows a superclass field of the same name does not replace it), and
      a field is among them exactly when some class of the hierarchy
      declares it. */
  lemma DeclaredFieldsShape(ct: ClassTable, c: ClassName)
    requires DeclaredFields(ct, c).Ok?
    ensures c == ObjectClass ==> DeclaredFields(ct, c).value == []
    ensures c != ObjectClass ==>
      && ct[c].superclass.Some?
      && DeclaredFields(ct, ct[c].superclass.value).Ok?
      && DeclaredFields(ct, c).value == LevelFields(ct, c) + DeclaredFields(ct, ct[c].superclass.value).value
    ensures |DeclaredFields(ct, c).value| == DeclaredCount(ct, ClassHierarchy(ct, c).value)
    ensures forall f :: f in DeclaredFields(ct, c).value <==>
      f.owner in ClassHierarchy(ct, c).value && f.decl in ct[f.owner].declared
  {
    FieldsOfMembers(ct, ClassHierarchy(ct, c).value);
    if c != ObjectClass {
      HierarchyOfSuperclass(ct, c);
      var h := ClassHierarchy(ct, c).value;
      assert h[1..] == ClassHierarchy(ct, ct[c].superclass.value).value;
    }
  }

  /** The class table as the JVM guarantees it: no class declares the same
      field twice. */
  predicate WellFormed(ct: ClassTable) {
    forall c :: c in ct ==> NoDup(ct[c].declared)
  }

  lemma {:induction false} FieldsOfNoDup(ct: ClassTable, h: seq<ClassName>)
    requires forall i :: 0 <= i < |h| ==> h[i] in ct
    requires WellFormed(ct) && NoDup(h)
    ensures NoDup(FieldsOf(ct, h))
  {
    if h != [] {
      FieldsOfNoDup(ct, h[1..]);
      FieldsOfMembers(ct, h[1..]);
      var level := LevelFields(ct, h[0]);
      var rest := FieldsOf(ct, h[1..]);
      var all := level + rest;
      forall i, j | 0 <= i < j < |all|
        ensures all[i] != all[j]
      {
        if j < |level| {
          assert ct[h[0]].declared[i] != ct[h[0]].declared[j];
        } else if i < |level| {
          assert all[j] in rest;
          assert all[i].owner == h[0] && h[0] !in h[1..];
        } else {
          assert all[i] == rest[i - |level|] && all[j] == rest[j - |level|];
        }
      }
    }
  }

  /** In a well-formed table no field is visited twice. */
  lemma DeclaredFieldsNoDup(ct: ClassTable, c: ClassName)
    requires WellFormed(ct) && DeclaredFields(ct, c).Ok?
    ensures NoDup(DeclaredFields(ct, c).value)
  {
    FieldsOfNoDup(ct, ClassHierarchy(ct, c).value);
  }

  /** What forEachUnchecked rethrows for a failure of the action: the
      failure itself when it is of the declared type, else the failure
      wrapped in UnknownException. */
  function Escape(e: Failure, isDeclared: Failure -> bool): (r: Failure)
    ensures isDeclared(e) ==> r == e
    ensures !isDeclared(e) ==> r == UnknownException(e)
  {
    if isDeclared(e) then e else UnknownException(e)
  }

  /** forEachUnchecked: applies the action to each element in stream order,
      threading the state the action updates; the first failure ends the
      loop and is rethrown through Escape. */
  function ForEachUnchecked<T, S>(xs: seq<T>, s: S, action: (S, T) -> Result<S>, isDeclared: Failure -> bool): (r: Result<S>)
    ensures r.Err? ==> isDeclared(r.error) || r.error.UnknownException?
  {
    if xs == [] then Ok(s)
    else match action(s, xs[0])
      case Err(e) => Err(Escape(e, isDeclared))
      case Ok(s') => ForEachUnchecked(xs[1..], s', action, isDeclared)
  }

  /** Running over xs + ys is running over xs, then over ys from where it stopped. */
  lemma {:induction false} ForEachAppend<T, S>(xs: seq<T>, ys: seq<T>, s: S, action: (S, T) -> Result<S>, isDeclared: Failure -> bool)
    ensures ForEachUnchecked(xs + ys, s, action, isDeclared) ==
      match ForEachUnchecked(xs, s, action, isDeclared)
      case Err(e) => Err(e)
      case Ok(s') => ForEachUnchecked(ys, s', action, isDeclared)
  {
    if xs == [] {
      assert xs + ys == ys;
    } else {
      assert (xs + ys)[1..] == xs[1..] + ys;
      match action(s, xs[0])
      case Err(e) =>
      case Ok(s') => ForEachAppend(xs[1..], ys, s', action, isDeclared);
    }
  }

  /** The first failing element decides the outcome; later elements are
      never reached. A failure of the declared type comes out as it is, any
      other wrapped once in UnknownException. */
  lemma FirstFailureWins<T, S>(xs: seq<T>, i: nat, s: S, s': S, e: Failure, action: (S, T) -> Result<S>, isDeclared: Failure -> bool)
    requires i < |xs|
    requires ForEachUnchecked(xs[..i], s, action, isDeclared) == Ok(s')
    requires action(s', xs[i]) == Err(e)
    ensures ForEachUnchecked(xs, s, action, isDeclared) == Err(Escape(e, isDeclared))
    ensures isDeclared(e) ==> ForEachUnchecked(xs, s, action, isDeclared) == Err(e)
    ensures !isDeclared(e) ==> ForEachUnchecked(xs, s, action, isDeclared) == Err(UnknownException(e))
  {
    assert xs == xs[..i] + xs[i..];
    ForEachAppend(xs[..i], xs[i..], s, action, isDeclared);
  }

  /** The state after applying step to each element of xs in order. */
  function Fold<T, S>(xs: seq<T>, s: S, step: (S, T) -> S): S {
    if xs == [] then s else Fold(xs[1..], step(s, xs[0]), step)
  }

  /** When the action never fails, it is applied to every element in order. */
  lemma {:induction false} ForEachNeverFailing<T, S>(xs: seq<T>, s: S, step: (S, T) -> S, isDeclared: Failure -> bool)
    ensures ForEachUnchecked(xs, s, (s0, x) => Ok(step(s0, x)), isDeclared) == Ok(Fold(xs, s, step))
  {
    if xs != [] {
      ForEachNeverFailing(xs[1..], step(s, xs[0]), step, isDeclared);
    }
  }
}
