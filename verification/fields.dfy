/** streamFields, written twice in the source (once per engine) and
    defined once here: the declared fields, without static ones, filtered
    by the optional predicate, stably sorted by name. */
module Fields {
  import opened Lang
  import opened Reflect
  import opened StreamUtil

  /** The UTF-16 code units of a string: what String.compareTo compares. */
  function Utf16(s: string): seq<int> {
    if s == [] then []
    else
      var cp := s[0] as int;
      (if cp < 0x1_0000 then [cp]
       else [0xD800 + (cp - 0x1_0000) / 1024, 0xDC00 + (cp - 0x1_0000) % 1024])
      + Utf16(s[1..])
  }

  /** Lexicographic order on code-unit sequences, a prefix first. */
  predicate LexLe(a: seq<int>, b: seq<int>)
    decreases |a|
  {
    |a| == 0 || (|b| > 0 && (a[0] < b[0] || (a[0] == b[0] && LexLe(a[1..], b[1..]))))
  }

  lemma {:induction false} LexLeReflexive(a: seq<int>)
    ensures LexLe(a, a)
    decreases |a|
  {
    if |a| > 0 {
      LexLeReflexive(a[1..]);
    }
  }

  lemma {:induction false} LexLeTotal(a: seq<int>, b: seq<int>)
    ensures LexLe(a, b) || LexLe(b, a)
    decreases |a|
  {
    if |a| > 0 && |b| > 0 && a[0] == b[0] {
      LexLeTotal(a[1..], b[1..]);
    }
  }

  lemma {:induction false} LexLeTransitive(a: seq<int>, b: seq<int>, c: seq<int>)
    requires LexLe(a, b) && LexLe(b, c)
    ensures LexLe(a, c)
    decreases |a|
  {
    if |a| > 0 && a[0] == b[0] && b[0] == c[0] {
      LexLeTransitive(a[1..], b[1..], c[1..]);
    }
  }

  /** Comparator.comparing(Field::getName), as "not after". */
  predicate NameLe(f: Field, g: Field) {
    LexLe(Utf16(f.Name()), Utf16(g.Name()))
  }

  predicate SortedByName(fs: seq<Field>) {
    forall i, j :: 0 <= i < j < |fs| ==> NameLe(fs[i], fs[j])
  }

  /** Places f before the first field whose name is not smaller, so that f
      stays ahead of fields of equal name. */
  function Insert(f: Field, fs: seq<Field>): (r: seq<Field>)
    ensures multiset(r) == multiset(fs) + multiset{f}
    ensures |r| == |fs| + 1
  {
    if fs == [] || NameLe(f, fs[0]) then [f] + fs
    else
      assert fs == [fs[0]] + fs[1..];
      [fs[0]] + Insert(f, fs[1..])
  }

  lemma {:induction false} InsertSorted(f: Field, fs: seq<Field>)
    requires SortedByName(fs)
    ensures SortedByName(Insert(f, fs))
  {
    if fs == [] || NameLe(f, fs[0]) {
      var r := [f] + fs;
      forall i, j | 0 <= i < j < |r|
        ensures NameLe(r[i], r[j])
      {
        if i == 0 && j > 1 {
          LexLeTransitive(Utf16(f.Name()), Utf16(fs[0].Name()), Utf16(r[j].Name()));
        }
      }
    } else {
      LexLeTotal(Utf16(f.Name()), Utf16(fs[0].Name()));
      InsertSorted(f, fs[1..]);
      var t := Insert(f, fs[1..]);
      var r := [fs[0]] + t;
      forall i, j | 0 <= i < j < |r|
        ensures NameLe(r[i], r[j])
      {
        if i == 0 {
          assert r[j] in multiset(t);
          assert r[j] == f || r[j] in fs[1..];
        }
      }
    }
  }

  /** The stable sort by name (Stream.sorted on an ordered stream): a
      permutation of fs, ordered by name. */
  function SortByName(fs: seq<Field>): (r: seq<Field>)
    ensures multiset(r) == multiset(fs) && |r| == |fs|
    ensures SortedByName(r)
  {
    if fs == [] then []
    else
      assert fs == [fs[0]] + fs[1..];
      InsertSorted(fs[0], SortByName(fs[1..]));
      Insert(fs[0], SortByName(fs[1..]))
  }

  /** The fields of fs named n, in the order of fs. */
  function Named(fs: seq<Field>, n: string): seq<Field> {
    if fs == [] then [] else (if fs[0].Name() == n then [fs[0]] else []) + Named(fs[1..], n)
  }

  lemma {:induction false} NamedInsert(f: Field, fs: seq<Field>, n: string)
    ensures Named(Insert(f, fs), n) == (if f.Name() == n then [f] else []) + Named(fs, n)
  {
    if fs == [] || NameLe(f, fs[0]) {
      assert ([f] + fs)[1..] == fs;
    } else {
      var r := [fs[0]] + Insert(f, fs[1..]);
      assert r[1..] == Insert(f, fs[1..]);
      NamedInsert(f, fs[1..], n);
      if fs[0].Name() == n && f.Name() == n {
        LexLeReflexive(Utf16(n));
      }
    }
  }

  /** The sort is stable: fields of equal name (a field and the fields it
      shadows) keep their relative order, most-derived first. */
  lemma {:induction false} SortStable(fs: seq<Field>, n: string)
    ensures Named(SortByName(fs), n) == Named(fs, n)
  {
    if fs != [] {
      SortStable(fs[1..], n);
      NamedInsert(fs[0], SortByName(fs[1..]), n);
    }
  }

  /** Whether a traversal with predicate sel visits f: instance fields only,
      and only those the predicate accepts (all of them when it is null). */
  predicate Selects(sel: Option<Field -> bool>, f: Field) {
    !f.decl.isStatic && (sel.None? || sel.value(f))
  }

  /** The filter steps of streamFields, keeping the stream's order. */
  function Keep(fs: seq<Field>, sel: Option<Field -> bool>): (r: seq<Field>)
    ensures forall f :: f in r <==> f in fs && Selects(sel, f)
    ensures NoDup(fs) ==> NoDup(r)
  {
    if fs == [] then []
    else
      var rest := Keep(fs[1..], sel);
      assert forall i :: 0 <= i < |rest| ==> rest[i] in fs[1..];
      if Selects(sel, fs[0]) then [fs[0]] + rest else rest
  }

  /** streamFields(type, predicate). */
  function SelectedFields(ct: ClassTable, c: ClassName, sel: Option<Field -> bool>): (r: Result<seq<Field>>)
    ensures r.Ok? <==> DeclaredFields(ct, c).Ok?
    ensures r.Ok? ==> SortedByName(r.value)
    ensures r.Ok? ==> forall f :: f in r.value <==> f in DeclaredFields(ct, c).value && Selects(sel, f)
  {
    var all :- DeclaredFields(ct, c);
    var r := SortByName(Keep(all, sel));
    assert forall f :: f in r <==> f in multiset(r);
    Ok(r)
  }

  /** A sequence with no repeats stays so under any permutation. */
  lemma PermutationNoDup(a: seq<Field>, b: seq<Field>)
    requires multiset(a) == multiset(b) && NoDup(a)
    ensures NoDup(b)
  {
    forall i, j | 0 <= i < j < |b|
      ensures b[i] != b[j]
    {
      if b[i] == b[j] {
        var x := b[i];
        assert b == b[..i] + [x] + b[i + 1..j] + [x] + b[j + 1..];
        MultiplicityNoDup(a, x);
        assert false;
      }
    }
  }

  lemma {:induction false} MultiplicityNoDup(a: seq<Field>, x: Field)
    requires NoDup(a)
    ensures multiset(a)[x] <= 1
  {
    if a != [] {
      assert a == [a[0]] + a[1..];
      MultiplicityNoDup(a[1..], x);
      if a[0] == x {
        assert x !in a[1..];
      }
    }
  }

  /** In a well-formed table a traversal visits each selected field once. */
  lemma SelectedFieldsNoDup(ct: ClassTable, c: ClassName, sel: Option<Field -> bool>)
    requires WellFormed(ct) && SelectedFields(ct, c, sel).Ok?
    ensures NoDup(SelectedFields(ct, c, sel).value)
  {
    DeclaredFieldsNoDup(ct, c);
    var k := Keep(DeclaredFields(ct, c).value, sel);
    PermutationNoDup(k, SortByName(k));
  }

  /** What streamFields(type, predicate) yields for each class, the
      predicate being fixed: the engines see the traversal only through
      this. */
  type Traversal = ClassName -> Result<seq<Field>>

  function StreamFields(ct: ClassTable, sel: Option<Field -> bool>): (r: Traversal)
    ensures forall c :: r(c) == SelectedFields(ct, c, sel)
  {
    c => SelectedFields(ct, c, sel)
  }

  /** A traversal that never visits a field twice. */
  ghost predicate NoRepeats(fields: Traversal) {
    forall c :: fields(c).Ok? ==> NoDup(fields(c).value)
  }

  lemma StreamFieldsNoRepeats(ct: ClassTable, sel: Option<Field -> bool>)
    requires WellFormed(ct)
    ensures NoRepeats(StreamFields(ct, sel))
  {
    forall c | StreamFields(ct, sel)(c).Ok?
      ensures NoDup(StreamFields(ct, sel)(c).value)
    {
      SelectedFieldsNoDup(ct, c, sel);
    }
  }
}
