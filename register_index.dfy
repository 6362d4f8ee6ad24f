/** The register's four secondary indices as functions of its employees,
    built the way Register::add builds them one record at a time, together
    with the plain filters they are proved equal to. An employee is read as
    the record's address paired with the fields it holds, so the indices are
    functions of values and do not depend on the heap. */
module RegisterIndex {
  import opened Records

  /** One entry of the employees vector: the record's address and its fields. */
  datatype Employee = Employee(rec: Record, fields: Fields)

  /** The employees vector read as entries, in order. */
  function StaffOf(emps: seq<Record>): (s: seq<Employee>)
    reads emps
    ensures |s| == |emps|
  {
    if emps == [] then []
    else
      var r := emps[|emps| - 1];
      StaffOf(emps[..|emps| - 1]) + [Employee(r, r.Data())]
  }

  /** Entry i of the staff is record i with the fields it holds. */
  lemma {:induction false} StaffOfSpec(emps: seq<Record>)
    ensures forall i :: 0 <= i < |emps| ==> StaffOf(emps)[i] == Employee(emps[i], emps[i].Data())
  {
    if emps != [] {
      var n := |emps| - 1;
      StaffOfSpec(emps[..n]);
    }
  }

  /** The two attributes that group records into a vector index. */
  datatype Attr = Dep | Pos

  function AttrOf(f: Fields, a: Attr): string
  {
    match a
    case Dep => f.dep
    case Pos => f.pos
  }

  /** `m[k]` of a std::map whose operator[] supplies an empty vector. */
  function Entry<V>(m: map<string, seq<V>>, k: string): seq<V>
  {
    if k in m then m[k] else []
  }

  /** name -> record: every add overwrites the entry of its name. */
  function NameIndex(staff: seq<Employee>): map<string, Record>
  {
    if staff == [] then map[]
    else
      var e := staff[|staff| - 1];
      NameIndex(staff[..|staff| - 1])[e.fields.name := e.rec]
  }

  /** department or position -> records: every add appends to its key. */
  function GroupIndex(staff: seq<Employee>, a: Attr): map<string, seq<Record>>
  {
    if staff == [] then map[]
    else
      var e, m := staff[|staff| - 1], GroupIndex(staff[..|staff| - 1], a);
      m[AttrOf(e.fields, a) := Entry(m, AttrOf(e.fields, a)) + [e.rec]]
  }

  /** boss -> names of direct subordinates: every add appends its name. */
  function SubordIndex(staff: seq<Employee>): map<string, seq<string>>
  {
    if staff == [] then map[]
    else
      var e, m := staff[|staff| - 1], SubordIndex(staff[..|staff| - 1]);
      m[e.fields.boss := Entry(m, e.fields.boss) + [e.fields.name]]
  }

  /** The records whose attribute `a` is `k`, in insertion order. */
  function Having(staff: seq<Employee>, a: Attr, k: string): seq<Record>
  {
    if staff == [] then []
    else
      var e := staff[|staff| - 1];
      Having(staff[..|staff| - 1], a, k) + (if AttrOf(e.fields, a) == k then [e.rec] else [])
  }

  /** The names of the records whose boss is `boss`, in insertion order. */
  function NamesUnder(staff: seq<Employee>, boss: string): seq<string>
  {
    if staff == [] then []
    else
      var e := staff[|staff| - 1];
      NamesUnder(staff[..|staff| - 1], boss) + (if e.fields.boss == boss then [e.fields.name] else [])
  }

  /** The records aged within [lo, hi], in insertion order. */
  function AgedWithin(staff: seq<Employee>, lo: nat, hi: nat): seq<Record>
  {
    if staff == [] then []
    else
      var e := staff[|staff| - 1];
      AgedWithin(staff[..|staff| - 1], lo, hi) + (if lo <= e.fields.age <= hi then [e.rec] else [])
  }

  /** An employee with these working days works on at least one of `ds`. */
  predicate WorksOnAny(days: seq<string>, ds: set<string>)
  {
    exists d :: d in ds && d in days
  }

  /** staff[i] is the last entry named k. */
  predicate LastNamed(staff: seq<Employee>, k: string, i: int)
  {
    0 <= i < |staff| && staff[i].fields.name == k && forall j :: i < j < |staff| ==> staff[j].fields.name != k
  }

  /** The name index holds exactly the names present, each mapped to the
      record of the last entry added under it. */
  lemma {:induction false} NameIndexSpec(staff: seq<Employee>, k: string)
    ensures k in NameIndex(staff) <==> exists i :: 0 <= i < |staff| && staff[i].fields.name == k
    ensures k in NameIndex(staff) ==> exists i :: LastNamed(staff, k, i) && NameIndex(staff)[k] == staff[i].rec
  {
    if staff != [] {
      var n := |staff| - 1;
      var init := staff[..n];
      NameIndexSpec(init, k);
      if staff[n].fields.name != k && k in NameIndex(init) {
        var i :| LastNamed(init, k, i) && NameIndex(init)[k] == init[i].rec;
        assert staff[i] == init[i] && LastNamed(staff, k, i);
      }
      if k in NameIndex(staff) && staff[n].fields.name != k {
        assert exists i :: 0 <= i < n && init[i].fields.name == k;
      }
    }
  }

  /** A department or position key is present exactly when some entry has
      it, and maps to those records in insertion order. */
  lemma {:induction false} GroupIndexSpec(staff: seq<Employee>, a: Attr, k: string)
    ensures k in GroupIndex(staff, a) <==> Having(staff, a, k) != []
    ensures Entry(GroupIndex(staff, a), k) == Having(staff, a, k)
  {
    if staff != [] {
      GroupIndexSpec(staff[..|staff| - 1], a, k);
    }
  }

  /** The same for the boss index and the names under a boss. */
  lemma {:induction false} SubordIndexSpec(staff: seq<Employee>, boss: string)
    ensures boss in SubordIndex(staff) <==> NamesUnder(staff, boss) != []
    ensures Entry(SubordIndex(staff), boss) == NamesUnder(staff, boss)
  {
    if staff != [] {
      SubordIndexSpec(staff[..|staff| - 1], boss);
    }
  }

  /** Having selects exactly the records of the entries with the attribute value. */
  lemma {:induction false} HavingSpec(staff: seq<Employee>, a: Attr, k: string)
    ensures forall r :: r in Having(staff, a, k) ==>
      exists i :: 0 <= i < |staff| && staff[i].rec == r && AttrOf(staff[i].fields, a) == k
    ensures forall i :: 0 <= i < |staff| && AttrOf(staff[i].fields, a) == k ==> staff[i].rec in Having(staff, a, k)
  {
    if staff != [] {
      var n := |staff| - 1;
      HavingSpec(staff[..n], a, k);
      assert forall i :: 0 <= i < n ==> staff[..n][i] == staff[i];
    }
  }

  /** NamesUnder lists a name exactly when an entry with that name has the boss. */
  lemma {:induction false} NamesUnderSpec(staff: seq<Employee>, boss: string)
    ensures forall s :: s in NamesUnder(staff, boss) ==>
      exists i :: 0 <= i < |staff| && staff[i].fields.boss == boss && staff[i].fields.name == s
    ensures forall i :: 0 <= i < |staff| && staff[i].fields.boss == boss ==> staff[i].fields.name in NamesUnder(staff, boss)
  {
    if staff != [] {
      var n := |staff| - 1;
      NamesUnderSpec(staff[..n], boss);
      assert forall i :: 0 <= i < n ==> staff[..n][i] == staff[i];
    }
  }

  /** The age filter is inclusive at both ends, and empty when lo > hi. */
  lemma {:induction false} AgedWithinSpec(staff: seq<Employee>, lo: nat, hi: nat)
    ensures forall r :: r in AgedWithin(staff, lo, hi) ==>
      exists i :: 0 <= i < |staff| && staff[i].rec == r && lo <= staff[i].fields.age <= hi
    ensures forall i :: 0 <= i < |staff| && lo <= staff[i].fields.age <= hi ==> staff[i].rec in AgedWithin(staff, lo, hi)
    ensures lo > hi ==> AgedWithin(staff, lo, hi) == []
  {
    if staff != [] {
      var n := |staff| - 1;
      AgedWithinSpec(staff[..n], lo, hi);
      assert forall i :: 0 <= i < n ==> staff[..n][i] == staff[i];
    }
  }

  /** Two entry sequences of the same length whose entries hold equal fields, position by position. */
  predicate SameFields(a: seq<Employee>, b: seq<Employee>)
  {
    |a| == |b| && forall i :: 0 <= i < |a| ==> a[i].fields == b[i].fields
  }

  /** Records holding equal fields, position by position, read as equal-fields entries. */
  lemma {:induction false} SameDataSameFields(a: seq<Record>, b: seq<Record>)
    requires |a| == |b| && forall i :: 0 <= i < |a| ==> a[i].Data() == b[i].Data()
    ensures SameFields(StaffOf(a), StaffOf(b))
  {
    StaffOfSpec(a);
    StaffOfSpec(b);
  }

  /** Indices built from entries with equal fields, position by position,
      have the same keys and list lengths; the boss index, which holds
      names, is equal outright. */
  lemma {:induction false} SameFieldsSameShape(a: seq<Employee>, b: seq<Employee>)
    requires SameFields(a, b)
    ensures NameIndex(a).Keys == NameIndex(b).Keys
    ensures SubordIndex(a) == SubordIndex(b)
    ensures forall x: Attr :: GroupIndex(a, x).Keys == GroupIndex(b, x).Keys
    ensures forall x: Attr, k :: k in GroupIndex(a, x) ==> |GroupIndex(a, x)[k]| == |GroupIndex(b, x)[k]|
  {
    if a != [] {
      var n := |a| - 1;
      assert SameFields(a[..n], b[..n]);
      SameFieldsSameShape(a[..n], b[..n]);
    }
  }
}
