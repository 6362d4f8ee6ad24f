/** The employee Register: a vector of records plus four secondary indices
    that Register::add keeps up to date in place. */
module Registers {
  import opened Outcomes
  import opened Records
  import opened RegisterIndex

  class Register {
    var employees: seq<Record>
    var nameIdx: map<string, Record>
    var depIdx: map<string, seq<Record>>
    var posIdx: map<string, seq<Record>>
    var subordIdx: map<string, seq<string>>

    /** The employees as entries: each record with the fields it holds now. */
    ghost function Staff(): seq<Employee>
      reads this, employees
    {
      StaffOf(employees)
    }

    /** Index consistency: every index is the one the records, added in
        order, build. */
    ghost predicate Valid()
      reads this, employees
    {
      var staff := Staff();
      && nameIdx == NameIndex(staff)
      && depIdx == GroupIndex(staff, Dep)
      && posIdx == GroupIndex(staff, Pos)
      && subordIdx == SubordIndex(staff)
    }

    /** Default constructor: no records, empty indices. */
    constructor ()
      ensures Valid() && employees == []
      ensures nameIdx == map[] && depIdx == map[] && posIdx == map[] && subordIdx == map[]
    {
      employees, nameIdx, depIdx, posIdx, subordIdx := [], map[], map[], map[], map[];
    }

    /** Copy constructor: adds a fresh copy of every record of `other`, in order. */
    constructor Copy(other: Register)
      requires other.Valid()
      ensures Valid() && |employees| == |other.employees|
      ensures forall i :: 0 <= i < |employees| ==> employees[i].Data() == other.employees[i].Data()
      ensures forall e :: e in employees ==> fresh(e)
    {
      employees, nameIdx, depIdx, posIdx, subordIdx := [], map[], map[], map[], map[];
      new;
      while |employees| < |other.employees|
        invariant Valid() && |employees| <= |other.employees|
        invariant forall i :: 0 <= i < |employees| ==> employees[i].Data() == other.employees[i].Data()
        invariant forall e :: e in employees ==> fresh(e)
        decreases |other.employees| - |employees|
      {
        AddCopyOf(other);
      }
    }

    /** One step of the copy constructor: add a fresh copy of the next record of `other`. */
    method AddCopyOf(other: Register)
      requires Valid() && other != this
      requires |employees| < |other.employees|
      requires forall i :: 0 <= i < |employees| ==> employees[i].Data() == other.employees[i].Data()
      modifies this
      ensures Valid() && |employees| == old(|employees|) + 1
      ensures forall i :: 0 <= i < |employees| ==> employees[i].Data() == other.employees[i].Data()
      ensures forall e :: e in employees ==> e in old(employees) || fresh(e)
    {
      ghost var before := employees;
      var copy := new Record.Copy(other.employees[|employees|]);
      Add(copy);
      forall i | 0 <= i < |employees|
        ensures employees[i].Data() == other.employees[i].Data()
      {
        if i < |before| {
          assert employees[i] == before[i];
        }
      }
    }

    /** clearRegister: no records and empty indices. */
    method Clear()
      modifies this
      ensures Valid() && employees == []
      ensures nameIdx == map[] && depIdx == map[] && posIdx == map[] && subordIdx == map[]
    {
      employees := [];
      nameIdx := map[];
      depIdx := map[];
      posIdx := map[];
      subordIdx := map[];
    }

    function Size(): nat
      reads this
    {
      |employees|
    }

    /** getStorage(): all records in insertion order. */
    function Storage(): seq<Record>
      reads this
    {
      employees
    }

    /** add: appends the record and files it in every index. */
    method Add(r: Record)
      requires Valid()
      modifies this
      ensures Valid()
      ensures employees == old(employees) + [r] && Size() == old(Size()) + 1
      ensures nameIdx == old(nameIdx)[r.name := r]
      ensures depIdx == old(depIdx)[r.dep := Entry(old(depIdx), r.dep) + [r]]
      ensures posIdx == old(posIdx)[r.pos := Entry(old(posIdx), r.pos) + [r]]
      ensures subordIdx == old(subordIdx)[r.boss := Entry(old(subordIdx), r.boss) + [r.name]]
    {
      ghost var staff := Staff();
      employees := employees + [r];
      assert employees[..|staff|] == old(employees);
      nameIdx := nameIdx[r.name := r];
      depIdx := depIdx[r.dep := Entry(depIdx, r.dep) + [r]];
      posIdx := posIdx[r.pos := Entry(posIdx, r.pos) + [r]];
      subordIdx := subordIdx[r.boss := Entry(subordIdx, r.boss) + [r.name]];
    }

    /** getStorage(age_l, age_h): the records aged within [lo, hi], in order. */
    method StorageByAge(lo: nat, hi: nat) returns (emps: seq<Record>)
      ensures emps == AgedWithin(Staff(), lo, hi)
      ensures forall r :: r in emps ==> exists i :: 0 <= i < |employees| && employees[i] == r && lo <= r.age <= hi
      ensures forall i :: 0 <= i < |employees| && lo <= employees[i].age <= hi ==> employees[i] in emps
      ensures lo > hi ==> emps == []
    {
      ghost var staff := Staff();
      StaffOfSpec(employees);
      emps := [];
      for i := 0 to |employees|
        invariant emps == AgedWithin(staff[..i], lo, hi)
      {
        var r := employees[i];
        if lo <= r.age && r.age <= hi {
          emps := emps + [r];
        }
        assert staff[..i + 1][..i] == staff[..i];
      }
      assert staff[..|employees|] == staff;
      AgedWithinSpec(staff, lo, hi);
    }

    /** getEmpByWorkDays(days): the records that work on at least one given day. */
    method EmpByWorkDays(days: set<string>) returns (emps: set<Record>)
      ensures emps == set r | r in employees && WorksOnAny(r.days, days)
      ensures days == {} ==> emps == {}
    {
      emps := {};
      for i := 0 to |employees|
        invariant emps == set r | r in employees[..i] && WorksOnAny(r.days, days)
      {
        var r := employees[i];
        var rest := days;
        while rest != {}
          invariant rest <= days
          invariant emps == set r | r in employees[..i] && WorksOnAny(r.days, days)
          invariant forall d :: d in days - rest ==> d !in r.days
          decreases rest
        {
          var d :| d in rest;
          if d in r.days {
            emps := emps + {r};
            break;
          }
          rest := rest - {d};
        }
        assert employees[..i + 1] == employees[..i] + [r];
      }
      assert employees[..|employees|] == employees;
    }

    /** getRecByName: throws when no record has the name, otherwise the
        record added last under it. */
    function RecByName(name: string): (r: Result<Record>)
      reads this, employees
      requires Valid()
      ensures r.Err? <==> forall i :: 0 <= i < |employees| ==> employees[i].name != name
      ensures r.Err? ==> r.error == InvalidArgument
      ensures r.Ok? ==> exists i :: LastNamed(Staff(), name, i) && r.value == employees[i]
    {
      StaffOfSpec(employees);
      NameIndexSpec(Staff(), name);
      if name in nameIdx then Ok(nameIdx[name]) else Err(InvalidArgument)
    }

    /** getEmpByDep: throws when no record has the department, otherwise its
        records in insertion order. */
    function EmpByDep(dep: string): (r: Result<seq<Record>>)
      reads this, employees
      requires Valid()
      ensures r.Err? <==> forall i :: 0 <= i < |employees| ==> employees[i].dep != dep
      ensures r.Err? ==> r.error == InvalidArgument
      ensures r.Ok? ==> r.value == Having(Staff(), Dep, dep)
      ensures r.Ok? ==>
        && (forall e :: e in r.value ==> exists i :: 0 <= i < |employees| && employees[i] == e && e.dep == dep)
        && (forall i :: 0 <= i < |employees| && employees[i].dep == dep ==> employees[i] in r.value)
    {
      var staff := Staff();
      StaffOfSpec(employees);
      GroupIndexSpec(staff, Dep, dep);
      HavingSpec(staff, Dep, dep);
      if dep in depIdx then
        assert Having(staff, Dep, dep)[0] in depIdx[dep];
        Ok(depIdx[dep])
      else
        Err(InvalidArgument)
    }

    /** getEmpByPos: the same for positions. */
    function EmpByPos(pos: string): (r: Result<seq<Record>>)
      reads this, employees
      requires Valid()
      ensures r.Err? <==> forall i :: 0 <= i < |employees| ==> employees[i].pos != pos
      ensures r.Err? ==> r.error == InvalidArgument
      ensures r.Ok? ==> r.value == Having(Staff(), Pos, pos)
      ensures r.Ok? ==>
        && (forall e :: e in r.value ==> exists i :: 0 <= i < |employees| && employees[i] == e && e.pos == pos)
        && (forall i :: 0 <= i < |employees| && employees[i].pos == pos ==> employees[i] in r.value)
    {
      var staff := Staff();
      StaffOfSpec(employees);
      GroupIndexSpec(staff, Pos, pos);
      HavingSpec(staff, Pos, pos);
      if pos in posIdx then
        assert Having(staff, Pos, pos)[0] in posIdx[pos];
        Ok(posIdx[pos])
      else
        Err(InvalidArgument)
    }

    /** getSubordsByBoss: throws when nobody reports to `boss`, otherwise the
        names of the direct subordinates in insertion order. */
    function SubordsByBoss(boss: string): (r: Result<seq<string>>)
      reads this, employees
      requires Valid()
      ensures r.Err? <==> forall i :: 0 <= i < |employees| ==> employees[i].boss != boss
      ensures r.Err? ==> r.error == InvalidArgument
      ensures r.Ok? ==> r.value == NamesUnder(Staff(), boss)
      ensures r.Ok? ==>
        && (forall s :: s in r.value ==>
              exists i :: 0 <= i < |employees| && employees[i].boss == boss && employees[i].name == s)
        && (forall i :: 0 <= i < |employees| && employees[i].boss == boss ==> employees[i].name in r.value)
    {
      var staff := Staff();
      StaffOfSpec(employees);
      SubordIndexSpec(staff, boss);
      NamesUnderSpec(staff, boss);
      if boss in subordIdx then
        assert NamesUnder(staff, boss)[0] in subordIdx[boss];
        Ok(subordIdx[boss])
      else
        Err(InvalidArgument)
    }

    /** operator=: no-op on self-assignment, otherwise copy-and-swap. */
    method Assign(rhv: Register)
      requires Valid() && rhv.Valid()
      modifies this
      ensures Valid()
      ensures rhv == this ==> unchanged(this)
      ensures rhv != this ==>
        && unchanged(rhv) && |employees| == |rhv.employees|
        && (forall i :: 0 <= i < |employees| ==> employees[i].Data() == rhv.employees[i].Data())
        && (forall e :: e in employees ==> fresh(e))
    {
      if this == rhv {
        return;
      }
      var temp := new Register.Copy(rhv);
      ghost var staff := temp.Staff();
      Swap(temp, this);
      assert Staff() == staff;
      assert nameIdx == NameIndex(staff) && depIdx == GroupIndex(staff, Dep);
      assert posIdx == GroupIndex(staff, Pos) && subordIdx == SubordIndex(staff);
    }

    /** swap: exchanges all five members of two registers. */
    static method Swap(lhv: Register, rhv: Register)
      modifies lhv, rhv
      ensures lhv.employees == old(rhv.employees) && rhv.employees == old(lhv.employees)
      ensures lhv.nameIdx == old(rhv.nameIdx) && rhv.nameIdx == old(lhv.nameIdx)
      ensures lhv.depIdx == old(rhv.depIdx) && rhv.depIdx == old(lhv.depIdx)
      ensures lhv.posIdx == old(rhv.posIdx) && rhv.posIdx == old(lhv.posIdx)
      ensures lhv.subordIdx == old(rhv.subordIdx) && rhv.subordIdx == old(lhv.subordIdx)
    {
      var employees, nameIdx, depIdx, posIdx, subordIdx := lhv.employees, lhv.nameIdx, lhv.depIdx, lhv.posIdx, lhv.subordIdx;
      lhv.employees, lhv.nameIdx, lhv.depIdx, lhv.posIdx, lhv.subordIdx := rhv.employees, rhv.nameIdx, rhv.depIdx, rhv.posIdx, rhv.subordIdx;
      rhv.employees, rhv.nameIdx, rhv.depIdx, rhv.posIdx, rhv.subordIdx := employees, nameIdx, depIdx, posIdx, subordIdx;
    }
  }
}
