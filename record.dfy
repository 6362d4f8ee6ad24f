/** The employee Record: six fields set once by the constructors and replaced
    wholesale only by assignment and swap. */
module Records {

  /** The boss name stored for an employee who has none. */
  const NoBoss: string := "n/a"

  /** The six fields of a record, as one value. */
  datatype Fields = Fields(name: string, age: nat, dep: string, pos: string, boss: string, days: seq<string>)

  class Record {
    var name: string
    var age: nat
    var dep: string
    var pos: string
    var boss: string
    var days: seq<string>

    function Data(): Fields
      reads this
    {
      Fields(name, age, dep, pos, boss, days)
    }

    /** Initialising constructor: an empty boss name is stored as "n/a". */
    constructor (name: string, age: nat, dep: string, pos: string, boss: string, days: seq<string>)
      ensures Data() == Fields(name, age, dep, pos, if boss == "" then NoBoss else boss, days)
      ensures this.boss != ""
    {
      this.name := name;
      this.age := age;
      this.dep := dep;
      this.pos := pos;
      this.boss := if |boss| != 0 then boss else NoBoss;
      this.days := days;
    }

    /** Copy constructor: a new record with the same six fields. */
    constructor Copy(other: Record)
      ensures Data() == other.Data()
    {
      name := other.name;
      age := other.age;
      dep := other.dep;
      pos := other.pos;
      boss := other.boss;
      days := other.days;
    }

    /** operator=: no-op on self-assignment, otherwise copy-and-swap. */
    method Assign(rhv: Record)
      modifies this
      ensures Data() == old(rhv.Data())
      ensures rhv != this ==> unchanged(rhv)
    {
      if this == rhv {
        return;
      }
      var temp := new Record.Copy(rhv);
      Swap(temp, this);
    }

    /** swap: exchanges all six fields of two records. */
    static method Swap(lhv: Record, rhv: Record)
      modifies lhv, rhv
      ensures lhv.Data() == old(rhv.Data()) && rhv.Data() == old(lhv.Data())
    {
      var name, age, dep, pos, boss, days := lhv.name, lhv.age, lhv.dep, lhv.pos, lhv.boss, lhv.days;
      lhv.name, lhv.age, lhv.dep, lhv.pos, lhv.boss, lhv.days := rhv.name, rhv.age, rhv.dep, rhv.pos, rhv.boss, rhv.days;
      rhv.name, rhv.age, rhv.dep, rhv.pos, rhv.boss, rhv.days := name, age, dep, pos, boss, days;
    }
  }
}
