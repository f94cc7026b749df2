/** Enumerations and bit fields (EnumType in pkg/yang/types_builtin.go). */
module EnumTypes {
  const MAX_ENUM := 0x7FFF_FFFF
  const MIN_ENUM := -0x8000_0000
  const MAX_BITFIELD_SIZE := 0x1_0000_0000

  /** The assignments made so far, in order. */
  type Log = seq<(string, int)>

  /** The bounds of a kind of EnumType, and whether its values are unique. */
  datatype Rules = Rules(min: int, max: int, unique: bool)

  const ENUM_RULES := Rules(MIN_ENUM, MAX_ENUM, true)
  const BIT_RULES := Rules(0, MAX_BITFIELD_SIZE - 1, false)

  function Prefix(log: Log): Log
    requires log != []
  {
    log[..|log| - 1]
  }

  /** The value of every name. */
  function ToInt(log: Log): map<string, int> {
    if log == [] then map[] else ToInt(Prefix(log))[log[|log| - 1].0 := log[|log| - 1].1]
  }

  /** The latest name of every value. */
  function ToString(log: Log): map<int, string> {
    if log == [] then map[] else ToString(Prefix(log))[log[|log| - 1].1 := log[|log| - 1].0]
  }

  /** Whether `name` may be assigned `value` after `log`. */
  predicate Accepts(r: Rules, log: Log, name: string, value: int) {
    name !in ToInt(log) && !(r.unique && value in ToString(log)) && r.min <= value <= r.max
  }

  /** A run in which every assignment was accepted. */
  predicate Run(r: Rules, log: Log) {
    log == [] || (Run(r, Prefix(log)) && Accepts(r, Prefix(log), log[|log| - 1].0, log[|log| - 1].1))
  }

  /** The maximum of -1 and all values assigned. */
  function Last(log: Log): int {
    if log == [] then -1
    else
      var before := Last(Prefix(log));
      if log[|log| - 1].1 >= before then log[|log| - 1].1 else before
  }

  class EnumType {
    var last: int
    const rules: Rules
    var toString: map<int, string>
    var toInt: map<string, int>
    ghost var log: Log

    ghost predicate Valid()
      reads this
    {
      Run(rules, log) && toInt == ToInt(log) && toString == ToString(log) && last == Last(log)
    }

    constructor NewEnumType()
      ensures Valid() && log == [] && rules == ENUM_RULES
    {
      rules := ENUM_RULES;
      last, toString, toInt, log := -1, map[], map[], [];
    }

    constructor NewBitfield()
      ensures Valid() && log == [] && rules == BIT_RULES
    {
      rules := BIT_RULES;
      last, toString, toInt, log := -1, map[], map[], [];
    }

    /** Assigns `value` to `name`; a refused assignment changes nothing. */
    method Set(name: string, value: int) returns (ok: bool)
      requires Valid()
      modifies this
      ensures Valid()
      ensures ok <==> Accepts(rules, old(log), name, value)
      ensures if ok then log == old(log) + [(name, value)] else unchanged(this)
    {
      if name in toInt {
        return false;
      }
      if rules.unique && value in toString {
        return false;
      }
      if value < rules.min {
        return false;
      }
      if value > rules.max {
        return false;
      }
      toString := toString[value := name];
      toInt := toInt[name := value];
      log := log + [(name, value)];
      assert Prefix(log) == old(log);
      if value >= last {
        last := value;
      }
      return true;
    }

    /**
     Assigns the next value above all earlier ones. A new name is refused only
     when `last` is the largest enumeration value, which for bits is not the
     largest position, or the largest value allowed.
     */
    method SetNext(name: string) returns (ok: bool)
      requires Valid() && (rules == ENUM_RULES || rules == BIT_RULES)
      modifies this
      ensures Valid()
      ensures ok <==> name !in ToInt(old(log)) && Last(old(log)) != MAX_ENUM && Last(old(log)) < rules.max
      ensures if ok then log == old(log) + [(name, Last(old(log)) + 1)] else unchanged(this)
    {
      if last == MAX_ENUM {
        return false;
      }
      LastIsMaximum(rules, log);
      ok := Set(name, last + 1);
    }
  }

  // ---------------------------------------------------------------- every run

  /** Last is above or equal to every assigned value and is one of them, or -1. */
  lemma {:induction false} LastIsMaximum(r: Rules, log: Log)
    requires Run(r, log)
    ensures -1 <= Last(log)
    ensures forall v :: v in ToString(log) ==> v <= Last(log)
    ensures Last(log) == -1 || Last(log) in ToString(log)
    decreases log
  {
    if log != [] { LastIsMaximum(r, Prefix(log)); }
  }

  /** Names have one value within bounds, and a value's name is its latest one. */
  lemma {:induction false} RunIsFunctional(r: Rules, log: Log)
    requires Run(r, log)
    ensures forall n :: n in ToInt(log) <==> exists i :: 0 <= i < |log| && log[i].0 == n
    ensures forall i :: 0 <= i < |log| ==>
              log[i].0 in ToInt(log) && ToInt(log)[log[i].0] == log[i].1 && r.min <= log[i].1 <= r.max
    decreases log
  {
    if log != [] {
      var n := |log| - 1;
      RunIsFunctional(r, Prefix(log));
      forall k
        ensures k in ToInt(log) <==> exists i :: 0 <= i < |log| && log[i].0 == k
      {
        if k in ToInt(log) {
          if k == log[n].0 {
            assert log[n].0 == k;
          } else {
            var i :| 0 <= i < |Prefix(log)| && Prefix(log)[i].0 == k;
            assert log[i].0 == k;
          }
        }
        if i :| 0 <= i < |log| && log[i].0 == k {
          if i < n { assert Prefix(log)[i].0 == k; }
        }
      }
      forall i | 0 <= i < |log|
        ensures log[i].0 in ToInt(log) && ToInt(log)[log[i].0] == log[i].1 && r.min <= log[i].1 <= r.max
      {
        if i < n { assert Prefix(log)[i] == log[i]; }
      }
    }
  }

  /** Going from a value to its name and back gives the value; it is the latest such name. */
  lemma {:induction false} ValueNameValue(r: Rules, log: Log, v: int)
    requires Run(r, log) && v in ToString(log)
    ensures ToString(log)[v] in ToInt(log) && ToInt(log)[ToString(log)[v]] == v
    ensures exists i :: 0 <= i < |log| && log[i] == (ToString(log)[v], v) && forall j :: i < j < |log| ==> log[j].1 != v
    decreases log
  {
    var n := |log| - 1;
    if log[n].1 == v {
      assert log[n] == (ToString(log)[v], v);
    } else {
      ValueNameValue(r, Prefix(log), v);
      var i :| 0 <= i < n && Prefix(log)[i] == (ToString(log)[v], v)
               && forall j :: i < j < n ==> Prefix(log)[j].1 != v;
      assert log[i] == (ToString(log)[v], v);
      assert forall j :: i < j < n ==> log[j] == Prefix(log)[j];
    }
  }

  /** In an enumeration the two maps are inverse to each other. */
  lemma {:induction false} NameValueName(r: Rules, log: Log, name: string)
    requires Run(r, log) && r.unique && name in ToInt(log)
    ensures ToInt(log)[name] in ToString(log) && ToString(log)[ToInt(log)[name]] == name
    decreases log
  {
    if name != log[|log| - 1].0 {
      NameValueName(r, Prefix(log), name);
    }
  }

  /** A bit field refuses the next position after 2^31-1, which the standard allows. */
  lemma NextBitRefused()
    ensures var log := [("top", MAX_ENUM)];
            Run(BIT_RULES, log) && Last(log) == MAX_ENUM && Accepts(BIT_RULES, log, "next", Last(log) + 1)
  {
    var log := [("top", MAX_ENUM)];
    assert Prefix(log) == [];
  }

  predicate NamesDiffer(log: Log) {
    forall i, j :: 0 <= i < j < |log| ==> log[i].0 != log[j].0
  }

  predicate ValuesDiffer(log: Log) {
    forall i, j :: 0 <= i < j < |log| ==> log[i].1 != log[j].1
  }

  predicate WithinBounds(log: Log, min: int, max: int) {
    forall i :: 0 <= i < |log| ==> min <= log[i].1 <= max
  }

  predicate HasName(log: Log, name: string) {
    exists i :: 0 <= i < |log| && log[i].0 == name
  }

  predicate HasValue(log: Log, v: int) {
    exists i :: 0 <= i < |log| && log[i].1 == v
  }

  lemma {:induction false} MapsHold(log: Log, name: string, v: int)
    ensures name in ToInt(log) <==> HasName(log, name)
    ensures v in ToString(log) <==> HasValue(log, v)
    decreases log
  {
    if log != [] {
      var before, n := Prefix(log), |log| - 1;
      MapsHold(before, name, v);
      assert forall i :: 0 <= i < n ==> before[i] == log[i];
      assert log[n] == log[|log| - 1];
    }
  }

  lemma LongerRun(log: Log)
    requires log != []
    ensures var before, last := Prefix(log), log[|log| - 1];
            && (NamesDiffer(log) <==> NamesDiffer(before) && !HasName(before, last.0))
            && (ValuesDiffer(log) <==> ValuesDiffer(before) && !HasValue(before, last.1))
            && forall min, max :: WithinBounds(log, min, max) <==>
                 WithinBounds(before, min, max) && min <= last.1 <= max
  {
    var before, n := Prefix(log), |log| - 1;
    assert forall i :: 0 <= i < n ==> before[i] == log[i];
  }

  lemma {:induction false} RunMeans(r: Rules, log: Log)
    ensures Run(r, log) <==> NamesDiffer(log) && (r.unique ==> ValuesDiffer(log)) && WithinBounds(log, r.min, r.max)
    decreases log
  {
    hide ToInt, ToString, HasName, HasValue;
    if log != [] {
      RunMeans(r, Prefix(log));
      hide NamesDiffer, ValuesDiffer, WithinBounds, Prefix;
      MapsHold(Prefix(log), log[|log| - 1].0, log[|log| - 1].1);
      LongerRun(log);
    }
  }

  /** Enumerations take any 32-bit integers, bit fields any 32-bit naturals, which may repeat; names never do. */
  lemma RunIsExact(log: Log)
    ensures Run(ENUM_RULES, log) <==>
              NamesDiffer(log) && ValuesDiffer(log) && WithinBounds(log, -2_147_483_648, 2_147_483_647)
    ensures Run(BIT_RULES, log) <==> NamesDiffer(log) && WithinBounds(log, 0, 4_294_967_295)
  {
    hide Run;
    RunMeans(ENUM_RULES, log);
    RunMeans(BIT_RULES, log);
  }
}
