/**
 * The attribute table of an SDK log record and the three trimming passes the
 * record applies to it when it is built: count truncation, value truncation
 * and validation.  Everything here is a value; the in-place versions that the
 * record runs are in module Logs and are proved equal to these functions.
 */
module LogAttributes {
  import opened Wrappers

  /** A Ruby object that may appear as an attribute key, an attribute value or a log body. */
  datatype Value =
    | Str(s: string)
    | Int(i: int)
    | Bool(b: bool)
    | Sym(name: string)
    | Arr(elems: seq<Value>)
    | Other(id: nat)  // any other object, known only by its identity

  /** One `key => value` pair of a Ruby Hash. */
  type Entry = (Value, Value)

  /** A Ruby Hash as its entries in insertion order. */
  type Table = seq<Entry>

  predicate UniqueKeys(t: Table) {
    forall i, j :: 0 <= i < j < |t| ==> t[i].0 != t[j].0
  }

  function KeysOf(t: Table): (ks: seq<Value>)
    ensures |ks| == |t|
    ensures forall i :: 0 <= i < |t| ==> ks[i] == t[i].0
  {
    seq(|t|, i requires 0 <= i < |t| => t[i].0)
  }

  /**
   * The collaborators of the record that this model does not look into:
   * the key and value validity checks of the API's internal helpers and the
   * common utility that shortens one attribute value to a length limit.
   */
  datatype AttributeRules = AttributeRules(
    validKey: Value -> bool,
    validValue: Value -> bool,
    truncate: (Value, nat) -> Value)

  /** The record's attribute limits; a nil length limit means "do not shorten values". */
  datatype Limits = Limits(countLimit: nat, lengthLimit: Option<nat>)

  /** The message a rejected entry produces; the key is checked before the value. */
  datatype Report =
    | InvalidKeyType(key: Value)
    | InvalidValueType(key: Value, value: Value)

  // ---------------------------------------------------------------- count truncation

  /**
   * The table after truncate_attributes: while there are more than `limit`
   * entries the oldest one is removed, so the newest `limit` entries survive
   * in their original order.
   */
  function DropOldest(t: Table, limit: nat): (r: Table)
    ensures |r| <= limit
    ensures |t| <= limit ==> r == t
    ensures |t| > limit ==> |r| == limit
    ensures t == t[..|t| - |r|] + r
  {
    if |t| > limit then t[|t| - limit..] else t
  }

  lemma DropOldestKeepsUniqueKeys(t: Table, limit: nat)
    requires UniqueKeys(t)
    ensures UniqueKeys(DropOldest(t, limit))
  {
    if |t| > limit {
      var d := |t| - limit;
      var r := t[d..];
      assert DropOldest(t, limit) == r;
      forall i, j | 0 <= i < j < |r| ensures r[i].0 != r[j].0 {
        assert r[i] == t[d + i] && r[j] == t[d + j];
      }
    }
  }

  // ---------------------------------------------------------------- value truncation

  /** Every value replaced by `f` of it; keys and their order stay. */
  function MapValues(t: Table, f: Value -> Value): (r: Table)
    ensures |r| == |t|
    ensures forall i :: 0 <= i < |t| ==> r[i] == (t[i].0, f(t[i].1))
  {
    if t == [] then [] else [(t[0].0, f(t[0].1))] + MapValues(t[1..], f)
  }

  /** The table after truncate_attribute_values with the given length limit. */
  function TruncateValues(t: Table, lengthLimit: Option<nat>, rules: AttributeRules): (r: Table)
    ensures KeysOf(r) == KeysOf(t)
    ensures lengthLimit.None? ==> r == t
    ensures lengthLimit.Some? ==>
      forall i :: 0 <= i < |t| ==> r[i].1 == rules.truncate(t[i].1, lengthLimit.value)
  {
    match lengthLimit
    case None => t
    case Some(n) => MapValues(t, v => rules.truncate(v, n))
  }

  lemma TruncateValuesKeepsUniqueKeys(t: Table, lengthLimit: Option<nat>, rules: AttributeRules)
    requires UniqueKeys(t)
    ensures UniqueKeys(TruncateValues(t, lengthLimit, rules))
  {
    var r := TruncateValues(t, lengthLimit, rules);
    forall i, j | 0 <= i < j < |r| ensures r[i].0 != r[j].0 {
      assert r[i].0 == KeysOf(r)[i] == KeysOf(t)[i] == t[i].0;
      assert r[j].0 == KeysOf(r)[j] == KeysOf(t)[j] == t[j].0;
    }
  }

  // ---------------------------------------------------------------- validation

  predicate EntryValid(e: Entry, rules: AttributeRules) {
    rules.validKey(e.0) && rules.validValue(e.1)
  }

  /** The report for an invalid entry: a bad key is reported even if the value is bad too. */
  function ReportFor(e: Entry, rules: AttributeRules): (m: Report)
    requires !EntryValid(e, rules)
    ensures m.InvalidKeyType? <==> !rules.validKey(e.0)
    ensures m.key == e.0
    ensures m.InvalidValueType? ==> m.value == e.1
  {
    if !rules.validKey(e.0) then InvalidKeyType(e.0) else InvalidValueType(e.0, e.1)
  }

  /** The position of the first entry that fails validation, if any. */
  function FirstInvalid(t: Table, rules: AttributeRules): (r: Option<nat>)
    ensures r.Some? ==> r.value < |t| && !EntryValid(t[r.value], rules)
    ensures r.Some? ==> forall j :: 0 <= j < r.value ==> EntryValid(t[j], rules)
    ensures r.None? ==> forall j :: 0 <= j < |t| ==> EntryValid(t[j], rules)
  {
    if t == [] then None
    else if !EntryValid(t[0], rules) then Some(0)
    else match FirstInvalid(t[1..], rules)
      case None => None
      case Some(i) => Some(i + 1)
  }

  /**
   * What validate_attributes reports, as written: the block handed to
   * keep_if leaves the whole method with `return false` on the first invalid
   * entry, so at most one entry is reported and the table keeps every entry.
   */
  function ValidationReports(t: Table, rules: AttributeRules): (rs: seq<Report>)
    ensures |rs| <= 1
    ensures rs == [] <==> forall j :: 0 <= j < |t| ==> EntryValid(t[j], rules)
    ensures rs != [] ==> FirstInvalid(t, rules).Some? && rs == [ReportFor(t[FirstInvalid(t, rules).value], rules)]
  {
    match FirstInvalid(t, rules)
    case None => []
    case Some(i) => [ReportFor(t[i], rules)]
  }

  // ---------------------------------------------------------------- the whole pass

  /** The attribute table after the two truncation passes, before validation. */
  function Limited(t: Table, limits: Limits, rules: AttributeRules): Table {
    TruncateValues(DropOldest(t, limits.countLimit), limits.lengthLimit, rules)
  }

  /** The attribute table after trim_attributes with validation corrected: invalid entries dropped one by one. */
  function Trimmed(t: Table, limits: Limits, rules: AttributeRules): Table {
    DropInvalid(Limited(t, limits, rules), rules)
  }

  /** The reports of trim_attributes with validation corrected: one per dropped entry. */
  function TrimReports(t: Table, limits: Limits, rules: AttributeRules): seq<Report> {
    DropReports(Limited(t, limits, rules), rules)
  }

  /** The table trim_attributes leaves as written: validation removes nothing. */
  function TrimmedAsWritten(t: Table, limits: Limits, rules: AttributeRules): Table {
    Limited(t, limits, rules)
  }

  /** The reports trim_attributes makes as written: the first invalid entry only. */
  function TrimReportsAsWritten(t: Table, limits: Limits, rules: AttributeRules): seq<Report> {
    ValidationReports(Limited(t, limits, rules), rules)
  }

  /**
   * The truncation passes keep at most countLimit entries; the survivors are
   * the newest ones, keys in their original order, and without a length
   * limit their values are untouched.
   */
  lemma LimitedKeepsNewest(t: Table, limits: Limits, rules: AttributeRules)
    ensures |Limited(t, limits, rules)| == if |t| > limits.countLimit then limits.countLimit else |t|
    ensures KeysOf(Limited(t, limits, rules)) == KeysOf(t)[|t| - |Limited(t, limits, rules)|..]
    ensures limits.lengthLimit.None? ==> Limited(t, limits, rules) == t[|t| - |Limited(t, limits, rules)|..]
  {
    var d := DropOldest(t, limits.countLimit);
    var r := Limited(t, limits, rules);
    assert |KeysOf(r)| == |KeysOf(d)|;
    assert t[|t| - |d|..] == d;
    assert KeysOf(t)[|t| - |d|..] == KeysOf(d);
  }

  /**
   * Trimming keeps at most countLimit entries: exactly the valid ones among
   * the truncated newest entries, in their order.
   */
  lemma TrimmedKeepsValidNewest(t: Table, limits: Limits, rules: AttributeRules, e: Entry)
    ensures |Trimmed(t, limits, rules)| <= limits.countLimit
    ensures e in Trimmed(t, limits, rules) <==> e in Limited(t, limits, rules) && EntryValid(e, rules)
    ensures IsSubsequence(Trimmed(t, limits, rules), Limited(t, limits, rules))
  {
    LimitedKeepsNewest(t, limits, rules);
    DropInvalidKeepsExactlyValid(Limited(t, limits, rules), rules, e);
    DropInvalidIsSubsequence(Limited(t, limits, rules), rules);
  }

  lemma TrimmedKeepsUniqueKeys(t: Table, limits: Limits, rules: AttributeRules)
    requires UniqueKeys(t)
    ensures UniqueKeys(Trimmed(t, limits, rules))
  {
    DropOldestKeepsUniqueKeys(t, limits.countLimit);
    TruncateValuesKeepsUniqueKeys(DropOldest(t, limits.countLimit), limits.lengthLimit, rules);
    DropInvalidKeepsUniqueKeys(Limited(t, limits, rules), rules);
  }

  /**
   * Validation as written reports at most one entry: the first invalid one,
   * and none when every entry is valid.
   */
  lemma {:induction false} AsWrittenReportsFirstInvalid(t: Table, rules: AttributeRules)
    ensures |ValidationReports(t, rules)| <= 1
    ensures ValidationReports(t, rules) == [] <==> forall j :: 0 <= j < |t| ==> EntryValid(t[j], rules)
    ensures ValidationReports(t, rules) != [] ==>
      exists i :: 0 <= i < |t| && !EntryValid(t[i], rules) && (forall j :: 0 <= j < i ==> EntryValid(t[j], rules))
                  && ValidationReports(t, rules) == [ReportFor(t[i], rules)]
  {
    if ValidationReports(t, rules) != [] {
      var i := FirstInvalid(t, rules).value;
      assert ValidationReports(t, rules) == [ReportFor(t[i], rules)];
    }
  }

  /** Trimming as written keeps the newest countLimit entries, invalid ones included. */
  lemma TrimmedAsWrittenKeepsNewest(t: Table, limits: Limits, rules: AttributeRules)
    ensures |TrimmedAsWritten(t, limits, rules)| == if |t| > limits.countLimit then limits.countLimit else |t|
    ensures KeysOf(TrimmedAsWritten(t, limits, rules)) == KeysOf(t)[|t| - |TrimmedAsWritten(t, limits, rules)|..]
  {
    LimitedKeepsNewest(t, limits, rules);
  }

  /**
   * Trimming as written reports at most one entry: the first invalid entry
   * among the survivors, and none when every survivor is valid.
   */
  lemma TrimReportsAsWrittenFirstInvalid(t: Table, limits: Limits, rules: AttributeRules)
    ensures var kept := TrimmedAsWritten(t, limits, rules);
            var rs := TrimReportsAsWritten(t, limits, rules);
            && |rs| <= 1
            && (rs == [] <==> forall j :: 0 <= j < |kept| ==> EntryValid(kept[j], rules))
            && (rs != [] ==> exists i :: 0 <= i < |kept| && !EntryValid(kept[i], rules)
                                         && (forall j :: 0 <= j < i ==> EntryValid(kept[j], rules))
                                         && rs == [ReportFor(kept[i], rules)])
  {
    var kept := Limited(t, limits, rules);
    AsWrittenReportsFirstInvalid(kept, rules);
    assert TrimmedAsWritten(t, limits, rules) == kept;
    assert TrimReportsAsWritten(t, limits, rules) == ValidationReports(kept, rules);
  }

  lemma TrimmedAsWrittenKeepsUniqueKeys(t: Table, limits: Limits, rules: AttributeRules)
    requires UniqueKeys(t)
    ensures UniqueKeys(TrimmedAsWritten(t, limits, rules))
  {
    DropOldestKeepsUniqueKeys(t, limits.countLimit);
    TruncateValuesKeepsUniqueKeys(DropOldest(t, limits.countLimit), limits.lengthLimit, rules);
  }

  /**
   * As written, an entry that fails validation is still in the trimmed table:
   * a record whose single attribute has a Symbol key keeps it, and reports it.
   */
  lemma InvalidEntryIsKept()
    ensures var rules := AttributeRules((k: Value) => k.Str?, (v: Value) => true, (v: Value, n: nat) => v);
            var t := [(Sym("level"), Str("warn"))];
            var limits := Limits(128, None);
            TrimmedAsWritten(t, limits, rules) == t
            && TrimReportsAsWritten(t, limits, rules) == [InvalidKeyType(Sym("level"))]
  {
    var rules := AttributeRules((k: Value) => k.Str?, (v: Value) => true, (v: Value, n: nat) => v);
    var t := [(Sym("level"), Str("warn"))];
    assert !EntryValid(t[0], rules);
    assert FirstInvalid(t, rules) == Some(0);
  }

  /** With validation corrected, the same record drops the entry and reports it. */
  lemma InvalidEntryIsDropped()
    ensures var rules := AttributeRules((k: Value) => k.Str?, (v: Value) => true, (v: Value, n: nat) => v);
            var t := [(Sym("level"), Str("warn"))];
            var limits := Limits(128, None);
            Trimmed(t, limits, rules) == []
            && TrimReports(t, limits, rules) == [InvalidKeyType(Sym("level"))]
  {
    var rules := AttributeRules((k: Value) => k.Str?, (v: Value) => true, (v: Value, n: nat) => v);
    var t := [(Sym("level"), Str("warn"))];
    assert !EntryValid(t[0], rules);
    assert t[1..] == [];
  }

  // ---------------------------------------------------------------- intended validation

  /** Per-entry dropping, as the "Dropping attribute" message describes. */
  function DropInvalid(t: Table, rules: AttributeRules): (r: Table)
    ensures forall i :: 0 <= i < |r| ==> EntryValid(r[i], rules)
    ensures |r| <= |t|
  {
    if t == [] then []
    else if EntryValid(t[0], rules) then [t[0]] + DropInvalid(t[1..], rules)
    else DropInvalid(t[1..], rules)
  }

  /** One report per dropped entry, in table order. */
  function DropReports(t: Table, rules: AttributeRules): (rs: seq<Report>)
    ensures |rs| + |DropInvalid(t, rules)| == |t|
  {
    if t == [] then []
    else if EntryValid(t[0], rules) then DropReports(t[1..], rules)
    else [ReportFor(t[0], rules)] + DropReports(t[1..], rules)
  }

  /** One step of the walk from position `i`: entry `i` is kept or reported, then the walk goes on. */
  lemma DropStep(t: Table, i: nat, rules: AttributeRules)
    requires i < |t|
    ensures DropInvalid(t[i..], rules)
         == (if EntryValid(t[i], rules) then [t[i]] else []) + DropInvalid(t[i + 1..], rules)
    ensures DropReports(t[i..], rules)
         == (if EntryValid(t[i], rules) then [] else [ReportFor(t[i], rules)]) + DropReports(t[i + 1..], rules)
  {
    assert t[i..][1..] == t[i + 1..];
  }

  /** An entry survives per-entry dropping exactly when it is valid. */
  lemma {:induction false} DropInvalidKeepsExactlyValid(t: Table, rules: AttributeRules, e: Entry)
    ensures e in DropInvalid(t, rules) <==> e in t && EntryValid(e, rules)
  {
    if t != [] {
      DropInvalidKeepsExactlyValid(t[1..], rules, e);
      assert t == [t[0]] + t[1..];
    }
  }

  /** Per-entry dropping keeps the relative order of the surviving entries. */
  lemma {:induction false} DropInvalidIsSubsequence(t: Table, rules: AttributeRules)
    ensures IsSubsequence(DropInvalid(t, rules), t)
  {
    if t != [] {
      DropInvalidIsSubsequence(t[1..], rules);
    }
  }

  /** Dropping entries never gives two entries the same key. */
  lemma {:induction false} DropInvalidKeepsUniqueKeys(t: Table, rules: AttributeRules)
    requires UniqueKeys(t)
    ensures UniqueKeys(DropInvalid(t, rules))
  {
    if t != [] {
      var rest := t[1..];
      assert UniqueKeys(rest) by {
        forall i, j | 0 <= i < j < |rest| ensures rest[i].0 != rest[j].0 {
          assert rest[i] == t[i + 1] && rest[j] == t[j + 1];
        }
      }
      DropInvalidKeepsUniqueKeys(rest, rules);
      var kept := DropInvalid(rest, rules);
      forall i | 0 <= i < |kept| ensures kept[i].0 != t[0].0 {
        DropInvalidKeepsExactlyValid(rest, rules, kept[i]);
        var j :| 0 <= j < |rest| && rest[j] == kept[i];
        assert rest[j] == t[j + 1];
      }
    }
  }

  predicate IsSubsequence(s: Table, t: Table)
    decreases |t|
  {
    s == [] || (t != [] && ((s[0] == t[0] && IsSubsequence(s[1..], t[1..])) || IsSubsequence(s, t[1..])))
  }
}
