/**
 * OpenTelemetry::SDK::Logs::LogRecord: a log event whose constructor copies
 * the caller's attributes, counts them, picks the observed timestamp and trims
 * the copy in place; and its conversion to the exported LogRecordData.
 */
module Logs {
  import opened Wrappers
  import opened LogAttributes

  type PosInt = n: int | n > 0 witness 1

  /** Identity of an object the record only passes along (trace flags, resource, instrumentation scope). */
  type ObjectId = nat

  /** A Ruby Time as the exact rational number of seconds since the epoch that Time#to_r gives. */
  datatype Time = Time(num: int, den: PosInt)

  /** A timestamp argument: nil, a Time, or some other (truthy) object. */
  datatype Stamp = Nil | At(time: Time) | NotATime(id: ObjectId)

  /** Integer division rounding toward zero, as Rational#to_i does. */
  function TruncDiv(a: int, b: PosInt): (q: int)
    ensures a >= 0 ==> q * b <= a < q * b + b
    ensures a < 0 ==> q * b - b < a <= q * b
  {
    if a >= 0 then a / b else -((-a) / b)
  }

  const NanosPerSecond: int := 1_000_000_000

  /**
   * to_integer_nanoseconds: nil for anything but a Time, otherwise the
   * number of nanoseconds since the epoch truncated toward zero.
   */
  function ToIntegerNanoseconds(s: Stamp): (r: Option<int>)
    ensures r.Some? <==> s.At?
    ensures s.At? && s.time.num >= 0 ==>
      r.value * s.time.den <= s.time.num * NanosPerSecond < (r.value + 1) * s.time.den
    ensures s.At? && s.time.num < 0 ==>
      (r.value - 1) * s.time.den < s.time.num * NanosPerSecond <= r.value * s.time.den
  {
    match s
    case At(t) => Some(TruncDiv(t.num * NanosPerSecond, t.den))
    case _ => None
  }

  /** `observed_timestamp || timestamp || Time.now`, where `now` is the clock's reading. */
  function PickObserved(observed: Stamp, timestamp: Stamp, now: Time): (r: Stamp)
    ensures observed != Nil ==> r == observed
    ensures observed == Nil && timestamp != Nil ==> r == timestamp
    ensures observed == Nil && timestamp == Nil ==> r == At(now)
  {
    if observed != Nil then observed else if timestamp != Nil then timestamp else At(now)
  }

  /** The immutable value a record exports (LogRecordData). */
  datatype LogRecordData = LogRecordData(
    timestampNanos: Option<int>,
    observedTimestampNanos: Option<int>,
    severityText: Option<string>,
    severityNumber: Option<int>,
    body: Option<Value>,
    attributes: Option<Table>,
    traceId: Option<seq<bv8>>,
    spanId: Option<seq<bv8>>,
    traceFlags: Option<ObjectId>,
    resource: Option<ObjectId>,
    instrumentationScope: Option<ObjectId>,
    totalRecordedAttributes: nat)

  /** A mutable Ruby Hash of attributes, in insertion order. */
  class AttributeHash {
    var entries: Table

    ghost predicate Valid()
      reads this
    {
      UniqueKeys(entries)
    }

    constructor (entries: Table)
      requires UniqueKeys(entries)
      ensures Valid() && this.entries == entries
    {
      this.entries := entries;
    }

    /** `Hash[source]`: a new hash with the same entries; the source is only read. */
    constructor Copy(source: AttributeHash)
      requires source.Valid()
      ensures Valid() && entries == source.entries
    {
      entries := source.entries;
    }

    /** Hash#shift: removes and returns the oldest entry, nil when empty. */
    method Shift() returns (e: Option<Entry>)
      requires Valid()
      modifies this
      ensures Valid()
      ensures old(entries) == [] ==> e == None && entries == []
      ensures old(entries) != [] ==> e == Some(old(entries)[0]) && entries == old(entries)[1..]
    {
      if entries == [] {
        e := None;
      } else {
        e := Some(entries[0]);
        entries := entries[1..];
      }
    }

    /** Hash#transform_values!: replaces every value by `f` of it, in place. */
    method TransformValues(f: Value -> Value)
      requires Valid()
      modifies this
      ensures Valid()
      ensures entries == MapValues(old(entries), f)
    {
      var i := 0;
      while i < |entries|
        invariant 0 <= i <= |entries| == |old(entries)|
        invariant forall j :: 0 <= j < i ==> entries[j] == (old(entries)[j].0, f(old(entries)[j].1))
        invariant forall j :: i <= j < |entries| ==> entries[j] == old(entries)[j]
      {
        entries := entries[i := (entries[i].0, f(entries[i].1))];
        i := i + 1;
      }
      assert forall j :: 0 <= j < |entries| ==> entries[j].0 == old(entries)[j].0;
    }
  }

  class LogRecord {
    var timestamp: Stamp
    var observedTimestamp: Stamp
    var severityText: Option<string>
    var severityNumber: Option<int>
    var body: Option<Value>
    var attributes: AttributeHash?
    var traceId: Option<seq<bv8>>
    var spanId: Option<seq<bv8>>
    var traceFlags: Option<ObjectId>
    var resource: Option<ObjectId>
    var instrumentationScope: Option<ObjectId>
    var limits: Limits
    var totalRecordedAttributes: nat
    const rules: AttributeRules
    /** What the record handed to the global error handler, oldest first. */
    var reports: seq<Report>

    /**
     * LogRecord.new: `defaults` stands for LogRecordLimits::DEFAULT, `now`
     * for the reading of Time.now and `rules` for the attribute helpers.
     */
    constructor (
      timestamp: Stamp,
      observedTimestamp: Stamp,
      severityText: Option<string>,
      severityNumber: Option<int>,
      body: Option<Value>,
      attributes: AttributeHash?,
      traceId: Option<seq<bv8>>,
      spanId: Option<seq<bv8>>,
      traceFlags: Option<ObjectId>,
      resource: Option<ObjectId>,
      instrumentationScope: Option<ObjectId>,
      logRecordLimits: Option<Limits>,
      defaults: Limits,
      rules: AttributeRules,
      now: Time)
      requires attributes != null ==> attributes.Valid()
      ensures this.timestamp == timestamp
      ensures this.observedTimestamp == PickObserved(observedTimestamp, timestamp, now)
      ensures this.severityText == severityText && this.severityNumber == severityNumber
      ensures this.body == body && this.traceId == traceId && this.spanId == spanId
      ensures this.traceFlags == traceFlags && this.resource == resource
      ensures this.instrumentationScope == instrumentationScope && this.rules == rules
      ensures limits == if logRecordLimits.Some? then logRecordLimits.value else defaults
      ensures totalRecordedAttributes == if attributes == null then 0 else |attributes.entries|
      ensures attributes == null ==> this.attributes == null && reports == []
      ensures attributes != null ==>
        && this.attributes != null && fresh(this.attributes) && this.attributes.Valid()
        && this.attributes.entries == TrimmedAsWritten(attributes.entries, limits, rules)
        && reports == TrimReportsAsWritten(attributes.entries, limits, rules)
    {
      var chosen := if logRecordLimits.Some? then logRecordLimits.value else defaults;
      var copy: AttributeHash? := null;
      var reported: seq<Report> := [];
      if attributes != null {
        copy := new AttributeHash.Copy(attributes);
        reported := TrimAttributes(copy, chosen, rules);
      }
      this.timestamp := timestamp;
      this.observedTimestamp := PickObserved(observedTimestamp, timestamp, now);
      this.severityText := severityText;
      this.severityNumber := severityNumber;
      this.body := body;
      this.attributes := copy;
      this.traceId := traceId;
      this.spanId := spanId;
      this.traceFlags := traceFlags;
      this.resource := resource;
      this.instrumentationScope := instrumentationScope;
      this.limits := chosen;
      this.totalRecordedAttributes := if attributes == null then 0 else |attributes.entries|;
      this.rules := rules;
      this.reports := reported;
    }

    /** to_log_record_data: timestamps become integer nanoseconds, every other field is passed on. */
    function ToLogRecordData(): (d: LogRecordData)
      reads this, attributes
      ensures d.timestampNanos == ToIntegerNanoseconds(timestamp)
      ensures d.observedTimestampNanos == ToIntegerNanoseconds(observedTimestamp)
      ensures d.attributes == if attributes == null then None else Some(attributes.entries)
      ensures d.totalRecordedAttributes == totalRecordedAttributes
      ensures d.severityText == severityText && d.severityNumber == severityNumber && d.body == body
      ensures d.traceId == traceId && d.spanId == spanId && d.traceFlags == traceFlags
      ensures d.resource == resource && d.instrumentationScope == instrumentationScope
    {
      LogRecordData(
        ToIntegerNanoseconds(timestamp),
        ToIntegerNanoseconds(observedTimestamp),
        severityText,
        severityNumber,
        body,
        if attributes == null then None else Some(attributes.entries),
        traceId,
        spanId,
        traceFlags,
        resource,
        instrumentationScope,
        totalRecordedAttributes)
    }

    /**
     * trim_attributes as written: count truncation, then value truncation,
     * then validation, which reports the first invalid entry and removes none.
     */
    static method TrimAttributes(attrs: AttributeHash, limits: Limits, rules: AttributeRules)
      returns (reported: seq<Report>)
      requires attrs.Valid()
      modifies attrs
      ensures attrs.Valid()
      ensures attrs.entries == TrimmedAsWritten(old(attrs.entries), limits, rules)
      ensures reported == TrimReportsAsWritten(old(attrs.entries), limits, rules)
    {
      TruncateAttributes(attrs, limits.countLimit);
      TruncateAttributeValues(attrs, limits.lengthLimit, rules);
      reported := ValidateAttributesAsWritten(attrs, rules);
    }

    /**
     * trim_attributes with validation corrected: the same truncation passes,
     * then every invalid entry is dropped and reported.
     */
    static method TrimAttributesCorrected(attrs: AttributeHash, limits: Limits, rules: AttributeRules)
      returns (reported: seq<Report>)
      requires attrs.Valid()
      modifies attrs
      ensures attrs.Valid()
      ensures attrs.entries == Trimmed(old(attrs.entries), limits, rules)
      ensures reported == TrimReports(old(attrs.entries), limits, rules)
    {
      TruncateAttributes(attrs, limits.countLimit);
      TruncateAttributeValues(attrs, limits.lengthLimit, rules);
      reported := ValidateAttributes(attrs, rules);
    }

    /** truncate_attributes: `excess.times { attributes.shift }` when the excess is positive. */
    static method TruncateAttributes(attrs: AttributeHash, attributeLimit: nat)
      requires attrs.Valid()
      modifies attrs
      ensures attrs.Valid()
      ensures attrs.entries == DropOldest(old(attrs.entries), attributeLimit)
    {
      var excess := |attrs.entries| - attributeLimit;
      if excess > 0 {
        var k := 0;
        while k < excess
          invariant 0 <= k <= excess
          invariant attrs.Valid()
          invariant attrs.entries == old(attrs.entries)[k..]
        {
          var _ := attrs.Shift();
          k := k + 1;
        }
      }
    }

    /** truncate_attribute_values: nothing to do without a length limit. */
    static method TruncateAttributeValues(attrs: AttributeHash, attributeLengthLimit: Option<nat>, rules: AttributeRules)
      requires attrs.Valid()
      modifies attrs
      ensures attrs.Valid()
      ensures attrs.entries == TruncateValues(old(attrs.entries), attributeLengthLimit, rules)
    {
      if attributeLengthLimit.Some? {
        var n := attributeLengthLimit.value;
        attrs.TransformValues(v => rules.truncate(v, n));
      }
    }

    /**
     * validate_attributes corrected, as its messages describe it: `keep_if`
     * walks the entries and drops each entry with an invalid key or value,
     * reporting it.
     */
    static method ValidateAttributes(attrs: AttributeHash, rules: AttributeRules) returns (reported: seq<Report>)
      requires attrs.Valid()
      modifies attrs
      ensures attrs.Valid()
      ensures attrs.entries == DropInvalid(old(attrs.entries), rules)
      ensures reported == DropReports(old(attrs.entries), rules)
    {
      var t := attrs.entries;
      var kept: Table := [];
      reported := [];
      var i := 0;
      while i < |t|
        invariant 0 <= i <= |t|
        invariant DropInvalid(t, rules) == kept + DropInvalid(t[i..], rules)
        invariant DropReports(t, rules) == reported + DropReports(t[i..], rules)
      {
        var (k, v) := t[i];
        DropStep(t, i, rules);
        if !rules.validKey(k) {
          reported := reported + [InvalidKeyType(k)];
        } else if !rules.validValue(v) {
          reported := reported + [InvalidValueType(k, v)];
        } else {
          kept := kept + [(k, v)];
        }
        i := i + 1;
      }
      assert t[|t|..] == [];
      assert kept == DropInvalid(t, rules);
      DropInvalidKeepsUniqueKeys(t, rules);
      attrs.entries := kept;
    }

    /**
     * validate_attributes, as written: `keep_if` walks the entries, and the
     * first entry with an invalid key or value is reported and ends the whole
     * method through `return`, so no entry is removed.
     */
    static method ValidateAttributesAsWritten(attrs: AttributeHash, rules: AttributeRules) returns (reported: seq<Report>)
      ensures reported == ValidationReports(attrs.entries, rules)
    {
      var t := attrs.entries;
      var i := 0;
      while i < |t|
        invariant 0 <= i <= |t|
        invariant forall j :: 0 <= j < i ==> EntryValid(t[j], rules)
      {
        var (k, v) := t[i];
        if !rules.validKey(k) {
          assert FirstInvalid(t, rules) == Some(i);
          return [InvalidKeyType(k)];
        } else if !rules.validValue(v) {
          assert FirstInvalid(t, rules) == Some(i);
          return [InvalidValueType(k, v)];
        }
        i := i + 1;
      }
      return [];
    }
  }
}
