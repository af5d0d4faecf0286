/**
 * `Schema`: casts whole records through its fields, turning missing-value
 * sentinels into nil on the way in and nil back into the first sentinel on
 * the way out; and the by-name views of a field list.
 */
module Schemas {
  import opened Wrappers
  import opened Strings
  import opened Values
  import opened Fields

  /** The fields and the missing-value sentinels. Primary and foreign keys are not consulted by any cast. */
  datatype Schema = Schema(fields: seq<Field>, missingValues: seq<string>)

  /** `Schema(fields)`: the only sentinel is the empty text. */
  function NewSchema(fields: seq<Field>): (s: Schema)
    ensures s.fields == fields && s.missingValues == [""]
  {
    Schema(fields, [""])
  }

  // ---------------------------------------------------------------------------
  // One value

  /** `internalCast(_:by:)`: a sentinel becomes nil, then the field casts. */
  function InternalCast(schema: Schema, value: Option<string>, field: Field, fd: Foundation): (r: Result<Option<Value>>)
    ensures value.None? || value.value in schema.missingValues ==> r == Ok(None)
    ensures value.Some? && value.value !in schema.missingValues ==> r == Fields.InternalCast(field, value, fd)
  {
    var value := if value.Some? && value.value in schema.missingValues then None else value;
    Fields.InternalCast(field, value, fd)
  }

  /** `cast(_:by:)`: the value, or nil on any failure. */
  function Cast(schema: Schema, value: Option<string>, field: Field, fd: Foundation): (r: Option<Value>)
    ensures r.Some? ==> value.Some? && value.value !in schema.missingValues && r == Fields.Cast(field, value, fd)
  {
    var c := InternalCast(schema, value, field, fd);
    if c.Ok? then c.value else None
  }

  /** `test(_:by:)`. */
  function Test(schema: Schema, value: Option<string>, field: Field, fd: Foundation): (ok: bool)
    ensures ok <==> value.None? || value.value in schema.missingValues || Fields.Test(field, value, fd)
  {
    InternalCast(schema, value, field, fd).Ok?
  }

  /** A sentinel casts to nil and passes the test, whatever the field. */
  lemma {:induction false} MissingIsNil(schema: Schema, text: string, field: Field, fd: Foundation)
    requires text in schema.missingValues
    ensures Cast(schema, Some(text), field, fd).None? && Test(schema, Some(text), field, fd)
  {
  }

  /** Any other value casts, and tests, exactly as the field alone does. */
  lemma {:induction false} PresentAsField(schema: Schema, value: Option<string>, field: Field, fd: Foundation)
    requires value.None? || value.value !in schema.missingValues
    ensures Cast(schema, value, field, fd) == Fields.Cast(field, value, fd)
    ensures Test(schema, value, field, fd) == Fields.Test(field, value, fd)
  {
  }

  /** "NaN" is no sentinel of a new schema and no integer: nil, and the test fails. */
  lemma {:induction false} NotANumber(name: string, fd: Foundation)
    ensures var schema, field := NewSchema([]), NewField(name, IntegerType);
            Cast(schema, Some("NaN"), field, fd).None? && !Test(schema, Some("NaN"), field, fd)
  {
    var field := NewField(name, IntegerType);
    assert ParseInt("NaN") == None by {
      assert !IsDigit("NaN"[0]);
    }
    BareIntegerCast(field, "NaN", fd);
  }

  /** `internalReverseCast(_:by:)`: a nil result becomes the first sentinel (nil when there is none). */
  function InternalReverseCast(schema: Schema, value: Option<Value>, field: Field, fd: Foundation): (r: Result<Option<string>>)
    ensures value.None? ==> r == Ok(if |schema.missingValues| > 0 then Some(schema.missingValues[0]) else None)
    ensures Fields.InternalReverseCast(field, value, fd).Fail? ==> r.Fail?
  {
    match Fields.InternalReverseCast(field, value, fd)
    case Fail(e) => Fail(e)
    case Ok(None) => Ok(if |schema.missingValues| > 0 then Some(schema.missingValues[0]) else None)
    case Ok(Some(text)) => Ok(Some(text))
  }

  /** `reverseCast(_:by:)`. */
  function ReverseCast(schema: Schema, value: Option<Value>, field: Field, fd: Foundation): (r: Option<string>)
    ensures value.None? ==> r == if |schema.missingValues| > 0 then Some(schema.missingValues[0]) else None
    ensures value.Some? ==> r == Fields.ReverseCast(field, value, fd)
  {
    var c := InternalReverseCast(schema, value, field, fd);
    if c.Ok? then c.value else None
  }

  /** `reverseTest(_:by:)`. */
  function ReverseTest(schema: Schema, value: Option<Value>, field: Field, fd: Foundation): (ok: bool)
    ensures ok <==> Fields.ReverseTest(field, value, fd)
  {
    InternalReverseCast(schema, value, field, fd).Ok?
  }

  /**
   * Nil reverse-casts to the first sentinel (nil without one) and passes; a
   * failed field reverse cast gives nil and fails; a present result is kept.
   */
  lemma {:induction false} ReverseOutcomes(schema: Schema, value: Option<Value>, field: Field, fd: Foundation)
    ensures value.None? ==>
              ReverseCast(schema, value, field, fd) == (if |schema.missingValues| > 0 then Some(schema.missingValues[0]) else None)
              && ReverseTest(schema, value, field, fd)
    ensures !Fields.ReverseTest(field, value, fd) ==>
              ReverseCast(schema, value, field, fd).None? && !ReverseTest(schema, value, field, fd)
    ensures value.Some? ==> ReverseCast(schema, value, field, fd) == Fields.ReverseCast(field, value, fd)
  {
    if value.Some? {
      var c := Fields.InternalReverseCast(field, value, fd);
      assert c.Ok? ==> c.value.Some?;
    }
  }

  // ---------------------------------------------------------------------------
  // Records

  /** The ordering a record is cast by: the one given, else the schema's own fields. */
  function Ordering(schema: Schema, ordering: Option<seq<Field>>): seq<Field>
  {
    if ordering.Some? then ordering.value else schema.fields
  }

  /**
   * `cast(record:by:)`: value i cast by field i of the ordering, as far as
   * the shorter of the two goes.
   */
  function CastRecord(schema: Schema, record: seq<Option<string>>, ordering: Option<seq<Field>>, fd: Foundation)
    : (r: seq<Option<Value>>)
    ensures var fields := Ordering(schema, ordering);
            |r| == Min(|record|, |fields|)
            && forall i :: 0 <= i < |r| ==> r[i] == Cast(schema, record[i], fields[i], fd)
  {
    var fields := Ordering(schema, ordering);
    seq(Min(|record|, |fields|), i requires 0 <= i < Min(|record|, |fields|) => Cast(schema, record[i], fields[i], fd))
  }

  /** `reverseCast(record:by:)`: the same positional pairing, in the other direction. */
  function ReverseCastRecord(schema: Schema, record: seq<Option<Value>>, ordering: Option<seq<Field>>, fd: Foundation)
    : (r: seq<Option<string>>)
    ensures var fields := Ordering(schema, ordering);
            |r| == Min(|record|, |fields|)
            && forall i :: 0 <= i < |r| ==> r[i] == ReverseCast(schema, record[i], fields[i], fd)
  {
    var fields := Ordering(schema, ordering);
    seq(Min(|record|, |fields|), i requires 0 <= i < Min(|record|, |fields|) => ReverseCast(schema, record[i], fields[i], fd))
  }

  /**
   * A value comes back from a reverse cast then a cast when the field maps it
   * to a text that is no sentinel and casts that text back to it; nil comes
   * back too, through the first sentinel.
   */
  predicate RoundTrips(schema: Schema, field: Field, value: Option<Value>, fd: Foundation)
  {
    value.None?
    || (var text := Fields.ReverseCast(field, value, fd);
        text.Some? && text.value !in schema.missingValues && Fields.Cast(field, text, fd) == value)
  }

  /**
   * Casting a reverse-cast record gives the record back, clipped to the
   * ordering, when every value round-trips through its field.
   */
  lemma {:induction false} RecordRoundTrip(schema: Schema, record: seq<Option<Value>>, ordering: Option<seq<Field>>, fd: Foundation)
    requires var fields := Ordering(schema, ordering);
             forall i :: 0 <= i < Min(|record|, |fields|) ==> RoundTrips(schema, fields[i], record[i], fd)
    ensures var fields := Ordering(schema, ordering);
            CastRecord(schema, ReverseCastRecord(schema, record, ordering, fd), ordering, fd) == record[..Min(|record|, |fields|)]
  {
    var fields := Ordering(schema, ordering);
    var n := Min(|record|, |fields|);
    var back := CastRecord(schema, ReverseCastRecord(schema, record, ordering, fd), ordering, fd);
    forall i | 0 <= i < n ensures back[i] == record[i] {
      var text := ReverseCast(schema, record[i], fields[i], fd);
      ReverseOutcomes(schema, record[i], fields[i], fd);
      if record[i].None? {
        if text.Some? {
          MissingIsNil(schema, text.value, fields[i], fd);
        }
      } else {
        PresentAsField(schema, text, fields[i], fd);
      }
    }
  }

  /** Every string-typed default-format value and every nil round-trips unless its text is a sentinel. */
  lemma {:induction false} TextRoundTrips(schema: Schema, field: Field, value: Option<Value>, fd: Foundation)
    requires field.fieldType == StringType && field.format == DefaultFormat
    requires value.None? || (value.value.Text? && value.value.text !in schema.missingValues)
    ensures RoundTrips(schema, field, value, fd)
  {
    if value.Some? {
      StringRoundTrip(field, value.value.text, fd);
    }
  }

  // ---------------------------------------------------------------------------
  // Fields by name

  /** `uniqueByName` as a value: each unique name mapped to the first field carrying it. */
  function UniqueByName(fields: seq<Field>): (m: map<string, Field>)
    ensures m.Keys == set f | f in fields :: UniqueName(f)
    decreases |fields|
  {
    if |fields| == 0 then map[]
    else
      var m := UniqueByName(fields[..|fields| - 1]);
      var f := fields[|fields| - 1];
      assert fields == fields[..|fields| - 1] + [f];
      if UniqueName(f) in m then m else m[UniqueName(f) := f]
  }

  /** Adding a field never replaces an entry: every earlier key keeps its field. */
  lemma {:induction false} UniqueByNameKeeps(fields: seq<Field>, f: Field)
    ensures var m, m' := UniqueByName(fields), UniqueByName(fields + [f]);
            forall k :: k in m ==> k in m' && m'[k] == m[k]
  {
    assert (fields + [f])[..|fields|] == fields;
  }

  /** The field a unique name maps to is the first field, in order, with that name. */
  lemma {:induction false} UniqueByNameFirst(fields: seq<Field>, i: nat)
    requires i < |fields|
    requires forall j :: 0 <= j < i ==> UniqueName(fields[j]) != UniqueName(fields[i])
    ensures var m := UniqueByName(fields);
            UniqueName(fields[i]) in m && m[UniqueName(fields[i])] == fields[i]
    decreases |fields|
  {
    var last := |fields| - 1;
    var init := fields[..last];
    assert fields == init + [fields[last]];
    if i == last {
      assert UniqueName(fields[i]) !in UniqueByName(init) by {
        forall f | f in init ensures UniqueName(f) != UniqueName(fields[i]) {
          var j :| 0 <= j < |init| && init[j] == f;
        }
      }
    } else {
      UniqueByNameFirst(init, i);
      UniqueByNameKeeps(init, fields[last]);
    }
  }

  /**
   * `uniqueByName` as written: one pass over the fields, inserting a field
   * only when its unique name has no entry yet.
   */
  method BuildUniqueByName(fields: seq<Field>) returns (m: map<string, Field>)
    ensures m == UniqueByName(fields)
  {
    m := map[];
    for i := 0 to |fields|
      invariant m == UniqueByName(fields[..i])
    {
      var uniqueName := UniqueName(fields[i]);
      assert fields[..i + 1][..i] == fields[..i];
      if uniqueName !in m {
        m := m[uniqueName := fields[i]];
      }
    }
    assert fields[..|fields|] == fields;
  }

  /** `unique`: the set of fields up to `==`, keeping the first of each unique name. */
  function Unique(fields: seq<Field>): (u: set<Field>)
    ensures forall f :: f in fields ==> exists g :: g in u && SameField(f, g)
    ensures forall f, g :: f in u && g in u && SameField(f, g) ==> f == g
    ensures forall g :: g in u ==> g in fields
  {
    var m := UniqueByName(fields);
    assert forall f :: f in fields ==> UniqueName(f) in m && SameField(f, m[UniqueName(f)]) by {
      forall f | f in fields ensures UniqueName(f) in m && SameField(f, m[UniqueName(f)]) {
        UniqueByNameSame(fields, UniqueName(f));
      }
    }
    forall k | k in m ensures UniqueName(m[k]) == k && m[k] in fields {
      UniqueByNameSame(fields, k);
    }
    set k | k in m :: m[k]
  }

  /** Each unique name maps to a field of the list carrying that unique name. */
  lemma {:induction false} UniqueByNameSame(fields: seq<Field>, k: string)
    requires k in UniqueByName(fields)
    ensures UniqueName(UniqueByName(fields)[k]) == k && UniqueByName(fields)[k] in fields
    decreases |fields|
  {
    var last := |fields| - 1;
    var init := fields[..last];
    if k in UniqueByName(init) {
      UniqueByNameSame(init, k);
    }
  }

  /** The fields carrying exactly the name `name`, in order. */
  function Named(fields: seq<Field>, name: string): (r: seq<Field>)
    ensures forall f :: f in r <==> f in fields && f.name == name
    decreases |fields|
  {
    if |fields| == 0 then []
    else (if fields[0].name == name then [fields[0]] else []) + Named(fields[1..], name)
  }

  /** One field is its own group for its name, and nothing for any other. */
  lemma {:induction false} NamedOne(f: Field, name: string)
    ensures Named([f], name) == if f.name == name then [f] else []
  {
    assert [f][1..] == [];
  }

  /** Selecting by name goes field by field: the fields of a joined list keep their order. */
  lemma {:induction false} NamedAppend(a: seq<Field>, b: seq<Field>, name: string)
    ensures Named(a + b, name) == Named(a, name) + Named(b, name)
    decreases |a|
  {
    if |a| == 0 {
      assert a + b == b;
    } else {
      assert (a + b)[0] == a[0] && (a + b)[1..] == a[1..] + b;
      NamedAppend(a[1..], b, name);
    }
  }

  /** Duplicates are kept: a field with the name occurs in its group as often as in the list. */
  lemma {:induction false} NamedCount(fields: seq<Field>, name: string, f: Field)
    ensures multiset(Named(fields, name))[f] == if f.name == name then multiset(fields)[f] else 0
    decreases |fields|
  {
    if |fields| > 0 {
      assert fields == [fields[0]] + fields[1..];
      NamedCount(fields[1..], name, f);
    }
  }

  /** `groupByName`: each exact (case-sensitive) name mapped to its fields, in order. */
  function GroupByName(fields: seq<Field>): (groups: map<string, seq<Field>>)
    ensures groups.Keys == set f | f in fields :: f.name
    ensures forall name :: name in groups ==> |groups[name]| > 0
    ensures forall name :: name in groups ==> forall f :: f in groups[name] <==> f in fields && f.name == name
    ensures forall name, f :: name in groups ==>
              multiset(groups[name])[f] == if f.name == name then multiset(fields)[f] else 0
  {
    forall name, f ensures multiset(Named(fields, name))[f] == if f.name == name then multiset(fields)[f] else 0 {
      NamedCount(fields, name, f);
    }
    map name | name in (set f | f in fields :: f.name) :: Named(fields, name)
  }

  /** The groups of a joined list: each name's fields from the first part, then from the second. */
  lemma {:induction false} GroupByNameAppend(a: seq<Field>, b: seq<Field>, name: string)
    ensures name in GroupByName(a + b) ==> GroupByName(a + b)[name] == Named(a, name) + Named(b, name)
  {
    NamedAppend(a, b, name);
  }
}
