/**
 * `Table` and its `CastIterator`: header names resolved once against the
 * schema's fields, then the provider's rows pulled one at a time, up to a
 * limit, each cast through the schema.
 */
module Tables {
  import opened Wrappers
  import opened Strings
  import opened Values
  import opened Fields
  import opened Schemas

  /** A table provider: an optional header and the rows its iterator yields, in order. */
  datatype Provider = Provider(header: Option<seq<string>>, rows: seq<seq<Option<string>>>)

  /** A produced row: the provider's own row when there is no schema, else the cast values. */
  datatype Row = Raw(cells: seq<Option<string>>) | Typed(values: seq<Option<Value>>)

  /** `NSNotFound`, the default limit: the largest `Int`. */
  const NotFound: Int64 := MaxInt

  // ---------------------------------------------------------------------------
  // Resolving the header

  /** The schema field a header name resolves to: the entry for the unique name of `Field(name)`, if any. */
  function Resolve(uniqueFields: map<string, Field>, name: string): (r: Option<Field>)
    ensures r.Some? <==> Lowercased(name) in uniqueFields
  {
    var uniqueName := UniqueName(NewField(name));
    if uniqueName in uniqueFields then Some(uniqueFields[uniqueName]) else None
  }

  /** The resolved fields of a header, in header order, names that resolve to nothing dropped. */
  function Resolved(uniqueFields: map<string, Field>, header: seq<string>): (r: seq<Field>)
    ensures |r| <= |header|
    decreases |header|
  {
    if |header| == 0 then []
    else
      var f := Resolve(uniqueFields, header[|header| - 1]);
      Resolved(uniqueFields, header[..|header| - 1]) + (if f.Some? then [f.value] else [])
  }

  /**
   * The ordering rows are cast by: with `keyed`, a schema and a header, the
   * resolved header; otherwise none (the schema's own order is used).
   */
  function OrderedFields(schema: Option<Schema>, header: Option<seq<string>>, keyed: bool): (r: Option<seq<Field>>)
    ensures r.Some? <==> keyed && schema.Some? && header.Some?
    ensures r.Some? ==> |r.value| <= |header.value| && forall f :: f in r.value ==> f in schema.value.fields
  {
    if keyed && schema.Some? && header.Some? then
      ResolvedFromSchema(schema.value.fields, header.value);
      Some(Resolved(UniqueByName(schema.value.fields), header.value))
    else None
  }

  /**
   * Header names equal up to case, duplicates included, resolve to the first
   * field of the schema whose name is equal to them up to case.
   */
  lemma {:induction false} ResolveFirst(fields: seq<Field>, a: string, b: string, i: nat)
    requires Lowercased(a) == Lowercased(b)
    requires i < |fields| && UniqueName(fields[i]) == Lowercased(a)
    requires forall j :: 0 <= j < i ==> UniqueName(fields[j]) != UniqueName(fields[i])
    ensures Resolve(UniqueByName(fields), a) == Some(fields[i])
    ensures Resolve(UniqueByName(fields), b) == Some(fields[i])
  {
    UniqueByNameFirst(fields, i);
  }

  /** A name no field carries, up to case, resolves to nothing. */
  lemma {:induction false} ResolveNone(fields: seq<Field>, name: string)
    requires forall f :: f in fields ==> UniqueName(f) != Lowercased(name)
    ensures Resolve(UniqueByName(fields), name).None?
  {
  }

  /** Every resolved field is a field of the schema, so the ordering is drawn from the schema. */
  lemma {:induction false} ResolvedFromSchema(fields: seq<Field>, header: seq<string>)
    ensures forall f :: f in Resolved(UniqueByName(fields), header) ==> f in fields
    decreases |header|
  {
    if |header| > 0 {
      var m := UniqueByName(fields);
      ResolvedFromSchema(fields, header[..|header| - 1]);
      var name := header[|header| - 1];
      if Resolve(m, name).Some? {
        UniqueByNameSame(fields, Lowercased(name));
      }
    }
  }

  /** A single header name gives its field, or nothing when it resolves to none. */
  lemma {:induction false} ResolvedOne(uniqueFields: map<string, Field>, name: string)
    ensures Resolved(uniqueFields, [name])
            == if Lowercased(name) in uniqueFields then [Resolve(uniqueFields, name).value] else []
  {
    assert [name][..0] == [];
  }

  /** Resolving is name by name: the ordering of a joined header is the two orderings joined. */
  lemma {:induction false} ResolvedAppend(uniqueFields: map<string, Field>, a: seq<string>, b: seq<string>)
    ensures Resolved(uniqueFields, a + b) == Resolved(uniqueFields, a) + Resolved(uniqueFields, b)
    decreases |b|
  {
    if |b| == 0 {
      assert a + b == a;
    } else {
      assert (a + b)[..|a + b| - 1] == a + b[..|b| - 1];
      ResolvedAppend(uniqueFields, a, b[..|b| - 1]);
    }
  }

  /** When every header name resolves, the ordering is the header, name by name, with nothing dropped. */
  lemma {:induction false} ResolvedAll(uniqueFields: map<string, Field>, header: seq<string>)
    requires forall i :: 0 <= i < |header| ==> Resolve(uniqueFields, header[i]).Some?
    ensures var r := Resolved(uniqueFields, header);
            |r| == |header| && forall i :: 0 <= i < |r| ==> r[i] == Resolve(uniqueFields, header[i]).value
    decreases |header|
  {
    if |header| > 0 {
      ResolvedAll(uniqueFields, header[..|header| - 1]);
    }
  }

  // ---------------------------------------------------------------------------
  // The iterator

  class CastIterator {
    const provider: Provider
    const schema: Option<Schema>
    const orderedFields: Option<seq<Field>>
    const limit: Int64
    /** The Foundation services the casts run with. */
    const foundation: Foundation
    /** The rows produced so far. */
    var count: int
    /** Where the provider's iterator stands. */
    var position: nat

    /** The provider is read only as far as rows were produced, and at most `limit` of them. */
    ghost predicate Valid()
      reads this
    {
      position <= |provider.rows| && count == position && (count == 0 || count <= limit)
    }

    /** How many more rows `Next` will produce. */
    ghost function Remaining(): nat
      reads this
      requires Valid()
    {
      if count >= limit then 0 else Min(limit - count, |provider.rows| - position)
    }

    /** A raw row as `Next` returns it: unchanged without a schema, else cast by the ordering. */
    function Produce(raw: seq<Option<string>>): Row
      reads this
    {
      if schema.None? then Raw(raw) else Typed(CastRecord(schema.value, raw, orderedFields, foundation))
    }

    /**
     * `init(provider:schema:keyed:limit:)`: resolves the header once, with
     * one pass over its names; nothing produced yet, and
     * min(limit, number of rows) rows to come.
     */
    constructor(provider: Provider, schema: Option<Schema>, foundation: Foundation,
                keyed: bool := true, limit: Int64 := NotFound)
      ensures this.provider == provider && this.schema == schema && this.foundation == foundation
      ensures this.limit == limit && orderedFields == OrderedFields(schema, provider.header, keyed)
      ensures Valid() && count == 0 && position == 0
      ensures Remaining() == Min(Max(limit, 0), |provider.rows|)
    {
      this.provider := provider;
      this.schema := schema;
      this.foundation := foundation;
      if keyed && schema.Some? && provider.header.Some? {
        var ordered: seq<Field> := [];
        var uniqueFields := BuildUniqueByName(schema.value.fields);
        var header := provider.header.value;
        for i := 0 to |header|
          invariant ordered == Resolved(uniqueFields, header[..i])
        {
          assert header[..i + 1][..i] == header[..i];
          var uniqueName := UniqueName(NewField(header[i]));
          if uniqueName in uniqueFields {
            ordered := ordered + [uniqueFields[uniqueName]];
          }
        }
        assert header[..|header|] == header;
        orderedFields := Some(ordered);
      } else {
        orderedFields := None;
      }
      this.limit := limit;
      count := 0;
      position := 0;
    }

    /**
     * `next()`: nil once `limit` rows were produced or the provider is
     * exhausted; otherwise the provider's next row, produced, and one more
     * counted. A cell that fails its cast is nil and does not stop the rows.
     */
    method Next() returns (row: Option<Row>)
      requires Valid()
      modifies this
      ensures Valid()
      ensures old(Remaining()) > 0 ==>
                row == Some(Produce(provider.rows[old(position)]))
                && count == old(count) + 1 && position == old(position) + 1
      ensures old(Remaining()) == 0 ==> row.None? && count == old(count) && position == old(position)
      ensures Remaining() == if old(Remaining()) > 0 then old(Remaining()) - 1 else 0
    {
      if count >= limit || position == |provider.rows| {
        return None;
      }
      var next := provider.rows[position];
      position := position + 1;
      count := count + 1;
      if schema.None? {
        return Some(Raw(next));
      }
      if orderedFields.None? {
        return Some(Typed(CastRecord(schema.value, next, None, foundation)));
      }
      return Some(Typed(CastRecord(schema.value, next, orderedFields, foundation)));
    }
  }

  /** A table: a provider and an optional schema. */
  datatype Table = Table(provider: Provider, schema: Option<Schema>)

  /** `makeIterator()`: keyed, with no limit but `NSNotFound`. */
  method MakeIterator(table: Table, foundation: Foundation) returns (it: CastIterator)
    ensures fresh(it) && it.Valid() && it.count == 0
    ensures it.provider == table.provider && it.schema == table.schema && it.limit == NotFound
    ensures it.orderedFields == OrderedFields(table.schema, table.provider.header, true)
  {
    it := new CastIterator(table.provider, table.schema, foundation);
  }
}
