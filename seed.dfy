/**
 * The seeding handler: split the embedded roster into lines, keep the rows
 * that pass the shared filter, collect them in a `Map` keyed by English name
 * (a later row replaces an earlier one's value, the key keeps its first
 * position), then upsert the map's values one by one, counting them.
 */
module Seed {
  import opened JsString
  import opened Collections
  import opened PrizeRows

  /** A JavaScript `Map` from English name to row: its keys in insertion
      order and its entries. */
  datatype NameMap = NameMap(keys: seq<string>, entries: map<string, PrizeRow>)
  {
    ghost predicate Valid() {
      NoDuplicates(keys) && forall k :: k in entries <==> k in keys
    }

    /** `map.set(k, v)`: a new key goes last, an existing key keeps its
        place and takes the new value. */
    function Set(k: string, v: PrizeRow): (m: NameMap)
      requires Valid()
      ensures m.Valid()
      ensures m.entries == entries[k := v]
      ensures |m.keys| == if k in keys then |keys| else |keys| + 1
      ensures m.keys[..|keys|] == keys
    {
      if k in keys then NameMap(keys, entries[k := v])
      else
        assert NoDuplicates(keys + [k]) by {
          forall i, j | 0 <= i < j < |keys + [k]| ensures (keys + [k])[i] != (keys + [k])[j] {
            if j < |keys| { assert (keys + [k])[i] == keys[i] && (keys + [k])[j] == keys[j]; }
          }
        }
        NameMap(keys + [k], entries[k := v])
    }

    /** `map.values()`, in key order. */
    function Values(): (vs: seq<PrizeRow>)
      requires Valid()
      ensures |vs| == |keys|
      ensures forall i :: 0 <= i < |keys| ==> vs[i] == entries[keys[i]]
    {
      seq(|keys|, i requires 0 <= i < |keys| => entries[keys[i]])
    }
  }

  /** The map after setting every row of `rows` under its English name. */
  function Fold(rows: seq<PrizeRow>): (m: NameMap)
    ensures m.Valid()
  {
    if rows == [] then NameMap([], map[])
    else
      var r := rows[|rows| - 1];
      Fold(rows[..|rows| - 1]).Set(r.englishName, r)
  }

  /** The last row of `rows` with English name `k`. */
  function LastWith(rows: seq<PrizeRow>, k: string): (r: PrizeRow)
    requires k in EnglishNames(rows)
    ensures r in rows && r.englishName == k
  {
    var init := rows[..|rows| - 1];
    var last := rows[|rows| - 1];
    if last.englishName == k then last
    else
      assert k in EnglishNames(init) by {
        var i :| 0 <= i < |rows| && EnglishNames(rows)[i] == k;
        assert i < |rows| - 1 && EnglishNames(init)[i] == k;
      }
      var r := LastWith(init, k);
      assert r in rows;
      r
  }

  /** What the handler upserts for the roster text, in upsert order. */
  function Upserts(text: string): seq<PrizeRow> {
    Fold(AcceptedRows(TextLines(text))).Values()
  }

  /** The first loop: every accepted row is set under its English name. */
  method CollectRows(lines: seq<string>) returns (uniqueRows: NameMap)
    ensures uniqueRows == Fold(AcceptedRows(lines))
  {
    uniqueRows := NameMap([], map[]);
    var i := 0;
    assert lines[..0] == [];
    while i < |lines|
      invariant 0 <= i <= |lines|
      invariant uniqueRows == Fold(AcceptedRows(lines[..i]))
    {
      AcceptedRowsSnoc(lines, i);
      var accepted := AcceptLine(lines[i]);
      if accepted != [] {
        var row := accepted[0];
        FoldSnoc(AcceptedRows(lines[..i]), row);
        uniqueRows := uniqueRows.Set(row.englishName, row);
      } else {
        assert AcceptedRows(lines[..i]) + [] == AcceptedRows(lines[..i]);
      }
      i := i + 1;
    }
    assert lines[..i] == lines;
  }

  /** The second loop: one upsert per map value, counted in `inserted`. */
  method UpsertAll(uniqueRows: NameMap) returns (upserts: seq<PrizeRow>, inserted: nat)
    requires uniqueRows.Valid()
    ensures upserts == uniqueRows.Values()
    ensures inserted == |upserts|
  {
    upserts, inserted := [], 0;
    var j := 0;
    while j < |uniqueRows.keys|
      invariant 0 <= j <= |uniqueRows.keys|
      invariant upserts == uniqueRows.Values()[..j]
      invariant inserted == j
    {
      var item := uniqueRows.entries[uniqueRows.keys[j]];
      upserts := upserts + [item];
      inserted := inserted + 1;
      j := j + 1;
    }
  }

  /** The handler. The SQL statements themselves are the returned rows. */
  method Handle(csvData: string) returns (upserts: seq<PrizeRow>, inserted: nat)
    ensures upserts == Upserts(csvData)
    ensures inserted == |upserts|
  {
    var uniqueRows := CollectRows(TextLines(csvData));
    upserts, inserted := UpsertAll(uniqueRows);
  }

  lemma FoldSnoc(rows: seq<PrizeRow>, r: PrizeRow)
    ensures Fold(rows + [r]) == Fold(rows).Set(r.englishName, r)
  {
    assert (rows + [r])[..|rows|] == rows;
  }

  // ---------------------------------------------------------------------
  // What the map holds.

  /** The map's keys are the distinct English names in order of first
      appearance, and each key holds the last row with that name. */
  lemma {:induction false} FoldMeaning(rows: seq<PrizeRow>)
    ensures Fold(rows).keys == Dedup(EnglishNames(rows))
    ensures forall k :: k in EnglishNames(rows) ==>
      k in Fold(rows).entries && Fold(rows).entries[k] == LastWith(rows, k)
  {
    if rows != [] {
      var init := rows[..|rows| - 1];
      var r := rows[|rows| - 1];
      FoldMeaning(init);
      assert EnglishNames(rows) == EnglishNames(init) + [r.englishName];
      DedupSnoc(EnglishNames(init), r.englishName);
      forall k | k in EnglishNames(rows)
        ensures k in Fold(rows).entries && Fold(rows).entries[k] == LastWith(rows, k)
      {
        if k != r.englishName {
          assert k in EnglishNames(init);
        }
      }
    }
  }

  /** The map's values, one per distinct English name of `rows` in order of
      first appearance, each the last row with its name. */
  lemma ValuesMeaning(rows: seq<PrizeRow>)
    ensures EnglishNames(Fold(rows).Values()) == Dedup(EnglishNames(rows))
    ensures forall i :: 0 <= i < |Fold(rows).Values()| ==>
      Fold(rows).Values()[i] == LastWith(rows, Fold(rows).Values()[i].englishName)
  {
    var m := Fold(rows);
    var u := m.Values();
    FoldMeaning(rows);
    forall i | 0 <= i < |u| ensures u[i].englishName == m.keys[i] && m.keys[i] in EnglishNames(rows) {
      assert m.keys[i] in m.keys;
    }
    forall i | 0 <= i < |u| ensures u[i] == LastWith(rows, u[i].englishName) {
      assert u[i] == m.entries[m.keys[i]];
    }
    assert forall i :: 0 <= i < |u| ==> EnglishNames(u)[i] == m.keys[i];
  }

  /** One row per distinct English name, in order of first appearance, each
      the last accepted row with its name. */
  lemma UpsertsMeaning(text: string)
    ensures var rows := AcceptedRows(TextLines(text));
      && EnglishNames(Upserts(text)) == Dedup(EnglishNames(rows))
      && NoDuplicates(EnglishNames(Upserts(text)))
      && (forall i :: 0 <= i < |Upserts(text)| ==>
            Upserts(text)[i] == LastWith(rows, Upserts(text)[i].englishName))
  {
    ValuesMeaning(AcceptedRows(TextLines(text)));
  }

  /** A repeated English name makes the count smaller than the number of
      accepted rows, and only a repeated name does. */
  lemma RepeatedNameLowersCount(text: string)
    ensures var rows := AcceptedRows(TextLines(text));
      |Upserts(text)| <= |rows| &&
      (|Upserts(text)| < |rows| <==> !NoDuplicates(EnglishNames(rows)))
  {
    var rows := AcceptedRows(TextLines(text));
    FoldMeaning(rows);
    DedupLength(EnglishNames(rows));
  }
}
