/**
 * `getFields` and the two renaming tables: field rows `(fieldName, value)`
 * of one item are folded into a dictionary, later rows overwriting earlier
 * ones, after the field name has gone through the field translation table.
 */
module Fields {

  /** One row of the field query: `fields.fieldName, itemDataValues.value`. */
  datatype FieldRow = FieldRow(fieldName: string, value: string)

  const TranslatedFields: map<string, string> := map["DOI" := "doi"]
  const TranslatedTypes: map<string, string> := map["journalArticle" := "article"]

  /** `table.get(name, name)`: a listed name is renamed, any other is kept. */
  function Translate(table: map<string, string>, name: string): string
  {
    if name in table then table[name] else name
  }

  /** The key under which a field row is stored. */
  function FieldKey(row: FieldRow): string
  {
    Translate(TranslatedFields, row.fieldName)
  }

  /** The field dictionary after every row has been stored in order. */
  function FieldMap(rows: seq<FieldRow>): map<string, string>
  {
    if rows == [] then map[]
    else FieldMap(rows[..|rows| - 1])[FieldKey(rows[|rows| - 1]) := rows[|rows| - 1].value]
  }

  /** The loop of `getFields`. */
  method GetFields(rows: seq<FieldRow>) returns (fields: map<string, string>)
    ensures fields == FieldMap(rows)
  {
    fields := map[];
    for i := 0 to |rows|
      invariant fields == FieldMap(rows[..i])
    {
      var fieldName := Translate(TranslatedFields, rows[i].fieldName);
      var fieldValue := rows[i].value;
      fields := fields[fieldName := fieldValue];
      assert rows[..i + 1][..i] == rows[..i];
    }
    assert rows[..|rows|] == rows;
  }

  /** Only "DOI" is renamed, to "doi"; so a "DOI" row and a "doi" row land on the same key. */
  lemma FieldKeyRenamesOnlyDoi(row: FieldRow)
    ensures FieldKey(row) == (if row.fieldName == "DOI" then "doi" else row.fieldName)
    ensures FieldKey(row) == "doi" <==> row.fieldName == "DOI" || row.fieldName == "doi"
  {
  }

  /** "journalArticle" becomes "article"; every other item type is kept. */
  lemma TranslateTypeOnlyJournalArticle(t: string)
    ensures Translate(TranslatedTypes, t) == (if t == "journalArticle" then "article" else t)
    ensures Translate(TranslatedTypes, t) == "article" <==> t == "journalArticle" || t == "article"
  {
  }

  /** The translated names of the rows. */
  function TranslatedNames(rows: seq<FieldRow>): set<string>
  {
    set i | 0 <= i < |rows| :: FieldKey(rows[i])
  }

  /** The keys are exactly the translated names of the rows. */
  lemma {:induction false} FieldMapKeys(rows: seq<FieldRow>)
    ensures FieldMap(rows).Keys == TranslatedNames(rows)
    decreases |rows|
  {
    if rows != [] {
      var init := rows[..|rows| - 1];
      var last := |rows| - 1;
      FieldMapKeys(init);
      var all, before := TranslatedNames(rows), TranslatedNames(init);
      forall k | k in all ensures k in before + {FieldKey(rows[last])} {
        var i :| 0 <= i < |rows| && FieldKey(rows[i]) == k;
        if i < last {
          assert FieldKey(init[i]) == k;
        }
      }
      forall k | k in before ensures k in all {
        var i :| 0 <= i < |init| && FieldKey(init[i]) == k;
        assert FieldKey(rows[i]) == k;
      }
      assert FieldKey(rows[last]) in all;
    }
  }

  /** Last write wins: a row that no later row overwrites gives its key's value. */
  lemma {:induction false} FieldMapLastWins(rows: seq<FieldRow>, j: nat)
    requires j < |rows|
    requires forall i :: j < i < |rows| ==> FieldKey(rows[i]) != FieldKey(rows[j])
    ensures FieldKey(rows[j]) in FieldMap(rows)
    ensures FieldMap(rows)[FieldKey(rows[j])] == rows[j].value
    decreases |rows|
  {
    if j < |rows| - 1 {
      var init := rows[..|rows| - 1];
      assert init[j] == rows[j];
      FieldMapLastWins(init, j);
    }
  }
}
