/**
 * The diagnosis page's symptom handling: the schema of symptom names is
 * split into two option lists (app.py:65-68), and the selected symptoms
 * are encoded as the 0/1 feature dictionary handed to the classifier
 * (app.py:75).
 */
module Symptoms {

  predicate Distinct(s: seq<string>) {
    forall i, j :: 0 <= i < j < |s| ==> s[i] != s[j]
  }

  /**
   * The two option lists of the symptom widgets: the schema cut at
   * `len // 2`. Together they are the schema, the first never longer
   * than the second and at most one shorter.
   */
  function SymptomColumns(schema: seq<string>): (cols: (seq<string>, seq<string>))
    ensures cols.0 + cols.1 == schema
    ensures |cols.0| <= |cols.1| <= |cols.0| + 1
  {
    var half := |schema| / 2;
    (schema[..half], schema[half..])
  }

  /** What a multiselect widget can return: distinct entries from its options. */
  predicate PickedFrom(picks: seq<string>, options: seq<string>) {
    Distinct(picks) && forall p :: p in picks ==> p in options
  }

  /**
   * The selection is the picks from the first list followed by the picks
   * from the second; every selected symptom is a schema name, and with a
   * schema of distinct names no symptom is selected twice.
   */
  lemma SelectionWithinSchema(schema: seq<string>, picks1: seq<string>, picks2: seq<string>)
    requires PickedFrom(picks1, SymptomColumns(schema).0)
    requires PickedFrom(picks2, SymptomColumns(schema).1)
    ensures forall s :: s in picks1 + picks2 ==> s in schema
    ensures Distinct(schema) ==> Distinct(picks1 + picks2)
  {
    var (left, right) := SymptomColumns(schema);
    forall s | s in picks1 + picks2 ensures s in schema {
      assert s in left || s in right;
    }
    if Distinct(schema) {
      forall i, j | 0 <= i < j < |picks1 + picks2| ensures (picks1 + picks2)[i] != (picks1 + picks2)[j] {
        var sel := picks1 + picks2;
        if i < |picks1| <= j {
          var a, b := sel[i], sel[j];
          assert a in left && b in right;
          var x :| 0 <= x < |left| && left[x] == a;
          var y :| 0 <= y < |right| && right[y] == b;
          assert schema[x] == a && schema[|left| + y] == b;
        }
      }
    }
  }

  /**
   * A Python dictionary from symptom name to feature value: its
   * (key, value) pairs in insertion order.
   */
  type Features = seq<(string, int)>

  function Keys(d: Features): seq<string> {
    seq(|d|, i requires 0 <= i < |d| => d[i].0)
  }

  /** `d[k] = v`: an existing key keeps its place, a new one goes last. */
  function Put(d: Features, k: string, v: int): (r: Features)
    ensures Keys(r) == if k in Keys(d) then Keys(d) else Keys(d) + [k]
    ensures forall i :: 0 <= i < |r| ==>
      (r[i].0 == k ==> r[i].1 == v) && (r[i].0 != k ==> i < |d| && r[i] == d[i])
  {
    if k in Keys(d) then seq(|d|, i requires 0 <= i < |d| => if d[i].0 == k then (k, v) else d[i])
    else
      assert forall i :: 0 <= i < |d| ==> Keys(d)[i] == d[i].0;
      d + [(k, v)]
  }

  /** The feature value of one symptom: 1 when selected, else 0. */
  function Bit(symptom: string, selected: seq<string>): int {
    if symptom in selected then 1 else 0
  }

  /**
   * The encoder `{symptom: 1 if symptom in selected else 0 for symptom in schema}`:
   * the comprehension inserts the schema names one after the other. Its
   * keys are exactly the schema names, each once, and each value is 1 when
   * the name is selected and 0 otherwise.
   */
  function Encode(schema: seq<string>, selected: seq<string>): (r: Features)
    ensures Distinct(Keys(r))
    ensures forall s :: s in schema <==> s in Keys(r)
    ensures forall i :: 0 <= i < |r| ==> r[i].1 == (if r[i].0 in selected then 1 else 0)
    decreases |schema|
  {
    if schema == [] then []
    else
      var symptom := schema[|schema| - 1];
      assert schema == schema[..|schema| - 1] + [symptom];
      Put(Encode(schema[..|schema| - 1], selected), symptom, Bit(symptom, selected))
  }

  /** The encoding reads the selection only through membership. */
  lemma {:induction false} EncodeDependsOnSelectedSet(schema: seq<string>, selected1: seq<string>, selected2: seq<string>)
    requires forall s :: s in selected1 <==> s in selected2
    ensures Encode(schema, selected1) == Encode(schema, selected2)
    decreases |schema|
  {
    if schema != [] {
      EncodeDependsOnSelectedSet(schema[..|schema| - 1], selected1, selected2);
    }
  }

  /**
   * Reference order of the keys: `s[i]` is kept exactly when it does not
   * already occur in `s[..i]`, so each name appears once, at the place of
   * its first occurrence.
   */
  function FirstOccurrences(s: seq<string>): seq<string>
    decreases |s|
  {
    if s == [] then []
    else
      var last := s[|s| - 1];
      var before := s[..|s| - 1];
      FirstOccurrences(before) + (if last in before then [] else [last])
  }

  /** The feature columns follow the schema's order of first occurrence. */
  lemma {:induction false} EncodeKeys(schema: seq<string>, selected: seq<string>)
    ensures Keys(Encode(schema, selected)) == FirstOccurrences(schema)
    decreases |schema|
  {
    if schema != [] {
      var before := schema[..|schema| - 1];
      var symptom := schema[|schema| - 1];
      EncodeKeys(before, selected);
      var d := Encode(before, selected);
      var r := Put(d, symptom, Bit(symptom, selected));
      if symptom in Keys(d) {
        assert Keys(r) == Keys(d);
      } else {
        assert Keys(r) == Keys(d) + [symptom];
      }
    }
  }

  lemma {:induction false} FirstOccurrencesOfDistinct(s: seq<string>)
    requires Distinct(s)
    ensures FirstOccurrences(s) == s
    decreases |s|
  {
    if s != [] {
      var before := s[..|s| - 1];
      assert Distinct(before);
      FirstOccurrencesOfDistinct(before);
      assert s[|s| - 1] !in before;
      assert before + [s[|s| - 1]] == s;
    }
  }

  /**
   * With a schema of distinct names the feature vector has one entry per
   * schema name, in schema order; entry `i` is 1 exactly when `schema[i]`
   * is selected, and no value other than 0 and 1 occurs.
   */
  lemma EncodeDistinctSchema(schema: seq<string>, selected: seq<string>)
    requires Distinct(schema)
    ensures |Encode(schema, selected)| == |schema|
    ensures forall i :: 0 <= i < |schema| ==> Encode(schema, selected)[i].0 == schema[i]
    ensures forall i :: 0 <= i < |schema| ==>
      (Encode(schema, selected)[i].1 == 1 <==> schema[i] in selected) &&
      (Encode(schema, selected)[i].1 == 0 <==> schema[i] !in selected)
  {
    var r := Encode(schema, selected);
    EncodeKeys(schema, selected);
    FirstOccurrencesOfDistinct(schema);
    assert Keys(r) == schema;
    forall i | 0 <= i < |schema| ensures r[i].0 == schema[i] {
      assert Keys(r)[i] == r[i].0;
    }
  }

  /** schema = [fever, cough, rash], selection {cough}: vector [0, 1, 0]. */
  lemma EncodeExample()
    ensures Encode(["fever", "cough", "rash"], ["cough"])
         == [("fever", 0), ("cough", 1), ("rash", 0)]
  {
    var schema := ["fever", "cough", "rash"];
    assert Distinct(schema);
    EncodeDistinctSchema(schema, ["cough"]);
  }
}
