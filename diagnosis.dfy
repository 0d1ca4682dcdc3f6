/**
 * The "Diagnose" button (app.py:70-92): reject an empty selection,
 * otherwise encode the selection, ask the classifier for a disease and
 * look it up in the medical table. The classifier is a black box, so it
 * is a parameter: any function from feature dictionary to label.
 */
module Diagnosis {
  import opened Wrappers
  import opened Symptoms
  import opened DiseaseTable

  datatype Outcome =
    | NoSymptoms                                   // error shown; nothing encoded or predicted
    | Diagnosed(disease: string, advice: Advice)   // predicted label and what the table says
    | TableFailed(disease: string, error: LookupError)  // label shown, then the table filter fails

  /**
   * An empty selection is refused; otherwise the classifier sees exactly
   * the encoded selection, and the label it returns is the one looked up.
   */
  function Diagnose(schema: seq<string>, selected: seq<string>,
                    predict: Features -> string, t: Table): (r: Outcome)
    requires Rectangular(t)
    ensures r.NoSymptoms? <==> selected == []
    ensures !r.NoSymptoms? ==> r.disease == predict(Encode(schema, selected))
    ensures r.Diagnosed? ==> Lookup(t, r.disease) == Success(r.advice)
    ensures r.TableFailed? ==> Lookup(t, r.disease) == Failure(r.error)
  {
    if selected == [] then NoSymptoms
    else
      var disease := predict(Encode(schema, selected));
      match Lookup(t, disease)
      case Success(advice) => Diagnosed(disease, advice)
      case Failure(e) => TableFailed(disease, e)
  }

  /**
   * With no symptom selected the outcome is the error whatever the
   * classifier would answer: the classifier is not consulted.
   */
  lemma EmptySelectionSkipsClassifier(schema: seq<string>, predict1: Features -> string,
                                      predict2: Features -> string, t: Table)
    requires Rectangular(t)
    ensures Diagnose(schema, [], predict1, t) == Diagnose(schema, [], predict2, t) == NoSymptoms
  {
  }

  /**
   * Only which symptoms are selected matters, not the order in which they
   * were picked nor which half of the list they came from.
   */
  lemma DiagnoseDependsOnSelectedSet(schema: seq<string>, selected1: seq<string>, selected2: seq<string>,
                                     predict: Features -> string, t: Table)
    requires Rectangular(t)
    requires forall s :: s in selected1 <==> s in selected2
    ensures Diagnose(schema, selected1, predict, t) == Diagnose(schema, selected2, predict, t)
  {
    EncodeDependsOnSelectedSet(schema, selected1, selected2);
    if selected1 != [] {
      assert selected1[0] in selected2;
    }
    if selected2 != [] {
      assert selected2[0] in selected1;
    }
  }

  /**
   * Symptoms picked from the two option lists of a schema of distinct
   * names, when there are any, reach the classifier as a vector with a 1
   * at the position of each of them.
   */
  lemma PickedSymptomsAreSet(schema: seq<string>, picks1: seq<string>, picks2: seq<string>, i: nat)
    requires Distinct(schema)
    requires PickedFrom(picks1, SymptomColumns(schema).0)
    requires PickedFrom(picks2, SymptomColumns(schema).1)
    requires i < |picks1 + picks2|
    ensures |Encode(schema, picks1 + picks2)| == |schema|
    ensures exists j :: 0 <= j < |schema| && schema[j] == (picks1 + picks2)[i]
                        && Encode(schema, picks1 + picks2)[j] == (schema[j], 1)
  {
    var selected := picks1 + picks2;
    SelectionWithinSchema(schema, picks1, picks2);
    assert selected[i] in selected;
    assert selected[i] in schema;
    var j :| 0 <= j < |schema| && schema[j] == selected[i];
    EncodeDistinctSchema(schema, selected);
    var v := Encode(schema, selected);
    assert v[j].0 == schema[j] && v[j].1 == 1;
  }
}
