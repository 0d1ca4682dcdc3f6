# AI Doctor — a Dafny model of the diagnosis logic

AI Doctor is a single Streamlit page (`app.py`). A patient form appends
the patient's details to a spreadsheet. A diagnosis form lets the user
pick symptoms from two lists, encodes them as a 0/1 feature dictionary
over the classifier's symptom schema, asks a pre-trained classifier for
a disease, and looks that disease up in a medical table for its cause
and medicine.

This project models the deterministic logic around the classifier:

- `text.dfy` (module `Text`): the `strip().lower()` normalisation applied to
  table headers, disease names and the predicted label. Stripping uses
  Python's white-space set. Lower-casing is ASCII-only.
- `symptoms.dfy` (module `Symptoms`): the schema cut into two option lists,
  and the feature encoder. The encoder is a Python dict comprehension, so
  it is modelled as an insertion-ordered dictionary: a repeated schema name
  keeps the place of its first occurrence.
- `disease_table.dfy` (module `DiseaseTable`): the table lookup. Headers are
  normalised. The first row whose normalised disease matches the normalised
  label is used. Blank or missing cause and medicine fall back to placeholder
  texts. A label found in no row gets the fixed advisory text.
- `diagnosis.dfy` (module `Diagnosis`): the Diagnose button. An empty
  selection is refused. Otherwise the classifier is consulted on the encoded
  selection, and its label is looked up. The classifier is a function
  parameter with no assumed behaviour.
- `patient_records.dfy` (module `PatientRecords`): the patient spreadsheet
  and session entry, as a class whose `Save` method appends one record.
- `wrappers.dfy` (module `Wrappers`): `Option` and `Result`.

Where the system's documentation and the code differ, the model follows the code:

- The encoder yields one entry per schema name only when the names are
  distinct. A repeated name collapses into one dictionary key
  (`EncodeKeys`, `EncodeDistinctSchema`).
- A table without a `disease` column makes the filter at app.py:83 fail.
  The model returns an error (`NoDiseaseColumn`) rather than an answer.
- Matching ignores surrounding white space as well as case, because both
  sides are stripped before lower-casing.

## Model

| member | source | states |
|---|---|---|
| `Text.TrimStartSpec` | app.py:83 | the result is a suffix of the input; everything dropped is white space; the result does not start with white space |
| `Text.TrimEndSpec` | app.py:83 | the result is a prefix of the input; everything dropped is white space; the result does not end with white space |
| `Text.TrimStripped` | app.py:83 | `strip()` leaves an infix with only white space before and after it and none at its ends |
| `Text.StrippedUnique` | app.py:83 | at most one string is what stripping leaves, so the characterisation determines `strip()` |
| `Text.TrimIsStripped` | app.py:83 | any string with the stripped characterisation is `strip()` of the input |
| `Text.TrimUnpadded` | app.py:83 | a string with no white space at its ends is unchanged by `strip()` |
| `Text.TrimIdempotent` | app.py:83 | stripping twice is stripping once |
| `Text.LowerSpec` | app.py:83 | `lower()` keeps every character up to case, leaves no upper-case letter, and is the only string that does both |
| `Text.LowerIdempotent` | app.py:83 | lower-casing twice is lower-casing once |
| `Text.TrimLowerCommute` | app.py:83 | stripping and lower-casing commute |
| `Text.NormalizeIdempotent` | app.py:18 | a normalised name (`strip().lower()`) is a fixed point of normalisation |
| `Text.LowerEqualIff` | app.py:83 | two strings lower-case equally exactly when they agree up to ASCII case (both directions) |
| `Text.NormalizeEqualIff` | app.py:83 | two names normalise equally exactly when their stripped forms agree up to case (both directions) |
| `Symptoms.SymptomColumns` | app.py:65-67 | the two option lists concatenate to the schema; the first is half the schema rounded down |
| `Symptoms.SelectionWithinSchema` | app.py:65-68 | every selected symptom is a schema name; with distinct schema names the selection has no repeats |
| `Symptoms.Put` | app.py:75 | dictionary assignment: an existing key keeps its place and takes the new value; a new key goes last; other entries are unchanged |
| `Symptoms.Encode` | app.py:75 | the feature keys are exactly the schema names, each once; a value is 1 when its name is selected and 0 otherwise |
| `Symptoms.EncodeKeys` | app.py:75-76 | the feature columns follow the schema's order of first occurrence |
| `Symptoms.FirstOccurrencesOfDistinct` | app.py:75 | for distinct names the first-occurrence order is the schema itself |
| `Symptoms.EncodeDistinctSchema` | app.py:75 | with distinct names: one entry per schema name in schema order, 1 exactly at selected names, 0 exactly elsewhere |
| `Symptoms.EncodeDependsOnSelectedSet` | app.py:68-75 | the encoding depends only on which symptoms are selected, not on their order or repeats |
| `Symptoms.EncodeExample` | app.py:75 | schema [fever, cough, rash] with cough selected encodes as [0, 1, 0] |
| `DiseaseTable.IndexOf` | app.py:83-85 | None exactly when the value is absent; otherwise the position of its first occurrence |
| `DiseaseTable.Lookup` | app.py:83-92 | fails exactly when no normalised header is `disease`; a shown cause or medicine is never blank; no match gives the advisory text |
| `DiseaseTable.ColumnIndexIsColumn` | app.py:18 | the column found in the normalised header is the first whose stripped, lower-cased name matches; none found means no header matches |
| `DiseaseTable.IndexOfFirst` | app.py:85 | the first occurrence of a value is the position reported |
| `DiseaseTable.DiseaseColumnFound` | app.py:18 | the first header that normalises to `disease` is the column filtered on |
| `DiseaseTable.FieldIsCell` | app.py:86-87 | `row.get(name, '')` is the cell under the first matching column, or empty without one |
| `DiseaseTable.LookupNoDiseaseColumn` | app.py:83 | without a `disease` column the lookup fails for every label |
| `DiseaseTable.LookupNoMatch` | app.py:91-92 | when no disease cell matches, the advisory text is shown, whatever the label |
| `DiseaseTable.LookupFirstMatch` | app.py:83-90 | the first matching row's cause and medicine are shown, each replaced by its placeholder when blank or when its column is missing |
| `DiseaseTable.LookupIgnoresCaseAndSpace` | app.py:83 | labels equal up to case and surrounding white space get the same answer |
| `DiseaseTable.LookupExample` | app.py:83-90 | header "Disease" and row (flu, virus, rest): the label " Flu" gives cause virus and medicine rest |
| `Diagnosis.Diagnose` | app.py:70-92 | an error exactly when nothing is selected; otherwise the label is the classifier's answer on the encoded selection and the advice is its lookup |
| `Diagnosis.EmptySelectionSkipsClassifier` | app.py:71-72 | with no symptom selected the outcome is the error, whatever the classifier would answer |
| `Diagnosis.DiagnoseDependsOnSelectedSet` | app.py:66-79 | selections with the same symptoms give the same outcome |
| `Diagnosis.PickedSymptomsAreSet` | app.py:65-79 | each symptom picked from either list is 1 at its schema position in the classifier's input |
| `PatientRecords.PatientStore.constructor` | app.py:42-44 | start-up state: the existing spreadsheet rows, or none when there is no file, and no session patient |
| `PatientRecords.PatientStore.Save` | app.py:37-51 | with a name: old rows plus the new record in field order (just the record without a file), session patient set; without a name nothing changes |
| `PatientRecords.SaveTwice` | app.py:37-48 | two submissions keep the earlier rows and add both records in order |

## Left out

- Streamlit widgets, page navigation, layout, markdown, emoji, `.title()` formatting, the pain-details expander and the style block (app.py:21-25, 55-64, 94-109): display only. The advisory text is modelled without its emoji and bold prefix.
- Loading the classifier and the schema from pickle files, and reading the medical CSV (app.py:9-17): file input. The schema and the table are parameters.
- The classifier itself (app.py:79): an opaque trained artifact. It is a function parameter.
- Excel reading and writing and `os.path.exists` (app.py:42-46): the file is modelled as a `fileExists` flag and a sequence of records. A round trip through Excel that changes cell types is not modelled.
- The read-then-overwrite race on the patient spreadsheet under concurrent submissions: concurrency.
- Pandas NaN: a blank CSV cell is the empty string here, so it gets the placeholder. In pandas it would read as NaN and print "nan". An empty disease cell would likewise never match in pandas.
- `Text.Lower`: lower-cases ASCII letters only, because Python's full Unicode case mapping is not modelled.
- Two headers that normalise to the same name: the model uses the first. Pandas would return several columns and fail.
- Widget ranges: age 0-120 (app.py:31) is a precondition of `Save`. The pain level (app.py:60) is not modelled.
