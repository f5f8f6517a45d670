/** `OutputFormat.from_dict` of the dataclass tutorial: the TREC coarse label
    number of an input record becomes a class index and a class name looked
    up in a fixed six-entry table. The base class's `from_dict` is taken to
    build the record from the three fields it is given. */
module Labels {
  import opened Wrappers

  /** The `OutputFormat` dataclass. */
  datatype OutputFormat = OutputFormat(thought: Option<string>, className: string, classIndex: int)

  /** The exceptions of `from_dict`. */
  datatype LabelError = KeyError(key: string) | IndexError(index: int)

  /** `_COARSE_LABELS_DESC`. */
  const CoarseLabels: seq<string> := [
    "Abbreviation",
    "Entity",
    "Description and abstract concept",
    "Human being",
    "Location",
    "Numeric value"]

  /** Python's `s[i]` on a list: negative indices count from the end. */
  function PyIndex<T>(s: seq<T>, i: int): (r: Result<T, LabelError>)
    ensures r.Success? <==> -|s| <= i < |s|
    ensures 0 <= i < |s| ==> r == Success(s[i])
    ensures -|s| <= i < 0 ==> r == Success(s[|s| + i])
  {
    if 0 <= i < |s| then Success(s[i])
    else if -|s| <= i < 0 then Success(s[|s| + i])
    else Failure(IndexError(i))
  }

  /** `OutputFormat.from_dict(data)`: the fields are built in the order of the
      dict literal, so a missing key is reported before a bad index. */
  function FromDict(data: map<string, int>): (r: Result<OutputFormat, LabelError>)
    ensures "coarse_label" !in data ==> r == Failure(KeyError("coarse_label"))
    ensures "coarse_label" in data ==> (r.Success? <==> -|CoarseLabels| <= data["coarse_label"] < |CoarseLabels|)
    ensures r.Success? ==> r.value.thought == None && r.value.classIndex == data["coarse_label"]
    ensures r.Success? ==> r.value.className in CoarseLabels
    ensures r.Success? ==> Success(r.value.className) == PyIndex(CoarseLabels, data["coarse_label"])
    ensures "coarse_label" in data && r.Failure? ==> r == Failure(IndexError(data["coarse_label"]))
  {
    if "coarse_label" !in data then Failure(KeyError("coarse_label"))
    else
      var coarse := data["coarse_label"];
      var name :- PyIndex(CoarseLabels, coarse);
      Success(OutputFormat(None, name, coarse))
  }

  /** The documented labels 0..5 get the table entry at their own index. */
  lemma ValidLabelNamed(data: map<string, int>)
    requires "coarse_label" in data && 0 <= data["coarse_label"] < |CoarseLabels|
    ensures FromDict(data) == Success(OutputFormat(None, CoarseLabels[data["coarse_label"]], data["coarse_label"]))
  {
  }

  /** Labels -6..-1 count from the end of the table, as Python's indexing does. */
  lemma NegativeLabelCountsFromEnd(data: map<string, int>)
    requires "coarse_label" in data && -|CoarseLabels| <= data["coarse_label"] < 0
    ensures FromDict(data) ==
      Success(OutputFormat(None, CoarseLabels[|CoarseLabels| + data["coarse_label"]], data["coarse_label"]))
  {
  }

  /** Only `coarse_label` is read; every other key of the input is ignored. */
  lemma OtherKeysIgnored(data: map<string, int>, key: string, value: int)
    requires key != "coarse_label"
    ensures FromDict(data[key := value]) == FromDict(data)
  {
    if "coarse_label" in data {
      assert data[key := value]["coarse_label"] == data["coarse_label"];
    }
  }

  /** The tutorial's call: label 1 is "Entity". */
  lemma EntityExample()
    ensures FromDict(map["coarse_label" := 1]) == Success(OutputFormat(None, "Entity", 1))
  {
  }

  /** As written, a negative label is accepted: -1 yields "Numeric value"
      with class index -1, outside the documented range 0..5. */
  lemma NegativeLabelAccepted()
    ensures FromDict(map["coarse_label" := -1]) == Success(OutputFormat(None, "Numeric value", -1))
    ensures FromDict(map["coarse_label" := -1]).value.classIndex !in {0, 1, 2, 3, 4, 5}
  {
  }

  /** `from_dict` with the range check the field's description promises:
      labels outside 0..5 are rejected. */
  function FromDictChecked(data: map<string, int>): (r: Result<OutputFormat, LabelError>)
    ensures "coarse_label" !in data ==> r == Failure(KeyError("coarse_label"))
    ensures r.Success? <==> "coarse_label" in data && 0 <= data["coarse_label"] < |CoarseLabels|
    ensures r.Success? ==> 0 <= r.value.classIndex < |CoarseLabels| && r.value.className == CoarseLabels[r.value.classIndex]
  {
    if "coarse_label" !in data then Failure(KeyError("coarse_label"))
    else
      var coarse := data["coarse_label"];
      if 0 <= coarse < |CoarseLabels| then Success(OutputFormat(None, CoarseLabels[coarse], coarse))
      else Failure(IndexError(coarse))
  }

  /** The checked version agrees with the original on every documented label. */
  lemma CheckedAgreesOnDocumentedLabels(data: map<string, int>)
    requires "coarse_label" in data && 0 <= data["coarse_label"] < |CoarseLabels|
    ensures FromDictChecked(data) == FromDict(data)
  {
  }
}
