/** The settings the pipeline reads once at start-up (`Settings` in config.py). */
module Config {
  import opened Text

  /** "invoice,contract,report,letter,receipt,form,memo,resume,specification,manual",
      written as a concatenation so that the verifier can take it apart. */
  const DefaultCandidateLabels: string :=
    "invoice" + "," + ("contract" + "," + ("report" + "," + ("letter" + "," + ("receipt" + "," +
    ("form" + "," + ("memo" + "," + ("resume" + "," + ("specification" + "," + "manual"))))))))
  const DefaultDevice: string := "cuda"
  const DefaultOcrMaxPdfPages: int := 10

  datatype Settings = Settings(candidateLabels: string, device: string, ocrMaxPdfPages: int)

  const Defaults: Settings := Settings(DefaultCandidateLabels, DefaultDevice, DefaultOcrMaxPdfPages)

  predicate NoSpace(s: string) {
    forall k | 0 <= k < |s| :: !IsSpace(s[k])
  }

  /** `get_candidate_labels`: split on "," and strip every piece. Empty and
      repeated pieces are kept, so there is one label per comma plus one. */
  function GetCandidateLabels(candidateLabels: string): (labels: seq<string>)
    ensures |labels| == multiset(candidateLabels)[','] + 1
    ensures forall i | 0 <= i < |labels| :: IsStripped(labels[i])
    ensures forall i | 0 <= i < |labels| :: labels[i] == Strip(Split(candidateLabels, ',')[i])
  {
    var parts := Split(candidateLabels, ',');
    seq(|parts|, i requires 0 <= i < |parts| => Strip(parts[i]))
  }

  /** A string without whitespace is left alone by `strip()`. */
  lemma StripNoSpace(s: string)
    requires NoSpace(s)
    ensures Strip(s) == s
  {
    assert s == [] + s + [];
    StripCharacterization([], s, []);
  }

  /** Splitting keeps every piece free of whitespace when the input is. */
  lemma {:induction false} SplitNoSpace(s: string)
    requires NoSpace(s)
    ensures forall i | 0 <= i < |Split(s, ',')| :: NoSpace(Split(s, ',')[i])
    decreases |s|
  {
    if ',' in s {
      var i := IndexOf(s, ',');
      SplitNoSpace(s[i + 1..]);
      assert Split(s, ',') == [s[..i]] + Split(s[i + 1..], ',');
    }
  }

  /** Round trip: for a label string without whitespace, joining the parsed
      labels with "," gives the string back. */
  lemma LabelsRoundTrip(s: string)
    requires NoSpace(s)
    ensures Join(",", GetCandidateLabels(s)) == s
  {
    var parts := Split(s, ',');
    SplitNoSpace(s);
    forall i | 0 <= i < |parts| ensures Strip(parts[i]) == parts[i] {
      StripNoSpace(parts[i]);
    }
    assert GetCandidateLabels(s) == parts;
  }

  /** Parsing the join of comma- and whitespace-free labels gives exactly those labels. */
  lemma LabelsOfJoin(labels: seq<string>)
    requires |labels| >= 1
    requires forall i | 0 <= i < |labels| :: ',' !in labels[i] && NoSpace(labels[i])
    ensures GetCandidateLabels(Join(",", labels)) == labels
  {
    SplitJoin(labels, ',');
    forall i | 0 <= i < |labels| ensures Strip(labels[i]) == labels[i] {
      StripNoSpace(labels[i]);
    }
  }

  /** Parsing the join of comma-free pieces strips each piece, whatever
      whitespace it carries, and keeps their number and order. */
  lemma LabelsOfPieces(pieces: seq<string>)
    requires |pieces| >= 1
    requires forall i | 0 <= i < |pieces| :: ',' !in pieces[i]
    ensures |GetCandidateLabels(Join(",", pieces))| == |pieces|
    ensures forall i | 0 <= i < |pieces| :: GetCandidateLabels(Join(",", pieces))[i] == Strip(pieces[i])
  {
    SplitJoin(pieces, ',');
  }

  /** One space before or after a stripped string is removed by `strip()`. */
  lemma StripOneSpace(x: string)
    requires IsStripped(x)
    ensures Strip(x + " ") == x && Strip(" " + x) == x
  {
    var e: string := [];
    assert x + " " == e + x + " ";
    StripCharacterization(e, x, " ");
    assert " " + x == " " + x + e;
    StripCharacterization(" ", x, e);
  }

  /** Whitespace around the commas is removed: "invoice , contract" gives
      ["invoice", "contract"], and so does any pair of stripped, comma-free
      labels in their place. */
  lemma SpacesAroundCommasRemoved(x: string, y: string)
    requires IsStripped(x) && IsStripped(y) && ',' !in x && ',' !in y
    ensures GetCandidateLabels(x + " , " + y) == [x, y]
  {
    LabelsOfPaddedPair(x, y);
    StripOneSpace(x);
    StripOneSpace(y);
  }

  lemma LabelsOfPaddedPair(x: string, y: string)
    requires ',' !in x && ',' !in y
    ensures GetCandidateLabels(x + " , " + y) == [Strip(x + " "), Strip(" " + y)]
  {
    PaddedJoin(x, y);
    LabelsOfPieces([x + " ", " " + y]);
  }

  /** "x , y" is the comma join of "x " and " y". */
  lemma PaddedJoin(x: string, y: string)
    ensures Join(",", [x + " ", " " + y]) == x + " , " + y
  {
    assert [x + " ", " " + y][1..] == [" " + y];
  }

  /** Empty and repeated pieces survive parsing. */
  lemma EmptyPiecesKept()
    ensures GetCandidateLabels("a,,b") == ["a", "", "b"]
  {
    assert Join(",", ["a", "", "b"]) == "a,,b";
    assert forall i | 0 <= i < 3 :: ',' !in ["a", "", "b"][i] && NoSpace(["a", "", "b"][i]);
    LabelsOfJoin(["a", "", "b"]);
  }

  lemma DuplicatePiecesKept()
    ensures GetCandidateLabels("a,a") == ["a", "a"]
  {
    assert Join(",", ["a", "a"]) == "a,a";
    LabelsOfJoin(["a", "a"]);
  }

  /** The empty label string parses to one empty label, not to no labels. */
  lemma EmptyStringGivesOneLabel()
    ensures GetCandidateLabels("") == [""]
  {
    LabelsOfJoin([""]);
  }

  const DefaultLabelList: seq<string> :=
    ["invoice", "contract", "report", "letter", "receipt",
     "form", "memo", "resume", "specification", "manual"]

  lemma DefaultLabelsJoin()
    ensures Join(",", DefaultLabelList) == DefaultCandidateLabels
  {
    var l := DefaultLabelList;
    forall k | 0 <= k < 9 ensures Join(",", l[k..]) == l[k] + "," + Join(",", l[k + 1..]) {
      assert l[k..][1..] == l[k + 1..];
    }
    assert l[9..] == ["manual"];
    calc {
      Join(",", l);
      { assert l[0..] == l; }
      l[0] + "," + (l[1] + "," + (l[2] + "," + (l[3] + "," + (l[4] + "," + (l[5] + "," + (l[6] + "," + (l[7] + "," + (l[8] + "," + l[9]))))))));
      DefaultCandidateLabels;
    }
  }

  lemma DefaultLabelsClean()
    ensures forall i | 0 <= i < |DefaultLabelList| :: ',' !in DefaultLabelList[i] && NoSpace(DefaultLabelList[i])
  {
  }

  /** The default configuration yields the ten document types, in order. */
  lemma DefaultLabels()
    ensures GetCandidateLabels(Defaults.candidateLabels) ==
      ["invoice", "contract", "report", "letter", "receipt",
       "form", "memo", "resume", "specification", "manual"]
  {
    DefaultLabelsJoin();
    DefaultLabelsClean();
    LabelsOfJoin(DefaultLabelList);
  }
}
