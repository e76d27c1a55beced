/** The resume editor's form: adding and removing list entries, moving custom
    sections, the AI-assisted edits of an experience entry, and the record
    of the last AI action with its re-run dispatch. Model replies are
    parameters (`None` for an empty or failed reply). */
module ResumeForm {
  import opened Options
  import opened Strings
  import opened Records
  import Seqs

  const DefaultSectionTitle: string := "Custom Section"
  const PointsSeparator: string := "\n\n"

  const EmptyExperience: Experience := Experience("", "", "", "", "")
  const EmptyEducation: Education := Education("", "", "")
  const NewCustomSection: CustomSection := CustomSection(DefaultSectionTitle, "")

  /** What the last AI action did. */
  datatype AiKind = GenerateSummary | Polish | GeneratePoints

  /** `lastAiAction`: the path of the control it changed and its kind. */
  datatype AiAction = AiAction(path: string, kind: AiKind)

  /** The form value and the last AI action. */
  datatype Form = Form(value: FormValue, lastAiAction: Option<AiAction>)

  // Adding and removing entries

  /** `addExperience`: an empty entry at the end. */
  function AddExperience(f: FormValue): (r: FormValue)
    ensures r.experience == f.experience + [EmptyExperience]
    ensures r.(experience := f.experience) == f
  {
    f.(experience := f.experience + [EmptyExperience])
  }

  /** `addEducation`: an empty entry at the end. */
  function AddEducation(f: FormValue): (r: FormValue)
    ensures r.education == f.education + [EmptyEducation]
    ensures r.(education := f.education) == f
  {
    f.(education := f.education + [EmptyEducation])
  }

  /** `addCustomSection`: a section titled "Custom Section" with no content, at the end. */
  function AddCustomSection(f: FormValue): (r: FormValue)
    ensures r.customSections == f.customSections + [CustomSection("Custom Section", "")]
    ensures r.(customSections := f.customSections) == f
  {
    f.(customSections := f.customSections + [NewCustomSection])
  }

  /** `removeExperience(index)`: the entry at `index` goes, the rest keep their
      order; an index outside the list removes nothing. */
  function RemoveExperience(f: FormValue, index: int): (r: FormValue)
    ensures r.(experience := f.experience) == f
    ensures 0 <= index < |f.experience| ==> r.experience == f.experience[..index] + f.experience[index + 1..]
    ensures !(0 <= index < |f.experience|) ==> r == f
  {
    RemoveAtSlices(f.experience, index);
    f.(experience := Seqs.RemoveAt(f.experience, index))
  }

  /** `removeEducation(index)`. */
  function RemoveEducation(f: FormValue, index: int): (r: FormValue)
    ensures r.(education := f.education) == f
    ensures 0 <= index < |f.education| ==> r.education == f.education[..index] + f.education[index + 1..]
    ensures !(0 <= index < |f.education|) ==> r == f
  {
    RemoveAtSlices(f.education, index);
    f.(education := Seqs.RemoveAt(f.education, index))
  }

  /** `removeCustomSection(index)`. */
  function RemoveCustomSection(f: FormValue, index: int): (r: FormValue)
    ensures r.(customSections := f.customSections) == f
    ensures 0 <= index < |f.customSections| ==> r.customSections == f.customSections[..index] + f.customSections[index + 1..]
    ensures !(0 <= index < |f.customSections|) ==> r == f
  {
    RemoveAtSlices(f.customSections, index);
    f.(customSections := Seqs.RemoveAt(f.customSections, index))
  }

  lemma RemoveAtSlices<T>(s: seq<T>, index: int)
    ensures 0 <= index < |s| ==> Seqs.RemoveAt(s, index) == s[..index] + s[index + 1..]
  {
    if 0 <= index < |s| {
      assert Seqs.RemoveAt(s, index) == s[..index] + s[index + 1..];
    }
  }

  /** Removing the entry just added gives back the form. */
  lemma AddThenRemove(f: FormValue)
    ensures RemoveExperience(AddExperience(f), |f.experience|) == f
    ensures RemoveEducation(AddEducation(f), |f.education|) == f
    ensures RemoveCustomSection(AddCustomSection(f), |f.customSections|) == f
  {
    assert (f.experience + [EmptyExperience])[..|f.experience|] == f.experience;
    assert (f.education + [EmptyEducation])[..|f.education|] == f.education;
    assert (f.customSections + [NewCustomSection])[..|f.customSections|] == f.customSections;
  }

  // Moving custom sections

  /** `moveCustomSection(index, direction)`: when `index + direction` is a
      position of the list, the section at `index` is taken out and put back
      at that position; otherwise nothing changes. */
  function MoveSection(s: seq<CustomSection>, index: nat, direction: int): (r: seq<CustomSection>)
    requires index < |s|
    ensures !(0 <= index + direction < |s|) ==> r == s
    ensures |r| == |s| && multiset(r) == multiset(s)
    ensures 0 <= index + direction < |s| ==> r[index + direction] == s[index]
  {
    var target := index + direction;
    if target < 0 || target >= |s| then s
    else
      Seqs.RemoveAtMultiset(s, index);
      Seqs.InsertAtMultiset(Seqs.RemoveAt(s, index), target, s[index]);
      Seqs.InsertAt(Seqs.RemoveAt(s, index), target, s[index])
  }

  /** A move by one place swaps the section with its neighbour. */
  lemma MoveIsSwap(s: seq<CustomSection>, index: nat, direction: int)
    requires index < |s| && (direction == 1 || direction == -1)
    requires 0 <= index + direction < |s|
    ensures MoveSection(s, index, direction) == s[index := s[index + direction]][index + direction := s[index]]
  {
    var r := MoveSection(s, index, direction);
    var t := index + direction;
    var swapped := s[index := s[t]][t := s[index]];
    forall j | 0 <= j < |s| ensures r[j] == swapped[j] {
    }
  }

  /** Moving a section up and then back down restores the order. */
  lemma MoveUpThenDown(s: seq<CustomSection>, index: nat)
    requires 1 <= index < |s|
    ensures MoveSection(MoveSection(s, index, -1), index - 1, 1) == s
  {
    MoveAndBack(s, index, -1);
  }

  /** Moving a section by any distance and back restores the order. */
  lemma MoveAndBack(s: seq<CustomSection>, index: nat, direction: int)
    requires index < |s| && 0 <= index + direction < |s|
    ensures MoveSection(MoveSection(s, index, direction), index + direction, -direction) == s
  {
    var t := index + direction;
    var rest := Seqs.RemoveAt(s, index);
    var once := Seqs.InsertAt(rest, t, s[index]);
    Seqs.RemoveInserted(rest, t, s[index]);
    Seqs.InsertRemoved(s, index);
  }

  // The last AI action

  /** `onUserInputChange(path)`: a manual edit of the control the last AI
      action changed forgets that action; any other edit keeps it. */
  function OnUserInputChange(last: Option<AiAction>, path: string): (r: Option<AiAction>)
    ensures last.Some? && last.value.path == path ==> r.None?
    ensures !(last.Some? && last.value.path == path) ==> r == last
  {
    if last.Some? && last.value.path == path then None else last
  }

  /** The control path of experience entry `index`'s description. */
  function DescriptionPath(index: nat): (r: string)
    ensures StartsWith(r, "experience")
  {
    "experience." + NatToString(index) + ".description"
  }

  /** What `rerunLastAiAction` starts again. */
  datatype Rerun =
    | RerunSummary
    | RerunEnhanceExperience(index: Option<int>)
    | RerunEnhanceField(path: string)
    | RerunPoints(index: Option<int>)

  /** `parseInt(path.split('.')[1], 10)`: the second dot-separated piece read
      as a number; a missing piece reads as `NaN`. */
  function PathIndex(path: string): (r: Option<int>)
    ensures Count(path, '.') == 0 ==> r.None?
  {
    var pieces := Split(path, '.');
    if |pieces| >= 2 then ParseInt(pieces[1]) else None
  }

  /** `rerunLastAiAction`: nothing without a last action; a summary is
      generated again; a polish goes to the experience entry named by the
      path when it starts with "experience", else to the named field; points
      are generated again only for an experience path. */
  function RerunLastAiAction(last: Option<AiAction>): (r: Option<Rerun>)
    ensures last.None? ==> r.None?
    ensures last.Some? && last.value.kind == GenerateSummary ==> r == Some(RerunSummary)
    ensures last.Some? && last.value.kind == Polish && !StartsWith(last.value.path, "experience")
      ==> r == Some(RerunEnhanceField(last.value.path))
    ensures last.Some? && last.value.kind == GeneratePoints && !StartsWith(last.value.path, "experience") ==> r.None?
    ensures last.Some? && last.value.kind == Polish && StartsWith(last.value.path, "experience")
      ==> r == Some(RerunEnhanceExperience(PathIndex(last.value.path)))
    ensures last.Some? && last.value.kind == GeneratePoints && StartsWith(last.value.path, "experience")
      ==> r == Some(RerunPoints(PathIndex(last.value.path)))
  {
    match last
    case None => None
    case Some(a) =>
      match a.kind
      case GenerateSummary => Some(RerunSummary)
      case Polish =>
        if StartsWith(a.path, "experience") then Some(RerunEnhanceExperience(PathIndex(a.path)))
        else Some(RerunEnhanceField(a.path))
      case GeneratePoints =>
        if StartsWith(a.path, "experience") then Some(RerunPoints(PathIndex(a.path)))
        else None
  }

  /** The index written into a description path is the index read back. */
  lemma PathIndexRoundTrip(index: nat)
    ensures PathIndex(DescriptionPath(index)) == Some(index)
  {
    var digits := NatToString(index);
    var pieces := ["experience", digits, "description"];
    assert '.' !in digits by {
      assert forall i :: 0 <= i < |digits| ==> IsDigit(digits[i]);
    }
    assert forall i :: 0 <= i < |pieces| ==> '.' !in pieces[i];
    assert Join(pieces, ".") == DescriptionPath(index) by {
      assert pieces[1..] == [digits, "description"];
      assert pieces[1..][1..] == ["description"];
      assert Join([digits, "description"], ".") == digits + "." + "description";
      assert Join(pieces, ".") == "experience" + "." + (digits + "." + "description");
    }
    SplitJoin(pieces, '.');
    ParseIntRoundTrip(index);
  }

  // AI edits of an experience entry

  /** Replace the description of experience entry `index`. */
  function SetDescription(f: FormValue, index: nat, text: string): (r: FormValue)
    requires index < |f.experience|
    ensures |r.experience| == |f.experience| && r.experience[index].description == text
    ensures r.experience[index].(description := f.experience[index].description) == f.experience[index]
    ensures forall j :: 0 <= j < |f.experience| && j != index ==> r.experience[j] == f.experience[j]
    ensures r.(experience := f.experience) == f
  {
    f.(experience := f.experience[index := f.experience[index].(description := text)])
  }

  /** `generatePoints(index)`: with a role and a company filled in, the
      model's points replace an empty description or follow the current one
      after a blank line, and the action is recorded; without them, or
      without points, nothing changes. */
  function GeneratePointsAt(form: Form, index: nat, points: Option<string>): (r: Form)
    requires index < |form.value.experience|
    ensures
      var e := form.value.experience[index];
      e.role == "" || e.company == "" || points.None? || points.value == "" ==> r == form
    ensures
      var e := form.value.experience[index];
      e.role != "" && e.company != "" && points.Some? && points.value != "" ==>
        && r.value == SetDescription(form.value, index, if e.description == "" then points.value else e.description + "\n\n" + points.value)
        && r.lastAiAction == Some(AiAction(DescriptionPath(index), GeneratePoints))
  {
    var e := form.value.experience[index];
    if e.role != "" && e.company != "" && points.Some? && points.value != "" then
      var current := e.description;
      var next := if current != "" then current + PointsSeparator + points.value else points.value;
      Form(SetDescription(form.value, index, next), Some(AiAction(DescriptionPath(index), GeneratePoints)))
    else form
  }

  /** Generated points never lose the text that was there: the old
      description is a prefix of the new one. */
  lemma PointsAppend(form: Form, index: nat, points: Option<string>)
    requires index < |form.value.experience|
    ensures
      var before := form.value.experience[index].description;
      var after := GeneratePointsAt(form, index, points).value.experience[index].description;
      |before| <= |after| && after[..|before|] == before
  {
    var before := form.value.experience[index].description;
    var after := GeneratePointsAt(form, index, points).value.experience[index].description;
    if after != before {
      assert after[..|before|] == before;
    }
  }

  /** `enhanceExperience(index)`: a non-empty description is replaced by the
      model's polished text, and the action is recorded. */
  function EnhanceExperience(form: Form, index: nat, polished: Option<string>): (r: Form)
    requires index < |form.value.experience|
    ensures form.value.experience[index].description == "" || polished.None? || polished.value == "" ==> r == form
    ensures form.value.experience[index].description != "" && polished.Some? && polished.value != "" ==>
      && r.value == SetDescription(form.value, index, polished.value)
      && r.lastAiAction == Some(AiAction(DescriptionPath(index), Polish))
  {
    if form.value.experience[index].description != "" && polished.Some? && polished.value != "" then
      Form(SetDescription(form.value, index, polished.value), Some(AiAction(DescriptionPath(index), Polish)))
    else form
  }

  /** `generateSummary`: a non-empty summary from the model replaces the
      summary field, and the action is recorded. */
  function GenerateSummaryWith(form: Form, summary: Option<string>): (r: Form)
    ensures summary.None? || summary.value == "" ==> r == form
    ensures summary.Some? && summary.value != "" ==>
      r.value == form.value.(summary := summary.value) && r.lastAiAction == Some(AiAction("summary", GenerateSummary))
  {
    if summary.Some? && summary.value != "" then
      Form(form.value.(summary := summary.value), Some(AiAction("summary", GenerateSummary)))
    else form
  }

  /** After generating points for entry `index`, a re-run generates points
      for that same entry again. */
  lemma RerunAfterPoints(form: Form, index: nat, points: Option<string>)
    requires index < |form.value.experience|
    requires form.value.experience[index].role != "" && form.value.experience[index].company != ""
    requires points.Some? && points.value != ""
    ensures RerunLastAiAction(GeneratePointsAt(form, index, points).lastAiAction) == Some(RerunPoints(Some(index)))
  {
    PathIndexRoundTrip(index);
  }

  /** After polishing entry `index`, a re-run polishes that same entry again. */
  lemma RerunAfterPolish(form: Form, index: nat, polished: Option<string>)
    requires index < |form.value.experience|
    requires form.value.experience[index].description != ""
    requires polished.Some? && polished.value != ""
    ensures RerunLastAiAction(EnhanceExperience(form, index, polished).lastAiAction) == Some(RerunEnhanceExperience(Some(index)))
  {
    PathIndexRoundTrip(index);
  }

  /** Editing the description by hand after an AI edit of it disables the re-run. */
  lemma EditForgetsAction(form: Form, index: nat, points: Option<string>)
    requires index < |form.value.experience|
    requires form.value.experience[index].role != "" && form.value.experience[index].company != ""
    requires points.Some? && points.value != ""
    ensures RerunLastAiAction(OnUserInputChange(GeneratePointsAt(form, index, points).lastAiAction, DescriptionPath(index))).None?
  {
  }
}
