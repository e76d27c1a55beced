/** The resume preview's skill chips: the comma-separated skills field split
    into trimmed, non-empty entries. */
module ResumePreview {
  import opened Options
  import opened Strings
  import Seqs

  function NonEmpty(s: string): bool {
    |s| > 0
  }

  /** `skillsList`: a missing or empty field gives no skills; otherwise the
      pieces between commas, trimmed, with the empty ones dropped. */
  function SkillsList(skills: Option<string>): (r: seq<string>)
    ensures skills.None? || skills == Some("") ==> r == []
    ensures forall i :: 0 <= i < |r| ==> r[i] != "" && IsTrimmed(r[i]) && ',' !in r[i]
    ensures skills.Some? ==> |r| <= Count(skills.value, ',') + 1
    ensures skills.Some? ==> Seqs.IsSubseq(r, TrimAll(Split(skills.value, ',')))
    ensures skills.Some? ==> forall x ::
      multiset(r)[x] == (if x != "" then multiset(TrimAll(Split(skills.value, ',')))[x] else 0)
  {
    if skills.None? then []
    else if skills.value == "" then
      EmptyField();
      []
    else
      PiecesFacts(skills.value);
      PiecesExact(skills.value);
      Pieces(skills.value)
  }

  /** The empty field splits into one empty piece, which is dropped. */
  lemma EmptyField()
    ensures Pieces("") == []
  {
    assert Split("", ',') == [""];
    assert TrimAll([""]) == [Trim("")];
  }

  /** The non-empty trimmed pieces between commas, in order. */
  function Pieces(s: string): seq<string> {
    Seqs.Filter(TrimAll(Split(s, ',')), NonEmpty)
  }

  lemma PiecesFacts(s: string)
    ensures forall i :: 0 <= i < |Pieces(s)| ==> Pieces(s)[i] != "" && IsTrimmed(Pieces(s)[i]) && ',' !in Pieces(s)[i]
    ensures |Pieces(s)| <= Count(s, ',') + 1
  {
    var pieces := TrimAll(Split(s, ','));
    PiecesClean(s);
    var r := Seqs.Filter(pieces, NonEmpty);
    assert forall i :: 0 <= i < |r| ==> r[i] in pieces;
  }

  lemma PiecesExact(s: string)
    ensures Seqs.IsSubseq(Pieces(s), TrimAll(Split(s, ',')))
    ensures forall x :: multiset(Pieces(s))[x] == (if x != "" then multiset(TrimAll(Split(s, ',')))[x] else 0)
  {
    Seqs.FilterSubseq(TrimAll(Split(s, ',')), NonEmpty);
    Seqs.FilterCounts(TrimAll(Split(s, ',')), NonEmpty);
  }

  lemma PiecesClean(s: string)
    ensures forall i :: 0 <= i < |TrimAll(Split(s, ','))| ==>
      IsTrimmed(TrimAll(Split(s, ','))[i]) && ',' !in TrimAll(Split(s, ','))[i]
  {
    var pieces := TrimAll(Split(s, ','));
    forall i | 0 <= i < |pieces| ensures ',' !in pieces[i] {
      SplitPiecesTrimmedFree(s, ',', i);
    }
  }

  /** A comma-free field that is not blank is one skill: its trimmed text. */
  lemma SingleSkill(s: string)
    requires ',' !in s && !IsBlank(s)
    ensures SkillsList(Some(s)) == [Trim(s)]
  {
    Strings.SplitPrefix(s, "", ',');
    assert s + "" == s;
    assert Split(s, ',') == [s];
    assert TrimAll([s]) == [Trim(s)];
    assert Seqs.Filter([Trim(s)], NonEmpty) == [Trim(s)];
  }

  /** Skills that are non-empty, trimmed and comma-free survive a round trip
      through the comma-joined field unchanged and in order. */
  lemma SkillsRoundTrip(skills: seq<string>)
    requires |skills| >= 1
    requires forall i :: 0 <= i < |skills| ==> skills[i] != "" && IsTrimmed(skills[i]) && ',' !in skills[i]
    ensures SkillsList(Some(Join(skills, ","))) == skills
  {
    var field := Join(skills, ",");
    SplitJoin(skills, ',');
    JoinNonEmpty(skills, ",");
    TrimAllFixed(skills);
    Seqs.FilterKeepsAll(skills, NonEmpty);
    assert Pieces(field) == skills;
  }

  /** Joining a list whose first entry is non-empty gives a non-empty string. */
  lemma JoinNonEmpty(parts: seq<string>, sep: string)
    requires |parts| >= 1 && parts[0] != ""
    ensures Join(parts, sep) != ""
  {
    if |parts| > 1 {
      assert |Join(parts, sep)| >= |parts[0]|;
    }
  }
}
