/** The saved cover letters: the newest is put first, and deletion removes
    every letter carrying the given id. The two `Date.now()` readings of
    `saveLetter` are parameters. */
module CoverLetters {
  import opened Strings
  import opened Records
  import Seqs

  /** `saveLetter`: an empty letter is not saved; otherwise a letter built
      from the current inputs, with the first clock reading as its id, goes
      in front of the saved ones. */
  function SaveLetter(letters: seq<CoverLetter>, jobTitle: string, company: string, letter: string, idNow: nat, createdNow: int): (r: seq<CoverLetter>)
    ensures letter == "" ==> r == letters
    ensures letter != "" ==> |r| == |letters| + 1 && r[1..] == letters
    ensures letter != "" ==>
      && r[0].jobTitle == jobTitle && r[0].company == company && r[0].letter == letter
      && r[0].createdAt == createdNow && r[0].id == NatToString(idNow)
      && AllDigits(r[0].id) && |r[0].id| >= 1
  {
    if letter == "" then letters
    else [CoverLetter(NatToString(idNow), jobTitle, company, createdNow, letter)] + letters
  }

  /** `deleteLetter(id)`: the letters whose id differs, in their order. */
  function DeleteLetter(letters: seq<CoverLetter>, id: string): (r: seq<CoverLetter>)
    ensures forall i :: 0 <= i < |r| ==> r[i].id != id && r[i] in letters
    ensures forall i :: 0 <= i < |letters| && letters[i].id != id ==> letters[i] in r
    ensures Seqs.IsSubseq(r, letters)
    ensures forall l :: multiset(r)[l] == (if l.id != id then multiset(letters)[l] else 0)
  {
    var keep := (l: CoverLetter) => l.id != id;
    Seqs.FilterSubseq(letters, keep);
    Seqs.FilterCounts(letters, keep);
    Seqs.Filter(letters, keep)
  }

  /** Deleting an id no letter carries changes nothing. */
  lemma DeleteAbsent(letters: seq<CoverLetter>, id: string)
    requires forall i :: 0 <= i < |letters| ==> letters[i].id != id
    ensures DeleteLetter(letters, id) == letters
  {
    Seqs.FilterKeepsAll(letters, (l: CoverLetter) => l.id != id);
  }

  /** Deleting a letter just saved under a fresh id gives back the saved list. */
  lemma SaveThenDelete(letters: seq<CoverLetter>, jobTitle: string, company: string, letter: string, idNow: nat, createdNow: int)
    requires letter != ""
    requires forall i :: 0 <= i < |letters| ==> letters[i].id != NatToString(idNow)
    ensures DeleteLetter(SaveLetter(letters, jobTitle, company, letter, idNow, createdNow), NatToString(idNow)) == letters
  {
    var id := NatToString(idNow);
    var keep := (l: CoverLetter) => l.id != id;
    var saved := SaveLetter(letters, jobTitle, company, letter, idNow, createdNow);
    assert saved == [saved[0]] + letters;
    Seqs.FilterConcat([saved[0]], letters, keep);
    Seqs.FilterKeepsAll(letters, keep);
    assert Seqs.Filter([saved[0]], keep) == [];
  }

  /** Deleting twice is deleting once. */
  lemma DeleteTwice(letters: seq<CoverLetter>, id: string)
    ensures DeleteLetter(DeleteLetter(letters, id), id) == DeleteLetter(letters, id)
  {
    DeleteAbsent(DeleteLetter(letters, id), id);
  }
}
