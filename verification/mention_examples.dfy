/**
 A worked example of the mention scanner on a text with two mentions. The
 steps are kept in separate small lemmas because the verifier evaluates the
 scanner on a literal text eagerly.
 */
module MentionExamples {
  import opened Collections
  import opened Mentions

  const Text := "Hi @a@b.com and @c@d.org"

  /** Positions without `@` never start a match and are skipped. */
  lemma SkipNoAt(s: string, i: nat, j: nat)
    requires i <= j <= |s|
    requires forall y :: i <= y < j ==> s[y] != '@'
    ensures Scan(s, i) == Scan(s, j)
  {
    forall y | i <= y < j
      ensures Scan(s, y) == Scan(s, y + 1)
    {
      SkipOneNoAt(s, y);
    }
    ScanSkipsRun(s, i, j);
  }

  /** A position without `@` is passed over. */
  lemma SkipOneNoAt(s: string, i: nat)
    requires i < |s| && s[i] != '@'
    ensures Scan(s, i) == Scan(s, i + 1)
  {
    assert MatchAt(s, i) == None;
    ScanStepNone(s, i);
  }

  lemma FirstPieces()
    ensures RunEnd(Text, 4, LocalPart) == 5 && RunEnd(Text, 6, DomainPart) == 11
  {
    assert Text[4] == 'a' && Text[5] == '@';
    assert RunEnd(Text, 5, LocalPart) == 5;
    assert Text[6] == 'b' && Text[7] == '.' && Text[8] == 'c' && Text[9] == 'o';
    assert Text[10] == 'm' && Text[11] == ' ';
    assert RunEnd(Text, 11, DomainPart) == 11;
    assert RunEnd(Text, 10, DomainPart) == 11;
    assert RunEnd(Text, 9, DomainPart) == 11;
    assert RunEnd(Text, 8, DomainPart) == 11;
    assert RunEnd(Text, 7, DomainPart) == 11;
  }

  lemma FirstTld()
    ensures LastTldDot(Text, 6, 10) == Some(7) && RunEnd(Text, 8, Letter) == 11
  {
    assert Text[7] == '.' && Text[8] == 'c' && Text[9] == 'o';
    assert Text[10] == 'm' && Text[11] == ' ';
    assert !TldAt(Text, 10) && !TldAt(Text, 9) && !TldAt(Text, 8) && TldAt(Text, 7);
    assert LastTldDot(Text, 6, 7) == Some(7);
    assert LastTldDot(Text, 6, 8) == Some(7);
    assert LastTldDot(Text, 6, 9) == Some(7);
    assert RunEnd(Text, 11, Letter) == 11;
    assert RunEnd(Text, 10, Letter) == 11;
    assert RunEnd(Text, 9, Letter) == 11;
  }

  lemma FirstMatch()
    ensures MatchAt(Text, 3) == Some(11) && Text[4..11] == "a@b.com"
  {
    FirstPieces();
    FirstTld();
    MatchFromPieces(Text, 3, 5, 11, 7, 11);
  }

  lemma SecondPieces()
    ensures RunEnd(Text, 17, LocalPart) == 18 && RunEnd(Text, 19, DomainPart) == 24
  {
    assert |Text| == 24;
    assert Text[17] == 'c' && Text[18] == '@';
    assert RunEnd(Text, 18, LocalPart) == 18;
    assert Text[19] == 'd' && Text[20] == '.' && Text[21] == 'o' && Text[22] == 'r';
    assert Text[23] == 'g';
    assert RunEnd(Text, 24, DomainPart) == 24;
    assert RunEnd(Text, 23, DomainPart) == 24;
    assert RunEnd(Text, 22, DomainPart) == 24;
    assert RunEnd(Text, 21, DomainPart) == 24;
    assert RunEnd(Text, 20, DomainPart) == 24;
  }

  lemma SecondTld()
    ensures LastTldDot(Text, 19, 23) == Some(20) && RunEnd(Text, 21, Letter) == 24
  {
    assert |Text| == 24;
    assert Text[20] == '.' && Text[21] == 'o' && Text[22] == 'r' && Text[23] == 'g';
    assert !TldAt(Text, 23) && !TldAt(Text, 22) && !TldAt(Text, 21) && TldAt(Text, 20);
    assert LastTldDot(Text, 19, 20) == Some(20);
    assert LastTldDot(Text, 19, 21) == Some(20);
    assert LastTldDot(Text, 19, 22) == Some(20);
    assert RunEnd(Text, 24, Letter) == 24;
    assert RunEnd(Text, 23, Letter) == 24;
    assert RunEnd(Text, 22, Letter) == 24;
  }

  lemma SecondMatch()
    ensures MatchAt(Text, 16) == Some(24) && Text[17..24] == "c@d.org"
  {
    SecondPieces();
    SecondTld();
    MatchFromPieces(Text, 16, 18, 24, 20, 24);
  }

  lemma ScanAtFirst()
    ensures Scan(Text, 3) == ["a@b.com"] + Scan(Text, 11)
  {
    FirstMatch();
    ScanStepSome(Text, 3, 11);
  }

  lemma ScanAtSecond()
    ensures Scan(Text, 16) == ["c@d.org"]
  {
    SecondMatch();
    ScanStepSome(Text, 16, 24);
    assert Scan(Text, 24) == [];
  }

  lemma NoAtBefore()
    ensures Scan(Text, 0) == Scan(Text, 3)
  {
    SkipNoAt(Text, 0, 3);
  }

  lemma NoAtBetween()
    ensures Scan(Text, 11) == Scan(Text, 16)
  {
    SkipNoAt(Text, 11, 16);
  }

  /** Both mentions are found, left to right. */
  lemma TwoMentions()
    ensures Extract(Text) == ["a@b.com", "c@d.org"]
  {
    NoAtBefore();
    NoAtBetween();
    ScanAtFirst();
    ScanAtSecond();
  }
}
