/** Worked examples of the four passes on concrete texts. */
module AnonymiserExamples {
  import opened Text
  import opened Anonymiser
  import opened Outcomes

  const Durand: string := "Madame Durand"

  lemma DurandHonorific()
    ensures HonorificLen(Durand, 0) == 6
  {
    assert LowerAscii(Durand[0..8])[1] == 'a';
    assert LowerAscii(Durand[0..2])[1] == 'a';
    assert LowerAscii(Durand[0..6]) == "madame";
  }

  lemma DurandMatch()
    ensures MatchLen(Names, Durand, 0) == 13
  {
    DurandHonorific();
    RunLenIs(Durand, 6, Space, 1);
    assert FirstNameStart(Durand, 0) == Some(7);
    RunLenIs(Durand, 8, NameLetter, 5);
    assert NameEnd(Durand, 7) == Some(13);
    assert RunLen(Durand, 13, Space) == 0;
    assert SecondNameEnd(Durand, 13) == None;
    assert NameMatch(Durand, 0) == 13;
  }

  lemma DurandReplacement()
    ensures Replacements(Names, Durand)[0] == "Madame [nom]"
  {
    DurandHonorific();
    assert Replacements(Names, Durand)[0] == Durand[0..6] + " [nom]";
  }

  /** The honorific stays and the surname is replaced. */
  lemma NamesExample()
    ensures Sub(Names, Durand) == "Madame [nom]"
  {
    DurandMatch();
    SubAtFirstMatch(Names, Durand, 0);
    DurandReplacement();
    assert Scan(Durand, Lengths(Names, Durand), Replacements(Names, Durand), 13) == [];
    assert Durand[..0] == [];
  }

  const Anonymised: string := "Madame [nom]"

  lemma AnonymisedIsQuiet()
    ensures '@' !in Anonymised && forall k | 0 <= k < |Anonymised| :: !IsDigit(Anonymised[k])
  {
  }

  lemma AnonymiseExample()
    ensures Anonymise(Durand) == Anonymised
  {
    AnonymisedIsQuiet();
    NamesExample();
    AnonymiseAfterNames(Durand, Anonymised);
  }

  const Address: string := "jean.dupont@example.fr"

  lemma AddressLocalRun()
    ensures RunLen(Address, 0, EmailLocal) == 11
  {
    RunLenIs(Address, 0, EmailLocal, 11);
  }

  lemma AddressDomainRun()
    ensures RunLen(Address, 12, EmailDomain) == 7
  {
    RunLenIs(Address, 12, EmailDomain, 7);
  }

  lemma AddressSuffixRun()
    ensures RunLen(Address, 20, EmailSuffix) == 2
  {
    RunLenIs(Address, 20, EmailSuffix, 2);
  }

  lemma AddressMatch()
    ensures MatchLen(Emails, Address, 0) == 22
  {
    AddressLocalRun();
    AddressDomainRun();
    AddressSuffixRun();
    assert LastBoundary(Address, 21, 22) == Some(22);
  }

  lemma EmailsExample()
    ensures Sub(Emails, Address) == "[email]"
  {
    AddressMatch();
    SubAtFirstMatch(Emails, Address, 0);
    assert Address[..0] == [];
  }

  const Phone: string := "06 12 34 56 78"

  lemma PhoneMatchExample()
    ensures MatchLen(Phones, Phone, 0) == 14
  {
    assert PairEnd(Phone, 2) == Some(5);
    assert PairEnd(Phone, 5) == Some(8);
    assert PairEnd(Phone, 8) == Some(11);
    assert PairEnd(Phone, 11) == Some(14);
  }

  lemma PhonesExample()
    ensures Sub(Phones, Phone) == "[téléphone]"
  {
    PhoneMatchExample();
    SubAtFirstMatch(Phones, Phone, 0);
    assert Phone[..0] == [];
  }

  const Mobile: string := "0612345678"

  lemma MobileMatch()
    ensures MatchLen(Phones, Mobile, 0) == 10
  {
    assert PairEnd(Mobile, 2) == Some(4);
    assert PairEnd(Mobile, 4) == Some(6);
    assert PairEnd(Mobile, 6) == Some(8);
    assert PairEnd(Mobile, 8) == Some(10);
  }

  /** Without separators the ten digits are one number as well. */
  lemma MobileExample()
    ensures Sub(Phones, Mobile) == "[téléphone]"
  {
    MobileMatch();
    SubAtFirstMatch(Phones, Mobile, 0);
    assert Mobile[..0] == [];
  }

  const Iban: string := "FR76 1234"

  lemma IbanMatchExample()
    ensures MatchLen(Ibans, Iban, 0) == 9
  {
    RunLenIs(Iban, 4, WordOrSpace, 5);
    assert LastBoundary(Iban, 8, 9) == Some(9);
  }

  /** Country code, check digits and the rest of the account number become one
      token. */
  lemma IbansExample()
    ensures Sub(Ibans, Iban) == "[IBAN]"
  {
    IbanMatchExample();
    SubAtFirstMatch(Ibans, Iban, 0);
    assert Iban[..0] == [];
  }
}
