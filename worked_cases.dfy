/** Worked examples of generate_email and generate_emails_for_students,
    each one an instance of the general lemmas. Each lemma takes the name as
    a parameter fixed by its precondition rather than writing the literal
    into its postcondition: on a literal argument Dafny unfolds `Split` and
    `Clean` all the way down, which costs far more than instantiating the
    general lemmas. */
module EmailExamples {
  import opened CharClasses
  import opened Decimal
  import opened TokenSplit
  import opened NameNormalizer
  import opened EmailAssigner

  /** "John Smith" gives the base "jsmith". */
  lemma JohnSmith(name: string)
    requires name == "John Smith"
    ensures EmailBase(name) == Ok("jsmith")
  {
    var ws := ["John", "Smith"];
    assert IsWordToken(ws[0]) && IsWordToken(ws[1]);
    assert Join(ws) == name;
    JoinedWordsBase(ws);
    assert Lower(ws[1]) == "smith";
    assert [ToLower(ws[0][0])] + Lower(ws[1]) == "jsmith";
  }

  /** A one-token name is its own base: "Madonna" gives "madonna". */
  lemma Madonna(name: string)
    requires name == "Madonna"
    ensures EmailBase(name) == Ok("madonna")
  {
    assert IsWordToken(name);
    SingleWordBase(name);
    assert Lower(name) == "madonna";
  }

  /** Middle names play no part: "Mary Ann Smith" gives "msmith". */
  lemma MaryAnnSmith(name: string)
    requires name == "Mary Ann Smith"
    ensures EmailBase(name) == Ok("msmith")
  {
    var ws := ["Mary", "Ann", "Smith"];
    assert IsWordToken(ws[0]) && IsWordToken(ws[1]) && IsWordToken(ws[2]);
    assert Join(ws) == name by {
      assert Join(ws[1..]) == "Ann Smith";
    }
    JoinedWordsBase(ws);
    assert Lower(ws[2]) == "smith";
    assert [ToLower(ws[0][0])] + Lower(ws[2]) == "msmith";
  }

  /** "JoAnn Smith" gives "jsmith". */
  lemma JoAnnSmithUnhyphenated(name: string)
    requires name == "JoAnn Smith"
    ensures EmailBase(name) == Ok("jsmith")
  {
    var ws := ["JoAnn", "Smith"];
    assert IsWordToken(ws[0]) && IsWordToken(ws[1]);
    assert Join(ws) == name;
    JoinedWordsBase(ws);
    assert Lower(ws[1]) == "smith";
    assert [ToLower(ws[0][0])] + Lower(ws[1]) == "jsmith";
  }

  /** The hyphen is deleted: "Jo-Ann Smith" is read as "JoAnn Smith" and
      gives "jsmith". */
  lemma JoAnnSmith(name: string)
    requires name == "Jo-Ann Smith"
    ensures EmailBase(name) == Ok("jsmith")
  {
    var a, b := "Jo", "Ann Smith";
    assert name == a + ['-'] + b;
    PunctuationIgnored(a, '-', b);
    JoAnnSmithUnhyphenated(a + b);
  }

  /** A leading space makes generate_email raise IndexError. */
  lemma LeadingSpace(name: string)
    requires name == " John Smith"
    ensures EmailBase(name) == Err(IndexError)
  {
    LeadingSpaceFails(name);
  }

  /** A name that is only whitespace splits into two empty tokens, so it
      raises IndexError too. */
  lemma WhitespaceOnly(name: string)
    requires name == " "
    ensures Normalize(name) == ["", ""]
    ensures EmailBase(name) == Err(IndexError)
  {
    assert Lower(name) == " ";
    assert Keep(' ') && " "[1..] == [];
    assert Clean(" ") == " ";
    assert Cleaned(name) == " ";
    assert Split(" ") == [""] + Split("");
    LeadingSpaceFails(name);
  }

  /** A trailing space leaves an empty last token, so "Madonna " is read as
      two tokens and gives the initial alone. */
  lemma TrailingSpace(name: string)
    requires name == "Madonna "
    ensures EmailBase(name) == Ok("m")
  {
    var ws := ["Madonna"];
    assert IsWordToken(ws[0]);
    assert Join(ws) + " " == name;
    TrailingSpaceBase(ws);
  }

  /** The empty name is not rejected: it gets the bare domain. */
  lemma EmptyName(name: string)
    requires name == ""
    ensures EmailFor(name, {}) == Ok("@gmail.com")
  {
    assert Lower(name) == "";
    assert Cleaned(name) == "";
    assert Split("") == [""];
    assert Strip("") == "";
    assert EmailBase(name) == Ok("");
    LeastFreeUnique("", {}, 0);
    assert Candidate("", 0) == "@gmail.com";
  }

  /** A first "John Smith" gets the bare base. */
  lemma FirstJohnSmith(n: string)
    requires n == "John Smith"
    ensures EmailFor(n, {}) == Ok("jsmith@gmail.com")
  {
    JohnSmith(n);
    assert Candidate("jsmith", 0) == "jsmith@gmail.com";
    EmailForLeastFree(n, {}, 0);
  }

  /** Once jsmith is taken, the next "John Smith" gets jsmith1. */
  lemma SecondJohnSmith(n: string)
    requires n == "John Smith"
    ensures EmailFor(n, {"jsmith@gmail.com"}) == Ok("jsmith1@gmail.com")
  {
    JohnSmith(n);
    assert IntToString(1) == "1";
    assert Candidate("jsmith", 0) == "jsmith@gmail.com";
    assert Candidate("jsmith", 1) == "jsmith1@gmail.com";
    EmailForLeastFree(n, {"jsmith@gmail.com"}, 1);
  }

  /** Once jsmith and jsmith1 are taken, the counter goes on to 2. */
  lemma ThirdJohnSmith(n: string)
    requires n == "John Smith"
    ensures EmailFor(n, {"jsmith@gmail.com", "jsmith1@gmail.com"}) == Ok("jsmith2@gmail.com")
  {
    JohnSmith(n);
    assert IntToString(1) == "1" && IntToString(2) == "2";
    assert Candidate("jsmith", 0) == "jsmith@gmail.com";
    assert Candidate("jsmith", 1) == "jsmith1@gmail.com";
    assert Candidate("jsmith", 2) == "jsmith2@gmail.com";
    EmailForLeastFree(n, {"jsmith@gmail.com", "jsmith1@gmail.com"}, 2);
  }

  /** The last of three rows named "John Smith". */
  lemma OneJohnSmithLeft(n: string)
    requires n == "John Smith"
    ensures BatchEmails([n], {"jsmith@gmail.com", "jsmith1@gmail.com"}) == Ok(["jsmith2@gmail.com"])
  {
    ThirdJohnSmith(n);
    var names := [n];
    assert names[0] == n && names[1..] == [];
    assert ["jsmith2@gmail.com"] + [] == ["jsmith2@gmail.com"];
  }

  /** The last two of three rows named "John Smith". */
  lemma TwoJohnSmithsLeft(n: string)
    requires n == "John Smith"
    ensures BatchEmails([n, n], {"jsmith@gmail.com"}) == Ok(["jsmith1@gmail.com", "jsmith2@gmail.com"])
  {
    SecondJohnSmith(n);
    OneJohnSmithLeft(n);
    var names := [n, n];
    assert names[0] == n && names[1..] == [n];
    assert {"jsmith@gmail.com"} + {"jsmith1@gmail.com"} == {"jsmith@gmail.com", "jsmith1@gmail.com"};
    assert ["jsmith1@gmail.com"] + ["jsmith2@gmail.com"] == ["jsmith1@gmail.com", "jsmith2@gmail.com"];
  }

  /** Three rows named "John Smith" get jsmith, jsmith1 and jsmith2. */
  lemma ThreeJohnSmiths(n: string)
    requires n == "John Smith"
    ensures BatchEmails([n, n, n], {})
      == Ok(["jsmith@gmail.com", "jsmith1@gmail.com", "jsmith2@gmail.com"])
  {
    FirstJohnSmith(n);
    TwoJohnSmithsLeft(n);
    var names := [n, n, n];
    assert names[0] == n && names[1..] == [n, n];
    assert {} + {"jsmith@gmail.com"} == {"jsmith@gmail.com"};
    assert ["jsmith@gmail.com"] + ["jsmith1@gmail.com", "jsmith2@gmail.com"]
      == ["jsmith@gmail.com", "jsmith1@gmail.com", "jsmith2@gmail.com"];
  }
}
