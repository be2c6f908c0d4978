/** Email assignment: generate_email and generate_emails_for_students
    (functions.py:15-38). */
module EmailAssigner {
  import opened CharClasses
  import opened Decimal
  import opened TokenSplit
  import opened NameNormalizer

  /** The one way generate_email fails: `name_parts[0][0]` at functions.py:20
      raises IndexError when the first token is empty and more tokens follow,
      which happens exactly when the cleaned name starts with whitespace: the
      leading run always opens a second piece, even in a name that is only
      whitespace. */
  datatype NameError = IndexError

  datatype Result<T> = Ok(value: T) | Err(error: NameError)

  /** The fixed domain of functions.py:23. */
  const Domain: string := "@gmail.com"

  /** The local-part base of functions.py:17-22 built from the tokens: the
      only token of a one-token name, otherwise the first character of the
      first token followed by the last token, then stripped of surrounding
      whitespace. */
  function BaseOfTokens(parts: seq<string>): Result<string>
    requires 1 <= |parts|
  {
    if |parts| == 1 then Ok(Strip(parts[0]))
    else if parts[0] == "" then Err(IndexError)
    else Ok(Strip([parts[0][0]] + parts[|parts| - 1]))
  }

  /** The local-part base of a name (functions.py:16-22). */
  function EmailBase(name: string): Result<string>
  {
    BaseOfTokens(Normalize(name))
  }

  /** The candidate tried with counter value `k`: the bare base for 0 and the
      base followed by the decimal counter afterwards (functions.py:25, 28). */
  function Candidate(base: string, k: nat): string
  {
    if k == 0 then base + Domain else base + IntToString(k) + Domain
  }

  // ---------------------------------------------------------------------
  // The base

  /** The base in terms of the cleaned name `c` (lower-cased, with every
      character other than word characters and whitespace removed):
      generate_email fails exactly when `c` starts with whitespace; a `c`
      without whitespace is the base itself; otherwise the base is the first
      character of `c` followed by the longest whitespace-free suffix of `c`.
      Every base is made of lower-case word characters. */
  lemma EmailBaseSpec(name: string)
    ensures var c := Cleaned(name);
      && (EmailBase(name).Err? <==> c != [] && IsSpace(c[0]))
      && (NoSpace(c) ==> EmailBase(name) == Ok(c))
      && (c != [] && !IsSpace(c[0]) && !NoSpace(c) ==>
            EmailBase(name).Ok? && 1 <= |EmailBase(name).value|
            && EmailBase(name).value[0] == c[0]
            && IsTrailingWord(c, EmailBase(name).value[1..]))
    ensures EmailBase(name).Ok? ==> AllNormal(EmailBase(name).value)
  {
    var c := Cleaned(name);
    BaseOfSplit(c);
    NormalizeTokens(name);
    BaseChars(Normalize(name));
  }

  /** The base that functions.py:17-22 builds from `re.split(r'\s+', c)`. */
  lemma BaseOfSplit(c: string)
    ensures BaseOfTokens(Split(c)).Err? <==> c != [] && IsSpace(c[0])
    ensures NoSpace(c) ==> BaseOfTokens(Split(c)) == Ok(c)
    ensures c != [] && !IsSpace(c[0]) && !NoSpace(c) ==>
      BaseOfTokens(Split(c)).Ok? && 1 <= |BaseOfTokens(Split(c)).value|
      && BaseOfTokens(Split(c)).value == [c[0]] + Split(c)[|Split(c)| - 1]
      && IsTrailingWord(c, BaseOfTokens(Split(c)).value[1..])
  {
    if NoSpace(c) {
      SplitSingle(c);
      StripNoSpace(c);
    } else if !IsSpace(c[0]) {
      BaseOfSeveralTokens(c);
    } else {
      BaseAfterLeadingSpace(c);
    }
  }

  /** A cleaned name that starts with whitespace, a whitespace-only one
      included, splits into an empty first token and at least one more, and
      `name_parts[0][0]` fails. */
  lemma BaseAfterLeadingSpace(c: string)
    requires c != [] && IsSpace(c[0])
    ensures BaseOfTokens(Split(c)) == Err(IndexError)
  {
    SplitSingle(c);
    FirstToken(c);
  }

  /** A cleaned name with whitespace after a non-space first character gives
      that character followed by the last token. */
  lemma BaseOfSeveralTokens(c: string)
    requires c != [] && !IsSpace(c[0]) && !NoSpace(c)
    ensures BaseOfTokens(Split(c)) == Ok([c[0]] + Split(c)[|Split(c)| - 1])
    ensures IsTrailingWord(c, Split(c)[|Split(c)| - 1])
  {
    var parts := Split(c);
    SplitSingle(c);
    FirstToken(c);
    LastToken(c);
    var last := parts[|parts| - 1];
    var b := [c[0]] + last;
    assert parts[0][0] == c[0];
    assert NoSpace(b) by {
      forall k | 0 <= k < |b| ensures !IsSpace(b[k]) {
        if k > 0 { assert b[k] == last[k - 1]; }
      }
    }
    StripNoSpace(b);
  }

  /** A base built from lower-case word tokens is made of lower-case word
      characters. */
  lemma BaseChars(parts: seq<string>)
    requires 1 <= |parts|
    requires forall i :: 0 <= i < |parts| ==> AllNormal(parts[i])
    ensures BaseOfTokens(parts).Ok? ==> AllNormal(BaseOfTokens(parts).value)
  {
    if |parts| == 1 {
      NormalNoSpace(parts[0]);
      StripNoSpace(parts[0]);
    } else if parts[0] != "" {
      var b := [parts[0][0]] + parts[|parts| - 1];
      NormalCons(parts[0][0], parts[|parts| - 1]);
      NormalNoSpace(b);
      StripNoSpace(b);
    }
  }

  /** A non-empty run of word characters (letters, digits, underscore). */
  predicate IsWordToken(w: string) {
    1 <= |w| && forall k :: 0 <= k < |w| ==> IsWord(w[k])
  }

  /** Lower-cased word tokens are non-empty lower-case word runs. */
  lemma LoweredWords(ws: seq<string>)
    requires forall i :: 0 <= i < |ws| ==> IsWordToken(ws[i])
    ensures forall i :: 0 <= i < |ws| ==>
      LowerTokens(ws)[i] != "" && AllNormal(LowerTokens(ws)[i]) && NoSpace(LowerTokens(ws)[i])
  {
    var ls := LowerTokens(ws);
    forall i | 0 <= i < |ls| ensures ls[i] != "" && AllNormal(ls[i]) && NoSpace(ls[i]) {
      assert IsWordToken(ws[i]);
      NormalNoSpace(ls[i]);
    }
  }

  /** Normalising word tokens joined by single spaces gives the lower-cased
      tokens. */
  lemma JoinedWordsNormalize(ws: seq<string>)
    requires 1 <= |ws|
    requires forall i :: 0 <= i < |ws| ==> IsWordToken(ws[i])
    ensures Normalize(Join(ws)) == LowerTokens(ws)
  {
    var ls := LowerTokens(ws);
    LowerJoin(ws);
    LoweredWords(ws);
    JoinChars(ls);
    CleanKeeps(Join(ls));
    SplitJoin(ls);
  }

  /** The base of non-empty lower-case word tokens, with the strip of
      functions.py:22 taking no effect. */
  lemma BaseOfWords(parts: seq<string>)
    requires 1 <= |parts|
    requires forall i :: 0 <= i < |parts| ==> parts[i] != "" && AllNormal(parts[i])
    ensures |parts| == 1 ==> BaseOfTokens(parts) == Ok(parts[0])
    ensures |parts| > 1 ==> BaseOfTokens(parts) == Ok([parts[0][0]] + parts[|parts| - 1])
  {
    if |parts| == 1 {
      NormalNoSpace(parts[0]);
      StripNoSpace(parts[0]);
    } else {
      var b := [parts[0][0]] + parts[|parts| - 1];
      NormalCons(parts[0][0], parts[|parts| - 1]);
      NormalNoSpace(b);
      StripNoSpace(b);
    }
  }

  /** A one-word name never fails and is its own base, lower-cased. */
  lemma SingleWordBase(w: string)
    requires IsWordToken(w)
    ensures EmailBase(w) == Ok(Lower(w))
  {
    var ws := [w];
    assert Join(ws) == w;
    assert EmailBase(w) == BaseOfTokens(LowerTokens(ws)) by {
      JoinedWordsNormalize(ws);
    }
    LoweredWords(ws);
    BaseOfWords(LowerTokens(ws));
  }

  /** A name written as two or more word tokens separated by single spaces
      never fails: its base is the lower-cased initial of the first token
      followed by the lower-cased last token, the middle tokens playing no
      part. */
  lemma JoinedWordsBase(ws: seq<string>)
    requires 2 <= |ws|
    requires forall i :: 0 <= i < |ws| ==> IsWordToken(ws[i])
    ensures 1 <= |ws[0]| && EmailBase(Join(ws)) == Ok([ToLower(ws[0][0])] + Lower(ws[|ws| - 1]))
  {
    var ls := LowerTokens(ws);
    assert EmailBase(Join(ws)) == BaseOfTokens(ls) by {
      JoinedWordsNormalize(ws);
    }
    assert IsWordToken(ws[0]);
    assert ls[0][0] == ToLower(ws[0][0]);
    LoweredWords(ws);
    BaseOfWords(ls);
  }

  /** Lower-casing word tokens joined by single spaces and followed by one
      more space lower-cases each token. */
  lemma TrailingSpaceLower(ws: seq<string>)
    ensures Lower(Join(ws) + " ") == Join(LowerTokens(ws)) + " "
  {
    LowerAppend(Join(ws), " ");
    LowerJoin(ws);
    assert Lower(" ") == " ";
  }

  /** Space-joined lower-case word tokens followed by a space are all kept by
      the clean-up of functions.py:16. */
  lemma TrailingSpaceKept(ls: seq<string>)
    requires forall i :: 0 <= i < |ls| ==> AllNormal(ls[i])
    ensures Clean(Join(ls) + " ") == Join(ls) + " "
  {
    var c := Join(ls) + " ";
    JoinChars(ls);
    forall k | 0 <= k < |c| ensures Keep(c[k]) {
      if k < |Join(ls)| { assert c[k] == Join(ls)[k]; }
    }
    CleanKeeps(c);
  }

  /** Cleaning word tokens joined by single spaces and followed by one more
      space lower-cases the tokens and keeps every space. */
  lemma TrailingSpaceCleaned(ws: seq<string>)
    requires forall i :: 0 <= i < |ws| ==> IsWordToken(ws[i])
    ensures Cleaned(Join(ws) + " ") == Join(LowerTokens(ws)) + " "
  {
    TrailingSpaceLower(ws);
    LoweredWords(ws);
    TrailingSpaceKept(LowerTokens(ws));
  }

  /** Normalising word tokens joined by single spaces and followed by one
      more space gives the lower-cased tokens and an empty one. */
  lemma TrailingSpaceNormalize(ws: seq<string>)
    requires 1 <= |ws|
    requires forall i :: 0 <= i < |ws| ==> IsWordToken(ws[i])
    ensures Normalize(Join(ws) + " ") == LowerTokens(ws) + [""]
  {
    TrailingSpaceCleaned(ws);
    LoweredWords(ws);
    SplitJoinTrailingSpace(LowerTokens(ws));
  }

  /** A single space after word-token names leaves an empty last token
      (functions.py:16), so the base is the lower-cased initial alone:
      "Madonna " gives "m", "John Smith " gives "j". */
  lemma TrailingSpaceBase(ws: seq<string>)
    requires 1 <= |ws|
    requires forall i :: 0 <= i < |ws| ==> IsWordToken(ws[i])
    ensures 1 <= |ws[0]| && EmailBase(Join(ws) + " ") == Ok([ToLower(ws[0][0])])
  {
    assert IsWordToken(ws[0]);
    var ls := LowerTokens(ws);
    var ts := ls + [""];
    TrailingSpaceNormalize(ws);
    assert ts[0] == ls[0] && ts[|ts| - 1] == "";
    var b := [ToLower(ws[0][0])];
    assert b == [ts[0][0]] + ts[|ts| - 1];
    assert NoSpace(b);
    StripNoSpace(b);
  }

  /** Deleting a character that is neither a word character nor whitespace
      (a hyphen, an apostrophe, an accented letter) leaves the base as it
      was: `re.sub(r'[^\w\s]', '', ...)` removes it before anything else
      looks at the name. */
  lemma PunctuationIgnored(a: string, c: char, b: string)
    requires !IsWord(c) && !IsSpace(c)
    ensures EmailBase(a + [c] + b) == EmailBase(a + b)
  {
    LowerAppend(a + [c], b);
    LowerAppend(a, [c]);
    LowerAppend(a, b);
    CleanAppend(Lower(a) + Lower([c]), Lower(b));
    CleanAppend(Lower(a), Lower([c]));
    CleanAppend(Lower(a), Lower(b));
    assert Lower([c]) == [ToLower(c)];
    assert Clean([ToLower(c)]) == [];
    assert Cleaned(a + [c] + b) == Cleaned(a + b);
  }

  /** A name that starts with whitespace makes generate_email fail:
      `re.split` then yields an empty first token and `name_parts[0][0]`
      raises IndexError (functions.py:16, 20). This includes a name that is
      only whitespace: it splits into two empty tokens. */
  lemma LeadingSpaceFails(name: string)
    requires name != [] && IsSpace(name[0])
    ensures EmailBase(name) == Err(IndexError)
  {
    var l := Lower(name);
    assert l[0] == name[0];
    assert Cleaned(name) == [l[0]] + Clean(l[1..]);
    EmailBaseSpec(name);
  }

  // ---------------------------------------------------------------------
  // Candidates

  /** For one base, distinct counter values give distinct candidates. */
  lemma CandidateInjective(base: string, j: nat, k: nat)
    ensures Candidate(base, j) == Candidate(base, k) ==> j == k
  {
    if Candidate(base, j) == Candidate(base, k) {
      var sj := if j == 0 then "" else IntToString(j);
      var sk := if k == 0 then "" else IntToString(k);
      var c := Candidate(base, j);
      assert c == base + sj + Domain;
      assert Candidate(base, k) == base + sk + Domain;
      assert |sj| == |sk|;
      assert sj == c[|base|..|base| + |sj|];
      assert sk == c[|base|..|base| + |sk|];
      if j != 0 && k != 0 {
        IntToStringInjective(j, k);
      }
    }
  }

  /** The candidates for counter values 0 .. k-1 are k distinct strings. */
  lemma {:induction false} CandidateSetSize(base: string, k: nat)
    ensures |set j | 0 <= j < k :: Candidate(base, j)| == k
  {
    if k > 0 {
      CandidateSetSize(base, k - 1);
      CandidatesGrow(base, k - 1);
    }
  }

  /** Candidate `k` is new to the first `k` candidates, and adding it gives
      the first `k + 1`. */
  lemma CandidatesGrow(base: string, k: nat)
    ensures Candidate(base, k) !in set j | 0 <= j < k :: Candidate(base, j)
    ensures (set j | 0 <= j < k + 1 :: Candidate(base, j))
      == (set j | 0 <= j < k :: Candidate(base, j)) + {Candidate(base, k)}
  {
    forall j | 0 <= j < k ensures Candidate(base, j) != Candidate(base, k) {
      CandidateInjective(base, j, k);
    }
  }

  /** A finite registry holding the first k candidates has at least k
      entries: this bounds the collision loop. */
  lemma CandidatesBound(base: string, reg: set<string>, k: nat)
    requires forall j :: 0 <= j < k ==> Candidate(base, j) in reg
    ensures k <= |reg|
  {
    var taken := set j | 0 <= j < k :: Candidate(base, j);
    CandidateSetSize(base, k);
    assert taken <= reg;
    SubsetSize(taken, reg);
  }

  /** A subset is no larger than its superset. */
  lemma {:induction false} SubsetSize<T>(a: set<T>, b: set<T>)
    requires a <= b
    ensures |a| <= |b|
    decreases |a|
  {
    if a != {} {
      var x :| x in a;
      SubsetSize(a - {x}, b - {x});
    }
  }

  /** The first counter value, from `k` on, whose candidate is free, given
      that every candidate below `k` is taken. */
  function FreeFrom(base: string, reg: set<string>, k: nat): (r: nat)
    requires forall j :: 0 <= j < k ==> Candidate(base, j) in reg
    ensures k <= r && Candidate(base, r) !in reg
    ensures forall j :: 0 <= j < r ==> Candidate(base, j) in reg
    decreases |reg| - k
  {
    if Candidate(base, k) !in reg then k
    else
      CandidatesBound(base, reg, k + 1);
      FreeFrom(base, reg, k + 1)
  }

  /** The counter value the collision loop stops at: the smallest one whose
      candidate is not in the registry. */
  function LeastFree(base: string, reg: set<string>): (k: nat)
    ensures Candidate(base, k) !in reg
    ensures forall j :: 0 <= j < k ==> Candidate(base, j) in reg
  {
    FreeFrom(base, reg, 0)
  }

  /** The smallest free counter value is unique. */
  lemma LeastFreeUnique(base: string, reg: set<string>, k: nat)
    requires Candidate(base, k) !in reg
    requires forall j :: 0 <= j < k ==> Candidate(base, j) in reg
    ensures LeastFree(base, reg) == k
  {
    var r := LeastFree(base, reg);
  }

  /** What generate_email returns for `name` against the registry `reg`. */
  function EmailFor(name: string, reg: set<string>): (r: Result<string>)
    ensures r.Err? <==> EmailBase(name).Err?
    ensures r.Ok? ==> r.value !in reg
    ensures r.Ok? ==> var b := EmailBase(name).value;
      (Candidate(b, 0) !in reg ==> r.value == b + Domain)
      && (Candidate(b, 0) in reg ==>
            exists k :: 1 <= k && r.value == b + IntToString(k) + Domain
              && forall j :: 0 <= j < k ==> Candidate(b, j) in reg)
  {
    match EmailBase(name)
    case Err(e) => Err(e)
    case Ok(b) =>
      var k := LeastFree(b, reg);
      assert Candidate(b, 0) !in reg ==> k == 0;
      Ok(Candidate(b, k))
  }

  /** The address given out is the candidate with the least counter value
      that the registry does not hold: whenever candidate `k` is free and all
      before it are taken, the answer is candidate `k`. */
  lemma EmailForLeastFree(name: string, reg: set<string>, k: nat)
    requires EmailBase(name).Ok?
    requires Candidate(EmailBase(name).value, k) !in reg
    requires forall j :: 0 <= j < k ==> Candidate(EmailBase(name).value, j) in reg
    ensures EmailFor(name, reg) == Ok(Candidate(EmailBase(name).value, k))
  {
    LeastFreeUnique(EmailBase(name).value, reg, k);
  }

  /** The email registry of one batch: the set `existing_emails` that
      generate_email consults and extends (functions.py:27-31, 36). */
  class EmailRegistry {
    var emails: set<string>

    constructor ()
      ensures emails == {}
    {
      emails := {};
    }

    /** generate_email(name, self.emails): returns the first free candidate
        and adds it to the registry; the registry is unchanged on error. */
    method GenerateEmail(name: string) returns (r: Result<string>)
      modifies this
      ensures r == EmailFor(name, old(emails))
      ensures r.Ok? ==> r.value !in old(emails) && emails == old(emails) + {r.value}
      ensures r.Err? ==> emails == old(emails)
    {
      var base := EmailBase(name);
      if base.Err? {
        return Err(base.error);
      }
      var b := base.value;
      var reg := emails;
      var email := b + Domain;
      var counter := 1;
      while email in reg
        invariant 1 <= counter
        invariant email == Candidate(b, counter - 1)
        invariant forall j :: 0 <= j < counter - 1 ==> Candidate(b, j) in reg
        decreases |reg| + 1 - counter
      {
        CandidatesBound(b, reg, counter);
        email := b + IntToString(counter) + Domain;
        counter := counter + 1;
      }
      LeastFreeUnique(b, reg, counter - 1);
      assert EmailFor(name, reg) == Ok(email);
      emails := reg + {email};
      return Ok(email);
    }
  }

  // ---------------------------------------------------------------------
  // The batch

  /** The emails generate_emails_for_students assigns to `names`, in row
      order, when the shared registry starts as `reg`; an error in any row
      fails the whole batch. */
  function BatchEmails(names: seq<string>, reg: set<string>): Result<seq<string>>
    decreases |names|
  {
    if names == [] then Ok([])
    else
      match EmailFor(names[0], reg)
      case Err(e) => Err(e)
      case Ok(e) => Prepend([e], BatchEmails(names[1..], reg + {e}))
  }

  /** `r` with `es` put in front of its emails. */
  function Prepend(es: seq<string>, r: Result<seq<string>>): Result<seq<string>>
  {
    match r
    case Err(x) => Err(x)
    case Ok(rest) => Ok(es + rest)
  }

  /** Putting `a` and then `b` in front is putting `a + b` in front. */
  lemma PrependTwice(a: seq<string>, b: seq<string>, r: Result<seq<string>>)
    ensures Prepend(a, Prepend(b, r)) == Prepend(a + b, r)
  {
    if r.Ok? {
      assert a + (b + r.value) == (a + b) + r.value;
    }
  }

  /** A batch that succeeds has one email per name, the emails are pairwise
      distinct, and none was in the registry before. */
  lemma {:induction false} BatchUnique(names: seq<string>, reg: set<string>)
    ensures BatchEmails(names, reg).Ok? ==>
      var es := BatchEmails(names, reg).value;
      && |es| == |names|
      && (forall i :: 0 <= i < |es| ==> es[i] !in reg)
      && (forall i, j :: 0 <= i < j < |es| ==> es[i] != es[j])
    decreases |names|
  {
    if names != [] && BatchEmails(names, reg).Ok? {
      var e := EmailFor(names[0], reg).value;
      BatchStep(names, reg, e);
      BatchUnique(names[1..], reg + {e});
      ConsFreshDistinct(e, BatchEmails(names[1..], reg + {e}).value, reg);
    }
  }

  /** A fresh `e` in front of emails that are pairwise distinct and outside
      `reg + {e}` gives emails that are pairwise distinct and outside `reg`. */
  lemma ConsFreshDistinct(e: string, rest: seq<string>, reg: set<string>)
    requires e !in reg
    requires forall i :: 0 <= i < |rest| ==> rest[i] !in reg + {e}
    requires forall i, j :: 0 <= i < j < |rest| ==> rest[i] != rest[j]
    ensures forall i :: 0 <= i < |[e] + rest| ==> ([e] + rest)[i] !in reg
    ensures forall i, j :: 0 <= i < j < |[e] + rest| ==> ([e] + rest)[i] != ([e] + rest)[j]
  {
    var es := [e] + rest;
    forall i | 0 < i < |es| ensures es[i] == rest[i - 1] {
    }
  }

  /** The set of the emails in `es`. */
  function Elems(es: seq<string>): set<string>
  {
    set e | e in es
  }

  /** Row `i` of a successful batch gets what generate_email returns against
      the starting registry plus the emails of the rows before it. */
  lemma {:induction false} BatchRows(names: seq<string>, reg: set<string>)
    ensures BatchEmails(names, reg).Ok? ==>
      var es := BatchEmails(names, reg).value;
      |es| == |names| &&
      forall i :: 0 <= i < |names| ==> EmailFor(names[i], reg + Elems(es[..i])) == Ok(es[i])
    decreases |names|
  {
    if names != [] && BatchEmails(names, reg).Ok? {
      var e := EmailFor(names[0], reg).value;
      BatchRows(names[1..], reg + {e});
      var rest := BatchEmails(names[1..], reg + {e}).value;
      var es := BatchEmails(names, reg).value;
      assert es == [e] + rest;
      forall i | 0 <= i < |names|
        ensures EmailFor(names[i], reg + Elems(es[..i])) == Ok(es[i])
      {
        if i == 0 {
          assert reg + Elems(es[..0]) == reg by {
            assert Elems(es[..0]) == {};
          }
        } else {
          BatchRowShift(names, reg, e, rest, i);
        }
      }
    }
  }

  /** Row `i` of `names` is row `i - 1` of its tail, against the registry
      that already holds the first row's email `e`. */
  lemma BatchRowShift(names: seq<string>, reg: set<string>, e: string, rest: seq<string>, i: nat)
    requires 0 < i < |names| && |rest| == |names| - 1
    requires EmailFor(names[1..][i - 1], (reg + {e}) + Elems(rest[..i - 1])) == Ok(rest[i - 1])
    ensures EmailFor(names[i], reg + Elems(([e] + rest)[..i])) == Ok(([e] + rest)[i])
  {
    var es := [e] + rest;
    assert es[..i] == [e] + rest[..i - 1];
    assert Elems([e] + rest[..i - 1]) == {e} + Elems(rest[..i - 1]);
    assert reg + Elems(es[..i]) == (reg + {e}) + Elems(rest[..i - 1]);
    assert names[i] == names[1..][i - 1];
    assert es[i] == rest[i - 1];
  }

  /** The batch fails exactly when some row's name makes generate_email fail. */
  lemma {:induction false} BatchFailsIff(names: seq<string>, reg: set<string>)
    ensures BatchEmails(names, reg).Err? <==>
      exists i :: 0 <= i < |names| && EmailBase(names[i]).Err?
    decreases |names|
  {
    if names != [] {
      if EmailBase(names[0]).Ok? {
        var e := EmailFor(names[0], reg).value;
        BatchFailsIff(names[1..], reg + {e});
        if exists i :: 0 <= i < |names| && EmailBase(names[i]).Err? {
          var i :| 0 <= i < |names| && EmailBase(names[i]).Err?;
          assert names[1..][i - 1] == names[i];
        }
        if exists i :: 0 <= i < |names| - 1 && EmailBase(names[1..][i]).Err? {
          var i :| 0 <= i < |names| - 1 && EmailBase(names[1..][i]).Err?;
          assert names[i + 1] == names[1..][i];
        }
      }
    }
  }

  /** The first `lo` candidates of base `b`: the registry a batch of `lo`
      rows with that base leaves behind. */
  function FirstCandidates(b: string, lo: nat): set<string>
  {
    set j | 0 <= j < lo :: Candidate(b, j)
  }

  /** Against the first `lo` candidates of its base, a name gets candidate
      `lo`, and the registry then holds the first `lo + 1`. */
  lemma NextCandidate(name: string, b: string, lo: nat)
    requires EmailBase(name) == Ok(b)
    ensures EmailFor(name, FirstCandidates(b, lo)) == Ok(Candidate(b, lo))
    ensures FirstCandidates(b, lo) + {Candidate(b, lo)} == FirstCandidates(b, lo + 1)
  {
    forall j | 0 <= j < lo ensures Candidate(b, j) != Candidate(b, lo) {
      CandidateInjective(b, j, lo);
    }
    EmailForLeastFree(name, FirstCandidates(b, lo), lo);
  }

  /** A batch whose first row gets `e` is `e` followed by the rest of the
      batch against the registry that holds `e`. */
  lemma BatchStep(names: seq<string>, reg: set<string>, e: string)
    requires names != [] && EmailFor(names[0], reg) == Ok(e)
    ensures BatchEmails(names, reg) == Prepend([e], BatchEmails(names[1..], reg + {e}))
  {
  }

  /** `n` rows of the same name. */
  function Repeat(name: string, n: nat): seq<string>
  {
    seq(n, _ => name)
  }

  /** Candidates `lo`, `lo + 1`, ..., `lo + n - 1` of base `b`. */
  function CandidateRun(b: string, lo: nat, n: nat): seq<string>
  {
    seq(n, (i: nat) => Candidate(b, lo + i))
  }

  /** Repeated rows and candidate runs both peel off their first element. */
  lemma RunsCons(name: string, b: string, lo: nat, n: nat)
    requires n > 0
    ensures Repeat(name, n) != [] && Repeat(name, n)[0] == name && Repeat(name, n)[1..] == Repeat(name, n - 1)
    ensures CandidateRun(b, lo, n) == [Candidate(b, lo)] + CandidateRun(b, lo + 1, n - 1)
  {
    var tail := CandidateRun(b, lo + 1, n - 1);
    forall k | 0 < k < n ensures CandidateRun(b, lo, n)[k] == tail[k - 1] {
      assert lo + k == lo + 1 + (k - 1);
    }
  }

  /** `n` more rows of one name, against a registry that holds the first
      `lo` candidates of its base `b`, get the next `n` candidates in order. */
  lemma {:induction false} RepeatedNameFrom(name: string, b: string, lo: nat, n: nat)
    requires EmailBase(name) == Ok(b)
    ensures BatchEmails(Repeat(name, n), FirstCandidates(b, lo)) == Ok(CandidateRun(b, lo, n))
    decreases n
  {
    if n == 0 {
      assert Repeat(name, n) == [];
      assert CandidateRun(b, lo, n) == [];
    } else {
      var c := Candidate(b, lo);
      RunsCons(name, b, lo, n);
      NextCandidate(name, b, lo);
      BatchStep(Repeat(name, n), FirstCandidates(b, lo), c);
      RepeatedNameFrom(name, b, lo + 1, n - 1);
      assert BatchEmails(Repeat(name, n), FirstCandidates(b, lo))
        == Prepend([c], Ok(CandidateRun(b, lo + 1, n - 1)));
    }
  }

  /** A fresh batch of `n` rows with the same name gives the bare base to
      the first row and the counters 1, 2, ... to the rows after it. */
  lemma RepeatedName(name: string, n: nat)
    requires EmailBase(name).Ok?
    ensures BatchEmails(seq(n, _ => name), {}) == Ok(seq(n, (i: nat) => Candidate(EmailBase(name).value, i)))
  {
    var b := EmailBase(name).value;
    RepeatedNameFrom(name, b, 0, n);
    assert FirstCandidates(b, 0) == {};
    assert Repeat(name, n) == seq(n, _ => name);
    assert CandidateRun(b, 0, n) == seq(n, (i: nat) => Candidate(b, i));
  }

  /** generate_emails_for_students: one fresh registry shared by every row,
      rows processed in order (functions.py:35-38). */
  method GenerateEmailsForStudents(names: seq<string>) returns (r: Result<seq<string>>)
    ensures r == BatchEmails(names, {})
    ensures r.Ok? ==> |r.value| == |names|
    ensures r.Ok? ==> forall i, j :: 0 <= i < j < |r.value| ==> r.value[i] != r.value[j]
  {
    var registry := new EmailRegistry();
    var emails: seq<string> := [];
    var i := 0;
    assert names[0..] == names;
    assert BatchEmails(names, {}) == Prepend(emails, BatchEmails(names, {})) by {
      if BatchEmails(names, {}).Ok? {
        assert [] + BatchEmails(names, {}).value == BatchEmails(names, {}).value;
      }
    }
    while i < |names|
      invariant 0 <= i <= |names|
      invariant fresh(registry)
      invariant BatchEmails(names, {}) == Prepend(emails, BatchEmails(names[i..], registry.emails))
    {
      var before := registry.emails;
      var e := registry.GenerateEmail(names[i]);
      assert names[i..][0] == names[i] && names[i..][1..] == names[i + 1..];
      if e.Err? {
        assert BatchEmails(names[i..], before) == Err(e.error);
        return Err(e.error);
      }
      assert BatchEmails(names[i..], before)
        == Prepend([e.value], BatchEmails(names[i + 1..], registry.emails));
      PrependTwice(emails, [e.value], BatchEmails(names[i + 1..], registry.emails));
      emails := emails + [e.value];
      i := i + 1;
    }
    assert names[i..] == [];
    assert emails + [] == emails;
    BatchUnique(names, {});
    return Ok(emails);
  }
}
