/** The name normalisation of generate_email (functions.py:16):
    `re.split(r'\s+', re.sub(r'[^\w\s]', '', name.lower()))`, and the
    `str.strip()` of functions.py:22. */
module NameNormalizer {
  import opened CharClasses
  import opened TokenSplit

  /** str.lower(), character by character. */
  function Lower(s: string): (r: string)
  {
    seq(|s|, i requires 0 <= i < |s| => ToLower(s[i]))
  }

  /** A character the substitution `[^\w\s]` -> '' keeps. */
  predicate Keep(c: char) { IsWord(c) || IsSpace(c) }

  /** `re.sub(r'[^\w\s]', '', s)`: deletes every character that is neither a
      word character nor whitespace. */
  function Clean(s: string): string
  {
    if s == [] then [] else (if Keep(s[0]) then [s[0]] else []) + Clean(s[1..])
  }

  /** The string left after the lower-casing and the substitution. */
  function Cleaned(name: string): string
  {
    Clean(Lower(name))
  }

  /** Drops the leading run of whitespace. */
  function SkipSpaces(s: string): string
  {
    if s != [] && IsSpace(s[0]) then SkipSpaces(s[1..]) else s
  }

  /** Drops the trailing run of whitespace. */
  function SkipTrailingSpaces(s: string): string
  {
    if s != [] && IsSpace(s[|s| - 1]) then SkipTrailingSpaces(s[..|s| - 1]) else s
  }

  /** str.strip() with no argument. */
  function Strip(s: string): string
  {
    SkipTrailingSpaces(SkipSpaces(s))
  }

  /** The tokens generate_email works with (functions.py:16). */
  function Normalize(name: string): seq<string>
  {
    Split(Cleaned(name))
  }

  /** A lower-case word character: what survives normalisation inside a token. */
  predicate IsNormalChar(c: char) { IsWord(c) && !IsAsciiUpper(c) }

  /** Every character of `s` is a lower-case word character. */
  predicate AllNormal(s: string) {
    forall k :: 0 <= k < |s| ==> IsNormalChar(s[k])
  }

  lemma NormalCons(c: char, t: string)
    requires IsNormalChar(c) && AllNormal(t)
    ensures AllNormal([c] + t)
  {
    assert forall k :: 0 < k < |t| + 1 ==> ([c] + t)[k] == t[k - 1];
  }

  lemma NormalNoSpace(s: string)
    requires AllNormal(s)
    ensures NoSpace(s)
  {
    assert forall k :: 0 <= k < |s| ==> IsNormalChar(s[k]);
  }

  // ---------------------------------------------------------------------
  // Lower-casing and the substitution

  /** The substitution keeps exactly the word and whitespace characters,
      in order: it distributes over concatenation. */
  lemma {:induction false} CleanAppend(a: string, b: string)
    ensures Clean(a + b) == Clean(a) + Clean(b)
  {
    if a == [] {
      assert a + b == b;
    } else {
      var h := if Keep(a[0]) then [a[0]] else [];
      CleanAppend(a[1..], b);
      assert a + b == [a[0]] + (a[1..] + b);
      assert Clean(a + b) == h + Clean(a[1..] + b) by {
        assert (a + b)[0] == a[0] && (a + b)[1..] == a[1..] + b;
      }
      assert h + (Clean(a[1..]) + Clean(b)) == (h + Clean(a[1..])) + Clean(b);
    }
  }


  /** Every character the substitution leaves is a word or whitespace
      character taken from its input. */
  lemma {:induction false} CleanChars(s: string)
    ensures |Clean(s)| <= |s|
    ensures forall k :: 0 <= k < |Clean(s)| ==> Keep(Clean(s)[k]) && Clean(s)[k] in s
  {
    if s != [] {
      CleanChars(s[1..]);
      var head := if Keep(s[0]) then [s[0]] else [];
      assert Clean(s) == head + Clean(s[1..]);
      forall k | 0 <= k < |Clean(s)|
        ensures Keep(Clean(s)[k]) && Clean(s)[k] in s
      {
        if k < |head| {
          assert Clean(s)[k] == s[0];
        } else {
          assert Clean(s)[k] == Clean(s[1..])[k - |head|];
          assert Clean(s)[k] in s[1..];
        }
      }
    }
  }

  /** A string made only of word and whitespace characters is left as it is. */
  lemma {:induction false} CleanKeeps(s: string)
    requires forall k :: 0 <= k < |s| ==> Keep(s[k])
    ensures Clean(s) == s
  {
    if s != [] {
      CleanKeeps(s[1..]);
      assert [s[0]] + s[1..] == s;
    }
  }

  /** After lower-casing and the substitution only lower-case word characters
      and whitespace remain. */
  lemma CleanedChars(name: string)
    ensures forall k :: 0 <= k < |Cleaned(name)| ==>
      Keep(Cleaned(name)[k]) && !IsAsciiUpper(Cleaned(name)[k])
  {
    var l := Lower(name);
    CleanChars(l);
    forall k | 0 <= k < |Clean(l)|
      ensures Keep(Clean(l)[k]) && !IsAsciiUpper(Clean(l)[k])
    {
      var c := Clean(l)[k];
      assert c in l;
      var j :| 0 <= j < |l| && l[j] == c;
      assert c == ToLower(name[j]);
    }
  }

  // ---------------------------------------------------------------------
  // Normalisation as a whole

  /** The normalised tokens are lower-case word characters only, and have the
      shape of a split. */
  lemma NormalizeTokens(name: string)
    ensures WellFormedTokens(Normalize(name))
    ensures forall i :: 0 <= i < |Normalize(name)| ==> AllNormal(Normalize(name)[i])
  {
    var c := Cleaned(name);
    var ts := Normalize(name);
    CleanedChars(name);
    SplitCharsFrom(c);
    SplitWellFormed(c);
    forall i | 0 <= i < |ts| ensures AllNormal(ts[i]) {
      forall j | 0 <= j < |ts[i]| ensures IsNormalChar(ts[i][j]) {
        var k :| 0 <= k < |c| && c[k] == ts[i][j];
        assert NoSpace(ts[i]);
      }
    }
  }

  /** Joining lower-case word tokens gives lower-case word characters and
      spaces only. */
  lemma {:induction false} JoinChars(ts: seq<string>)
    requires forall i, j :: 0 <= i < |ts| && 0 <= j < |ts[i]| ==> IsNormalChar(ts[i][j])
    ensures forall k :: 0 <= k < |Join(ts)| ==> IsNormalChar(Join(ts)[k]) || Join(ts)[k] == ' '
    decreases |ts|
  {
    if |ts| > 1 {
      JoinChars(ts[1..]);
      var j := Join(ts);
      var u := Join(ts[1..]);
      assert j == ts[0] + " " + u;
      assert AllNormal(ts[0]);
      forall k | 0 <= k < |j| ensures IsNormalChar(j[k]) || j[k] == ' ' {
        if k < |ts[0]| {
          assert j[k] == ts[0][k];
        } else if k > |ts[0]| {
          assert j[k] == u[k - |ts[0]| - 1];
        }
      }
    } else if |ts| == 1 {
      assert Join(ts) == ts[0];
      assert AllNormal(ts[0]);
    }
  }

  /** Normalising the space-joined tokens of a name gives the same tokens:
      normalisation is idempotent. */
  lemma NormalizeIdempotent(name: string)
    ensures Normalize(Join(Normalize(name))) == Normalize(name)
  {
    var ts := Normalize(name);
    var j := Join(ts);
    NormalizeTokens(name);
    JoinChars(ts);
    assert Lower(j) == j;
    CleanKeeps(j);
    SplitJoin(ts);
  }

  /** str.lower() of a concatenation is the concatenation of the lowered
      parts. */
  lemma LowerAppend(a: string, b: string)
    ensures Lower(a + b) == Lower(a) + Lower(b)
  {
  }

  /** Each token lowered. */
  function LowerTokens(ts: seq<string>): (r: seq<string>)
  {
    seq(|ts|, i requires 0 <= i < |ts| => Lower(ts[i]))
  }

  /** Lowering the space-joined tokens is joining the lowered tokens. */
  lemma {:induction false} LowerJoin(ts: seq<string>)
    ensures Lower(Join(ts)) == Join(LowerTokens(ts))
    decreases |ts|
  {
    if |ts| > 1 {
      LowerJoin(ts[1..]);
      assert LowerTokens(ts[1..]) == LowerTokens(ts)[1..];
      LowerAppend(ts[0], " " + Join(ts[1..]));
      LowerAppend(" ", Join(ts[1..]));
      assert Join(ts) == ts[0] + (" " + Join(ts[1..]));
      assert Join(LowerTokens(ts)) == Lower(ts[0]) + (" " + Join(LowerTokens(ts)[1..]));
    }
  }

  /** Whitespace-free strings pass str.strip() unchanged, so the strip at
      functions.py:22 has no effect on a base built from tokens. */
  lemma StripNoSpace(s: string)
    requires NoSpace(s)
    ensures Strip(s) == s
  {
    if s != [] {
      assert !IsSpace(s[0]) && !IsSpace(s[|s| - 1]);
    }
  }
}
