/** `re.split(r'\s+', ...)` and the space-joining of tokens, with the
    shape of the pieces it returns. */
module TokenSplit {
  import opened CharClasses

  /** `re.split(r'\s+', s)`: the pieces between maximal runs of whitespace.
      A leading (trailing) run gives an empty first (last) piece, and the
      empty string gives one empty piece. Read character by character: a
      whitespace character followed by more whitespace adds nothing, the last
      character of a run opens a new piece, and any other character extends
      the current piece. */
  function Split(s: string): (r: seq<string>)
    ensures 1 <= |r|
  {
    if s == [] then [""]
    else
      var rest := Split(s[1..]);
      if IsSpace(s[0]) then
        if |s| > 1 && IsSpace(s[1]) then rest else [""] + rest
      else
        [[s[0]] + rest[0]] + rest[1..]
  }

  /** The tokens joined by single spaces. */
  function Join(ts: seq<string>): string
  {
    if ts == [] then "" else if |ts| == 1 then ts[0] else ts[0] + " " + Join(ts[1..])
  }

  /** What `re.split(r'\s+', ...)` can return: at least one piece, no piece
      holds whitespace, and only the first and the last piece can be empty. */
  predicate WellFormedTokens(ts: seq<string>) {
    && 1 <= |ts|
    && (forall i :: 0 <= i < |ts| ==> NoSpace(ts[i]))
    && (forall i :: 0 < i < |ts| - 1 ==> ts[i] != "")
  }

  /** `t` is the longest whitespace-free prefix of `s`. */
  predicate IsLeadingWord(s: string, t: string) {
    |t| <= |s| && t == s[..|t|] && NoSpace(t) && (|t| < |s| ==> IsSpace(s[|t|]))
  }

  /** `t` is the longest whitespace-free suffix of `s`. */
  predicate IsTrailingWord(s: string, t: string) {
    |t| <= |s| && t == s[|s| - |t|..] && NoSpace(t) && (|t| < |s| ==> IsSpace(s[|s| - |t| - 1]))
  }

  // ---------------------------------------------------------------------
  // Splitting on runs of whitespace

  /** The pieces have the shape `re.split(r'\s+', ...)` guarantees, and the
      first piece is empty only when `s` is empty or starts with whitespace. */
  lemma {:induction false} SplitWellFormed(s: string)
    ensures WellFormedTokens(Split(s))
    ensures s != [] && !IsSpace(s[0]) ==> Split(s)[0] != ""
  {
    if s != [] {
      SplitWellFormed(s[1..]);
      var rest := Split(s[1..]);
      var ts := Split(s);
      if IsSpace(s[0]) {
        if !(|s| > 1 && IsSpace(s[1])) {
          assert ts == [""] + rest;
          forall i | 0 < i < |ts| - 1 ensures ts[i] != "" {
            assert ts[i] == rest[i - 1];
          }
        }
      } else {
        assert ts == [[s[0]] + rest[0]] + rest[1..];
        assert NoSpace(ts[0]) by {
          forall k | 0 <= k < |ts[0]| ensures !IsSpace(ts[0][k]) {
            if k > 0 { assert ts[0][k] == rest[0][k - 1]; }
          }
        }
        forall i | 0 < i < |ts| ensures ts[i] == rest[i] {
        }
      }
    }
  }

  /** There is a single piece exactly when `s` holds no whitespace, and the
      piece is then `s` itself. */
  lemma {:induction false} SplitSingle(s: string)
    ensures |Split(s)| == 1 <==> NoSpace(s)
    ensures NoSpace(s) ==> Split(s) == [s]
  {
    if s != [] {
      SplitSingle(s[1..]);
      var rest := Split(s[1..]);
      if IsSpace(s[0]) {
        assert !NoSpace(s);
        if |s| > 1 && IsSpace(s[1]) {
          assert !NoSpace(s[1..]) by { assert IsSpace(s[1..][0]); }
        }
      } else if NoSpace(s) {
        assert NoSpace(s[1..]) by {
          forall k | 0 <= k < |s| - 1 ensures !IsSpace(s[1..][k]) {
            assert s[1..][k] == s[k + 1];
          }
        }
        assert [s[0]] + s[1..] == s;
      } else {
        var k :| 0 <= k < |s| && IsSpace(s[k]);
        assert s[1..][k - 1] == s[k];
      }
    }
  }

  /** A non-whitespace character in front of a whitespace-free string keeps
      it whitespace-free. */
  lemma NoSpaceCons(c: char, t: string)
    requires !IsSpace(c) && NoSpace(t)
    ensures NoSpace([c] + t)
  {
    forall k | 0 <= k < |t| + 1 ensures !IsSpace(([c] + t)[k]) {
      if k > 0 { assert ([c] + t)[k] == t[k - 1]; }
    }
  }

  /** Splitting a string that starts with a non-whitespace character glues
      that character to the first piece of the rest. */
  lemma SplitConsWord(c: char, x: string)
    requires !IsSpace(c)
    ensures Split([c] + x) == [[c] + Split(x)[0]] + Split(x)[1..]
  {
    assert ([c] + x)[0] == c && ([c] + x)[1..] == x;
  }

  /** The leading word of `s[1..]`, with a non-whitespace `s[0]` in front,
      is the leading word of `s`. */
  lemma LeadingWordExtends(s: string, t: string)
    requires s != [] && !IsSpace(s[0]) && IsLeadingWord(s[1..], t)
    ensures IsLeadingWord(s, [s[0]] + t)
  {
    assert [s[0]] + t == s[..|t| + 1];
    NoSpaceCons(s[0], t);
    if |t| + 1 < |s| {
      assert s[|t| + 1] == s[1..][|t|];
    }
  }

  /** The first piece is the longest whitespace-free prefix, and it is empty
      exactly when the string is empty or starts with whitespace. */
  lemma {:induction false} FirstToken(s: string)
    ensures IsLeadingWord(s, Split(s)[0])
    ensures Split(s)[0] == "" <==> s == [] || IsSpace(s[0])
  {
    if s != [] {
      FirstToken(s[1..]);
      var t := Split(s[1..])[0];
      if !IsSpace(s[0]) {
        SplitConsWord(s[0], s[1..]);
        assert [s[0]] + s[1..] == s;
        LeadingWordExtends(s, t);
      } else if |s| > 1 && IsSpace(s[1]) {
        assert IsSpace(s[1..][0]);
      }
    }
  }

  /** Unless the first character joins a lone piece, the last piece of `s`
      is the last piece of `s[1..]`. */
  lemma SplitLastOfRest(s: string)
    requires s != [] && (IsSpace(s[0]) || |Split(s[1..])| > 1)
    ensures Split(s)[|Split(s)| - 1] == Split(s[1..])[|Split(s[1..])| - 1]
  {
    if !IsSpace(s[0]) {
      SplitLastAfterWord(s);
    } else if |s| > 1 && IsSpace(s[1]) {
      assert Split(s) == Split(s[1..]);
    } else {
      SplitLastAfterSpace(s);
    }
  }

  lemma SplitLastAfterWord(s: string)
    requires s != [] && !IsSpace(s[0]) && |Split(s[1..])| > 1
    ensures Split(s)[|Split(s)| - 1] == Split(s[1..])[|Split(s[1..])| - 1]
  {
    var rest := Split(s[1..]);
    assert Split(s) == [[s[0]] + rest[0]] + rest[1..];
    LastAfterNewHead([s[0]] + rest[0], rest);
  }

  /** Replacing the head of a sequence of two or more elements keeps its
      last element. */
  lemma LastAfterNewHead(x: string, r: seq<string>)
    requires |r| > 1
    ensures ([x] + r[1..])[|r| - 1] == r[|r| - 1]
  {
  }

  lemma SplitLastAfterSpace(s: string)
    requires s != [] && IsSpace(s[0]) && !(|s| > 1 && IsSpace(s[1]))
    ensures Split(s)[|Split(s)| - 1] == Split(s[1..])[|Split(s[1..])| - 1]
  {
    var rest := Split(s[1..]);
    assert Split(s) == [""] + rest;
  }

  /** A string without whitespace is its own single piece and its own
      longest whitespace-free suffix. */
  lemma LastTokenOfWord(s: string)
    requires s != [] && !IsSpace(s[0]) && NoSpace(s[1..])
    ensures IsTrailingWord(s, Split(s)[|Split(s)| - 1])
  {
    NoSpaceCons(s[0], s[1..]);
    assert [s[0]] + s[1..] == s;
    SplitSingle(s);
    assert s[|s| - |s|..] == s;
  }

  /** When `s[0]` is whitespace or `s[1..]` holds whitespace, the last
      piece of `s` is that of `s[1..]`, and it stays the longest
      whitespace-free suffix. */
  lemma LastTokenOfRest(s: string)
    requires s != [] && (IsSpace(s[0]) || !NoSpace(s[1..]))
    requires IsTrailingWord(s[1..], Split(s[1..])[|Split(s[1..])| - 1])
    ensures IsTrailingWord(s, Split(s)[|Split(s)| - 1])
  {
    var t := Split(s[1..])[|Split(s[1..])| - 1];
    SplitSingle(s[1..]);
    SplitLastOfRest(s);
    if !IsSpace(s[0]) {
      TrailingWordShorter(s[1..], t);
    }
    TrailingWordExtends(s, t);
  }

  /** The last piece is the longest whitespace-free suffix. */
  lemma {:induction false} LastToken(s: string)
    ensures IsTrailingWord(s, Split(s)[|Split(s)| - 1])
  {
    if s != [] {
      LastToken(s[1..]);
      if !IsSpace(s[0]) && NoSpace(s[1..]) {
        LastTokenOfWord(s);
      } else {
        LastTokenOfRest(s);
      }
    }
  }

  /** In a string that holds whitespace the longest whitespace-free suffix
      is a proper suffix. */
  lemma TrailingWordShorter(x: string, t: string)
    requires IsTrailingWord(x, t) && !NoSpace(x)
    ensures |t| < |x|
  {
    var k :| 0 <= k < |x| && IsSpace(x[k]);
  }

  /** The longest whitespace-free suffix of `s[1..]` is also that of `s`,
      unless it is all of `s[1..]` and `s[0]` is not whitespace. */
  lemma TrailingWordExtends(s: string, t: string)
    requires s != [] && IsTrailingWord(s[1..], t)
    requires |t| == |s| - 1 ==> IsSpace(s[0])
    ensures IsTrailingWord(s, t)
  {
    assert s[|s| - |t|..] == s[1..][|s| - 1 - |t|..];
    if |t| < |s| - 1 {
      assert s[|s| - |t| - 1] == s[1..][|s| - 1 - |t| - 1];
    }
  }

  /** Splitting a whitespace-free prefix off `u` glues it to the first piece. */
  lemma {:induction false} SplitAfterWord(t: string, u: string)
    requires NoSpace(t)
    ensures Split(t + u) == [t + Split(u)[0]] + Split(u)[1..]
  {
    var su := Split(u);
    if t == [] {
      assert t + u == u;
      assert t + su[0] == su[0];
      assert [su[0]] + su[1..] == su;
    } else {
      assert NoSpace(t[1..]) by {
        forall k | 0 <= k < |t| - 1 ensures !IsSpace(t[1..][k]) {
          assert t[1..][k] == t[k + 1];
        }
      }
      SplitAfterWord(t[1..], u);
      var rest := Split(t[1..] + u);
      assert rest == [t[1..] + su[0]] + su[1..];
      SplitConsWord(t[0], t[1..] + u);
      assert [t[0]] + (t[1..] + u) == t + u;
      assert [t[0]] + rest[0] == t + su[0];
      assert rest[1..] == su[1..];
    }
  }

  /** One space before a string that does not start with whitespace opens an
      empty first piece. */
  lemma SplitAfterSpace(u: string)
    requires u == [] || !IsSpace(u[0])
    ensures Split(" " + u) == [""] + Split(u)
  {
    assert (" " + u)[1..] == u;
  }

  /** The joined string starts with the first token. */
  lemma JoinStartsWith(ts: seq<string>)
    requires 1 <= |ts|
    ensures |ts[0]| <= |Join(ts)| && Join(ts)[..|ts[0]|] == ts[0]
  {
    if |ts| > 1 {
      assert Join(ts) == ts[0] + (" " + Join(ts[1..]));
    }
  }

  /** Joining with one more token at the end appends a space and it. */
  lemma {:induction false} JoinSnoc(ts: seq<string>, t: string)
    requires 1 <= |ts|
    ensures Join(ts + [t]) == Join(ts) + " " + t
    decreases |ts|
  {
    var us := ts + [t];
    if |ts| == 1 {
      assert us[1..] == [t];
    } else {
      assert us[1..] == ts[1..] + [t];
      JoinSnoc(ts[1..], t);
      assert Join(us) == ts[0] + " " + (Join(ts[1..]) + " " + t);
    }
  }

  /** Splitting the space-joined tokens gives the tokens back, for every
      token sequence of the shape splitting produces. */
  lemma {:induction false} SplitJoin(ts: seq<string>)
    requires WellFormedTokens(ts)
    ensures Split(Join(ts)) == ts
    decreases |ts|
  {
    if |ts| == 1 {
      SplitSingle(ts[0]);
    } else {
      var tail := ts[1..];
      assert WellFormedTokens(tail) by {
        forall i | 0 < i < |tail| - 1 ensures tail[i] != "" {
          assert tail[i] == ts[i + 1];
        }
        forall i | 0 <= i < |tail| ensures NoSpace(tail[i]) {
          assert tail[i] == ts[i + 1];
        }
      }
      SplitJoin(tail);
      var u := Join(tail);
      JoinStartsWith(tail);
      if tail[0] != "" {
        assert u[0] == tail[0][0];
        assert NoSpace(tail[0]);
      } else {
        assert |tail| == 1;
      }
      SplitAfterSpace(u);
      assert NoSpace(ts[0]);
      SplitAfterWord(ts[0], " " + u);
      assert Join(ts) == ts[0] + (" " + u);
      assert ts[0] + "" == ts[0];
      assert [ts[0]] + tail == ts;
    }
  }

  /** A trailing space after space-joined tokens splits off one more, empty,
      token. */
  lemma SplitJoinTrailingSpace(ts: seq<string>)
    requires 1 <= |ts|
    requires forall i :: 0 <= i < |ts| ==> ts[i] != "" && NoSpace(ts[i])
    ensures Split(Join(ts) + " ") == ts + [""]
  {
    var us := ts + [""];
    assert Join(us) == Join(ts) + " " by {
      JoinSnoc(ts, "");
      assert Join(ts) + " " + "" == Join(ts) + " ";
    }
    assert WellFormedTokens(us) by {
      forall i | 0 <= i < |us| ensures NoSpace(us[i]) && (i < |ts| ==> us[i] != "") {
        if i < |ts| { assert us[i] == ts[i]; } else { assert us[i] == ""; }
      }
    }
    SplitJoin(us);
  }

  /** Every character of a token comes from the split string. */
  lemma {:induction false} SplitCharsFrom(s: string)
    ensures forall i, j :: 0 <= i < |Split(s)| && 0 <= j < |Split(s)[i]| ==> Split(s)[i][j] in s
  {
    if s != [] {
      var rest := Split(s[1..]);
      var ts := Split(s);
      SplitCharsFrom(s[1..]);
      forall i, j | 0 <= i < |ts| && 0 <= j < |ts[i]| ensures ts[i][j] in s {
        var c := ts[i][j];
        if !IsSpace(s[0]) && i == 0 && j == 0 {
          assert c == s[0];
        } else {
          assert c in s[1..] by {
            if !IsSpace(s[0]) {
              if i == 0 { assert c == rest[0][j - 1]; } else { assert c == rest[i][j]; }
            } else if |s| > 1 && IsSpace(s[1]) {
              assert c == rest[i][j];
            } else {
              assert c == rest[i - 1][j];
            }
          }
          var k :| 0 <= k < |s| - 1 && s[1..][k] == c;
          assert s[k + 1] == c;
        }
      }
    }
  }
}
