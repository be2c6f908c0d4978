/** The record filters of functions.py: generate_gender_lists (41-44) and
    find_special_characters (47-50). A spreadsheet row is reduced to the two
    columns they read. */
module RecordClassifier {
  import opened CharClasses

  /** One row: the 'Student Name' and 'Gender' cells. */
  datatype Student = Student(name: string, gender: string)

  /** `df[mask]['Student Name'].tolist()`: the names of the rows the mask
      keeps, in row order. */
  function Select(rows: seq<Student>, keep: Student -> bool): seq<string>
  {
    if rows == [] then []
    else (if keep(rows[0]) then [rows[0].name] else []) + Select(rows[1..], keep)
  }

  /** `df['Gender'] == 'M'`: exact string equality. */
  predicate IsMale(s: Student) { s.gender == "M" }

  /** `df['Gender'] == 'F'`: exact string equality. */
  predicate IsFemale(s: Student) { s.gender == "F" }

  /** A gender cell that is neither 'M' nor 'F'. */
  predicate IsUnrecognized(s: Student) { !IsMale(s) && !IsFemale(s) }

  /** generate_gender_lists: the male names and the female names. */
  function GenderLists(rows: seq<Student>): (seq<string>, seq<string>)
  {
    (Select(rows, IsMale), Select(rows, IsFemale))
  }

  /** A character of the class `[a-zA-Z\s,]`. */
  predicate IsAllowedInName(c: char) { IsAsciiLetter(c) || IsSpace(c) || c == ',' }

  /** `str.contains(r'[^a-zA-Z\s,]')`: some character lies outside the
      allowed class. */
  predicate HasSpecialCharacter(name: string) {
    exists i :: 0 <= i < |name| && !IsAllowedInName(name[i])
  }

  predicate IsFlagged(s: Student) { HasSpecialCharacter(s.name) }

  /** find_special_characters: the names holding a special character. */
  function SpecialCharacterNames(rows: seq<Student>): seq<string>
  {
    Select(rows, IsFlagged)
  }

  /** The names column. */
  function Names(rows: seq<Student>): seq<string>
  {
    if rows == [] then [] else [rows[0].name] + Names(rows[1..])
  }

  /** Every index moved one row down. */
  function Shift(idx: seq<nat>): (r: seq<nat>)
    ensures |r| == |idx| && forall k :: 0 <= k < |idx| ==> r[k] == idx[k] + 1
  {
    if idx == [] then [] else [idx[0] + 1] + Shift(idx[1..])
  }

  /** The row indices the mask keeps, in increasing order. */
  function KeptIndices(rows: seq<Student>, keep: Student -> bool): seq<nat>
  {
    if rows == [] then []
    else if keep(rows[0]) then [0] + Shift(KeptIndices(rows[1..], keep))
    else Shift(KeptIndices(rows[1..], keep))
  }

  // ---------------------------------------------------------------------
  // The filter in general

  /** Filtering distributes over concatenation of the rows: each row adds
      its own name or nothing, in place. */
  lemma {:induction false} SelectAppend(a: seq<Student>, b: seq<Student>, keep: Student -> bool)
    ensures Select(a + b, keep) == Select(a, keep) + Select(b, keep)
  {
    if a == [] {
      assert a + b == b;
    } else {
      assert (a + b)[0] == a[0];
      assert (a + b)[1..] == a[1..] + b;
      SelectAppend(a[1..], b, keep);
    }
  }

  /** `sel[k]` is the name of row `idx[k]`, a row the mask keeps. */
  predicate NamesAt(rows: seq<Student>, keep: Student -> bool, sel: seq<string>, idx: seq<nat>) {
    && |sel| == |idx|
    && forall k :: 0 <= k < |idx| ==> idx[k] < |rows| && keep(rows[idx[k]]) && sel[k] == rows[idx[k]].name
  }

  /** Indices into the tail, shifted, are indices into the whole table. */
  lemma NamesAtShift(rows: seq<Student>, keep: Student -> bool, sel: seq<string>, idx: seq<nat>)
    requires rows != [] && NamesAt(rows[1..], keep, sel, idx)
    ensures NamesAt(rows, keep, sel, Shift(idx))
  {
    var sh := Shift(idx);
    forall k | 0 <= k < |sh| ensures sh[k] < |rows| && keep(rows[sh[k]]) && sel[k] == rows[sh[k]].name {
      assert rows[sh[k]] == rows[1..][idx[k]];
    }
  }

  /** A kept first row puts its name and index in front. */
  lemma NamesAtCons(rows: seq<Student>, keep: Student -> bool, sel: seq<string>, idx: seq<nat>)
    requires rows != [] && keep(rows[0]) && NamesAt(rows, keep, sel, idx)
    ensures NamesAt(rows, keep, [rows[0].name] + sel, [0] + idx)
  {
    var sel', idx' := [rows[0].name] + sel, [0] + idx;
    forall k | 1 <= k < |idx'| ensures idx'[k] < |rows| && keep(rows[idx'[k]]) && sel'[k] == rows[idx'[k]].name {
      assert idx'[k] == idx[k - 1] && sel'[k] == sel[k - 1];
    }
  }

  /** One name per kept index, each the name of the row at that index. */
  lemma {:induction false} SelectAtKeptIndices(rows: seq<Student>, keep: Student -> bool)
    ensures NamesAt(rows, keep, Select(rows, keep), KeptIndices(rows, keep))
  {
    if rows != [] {
      SelectAtKeptIndices(rows[1..], keep);
      var ts, ti := Select(rows[1..], keep), KeptIndices(rows[1..], keep);
      NamesAtShift(rows, keep, ts, ti);
      if keep(rows[0]) {
        NamesAtCons(rows, keep, ts, Shift(ti));
      }
    }
  }

  /** Strictly increasing. */
  predicate Increasing(idx: seq<nat>) {
    forall k, l :: 0 <= k < l < |idx| ==> idx[k] < idx[l]
  }

  /** The kept indices are strictly increasing. */
  lemma {:induction false} KeptIndicesIncreasing(rows: seq<Student>, keep: Student -> bool)
    ensures Increasing(KeptIndices(rows, keep))
  {
    if rows != [] {
      KeptIndicesIncreasing(rows[1..], keep);
      var sh := Shift(KeptIndices(rows[1..], keep));
      assert Increasing(sh);
      if keep(rows[0]) {
        var idx := [0] + sh;
        forall k, l | 0 <= k < l < |idx| ensures idx[k] < idx[l] {
          assert idx[l] == sh[l - 1];
          if k > 0 { assert idx[k] == sh[k - 1]; }
        }
      }
    }
  }

  /** Every row the mask keeps has its index in `idx`. */
  predicate ListsKept(rows: seq<Student>, keep: Student -> bool, idx: seq<nat>) {
    forall i :: 0 <= i < |rows| && keep(rows[i]) ==> i in idx
  }

  /** Every kept row's index is listed. */
  lemma {:induction false} KeptIndicesComplete(rows: seq<Student>, keep: Student -> bool)
    ensures ListsKept(rows, keep, KeptIndices(rows, keep))
  {
    if rows != [] {
      KeptIndicesComplete(rows[1..], keep);
      var ti := KeptIndices(rows[1..], keep);
      var sh := Shift(ti);
      forall i | 1 <= i < |rows| && keep(rows[i]) ensures i in sh {
        assert rows[1..][i - 1] == rows[i];
        var k :| 0 <= k < |ti| && ti[k] == i - 1;
        assert sh[k] == i;
      }
      if keep(rows[0]) {
        var idx := [0] + sh;
        forall i | 0 <= i < |rows| && keep(rows[i]) ensures i in idx {
          if i == 0 { assert idx[0] == 0; } else { assert i in sh; }
        }
      }
    }
  }

  /** The filter's result is the names of exactly the kept rows, in row
      order: `KeptIndices` lists every kept row once, in increasing order,
      and the i-th name is the name of the i-th kept row. */
  lemma SelectIsSubsequence(rows: seq<Student>, keep: Student -> bool)
    ensures var idx := KeptIndices(rows, keep);
      && |Select(rows, keep)| == |idx|
      && (forall k :: 0 <= k < |idx| ==> idx[k] < |rows| && keep(rows[idx[k]])
                                         && Select(rows, keep)[k] == rows[idx[k]].name)
      && (forall k, l :: 0 <= k < l < |idx| ==> idx[k] < idx[l])
      && (forall i :: 0 <= i < |rows| && keep(rows[i]) ==> i in idx)
  {
    SelectAtKeptIndices(rows, keep);
    KeptIndicesIncreasing(rows, keep);
    KeptIndicesComplete(rows, keep);
  }

  /** A name is in the result exactly when some kept row carries it. */
  lemma {:induction false} SelectMembership(rows: seq<Student>, keep: Student -> bool, x: string)
    ensures x in Select(rows, keep) <==> exists i :: 0 <= i < |rows| && keep(rows[i]) && rows[i].name == x
  {
    if rows != [] {
      SelectMembership(rows[1..], keep, x);
      if exists i :: 0 <= i < |rows| && keep(rows[i]) && rows[i].name == x {
        var i :| 0 <= i < |rows| && keep(rows[i]) && rows[i].name == x;
        if i > 0 { assert rows[1..][i - 1] == rows[i]; }
      }
      if exists i :: 0 <= i < |rows| - 1 && keep(rows[1..][i]) && rows[1..][i].name == x {
        var i :| 0 <= i < |rows| - 1 && keep(rows[1..][i]) && rows[1..][i].name == x;
        assert rows[i + 1] == rows[1..][i];
      }
    }
  }

  // ---------------------------------------------------------------------
  // generate_gender_lists

  /** The male list, the female list and the names of the unrecognised rows
      together hold every name exactly once: the two lists are a partition
      of the recognised rows. */
  lemma {:induction false} GenderPartition(rows: seq<Student>)
    ensures |GenderLists(rows).0| + |GenderLists(rows).1| + |Select(rows, IsUnrecognized)| == |rows|
    ensures multiset(GenderLists(rows).0) + multiset(GenderLists(rows).1)
            + multiset(Select(rows, IsUnrecognized)) == multiset(Names(rows))
  {
    if rows != [] {
      GenderPartition(rows[1..]);
      var r := rows[0];
      var m, f, o := Select(rows[1..], IsMale), Select(rows[1..], IsFemale), Select(rows[1..], IsUnrecognized);
      assert multiset([r.name] + Names(rows[1..])) == multiset{r.name} + multiset(Names(rows[1..]));
      if IsMale(r) {
        assert multiset([r.name] + m) == multiset{r.name} + multiset(m);
      } else if IsFemale(r) {
        assert multiset([r.name] + f) == multiset{r.name} + multiset(f);
      } else {
        assert multiset([r.name] + o) == multiset{r.name} + multiset(o);
      }
    }
  }

  /** A row whose gender is neither 'M' nor 'F' changes neither list. */
  lemma UnrecognizedIgnored(a: seq<Student>, r: Student, b: seq<Student>)
    requires IsUnrecognized(r)
    ensures GenderLists(a + [r] + b) == GenderLists(a + b)
  {
    SelectAppend(a + [r], b, IsMale);
    SelectAppend(a, [r], IsMale);
    SelectAppend(a, b, IsMale);
    SelectAppend(a + [r], b, IsFemale);
    SelectAppend(a, [r], IsFemale);
    SelectAppend(a, b, IsFemale);
    assert Select([r], IsMale) == [] && Select([r], IsFemale) == [];
    assert Select(a, IsMale) + [] == Select(a, IsMale);
    assert Select(a, IsFemale) + [] == Select(a, IsFemale);
  }

  /** A male row adds its name at its place in the male list only. */
  lemma MaleRowAppended(a: seq<Student>, r: Student, b: seq<Student>)
    requires IsMale(r)
    ensures GenderLists(a + [r] + b).0 == GenderLists(a).0 + [r.name] + GenderLists(b).0
    ensures GenderLists(a + [r] + b).1 == GenderLists(a + b).1
  {
    SelectAppend(a + [r], b, IsMale);
    SelectAppend(a, [r], IsMale);
    SelectAppend(a + [r], b, IsFemale);
    SelectAppend(a, [r], IsFemale);
    SelectAppend(a, b, IsFemale);
    assert Select([r], IsMale) == [r.name] && Select([r], IsFemale) == [];
    assert Select(a, IsFemale) + [] == Select(a, IsFemale);
  }

  /** A female row adds its name at its place in the female list only. */
  lemma FemaleRowAppended(a: seq<Student>, r: Student, b: seq<Student>)
    requires IsFemale(r)
    ensures GenderLists(a + [r] + b).1 == GenderLists(a).1 + [r.name] + GenderLists(b).1
    ensures GenderLists(a + [r] + b).0 == GenderLists(a + b).0
  {
    SelectAppend(a + [r], b, IsFemale);
    SelectAppend(a, [r], IsFemale);
    SelectAppend(a + [r], b, IsMale);
    SelectAppend(a, [r], IsMale);
    SelectAppend(a, b, IsMale);
    assert Select([r], IsFemale) == [r.name] && Select([r], IsMale) == [];
    assert Select(a, IsMale) + [] == Select(a, IsMale);
  }

  // ---------------------------------------------------------------------
  // find_special_characters

  /** A name is in the special-character list exactly when some row carries
      it and it holds a character outside `a-zA-Z`, whitespace and comma. */
  lemma SpecialCharacterMembership(rows: seq<Student>, x: string)
    ensures x in SpecialCharacterNames(rows) <==>
      (HasSpecialCharacter(x) && exists i :: 0 <= i < |rows| && rows[i].name == x)
  {
    SelectMembership(rows, IsFlagged, x);
  }

  /** The hyphen of "Jo-Ann" is a special character; the comma and space of
      "Jo, Ann" are not. */
  lemma SpecialCharacterExamples()
    ensures HasSpecialCharacter("Jo-Ann")
    ensures !HasSpecialCharacter("Jo, Ann")
    ensures HasSpecialCharacter("O'Brien")
    ensures HasSpecialCharacter("Jos\U{E9}")
    ensures !HasSpecialCharacter("Mary Ann\tSmith")
  {
    assert !IsAllowedInName("Jo-Ann"[2]);
    assert !IsAllowedInName("O'Brien"[1]);
    assert !IsAllowedInName("Jos\U{E9}"[3]);
  }
}
