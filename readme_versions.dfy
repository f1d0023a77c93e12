/**
 * `update_readme_versions`: `re.findall` and `re.sub` with the pattern
 * `(v3\.7\.4-)(\d{8})` and the replacement `\g<1>` followed by the new date.
 */
module ReadmeVersions {
  import opened Text

  /** Group 1 of the pattern, a literal. */
  const Prefix := "v3.7.4-"

  /** The pattern matches at position i: the prefix, then eight digits. */
  predicate VersionAt(s: string, i: nat) {
    i + 15 <= |s| && s[i..i + 7] == Prefix && AllDigits(s[i + 7..i + 15])
  }

  /**
   * `re.findall`: scans left to right; after a match the scan resumes at its
   * end, otherwise one character further. Python yields a `(group1, group2)`
   * pair per match; group 1 is always `Prefix`, so only group 2, the date, is
   * kept. The script uses only the number of matches.
   */
  function FindAll(s: string): (r: seq<string>)
    ensures forall m :: 0 <= m < |r| ==> IsDate(r[m])
    ensures 15 * |r| <= |s|
    decreases |s|
  {
    if s == [] then []
    else if VersionAt(s, 0) then [s[7..15]] + FindAll(s[15..])
    else FindAll(s[1..])
  }

  /**
   * `re.sub` with the same scan: every match becomes its group 1 (always
   * `Prefix`) followed by `date`; all other characters are copied.
   */
  function Substitute(s: string, date: string): (r: string)
    ensures |r| == |s| + |FindAll(s)| * (|date| - 8)
    decreases |s|
  {
    if s == [] then []
    else if VersionAt(s, 0) then Prefix + date + Substitute(s[15..], date)
    else [s[0]] + Substitute(s[1..], date)
  }

  /** The rewritten README text and the number of matches found before rewriting. */
  datatype Update = Update(content: string, count: nat)

  /** `update_readme_versions(readme_path, old_date, new_date)`; `old_date` is never read. */
  function UpdateReadme(content: string, oldDate: string, newDate: string): (r: Update)
    requires IsDate(newDate)
    ensures |r.content| == |content|
    ensures |FindAll(r.content)| == r.count
    ensures forall m :: 0 <= m < r.count ==> FindAll(r.content)[m] == newDate
  {
    FindAllAfterSubstitute(content, newDate);
    Update(Substitute(content, newDate), |FindAll(content)|)
  }

  // ----- Reference definition of the scan, by positions -----

  /** Position j lies in the date group of one of the matches starting at P. */
  ghost predicate Covered(P: seq<nat>, j: int) {
    exists m :: 0 <= m < |P| && P[m] + 7 <= j < P[m] + 15
  }

  /**
   * P lists the matches reported by a left-to-right, non-overlapping scan:
   * each is a match, they are increasing and do not overlap, and every match
   * of s missing from P starts inside an earlier reported match.
   */
  ghost predicate LeftmostNonOverlapping(s: string, P: seq<nat>) {
    && (forall m :: 0 <= m < |P| ==> VersionAt(s, P[m]))
    && Spaced(P)
    && (forall i: nat :: i < |s| && VersionAt(s, i) ==>
          i in P || exists m :: 0 <= m < |P| && P[m] < i < P[m] + 15)
  }

  /** Matches starting at P are in increasing order and do not overlap. */
  ghost predicate Spaced(P: seq<nat>) {
    forall m, n :: 0 <= m < n < |P| ==> P[m] + 15 <= P[n]
  }

  /** The start positions the scan reports from position i on. */
  ghost function Starts(s: string, i: nat): (P: seq<nat>)
    requires i <= |s|
    ensures forall m :: 0 <= m < |P| ==> i <= P[m] && VersionAt(s, P[m])
    ensures forall m, n :: 0 <= m < n < |P| ==> P[m] + 15 <= P[n]
    decreases |s| - i
  {
    if i == |s| then []
    else if VersionAt(s, i) then [i] + Starts(s, i + 15)
    else Starts(s, i + 1)
  }

  lemma {:induction false} StartsComplete(s: string, i: nat)
    requires i <= |s|
    ensures forall j: nat :: i <= j < |s| && VersionAt(s, j) ==>
      j in Starts(s, i) || exists m :: 0 <= m < |Starts(s, i)| && Starts(s, i)[m] < j < Starts(s, i)[m] + 15
    decreases |s| - i
  {
    var P := Starts(s, i);
    if i < |s| {
      if VersionAt(s, i) {
        var P' := Starts(s, i + 15);
        StartsComplete(s, i + 15);
        forall j: nat | i <= j < |s| && VersionAt(s, j)
          ensures j in P || exists m :: 0 <= m < |P| && P[m] < j < P[m] + 15
        {
          if j == i {
            assert P[0] == j;
          } else if j < i + 15 {
            assert P[0] < j < P[0] + 15;
          } else if j !in P' {
            var m' :| 0 <= m' < |P'| && P'[m'] < j < P'[m'] + 15;
            assert P[m' + 1] == P'[m'];
          } else {
            assert j in P;
          }
        }
      } else {
        StartsComplete(s, i + 1);
      }
    }
  }

  lemma StartsIsLeftmostNonOverlapping(s: string)
    ensures LeftmostNonOverlapping(s, Starts(s, 0))
  {
    StartsComplete(s, 0);
  }

  /** A match of Q that overlaps the (n+1)-st match of P, the first n being shared, is Q's (n+1)-st. */
  lemma OverlapIsNext(P: seq<nat>, Q: seq<nat>, n: nat, t: nat)
    requires Spaced(P) && Spaced(Q)
    requires n < |P| && t < |Q| && n <= |Q| && P[..n] == Q[..n]
    requires Q[t] <= P[n] < Q[t] + 15
    ensures n < |Q| && Q[n] <= P[n]
  {
  }

  /** Two scans that agree on their first n matches: the next match of P is no earlier than Q's. */
  lemma NoMatchSkipped(s: string, P: seq<nat>, Q: seq<nat>, n: nat)
    requires LeftmostNonOverlapping(s, P) && LeftmostNonOverlapping(s, Q)
    requires n < |P| && n <= |Q| && P[..n] == Q[..n]
    ensures n < |Q| && Q[n] <= P[n]
  {
    var x := P[n];
    assert VersionAt(s, x);
    var t: nat;
    if x in Q {
      t :| t < |Q| && Q[t] == x;
    } else {
      t :| t < |Q| && Q[t] < x < Q[t] + 15;
    }
    OverlapIsNext(P, Q, n, t);
  }

  lemma {:induction false} SameFrom(s: string, P: seq<nat>, Q: seq<nat>, n: nat)
    requires LeftmostNonOverlapping(s, P) && LeftmostNonOverlapping(s, Q)
    requires n <= |P| && n <= |Q| && P[..n] == Q[..n]
    ensures P == Q
    decreases |P| - n
  {
    if n < |P| && n < |Q| {
      NoMatchSkipped(s, P, Q, n);
      NoMatchSkipped(s, Q, P, n);
      assert P[..n + 1] == Q[..n + 1] by {
        assert P[..n + 1] == P[..n] + [P[n]];
        assert Q[..n + 1] == Q[..n] + [Q[n]];
      }
      SameFrom(s, P, Q, n + 1);
    } else if n < |P| {
      NoMatchSkipped(s, P, Q, n);
      assert false;
    } else if n < |Q| {
      NoMatchSkipped(s, Q, P, n);
      assert false;
    } else {
      assert P == P[..n] && Q == Q[..n];
    }
  }

  /** The reference definition pins the scan down: there is exactly one such list. */
  lemma LeftmostNonOverlappingUnique(s: string, P: seq<nat>, Q: seq<nat>)
    requires LeftmostNonOverlapping(s, P) && LeftmostNonOverlapping(s, Q)
    ensures P == Q
  {
    SameFrom(s, P, Q, 0);
  }

  // ----- The scanners agree with the reference definition -----

  lemma VersionAtSuffix(s: string, i: nat)
    requires i <= |s|
    ensures VersionAt(s[i..], 0) == VersionAt(s, i)
  {
    if i + 15 <= |s| {
      assert s[i..][..7] == s[i..i + 7];
      assert s[i..][7..15] == s[i + 7..i + 15];
    }
  }

  lemma {:induction false} FindAllFrom(s: string, i: nat)
    requires i <= |s|
    ensures |FindAll(s[i..])| == |Starts(s, i)|
    ensures forall m :: 0 <= m < |Starts(s, i)| ==>
      FindAll(s[i..])[m] == s[Starts(s, i)[m] + 7..Starts(s, i)[m] + 15]
    decreases |s| - i
  {
    if i < |s| {
      var u := s[i..];
      VersionAtSuffix(s, i);
      if VersionAt(s, i) {
        assert u[15..] == s[i + 15..];
        assert u[7..15] == s[i + 7..i + 15];
        FindAllFrom(s, i + 15);
      } else {
        assert u[1..] == s[i + 1..];
        FindAllFrom(s, i + 1);
      }
    }
  }

  /** Inside the date group of a reported match, the rewrite holds the new date. */
  lemma {:induction false} SubstituteFromCovered(s: string, d: string, i: nat)
    requires IsDate(d) && i <= |s|
    ensures forall m, x :: 0 <= m < |Starts(s, i)| && 0 <= x < |s| - i && Starts(s, i)[m] + 7 <= x + i < Starts(s, i)[m] + 15 ==>
      Substitute(s[i..], d)[x] == d[x + i - Starts(s, i)[m] - 7]
    decreases |s| - i
  {
    if i < |s| {
      var u := s[i..];
      var P := Starts(s, i);
      var r := Substitute(u, d);
      VersionAtSuffix(s, i);
      if VersionAt(s, i) {
        assert u[15..] == s[i + 15..];
        var P' := Starts(s, i + 15);
        var r' := Substitute(s[i + 15..], d);
        SubstituteFromCovered(s, d, i + 15);
        assert r == Prefix + d + r';
        forall m, x | 0 <= m < |P| && 0 <= x < |s| - i && P[m] + 7 <= x + i < P[m] + 15
          ensures r[x] == d[x + i - P[m] - 7]
        {
          if m > 0 {
            assert P[m] == P'[m - 1];
            assert r[x] == r'[x - 15];
          }
        }
      } else {
        assert u[1..] == s[i + 1..];
        var r' := Substitute(s[i + 1..], d);
        SubstituteFromCovered(s, d, i + 1);
        assert P == Starts(s, i + 1);
        assert r == [s[i]] + r';
        forall m, x | 0 <= m < |P| && 0 <= x < |s| - i && P[m] + 7 <= x + i < P[m] + 15
          ensures r[x] == d[x + i - P[m] - 7]
        {
          assert r[x] == r'[x - 1];
        }
      }
    }
  }

  /** Outside the date groups of the reported matches, the rewrite copies the text. */
  lemma {:induction false} SubstituteFromUncovered(s: string, d: string, i: nat)
    requires IsDate(d) && i <= |s|
    ensures forall x :: 0 <= x < |s| - i && !Covered(Starts(s, i), x + i) ==>
      Substitute(s[i..], d)[x] == s[x + i]
    decreases |s| - i
  {
    if i < |s| {
      var u := s[i..];
      var P := Starts(s, i);
      var r := Substitute(u, d);
      VersionAtSuffix(s, i);
      if VersionAt(s, i) {
        assert u[15..] == s[i + 15..];
        var P' := Starts(s, i + 15);
        var r' := Substitute(s[i + 15..], d);
        SubstituteFromUncovered(s, d, i + 15);
        assert r == Prefix + d + r';
        forall x | 0 <= x < |s| - i
          ensures !Covered(P, x + i) ==> r[x] == s[x + i]
        {
          if x < 7 {
            assert s[i..i + 7] == Prefix;
            assert s[x + i] == s[i..i + 7][x];
          } else if x < 15 {
            assert P[0] + 7 <= x + i < P[0] + 15;
          } else if Covered(P', x + i) {
            var m' :| 0 <= m' < |P'| && P'[m'] + 7 <= x + i < P'[m'] + 15;
            assert P[m' + 1] == P'[m'];
          } else {
            assert r[x] == r'[x - 15];
          }
        }
      } else {
        assert u[1..] == s[i + 1..];
        var r' := Substitute(s[i + 1..], d);
        SubstituteFromUncovered(s, d, i + 1);
        assert r == [s[i]] + r';
        forall x | 0 <= x < |s| - i && !Covered(P, x + i)
          ensures r[x] == s[x + i]
        {
          if x > 0 {
            assert r[x] == r'[x - 1];
          }
        }
      }
    }
  }

  // ----- Properties of update_readme_versions -----

  /** The first seven characters of a reported match are outside every date group. */
  lemma PrefixNotCovered(P: seq<nat>, m: nat, x: nat)
    requires Spaced(P) && m < |P| && x < 7
    ensures !Covered(P, P[m] + x)
  {
    forall n | 0 <= n < |P| ensures !(P[n] + 7 <= P[m] + x < P[n] + 15) {
      if n < m {
        assert P[n] + 15 <= P[m];
      } else if n > m {
        assert P[m] + 15 <= P[n];
      }
    }
  }

  /** Every reported match reads `Prefix` followed by the new date after the rewrite. */
  lemma SubstituteAtMatch(s: string, d: string, m: nat)
    requires IsDate(d) && m < |Starts(s, 0)|
    ensures Starts(s, 0)[m] + 15 <= |Substitute(s, d)|
    ensures Substitute(s, d)[Starts(s, 0)[m]..Starts(s, 0)[m] + 15] == Prefix + d
  {
    var P := Starts(s, 0);
    var t := Substitute(s, d);
    assert s[0..] == s;
    SubstituteFromCovered(s, d, 0);
    SubstituteFromUncovered(s, d, 0);
    forall x | 0 <= x < 15 ensures t[P[m] + x] == (Prefix + d)[x] {
      if x < 7 {
        PrefixNotCovered(P, m, x);
        assert s[P[m]..P[m] + 7] == Prefix;
        assert s[P[m] + x] == s[P[m]..P[m] + 7][x];
      }
    }
  }

  /**
   * For the matches P of the scan: the count is |P|, each match keeps its
   * prefix and carries the new date, and every character outside the date
   * groups of the matches is unchanged.
   */
  lemma UpdateReadmeRewritesMatches(content: string, oldDate: string, newDate: string, P: seq<nat>)
    requires IsDate(newDate)
    requires LeftmostNonOverlapping(content, P)
    ensures UpdateReadme(content, oldDate, newDate).count == |P|
    ensures forall m :: 0 <= m < |P| ==>
      UpdateReadme(content, oldDate, newDate).content[P[m]..P[m] + 15] == Prefix + newDate
    ensures forall j :: 0 <= j < |content| && !Covered(P, j) ==>
      UpdateReadme(content, oldDate, newDate).content[j] == content[j]
  {
    StartsIsLeftmostNonOverlapping(content);
    LeftmostNonOverlappingUnique(content, P, Starts(content, 0));
    assert content[0..] == content;
    FindAllFrom(content, 0);
    SubstituteFromUncovered(content, newDate, 0);
    forall m | 0 <= m < |P| ensures Substitute(content, newDate)[P[m]..P[m] + 15] == Prefix + newDate {
      SubstituteAtMatch(content, newDate, m);
    }
  }

  /** The count is the number of date groups found, old dates included. */
  lemma UpdateReadmeCountsAllDates(content: string, oldDate: string, newDate: string, P: seq<nat>)
    requires IsDate(newDate)
    requires LeftmostNonOverlapping(content, P)
    ensures UpdateReadme(content, oldDate, newDate).count == |FindAll(content)| == |P|
    ensures forall m :: 0 <= m < |P| ==> FindAll(content)[m] == content[P[m] + 7..P[m] + 15]
  {
    StartsIsLeftmostNonOverlapping(content);
    LeftmostNonOverlappingUnique(content, P, Starts(content, 0));
    assert content[0..] == content;
    FindAllFrom(content, 0);
  }

  // ----- Idempotence, by induction on the scan -----

  lemma {:induction false} SubstituteKeepsHead(s: string, d: string, j: nat)
    requires IsDate(d) && j < 7 && j < |s|
    ensures Substitute(s, d)[j] == s[j]
    decreases |s|
  {
    if VersionAt(s, 0) {
      assert s[..7] == Prefix;
      assert s[j] == s[..7][j];
    } else if j > 0 {
      SubstituteKeepsHead(s[1..], d, j - 1);
    }
  }

  lemma {:induction false} SubstituteKeepsDigits(s: string, d: string, j: nat)
    requires IsDate(d) && j < |s|
    ensures IsDigit(Substitute(s, d)[j]) == IsDigit(s[j])
    decreases |s|
  {
    if VersionAt(s, 0) {
      if 7 <= j < 15 {
        assert IsDigit(d[j - 7]);
        assert IsDigit(s[7..15][j - 7]);
      } else if j >= 15 {
        SubstituteKeepsDigits(s[15..], d, j - 15);
      }
    } else if j > 0 {
      SubstituteKeepsDigits(s[1..], d, j - 1);
    }
  }

  /** Rewriting neither creates nor destroys a match where the scan looks. */
  lemma SubstituteKeepsMatchAtStart(s: string, d: string)
    requires IsDate(d)
    ensures VersionAt(Substitute(s, d), 0) == VersionAt(s, 0)
  {
    var t := Substitute(s, d);
    if |s| >= 15 {
      forall j | 0 <= j < 7 ensures t[j] == s[j] {
        SubstituteKeepsHead(s, d, j);
      }
      forall j | 7 <= j < 15 ensures IsDigit(t[j]) == IsDigit(s[j]) {
        SubstituteKeepsDigits(s, d, j);
      }
      assert t[..7] == s[..7];
      assert AllDigits(t[7..15]) == AllDigits(s[7..15]) by {
        assert forall j :: 0 <= j < 8 ==> t[7..15][j] == t[7 + j] && s[7..15][j] == s[7 + j];
      }
    }
  }

  lemma {:induction false} FindAllAfterSubstitute(s: string, d: string)
    requires IsDate(d)
    ensures |FindAll(Substitute(s, d))| == |FindAll(s)|
    ensures forall m :: 0 <= m < |FindAll(s)| ==> FindAll(Substitute(s, d))[m] == d
    decreases |s|
  {
    if s != [] {
      var t := Substitute(s, d);
      SubstituteKeepsMatchAtStart(s, d);
      if VersionAt(s, 0) {
        assert t[15..] == Substitute(s[15..], d);
        assert t[7..15] == d;
        FindAllAfterSubstitute(s[15..], d);
      } else {
        assert t[1..] == Substitute(s[1..], d);
        FindAllAfterSubstitute(s[1..], d);
      }
    }
  }

  /** A second rewrite overrides the first: only the last date survives. */
  lemma {:induction false} SubstituteTwice(s: string, d1: string, d2: string)
    requires IsDate(d1) && IsDate(d2)
    ensures Substitute(Substitute(s, d1), d2) == Substitute(s, d2)
    decreases |s|
  {
    if s != [] {
      var t := Substitute(s, d1);
      SubstituteKeepsMatchAtStart(s, d1);
      if VersionAt(s, 0) {
        assert t[15..] == Substitute(s[15..], d1);
        SubstituteTwice(s[15..], d1, d2);
      } else {
        assert t[1..] == Substitute(s[1..], d1);
        assert t[0] == s[0];
        SubstituteTwice(s[1..], d1, d2);
      }
    }
  }

  /** Rewriting the output of a rewrite with the same date changes nothing and reports the same count. */
  lemma UpdateReadmeIdempotent(content: string, oldDate: string, oldDate': string, newDate: string)
    requires IsDate(newDate)
    ensures UpdateReadme(UpdateReadme(content, oldDate, newDate).content, oldDate', newDate)
         == UpdateReadme(content, oldDate, newDate)
  {
    SubstituteTwice(content, newDate, newDate);
    FindAllAfterSubstitute(content, newDate);
  }

  /** `old_date` is never read, and the count does not depend on `new_date`. */
  lemma UpdateReadmeIgnoresOldDate(content: string, o1: string, o2: string, d1: string, d2: string)
    requires IsDate(d1) && IsDate(d2)
    ensures UpdateReadme(content, o1, d1) == UpdateReadme(content, o2, d1)
    ensures UpdateReadme(content, o1, d1).count == UpdateReadme(content, o2, d2).count
  {
  }
}
