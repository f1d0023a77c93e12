/**
 * `main` of update-version.py as a function of the two files it reads:
 * each is absent (`None`) or present with its text. The outcome is the exit
 * code and the new README text when README.md is written.
 */
module UpdateVersion {
  import opened Text
  import opened DockerfileDate
  import opened ReadmeVersions

  /** The exit code, and the text written to README.md (`None`: README.md untouched). */
  datatype Outcome = Outcome(exitCode: int, written: Option<string>)

  function Run(dockerfile: Option<string>, readme: Option<string>): (r: Outcome)
    ensures r.exitCode == 0 || r.exitCode == 1
    ensures r.written.Some? <==> r.exitCode == 0
    ensures r.written.Some? ==> readme.Some? && |r.written.value| == |readme.value|
  {
    if dockerfile.None? then Outcome(1, None)
    else if readme.None? then Outcome(1, None)
    else
      match ExtractDate(dockerfile.value)
      case ValueError(_) => Outcome(1, None)
      case Ok(date) =>
        // the README is written back even when nothing was replaced
        Outcome(0, Some(UpdateReadme(readme.value, "", date).content))
  }

  /** A missing file ends the run with 1 before anything is read or written. */
  lemma RunMissingFile(dockerfile: Option<string>, readme: Option<string>)
    requires dockerfile.None? || readme.None?
    ensures Run(dockerfile, readme) == Outcome(1, None)
  {
  }

  /** Without a base-image date in the Dockerfile the run fails and README.md is left alone. */
  lemma RunWithoutBaseImage(dockerfile: string, readme: string)
    requires forall i: nat, k: nat :: !BaseImageAt(dockerfile, i, k)
    ensures Run(Some(dockerfile), Some(readme)) == Outcome(1, None)
  {
    ExtractDateFailsIffNoMatch(dockerfile);
  }

  /** The run succeeds exactly when both files exist and the Dockerfile names a dated base image. */
  lemma RunSucceedsIff(dockerfile: Option<string>, readme: Option<string>)
    ensures Run(dockerfile, readme).exitCode == 0 <==>
      dockerfile.Some? && readme.Some? && exists i: nat, k: nat :: BaseImageAt(dockerfile.value, i, k)
  {
    if dockerfile.Some? {
      ExtractDateFailsIffNoMatch(dockerfile.value);
    }
  }

  /**
   * On success the README is rewritten with the date of the leftmost base
   * image, whatever the number of replacements (zero included).
   */
  lemma RunRewritesWithFirstDate(dockerfile: string, readme: string, i: nat, k: nat)
    requires FirstBaseImage(dockerfile, i, k)
    ensures Run(Some(dockerfile), Some(readme))
         == Outcome(0, Some(UpdateReadme(readme, "", DateAt(dockerfile, i, k)).content))
  {
    ExtractDateIsLeftmost(dockerfile, i, k);
  }

  /** A second run over the files left by a successful first run writes the same README text. */
  lemma RunIdempotent(dockerfile: string, readme: string)
    requires Run(Some(dockerfile), Some(readme)).exitCode == 0
    ensures Run(Some(dockerfile), Run(Some(dockerfile), Some(readme)).written)
         == Run(Some(dockerfile), Some(readme))
  {
    var date := ExtractDate(dockerfile).value;
    UpdateReadmeIdempotent(readme, "", "", date);
  }

  /**
   * The worked example: base image `ubuntu:jammy-20240115` and two references
   * to `v3.7.4-20230101`; both are rewritten and two replacements are counted.
   */
  lemma ExampleExtract()
    ensures ExtractDate(From + " " + Image + "20240115") == Ok("20240115")
  {
    var docker := From + " " + Image + "20240115";
    assert BaseImageAt(docker, 0, 1) by {
      assert docker[0..4] == From;
      assert docker[5..18] == Image;
      assert docker[18..26] == "20240115";
    }
    assert DateAt(docker, 0, 1) == "20240115";
    ExtractDateIsLeftmost(docker, 0, 1);
  }

  /** The two references of the example are the matches at 0 and 20. */
  lemma ExampleMatches()
    ensures LeftmostNonOverlapping(Prefix + "20230101" + " and " + Prefix + "20230101", [0, 20])
  {
    var readme := Prefix + "20230101" + " and " + Prefix + "20230101";
    var P: seq<nat> := [0, 20];
    assert IsDate("20230101") by {
      forall m | 0 <= m < 8 ensures IsDigit("20230101"[m]) { }
    }
    assert VersionAt(readme, 0) by {
      assert readme[0..7] == Prefix;
      assert readme[7..15] == "20230101";
    }
    assert VersionAt(readme, 20) by {
      assert readme[20..] == Prefix + "20230101";
      assert readme[20..27] == Prefix;
      assert readme[27..35] == "20230101";
    }
    forall j: nat | j < |readme|
      ensures VersionAt(readme, j) ==> j in P || exists m :: 0 <= m < |P| && P[m] < j < P[m] + 15
    {
      if 15 <= j < 20 {
        assert readme[15..20] == " and ";
        assert readme[j] == readme[15..20][j - 15] != Prefix[0];
        assert j + 15 <= |readme| ==> readme[j..j + 7][0] == readme[j];
      } else if j > 20 {
        assert P[1] < j < P[1] + 15;
      } else if 0 < j < 15 {
        assert P[0] < j < P[0] + 15;
      }
    }
  }

  /** The matches of the example keep their prefix and take the new date; two are counted. */
  lemma ExampleUpdateMatches()
    ensures UpdateReadme(Prefix + "20230101" + " and " + Prefix + "20230101", "", "20240115").count == 2
    ensures UpdateReadme(Prefix + "20230101" + " and " + Prefix + "20230101", "", "20240115").content[..15]
         == Prefix + "20240115"
    ensures UpdateReadme(Prefix + "20230101" + " and " + Prefix + "20230101", "", "20240115").content[20..]
         == Prefix + "20240115"
  {
    var readme := Prefix + "20230101" + " and " + Prefix + "20230101";
    var P: seq<nat> := [0, 20];
    ExampleMatches();
    UpdateReadmeRewritesMatches(readme, "", "20240115", P);
    var t := UpdateReadme(readme, "", "20240115").content;
    assert t[..15] == t[P[0]..P[0] + 15];
    assert t[20..] == t[P[1]..P[1] + 15];
  }

  /** The text between the two matches of the example is left as it was. */
  lemma ExampleUpdateBetween()
    ensures UpdateReadme(Prefix + "20230101" + " and " + Prefix + "20230101", "", "20240115").content[15..20]
         == " and "
  {
    var readme := Prefix + "20230101" + " and " + Prefix + "20230101";
    var P: seq<nat> := [0, 20];
    ExampleMatches();
    UpdateReadmeRewritesMatches(readme, "", "20240115", P);
    var t := UpdateReadme(readme, "", "20240115").content;
    forall j | 15 <= j < 20 ensures t[j] == readme[j] {
      assert !Covered(P, j);
    }
    assert t[15..20] == readme[15..20] == " and ";
  }

  lemma ExampleUpdate()
    ensures UpdateReadme(Prefix + "20230101" + " and " + Prefix + "20230101", "", "20240115")
         == Update(Prefix + "20240115" + " and " + Prefix + "20240115", 2)
  {
    var head := Prefix + "20240115";
    var r := UpdateReadme(Prefix + "20230101" + " and " + Prefix + "20230101", "", "20240115");
    ExampleUpdateMatches();
    ExampleUpdateBetween();
    JoinSlices(r.content, head, " and ", head);
    assert Prefix + "20240115" + " and " + Prefix + "20240115" == head + " and " + head;
  }

  /** A text of length |a| + |b| + |c| whose three consecutive slices are a, b and c is a + b + c. */
  lemma JoinSlices(t: string, a: string, b: string, c: string)
    requires |t| == |a| + |b| + |c|
    requires t[..|a|] == a && t[|a|..|a| + |b|] == b && t[|a| + |b|..] == c
    ensures t == a + b + c
  {
    assert t == t[..|a|] + t[|a|..|a| + |b|] + t[|a| + |b|..];
  }

  lemma ExampleRun()
    ensures Run(Some(From + " " + Image + "20240115"), Some(Prefix + "20230101" + " and " + Prefix + "20230101"))
         == Outcome(0, Some(Prefix + "20240115" + " and " + Prefix + "20240115"))
  {
    ExampleExtract();
    ExampleUpdate();
  }
}
