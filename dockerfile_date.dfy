/**
 * `extract_date_from_dockerfile`: the leftmost match of
 * `FROM\s+ubuntu:jammy-(\d{8})` in the Dockerfile text, and its date group.
 */
module DockerfileDate {
  import opened Text

  const From := "FROM"
  const Image := "ubuntu:jammy-"
  const NotFoundMessage := "Could not find Ubuntu base image with date pattern in Dockerfile"

  /** The function either returns a value or raises `ValueError` with a message. */
  datatype Result<T> = Ok(value: T) | ValueError(message: string)

  /**
   * Reference definition of one match: at position i the text holds `FROM`,
   * k >= 1 whitespace characters, `ubuntu:jammy-` and eight digits.
   */
  ghost predicate BaseImageAt(s: string, i: nat, k: nat) {
    && 1 <= k
    && i + k + 25 <= |s|
    && s[i..i + 4] == From
    && (forall m :: i + 4 <= m < i + 4 + k ==> IsSpace(s[m]))
    && s[i + 4 + k..i + k + 17] == Image
    && AllDigits(s[i + k + 17..i + k + 25])
  }

  /** The date group of the match described by BaseImageAt(s, i, k). */
  ghost function DateAt(s: string, i: nat, k: nat): string
    requires BaseImageAt(s, i, k)
  {
    s[i + k + 17..i + k + 25]
  }

  /** The match at i is the leftmost one in s. */
  ghost predicate FirstBaseImage(s: string, i: nat, k: nat) {
    BaseImageAt(s, i, k) && forall j: nat, k': nat :: j < i ==> !BaseImageAt(s, j, k')
  }

  /** The greedy `\s+`: the end of the whitespace run that starts at j. */
  function SkipSpaces(s: string, j: nat): (r: nat)
    requires j <= |s|
    ensures j <= r <= |s|
    ensures forall m :: j <= m < r ==> IsSpace(s[m])
    ensures r == |s| || !IsSpace(s[r])
    decreases |s| - j
  {
    if j < |s| && IsSpace(s[j]) then SkipSpaces(s, j + 1) else j
  }

  /**
   * One attempt of the pattern at position i; on success, the position where
   * the date group starts. A shorter whitespace run can never be followed by
   * `u`, so trying only the greedy run loses no match.
   */
  function MatchAt(s: string, i: nat): (r: Option<nat>)
    requires i <= |s|
    ensures r.Some? ==> r.value >= i + 18 && BaseImageAt(s, i, r.value - i - 17)
  {
    if i + 4 <= |s| && s[i..i + 4] == From then
      var w := SkipSpaces(s, i + 4);
      if w > i + 4 && w + 21 <= |s| && s[w..w + 13] == Image && AllDigits(s[w + 13..w + 21])
      then Some(w + 13)
      else None
    else None
  }

  /** Every match at i is found by MatchAt, with the whole whitespace run. */
  lemma MatchAtComplete(s: string, i: nat, k: nat)
    requires BaseImageAt(s, i, k)
    ensures MatchAt(s, i) == Some(i + k + 17)
  {
    var w := SkipSpaces(s, i + 4);
    assert s[i + 4 + k] == Image[0];
  }

  /** `re.search`: tries the start positions i, i + 1, ..., |s| in turn. */
  function SearchFrom(s: string, i: nat): (r: Result<string>)
    requires i <= |s|
    ensures r.Ok? ==> IsDate(r.value)
    ensures r.ValueError? ==> r.message == NotFoundMessage
    decreases |s| - i
  {
    match MatchAt(s, i)
    case Some(p) => Ok(s[p..p + 8])
    case None => if i == |s| then ValueError(NotFoundMessage) else SearchFrom(s, i + 1)
  }

  /** The date of the Dockerfile's base image, or `ValueError` when there is none. */
  function ExtractDate(dockerfile: string): (r: Result<string>)
    ensures r.Ok? ==> IsDate(r.value)
    ensures r.ValueError? ==> r.message == NotFoundMessage
  {
    SearchFrom(dockerfile, 0)
  }

  /** The whitespace run of a match is unique: the regex has one way to match at a position. */
  lemma WhitespaceRunUnique(s: string, i: nat, k: nat, k': nat)
    requires BaseImageAt(s, i, k) && BaseImageAt(s, i, k')
    ensures k == k'
  {
    MatchAtComplete(s, i, k);
    MatchAtComplete(s, i, k');
  }

  lemma {:induction false} SearchFromSound(s: string, i: nat)
    requires i <= |s|
    requires forall j: nat, k: nat :: j < i ==> !BaseImageAt(s, j, k)
    ensures SearchFrom(s, i).ValueError? ==> forall j: nat, k: nat :: !BaseImageAt(s, j, k)
    ensures SearchFrom(s, i).Ok? ==>
      exists j: nat, k: nat :: FirstBaseImage(s, j, k) && SearchFrom(s, i).value == DateAt(s, j, k)
    decreases |s| - i
  {
    match MatchAt(s, i)
    case Some(p) =>
      assert FirstBaseImage(s, i, p - i - 17);
    case None =>
      forall k: nat ensures !BaseImageAt(s, i, k) {
        if BaseImageAt(s, i, k) { MatchAtComplete(s, i, k); }
      }
      if i == |s| {
        forall j: nat, k: nat ensures !BaseImageAt(s, j, k) {
          if j > i { assert !BaseImageAt(s, j, k); }
        }
      } else {
        SearchFromSound(s, i + 1);
      }
  }

  lemma {:induction false} SearchFromFindsFirst(s: string, i: nat, j: nat, k: nat)
    requires FirstBaseImage(s, j, k)
    requires i <= j
    ensures SearchFrom(s, i) == Ok(DateAt(s, j, k))
    decreases j - i
  {
    if i < j {
      SearchFromFindsFirst(s, i + 1, j, k);
    } else {
      MatchAtComplete(s, j, k);
    }
  }

  /** Extraction fails exactly when no position of the text matches the pattern. */
  lemma ExtractDateFailsIffNoMatch(s: string)
    ensures ExtractDate(s).ValueError? <==> forall i: nat, k: nat :: !BaseImageAt(s, i, k)
  {
    SearchFromSound(s, 0);
  }

  /** A successful extraction returns the date group of the leftmost match. */
  lemma ExtractDateFound(s: string)
    requires ExtractDate(s).Ok?
    ensures exists i: nat, k: nat :: FirstBaseImage(s, i, k) && ExtractDate(s).value == DateAt(s, i, k)
  {
    SearchFromSound(s, 0);
  }

  /** The leftmost match determines the result: earlier, incomplete prefixes are skipped. */
  lemma ExtractDateIsLeftmost(s: string, i: nat, k: nat)
    requires FirstBaseImage(s, i, k)
    ensures ExtractDate(s) == Ok(DateAt(s, i, k))
  {
    SearchFromFindsFirst(s, 0, i, k);
  }
}
