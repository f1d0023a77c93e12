/**
 * Character classes and small helpers shared by the two pattern matchers of
 * update-version.py.
 */
module Text {

  datatype Option<T> = None | Some(value: T)

  /** `\d` of Python's `re`, restricted to the ASCII digits. */
  predicate IsDigit(c: char) {
    '0' <= c <= '9'
  }

  /** `\s` of Python's `re` under the `re.ASCII` flag: space, `\t`, `\n`, `\v`, `\f`, `\r`. */
  predicate IsSpace(c: char) {
    c == ' ' || '\t' <= c <= '\r'
  }

  predicate AllDigits(s: string) {
    forall i :: 0 <= i < |s| ==> IsDigit(s[i])
  }

  /** A `YYYYMMDD` token: exactly what `\d{8}` captures. */
  predicate IsDate(s: string) {
    |s| == 8 && AllDigits(s)
  }
}
