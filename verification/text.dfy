/** Predicates on text shared by the reports and the file-name utilities. */
module Text {

  predicate StartsWith(s: string, prefix: string)
  {
    |prefix| <= |s| && s[..|prefix|] == prefix
  }

  predicate EndsWith(s: string, suffix: string)
  {
    |suffix| <= |s| && s[|s| - |suffix|..] == suffix
  }

  /** Python's `str.isdigit` on ASCII text: non-empty and all decimal digits. */
  predicate IsDigits(w: string)
  {
    |w| > 0 && forall k :: 0 <= k < |w| ==> '0' <= w[k] <= '9'
  }
}
