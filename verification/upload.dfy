/** The organisation-name clean-up of open_trails/upload.py, which turns an
    organisation name into the prefix of its upload key. */
module Upload {
  import opened Text

  /** `dashes`: every underscore becomes a dash; nothing else changes. */
  function Dashes(orgName: string): (r: string)
    ensures |r| == |orgName|
    ensures forall i :: 0 <= i < |orgName| ==>
              r[i] == (if orgName[i] == '_' then '-' else orgName[i])
    ensures '_' !in r
  {
    if |orgName| == 0 then ""
    else [if orgName[0] == '_' then '-' else orgName[0]] + Dashes(orgName[1..])
  }

  /** A name without underscores is left as it is, so applying `dashes`
      twice is the same as applying it once. */
  lemma {:induction false} DashesFixedPoint(s: string)
    requires '_' !in s
    ensures Dashes(s) == s
  {
    if |s| > 0 {
      assert '_' !in s[1..];
      DashesFixedPoint(s[1..]);
    }
  }

  /** `dashes` is idempotent. */
  lemma DashesIdempotent(s: string)
    ensures Dashes(Dashes(s)) == Dashes(s)
  {
    DashesFixedPoint(Dashes(s));
  }

  /** Upload keys are built as `dashes(name).lower()`; the two steps commute,
      since neither dash nor underscore is a letter. */
  lemma DashesLowerCommute(s: string)
    ensures Lower(Dashes(s)) == Dashes(Lower(s))
  {
  }
}
