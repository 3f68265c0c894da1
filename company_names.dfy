/**
 * The clean-up rules the company directory applies to one roster cell:
 * the raw test, the removal of CJK ideographs and trimming, the test on the
 * cleaned value, and the exclusion rule.
 */
module CompanyNames {
  import opened JsString
  import Collections
  import opened Roster

  /** The placeholder a roster cell holds for "no company". */
  const Dash := "-"

  /** The CJK Unified Ideographs block as the handler's pattern bounds it. */
  predicate IsCjk(c: char) {
    '\U{4E00}' <= c <= '\U{9FA5}'
  }

  /** The characters of the range 一-龥. */
  const CjkChars: set<char> := set c: char | IsCjk(c)

  /** `s.replace(/[一-龥]/g, '')` */
  function StripCjk(s: string): (r: string)
    ensures forall i :: 0 <= i < |r| ==> !IsCjk(r[i])
    ensures forall c :: c in r <==> c in s && !IsCjk(c)
    ensures (forall i :: 0 <= i < |s| ==> !IsCjk(s[i])) ==> r == s
    ensures Collections.IsSubsequence(r, s)
    ensures forall c :: multiset(r)[c] == if IsCjk(c) then 0 else multiset(s)[c]
  {
    CjkCharsMembers();
    CleanTextKept(s);
    RemoveChars(s, CjkChars)
  }

  lemma CjkCharsMembers()
    ensures forall c :: c in CjkChars <==> IsCjk(c)
  {
  }

  lemma CleanTextKept(s: string)
    ensures (forall i :: 0 <= i < |s| ==> !IsCjk(s[i])) ==> RemoveChars(s, CjkChars) == s
  {
    CjkCharsMembers();
    if forall i :: 0 <= i < |s| ==> !IsCjk(s[i]) {
      RemoveCharsNoop(s, CjkChars);
    }
  }

  /** The raw cell test: truthy, not the "none" marker, longer than one
      character. */
  predicate RawAccepted(raw: string) {
    raw != [] && raw != NoneMarker && |raw| > 1
  }

  /** Ideographs removed, then trimmed. */
  function CleanValue(raw: string): (r: string)
    ensures forall i :: 0 <= i < |r| ==> !IsCjk(r[i])
    ensures IsTrimmed(r)
  {
    var stripped := StripCjk(raw);
    var r := Trim(stripped);
    assert forall i :: 0 <= i < |r| ==> r[i] in stripped;
    r
  }

  /** The cleaned-value test: truthy, not the dash placeholder, longer than
      one character. */
  predicate Kept(clean: string) {
    clean != [] && clean != Dash && |clean| > 1
  }

  /** The exclusion rule: exactly "publicis" once lower-cased, or anything
      mentioning "resource". */
  predicate Excluded(clean: string) {
    ToLower(clean) == "publicis" || Contains(ToLower(clean), "resource")
  }

  /** The exclusion rule is an exact test for "publicis": the upper-case
      spelling is excluded, a longer name that only starts with it is not. */
  lemma PublicisExamples(upper: string, media: string)
    requires upper == "PUBLICIS" && media == "Publicis Media"
    ensures Excluded(upper)
    ensures !Excluded(media)
  {
    assert ToLower(upper) == "publicis";
    NoLetterR(media);
    assert |ToLower(media)| == 14;
    if Contains(ToLower(media), "resource") {
      ContainsFirstChar(ToLower(media), "resource");
    }
  }

  lemma NoLetterR(s: string)
    requires forall i :: 0 <= i < |s| ==> s[i] != 'r' && s[i] != 'R'
    ensures 'r' !in ToLower(s)
  {
    forall i | 0 <= i < |s| ensures ToLower(s)[i] != 'r' { }
  }

  /** A name that mentions "Resource" in any letter case is excluded. */
  lemma HumanResourceExcluded(w: string)
    requires w == "Human Resource"
    ensures Excluded(w)
  {
    var lower := ToLower(w);
    forall k | 6 <= k < 14
      ensures lower[k] == "resource"[k - 6]
    {
      assert lower[k] == LowerChar(w[k]);
    }
    assert "resource" <= lower[6..];
    ContainsAt(lower, "resource", 6);
  }
}
