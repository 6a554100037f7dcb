/**
  String trimming as the registry uses it: `toTrimOrNull` trims a name the way
  Java's String.trim does (every char up to U+0020 counts as blank) and turns
  null or an all-blank name into null.
 */
module StringOps {
  import opened Wrappers

  predicate IsBlank(c: char) {
    c <= ' '
  }

  ghost predicate AllBlank(s: string) {
    forall k :: 0 <= k < |s| ==> IsBlank(s[k])
  }

  /** A string with no blank at either end (or empty): what trimming produces. */
  ghost predicate Trimmed(s: string) {
    s == [] || (!IsBlank(s[0]) && !IsBlank(s[|s| - 1]))
  }

  /** The number of blanks at the front of `s`. */
  function LeadingBlanks(s: string): (n: nat)
    ensures n <= |s|
    ensures AllBlank(s[..n])
    ensures n < |s| ==> !IsBlank(s[n])
  {
    if s != [] && IsBlank(s[0]) then 1 + LeadingBlanks(s[1..]) else 0
  }

  /** The number of blanks at the back of `s`. */
  function TrailingBlanks(s: string): (n: nat)
    ensures n <= |s|
    ensures AllBlank(s[|s| - n..])
    ensures n < |s| ==> !IsBlank(s[|s| - 1 - n])
  {
    if s != [] && IsBlank(s[|s| - 1]) then 1 + TrailingBlanks(s[..|s| - 1]) else 0
  }

  /** String.trim: drops the leading blanks, then the trailing blanks of what is left. */
  function Trim(s: string): (r: string)
    ensures Trimmed(r)
    ensures |r| <= |s|
  {
    var t := s[LeadingBlanks(s)..];
    t[..|t| - TrailingBlanks(t)]
  }

  /** Trimming removes exactly the blank padding around a trimmed core. */
  lemma TrimPadded(p: string, c: string, q: string)
    requires AllBlank(p) && AllBlank(q) && Trimmed(c)
    ensures Trim(p + c + q) == c
  {
    var s := p + c + q;
    if c == [] {
      assert s == p + q;
      assert AllBlank(s);
    } else {
      assert s[|p|] == c[0];
      assert forall k :: 0 <= k < |p| ==> s[k] == p[k];
      assert LeadingBlanks(s) == |p|;
      var t := s[|p|..];
      assert t == c + q;
      assert t[|t| - 1 - |q|] == c[|c| - 1];
      assert forall k :: 0 <= k < |q| ==> t[|c| + k] == q[k];
      assert TrailingBlanks(t) == |q|;
      assert t[..|t| - |q|] == c;
    }
  }

  lemma TrimIdempotent(s: string)
    ensures Trim(Trim(s)) == Trim(s)
  {
    assert [] + Trim(s) + [] == Trim(s);
    TrimPadded([], Trim(s), []);
  }

  /** `StringOps.toTrimOrNull`: the trimmed string, or None when the input is null or trims to nothing. */
  function ToTrimOrNull(s: Option<string>): (r: Option<string>)
    ensures r.Some? <==> s.Some? && Trim(s.value) != []
    ensures r.Some? ==> Trimmed(r.value) && r.value == Trim(s.value)
  {
    match s
    case None => None
    case Some(v) => var t := Trim(v); if t == [] then None else Some(t)
  }

  /** A name and its trimmed form resolve to the same key. */
  lemma ToTrimOrNullOfTrim(s: string)
    ensures ToTrimOrNull(Some(Trim(s))) == ToTrimOrNull(Some(s))
  {
    TrimIdempotent(s);
  }
}
