/** Path strings as the C library sees them: `dirname(3)` and the descendant
    relation used when a directory is renamed. */
module Paths {
  import opened Common

  /** The two paths that always name an existing directory. */
  predicate IsRoot(p: string) {
    p == "." || p == "/"
  }

  function StripTrailingSlashes(s: string): (r: string)
    ensures r <= s
    ensures r == [] || r[|r| - 1] != '/'
    ensures forall i :: |r| <= i < |s| ==> s[i] == '/'
  {
    if |s| > 0 && s[|s| - 1] == '/' then StripTrailingSlashes(s[..|s| - 1]) else s
  }

  /** Index of the last '/' in `s`, if any. */
  function LastSlash(s: string): (r: Option<nat>)
    ensures r.Some? ==> r.value < |s| && s[r.value] == '/'
    ensures r.Some? ==> forall j :: r.value < j < |s| ==> s[j] != '/'
    ensures r.None? ==> forall j :: 0 <= j < |s| ==> s[j] != '/'
  {
    if |s| == 0 then None
    else if s[|s| - 1] == '/' then Some(|s| - 1)
    else LastSlash(s[..|s| - 1])
  }

  /** glibc `dirname`: drop trailing slashes, then the last component, then the
      slashes before it; "." when no slash is left, "/" when only slashes are. */
  function Dirname(p: string): (r: string)
    ensures r != ""
    ensures p == "" ==> r == "."
  {
    if p == "" then "."
    else
      var t := StripTrailingSlashes(p);
      if t == "" then "/"
      else match LastSlash(t)
        case None => "."
        case Some(i) =>
          var h := StripTrailingSlashes(t[..i]);
          if h == "" then "/" else h
  }

  /** A measure that `Dirname` decreases on every path but the two roots. */
  function Rank(p: string): nat {
    if p == "" then 3 else if IsRoot(p) then 2 else 2 * |p| + 1
  }

  lemma DirnameRank(p: string)
    requires !IsRoot(p)
    ensures Rank(Dirname(p)) < Rank(p)
  {
    if p != "" {
      var t := StripTrailingSlashes(p);
      if t != "" {
        match LastSlash(t)
        case None =>
        case Some(i) =>
          var h := StripTrailingSlashes(t[..i]);
          assert |h| <= i < |t| <= |p|;
      }
    }
  }

  /** `q` is `p` or one of the directories `dirname` reaches from `p`. */
  predicate AncestorOrSelf(q: string, p: string)
    decreases Rank(p)
  {
    q == p || (!IsRoot(p) && (DirnameRank(p); AncestorOrSelf(q, Dirname(p))))
  }

  /** Walking up with `dirname` never reaches a path of higher rank. */
  lemma {:induction false} AncestorRank(q: string, p: string)
    requires AncestorOrSelf(q, p)
    ensures Rank(q) <= Rank(p)
    decreases Rank(p)
  {
    if q != p {
      DirnameRank(p);
      AncestorRank(q, Dirname(p));
    }
  }

  /** `k` lies strictly inside directory `a` (spelled with `a` as its prefix). */
  predicate Under(k: string, a: string) {
    |k| > |a| && k[..|a|] == a && k[|a|] == '/'
  }

  predicate AtOrUnder(k: string, a: string) {
    k == a || Under(k, a)
  }

  /** Where `k` ends up when directory `a` is renamed to `b`. */
  function Relocate(k: string, a: string, b: string): (r: string)
    ensures AtOrUnder(k, a) ==> AtOrUnder(r, b) && r[|b|..] == k[|a|..]
    ensures !AtOrUnder(k, a) ==> r == k
  {
    if AtOrUnder(k, a) then b + k[|a|..] else k
  }

  /** Relocation never sends two paths outside `b` to one place. */
  lemma RelocateInjective(k1: string, k2: string, a: string, b: string)
    requires !AtOrUnder(k1, b) && !AtOrUnder(k2, b)
    requires Relocate(k1, a, b) == Relocate(k2, a, b)
    ensures k1 == k2
  {
    if AtOrUnder(k1, a) && AtOrUnder(k2, a) {
      assert k1 == k1[..|a|] + k1[|a|..];
      assert k2 == k2[..|a|] + k2[|a|..];
    }
  }
}
