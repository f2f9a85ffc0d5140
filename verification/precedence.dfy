/** Version precedence as section 11 of Semantic Versioning 2.0.0 defines it: major,
    minor and patch compared numerically; a pre-release ranks below the same core
    without one; pre-release identifiers compared left to right, numeric ones by
    value, alphanumeric ones in ASCII order, numeric below alphanumeric, and a
    longer list above its own prefix. Build metadata plays no part. */
module Precedence {

  import opened Decimal
  import opened SemVer

  /** ASCII (code point) order on strings, a proper prefix ranking first. */
  predicate LexLess(a: string, b: string)
    decreases |a|
  {
    if |a| == 0 then |b| > 0
    else if |b| == 0 then false
    else if a[0] < b[0] then true
    else a[0] == b[0] && LexLess(a[1..], b[1..])
  }

  /** Order of two pre-release identifiers. */
  predicate IdentLess(a: string, b: string) {
    if AllDigits(a) && AllDigits(b) then StringToNat(a) < StringToNat(b)
    else if AllDigits(a) then true
    else if AllDigits(b) then false
    else LexLess(a, b)
  }

  /** Order of two identifier lists compared field by field. */
  predicate IdentsLess(p: seq<string>, q: seq<string>)
    decreases |p|
  {
    if |p| == 0 then |q| > 0
    else if |q| == 0 then false
    else if IdentLess(p[0], q[0]) then true
    else p[0] == q[0] && IdentsLess(p[1..], q[1..])
  }

  /** Order of two pre-release labels, where no label ranks above every label. */
  predicate PreReleaseLess(p: seq<string>, q: seq<string>) {
    if |p| == 0 then false
    else if |q| == 0 then true
    else IdentsLess(p, q)
  }

  /** `a` has lower precedence than `b`; the library's `b.GreaterThan(a)`. */
  predicate Less(a: Version, b: Version) {
    if a.major != b.major then a.major < b.major
    else if a.minor != b.minor then a.minor < b.minor
    else if a.patch != b.patch then a.patch < b.patch
    else PreReleaseLess(a.pre, b.pre)
  }

  /** Neither version ranks above the other: same core and pre-release. */
  predicate SamePrecedence(a: Version, b: Version) {
    a.major == b.major && a.minor == b.minor && a.patch == b.patch && a.pre == b.pre
  }

  lemma {:induction false} LexIrreflexive(a: string)
    ensures !LexLess(a, a)
    decreases |a|
  {
    if |a| > 0 {
      LexIrreflexive(a[1..]);
    }
  }

  lemma {:induction false} LexTransitive(a: string, b: string, c: string)
    requires LexLess(a, b) && LexLess(b, c)
    ensures LexLess(a, c)
    decreases |a|
  {
    if |a| > 0 && a[0] == b[0] && b[0] == c[0] {
      LexTransitive(a[1..], b[1..], c[1..]);
    }
  }

  lemma {:induction false} LexTotal(a: string, b: string)
    requires a != b
    ensures LexLess(a, b) || LexLess(b, a)
    decreases |a|
  {
    if |a| > 0 && |b| > 0 && a[0] == b[0] {
      assert a == [a[0]] + a[1..] && b == [b[0]] + b[1..];
      LexTotal(a[1..], b[1..]);
    }
  }

  lemma IdentIrreflexive(a: string)
    ensures !IdentLess(a, a)
  {
    LexIrreflexive(a);
  }

  lemma IdentTransitive(a: string, b: string, c: string)
    requires IdentLess(a, b) && IdentLess(b, c)
    ensures IdentLess(a, c)
  {
    if !AllDigits(a) && !AllDigits(b) && !AllDigits(c) {
      LexTransitive(a, b, c);
    }
  }

  /** Distinct valid identifiers are always ordered one way or the other. */
  lemma IdentTotal(a: string, b: string)
    requires IsPreReleaseIdent(a) && IsPreReleaseIdent(b) && a != b
    ensures IdentLess(a, b) || IdentLess(b, a)
  {
    if AllDigits(a) && AllDigits(b) {
      if StringToNat(a) == StringToNat(b) {
        NumeralInjective(a, b);
      }
    } else if !AllDigits(a) && !AllDigits(b) {
      LexTotal(a, b);
    }
  }

  lemma {:induction false} IdentsIrreflexive(p: seq<string>)
    ensures !IdentsLess(p, p)
    decreases |p|
  {
    if |p| > 0 {
      IdentIrreflexive(p[0]);
      IdentsIrreflexive(p[1..]);
    }
  }

  lemma {:induction false} IdentsTransitive(p: seq<string>, q: seq<string>, r: seq<string>)
    requires IdentsLess(p, q) && IdentsLess(q, r)
    ensures IdentsLess(p, r)
    decreases |p|
  {
    if |p| > 0 {
      if IdentLess(p[0], q[0]) && IdentLess(q[0], r[0]) {
        IdentTransitive(p[0], q[0], r[0]);
      } else if !IdentLess(p[0], q[0]) && !IdentLess(q[0], r[0]) {
        IdentsTransitive(p[1..], q[1..], r[1..]);
      }
    }
  }

  lemma {:induction false} IdentsTotal(p: seq<string>, q: seq<string>)
    requires forall i :: 0 <= i < |p| ==> IsPreReleaseIdent(p[i])
    requires forall i :: 0 <= i < |q| ==> IsPreReleaseIdent(q[i])
    requires p != q
    ensures IdentsLess(p, q) || IdentsLess(q, p)
    decreases |p|
  {
    if |p| > 0 && |q| > 0 {
      if p[0] == q[0] {
        assert p == [p[0]] + p[1..] && q == [q[0]] + q[1..];
        IdentsTotal(p[1..], q[1..]);
      } else {
        IdentTotal(p[0], q[0]);
      }
    }
  }

  /** No version ranks below itself. */
  lemma LessIrreflexive(v: Version)
    ensures !Less(v, v)
  {
    IdentsIrreflexive(v.pre);
  }

  /** Precedence is transitive. */
  lemma LessTransitive(a: Version, b: Version, c: Version)
    requires Less(a, b) && Less(b, c)
    ensures Less(a, c)
  {
    if SamePrecedenceCore(a, b) && SamePrecedenceCore(b, c) && |a.pre| > 0 && |b.pre| > 0 && |c.pre| > 0 {
      IdentsTransitive(a.pre, b.pre, c.pre);
    }
  }

  predicate SamePrecedenceCore(a: Version, b: Version) {
    a.major == b.major && a.minor == b.minor && a.patch == b.patch
  }

  /** Any two valid versions are ordered, or have the same precedence, and never both. */
  lemma LessTotal(a: Version, b: Version)
    requires Valid(a) && Valid(b)
    ensures Less(a, b) || Less(b, a) || SamePrecedence(a, b)
    ensures SamePrecedence(a, b) ==> !Less(a, b) && !Less(b, a)
  {
    if SamePrecedenceCore(a, b) && a.pre != b.pre && |a.pre| > 0 && |b.pre| > 0 {
      IdentsTotal(a.pre, b.pre);
    }
    if SamePrecedence(a, b) {
      IdentsIrreflexive(a.pre);
    }
  }

  /** Precedence is asymmetric. */
  lemma LessAsymmetric(a: Version, b: Version)
    requires Less(a, b)
    ensures !Less(b, a)
  {
    if Less(b, a) {
      LessTransitive(a, b, a);
      LessIrreflexive(a);
    }
  }

  /** Versions of the same precedence rank alike against every third version. */
  lemma SamePrecedenceSubstitutes(a: Version, b: Version, c: Version)
    requires SamePrecedence(a, b)
    ensures Less(a, c) == Less(b, c) && Less(c, a) == Less(c, b)
  {
  }

  /** Build metadata never affects precedence. */
  lemma BuildIgnored(a: Version, b: Version, build: seq<string>)
    ensures Less(a.(build := build), b) == Less(a, b)
    ensures Less(a, b.(build := build)) == Less(a, b)
  {
  }

  /** A pre-release ranks below the release with the same core. */
  lemma PreReleaseBelowRelease(v: Version)
    requires |v.pre| > 0
    ensures Less(v, v.(pre := []))
  {
  }

  /** Version 1.0.0 with the given pre-release identifiers. */
  function OnePointZero(pre: seq<string>): Version {
    Version(1, 0, 0, pre, [])
  }

  /** The example chain of section 11: 1.0.0-alpha < 1.0.0-alpha.1 < 1.0.0-alpha.beta
      < 1.0.0-beta < 1.0.0-beta.2 < 1.0.0-beta.11 < 1.0.0-rc.1 < 1.0.0. */
  lemma ExampleChain()
    ensures Less(OnePointZero(["alpha"]), OnePointZero(["alpha", "1"]))
    ensures Less(OnePointZero(["alpha", "1"]), OnePointZero(["alpha", "beta"]))
    ensures Less(OnePointZero(["alpha", "beta"]), OnePointZero(["beta"]))
    ensures Less(OnePointZero(["beta"]), OnePointZero(["beta", "2"]))
    ensures Less(OnePointZero(["beta", "2"]), OnePointZero(["beta", "11"]))
    ensures Less(OnePointZero(["beta", "11"]), OnePointZero(["rc", "1"]))
    ensures Less(OnePointZero(["rc", "1"]), OnePointZero([]))
  {
    assert AllDigits("1") && AllDigits("2") && AllDigits("11");
    assert !IsDigit("alpha"[0]) && !IsDigit("beta"[0]) && !IsDigit("rc"[0]);
    assert StringToNat("2") == 2 && StringToNat("11") == 11;
    assert LexLess("alpha", "beta");
    assert LexLess("beta", "rc");
    assert ["alpha", "1"][1..] == ["1"] && ["alpha", "beta"][1..] == ["beta"];
    assert ["beta", "2"][1..] == ["2"] && ["beta", "11"][1..] == ["11"];
  }
}
